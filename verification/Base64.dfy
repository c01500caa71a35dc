/**
 The base64 encoder. It shifts bytes into a 32-bit accumulator that overflows on any
 input of more than four bytes; only bits that have not been shifted out are read.
 */
module Base64 {

  import opened Modular
  import opened Sequences
  import opened Wrappers

  type Byte = x: int | 0 <= x < 0x100

  const UPPER := "ABCDEFGHIJKLMNOPQRSTUVWXYZ"
  const LOWER := "abcdefghijklmnopqrstuvwxyz"
  const LOOKUP := UPPER + LOWER + "0123456789+/"

  // ---------------------------------------------------------------- section 4 of RFC 4648

  /** The alphabet, table 1. */
  function Letter(i: nat): char
    requires i < 64
  {
    if i < 26 then 'A' + i as char
    else if i < 52 then 'a' + (i - 26) as char
    else if i < 62 then '0' + (i - 52) as char
    else if i == 62 then '+' else '/'
  }

  function Digit(c: char): (d: Option<nat>)
    ensures d.Some? ==> d.value < 64 && Letter(d.value) == c
  {
    if 'A' <= c <= 'Z' then Some((c - 'A') as nat)
    else if 'a' <= c <= 'z' then Some(26 + (c - 'a') as nat)
    else if '0' <= c <= '9' then Some(52 + (c - '0') as nat)
    else if c == '+' then Some(62)
    else if c == '/' then Some(63)
    else None
  }

  lemma DigitOfLetter(i: nat)
    requires i < 64
    ensures Digit(Letter(i)) == Some(i) && Letter(i) != '='
  {
  }

  /** Three bytes are four letters; a shorter last group is padded. */
  function Encode(s: seq<Byte>): string {
    if s == [] then ""
    else if |s| == 1 then [Letter(s[0] / 4), Letter(s[0] % 4 * 16), '=', '=']
    else if |s| == 2 then [Letter(s[0] / 4), Letter(s[0] % 4 * 16 + s[1] / 16), Letter(s[1] % 16 * 4), '=']
    else
      [Letter(s[0] / 4), Letter(s[0] % 4 * 16 + s[1] / 16), Letter(s[1] % 16 * 4 + s[2] / 64), Letter(s[2] % 64)]
      + Encode(s[3..])
  }

  /** The bytes of a last group with padding: the bits that stand for no byte are zero. */
  function DecodeLast(s: string): Option<seq<Byte>>
    requires |s| == 4
  {
    var a, b, c := Digit(s[0]), Digit(s[1]), Digit(s[2]);
    if a.None? || b.None? then None
    else if s[2] == '=' then
      if b.value % 16 == 0 then Some([a.value * 4 + b.value / 16]) else None
    else if c.None? || c.value % 4 != 0 then None
    else Some([a.value * 4 + b.value / 16, b.value % 16 * 16 + c.value / 4])
  }

  function DecodeGroup(s: string): Option<seq<Byte>>
    requires |s| == 4
  {
    var a, b, c, d := Digit(s[0]), Digit(s[1]), Digit(s[2]), Digit(s[3]);
    if a.None? || b.None? || c.None? || d.None? then None
    else Some([a.value * 4 + b.value / 16, b.value % 16 * 16 + c.value / 4, c.value % 4 * 64 + d.value])
  }

  /** The strict decoder. */
  function Decode(s: string): Option<seq<Byte>> {
    if s == "" then Some([])
    else if |s| < 4 then None
    else if s[3] == '=' then if |s| == 4 then DecodeLast(s) else None
    else
      var first, rest := DecodeGroup(s[..4]), Decode(s[4..]);
      if first.None? || rest.None? then None else Some(first.value + rest.value)
  }

  /** Regrouping twenty-four bits into sixes and back. */
  lemma Regroup(a: Byte, b: Byte, c: Byte, d1: nat, d2: nat, d3: nat, d4: nat)
    requires d1 == a / 4 && d2 == a % 4 * 16 + b / 16 && d3 == b % 16 * 4 + c / 64 && d4 == c % 64
    ensures d1 < 64 && d2 < 64 && d3 < 64 && d4 < 64
    ensures d1 * 4 + d2 / 16 == a && d2 % 16 * 16 + d3 / 4 == b && d3 % 4 * 64 + d4 == c
  {
    assert d2 / 16 == a % 4 && d2 % 16 == b / 16;
    assert d3 / 4 == b % 16 && d3 % 4 == c / 64;
  }

  lemma GroupRoundTrip(a: Byte, b: Byte, c: Byte)
    ensures var s := [Letter(a / 4), Letter(a % 4 * 16 + b / 16), Letter(b % 16 * 4 + c / 64), Letter(c % 64)];
            DecodeGroup(s) == Some([a, b, c]) && s[3] != '='
  {
    var d1, d2, d3, d4 := a / 4, a % 4 * 16 + b / 16, b % 16 * 4 + c / 64, c % 64;
    Regroup(a, b, c, d1, d2, d3, d4);
    DigitOfLetter(d1);
    DigitOfLetter(d2);
    DigitOfLetter(d3);
    DigitOfLetter(d4);
  }

  lemma LastRoundTrip(a: Byte, b: Byte)
    ensures DecodeLast([Letter(a / 4), Letter(a % 4 * 16), '=', '=']) == Some([a])
    ensures DecodeLast([Letter(a / 4), Letter(a % 4 * 16 + b / 16), Letter(b % 16 * 4), '=']) == Some([a, b])
  {
    var d1, d2, d3 := a / 4, a % 4 * 16 + b / 16, b % 16 * 4;
    Regroup(a, b, 0, d1, d2, d3, 0);
    Regroup(a, 0, 0, d1, a % 4 * 16, 0, 0);
    DigitOfLetter(d1);
    DigitOfLetter(d2);
    DigitOfLetter(d3);
    DigitOfLetter(a % 4 * 16);
  }

  lemma {:induction false} EncodedLength(s: seq<Byte>)
    ensures |Encode(s)| == 4 * ((|s| + 2) / 3)
  {
    if |s| > 2 {
      EncodedLength(s[3..]);
      assert |Encode(s)| == 4 + |Encode(s[3..])|;
      OneMoreGroup(|s|, |s| - 3);
    }
  }

  lemma OneMoreGroup(n: nat, m: nat)
    requires n == m + 3
    ensures (n + 2) / 3 == 1 + (m + 2) / 3
  {
  }

  lemma FourTimes(n: nat, k: nat)
    requires n == 4 * k
    ensures n % 4 == 0
  {
  }

  lemma {:induction false} DecodeInvertsEncode(s: seq<Byte>)
    ensures Decode(Encode(s)) == Some(s)
  {
    if |s| == 0 {
    } else if |s| == 1 {
      LastRoundTrip(s[0], 0);
      assert s == [s[0]];
    } else if |s| == 2 {
      LastRoundTrip(s[0], s[1]);
      assert s == [s[0], s[1]];
    } else {
      DecodeInvertsEncode(s[3..]);
      NextGroup(s, Encode(s), Encode(s[3..]));
    }
  }

  lemma NextGroup(s: seq<Byte>, t: string, rest: string)
    requires |s| > 2 && t == Encode(s) && rest == Encode(s[3..]) && Decode(rest) == Some(s[3..])
    ensures Decode(t) == Some(s)
  {
    GroupRoundTrip(s[0], s[1], s[2]);
    assert t[..4] ==
           [Letter(s[0] / 4), Letter(s[0] % 4 * 16 + s[1] / 16), Letter(s[1] % 16 * 4 + s[2] / 64), Letter(s[2] % 64)];
    assert t[4..] == rest;
    assert s == [s[0], s[1], s[2]] + s[3..];
  }

  lemma Recombine(a: nat, b: nat, c: nat, d: nat)
    requires a < 64 && b < 64 && c < 64 && d < 64
    ensures var x, y, z := a * 4 + b / 16, b % 16 * 16 + c / 4, c % 4 * 64 + d;
            x / 4 == a && x % 4 * 16 + y / 16 == b && y % 16 * 4 + z / 64 == c && z % 64 == d
  {
    var x, y, z := a * 4 + b / 16, b % 16 * 16 + c / 4, c % 4 * 64 + d;
    assert x % 4 == b / 16 && y / 16 == b % 16;
    assert y % 16 == c / 4 && z / 64 == c % 4;
  }

  lemma GroupIsEncoded(s: string)
    requires |s| == 4 && DecodeGroup(s).Some?
    ensures var x := DecodeGroup(s).value;
            s == [Letter(x[0] / 4), Letter(x[0] % 4 * 16 + x[1] / 16), Letter(x[1] % 16 * 4 + x[2] / 64),
                  Letter(x[2] % 64)]
  {
    Recombine(Digit(s[0]).value, Digit(s[1]).value, Digit(s[2]).value, Digit(s[3]).value);
  }

  lemma LastIsEncoded(s: string)
    requires |s| == 4 && s[3] == '=' && DecodeLast(s).Some?
    ensures s == Encode(DecodeLast(s).value)
  {
    if s[2] == '=' {
      Recombine(Digit(s[0]).value, Digit(s[1]).value, 0, 0);
    } else {
      Recombine(Digit(s[0]).value, Digit(s[1]).value, Digit(s[2]).value, 0);
    }
  }

  /** No other string decodes to the same bytes. */
  lemma {:induction false} EncodingIsUnique(s: string)
    requires Decode(s).Some?
    ensures s == Encode(Decode(s).value)
  {
    if s != "" {
      if s[3] == '=' {
        LastIsEncoded(s);
      } else {
        GroupIsEncoded(s[..4]);
        EncodingIsUnique(s[4..]);
        var x := Decode(s).value;
        assert x[3..] == Decode(s[4..]).value;
        assert s == s[..4] + s[4..];
      }
    }
  }

  // ---------------------------------------------------------------- the accumulator

  /** The letters still to come when `valb + 6` bits of the accumulator are pending. */
  function Letters(valb: int, val: int, rest: seq<Byte>): string
    requires valb == -6 || valb == -4 || valb == -2
    decreases rest
  {
    match valb
    case -6 =>
      if rest == [] then ""
      else [Letter(rest[0] / 4)] + Letters(-4, rest[0], rest[1..])
    case -4 =>
      if rest == [] then [Letter(val % 4 * 16), '=', '=']
      else [Letter(val % 4 * 16 + rest[0] / 16)] + Letters(-2, rest[0], rest[1..])
    case _ =>
      if rest == [] then [Letter(val % 16 * 4), '=']
      else [Letter(val % 16 * 4 + rest[0] / 64), Letter(rest[0] % 64)] + Letters(-6, rest[0], rest[1..])
  }

  lemma WholeGroup(s: seq<Byte>, val: int)
    requires |s| > 2
    ensures Letters(-6, val, s) ==
            [Letter(s[0] / 4), Letter(s[0] % 4 * 16 + s[1] / 16), Letter(s[1] % 16 * 4 + s[2] / 64),
             Letter(s[2] % 64)] + Letters(-6, s[2], s[3..])
  {
    var s1 := s[1..];
    var s2 := s1[1..];
    assert s2[1..] == s[3..];
    assert Letters(-2, s[1], s2) == [Letter(s[1] % 16 * 4 + s[2] / 64), Letter(s[2] % 64)] + Letters(-6, s[2], s[3..]);
    assert Letters(-4, s[0], s1) == [Letter(s[0] % 4 * 16 + s[1] / 16)] + Letters(-2, s[1], s2);
  }

  lemma LastGroup(s: seq<Byte>, val: int)
    requires |s| <= 2
    ensures Letters(-6, val, s) == Encode(s)
  {
    if |s| == 2 {
      var s1 := s[1..];
      assert Letters(-4, s[0], s1) == [Letter(s[0] % 4 * 16 + s[1] / 16)] + Letters(-2, s[1], s1[1..]);
    }
  }

  /** From the start these are the letters of the encoding. */
  lemma {:induction false} LettersAreEncoding(s: seq<Byte>, val: int)
    ensures Letters(-6, val, s) == Encode(s)
  {
    if |s| <= 2 {
      LastGroup(s, val);
    } else {
      WholeGroup(s, val);
      LettersAreEncoding(s[3..], s[2]);
    }
  }

  /** Letters still to come within the inner loop. */
  function Pending(valb: int, val: int, rest: seq<Byte>): string
    requires valb in {-6, -4, -2, 0, 2, 4, 6}
  {
    match valb
    case 0 => [Letter(val % 64)] + Letters(-6, val, rest)
    case 2 => [Letter(val / 4 % 64)] + Letters(-4, val, rest)
    case 4 => [Letter(val / 16 % 64)] + Letters(-2, val, rest)
    case 6 => [Letter(val / 64 % 64), Letter(val % 64)] + Letters(-6, val, rest)
    case _ => Letters(valb, val, rest)
  }

  /** Only the low bits of the accumulator matter. */
  lemma LowBits(val: int, b: Byte, m: int, w: int)
    requires m == Wrap(val * 256) && w == Wrap(m + b)
    ensures w / 4 % 64 == b / 4 && w % 4 == b % 4
    ensures w / 16 % 64 == val % 4 * 16 + b / 16 && w % 16 == b % 16
    ensures w / 64 % 64 == val % 16 * 4 + b / 64 && w % 64 == b % 64
  {
    LowTwelve(val, b, m, w);
    Pieces(w, val % 16, b);
    Nested(val, val % 16);
  }

  lemma Nested(val: int, v: nat)
    requires v == val % 16
    ensures v % 4 == val % 4
  {
    ModUnique(val, 4, 4 * (val / 16) + v / 4, v % 4);
  }

  lemma LowTwelve(val: int, b: Byte, m: int, w: int)
    requires m == Wrap(val * 256) && w == Wrap(m + b)
    ensures w % 0x1000 == val % 16 * 256 + b
  {
    WrapLow(val * 256);
    WrapLow(m + b);
    LowOfSum(val, b, m);
  }

  lemma WrapLow(x: int)
    ensures Wrap(x) % 0x1000 == x % 0x1000
  {
    var h := x + 0x8000_0000;
    var k, q, r := h / INT, x / 0x1000, x % 0x1000;
    assert h == k * INT + h % INT && x == q * 0x1000 + r;
    ModUnique(Wrap(x), 0x1000, q - k * 0x10_0000, r);
  }

  lemma LowOfSum(val: int, b: Byte, w: int)
    requires w % 0x1000 == val * 256 % 0x1000
    ensures (w + b) % 0x1000 == val % 16 * 256 + b
  {
    assert val * 256 % 0x1000 == val % 16 * 256;
  }

  lemma Pieces(w: int, v: nat, b: Byte)
    requires v < 16 && w % 0x1000 == v * 256 + b
    ensures w / 4 % 64 == b / 4 && w % 4 == b % 4
    ensures w / 16 % 64 == v % 4 * 16 + b / 16 && w % 16 == b % 16
    ensures w / 64 % 64 == v * 4 + b / 64 && w % 64 == b % 64
  {
    var q := w / 0x1000;
    assert w == q * 0x1000 + v * 256 + b;
    Piece4(w, q, v, b);
    Piece16(w, q, v, b);
    Piece64(w, q, v, b);
  }

  lemma Piece4(w: int, q: int, v: nat, b: Byte)
    requires v < 16 && w == q * 0x1000 + v * 256 + b
    ensures w / 4 % 64 == b / 4 && w % 4 == b % 4
  {
    ModUnique(w, 4, q * 0x400 + v * 64 + b / 4, b % 4);
    ModUnique(w / 4, 64, q * 16 + v, b / 4);
  }

  lemma Piece16(w: int, q: int, v: nat, b: Byte)
    requires v < 16 && w == q * 0x1000 + v * 256 + b
    ensures w / 16 % 64 == v % 4 * 16 + b / 16 && w % 16 == b % 16
  {
    ModUnique(w, 16, q * 0x100 + v * 16 + b / 16, b % 16);
    ModUnique(w / 16, 64, q * 4 + v / 4, v % 4 * 16 + b / 16);
  }

  lemma Piece64(w: int, q: int, v: nat, b: Byte)
    requires v < 16 && w == q * 0x1000 + v * 256 + b
    ensures w / 64 % 64 == v * 4 + b / 64 && w % 64 == b % 64
  {
    ModUnique(w, 64, q * 64 + v * 4 + b / 64, b % 64);
    ModUnique(w / 64, 64, q, v * 4 + b / 64);
  }

  /** Shifting in a byte makes its letters pending. */
  lemma ShiftIn(valb: int, val: int, rest: seq<Byte>, w: int)
    requires valb in {-6, -4, -2} && rest != [] && w == Wrap(Wrap(val * 256) + rest[0])
    ensures Pending(valb + 8, w, rest[1..]) == Letters(valb, val, rest)
  {
    LowBits(val, rest[0], Wrap(val * 256), w);
    LettersOfLowBits(-4, w, rest[0], rest[1..]);
    LettersOfLowBits(-2, w, rest[0], rest[1..]);
    LettersOfLowBits(-6, w, rest[0], rest[1..]);
  }

  lemma LettersOfLowBits(valb: int, w: int, b: int, rest: seq<Byte>)
    requires valb in {-6, -4, -2} && w % 16 == b % 16 && w % 4 == b % 4
    ensures Letters(valb, w, rest) == Letters(valb, b, rest)
  {
  }

  // ---------------------------------------------------------------- the code

  /** An arithmetic right shift. */
  function Shr(x: int, n: nat): int
    decreases n
  {
    if n == 0 then x else Shr(x / 2, n - 1)
  }

  lemma ShrIsQuotient(x: int)
    ensures Shr(x, 0) == x && Shr(x, 2) == x / 4 && Shr(x, 4) == x / 16 && Shr(x, 6) == x / 64
  {
    assert Shr(x, 2) == x / 4;
    assert Shr(x, 4) == Shr(x / 4, 2);
    assert Shr(x, 6) == Shr(x / 16, 2);
  }

  lemma LookupIsAlphabet(i: nat)
    requires i < 64
    ensures |LOOKUP| == 64 && LOOKUP[i] == Letter(i)
  {
    if i < 26 {
      Upper(i);
    } else if i < 52 {
      Lower(i - 26);
    } else {
      Others(i - 52);
    }
  }

  lemma Upper(i: nat)
    requires i < 26
    ensures UPPER[i] == 'A' + i as char
  {
  }

  lemma Lower(i: nat)
    requires i < 26
    ensures LOWER[i] == 'a' + i as char
  {
  }

  lemma Others(i: nat)
    requires i < 12
    ensures "0123456789+/"[i] == Letter(52 + i)
  {
  }

  /** Taking the top pending letter. */
  lemma TakeLetter(valb: int, val: int, rest: seq<Byte>, x: char)
    requires valb in {0, 2, 4, 6} && x == Letter(Shr(val, valb) % 64)
    ensures Pending(valb, val, rest) == [x] + Pending(valb - 6, val, rest)
  {
    ShrIsQuotient(val);
  }

  /** The inner loop: every full letter that is pending. */
  method Emit(out: string, valb: int, val: int, ghost rest: seq<Byte>, ghost all: string)
    returns (out': string, valb': int)
    requires valb in {2, 4, 6} && out + Pending(valb, val, rest) == all
    ensures valb' in {-6, -4, -2} && out' + Letters(valb', val, rest) == all
  {
    out', valb' := out, valb;
    while valb' >= 0
      invariant valb' in {-6, -4, -2, 0, 2, 4, 6} && out' + Pending(valb', val, rest) == all
    {
      var x := Shr(val, valb') % 64;
      LookupIsAlphabet(x);
      TakeLetter(valb', val, rest, LOOKUP[x]);
      Associative(out', [LOOKUP[x]], Pending(valb' - 6, val, rest));
      out' := out' + [LOOKUP[x]];
      valb' := valb' - 6;
    }
  }

  /** The last bits, if any, and the padding. */
  method Finish(out: string, valb: int, val: int, ghost all: string) returns (out': string)
    requires valb in {-6, -4, -2} && out + Letters(valb, val, []) == all && |all| % 4 == 0
    ensures out' == all
  {
    ghost var pad := Padding(valb);
    out' := out;
    if valb > -6 {
      var x := Shr(Wrap(val * 256), valb + 8) % 64;
      LookupIsAlphabet(x);
      LastLetter(valb, val, LOOKUP[x]);
      Associative(out, [LOOKUP[x]], pad);
      out' := out + [LOOKUP[x]];
    }
    while |out'| % 4 != 0
      invariant |pad| <= 2 && out' + pad == all && forall k :: 0 <= k < |pad| ==> pad[k] == '='
      decreases |pad|
    {
      TakePad(out', pad, all);
      out', pad := out' + ['='], pad[1..];
    }
    assert out' + pad == all && |pad| % 4 == 0;
    assert out' + [] == out';
  }

  lemma TakePad(out: string, pad: string, all: string)
    requires |all| % 4 == 0 && |out| % 4 != 0 && out + pad == all && forall k :: 0 <= k < |pad| ==> pad[k] == '='
    ensures pad != [] && (out + ['=']) + pad[1..] == all
  {
    assert |all| == |out| + |pad|;
    assert pad == ['='] + pad[1..];
  }

  method EncodeBase64(s: seq<Byte>) returns (out: string)
    ensures out == Encode(s)
    ensures Decode(out) == Some(s) && |out| == 4 * ((|s| + 2) / 3)
  {
    out := "";
    var val, valb, i := 0, -6, 0;
    ghost var all := Encode(s);
    LettersAreEncoding(s, val);
    while i < |s|
      invariant i <= |s| && valb in {-6, -4, -2} && out + Letters(valb, val, s[i..]) == all
    {
      ghost var before, rest := val, s[i..];
      val := Wrap(Wrap(val * 256) + s[i]);
      ShiftIn(valb, before, rest, val);
      valb := valb + 8;
      out, valb := Emit(out, valb, val, rest[1..], all);
      i := i + 1;
      assert rest[1..] == s[i..];
    }
    EncodedLength(s);
    DecodeInvertsEncode(s);
    assert s[i..] == [];
    FourTimes(|all|, (|s| + 2) / 3);
    out := Finish(out, valb, val, all);
  }

  function Padding(valb: int): string {
    if valb == -4 then "==" else if valb == -2 then "=" else ""
  }

  lemma LastLetter(valb: int, val: int, x: char)
    requires valb in {-4, -2} && x == Letter(Shr(Wrap(val * 256), valb + 8) % 64)
    ensures Letters(valb, val, []) == [x] + Padding(valb)
  {
    ShrIsQuotient(Wrap(val * 256));
    LowBits(val, 0, Wrap(val * 256), Wrap(Wrap(val * 256) + 0));
    WrapTwice(val * 256);
  }

  lemma WrapTwice(x: int)
    ensures Wrap(Wrap(x)) == Wrap(x)
  {
  }
}
