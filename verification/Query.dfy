/** Percent encoding, section 2.1 of RFC 3986, and the printing and parsing of query strings. */
module Query {

  import opened Modular
  import opened Sequences
  import opened Text
  import opened Wrappers

  // ---------------------------------------------------------------- UTF-8

  /** The bytes of a code point; none for a surrogate. */
  function ToUtf8(code: nat): (s: string)
    requires code < 0x110000
    ensures IsBytes(s)
  {
    if code < 0x80 then [code as char]
    else if code < 0x800 then [(0xC0 + code / 0x40) as char, (0x80 + code % 0x40) as char]
    else if 0xD800 <= code < 0xE000 then ""
    else if code < 0x10000 then
      [(0xE0 + code / 0x1000) as char, (0x80 + code / 0x40 % 0x40) as char, (0x80 + code % 0x40) as char]
    else
      [(0xF0 + code / 0x40000) as char, (0x80 + code / 0x1000 % 0x40) as char, (0x80 + code / 0x40 % 0x40) as char,
       (0x80 + code % 0x40) as char]
  }

  function Trailing(c: char): Option<nat> {
    if 0x80 <= c as int < 0xC0 then Some(c as int - 0x80) else None
  }

  /** Section 3 of RFC 3629: shortest forms only, and no surrogates. */
  function FromUtf8(s: string): Option<nat> {
    if |s| == 1 && s[0] as int < 0x80 then Some(s[0] as int)
    else if |s| == 2 && 0xC2 <= s[0] as int < 0xE0 && Trailing(s[1]).Some? then
      Some((s[0] as int - 0xC0) * 0x40 + Trailing(s[1]).value)
    else if |s| == 3 && 0xE0 <= s[0] as int < 0xF0 && Trailing(s[1]).Some? && Trailing(s[2]).Some? then
      var code := (s[0] as int - 0xE0) * 0x1000 + Trailing(s[1]).value * 0x40 + Trailing(s[2]).value;
      if code < 0x800 || 0xD800 <= code < 0xE000 then None else Some(code)
    else if |s| == 4 && 0xF0 <= s[0] as int < 0xF5 &&
            Trailing(s[1]).Some? && Trailing(s[2]).Some? && Trailing(s[3]).Some? then
      var code := (s[0] as int - 0xF0) * 0x40000 + Trailing(s[1]).value * 0x1000 +
                  Trailing(s[2]).value * 0x40 + Trailing(s[3]).value;
      if code < 0x10000 || code >= 0x110000 then None else Some(code)
    else None
  }

  /** Sixty-fours, for the forms of more than one byte. */
  lemma Sextets(code: nat, a: nat, b: nat, c: nat, d: nat)
    requires a == code / 0x40000 && b == code / 0x1000 % 0x40 && c == code / 0x40 % 0x40 && d == code % 0x40
    ensures code == a * 0x40000 + b * 0x1000 + c * 0x40 + d
    ensures code / 0x1000 == a * 0x40 + b && code / 0x40 == a * 0x1000 + b * 0x40 + c
  {
    var q1, q2 := code / 0x40, code / 0x40 / 0x40;
    ModUnique(code, 0x1000, q2, q1 % 0x40 * 0x40 + d);
    ModUnique(code, 0x40000, q2 / 0x40, q2 % 0x40 * 0x1000 + q1 % 0x40 * 0x40 + d);
  }

  /** The forms of two, three and four bytes. */
  lemma TwoBytes(code: nat, c: nat, d: nat)
    requires 0x80 <= code < 0x800 && code == c * 0x40 + d && d < 0x40
    ensures FromUtf8([(0xC0 + c) as char, (0x80 + d) as char]) == Some(code)
  {
  }

  lemma ThreeBytes(code: nat, b: nat, c: nat, d: nat)
    requires 0x800 <= code < 0x10000 && code == b * 0x1000 + c * 0x40 + d && c < 0x40 && d < 0x40
    ensures b < 16 && FromUtf8([(0xE0 + b) as char, (0x80 + c) as char, (0x80 + d) as char]) ==
                      if 0xD800 <= code < 0xE000 then None else Some(code)
  {
  }

  lemma FourBytes(code: nat, a: nat, b: nat, c: nat, d: nat)
    requires 0x10000 <= code < 0x110000 && code == a * 0x40000 + b * 0x1000 + c * 0x40 + d && b < 0x40 && c < 0x40
    requires d < 0x40
    ensures a < 5
    ensures FromUtf8([(0xF0 + a) as char, (0x80 + b) as char, (0x80 + c) as char, (0x80 + d) as char]) == Some(code)
  {
  }

  lemma Utf8RoundTrip(code: nat)
    requires code < 0x110000
    ensures FromUtf8(ToUtf8(code)) == if 0xD800 <= code < 0xE000 then None else Some(code)
    ensures ToUtf8(code) == "" <==> 0xD800 <= code < 0xE000
  {
    var a, b, c, d := code / 0x40000, code / 0x1000 % 0x40, code / 0x40 % 0x40, code % 0x40;
    Sextets(code, a, b, c, d);
    if code < 0x80 {
    } else if code < 0x800 {
      TwoBytes(code, c, d);
    } else if code < 0x10000 {
      ThreeBytes(code, b, c, d);
    } else {
      FourBytes(code, a, b, c, d);
    }
  }

  // ---------------------------------------------------------------- percent encoding

  predicate IsAlnum(c: char) {
    '0' <= c <= '9' || 'A' <= c <= 'Z' || 'a' <= c <= 'z'
  }

  /** The characters that are not encoded. */
  predicate IsPlain(c: char) {
    IsAlnum(c) || c in "-_.!~*'()"
  }

  const UPPER_HEX_DIGITS := "0123456789ABCDEF"

  function EncodeChar(c: char): string
    requires IsByte(c)
  {
    if IsPlain(c) then [c] else ['%', UPPER_HEX_DIGITS[c as int / 16], UPPER_HEX_DIGITS[c as int % 16]]
  }

  function Encoded(s: string): string
    requires IsBytes(s)
  {
    if s == "" then "" else EncodeChar(s[0]) + Encoded(s[1..])
  }

  method EncodeQueryParam(value: string) returns (escaped: string)
    requires IsBytes(value)
    ensures escaped == Encoded(value)
  {
    escaped := "";
    var i := 0;
    assert value[0..] == value;
    while i < |value|
      invariant i <= |value| && escaped + Encoded(value[i..]) == Encoded(value)
    {
      var c := value[i];
      ghost var rest := value[i + 1..];
      assert value[i..][1..] == rest;
      Associative(escaped, EncodeChar(c), Encoded(rest));
      if IsPlain(c) {
        escaped := escaped + [c];
      } else {
        escaped := escaped + ['%', UPPER_HEX_DIGITS[c as int / 16], UPPER_HEX_DIGITS[c as int % 16]];
      }
      i := i + 1;
    }
    assert escaped + "" == escaped;
  }

  /** The number in `cnt` digits from `i` on. */
  function HexAt(s: string, i: nat, cnt: nat): (v: Option<nat>) {
    if i + cnt <= |s| then HexNumber(s[i..i + cnt]) else None
  }

  function Decoded(s: string, plus: bool): string
    decreases |s|
  {
    if s == "" then ""
    else if s[0] == '%' && |s| > 1 then
      if s[1] == 'u' then
        if HexAt(s, 2, 4).Some? then
          HexBound(s[2..6], 4);
          ToUtf8(HexAt(s, 2, 4).value) + Decoded(s[6..], plus)
        else ['%'] + Decoded(s[1..], plus)
      else if HexAt(s, 1, 2).Some? then
        HexBound(s[1..3], 2);
        [HexAt(s, 1, 2).value as char] + Decoded(s[3..], plus)
      else ['%'] + Decoded(s[1..], plus)
    else [if plus && s[0] == '+' then ' ' else s[0]] + Decoded(s[1..], plus)
  }

  lemma HexBound(s: string, n: nat)
    requires |s| == n
    ensures HexNumber(s).Some? ==> HexNumber(s).value < Power16(n) && Power16(2) == 0x100 && Power16(4) == 0x10000
  {
    assert Power16(2) == 0x100 && Power16(4) == 0x10000;
    HexBelow(s);
  }

  /** What an encoded text is made of; a stray percent sign starts no escape. */
  datatype Segment = Literal(c: char) | ByteEscape(hex: string) | UnicodeEscape(hex: string) | Stray

  function SegmentText(x: Segment): string {
    match x
    case Literal(c) => [c]
    case ByteEscape(hex) => "%" + hex
    case UnicodeEscape(hex) => "%u" + hex
    case Stray => "%"
  }

  function SegmentsText(segments: seq<Segment>): string {
    if segments == [] then "" else SegmentText(segments[0]) + SegmentsText(segments[1..])
  }

  /** Behind a percent sign this would be an escape: two digits, or a `u` and four. */
  predicate StartsEscape(t: string) {
    || (2 <= |t| && HexNumber(t[..2]).Some?)
    || (5 <= |t| && t[0] == 'u' && HexNumber(t[1..5]).Some?)
  }

  ghost predicate AreSegments(segments: seq<Segment>) {
    segments != [] ==> AreSegments(segments[1..]) && match segments[0]
                                                     case Literal(c) => c != '%'
                                                     case ByteEscape(hex) => |hex| == 2 && HexNumber(hex).Some?
                                                     case UnicodeEscape(hex) => |hex| == 4 && HexNumber(hex).Some?
                                                     case Stray => !StartsEscape(SegmentsText(segments[1..]))
  }

  /** What a segment stands for: a plus sign for a blank, if asked for. */
  function SegmentValue(x: Segment, plus: bool): string {
    match x
    case Literal(c) => if plus && c == '+' then " " else [c]
    case ByteEscape(hex) =>
      if HexNumber(hex).Some? && HexNumber(hex).value < 0x100 then [HexNumber(hex).value as char] else ""
    case UnicodeEscape(hex) =>
      if HexNumber(hex).Some? && HexNumber(hex).value < 0x110000 then ToUtf8(HexNumber(hex).value) else ""
    case Stray => "%"
  }

  function SegmentsValue(segments: seq<Segment>, plus: bool): string {
    if segments == [] then "" else SegmentValue(segments[0], plus) + SegmentsValue(segments[1..], plus)
  }

  lemma {:induction false} FirstIsDigit(t: string)
    requires t != "" && HexNumber(t).Some?
    ensures HexDigit(t[0]).Some?
  {
    if |t| > 1 {
      FirstIsDigit(t[..|t| - 1]);
    }
  }

  lemma ByteDecoded(hex: string, rest: string, plus: bool)
    requires |hex| == 2 && HexNumber(hex).Some?
    ensures HexNumber(hex).value < 0x100
    ensures Decoded("%" + hex + rest, plus) == [HexNumber(hex).value as char] + Decoded(rest, plus)
  {
    var s := "%" + hex + rest;
    HexBound(hex, 2);
    FirstIsDigit(hex);
    assert s[1..3] == hex && s[3..] == rest && s[1] == hex[0];
  }

  lemma UnicodeDecoded(hex: string, rest: string, plus: bool)
    requires |hex| == 4 && HexNumber(hex).Some?
    ensures HexNumber(hex).value < 0x10000
    ensures Decoded("%u" + hex + rest, plus) == ToUtf8(HexNumber(hex).value) + Decoded(rest, plus)
  {
    var s := "%u" + hex + rest;
    HexBound(hex, 4);
    assert s[2..6] == hex && s[6..] == rest && s[1] == 'u';
  }

  lemma StrayDecoded(rest: string, plus: bool)
    requires !StartsEscape(rest)
    ensures Decoded("%" + rest, plus) == "%" + Decoded(rest, plus)
  {
    var s := "%" + rest;
    assert s[1..] == rest;
    if 2 <= |rest| {
      assert s[1..3] == rest[..2];
    }
    if 5 <= |rest| {
      assert s[2..6] == rest[1..5];
    }
  }

  lemma LiteralDecoded(c: char, rest: string, plus: bool)
    requires c != '%'
    ensures Decoded([c] + rest, plus) == (if plus && c == '+' then " " else [c]) + Decoded(rest, plus)
  {
    assert ([c] + rest)[1..] == rest;
  }

  /** Decoding takes a text for what its segments stand for, cut escapes included. */
  lemma {:induction false} DecodedSegments(segments: seq<Segment>, plus: bool)
    requires AreSegments(segments)
    ensures Decoded(SegmentsText(segments), plus) == SegmentsValue(segments, plus)
  {
    if segments != [] {
      var rest := SegmentsText(segments[1..]);
      DecodedSegments(segments[1..], plus);
      match segments[0] {
        case Literal(c) => LiteralDecoded(c, rest, plus);
        case ByteEscape(hex) => ByteDecoded(hex, rest, plus);
        case UnicodeEscape(hex) => UnicodeDecoded(hex, rest, plus);
        case Stray => StrayDecoded(rest, plus);
      }
    }
  }

  /** A plus sign is a blank where that is asked for, and itself otherwise. */
  lemma {:induction false} PlusDecoded(a: string, b: string)
    requires '%' !in a && '+' !in a && '%' !in b && '+' !in b
    ensures Decoded(a + ("+" + b), true) == a + (" " + b) && Decoded(a + ("+" + b), false) == a + ("+" + b)
  {
    if a == "" {
      assert "" + ("+" + b) == ['+'] + b && "" + (" " + b) == " " + b;
      LiteralDecoded('+', b, true);
      LiteralDecoded('+', b, false);
      DecodingKeeps(b, true);
      DecodingKeeps(b, false);
    } else {
      var rest := a[1..] + ("+" + b);
      assert a + ("+" + b) == [a[0]] + rest;
      PlusDecoded(a[1..], b);
      LiteralDecoded(a[0], rest, true);
      LiteralDecoded(a[0], rest, false);
      assert [a[0]] + (a[1..] + (" " + b)) == a + (" " + b);
    }
  }

  method DecodeUrl(s: string, plus: bool) returns (result: string)
    ensures result == Decoded(s, plus)
  {
    result := "";
    var i := 0;
    assert s[0..] == s;
    while i < |s|
      invariant i <= |s| && result + Decoded(s[i..], plus) == Decoded(s, plus)
    {
      var part;
      part, i := DecodeOne(s, i, plus);
      result := result + part;
    }
    assert result + "" == result;
  }

  /** One round of the loop: what is appended, and where the next round starts. */
  method DecodeOne(s: string, i: nat, plus: bool) returns (part: string, next: nat)
    requires i < |s|
    ensures i < next <= |s| && Decoded(s[i..], plus) == part + Decoded(s[next..], plus)
  {
    ghost var rest := s[i..];
    if s[i] == '%' && i + 1 < |s| {
      if s[i + 1] == 'u' {
        var ok, val := FromHexToI(s, i + 2, 4);
        if ok {
          HexBound(s[i + 2..i + 6], 4);
          assert rest[2..6] == s[i + 2..i + 6] && rest[6..] == s[i + 6..];
          return ToUtf8(val), i + 6;
        }
        assert |rest| >= 6 ==> rest[2..6] == s[i + 2..i + 6];
      } else {
        var ok, val := FromHexToI(s, i + 1, 2);
        if ok {
          HexBound(s[i + 1..i + 3], 2);
          assert rest[1..3] == s[i + 1..i + 3] && rest[3..] == s[i + 3..];
          return [val as char], i + 3;
        }
        assert |rest| >= 3 ==> rest[1..3] == s[i + 1..i + 3];
      }
      assert rest[1..] == s[i + 1..];
      return [s[i]], i + 1;
    }
    assert rest[1..] == s[i + 1..];
    return [if plus && s[i] == '+' then ' ' else s[i]], i + 1;
  }

  lemma HexOfByte(c: char)
    requires IsByte(c)
    ensures var h, l := UPPER_HEX_DIGITS[c as int / 16], UPPER_HEX_DIGITS[c as int % 16];
            HexNumber([h, l]) == Some(c as int) && h != 'u' && IsAlnum(h) && IsAlnum(l)
  {
    var h, l := UPPER_HEX_DIGITS[c as int / 16], UPPER_HEX_DIGITS[c as int % 16];
    UpperHexDigit(c as int / 16);
    UpperHexDigit(c as int % 16);
    HexNumberLast("", h);
    HexNumberLast([h], l);
    assert "" + [h] == [h] && [h] + [l] == [h, l];
  }

  lemma UpperHexDigit(d: nat)
    requires d < 16
    ensures HexDigit(UPPER_HEX_DIGITS[d]) == Some(d) && UPPER_HEX_DIGITS[d] != 'u' && IsAlnum(UPPER_HEX_DIGITS[d])
  {
  }

  lemma DecodeChar(c: char, rest: string, plus: bool)
    requires IsByte(c)
    ensures Decoded(EncodeChar(c) + rest, plus) == [c] + Decoded(rest, plus)
  {
    var s := EncodeChar(c) + rest;
    if IsPlain(c) {
      assert s[1..] == rest;
    } else {
      HexOfByte(c);
      assert s[1..3] == [UPPER_HEX_DIGITS[c as int / 16], UPPER_HEX_DIGITS[c as int % 16]];
      assert s[3..] == rest;
    }
  }

  /** Decoding inverts encoding, on every string of bytes and whatever becomes of a plus sign. */
  lemma {:induction false} DecodingInvertsEncoding(s: string, plus: bool)
    requires IsBytes(s)
    ensures Decoded(Encoded(s), plus) == s
  {
    if s != "" {
      DecodeChar(s[0], Encoded(s[1..]), plus);
      DecodingInvertsEncoding(s[1..], plus);
      assert s == [s[0]] + s[1..];
    }
  }

  predicate IsSafe(c: char) {
    IsPlain(c) || c == '%'
  }

  ghost predicate AllSafe(s: string) {
    forall i :: 0 <= i < |s| ==> IsSafe(s[i])
  }

  /** An encoded text holds none of the characters that separate. */
  lemma {:induction false} EncodedIsSafe(s: string)
    requires IsBytes(s)
    ensures AllSafe(Encoded(s))
  {
    if s != "" {
      EncodedIsSafe(s[1..]);
      if !IsPlain(s[0]) {
        HexOfByte(s[0]);
      }
    }
  }

  /** Text without escapes decodes to itself. */
  lemma {:induction false} DecodingKeeps(s: string, plus: bool)
    requires '%' !in s && (plus ==> '+' !in s)
    ensures Decoded(s, plus) == s
  {
    if s != "" {
      DecodingKeeps(s[1..], plus);
      assert s == [s[0]] + s[1..];
    }
  }

  // ---------------------------------------------------------------- key-value text

  /** The first piece, and the last of the others. */
  function KeyIn(pieces: seq<string>): string {
    if pieces == [] then "" else pieces[0]
  }

  function ValueIn(pieces: seq<string>): string {
    if |pieces| < 2 then "" else pieces[|pieces| - 1]
  }

  method KeyValue(kv: string) returns (key: string, val: string)
    ensures key == KeyIn(Pieces(kv, '=')) && val == ValueIn(Pieces(kv, '='))
  {
    key, val := "", "";
    var pieces := Split(kv, '=');
    PiecesAreTrimmed(kv, '=');
    for i := 0 to |pieces|
      invariant key == KeyIn(pieces[..i]) && val == ValueIn(pieces[..i])
    {
      if key == "" {
        key := pieces[i];
      } else {
        val := pieces[i];
      }
    }
    assert pieces[..|pieces|] == pieces;
  }

  // ---------------------------------------------------------------- parameters

  datatype Pair = Pair(key: string, value: string)

  /** The order of strings in an ordered container. */
  predicate Before(a: string, b: string)
    decreases a
  {
    b != "" && (a == "" || a[0] < b[0] || (a[0] == b[0] && Before(a[1..], b[1..])))
  }

  predicate Sorted(items: seq<Pair>) {
    forall i :: 0 < i < |items| ==> !Before(items[i].key, items[i - 1].key)
  }

  /** Into an ordered multimap: behind every item whose key is not greater. */
  function Inserted(items: seq<Pair>, x: Pair): seq<Pair> {
    if items == [] || Before(x.key, items[0].key) then [x] + items else [items[0]] + Inserted(items[1..], x)
  }

  /** `std::multimap<std::string, std::string>`, in its iteration order. */
  class Params {
    var items: seq<Pair>

    constructor ()
      ensures items == []
    {
      items := [];
    }

    method Emplace(key: string, value: string)
      modifies this
      ensures items == Inserted(old(items), Pair(key, value))
    {
      items := Inserted(items, Pair(key, value));
    }
  }

  function PairText(x: Pair): string
    requires IsBytes(x.value)
  {
    x.key + "=" + Encoded(x.value)
  }

  ghost predicate ArePairs(p: seq<Pair>) {
    forall i :: 0 <= i < |p| ==> IsBytes(p[i].value)
  }

  function Texts(p: seq<Pair>): (texts: seq<string>)
    requires ArePairs(p)
    ensures |texts| == |p|
  {
    if p == [] then [] else [PairText(p[0])] + Texts(p[1..])
  }

  method ParamsToQueryStr(params: seq<Pair>) returns (query: string)
    requires ArePairs(params)
    ensures query == Join(Texts(params), '&')
  {
    query := "";
    ghost var all := Join(Texts(params), '&');
    var i := 0;
    assert params[0..] == params;
    assert query + all == all;
    while i < |params|
      invariant i <= |params| && query + Tail(params[i..], i > 0) == all
    {
      query := PrintPair(query, params, i, all);
      i := i + 1;
    }
    assert params[i..] == [];
    assert query + "" == query;
  }

  /** One round of the loop. */
  method PrintPair(query: string, params: seq<Pair>, i: nat, ghost all: string) returns (query': string)
    requires i < |params| && ArePairs(params) && query + Tail(params[i..], i > 0) == all
    ensures query' + Tail(params[i + 1..], true) == all
  {
    ghost var amp := if i != 0 then "&" else "";
    query' := query;
    if i != 0 {
      query' := query' + "&";
    }
    assert query' == query + amp;
    query' := query' + params[i].key;
    query' := query' + "=";
    var value := EncodeQueryParam(params[i].value);
    query' := query' + value;
    Assemble(query, amp, params[i].key, value);
    assert params[i..][1..] == params[i + 1..];
    TailCons(params[i..], i > 0);
    Associative(query, amp + PairText(params[i]), Tail(params[i + 1..], true));
  }

  lemma Assemble(query: string, amp: string, key: string, value: string)
    ensures query + amp + key + "=" + value == query + (amp + (key + "=" + value))
  {
  }

  /** What printing the remaining pairs appends. */
  function Tail(p: seq<Pair>, more: bool): string
    requires ArePairs(p)
  {
    if p == [] then "" else (if more then "&" else "") + Join(Texts(p), '&')
  }

  lemma TailCons(p: seq<Pair>, more: bool)
    requires p != [] && ArePairs(p)
    ensures Tail(p, more) == ((if more then "&" else "") + PairText(p[0])) + Tail(p[1..], true)
  {
    var amp, text, rest := if more then "&" else "", PairText(p[0]), Texts(p[1..]);
    assert Texts(p) == [text] + rest;
    if rest == [] {
      assert Join([text] + rest, '&') == text;
      assert (amp + text) + "" == amp + text;
    } else {
      JoinCons(text, rest, '&');
      Associative(amp, text, ['&'] + Join(rest, '&'));
      assert "&" + Join(rest, '&') == ['&'] + Join(rest, '&');
    }
  }

  /** The pairs of the pieces in order, each distinct piece once. */
  function ParseInto(pieces: seq<string>, cache: set<string>, items: seq<Pair>): seq<Pair> {
    if pieces == [] then items
    else if pieces[0] in cache then ParseInto(pieces[1..], cache, items)
    else ParseInto(pieces[1..], cache + {pieces[0]}, ParseOne(pieces[0], items))
  }

  function ParseOne(kv: string, items: seq<Pair>): seq<Pair> {
    var parts := Pieces(kv, '=');
    if KeyIn(parts) == "" then items
    else Inserted(items, Pair(Decoded(KeyIn(parts), true), Decoded(ValueIn(parts), true)))
  }

  lemma ParseNext(pieces: seq<string>, i: nat, cache: set<string>, items: seq<Pair>)
    requires i < |pieces|
    ensures ParseInto(pieces[i..], cache, items) ==
            ParseInto(pieces[i + 1..], cache + {pieces[i]},
                      if pieces[i] in cache then items else ParseOne(pieces[i], items))
  {
    assert pieces[i..][1..] == pieces[i + 1..];
    if pieces[i] in cache {
      assert cache + {pieces[i]} == cache;
    }
  }

  /** What is done with a piece: nothing if the same text has been seen. */
  method ParsePiece(kv: string, cache: set<string>, params: Params) returns (cache': set<string>)
    modifies params
    ensures cache' == cache + {kv}
    ensures params.items == if kv in cache then old(params.items) else ParseOne(kv, old(params.items))
  {
    cache' := cache;
    if kv in cache {
      return;
    }
    cache' := cache' + {kv};
    var key, val := KeyValue(kv);
    if key != "" {
      var k := DecodeUrl(key, true);
      var v := DecodeUrl(val, true);
      params.Emplace(k, v);
    }
  }

  method ParseQueryText(s: string, params: Params)
    modifies params
    ensures params.items == ParseInto(Pieces(s, '&'), {}, old(params.items))
  {
    var pieces := Split(s, '&');
    ParsePieces(pieces, params);
  }

  /** The callback on one piece after another. */
  method ParsePieces(pieces: seq<string>, params: Params)
    modifies params
    ensures params.items == ParseInto(pieces, {}, old(params.items))
  {
    var cache: set<string> := {};
    ghost var all := ParseInto(pieces, {}, params.items);
    var i: nat := 0;
    assert pieces[0..] == pieces;
    while i < |pieces|
      invariant i <= |pieces| && ParseInto(pieces[i..], cache, params.items) == all
    {
      ParseNext(pieces, i, cache, params.items);
      cache := ParsePiece(pieces[i], cache, params);
      i := i + 1;
    }
  }

  // ---------------------------------------------------------------- the round trip

  /** A key that needs no encoding; keys are printed as they are. */
  ghost predicate IsPlainKey(key: string) {
    IsTrimmed(key) && forall i :: 0 <= i < |key| ==> key[i] !in "&=%+"
  }

  ghost predicate IsPrintable(x: Pair) {
    IsPlainKey(x.key) && IsBytes(x.value)
  }

  predicate IsField(t: string) {
    '&' !in t && IsTrimmed(t)
  }

  ghost predicate ArePrintable(p: seq<Pair>) {
    forall i :: 0 <= i < |p| ==> IsPrintable(p[i])
  }

  lemma SafeIsInk(s: string)
    requires AllSafe(s)
    ensures '&' !in s && '=' !in s && '+' !in s && (s != "" ==> IsTrimmed(s))
  {
    if s != "" {
      assert IsSafe(s[0]) && IsSafe(s[|s| - 1]);
    }
  }

  lemma KeptOfTwo(key: string, e: string)
    requires IsTrimmed(key) && (e == "" || IsTrimmed(e))
    ensures Kept([key, e]) == [key] + if e == "" then [] else [e]
  {
    TrimKeeps(key);
    KeptCons(key, [e]);
    assert [key] + [e] == [key, e] && [e] + [] == [e];
    KeptCons(e, []);
    if e != "" {
      TrimKeeps(e);
    }
  }

  /** A key and a value are two pieces, unless the value is empty. */
  lemma PiecesOfTwo(key: string, e: string)
    requires IsTrimmed(key) && '=' !in key && '=' !in e && (e == "" || IsTrimmed(e))
    ensures Pieces(key + "=" + e, '=') == [key] + if e == "" then [] else [e]
  {
    assert [key, e][1..] == [e];
    assert key + "=" + e == Join([key, e], '=');
    FieldsOfJoin([key, e], '=');
    KeptOfTwo(key, e);
  }

  lemma PairIsField(key: string, e: string)
    requires IsTrimmed(key) && '&' !in key && '&' !in e && (e == "" || IsTrimmed(e))
    ensures IsField(key + "=" + e)
  {
  }

  /** The text of a pair is one piece of the query, and splits into the two parts it was made of. */
  lemma TextOfPair(x: Pair)
    requires IsPrintable(x)
    ensures IsField(PairText(x))
    ensures Pieces(PairText(x), '=') == [x.key] + if x.value == "" then [] else [Encoded(x.value)]
  {
    var e := Encoded(x.value);
    EncodedIsSafe(x.value);
    SafeIsInk(e);
    PairIsField(x.key, e);
    PiecesOfTwo(x.key, e);
  }

  /** Of several values behind one key the last one counts, without its blanks. */
  lemma LastValueCounts(fields: seq<string>, items: seq<Pair>)
    requires fields != [] && forall i :: 0 <= i < |fields| ==> '=' !in fields[i] && IsTrimmed(fields[i])
    ensures ParseOne(Join(fields, '='), items) ==
            Inserted(items, Pair(Decoded(fields[0], true),
                                 if |fields| == 1 then "" else Decoded(fields[|fields| - 1], true)))
  {
    hide Pieces, Join, Inserted;
    PiecesOfJoin(fields, '=');
  }

  lemma ParseOfPair(x: Pair, items: seq<Pair>)
    requires IsPrintable(x)
    ensures ParseOne(PairText(x), items) == Inserted(items, x)
  {
    TextOfPair(x);
    DecodingKeeps(x.key, true);
    DecodingInvertsEncoding(x.value, true);
  }

  /** Different pairs have different texts. */
  lemma TextsDiffer(x: Pair, y: Pair)
    requires IsPrintable(x) && IsPrintable(y) && PairText(x) == PairText(y)
    ensures x == y
  {
    ParseOfPair(x, []);
    ParseOfPair(y, []);
    assert Inserted([], x) == [x] && Inserted([], y) == [y];
  }

  /** The first occurrence of each pair. */
  function Distinct(p: seq<Pair>, seen: set<Pair>): seq<Pair> {
    if p == [] then []
    else if p[0] in seen then Distinct(p[1..], seen)
    else [p[0]] + Distinct(p[1..], seen + {p[0]})
  }

  lemma {:induction false} DistinctMembers(p: seq<Pair>, seen: set<Pair>)
    ensures forall x :: x in Distinct(p, seen) <==> x in p && x !in seen
    ensures forall i, j :: 0 <= i < j < |Distinct(p, seen)| ==> Distinct(p, seen)[i] != Distinct(p, seen)[j]
  {
    if p != [] {
      DistinctMembers(p[1..], if p[0] in seen then seen else seen + {p[0]});
      assert p == [p[0]] + p[1..];
    }
  }

  /** Keys that are not greater go before. */
  lemma {:induction false} InsertedLast(items: seq<Pair>, x: Pair)
    requires forall i :: 0 <= i < |items| ==> !Before(x.key, items[i].key)
    ensures Inserted(items, x) == items + [x]
  {
    if items != [] {
      InsertedLast(items[1..], x);
      assert items == [items[0]] + items[1..];
    }
  }

  /** The order of strings is total: what does not precede, follows or is equal. */
  lemma {:induction false} NotBeforeIsTransitive(a: string, b: string, c: string)
    requires !Before(b, a) && !Before(c, b)
    ensures !Before(c, a)
    decreases a
  {
    if a != "" && b != "" && c != "" && a[0] == b[0] && b[0] == c[0] {
      NotBeforeIsTransitive(a[1..], b[1..], c[1..]);
    }
  }

  /** Every key of `p` may go behind every one of `items`. */
  ghost predicate Follows(items: seq<Pair>, p: seq<Pair>) {
    forall i, j :: 0 <= i < |items| && 0 <= j < |p| ==> !Before(p[j].key, items[i].key)
  }

  lemma {:induction false} SortedFollows(p: seq<Pair>, j: nat)
    requires Sorted(p) && j < |p|
    ensures !Before(p[j].key, p[0].key)
  {
    if j == 0 {
      NotBeforeItself(p[0].key);
    } else {
      SortedFollows(p, j - 1);
      NotBeforeIsTransitive(p[0].key, p[j - 1].key, p[j].key);
    }
  }

  lemma {:induction false} NotBeforeItself(a: string)
    ensures !Before(a, a)
  {
    if a != "" {
      NotBeforeItself(a[1..]);
    }
  }

  lemma FollowsOn(items: seq<Pair>, p: seq<Pair>)
    requires p != [] && Sorted(p) && Follows(items, p)
    ensures Sorted(p[1..]) && Follows(items, p[1..]) && Follows(items + [p[0]], p[1..])
  {
    forall j | 0 <= j < |p[1..]| ensures !Before(p[1..][j].key, p[0].key) {
      SortedFollows(p, j + 1);
    }
  }

  ghost predicate IsCache(cache: set<string>, seen: set<Pair>) {
    && (forall x :: x in seen ==> IsPrintable(x) && PairText(x) in cache)
    && (forall t :: t in cache ==> exists x :: x in seen && IsPrintable(x) && PairText(x) == t)
  }

  lemma CacheKnows(cache: set<string>, seen: set<Pair>, x: Pair)
    requires IsCache(cache, seen) && IsPrintable(x)
    ensures PairText(x) in cache <==> x in seen
  {
    if PairText(x) in cache {
      var y :| y in seen && IsPrintable(y) && PairText(y) == PairText(x);
      TextsDiffer(x, y);
    }
  }

  lemma CacheGrows(cache: set<string>, seen: set<Pair>, x: Pair, t: string)
    requires IsCache(cache, seen) && IsPrintable(x) && t == PairText(x)
    ensures IsCache(cache + {t}, seen + {x})
  {
  }

  lemma {:induction false} ParsePairs(p: seq<Pair>, cache: set<string>, seen: set<Pair>, items: seq<Pair>)
    requires ArePrintable(p) && Sorted(p) && Follows(items, p) && IsCache(cache, seen)
    ensures ParseInto(Texts(p), cache, items) == items + Distinct(p, seen)
  {
    if p == [] {
      assert items + [] == items;
    } else {
      var x, rest := p[0], p[1..];
      CacheKnows(cache, seen, x);
      CacheGrows(cache, seen, x, PairText(x));
      FollowsOn(items, p);
      assert Texts(p)[0] == PairText(x) && Texts(p)[1..] == Texts(rest);
      if x in seen {
        ParsePairs(rest, cache, seen, items);
      } else {
        ParseOfPair(x, items);
        InsertedLast(items, x);
        ParsePairs(rest, cache + {PairText(x)}, seen + {x}, items + [x]);
        Associative(items, [x], Distinct(rest, seen + {x}));
      }
    }
  }

  lemma {:induction false} TextsAreFields(p: seq<Pair>)
    requires ArePrintable(p)
    ensures forall i :: 0 <= i < |p| ==> IsField(Texts(p)[i])
  {
    if p != [] {
      TextOfPair(p[0]);
      TextsAreFields(p[1..]);
    }
  }

  /**
   Parsing a printed query into empty parameters gives its distinct pairs, in order,
   whatever bytes the values hold.
   */
  lemma QueryRoundTrip(p: seq<Pair>)
    requires ArePrintable(p) && Sorted(p)
    ensures ParseInto(Pieces(Join(Texts(p), '&'), '&'), {}, []) == Distinct(p, {})
  {
    TextsAreFields(p);
    PiecesOfJoin(Texts(p), '&');
    ParsePairs(p, {}, {}, []);
  }

  /** A query without duplicates comes back as it was. */
  lemma {:induction false} DistinctKeeps(p: seq<Pair>, seen: set<Pair>)
    requires forall i, j :: 0 <= i < j < |p| ==> p[i] != p[j]
    requires forall i :: 0 <= i < |p| ==> p[i] !in seen
    ensures Distinct(p, seen) == p
  {
    if p != [] {
      DistinctKeeps(p[1..], seen + {p[0]});
    }
  }
}
