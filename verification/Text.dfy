/** Blanks, fields, hexadecimal and UTF-8, as the HTTP library treats them. A `char` stands for one byte. */
module Text {

  import opened Sequences
  import opened Wrappers

  predicate IsByte(c: char) {
    c as int < 256
  }

  ghost predicate IsBytes(s: string) {
    forall i :: 0 <= i < |s| ==> IsByte(s[i])
  }

  // ---------------------------------------------------------------- blanks

  predicate IsBlank(c: char) {
    c == ' ' || c == '\t'
  }

  /** The C library's white space. */
  predicate IsSpace(c: char) {
    c == ' ' || 9 <= c as int <= 13
  }

  function SkipSpace(s: string): (t: string)
    ensures |t| <= |s|
  {
    if s != "" && IsSpace(s[0]) then SkipSpace(s[1..]) else s
  }

  /** The first index from `k` on that holds no blank. */
  function Ink(s: string, k: nat): (i: nat)
    requires k <= |s|
    ensures k <= i <= |s| && (i < |s| ==> !IsBlank(s[i])) && forall j :: k <= j < i ==> IsBlank(s[j])
    decreases |s| - k
  {
    if k < |s| && IsBlank(s[k]) then Ink(s, k + 1) else k
  }

  /** The end before `k` of the last character that is no blank. */
  function InkEnd(s: string, k: nat): (i: nat)
    requires k <= |s|
    ensures i <= k && (i > 0 ==> !IsBlank(s[i - 1])) && forall j :: i <= j < k ==> IsBlank(s[j])
  {
    if k > 0 && IsBlank(s[k - 1]) then InkEnd(s, k - 1) else k
  }

  /** The text without the blanks at its ends. */
  function Trim(s: string): string {
    var a, b := Ink(s, 0), InkEnd(s, |s|);
    if a < b then s[a..b] else ""
  }

  predicate IsTrimmed(s: string) {
    s != "" && !IsBlank(s[0]) && !IsBlank(s[|s| - 1])
  }

  lemma TrimKeeps(s: string)
    requires IsTrimmed(s)
    ensures Trim(s) == s
  {
    assert Ink(s, 0) == 0 && InkEnd(s, |s|) == |s|;
  }

  lemma TrimIsTrimmed(s: string)
    ensures Trim(s) == "" || IsTrimmed(Trim(s))
  {
  }

  /** Both loops run to the ends of the whole text; a field they cross is a field of blanks. */
  method TrimRange(s: string, left: nat, right: nat) returns (l: nat, r: nat)
    requires left <= right <= |s|
    ensures l == Ink(s, left) && r == InkEnd(s, right)
    ensures if l < r then left <= l && r <= right && s[l..r] == Trim(s[left..right]) else Trim(s[left..right]) == ""
  {
    l, r := left, right;
    while l < |s| && IsBlank(s[l])
      invariant l <= |s| && Ink(s, l) == Ink(s, left)
    {
      l := l + 1;
    }
    while r > 0 && IsBlank(s[r - 1])
      invariant r <= |s| && InkEnd(s, r) == InkEnd(s, right)
    {
      r := r - 1;
    }
    TrimOfField(s, left, right, s[left..right], l, r);
  }

  lemma InkIsSlice(s: string, left: nat, right: nat, f: string, a: nat, b: nat)
    requires left <= right <= |s| && f == s[left..right] && a == Ink(f, 0) && b == InkEnd(f, |f|) && a < b
    ensures b <= right - left && s[left + a..left + b] == Trim(f)
  {
    SliceOfSlice(s, left, right, a, b);
  }

  lemma FieldWithInk(s: string, left: nat, right: nat, f: string, l: nat, r: nat, a: nat)
    requires left <= right <= |s| && f == s[left..right] && l == Ink(s, left) && r == InkEnd(s, right)
    requires a == Ink(f, 0) < |f| && Stands(s, left, f)
    ensures left <= l < r <= right && s[l..r] == Trim(f)
  {
    var b := InkEnd(f, |f|);
    InkAgrees(s, left, f, a);
    InkEndAgrees(s, left, f, a, b);
    InkIsSlice(s, left, right, f, a, b);
  }

  lemma TrimOfField(s: string, left: nat, right: nat, f: string, l: nat, r: nat)
    requires left <= right <= |s| && f == s[left..right] && l == Ink(s, left) && r == InkEnd(s, right)
    ensures if l < r then left <= l && r <= right && s[l..r] == Trim(f) else Trim(f) == ""
  {
    var a := Ink(f, 0);
    StandsAt(s, left, right, f);
    if a < |f| {
      FieldWithInk(s, left, right, f, l, r, a);
    } else {
      NoInk(s, left, f, l, r);
    }
  }

  /** A field stands in a text from `left` on. */
  ghost predicate Stands(s: string, left: nat, f: string) {
    left + |f| <= |s| && forall j :: 0 <= j < |f| ==> s[left + j] == f[j]
  }

  lemma StandsAt(s: string, left: nat, right: nat, f: string)
    requires left <= right <= |s| && f == s[left..right]
    ensures Stands(s, left, f)
  {
  }

  lemma SliceOfSlice(s: string, left: nat, right: nat, a: nat, b: nat)
    requires left <= right <= |s| && a <= b <= right - left
    ensures s[left + a..left + b] == s[left..right][a..b]
  {
    var f := s[left..right];
    assert forall j :: 0 <= j < |f| ==> f[j] == s[left + j];
  }

  lemma {:induction false} InkIs(s: string, k: nat, i: nat)
    requires k <= i < |s| && !IsBlank(s[i]) && forall j :: k <= j < i ==> IsBlank(s[j])
    ensures Ink(s, k) == i
    decreases i - k
  {
    if k < i {
      InkIs(s, k + 1, i);
    }
  }

  lemma {:induction false} InkEndIs(s: string, k: nat, i: nat)
    requires 0 < i <= k <= |s| && !IsBlank(s[i - 1]) && forall j :: i <= j < k ==> IsBlank(s[j])
    ensures InkEnd(s, k) == i
    decreases k
  {
    if i < k {
      InkEndIs(s, k - 1, i);
    }
  }

  lemma InkAgrees(s: string, left: nat, f: string, a: nat)
    requires Stands(s, left, f) && a == Ink(f, 0) < |f|
    ensures Ink(s, left) == left + a
  {
    assert s[left + a] == f[a];
    forall j | left <= j < left + a ensures IsBlank(s[j]) {
      assert s[left + (j - left)] == f[j - left];
    }
    InkIs(s, left, left + a);
  }

  lemma InkEndAgrees(s: string, left: nat, f: string, a: nat, b: nat)
    requires Stands(s, left, f) && b == InkEnd(f, |f|) && a < |f| && !IsBlank(f[a])
    ensures b > a && InkEnd(s, left + |f|) == left + b
  {
    assert s[left + (b - 1)] == f[b - 1];
    forall j | left + b <= j < left + |f| ensures IsBlank(s[j]) {
      assert s[left + (j - left)] == f[j - left];
    }
    InkEndIs(s, left + |f|, left + b);
  }

  lemma NoInk(s: string, left: nat, f: string, l: nat, r: nat)
    requires Stands(s, left, f) && Ink(f, 0) == |f| && l == Ink(s, left) && r == InkEnd(s, left + |f|)
    ensures r <= l && Trim(f) == ""
  {
    forall j | left <= j < left + |f| ensures IsBlank(s[j]) {
      assert s[left + (j - left)] == f[j - left];
    }
  }

  // ---------------------------------------------------------------- fields

  /** The first index of a character, or the length. */
  function IndexOf(s: string, d: char): (i: nat)
    ensures i <= |s| && d !in s[..i] && (i < |s| ==> s[i] == d)
  {
    if s == "" || s[0] == d then 0 else
      var i := 1 + IndexOf(s[1..], d);
      assert s[..i] == [s[0]] + s[1..][..i - 1];
      i
  }

  /** The text between the separators. */
  function Fields(s: string, d: char): (fields: seq<string>)
    ensures fields != []
    decreases |s|
  {
    var i := IndexOf(s, d);
    if i == |s| then [s] else [s[..i]] + Fields(s[i + 1..], d)
  }

  /** A field trimmed, unless nothing is left of it. */
  function KeptOne(f: string): seq<string> {
    if Trim(f) == "" then [] else [Trim(f)]
  }

  function Kept(fields: seq<string>): seq<string> {
    if fields == [] then [] else KeptOne(fields[0]) + Kept(fields[1..])
  }

  lemma {:induction false} KeptAreTrimmed(fields: seq<string>)
    ensures forall i :: 0 <= i < |Kept(fields)| ==> IsTrimmed(Kept(fields)[i])
  {
    if fields != [] {
      TrimIsTrimmed(fields[0]);
      KeptAreTrimmed(fields[1..]);
    }
  }

  lemma PiecesAreTrimmed(s: string, d: char)
    ensures forall i :: 0 <= i < |Pieces(s, d)| ==> IsTrimmed(Pieces(s, d)[i])
  {
    KeptAreTrimmed(Fields(s, d));
  }

  function Pieces(s: string, d: char): seq<string> {
    Kept(Fields(s, d))
  }

  function Join(fields: seq<string>, d: char): string {
    if fields == [] then "" else if |fields| == 1 then fields[0] else fields[0] + [d] + Join(fields[1..], d)
  }

  lemma IndexIs(s: string, d: char, i: nat)
    requires i <= |s| && d !in s[..i] && (i < |s| ==> s[i] == d)
    ensures IndexOf(s, d) == i
  {
    var k := IndexOf(s, d);
    assert forall j :: 0 <= j < i ==> s[..i][j] == s[j];
    assert forall j :: 0 <= j < k ==> s[..k][j] == s[j];
  }

  lemma FirstField(s: string, d: char, i: nat)
    requires i <= |s| && d !in s[..i] && (i < |s| ==> s[i] == d)
    ensures Fields(s, d) == if i == |s| then [s] else [s[..i]] + Fields(s[i + 1..], d)
  {
    IndexIs(s, d, i);
  }

  /** Joining and separating are inverse. */
  lemma {:induction false} FieldsOfJoin(fields: seq<string>, d: char)
    requires fields != [] && forall k :: 0 <= k < |fields| ==> d !in fields[k]
    ensures Fields(Join(fields, d), d) == fields
  {
    var s, i := Join(fields, d), |fields[0]|;
    assert s[..i] == fields[0];
    FirstField(s, d, i);
    if |fields| > 1 {
      assert s[i + 1..] == Join(fields[1..], d);
      FieldsOfJoin(fields[1..], d);
    }
  }

  lemma JoinCons(f: string, fields: seq<string>, d: char)
    requires fields != []
    ensures Join([f] + fields, d) == f + ([d] + Join(fields, d))
  {
    assert ([f] + fields)[1..] == fields;
  }

  lemma {:induction false} JoinOfFields(s: string, d: char)
    ensures Join(Fields(s, d), d) == s
    decreases |s|
  {
    hide Join, IndexOf;
    var i := IndexOf(s, d);
    if i < |s| {
      var rest := s[i + 1..];
      JoinOfFields(rest, d);
      JoinCons(s[..i], Fields(rest, d), d);
      assert s == s[..i] + ([d] + rest);
    } else {
      JoinOne(s, d);
    }
  }

  lemma JoinOne(f: string, d: char)
    ensures Join([f], d) == f
  {
  }

  lemma {:induction false} KeptOfTrimmed(fields: seq<string>)
    requires forall k :: 0 <= k < |fields| ==> IsTrimmed(fields[k])
    ensures Kept(fields) == fields
  {
    if fields != [] {
      TrimKeeps(fields[0]);
      KeptOfTrimmed(fields[1..]);
    }
  }

  /** Trimmed fields without the separator come back as they are. */
  lemma PiecesOfJoin(fields: seq<string>, d: char)
    requires forall k :: 0 <= k < |fields| ==> d !in fields[k] && IsTrimmed(fields[k])
    ensures Pieces(Join(fields, d), d) == fields
  {
    if fields == [] {
      NoField(d);
    } else {
      FieldsOfJoin(fields, d);
      KeptOfTrimmed(fields);
    }
  }

  /** Calls back with each field that is not blank, trimmed; here the calls are listed. */
  method Split(s: string, d: char) returns (pieces: seq<string>)
    ensures pieces == Pieces(s, d)
  {
    pieces := [];
    var i, beg := 0, 0;
    ghost var all := Pieces(s, d);
    NoneYet(s, d);
    while i < |s|
      invariant beg <= i <= |s| && d !in s[beg..i] && ToCome(s, d, beg, pieces, all)
    {
      if s[i] == d {
        pieces := NextPiece(s, d, beg, i, pieces, all);
        beg := i + 1;
      } else {
        OneMore(s, d, beg, i);
      }
      i := i + 1;
    }
    if i > 0 {
      pieces := NextPiece(s, d, beg, i, pieces, all);
    } else {
      NoField(d);
    }
  }

  /** The pieces so far and those from `beg` on are all of them; behind the last field there are none. */
  ghost predicate ToCome(s: string, d: char, beg: nat, pieces: seq<string>, all: seq<string>) {
    if beg <= |s| then pieces + Kept(Fields(s[beg..], d)) == all else pieces == all
  }

  lemma NoneYet(s: string, d: char)
    ensures ToCome(s, d, 0, [], Pieces(s, d))
  {
    assert s[0..] == s && [] + Pieces(s, d) == Pieces(s, d);
  }

  lemma NoField(d: char)
    ensures Pieces("", d) == []
  {
    assert Fields("", d) == [""] && [""][1..] == [] && Kept([]) == [];
  }

  lemma OneMore(s: string, d: char, beg: nat, i: nat)
    requires beg <= i < |s| && d !in s[beg..i] && s[i] != d
    ensures d !in s[beg..i + 1]
  {
    assert s[beg..i + 1] == s[beg..i] + [s[i]];
  }

  method NextPiece(s: string, d: char, beg: nat, i: nat, pieces: seq<string>, ghost all: seq<string>)
    returns (pieces': seq<string>)
    requires beg <= i <= |s| && d !in s[beg..i] && (i < |s| ==> s[i] == d) && ToCome(s, d, beg, pieces, all)
    ensures ToCome(s, d, i + 1, pieces', all)
  {
    var l, r := TrimRange(s, beg, i);
    if l < r {
      pieces' := pieces + [s[l..r]];
    } else {
      pieces' := pieces;
      assert pieces + [] == pieces;
    }
    AfterPiece(s, d, beg, i, pieces, pieces', all);
  }

  lemma AfterPiece(s: string, d: char, beg: nat, i: nat, pieces: seq<string>, pieces': seq<string>, all: seq<string>)
    requires beg <= i <= |s| && d !in s[beg..i] && (i < |s| ==> s[i] == d) && ToCome(s, d, beg, pieces, all)
    requires pieces' == pieces + KeptOne(s[beg..i])
    ensures ToCome(s, d, i + 1, pieces', all)
  {
    FieldAt(s, d, beg, i);
    Associative(pieces, KeptOne(s[beg..i]), KeptAfter(s, d, i));
    if i == |s| {
      assert pieces' + [] == pieces';
    }
  }

  function FieldsAfter(s: string, d: char, i: nat): seq<string>
    requires i <= |s|
  {
    if i < |s| then Fields(s[i + 1..], d) else []
  }

  function KeptAfter(s: string, d: char, i: nat): seq<string>
    requires i <= |s|
  {
    Kept(FieldsAfter(s, d, i))
  }

  lemma FieldAt(s: string, d: char, beg: nat, i: nat)
    requires beg <= i <= |s| && d !in s[beg..i] && (i < |s| ==> s[i] == d)
    ensures Kept(Fields(s[beg..], d)) == KeptOne(s[beg..i]) + KeptAfter(s, d, i)
  {
    FieldsFrom(s, d, beg, i);
    KeptCons(s[beg..i], FieldsAfter(s, d, i));
  }

  lemma FieldsFrom(s: string, d: char, beg: nat, i: nat)
    requires beg <= i <= |s| && d !in s[beg..i] && (i < |s| ==> s[i] == d)
    ensures Fields(s[beg..], d) == [s[beg..i]] + FieldsAfter(s, d, i)
  {
    var rest, k := s[beg..], i - beg;
    SliceOfRest(s, beg, i, rest);
    FirstField(rest, d, k);
  }

  lemma SliceOfRest(s: string, beg: nat, i: nat, rest: string)
    requires beg <= i <= |s| && rest == s[beg..]
    ensures rest[..i - beg] == s[beg..i] && (i < |s| ==> rest[i - beg] == s[i] && rest[i - beg + 1..] == s[i + 1..])
    ensures i == |s| ==> rest == s[beg..i]
  {
  }

  lemma KeptCons(f: string, fields: seq<string>)
    ensures Kept([f] + fields) == KeptOne(f) + Kept(fields)
  {
    assert ([f] + fields)[1..] == fields;
  }

  // ---------------------------------------------------------------- hexadecimal

  function HexDigit(c: char): (v: Option<nat>)
    ensures v.Some? ==> v.value < 16
  {
    if '0' <= c <= '9' then Some((c - '0') as nat)
    else if 'A' <= c <= 'F' then Some((c - 'A') as nat + 10)
    else if 'a' <= c <= 'f' then Some((c - 'a') as nat + 10)
    else None
  }

  /** The number written by hexadecimal digits alone. */
  function HexNumber(s: string): Option<nat> {
    if s == "" then Some(0)
    else
      var high, low := HexNumber(s[..|s| - 1]), HexDigit(s[|s| - 1]);
      if high.None? || low.None? then None else Some(high.value * 16 + low.value)
  }

  lemma {:induction false} HexNumberAppend(s: string, t: string)
    requires HexNumber(s).None?
    ensures HexNumber(s + t).None?
  {
    if t == "" {
      assert s + t == s;
    } else {
      var u := s + t;
      assert u[..|u| - 1] == s + t[..|t| - 1];
      HexNumberAppend(s, t[..|t| - 1]);
    }
  }

  /** `cnt` digits from `i` on, all of which must be there. */
  method FromHexToI(s: string, i: nat, cnt: nat) returns (ok: bool, val: nat)
    requires cnt > 0
    ensures ok <==> i + cnt <= |s| && HexNumber(s[i..i + cnt]).Some?
    ensures ok ==> HexNumber(s[i..i + cnt]) == Some(val)
  {
    val := 0;
    if i >= |s| {
      return false, val;
    }
    var k := i;
    while k < i + cnt
      invariant i <= k <= i + cnt && k <= |s| && HexNumber(s[i..k]) == Some(val)
    {
      if k == |s| || s[k] == '\0' || HexDigit(s[k]).None? {
        NoHexNumber(s, i, k, cnt);
        return false, val;
      }
      assert s[i..k + 1][..k - i] == s[i..k];
      val := val * 16 + HexDigit(s[k]).value;
      k := k + 1;
    }
    ok := true;
  }

  lemma NoHexNumber(s: string, i: nat, k: nat, cnt: nat)
    requires i <= k < i + cnt && k <= |s| && (k < |s| ==> HexDigit(s[k]).None?)
    ensures !(i + cnt <= |s| && HexNumber(s[i..i + cnt]).Some?)
  {
    if i + cnt <= |s| {
      HexNumberAppend(s[i..k + 1], s[k + 1..i + cnt]);
      assert s[i..i + cnt] == s[i..k + 1] + s[k + 1..i + cnt];
    }
  }

  lemma HexNumberLast(init: string, c: char)
    ensures HexNumber(init + [c]) ==
            if HexNumber(init).None? || HexDigit(c).None? then None
            else Some(HexNumber(init).value * 16 + HexDigit(c).value)
  {
    assert (init + [c])[..|init|] == init;
  }

  function Power16(k: nat): nat {
    if k == 0 then 1 else 16 * Power16(k - 1)
  }

  /** So many digits write a number below so many. */
  lemma {:induction false} HexBelow(s: string)
    ensures HexNumber(s).Some? ==> HexNumber(s).value < Power16(|s|)
  {
    if s != "" {
      HexBelow(s[..|s| - 1]);
    }
  }

  const HEX_DIGITS := "0123456789abcdef"

  lemma HexDigitOf(d: nat)
    requires d < 16
    ensures HexDigit(HEX_DIGITS[d]) == Some(d)
  {
  }

  /** The shortest number text. */
  function ToHex(n: nat): (s: string)
    ensures s != ""
  {
    if n < 16 then [HEX_DIGITS[n]] else ToHex(n / 16) + [HEX_DIGITS[n % 16]]
  }

  predicate IsHexText(s: string) {
    forall i :: 0 <= i < |s| ==> s[i] in HEX_DIGITS
  }

  /** Reading a printed number gives the number. */
  lemma {:induction false} HexRoundTrip(n: nat)
    ensures HexNumber(ToHex(n)) == Some(n) && IsHexText(ToHex(n)) && (n > 0 ==> ToHex(n)[0] != '0')
  {
    hide HexDigit;
    if n < 16 {
      HexDigitOf(n);
      HexNumberLast("", HEX_DIGITS[n]);
      assert "" + [HEX_DIGITS[n]] == [HEX_DIGITS[n]];
    } else {
      var high, low := n / 16, n % 16;
      HexDigitOf(low);
      HexRoundTrip(high);
      OneMoreHexDigit(ToHex(high), high, low);
      assert n == high * 16 + low;
    }
  }

  lemma OneMoreHexDigit(s: string, high: nat, low: nat)
    requires low < 16 && HexNumber(s) == Some(high) && IsHexText(s)
    ensures HexNumber(s + [HEX_DIGITS[low]]) == Some(high * 16 + low) && IsHexText(s + [HEX_DIGITS[low]])
  {
    var c := HEX_DIGITS[low];
    HexDigitOf(low);
    NumberThenDigit(s, c, high, low);
    TextThenDigit(s, c);
  }

  lemma NumberThenDigit(s: string, c: char, high: nat, low: nat)
    requires HexDigit(c) == Some(low) && HexNumber(s) == Some(high)
    ensures HexNumber(s + [c]) == Some(high * 16 + low)
  {
    HexNumberLast(s, c);
  }

  lemma TextThenDigit(s: string, c: char)
    requires IsHexText(s) && c in HEX_DIGITS
    ensures IsHexText(s + [c])
  {
  }

  method FromIToHex(number: nat) returns (ret: string)
    ensures ret == ToHex(number)
  {
    ret := "";
    var n := number;
    assert ToHex(n) + "" == ToHex(n);
    while true
      invariant ToHex(n) + ret == ToHex(number)
      decreases n
    {
      var digit := HEX_DIGITS[n % 16];
      if n >= 16 {
        Associative(ToHex(n / 16), [digit], ret);
      }
      ret := [digit] + ret;
      n := n / 16;
      if !(n > 0) {
        break;
      }
    }
  }
}
