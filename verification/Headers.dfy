/** Header lines, section 5 of RFC 9112, as the HTTP library reads them. */
module Headers {

  import opened Query
  import opened Text
  import opened Wrappers

  /** The C library's, in its default locale. */
  function ToLower(c: char): char {
    if 'A' <= c <= 'Z' then 'a' + (c - 'A') else c
  }

  predicate SameIgnoringCase(a: string, b: string) {
    |a| == |b| && forall i :: 0 <= i < |a| ==> ToLower(a[i]) == ToLower(b[i])
  }

  method CompareCaseIgnore(a: string, b: string) returns (same: bool)
    ensures same <==> SameIgnoringCase(a, b)
  {
    if |a| != |b| {
      return false;
    }
    for i := 0 to |b|
      invariant forall j :: 0 <= j < i ==> ToLower(a[j]) == ToLower(b[j])
    {
      if ToLower(a[i]) != ToLower(b[i]) {
        return false;
      }
    }
    same := true;
  }

  /** The line without the blanks behind it. */
  function Stripped(line: string): string {
    line[..InkEnd(line, |line|)]
  }

  /** The name before the first colon and the value behind it, of a line that has both. */
  function ParsedHeader(line: string): Option<Pair> {
    var text := Stripped(line);
    var p := IndexOf(text, ':');
    if p == |text| then None
    else
      var v := Ink(text, p + 1);
      if v < |text| && p > 0 then Some(Pair(text[..p], HeaderValue(text[..p], text[v..]))) else None
  }

  /** Values are decoded, save that of one header. */
  function HeaderValue(key: string, val: string): string {
    if SameIgnoringCase(key, "Location") then val else Decoded(val, false)
  }

  /** Skips trailing blanks. */
  method StrippedEnd(line: string) returns (end: nat)
    ensures end <= |line| && line[..end] == Stripped(line)
  {
    end := |line|;
    while 0 < end && IsBlank(line[end - 1])
      invariant end <= |line| && InkEnd(line, end) == InkEnd(line, |line|)
    {
      end := end - 1;
    }
  }

  method ParseHeader(line: string) returns (header: Option<Pair>)
    ensures header == ParsedHeader(line)
  {
    hide Decoded, InkEnd, SameIgnoringCase;
    var end := StrippedEnd(line);
    var text := line[..end];
    var p: nat := 0;
    while p < |text| && text[p] != ':'
      invariant p <= |text| && forall j :: 0 <= j < p ==> text[j] != ':'
    {
      p := p + 1;
    }
    FirstColon(text, p);
    if p == |text| {
      return None;
    }
    var keyEnd := p;
    p := p + 1;
    while p < |text| && IsBlank(text[p])
      invariant keyEnd < p <= |text| && Ink(text, p) == Ink(text, keyEnd + 1)
    {
      p := p + 1;
    }
    if p < |text| && keyEnd > 0 {
      var key := text[..keyEnd];
      var isLocation := CompareCaseIgnore(key, "Location");
      var val := text[p..];
      if !isLocation {
        val := DecodeUrl(val, false);
      }
      return Some(Pair(key, val));
    }
    header := None;
  }

  lemma FirstColon(text: string, p: nat)
    requires p <= |text| && (p < |text| ==> text[p] == ':') && forall j :: 0 <= j < p ==> text[j] != ':'
    ensures IndexOf(text, ':') == p
  {
    IndexIs(text, ':', p);
  }

  /** What a header line is read as that was printed from a name and a value. */
  lemma ParsedOfPrinted(key: string, val: string)
    requires key != "" && ':' !in key && IsTrimmed(val)
    ensures ParsedHeader(key + ": " + val) == Some(Pair(key, HeaderValue(key, val)))
  {
    var line := key + ": " + val;
    assert line[|line| - 1] == val[|val| - 1];
    assert Stripped(line) == line;
    FirstColon(line, |key|);
    assert line[..|key|] == key && line[|key| + 2..] == val;
    assert IsBlank(line[|key| + 1]) && line[|key| + 2] == val[0];
    assert Ink(line, |key| + 2) == |key| + 2;
  }

  /** Without a colon there is no header line. */
  lemma NoColon(line: string)
    requires ':' !in line
    ensures ParsedHeader(line).None?
  {
    var text := Stripped(line);
    forall j | 0 <= j < |text| ensures text[j] != ':' {
      assert text[j] == line[j] && line[j] in line;
    }
    FirstColon(text, |text|);
  }

  /** Any value of bytes can be sent percent encoded; only that of `Location` is left as it is. */
  lemma EncodedValueIsRead(key: string, val: string)
    requires key != "" && ':' !in key && IsBytes(val) && val != ""
    ensures ParsedHeader(key + ": " + Encoded(val)) ==
            Some(Pair(key, if SameIgnoringCase(key, "Location") then Encoded(val) else val))
  {
    hide SameIgnoringCase, ParsedHeader, Encoded, Decoded;
    EncodedIsTrimmed(val);
    ParsedOfPrinted(key, Encoded(val));
    DecodingInvertsEncoding(val, false);
  }

  lemma EncodedIsTrimmed(s: string)
    requires IsBytes(s) && s != ""
    ensures IsTrimmed(Encoded(s))
  {
    EncodedIsSafe(s);
  }
}
