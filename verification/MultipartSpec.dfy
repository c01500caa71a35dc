/**
 Multipart form data, section 4.1 of RFC 7578 and section 5.1.1 of RFC 2046: what is
 serialized, and what the incremental parser does with each call, on values.
 */
module MultipartSpec {

  import opened Headers
  import opened Query
  import opened Text
  import opened Wrappers

  const HEADER_MAX_LENGTH: nat := 8192
  const CRLF := "\r\n"
  const DASH := "--"

  datatype Item = Item(name: string, content: string, filename: string, contentType: string)

  // ---------------------------------------------------------------- finding

  predicate OccursAt(h: string, n: string, i: nat) {
    i + |n| <= |h| && h[i..i + |n|] == n
  }

  /** The first occurrence, or the length. */
  function First(h: string, n: string): (i: nat)
    requires n != ""
    ensures i <= |h| && (i < |h| ==> i + |n| <= |h|)
  {
    if |n| > |h| then |h| else if h[..|n|] == n then 0 else 1 + First(h[1..], n)
  }

  lemma OccursInTail(h: string, n: string, i: nat)
    requires h != "" && i > 0
    ensures OccursAt(h, n, i) <==> OccursAt(h[1..], n, i - 1)
  {
    if i + |n| <= |h| {
      assert h[i..i + |n|] == h[1..][i - 1..i - 1 + |n|];
    }
  }

  lemma {:induction false} FirstIs(h: string, n: string, i: nat)
    requires n != "" && OccursAt(h, n, i) && forall j :: 0 <= j < i ==> !OccursAt(h, n, j)
    ensures First(h, n) == i
  {
    if i > 0 {
      assert !OccursAt(h, n, 0);
      OccursInTail(h, n, i);
      forall j | 0 <= j < i - 1 ensures !OccursAt(h[1..], n, j) {
        OccursInTail(h, n, j + 1);
      }
      FirstIs(h[1..], n, i - 1);
    }
  }

  lemma {:induction false} NoneIs(h: string, n: string)
    requires n != "" && forall j :: 0 <= j < |h| ==> !OccursAt(h, n, j)
    ensures First(h, n) == |h|
  {
    if |n| <= |h| {
      assert !OccursAt(h, n, 0);
      forall j | 0 <= j < |h| - 1 ensures !OccursAt(h[1..], n, j) {
        OccursInTail(h, n, j + 1);
      }
      NoneIs(h[1..], n);
    }
  }

  /** The first occurrence is one, and there is none before it. */
  lemma {:induction false} FirstOccurs(h: string, n: string)
    requires n != ""
    ensures First(h, n) < |h| ==> OccursAt(h, n, First(h, n))
    ensures forall j :: 0 <= j < First(h, n) ==> !OccursAt(h, n, j)
  {
    if |n| <= |h| && h[..|n|] != n {
      FirstOccurs(h[1..], n);
      var i := First(h, n);
      OccursInTail(h, n, i);
      forall j | 0 <= j < i ensures !OccursAt(h, n, j) {
        if j > 0 {
          OccursInTail(h, n, j);
        }
      }
    }
  }

  /** No occurrence starts before `k`. */
  ghost predicate Clear(h: string, n: string, k: nat) {
    forall j :: 0 <= j < k ==> !OccursAt(h, n, j)
  }

  // ---------------------------------------------------------------- one header line

  datatype FileInfo = FileInfo(name: string, filename: string, contentType: string)

  predicate StartsIgnoringCase(s: string, prefix: string) {
    |prefix| <= |s| && SameIgnoringCase(s[..|prefix|], prefix)
  }

  predicate IsOneLine(s: string) {
    '\r' !in s && '\n' !in s
  }

  const TYPE_NAME := "Content-Type"
  const DISPOSITION_NAME := "Content-Disposition"
  const CONTENT_TYPE := TYPE_NAME + ":"
  const CONTENT_DISPOSITION := DISPOSITION_NAME + ":"
  const FORM_DATA := "form-data;"

  /** The parameters of a form-data disposition, of a line that is one. */
  function DispositionText(line: string): Option<string> {
    if !StartsIgnoringCase(line, CONTENT_DISPOSITION) then None
    else
      var t := SkipSpace(line[|CONTENT_DISPOSITION|..]);
      if !StartsIgnoringCase(t, FORM_DATA) then None
      else
        var u := SkipSpace(t[|FORM_DATA|..]);
        if IsOneLine(u) then Some(u) else None
  }

  function TrimDoubleQuotes(s: string): string {
    if |s| >= 2 && s[0] == '"' && s[|s| - 1] == '"' then s[1..|s| - 1] else s
  }

  /** Each distinct piece once, as a parameter without its quotes. */
  function DispositionInto(pieces: seq<string>, cache: set<string>, items: seq<Pair>): seq<Pair> {
    if pieces == [] then items
    else if pieces[0] in cache then DispositionInto(pieces[1..], cache, items)
    else DispositionInto(pieces[1..], cache + {pieces[0]}, DispositionOne(pieces[0], items))
  }

  function DispositionOne(kv: string, items: seq<Pair>): seq<Pair> {
    var parts := Pieces(kv, '=');
    if KeyIn(parts) == "" then items
    else Inserted(items, Pair(TrimDoubleQuotes(KeyIn(parts)), TrimDoubleQuotes(ValueIn(parts))))
  }

  function Lookup(items: seq<Pair>, key: string): Option<string> {
    if items == [] then None else if items[0].key == key then Some(items[0].value) else Lookup(items[1..], key)
  }

  const UTF8_PREFIX := "UTF-8''"

  /** The extended file name, in the only encoding allowed. */
  function ExtendedFilename(v: string): Option<string> {
    if StartsIgnoringCase(v, UTF8_PREFIX) && |v| > |UTF8_PREFIX| && IsOneLine(v[|UTF8_PREFIX|..]) then
      Some(Decoded(v[|UTF8_PREFIX|..], false))
    else None
  }

  /** What is known of the file after a header line, and whether the line was valid. */
  datatype Taken = Taken(ok: bool, file: FileInfo)

  function WithParams(file: FileInfo, params: seq<Pair>): Taken {
    var name, filename, extended := Lookup(params, "name"), Lookup(params, "filename"), Lookup(params, "filename*");
    if name.None? then Taken(false, file)
    else
      var f := file.(name := name.value);
      var g := if filename.Some? then f.(filename := filename.value) else f;
      if extended.None? then Taken(true, g)
      else
        var e := ExtendedFilename(extended.value);
        if e.None? then Taken(false, g) else Taken(true, g.(filename := e.value))
  }

  function TakeHeader(file: FileInfo, line: string): Taken {
    if ParsedHeader(line).None? then Taken(false, file)
    else if StartsIgnoringCase(line, CONTENT_TYPE) then Taken(true, file.(contentType := Trim(line[|CONTENT_TYPE|..])))
    else
      var text := DispositionText(line);
      if text.None? then Taken(true, file) else WithParams(file, DispositionInto(Pieces(text.value, ';'), {}, []))
  }

  // ---------------------------------------------------------------- the parser

  /** The calls of the two callbacks. */
  datatype Event = Header(file: FileInfo) | Content(data: string)

  const NO_FILE := FileInfo("", "", "")

  datatype Parser = Parser(state: nat, valid: bool, file: FileInfo, buf: string, events: seq<Event>)
  {
    function Drop(n: nat): Parser
      requires n <= |buf|
    {
      this.(buf := buf[n..])
    }

    function Emit(e: Event): Parser {
      this.(events := events + [e])
    }
  }

  const START := Parser(0, false, NO_FILE, "", [])

  function DashBoundaryCrlf(boundary: string): string {
    DASH + boundary + CRLF
  }

  function CrlfDashBoundary(boundary: string): string {
    CRLF + DASH + boundary
  }

  /** One round of the loop: it goes on, or the call returns. */
  datatype Round = Go(p: Parser) | Stop(p: Parser, ok: bool)

  predicate StartsWith(s: string, t: string) {
    |t| <= |s| && s[..|t|] == t
  }

  function StepInitial(b: string, p: Parser): Round {
    var d := DashBoundaryCrlf(b);
    var q := p.Drop(First(p.buf, d));
    if |d| > |q.buf| then Stop(q, true)
    else if !StartsWith(q.buf, d) then Stop(q, false)
    else Go(q.Drop(|d|).(state := 1))
  }

  /** Past a header line of that length; an invalid one stays in the buffer. */
  function NextHeader(p: Parser, pos: nat): (r: Round)
    requires pos + 2 <= |p.buf|
    ensures r.p.state == p.state && r.p.events == p.events
    ensures (r.Go? ==> r.p.buf == p.buf[pos + 2..] && r.p.valid == p.valid)
  {
    var taken := TakeHeader(p.file, p.buf[..pos]);
    if taken.ok then Go(p.Drop(pos + 2).(file := taken.file)) else Stop(p.(file := taken.file, valid := false), false)
  }

  /** The loop over the header lines. */
  function StepHeaders(p: Parser): (r: Round)
    ensures if r.Go? then r.p.state == 3 && |r.p.buf| < |p.buf| else r.p.state == p.state
    decreases |p.buf|
  {
    var pos := First(p.buf, CRLF);
    if pos == |p.buf| then Stop(p, true)
    else if pos == 0 then Go(p.Emit(Header(p.file)).Drop(2).(state := 3))
    else
      var r := NextHeader(p, pos);
      if r.Stop? then r else StepHeaders(r.p)
  }

  function StepBody(b: string, p: Parser): Round {
    var d := CrlfDashBoundary(b);
    var pos := First(p.buf, d);
    if |d| > |p.buf| then Stop(p, true)
    else if pos + |d| <= |p.buf| then Go(p.Emit(Content(p.buf[..pos])).Drop(pos + |d|).(state := 4))
    else
      var len := |p.buf| - |d|;
      Stop(if len > 0 then p.Emit(Content(p.buf[..len])).Drop(len) else p, true)
  }

  function StepBoundary(p: Parser): Round {
    if |p.buf| < 2 then Stop(p, true)
    else if StartsWith(p.buf, CRLF) then Go(p.Drop(2).(state := 1))
    else if StartsWith(p.buf, DASH) then Go(p.(buf := "", valid := true))
    else Stop(p, true)
  }

  function Step(b: string, p: Parser): Round
    requires p.state <= 4
  {
    match p.state
    case 0 => StepInitial(b, p)
    case 1 => Go(p.(file := NO_FILE, state := 2))
    case 2 => if First(p.buf, CRLF) > HEADER_MAX_LENGTH then Stop(p, false) else StepHeaders(p)
    case 3 => StepBody(b, p)
    case _ => StepBoundary(p)
  }

  function Rank(p: Parser): nat {
    2 * |p.buf| + if p.state == 1 then 1 else 0
  }

  lemma StepShrinks(b: string, p: Parser)
    requires p.state <= 4 && p.buf != ""
    ensures Step(b, p).p.state <= 4 && (Step(b, p).Go? ==> Rank(Step(b, p).p) < Rank(p))
  {
  }

  /** The loop of one call. */
  function Run(b: string, p: Parser): (r: Round)
    requires p.state <= 4
    ensures r.Stop? && r.p.state <= 4
    decreases Rank(p)
  {
    if p.buf == "" then Stop(p, true)
    else
      StepShrinks(b, p);
      var r := Step(b, p);
      if r.Stop? then r else Run(b, r.p)
  }

  /** A call with more data. */
  function Fed(b: string, p: Parser, data: string): Round
    requires p.state <= 4
  {
    Run(b, p.(buf := p.buf + data))
  }

  /** Calls with one piece after another, as long as they succeed. */
  function FedAll(b: string, p: Parser, pieces: seq<string>): (r: Round)
    requires p.state <= 4
    ensures r.Stop? && r.p.state <= 4
    decreases |pieces|
  {
    if pieces == [] then Stop(p, true)
    else
      var r := Fed(b, p, pieces[0]);
      if r.ok then FedAll(b, r.p, pieces[1..]) else r
  }

  /** The header lines end with one call, or without any. */
  lemma {:induction false} HeadersTell(p: Parser)
    ensures var r := StepHeaders(p);
            if r.Go? then exists f :: r.p.events == p.events + [Header(f)] else r.p.events == p.events
    decreases |p.buf|
  {
    var pos := First(p.buf, CRLF);
    if 0 < pos < |p.buf| && NextHeader(p, pos).Go? {
      HeadersTell(NextHeader(p, pos).p);
    }
  }

  lemma StepExtends(b: string, p: Parser)
    requires p.state <= 4
    ensures p.events <= Step(b, p).p.events
  {
    if p.state == 2 {
      HeadersTell(p);
    }
  }

  /** A call only adds events; the first round's come first. */
  lemma {:induction false} RunExtends(b: string, p: Parser)
    requires p.state <= 4 && p.buf != ""
    ensures p.events <= Step(b, p).p.events <= Run(b, p).p.events
    decreases Rank(p)
  {
    StepExtends(b, p);
    StepShrinks(b, p);
    var r := Step(b, p);
    if r.Go? && r.p.buf != "" {
      RunExtends(b, r.p);
    }
  }

  // ---------------------------------------------------------------- serializing

  predicate IsBoundaryChar(c: char) {
    IsAlnum(c) || c == '-' || c == '_'
  }

  ghost predicate IsBoundary(b: string) {
    forall i :: 0 <= i < |b| ==> IsBoundaryChar(b[i])
  }

  method IsMultipartBoundaryCharsValid(boundary: string) returns (valid: bool)
    ensures valid <==> IsBoundary(boundary)
  {
    valid := true;
    for i := 0 to |boundary|
      invariant valid && forall j :: 0 <= j < i ==> IsBoundaryChar(boundary[j])
    {
      if !IsBoundaryChar(boundary[i]) {
        valid := false;
        break;
      }
    }
  }

  function DispositionLine(item: Item): string {
    CONTENT_DISPOSITION + " " + FORM_DATA + " name=\"" + item.name + "\"" +
    if item.filename != "" then "; filename=\"" + item.filename + "\"" else ""
  }

  function TypeLine(contentType: string): string {
    CONTENT_TYPE + " " + contentType
  }

  function ItemBegin(item: Item, boundary: string): string {
    DASH + boundary + CRLF + DispositionLine(item) + CRLF +
    (if item.contentType != "" then TypeLine(item.contentType) + CRLF else "") + CRLF
  }

  function ItemsText(items: seq<Item>, boundary: string): string {
    if items == [] then ""
    else ItemBegin(items[0], boundary) + (items[0].content + CRLF) + ItemsText(items[1..], boundary)
  }

  function Serialized(items: seq<Item>, boundary: string): string {
    ItemsText(items, boundary) + (DASH + boundary + "--\r\n")
  }

  method SerializeMultipartFormdata(items: seq<Item>, boundary: string, finish: bool) returns (body: string)
    ensures body == if finish then Serialized(items, boundary) else ItemsText(items, boundary)
  {
    body := "";
    assert items[0..] == items;
    var i: nat := 0;
    while i < |items|
      invariant i <= |items| && body + ItemsText(items[i..], boundary) == ItemsText(items, boundary)
    {
      ghost var before, rest := body, ItemsText(items[i + 1..], boundary);
      assert items[i..][1..] == items[i + 1..];
      body := body + ItemBegin(items[i], boundary);
      body := body + (items[i].content + CRLF);
      Assemble(before, ItemBegin(items[i], boundary), items[i].content + CRLF, rest);
      i := i + 1;
    }
    assert items[i..] == [] && body + "" == body;
    if finish {
      body := body + (DASH + boundary + "--\r\n");
    }
  }

  lemma Assemble(before: string, a: string, b: string, rest: string)
    ensures before + a + b + rest == before + (a + b + rest)
  {
  }
}
