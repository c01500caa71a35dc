/** A message of any parts is parsed as what its lines tell, whatever pieces it arrives in. */
module MultipartParts {

  import opened MultipartBody
  import opened MultipartSpec
  import opened Sequences

  // ---------------------------------------------------------------- delimiters

  lemma BoundaryHasNoCr(b: string, d: string, k: nat)
    requires IsBoundary(b) && d == CrlfDashBoundary(b) && 0 < k < |d|
    ensures d[k] != '\r' && d[0] == '\r'
  {
    if k >= 4 {
      assert d[k] == b[k - 4];
    }
  }

  /** Content that does not hold the delimiter ends at the first one: it cannot start within the content. */
  lemma DelimiterClear(b: string, d: string, c: string, tail: string, t: string)
    requires IsBoundary(b) && d == CrlfDashBoundary(b) && t == c + (d + tail) && Clear(c, d, |c|)
    ensures OccursAt(t, d, |c|) && Clear(t, d, |c|)
  {
    assert t[|c|..|c| + |d|] == d;
    forall j | 0 <= j < |c| ensures !OccursAt(t, d, j) {
      if j + |d| <= |c| {
        assert !OccursAt(c, d, j);
        assert t[j..j + |d|] == c[j..j + |d|];
      } else {
        var k := |c| - j;
        BoundaryHasNoCr(b, d, k);
        assert t[|c|] == d[0];
        if j + |d| <= |t| {
          assert t[j..j + |d|][k] == t[|c|];
        }
      }
    }
  }

  /** The rest of such content is such content. */
  lemma ClearSuffix(c: string, d: string, k: nat)
    requires Clear(c, d, |c|) && k <= |c|
    ensures Clear(c[k..], d, |c[k..]|)
  {
    var s := c[k..];
    forall j | 0 <= j < |s| ensures !OccursAt(s, d, j) {
      assert !OccursAt(c, d, k + j);
      if j + |d| <= |s| {
        assert s[j..j + |d|] == c[k + j..k + j + |d|];
      }
    }
  }

  // ---------------------------------------------------------------- messages

  /** A part: its header lines, and the item that they and its content tell of. */
  datatype Part = Part(lines: seq<string>, item: Item)

  function LinesText(lines: seq<string>, tail: string): string {
    if lines == [] then tail else lines[0] + (CRLF + LinesText(lines[1..], tail))
  }

  /** The text behind the first delimiter. */
  function PartsText(b: string, parts: seq<Part>): string
    requires parts != []
    decreases |parts|, 0
  {
    LinesText(parts[0].lines, CRLF + PartBody(b, parts[0].item.content, parts[1..]))
  }

  function PartBody(b: string, content: string, parts: seq<Part>): string
    decreases |parts|, 2
  {
    content + (CrlfDashBoundary(b) + PartsAfter(b, parts))
  }

  function PartsAfter(b: string, parts: seq<Part>): string
    decreases |parts|, 1
  {
    if parts == [] then "--\r\n" else CRLF + PartsText(b, parts)
  }

  /** The whole message. */
  function MessageText(b: string, parts: seq<Part>): string
    requires parts != []
  {
    DashBoundaryCrlf(b) + PartsText(b, parts)
  }

  // ---------------------------------------------------------------- what has been delivered

  /** The items that the callbacks have been told of, the last one perhaps not yet whole. */
  function Delivered(events: seq<Event>): seq<Item> {
    if events == [] then [] else Told(Delivered(events[..|events| - 1]), events[|events| - 1])
  }

  function Told(items: seq<Item>, e: Event): seq<Item> {
    match e
    case Header(f) => items + [Item(f.name, "", f.filename, f.contentType)]
    case Content(d) => if items == [] then [] else Longer(items, d)
  }

  function Longer(items: seq<Item>, d: string): seq<Item>
    requires items != []
  {
    var last := items[|items| - 1];
    items[..|items| - 1] + [last.(content := last.content + d)]
  }

  lemma DeliveredNext(events: seq<Event>, e: Event)
    ensures Delivered(events + [e]) == Told(Delivered(events), e)
  {
    assert (events + [e])[..|events|] == events;
  }

  // ---------------------------------------------------------------- where the parser is

  function FileOf(item: Item): FileInfo {
    FileInfo(item.name, item.filename, item.contentType)
  }

  ghost predicate IsLine(file: FileInfo, line: string) {
    0 < |line| < HEADER_MAX_LENGTH && IsOneLine(line) && TakeHeader(file, line).ok
  }

  /** The lines tell what is missing of the file. */
  ghost predicate Tell(file: FileInfo, lines: seq<string>, goal: FileInfo)
    decreases |lines|
  {
    if lines == [] then file == goal
    else IsLine(file, lines[0]) && Tell(TakeHeader(file, lines[0]).file, lines[1..], goal)
  }

  /** Its content does not hold the delimiter, and its lines tell of it. */
  ghost predicate IsSendablePart(b: string, part: Part) {
    Clear(part.item.content, CrlfDashBoundary(b), |part.item.content|) && Tell(NO_FILE, part.lines, FileOf(part.item))
  }

  /** These parts tell of these items. */
  ghost predicate TellOf(parts: seq<Part>, items: seq<Item>) {
    |parts| == |items| && forall i :: 0 <= i < |parts| ==> parts[i].item == items[i]
  }

  datatype Phase = Start | Opening | InHeaders(lines: seq<string>) | InBody(got: string, c: string) | Behind | Ended

  /** The message, as far as it has not been parsed: what waits in the buffer and what has not arrived. */
  ghost predicate Expects(b: string, p: Parser, rest: string, items: seq<Item>, parts: seq<Part>, k: nat,
                          phase: Phase) {
    var t := p.buf + rest;
    k <= |items| && TellOf(parts, items) && match phase
    case Start =>
      && p.state == 0 && Delivered(p.events) == [] && items != [] && k == 0
      && (p.buf == "" || |p.buf| >= |DashBoundaryCrlf(b)|) && t == DashBoundaryCrlf(b) + PartsText(b, parts)
    case Opening =>
      p.state == 1 && k < |items| && Delivered(p.events) == items[..k] && t == PartsText(b, parts[k..])
    case InHeaders(lines) =>
      && p.state == 2 && k < |items| && Delivered(p.events) == items[..k] && Tell(p.file, lines, FileOf(items[k]))
      && t == LinesText(lines, CRLF + PartBody(b, items[k].content, parts[k + 1..]))
    case InBody(got, c) =>
      && p.state == 3 && k < |items| && Delivered(p.events) == items[..k] + [items[k].(content := got)]
      && got + c == items[k].content && Clear(c, CrlfDashBoundary(b), |c|) && t == PartBody(b, c, parts[k + 1..])
    case Behind =>
      p.state == 4 && Delivered(p.events) == items[..k] && t == PartsAfter(b, parts[k..])
    case Ended =>
      && p.valid && Delivered(p.events) == items
      && (p.state == 4 || (p.state == 1 && t == "")) && (t == "" || t == "\n" || t == "\r\n")
  }

  lemma StepStart(b: string, p: Parser, rest: string, items: seq<Item>, parts: seq<Part>)
    requires Expects(b, p, rest, items, parts, 0, Start) && p.buf != ""
    ensures Step(b, p).Go? && Expects(b, Step(b, p).p, rest, items, parts, 0, Opening)
  {
    var d := DashBoundaryCrlf(b);
    var t := p.buf + rest;
    assert p.buf[..|d|] == t[..|d|] == d;
    assert First(p.buf, d) == 0 && p.buf[0..] == p.buf;
    assert p.buf[|d|..] + rest == t[|d|..] == PartsText(b, parts);
    assert parts[0..] == parts;
  }

  lemma StepOpening(b: string, p: Parser, rest: string, items: seq<Item>, parts: seq<Part>, k: nat)
    requires Expects(b, p, rest, items, parts, k, Opening) && IsSendablePart(b, parts[k])
    ensures Step(b, p).Go? && Expects(b, Step(b, p).p, rest, items, parts, k, InHeaders(parts[k].lines))
  {
    assert parts[k..][1..] == parts[k + 1..];
  }

  /** The first line end in the buffer is the first one in the message. */
  lemma FirstLineEnd(line: string, tail: string, buf: string, rest: string)
    requires buf + rest == line + (CRLF + tail) && IsOneLine(line)
    ensures First(buf, CRLF) == if |line| + 2 <= |buf| then |line| else |buf|
    ensures |line| + 2 <= |buf| ==> buf[..|line|] == line && buf[|line| + 2..] + rest == tail
  {
    var t := line + (CRLF + tail);
    LineClear(line, tail, t);
    FirstInPrefix(t, buf, rest, CRLF, |line|);
    if |line| + 2 <= |buf| {
      assert buf[..|line|] == t[..|line|] == line;
      assert buf[|line| + 2..] + rest == t[|line| + 2..] == tail;
    }
  }

  lemma HeaderEvent(b: string, p: Parser, rest: string, items: seq<Item>, parts: seq<Part>, k: nat, q: Parser)
    requires Expects(b, p, rest, items, parts, k, InHeaders([])) && |p.buf| >= 2 && IsSendablePart(b, parts[k])
    requires q == p.Emit(Header(p.file)).Drop(2).(state := 3)
    ensures Expects(b, q, rest, items, parts, k, InBody("", items[k].content))
  {
    hide First, TakeHeader, PartsAfter, CrlfDashBoundary, Delivered;
    DeliveredNext(p.events, Header(p.file));
    var body := PartBody(b, items[k].content, parts[k + 1..]);
    assert p.buf + rest == "" + (CRLF + body);
    FirstLineEnd("", body, p.buf, rest);
    assert "" + items[k].content == items[k].content;
  }

  /** A header line that is whole is taken. */
  lemma TakeLine(b: string, p: Parser, rest: string, items: seq<Item>, parts: seq<Part>, k: nat, lines: seq<string>)
    returns (q: Parser)
    requires Expects(b, p, rest, items, parts, k, InHeaders(lines)) && lines != [] && |lines[0]| + 2 <= |p.buf|
    ensures Expects(b, q, rest, items, parts, k, InHeaders(lines[1..])) && StepHeaders(p) == StepHeaders(q)
    ensures First(p.buf, CRLF) == |lines[0]|
  {
    var line, tail := lines[0], CRLF + PartBody(b, items[k].content, parts[k + 1..]);
    FirstLineEnd(line, LinesText(lines[1..], tail), p.buf, rest);
    q := NextHeader(p, |line|).p;
  }

  /** The empty line ends them. */
  lemma EndOfHeaders(b: string, p: Parser, rest: string, items: seq<Item>, parts: seq<Part>, k: nat)
    requires Expects(b, p, rest, items, parts, k, InHeaders([])) && IsSendablePart(b, parts[k])
    ensures var r := StepHeaders(p);
            if r.Go? then Expects(b, r.p, rest, items, parts, k, InBody("", items[k].content))
            else r == Stop(p, true) && rest != ""
    ensures First(p.buf, CRLF) <= 1
  {
    var body := PartBody(b, items[k].content, parts[k + 1..]);
    assert p.buf + rest == "" + (CRLF + body);
    FirstLineEnd("", body, p.buf, rest);
    if |p.buf| >= 2 {
      HeaderEvent(b, p, rest, items, parts, k, StepHeaders(p).p);
    }
  }

  /** A line that is not whole waits. */
  lemma LineWaits(b: string, p: Parser, rest: string, items: seq<Item>, parts: seq<Part>, k: nat, lines: seq<string>)
    requires Expects(b, p, rest, items, parts, k, InHeaders(lines)) && lines != [] && |lines[0]| + 2 > |p.buf|
    ensures StepHeaders(p) == Stop(p, true) && rest != "" && First(p.buf, CRLF) <= HEADER_MAX_LENGTH
  {
    var line, tail := lines[0], CRLF + PartBody(b, items[k].content, parts[k + 1..]);
    FirstLineEnd(line, LinesText(lines[1..], tail), p.buf, rest);
    assert |p.buf + rest| >= |line| + 2;
  }

  /** The header lines that are whole are taken; what is left starts a line. */
  lemma {:induction false} StepInHeaders(b: string, p: Parser, rest: string, items: seq<Item>, parts: seq<Part>, k: nat,
                                         lines: seq<string>)
    returns (lines': seq<string>)
    requires Expects(b, p, rest, items, parts, k, InHeaders(lines)) && IsSendablePart(b, parts[k])
    ensures var r := StepHeaders(p);
            if r.Go? then Expects(b, r.p, rest, items, parts, k, InBody("", items[k].content))
            else r.ok && Expects(b, r.p, rest, items, parts, k, InHeaders(lines')) && rest != ""
    ensures First(p.buf, CRLF) <= HEADER_MAX_LENGTH
    decreases |lines|
  {
    lines' := lines;
    if lines == [] {
      EndOfHeaders(b, p, rest, items, parts, k);
    } else if |lines[0]| + 2 <= |p.buf| {
      var q := TakeLine(b, p, rest, items, parts, k, lines);
      lines' := StepInHeaders(b, q, rest, items, parts, k, lines[1..]);
    } else {
      LineWaits(b, p, rest, items, parts, k, lines);
    }
  }

  // ---------------------------------------------------------------- the body

  lemma ContentEvent(items: seq<Item>, k: nat, events: seq<Event>, got: string, d: string)
    requires k < |items| && Delivered(events) == items[..k] + [items[k].(content := got)]
    ensures Delivered(events + [Content(d)]) == items[..k] + [items[k].(content := got + d)]
  {
    DeliveredNext(events, Content(d));
    var before := Delivered(events);
    assert before[..|before| - 1] == items[..k];
  }

  /** The first delimiter in the buffer is the one that ends the content. */
  lemma FirstDelimiter(b: string, d: string, c: string, after: string, buf: string, rest: string)
    requires IsBoundary(b) && d == CrlfDashBoundary(b) && buf + rest == c + (d + after) && Clear(c, d, |c|)
    ensures First(buf, d) == (if |c| + |d| <= |buf| then |c| else |buf|)
    ensures |c| + |d| <= |buf| ==> buf[..|c|] == c && buf[|c| + |d|..] + rest == after
  {
    var t := buf + rest;
    DelimiterClear(b, d, c, after, t);
    FirstSplits(c, d, after, buf, rest, t);
  }

  lemma FirstSplits(c: string, d: string, after: string, buf: string, rest: string, t: string)
    requires d != "" && t == buf + rest == c + (d + after) && OccursAt(t, d, |c|) && Clear(t, d, |c|)
    ensures First(buf, d) == (if |c| + |d| <= |buf| then |c| else |buf|)
    ensures |c| + |d| <= |buf| ==> buf[..|c|] == c && buf[|c| + |d|..] + rest == after
  {
    FirstInPrefix(t, buf, rest, d, |c|);
    if |c| + |d| <= |buf| {
      SplitAt(c, d, after, buf, rest, |c| + |d|);
    }
  }

  lemma SplitAt(c: string, d: string, after: string, buf: string, rest: string, i: nat)
    requires buf + rest == c + (d + after) && i == |c| + |d| <= |buf|
    ensures buf[..|c|] == c && buf[i..] + rest == after
  {
    var t := buf + rest;
    assert buf[..|c|] == t[..|c|] == c;
    assert buf[i..] + rest == t[i..] == after;
  }

  /** The whole content is there. */
  lemma BodyEnds(b: string, p: Parser, rest: string, items: seq<Item>, parts: seq<Part>, k: nat, got: string, c: string)
    requires Expects(b, p, rest, items, parts, k, InBody(got, c)) && IsBoundary(b)
    requires |c| + |CrlfDashBoundary(b)| <= |p.buf|
    ensures Step(b, p).Go? && Expects(b, Step(b, p).p, rest, items, parts, k + 1, Behind)
  {
    hide Step, IsSendablePart, First, Tell, PartsAfter;
    var after := PartsAfter(b, parts[k + 1..]);
    FirstDelimiter(b, CrlfDashBoundary(b), c, after, p.buf, rest);
    ContentEvent(items, k, p.events, got, c);
    assert items[..k] + [items[k]] == items[..k + 1];
    FoundInBody(b, p, c, CrlfDashBoundary(b));
  }

  lemma FoundInBody(b: string, p: Parser, c: string, d: string)
    requires p.state == 3 && d == CrlfDashBoundary(b) && |c| + |d| <= |p.buf| && First(p.buf, d) == |c|
    requires p.buf[..|c|] == c
    ensures Step(b, p) == Go(Parser(4, p.valid, p.file, p.buf[|c| + |d|..], p.events + [Content(c)]))
  {
    hide First, CrlfDashBoundary, StepInitial, StepHeaders, StepBoundary;
    assert StepBody(b, p) == Go(p.Emit(Content(c)).Drop(|c| + |d|).(state := 4));
  }

  /** Some of the content is there, and perhaps some of the delimiter. */
  lemma BodyWaits(b: string, p: Parser, rest: string, items: seq<Item>, parts: seq<Part>, k: nat, got: string,
                  c: string)
    returns (got': string, c': string)
    requires Expects(b, p, rest, items, parts, k, InBody(got, c)) && IsBoundary(b)
    requires |c| + |CrlfDashBoundary(b)| > |p.buf|
    ensures Step(b, p).Stop? && Step(b, p).ok && Expects(b, Step(b, p).p, rest, items, parts, k, InBody(got', c'))
    ensures rest != ""
  {
    hide First, PartsAfter, Delivered, StepInitial, StepHeaders, StepBoundary;
    var d, after := CrlfDashBoundary(b), PartsAfter(b, parts[k + 1..]);
    FirstDelimiter(b, d, c, after, p.buf, rest);
    assert |p.buf + rest| >= |c| + |d|;
    if |p.buf| <= |d| {
      got', c' := got, c;
    } else {
      var len := |p.buf| - |d|;
      got', c' := got + c[..len], c[len..];
      TakeContent(c, d + after, p.buf, rest, len);
      ClearSuffix(c, d, len);
      ContentEvent(items, k, p.events, got, c[..len]);
      Associative(got, c[..len], c[len..]);
      assert c[..len] + c[len..] == c;
    }
  }

  lemma TakeContent(c: string, tail: string, buf: string, rest: string, len: nat)
    requires buf + rest == c + tail && len <= |c| && len <= |buf|
    ensures buf[..len] == c[..len] && buf[len..] + rest == c[len..] + tail
  {
    var t := buf + rest;
    assert buf[..len] == t[..len] == c[..len];
    assert buf[len..] + rest == t[len..] == c[len..] + tail;
  }

  lemma StepInBody(b: string, p: Parser, rest: string, items: seq<Item>, parts: seq<Part>, k: nat, got: string,
                   c: string)
    returns (k': nat, phase: Phase)
    requires Expects(b, p, rest, items, parts, k, InBody(got, c)) && IsBoundary(b)
    ensures Expects(b, Step(b, p).p, rest, items, parts, k', phase)
    ensures (Step(b, p).Stop? ==> Step(b, p).ok && rest != "")
  {
    if |c| + |CrlfDashBoundary(b)| <= |p.buf| {
      BodyEnds(b, p, rest, items, parts, k, got, c);
      k', phase := k + 1, Behind;
    } else {
      var got', c' := BodyWaits(b, p, rest, items, parts, k, got, c);
      k', phase := k, InBody(got', c');
    }
  }

  // ---------------------------------------------------------------- behind a delimiter

  lemma StepBehind(b: string, p: Parser, rest: string, items: seq<Item>, parts: seq<Part>, k: nat)
    returns (phase: Phase)
    requires Expects(b, p, rest, items, parts, k, Behind)
    ensures Expects(b, Step(b, p).p, rest, items, parts, k, phase) && (Step(b, p).Stop? ==> Step(b, p).ok && rest != "")
  {
    var t := p.buf + rest;
    if |p.buf| < 2 {
      assert |t| >= 2;
      phase := Behind;
    } else {
      assert p.buf[..2] == t[..2] && p.buf[2..] + rest == t[2..];
      if parts[k..] == [] {
        assert t[..2] == DASH && t[2..] == CRLF;
        Epilogue(p.buf[2..], rest);
        assert items[..k] == items;
        phase := Ended;
      } else {
        assert t[..2] == CRLF && t[2..] == PartsText(b, parts[k..]);
        phase := Opening;
      }
    }
  }

  /** What is left of the last line end, when the buffer has been emptied. */
  lemma Epilogue(buf: string, rest: string)
    requires buf + rest == CRLF
    ensures rest == "" || rest == "\n" || rest == "\r\n"
  {
    assert rest == CRLF[|buf|..];
  }

  lemma StepEnded(b: string, p: Parser, rest: string, items: seq<Item>, parts: seq<Part>, k: nat)
    requires Expects(b, p, rest, items, parts, k, Ended) && p.buf != ""
    ensures Expects(b, Step(b, p).p, rest, items, parts, k, Ended) && (Step(b, p).Stop? ==> Step(b, p).ok)
  {
    if |p.buf| >= 2 {
      assert p.buf == CRLF && rest == "";
      assert p.buf[2..] == "";
    }
  }

  // ---------------------------------------------------------------- calls

  lemma AnyStep(b: string, p: Parser, rest: string, items: seq<Item>, parts: seq<Part>, k: nat, phase: Phase)
    returns (k': nat, phase': Phase)
    requires Expects(b, p, rest, items, parts, k, phase) && p.buf != "" && IsBoundary(b)
    requires forall i :: 0 <= i < |parts| ==> IsSendablePart(b, parts[i])
    ensures Expects(b, Step(b, p).p, rest, items, parts, k', phase')
    ensures Step(b, p).Stop? ==> Step(b, p).ok && (rest == "" ==> phase' == Ended)
    ensures !phase'.Start?
  {
    hide IsSendablePart, Tell, Delivered;
    k', phase' := k, phase;
    match phase {
      case Start =>
        StepStart(b, p, rest, items, parts);
        phase' := Opening;
      case Opening =>
        StepOpening(b, p, rest, items, parts, k);
        phase' := InHeaders(parts[k].lines);
      case InHeaders(lines) =>
        var lines' := StepInHeaders(b, p, rest, items, parts, k, lines);
        phase' := if Step(b, p).Go? then InBody("", items[k].content) else InHeaders(lines');
      case InBody(got, c) =>
        k', phase' := StepInBody(b, p, rest, items, parts, k, got, c);
      case Behind =>
        phase' := StepBehind(b, p, rest, items, parts, k);
      case Ended =>
        StepEnded(b, p, rest, items, parts, k);
    }
  }

  /** Until the end there is something to come. */
  lemma MoreToCome(b: string, p: Parser, rest: string, items: seq<Item>, parts: seq<Part>, k: nat, phase: Phase)
    requires Expects(b, p, rest, items, parts, k, phase) && phase != Ended
    ensures p.buf + rest != ""
  {
    if phase.InHeaders? {
      LinesAreText(phase.lines, CRLF + PartBody(b, items[k].content, parts[k + 1..]));
    } else if phase.Opening? {
      LinesAreText(parts[k].lines, CRLF + PartBody(b, items[k].content, parts[k..][1..]));
    }
  }

  lemma LinesAreText(lines: seq<string>, tail: string)
    requires tail != ""
    ensures LinesText(lines, tail) != ""
  {
  }

  lemma {:induction false} RunKeeps(b: string, p: Parser, rest: string, items: seq<Item>, parts: seq<Part>, k: nat,
                                    phase: Phase)
    returns (k': nat, phase': Phase)
    requires Expects(b, p, rest, items, parts, k, phase) && IsBoundary(b)
    requires forall i :: 0 <= i < |parts| ==> IsSendablePart(b, parts[i])
    ensures p.state <= 4 && Run(b, p).ok && Expects(b, Run(b, p).p, rest, items, parts, k', phase')
    ensures (rest == "" ==> phase' == Ended)
    ensures phase'.Start? ==> phase.Start? && p.buf == "" && Run(b, p).p == p
    decreases Rank(p)
  {
    if p.buf == "" {
      k', phase' := k, phase;
      if phase != Ended {
        MoreToCome(b, p, rest, items, parts, k, phase);
      }
    } else {
      StepShrinks(b, p);
      k', phase' := AnyStep(b, p, rest, items, parts, k, phase);
      if Step(b, p).Go? {
        k', phase' := RunKeeps(b, Step(b, p).p, rest, items, parts, k', phase');
      }
    }
  }

  /** The first piece that is not empty holds the first delimiter. */
  predicate FirstIsWhole(pieces: seq<string>, n: nat)
    decreases |pieces|
  {
    pieces != [] && if pieces[0] == "" then FirstIsWhole(pieces[1..], n) else |pieces[0]| >= n
  }

  lemma {:induction false} FedAllKeeps(b: string, p: Parser, pieces: seq<string>, items: seq<Item>, parts: seq<Part>,
                                       k: nat, phase: Phase)
    requires IsBoundary(b) && forall i :: 0 <= i < |parts| ==> IsSendablePart(b, parts[i])
    requires Expects(b, p, Concat(pieces), items, parts, k, phase) && pieces != []
    requires phase.Start? ==> p.buf == "" && FirstIsWhole(pieces, |DashBoundaryCrlf(b)|)
    ensures p.state <= 4 && FedAll(b, p, pieces).ok && FedAll(b, p, pieces).p.valid
    ensures Delivered(FedAll(b, p, pieces).p.events) == items
    decreases |pieces|
  {
    var piece, rest := pieces[0], Concat(pieces[1..]);
    Arrives(b, p, piece, rest, items, parts, k, phase);
    var q := p.(buf := p.buf + piece);
    var k', phase' := RunKeeps(b, q, rest, items, parts, k, phase);
    if pieces[1..] == [] {
      assert rest == "";
    } else {
      FedAllKeeps(b, Run(b, q).p, pieces[1..], items, parts, k', phase');
    }
  }

  /** A piece moves from what is to come into the buffer. */
  lemma Arrives(b: string, p: Parser, piece: string, rest: string, items: seq<Item>, parts: seq<Part>, k: nat,
                phase: Phase)
    requires Expects(b, p, piece + rest, items, parts, k, phase)
    requires phase.Start? ==> p.buf == "" && (piece == "" || |piece| >= |DashBoundaryCrlf(b)|)
    ensures Expects(b, p.(buf := p.buf + piece), rest, items, parts, k, phase)
  {
    Associative(p.buf, piece, rest);
  }

  /**
   For every nonempty list of sendable parts and every way of cutting their message into
   pieces that leaves the first delimiter whole, the calls succeed, the callbacks are
   told exactly the items, in order, and the parser ends valid.
   */
  lemma MessageIsRead(b: string, parts: seq<Part>, items: seq<Item>, pieces: seq<string>)
    requires IsBoundary(b) && parts != [] && TellOf(parts, items)
    requires forall i :: 0 <= i < |parts| ==> IsSendablePart(b, parts[i])
    requires Concat(pieces) == MessageText(b, parts) && FirstIsWhole(pieces, |DashBoundaryCrlf(b)|)
    ensures var r := FedAll(b, START, pieces);
            r.ok && r.p.valid && Delivered(r.p.events) == items
  {
    assert "" + Concat(pieces) == Concat(pieces);
    FedAllKeeps(b, START, pieces, items, parts, 0, Start);
  }

  /**
   Behind a delimiter only a line end or two dashes lead on. Anything else is never got
   past: the calls succeed, but nothing more is told and nothing is thrown away.
   */
  lemma {:induction false} StrayText(b: string, p: Parser, pieces: seq<string>)
    requires p.state == 4 && |p.buf| >= 2 && p.buf[..2] != CRLF && p.buf[..2] != DASH
    ensures FedAll(b, p, pieces) == Stop(p.(buf := p.buf + Concat(pieces)), true)
    decreases |pieces|
  {
    if pieces == [] {
      assert p.buf + "" == p.buf;
    } else {
      var q := p.(buf := p.buf + pieces[0]);
      assert q.buf[..2] == p.buf[..2];
      StrayText(b, q, pieces[1..]);
      Associative(p.buf, pieces[0], Concat(pieces[1..]));
    }
  }
}
