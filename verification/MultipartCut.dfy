/** What becomes of a message whose first delimiter does not arrive in one piece. */
module MultipartCut {

  import opened MultipartBody
  import opened MultipartHeaders
  import opened MultipartParts
  import opened MultipartRoundTrip
  import opened MultipartSpec
  import opened Sequences
  import opened Text

  // ---------------------------------------------------------------- lost pieces

  /** A piece without the first delimiter is lost, whatever it holds; that is why it must not be cut. */
  lemma PieceIsLost(b: string, p: Parser, piece: string)
    requires p.state == 0 && p.buf == "" && Clear(piece, DashBoundaryCrlf(b), |piece|)
    ensures Fed(b, p, piece) == Stop(p, true)
  {
    if piece == "" {
      EmptyPiece(b, p);
    } else {
      FullPieceIsLost(b, p, piece);
    }
  }

  lemma EmptyPiece(b: string, p: Parser)
    requires p.state == 0 && p.buf == ""
    ensures Fed(b, p, "") == Stop(p, true)
  {
    assert p.buf + "" == p.buf;
  }

  lemma FullPieceIsLost(b: string, p: Parser, piece: string)
    requires p.state == 0 && p.buf == "" && piece != "" && Clear(piece, DashBoundaryCrlf(b), |piece|)
    ensures Fed(b, p, piece) == Stop(p, true)
  {
    RunIsLost(b, p, piece, p.(buf := p.buf + piece));
  }

  lemma RunIsLost(b: string, p: Parser, piece: string, q: Parser)
    requires p.state == 0 && p.buf == "" && piece != "" && Clear(piece, DashBoundaryCrlf(b), |piece|)
    requires q == p.(buf := p.buf + piece)
    ensures Run(b, q) == Stop(p, true)
  {
    NoneInitially(b, p, piece, q);
    RunInitial(b, q, p);
  }

  lemma NoneInitially(b: string, p: Parser, piece: string, q: Parser)
    requires p.state == 0 && p.buf == "" && Clear(piece, DashBoundaryCrlf(b), |piece|) && q == p.(buf := p.buf + piece)
    ensures StepInitial(b, q) == Stop(p, true)
  {
    NoneIs(piece, DashBoundaryCrlf(b));
    assert q.buf == piece && piece[|piece|..] == "";
    assert q.Drop(|piece|) == p;
  }

  lemma RunInitial(b: string, q: Parser, p: Parser)
    requires q.state == 0 && q.buf != "" && p.state <= 4 && StepInitial(b, q) == Stop(p, true)
    ensures Run(b, q) == Stop(p, true)
  {
  }

  /** So if no piece holds a first delimiter, nothing is delivered, and the parser does not end valid. */
  lemma {:induction false} NothingIsDelivered(b: string, pieces: seq<string>)
    requires forall i :: 0 <= i < |pieces| ==> Clear(pieces[i], DashBoundaryCrlf(b), |pieces[i]|)
    ensures FedAll(b, START, pieces) == Stop(START, true)
  {
    if pieces != [] {
      PieceIsLost(b, START, pieces[0]);
      NothingIsDelivered(b, pieces[1..]);
    }
  }

  // ---------------------------------------------------------------- suffixes of the message

  ghost predicate IsSuffix(u: string, m: string) {
    |u| <= |m| && u == m[|m| - |u|..]
  }

  lemma SuffixDrop(u: string, m: string, n: nat)
    requires IsSuffix(u, m) && n <= |u|
    ensures IsSuffix(u[n..], m)
  {
    assert m[|m| - |u|..][n..] == m[|m| - |u| + n..];
  }

  lemma SuffixOfSum(a: string, u: string)
    ensures IsSuffix(u, a + u)
  {
  }

  lemma SuffixTrans(u: string, v: string, m: string)
    requires IsSuffix(u, v) && IsSuffix(v, m)
    ensures IsSuffix(u, m)
  {
    assert m[|m| - |v|..][|v| - |u|..] == m[|m| - |u|..];
  }

  /** Of two suffixes the shorter is one of the longer. */
  lemma SuffixOfLonger(u: string, v: string, m: string)
    requires IsSuffix(u, m) && IsSuffix(v, m) && |u| <= |v|
    ensures IsSuffix(u, v)
  {
    assert m[|m| - |v|..][|v| - |u|..] == m[|m| - |u|..];
  }

  lemma WholeSuffix(u: string, m: string)
    requires IsSuffix(u, m) && |u| == |m|
    ensures u == m
  {
  }

  lemma {:induction false} LinesSuffix(lines: seq<string>, tail: string)
    ensures IsSuffix(tail, LinesText(lines, tail))
  {
    if lines != [] {
      var rest := LinesText(lines[1..], tail);
      LinesSuffix(lines[1..], tail);
      SuffixOfSum(CRLF, rest);
      SuffixOfSum(lines[0], CRLF + rest);
      SuffixTrans(rest, CRLF + rest, lines[0] + (CRLF + rest));
      SuffixTrans(tail, rest, lines[0] + (CRLF + rest));
    }
  }

  /** The text from the content of item `j` on. */
  function Body(b: string, items: seq<Item>, j: nat): string
    requires j < |items|
  {
    BodyText(b, items[j].content, items[j + 1..])
  }

  lemma BodyInOpening(b: string, items: seq<Item>)
    requires items != []
    ensures IsSuffix(Body(b, items, 0), AfterOpening(b, items))
  {
    var body := Body(b, items, 0);
    LinesSuffix(Lines(items[0]), CRLF + body);
    SuffixOfSum(CRLF, body);
    SuffixTrans(body, CRLF + body, AfterOpening(b, items));
  }

  lemma NextInBody(b: string, items: seq<Item>)
    requires |items| > 1
    ensures IsSuffix(AfterOpening(b, items[1..]), Body(b, items, 0))
  {
    var c, d, next := items[0].content, CrlfDashBoundary(b), AfterOpening(b, items[1..]);
    assert Body(b, items, 0) == c + (d + (CRLF + next)) by {
      assert items[0 + 1..] == items[1..] && AfterDelimiter(b, items[1..]) == CRLF + next;
    }
    Behind3(c, d, CRLF, next);
  }

  lemma Behind3(x: string, y: string, z: string, u: string)
    ensures IsSuffix(u, x + (y + (z + u)))
  {
    SuffixOfSum(z, u);
    SuffixOfSum(y, z + u);
    SuffixOfSum(x, y + (z + u));
    SuffixTrans(u, z + u, y + (z + u));
    SuffixTrans(u, y + (z + u), x + (y + (z + u)));
  }

  lemma {:induction false} BodyIsSuffix(b: string, items: seq<Item>, j: nat)
    requires j < |items|
    ensures IsSuffix(Body(b, items, j), AfterOpening(b, items))
  {
    BodyInOpening(b, items);
    if j > 0 {
      BodyIsSuffix(b, items[1..], j - 1);
      assert Body(b, items[1..], j - 1) == Body(b, items, j) by { assert items[1..][j..] == items[j + 1..]; }
      NextInBody(b, items);
      SuffixTrans(Body(b, items, j), AfterOpening(b, items[1..]), Body(b, items, 0));
      SuffixTrans(Body(b, items, j), Body(b, items, 0), AfterOpening(b, items));
    }
  }

  lemma BodyInMessage(b: string, items: seq<Item>, j: nat)
    requires j < |items|
    ensures IsSuffix(Body(b, items, j), Serialized(items, b))
  {
    SerializedText(b, items);
    BodyIsSuffix(b, items, j);
    SuffixOfSum(DashBoundaryCrlf(b), AfterOpening(b, items));
    SuffixTrans(Body(b, items, j), AfterOpening(b, items), Serialized(items, b));
  }

  // ---------------------------------------------------------------- where delimiters can stand

  /** A line of a part does not start with a dash and holds no line end. */
  ghost predicate IsPartLine(l: string) {
    l != "" && l[0] != '-' && IsOneLine(l)
  }

  lemma DispositionIsPartLine(item: Item)
    requires IsParam(item.name) && IsParam(item.filename)
    ensures IsPartLine(DispositionLine(item))
  {
    DispositionTaken(item);
    DispositionLineText(item);
    assert DispositionLine(item)[0] == 'C';
  }

  lemma TypeIsPartLine(contentType: string)
    requires IsTrimmed(contentType) && IsOneLine(contentType)
    ensures IsPartLine(TypeLine(contentType))
  {
    ContentTypeTaken(NO_FILE, contentType);
    assert TypeLine(contentType)[0] == 'C';
  }

  lemma LinesArePartLines(b: string, item: Item)
    requires IsSendable(b, item)
    ensures forall i :: 0 <= i < |Lines(item)| ==> IsPartLine(Lines(item)[i])
  {
    DispositionIsPartLine(item);
    if item.contentType != "" {
      TypeIsPartLine(item.contentType);
    }
  }

  lemma DelimiterStart(b: string, x: string, q: nat)
    requires OccursAt(x, CrlfDashBoundary(b), q)
    ensures q + 4 <= |x| && x[q] == '\r' && x[q + 2] == '-'
  {
    var d := CrlfDashBoundary(b);
    assert x[q..q + |d|][0] == '\r' && x[q..q + |d|][2] == '-';
  }

  lemma OccursBehind(x: string, y: string, n: string, q: nat)
    requires OccursAt(x + y, n, q) && q >= |x|
    ensures OccursAt(y, n, q - |x|)
  {
    assert (x + y)[q..q + |n|] == y[q - |x|..q - |x| + |n|];
  }

  lemma NoCrIn(x: string, l: string, rest: string, q: nat)
    requires IsOneLine(l) && |x| <= q < |x| + |l|
    ensures (x + (l + rest))[q] != '\r'
  {
    assert (x + (l + rest))[q] == l[q - |x|] && l[q - |x|] in l;
  }

  /** No delimiter starts at the line end before a line, nor in the line. */
  lemma NotInLine(b: string, l: string, rest: string, q: nat)
    requires IsPartLine(l) && OccursAt(CRLF + (l + rest), CrlfDashBoundary(b), q)
    ensures q >= 2 + |l| && OccursAt(rest, CrlfDashBoundary(b), q - 2 - |l|)
  {
    var x := (CRLF + l) + rest;
    assert CRLF + (l + rest) == x;
    DelimiterStart(b, x, q);
    assert x[0..3] == CRLF + [l[0]];
    assert x[1] == '\n' && x[2] == l[0];
    if 2 <= q < 2 + |l| {
      NoCrIn(CRLF, l, rest, q);
      assert false;
    }
    OccursBehind(CRLF + l, rest, CrlfDashBoundary(b), q);
  }

  /** Nor at an empty line. */
  lemma NotAtLineEnd(b: string, tail: string, q: nat)
    requires OccursAt(CRLF + (CRLF + tail), CrlfDashBoundary(b), q)
    ensures q >= 2 && OccursAt(CRLF + tail, CrlfDashBoundary(b), q - 2)
  {
    var x := CRLF + (CRLF + tail);
    DelimiterStart(b, x, q);
    assert x[1] == '\n' && x[2] == '\r';
    OccursBehind(CRLF, CRLF + tail, CrlfDashBoundary(b), q);
  }

  /** So a delimiter behind the opening of a part stands in its content or later, or at the line end before it. */
  lemma {:induction false} NotInLines(b: string, lines: seq<string>, tail: string, q: nat)
    requires forall i :: 0 <= i < |lines| ==> IsPartLine(lines[i])
    requires OccursAt(CRLF + LinesText(lines, CRLF + tail), CrlfDashBoundary(b), q)
    ensures q + 2 + |tail| >= |CRLF + LinesText(lines, CRLF + tail)|
    ensures OccursAt(CRLF + tail, CrlfDashBoundary(b), q + 2 + |tail| - |CRLF + LinesText(lines, CRLF + tail)|)
  {
    if lines == [] {
      NotAtLineEnd(b, tail, q);
    } else {
      var rest := CRLF + LinesText(lines[1..], CRLF + tail);
      NotInLine(b, lines[0], rest, q);
      NotInLines(b, lines[1..], tail, q - 2 - |lines[0]|);
    }
  }

  /** Delimiters do not overlap. */
  lemma InnerDelimiter(b: string, after: string, q: nat)
    requires IsBoundary(b) && q > 0 && OccursAt(CrlfDashBoundary(b) + after, CrlfDashBoundary(b), q)
    ensures q >= |CrlfDashBoundary(b)| && OccursAt(after, CrlfDashBoundary(b), q - |CrlfDashBoundary(b)|)
  {
    var d := CrlfDashBoundary(b);
    DelimiterStart(b, d + after, q);
    if q < |d| {
      BoundaryHasNoCr(b, d, q);
      assert false;
    }
    OccursBehind(d, after, d, q);
  }

  /** The end of the message holds none. */
  lemma NotInEnd(b: string, q: nat)
    ensures !OccursAt("--\r\n", CrlfDashBoundary(b), q)
  {
    if OccursAt("--\r\n", CrlfDashBoundary(b), q) {
      DelimiterStart(b, "--\r\n", q);
      assert false;
    }
  }

  lemma AtEmptyContent(b: string, after: string, q: nat)
    requires OccursAt(CRLF + ("" + (CrlfDashBoundary(b) + after)), CrlfDashBoundary(b), q)
    ensures q >= 2
  {
    var x := CRLF + ("" + (CrlfDashBoundary(b) + after));
    DelimiterStart(b, x, q);
    assert x[1] == '\n' && x[2] == '\r';
  }

  /** The lengths of what is left from the content of item `j` on, and of a delimiter. */
  function Left(b: string, items: seq<Item>, j: nat): nat
    requires j < |items|
  {
    |Body(b, items, j)|
  }

  function Width(b: string): nat {
    |CrlfDashBoundary(b)|
  }

  lemma OpeningOf(b: string, items: seq<Item>, j: nat) returns (lines: seq<string>, body: string)
    requires j < |items|
    ensures lines == Lines(items[j]) && body == Body(b, items, j)
    ensures AfterDelimiter(b, items[j..]) == CRLF + LinesText(lines, CRLF + body)
  {
    lines, body := Lines(items[j]), Body(b, items, j);
    assert items[j..][0] == items[j] && items[j..][1..] == items[j + 1..];
  }

  /** A delimiter behind an item's own is at the earliest at the line end before the next item's content. */
  lemma BehindOpening(b: string, items: seq<Item>, j: nat, q: nat)
    requires j < |items| && IsSendable(b, items[j]) && OccursAt(AfterDelimiter(b, items[j..]), CrlfDashBoundary(b), q)
    ensures |AfterDelimiter(b, items[j..])| - q <= Left(b, items, j) + 2
    ensures items[j].content == "" ==> |AfterDelimiter(b, items[j..])| - q <= Left(b, items, j)
  {
    var lines, body := OpeningOf(b, items, j);
    LinesArePartLines(b, items[j]);
    NotInLines(b, lines, body, q);
    if items[j].content == "" {
      var q' := q + 2 + |body| - |CRLF + LinesText(lines, CRLF + body)|;
      AtEmptyContent(b, AfterDelimiter(b, items[j + 1..]), q');
    }
  }

  /** What stands behind the content of an item. */
  lemma TailInMessage(b: string, items: seq<Item>, j: nat) returns (after: string)
    requires j < |items|
    ensures after == AfterDelimiter(b, items[j + 1..]) && Left(b, items, j) == |items[j].content| + Width(b) + |after|
    ensures IsSuffix(CrlfDashBoundary(b) + after, Serialized(items, b))
  {
    after := AfterDelimiter(b, items[j + 1..]);
    BodyInMessage(b, items, j);
    SuffixOfSum(items[j].content, CrlfDashBoundary(b) + after);
    SuffixTrans(CrlfDashBoundary(b) + after, Body(b, items, j), Serialized(items, b));
  }

  lemma SuffixOccurs(u: string, v: string, m: string, n: string)
    requires IsSuffix(u, m) && IsSuffix(v, m) && |u| <= |v| && StartsWith(u, n)
    ensures OccursAt(v, n, |v| - |u|)
  {
    SuffixOfLonger(u, v, m);
    var q := |v| - |u|;
    assert v[q..q + |n|] == v[q..][..|n|];
  }

  /** A delimiter behind an item's own: there is a next item, and it stands in its content or later. */
  lemma LaterDelimiter(b: string, items: seq<Item>, u: string, j: nat)
    requires IsBoundary(b) && (forall i :: 0 <= i < |items| ==> IsSendable(b, items[i])) && j < |items|
    requires IsSuffix(u, Serialized(items, b)) && StartsWith(u, CrlfDashBoundary(b))
    requires |u| + |items[j].content| < Left(b, items, j)
    ensures j + 1 < |items| && |u| <= Left(b, items, j + 1) + 2
    ensures items[j + 1].content == "" ==> |u| <= Left(b, items, j + 1)
  {
    hide IsSendable, Body, Serialized;
    var d := CrlfDashBoundary(b);
    var after := TailInMessage(b, items, j);
    SuffixOccurs(u, d + after, Serialized(items, b), d);
    var q := |d + after| - |u|;
    InnerDelimiter(b, after, q);
    if j + 1 == |items| {
      NotInEnd(b, q - |d|);
      assert false;
    } else {
      BehindOpening(b, items, j + 1, q - |d|);
    }
  }

  // ---------------------------------------------------------------- where first delimiters can stand

  /** The line of a first delimiter ends behind a character of the boundary or a dash. */
  lemma FirstDelimiterEnd(b: string, m: string, q: nat, e: nat)
    requires IsBoundary(b) && OccursAt(m, DashBoundaryCrlf(b), q) && e == q + |DashBoundaryCrlf(b)| - 2
    ensures 2 <= e && e + 2 <= |m| && m[e] == '\r' && m[e - 1] != '\"' && m[e - 1] != '\n'
  {
    var d := DashBoundaryCrlf(b);
    var w := m[q..q + |d|];
    assert w[|d| - 2] == '\r' && m[e] == w[|d| - 2] && m[e - 1] == w[|d| - 3];
    if b != "" {
      assert w[|d| - 3] == b[|b| - 1];
    }
  }

  /** The next carriage return is that at the end of the line, or one behind it. */
  lemma NextCr(x: string, l: string, rest: string, m: string, e: nat)
    requires IsOneLine(l) && m == x + (l + (CRLF + rest)) && |x| <= e < |m| && m[e] == '\r'
    ensures e == |x| + |l| || e >= |x| + |l| + 2
  {
    if e < |x| + |l| {
      NoCrIn(x, l, CRLF + rest, e);
      assert false;
    }
    assert m[|x| + |l| + 1] == '\n';
  }

  lemma BehindOpeningLine(b: string, l: string, rest: string, m: string, q: nat, e: nat)
    requires IsBoundary(b) && m == DashBoundaryCrlf(b) + (l + (CRLF + rest)) && q > 0
    requires OccursAt(m, DashBoundaryCrlf(b), q)
    requires IsOneLine(l) && l != "" && l[|l| - 1] == '\"' && e == q + |DashBoundaryCrlf(b)| - 2
    ensures e >= |DashBoundaryCrlf(b)| + |l| + 2 && e < |m| && m[e] == '\r'
  {
    var d := DashBoundaryCrlf(b);
    FirstDelimiterEnd(b, m, q, e);
    assert m[|d| - 1] == d[|d| - 1] == '\n';
    NextCr(d, l, rest, m, e);
    assert m[|d| + |l| - 1] == l[|l| - 1];
  }

  lemma DispositionEnd(item: Item)
    ensures DispositionLine(item) != "" && DispositionLine(item)[|DispositionLine(item)| - 1] == '\"'
  {
  }

  /** What follows the line of a first delimiter that stands behind the first of them. */
  ghost predicate IsBehindLater(b: string, items: seq<Item>, t: string)
    requires items != []
  {
    |t| < Left(b, items, 0) + 2 || IsTypeEnd(b, items, t)
  }

  /** It ends the first item's content type. */
  ghost predicate IsTypeEnd(b: string, items: seq<Item>, t: string)
    requires items != []
  {
    items[0].contentType != "" && t == CRLF + Body(b, items, 0)
  }

  lemma LaterOpening(b: string, items: seq<Item>, q: nat, e: nat)
    requires IsBoundary(b) && items != [] && IsSendable(b, items[0])
    requires q > 0 && OccursAt(Serialized(items, b), DashBoundaryCrlf(b), q) && e == q + |DashBoundaryCrlf(b)| - 2
    ensures e + 2 <= |Serialized(items, b)| && IsBehindLater(b, items, Serialized(items, b)[e + 2..])
  {
    var d, l, m, body := DashBoundaryCrlf(b), DispositionLine(items[0]), Serialized(items, b), Body(b, items, 0);
    SerializedText(b, items);
    DispositionTaken(items[0]);
    DispositionEnd(items[0]);
    if items[0].contentType == "" {
      OneLine(l, CRLF + body);
      BehindOpeningLine(b, l, CRLF + body, m, q, e);
    } else {
      var ct := TypeLine(items[0].contentType);
      TwoLines(l, ct, CRLF + body);
      BehindOpeningLine(b, l, ct + (CRLF + (CRLF + body)), m, q, e);
      BehindTypeLine(items[0].contentType, d, l, ct, body, m, e);
    }
  }

  lemma BehindTypeLine(contentType: string, d: string, l: string, ct: string, body: string, m: string, e: nat)
    requires IsTrimmed(contentType) && IsOneLine(contentType) && ct == TypeLine(contentType)
    requires m == d + (l + (CRLF + (ct + (CRLF + (CRLF + body))))) && |d| + |l| + 2 <= e < |m| && m[e] == '\r'
    ensures e + 2 > |m| || |m| - (e + 2) < |body| + 2 || m[e + 2..] == CRLF + body
  {
    var x := d + (l + CRLF);
    ContentTypeTaken(NO_FILE, contentType);
    RegroupLines(d, l, CRLF, ct, CRLF + (CRLF + body));
    NextCr(x, ct, CRLF + body, m, e);
    if e == |x| + |ct| {
      DropLine(x, ct, CRLF, CRLF + body, e + 2);
    }
  }

  lemma RegroupLines(d: string, l: string, n: string, ct: string, tail: string)
    ensures d + (l + (n + (ct + tail))) == (d + (l + n)) + (ct + tail)
  {
  }

  lemma DropLine(x: string, ct: string, n: string, tail: string, i: nat)
    requires i == |x| + |ct| + |n|
    ensures (x + (ct + (n + tail)))[i..] == tail
  {
  }

  // ---------------------------------------------------------------- later events

  lemma DeliveredFirst(e: seq<Event>, f: seq<Event>)
    requires e < f
    ensures e <= f[..|f| - 1] && Delivered(f) == Told(Delivered(f[..|f| - 1]), f[|f| - 1])
  {
  }

  /** Items are only added, and only the last one grows. */
  lemma {:induction false} DeliveredGrows(e: seq<Event>, f: seq<Event>)
    requires e <= f
    ensures |Delivered(e)| <= |Delivered(f)|
    ensures forall i :: 0 <= i < |Delivered(e)| ==> Delivered(f)[i].contentType == Delivered(e)[i].contentType
    ensures forall i :: 0 <= i < |Delivered(e)| - 1 ==> Delivered(f)[i] == Delivered(e)[i]
    decreases |f|
  {
    if e != f {
      DeliveredFirst(e, f);
      DeliveredGrows(e, f[..|f| - 1]);
    }
  }

  /** The last one grows by the content told before the next header. */
  lemma {:induction false} LastGrows(e: seq<Event>, f: seq<Event>, n: nat)
    requires e <= f && n == |Delivered(e)| > 0
    ensures |Delivered(f)| >= n && Delivered(f)[n - 1].content == Delivered(e)[n - 1].content + Leading(f[|e|..])
    decreases |f| - |e|
  {
    if e == f {
      assert Delivered(e)[n - 1].content + "" == Delivered(e)[n - 1].content;
    } else {
      var x := f[|e|];
      DeliveredNext(e, x);
      assert f[|e|..][1..] == f[|e + [x]|..];
      if x.Header? {
        DeliveredGrows(e + [x], f);
        assert Delivered(e)[n - 1].content + "" == Delivered(e)[n - 1].content;
      } else {
        LastGrows(e + [x], f, n);
        Associative(Delivered(e)[n - 1].content, x.data, Leading(f[|e| + 1..]));
      }
    }
  }

  /** Between bodies, the last content is whole. */
  lemma QuietKeeps(p: Parser, f: Parser, n: nat)
    requires Quiet(p, f) && n == |Delivered(p.events)| > 0
    ensures |Delivered(f.events)| >= n && Delivered(f.events)[n - 1].content == Delivered(p.events)[n - 1].content
  {
    LastGrows(p.events, f.events, n);
    assert Delivered(p.events)[n - 1].content + "" == Delivered(p.events)[n - 1].content;
  }

  // ---------------------------------------------------------------- a parser that started late

  /** Before the body of item `k`, too little is left for it and all further items. */
  ghost predicate LateInHeaders(b: string, items: seq<Item>, p: Parser, t: string, k: nat) {
    k < |items| && if k == 0 then
      !p.valid && (|t| < Left(b, items, 0) + 2 || (IsTypeEnd(b, items, t) && (p.state == 2 ==> p.file == NO_FILE)))
    else
      |t| + Width(b) <= Left(b, items, k) && (k == |items| - 1 && items[k].content == "" ==> |t| <= 1)
  }

  /** In the body of the `k`-th item, with this content told. */
  ghost predicate LateInBody(b: string, items: seq<Item>, p: Parser, t: string, k: nat, told: string) {
    && 1 <= k <= |items| && (told != "" ==> |t| >= Width(b))
    && if k == 1 then !p.valid && |t| + |told| < Left(b, items, 0)
       else |t| + |told| + Width(b) + 2 <= Left(b, items, k - 1) && (k == |items| ==> items[k - 1].content != "")
  }

  /** Behind the delimiter that ended it. */
  ghost predicate LateBehind(b: string, items: seq<Item>, t: string, k: nat) {
    && 1 <= k < |items| && |t| + Width(b) <= Left(b, items, k) + 2
    && (k == |items| - 1 && items[k].content == "" ==> |t| + Width(b) <= Left(b, items, k))
  }

  ghost predicate IsLate(b: string, items: seq<Item>, p: Parser, t: string) {
    var told := Delivered(p.events);
    1 <= p.state <= 4 && IsSuffix(t, Serialized(items, b)) &&
    if p.state <= 2 then LateInHeaders(b, items, p, t, |told|)
    else if p.state == 3 then told != [] && LateInBody(b, items, p, t, |told|, told[|told| - 1].content)
    else LateBehind(b, items, t, |told|)
  }

  lemma LastLeft(b: string, items: seq<Item>)
    requires items != []
    ensures Left(b, items, |items| - 1) == |items[|items| - 1].content| + Width(b) + 4
  {
    var n := |items| - 1;
    var after := TailInMessage(b, items, n);
    assert items[n + 1..] == [];
  }

  /** If it ends having told the items, it is not valid. */
  lemma LateIsNotValid(b: string, items: seq<Item>, p: Parser, t: string)
    requires IsLate(b, items, p, t) && Delivered(p.events) == items
    ensures !p.valid
  {
    if |items| > 1 {
      LastLeft(b, items);
      assert false;
    }
  }

  lemma LineEndIsSuffix(p: Parser, rest: string, m: string, n: nat)
    requires IsSuffix(p.buf + rest, m) && n <= |p.buf|
    ensures IsSuffix(p.buf[n..] + rest, m) && |p.buf[n..] + rest| == |p.buf + rest| - n
  {
    assert (p.buf + rest)[n..] == p.buf[n..] + rest;
    SuffixDrop(p.buf + rest, m, n);
  }

  /** The empty line: a header is told. */
  lemma HeaderLate(b: string, items: seq<Item>, p: Parser, rest: string, q: Parser, f: Parser)
    requires p.state == 2 && IsLate(b, items, p, p.buf + rest) && |p.buf| >= 2
    requires q == p.Emit(Header(p.file)).Drop(2).(state := 3)
    requires q.events <= f.events && Delivered(f.events) == items
    ensures IsLate(b, items, q, q.buf + rest)
  {
    var k := |Delivered(p.events)|;
    LineEndIsSuffix(p, rest, Serialized(items, b), 2);
    DeliveredNext(p.events, Header(p.file));
    DeliveredGrows(q.events, f.events);
    assert Delivered(q.events)[k] == Item(p.file.name, "", p.file.filename, p.file.contentType);
  }

  /** Another line: less is left. */
  lemma LineLate(b: string, items: seq<Item>, p: Parser, rest: string, n: nat, file: FileInfo)
    requires p.state == 2 && IsLate(b, items, p, p.buf + rest) && 0 < n && n == First(p.buf, CRLF) < |p.buf|
    ensures var q := p.Drop(n + 2).(file := file);
            IsLate(b, items, q, q.buf + rest)
    ensures IsLate(b, items, p.(file := file, valid := false), p.buf + rest)
  {
    LineEndIsSuffix(p, rest, Serialized(items, b), n + 2);
    FirstOccurs(p.buf, CRLF);
    assert !OccursAt(p.buf, CRLF, 0);
    assert (p.buf + rest)[..2] == p.buf[..2];
  }

  lemma {:induction false} HeadersLate(b: string, items: seq<Item>, p: Parser, rest: string, f: Parser)
    requires p.state == 2 && IsLate(b, items, p, p.buf + rest)
    requires StepHeaders(p).p.events <= f.events && Delivered(f.events) == items
    ensures IsLate(b, items, StepHeaders(p).p, StepHeaders(p).p.buf + rest)
    decreases |p.buf|
  {
    var n := First(p.buf, CRLF);
    if n == 0 && p.buf != "" {
      HeaderLate(b, items, p, rest, StepHeaders(p).p, f);
    } else if n < |p.buf| {
      var taken := TakeHeader(p.file, p.buf[..n]);
      LineLate(b, items, p, rest, n, taken.file);
      if taken.ok {
        HeadersLate(b, items, NextHeader(p, n).p, rest, f);
      }
    }
  }

  /** The content of the body is told to the end: what is left starts behind a later delimiter than the item's own. */
  lemma EndLate(b: string, items: seq<Item>, t: string, pos: nat, t': string)
    requires IsSuffix(t, Serialized(items, b)) && pos + Width(b) <= |t| && t[pos..pos + Width(b)] == CrlfDashBoundary(b)
    requires t' == t[pos + Width(b)..]
    ensures IsSuffix(t', Serialized(items, b)) && |t'| == |t| - pos - Width(b)
    ensures IsSuffix(t[pos..], Serialized(items, b)) && StartsWith(t[pos..], CrlfDashBoundary(b))
  {
    SuffixDrop(t, Serialized(items, b), pos);
    SuffixDrop(t, Serialized(items, b), pos + Width(b));
    assert t[pos..][..Width(b)] == t[pos..pos + Width(b)];
  }

  lemma BodyEndLate(b: string, items: seq<Item>, p: Parser, t: string, k: nat, told: string, pos: nat, t': string)
    requires IsBoundary(b) && (forall i :: 0 <= i < |items| ==> IsSendable(b, items[i]))
    requires IsSuffix(t, Serialized(items, b)) && LateInBody(b, items, p, t, k, told)
    requires pos + Width(b) <= |t| && t[pos..pos + Width(b)] == CrlfDashBoundary(b) && t' == t[pos + Width(b)..]
    requires |told| + pos == |items[k - 1].content|
    ensures IsSuffix(t', Serialized(items, b)) && LateBehind(b, items, t', k)
  {
    EndLate(b, items, t, pos, t');
    LaterDelimiter(b, items, t[pos..], k - 1);
  }

  /** The delimiter is found, so this is all of the content. */
  lemma ToldWhole(items: seq<Item>, p: Parser, data: string, q: Parser, f: Parser, told: seq<Item>, k: nat)
    requires told == Delivered(p.events) && k == |told| > 0 && q.events == p.events + [Content(data)]
    requires Quiet(q, f) && Delivered(f.events) == items
    ensures |Delivered(q.events)| == k <= |items| && told[k - 1].content + data == items[k - 1].content
  {
    DeliveredNext(p.events, Content(data));
    QuietKeeps(q, f, k);
  }

  lemma FoundInRest(buf: string, rest: string, d: string, pos: nat, end: nat)
    requires OccursAt(buf, d, pos) && end == pos + |d|
    ensures end <= |buf + rest| && (buf + rest)[pos..end] == d && buf[end..] + rest == (buf + rest)[end..]
  {
    assert (buf + rest)[pos..end] == buf[pos..end];
  }

  lemma FoundLate(b: string, items: seq<Item>, p: Parser, rest: string, pos: nat, q: Parser, f: Parser)
    requires IsBoundary(b) && (forall i :: 0 <= i < |items| ==> IsSendable(b, items[i]))
    requires p.state == 3 && IsLate(b, items, p, p.buf + rest) && OccursAt(p.buf, CrlfDashBoundary(b), pos)
    requires q == p.Emit(Content(p.buf[..pos])).Drop(pos + Width(b)).(state := 4)
    requires Quiet(q, f) && Delivered(f.events) == items
    ensures IsLate(b, items, q, q.buf + rest)
  {
    hide IsSendable, Body, Serialized, Delivered;
    var told := Delivered(p.events);
    var k := |told|;
    ToldWhole(items, p, p.buf[..pos], q, f, told, k);
    FoundInRest(p.buf, rest, CrlfDashBoundary(b), pos, pos + Width(b));
    BodyEndLate(b, items, p, p.buf + rest, k, told[k - 1].content, pos, q.buf + rest);
  }

  /** It is not: all but its length is told. */
  lemma PartLate(b: string, items: seq<Item>, p: Parser, rest: string, n: nat, q: Parser)
    requires p.state == 3 && IsLate(b, items, p, p.buf + rest) && 0 < n && n + Width(b) == |p.buf|
    requires q == p.Emit(Content(p.buf[..n])).Drop(n)
    ensures IsLate(b, items, q, q.buf + rest)
  {
    LineEndIsSuffix(p, rest, Serialized(items, b), n);
    DeliveredNext(p.events, Content(p.buf[..n]));
  }

  lemma BodyLate(b: string, items: seq<Item>, p: Parser, rest: string, f: Parser)
    requires IsBoundary(b) && (forall i :: 0 <= i < |items| ==> IsSendable(b, items[i]))
    requires p.state == 3 && IsLate(b, items, p, p.buf + rest) && Delivered(f.events) == items
    requires StepBody(b, p).Go? ==> Quiet(StepBody(b, p).p, f)
    ensures IsLate(b, items, StepBody(b, p).p, StepBody(b, p).p.buf + rest)
  {
    hide IsSendable, IsLate, Serialized, First, Quiet, Delivered, OccursAt;
    var d := CrlfDashBoundary(b);
    var pos := First(p.buf, d);
    FirstOccurs(p.buf, d);
    if pos < |p.buf| {
      FoundLate(b, items, p, rest, pos, StepBody(b, p).p, f);
    } else if |p.buf| > |d| {
      PartLate(b, items, p, rest, |p.buf| - |d|, StepBody(b, p).p);
    }
  }

  lemma EndText(b: string, items: seq<Item>) returns (end: string)
    requires items != []
    ensures end == "--\r\n" && IsSuffix(end, Serialized(items, b))
  {
    hide Serialized, CrlfDashBoundary;
    var n := |items| - 1;
    end := TailInMessage(b, items, n);
    assert items[n + 1..] == [];
    SuffixOfSum(CrlfDashBoundary(b), end);
    SuffixTrans(end, CrlfDashBoundary(b) + end, Serialized(items, b));
  }

  /** Four characters are left only where the message ends. */
  lemma NoLineAtEnd(b: string, items: seq<Item>, buf: string, rest: string)
    requires items != [] && IsSuffix(buf + rest, Serialized(items, b)) && StartsWith(buf, CRLF)
    ensures |buf + rest| != 4
  {
    hide Serialized, IsSuffix;
    var end := EndText(b, items);
    if |buf + rest| == 4 {
      SuffixOfLonger(buf + rest, end, Serialized(items, b));
      WholeSuffix(buf + rest, end);
      FirstOf(buf, rest);
      assert false;
    }
  }

  lemma FirstOf(buf: string, rest: string)
    requires buf != ""
    ensures (buf + rest)[0] == buf[0]
  {
  }

  lemma NextLate(b: string, items: seq<Item>, p: Parser, rest: string, q: Parser)
    requires p.state == 4 && IsLate(b, items, p, p.buf + rest) && StartsWith(p.buf, CRLF) && q == p.Drop(2).(state := 1)
    ensures IsLate(b, items, q, q.buf + rest)
  {
    LineEndIsSuffix(p, rest, Serialized(items, b), 2);
    LastLeft(b, items);
    NoLineAtEnd(b, items, p.buf, rest);
  }

  lemma BehindLate(b: string, items: seq<Item>, p: Parser, rest: string)
    requires p.state == 4 && IsLate(b, items, p, p.buf + rest)
    ensures IsLate(b, items, StepBoundary(p).p, StepBoundary(p).p.buf + rest)
  {
    if StartsWith(p.buf, CRLF) {
      NextLate(b, items, p, rest, StepBoundary(p).p);
    } else if StartsWith(p.buf, DASH) {
      LineEndIsSuffix(p, rest, Serialized(items, b), |p.buf|);
    }
  }

  lemma NewItemLate(b: string, items: seq<Item>, p: Parser, t: string)
    requires p.state == 1 && IsLate(b, items, p, t)
    ensures IsLate(b, items, p.(file := NO_FILE, state := 2), t)
  {
  }

  lemma HeaderStep(b: string, p: Parser)
    requires p.state == 2
    ensures Step(b, p) == StepHeaders(p) || Step(b, p) == Stop(p, false)
  {
  }

  lemma OtherSteps(b: string, p: Parser)
    requires p.state == 1 || p.state == 3 || p.state == 4
    ensures p.state == 1 ==> Step(b, p).p == p.(file := NO_FILE, state := 2)
    ensures p.state == 3 ==> Step(b, p) == StepBody(b, p)
    ensures p.state == 4 ==> Step(b, p) == StepBoundary(p)
  {
  }

  /** A late parser stays late, if in the end it is to have told the items. */
  lemma StepLate(b: string, items: seq<Item>, p: Parser, rest: string, f: Parser, q: Parser)
    requires IsBoundary(b) && (forall i :: 0 <= i < |items| ==> IsSendable(b, items[i]))
    requires IsLate(b, items, p, p.buf + rest) && Delivered(f.events) == items && q == Step(b, p).p
    requires q.events <= f.events && (p.state == 3 && Step(b, p).Go? ==> Quiet(q, f))
    ensures IsLate(b, items, q, q.buf + rest)
  {
    if p.state == 2 {
      HeaderStep(b, p);
      if Step(b, p) == StepHeaders(p) {
        HeadersLate(b, items, p, rest, f);
      }
    } else {
      OtherSteps(b, p);
      match p.state {
        case 1 => NewItemLate(b, items, p, p.buf + rest);
        case 3 => BodyLate(b, items, p, rest, f);
        case _ => BehindLate(b, items, p, rest);
      }
    }
  }

  lemma ThenOnlyAdds(b: string, p: Parser, more: seq<string>)
    requires p.state <= 4
    ensures p.events <= Then(b, p, more).p.events
  {
    RunOnlyAdds(b, p);
    if Run(b, p).ok {
      FedAllOnlyAdds(b, Run(b, p).p, more);
    }
  }

  /** Being late has to do with what is left of the message, however much of it waits in the buffer. */
  lemma LateAnyBuffer(b: string, items: seq<Item>, p: Parser, t: string, q: Parser)
    requires IsLate(b, items, p, t) && q == p.(buf := q.buf)
    ensures IsLate(b, items, q, t) && p.state <= 4
  {
    hide Serialized, Left, Delivered;
  }

  /** One round of the call, and what comes of it. */
  lemma ThenStep(b: string, p: Parser, more: seq<string>, q: Parser, f: Parser)
    requires 1 <= p.state <= 4 && p.buf != "" && q == Step(b, p).p && f == Then(b, p, more).p
    ensures q.state <= 4 && q.events <= f.events && (p.state == 3 && Step(b, p).Go? ==> Quiet(q, f))
    ensures if Step(b, p).Go? then Rank(q) < Rank(p) && Then(b, p, more) == Then(b, q, more)
            else f == if Step(b, p).ok then FedAll(b, q, more).p else q
  {
    StepShrinks(b, p);
    if Step(b, p).Go? {
      ThenOnlyAdds(b, q, more);
      if p.state == 3 {
        ThenIsQuiet(b, q, more);
      }
    } else {
      FedAllOnlyAdds(b, q, more);
    }
  }

  /** A late parser never tells the items and ends valid. */
  lemma {:induction false} LateThen(b: string, items: seq<Item>, p: Parser, more: seq<string>, f: Parser)
    requires IsBoundary(b) && (forall i :: 0 <= i < |items| ==> IsSendable(b, items[i]))
    requires IsLate(b, items, p, p.buf + Concat(more)) && f == Then(b, p, more).p && Delivered(f.events) == items
    ensures !f.valid
    decreases |more|, Rank(p), 1
  {
    if p.buf == "" {
      LateFedAll(b, items, p, more, f);
    } else {
      var q := Step(b, p).p;
      ThenStep(b, p, more, q, f);
      StepLate(b, items, p, Concat(more), f, q);
      if Step(b, p).Go? {
        LateThen(b, items, q, more, f);
      } else if Step(b, p).ok {
        StepShrinks(b, p);
        LateFedAll(b, items, q, more, f);
      } else {
        LateIsNotValid(b, items, q, q.buf + Concat(more));
      }
    }
  }

  lemma {:induction false} LateFedAll(b: string, items: seq<Item>, p: Parser, more: seq<string>, f: Parser)
    requires IsBoundary(b) && (forall i :: 0 <= i < |items| ==> IsSendable(b, items[i]))
    requires IsLate(b, items, p, p.buf + Concat(more)) && f == FedAll(b, p, more).p && Delivered(f.events) == items
    ensures !f.valid
    decreases |more|, 0, 0
  {
    hide IsSendable, IsLate, Serialized, Run;
    if more == [] {
      LateIsNotValid(b, items, p, p.buf + Concat(more));
    } else {
      var q := p.(buf := p.buf + more[0]);
      Associative(p.buf, more[0], Concat(more[1..]));
      LateAnyBuffer(b, items, p, p.buf + Concat(more), q);
      LateThen(b, items, q, more[1..], f);
    }
  }

  // ---------------------------------------------------------------- exactly when the items arrive

  lemma RunOpens(b: string, p: Parser, q: Parser)
    requires p.state == 0 && p.buf != "" && StepInitial(b, p) == Go(q) && q.state <= 4
    ensures Run(b, p) == Run(b, q)
  {
    hide StepInitial, StepHeaders, StepBody, StepBoundary;
    StepShrinks(b, p);
  }

  /** A parser behind the first delimiter of a piece. */
  lemma StepOpens(b: string, piece: string, i: nat, p: Parser, q: Parser)
    requires i == First(piece, DashBoundaryCrlf(b)) < |piece| && i + |DashBoundaryCrlf(b)| <= |piece|
    requires p == START.(buf := piece) && q == Parser(1, false, NO_FILE, piece[i + |DashBoundaryCrlf(b)|..], [])
    ensures StepInitial(b, p) == Go(q)
  {
    hide First;
    var d := DashBoundaryCrlf(b);
    FirstOccurs(piece, d);
    assert piece[i..][..|d|] == piece[i..i + |d|] && piece[i..][|d|..] == piece[i + |d|..];
  }

  lemma PieceOpens(b: string, piece: string, more: seq<string>, i: nat) returns (q: Parser)
    requires i == First(piece, DashBoundaryCrlf(b)) < |piece| && i + |DashBoundaryCrlf(b)| <= |piece|
    ensures q == Parser(1, false, NO_FILE, piece[i + |DashBoundaryCrlf(b)|..], [])
    ensures FedAll(b, START, [piece] + more) == Then(b, q, more)
  {
    hide StepInitial, Run, First;
    var p := START.(buf := START.buf + piece);
    q := Parser(1, false, NO_FILE, piece[i + |DashBoundaryCrlf(b)|..], []);
    assert "" + piece == piece;
    StepOpens(b, piece, i, p, q);
    RunOpens(b, p, q);
    assert ([piece] + more)[1..] == more;
  }

  lemma PieceIsLate(b: string, items: seq<Item>, off: nat, piece: string, more: seq<string>, i: nat, q: Parser)
    requires IsBoundary(b) && items != [] && IsSendable(b, items[0]) && 0 < off <= |Serialized(items, b)|
    requires Serialized(items, b)[off..] == piece + Concat(more) && OccursAt(piece, DashBoundaryCrlf(b), i)
    requires q == Parser(1, false, NO_FILE, piece[i + |DashBoundaryCrlf(b)|..], [])
    ensures IsLate(b, items, q, q.buf + Concat(more))
  {
    hide Serialized, Body, Left, First;
    var m, d := Serialized(items, b), DashBoundaryCrlf(b);
    var e := off + i + |d| - 2;
    FoundInRest(piece, Concat(more), d, i, i + |d|);
    OccursInSuffix(m, d, off, i);
    LaterOpening(b, items, off + i, e);
    assert m[off..][i + |d|..] == m[e + 2..];
  }

  /** Once some of the text is lost, the items are not all told with the parser valid. */
  lemma {:induction false} LostIsLost(b: string, items: seq<Item>, pieces: seq<string>, off: nat)
    requires IsBoundary(b) && items != [] && (forall i :: 0 <= i < |items| ==> IsSendable(b, items[i]))
    requires 0 < off <= |Serialized(items, b)| && Concat(pieces) == Serialized(items, b)[off..]
    ensures var p := FedAll(b, START, pieces).p;
            !(p.valid && Delivered(p.events) == items)
    decreases |pieces|
  {
    if pieces != [] {
      var piece, more := pieces[0], pieces[1..];
      var i := First(piece, DashBoundaryCrlf(b));
      FirstOccurs(piece, DashBoundaryCrlf(b));
      if i == |piece| {
        PieceIsLost(b, START, piece);
        WithoutPiece(Serialized(items, b), off, piece, Concat(more));
        LostIsLost(b, items, more, off + |piece|);
      } else {
        OpeningIsLost(b, items, pieces, off, i);
      }
    }
  }

  lemma OpeningIsLost(b: string, items: seq<Item>, pieces: seq<string>, off: nat, i: nat)
    requires IsBoundary(b) && items != [] && (forall i :: 0 <= i < |items| ==> IsSendable(b, items[i]))
    requires 0 < off <= |Serialized(items, b)| && pieces != [] && Concat(pieces) == Serialized(items, b)[off..]
    requires i == First(pieces[0], DashBoundaryCrlf(b)) < |pieces[0]| && OccursAt(pieces[0], DashBoundaryCrlf(b), i)
    ensures var p := FedAll(b, START, pieces).p;
            !(p.valid && Delivered(p.events) == items)
  {
    hide IsSendable, IsLate, Serialized, Run, First;
    var piece, more := pieces[0], pieces[1..];
    var q := PieceOpens(b, piece, more, i);
    assert [piece] + more == pieces;
    PieceIsLate(b, items, off, piece, more, i, q);
    var f := Then(b, q, more).p;
    if Delivered(f.events) == items {
      LateThen(b, items, q, more, f);
    }
  }

  lemma WithoutPiece(m: string, off: nat, piece: string, rest: string)
    requires off <= |m| && m[off..] == piece + rest
    ensures off + |piece| <= |m| && m[off + |piece|..] == rest
  {
    assert m[off..][|piece|..] == m[off + |piece|..] && (piece + rest)[|piece|..] == rest;
  }

  /**
   Exactly when the round trip succeeds: for every nonempty list of sendable items and
   every way of cutting its text, the items are told and the parser ends valid if and
   only if the first piece that is not empty holds all of the first delimiter. Whatever
   further delimiters the text holds, a parser that missed the first one never makes
   up for it.
   */
  lemma {:induction false} RoundTripExactly(b: string, items: seq<Item>, pieces: seq<string>)
    requires IsBoundary(b) && items != [] && (forall i :: 0 <= i < |items| ==> IsSendable(b, items[i]))
    requires Concat(pieces) == Serialized(items, b)
    ensures var r := FedAll(b, START, pieces);
            r.ok && r.p.valid && Delivered(r.p.events) == items <==> FirstIsWhole(pieces, |DashBoundaryCrlf(b)|)
    decreases |pieces|
  {
    if FirstIsWhole(pieces, |DashBoundaryCrlf(b)|) {
      MultipartRoundTrip.MultipartRoundTrip(b, items, pieces);
    } else if pieces != [] {
      assert Clear(pieces[0], DashBoundaryCrlf(b), |pieces[0]|);
      PieceIsLost(b, START, pieces[0]);
      if pieces[0] == "" {
        assert Concat(pieces) == Concat(pieces[1..]);
        RoundTripExactly(b, items, pieces[1..]);
      } else {
        assert Concat(pieces)[|pieces[0]|..] == Concat(pieces[1..]);
        LostIsLost(b, items, pieces[1..], |pieces[0]|);
      }
    }
  }
}
