/** The body of a part, however its bytes arrive. */
module MultipartBody {

  import opened MultipartSpec
  import opened Sequences

  // ---------------------------------------------------------------- finding in a prefix

  /** A prefix knows an occurrence as soon as it holds all of it. */
  lemma OccursInPrefix(t: string, buf: string, rest: string, n: string, j: nat)
    requires t == buf + rest
    ensures OccursAt(buf, n, j) <==> j + |n| <= |buf| && OccursAt(t, n, j)
  {
    if j + |n| <= |buf| {
      assert buf[j..j + |n|] == t[j..j + |n|];
    }
  }

  lemma FirstInPrefix(t: string, buf: string, rest: string, n: string, i: nat)
    requires t == buf + rest && n != "" && OccursAt(t, n, i) && Clear(t, n, i)
    ensures First(buf, n) == if i + |n| <= |buf| then i else |buf|
  {
    forall j | 0 <= j < i ensures !OccursAt(buf, n, j) {
      OccursInPrefix(t, buf, rest, n, j);
    }
    OccursInPrefix(t, buf, rest, n, i);
    if i + |n| <= |buf| {
      FirstIs(buf, n, i);
    } else {
      forall j | 0 <= j < |buf| ensures !OccursAt(buf, n, j) {
        OccursInPrefix(t, buf, rest, n, j);
      }
      NoneIs(buf, n);
    }
  }

  lemma LineClear(line: string, tail: string, t: string)
    requires t == line + (CRLF + tail) && IsOneLine(line)
    ensures OccursAt(t, CRLF, |line|) && Clear(t, CRLF, |line|)
  {
    assert t[|line|..|line| + 2] == CRLF;
    forall j | 0 <= j < |line| ensures !OccursAt(t, CRLF, j) {
      assert t[j] == line[j] && line[j] in line;
      if j + 2 <= |t| {
        assert t[j..j + 2][0] == t[j];
      }
    }
  }

  /** The first occurrence in the rest of a text, as long as none has been passed. */
  lemma FirstInSuffix(t: string, n: string, k: nat)
    requires n != "" && k <= First(t, n)
    ensures First(t[k..], n) == First(t, n) - k
  {
    var s, i := t[k..], First(t, n);
    FirstOccurs(t, n);
    forall j | 0 <= j < i - k ensures !OccursAt(s, n, j) {
      OccursInSuffix(t, n, k, j);
    }
    if i < |t| {
      OccursInSuffix(t, n, k, i - k);
      FirstIs(s, n, i - k);
    } else {
      NoneIs(s, n);
    }
  }

  lemma OccursInSuffix(t: string, n: string, k: nat, j: nat)
    requires k <= |t|
    ensures OccursAt(t[k..], n, j) <==> OccursAt(t, n, k + j)
  {
    if k + j + |n| <= |t| {
      assert t[k..][j..j + |n|] == t[k + j..k + j + |n|];
    }
  }

  /** Where the first occurrence is in a prefix, by where it is in the whole. */
  lemma FirstByWhole(t: string, buf: string, rest: string, n: string)
    requires t == buf + rest && n != ""
    ensures First(buf, n) == if First(t, n) < |t| && First(t, n) + |n| <= |buf| then First(t, n) else |buf|
  {
    var i := First(t, n);
    FirstOccurs(t, n);
    if i < |t| {
      FirstInPrefix(t, buf, rest, n, i);
    } else {
      forall j | 0 <= j < |buf| ensures !OccursAt(buf, n, j) {
        OccursInPrefix(t, buf, rest, n, j);
      }
      NoneIs(buf, n);
    }
  }

  // ---------------------------------------------------------------- content events

  /** The content of the first events, up to a header. */
  function Leading(events: seq<Event>): string {
    if events == [] || events[0].Header? then "" else events[0].data + Leading(events[1..])
  }

  /** What `q` has been told after `p`. */
  function Since(p: Parser, q: Parser): seq<Event>
    requires p.events <= q.events
  {
    q.events[|p.events|..]
  }

  /** Nothing was told, or a header first. */
  ghost predicate Quiet(p: Parser, q: Parser) {
    p.events <= q.events && Leading(Since(p, q)) == ""
  }

  lemma StepIsQuiet(b: string, p: Parser)
    requires p.state <= 4 && p.state != 3
    ensures p.events <= Step(b, p).p.events
    ensures if Step(b, p).p.state == 3 then Since(p, Step(b, p).p) != [] && Since(p, Step(b, p).p)[0].Header?
            else Since(p, Step(b, p).p) == []
  {
    if p.state == 2 {
      HeadersTell(p);
    }
  }

  lemma HeaderFirst(p: Parser, q: Parser, r: Parser)
    requires p.events <= q.events <= r.events && Since(p, q) != [] && Since(p, q)[0].Header?
    ensures Quiet(p, r) && Since(p, r) != [] && Since(p, r)[0].Header?
  {
    assert Since(p, r)[0] == r.events[|p.events|] == q.events[|p.events|] == Since(p, q)[0];
  }

  /** Outside a body, a call tells of a header before any content. */
  lemma {:induction false} RunIsQuiet(b: string, p: Parser)
    requires p.state <= 4 && p.state != 3
    ensures var q := Run(b, p).p;
            Quiet(p, q) && (Since(p, q) == [] ==> q.state != 3) && (Since(p, q) != [] ==> Since(p, q)[0].Header?)
    decreases Rank(p)
  {
    if p.buf == "" {
      assert Since(p, p) == [];
    } else {
      StepShrinks(b, p);
      StepIsQuiet(b, p);
      var r := Step(b, p);
      if r.Go? {
        if r.p.state == 3 {
          RunOnlyAdds(b, r.p);
          HeaderFirst(p, r.p, Run(b, r.p).p);
        } else {
          RunIsQuiet(b, r.p);
          assert r.p.events == p.events;
        }
      }
    }
  }

  lemma RunOnlyAdds(b: string, p: Parser)
    requires p.state <= 4
    ensures p.events <= Run(b, p).p.events
  {
    if p.buf != "" {
      RunExtends(b, p);
    }
  }

  lemma {:induction false} FedAllOnlyAdds(b: string, p: Parser, pieces: seq<string>)
    requires p.state <= 4
    ensures p.events <= FedAll(b, p, pieces).p.events
    decreases |pieces|
  {
    if pieces != [] {
      var q := p.(buf := p.buf + pieces[0]);
      RunOnlyAdds(b, q);
      if Run(b, q).ok {
        FedAllOnlyAdds(b, Run(b, q).p, pieces[1..]);
      }
    }
  }

  lemma {:induction false} FedAllIsQuiet(b: string, p: Parser, pieces: seq<string>)
    requires p.state <= 4 && p.state != 3
    ensures Quiet(p, FedAll(b, p, pieces).p)
    decreases |pieces|
  {
    if pieces == [] {
      assert Since(p, p) == [];
    } else {
      var q := p.(buf := p.buf + pieces[0]);
      RunIsQuiet(b, q);
      var r := Run(b, q);
      if r.ok {
        if Since(q, r.p) == [] {
          FedAllIsQuiet(b, r.p, pieces[1..]);
          assert r.p.events == p.events;
        } else {
          FedAllOnlyAdds(b, r.p, pieces[1..]);
          HeaderFirst(q, r.p, FedAll(b, r.p, pieces[1..]).p);
        }
      }
    }
  }

  // ---------------------------------------------------------------- the theorem

  /** The content of a body: all before the first delimiter, or all that cannot be the start of one. */
  function BodyOf(t: string, d: string): string
    requires d != ""
  {
    if First(t, d) < |t| then t[..First(t, d)] else if |t| <= |d| then "" else t[..|t| - |d|]
  }

  /** The delimiter is in the buffer: its content is told, and nothing more of this body. */
  lemma BodyHere(b: string, p: Parser, t: string, rest: string, d: string)
    requires p.state == 3 && t == p.buf + rest && d == CrlfDashBoundary(b) && First(t, d) < |t|
    requires First(t, d) + |d| <= |p.buf|
    ensures Step(b, p).Go? && Step(b, p).p.state == 4 && Step(b, p).p.events == p.events + [Content(BodyOf(t, d))]
  {
    FirstByWhole(t, p.buf, rest, d);
    assert p.buf[..First(t, d)] == t[..First(t, d)];
  }

  /** It is not: what cannot be part of it is told, and the rest stays. */
  lemma BodyPart(b: string, p: Parser, t: string, rest: string, d: string) returns (len: nat)
    requires p.state == 3 && t == p.buf + rest && d == CrlfDashBoundary(b)
    requires !(First(t, d) < |t| && First(t, d) + |d| <= |p.buf|)
    ensures len == (if |p.buf| <= |d| then 0 else |p.buf| - |d|) && len <= First(t, d)
    ensures var r := Step(b, p);
            && r.Stop? && r.ok && r.p.state == 3 && r.p.buf + rest == t[len..]
            && r.p.events == p.events + if len > 0 then [Content(t[..len])] else []
  {
    len := if |p.buf| <= |d| then 0 else |p.buf| - |d|;
    FirstByWhole(t, p.buf, rest, d);
    CutPrefix(t, p.buf, rest, len);
    assert p.buf[0..] == p.buf && p.events + [] == p.events;
  }

  lemma CutPrefix(t: string, buf: string, rest: string, len: nat)
    requires t == buf + rest && len <= |buf|
    ensures buf[..len] == t[..len]
    ensures buf[len..] + rest == t[len..]
  {
  }

  lemma LeadingPart(p: Parser, q: Parser, r: Parser, d: string)
    requires q.events == p.events + [Content(d)] && q.events <= r.events
    ensures p.events <= r.events && Leading(Since(p, r)) == d + Leading(Since(q, r))
  {
    assert Since(p, r) == [Content(d)] + Since(q, r);
  }

  lemma BodyOfRest(t: string, d: string, len: nat)
    requires d != "" && len <= First(t, d) && (len > 0 ==> len + |d| <= |t|)
    ensures BodyOf(t, d) == t[..len] + BodyOf(t[len..], d)
  {
    FirstInSuffix(t, d, len);
    if First(t, d) < |t| {
      SliceSum(t, len, First(t, d));
    } else {
      NoneOfRest(t, d, len);
    }
  }

  lemma NoneOfRest(t: string, d: string, len: nat)
    requires d != "" && len <= |t| && First(t, d) == |t| && First(t[len..], d) == |t| - len
    requires (len > 0 ==> len + |d| <= |t|)
    ensures BodyOf(t, d) == t[..len] + BodyOf(t[len..], d)
  {
    if |t| > |d| {
      SliceSum(t, len, |t| - |d|);
    } else {
      assert len == 0 && t[..0] + "" == "";
    }
  }

  lemma SliceSum(t: string, len: nat, i: nat)
    requires len <= i <= |t|
    ensures t[..i] == t[..len] + t[len..][..i - len]
  {
  }

  /** The call with what is in the buffer, and then further calls. */
  function Then(b: string, q: Parser, more: seq<string>): (r: Round)
    requires q.state <= 4
    ensures r.Stop? && r.p.state <= 4
  {
    var r := Run(b, q);
    if r.ok then FedAll(b, r.p, more) else r
  }

  lemma ThenIsQuiet(b: string, q: Parser, more: seq<string>)
    requires q.state <= 4 && q.state != 3
    ensures Quiet(q, Then(b, q, more).p)
  {
    assert q.(buf := q.buf + "") == q by { assert q.buf + "" == q.buf; }
    assert ([""] + more)[1..] == more;
    FedAllIsQuiet(b, q, [""] + more);
  }

  /** The body ends in this call. */
  lemma BodyEnded(b: string, q: Parser, t: string, rest: string, d: string, more: seq<string>)
    requires q.state == 3 && t == q.buf + rest && d == CrlfDashBoundary(b) && First(t, d) < |t|
    requires First(t, d) + |d| <= |q.buf|
    ensures var f := Then(b, q, more).p;
            q.events <= f.events && Leading(Since(q, f)) == BodyOf(t, d)
  {
    BodyHere(b, q, t, rest, d);
    StepShrinks(b, q);
    var r := Step(b, q).p;
    ThenIsQuiet(b, r, more);
    LeadingPart(q, r, Then(b, r, more).p, BodyOf(t, d));
    assert BodyOf(t, d) + "" == BodyOf(t, d);
  }

  /** The last call has been made before the delimiter was there. */
  lemma BodyStops(b: string, q: Parser, t: string, d: string)
    requires q.state == 3 && q.buf == t && t != "" && d == CrlfDashBoundary(b) && First(t, d) == |t|
    ensures var f := Run(b, q).p;
            q.events <= f.events && Leading(Since(q, f)) == BodyOf(t, d)
  {
    assert t == q.buf + "";
    var len := BodyPart(b, q, t, "", d);
    var f := Run(b, q).p;
    if len > 0 {
      assert Since(q, f) == [Content(t[..len])] && [Content(t[..len])][1..] == [];
      assert t[..len] + "" == t[..len];
    } else {
      assert Since(q, f) == [];
    }
  }

  /** From state 3 the content told is the body, exactly, for every way its bytes arrive. */
  lemma {:induction false} BodyIsExact(b: string, p: Parser, pieces: seq<string>)
    requires p.state == 3 && pieces != []
    ensures var q := FedAll(b, p, pieces).p;
            p.events <= q.events && Leading(Since(p, q)) == BodyOf(p.buf + Concat(pieces), CrlfDashBoundary(b))
    decreases |pieces|
  {
    var d, more := CrlfDashBoundary(b), pieces[1..];
    var q, t := p.(buf := p.buf + pieces[0]), p.buf + Concat(pieces);
    Associative(p.buf, pieces[0], Concat(more));
    assert FedAll(b, p, pieces) == Then(b, q, more);
    if First(t, d) < |t| && First(t, d) + |d| <= |q.buf| {
      BodyEnded(b, q, t, Concat(more), d, more);
    } else if more == [] {
      NoneYet(q.buf, t, d);
      if t == "" {
        assert Since(q, q) == [];
      } else {
        BodyStops(b, q, t, d);
      }
    } else if q.buf == "" {
      BodyIsExact(b, q, more);
    } else {
      var len := BodyPart(b, q, t, Concat(more), d);
      var r := Step(b, q).p;
      BodyIsExact(b, r, more);
      BodyOfRest(t, d, len);
      BodyJoined(q, r, FedAll(b, r, more).p, t[..len], len);
    }
  }

  lemma NoneYet(buf: string, t: string, d: string)
    requires buf + "" == t && d != "" && !(First(t, d) < |t| && First(t, d) + |d| <= |buf|)
    ensures First(t, d) == |t| && buf == t
  {
  }

  lemma BodyJoined(q: Parser, r: Parser, f: Parser, d: string, len: nat)
    requires r.events == (q.events + if len > 0 then [Content(d)] else []) && r.events <= f.events && |d| == len
    ensures q.events <= f.events && Leading(Since(q, f)) == d + Leading(Since(r, f))
  {
    if len > 0 {
      LeadingPart(q, r, f, d);
    } else {
      assert d + Leading(Since(r, f)) == Leading(Since(r, f));
    }
  }
}
