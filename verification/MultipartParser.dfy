/** The incremental multipart parser: its buffer, its five states and its callbacks. */
module MultipartParser {

  import opened Headers
  import opened MultipartSpec
  import opened Query
  import opened Text

  // ---------------------------------------------------------------- header lines

  method TrimCopy(s: string) returns (t: string)
    ensures t == Trim(s)
  {
    var l, r := TrimRange(s, 0, |s|);
    assert s[0..|s|] == s;
    t := if l < r then s[l..r] else "";
  }

  method StartWithCaseIgnore(a: string, b: string) returns (starts: bool)
    ensures starts <==> StartsIgnoringCase(a, b)
  {
    if |a| < |b| {
      return false;
    }
    for i := 0 to |b|
      invariant forall j :: 0 <= j < i ==> ToLower(a[j]) == ToLower(b[j])
    {
      if ToLower(a[i]) != ToLower(b[i]) {
        assert ToLower(a[..|b|][i]) != ToLower(b[i]);
        return false;
      }
    }
    starts := true;
  }

  lemma DispositionNext(pieces: seq<string>, i: nat, cache: set<string>, items: seq<Pair>)
    requires i < |pieces|
    ensures DispositionInto(pieces[i..], cache, items) ==
            DispositionInto(pieces[i + 1..], cache + {pieces[i]},
                            if pieces[i] in cache then items else DispositionOne(pieces[i], items))
  {
    assert pieces[i..][1..] == pieces[i + 1..];
    if pieces[i] in cache {
      assert cache + {pieces[i]} == cache;
    }
  }

  method ParseDispositionPiece(kv: string, cache: set<string>, params: Params) returns (cache': set<string>)
    modifies params
    ensures cache' == cache + {kv}
    ensures params.items == if kv in cache then old(params.items) else DispositionOne(kv, old(params.items))
  {
    cache' := cache;
    if kv in cache {
      return;
    }
    cache' := cache' + {kv};
    var key, val := KeyValue(kv);
    if key != "" {
      params.Emplace(TrimDoubleQuotes(key), TrimDoubleQuotes(val));
    }
  }

  method ParseDispositionParams(s: string, params: Params)
    modifies params
    ensures params.items == DispositionInto(Pieces(s, ';'), {}, old(params.items))
  {
    var pieces := Split(s, ';');
    ParseDispositionPieces(pieces, params);
  }

  method ParseDispositionPieces(pieces: seq<string>, params: Params)
    modifies params
    ensures params.items == DispositionInto(pieces, {}, old(params.items))
  {
    var cache: set<string> := {};
    ghost var all := DispositionInto(pieces, {}, params.items);
    var i: nat := 0;
    assert pieces[0..] == pieces;
    while i < |pieces|
      invariant i <= |pieces| && DispositionInto(pieces[i..], cache, params.items) == all
    {
      DispositionNext(pieces, i, cache, params.items);
      cache := ParseDispositionPiece(pieces[i], cache, params);
      i := i + 1;
    }
  }

  // ---------------------------------------------------------------- the callbacks

  /** The header and the content callback; they may refuse to go on unless they are willing. */
  class Callbacks {
    var events: seq<Event>
    const willing: bool

    constructor (willing: bool)
      ensures events == [] && this.willing == willing
    {
      events, this.willing := [], willing;
    }

    method Call(e: Event) returns (more: bool)
      modifies this
      ensures events == old(events) + [e] && (willing ==> more)
    {
      events := events + [e];
      more := *;
      if willing {
        more := true;
      }
    }
  }

  /** How a round of the loop went. */
  datatype Status = Next | Return(ok: bool) | Refused

  ghost predicate Does(status: Status, r: Round, p: Parser) {
    match status
    case Next => r == Go(p)
    case Return(ok) => r == Stop(p, ok)
    case Refused => !p.valid && p.events == r.p.events
  }

  // ---------------------------------------------------------------- the parser

  class MultipartFormDataParser {
    var boundary: string
    var dashBoundaryCrlf: string
    var crlfDashBoundary: string

    var state: nat
    var isValid: bool
    var file: FileInfo

    var buf: string
    var bufSpos: nat
    var bufEpos: nat

    constructor ()
      ensures state == 0 && !isValid && file == NO_FILE && InBounds() && Buffered() == ""
    {
      boundary, dashBoundaryCrlf, crlfDashBoundary := "", "", "";
      state, isValid, file := 0, false, NO_FILE;
      buf, bufSpos, bufEpos := "", 0, 0;
    }

    method SetBoundary(boundary: string)
      requires state <= 4 && InBounds()
      modifies this`boundary, this`dashBoundaryCrlf, this`crlfDashBoundary
      ensures Valid() && this.boundary == boundary
    {
      this.boundary := boundary;
      dashBoundaryCrlf := DASH + boundary + CRLF;
      crlfDashBoundary := CRLF + DASH + boundary;
    }

    ghost predicate InBounds()
      reads this
    {
      bufSpos <= bufEpos <= |buf|
    }

    ghost predicate Valid()
      reads this
    {
      && InBounds() && state <= 4
      && dashBoundaryCrlf == DashBoundaryCrlf(boundary) && crlfDashBoundary == CrlfDashBoundary(boundary)
    }

    /** The bytes that wait to be parsed. */
    ghost function Buffered(): string
      requires InBounds()
      reads this
    {
      buf[bufSpos..bufEpos]
    }

    ghost function Value(events: seq<Event>): Parser
      requires InBounds()
      reads this
    {
      Parser(state, isValid, file, Buffered(), events)
    }

    function BufSize(): nat
      requires InBounds()
      reads this
    {
      bufEpos - bufSpos
    }

    function BufHead(l: nat): (s: string)
      requires InBounds() && l <= BufSize()
      reads this
      ensures s == Buffered()[..l]
    {
      buf[bufSpos..bufSpos + l]
    }

    static method StartWith(a: string, spos: nat, epos: nat, b: string) returns (starts: bool)
      requires spos <= epos <= |a|
      ensures starts <==> StartsWith(a[spos..epos], b)
    {
      ghost var s := a[spos..epos];
      if epos - spos < |b| {
        return false;
      }
      for i := 0 to |b|
        invariant forall j :: 0 <= j < i ==> s[j] == b[j]
      {
        if a[i + spos] != b[i] {
          assert s[..|b|][i] != b[i];
          return false;
        }
      }
      assert s[..|b|] == b;
      starts := true;
    }

    method BufStartWith(s: string) returns (starts: bool)
      requires InBounds()
      ensures starts <==> StartsWith(Buffered(), s)
    {
      starts := StartWith(buf, bufSpos, bufEpos, s);
    }

    /** The first occurrence of `s` in the buffer, or its size: scans for the first character, then compares. */
    method BufFind(s: string) returns (pos: nat)
      requires InBounds() && s != ""
      ensures pos == First(Buffered(), s)
    {
      ghost var h := Buffered();
      var off := bufSpos;
      while off < bufEpos
        invariant bufSpos <= off <= bufEpos && Clear(h, s, off - bufSpos)
      {
        var at := Scan(s[0], off);
        NotAtOthers(h, s, off - bufSpos, at - bufSpos);
        if at == bufEpos {
          NoneIs(h, s);
          return BufSize();
        }
        if |s| > bufEpos - at {
          TooLate(h, s, at - bufSpos);
          return BufSize();
        }
        var here := StartWith(buf, at, bufEpos, s);
        HereInBuffer(h, s, at);
        if here {
          FirstIs(h, s, at - bufSpos);
          return at - bufSpos;
        }
        off := at + 1;
      }
      NoneIs(h, s);
      pos := BufSize();
    }

    /** The inner loop. */
    method Scan(c: char, off: nat) returns (at: nat)
      requires InBounds() && bufSpos <= off <= bufEpos
      ensures off <= at <= bufEpos && (at < bufEpos ==> buf[at] == c) && forall j :: off <= j < at ==> buf[j] != c
    {
      at := off;
      while at != bufEpos && buf[at] != c
        invariant off <= at <= bufEpos && forall j :: off <= j < at ==> buf[j] != c
        decreases bufEpos - at
      {
        at := at + 1;
      }
    }

    lemma NotAtOthers(h: string, s: string, off: nat, at: nat)
      requires InBounds() && h == Buffered() && s != "" && off <= at <= |h| && Clear(h, s, off)
      requires forall j :: bufSpos + off <= j < bufSpos + at ==> buf[j] != s[0]
      ensures Clear(h, s, at)
    {
      forall j | off <= j < at ensures !OccursAt(h, s, j) {
        assert h[j] == buf[bufSpos + j];
        if j + |s| <= |h| {
          assert h[j..j + |s|][0] == h[j];
        }
      }
    }

    lemma HereInBuffer(h: string, s: string, at: nat)
      requires InBounds() && h == Buffered() && bufSpos <= at && at + |s| <= bufEpos
      ensures StartsWith(buf[at..bufEpos], s) <==> OccursAt(h, s, at - bufSpos)
    {
      SliceOfSlice(buf, bufSpos, bufEpos, at - bufSpos, at - bufSpos + |s|);
      SliceOfSlice(buf, at, bufEpos, 0, |s|);
    }

    method BufAppend(data: string)
      requires InBounds()
      modifies this`buf, this`bufSpos, this`bufEpos
      ensures InBounds() && Buffered() == old(Buffered()) + data
    {
      ghost var was := Buffered();
      var remaining := BufSize();
      if remaining > 0 && bufSpos > 0 {
        MoveDown(remaining);
      }
      bufSpos := 0;
      bufEpos := remaining;
      assert Buffered() == was;
      if remaining + |data| > |buf| {
        buf := buf + seq(remaining + |data| - |buf|, _ => '\0');
      }
      var i: nat := 0;
      while i < |data|
        invariant i <= |data| && remaining + |data| <= |buf| && bufSpos == 0 && bufEpos == remaining
        invariant buf[..remaining] == was && forall j :: 0 <= j < i ==> buf[remaining + j] == data[j]
      {
        buf := buf[bufEpos + i := data[i]];
        i := i + 1;
      }
      bufEpos := bufEpos + |data|;
      assert Buffered() == was + data;
    }

    /** The loop that moves what is left to the front. */
    method MoveDown(remaining: nat)
      requires InBounds() && remaining == BufSize() && bufSpos > 0
      modifies this`buf
      ensures |buf| == |old(buf)| && buf[..remaining] == old(Buffered())
    {
      ghost var was := buf;
      for i := 0 to remaining
        invariant |buf| == |was| && bufSpos + remaining <= |buf|
        invariant forall j :: 0 <= j < i ==> buf[j] == was[bufSpos + j]
        invariant forall j :: i <= j < |buf| ==> buf[j] == was[j]
      {
        buf := buf[i := buf[bufSpos + i]];
      }
    }

    method BufErase(size: nat)
      requires InBounds() && size <= BufSize()
      modifies this`bufSpos
      ensures InBounds() && Buffered() == old(Buffered())[size..]
    {
      bufSpos := bufSpos + size;
    }

    method ClearFileInfo()
      modifies this`file
      ensures file == NO_FILE
    {
      file := NO_FILE;
    }

    /** What a header line says of the file. */
    method HeaderLine(header: string) returns (ok: bool)
      modifies this`file
      ensures Taken(ok, file) == TakeHeader(old(file), header)
    {
      var parsed := ParseHeader(header);
      if parsed.None? {
        return false;
      }
      var isContentType := StartWithCaseIgnore(header, CONTENT_TYPE);
      if isContentType {
        var contentType := TrimCopy(header[|CONTENT_TYPE|..]);
        file := file.(contentType := contentType);
      } else {
        var text := DispositionText(header);
        if text.Some? {
          ok := Disposition(text.value);
          return;
        }
      }
      ok := true;
    }

    method Disposition(text: string) returns (ok: bool)
      modifies this`file
      ensures Taken(ok, file) == WithParams(old(file), DispositionInto(Pieces(text, ';'), {}, []))
    {
      var params := new Params();
      ParseDispositionParams(text, params);
      var it := Lookup(params.items, "name");
      if it.None? {
        return false;
      }
      file := file.(name := it.value);
      it := Lookup(params.items, "filename");
      if it.Some? {
        file := file.(filename := it.value);
      }
      it := Lookup(params.items, "filename*");
      if it.Some? {
        var filename := ExtendedFilename(it.value);
        if filename.None? {
          return false;
        }
        file := file.(filename := filename.value);
      }
      ok := true;
    }

    /** State 0: everything before the first delimiter goes, and everything if there is none. */
    method InitialBoundary(callbacks: Callbacks) returns (status: Status)
      requires Valid() && state == 0
      modifies this`state, this`bufSpos
      ensures Valid() && Does(status, StepInitial(boundary, old(Value(callbacks.events))), Value(callbacks.events))
      ensures status != Refused
    {
      var pos := BufFind(dashBoundaryCrlf);
      BufErase(pos);
      if |dashBoundaryCrlf| > BufSize() {
        return Return(true);
      }
      var starts := BufStartWith(dashBoundaryCrlf);
      if !starts {
        return Return(false);
      }
      BufErase(|dashBoundaryCrlf|);
      state := 1;
      status := Next;
    }

    /** State 2: as many header lines as there are, up to the empty one. */
    method HeaderLines(callbacks: Callbacks) returns (status: Status)
      requires Valid() && state == 2
      modifies this`state, this`isValid, this`file, this`bufSpos, callbacks
      ensures Valid() && Does(status, Step(boundary, old(Value(callbacks.events))), Value(callbacks.events))
      ensures callbacks.willing ==> status != Refused
    {
      hide First, TakeHeader, DashBoundaryCrlf, CrlfDashBoundary, StepInitial, StepBody, StepBoundary;
      var pos := BufFind(CRLF);
      if pos > HEADER_MAX_LENGTH {
        return Return(false);
      }
      ghost var r := StepHeaders(Value(callbacks.events));
      while pos < BufSize()
        invariant Valid() && state == 2 && pos == First(Buffered(), CRLF)
        invariant StepHeaders(Value(callbacks.events)) == r
        decreases BufSize()
      {
        if pos == 0 {
          status := LastHeader(callbacks);
          return;
        }
        HeadersGoOn(Value(callbacks.events), pos);
        var ok := NextHeaderLine(pos, callbacks.events);
        if !ok {
          return Return(false);
        }
        pos := BufFind(CRLF);
      }
      status := Return(true);
    }

    /** The empty line. */
    method LastHeader(callbacks: Callbacks) returns (status: Status)
      requires Valid() && state == 2 && First(Buffered(), CRLF) == 0 < BufSize()
      modifies this`state, this`isValid, this`bufSpos, callbacks
      ensures Valid() && Does(status, StepHeaders(old(Value(callbacks.events))), Value(callbacks.events))
      ensures callbacks.willing ==> status != Refused
    {
      var more := callbacks.Call(Header(file));
      if !more {
        isValid := false;
        return Refused;
      }
      BufErase(|CRLF|);
      state := 3;
      status := Next;
    }

    static lemma HeadersGoOn(p: Parser, pos: nat)
      requires 0 < pos == First(p.buf, CRLF) < |p.buf|
      ensures StepHeaders(p) ==
              if NextHeader(p, pos).Stop? then NextHeader(p, pos) else StepHeaders(NextHeader(p, pos).p)
    {
    }

    method NextHeaderLine(pos: nat, ghost events: seq<Event>) returns (ok: bool)
      requires InBounds() && pos + 2 <= BufSize()
      modifies this`isValid, this`file, this`bufSpos
      ensures InBounds() && BufSize() == old(BufSize()) - if ok then pos + 2 else 0
      ensures NextHeader(old(Value(events)), pos) == if ok then Go(Value(events)) else Stop(Value(events), false)
    {
      hide TakeHeader;
      var header := BufHead(pos);
      ok := HeaderLine(header);
      if !ok {
        isValid := false;
        return;
      }
      BufErase(pos + |CRLF|);
    }

    /** State 3: content up to the delimiter, or all but as many bytes as could be the start of one. */
    method Body(callbacks: Callbacks) returns (status: Status)
      requires Valid() && state == 3
      modifies this`state, this`isValid, this`bufSpos, callbacks
      ensures Valid() && Does(status, StepBody(boundary, old(Value(callbacks.events))), Value(callbacks.events))
      ensures callbacks.willing ==> status != Refused
    {
      hide First, DashBoundaryCrlf;
      if |crlfDashBoundary| > BufSize() {
        return Return(true);
      }
      var pos := BufFind(crlfDashBoundary);
      if pos < BufSize() {
        status := Tell(pos, pos + |crlfDashBoundary|, callbacks);
        if status == Next {
          state := 4;
        }
        return;
      }
      var len := BufSize() - |crlfDashBoundary|;
      if len > 0 {
        status := Tell(len, len, callbacks);
        if status == Refused {
          return;
        }
      }
      status := Return(true);
    }

    /** The content callback, and the bytes that go if it does not refuse. */
    method Tell(len: nat, size: nat, callbacks: Callbacks) returns (status: Status)
      requires InBounds() && len <= size <= BufSize()
      modifies this`isValid, this`bufSpos, callbacks
      ensures InBounds() && callbacks.events == old(callbacks.events) + [Content(old(Buffered())[..len])]
      ensures if status == Next then Buffered() == old(Buffered())[size..] && isValid == old(isValid)
              else status == Refused && !isValid
      ensures callbacks.willing ==> status == Next
    {
      var more := callbacks.Call(Content(BufHead(len)));
      if !more {
        isValid := false;
        return Refused;
      }
      BufErase(size);
      status := Next;
    }

    /** State 4: behind a delimiter. */
    method Boundary(callbacks: Callbacks) returns (status: Status)
      requires Valid() && state == 4
      modifies this`state, this`isValid, this`bufSpos
      ensures Valid() && Does(status, StepBoundary(old(Value(callbacks.events))), Value(callbacks.events))
      ensures status != Refused
    {
      if |CRLF| > BufSize() {
        return Return(true);
      }
      var starts := BufStartWith(CRLF);
      if starts {
        BufErase(|CRLF|);
        state := 1;
        return Next;
      }
      if |DASH| > BufSize() {
        return Return(true);
      }
      starts := BufStartWith(DASH);
      if starts {
        BufErase(|DASH|);
        isValid := true;
        BufErase(BufSize());
        return Next;
      }
      status := Return(true);
    }

    /** One round of the loop. */
    method ParseRound(callbacks: Callbacks) returns (status: Status)
      requires Valid() && Buffered() != ""
      modifies this`state, this`isValid, this`file, this`bufSpos, callbacks
      ensures Valid() && Does(status, Step(boundary, old(Value(callbacks.events))), Value(callbacks.events))
      ensures callbacks.willing ==> status != Refused
    {
      match state {
        case 0 =>
          status := InitialBoundary(callbacks);
        case 1 =>
          ClearFileInfo();
          state := 2;
          status := Next;
        case 2 =>
          status := HeaderLines(callbacks);
        case 3 =>
          status := Body(callbacks);
        case _ =>
          status := Boundary(callbacks);
      }
    }

    /** One call with more data: it does what the specification says, unless a callback refuses. */
    method Parse(data: string, callbacks: Callbacks) returns (ok: bool, ghost refused: bool)
      requires Valid()
      modifies this`state, this`isValid, this`file, this`buf, this`bufSpos, this`bufEpos, callbacks
      ensures Valid() && (callbacks.willing ==> !refused)
      ensures !refused ==> Fed(boundary, old(Value(callbacks.events)), data) == Stop(Value(callbacks.events), ok)
      ensures refused ==> !ok && !isValid
      ensures refused ==> callbacks.events <= Fed(boundary, old(Value(callbacks.events)), data).p.events
    {
      ghost var start := Value(callbacks.events);
      BufAppend(data);
      ghost var all := Fed(boundary, start, data);
      while BufSize() > 0
        invariant Valid() && Run(boundary, Value(callbacks.events)) == all
        decreases Rank(Value(callbacks.events))
      {
        ghost var p := Value(callbacks.events);
        StepShrinks(boundary, p);
        var status := ParseRound(callbacks);
        match status {
          case Next =>
          case Return(r) =>
            return r, false;
          case Refused =>
            RunExtends(boundary, p);
            return false, true;
        }
      }
      return true, false;
    }
  }

  lemma TooLate(h: string, s: string, k: nat)
    requires s != "" && Clear(h, s, k) && k + |s| > |h|
    ensures First(h, s) == |h|
  {
    NoneIs(h, s);
  }
}
