/** The chunked transfer coding, section 7.1 of RFC 9112: its reader and its writer. */
module Chunked {

  import opened Headers
  import opened Query
  import opened Sequences
  import opened Stream
  import opened Text
  import opened Wrappers

  const ULONG_MAX: nat := 0xFFFF_FFFF_FFFF_FFFF
  const RECV_BUFSIZ: nat := 4096
  const HEADER_MAX_LENGTH: nat := 8192

  // ---------------------------------------------------------------- C strings and numbers

  /** What a function sees that stops at a null character. */
  function CString(s: string): string {
    s[..IndexOf(s, '\0')]
  }

  /** How many hexadecimal digits a text starts with. */
  function HexRun(s: string): (k: nat)
    ensures k <= |s| && (k < |s| ==> HexDigit(s[k]).None?)
    ensures forall j :: 0 <= j < k ==> HexDigit(s[j]).Some?
  {
    if s == "" || HexDigit(s[0]).None? then 0 else 1 + HexRun(s[1..])
  }

  lemma {:induction false} DigitsAreNumber(s: string)
    requires forall j :: 0 <= j < |s| ==> HexDigit(s[j]).Some?
    ensures HexNumber(s).Some?
  {
    if s != "" {
      DigitsAreNumber(s[..|s| - 1]);
    }
  }

  /** `strtoul` in base 16, where `unsigned long` has 64 bits; none if there is no number. */
  function Strtoul(s: string): (n: Option<nat>)
    ensures n.Some? ==> n.value <= ULONG_MAX
  {
    var t := SkipSpace(s);
    var signed := t != "" && t[0] in "+-";
    var u := if signed then t[1..] else t;
    var v := if |u| > 2 && u[0] == '0' && u[1] in "xX" && HexDigit(u[2]).Some? then u[2..] else u;
    var k := HexRun(v);
    if k == 0 then None
    else
      DigitsAreNumber(v[..k]);
      var n := HexNumber(v[..k]).value;
      if n > ULONG_MAX then Some(ULONG_MAX)
      else if signed && t[0] == '-' && n > 0 then Some(ULONG_MAX + 1 - n)
      else Some(n)
  }

  // ---------------------------------------------------------------- the coding

  /** What a reader makes of some bytes: the content delivered, the trailer fields, and what follows. */
  datatype Body = Body(ok: bool, data: string, trailers: seq<Pair>, rest: string)

  function TrailerIn(line: string): seq<Pair> {
    if |line| < 2 then []
    else
      var header := ParsedHeader(line[..|line| - 2]);
      if header.None? then [] else [header.value]
  }

  function Trailers(s: string): (b: Body)
    ensures b.data == ""
    decreases |s|
  {
    if s == "" then Body(false, "", [], "")
    else
      var line, rest := s[..LineEnd(s)], s[LineEnd(s)..];
      if CString(line) == "\r\n" then Body(true, "", [], rest)
      else if |line| > HEADER_MAX_LENGTH then Body(false, "", [], rest)
      else
        var b := Trailers(rest);
        b.(trailers := TrailerIn(line) + b.trailers)
  }

  function Chunks(s: string): Body
    decreases |s|, 1
  {
    if s == "" then Body(false, "", [], "")
    else
      var line, rest := s[..LineEnd(s)], s[LineEnd(s)..];
      var size := Strtoul(CString(line));
      if size.None? || size.value == ULONG_MAX then Body(false, "", [], rest)
      else if size.value == 0 then Trailers(rest)
      else Chunk(rest, size.value)
  }

  /** A chunk's data, the end of its line, and the chunks behind it. */
  function Chunk(s: string, size: nat): Body
    decreases |s|, 0
  {
    if |s| <= size then Body(false, s, [], "")
    else
      var data, u := s[..size], s[size..];
      var line, rest := u[..LineEnd(u)], u[LineEnd(u)..];
      if CString(line) != "\r\n" then Body(false, data, [], rest)
      else
        var b := Chunks(rest);
        b.(data := data + b.data)
  }

  // ---------------------------------------------------------------- reading

  /** The callback that takes the content; it may refuse to go on unless it is willing. */
  class Receiver {
    var received: string
    const willing: bool

    constructor (willing: bool)
      ensures received == "" && this.willing == willing
    {
      received, this.willing := "", willing;
    }

    method Out(data: string) returns (more: bool)
      modifies this
      ensures received == old(received) + data && (willing ==> more)
    {
      received := received + data;
      more := *;
      if willing {
        more := true;
      }
    }
  }

  /** The callback that is told how many bytes of how many have been taken; it may order a stop unless it is willing. */
  class Progress {
    var reports: seq<(nat, nat)>
    const willing: bool

    constructor (willing: bool)
      ensures reports == [] && this.willing == willing
    {
      reports, this.willing := [], willing;
    }

    method Report(current: nat, total: nat) returns (more: bool)
      modifies this
      ensures reports == old(reports) + [(current, total)] && (willing ==> more)
    {
      reports := reports + [(current, total)];
      more := *;
      if willing {
        more := true;
      }
    }
  }

  /** The message that the trailer fields are added to, in the order of their arrival. */
  class Message {
    var headers: seq<Pair>

    constructor ()
      ensures headers == []
    {
      headers := [];
    }
  }

  /** `k` bytes have gone from the stream to the receiver. */
  ghost predicate Moved(before: string, after: string, had: string, has: string, k: nat) {
    k <= |before| && after == before[k..] && has == had + before[..k]
  }

  /** What has been reported of the first `r` of `len` bytes: ever more of them, and no more than there were. */
  ghost predicate Reported(news: seq<(nat, nat)>, r: nat, len: nat) {
    && (forall i :: 0 <= i < |news| ==> 0 < news[i].0 <= r && news[i].1 == len)
    && (forall i, j :: 0 <= i < j < |news| ==> news[i].0 < news[j].0)
  }

  /** The next bytes, but no more than that many: they are the receiver's. */
  method ReadSome(strm: SocketStream, buf: array<char>, left: nat, out: Receiver) returns (more: bool, n: nat)
    requires strm.Valid() && buf != strm.readBuff && buf.Length == RECV_BUFSIZ && left > 0
    modifies strm, strm.readBuff, buf, out
    ensures strm.Valid() && Moved(old(strm.Pending()), strm.Pending(), old(out.received), out.received, n)
    ensures n <= left && (more ==> n > 0)
    ensures strm.reliable && out.willing ==> (more <==> old(strm.Pending()) != "")
  {
    var k := strm.Read(buf, if left <= RECV_BUFSIZ then left else RECV_BUFSIZ);
    if k <= 0 {
      assert out.received + strm.Pending()[..0] == out.received;
      return false, 0;
    }
    n := k;
    more := out.Out(buf[..n]);
    assert buf[..][..n] == buf[..n];
  }

  /** Tells the progress callback, if there is one. */
  method Tell(progress: Progress?, current: nat, total: nat) returns (more: bool)
    modifies if progress == null then {} else {progress}
    ensures progress != null ==> progress.reports == old(progress.reports) + [(current, total)]
    ensures progress != null && progress.willing ==> more
    ensures progress == null ==> more
  {
    more := true;
    if progress != null {
      more := progress.Report(current, total);
    }
  }

  /** One round: some bytes, and a report of them. */
  method ReadAndTell(strm: SocketStream, buf: array<char>, done: nat, len: nat, progress: Progress?, out: Receiver)
    returns (more: bool, n: nat, ghost e: seq<(nat, nat)>)
    requires strm.Valid() && buf != strm.readBuff && buf.Length == RECV_BUFSIZ && done < len
    modifies strm, strm.readBuff, buf, out, if progress == null then {} else {progress}
    ensures strm.Valid() && Moved(old(strm.Pending()), strm.Pending(), old(out.received), out.received, n)
    ensures done + n <= len && (more ==> e != []) && (e == [] || (n > 0 && e == [(done + n, len)]))
    ensures progress != null ==> progress.reports == old(progress.reports) + e
    ensures strm.reliable && out.willing && (progress != null ==> progress.willing) ==>
              (more <==> old(strm.Pending()) != "")
  {
    more, n := ReadSome(strm, buf, len - done, out);
    e := [];
    if more {
      e := [(done + n, len)];
      more := Tell(progress, done + n, len);
    }
  }

  /**
   What has been reported so far: the bytes taken, the last report being of all of them if
   nobody has stopped the read.
   */
  ghost predicate ReportedAll(news: seq<(nat, nat)>, r: nat, len: nat, ok: bool) {
    Reported(news, r, len) && (ok && r > 0 ==> news != [] && news[|news| - 1] == (r, len))
  }

  lemma ReportedNext(news: seq<(nat, nat)>, done: nat, len: nat, n: nat, e: seq<(nat, nat)>, more: bool)
    requires ReportedAll(news, done, len, true) && (more ==> e != []) && (e == [] || (n > 0 && e == [(done + n, len)]))
    ensures ReportedAll(news + e, done + n, len, more)
  {
  }

  /** Reads that many bytes, telling the receiver and, if there is one, the progress callback; either may stop it. */
  method ReadContentWithLength(strm: SocketStream, len: nat, progress: Progress?, out: Receiver)
    returns (ok: bool, ghost r: nat, ghost news: seq<(nat, nat)>)
    requires strm.Valid()
    modifies strm, strm.readBuff, out, if progress == null then {} else {progress}
    ensures strm.Valid() && Moved(old(strm.Pending()), strm.Pending(), old(out.received), out.received, r)
    ensures r <= len && (ok ==> r == len) && ReportedAll(news, r, len, ok)
    ensures progress != null ==> progress.reports == old(progress.reports) + news
    ensures strm.reliable && out.willing && (progress != null ==> progress.willing) ==>
              (ok <==> len <= |old(strm.Pending())|) && (!ok ==> r == |old(strm.Pending())|)
  {
    var buf := new char[RECV_BUFSIZ];
    ghost var all, had, e := strm.Pending(), out.received, [];
    ok, r, news := true, 0, [];
    var done: nat := 0;
    assert all[0..] == all && had + all[..0] == had;
    while ok && done < len
      invariant strm.Valid() && fresh(buf) && buf != strm.readBuff && buf.Length == RECV_BUFSIZ
      invariant r == done <= len && Moved(all, strm.Pending(), had, out.received, r) && ReportedAll(news, r, len, ok)
      invariant progress != null ==> progress.reports == old(progress.reports) + news
      invariant strm.reliable && out.willing && (progress != null ==> progress.willing) && !ok ==> r == |all| < len
      decreases len - done, ok
    {
      var n;
      ok, n, e := ReadAndTell(strm, buf, done, len, progress, out);
      MovedOn(all, had, r, n);
      ReportedNext(news, done, len, n, e, ok);
      done, r, news := done + n, r + n, news + e;
    }
  }

  lemma MovedOn(all: string, had: string, r: nat, n: nat)
    requires r + n <= |all|
    ensures all[r..][n..] == all[r + n..] && had + all[..r] + all[r..][..n] == had + all[..r + n]
  {
    assert all[..r] + all[r..][..n] == all[..r + n];
  }

  /** The chunks read so far, and what the rest will be read as. */
  ghost predicate Continues(all: Body, done: string, b: Body) {
    all == b.(data := done + b.data)
  }

  /** The data read of a chunk; the rest of the bytes are the chunks behind it, if all went well. */
  ghost predicate ReadOne(before: string, size: nat, after: string, ok: bool, data: string, smooth: bool) {
    && data <= Chunk(before, size).data
    && (ok ==> Continues(Chunk(before, size), data, Chunks(after)))
    && (smooth && !ok ==> !Chunk(before, size).ok && data == Chunk(before, size).data)
  }

  lemma ContentFails(before: string, size: nat, after: string, r: nat, smooth: bool)
    requires r <= |before| && r <= size && (smooth ==> |before| < size && r == |before|)
    ensures ReadOne(before, size, after, false, before[..r], smooth)
  {
    if |before| > size {
      assert before[..r] <= before[..size];
    }
  }

  lemma LineFails(before: string, size: nat, after: string, smooth: bool)
    requires size <= |before| && (smooth ==> |before| == size)
    ensures ReadOne(before, size, after, false, before[..size], smooth)
  {
    if |before| == size {
      assert before[..size] == before;
    }
  }

  lemma LineRead(before: string, size: nat, after: string, line: string, smooth: bool)
    requires size < |before| && GotLine(before[size..], after, line)
    ensures ReadOne(before, size, after, CString(line) == "\r\n", before[..size], smooth)
  {
  }

  method ReadChunk(reader: StreamLineReader, size: nat, out: Receiver) returns (ok: bool, ghost data: string)
    requires reader.Valid() && size > 0
    modifies reader`fixedBufferUsedSize, reader`glowableBuffer, reader.fixedBuffer, reader.strm
    modifies reader.strm.readBuff, out
    ensures reader.Valid() && out.received == old(out.received) + data
    ensures ReadOne(old(reader.strm.Pending()), size, reader.strm.Pending(), ok, data,
                    reader.strm.reliable && out.willing)
    ensures ok ==> |reader.strm.Pending()| < |old(reader.strm.Pending())|
  {
    ghost var before, smooth, r := reader.strm.Pending(), reader.strm.reliable && out.willing, 0;
    ghost var news;
    ok, r, news := ReadContentWithLength(reader.strm, size, null, out);
    data := before[..r];
    if !ok {
      ContentFails(before, size, reader.strm.Pending(), r, smooth);
      return;
    }
    ghost var rest := reader.strm.Pending();
    ok := reader.GetLine();
    if !ok {
      LineFails(before, size, reader.strm.Pending(), smooth);
      return;
    }
    LineRead(before, size, reader.strm.Pending(), reader.Line(), smooth);
    ok := CString(reader.Line()) == "\r\n";
  }

  /** The fields behind the last chunk, up to an empty line. */
  method ReadTrailers(reader: StreamLineReader, x: Message) returns (ok: bool)
    requires reader.Valid()
    modifies reader`fixedBufferUsedSize, reader`glowableBuffer, reader.fixedBuffer, reader.strm, reader.strm.readBuff, x
    ensures reader.Valid() && (reader.strm.reliable ==> ok == Trailers(old(reader.strm.Pending())).ok)
    ensures ok ==> x.headers == old(x.headers) + Trailers(old(reader.strm.Pending())).trailers
    ensures ok ==> Trailers(old(reader.strm.Pending())).ok
    ensures ok ==> reader.strm.Pending() == Trailers(old(reader.strm.Pending())).rest
  {
    ghost var all, had, cur, got := Trailers(reader.strm.Pending()), x.headers, reader.strm.Pending(), [];
    assert had + [] == had && [] + all.trailers == all.trailers;
    ok := reader.GetLine();
    if !ok {
      return;
    }
    while CString(reader.Line()) != "\r\n"
      invariant reader.Valid() && GotLine(cur, reader.strm.Pending(), reader.Line())
      invariant all.ok == Trailers(cur).ok && all.trailers == got + Trailers(cur).trailers
      invariant all.rest == Trailers(cur).rest
      invariant x.headers == had + got
      decreases |reader.strm.Pending()|
    {
      var line := reader.Line();
      if |line| > HEADER_MAX_LENGTH {
        return false;
      }
      AddTrailer(line, x);
      Associative(got, TrailerIn(line), Trailers(reader.strm.Pending()).trailers);
      Associative(had, got, TrailerIn(line));
      got := got + TrailerIn(line);
      cur := reader.strm.Pending();
      ok := reader.GetLine();
      if !ok {
        return;
      }
    }
    assert got + [] == got;
    ok := true;
  }

  method AddTrailer(line: string, x: Message)
    modifies x
    ensures x.headers == old(x.headers) + TrailerIn(line)
  {
    if |line| >= 2 {
      var header := ParseHeader(line[..|line| - 2]);
      if header.Some? {
        x.headers := x.headers + [header.value];
        return;
      }
    }
    assert x.headers + [] == x.headers;
  }

  /** A whole body read: exactly what the bytes stand for, unless a receive fails or the receiver refuses. */
  ghost predicate ReadAll(all: Body, ok: bool, data: string, rest: string, smooth: bool) {
    && data <= all.data
    && (ok ==> all.ok && data == all.data && rest == all.rest)
    && (smooth ==> ok == all.ok && data == all.data)
  }

  /** The loop over the chunks: up to and with the line of the last one. */
  method ReadChunks(reader: StreamLineReader, out: Receiver, ghost all: Body, ghost first: string)
    returns (ok: bool, ghost data: string)
    requires reader.Valid() && GotLine(first, reader.strm.Pending(), reader.Line()) && all == Chunks(first)
    modifies reader`fixedBufferUsedSize, reader`glowableBuffer, reader.fixedBuffer, reader.strm
    modifies reader.strm.readBuff, out
    ensures reader.Valid() && out.received == old(out.received) + data && data <= all.data
    ensures ok ==> Continues(all, data, Trailers(reader.strm.Pending()))
    ensures reader.strm.reliable && out.willing && !ok ==> !all.ok && data == all.data
  {
    hide Strtoul, CString, Chunk, Trailers;
    ghost var cur, had := first, out.received;
    data := "";
    assert had + data == had && data + all.data == all.data;
    while true
      invariant reader.Valid() && GotLine(cur, reader.strm.Pending(), reader.Line())
      invariant Continues(all, data, Chunks(cur)) && out.received == had + data
      decreases |reader.strm.Pending()|
    {
      ghost var before := reader.strm.Pending();
      var size := Strtoul(CString(reader.Line()));
      if size.None? || size.value == ULONG_MAX {
        assert data + "" == data;
        return false, data;
      }
      if size.value == 0 {
        return true, data;
      }
      ghost var d;
      ok, d := ReadChunk(reader, size.value, out);
      Associative(had, data, d);
      ChunkRead(all, data, cur, before, size.value, reader.strm.Pending(), ok, d, reader.strm.reliable && out.willing);
      data := data + d;
      if !ok {
        return;
      }
      cur := reader.strm.Pending();
      ok := reader.GetLine();
      if !ok {
        assert data + "" == data;
        return;
      }
    }
  }

  lemma ChunkRead(all: Body, done: string, cur: string, before: string, size: nat, after: string, ok: bool, d: string,
                  smooth: bool)
    requires Continues(all, done, Chunks(cur)) && Chunks(cur) == Chunk(before, size)
    requires ReadOne(before, size, after, ok, d, smooth)
    ensures done + d <= all.data
    ensures ok ==> Continues(all, done + d, Chunks(after))
    ensures smooth && !ok ==> !all.ok && done + d == all.data
  {
    if ok {
      Associative(done, d, Chunks(after).data);
    }
  }

  method ReadContentChunked(strm: SocketStream, x: Message, out: Receiver) returns (ok: bool, ghost data: string)
    requires strm.Valid()
    modifies strm, strm.readBuff, x, out
    ensures strm.Valid() && out.received == old(out.received) + data
    ensures ReadAll(Chunks(old(strm.Pending())), ok, data, strm.Pending(), strm.reliable && out.willing)
    ensures ok ==> x.headers == old(x.headers) + Chunks(old(strm.Pending())).trailers
  {
    var buf := new char[16];
    var reader := new StreamLineReader(strm, buf);
    ghost var first := strm.Pending();
    ghost var all := Chunks(first);
    data := "";
    assert out.received + data == out.received;
    ok := reader.GetLine();
    if !ok {
      return;
    }
    ok, data := ReadChunks(reader, out, all, first);
    if !ok {
      return;
    }
    ghost var tail := strm.Pending();
    ok := ReadTrailers(reader, x);
    LastChunkRead(all, data, tail);
  }

  lemma LastChunkRead(all: Body, data: string, tail: string)
    requires Continues(all, data, Trailers(tail))
    ensures all == Trailers(tail).(data := data)
  {
    assert data + "" == data;
  }

  // ---------------------------------------------------------------- writing

  /** A stream that takes some of what it is given, or fails unless it is reliable. */
  class OutStream {
    var sent: string
    const reliable: bool

    constructor (reliable: bool)
      ensures sent == "" && this.reliable == reliable
    {
      sent, this.reliable := "", reliable;
    }

    method IsWritable() returns (b: bool)
      ensures reliable ==> b
    {
      b := *;
      if reliable {
        b := true;
      }
    }

    method Write(d: string) returns (length: int)
      requires d != ""
      modifies this
      ensures if length < 0 then !reliable && sent == old(sent)
              else 0 < length <= |d| && sent == old(sent) + d[..length]
    {
      var fails: bool := *;
      if fails && !reliable {
        return -1;
      }
      var k: nat :| 0 < k <= |d|;
      sent := sent + d[..k];
      length := k;
    }
  }

  /** All of `d`, in as many pieces as it takes. */
  method WriteData(strm: OutStream, d: string) returns (ok: bool)
    modifies strm
    ensures ok ==> strm.sent == old(strm.sent) + d
    ensures strm.reliable ==> ok
  {
    ghost var had := strm.sent;
    var offset := 0;
    assert had + d[..0] == had;
    while offset < |d|
      invariant offset <= |d| && strm.sent == had + d[..offset]
    {
      var length := strm.Write(d[offset..]);
      if length < 0 {
        return false;
      }
      assert had + d[..offset] + d[offset..][..length] == had + d[..offset + length];
      offset := offset + length;
    }
    assert d[..offset] == d;
    ok := true;
  }

  /** What the content provider does with the sink. */
  datatype Action = Write(d: string) | Done | DoneWithTrailer(trailer: seq<Pair>)

  function ChunkText(d: string): string {
    ToHex(|d|) + "\r\n" + d + "\r\n"
  }

  function FieldText(x: Pair): string {
    x.key + ": " + x.value + "\r\n"
  }

  function TrailerText(trailer: seq<Pair>): string {
    if trailer == [] then "" else FieldText(trailer[0]) + TrailerText(trailer[1..])
  }

  function LastChunkText(trailer: seq<Pair>): string {
    "0\r\n" + TrailerText(trailer) + "\r\n"
  }

  /** What an action puts on the wire: nothing for an empty write. */
  function ActionText(a: Action): string {
    match a
    case Write(d) => if d == "" then "" else ChunkText(d)
    case Done => LastChunkText([])
    case DoneWithTrailer(trailer) => LastChunkText(trailer)
  }

  function ActionsText(actions: seq<Action>): string {
    if actions == [] then "" else ActionText(actions[0]) + ActionsText(actions[1..])
  }

  /** The sink of the chunked writer, where the compressor passes everything through. */
  class ChunkedSink {
    const strm: OutStream
    var offset: nat
    var dataAvailable: bool
    var ok: bool

    constructor (strm: OutStream)
      ensures this.strm == strm && offset == 0 && dataAvailable && ok
    {
      this.strm, offset, dataAvailable, ok := strm, 0, true, true;
    }

    method Write(d: string)
      modifies this, strm
      ensures ok ==> old(ok) && strm.sent == old(strm.sent) + ActionText(Action.Write(d)) && dataAvailable == (d != "")
      ensures old(ok) && strm.reliable ==> ok
    {
      if ok {
        dataAvailable := |d| > 0;
        offset := offset + |d|;
        var payload := d;
        if payload != "" {
          var hex := FromIToHex(|payload|);
          var chunk := hex + "\r\n" + payload + "\r\n";
          var writable := strm.IsWritable();
          if !writable {
            ok := false;
          } else {
            var written := WriteData(strm, chunk);
            if !written {
              ok := false;
            }
          }
        } else {
          assert strm.sent + "" == strm.sent;
        }
      }
    }

    /** The payload that the compressor had left is empty. */
    method DoneWithTrailer(trailer: seq<Pair>)
      modifies this, strm
      ensures ok ==> old(ok) && strm.sent == old(strm.sent) + LastChunkText(trailer) && !dataAvailable
      ensures old(ok) && strm.reliable ==> ok
    {
      if !ok {
        return;
      }
      dataAvailable := false;
      ghost var had := strm.sent;
      var written := WriteData(strm, "0\r\n");
      if !written {
        ok := false;
      }
      WriteFields(trailer);
      written := WriteData(strm, "\r\n");
      if !written {
        ok := false;
      }
      assert had + "0\r\n" + TrailerText(trailer) + "\r\n" == had + LastChunkText(trailer);
    }

    method WriteFields(trailer: seq<Pair>)
      modifies this`ok, strm
      ensures ok ==> old(ok) && strm.sent == old(strm.sent) + TrailerText(trailer)
      ensures old(ok) && strm.reliable ==> ok
    {
      ghost var had := strm.sent;
      assert trailer[0..] == trailer;
      var i: nat := 0;
      while i < |trailer|
        invariant i <= |trailer| && (old(ok) && strm.reliable ==> ok)
        invariant ok ==> old(ok) && strm.sent + TrailerText(trailer[i..]) == had + TrailerText(trailer)
      {
        ghost var before := strm.sent;
        var fieldLine := trailer[i].key + ": " + trailer[i].value + "\r\n";
        var written := WriteData(strm, fieldLine);
        if !written {
          ok := false;
        }
        assert trailer[i..][1..] == trailer[i + 1..];
        Associative(before, fieldLine, TrailerText(trailer[i + 1..]));
        i := i + 1;
      }
      assert strm.sent + "" == strm.sent;
    }
  }

  /** One call of the content provider: what it does with the sink, and whether it wants to go on. */
  datatype Call = Call(actions: seq<Action>, proceed: bool)

  /** Whether more data is to come, after some actions. */
  function Available(actions: seq<Action>, before: bool): bool {
    if actions == [] then before
    else
      var last := actions[|actions| - 1];
      last.Write? && last.d != ""
  }

  /** The actions of the calls that are made: none after one that leaves no more data to come. */
  function Executed(calls: seq<Call>): seq<Action> {
    if calls == [] then []
    else calls[0].actions + if calls[0].proceed && Available(calls[0].actions, true) then Executed(calls[1..]) else []
  }

  datatype Outcome = Success | WriteError | Canceled

  function ResultOf(calls: seq<Call>): Outcome {
    if calls == [] then Success
    else if !calls[0].proceed then Canceled
    else if Available(calls[0].actions, true) then ResultOf(calls[1..])
    else Success
  }

  lemma {:induction false} TextOfBoth(a: seq<Action>, b: seq<Action>)
    ensures ActionsText(a + b) == ActionsText(a) + ActionsText(b)
  {
    if a == [] {
      assert a + b == b;
    } else {
      assert (a + b)[1..] == a[1..] + b;
      TextOfBoth(a[1..], b);
      Associative(ActionText(a[0]), ActionsText(a[1..]), ActionsText(b));
    }
  }

  /** The provider at work. */
  method Perform(sink: ChunkedSink, actions: seq<Action>)
    modifies sink, sink.strm
    ensures sink.ok ==> old(sink.ok) && sink.strm.sent == old(sink.strm.sent) + ActionsText(actions)
    ensures sink.ok ==> sink.dataAvailable == Available(actions, old(sink.dataAvailable))
    ensures old(sink.ok) && sink.strm.reliable ==> sink.ok
  {
    ghost var had := sink.strm.sent;
    assert had + "" == had;
    for i := 0 to |actions|
      invariant sink.ok ==> old(sink.ok) && sink.strm.sent == had + ActionsText(actions[..i])
      invariant sink.ok ==> sink.dataAvailable == Available(actions[..i], old(sink.dataAvailable))
      invariant old(sink.ok) && sink.strm.reliable ==> sink.ok
    {
      match actions[i] {
        case Write(d) => sink.Write(d);
        case Done => sink.DoneWithTrailer([]);
        case DoneWithTrailer(trailer) => sink.DoneWithTrailer(trailer);
      }
      OneMoreAction(actions, i, had);
    }
    assert actions[..|actions|] == actions;
  }

  lemma OneMoreAction(actions: seq<Action>, i: nat, had: string)
    requires i < |actions|
    ensures had + ActionsText(actions[..i]) + ActionText(actions[i]) == had + ActionsText(actions[..i + 1])
    ensures Available(actions[..i + 1], true) == Available(actions[..i + 1], false) ==
              (actions[i].Write? && actions[i].d != "")
  {
    var a := actions[i];
    assert actions[..i + 1] == actions[..i] + [a];
    TextOfBoth(actions[..i], [a]);
    OneAction(a);
    Associative(had, ActionsText(actions[..i]), ActionText(a));
  }

  /** Calls the provider while there is more to come; the end of the list is the order to shut down. */
  method WriteContentChunked(strm: OutStream, provider: seq<Call>) returns (result: Outcome)
    modifies strm
    ensures result.Success? ==> ResultOf(provider).Success?
    ensures strm.reliable ==> result == ResultOf(provider)
    ensures strm.reliable || result.Success? ==> strm.sent == old(strm.sent) + ActionsText(Executed(provider))
  {
    var sink := new ChunkedSink(strm);
    ghost var had, done := strm.sent, [];
    ghost var all := Executed(provider);
    assert provider[0..] == provider && had + "" == had && [] + all == all;
    var i: nat := 0;
    while sink.dataAvailable && i < |provider|
      invariant fresh(sink) && sink.strm == strm && i <= |provider| && sink.ok
      invariant strm.sent == had + ActionsText(done)
      invariant if sink.dataAvailable then done + Executed(provider[i..]) == all else done == all
      invariant (if sink.dataAvailable then ResultOf(provider[i..]) else Success) == ResultOf(provider)
    {
      var writable := strm.IsWritable();
      if !writable {
        return WriteError;
      }
      NextCall(provider, i, done, all);
      TextOfBoth(done, provider[i].actions);
      Associative(had, ActionsText(done), ActionsText(provider[i].actions));
      Perform(sink, provider[i].actions);
      if !provider[i].proceed {
        return Canceled;
      } else if !sink.ok {
        return WriteError;
      }
      done := done + provider[i].actions;
      i := i + 1;
    }
    assert done + [] == done;
    result := Success;
  }

  lemma NextCall(provider: seq<Call>, i: nat, done: seq<Action>, all: seq<Action>)
    requires i < |provider| && done + Executed(provider[i..]) == all
    ensures var c, rest := provider[i], provider[i + 1..];
            && (if c.proceed && Available(c.actions, true) then done + c.actions + Executed(rest) == all
                else done + c.actions == all)
            && ResultOf(provider[i..]) ==
               if !c.proceed then Canceled else if Available(c.actions, true) then ResultOf(rest) else Success
  {
    var c := provider[i];
    assert provider[i..][1..] == provider[i + 1..];
    Associative(done, c.actions, Executed(provider[i + 1..]));
    assert c.actions + [] == c.actions;
  }

  function Flatten(calls: seq<Call>): seq<Action> {
    if calls == [] then [] else calls[0].actions + Flatten(calls[1..])
  }

  /** Writes, and then something that is no write. */
  ghost predicate EndsOnce(actions: seq<Action>) {
    && actions != [] && !actions[|actions| - 1].Write?
    && forall i :: 0 <= i < |actions| - 1 ==> actions[i].Write?
  }

  /** The last thing a call does is to write nothing. */
  predicate EndsEmpty(call: Call) {
    call.actions != [] && call.actions[|call.actions| - 1] == Action.Write("")
  }

  ghost predicate NoneEndsEmpty(calls: seq<Call>) {
    forall i :: 0 <= i < |calls| ==> !EndsEmpty(calls[i])
  }

  lemma {:induction false} NothingMore(calls: seq<Call>)
    requires Flatten(calls) == [] && forall i :: 0 <= i < |calls| ==> calls[i].proceed
    ensures Executed(calls) == [] && ResultOf(calls) == Success && NoneEndsEmpty(calls)
  {
    if calls != [] {
      NothingMore(calls[1..]);
    }
  }

  lemma NoneEndsEmptyCons(calls: seq<Call>)
    requires calls != []
    ensures NoneEndsEmpty(calls) <==> !EndsEmpty(calls[0]) && NoneEndsEmpty(calls[1..])
  {
    if !EndsEmpty(calls[0]) && NoneEndsEmpty(calls[1..]) {
      forall i | 0 <= i < |calls| ensures !EndsEmpty(calls[i]) {
        if i > 0 {
          assert calls[1..][i - 1] == calls[i];
        }
      }
    } else if EndsEmpty(calls[0]) {
    } else {
      var j :| 0 <= j < |calls[1..]| && EndsEmpty(calls[1..][j]);
      assert calls[j + 1] == calls[1..][j];
    }
  }

  lemma EndsInFirst(first: Call, more: seq<Call>)
    requires EndsOnce(first.actions + Flatten(more)) && Flatten(more) == []
    requires forall i :: 0 <= i < |more| ==> more[i].proceed
    ensures first.actions + Flatten(more) == first.actions && !EndsEmpty(first) && !Available(first.actions, true)
    ensures NoneEndsEmpty(more)
  {
    NothingMore(more);
    assert first.actions + [] == first.actions;
  }

  lemma FirstOfFlat(first: seq<Action>, rest: seq<Action>)
    requires EndsOnce(first + rest) && rest != []
    ensures EndsOnce(rest) && (first != [] ==> first[|first| - 1].Write?)
  {
    var all := first + rest;
    assert forall i :: 0 <= i < |rest| ==> rest[i] == all[|first| + i];
    assert forall i :: 0 <= i < |first| ==> first[i] == all[i];
  }

  /** However the actions are spread over calls, all of them are carried out unless a call ends with an empty write. */
  lemma {:induction false} AllAreExecuted(calls: seq<Call>)
    requires EndsOnce(Flatten(calls)) && forall i :: 0 <= i < |calls| ==> calls[i].proceed
    ensures ResultOf(calls) == Success && (NoneEndsEmpty(calls) ==> Executed(calls) == Flatten(calls))
  {
    var first, more := calls[0], calls[1..];
    NoneEndsEmptyCons(calls);
    if Flatten(more) == [] {
      EndsInFirst(first, more);
      assert first.actions + [] == first.actions;
    } else {
      FirstOfFlat(first.actions, Flatten(more));
      AllAreExecuted(more);
    }
  }

  /** The first call that does is the last one made: the end is not carried out. */
  lemma {:induction false} CutShort(calls: seq<Call>) returns (m: nat)
    requires EndsOnce(Flatten(calls)) && !NoneEndsEmpty(calls) && forall i :: 0 <= i < |calls| ==> calls[i].proceed
    ensures m < |Flatten(calls)| && Executed(calls) == Flatten(calls)[..m]
  {
    var first, more := calls[0], calls[1..];
    NoneEndsEmptyCons(calls);
    if Flatten(more) == [] {
      EndsInFirst(first, more);
      assert false;
    } else if EndsEmpty(first) {
      m := |first.actions|;
      assert first.actions + [] == first.actions == Flatten(calls)[..m];
    } else {
      FirstOfFlat(first.actions, Flatten(more));
      m := CutShort(more);
      m := CutBehind(first.actions, Flatten(more), m);
    }
  }

  lemma CutBehind(first: seq<Action>, rest: seq<Action>, n: nat) returns (m: nat)
    requires n < |rest|
    ensures m < |first + rest| && first + rest[..n] == (first + rest)[..m]
  {
    m := |first| + n;
  }

  // ---------------------------------------------------------------- the round trip

  /** A line that has been printed is read as one. */
  lemma PrintedLine(text: string, rest: string)
    requires '\n' !in text
    ensures var s := text + "\r\n" + rest;
            LineEnd(s) == |text| + 2 && s[..|text| + 2] == text + "\r\n" && s[|text| + 2..] == rest
  {
    var s, i := text + "\r\n" + rest, |text| + 2;
    assert s[..i - 1] == text + "\r";
    LineEndsAt(s, i);
  }

  lemma NoNull(s: string)
    requires '\0' !in s
    ensures CString(s) == s
  {
    assert IndexOf(s, '\0') == |s|;
  }

  /** The number of a chunk's line is the number that was printed. */
  lemma SizeOfLine(n: nat)
    requires n < ULONG_MAX
    ensures Strtoul(CString(ToHex(n) + "\r\n")) == Some(n) && '\n' !in ToHex(n)
  {
    var hex, s := ToHex(n), ToHex(n) + "\r\n";
    HexRoundTrip(n);
    HexChars(hex);
    assert '\0' !in s;
    NoNull(s);
    assert s[..|hex|] == hex;
    StrtoulOfHex(s, |hex|, n);
  }

  lemma HexChars(hex: string)
    requires IsHexText(hex)
    ensures (forall i :: 0 <= i < |hex| ==> IsHexChar(hex[i])) && '\n' !in hex && '\0' !in hex
  {
    forall i | 0 <= i < |hex| ensures IsHexChar(hex[i]) {
      HexTextDigit(hex[i]);
    }
  }

  predicate IsHexChar(c: char) {
    HexDigit(c).Some? && c != '\0' && c != '\n' && !IsSpace(c) && c !in "+-xX"
  }

  lemma StrtoulOfHex(s: string, k: nat, n: nat)
    requires 0 < k < |s| && HexDigit(s[k]).None? && s[k] !in "xX" && (forall i :: 0 <= i < k ==> IsHexChar(s[i]))
    requires HexNumber(s[..k]) == Some(n) && n < ULONG_MAX
    ensures Strtoul(s) == Some(n)
  {
    assert IsHexChar(s[0]);
    assert SkipSpace(s) == s;
    HexRunIs(s, k);
    assert k > 1 ==> IsHexChar(s[1]);
  }

  lemma HexTextDigit(c: char)
    requires c in HEX_DIGITS
    ensures IsHexChar(c)
  {
  }

  lemma {:induction false} HexRunIs(s: string, k: nat)
    requires k < |s| && HexDigit(s[k]).None? && forall i :: 0 <= i < k ==> HexDigit(s[i]).Some?
    ensures HexRun(s) == k
  {
    if k > 0 {
      HexRunIs(s[1..], k - 1);
    }
  }

  /** Behind the line of a size comes a chunk of that size, or the trailer. */
  lemma SizedLine(n: nat, s: string, t: string)
    requires n < ULONG_MAX && s == ToHex(n) + "\r\n" + t
    ensures Chunks(s) == if n == 0 then Trailers(t) else Chunk(t, n)
  {
    SizeOfLine(n);
    PrintedLine(ToHex(n), t);
  }

  lemma NullBehind(hex: string, s: string)
    requires |hex| < |s| && s[..|hex|] == hex && '\0' !in hex && s[|hex|] == ';'
    ensures |hex| < |CString(s)| && CString(s)[..|hex|] == hex && CString(s)[|hex|] == ';'
  {
    assert forall j :: 0 <= j < |hex| ==> s[j] == hex[j];
  }

  /** The number of a line with an extension behind the size is the size. */
  lemma SizeOfExtended(n: nat, ext: string)
    requires n < ULONG_MAX
    ensures Strtoul(CString(ToHex(n) + ";" + ext + "\r\n")) == Some(n)
  {
    hide Strtoul, CString, ToHex, HexNumber, HexDigit, IsHexChar;
    var hex, s := ToHex(n), ToHex(n) + ";" + ext + "\r\n";
    HexRoundTrip(n);
    HexChars(hex);
    assert s[..|hex|] == hex && s[|hex|] == ';';
    NullBehind(hex, s);
    NoHexSemicolon();
    var t := CString(s);
    assert forall i :: 0 <= i < |hex| ==> t[i] == t[..|hex|][i];
    StrtoulOfHex(t, |hex|, n);
  }

  lemma NoHexSemicolon()
    ensures HexDigit(';').None?
  {
  }

  /** A chunk's line with an extension is read as one without; section 7.1.1 of RFC 9112. */
  lemma ExtensionIsIgnored(n: nat, ext: string, t: string)
    requires n < ULONG_MAX && '\n' !in ext
    ensures Chunks(ToHex(n) + ";" + ext + "\r\n" + t) == Chunks(ToHex(n) + "\r\n" + t)
  {
    hide Strtoul, CString, ToHex, Trailers, Chunk;
    var line := ToHex(n) + ";" + ext;
    HexRoundTrip(n);
    HexChars(ToHex(n));
    SizeOfExtended(n, ext);
    PrintedLine(line, t);
    SizedLine(n, ToHex(n) + "\r\n" + t, t);
  }

  lemma EndedChunk(d: string, t: string, rest: string)
    requires t == d + ("\r\n" + rest)
    ensures Continues(Chunk(t, |d|), d, Chunks(rest))
  {
    var u := "\r\n" + rest;
    assert t[..|d|] == d && t[|d|..] == u;
    assert u == "" + "\r\n" + rest && "" + "\r\n" == "\r\n";
    PrintedLine("", rest);
    NoNull("\r\n");
  }

  /** A printed chunk is read as its data, and reading goes on behind it. */
  lemma ChunkRoundTrip(d: string, rest: string)
    requires 0 < |d| < ULONG_MAX
    ensures Continues(Chunks(ChunkText(d) + rest), d, Chunks(rest))
  {
    var t := d + ("\r\n" + rest);
    Regroup(ToHex(|d|) + "\r\n", d, "\r\n", rest);
    SizedLine(|d|, ChunkText(d) + rest, t);
    EndedChunk(d, t, rest);
  }

  lemma Regroup(a: string, b: string, c: string, d: string)
    ensures a + b + c + d == a + (b + (c + d))
  {
  }

  function Writes(ds: seq<string>): seq<Action> {
    if ds == [] then [] else [Action.Write(ds[0])] + Writes(ds[1..])
  }

  lemma {:induction false} WritesRoundTrip(ds: seq<string>, rest: string)
    requires forall i :: 0 <= i < |ds| ==> |ds[i]| < ULONG_MAX
    ensures Continues(Chunks(ActionsText(Writes(ds)) + rest), Concat(ds), Chunks(rest))
  {
    if ds == [] {
      assert "" + rest == rest && "" + Chunks(rest).data == Chunks(rest).data;
    } else {
      var d, more := ds[0], ActionsText(Writes(ds[1..]));
      WritesRoundTrip(ds[1..], rest);
      WriteRoundTrip(d, more + rest);
      assert Writes(ds)[1..] == Writes(ds[1..]);
      Associative(ActionText(Action.Write(d)), more, rest);
      ContinuesOn(Chunks(ActionText(Action.Write(d)) + (more + rest)), d, Chunks(more + rest), Concat(ds[1..]),
                  Chunks(rest));
    }
  }

  lemma WriteRoundTrip(d: string, rest: string)
    requires |d| < ULONG_MAX
    ensures Continues(Chunks(ActionText(Action.Write(d)) + rest), d, Chunks(rest))
  {
    if d == "" {
      assert "" + rest == rest && "" + Chunks(rest).data == Chunks(rest).data;
    } else {
      ChunkRoundTrip(d, rest);
    }
  }

  lemma ContinuesOn(a: Body, d: string, b: Body, e: string, c: Body)
    requires Continues(a, d, b) && Continues(b, e, c)
    ensures Continues(a, d + e, c)
  {
    Associative(d, e, c.data);
  }

  /** A field that needs no encoding and fits in a line. */
  ghost predicate IsTrailerField(x: Pair) {
    && x.key != "" && ':' !in x.key && '\r' !in x.key && '\n' !in x.key
    && IsTrimmed(x.value) && '\n' !in x.value && '%' !in x.value && |FieldText(x)| <= HEADER_MAX_LENGTH
  }

  ghost predicate AreTrailerFields(trailer: seq<Pair>) {
    forall i :: 0 <= i < |trailer| ==> IsTrailerField(trailer[i])
  }

  lemma FieldRoundTrip(x: Pair, rest: string)
    requires IsTrailerField(x)
    ensures Trailers(FieldText(x) + rest) == Trailers(rest).(trailers := [x] + Trailers(rest).trailers)
  {
    var text := x.key + ": " + x.value;
    PrintedLine(text, rest);
    var line := text + "\r\n";
    assert line[..|line| - 2] == text && FieldText(x) == line;
    assert line[0] == x.key[0] && x.key[0] in x.key;
    assert CString(line) == "" || CString(line)[0] == line[0];
    ParsedOfPrinted(x.key, x.value);
    DecodingKeeps(x.value, false);
  }

  lemma EmptyLine(rest: string)
    ensures Trailers("\r\n" + rest) == Body(true, "", [], rest)
  {
    assert "\r\n" + rest == "" + "\r\n" + rest && "" + "\r\n" == "\r\n";
    PrintedLine("", rest);
    NoNull("\r\n");
  }

  lemma FieldBefore(x: Pair, more: string, tail: seq<Pair>, rest: string, trailer: seq<Pair>)
    requires IsTrailerField(x) && Trailers(more) == Body(true, "", tail, rest) && trailer != [] && x == trailer[0]
    requires tail == trailer[1..]
    ensures Trailers(FieldText(x) + more) == Body(true, "", trailer, rest)
  {
    FieldRoundTrip(x, more);
    assert trailer == [x] + tail;
  }

  lemma {:induction false} LastChunkRoundTrip(trailer: seq<Pair>, end: string, rest: string)
    requires AreTrailerFields(trailer) && end == "\r\n" + rest
    ensures Trailers(TrailerText(trailer) + end) == Body(true, "", trailer, rest)
  {
    if trailer == [] {
      EmptyLine(rest);
      assert "" + end == end;
    } else {
      var x, more := trailer[0], TrailerText(trailer[1..]) + end;
      LastChunkRoundTrip(trailer[1..], end, rest);
      FieldBefore(x, more, trailer[1..], rest, trailer);
      Associative(FieldText(x), TrailerText(trailer[1..]), end);
    }
  }

  lemma LastChunkIsRead(trailer: seq<Pair>, rest: string)
    requires AreTrailerFields(trailer)
    ensures Chunks(LastChunkText(trailer) + rest) == Body(true, "", trailer, rest)
  {
    var t := TrailerText(trailer) + ("\r\n" + rest);
    LastChunkRoundTrip(trailer, "\r\n" + rest, rest);
    Regroup("0\r\n", TrailerText(trailer), "\r\n", rest);
    assert ToHex(0) + "\r\n" == "0\r\n";
    SizedLine(0, LastChunkText(trailer) + rest, t);
  }

  /**
   Whatever is written comes back: any writes and then one end, with or without
   trailer fields, are read as the concatenation of the writes and those fields.
   */
  lemma ChunkedRoundTrip(ds: seq<string>, last: Action, trailer: seq<Pair>, rest: string)
    requires (forall i :: 0 <= i < |ds| ==> |ds[i]| < ULONG_MAX) && AreTrailerFields(trailer)
    requires last == DoneWithTrailer(trailer) || (last == Done && trailer == [])
    ensures Chunks(ActionsText(Writes(ds) + [last]) + rest) == Body(true, Concat(ds), trailer, rest)
  {
    var text := LastChunkText(trailer);
    TextOfBoth(Writes(ds), [last]);
    OneAction(last);
    Associative(ActionsText(Writes(ds)), text, rest);
    WritesRoundTrip(ds, text + rest);
    LastChunkIsRead(trailer, rest);
    assert Concat(ds) + "" == Concat(ds);
  }

  /**
   Exactly when what a provider writes comes back: for any writes, empty ones too, and
   one end, in any number of calls, the writer reports success. What it has sent is
   read as the writes and the trailer fields if and only if no call ends with an empty
   write. A call that does stops the writer, and the body is never ended.
   */
  lemma ProviderRoundTrip(calls: seq<Call>, ds: seq<string>, last: Action, trailer: seq<Pair>, rest: string)
    returns (m: nat)
    requires Flatten(calls) == Writes(ds) + [last] && forall i :: 0 <= i < |calls| ==> calls[i].proceed
    requires (forall i :: 0 <= i < |ds| ==> |ds[i]| < ULONG_MAX) && AreTrailerFields(trailer)
    requires last == DoneWithTrailer(trailer) || (last == Done && trailer == [])
    ensures ResultOf(calls) == Success && (Chunks(ActionsText(Executed(calls))).ok <==> NoneEndsEmpty(calls))
    ensures NoneEndsEmpty(calls) ==>
              Chunks(ActionsText(Executed(calls)) + rest) == Body(true, Concat(ds), trailer, rest)
    ensures !NoneEndsEmpty(calls) ==>
              m <= |ds| && Chunks(ActionsText(Executed(calls))) == Body(false, Concat(ds[..m]), [], "")
  {
    WritesAre(ds);
    AllAreExecuted(calls);
    m := 0;
    if NoneEndsEmpty(calls) {
      ChunkedRoundTrip(ds, last, trailer, rest);
      ChunkedRoundTrip(ds, last, trailer, "");
      assert ActionsText(Executed(calls)) + "" == ActionsText(Executed(calls));
    } else {
      m := CutShort(calls);
      FirstWrites(ds, last, m);
      UnendedBodyFails(ds[..m]);
    }
  }

  lemma FirstWrites(ds: seq<string>, last: Action, m: nat)
    requires m <= |ds|
    ensures |Writes(ds)| == |ds| && (Writes(ds) + [last])[..m] == Writes(ds[..m])
  {
    WritesAre(ds);
    WritesAre(ds[..m]);
  }

  lemma {:induction false} WritesAre(ds: seq<string>)
    ensures |Writes(ds)| == |ds| && forall i :: 0 <= i < |ds| ==> Writes(ds)[i] == Action.Write(ds[i])
  {
    if ds != [] {
      WritesAre(ds[1..]);
    }
  }

  lemma OneAction(a: Action)
    ensures ActionsText([a]) == ActionText(a)
  {
    assert [a][1..] == [] && ActionText(a) + "" == ActionText(a);
  }

  /** A body that is never ended is not read as one. */
  lemma UnendedBodyFails(ds: seq<string>)
    requires forall i :: 0 <= i < |ds| ==> |ds[i]| < ULONG_MAX
    ensures Chunks(ActionsText(Writes(ds))) == Body(false, Concat(ds), [], "")
  {
    WritesRoundTrip(ds, "");
    assert ActionsText(Writes(ds)) + "" == ActionsText(Writes(ds));
    assert Concat(ds) + "" == Concat(ds);
  }

  lemma TwoWrites(c: string, d: string)
    ensures Writes([c, d]) == [Action.Write(c), Action.Write(d)]
  {
    WritesAre([c, d]);
  }

  /** An empty write is harmless in the middle of a call. */
  lemma EmptyWriteInside(calls: seq<Call>)
    requires calls == [Call([Action.Write(""), Action.Write("x"), Done], true)]
    ensures Chunks(ActionsText(Executed(calls))).ok
  {
    FlattenOne(calls[0], calls);
    TwoWrites("", "x");
    var m := ProviderRoundTrip(calls, ["", "x"], Done, [], "");
  }

  /** At the end of one it stops the writer. */
  lemma EmptyWriteAtEnd(calls: seq<Call>)
    requires calls == [Call([Action.Write("x"), Action.Write("")], true), Call([Done], true)]
    ensures !Chunks(ActionsText(Executed(calls))).ok
  {
    assert EndsEmpty(calls[0]);
    FlattenOne(calls[1], calls[1..]);
    TwoWrites("x", "");
    var m := ProviderRoundTrip(calls, ["x", ""], Done, [], "");
  }

  lemma FlattenOne(call: Call, calls: seq<Call>)
    requires calls == [call]
    ensures Flatten(calls) == call.actions
  {
    assert calls[1..] == [] && call.actions + [] == call.actions;
  }

  /** A call that the writer goes on after: the last thing it does, if anything, is to write something. */
  ghost predicate GoesOn(call: Call) {
    var n := |call.actions|;
    call.proceed && (n > 0 ==> call.actions[n - 1].Write? && call.actions[n - 1].d != "")
  }

  ghost predicate GoOn(calls: seq<Call>) {
    forall i :: 0 <= i < |calls| ==> GoesOn(calls[i])
  }

  lemma OneGoesOn(call: Call, rest: seq<Call>)
    requires GoesOn(call)
    ensures Executed([call] + rest) == call.actions + Executed(rest) && ResultOf([call] + rest) == ResultOf(rest)
  {
    assert ([call] + rest)[1..] == rest;
  }

  /** They are all made, with everything that they do, and the outcome is that of what follows. */
  lemma {:induction false} GoneOn(calls: seq<Call>, more: seq<Call>)
    requires GoOn(calls)
    ensures Executed(calls + more) == Flatten(calls) + Executed(more) && ResultOf(calls + more) == ResultOf(more)
    decreases |calls|
  {
    hide GoesOn, Executed, ResultOf;
    if calls == [] {
      assert calls + more == more;
      assert [] + Executed(more) == Executed(more);
    } else {
      var first, rest := calls[0], calls[1..];
      assert forall i :: 0 <= i < |rest| ==> rest[i] == calls[i + 1];
      GoneOn(rest, more);
      OneGoesOn(first, rest + more);
      assert calls + more == [first] + (rest + more);
      Associative(first.actions, Flatten(rest), Executed(more));
    }
  }

  /** A provider that refuses ends the body there, which is reported; what it has written is sent. */
  lemma RefusalCancels(before: seq<Call>, call: Call, more: seq<Call>)
    requires GoOn(before) && !call.proceed
    ensures ResultOf(before + ([call] + more)) == Canceled
    ensures Executed(before + ([call] + more)) == Flatten(before) + call.actions
  {
    GoneOn(before, [call] + more);
  }

  /** An order to shut down is reported as success, although the body is never ended. */
  lemma ShutdownLosesEnd(calls: seq<Call>, ds: seq<string>)
    requires GoOn(calls) && Flatten(calls) == Writes(ds) && forall i :: 0 <= i < |ds| ==> |ds[i]| < ULONG_MAX
    ensures ResultOf(calls) == Success
    ensures Chunks(ActionsText(Executed(calls))) == Body(false, Concat(ds), [], "")
  {
    GoneOn(calls, []);
    assert calls + [] == calls && Flatten(calls) + [] == Flatten(calls);
    UnendedBodyFails(ds);
  }

  // ---------------------------------------------------------------- other senders' bodies

  ghost predicate AreSpaces(s: string) {
    forall i :: 0 <= i < |s| ==> IsSpace(s[i])
  }

  lemma {:induction false} SkipSpaces(blanks: string, t: string)
    requires AreSpaces(blanks) && t != "" && !IsSpace(t[0])
    ensures SkipSpace(blanks + t) == t
    decreases |blanks|
  {
    if blanks == "" {
      assert blanks + t == t;
    } else {
      assert (blanks + t)[1..] == blanks[1..] + t;
      SkipSpaces(blanks[1..], t);
    }
  }

  /** Digits and what ends them. */
  ghost predicate IsNumber(hex: string, end: string) {
    && hex != "" && (forall i :: 0 <= i < |hex| ==> IsHexChar(hex[i]))
    && end != "" && HexDigit(end[0]).None? && end[0] !in "xX"
  }

  lemma PlainRun(hex: string, end: string, v: string)
    requires IsNumber(hex, end) && v == hex + end
    ensures HexRun(v) == |hex| && v[..|hex|] == hex && v[0] == hex[0] && !(|v| > 2 && v[0] == '0' && v[1] in "xX")
  {
    assert v[|hex|] == end[0];
    HexRunIs(v, |hex|);
    assert IsHexChar(hex[0]) && (|hex| > 1 ==> IsHexChar(hex[1]));
  }

  lemma Prefixed(prefix: string, hex: string, end: string, u: string, v: string)
    requires IsNumber(hex, end) && v == hex + end && u == prefix + v && prefix in ["", "0x", "0X"]
    ensures (if |u| > 2 && u[0] == '0' && u[1] in "xX" && HexDigit(u[2]).Some? then u[2..] else u) == v
    ensures u != "" && u[0] !in "+-" && !IsSpace(u[0])
  {
    PlainRun(hex, end, v);
    assert IsHexChar(hex[0]);
    if prefix == "" {
      assert u == v;
    } else {
      assert u[2..] == v && u[2] == hex[0];
    }
  }

  /** What is read when the parts of the text are known. */
  lemma ReadParts(s: string, t: string, u: string, v: string, k: nat, n: nat)
    requires t == SkipSpace(s) && u == (if t != "" && t[0] in "+-" then t[1..] else t)
    requires v == if |u| > 2 && u[0] == '0' && u[1] in "xX" && HexDigit(u[2]).Some? then u[2..] else u
    requires 0 < k == HexRun(v) && HexNumber(v[..k]) == Some(n)
    ensures Strtoul(s) == Some(if n > ULONG_MAX then ULONG_MAX
                               else if t != "" && t[0] == '-' && n > 0 then ULONG_MAX + 1 - n
                               else n)
  {
    hide HexNumber, HexDigit, HexRun, SkipSpace;
  }

  /**
   White space, a sign and a prefix in front of a size, digits in either case: all are
   read; a negative size wraps around, and one that is too large is the largest number.
   */
  lemma SizeSpelled(blanks: string, sign: string, prefix: string, hex: string, end: string, n: nat)
    requires AreSpaces(blanks) && sign in ["", "+", "-"] && prefix in ["", "0x", "0X"]
    requires IsNumber(hex, end) && HexNumber(hex) == Some(n)
    ensures Strtoul(blanks + (sign + (prefix + (hex + end)))) ==
            Some(if n > ULONG_MAX then ULONG_MAX else if sign == "-" && n > 0 then ULONG_MAX + 1 - n else n)
  {
    hide Strtoul, HexNumber, HexDigit, HexRun, SkipSpace, IsNumber, IsSpace, AreSpaces;
    var v := hex + end;
    var u := prefix + v;
    var t := sign + u;
    Prefixed(prefix, hex, end, u, v);
    PlainRun(hex, end, v);
    HasDigits(hex, end);
    SignFirst(sign, u, t);
    SkipSpaces(blanks, t);
    ReadParts(blanks + t, t, u, v, |hex|, n);
  }

  lemma HasDigits(hex: string, end: string)
    requires IsNumber(hex, end)
    ensures hex != ""
  {
  }

  lemma SignFirst(sign: string, u: string, t: string)
    requires sign in ["", "+", "-"] && u != "" && u[0] !in "+-" && !IsSpace(u[0]) && t == sign + u
    ensures t != "" && !IsSpace(t[0]) && (t[0] in "+-" <==> sign != "") && (t[0] == '-' <==> sign == "-")
    ensures (if sign != "" then t[1..] else t) == u
  {
    if sign == "" {
      assert t == u;
    }
  }

  lemma NoNumber(s: string)
    requires s == "" || (HexDigit(s[0]).None? && !IsSpace(s[0]) && s[0] !in "+-")
    ensures Strtoul(s).None?
  {
    hide HexNumber;
    assert HexDigit('0').Some?;
    hide HexDigit;
    assert SkipSpace(s) == s;
  }

  /** A line that starts with no number ends the body, and nothing of it is delivered. */
  lemma NoSizeFails(text: string, rest: string)
    requires text != "" && '\n' !in text && HexDigit(text[0]).None? && !IsSpace(text[0]) && text[0] !in "+-"
    ensures Chunks(text + "\r\n" + rest) == Body(false, "", [], rest)
  {
    hide HexDigit, HexNumber, Strtoul, Trailers, Chunk;
    var line := text + "\r\n";
    PrintedLine(text, rest);
    assert line[0] == text[0];
    assert CString(line) == "" || CString(line)[0] == line[0];
    NoNumber(CString(line));
  }

  /** Data that ends early is delivered, but not accepted. */
  lemma ShortChunkFails(n: nat, d: string)
    requires 0 < n < ULONG_MAX && |d| <= n
    ensures Chunks(ToHex(n) + "\r\n" + d) == Body(false, d, [], "")
  {
    SizedLine(n, ToHex(n) + "\r\n" + d, d);
  }

  /** So is data with something behind it, on its line, that does not belong there. */
  lemma BrokenChunkFails(d: string, text: string, rest: string)
    requires 0 < |d| < ULONG_MAX && text != "" && '\n' !in text && text[0] != '\r'
    ensures Chunks(ToHex(|d|) + "\r\n" + (d + (text + "\r\n" + rest))) == Body(false, d, [], rest)
  {
    hide ToHex, Strtoul;
    var u := text + "\r\n" + rest;
    var t, line := d + u, text + "\r\n";
    SizedLine(|d|, ToHex(|d|) + "\r\n" + t, t);
    assert t[..|d|] == d && t[|d|..] == u;
    PrintedLine(text, rest);
    assert CString(line) == "" || CString(line)[0] == line[0] == text[0];
  }

  /** A line among the trailer fields that is no field is passed over. */
  lemma NoFieldIsSkipped(text: string, rest: string)
    requires text != "" && '\n' !in text && text[0] != '\r' && ':' !in text && |text| + 2 <= HEADER_MAX_LENGTH
    ensures Trailers(text + "\r\n" + rest) == Trailers(rest)
  {
    hide ParsedHeader;
    var line := text + "\r\n";
    PrintedLine(text, rest);
    assert CString(line) == "" || CString(line)[0] == line[0] == text[0];
    assert line[..|line| - 2] == text;
    NoColon(text);
    assert [] + Trailers(rest).trailers == Trailers(rest).trailers;
  }

  /** One that is too long ends the body. */
  lemma LongFieldFails(text: string, rest: string)
    requires '\n' !in text && |text| + 2 > HEADER_MAX_LENGTH && text[0] != '\r'
    ensures Trailers(text + "\r\n" + rest) == Body(false, "", [], rest)
  {
    var line := text + "\r\n";
    PrintedLine(text, rest);
    assert CString(line) == "" || CString(line)[0] == line[0] == text[0];
  }
}
