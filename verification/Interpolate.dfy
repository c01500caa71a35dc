/**
 The audio resampler: it steps over a stream of stereo samples in fixed point with
 24 fractional bits and keeps two samples of history and its position between calls.
 */
module Interpolate {

  import opened Audio
  import opened Modular

  /** The fixed-point fraction and three adjacent samples. */
  type Kernel = (nat, Stereo, Stereo, Stereo) -> Stereo

  const SCALE: nat := 0x100_0000

  // ---------------------------------------------------------------- specification

  /** Three samples are there for the position. */
  predicate Available(s: seq<Stereo>, pos: nat) {
    pos / SCALE + 2 < |s|
  }

  /** The sample that belongs to a position of a stream. */
  function At(fn: Kernel, s: seq<Stereo>, pos: nat): Stereo
    requires Available(s, pos)
  {
    fn(pos % SCALE, s[pos / SCALE], s[pos / SCALE + 1], s[pos / SCALE + 2])
  }

  /** The resampler between calls: history and pending input, and the position in them. */
  datatype Stream = Stream(samples: seq<Stereo>, pos: nat)
  {
    predicate Valid() {
      |samples| >= 2
    }
  }

  /** The position of the k-th output. */
  function Position(pos: nat, step: nat, k: nat): (p: nat)
    ensures p >= pos
  {
    if k == 0 then pos else Position(pos, step, k - 1) + step
  }

  lemma {:induction false} PositionIsLinear(pos: nat, step: nat, k: nat)
    ensures Position(pos, step, k) == pos + k * step
  {
    if k > 0 {
      PositionIsLinear(pos, step, k - 1);
      assert (k - 1) * step + step == k * step;
    }
  }

  lemma PositionFits(pos: nat, step: nat, n: nat, room: nat)
    requires n <= room
    ensures Position(pos, step, n) <= Position(pos, step, room)
  {
    PositionAfter(pos, step, n, room - n);
  }

  lemma {:induction false} PositionAfter(pos: nat, step: nat, j: nat, k: nat)
    ensures Position(Position(pos, step, j), step, k) == Position(pos, step, j + k)
  {
    if k > 0 {
      PositionAfter(pos, step, j, k - 1);
    }
  }

  /** A call that has made `n` outputs goes on or stops there. */
  predicate Stops(s: seq<Stereo>, pos: nat, step: nat, room: nat, n: nat) {
    n == room || !Available(s, Position(pos, step, n))
  }

  /** How many samples a call outputs into `room`, the first `n` being made. */
  function CountFrom(s: seq<Stereo>, pos: nat, step: nat, room: nat, n: nat): (m: nat)
    requires n <= room
    ensures n <= m <= room && Stops(s, pos, step, room, m)
    ensures forall k :: n <= k < m ==> !Stops(s, pos, step, room, k)
    decreases room - n
  {
    if Stops(s, pos, step, room, n) then n else CountFrom(s, pos, step, room, n + 1)
  }

  function Count(s: seq<Stereo>, pos: nat, step: nat, room: nat): nat {
    CountFrom(s, pos, step, room, 0)
  }

  /** How many samples a call that made `n` outputs gives up: those before the last one used, or all but two. */
  function Dropped(s: seq<Stereo>, pos: nat, step: nat, room: nat, n: nat): nat
    requires |s| >= 2
  {
    if n < room then |s| - 2 else if n == 0 then 0 else Position(pos, step, n - 1) / SCALE
  }

  /** The position never falls behind what has been given up. */
  lemma DropIsBehind(s: seq<Stereo>, pos: nat, step: nat, room: nat)
    requires |s| >= 2
    ensures var n := Count(s, pos, step, room);
            var d, p := Dropped(s, pos, step, room, n), Position(pos, step, n);
            && d <= |s| - 2 && d * SCALE <= p
            && (p - d * SCALE < SCALE + step || p - d * SCALE <= pos)
  {
    var n := Count(s, pos, step, room);
    if n > 0 {
      assert !Stops(s, pos, step, room, n - 1);
    }
  }

  /** The output made at a position of the stream. */
  ghost predicate IsOutput(fn: Kernel, s: seq<Stereo>, p: nat, x: Stereo) {
    Available(s, p) && x == At(fn, s, p)
  }

  /** One call: the outputs, and what is kept for the next. */
  ghost predicate Calls(fn: Kernel, step: nat, room: nat, r: Stream, r': Stream, out: seq<Stereo>)
    requires r.Valid()
  {
    var n := Count(r.samples, r.pos, step, room);
    var d := Dropped(r.samples, r.pos, step, room, n);
    && d <= |r.samples| && r'.samples == r.samples[d..] && r'.pos == Position(r.pos, step, n) - d * SCALE
    && |out| == n && forall k :: 0 <= k < n ==> IsOutput(fn, r.samples, Position(r.pos, step, k), out[k])
  }

  // ---------------------------------------------------------------- in 64 bits

  type U64 = x: nat | x < WORD witness 0

  /** Unsigned 64-bit addition. */
  function Advance(fposition: U64, step: U64): U64 {
    (fposition + step) % WORD
  }

  /** The position of the k-th output in the 64 bits it is kept in. */
  function WrappedPosition(pos: U64, step: U64, k: nat): U64 {
    if k == 0 then pos else Advance(WrappedPosition(pos, step, k - 1), step)
  }

  predicate WrappedStops(s: seq<Stereo>, pos: U64, step: U64, room: nat, n: nat) {
    n == room || !Available(s, WrappedPosition(pos, step, n))
  }

  function WrappedCountFrom(s: seq<Stereo>, pos: U64, step: U64, room: nat, n: nat): (m: nat)
    requires n <= room
    ensures n <= m <= room && WrappedStops(s, pos, step, room, m)
    ensures forall k :: n <= k < m ==> !WrappedStops(s, pos, step, room, k)
    decreases room - n
  {
    if WrappedStops(s, pos, step, room, n) then n else WrappedCountFrom(s, pos, step, room, n + 1)
  }

  lemma CountGoesOn(s: seq<Stereo>, pos: U64, step: U64, room: nat, n: nat)
    requires n < room
    ensures WrappedCountFrom(s, pos, step, room, n) ==
            if Available(s, WrappedPosition(pos, step, n)) then WrappedCountFrom(s, pos, step, room, n + 1) else n
  {
  }

  function WrappedCount(s: seq<Stereo>, pos: U64, step: U64, room: nat): nat {
    WrappedCountFrom(s, pos, step, room, 0)
  }

  function WrappedDropped(s: seq<Stereo>, pos: U64, step: U64, room: nat, n: nat): nat
    requires |s| >= 2
  {
    if n < room then |s| - 2 else if n == 0 then 0 else WrappedPosition(pos, step, n - 1) / SCALE
  }

  /** The outputs of a call, each at its position. */
  ghost predicate AreOutputs(fn: Kernel, s: seq<Stereo>, pos: U64, step: U64, out: seq<Stereo>) {
    forall k :: 0 <= k < |out| ==> IsOutput(fn, s, WrappedPosition(pos, step, k), out[k])
  }

  /** One call, whatever the step: the outputs, and what is kept for the next. */
  ghost predicate WrappedCalls(fn: Kernel, step: U64, room: nat, r: Stream, r': Stream, out: seq<Stereo>)
    requires r.Valid() && r.pos < WORD
  {
    var n := WrappedCount(r.samples, r.pos, step, room);
    var d := WrappedDropped(r.samples, r.pos, step, room, n);
    && d <= |r.samples| && r'.samples == r.samples[d..]
    && r'.pos == (WrappedPosition(r.pos, step, n) - d * SCALE) % WORD
    && |out| == n && AreOutputs(fn, r.samples, r.pos, step, out)
  }

  lemma {:induction false} WrapsNot(pos: U64, step: U64, k: nat, room: nat)
    requires k <= room && Position(pos, step, room) < WORD
    ensures WrappedPosition(pos, step, k) == Position(pos, step, k)
  {
    PositionFits(pos, step, k, room);
    if k > 0 {
      WrapsNot(pos, step, k - 1, room);
    }
  }

  lemma {:induction false} CountWrapsNot(s: seq<Stereo>, pos: U64, step: U64, room: nat, n: nat)
    requires n <= room && Position(pos, step, room) < WORD
    ensures WrappedCountFrom(s, pos, step, room, n) == CountFrom(s, pos, step, room, n)
    decreases room - n
  {
    WrapsNot(pos, step, n, room);
    if !Stops(s, pos, step, room, n) {
      CountWrapsNot(s, pos, step, room, n + 1);
    }
  }

  lemma OutputsWrapNot(fn: Kernel, s: seq<Stereo>, pos: U64, step: U64, room: nat, out: seq<Stereo>)
    requires AreOutputs(fn, s, pos, step, out) && |out| <= room && Position(pos, step, room) < WORD
    ensures forall k :: 0 <= k < |out| ==> IsOutput(fn, s, Position(pos, step, k), out[k])
  {
    forall k | 0 <= k < |out| ensures IsOutput(fn, s, Position(pos, step, k), out[k]) {
      WrapsNot(pos, step, k, room);
    }
  }

  lemma AmountsWrapNot(s: seq<Stereo>, pos: U64, step: U64, room: nat) returns (n: nat, d: nat, p: nat)
    requires |s| >= 2 && Position(pos, step, room) < WORD
    ensures n == WrappedCount(s, pos, step, room) == Count(s, pos, step, room) <= room
    ensures d == WrappedDropped(s, pos, step, room, n) == Dropped(s, pos, step, room, n)
    ensures p == WrappedPosition(pos, step, n) == Position(pos, step, n) && p < WORD
  {
    CountWrapsNot(s, pos, step, room, 0);
    n := Count(s, pos, step, room);
    WrapsNot(pos, step, n, room);
    p := Position(pos, step, n);
    if n > 0 {
      WrapsNot(pos, step, n - 1, room);
    }
    d := Dropped(s, pos, step, room, n);
  }

  lemma DifferenceWrapsNot(p: nat, q: nat)
    requires q <= p < WORD
    ensures (p - q) % WORD == p - q
  {
  }

  /** Where the position does not reach the end of its 64 bits, a call is one over the integers. */
  lemma CallWrapsNot(fn: Kernel, step: U64, room: nat, r: Stream, r': Stream, out: seq<Stereo>)
    requires r.Valid() && Position(r.pos, step, room) < WORD && r.pos < WORD && WrappedCalls(fn, step, room, r, r', out)
    ensures Calls(fn, step, room, r, r', out) && (r'.pos < SCALE + step || r'.pos <= r.pos)
  {
    var n, d, p := AmountsWrapNot(r.samples, r.pos, step, room);
    DropIsBehind(r.samples, r.pos, step, room);
    PartsOfCall(fn, step, room, r, r', out, n, d, p);
    OutputsWrapNot(fn, r.samples, r.pos, step, room, out);
  }

  lemma PartsOfCall(fn: Kernel, step: U64, room: nat, r: Stream, r': Stream, out: seq<Stereo>, n: nat, d: nat, p: nat)
    requires r.Valid() && r.pos < WORD && WrappedCalls(fn, step, room, r, r', out) && d * SCALE <= p < WORD
    requires n == WrappedCount(r.samples, r.pos, step, room) && d == WrappedDropped(r.samples, r.pos, step, room, n)
    requires p == WrappedPosition(r.pos, step, n)
    ensures d <= |r.samples| && r'.samples == r.samples[d..] && r'.pos == p - d * SCALE && |out| == n
    ensures AreOutputs(fn, r.samples, r.pos, step, out)
  {
    DifferenceWrapsNot(p, d * SCALE);
  }

  // ---------------------------------------------------------------- the code

  class State {
    var xn1: Stereo
    var xn2: Stereo
    var fposition: U64

    constructor ()
      ensures xn1 == Stereo(0, 0) && xn2 == Stereo(0, 0) && fposition == 0
    {
      xn1, xn2, fposition := Stereo(0, 0), Stereo(0, 0), 0;
    }
  }

  /** The input deque. */
  class Samples {
    var items: seq<Stereo>

    constructor (items: seq<Stereo>)
      ensures this.items == items
    {
      this.items := items;
    }
  }

  ghost function Contents(state: State, input: Samples): Stream
    reads state, input
  {
    Stream([state.xn2, state.xn1] + input.items, state.fposition)
  }

  /** The frame holds the outputs of a call from `from` to before `to`. */
  ghost predicate Filled(fn: Kernel, s: seq<Stereo>, pos: U64, step: U64, frame: seq<Stereo>, from: nat, to: nat) {
    && from <= to <= |frame|
    && forall k :: from <= k < to ==> IsOutput(fn, s, WrappedPosition(pos, step, k - from), frame[k])
  }

  lemma FillOne(fn: Kernel, s: seq<Stereo>, pos: U64, step: U64, frame: seq<Stereo>, from: nat, to: nat, x: Stereo)
    requires Filled(fn, s, pos, step, frame, from, to) && to < |frame|
    requires IsOutput(fn, s, WrappedPosition(pos, step, to - from), x)
    ensures Filled(fn, s, pos, step, frame[to := x], from, to + 1)
  {
  }

  ghost predicate SameOutside(was: seq<Stereo>, frame: seq<Stereo>, from: nat, to: nat) {
    && |frame| == |was| && (forall k :: 0 <= k < from && k < |was| ==> frame[k] == was[k])
    && (forall k :: 0 <= to <= k < |was| ==> frame[k] == was[k])
  }

  /** The loop: output until the frame is full or the input is used up. */
  method StepThrough(samples: seq<Stereo>, pos: U64, step: U64, output: array<Stereo>, outputi: nat, fn: Kernel)
    returns (next: nat, fposition: U64, inputi: nat)
    requires |samples| >= 2 && outputi <= output.Length
    modifies output
    ensures next == outputi + WrappedCount(samples, pos, step, output.Length - outputi) <= output.Length
    ensures fposition == WrappedPosition(pos, step, next - outputi)
    ensures inputi == WrappedDropped(samples, pos, step, output.Length - outputi, next - outputi)
    ensures Filled(fn, samples, pos, step, output[..], outputi, next)
    ensures SameOutside(old(output[..]), output[..], outputi, next)
  {
    ghost var room, n := output.Length - outputi, 0;
    next, fposition, inputi := outputi, pos, 0;
    while next < output.Length
      invariant n == next - outputi <= room && fposition == WrappedPosition(pos, step, n)
      invariant WrappedCount(samples, pos, step, room) == WrappedCountFrom(samples, pos, step, room, n)
      invariant inputi == if n == 0 then 0 else WrappedPosition(pos, step, n - 1) / SCALE
      invariant Filled(fn, samples, pos, step, output[..], outputi, next)
      invariant SameOutside(old(output[..]), output[..], outputi, next)
    {
      inputi := fposition / SCALE;
      CountGoesOn(samples, pos, step, room, n);
      if inputi + 2 >= |samples| {
        inputi := |samples| - 2;
        break;
      }
      OutputOne(samples, pos, step, output, outputi, next, fposition, inputi, fn, n);
      next, n := next + 1, n + 1;
      fposition := Advance(fposition, step);
    }
  }

  method OutputOne(samples: seq<Stereo>, pos: U64, step: U64, output: array<Stereo>, outputi: nat, next: nat,
                   fposition: U64, inputi: nat, fn: Kernel, ghost n: nat)
    requires next < output.Length && n == next - outputi && fposition == WrappedPosition(pos, step, n)
    requires inputi == fposition / SCALE && inputi + 2 < |samples|
    requires Filled(fn, samples, pos, step, output[..], outputi, next)
    modifies output
    ensures Filled(fn, samples, pos, step, output[..], outputi, next + 1)
    ensures output[..] == old(output[..])[next := output[next]]
  {
    ghost var frame := output[..];
    var fraction := fposition % SCALE;
    output[next] := fn(fraction, samples[inputi], samples[inputi + 1], samples[inputi + 2]);
    FillOne(fn, samples, pos, step, frame, outputi, next, output[next]);
    assert output[..] == frame[next := output[next]];
  }

  lemma FilledIsCall(fn: Kernel, r: Stream, step: U64, room: nat, frame: seq<Stereo>, from: nat, to: nat, d: nat,
                     p: U64)
    requires r.Valid() && r.pos < WORD && Filled(fn, r.samples, r.pos, step, frame, from, to)
    requires room == |frame| - from && to == from + WrappedCount(r.samples, r.pos, step, room)
    requires d == WrappedDropped(r.samples, r.pos, step, room, to - from)
    requires p == WrappedPosition(r.pos, step, to - from)
    ensures d <= |r.samples| - 2
    ensures WrappedCalls(fn, step, room, r, Stream(r.samples[d..], (p - d * SCALE) % WORD), frame[from..to])
  {
    var n := to - from;
    if n == room && n > 0 {
      assert !WrappedStops(r.samples, r.pos, step, room, n - 1);
    }
  }

  /** A call that finds no input would output nothing and keep everything. */
  lemma NoInputNoOutput(fn: Kernel, r: Stream, step: U64, room: nat)
    requires |r.samples| == 2 && r.pos < WORD
    ensures WrappedCalls(fn, step, room, r, r, [])
  {
    assert !Available(r.samples, r.pos);
    assert WrappedCount(r.samples, r.pos, step, room) == 0;
    assert r.samples[0..] == r.samples;
  }

  /** The end of a call: two samples of history, the rest of the input and the position within them. */
  method Save(state: State, input: Samples, samples: seq<Stereo>, fposition: U64, inputi: nat)
    requires inputi + 2 <= |samples|
    modifies state, input
    ensures Contents(state, input) == Stream(samples[inputi..], (fposition - inputi * SCALE) % WORD)
  {
    state.xn2 := samples[inputi];
    state.xn1 := samples[inputi + 1];
    state.fposition := (fposition - inputi * SCALE) % WORD;
    input.items := samples[inputi + 2..];
    assert [samples[inputi], samples[inputi + 1]] + samples[inputi + 2..] == samples[inputi..];
  }

  /**
   One call; `step` is the rate in fixed point. Where the position does not reach the
   end of its 64 bits, it is one over the integers, and leaves less than one sample
   and one step of position, or no more than there was.
   */
  method StepOverSamples(state: State, input: Samples, step: U64, output: array<Stereo>, outputi: nat, fn: Kernel)
    returns (next: nat)
    requires outputi <= output.Length
    modifies state, input, output
    ensures outputi <= next <= output.Length
    ensures SameOutside(old(output[..]), output[..], outputi, next)
    ensures WrappedCalls(fn, step, output.Length - outputi, old(Contents(state, input)), Contents(state, input),
                         output[outputi..next])
    ensures Position(old(state.fposition), step, output.Length - outputi) < WORD ==>
              && Calls(fn, step, output.Length - outputi, old(Contents(state, input)), Contents(state, input),
                       output[outputi..next])
              && (state.fposition < SCALE + step || state.fposition <= old(state.fposition))
  {
    ghost var r, room := Contents(state, input), output.Length - outputi;
    next := Resample(state, input, step, output, outputi, fn);
    if Position(r.pos, step, room) < WORD {
      CallWrapsNot(fn, step, room, r, Contents(state, input), output[outputi..next]);
    }
  }

  method Resample(state: State, input: Samples, step: U64, output: array<Stereo>, outputi: nat, fn: Kernel)
    returns (next: nat)
    requires outputi <= output.Length
    modifies state, input, output
    ensures outputi <= next <= output.Length
    ensures SameOutside(old(output[..]), output[..], outputi, next)
    ensures WrappedCalls(fn, step, output.Length - outputi, old(Contents(state, input)), Contents(state, input),
                         output[outputi..next])
  {
    var samples := [state.xn2, state.xn1] + input.items;
    ghost var r, room := Stream(samples, state.fposition), output.Length - outputi;
    if input.items == [] {
      NoInputNoOutput(fn, r, step, room);
      assert output[outputi..outputi] == [];
      return outputi;
    }
    var fposition, inputi;
    next, fposition, inputi := StepThrough(samples, state.fposition, step, output, outputi, fn);
    FilledIsCall(fn, r, step, room, output[..], outputi, next, inputi, fposition);
    assert output[..][outputi..next] == output[outputi..next];
    Save(state, input, samples, fposition, inputi);
  }

  // ---------------------------------------------------------------- whole streams

  /** Input arrives, or a call fills what room there is in a frame. */
  datatype Event = Feed(more: seq<Stereo>) | Frame(room: nat, out: seq<Stereo>)

  ghost predicate Steps(fn: Kernel, step: nat, r: Stream, e: Event, r': Stream)
    requires r.Valid()
  {
    match e
    case Feed(more) => r' == Stream(r.samples + more, r.pos)
    case Frame(room, out) => Calls(fn, step, room, r, r', out)
  }

  ghost predicate IsRun(fn: Kernel, step: nat, states: seq<Stream>, events: seq<Event>) {
    && |states| == |events| + 1 && (forall i :: 0 <= i < |states| ==> states[i].Valid())
    && (forall i :: 0 <= i < |events| ==> Steps(fn, step, states[i], events[i], states[i + 1]))
  }

  /** All the input fed so far, and all the output so far. */
  function Fed(events: seq<Event>): seq<Stereo> {
    if events == [] then [] else Fed(events[..|events| - 1]) + FedBy(events[|events| - 1])
  }

  function FedBy(e: Event): seq<Stereo> {
    if e.Feed? then e.more else []
  }

  function Out(events: seq<Event>): seq<Stereo> {
    if events == [] then [] else Out(events[..|events| - 1]) + OutBy(events[|events| - 1])
  }

  function OutBy(e: Event): seq<Stereo> {
    if e.Frame? then e.out else []
  }

  /** `out` is what one pass over the whole stream would have made so far. */
  ghost predicate IsPrefixOfPass(fn: Kernel, stream: seq<Stereo>, pos: nat, step: nat, out: seq<Stereo>) {
    forall k :: 0 <= k < |out| ==> IsOutput(fn, stream, Position(pos, step, k), out[k])
  }

  /** What is kept is the rest of the stream from its sample `c` on, at the position reached. */
  ghost predicate Keeps(r: Stream, stream: seq<Stereo>, pos: nat, c: nat) {
    c <= |stream| && r.samples == stream[c..] && r.pos + c * SCALE == pos
  }

  lemma {:induction false} PositionShift(pos: nat, off: nat, step: nat, k: nat)
    ensures Position(pos + off, step, k) == Position(pos, step, k) + off
  {
    if k > 0 {
      PositionShift(pos, off, step, k - 1);
    }
  }

  /** An output made on the kept part is the output made on the whole stream. */
  lemma OutputOnWhole(fn: Kernel, stream: seq<Stereo>, c: nat, p: nat, x: Stereo)
    requires c <= |stream| && IsOutput(fn, stream[c..], p, x)
    ensures IsOutput(fn, stream, p + c * SCALE, x)
  {
    assert (p + c * SCALE) / SCALE == p / SCALE + c && (p + c * SCALE) % SCALE == p % SCALE;
  }

  /** More input changes no output. */
  lemma OutputOnLonger(fn: Kernel, stream: seq<Stereo>, more: seq<Stereo>, p: nat, x: Stereo)
    requires IsOutput(fn, stream, p, x)
    ensures IsOutput(fn, stream + more, p, x)
  {
  }

  /** Positions on the whole stream run ahead of those on the kept part by what is gone. */
  lemma PositionOnWhole(pos: nat, step: nat, made: nat, kept: nat, c: nat, k: nat)
    requires kept + c * SCALE == Position(pos, step, made)
    ensures Position(pos, step, made + k) == Position(kept, step, k) + c * SCALE
  {
    PositionAfter(pos, step, made, k);
    PositionShift(kept, c * SCALE, step, k);
  }

  lemma OutputsContinuePass(fn: Kernel, step: nat, r: Stream, out: seq<Stereo>, stream: seq<Stereo>, pos: nat, c: nat,
                            before: seq<Stereo>, all: seq<Stereo>)
    requires all == before + out
    requires forall k :: 0 <= k < |out| ==> IsOutput(fn, r.samples, Position(r.pos, step, k), out[k])
    requires Keeps(r, stream, Position(pos, step, |before|), c) && IsPrefixOfPass(fn, stream, pos, step, before)
    ensures IsPrefixOfPass(fn, stream, pos, step, all)
  {
    hide IsOutput, Position;
    forall k | 0 <= k < |all| ensures IsOutput(fn, stream, Position(pos, step, k), all[k]) {
      if k >= |before| {
        var i := k - |before|;
        assert all[k] == out[i];
        PositionOnWhole(pos, step, |before|, r.pos, c, i);
        OutputOnWhole(fn, stream, c, Position(r.pos, step, i), out[i]);
      }
    }
  }

  /** The kept part ends where the stream ends. */
  lemma KeptEnd(stream: seq<Stereo>, c: nat, kept: seq<Stereo>, p: nat)
    requires c <= |stream| && kept == stream[c..]
    ensures Available(stream, p + c * SCALE) <==> Available(kept, p)
  {
    assert (p + c * SCALE) / SCALE == p / SCALE + c;
  }

  /** Giving up `d` more samples and moving on to `p`. */
  lemma KeepsLess(samples: seq<Stereo>, stream: seq<Stereo>, c: nat, d: nat, p: nat)
    requires c <= |stream| && samples == stream[c..] && d <= |samples| && d * SCALE <= p
    ensures Keeps(Stream(samples[d..], p - d * SCALE), stream, p + c * SCALE, c + d)
  {
    assert stream[c..][d..] == stream[c + d..];
  }

  /** What a call keeps is the rest of the stream, at the position reached. */
  lemma CallKeeps(fn: Kernel, step: nat, room: nat, r: Stream, r': Stream, out: seq<Stereo>, stream: seq<Stereo>,
                  pos: nat, c: nat, made: nat, made': nat)
    returns (c': nat)
    requires r.Valid() && Calls(fn, step, room, r, r', out) && Keeps(r, stream, Position(pos, step, made), c)
    requires made' == made + |out|
    ensures Keeps(r', stream, Position(pos, step, made'), c')
    ensures |out| < room ==> !Available(stream, Position(pos, step, made'))
  {
    var n := Count(r.samples, r.pos, step, room);
    var d := Dropped(r.samples, r.pos, step, room, n);
    c' := c + d;
    DropIsBehind(r.samples, r.pos, step, room);
    PositionOnWhole(pos, step, made, r.pos, c, n);
    KeepsLess(r.samples, stream, c, d, Position(r.pos, step, n));
    KeptEnd(stream, c, r.samples, Position(r.pos, step, n));
  }

  /** More input changes nothing that has been output. */
  lemma FeedKeepsPass(fn: Kernel, step: nat, r: Stream, more: seq<Stereo>, stream: seq<Stereo>, pos: nat, c: nat,
                      out: seq<Stereo>)
    requires Keeps(r, stream, Position(pos, step, |out|), c) && IsPrefixOfPass(fn, stream, pos, step, out)
    ensures Keeps(Stream(r.samples + more, r.pos), stream + more, Position(pos, step, |out|), c)
    ensures IsPrefixOfPass(fn, stream + more, pos, step, out)
  {
    forall k | 0 <= k < |out| ensures IsOutput(fn, stream + more, Position(pos, step, k), out[k]) {
      OutputOnLonger(fn, stream, more, Position(pos, step, k), out[k]);
    }
    assert (stream + more)[c..] == stream[c..] + more;
  }

  /** So far this is one pass over `stream`, and what is kept is the rest of it from `c` on. */
  ghost predicate OnePass(fn: Kernel, step: nat, pos: nat, r: Stream, stream: seq<Stereo>, out: seq<Stereo>, c: nat) {
    IsPrefixOfPass(fn, stream, pos, step, out) && Keeps(r, stream, Position(pos, step, |out|), c)
  }

  /** A frame that is not filled has used up the stream. */
  ghost predicate UsesUp(e: Event, stream: seq<Stereo>, pos: nat, step: nat, made: nat) {
    e.Frame? && |e.out| < e.room ==> !Available(stream, Position(pos, step, made))
  }

  lemma StepKeepsOnePass(fn: Kernel, step: nat, pos: nat, r: Stream, e: Event, r': Stream, stream: seq<Stereo>,
                         out: seq<Stereo>, c: nat)
    returns (c': nat)
    requires r.Valid() && Steps(fn, step, r, e, r') && OnePass(fn, step, pos, r, stream, out, c)
    ensures OnePass(fn, step, pos, r', stream + FedBy(e), out + OutBy(e), c')
    ensures UsesUp(e, stream + FedBy(e), pos, step, |out + OutBy(e)|)
  {
    match e {
      case Feed(more) =>
        assert out + [] == out;
        c' := c;
        FeedKeepsPass(fn, step, r, more, stream, pos, c, out);
      case Frame(room, made) =>
        assert stream + [] == stream;
        var all := out + made;
        OutputsContinuePass(fn, step, r, made, stream, pos, c, out, all);
        c' := CallKeeps(fn, step, room, r, r', made, stream, pos, c, |out|, |all|);
    }
  }

  /**
   Streaming is one pass: however the input is cut into buffers and the output into
   frames, the k-th sample output is the one at position `P0 + k * step` of the
   history followed by all input.
   */
  lemma {:induction false} StreamingIsOnePass(fn: Kernel, step: nat, states: seq<Stream>, events: seq<Event>, n: nat)
    returns (c: nat)
    requires IsRun(fn, step, states, events) && n <= |events|
    ensures OnePass(fn, step, states[0].pos, states[n], states[0].samples + Fed(events[..n]), Out(events[..n]), c)
    ensures n > 0 ==>
              UsesUp(events[n - 1], states[0].samples + Fed(events[..n]), states[0].pos, step, |Out(events[..n])|)
  {
    if n == 0 {
      c := 0;
      assert states[0].samples + [] == states[0].samples;
    } else {
      var m, e := n - 1, events[n - 1];
      c := StreamingIsOnePass(fn, step, states, events, m);
      assert Steps(fn, step, states[m], e, states[m + 1]);
      var stream, out := FedOneMore(states[0].samples, events, n, m);
      c := StepKeepsOnePass(fn, step, states[0].pos, states[m], e, states[n], stream, out, c);
    }
  }

  lemma FedOneMore(samples: seq<Stereo>, events: seq<Event>, n: nat, m: nat)
    returns (stream: seq<Stereo>, out: seq<Stereo>)
    requires n == m + 1 <= |events|
    ensures stream == samples + Fed(events[..m]) && out == Out(events[..m])
    ensures samples + Fed(events[..n]) == stream + FedBy(events[m]) && Out(events[..n]) == out + OutBy(events[m])
  {
    stream, out := samples + Fed(events[..m]), Out(events[..m]);
    assert events[..n][..m] == events[..m];
    assert samples + (Fed(events[..m]) + FedBy(events[m])) == stream + FedBy(events[m]);
  }

  lemma PassIsAvailable(fn: Kernel, stream: seq<Stereo>, pos: nat, step: nat, out: seq<Stereo>, n: nat)
    requires IsPrefixOfPass(fn, stream, pos, step, out)
    ensures n < |out| ==> Available(stream, Position(pos, step, n))
  {
    if n < |out| {
      assert IsOutput(fn, stream, Position(pos, step, n), out[n]);
    }
  }

  predicate Exhausted(events: seq<Event>) {
    |events| > 0 && events[|events| - 1].Frame? && |events[|events| - 1].out| < events[|events| - 1].room
  }

  /** Two ways of cutting the same stream up output the same samples. */
  lemma CutsDoNotMatter(fn: Kernel, step: nat, states1: seq<Stream>, events1: seq<Event>, states2: seq<Stream>,
                        events2: seq<Event>)
    requires IsRun(fn, step, states1, events1) && IsRun(fn, step, states2, events2)
    requires states1[0] == states2[0] && Fed(events1) == Fed(events2)
    ensures |Out(events1)| == |Out(events2)| ==> Out(events1) == Out(events2)
    ensures Exhausted(events1) && Exhausted(events2) ==> Out(events1) == Out(events2)
  {
    assert events1[..|events1|] == events1 && events2[..|events2|] == events2;
    var c1 := StreamingIsOnePass(fn, step, states1, events1, |events1|);
    var c2 := StreamingIsOnePass(fn, step, states2, events2, |events2|);
    var o1, o2, p := Out(events1), Out(events2), states1[0].pos;
    if Exhausted(events1) && Exhausted(events2) {
      PassIsAvailable(fn, states2[0].samples + Fed(events2), p, step, o2, |o1|);
      PassIsAvailable(fn, states1[0].samples + Fed(events1), p, step, o1, |o2|);
    }
    if |o1| == |o2| {
      forall k | 0 <= k < |o1| ensures o1[k] == o2[k] {
        assert IsOutput(fn, states1[0].samples + Fed(events1), Position(p, step, k), o1[k]);
        assert IsOutput(fn, states2[0].samples + Fed(events2), Position(p, step, k), o2[k]);
      }
    }
  }

  /** From a fresh start the saved position stays below one step past one sample. */
  lemma {:induction false} SavedPositionIsSmall(fn: Kernel, step: nat, states: seq<Stream>, events: seq<Event>, n: nat)
    requires IsRun(fn, step, states, events) && n <= |events| && states[0].pos == 0
    ensures states[n].pos < SCALE + step
  {
    if n > 0 {
      SavedPositionIsSmall(fn, step, states, events, n - 1);
      var r, e := states[n - 1], events[n - 1];
      assert Steps(fn, step, r, e, states[n - 1 + 1]);
      if e.Frame? {
        DropIsBehind(r.samples, r.pos, step, e.room);
      }
    }
  }

  const SAMPLES_PER_FRAME: nat := 160

  lemma ProductMonotone(a: nat, b: nat, c: nat)
    requires a <= b
    ensures a * c <= b * c
  {
    assert (b - a) * c == b * c - a * c;
  }

  /** So for any rate up to 2^32 no call of a fresh resampler can wrap its position. */
  lemma PositionDoesNotWrap(pos: nat, step: nat, room: nat)
    requires pos < SCALE + step && step <= 0x100_0000_0000_0000 && room <= SAMPLES_PER_FRAME
    ensures Position(pos, step, room) < WORD
  {
    PositionIsLinear(pos, step, room);
    ProductMonotone(room, SAMPLES_PER_FRAME, step);
  }

  // ---------------------------------------------------------------- kernels

  /** Zero-order hold. */
  function None(fraction: nat, x0: Stereo, x1: Stereo, x2: Stereo): Stereo {
    x0
  }

  /** One channel of `Linear`: the product, the quotient and the sum are unsigned 64-bit. */
  function LinearChannel(fraction: nat, x0: S16, x1: S16): S16 {
    var delta := Clamp(x1 - x0);
    ToS16((x0 % WORD + (fraction * (delta % WORD)) % WORD / SCALE) % WORD)
  }

  function Linear(fraction: nat, x0: Stereo, x1: Stereo, x2: Stereo): Stereo {
    Stereo(LinearChannel(fraction, x0.left, x1.left), LinearChannel(fraction, x0.right, x1.right))
  }

  /** A value and its wrapped form have the same 16 low bits. */
  lemma ToS16OfWrapped(x: S16, y: int, q: int)
    requires y == x + q * 0x1_0000
    ensures ToS16(y) == x
  {
    assert y % 0x1_0000 == x % 0x1_0000;
  }

  /**
   The unsigned arithmetic is exact: it is the signed sum with the quotient rounded
   down, and it lies between the two samples.
   */
  lemma LinearIsExact(fraction: nat, x0: S16, x1: S16)
    requires fraction < SCALE
    ensures var delta := Clamp(x1 - x0);
            && LinearChannel(fraction, x0, x1) == x0 + fraction * delta / SCALE
            && (if x0 <= x1 then x0 <= x0 + fraction * delta / SCALE <= x1
                else x1 <= x0 + fraction * delta / SCALE <= x0)
  {
    var delta := Clamp(x1 - x0);
    var product := fraction * delta;
    ProductBounds(fraction, delta);
    QuotientBounds(fraction, delta);
    WrappedProduct(fraction, delta, product);
    WrappedSum(x0, product, x0 + product / SCALE);
  }

  predicate Between(x: S16, a: S16, b: S16) {
    if a <= b then a <= x <= b else b <= x <= a
  }

  /** So what is output lies between the two samples around its position, on both channels. */
  lemma OutputsLieBetween(s: seq<Stereo>, p: nat, x: Stereo)
    requires IsOutput(Linear, s, p, x)
    ensures var a, b := s[p / SCALE], s[p / SCALE + 1];
            Between(x.left, a.left, b.left) && Between(x.right, a.right, b.right)
  {
    var a, b := s[p / SCALE], s[p / SCALE + 1];
    LinearIsExact(p % SCALE, a.left, b.left);
    LinearIsExact(p % SCALE, a.right, b.right);
  }

  /** One channel between two samples: the first, and as much of the way to the second as the position is past it. */
  function Blend(fraction: nat, a: S16, b: S16): int {
    a + fraction * Clamp(b - a) / SCALE
  }

  /** What linear interpolation outputs at a position, from the two samples around it. */
  lemma LinearOutput(s: seq<Stereo>, p: nat, x: Stereo)
    requires IsOutput(Linear, s, p, x)
    ensures var i := p / SCALE;
            && i + 2 < |s|
            && x.left == Blend(p % SCALE, s[i].left, s[i + 1].left)
            && x.right == Blend(p % SCALE, s[i].right, s[i + 1].right)
  {
    var a, b := s[p / SCALE], s[p / SCALE + 1];
    LinearIsExact(p % SCALE, a.left, b.left);
    LinearIsExact(p % SCALE, a.right, b.right);
  }

  /** What a zero-order hold outputs: the sample at or before the position. */
  lemma HeldOutput(s: seq<Stereo>, p: nat, x: Stereo)
    requires IsOutput(None, s, p, x)
    ensures p / SCALE + 2 < |s| && x == s[p / SCALE]
  {
  }

  /** The k-th output of a run is one at position `P0 + k * step` of the history followed by all input. */
  lemma OutputOfRun(fn: Kernel, step: nat, states: seq<Stream>, events: seq<Event>, k: nat, stream: seq<Stereo>, p: nat)
    requires IsRun(fn, step, states, events) && k < |Out(events)|
    requires stream == states[0].samples + Fed(events) && p == states[0].pos + k * step
    ensures IsOutput(fn, stream, p, Out(events)[k])
  {
    hide Steps, IsOutput, Fed, Out, Keeps, Position;
    var c := StreamingIsOnePass(fn, step, states, events, |events|);
    assert events[..|events|] == events;
    PositionIsLinear(states[0].pos, step, k);
  }

  /** A whole run of linear interpolation, sample by sample. */
  lemma LinearRun(step: nat, states: seq<Stream>, events: seq<Event>, k: nat, stream: seq<Stereo>, p: nat)
    requires IsRun(Linear, step, states, events) && k < |Out(events)|
    requires stream == states[0].samples + Fed(events) && p == states[0].pos + k * step
    ensures var i := p / SCALE;
            && i + 2 < |stream|
            && Out(events)[k].left == Blend(p % SCALE, stream[i].left, stream[i + 1].left)
            && Out(events)[k].right == Blend(p % SCALE, stream[i].right, stream[i + 1].right)
  {
    OutputOfRun(Linear, step, states, events, k, stream, p);
    LinearOutput(stream, p, Out(events)[k]);
  }

  lemma HeldRun(step: nat, states: seq<Stream>, events: seq<Event>, k: nat, stream: seq<Stereo>, p: nat)
    requires IsRun(None, step, states, events) && k < |Out(events)|
    requires stream == states[0].samples + Fed(events) && p == states[0].pos + k * step
    ensures p / SCALE + 2 < |stream| && Out(events)[k] == stream[p / SCALE]
  {
    OutputOfRun(None, step, states, events, k, stream, p);
    HeldOutput(stream, p, Out(events)[k]);
  }

  lemma WholePosition(k: nat)
    ensures (k * SCALE) / SCALE == k && (k * SCALE) % SCALE == 0
  {
  }

  /** At the rate of the input, both kernels output the stream itself. */
  lemma UnitRateCopies(states: seq<Stream>, events: seq<Event>, k: nat)
    requires IsRun(Linear, SCALE, states, events) || IsRun(None, SCALE, states, events)
    requires states[0].pos == 0 && k < |Out(events)|
    ensures var stream := states[0].samples + Fed(events);
            k + 2 < |stream| && Out(events)[k] == stream[k]
  {
    var stream := states[0].samples + Fed(events);
    WholePosition(k);
    if IsRun(Linear, SCALE, states, events) {
      LinearRun(SCALE, states, events, k, stream, k * SCALE);
    } else {
      HeldRun(SCALE, states, events, k, stream, k * SCALE);
    }
  }

  lemma ProductBounds(f: nat, d: int)
    requires f < SCALE
    ensures d >= 0 ==> 0 <= f * d <= SCALE * d
    ensures d <= 0 ==> SCALE * d <= f * d <= 0
  {
  }

  lemma QuotientBounds(f: nat, d: int)
    requires f < SCALE
    ensures d >= 0 ==> 0 <= f * d / SCALE <= d
    ensures d <= 0 ==> d <= f * d / SCALE <= 0
  {
    ProductBounds(f, d);
  }

  lemma WrappedProduct(f: nat, d: int, product: int)
    requires f < SCALE && -0x8000 <= d <= 0x7FFF && product == f * d
    ensures (f * (d % WORD)) % WORD == product % WORD
  {
    if d < 0 {
      assert d % WORD == d + WORD;
      assert f * (d + WORD) == product + f * WORD;
      WrapOnce(product, f);
    }
  }

  lemma WrapOnce(product: int, f: nat)
    ensures (product + f * WORD) % WORD == product % WORD
  {
  }

  lemma WrappedTerm(x: S16)
    ensures x % WORD == x + if x < 0 then WORD else 0
  {
  }

  lemma WrappedQuotient(product: int)
    requires -0x8000 * SCALE <= product <= 0x7FFF * SCALE
    ensures product % WORD / SCALE == product / SCALE + if product < 0 then 0x100_0000_0000 else 0
  {
    assert product % WORD == product + if product < 0 then WORD else 0;
  }

  /** Adding in 64 bits and keeping 16 of them. */
  lemma WrappedSum(x0: S16, product: int, sum: int)
    requires -0x8000 * SCALE <= product <= 0x7FFF * SCALE && sum == x0 + product / SCALE
    requires -0x8000 <= sum <= 0x7FFF
    ensures ToS16((x0 % WORD + product % WORD / SCALE) % WORD) == sum
  {
    WrappedTerm(x0);
    WrappedQuotient(product);
    LowBits(sum, x0 % WORD + product % WORD / SCALE, if x0 < 0 then 1 else 0, if product < 0 then 1 else 0);
  }

  lemma LowBits(x: S16, total: int, a: nat, b: nat)
    requires total == x + a * WORD + b * 0x100_0000_0000
    ensures ToS16(total % WORD) == x
  {
    var q := total / WORD;
    assert total % WORD == total - q * WORD;
    ToS16OfWrapped(x, total % WORD, (a - q) * 0x1_0000_0000_0000 + b * 0x100_0000);
  }
}
