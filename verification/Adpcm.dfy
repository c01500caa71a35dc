/**
 The ADPCM decoder: frames of eight bytes, a header and fourteen samples of four bits,
 through a second-order filter whose two samples of history carry over between calls.
 */
module Adpcm {

  import opened Audio
  import opened Modular
  import opened Sequences

  type Byte = x: int | 0 <= x < 0x100
  type Coefficients = c: seq<S16> | |c| == 16 witness seq(16, i => 0)

  datatype History = History(yn1: S16, yn2: S16)

  const FRAME_LEN := 8
  const SAMPLES_PER_FRAME := 14

  // ---------------------------------------------------------------- the filter

  /** All that decides how one sample is decoded. */
  datatype Code = Code(nibble: int, scale: nat, c1: S16, c2: S16)

  /** The filter in eleven fractional bits, over the integers, and its floor. */
  function Filtered(x: Code, h: History): int {
    (x.nibble * x.scale * 2048 + 0x400 + x.c1 * h.yn1 + x.c2 * h.yn2) / 2048
  }

  /** The same in 32 bits: every intermediate wraps. */
  function Filter(x: Code, h: History): int {
    var xn := Wrap(Wrap(x.nibble * x.scale) * 2048);
    Wrap(Wrap(Wrap(xn + 0x400) + Wrap(x.c1 * h.yn1)) + Wrap(x.c2 * h.yn2)) / 2048
  }

  function Push(h: History, val: int): History {
    History(Clamp(val), h.yn1)
  }

  /** The history after some samples: its first entry is the last of them. */
  function After(codes: seq<Code>, h: History): History {
    if codes == [] then h
    else
      var h' := After(codes[..|codes| - 1], h);
      Push(h', Filter(codes[|codes| - 1], h'))
  }

  function Samples(codes: seq<Code>, h: History): (s: seq<S16>)
    ensures |s| == |codes|
  {
    if codes == [] then [] else Samples(codes[..|codes| - 1], h) + [After(codes, h).yn1]
  }

  lemma AfterOne(codes: seq<Code>, x: Code, h: History)
    ensures After(codes + [x], h) == Push(After(codes, h), Filter(x, After(codes, h)))
    ensures Samples(codes + [x], h) == Samples(codes, h) + [After(codes + [x], h).yn1]
  {
    var all := codes + [x];
    assert all[..|all| - 1] == codes;
  }

  lemma Last(b: seq<Code>)
    requires b != []
    ensures b == b[..|b| - 1] + [b[|b| - 1]]
  {
  }

  /** The filter goes on from its history. */
  lemma {:induction false} FilterComposes(a: seq<Code>, b: seq<Code>, h: History)
    ensures After(a + b, h) == After(b, After(a, h))
    ensures Samples(a + b, h) == Samples(a, h) + Samples(b, After(a, h))
  {
    if b == [] {
      assert a + b == a;
      assert Samples(a, h) + [] == Samples(a, h);
    } else {
      Last(b);
      FilterComposes(a, b[..|b| - 1], h);
      ComposesWithLast(a, b[..|b| - 1], b[|b| - 1], b, h);
    }
  }

  lemma ComposesWithLast(a: seq<Code>, init: seq<Code>, x: Code, b: seq<Code>, h: History)
    requires b == init + [x]
    requires After(a + init, h) == After(init, After(a, h))
    requires Samples(a + init, h) == Samples(a, h) + Samples(init, After(a, h))
    ensures After(a + b, h) == After(b, After(a, h)) && Samples(a + b, h) == Samples(a, h) + Samples(b, After(a, h))
  {
    Associative(a, init, [x]);
    AfterOne(a + init, x, h);
    AfterOne(init, x, After(a, h));
    Associative(Samples(a, h), Samples(init, After(a, h)), [After(a + b, h).yn1]);
  }

  // ---------------------------------------------------------------- the layout of the data

  function SignedNibble(x: nat): (n: int)
    requires x < 16
    ensures -8 <= n < 8
  {
    if x < 8 then x else x - 16
  }

  function Pow2(e: nat): (p: nat)
    ensures p > 0
  {
    if e == 0 then 1 else 2 * Pow2(e - 1)
  }

  function Scale(header: Byte): nat {
    Pow2(header % 16)
  }

  function Index(header: Byte): (i: nat)
    ensures 2 * i + 1 < 16
  {
    header / 16 % 8
  }

  /** A half of a byte, under the header of its frame. */
  function CodeIn(header: Byte, half: nat, c: Coefficients): Code
    requires half < 16
  {
    Code(SignedNibble(half), Scale(header), c[2 * Index(header)], c[2 * Index(header) + 1])
  }

  /** The first `q` bytes of a frame behind its header, the high half of each byte first. */
  function FrameCodes(header: Byte, bytes: seq<Byte>, c: Coefficients, q: nat): (codes: seq<Code>)
    requires q <= |bytes|
    ensures |codes| == 2 * q
  {
    if q == 0 then []
    else
      var before, b := FrameCodes(header, bytes, c, q - 1), bytes[q - 1];
      before + [CodeIn(header, b / 16, c)] + [CodeIn(header, b % 16, c)]
  }

  /** How many bytes of the next frame are used, the header aside. */
  function Used(pairs: nat): nat {
    if pairs <= 7 then pairs else 7
  }

  /** The data has that many pairs of samples, a header before every seven. */
  predicate Covers(data: seq<Byte>, pairs: nat)
    decreases pairs
  {
    pairs > 0 ==> 1 + Used(pairs) <= |data| && Covers(data[1 + Used(pairs)..], pairs - Used(pairs))
  }

  /** The codes of the first `pairs` pairs of samples, frame by frame. */
  function CodesOf(data: seq<Byte>, c: Coefficients, pairs: nat): (codes: seq<Code>)
    requires Covers(data, pairs)
    ensures |codes| == 2 * pairs
    decreases pairs
  {
    if pairs == 0 then []
    else
      var q := Used(pairs);
      FrameCodes(data[0], data[1..], c, q) + CodesOf(data[1 + q..], c, pairs - q)
  }

  /** Samples come in pairs: an odd count is rounded up. */
  function Pairs(sampleCount: nat): nat {
    (sampleCount + 1) / 2
  }

  // ---------------------------------------------------------------- the code

  /** The buffer starts with the samples, each on both channels. */
  ghost predicate Shows(frame: seq<Stereo>, samples: seq<S16>) {
    |samples| <= |frame| && forall k :: 0 <= k < |samples| ==> frame[k] == Stereo(samples[k], samples[k])
  }

  /** What a call leaves behind: the samples of the codes so far, and the history. */
  ghost predicate Reached(codes: seq<Code>, h: History, frame: seq<Stereo>, yn1: S16, yn2: S16) {
    Shows(frame, Samples(codes, h)) && History(yn1, yn2) == After(codes, h)
  }

  class ADPCMState {
    var yn1: S16
    var yn2: S16

    constructor (yn1: S16, yn2: S16)
      ensures this.yn1 == yn1 && this.yn2 == yn2
    {
      this.yn1, this.yn2 := yn1, yn2;
    }

    ghost function Value(): History
      reads this
    {
      History(yn1, yn2)
    }
  }

  lemma FilteredNext(x: Code, h: History, xn: int, val: int)
    requires xn == Wrap(x.nibble * x.scale)
    requires val == Wrap(Wrap(Wrap(Wrap(xn * 2048) + 0x400) + Wrap(x.c1 * h.yn1)) + Wrap(x.c2 * h.yn2)) / 2048
    ensures Filter(x, h) == val
  {
  }

  lemma ReachedNext(all: seq<Code>, n: nat, h: History, frame: seq<Stereo>, yn1: S16, yn2: S16, yn1': S16, yn2': S16)
    requires n < |all| && n < |frame| && Reached(all[..n], h, frame, yn1, yn2)
    requires yn1' == Clamp(Filter(all[n], History(yn1, yn2))) && yn2' == yn1
    ensures Reached(all[..n + 1], h, frame[n := Stereo(yn1', yn1')], yn1', yn2')
  {
    assert all[..n + 1] == all[..n] + [all[n]];
    AfterOne(all[..n], all[n], h);
  }

  /** One sample into the buffer, on both channels; `all` are the codes of the whole call. */
  method DecodeSample(x: Code, ret: array<Stereo>, outputi: nat, yn1: S16, yn2: S16, ghost all: seq<Code>,
                      ghost h: History)
    returns (yn1': S16, yn2': S16)
    requires outputi < |all| && outputi < ret.Length && x == all[outputi]
    requires Reached(all[..outputi], h, ret[..], yn1, yn2)
    modifies ret
    ensures Reached(all[..outputi + 1], h, ret[..], yn1', yn2')
  {
    hide Reached, Filter, Wrap;
    var xn := Wrap(x.nibble * x.scale);
    var val := Wrap(Wrap(Wrap(Wrap(xn * 2048) + 0x400) + Wrap(x.c1 * yn1)) + Wrap(x.c2 * yn2)) / 2048;
    yn1', yn2' := Clamp(val), yn1;
    FilteredNext(x, History(yn1, yn2), xn, val);
    ghost var frame := ret[..];
    ret[outputi] := Stereo(yn1', yn1');
    assert ret[..] == frame[outputi := Stereo(yn1', yn1')];
    ReachedNext(all, outputi, h, frame, yn1, yn2, yn1', yn2');
  }

  /** The frame that starts behind `first` samples has `q` bytes: seven of them, or all that is left. */
  predicate IsFrame(first: nat, q: nat, length: nat, sampleCount: nat) {
    && sampleCount <= length <= sampleCount + 1 && first + 2 * q <= length && q <= 7
    && if q < 7 then first + 2 * q == length else first + 12 < sampleCount
  }

  /** The codes from `first` on are those of the bytes of a frame. */
  ghost predicate CodesStand(all: seq<Code>, first: nat, header: Byte, bytes: seq<Byte>, c: Coefficients, q: nat) {
    && first + 2 * q <= |all| && q <= |bytes|
    && forall p :: 0 <= p < q ==> BothStand(all, first + 2 * p, header, bytes[p], c)
  }

  predicate BothStand(all: seq<Code>, n: nat, header: Byte, b: Byte, c: Coefficients) {
    n + 2 <= |all| && all[n] == CodeIn(header, b / 16, c) && all[n + 1] == CodeIn(header, b % 16, c)
  }

  lemma {:induction false} FrameCodesStand(codes: seq<Code>, header: Byte, bytes: seq<Byte>, c: Coefficients, q: nat,
                                           all: seq<Code>)
    requires q <= |bytes| && all == codes + FrameCodes(header, bytes, c, q)
    ensures CodesStand(all, |codes|, header, bytes, c, q) && |all| == |codes| + 2 * q
  {
    if q > 0 {
      var before := codes + FrameCodes(header, bytes, c, q - 1);
      FrameCodesStand(codes, header, bytes, c, q - 1, before);
      assert all == before + [CodeIn(header, bytes[q - 1] / 16, c)] + [CodeIn(header, bytes[q - 1] % 16, c)];
      forall p | 0 <= p < q ensures BothStand(all, |codes| + 2 * p, header, bytes[p], c) {
        assert p < q - 1 ==> BothStand(before, |codes| + 2 * p, header, bytes[p], c);
      }
    }
  }

  /** The samples of one frame: `q` bytes, all seven unless it is the last frame. */
  method DecodeFrame(data: seq<Byte>, sampleCount: nat, c: Coefficients, framei: nat, ret: array<Stereo>, yn1: S16,
                     yn2: S16,
                     ghost q: nat, ghost rest: seq<Byte>, ghost codes: seq<Code>, ghost h: History)
    returns (yn1': S16, yn2': S16)
    requires |codes| == framei * SAMPLES_PER_FRAME && Reached(codes, h, ret[..], yn1, yn2)
    requires IsFrame(|codes|, q, ret.Length, sampleCount)
    requires 1 + q <= |rest| && framei * FRAME_LEN <= |data| && rest == data[framei * FRAME_LEN..]
    modifies ret
    ensures Reached(codes + FrameCodes(rest[0], rest[1..], c, q), h, ret[..], yn1', yn2')
  {
    hide Reached, CodeIn;
    var header := data[framei * FRAME_LEN];
    ghost var all := codes + FrameCodes(header, rest[1..], c, q);
    FrameCodesStand(codes, header, rest[1..], c, q, all);
    assert all[..|codes|] == codes && all[..|all|] == all;
    yn1', yn2' := DecodeBytes(data, header, sampleCount, c, framei * SAMPLES_PER_FRAME, framei * FRAME_LEN + 1, ret,
                              yn1, yn2, q, rest[1..], all, h);
  }

  lemma BytesLeft(first: nat, q: nat, length: nat, sampleCount: nat, p: nat)
    requires IsFrame(first, q, length, sampleCount) && p <= q
    ensures 2 * p < SAMPLES_PER_FRAME && first + 2 * p < sampleCount <==> p < q
    ensures p < q ==> first + 2 * p + 2 <= length
  {
  }

  lemma ByteStands(data: seq<Byte>, behind: nat, bytes: seq<Byte>, q: nat, p: nat, datai: nat)
    requires behind + q <= |data| && q <= |bytes| && bytes[..q] == data[behind..behind + q] && p < q
    requires datai == behind + p
    ensures data[datai] == bytes[p]
  {
    assert bytes[..q][p] == data[behind..behind + q][p];
  }

  /** The inner loop. */
  method DecodeBytes(data: seq<Byte>, header: Byte, sampleCount: nat, c: Coefficients, first: nat, behind: nat,
                     ret: array<Stereo>,
                     yn1: S16, yn2: S16, ghost q: nat, ghost bytes: seq<Byte>, ghost all: seq<Code>, ghost h: History)
    returns (yn1': S16, yn2': S16)
    requires IsFrame(first, q, ret.Length, sampleCount) && CodesStand(all, first, header, bytes, c, q)
    requires behind + q <= |data| && bytes[..q] == data[behind..behind + q]
    requires Reached(all[..first], h, ret[..], yn1, yn2)
    modifies ret
    ensures Reached(all[..first + 2 * q], h, ret[..], yn1', yn2')
  {
    hide Reached, CodeIn;
    ghost var p := 0;
    yn1', yn2' := yn1, yn2;
    var outputi, datai, i := first, behind, 0;
    BytesLeft(first, q, ret.Length, sampleCount, p);
    while i < SAMPLES_PER_FRAME && outputi < sampleCount
      invariant p <= q && i == 2 * p && outputi == first + i && datai == behind + p
      invariant i < SAMPLES_PER_FRAME && outputi < sampleCount <==> p < q
      invariant Reached(all[..outputi], h, ret[..], yn1', yn2')
    {
      BytesLeft(first, q, ret.Length, sampleCount, p);
      ByteStands(data, behind, bytes, q, p, datai);
      yn1', yn2' := DecodePair(header, data[datai], c, ret, outputi, yn1', yn2', all, h);
      outputi, datai, i, p := outputi + 2, datai + 1, i + 2, p + 1;
      BytesLeft(first, q, ret.Length, sampleCount, p);
    }
  }

  /** Both samples of a byte, the high half first. */
  method DecodePair(header: Byte, b: Byte, c: Coefficients, ret: array<Stereo>, outputi: nat, yn1: S16, yn2: S16,
                    ghost all: seq<Code>, ghost h: History)
    returns (yn1': S16, yn2': S16)
    requires BothStand(all, outputi, header, b, c) && outputi + 2 <= ret.Length
    requires Reached(all[..outputi], h, ret[..], yn1, yn2)
    modifies ret
    ensures Reached(all[..outputi + 2], h, ret[..], yn1', yn2')
  {
    var x := CodeIn(header, b / 16, c);
    yn1', yn2' := DecodeSample(x, ret, outputi, yn1, yn2, all, h);
    var y := CodeIn(header, b % 16, c);
    yn1', yn2' := DecodeSample(y, ret, outputi + 1, yn1', yn2', all, h);
  }

  /** The next frame, and what is left. */
  lemma TakeFrame(codes: seq<Code>, data: seq<Byte>, c: Coefficients, pairs: nat, all: seq<Code>)
    returns (q: nat, codes': seq<Code>, rest: seq<Byte>, left: nat)
    requires pairs > 0 && Covers(data, pairs) && codes + CodesOf(data, c, pairs) == all
    ensures q == Used(pairs) && left == pairs - q && 1 + q <= |data| && rest == data[1 + q..] && Covers(rest, left)
    ensures codes' == codes + FrameCodes(data[0], data[1..], c, q) && codes' + CodesOf(rest, c, left) == all
  {
    q := Used(pairs);
    rest, left := data[1 + q..], pairs - q;
    codes' := codes + FrameCodes(data[0], data[1..], c, q);
    Associative(codes, FrameCodes(data[0], data[1..], c, q), CodesOf(rest, c, left));
  }

  /** Before frame `framei`: the codes so far and those still to come are all of them. */
  ghost predicate Progress(data: seq<Byte>, c: Coefficients, framei: nat, codes: seq<Code>, rest: seq<Byte>, left: nat,
                           all: seq<Code>) {
    && Covers(rest, left) && codes + CodesOf(rest, c, left) == all
    && (left > 0 ==> |codes| == framei * SAMPLES_PER_FRAME)
    && (left > 0 ==> framei * FRAME_LEN <= |data| && rest == data[framei * FRAME_LEN..])
  }

  lemma ProgressOn(data: seq<Byte>, c: Coefficients, framei: nat, codes: seq<Code>, rest: seq<Byte>, left: nat,
                   all: seq<Code>)
    returns (q: nat, codes': seq<Code>, rest': seq<Byte>, left': nat)
    requires left > 0 && Progress(data, c, framei, codes, rest, left, all)
    ensures q == Used(left) && left' == left - q && |codes'| == |codes| + 2 * q
    ensures Progress(data, c, framei + 1, codes', rest', left', all)
    ensures 1 + q <= |rest| && codes' == codes + FrameCodes(rest[0], rest[1..], c, q)
  {
    q, codes', rest', left' := TakeFrame(codes, rest, c, left, all);
  }

  /** One round of the outer loop. */
  method NextFrame(data: seq<Byte>, sampleCount: nat, c: Coefficients, framei: nat, ret: array<Stereo>, yn1: S16,
                   yn2: S16,
                   ghost codes: seq<Code>, ghost rest: seq<Byte>, ghost left: nat, ghost all: seq<Code>,
                   ghost h: History)
    returns (yn1': S16, yn2': S16, ghost codes': seq<Code>, ghost rest': seq<Byte>, ghost left': nat)
    requires sampleCount <= ret.Length <= sampleCount + 1 && ret.Length == |codes| + 2 * left && left > 0
    requires Progress(data, c, framei, codes, rest, left, all) && Reached(codes, h, ret[..], yn1, yn2)
    modifies ret
    ensures Progress(data, c, framei + 1, codes', rest', left', all) && Reached(codes', h, ret[..], yn1', yn2')
    ensures left' == left - Used(left) && ret.Length == |codes'| + 2 * left'
  {
    ghost var q;
    q, codes', rest', left' := ProgressOn(data, c, framei, codes, rest, left, all);
    yn1', yn2' := DecodeFrame(data, sampleCount, c, framei, ret, yn1, yn2, q, rest, codes, h);
  }

  /** There is a frame for every seven pairs, the last one perhaps shorter. */
  lemma FrameCount(n: nat, frames: nat, framei: nat, left: nat)
    requires frames == (n + (SAMPLES_PER_FRAME - 1)) / SAMPLES_PER_FRAME && framei * 7 + left == Pairs(n) && left > 0
    ensures framei < frames && (framei + 1 < frames <==> left - Used(left) > 0)
  {
  }

  lemma RoundedUp(n: nat, size: nat)
    requires size == if n % 2 == 0 then n else n + 1
    ensures size == 2 * Pairs(n)
  {
  }

  /** Decodes an even number of samples, one more than asked for where that is odd. */
  method DecodeADPCM(data: seq<Byte>, sampleCount: nat, c: Coefficients, state: ADPCMState) returns (ret: array<Stereo>)
    requires Covers(data, Pairs(sampleCount))
    modifies state
    ensures fresh(ret) && ret.Length == 2 * Pairs(sampleCount)
    ensures Reached(CodesOf(data, c, Pairs(sampleCount)), old(state.Value()), ret[..], state.yn1, state.yn2)
    ensures IsDecoded(data, c, old(state.Value()), ret[..], state.yn1, state.yn2)
  {
    var retSize := if sampleCount % 2 == 0 then sampleCount else sampleCount + 1;
    RoundedUp(sampleCount, retSize);
    ret := new Stereo[retSize];
    var yn1, yn2 := state.yn1, state.yn2;
    yn1, yn2 := DecodeFrames(data, sampleCount, c, ret, yn1, yn2);
    ToS16OfS16(yn1);
    ToS16OfS16(yn2);
    state.yn1 := ToS16(yn1);
    state.yn2 := ToS16(yn2);
    ReachedIsDecoded(data, c, old(state.Value()), Pairs(sampleCount), ret[..], yn1, yn2);
  }

  method DecodeFrames(data: seq<Byte>, sampleCount: nat, c: Coefficients, ret: array<Stereo>, yn1: S16, yn2: S16)
    returns (yn1': S16, yn2': S16)
    requires Covers(data, Pairs(sampleCount)) && ret.Length == 2 * Pairs(sampleCount)
    modifies ret
    ensures Reached(CodesOf(data, c, Pairs(sampleCount)), History(yn1, yn2), ret[..], yn1', yn2')
  {
    ghost var h, codes, rest, left := History(yn1, yn2), [], data, Pairs(sampleCount);
    ghost var all := CodesOf(data, c, left);
    assert codes + all == all;
    var numFrames := (sampleCount + (SAMPLES_PER_FRAME - 1)) / SAMPLES_PER_FRAME;
    if left > 0 {
      FrameCount(sampleCount, numFrames, 0, left);
    }
    yn1', yn2' := yn1, yn2;
    var framei := 0;
    while framei < numFrames
      invariant framei <= numFrames && |codes| + 2 * left == ret.Length && (left > 0 <==> framei < numFrames)
      invariant Progress(data, c, framei, codes, rest, left, all)
      invariant Reached(codes, h, ret[..], yn1', yn2')
    {
      FrameCount(sampleCount, numFrames, framei, left);
      yn1', yn2', codes, rest, left :=
        NextFrame(data, sampleCount, c, framei, ret, yn1', yn2', codes, rest, left, all, h);
      framei := framei + 1;
    }
    assert codes + [] == codes;
  }

  // ---------------------------------------------------------------- decoding in pieces

  /** The codes of the whole are those of the first frames and those of the rest. */
  lemma {:induction false} CodesOfRest(data: seq<Byte>, c: Coefficients, frames: nat, first: nat, pairs: nat,
                                       rest: seq<Byte>, all: nat)
    requires first == 7 * frames && FRAME_LEN * frames <= |data| && rest == data[FRAME_LEN * frames..]
    requires all == first + pairs && Covers(data, all)
    ensures Covers(data, first) && Covers(rest, pairs)
    ensures CodesOf(data, c, all) == CodesOf(data, c, first) + CodesOf(rest, c, pairs)
  {
    if frames == 0 {
      assert rest == data;
    } else {
      var next, first', all' := data[8..], first - 7, all - 7;
      assert rest == next[FRAME_LEN * (frames - 1)..];
      CodesOfRest(next, c, frames - 1, first', pairs, rest, all');
      WholeFrame(data, c, first, next, first');
      WholeFrame(data, c, all, next, all');
      Associative(FrameCodes(data[0], data[1..], c, 7), CodesOf(next, c, first'), CodesOf(rest, c, pairs));
    }
  }

  lemma WholeFrame(data: seq<Byte>, c: Coefficients, pairs: nat, next: seq<Byte>, left: nat)
    requires pairs == left + 7 && |data| >= 8 && next == data[8..] && Covers(next, left)
    ensures Covers(data, pairs)
    ensures CodesOf(data, c, pairs) == FrameCodes(data[0], data[1..], c, 7) + CodesOf(next, c, left)
  {
  }

  /**
   One call or two: decoding whole frames and then the rest from the saved history
   gives the samples of one call, and its final history.
   */
  lemma DecodingComposes(data: seq<Byte>, c: Coefficients, h: History, n1: nat, n2: nat, rest: seq<Byte>)
    requires n1 % SAMPLES_PER_FRAME == 0 && Covers(data, Pairs(n1 + n2))
    requires FRAME_LEN * (n1 / SAMPLES_PER_FRAME) <= |data| && rest == data[FRAME_LEN * (n1 / SAMPLES_PER_FRAME)..]
    ensures Covers(data, Pairs(n1)) && Covers(rest, Pairs(n2))
    ensures var one := CodesOf(data, c, Pairs(n1 + n2));
            var first, second := CodesOf(data, c, Pairs(n1)), CodesOf(rest, c, Pairs(n2));
            && Samples(one, h) == Samples(first, h) + Samples(second, After(first, h))
            && After(one, h) == After(second, After(first, h))
  {
    var frames := n1 / SAMPLES_PER_FRAME;
    PairsOfFrames(frames, n1, n2);
    CodesOfRest(data, c, frames, 7 * frames, Pairs(n2), rest, Pairs(n1 + n2));
    FilterComposes(CodesOf(data, c, 7 * frames), CodesOf(rest, c, Pairs(n2)), h);
  }

  lemma PairsOfFrames(frames: nat, n1: nat, n2: nat)
    requires n1 == SAMPLES_PER_FRAME * frames
    ensures Pairs(n1) == 7 * frames && Pairs(n1 + n2) == 7 * frames + Pairs(n2)
  {
  }

  // ---------------------------------------------------------------- 32 bits are enough

  /** The most and the least that a coefficient can contribute. */
  function Most(c: int): nat {
    if c >= 0 then 0x7FFF * c else 0x8000 * (-c)
  }

  function Least(c: int): nat {
    if c >= 0 then 0x8000 * c else 0x7FFF * (-c)
  }

  /** A condition on a pair of coefficients alone. */
  predicate Safe(c1: S16, c2: S16) {
    Most(c1) + Most(c2) <= 1677720575 && Least(c1) + Least(c2) <= 1610613760
  }

  /** No intermediate of one sample leaves 32 bits. */
  predicate NoOverflow(x: Code, h: History) {
    var xn := x.nibble * x.scale;
    && IsInt(xn) && IsInt(xn * 2048) && IsInt(xn * 2048 + 0x400) && IsInt(x.c1 * h.yn1) && IsInt(x.c2 * h.yn2)
    && IsInt(xn * 2048 + 0x400 + x.c1 * h.yn1) && IsInt(xn * 2048 + 0x400 + x.c1 * h.yn1 + x.c2 * h.yn2)
  }

  /** Whatever the header's scale, the nibble and the history. */
  ghost predicate NeverOverflows(c1: S16, c2: S16) {
    forall nibble, e, h :: -8 <= nibble < 8 && 0 <= e < 16 ==> NoOverflow(Code(nibble, Pow2(e), c1, c2), h)
  }

  lemma {:induction false} Pow2Bound(e: nat, f: nat)
    requires e <= f
    ensures Pow2(e) <= Pow2(f)
  {
    if e < f {
      Pow2Bound(e, f - 1);
    }
  }

  lemma LargestScale()
    ensures Pow2(15) == 0x8000
  {
    assert Pow2(15) == 8 * Pow2(12) && Pow2(12) == 8 * Pow2(9) && Pow2(9) == 8 * Pow2(6) && Pow2(6) == 8 * Pow2(3);
  }

  lemma Contribution(c: int, y: S16)
    ensures c * y <= Most(c) && c * y + Least(c) >= 0
  {
    if c >= 0 {
      assert c * (0x7FFF - y) >= 0 && c * (y + 0x8000) >= 0;
    } else {
      assert (-c) * (0x7FFF - y) >= 0 && (-c) * (y + 0x8000) >= 0;
    }
  }

  lemma Input(nibble: int, scale: nat)
    requires -8 <= nibble < 8 && scale <= 0x8000
    ensures -0x40000 <= nibble * scale <= 0x38000
  {
  }

  lemma SafeIsEnough(nibble: int, e: nat, c1: S16, c2: S16, h: History)
    requires Safe(c1, c2) && -8 <= nibble < 8 && e < 16
    ensures NoOverflow(Code(nibble, Pow2(e), c1, c2), h)
  {
    LargestScale();
    Pow2Bound(e, 15);
    Input(nibble, Pow2(e));
    Contribution(c1, h.yn1);
    Contribution(c2, h.yn2);
  }

  function Extreme(c: int, high: bool): S16 {
    if (c >= 0) == high then 0x7FFF else -0x8000
  }

  lemma ExtremeContributes(c: int)
    ensures c * Extreme(c, true) == Most(c) && c * Extreme(c, false) + Least(c) == 0
  {
  }

  /** Exactly the safe pairs never overflow, whatever the data and the history. */
  lemma SafeIsExact(c1: S16, c2: S16)
    ensures Safe(c1, c2) <==> NeverOverflows(c1, c2)
  {
    if Safe(c1, c2) {
      forall nibble, e, h | -8 <= nibble < 8 && 0 <= e < 16 ensures NoOverflow(Code(nibble, Pow2(e), c1, c2), h) {
        SafeIsEnough(nibble, e, c1, c2, h);
      }
    } else {
      ExtremeContributes(c1);
      ExtremeContributes(c2);
      LargestScale();
      var high := Most(c1) + Most(c2) > 1677720575;
      var h := History(Extreme(c1, high), Extreme(c2, high));
      assert !NoOverflow(Code(if high then 7 else -8, Pow2(15), c1, c2), h);
    }
  }

  /** Pairs of the usual size are safe. */
  lemma SmallIsSafe(c1: int, c2: int)
    requires -0x8000 <= c1 < 0x8000 && -0x8000 <= c2 < 0x8000
    requires (if c1 < 0 then -c1 else c1) + (if c2 < 0 then -c2 else c2) <= 49152
    ensures Safe(c1, c2)
  {
  }

  /** Without overflow the 32-bit filter is the filter over the integers. */
  lemma FilterIsExact(x: Code, h: History)
    requires NoOverflow(x, h)
    ensures Filter(x, h) == Filtered(x, h)
  {
  }

  /** Decoding over the integers. */
  function Ideal(codes: seq<Code>, h: History): History {
    if codes == [] then h
    else
      var h' := Ideal(codes[..|codes| - 1], h);
      Push(h', Filtered(codes[|codes| - 1], h'))
  }

  function IdealSamples(codes: seq<Code>, h: History): (s: seq<S16>)
    ensures |s| == |codes|
  {
    if codes == [] then [] else IdealSamples(codes[..|codes| - 1], h) + [Ideal(codes, h).yn1]
  }

  predicate IsSafe(x: Code) {
    Safe(x.c1, x.c2)
  }

  predicate IsCode(x: Code) {
    -8 <= x.nibble < 8 && exists e :: 0 <= e < 16 && x.scale == Pow2(e)
  }

  ghost predicate AreCodes(codes: seq<Code>) {
    forall k :: 0 <= k < |codes| ==> IsCode(codes[k])
  }

  lemma IsCodeIn(header: Byte, half: nat, c: Coefficients)
    requires half < 16
    ensures IsCode(CodeIn(header, half, c))
  {
    var e := header % 16;
    assert CodeIn(header, half, c).scale == Pow2(e);
  }

  lemma {:induction false} FrameCodesAreCodes(header: Byte, bytes: seq<Byte>, c: Coefficients, q: nat)
    requires q <= |bytes|
    ensures AreCodes(FrameCodes(header, bytes, c, q))
  {
    if q > 0 {
      FrameCodesAreCodes(header, bytes, c, q - 1);
      IsCodeIn(header, bytes[q - 1] / 16, c);
      IsCodeIn(header, bytes[q - 1] % 16, c);
    }
  }

  /** Every code read from data is one of the sixteen nibbles at one of the sixteen scales. */
  lemma {:induction false} CodesAreCodes(data: seq<Byte>, c: Coefficients, pairs: nat)
    requires Covers(data, pairs)
    ensures AreCodes(CodesOf(data, c, pairs))
    decreases pairs
  {
    if pairs > 0 {
      var q := Used(pairs);
      FrameCodesAreCodes(data[0], data[1..], c, q);
      CodesAreCodes(data[1 + q..], c, pairs - q);
    }
  }

  /** With safe coefficients the decoder's 32 bits change nothing. */
  lemma {:induction false} FilterIsIdeal(codes: seq<Code>, h: History)
    requires forall k :: 0 <= k < |codes| ==> IsCode(codes[k]) && IsSafe(codes[k])
    ensures After(codes, h) == Ideal(codes, h) && Samples(codes, h) == IdealSamples(codes, h)
  {
    if codes != [] {
      var init, x := codes[..|codes| - 1], codes[|codes| - 1];
      FilterIsIdeal(init, h);
      var e :| 0 <= e < 16 && x.scale == Pow2(e);
      SafeIsEnough(x.nibble, e, x.c1, x.c2, After(init, h));
      FilterIsExact(x, After(init, h));
    }
  }

  /** So what is decoded, every sample and the final history, is what the integers would give. */
  lemma DecodingIsExact(data: seq<Byte>, c: Coefficients, h: History, pairs: nat)
    requires Covers(data, pairs) && forall k :: 0 <= k < 2 * pairs ==> IsSafe(CodesOf(data, c, pairs)[k])
    ensures Samples(CodesOf(data, c, pairs), h) == IdealSamples(CodesOf(data, c, pairs), h)
    ensures After(CodesOf(data, c, pairs), h) == Ideal(CodesOf(data, c, pairs), h)
  {
    CodesAreCodes(data, c, pairs);
    FilterIsIdeal(CodesOf(data, c, pairs), h);
  }

  // ---------------------------------------------------------------- the recurrence, on the bytes

  /** Where the frame of a sample starts: frames hold fourteen samples in eight bytes. */
  function FrameStart(k: nat): nat {
    8 * (k / 14)
  }

  /** Where the byte of a sample stands, two samples in a byte behind the header. */
  function Place(k: nat): nat {
    8 * (k / 14) + 1 + k % 14 / 2
  }

  /** The four bits of a sample, the high half of its byte first, in two's complement. */
  function Nibble(b: Byte, k: nat): int {
    var half := if k % 2 == 0 then b / 16 else b % 16;
    if half < 8 then half else half - 16
  }

  /** Which pair of coefficients a header asks for: its bits 4 to 6. */
  function PairOf(header: Byte): (i: nat)
    ensures 2 * i + 1 < 16
  {
    header / 16 % 8
  }

  /** The code of the k-th sample, from the bytes. */
  ghost predicate CodeStands(data: seq<Byte>, c: Coefficients, k: nat, x: Code) {
    && Place(k) < |data|
    && var header := data[FrameStart(k)];
       x == Code(Nibble(data[Place(k)], k), Pow2(header % 16), c[2 * PairOf(header)], c[2 * PairOf(header) + 1])
  }

  lemma {:induction false} FrameCodeStands(header: Byte, bytes: seq<Byte>, c: Coefficients, q: nat, k: nat)
    requires q <= |bytes| && k < 2 * q
    ensures FrameCodes(header, bytes, c, q)[k] ==
            Code(Nibble(bytes[k / 2], k), Pow2(header % 16), c[2 * PairOf(header)], c[2 * PairOf(header) + 1])
  {
    if k < 2 * (q - 1) {
      FrameCodeStands(header, bytes, c, q - 1, k);
    }
  }

  lemma PlacesInFirst(k: nat)
    requires k < 14
    ensures FrameStart(k) == 0 && Place(k) == 1 + k / 2
  {
  }

  lemma PlacesInRest(k: nat, j: nat)
    requires k == j + 14
    ensures FrameStart(k) == 8 + FrameStart(j) && Place(k) == 8 + Place(j) && k % 2 == j % 2
  {
    hide FrameStart, Place;
    var q, r := j / 14, j % 14;
    PlaceOf(q, r, j);
    PlaceOf(q + 1, r, k);
  }

  lemma FrameOf(q: nat, r: nat, k: nat)
    requires r < 14 && k == 14 * q + r
    ensures k / 14 == q && k % 14 == r
  {
  }

  lemma PlaceOf(q: nat, r: nat, k: nat)
    requires r < 14 && k == 14 * q + r
    ensures FrameStart(k) == 8 * q && Place(k) == 8 * q + 1 + r / 2 && k % 2 == r % 2
  {
    FrameOf(q, r, k);
  }

  lemma {:induction false} CodeOnBytes(data: seq<Byte>, c: Coefficients, pairs: nat, k: nat)
    requires Covers(data, pairs) && k < 2 * pairs
    ensures CodeStands(data, c, k, CodesOf(data, c, pairs)[k])
    decreases pairs
  {
    var q := Used(pairs);
    if k < 2 * q {
      PlacesInFirst(k);
      FrameCodeStands(data[0], data[1..], c, q, k);
    } else {
      var j, rest := k - 14, data[8..];
      assert q == 7;
      PlacesInRest(k, j);
      CodeOnBytes(rest, c, pairs - 7, j);
      assert CodesOf(data, c, pairs)[k] == CodesOf(rest, c, pairs - 7)[j];
    }
  }

  /** The sample before the k-th, and the one before that; the old state stands before the first. */
  function Previous(y: seq<S16>, h: History, k: nat): History
    requires k <= |y|
  {
    if k == 0 then h else if k == 1 then History(y[0], h.yn1) else History(y[k - 1], y[k - 2])
  }

  lemma {:induction false} HistoryIsPrevious(codes: seq<Code>, h: History)
    ensures After(codes, h) == Previous(Samples(codes, h), h, |codes|)
  {
    if codes != [] {
      HistoryIsPrevious(codes[..|codes| - 1], h);
    }
  }

  /** Every sample is the filter's output on its code and the two samples before. */
  lemma {:induction false} SampleIs(codes: seq<Code>, h: History, k: nat)
    requires k < |codes|
    ensures Samples(codes, h)[k] == Clamp(Filter(codes[k], Previous(Samples(codes, h), h, k)))
  {
    var init := codes[..|codes| - 1];
    var y, before := Samples(codes, h), Samples(init, h);
    assert y == before + [After(codes, h).yn1];
    if k < |init| {
      SampleIs(init, h, k);
      assert Previous(y, h, k) == Previous(before, h, k);
    } else {
      HistoryIsPrevious(init, h);
      assert Previous(y, h, k) == Previous(before, h, k);
    }
  }

  /** The value of the k-th sample, before clamping, from its bytes and the samples before it. */
  function Recurrence(data: seq<Byte>, c: Coefficients, k: nat, before: History): int
    requires Place(k) < |data|
  {
    var header := data[FrameStart(k)];
    var i := PairOf(header);
    (Nibble(data[Place(k)], k) * Pow2(header % 16) * 2048 + 1024 +
     c[2 * i] * before.yn1 + c[2 * i + 1] * before.yn2) / 2048
  }

  /** The coefficients of the k-th sample are safe. */
  predicate SafeAt(data: seq<Byte>, c: Coefficients, k: nat) {
    Place(k) < |data| && Safe(c[2 * PairOf(data[FrameStart(k)])], c[2 * PairOf(data[FrameStart(k)]) + 1])
  }

  /**
   What is decoded, on the bytes alone: where its coefficients are safe, the k-th
   sample is the clamped floor of nibble times scale plus a half plus the two samples
   before it times the two coefficients, in eleven fractional bits.
   */
  lemma SampleOnBytes(data: seq<Byte>, c: Coefficients, h: History, pairs: nat, k: nat, y: seq<S16>)
    requires Covers(data, pairs) && k < 2 * pairs && y == Samples(CodesOf(data, c, pairs), h)
    requires SafeAt(data, c, k)
    ensures Place(k) < |data| && y[k] == Clamp(Recurrence(data, c, k, Previous(y, h, k)))
  {
    var codes := CodesOf(data, c, pairs);
    CodeOnBytes(data, c, pairs, k);
    SampleIs(codes, h, k);
    CodesAreCodes(data, c, pairs);
    var x, before := codes[k], Previous(y, h, k);
    assert IsCode(x);
    var e :| 0 <= e < 16 && x.scale == Pow2(e);
    SafeIsEnough(x.nibble, e, x.c1, x.c2, before);
    FilterIsExact(x, before);
  }

  function Lefts(frame: seq<Stereo>): (y: seq<S16>)
    ensures |y| == |frame| && forall k :: 0 <= k < |y| ==> y[k] == frame[k].left
  {
    seq(|frame|, k requires 0 <= k < |frame| => frame[k].left)
  }

  /** What a call computes, on the bytes: equal channels, the recurrence, and the last two samples as the state. */
  ghost predicate IsDecoded(data: seq<Byte>, c: Coefficients, h: History, frame: seq<Stereo>, yn1: S16, yn2: S16) {
    var y := Lefts(frame);
    && (forall k :: 0 <= k < |frame| ==> frame[k].right == frame[k].left)
    && (forall k :: 0 <= k < |y| && SafeAt(data, c, k) ==> y[k] == Clamp(Recurrence(data, c, k, Previous(y, h, k))))
    && History(yn1, yn2) == Previous(y, h, |y|)
  }

  lemma ReachedIsDecoded(data: seq<Byte>, c: Coefficients, h: History, pairs: nat, frame: seq<Stereo>, yn1: S16,
                         yn2: S16)
    requires Covers(data, pairs) && |frame| == 2 * pairs && Reached(CodesOf(data, c, pairs), h, frame, yn1, yn2)
    ensures IsDecoded(data, c, h, frame, yn1, yn2)
  {
    var codes := CodesOf(data, c, pairs);
    var y := Samples(codes, h);
    assert Lefts(frame) == y;
    HistoryIsPrevious(codes, h);
    forall k | 0 <= k < |y| && SafeAt(data, c, k) ensures y[k] == Clamp(Recurrence(data, c, k, Previous(y, h, k))) {
      SampleOnBytes(data, c, h, pairs, k, y);
    }
  }
}
