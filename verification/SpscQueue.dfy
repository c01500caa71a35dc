/**
 The bounded ring shared by one producer and one consumer, as interleaved steps:
 every load, slot access, increment, lock, sleep, notification and unlock is a
 step of its own. Atomics are sequentially consistent; an index loaded into a
 local goes stale as soon as the other side moves on.
 */
module SpscQueue {
  import opened Wrappers
  import opened Modular

  datatype Mode = Try | Wait | WaitWithStopToken

  /** Who holds a mutex. */
  datatype Holder = Nobody | Prod | Cons

  /** A slot holds garbage while it is being written and after it has been moved from. */
  datatype Slot<T> = Hole | Full(value: T)

  /**
   Where a call of `Emplace` stands; `w` and `r` are its locally loaded indices, and `ok`
   is what the last call has returned.
   */
  datatype Producer<T> =
    | PIdle(ok: bool)
    | PStart(mode: Mode, v: T, w: nat)
    | PTryLoaded(v: T, w: nat, r: nat)
    | PWantLock(v: T, w: nat)
    | PHolding(v: T, w: nat)
    | PChecked(v: T, w: nat, r: nat)
    | PAsleep(v: T, w: nat)
    | PWrite(v: T, w: nat)
    | PWriting(v: T, w: nat)
    | PWritten(v: T)
    | PIncremented
    | PNotifying
    | PNotified

  /**
   Where a call of `Pop` stands; `t` is the caller's variable, once it has been assigned,
   and `got` what the last call has left in it, if it has not returned without a value.
   */
  datatype Consumer<T> =
    | CIdle(got: Option<Slot<T>>)
    | CStart(mode: Mode, r: nat)
    | CTryLoaded(r: nat, w: nat)
    | CWantLock(mode: Mode, r: nat)
    | CHolding(mode: Mode, r: nat)
    | CChecked(mode: Mode, r: nat, w: nat)
    | CAsleep(mode: Mode, r: nat)
    | CRead(r: nat)
    | CReading(r: nat)
    | CTaken(t: Slot<T>)
    | CIncremented(t: Slot<T>)
    | CNotifying(t: Slot<T>)
    | CNotified(t: Slot<T>)

  /**
   `stop` tells whether the stop token of the consumer's current call has been
   requested; `pushed` and `popped` record every value whose index increment has
   happened.
   */
  datatype State<T> = State(
    read: nat,
    write: nat,
    slots: seq<Slot<T>>,
    pmutex: Holder,
    cmutex: Holder,
    stop: bool,
    p: Producer<T>,
    c: Consumer<T>,
    pushed: seq<T>,
    popped: seq<Slot<T>>)

  /** The static assertion on the template parameter. */
  predicate ValidCapacity(cap: nat) {
    IsPow2(cap) && cap < WORD
  }

  ghost predicate Init<T>(cap: nat, s: State<T>) {
    && s.read == 0 && s.write == 0 && |s.slots| == cap
    && s.pmutex.Nobody? && s.cmutex.Nobody?
    && s.p.PIdle? && s.c.CIdle? && s.pushed == [] && s.popped == []
  }

  /** What `notify_one` on the consumer's and on the producer's condition variable does. */
  function WakeC<T>(c: Consumer<T>): Consumer<T> {
    if c.CAsleep? then CWantLock(c.mode, c.r) else c
  }

  function WakeP<T>(p: Producer<T>): Producer<T> {
    if p.PAsleep? then PWantLock(p.v, p.w) else p
  }

  /** One step of the producer. */
  ghost predicate PStep<T>(cap: nat, s: State<T>, s': State<T>)
    requires cap > 0 && |s.slots| == cap
  {
    match s.p
    case PIdle(_) => s'.p.PStart? && !s'.p.mode.WaitWithStopToken? && s'.p.w == s.write && s' == s.(p := s'.p)
    case PStart(mode, v, w) =>
      s' == s.(p := if mode.Try? then PTryLoaded(v, w, s.read) else PWantLock(v, w))
    case PTryLoaded(v, w, r) => s' == s.(p := if Sub(w, r) == cap then PIdle(false) else PWrite(v, w))
    case PWantLock(v, w) => s.pmutex.Nobody? && s' == s.(pmutex := Prod, p := PHolding(v, w))
    case PHolding(v, w) => s' == s.(p := PChecked(v, w, s.read))
    case PChecked(v, w, r) =>
      s' == s.(pmutex := Nobody, p := if Sub(w, r) < cap then PWrite(v, w) else PAsleep(v, w))
    case PAsleep(v, w) => s' == s.(p := PWantLock(v, w))  // a spurious wakeup
    case PWrite(v, w) => s' == s.(slots := s.slots[w % cap := Hole], p := PWriting(v, w))
    case PWriting(v, w) => s' == s.(slots := s.slots[w % cap := Full(v)], p := PWritten(v))
    case PWritten(v) => s' == s.(write := Inc(s.write), pushed := s.pushed + [v], p := PIncremented)
    case PIncremented => s.cmutex.Nobody? && s' == s.(cmutex := Prod, p := PNotifying)
    case PNotifying => s' == s.(c := WakeC(s.c), p := PNotified)
    case PNotified => s' == s.(cmutex := Nobody, p := PIdle(true))
  }

  /**
   One step of the consumer. A call comes with a stop token of its own, requested
   already or not; a stop request ends a stoppable wait without a value.
   */
  ghost predicate CStep<T>(cap: nat, s: State<T>, s': State<T>)
    requires cap > 0 && |s.slots| == cap
  {
    match s.c
    case CIdle(_) => s'.c.CStart? && s'.c.r == s.read && s' == s.(c := s'.c, stop := s'.stop)
    case CStart(mode, r) =>
      s' == s.(c := if mode.Try? then CTryLoaded(r, s.write) else CWantLock(mode, r))
    case CTryLoaded(r, w) => s' == s.(c := if r == w then CIdle(None) else CRead(r))
    case CWantLock(mode, r) => s.cmutex.Nobody? && s' == s.(cmutex := Cons, c := CHolding(mode, r))
    case CHolding(mode, r) => s' == s.(c := CChecked(mode, r, s.write))
    case CChecked(mode, r, w) =>
      s' == s.(cmutex := Nobody,
               c := if mode.WaitWithStopToken? && s.stop then CIdle(None)
                    else if r != w then CRead(r) else CAsleep(mode, r))
    case CAsleep(mode, r) => s' == s.(c := CWantLock(mode, r))  // a spurious wakeup or a stop request
    case CRead(r) => s' == s.(c := CReading(r))
    case CReading(r) => s' == s.(slots := s.slots[r % cap := Hole], c := CTaken(s.slots[r % cap]))
    case CTaken(t) => s' == s.(read := Inc(s.read), popped := s.popped + [t], c := CIncremented(t))
    case CIncremented(t) => s.pmutex.Nobody? && s' == s.(pmutex := Cons, c := CNotifying(t))
    case CNotifying(t) => s' == s.(p := WakeP(s.p), c := CNotified(t))
    case CNotified(t) => s' == s.(pmutex := Nobody, c := CIdle(Some(t)))
  }

  /** One step of anyone; stopping may be requested at any time. */
  ghost predicate Next<T>(cap: nat, s: State<T>, s': State<T>)
    requires cap > 0 && |s.slots| == cap
  {
    PStep(cap, s, s') || CStep(cap, s, s') || s' == s.(stop := true)
  }

  // ---------------------------------------------------------------- invariant

  /** How many values are in the queue. */
  function Count<T>(s: State<T>): int {
    |s.pushed| - |s.popped|
  }

  ghost predicate Counters<T>(cap: nat, s: State<T>) {
    && |s.slots| == cap && 0 <= Count(s) <= cap
    && s.write == |s.pushed| % WORD && s.read == |s.popped| % WORD
  }

  /** What has been popped is a prefix of what has been pushed; the rest is in the slots. */
  ghost predicate Contents<T>(cap: nat, s: State<T>)
    requires cap > 0 && |s.slots| == cap
  {
    && |s.popped| <= |s.pushed|
    && (forall i :: 0 <= i < |s.popped| ==> s.popped[i] == Full(s.pushed[i]))
    && (forall i :: |s.popped| + (if s.c.CTaken? then 1 else 0) <= i < |s.pushed| ==>
          s.slots[i % cap] == Full(s.pushed[i]))
    && (s.p.PWritten? ==> s.slots[|s.pushed| % cap] == Full(s.p.v))
    && (s.c.CTaken? ==> |s.popped| < |s.pushed| && s.c.t == Full(s.pushed[|s.popped|]))
  }

  /** The producer's loaded write index, while it has one. */
  function PIndex<T>(p: Producer<T>): Option<nat> {
    if p.PStart? || p.PTryLoaded? || p.PWantLock? || p.PHolding? ||
       p.PChecked? || p.PAsleep? || p.PWrite? || p.PWriting?
    then Some(p.w) else None
  }

  /** The consumer's loaded read index, while it has one. */
  function CIndex<T>(c: Consumer<T>): Option<nat> {
    if c.CStart? || c.CTryLoaded? || c.CWantLock? || c.CHolding? || c.CChecked? || c.CAsleep? || c.CRead? || c.CReading?
    then Some(c.r) else None
  }

  /** A stale index makes the queue look fuller to the producer and emptier to the consumer. */
  ghost predicate Locals<T>(cap: nat, s: State<T>) {
    PLocals(cap, s.p, s.write, Count(s)) && CLocals(s.c, s.read, Count(s))
  }

  ghost predicate PLocals<T>(cap: nat, p: Producer<T>, write: nat, count: int) {
    && (PIndex(p).Some? ==> PIndex(p).value == write)
    && (p.PTryLoaded? || p.PChecked? ==> count <= Sub(p.w, p.r) <= cap)
    && (p.PWrite? || p.PWriting? || p.PWritten? ==> count < cap)
  }

  ghost predicate CLocals<T>(c: Consumer<T>, read: nat, count: int) {
    && (CIndex(c).Some? ==> CIndex(c).value == read)
    && (c.CTryLoaded? || c.CChecked? ==> c.w < WORD && Sub(c.w, c.r) <= count)
    && (c.CRead? || c.CReading? || c.CTaken? ==> 0 < count)
  }

  ghost predicate Locks<T>(s: State<T>) {
    && (s.pmutex == Prod <==> s.p.PHolding? || s.p.PChecked?)
    && (s.pmutex == Cons <==> s.c.CNotifying? || s.c.CNotified?)
    && (s.cmutex == Cons <==> s.c.CHolding? || s.c.CChecked?)
    && (s.cmutex == Prod <==> s.p.PNotifying? || s.p.PNotified?)
  }

  /** Whoever sleeps, or is about to, beside work to be done has a notification coming. */
  ghost predicate Wakeups<T>(cap: nat, s: State<T>) {
    CWakeups(s.p, s.c, Count(s)) && PWakeups(cap, s.p, s.c, Count(s))
  }

  ghost predicate CWakeups<T>(p: Producer<T>, c: Consumer<T>, count: int) {
    && (c.CChecked? && c.r == c.w && 0 < count ==> p.PIncremented?)
    && (c.CAsleep? && 0 < count ==> p.PIncremented? || p.PNotifying?)
  }

  ghost predicate PWakeups<T>(cap: nat, p: Producer<T>, c: Consumer<T>, count: int) {
    && (p.PChecked? && Sub(p.w, p.r) == cap && count < cap ==> c.CIncremented?)
    && (p.PAsleep? && count < cap ==> c.CIncremented? || c.CNotifying?)
  }

  ghost predicate Inv<T>(cap: nat, s: State<T>)
    requires ValidCapacity(cap)
  {
    Counters(cap, s) && Contents(cap, s) && Locals(cap, s) && Locks(s) && Wakeups(cap, s)
  }

  lemma InitInv<T>(cap: nat, s: State<T>)
    requires ValidCapacity(cap) && Init(cap, s)
    ensures Inv(cap, s)
  {
  }

  /** The loaded indices give the exact count at the moment of the load. */
  lemma LoadIsExact<T>(cap: nat, s: State<T>)
    requires ValidCapacity(cap) && Counters(cap, s)
    ensures Sub(s.write, s.read) == Count(s)
  {
    SubOfCounters(|s.pushed|, |s.popped|);
  }

  /** Both sides address the slots of the counters they stand for. */
  lemma SlotsOfIndices<T>(cap: nat, s: State<T>)
    requires ValidCapacity(cap) && Counters(cap, s)
    ensures s.write % cap == |s.pushed| % cap && s.read % cap == |s.popped| % cap
  {
    SlotOfCounter(|s.pushed|, cap);
    SlotOfCounter(|s.popped|, cap);
  }

  /** Writing the next free slot leaves the values in the queue alone. */
  lemma FreeSlot<T>(cap: nat, s: State<T>)
    requires ValidCapacity(cap) && Counters(cap, s) && Count(s) < cap
    ensures forall i :: |s.popped| <= i < |s.pushed| ==> i % cap != |s.pushed| % cap
  {
    forall i | |s.popped| <= i < |s.pushed| ensures i % cap != |s.pushed| % cap {
      SlotsDiffer(|s.pushed|, i, cap);
    }
  }

  /** Moving out the oldest value leaves the other values alone. */
  lemma OldestSlot<T>(cap: nat, s: State<T>)
    requires ValidCapacity(cap) && Counters(cap, s)
    ensures forall i :: |s.popped| < i < |s.pushed| ==> i % cap != |s.popped| % cap
    ensures 0 < Count(s) < cap ==> |s.pushed| % cap != |s.popped| % cap
  {
    forall i | |s.popped| < i < |s.pushed| ensures i % cap != |s.popped| % cap {
      SlotsDiffer(i, |s.popped|, cap);
    }
    if 0 < Count(s) < cap {
      SlotsDiffer(|s.pushed|, |s.popped|, cap);
    }
  }

  lemma PStepCounters<T>(cap: nat, s: State<T>, s': State<T>)
    requires ValidCapacity(cap) && Counters(cap, s) && Locals(cap, s) && PStep(cap, s, s')
    ensures Counters(cap, s')
  {
    if s.p.PWritten? {
      IncOfCounter(|s.pushed|);
    }
  }

  lemma PStepPLocals<T>(cap: nat, s: State<T>, s': State<T>)
    requires ValidCapacity(cap) && Counters(cap, s) && PLocals(cap, s.p, s.write, Count(s)) && PStep(cap, s, s')
    ensures PLocals(cap, s'.p, s'.write, Count(s'))
  {
    LoadIsExact(cap, s);
    if s.p.PWritten? {
      assert PIndex(s'.p).None?;
    }
  }

  lemma PStepCLocals<T>(cap: nat, s: State<T>, s': State<T>)
    requires ValidCapacity(cap) && Counters(cap, s) && CLocals(s.c, s.read, Count(s)) && PStep(cap, s, s')
    ensures CLocals(s'.c, s'.read, Count(s'))
  {
    assert s'.read == s.read && Count(s') >= Count(s);
  }

  lemma CStepCounters<T>(cap: nat, s: State<T>, s': State<T>)
    requires ValidCapacity(cap) && Counters(cap, s) && Locals(cap, s) && CStep(cap, s, s')
    ensures Counters(cap, s')
  {
    if s.c.CTaken? {
      IncOfCounter(|s.popped|);
    }
  }

  lemma CStepPLocals<T>(cap: nat, s: State<T>, s': State<T>)
    requires ValidCapacity(cap) && Counters(cap, s) && PLocals(cap, s.p, s.write, Count(s)) && CStep(cap, s, s')
    ensures PLocals(cap, s'.p, s'.write, Count(s'))
  {
    assert s'.write == s.write && Count(s') <= Count(s);
  }

  lemma CStepCLocals<T>(cap: nat, s: State<T>, s': State<T>)
    requires ValidCapacity(cap) && Counters(cap, s) && CLocals(s.c, s.read, Count(s)) && CStep(cap, s, s')
    ensures CLocals(s'.c, s'.read, Count(s'))
  {
    LoadIsExact(cap, s);
    if s.c.CTryLoaded? || s.c.CChecked? {
      SubIsZero(s.c.w, s.c.r);
    }
  }

  /** Nothing that the contents depend on has changed. */
  ghost predicate SameContents<T>(s: State<T>, s': State<T>) {
    && s'.slots == s.slots && s'.pushed == s.pushed && s'.popped == s.popped
    && (s'.p.PWritten? ==> s'.p == s.p) && (s'.c.CTaken? <==> s.c.CTaken?) && (s'.c.CTaken? ==> s'.c == s.c)
  }

  lemma SameContentsKeep<T>(cap: nat, s: State<T>, s': State<T>)
    requires cap > 0 && |s.slots| == cap && Contents(cap, s) && SameContents(s, s')
    ensures |s'.slots| == cap && Contents(cap, s')
  {
  }

  lemma PStepSameContents<T>(cap: nat, s: State<T>, s': State<T>)
    requires cap > 0 && |s.slots| == cap && PStep(cap, s, s') && !(s.p.PWrite? || s.p.PWriting? || s.p.PWritten?)
    ensures SameContents(s, s')
  {
  }

  lemma CStepSameContents<T>(cap: nat, s: State<T>, s': State<T>)
    requires cap > 0 && |s.slots| == cap && CStep(cap, s, s') && !(s.c.CReading? || s.c.CTaken?)
    ensures SameContents(s, s')
  {
  }

  lemma PStores<T>(cap: nat, s: State<T>, s': State<T>)
    requires ValidCapacity(cap) && Counters(cap, s) && Locals(cap, s) && Contents(cap, s) && PStep(cap, s, s')
    requires s.p.PWrite? || s.p.PWriting? || s.p.PWritten?
    ensures |s'.slots| == cap && Contents(cap, s')
  {
    SlotsOfIndices(cap, s);
    FreeSlot(cap, s);
  }

  lemma CTakes<T>(cap: nat, s: State<T>, s': State<T>)
    requires ValidCapacity(cap) && Counters(cap, s) && Locals(cap, s) && Contents(cap, s) && CStep(cap, s, s')
    requires s.c.CReading? || s.c.CTaken?
    ensures |s'.slots| == cap && Contents(cap, s')
  {
    SlotsOfIndices(cap, s);
    OldestSlot(cap, s);
  }

  lemma PStepContents<T>(cap: nat, s: State<T>, s': State<T>)
    requires ValidCapacity(cap) && Counters(cap, s) && Locals(cap, s) && Contents(cap, s) && PStep(cap, s, s')
    ensures |s'.slots| == cap && Contents(cap, s')
  {
    if s.p.PWrite? || s.p.PWriting? || s.p.PWritten? {
      PStores(cap, s, s');
    } else {
      PStepSameContents(cap, s, s');
      SameContentsKeep(cap, s, s');
    }
  }

  lemma CStepContents<T>(cap: nat, s: State<T>, s': State<T>)
    requires ValidCapacity(cap) && Counters(cap, s) && Locals(cap, s) && Contents(cap, s) && CStep(cap, s, s')
    ensures |s'.slots| == cap && Contents(cap, s')
  {
    if s.c.CReading? || s.c.CTaken? {
      CTakes(cap, s, s');
    } else {
      CStepSameContents(cap, s, s');
      SameContentsKeep(cap, s, s');
    }
  }

  lemma PStepLocks<T>(cap: nat, s: State<T>, s': State<T>)
    requires cap > 0 && |s.slots| == cap && Locks(s) && PStep(cap, s, s')
    ensures Locks(s')
  {
  }

  lemma CStepLocks<T>(cap: nat, s: State<T>, s': State<T>)
    requires cap > 0 && |s.slots| == cap && Locks(s) && CStep(cap, s, s')
    ensures Locks(s')
  {
  }

  lemma PStepPWakeups<T>(cap: nat, s: State<T>, s': State<T>)
    requires ValidCapacity(cap) && Counters(cap, s) && PLocals(cap, s.p, s.write, Count(s)) && PStep(cap, s, s')
    requires PWakeups(cap, s.p, s.c, Count(s))
    ensures PWakeups(cap, s'.p, s'.c, Count(s'))
  {
    LoadIsExact(cap, s);
  }

  lemma PStepCWakeups<T>(cap: nat, s: State<T>, s': State<T>)
    requires ValidCapacity(cap) && Counters(cap, s) && Locks(s) && PStep(cap, s, s')
    requires CWakeups(s.p, s.c, Count(s))
    ensures CWakeups(s'.p, s'.c, Count(s'))
  {
  }

  lemma CStepPWakeups<T>(cap: nat, s: State<T>, s': State<T>)
    requires ValidCapacity(cap) && Counters(cap, s) && Locks(s) && CStep(cap, s, s')
    requires PWakeups(cap, s.p, s.c, Count(s))
    ensures PWakeups(cap, s'.p, s'.c, Count(s'))
  {
  }

  lemma CStepCWakeups<T>(cap: nat, s: State<T>, s': State<T>)
    requires ValidCapacity(cap) && Counters(cap, s) && CLocals(s.c, s.read, Count(s)) && CStep(cap, s, s')
    requires CWakeups(s.p, s.c, Count(s))
    ensures CWakeups(s'.p, s'.c, Count(s'))
  {
    LoadIsExact(cap, s);
    SubIsZero(s.write, s.read);
  }

  lemma PStepInv<T>(cap: nat, s: State<T>, s': State<T>)
    requires ValidCapacity(cap) && Inv(cap, s) && PStep(cap, s, s')
    ensures Inv(cap, s')
  {
    PStepCounters(cap, s, s');
    PStepPLocals(cap, s, s');
    PStepCLocals(cap, s, s');
    PStepContents(cap, s, s');
    PStepLocks(cap, s, s');
    PStepPWakeups(cap, s, s');
    PStepCWakeups(cap, s, s');
  }

  lemma CStepInv<T>(cap: nat, s: State<T>, s': State<T>)
    requires ValidCapacity(cap) && Inv(cap, s) && CStep(cap, s, s')
    ensures Inv(cap, s')
  {
    CStepCounters(cap, s, s');
    CStepPLocals(cap, s, s');
    CStepCLocals(cap, s, s');
    CStepContents(cap, s, s');
    CStepLocks(cap, s, s');
    CStepPWakeups(cap, s, s');
    CStepCWakeups(cap, s, s');
  }

  lemma NextInv<T>(cap: nat, s: State<T>, s': State<T>)
    requires ValidCapacity(cap) && Inv(cap, s) && Next(cap, s, s')
    ensures Inv(cap, s')
  {
    if PStep(cap, s, s') {
      PStepInv(cap, s, s');
    } else if CStep(cap, s, s') {
      CStepInv(cap, s, s');
    }
  }

  // ---------------------------------------------------------------- whole runs

  /** Any interleaving of one producer and one consumer. */
  ghost predicate IsRun<T>(cap: nat, run: seq<State<T>>)
    requires ValidCapacity(cap)
  {
    && |run| > 0 && Init(cap, run[0])
    && (forall i :: 0 <= i < |run| ==> |run[i].slots| == cap)
    && (forall i :: 0 <= i < |run| - 1 ==> Next(cap, run[i], run[i + 1]))
  }

  lemma {:induction false} RunInv<T>(cap: nat, run: seq<State<T>>, n: nat)
    requires ValidCapacity(cap) && IsRun(cap, run) && n < |run|
    ensures Inv(cap, run[n])
  {
    if n == 0 {
      InitInv(cap, run[0]);
    } else {
      RunInv(cap, run, n - 1);
      assert Next(cap, run[n - 1], run[n - 1 + 1]);
      NextInv(cap, run[n - 1], run[n]);
    }
  }

  /** The values in the queue, oldest first. */
  function Queue<T>(s: State<T>): seq<T>
    requires |s.popped| <= |s.pushed|
  {
    s.pushed[|s.popped|..]
  }

  /** What one step may do to a bounded first-in first-out queue that has handed out `out`. */
  ghost predicate FifoStep<T>(cap: nat, q: seq<T>, out: seq<Slot<T>>, q': seq<T>, out': seq<Slot<T>>) {
    || (q' == q && out' == out)
    || (|q| < cap && out' == out && |q'| == |q| + 1 && q' == q + [q'[|q|]])
    || (q != [] && q' == q[1..] && out' == out + [Full(q[0])])
  }

  lemma PStepIsFifoStep<T>(cap: nat, s: State<T>, s': State<T>)
    requires ValidCapacity(cap) && Counters(cap, s) && Locals(cap, s) && PStep(cap, s, s')
    ensures |s'.popped| <= |s'.pushed| && FifoStep(cap, Queue(s), s.popped, Queue(s'), s'.popped)
  {
    if s.p.PWritten? {
      assert Queue(s') == Queue(s) + [s.p.v];
    }
  }

  lemma CStepIsFifoStep<T>(cap: nat, s: State<T>, s': State<T>)
    requires ValidCapacity(cap) && Counters(cap, s) && Contents(cap, s) && CStep(cap, s, s')
    ensures |s'.popped| <= |s'.pushed| && FifoStep(cap, Queue(s), s.popped, Queue(s'), s'.popped)
  {
    if s.c.CTaken? {
      assert Queue(s') == Queue(s)[1..] && Queue(s)[0] == s.pushed[|s.popped|];
    }
  }

  lemma NextIsFifoStep<T>(cap: nat, s: State<T>, s': State<T>)
    requires ValidCapacity(cap) && Inv(cap, s) && Next(cap, s, s')
    ensures |s'.popped| <= |s'.pushed| && FifoStep(cap, Queue(s), s.popped, Queue(s'), s'.popped)
  {
    if PStep(cap, s, s') {
      PStepIsFifoStep(cap, s, s');
    } else if CStep(cap, s, s') {
      CStepIsFifoStep(cap, s, s');
    }
  }

  /**
   Every run refines a bounded first-in first-out queue: the count stays in
   `0..cap` and is what the wrapped indices differ by, what has been popped is a
   prefix of what has been pushed, and every step is a step of such a queue.
   */
  lemma RunRefinesFifo<T>(cap: nat, run: seq<State<T>>, n: nat)
    requires ValidCapacity(cap) && IsRun(cap, run) && n < |run|
    ensures var s := run[n];
            && 0 <= Count(s) <= cap && Sub(s.write, s.read) == Count(s)
            && (forall i :: 0 <= i < |s.popped| ==> s.popped[i] == Full(s.pushed[i]))
            && (n + 1 < |run| ==>
                  |run[n + 1].popped| <= |run[n + 1].pushed| &&
                      FifoStep(cap, Queue(s), s.popped, Queue(run[n + 1]), run[n + 1].popped))
  {
    RunInv(cap, run, n);
    LoadIsExact(cap, run[n]);
    if n + 1 < |run| {
      NextIsFifoStep(cap, run[n], run[n + 1]);
    }
  }

  /** No slot is written while it is read, however stale the loaded indices are. */
  lemma NoSlotIsShared<T>(cap: nat, run: seq<State<T>>, n: nat)
    requires ValidCapacity(cap) && IsRun(cap, run) && n < |run|
    ensures var s := run[n]; s.p.PWriting? && s.c.CReading? ==> s.p.w % cap != s.c.r % cap
  {
    RunInv(cap, run, n);
    var s := run[n];
    SlotsOfIndices(cap, s);
    OldestSlot(cap, s);
  }

  lemma PTryLoads<T>(cap: nat, s: State<T>, s': State<T>)
    requires cap > 0 && |s.slots| == cap && PLocals(cap, s.p, s.write, Count(s)) && PStep(cap, s, s')
    requires s'.p.PTryLoaded?
    ensures s'.p.w == s.write && s'.p.r == s.read
  {
  }

  lemma CTryLoads<T>(cap: nat, s: State<T>, s': State<T>)
    requires cap > 0 && |s.slots| == cap && CLocals(s.c, s.read, Count(s)) && CStep(cap, s, s') && s'.c.CTryLoaded?
    ensures s'.c.r == s.read && s'.c.w == s.write
  {
  }

  /** A try that is about to fail found the queue full, or empty, when it loaded the other index. */
  lemma TryFailsForCause<T>(cap: nat, s: State<T>, s': State<T>)
    requires ValidCapacity(cap) && Inv(cap, s)
    ensures PStep(cap, s, s') && s'.p.PTryLoaded? ==> (Sub(s'.p.w, s'.p.r) == cap <==> |Queue(s)| == cap)
    ensures CStep(cap, s, s') && s'.c.CTryLoaded? ==> (s'.c.r == s'.c.w <==> Queue(s) == [])
  {
    LoadIsExact(cap, s);
    SubIsZero(s.write, s.read);
    if PStep(cap, s, s') && s'.p.PTryLoaded? {
      PTryLoads(cap, s, s');
    }
    if CStep(cap, s, s') && s'.c.CTryLoaded? {
      CTryLoads(cap, s, s');
    }
  }

  // ---------------------------------------------------------------- waiting

  /** No step of its own but a spurious wakeup is open to it. */
  predicate PStuck<T>(s: State<T>) {
    s.p.PAsleep? || (s.p.PWantLock? && s.pmutex != Nobody) || (s.p.PIncremented? && s.cmutex != Nobody)
  }

  predicate CStuck<T>(s: State<T>) {
    s.c.CAsleep? || (s.c.CWantLock? && s.cmutex != Nobody) || (s.c.CIncremented? && s.pmutex != Nobody)
  }

  lemma PStepOpen<T>(cap: nat, s: State<T>, v: T)
    requires ValidCapacity(cap) && |s.slots| == cap && !PStuck(s)
    ensures exists s' :: PStep(cap, s, s')
  {
    match s.p {
      case PIdle(_) => assert PStep(cap, s, s.(p := PStart(Wait, v, s.write)));
      case PStart(mode, v, w) =>
        assert PStep(cap, s, s.(p := if mode.Try? then PTryLoaded(v, w, s.read) else PWantLock(v, w)));
      case PTryLoaded(v, w, r) =>
        assert PStep(cap, s, s.(p := if Sub(w, r) == cap then PIdle(false) else PWrite(v, w)));
      case PWantLock(v, w) => assert PStep(cap, s, s.(pmutex := Prod, p := PHolding(v, w)));
      case PHolding(v, w) => assert PStep(cap, s, s.(p := PChecked(v, w, s.read)));
      case PChecked(v, w, r) =>
        assert PStep(cap, s, s.(pmutex := Nobody, p := if Sub(w, r) < cap then PWrite(v, w) else PAsleep(v, w)));
      case PWrite(v, w) => assert PStep(cap, s, s.(slots := s.slots[w % cap := Hole], p := PWriting(v, w)));
      case PWriting(v, w) => assert PStep(cap, s, s.(slots := s.slots[w % cap := Full(v)], p := PWritten(v)));
      case PWritten(v) => assert PStep(cap, s, s.(write := Inc(s.write), pushed := s.pushed + [v], p := PIncremented));
      case PIncremented => assert PStep(cap, s, s.(cmutex := Prod, p := PNotifying));
      case PNotifying => assert PStep(cap, s, s.(c := WakeC(s.c), p := PNotified));
      case PNotified => assert PStep(cap, s, s.(cmutex := Nobody, p := PIdle(true)));
      case PAsleep(_, _) =>
    }
  }

  lemma CStepOpen<T>(cap: nat, s: State<T>)
    requires ValidCapacity(cap) && |s.slots| == cap && !CStuck(s)
    ensures exists s' :: CStep(cap, s, s')
  {
    match s.c {
      case CIdle(_) => assert CStep(cap, s, s.(c := CStart(Wait, s.read)));
      case CStart(mode, r) =>
        assert CStep(cap, s, s.(c := if mode.Try? then CTryLoaded(r, s.write) else CWantLock(mode, r)));
      case CTryLoaded(r, w) => assert CStep(cap, s, s.(c := if r == w then CIdle(None) else CRead(r)));
      case CWantLock(mode, r) => assert CStep(cap, s, s.(cmutex := Cons, c := CHolding(mode, r)));
      case CHolding(mode, r) => assert CStep(cap, s, s.(c := CChecked(mode, r, s.write)));
      case CChecked(mode, r, w) =>
        assert CStep(cap, s, s.(cmutex := Nobody,
                                c := if mode.WaitWithStopToken? && s.stop then CIdle(None)
                                     else if r != w then CRead(r) else CAsleep(mode, r)));
      case CRead(r) => assert CStep(cap, s, s.(c := CReading(r)));
      case CReading(r) => assert CStep(cap, s, s.(slots := s.slots[r % cap := Hole], c := CTaken(s.slots[r % cap])));
      case CTaken(t) => assert CStep(cap, s, s.(read := Inc(s.read), popped := s.popped + [t], c := CIncremented(t)));
      case CIncremented(t) => assert CStep(cap, s, s.(pmutex := Cons, c := CNotifying(t)));
      case CNotifying(t) => assert CStep(cap, s, s.(p := WakeP(s.p), c := CNotified(t)));
      case CNotified(t) => assert CStep(cap, s, s.(pmutex := Nobody, c := CIdle(Some(t))));
      case CAsleep(_, _) =>
    }
  }

  /** Who is not stuck can move; `v` is what the producer may be asked to push. */
  lemma StepOpen<T>(cap: nat, s: State<T>, v: T)
    requires ValidCapacity(cap) && |s.slots| == cap
    ensures !PStuck(s) ==> exists s' :: PStep(cap, s, s')
    ensures !CStuck(s) ==> exists s' :: CStep(cap, s, s')
  {
    if !PStuck(s) {
      PStepOpen(cap, s, v);
    }
    if !CStuck(s) {
      CStepOpen(cap, s);
    }
  }

  /**
   No lost wakeup: beside a value in the queue the consumer sleeps only while the
   producer is on its way from its increment to its notification, and beside a
   free slot the producer sleeps only while the consumer is on its way.
   */
  lemma NoLostWakeup<T>(cap: nat, run: seq<State<T>>, n: nat)
    requires ValidCapacity(cap) && IsRun(cap, run) && n < |run|
    ensures var s := run[n];
            && |s.popped| <= |s.pushed|
            && (s.c.CAsleep? && Queue(s) != [] ==> !PStuck(s) && (s.p.PIncremented? || s.p.PNotifying?))
            && (s.p.PAsleep? && |Queue(s)| < cap ==> !CStuck(s) && (s.c.CIncremented? || s.c.CNotifying?))
  {
    RunInv(cap, run, n);
  }

  lemma StuckApart<T>(cap: nat, s: State<T>)
    requires ValidCapacity(cap) && Inv(cap, s)
    ensures !(PStuck(s) && CStuck(s))
  {
  }

  /** The two sides are never stuck together; in particular they are never both asleep. */
  lemma NoDeadlock<T>(cap: nat, run: seq<State<T>>, n: nat)
    requires ValidCapacity(cap) && IsRun(cap, run) && n < |run|
    ensures !(PStuck(run[n]) && CStuck(run[n]))
  {
    RunInv(cap, run, n);
    StuckApart(cap, run[n]);
  }

  // ---------------------------------------------------------------- what a call does

  /** Step `i` of a run starts a call of `Emplace`, and state `j` is the first in which it has returned. */
  ghost predicate IsEmplace<T>(run: seq<State<T>>, i: nat, j: nat) {
    && i + 1 < j < |run| && run[i].p.PIdle? && run[i + 1].p.PStart? && run[j].p.PIdle?
    && forall m :: i < m < j ==> !run[m].p.PIdle?
  }

  /** Where a call stands that pushes `v`, the values pushed before it being `before`. */
  ghost predicate Emplacing<T>(before: seq<T>, mode: Mode, v: T, s: State<T>) {
    match s.p
    case PStart(m, x, _) => m == mode && x == v && s.pushed == before
    case PTryLoaded(x, _, _) => mode.Try? && x == v && s.pushed == before
    case PWantLock(x, _) => !mode.Try? && x == v && s.pushed == before
    case PHolding(x, _) => !mode.Try? && x == v && s.pushed == before
    case PChecked(x, _, _) => !mode.Try? && x == v && s.pushed == before
    case PAsleep(x, _) => !mode.Try? && x == v && s.pushed == before
    case PWrite(x, _) => x == v && s.pushed == before
    case PWriting(x, _) => x == v && s.pushed == before
    case PWritten(x) => x == v && s.pushed == before
    case PIdle(ok) => if ok then s.pushed == before + [v] else mode.Try? && s.pushed == before
    case _ => s.pushed == before + [v]
  }

  lemma EmplaceOwnStep<T>(cap: nat, before: seq<T>, mode: Mode, v: T, s: State<T>, s': State<T>)
    requires cap > 0 && |s.slots| == cap && Emplacing(before, mode, v, s) && !s.p.PIdle? && PStep(cap, s, s')
    ensures Emplacing(before, mode, v, s')
  {
  }

  lemma EmplaceOtherStep<T>(cap: nat, before: seq<T>, mode: Mode, v: T, s: State<T>, s': State<T>)
    requires cap > 0 && |s.slots| == cap && Emplacing(before, mode, v, s)
    requires CStep(cap, s, s') || s' == s.(stop := true)
    ensures Emplacing(before, mode, v, s')
  {
    OthersLeaveProducer(cap, s, s');
  }

  /** The other side may wake the producer, and leaves it alone otherwise. */
  lemma OthersLeaveProducer<T>(cap: nat, s: State<T>, s': State<T>)
    requires cap > 0 && |s.slots| == cap && (CStep(cap, s, s') || s' == s.(stop := true))
    ensures s'.pushed == s.pushed && (s'.p == s.p || s'.p == WakeP(s.p))
  {
  }

  lemma OthersLeaveConsumer<T>(cap: nat, s: State<T>, s': State<T>)
    requires cap > 0 && |s.slots| == cap && (PStep(cap, s, s') || s' == s.(stop := true))
    ensures s'.popped == s.popped && (s'.c == s.c || s'.c == WakeC(s.c)) && (s.stop ==> s'.stop)
  {
  }

  lemma {:induction false} EmplaceGoesOn<T>(cap: nat, run: seq<State<T>>, i: nat, j: nat, m: nat)
    requires ValidCapacity(cap) && IsRun(cap, run) && IsEmplace(run, i, j) && i < m <= j
    ensures Emplacing(run[i].pushed, run[i + 1].p.mode, run[i + 1].p.v, run[m])
  {
    var l := m - 1;
    var s, s' := run[l], run[m];
    assert Next(cap, run[l], run[l + 1]);
    if l == i {
      StartsEmplace(cap, s, s');
    } else {
      EmplaceGoesOn(cap, run, i, j, l);
      if PStep(cap, s, s') {
        EmplaceOwnStep(cap, run[i].pushed, run[i + 1].p.mode, run[i + 1].p.v, s, s');
      } else {
        EmplaceOtherStep(cap, run[i].pushed, run[i + 1].p.mode, run[i + 1].p.v, s, s');
      }
    }
  }

  lemma StartsEmplace<T>(cap: nat, s: State<T>, s': State<T>)
    requires cap > 0 && |s.slots| == cap && s.p.PIdle? && s'.p.PStart? && Next(cap, s, s')
    ensures Emplacing(s.pushed, s'.p.mode, s'.p.v, s')
  {
  }

  /**
   Every finished call of `Emplace` has pushed exactly its own value if it has returned
   true, and nothing if it has returned false, which only a try can do.
   */
  lemma EmplacePushes<T>(cap: nat, run: seq<State<T>>, i: nat, j: nat)
    requires ValidCapacity(cap) && IsRun(cap, run) && IsEmplace(run, i, j)
    ensures run[j].pushed == run[i].pushed + if run[j].p.ok then [run[i + 1].p.v] else []
    ensures !run[j].p.ok ==> run[i + 1].p.mode.Try?
  {
    EmplaceGoesOn(cap, run, i, j, j);
  }

  /** Where a try stands that has found the queue full, or not. */
  ghost predicate Decided<T>(cap: nat, full: bool, s: State<T>) {
    match s.p
    case PTryLoaded(_, w, r) => full <==> Sub(w, r) == cap
    case PIdle(ok) => ok <==> !full
    case PStart(_, _, _) => false
    case PWantLock(_, _) => false
    case PHolding(_, _) => false
    case PChecked(_, _, _) => false
    case PAsleep(_, _) => false
    case _ => !full
  }

  lemma DecidedOwnStep<T>(cap: nat, full: bool, s: State<T>, s': State<T>)
    requires cap > 0 && |s.slots| == cap && Decided(cap, full, s) && !s.p.PIdle? && PStep(cap, s, s')
    ensures Decided(cap, full, s')
  {
  }

  lemma DecidedOtherStep<T>(cap: nat, full: bool, s: State<T>, s': State<T>)
    requires cap > 0 && |s.slots| == cap && Decided(cap, full, s) && (CStep(cap, s, s') || s' == s.(stop := true))
    ensures Decided(cap, full, s')
  {
    OthersLeaveProducer(cap, s, s');
  }

  /** The step in which a try decides: it loads the other index. */
  lemma EmplaceDecides<T>(cap: nat, s: State<T>, s': State<T>)
    requires ValidCapacity(cap) && Inv(cap, s) && s.p.PStart? && s.p.mode.Try? && Next(cap, s, s')
    ensures s'.p == s.p || Decided(cap, |Queue(s)| == cap, s')
  {
    if PStep(cap, s, s') {
      TryFailsForCause(cap, s, s');
    } else {
      OthersLeaveProducer(cap, s, s');
    }
  }

  lemma {:induction false} EmplaceDecidesBy<T>(cap: nat, run: seq<State<T>>, i: nat, j: nat, m: nat) returns (l: nat)
    requires ValidCapacity(cap) && IsRun(cap, run) && IsEmplace(run, i, j) && run[i + 1].p.mode.Try? && i < m <= j
    ensures run[m].p == run[i + 1].p || (i < l < m && HasLoaded(cap, run[l], run[m]))
  {
    hide Inv, PStep, CStep;
    l := i;
    if m > i + 1 {
      var k := m - 1;
      l := EmplaceDecidesBy(cap, run, i, j, k);
      RunInv(cap, run, k);
      assert Next(cap, run[k], run[k + 1]);
      var s, s' := run[k], run[m];
      if s.p == run[i + 1].p {
        l := k;
        EmplaceDecides(cap, s, s');
        QueueIsShort(cap, s);
      } else if PStep(cap, s, s') {
        DecidedOwnStep(cap, |Queue(run[l])| == cap, s, s');
      } else {
        DecidedOtherStep(cap, |Queue(run[l])| == cap, s, s');
      }
    }
  }

  /** A try stands where it does, having found the queue as it was in state `at`. */
  ghost predicate HasLoaded<T>(cap: nat, at: State<T>, s: State<T>) {
    |at.popped| <= |at.pushed| && Decided(cap, |Queue(at)| == cap, s)
  }

  lemma QueueIsShort<T>(cap: nat, s: State<T>)
    requires ValidCapacity(cap) && Inv(cap, s)
    ensures |s.popped| <= |s.pushed| && |Queue(s)| <= cap
  {
  }

  /** A try of `Emplace` fails if and only if the queue was full when it loaded the other index. */
  lemma TryEmplaceIsExact<T>(cap: nat, run: seq<State<T>>, i: nat, j: nat) returns (l: nat)
    requires ValidCapacity(cap) && IsRun(cap, run) && IsEmplace(run, i, j) && run[i + 1].p.mode.Try?
    ensures i < l < j && |run[l].popped| <= |run[l].pushed|
    ensures run[j].p.ok <==> |Queue(run[l])| < cap
  {
    hide Inv, PStep, CStep;
    l := EmplaceDecidesBy(cap, run, i, j, j);
    RunInv(cap, run, l);
    QueueIsShort(cap, run[l]);
  }

  /** Step `i` of a run starts a call of `Pop`, and state `j` is the first in which it has returned. */
  ghost predicate IsPop<T>(run: seq<State<T>>, i: nat, j: nat) {
    && i + 1 < j < |run| && run[i].c.CIdle? && run[i + 1].c.CStart? && run[j].c.CIdle?
    && forall m :: i < m < j ==> !run[m].c.CIdle?
  }

  /** Where a call stands that pops, the values popped before it being `before`. */
  ghost predicate Popping<T>(before: seq<Slot<T>>, mode: Mode, s: State<T>) {
    match s.c
    case CStart(m, _) => m == mode && s.popped == before
    case CTryLoaded(_, _) => mode.Try? && s.popped == before
    case CWantLock(m, _) => m == mode && !mode.Try? && s.popped == before
    case CHolding(m, _) => m == mode && !mode.Try? && s.popped == before
    case CChecked(m, _, _) => m == mode && !mode.Try? && s.popped == before
    case CAsleep(m, _) => m == mode && !mode.Try? && s.popped == before
    case CRead(_) => s.popped == before
    case CReading(_) => s.popped == before
    case CTaken(_) => s.popped == before
    case CIncremented(t) => s.popped == before + [t]
    case CNotifying(t) => s.popped == before + [t]
    case CNotified(t) => s.popped == before + [t]
    case CIdle(got) =>
      if got.Some? then s.popped == before + [got.value]
      else (mode.Try? || (mode.WaitWithStopToken? && s.stop)) && s.popped == before
  }

  lemma StartsPop<T>(cap: nat, s: State<T>, s': State<T>)
    requires cap > 0 && |s.slots| == cap && s.c.CIdle? && s'.c.CStart? && Next(cap, s, s')
    ensures Popping(s.popped, s'.c.mode, s')
  {
  }

  lemma PopOwnStep<T>(cap: nat, before: seq<Slot<T>>, mode: Mode, s: State<T>, s': State<T>)
    requires cap > 0 && |s.slots| == cap && Popping(before, mode, s) && !s.c.CIdle? && CStep(cap, s, s')
    ensures Popping(before, mode, s')
  {
  }

  lemma PopOtherStep<T>(cap: nat, before: seq<Slot<T>>, mode: Mode, s: State<T>, s': State<T>)
    requires cap > 0 && |s.slots| == cap && Popping(before, mode, s) && (PStep(cap, s, s') || s' == s.(stop := true))
    ensures Popping(before, mode, s')
  {
    OthersLeaveConsumer(cap, s, s');
  }

  lemma {:induction false} PopGoesOn<T>(cap: nat, run: seq<State<T>>, i: nat, j: nat, m: nat)
    requires ValidCapacity(cap) && IsRun(cap, run) && IsPop(run, i, j) && i < m <= j
    ensures Popping(run[i].popped, run[i + 1].c.mode, run[m])
  {
    hide PStep, CStep;
    var l := m - 1;
    var s, s' := run[l], run[m];
    assert Next(cap, run[l], run[l + 1]);
    if l == i {
      StartsPop(cap, s, s');
    } else {
      PopGoesOn(cap, run, i, j, l);
      if CStep(cap, s, s') {
        PopOwnStep(cap, run[i].popped, run[i + 1].c.mode, s, s');
      } else {
        PopOtherStep(cap, run[i].popped, run[i + 1].c.mode, s, s');
      }
    }
  }

  /**
   Every finished call of `Pop` has popped one value, the oldest one not popped before,
   and left it in the caller's variable; or it has popped none, which only a try can do,
   or a stoppable call whose token has been requested.
   */
  lemma PopTakes<T>(cap: nat, run: seq<State<T>>, i: nat, j: nat)
    requires ValidCapacity(cap) && IsRun(cap, run) && IsPop(run, i, j)
    ensures var mode, got, k := run[i + 1].c.mode, run[j].c.got, |run[i].popped|;
            if got.None? then
              run[j].popped == run[i].popped && (mode.Try? || (mode.WaitWithStopToken? && run[j].stop))
            else
              && run[j].popped == run[i].popped + [got.value]
              && k < |run[j].pushed| && got.value == Full(run[j].pushed[k])
  {
    hide PStep, CStep;
    PopGoesOn(cap, run, i, j, j);
    RunInv(cap, run, j);
    if run[j].c.got.Some? {
      assert run[j].popped[|run[i].popped|] == run[j].c.got.value;
    }
  }

  /** A stoppable call whose token was requested before it began: it takes nothing. */
  ghost predicate Refusing<T>(s: State<T>) {
    s.stop && match s.c
    case CStart(m, _) => m.WaitWithStopToken?
    case CWantLock(m, _) => m.WaitWithStopToken?
    case CHolding(m, _) => m.WaitWithStopToken?
    case CChecked(m, _, _) => m.WaitWithStopToken?
    case CAsleep(m, _) => m.WaitWithStopToken?
    case CIdle(got) => got.None?
    case _ => false
  }

  lemma RefusingStep<T>(cap: nat, s: State<T>, s': State<T>)
    requires cap > 0 && |s.slots| == cap && Refusing(s) && !s.c.CIdle? && Next(cap, s, s')
    ensures Refusing(s')
  {
    if !CStep(cap, s, s') {
      OthersLeaveConsumer(cap, s, s');
    }
  }

  lemma {:induction false} StoppedPopGoesOn<T>(cap: nat, run: seq<State<T>>, i: nat, j: nat, m: nat)
    requires ValidCapacity(cap) && IsRun(cap, run) && IsPop(run, i, j) && i < m <= j
    requires run[i + 1].c.mode.WaitWithStopToken? && run[i + 1].stop
    ensures Refusing(run[m])
  {
    hide PStep, CStep;
    if m > i + 1 {
      var l := m - 1;
      StoppedPopGoesOn(cap, run, i, j, l);
      assert Next(cap, run[l], run[l + 1]);
      RefusingStep(cap, run[l], run[m]);
    }
  }

  lemma StoppedPopTakesNothing<T>(cap: nat, run: seq<State<T>>, i: nat, j: nat)
    requires ValidCapacity(cap) && IsRun(cap, run) && IsPop(run, i, j)
    requires run[i + 1].c.mode.WaitWithStopToken? && run[i + 1].stop
    ensures run[j].c.got.None? && run[j].popped == run[i].popped
  {
    hide PStep, CStep;
    StoppedPopGoesOn(cap, run, i, j, j);
    PopTakes(cap, run, i, j);
  }

  /** Where a try of `Pop` stands that has found the queue empty, or not. */
  ghost predicate PopDecided<T>(empty: bool, s: State<T>) {
    match s.c
    case CTryLoaded(r, w) => empty <==> r == w
    case CIdle(got) => empty <==> got.None?
    case CStart(_, _) => false
    case CWantLock(_, _) => false
    case CHolding(_, _) => false
    case CChecked(_, _, _) => false
    case CAsleep(_, _) => false
    case _ => !empty
  }

  lemma PopDecidedStep<T>(cap: nat, empty: bool, s: State<T>, s': State<T>)
    requires cap > 0 && |s.slots| == cap && PopDecided(empty, s) && !s.c.CIdle? && Next(cap, s, s')
    ensures PopDecided(empty, s')
  {
    if !CStep(cap, s, s') {
      OthersLeaveConsumer(cap, s, s');
    }
  }

  lemma PopDecides<T>(cap: nat, s: State<T>, s': State<T>)
    requires ValidCapacity(cap) && Inv(cap, s) && s.c.CStart? && s.c.mode.Try? && Next(cap, s, s')
    ensures |s.popped| <= |s.pushed| && (s'.c == s.c || PopDecided(Queue(s) == [], s'))
  {
    if CStep(cap, s, s') {
      TryFailsForCause(cap, s, s');
    } else {
      OthersLeaveConsumer(cap, s, s');
    }
  }

  /** The queue was empty in state `at`, or not, and a try that has found it so stands where it does. */
  ghost predicate HasFound<T>(at: State<T>, s: State<T>) {
    |at.popped| <= |at.pushed| && PopDecided(Queue(at) == [], s)
  }

  lemma {:induction false} PopDecidesBy<T>(cap: nat, run: seq<State<T>>, i: nat, j: nat, m: nat) returns (l: nat)
    requires ValidCapacity(cap) && IsRun(cap, run) && IsPop(run, i, j) && run[i + 1].c.mode.Try? && i < m <= j
    ensures run[m].c == run[i + 1].c || (i < l < m && HasFound(run[l], run[m]))
  {
    hide Inv, PStep, CStep;
    l := i;
    if m > i + 1 {
      var k := m - 1;
      l := PopDecidesBy(cap, run, i, j, k);
      RunInv(cap, run, k);
      assert Next(cap, run[k], run[k + 1]);
      var s, s' := run[k], run[m];
      if s.c == run[i + 1].c {
        l := k;
        PopDecides(cap, s, s');
      } else {
        PopDecidedStep(cap, Queue(run[l]) == [], s, s');
      }
    }
  }

  /** A try of `Pop` fails if and only if the queue was empty when it loaded the other index. */
  lemma TryPopIsExact<T>(cap: nat, run: seq<State<T>>, i: nat, j: nat) returns (l: nat)
    requires ValidCapacity(cap) && IsRun(cap, run) && IsPop(run, i, j) && run[i + 1].c.mode.Try?
    ensures i < l < j && |run[l].popped| <= |run[l].pushed|
    ensures run[j].c.got.None? <==> Queue(run[l]) == []
  {
    hide Inv, PStep, CStep;
    l := PopDecidesBy(cap, run, i, j, j);
  }
}
