/**
 Any number of producers and consumers in front of one ring: a writer enters it
 under `write_mutex`, a reader under `read_mutex`, and each holds its mutex for
 one whole call of the single-producer, single-consumer queue.
 */
module MpmcQueue {
  import opened Wrappers
  import opened SpscQueue

  /** The thread holding a mutex, and whether its call of the inner queue has begun. */
  datatype Owner = Owner(thread: nat, begun: bool)

  /** A value that went in or came out, with the number of the lock acquisition it happened under. */
  datatype Entry<V> = Entry(ticket: nat, thread: nat, value: V)

  datatype MState<T> = MState(
    q: State<T>,
    writer: Option<Owner>,
    reader: Option<Owner>,
    writersWaiting: set<nat>,
    readersWaiting: set<nat>,
    writeTickets: nat,
    readTickets: nat,
    writeLog: seq<Entry<T>>,
    readLog: seq<Entry<Slot<T>>>)

  ghost predicate MInit<T>(cap: nat, s: MState<T>) {
    && Init(cap, s.q) && s.writer.None? && s.reader.None? && s.writersWaiting == {} && s.readersWaiting == {}
    && s.writeTickets == 0 && s.readTickets == 0 && s.writeLog == [] && s.readLog == []
  }

  /** The thread is not in the middle of a call. */
  predicate Outside<T>(s: MState<T>, t: nat) {
    && t !in s.writersWaiting && t !in s.readersWaiting
    && (s.writer.Some? ==> s.writer.value.thread != t) && (s.reader.Some? ==> s.reader.value.thread != t)
  }

  /** The writer that holds the mutex takes one step of `Emplace`; a call is made once. */
  ghost predicate InnerWrite<T>(cap: nat, s: MState<T>, s': MState<T>, t: nat)
    requires cap > 0 && |s.q.slots| == cap
  {
    && s.writer.Some? && s.writer.value.thread == t && (s.q.p.PIdle? <==> !s.writer.value.begun)
    && PStep(cap, s.q, s'.q)
    && s' == s.(q := s'.q, writer := Some(Owner(t, true)),
                writeLog := if s.q.p.PWritten? then s.writeLog + [Entry(s.writeTickets, t, s.q.p.v)] else s.writeLog)
  }

  ghost predicate InnerRead<T>(cap: nat, s: MState<T>, s': MState<T>, t: nat)
    requires cap > 0 && |s.q.slots| == cap
  {
    && s.reader.Some? && s.reader.value.thread == t && (s.q.c.CIdle? <==> !s.reader.value.begun)
    && CStep(cap, s.q, s'.q)
    && s' == s.(q := s'.q, reader := Some(Owner(t, true)),
                readLog := if s.q.c.CTaken? then s.readLog + [Entry(s.readTickets, t, s.q.c.t)] else s.readLog)
  }

  /** Queue up for a mutex, take it, or give it back once the call has returned. */
  ghost predicate LockStep<T>(s: MState<T>, s': MState<T>, t: nat) {
    || (Outside(s, t) && s' == s.(writersWaiting := s.writersWaiting + {t}))
    || (Outside(s, t) && s' == s.(readersWaiting := s.readersWaiting + {t}))
    || (s.writer.None? && t in s.writersWaiting &&
        s' == s.(writer := Some(Owner(t, false)), writersWaiting := s.writersWaiting - {t},
            writeTickets := s.writeTickets + 1))
    || (s.reader.None? && t in s.readersWaiting &&
        s' == s.(reader := Some(Owner(t, false)), readersWaiting := s.readersWaiting - {t},
            readTickets := s.readTickets + 1))
    || (s.writer == Some(Owner(t, true)) && s.q.p.PIdle? && s' == s.(writer := None))
    || (s.reader == Some(Owner(t, true)) && s.q.c.CIdle? && s' == s.(reader := None))
  }

  ghost predicate MStep<T>(cap: nat, s: MState<T>, s': MState<T>, t: nat)
    requires cap > 0 && |s.q.slots| == cap
  {
    || InnerWrite(cap, s, s', t) || InnerRead(cap, s, s', t) || LockStep(s, s', t)
    || s' == s.(q := s.q.(stop := true))
  }

  ghost predicate MNext<T>(cap: nat, s: MState<T>, s': MState<T>)
    requires cap > 0 && |s.q.slots| == cap
  {
    exists t :: MStep(cap, s, s', t)
  }

  // ---------------------------------------------------------------- invariant

  /** Entries made under ever later acquisitions, none of them after number `last`. */
  ghost predicate InLockOrder<V>(log: seq<Entry<V>>, last: nat) {
    && (forall i, j :: 0 <= i < j < |log| ==> log[i].ticket < log[j].ticket)
    && (forall i :: 0 <= i < |log| ==> log[i].ticket <= last)
  }

  /** The write log is what was pushed, and the current writer has at most one entry in it. */
  ghost predicate WriteSide<T>(s: MState<T>) {
    && |s.writeLog| == |s.q.pushed| && (forall i :: 0 <= i < |s.writeLog| ==> s.writeLog[i].value == s.q.pushed[i])
    && InLockOrder(s.writeLog, s.writeTickets)
    && (s.writer.None? ==> s.q.p.PIdle?)
    && (s.writer.Some? && !s.writer.value.begun ==> s.q.p.PIdle?)
    && (s.writer.Some? && (!s.writer.value.begun || BeforePush(s.q.p)) ==>
          forall i :: 0 <= i < |s.writeLog| ==> s.writeLog[i].ticket < s.writeTickets)
  }

  ghost predicate ReadSide<T>(s: MState<T>) {
    && |s.readLog| == |s.q.popped| && (forall i :: 0 <= i < |s.readLog| ==> s.readLog[i].value == s.q.popped[i])
    && InLockOrder(s.readLog, s.readTickets)
    && (s.reader.None? ==> s.q.c.CIdle?)
    && (s.reader.Some? && !s.reader.value.begun ==> s.q.c.CIdle?)
    && (s.reader.Some? && (!s.reader.value.begun || BeforePop(s.q.c)) ==>
          forall i :: 0 <= i < |s.readLog| ==> s.readLog[i].ticket < s.readTickets)
  }

  predicate BeforePush<T>(p: Producer<T>) {
    PIndex(p).Some? || p.PWritten?
  }

  predicate BeforePop<T>(c: Consumer<T>) {
    CIndex(c).Some? || c.CTaken?
  }

  ghost predicate MInv<T>(cap: nat, s: MState<T>)
    requires ValidCapacity(cap)
  {
    Inv(cap, s.q) && WriteSide(s) && ReadSide(s)
  }

  /** Every step is a step of the inner queue by its one producer or its one consumer, or leaves it alone. */
  lemma MStepIsInnerStep<T>(cap: nat, s: MState<T>, s': MState<T>, t: nat)
    requires cap > 0 && |s.q.slots| == cap && MStep(cap, s, s', t)
    ensures s'.q == s.q || Next(cap, s.q, s'.q)
  {
  }

  /** What a step of the producer can do to what the logs depend on. */
  lemma PStepEffect<T>(cap: nat, q: State<T>, q': State<T>)
    requires cap > 0 && |q.slots| == cap && PStep(cap, q, q')
    ensures q'.popped == q.popped && (q'.c.CIdle? <==> q.c.CIdle?) && (BeforePop(q'.c) <==> BeforePop(q.c))
    ensures q'.pushed == (if q.p.PWritten? then q.pushed + [q.p.v] else q.pushed)
    ensures BeforePush(q'.p) ==> q.p.PIdle? || BeforePush(q.p)
    ensures q.p.PWritten? ==> !BeforePush(q'.p)
  {
  }

  lemma CStepEffect<T>(cap: nat, q: State<T>, q': State<T>)
    requires cap > 0 && |q.slots| == cap && CStep(cap, q, q')
    ensures q'.pushed == q.pushed && (q'.p.PIdle? <==> q.p.PIdle?) && (BeforePush(q'.p) <==> BeforePush(q.p))
    ensures q'.popped == (if q.c.CTaken? then q.popped + [q.c.t] else q.popped)
    ensures BeforePop(q'.c) ==> q.c.CIdle? || BeforePop(q.c)
    ensures q.c.CTaken? ==> !BeforePop(q'.c)
  {
  }

  /** Logging one value more under the current acquisition, which has logged none so far. */
  lemma LogOne<V>(log: seq<Entry<V>>, e: Entry<V>)
    requires InLockOrder(log, e.ticket) && (forall i :: 0 <= i < |log| ==> log[i].ticket < e.ticket)
    ensures InLockOrder(log + [e], e.ticket)
  {
  }

  lemma InnerWriteSides<T>(cap: nat, s: MState<T>, s': MState<T>, t: nat)
    requires cap > 0 && |s.q.slots| == cap && WriteSide(s) && ReadSide(s) && InnerWrite(cap, s, s', t)
    ensures WriteSide(s') && ReadSide(s')
  {
    PStepEffect(cap, s.q, s'.q);
    if s.q.p.PWritten? {
      LogOne(s.writeLog, Entry(s.writeTickets, t, s.q.p.v));
    }
  }

  lemma InnerReadSides<T>(cap: nat, s: MState<T>, s': MState<T>, t: nat)
    requires cap > 0 && |s.q.slots| == cap && WriteSide(s) && ReadSide(s) && InnerRead(cap, s, s', t)
    ensures WriteSide(s') && ReadSide(s')
  {
    CStepEffect(cap, s.q, s'.q);
    if s.q.c.CTaken? {
      LogOne(s.readLog, Entry(s.readTickets, t, s.q.c.t));
    }
  }

  lemma LockStepSides<T>(s: MState<T>, s': MState<T>, t: nat)
    requires WriteSide(s) && ReadSide(s) && LockStep(s, s', t)
    ensures WriteSide(s') && ReadSide(s')
  {
  }

  lemma MStepInv<T>(cap: nat, s: MState<T>, s': MState<T>, t: nat)
    requires ValidCapacity(cap) && MInv(cap, s) && MStep(cap, s, s', t)
    ensures MInv(cap, s')
  {
    MStepIsInnerStep(cap, s, s', t);
    if s'.q != s.q {
      NextInv(cap, s.q, s'.q);
    }
    if InnerWrite(cap, s, s', t) {
      InnerWriteSides(cap, s, s', t);
    } else if InnerRead(cap, s, s', t) {
      InnerReadSides(cap, s, s', t);
    } else if LockStep(s, s', t) {
      LockStepSides(s, s', t);
    }
  }

  // ---------------------------------------------------------------- whole runs

  /** Any interleaving of any number of threads. */
  ghost predicate IsMRun<T>(cap: nat, run: seq<MState<T>>)
    requires ValidCapacity(cap)
  {
    && |run| > 0 && MInit(cap, run[0])
    && (forall i :: 0 <= i < |run| ==> |run[i].q.slots| == cap)
    && (forall i :: 0 <= i < |run| - 1 ==> MNext(cap, run[i], run[i + 1]))
  }

  lemma {:induction false} MRunInv<T>(cap: nat, run: seq<MState<T>>, n: nat)
    requires ValidCapacity(cap) && IsMRun(cap, run) && n < |run|
    ensures MInv(cap, run[n])
  {
    if n == 0 {
      InitInv(cap, run[0].q);
    } else {
      MRunInv(cap, run, n - 1);
      assert MNext(cap, run[n - 1], run[n - 1 + 1]);
      var t :| MStep(cap, run[n - 1], run[n], t);
      MStepInv(cap, run[n - 1], run[n], t);
    }
  }

  /**
   Linearizability: with both logs in the order in which the locks were taken, what
   was popped is a prefix of what was pushed, each value once, and at most `cap`
   values are in between.
   */
  lemma PopsFollowPushes<T>(cap: nat, run: seq<MState<T>>, n: nat)
    requires ValidCapacity(cap) && IsMRun(cap, run) && n < |run|
    ensures var s := run[n];
            && 0 <= |s.writeLog| - |s.readLog| <= cap
            && (forall i :: 0 <= i < |s.readLog| ==> s.readLog[i].value == Full(s.writeLog[i].value))
            && (forall i, j :: 0 <= i < j < |s.writeLog| ==> s.writeLog[i].ticket < s.writeLog[j].ticket)
            && (forall i, j :: 0 <= i < j < |s.readLog| ==> s.readLog[i].ticket < s.readLog[j].ticket)
  {
    MRunInv(cap, run, n);
  }

  /** A step of the writer inside, other than a spurious wakeup: of its call, or giving back its mutex. */
  ghost predicate WriterStep<T>(cap: nat, s: MState<T>, s': MState<T>)
    requires cap > 0 && |s.q.slots| == cap
  {
    && s.writer.Some? && !s.q.p.PAsleep?
    && (InnerWrite(cap, s, s', s.writer.value.thread) || (LockStep(s, s', s.writer.value.thread) && s'.writer.None?))
  }

  ghost predicate ReaderStep<T>(cap: nat, s: MState<T>, s': MState<T>)
    requires cap > 0 && |s.q.slots| == cap
  {
    && s.reader.Some? && !s.q.c.CAsleep?
    && (InnerRead(cap, s, s', s.reader.value.thread) || (LockStep(s, s', s.reader.value.thread) && s'.reader.None?))
  }

  /** A writer that is not stuck can move; `v` is what it may be asked to push. */
  lemma OpenWriterMoves<T>(cap: nat, s: MState<T>, v: T)
    requires ValidCapacity(cap) && MInv(cap, s) && s.writer.Some? && !PStuck(s.q)
    ensures exists s' :: WriterStep(cap, s, s')
  {
    var t := s.writer.value.thread;
    if s.q.p.PIdle? && s.writer.value.begun {
      assert LockStep(s, s.(writer := None), t);
      assert WriterStep(cap, s, s.(writer := None));
    } else {
      StepOpen(cap, s.q, v);
      var q' :| PStep(cap, s.q, q');
      var log := if s.q.p.PWritten? then s.writeLog + [Entry(s.writeTickets, t, s.q.p.v)] else s.writeLog;
      assert WriterStep(cap, s, s.(q := q', writer := Some(Owner(t, true)), writeLog := log));
    }
  }

  lemma OpenReaderMoves<T>(cap: nat, s: MState<T>, v: T)
    requires ValidCapacity(cap) && MInv(cap, s) && s.reader.Some? && !CStuck(s.q)
    ensures exists s' :: ReaderStep(cap, s, s')
  {
    var t := s.reader.value.thread;
    if s.q.c.CIdle? && s.reader.value.begun {
      assert LockStep(s, s.(reader := None), t);
      assert ReaderStep(cap, s, s.(reader := None));
    } else {
      StepOpen(cap, s.q, v);
      var q' :| CStep(cap, s.q, q');
      var log := if s.q.c.CTaken? then s.readLog + [Entry(s.readTickets, t, s.q.c.t)] else s.readLog;
      assert ReaderStep(cap, s, s.(q := q', reader := Some(Owner(t, true)), readLog := log));
    }
  }

  /** A side that is stuck waits for the other one, which is in a call; or it sleeps, and the queue is full or empty. */
  lemma StuckForCause<T>(cap: nat, q: State<T>)
    requires ValidCapacity(cap) && Inv(cap, q)
    ensures PStuck(q) ==> !CStuck(q) && (!q.c.CIdle? || (q.p.PAsleep? && |Queue(q)| == cap))
    ensures CStuck(q) ==> !PStuck(q) && (!q.p.PIdle? || (q.c.CAsleep? && Queue(q) == []))
  {
  }

  /**
   No deadlock: a writer inside the queue can move, or a reader inside can, or the
   writer sleeps before a full queue with no reader inside; and the same the other
   way round, before an empty queue. A thread waiting for a mutex that is free can
   take it.
   */
  lemma SomeoneCanMove<T>(cap: nat, run: seq<MState<T>>, n: nat, v: T)
    requires ValidCapacity(cap) && IsMRun(cap, run) && n < |run|
    ensures var s := run[n];
            && |s.q.popped| <= |s.q.pushed|
            && (s.writer.Some? ==>
                  (exists s' :: WriterStep(cap, s, s')) || (exists s' :: ReaderStep(cap, s, s')) ||
                  (s.reader.None? && s.q.p.PAsleep? && |Queue(s.q)| == cap))
            && (s.reader.Some? ==>
                  (exists s' :: ReaderStep(cap, s, s')) || (exists s' :: WriterStep(cap, s, s')) ||
                  (s.writer.None? && s.q.c.CAsleep? && Queue(s.q) == []))
            && (forall t :: t in s.writersWaiting && s.writer.None? ==>
                  exists s' :: LockStep(s, s', t) && s'.writer.Some?)
            && (forall t :: t in s.readersWaiting && s.reader.None? ==>
                  exists s' :: LockStep(s, s', t) && s'.reader.Some?)
  {
    var s := run[n];
    MRunInv(cap, run, n);
    InsideMoves(cap, s, v);
    forall t | t in s.writersWaiting && s.writer.None? ensures exists s' :: LockStep(s, s', t) && s'.writer.Some? {
      var s' := s.(writer := Some(Owner(t, false)), writersWaiting := s.writersWaiting - {t},
          writeTickets := s.writeTickets + 1);
      assert LockStep(s, s', t);
    }
    forall t | t in s.readersWaiting && s.reader.None? ensures exists s' :: LockStep(s, s', t) && s'.reader.Some? {
      var s' := s.(reader := Some(Owner(t, false)), readersWaiting := s.readersWaiting - {t},
          readTickets := s.readTickets + 1);
      assert LockStep(s, s', t);
    }
  }

  lemma InsideMoves<T>(cap: nat, s: MState<T>, v: T)
    requires ValidCapacity(cap) && MInv(cap, s)
    ensures s.writer.Some? ==>
                  (exists s' :: WriterStep(cap, s, s')) || (exists s' :: ReaderStep(cap, s, s')) ||
                  (s.reader.None? && s.q.p.PAsleep? && |Queue(s.q)| == cap)
    ensures s.reader.Some? ==>
                  (exists s' :: ReaderStep(cap, s, s')) || (exists s' :: WriterStep(cap, s, s')) ||
                  (s.writer.None? && s.q.c.CAsleep? && Queue(s.q) == [])
  {
    StuckForCause(cap, s.q);
    if s.writer.Some? && !PStuck(s.q) {
      OpenWriterMoves(cap, s, v);
    }
    if s.reader.Some? && !CStuck(s.q) {
      OpenReaderMoves(cap, s, v);
    }
  }

  // ---------------------------------------------------------------- what a call does

  /** In step `i` thread `t`, holding the write mutex, starts its call; in state `j` it has first returned. */
  ghost predicate IsWrite<T>(run: seq<MState<T>>, t: nat, i: nat, j: nat) {
    && i + 1 < j < |run| && run[i].writer == Some(Owner(t, false)) && run[i].q.p.PIdle?
    && run[i + 1].q.p.PStart? && run[j].q.p.PIdle? && forall m :: i < m < j ==> !run[m].q.p.PIdle?
  }

  ghost predicate IsRead<T>(run: seq<MState<T>>, t: nat, i: nat, j: nat) {
    && i + 1 < j < |run| && run[i].reader == Some(Owner(t, false)) && run[i].q.c.CIdle?
    && run[i + 1].q.c.CStart? && run[j].q.c.CIdle? && forall m :: i < m < j ==> !run[m].q.c.CIdle?
  }

  /** The value has been pushed. */
  predicate HasPushed<T>(p: Producer<T>) {
    p.PIncremented? || p.PNotifying? || p.PNotified? || (p.PIdle? && p.ok)
  }

  function HasPopped<T>(c: Consumer<T>): Option<Slot<T>> {
    if c.CIncremented? || c.CNotifying? || c.CNotified? then Some(c.t) else if c.CIdle? then c.got else None
  }

  /** The call of thread `t` that pushes `v`: its one entry is in the log as soon as the value has been pushed. */
  ghost predicate Writing<T>(log: seq<Entry<T>>, e: Entry<T>, mode: Mode, before: seq<T>, s: MState<T>) {
    && s.writer == Some(Owner(e.thread, true)) && s.writeTickets == e.ticket && Emplacing(before, mode, e.value, s.q)
    && s.writeLog == log + if HasPushed(s.q.p) then [e] else []
  }

  lemma StartsWrite<T>(cap: nat, s: MState<T>, s': MState<T>, t: nat)
    requires cap > 0 && |s.q.slots| == cap && s.writer == Some(Owner(t, false)) && s.q.p.PIdle? && s'.q.p.PStart?
    requires MNext(cap, s, s')
    ensures Writing(s.writeLog, Entry(s.writeTickets, t, s'.q.p.v), s'.q.p.mode, s.q.pushed, s')
  {
    hide CStep;
    var u :| MStep(cap, s, s', u);
    OnlyWritersStart(cap, s, s', u);
    assert s.writeLog + [] == s.writeLog;
  }

  /** The producer leaves its idle state only by the writer's own step. */
  lemma OnlyWritersStart<T>(cap: nat, s: MState<T>, s': MState<T>, u: nat)
    requires cap > 0 && |s.q.slots| == cap && s.q.p.PIdle? && s'.q.p.PStart? && MStep(cap, s, s', u)
    ensures InnerWrite(cap, s, s', u)
  {
    if InnerRead(cap, s, s', u) {
      OthersLeaveProducer(cap, s.q, s'.q);
      assert false;
    }
  }

  lemma WriteOwnStep<T>(cap: nat, log: seq<Entry<T>>, e: Entry<T>, mode: Mode, before: seq<T>, s: MState<T>,
                        s': MState<T>)
    requires cap > 0 && |s.q.slots| == cap && Writing(log, e, mode, before, s) && !s.q.p.PIdle?
    requires InnerWrite(cap, s, s', e.thread)
    ensures Writing(log, e, mode, before, s')
  {
    EmplaceOwnStep(cap, before, mode, e.value, s.q, s'.q);
    assert log + [] == log;
  }

  /** Nobody else touches the writer's place in the call, its mutex or the log. */
  lemma OthersLeaveWriter<T>(cap: nat, s: MState<T>, s': MState<T>, u: nat)
    requires cap > 0 && |s.q.slots| == cap && s.writer.Some? && s.writer.value.begun && !s.q.p.PIdle?
    requires MStep(cap, s, s', u) && !InnerWrite(cap, s, s', u)
    ensures s'.writer == s.writer && s'.writeTickets == s.writeTickets && s'.writeLog == s.writeLog
    ensures s'.q.pushed == s.q.pushed && (s'.q.p == s.q.p || s'.q.p == WakeP(s.q.p))
  {
    hide PStep;
    if InnerRead(cap, s, s', u) {
      OthersLeaveProducer(cap, s.q, s'.q);
    }
  }

  lemma OthersLeaveReader<T>(cap: nat, s: MState<T>, s': MState<T>, u: nat)
    requires cap > 0 && |s.q.slots| == cap && s.reader.Some? && s.reader.value.begun && !s.q.c.CIdle?
    requires MStep(cap, s, s', u) && !InnerRead(cap, s, s', u)
    ensures s'.reader == s.reader && s'.readTickets == s.readTickets && s'.readLog == s.readLog
    ensures s'.q.popped == s.q.popped && (s'.q.c == s.q.c || s'.q.c == WakeC(s.q.c))
  {
    hide CStep;
    if InnerWrite(cap, s, s', u) {
      OthersLeaveConsumer(cap, s.q, s'.q);
    }
  }

  lemma WriteStep<T>(cap: nat, log: seq<Entry<T>>, e: Entry<T>, mode: Mode, before: seq<T>, s: MState<T>, s': MState<T>)
    requires cap > 0 && |s.q.slots| == cap && Writing(log, e, mode, before, s) && !s.q.p.PIdle? && MNext(cap, s, s')
    ensures Writing(log, e, mode, before, s')
  {
    hide PStep, CStep;
    var u :| MStep(cap, s, s', u);
    if InnerWrite(cap, s, s', u) {
      WriteOwnStep(cap, log, e, mode, before, s, s');
    } else {
      OthersLeaveWriter(cap, s, s', u);
    }
  }

  lemma {:induction false} WriteGoesOn<T>(cap: nat, run: seq<MState<T>>, t: nat, i: nat, j: nat, m: nat)
    requires ValidCapacity(cap) && IsMRun(cap, run) && IsWrite(run, t, i, j) && i < m <= j
    ensures var p := run[i + 1].q.p;
            Writing(run[i].writeLog, Entry(run[i].writeTickets, t, p.v), p.mode, run[i].q.pushed, run[m])
  {
    hide MStep, Writing;
    var l, p := m - 1, run[i + 1].q.p;
    assert MNext(cap, run[l], run[l + 1]);
    if l == i {
      StartsWrite(cap, run[i], run[m], t);
    } else {
      WriteGoesOn(cap, run, t, i, j, l);
      WriteStep(cap, run[i].writeLog, Entry(run[i].writeTickets, t, p.v), p.mode, run[i].q.pushed, run[l], run[m]);
    }
  }

  /**
   Every finished call under the write mutex has exactly one entry in the log, its own
   value under its own acquisition, if it has returned true, and none if it has returned
   false, which only a try can do.
   */
  lemma WriteIsLogged<T>(cap: nat, run: seq<MState<T>>, t: nat, i: nat, j: nat)
    requires ValidCapacity(cap) && IsMRun(cap, run) && IsWrite(run, t, i, j)
    ensures run[j].writer == Some(Owner(t, true)) && run[j].writeTickets == run[i].writeTickets
    ensures run[j].writeLog == run[i].writeLog +
            if run[j].q.p.ok then [Entry(run[i].writeTickets, t, run[i + 1].q.p.v)] else []
    ensures !run[j].q.p.ok ==> run[i + 1].q.p.mode.Try?
  {
    hide MStep;
    WriteGoesOn(cap, run, t, i, j, j);
  }

  /** The call of thread `t` that pops: its one entry is in the log as soon as the value has been popped. */
  ghost predicate Reading<T>(log: seq<Entry<Slot<T>>>, ticket: nat, t: nat, mode: Mode, before: seq<Slot<T>>,
                             s: MState<T>) {
    && s.reader == Some(Owner(t, true)) && s.readTickets == ticket && Popping(before, mode, s.q)
    && s.readLog == log + match HasPopped(s.q.c) case Some(x) => [Entry(ticket, t, x)] case None => []
  }

  lemma OnlyReadersStart<T>(cap: nat, s: MState<T>, s': MState<T>, u: nat)
    requires cap > 0 && |s.q.slots| == cap && s.q.c.CIdle? && s'.q.c.CStart? && MStep(cap, s, s', u)
    ensures InnerRead(cap, s, s', u)
  {
    if InnerWrite(cap, s, s', u) {
      OthersLeaveConsumer(cap, s.q, s'.q);
      assert false;
    }
  }

  lemma StartsRead<T>(cap: nat, s: MState<T>, s': MState<T>, t: nat)
    requires cap > 0 && |s.q.slots| == cap && s.reader == Some(Owner(t, false)) && s.q.c.CIdle? && s'.q.c.CStart?
    requires MNext(cap, s, s')
    ensures Reading(s.readLog, s.readTickets, t, s'.q.c.mode, s.q.popped, s')
  {
    hide PStep;
    var u :| MStep(cap, s, s', u);
    OnlyReadersStart(cap, s, s', u);
    assert s.readLog + [] == s.readLog;
  }

  lemma ReadOwnStep<T>(cap: nat, log: seq<Entry<Slot<T>>>, ticket: nat, t: nat, mode: Mode, before: seq<Slot<T>>,
                       s: MState<T>, s': MState<T>)
    requires cap > 0 && |s.q.slots| == cap && Reading(log, ticket, t, mode, before, s) && !s.q.c.CIdle?
    requires InnerRead(cap, s, s', t)
    ensures Reading(log, ticket, t, mode, before, s')
  {
    PopOwnStep(cap, before, mode, s.q, s'.q);
    assert log + [] == log;
  }

  lemma ReadStep<T>(cap: nat, log: seq<Entry<Slot<T>>>, ticket: nat, t: nat, mode: Mode, before: seq<Slot<T>>,
                    s: MState<T>, s': MState<T>)
    requires cap > 0 && |s.q.slots| == cap && Reading(log, ticket, t, mode, before, s) && !s.q.c.CIdle?
    requires MNext(cap, s, s')
    ensures Reading(log, ticket, t, mode, before, s')
  {
    hide PStep, CStep;
    var u :| MStep(cap, s, s', u);
    if InnerRead(cap, s, s', u) {
      ReadOwnStep(cap, log, ticket, t, mode, before, s, s');
    } else {
      OthersLeaveReader(cap, s, s', u);
    }
  }

  lemma {:induction false} ReadGoesOn<T>(cap: nat, run: seq<MState<T>>, t: nat, i: nat, j: nat, m: nat)
    requires ValidCapacity(cap) && IsMRun(cap, run) && IsRead(run, t, i, j) && i < m <= j
    ensures Reading(run[i].readLog, run[i].readTickets, t, run[i + 1].q.c.mode, run[i].q.popped, run[m])
  {
    hide MStep, Reading;
    var l, mode := m - 1, run[i + 1].q.c.mode;
    assert MNext(cap, run[l], run[l + 1]);
    if l == i {
      StartsRead(cap, run[i], run[m], t);
    } else {
      ReadGoesOn(cap, run, t, i, j, l);
      ReadStep(cap, run[i].readLog, run[i].readTickets, t, mode, run[i].q.popped, run[l], run[m]);
    }
  }

  /**
   Every finished call under the read mutex has exactly one entry in the log, of what it
   has left in the caller's variable, or none if it has returned without a value, which
   only a try can do, or a stoppable call.
   */
  lemma ReadIsLogged<T>(cap: nat, run: seq<MState<T>>, t: nat, i: nat, j: nat)
    requires ValidCapacity(cap) && IsMRun(cap, run) && IsRead(run, t, i, j)
    ensures run[j].reader == Some(Owner(t, true)) && run[j].readTickets == run[i].readTickets
    ensures var got := run[j].q.c.got;
            run[j].readLog == run[i].readLog + if got.Some? then [Entry(run[i].readTickets, t, got.value)] else []
    ensures run[j].q.c.got.None? ==> !run[i + 1].q.c.mode.Wait?
  {
    hide MStep;
    ReadGoesOn(cap, run, t, i, j, j);
  }
}
