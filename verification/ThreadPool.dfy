/**
 The worker pool of the HTTP server as interleaved steps: any number of enqueuing
 threads, n >= 1 workers and one call of `shutdown`, sharing a mutex, a condition
 variable and the list of jobs. Jobs are numbered in the order they are queued.
 */
module ThreadPool {

  datatype Worker<J> = WantLock | Holding | Asleep | Running(id: nat, job: J) | Exited

  datatype Enqueuer<J> = EIdle | EHolding(job: J) | EPushed | EUnlocked

  datatype Shutdown = SIdle | SHolding | SFlagged | SUnlocked | SJoining | SReturned

  datatype Holder = Nobody | ByWorker(w: nat) | ByEnqueuer(e: nat) | ByShutdown

  /**
   `enqueued` is every job ever queued, `taken` how many of them have left the
   list, `runs` how often each has been run, and `before` how many had been queued
   when `shutdown` set its flag.
   */
  datatype State<J> = State(
    mutex: Holder,
    jobs: seq<J>,
    flag: bool,
    workers: seq<Worker<J>>,
    enqueuers: seq<Enqueuer<J>>,
    sd: Shutdown,
    enqueued: seq<J>,
    taken: nat,
    runs: seq<nat>,
    before: nat)

  ghost predicate Init<J>(s: State<J>) {
    && s.mutex.Nobody? && s.jobs == [] && !s.flag && s.sd.SIdle?
    && |s.workers| >= 1 && (forall w :: 0 <= w < |s.workers| ==> s.workers[w].WantLock?)
    && (forall e :: 0 <= e < |s.enqueuers| ==> s.enqueuers[e].EIdle?)
    && s.enqueued == [] && s.taken == 0 && s.runs == [] && s.before == 0
  }

  /** `worker::operator()`; the waiting predicate is evaluated, and a job taken, under the mutex. */
  ghost predicate WStep<J>(s: State<J>, s': State<J>, w: nat)
    requires w < |s.workers|
  {
    match s.workers[w]
    case WantLock => s.mutex.Nobody? && s' == s.(mutex := ByWorker(w), workers := s.workers[w := Holding])
    case Holding =>
      if s.jobs == [] && !s.flag then s' == s.(mutex := Nobody, workers := s.workers[w := Asleep])
      else if s.jobs == [] then s' == s.(mutex := Nobody, workers := s.workers[w := Exited])
      else s' == s.(mutex := Nobody, jobs := s.jobs[1..], taken := s.taken + 1,
                    workers := s.workers[w := Running(s.taken, s.jobs[0])])
    case Running(id, job) =>
      id < |s.runs| && s' == s.(runs := s.runs[id := s.runs[id] + 1], workers := s.workers[w := WantLock])
    case Asleep => s' == s.(workers := s.workers[w := WantLock])  // a spurious wakeup
    case Exited => false
  }

  predicate AllAwake<J>(workers: seq<Worker<J>>) {
    forall w :: 0 <= w < |workers| ==> !workers[w].Asleep?
  }

  /** What `notify_one` may do: wake any one sleeper, or nothing when there is none. */
  ghost predicate NotifyOne<J>(workers: seq<Worker<J>>, workers': seq<Worker<J>>) {
    || (AllAwake(workers) && workers' == workers)
    || (exists w :: 0 <= w < |workers| && workers[w].Asleep? && workers' == workers[w := WantLock])
  }

  function NotifyAll<J>(workers: seq<Worker<J>>): (r: seq<Worker<J>>)
    ensures |r| == |workers|
    ensures forall w :: 0 <= w < |workers| ==> r[w] == if workers[w].Asleep? then WantLock else workers[w]
  {
    seq(|workers|, w requires 0 <= w < |workers| => if workers[w].Asleep? then WantLock else workers[w])
  }

  /** `enqueue`; an idle thread may start a call with any job. */
  ghost predicate EStep<J>(s: State<J>, s': State<J>, e: nat)
    requires e < |s.enqueuers|
  {
    match s.enqueuers[e]
    case EIdle =>
      && s.mutex.Nobody? && |s'.enqueuers| == |s.enqueuers| && s'.enqueuers[e].EHolding?
      && s' == s.(mutex := ByEnqueuer(e), enqueuers := s.enqueuers[e := s'.enqueuers[e]])
    case EHolding(job) =>
      s' == s.(jobs := s.jobs + [job], enqueued := s.enqueued + [job], runs := s.runs + [0],
               enqueuers := s.enqueuers[e := EPushed])
    case EPushed => s' == s.(mutex := Nobody, enqueuers := s.enqueuers[e := EUnlocked])
    case EUnlocked =>
      NotifyOne(s.workers, s'.workers) && s' == s.(workers := s'.workers, enqueuers := s.enqueuers[e := EIdle])
  }

  predicate AllExited<J>(workers: seq<Worker<J>>) {
    forall w :: 0 <= w < |workers| ==> workers[w].Exited?
  }

  /** `shutdown`. */
  ghost predicate SStep<J>(s: State<J>, s': State<J>) {
    match s.sd
    case SIdle => s.mutex.Nobody? && s' == s.(mutex := ByShutdown, sd := SHolding)
    case SHolding => s' == s.(flag := true, before := |s.enqueued|, sd := SFlagged)
    case SFlagged => s' == s.(mutex := Nobody, sd := SUnlocked)
    case SUnlocked => s' == s.(workers := NotifyAll(s.workers), sd := SJoining)
    case SJoining => AllExited(s.workers) && s' == s.(sd := SReturned)
    case SReturned => false
  }

  ghost predicate Next<J>(s: State<J>, s': State<J>) {
    || (exists w :: 0 <= w < |s.workers| && WStep(s, s', w))
    || (exists e :: 0 <= e < |s.enqueuers| && EStep(s, s', e))
    || SStep(s, s')
  }

  // ---------------------------------------------------------------- invariant

  ghost predicate Locks<J>(s: State<J>) {
    && |s.workers| >= 1
    && (forall w :: 0 <= w < |s.workers| ==> (s.workers[w].Holding? <==> s.mutex == ByWorker(w)))
    && (forall e :: 0 <= e < |s.enqueuers| ==>
          (s.enqueuers[e].EHolding? || s.enqueuers[e].EPushed? <==> s.mutex == ByEnqueuer(e)))
    && (s.sd.SHolding? || s.sd.SFlagged? <==> s.mutex == ByShutdown)
    && (s.mutex.ByWorker? ==> s.mutex.w < |s.workers|) && (s.mutex.ByEnqueuer? ==> s.mutex.e < |s.enqueuers|)
  }

  predicate Runs<J>(workers: seq<Worker<J>>, w: nat, id: nat) {
    w < |workers| && workers[w].Running? && workers[w].id == id
  }

  /** The jobs not yet taken are in the list, and no job has been run twice. */
  ghost predicate Listed<J>(s: State<J>) {
    && s.taken <= |s.enqueued| && s.jobs == s.enqueued[s.taken..] && |s.runs| == |s.enqueued|
    && (forall id :: 0 <= id < |s.runs| ==> s.runs[id] <= 1)
    && (forall id :: s.taken <= id < |s.runs| ==> s.runs[id] == 0)
  }

  /** A job in a worker's hands has been taken and not yet been run. */
  ghost predicate InHand<J>(s: State<J>, w: Worker<J>) {
    w.Running? ==> w.id < s.taken <= |s.enqueued| && w.id < |s.runs| && w.job == s.enqueued[w.id] && s.runs[w.id] == 0
  }

  /** A job is in the list, being run by exactly one worker, or run exactly once. */
  ghost predicate Accounted<J>(s: State<J>) {
    && Listed(s) && (forall w :: 0 <= w < |s.workers| ==> InHand(s, s.workers[w])) && OneWorkerEach(s.workers)
    && (forall id :: 0 <= id < s.taken && s.runs[id] == 0 ==> exists w :: Runs(s.workers, w, id))
  }

  ghost predicate OneWorkerEach<J>(workers: seq<Worker<J>>) {
    forall w, x, id :: Runs(workers, w, id) && Runs(workers, x, id) ==> w == x
  }

  /** Workers leave only after the flag, when everything queued before it has been taken. */
  ghost predicate Leaving<J>(s: State<J>) {
    && (s.flag <==> s.sd.SFlagged? || s.sd.SUnlocked? || s.sd.SJoining? || s.sd.SReturned?)
    && (s.flag ==> s.before <= |s.enqueued|)
    && (forall w :: 0 <= w < |s.workers| && s.workers[w].Exited? ==> s.flag && s.before <= s.taken)
    && (s.sd.SReturned? ==> AllExited(s.workers))
  }

  /** How many elements have a property. */
  function Number<T>(s: seq<T>, has: T -> bool): nat {
    if s == [] then 0 else Number(s[1..], has) + if has(s[0]) then 1 else 0
  }

  lemma {:induction false} NumberUpdated<T>(s: seq<T>, has: T -> bool, i: nat, x: T)
    requires i < |s|
    ensures Number(s[i := x], has) == Number(s, has) - (if has(s[i]) then 1 else 0) + if has(x) then 1 else 0
  {
    if i == 0 {
      assert s[i := x][1..] == s[1..];
    } else {
      assert s[i := x][1..] == s[1..][i - 1 := x];
      NumberUpdated(s[1..], has, i - 1, x);
    }
  }

  lemma {:induction false} NumberPositive<T>(s: seq<T>, has: T -> bool) returns (i: nat)
    requires Number(s, has) > 0
    ensures i < |s| && has(s[i])
  {
    if has(s[0]) {
      i := 0;
    } else {
      i := NumberPositive(s[1..], has);
      i := i + 1;
    }
  }

  /** A worker that will look at the list of jobs before it sleeps or runs anything. */
  predicate WillLook<J>(w: Worker<J>) {
    w.WantLock? || w.Holding?
  }

  predicate WillNotify<J>(e: Enqueuer<J>) {
    e.EPushed? || e.EUnlocked?
  }

  /** Beside a sleeper, each pending job has a worker that will look or a notification of its own still to come. */
  ghost predicate Wakeups<J>(s: State<J>) {
    && (AllAwake(s.workers) || |s.jobs| <= Number(s.workers, WillLook) + Number(s.enqueuers, WillNotify))
    && (s.sd.SJoining? || s.sd.SReturned? ==> AllAwake(s.workers))
  }

  ghost predicate Inv<J>(s: State<J>) {
    Locks(s) && Accounted(s) && Leaving(s) && Wakeups(s)
  }

  // ---------------------------------------------------------------- steps keep it

  lemma WStepLocks<J>(s: State<J>, s': State<J>, w: nat)
    requires Locks(s) && w < |s.workers| && WStep(s, s', w)
    ensures Locks(s')
  {
  }

  lemma EStepLocks<J>(s: State<J>, s': State<J>, e: nat)
    requires Locks(s) && e < |s.enqueuers| && EStep(s, s', e)
    ensures Locks(s')
  {
  }

  lemma WStepListed<J>(s: State<J>, s': State<J>, w: nat)
    requires Listed(s) && w < |s.workers| && InHand(s, s.workers[w]) && WStep(s, s', w)
    ensures Listed(s')
  {
  }

  lemma WStepInHand<J>(s: State<J>, s': State<J>, w: nat, x: nat)
    requires Accounted(s) && w < |s.workers| && x < |s.workers| && WStep(s, s', w)
    ensures |s'.workers| == |s.workers| && InHand(s', s'.workers[x])
  {
    assert InHand(s, s.workers[x]);
    if x != w && s.workers[x].Running? {
      assert Runs(s.workers, x, s.workers[x].id);
      assert s.workers[w].Running? ==> Runs(s.workers, w, s.workers[w].id);
    }
  }

  lemma WStepOneEach<J>(s: State<J>, s': State<J>, w: nat)
    requires Accounted(s) && w < |s.workers| && WStep(s, s', w)
    ensures OneWorkerEach(s'.workers)
  {
    forall x: nat, y: nat, id: nat | Runs(s'.workers, x, id) && Runs(s'.workers, y, id) ensures x == y {
      assert x != w ==> InHand(s, s.workers[x]) && Runs(s.workers, x, id);
      assert y != w ==> InHand(s, s.workers[y]) && Runs(s.workers, y, id);
    }
  }

  lemma WStepCovered<J>(s: State<J>, s': State<J>, w: nat, id: nat)
    requires Accounted(s) && w < |s.workers| && WStep(s, s', w) && id < s'.taken && id < |s'.runs| && s'.runs[id] == 0
    ensures exists x :: Runs(s'.workers, x, id)
  {
    if id < s.taken {
      var x :| Runs(s.workers, x, id);
      assert Runs(s'.workers, x, id);
    } else {
      assert Runs(s'.workers, w, id);
    }
  }

  lemma WStepAccounted<J>(s: State<J>, s': State<J>, w: nat)
    requires Accounted(s) && w < |s.workers| && WStep(s, s', w)
    ensures Accounted(s')
  {
    WStepListed(s, s', w);
    WStepInHand(s, s', w, w);
    forall x | 0 <= x < |s'.workers| ensures InHand(s', s'.workers[x]) {
      WStepInHand(s, s', w, x);
    }
    WStepOneEach(s, s', w);
    forall id | 0 <= id < s'.taken && s'.runs[id] == 0 ensures exists x :: Runs(s'.workers, x, id) {
      WStepCovered(s, s', w, id);
    }
  }

  /** The workers may wake up, and jobs be added; nothing else that is accounted for changes. */
  ghost predicate OnlyAdds<J>(s: State<J>, s': State<J>) {
    && |s'.workers| == |s.workers| && s'.taken == s.taken && Listed(s')
    && s.enqueued <= s'.enqueued && s.runs <= s'.runs
    && forall w :: 0 <= w < |s.workers| ==>
         if s.workers[w].Running? then s'.workers[w] == s.workers[w] else !s'.workers[w].Running?
  }

  lemma AddsAccounted<J>(s: State<J>, s': State<J>)
    requires Accounted(s) && OnlyAdds(s, s')
    ensures Accounted(s')
  {
    forall w | 0 <= w < |s.workers| ensures InHand(s', s'.workers[w]) {
      assert InHand(s, s.workers[w]);
    }
    forall w: nat, id: nat | Runs(s'.workers, w, id) ensures Runs(s.workers, w, id) {}
    forall id | 0 <= id < s'.taken && s'.runs[id] == 0 ensures exists x :: Runs(s'.workers, x, id) {
      var x :| Runs(s.workers, x, id);
      assert Runs(s'.workers, x, id);
    }
  }

  lemma EStepOnlyAdds<J>(s: State<J>, s': State<J>, e: nat)
    requires Listed(s) && e < |s.enqueuers| && EStep(s, s', e)
    ensures OnlyAdds(s, s')
  {
  }

  lemma SStepOnlyAdds<J>(s: State<J>, s': State<J>)
    requires Listed(s) && SStep(s, s')
    ensures OnlyAdds(s, s')
  {
  }

  lemma EStepAccounted<J>(s: State<J>, s': State<J>, e: nat)
    requires Accounted(s) && e < |s.enqueuers| && EStep(s, s', e)
    ensures Accounted(s')
  {
    EStepOnlyAdds(s, s', e);
    AddsAccounted(s, s');
  }

  lemma WStepLeaving<J>(s: State<J>, s': State<J>, w: nat)
    requires Inv(s) && w < |s.workers| && WStep(s, s', w)
    ensures Leaving(s')
  {
  }

  lemma WStepWakeups<J>(s: State<J>, s': State<J>, w: nat)
    requires Wakeups(s) && (s.sd.SJoining? || s.sd.SReturned? ==> s.flag) && w < |s.workers| && WStep(s, s', w)
    ensures Wakeups(s')
  {
    NumberUpdated(s.workers, WillLook, w, s'.workers[w]);
  }

  lemma EStepLeaving<J>(s: State<J>, s': State<J>, e: nat)
    requires Leaving(s) && e < |s.enqueuers| && EStep(s, s', e)
    ensures Leaving(s')
  {
  }

  lemma EStepWakeups<J>(s: State<J>, s': State<J>, e: nat)
    requires Wakeups(s) && e < |s.enqueuers| && EStep(s, s', e)
    ensures Wakeups(s')
  {
    NumberUpdated(s.enqueuers, WillNotify, e, s'.enqueuers[e]);
    if s.enqueuers[e].EUnlocked? && !AllAwake(s.workers) {
      var w :| 0 <= w < |s.workers| && s.workers[w].Asleep? && s'.workers == s.workers[w := WantLock];
      NumberUpdated(s.workers, WillLook, w, WantLock);
    }
  }

  lemma SStepAccounted<J>(s: State<J>, s': State<J>)
    requires Accounted(s) && SStep(s, s')
    ensures Accounted(s')
  {
    SStepOnlyAdds(s, s');
    AddsAccounted(s, s');
  }

  lemma SStepOthers<J>(s: State<J>, s': State<J>)
    requires Locks(s) && s.taken <= |s.enqueued| && Leaving(s) && Wakeups(s) && SStep(s, s')
    ensures Locks(s') && Leaving(s') && Wakeups(s')
  {
  }

  lemma NextInv<J>(s: State<J>, s': State<J>)
    requires Inv(s) && Next(s, s')
    ensures Inv(s')
  {
    if w :| 0 <= w < |s.workers| && WStep(s, s', w) {
      WStepInv(s, s', w);
    } else if e :| 0 <= e < |s.enqueuers| && EStep(s, s', e) {
      EStepInv(s, s', e);
    } else {
      SStepAccounted(s, s');
      SStepOthers(s, s');
    }
  }

  lemma WStepInv<J>(s: State<J>, s': State<J>, w: nat)
    requires Inv(s) && w < |s.workers| && WStep(s, s', w)
    ensures Inv(s')
  {
    WStepLocks(s, s', w);
    WStepAccounted(s, s', w);
    WStepLeaving(s, s', w);
    WStepWakeups(s, s', w);
  }

  lemma EStepInv<J>(s: State<J>, s': State<J>, e: nat)
    requires Inv(s) && e < |s.enqueuers| && EStep(s, s', e)
    ensures Inv(s')
  {
    EStepLocks(s, s', e);
    EStepAccounted(s, s', e);
    EStepLeaving(s, s', e);
    EStepWakeups(s, s', e);
  }

  // ---------------------------------------------------------------- whole runs

  ghost predicate IsRun<J>(run: seq<State<J>>) {
    && |run| > 0 && Init(run[0])
    && (forall i :: 0 <= i < |run| - 1 ==> Next(run[i], run[i + 1]))
  }

  lemma {:induction false} RunInv<J>(run: seq<State<J>>, n: nat)
    requires IsRun(run) && n < |run|
    ensures Inv(run[n])
  {
    if n > 0 {
      RunInv(run, n - 1);
      assert Next(run[n - 1], run[n - 1 + 1]);
      NextInv(run[n - 1], run[n]);
    }
  }

  /**
   When `shutdown` has returned, every job queued before it has been run exactly
   once; at no time has any job been run twice.
   */
  lemma ShutdownDrains<J>(run: seq<State<J>>, n: nat)
    requires IsRun(run) && n < |run|
    ensures var s := run[n];
            && |s.runs| == |s.enqueued| && (forall id :: 0 <= id < |s.runs| ==> s.runs[id] <= 1)
            && (s.sd.SReturned? ==> s.before <= |s.runs| && forall id :: 0 <= id < s.before ==> s.runs[id] == 1)
  {
    RunInv(run, n);
    var s := run[n];
    if s.sd.SReturned? {
      assert s.workers[0].Exited?;
      forall id | 0 <= id < s.before ensures s.runs[id] == 1 {
        assert !exists w :: Runs(s.workers, w, id);
      }
    }
  }

  /** A step of its own other than a spurious wakeup or the start of another call is open. */
  predicate WCanMove<J>(s: State<J>, w: nat)
    requires w < |s.workers|
  {
    s.workers[w].Holding? || s.workers[w].Running? || (s.workers[w].WantLock? && s.mutex.Nobody?)
  }

  predicate ECanMove<J>(s: State<J>, e: nat)
    requires e < |s.enqueuers|
  {
    !s.enqueuers[e].EIdle?
  }

  predicate SCanMove<J>(s: State<J>) {
    s.sd.SHolding? || s.sd.SFlagged? || s.sd.SUnlocked? || (s.sd.SJoining? && AllExited(s.workers))
  }

  /**
   No wakeup is lost: a worker sleeps beside pending jobs only if for each of them
   another worker is about to look at the list or a notification is still to come.
   */
  lemma NoLostWakeup<J>(run: seq<State<J>>, n: nat)
    requires IsRun(run) && n < |run|
    ensures var s := run[n];
            AllAwake(s.workers) || |s.jobs| <= Number(s.workers, WillLook) + Number(s.enqueuers, WillNotify)
  {
    RunInv(run, n);
  }

  /** While nobody has the mutex, a pending job and a worker that has not left mean that somebody can move. */
  lemma JobMoves<J>(s: State<J>)
    requires Inv(s) && s.mutex.Nobody? && s.jobs != [] && !AllExited(s.workers)
    ensures (exists w :: 0 <= w < |s.workers| && WCanMove(s, w)) ||
              (exists e :: 0 <= e < |s.enqueuers| && ECanMove(s, e))
  {
    if AllAwake(s.workers) {
      var w :| 0 <= w < |s.workers| && !s.workers[w].Exited?;
      assert WCanMove(s, w);
    } else if Number(s.workers, WillLook) > 0 {
      var w := NumberPositive(s.workers, WillLook);
      assert WCanMove(s, w);
    } else {
      var e := NumberPositive(s.enqueuers, WillNotify);
      assert ECanMove(s, e);
    }
  }

  lemma ShutdownMoves<J>(s: State<J>)
    requires Inv(s) && s.mutex.Nobody? && s.sd.SJoining?
    ensures (exists w :: 0 <= w < |s.workers| && WCanMove(s, w)) || SCanMove(s)
  {
    if !AllExited(s.workers) {
      var w :| 0 <= w < |s.workers| && !s.workers[w].Exited?;
      assert WCanMove(s, w);
    }
  }

  /** No deadlock: while there is a job to run and a worker left, or a `shutdown` to finish, somebody can move. */
  lemma SomeoneCanMove<J>(run: seq<State<J>>, n: nat)
    requires IsRun(run) && n < |run|
    ensures var s := run[n];
            (s.jobs != [] && !AllExited(s.workers)) || s.sd.SUnlocked? || s.sd.SJoining? ==>
              || (exists w :: 0 <= w < |s.workers| && WCanMove(s, w))
              || (exists e :: 0 <= e < |s.enqueuers| && ECanMove(s, e))
              || SCanMove(s)
  {
    RunInv(run, n);
    var s := run[n];
    match s.mutex {
      case ByWorker(w) => assert WCanMove(s, w);
      case ByEnqueuer(e) => assert ECanMove(s, e);
      case ByShutdown =>
      case Nobody =>
        if s.jobs != [] && !AllExited(s.workers) {
          JobMoves(s);
        } else if s.sd.SJoining? {
          ShutdownMoves(s);
        }
    }
  }

  /** Who can move has a step to take. */
  lemma MoversHaveSteps<J>(run: seq<State<J>>, n: nat)
    requires IsRun(run) && n < |run|
    ensures var s := run[n];
            && (forall w :: 0 <= w < |s.workers| && WCanMove(s, w) ==> exists s' :: WStep(s, s', w))
            && (forall e :: 0 <= e < |s.enqueuers| && ECanMove(s, e) ==> exists s' :: EStep(s, s', e))
            && (SCanMove(s) ==> exists s' :: SStep(s, s'))
  {
    RunInv(run, n);
    var s := run[n];
    forall w | 0 <= w < |s.workers| && WCanMove(s, w) ensures exists s' :: WStep(s, s', w) {
      WMove(s, w);
    }
    forall e | 0 <= e < |s.enqueuers| && ECanMove(s, e) ensures exists s' :: EStep(s, s', e) {
      EMove(s, e);
    }
    if SCanMove(s) {
      SMove(s);
    }
  }

  lemma WMove<J>(s: State<J>, w: nat)
    requires Accounted(s) && w < |s.workers| && WCanMove(s, w)
    ensures exists s' :: WStep(s, s', w)
  {
    match s.workers[w] {
      case WantLock => assert WStep(s, s.(mutex := ByWorker(w), workers := s.workers[w := Holding]), w);
      case Running(id, _) =>
        assert WStep(s, s.(runs := s.runs[id := s.runs[id] + 1], workers := s.workers[w := WantLock]), w);
      case Holding =>
        if s.jobs != [] {
          assert WStep(s, s.(mutex := Nobody, jobs := s.jobs[1..], taken := s.taken + 1,
                             workers := s.workers[w := Running(s.taken, s.jobs[0])]), w);
        } else {
          assert WStep(s, s.(mutex := Nobody, workers := s.workers[w := if s.flag then Exited else Asleep]), w);
        }
    }
  }

  lemma EMove<J>(s: State<J>, e: nat)
    requires e < |s.enqueuers| && ECanMove(s, e)
    ensures exists s' :: EStep(s, s', e)
  {
    match s.enqueuers[e] {
      case EHolding(job) =>
        assert EStep(s, s.(jobs := s.jobs + [job], enqueued := s.enqueued + [job], runs := s.runs + [0],
                           enqueuers := s.enqueuers[e := EPushed]), e);
      case EPushed => assert EStep(s, s.(mutex := Nobody, enqueuers := s.enqueuers[e := EUnlocked]), e);
      case EUnlocked =>
        var workers' := s.workers;
        if w :| 0 <= w < |s.workers| && s.workers[w].Asleep? {
          workers' := s.workers[w := WantLock];
        }
        assert NotifyOne(s.workers, workers');
        assert EStep(s, s.(workers := workers', enqueuers := s.enqueuers[e := EIdle]), e);
    }
  }

  lemma SMove<J>(s: State<J>)
    requires SCanMove(s)
    ensures exists s' :: SStep(s, s')
  {
    match s.sd {
      case SHolding => assert SStep(s, s.(flag := true, before := |s.enqueued|, sd := SFlagged));
      case SFlagged => assert SStep(s, s.(mutex := Nobody, sd := SUnlocked));
      case SUnlocked => assert SStep(s, s.(workers := NotifyAll(s.workers), sd := SJoining));
      case SJoining => assert SStep(s, s.(sd := SReturned));
    }
  }

  // ---------------------------------------------------------------- what a call of enqueue does

  /** Step `i` starts a call of `enqueue` with this job, and state `j` is the first in which it has returned. */
  ghost predicate IsEnqueue<J>(run: seq<State<J>>, e: nat, job: J, i: nat, j: nat) {
    && i + 1 < j < |run| && (forall m :: 0 <= m < |run| ==> e < |run[m].enqueuers|)
    && run[i].enqueuers[e].EIdle? && run[i + 1].enqueuers[e] == EHolding(job) && run[j].enqueuers[e].EIdle?
    && forall m :: i < m < j ==> !run[m].enqueuers[e].EIdle?
  }

  /** The step in which a thread queues the job it holds. */
  ghost predicate Queues<J>(s: State<J>, s': State<J>, e: nat, job: J) {
    && e < |s.enqueuers| && e < |s'.enqueuers| && s.enqueuers[e] == EHolding(job) && s'.enqueuers[e].EPushed?
    && s'.jobs == s.jobs + [job] && s'.enqueued == s.enqueued + [job]
  }

  /** A thread moves on only by a step of its own. */
  lemma OwnSteps<J>(s: State<J>, s': State<J>, e: nat)
    requires Next(s, s') && e < |s.enqueuers|
    ensures e < |s'.enqueuers| && (s'.enqueuers[e] == s.enqueuers[e] || EStep(s, s', e))
  {
    hide WStep, SStep;
    if w :| 0 <= w < |s.workers| && WStep(s, s', w) {
      WorkersLeaveEnqueuers(s, s', w);
    } else if SStep(s, s') {
      ShutdownLeavesEnqueuers(s, s');
    }
  }

  lemma WorkersLeaveEnqueuers<J>(s: State<J>, s': State<J>, w: nat)
    requires w < |s.workers| && WStep(s, s', w)
    ensures s'.enqueuers == s.enqueuers
  {
  }

  lemma ShutdownLeavesEnqueuers<J>(s: State<J>, s': State<J>)
    requires SStep(s, s')
    ensures s'.enqueuers == s.enqueuers
  {
  }

  /** From holding its job a thread goes on to queue it; then it only unlocks, notifies and returns. */
  lemma EnqueueStep<J>(s: State<J>, s': State<J>, e: nat, job: J)
    requires Next(s, s') && e < |s.enqueuers|
    ensures e < |s'.enqueuers|
    ensures s.enqueuers[e] == EHolding(job) ==> s'.enqueuers[e] == EHolding(job) || Queues(s, s', e, job)
    ensures WillNotify(s.enqueuers[e]) ==> WillNotify(s'.enqueuers[e]) || s'.enqueuers[e].EIdle?
  {
    OwnSteps(s, s', e);
  }

  lemma {:induction false} EnqueueGoesOn<J>(run: seq<State<J>>, e: nat, job: J, i: nat, j: nat, k: nat) returns (m: nat)
    requires IsRun(run) && IsEnqueue(run, e, job, i, j) && i < k <= j
    ensures i < m <= k && (forall l :: i < l <= m ==> run[l].enqueuers[e] == EHolding(job))
    ensures m < k ==> m + 1 < |run| && Queues(run[m], run[m + 1], e, job)
    ensures forall l :: m < l <= k && l < j ==> WillNotify(run[l].enqueuers[e])
  {
    hide Next, Queues;
    m := k;
    if k > i + 1 {
      var l := k - 1;
      m := EnqueueGoesOn(run, e, job, i, j, l);
      assert Next(run[l], run[l + 1]);
      EnqueueStep(run[l], run[k], e, job);
      if m == l && run[k].enqueuers[e] == EHolding(job) {
        m := k;
      } else {
        QueuesThenNotifies(run[l], run[k], e, job);
      }
    }
  }

  lemma QueuesThenNotifies<J>(s: State<J>, s': State<J>, e: nat, job: J)
    ensures Queues(s, s', e, job) ==> WillNotify(s'.enqueuers[e])
  {
  }

  /** Every finished call of `enqueue` has queued its own job, once: it holds the job before, and not afterwards. */
  lemma EnqueueQueues<J>(run: seq<State<J>>, e: nat, job: J, i: nat, j: nat) returns (m: nat)
    requires IsRun(run) && IsEnqueue(run, e, job, i, j)
    ensures i < m < j && Queues(run[m], run[m + 1], e, job)
    ensures forall l :: i < l <= m ==> run[l].enqueuers[e] == EHolding(job)
    ensures forall l :: m < l < j ==> WillNotify(run[l].enqueuers[e])
  {
    hide Next, Queues;
    m := EnqueueGoesOn(run, e, job, i, j, j);
  }
}
