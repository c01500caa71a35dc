/**
 The HTTP client's socket discipline as interleaved steps: threads that send,
 nest further sends inside a request, and stop, sharing the recursive
 `request_mutex_`, the plain `socket_mutex_` and the in-flight bookkeeping.
 */
module ClientSocket {
  import opened Wrappers

  /** Where a call of `send` or of `stop` stands. */
  datatype Frame =
    | WantRequest        // send: wants request_mutex_
    | WantSocket         // send_: wants socket_mutex_
    | Reset              // clear the close-when-done flag
    | CheckAlive
    | CloseDead          // close a socket that the peer has closed
    | Connect
    | Mark               // count the request as in flight
    | UnlockMarked
    | Body               // the request is being handled
    | BodyWantSocket     // the response asks for the connection to be closed
    | BodyClose
    | BodyUnlock
    // the scope guard, of a request that has succeeded and keeps the connection or has not
    | ExitWantSocket(keep: bool)
    | ExitDecrement(keep: bool)
    | ExitCheck(keep: bool)
    | ExitClose(keep: bool)
    | ExitUnlock(keep: bool)
    | FailUnlock         // no connection
    | Sent               // send_ has returned
    | StopWantSocket     // stop: wants socket_mutex_
    | StopCheck
    | StopShutdown
    | StopClose
    | StopUnlock
    | Stopped

  /**
   A thread is outside, or somewhere in a call with `outer` requests around it. A
   call is only ever made from outside or from inside a request that is being
   handled, so every outer call stands at `Body`.
   */
  datatype Thread = Outside | Inside(outer: nat, at: Frame)

  datatype State = State(
    requestOwner: Option<nat>,
    requestDepth: int,
    socketMutex: Option<nat>,
    inFlight: int,
    from: Option<nat>,
    closeWhenDone: bool,
    open: bool,
    threads: seq<Thread>)

  ghost predicate Init(s: State) {
    && s.requestOwner.None? && s.requestDepth == 0 && s.socketMutex.None?
    && s.inFlight == 0 && s.from.None? && !s.closeWhenDone && !s.open
    && (forall t :: 0 <= t < |s.threads| ==> s.threads[t].Outside?)
  }

  /** What moving from one place to the next does to the shared fields. */
  datatype Effect =
    | Quiet
    | TakeRequest
    | TakeSocket
    | FreeSocket
    | Count
    | Uncount
    | SetClose
    | ClearClose
    | Opened
    | Closed

  /** The moves of `send`, `send_`, the handler, the scope guard and `stop`. */
  predicate Goes(s: State, f: Frame, e: Effect, f': Frame) {
    match f
    case WantRequest => e == TakeRequest && f' == WantSocket
    case WantSocket => e == TakeSocket && f' == Reset
    case Reset => e == ClearClose && f' == CheckAlive
    case CheckAlive => e == Quiet && if s.open then f' == Mark || f' == CloseDead else f' == Connect
    case CloseDead => e == Closed && f' == Connect
    case Connect => (e == Opened && f' == Mark) || (e == Quiet && f' == FailUnlock)
    case Mark => e == Count && f' == UnlockMarked
    case UnlockMarked => e == FreeSocket && f' == Body
    case Body => e == Quiet && (f' == BodyWantSocket || f'.ExitWantSocket?)
    case BodyWantSocket => e == TakeSocket && f' == BodyClose
    case BodyClose => e == Closed && f' == BodyUnlock
    case BodyUnlock => e == FreeSocket && f' == Body
    case ExitWantSocket(keep) => e == TakeSocket && f' == ExitDecrement(keep)
    case ExitDecrement(keep) => e == Uncount && f' == ExitCheck(keep)
    case ExitCheck(keep) => e == Quiet && f' == if s.closeWhenDone || !keep then ExitClose(keep) else ExitUnlock(keep)
    case ExitClose(keep) => e == Closed && f' == ExitUnlock(keep)
    case ExitUnlock(_) => e == FreeSocket && f' == Sent
    case FailUnlock => e == FreeSocket && f' == Sent
    case Sent => e == Quiet && f' == WantSocket  // the TLS peer could be closed: send once more
    case StopWantSocket => e == TakeSocket && f' == StopCheck
    case StopCheck => e == Quiet && f' == if s.inFlight > 0 then StopShutdown else StopClose
    case StopShutdown => e == SetClose && f' == StopUnlock
    case StopClose => e == Closed && f' == StopUnlock
    case StopUnlock => e == FreeSocket && f' == Stopped
    case Stopped => false
  }

  /** A mutex can be taken when it is free; the request mutex also by its owner. */
  predicate Enabled(s: State, t: nat, e: Effect) {
    && (e == TakeRequest ==> s.requestOwner.None? || s.requestOwner == Some(t))
    && (e == TakeSocket ==> s.socketMutex.None?)
  }

  function Apply(s: State, t: nat, e: Effect): State {
    match e
    case Quiet => s
    case TakeRequest => s.(requestOwner := Some(t), requestDepth := s.requestDepth + 1)
    case TakeSocket => s.(socketMutex := Some(t))
    case FreeSocket => s.(socketMutex := None)
    case Count => s.(inFlight := s.inFlight + 1, from := Some(t))
    case Uncount => s.(inFlight := s.inFlight - 1, from := if s.inFlight - 1 <= 0 then None else s.from)
    case SetClose => s.(closeWhenDone := true)
    case ClearClose => s.(closeWhenDone := false)
    case Opened => s.(open := true)
    case Closed => s.(open := false)
  }

  function With(s: State, t: nat, th: Thread): State
    requires t < |s.threads|
  {
    s.(threads := s.threads[t := th])
  }

  /** The running call of thread `t` moves on. */
  ghost predicate Move(s: State, s': State, t: nat, e: Effect, f': Frame)
    requires t < |s.threads|
  {
    && s.threads[t].Inside? && Goes(s, s.threads[t].at, e, f') && Enabled(s, t, e)
    && s' == With(Apply(s, t, e), t, Inside(s.threads[t].outer, f'))
  }

  function Nested(th: Thread, f: Frame): Thread {
    Inside(if th.Outside? then 0 else th.outer + 1, f)
  }

  /** Thread `t` makes a call, nested when it is handling a request. */
  ghost predicate Call(s: State, s': State, t: nat)
    requires t < |s.threads|
  {
    var th := s.threads[t];
    && (th.Outside? || th.at == Body)
    && (s' == With(s, t, Nested(th, WantRequest)) || s' == With(s, t, Nested(th, StopWantSocket)))
  }

  /** The call of thread `t` returns; `send` gives back one level of the request mutex. */
  ghost predicate Return(s: State, s': State, t: nat)
    requires t < |s.threads|
  {
    var th := s.threads[t];
    && th.Inside? && (th.at == Sent || th.at == Stopped)
    && var rest := if th.outer == 0 then Outside else Inside(th.outer - 1, Body);
       if th.at == Stopped then s' == With(s, t, rest)
       else s' == With(s, t, rest).(requestDepth := s.requestDepth - 1,
                                    requestOwner := if s.requestDepth == 1 then None else s.requestOwner)
  }

  ghost predicate Step(s: State, s': State, t: nat)
    requires t < |s.threads|
  {
    || (exists e, f' :: Move(s, s', t, e, f')) || Call(s, s', t) || Return(s, s', t)
  }

  ghost predicate Next(s: State, s': State) {
    exists t :: 0 <= t < |s.threads| && Step(s, s', t)
  }

  // ---------------------------------------------------------------- invariant

  /** Places that own one level of the request mutex. */
  predicate HoldsRequest(f: Frame) {
    f !in {WantRequest, StopWantSocket, StopCheck, StopShutdown, StopClose, StopUnlock, Stopped}
  }

  predicate HoldsSocket(f: Frame) {
    f !in {WantRequest, WantSocket, Body, BodyWantSocket, Sent, StopWantSocket, Stopped} && !f.ExitWantSocket?
  }

  /** Places whose request is in flight: counted and not yet counted down. */
  predicate InFlight(f: Frame) {
    f in {UnlockMarked, Body, BodyWantSocket, BodyClose, BodyUnlock} || f.ExitWantSocket? || f.ExitDecrement?
  }

  /** How many requests of a thread are in flight, and how many levels of the mutex it owns. */
  function FlightCount(th: Thread): nat {
    if th.Outside? then 0 else th.outer + if InFlight(th.at) then 1 else 0
  }

  function HeldCount(th: Thread): nat {
    if th.Outside? then 0 else th.outer + if HoldsRequest(th.at) then 1 else 0
  }

  predicate HasSocket(th: Thread) {
    th.Inside? && HoldsSocket(th.at)
  }

  predicate AtStopClose(th: Thread) {
    th.Inside? && th.at == StopClose
  }

  /** What the calls of a thread say about the shared fields. */
  ghost predicate ThreadInv(s: State, t: nat, th: Thread) {
    && (if s.requestOwner == Some(t) then s.requestDepth == HeldCount(th) > 0 && s.inFlight == FlightCount(th)
        else HeldCount(th) == 0)
    && (s.socketMutex == Some(t) <==> HasSocket(th))
    && (AtStopClose(th) ==> s.inFlight == 0)
  }

  ghost predicate SharedInv(s: State) {
    && s.inFlight >= 0
    && (s.requestOwner.None? ==> s.requestDepth == 0 && s.inFlight == 0)
    && (s.from == if s.inFlight > 0 then s.requestOwner else None)
  }

  ghost predicate Inv(s: State) {
    && SharedInv(s) && (forall t :: 0 <= t < |s.threads| ==> ThreadInv(s, t, s.threads[t]))
    && (s.requestOwner.Some? ==> s.requestOwner.value < |s.threads|)
    && (s.socketMutex.Some? ==> s.socketMutex.value < |s.threads|)
  }

  /** What a move does to the three kinds of places. */
  predicate PlaceMove(s: State, f: Frame, e: Effect, f': Frame) {
    && (HoldsRequest(f') <==> HoldsRequest(f) || e == TakeRequest)
    && (e == TakeRequest ==> !HoldsRequest(f))
    && (HoldsSocket(f') <==> (HoldsSocket(f) && e != FreeSocket) || e == TakeSocket)
    && (InFlight(f') <==> (InFlight(f) && e != Uncount) || e == Count)
    && (e == Count ==> !InFlight(f) && HoldsRequest(f) && HoldsSocket(f))
    && (e == Uncount ==> InFlight(f) && HoldsRequest(f) && HoldsSocket(f))
    && (e == FreeSocket ==> HoldsSocket(f))
    && (f' == StopClose ==> s.inFlight <= 0 && e == Quiet)
  }

  lemma GoesIsPlaceMove(s: State, f: Frame, e: Effect, f': Frame)
    requires Goes(s, f, e, f')
    ensures PlaceMove(s, f, e, f')
  {
  }

  lemma MoveShared(s: State, t: nat, outer: nat, f: Frame, e: Effect, f': Frame)
    requires SharedInv(s) && ThreadInv(s, t, Inside(outer, f)) && PlaceMove(s, f, e, f') && Enabled(s, t, e)
    ensures SharedInv(Apply(s, t, e))
  {
  }

  /** The moving thread's own part of the invariant. */
  lemma MoveOwn(s: State, t: nat, outer: nat, f: Frame, e: Effect, f': Frame)
    requires SharedInv(s) && ThreadInv(s, t, Inside(outer, f)) && PlaceMove(s, f, e, f') && Enabled(s, t, e)
    ensures ThreadInv(Apply(s, t, e), t, Inside(outer, f'))
  {
  }

  /** What a move leaves to another thread: the two mutexes keep them apart. */
  lemma MoveOther(s: State, t: nat, outer: nat, f: Frame, e: Effect, f': Frame, u: nat, th: Thread)
    requires u != t && SharedInv(s) && ThreadInv(s, t, Inside(outer, f)) && ThreadInv(s, u, th)
    requires PlaceMove(s, f, e, f') && Enabled(s, t, e)
    ensures ThreadInv(Apply(s, t, e), u, th)
  {
  }

  /** `s'` is `s` but for the threads. */
  predicate SameFields(s: State, s': State) {
    s' == s.(threads := s'.threads)
  }

  lemma SameInv(s: State, s': State, u: nat, th: Thread)
    requires SameFields(s, s') && ThreadInv(s, u, th)
    ensures ThreadInv(s', u, th)
  {
  }

  lemma MovedThread(s: State, s': State, t: nat, e: Effect, f': Frame, u: nat, next: State)
    requires Inv(s) && t < |s.threads| && s.threads[t].Inside? && PlaceMove(s, s.threads[t].at, e, f')
    requires Enabled(s, t, e)
    requires u < |s.threads| && next == Apply(s, t, e) && SameFields(next, s')
    ensures ThreadInv(s', u, if u == t then Inside(s.threads[t].outer, f') else s.threads[u])
  {
    var th := s.threads[t];
    if u == t {
      MoveOwn(s, t, th.outer, th.at, e, f');
      SameInv(next, s', t, Inside(th.outer, f'));
    } else {
      MoveOther(s, t, th.outer, th.at, e, f', u, s.threads[u]);
      SameInv(next, s', u, s.threads[u]);
    }
  }

  lemma Moved(s: State, s': State, t: nat, e: Effect, f': Frame, next: State)
    requires Inv(s) && t < |s.threads| && s.threads[t].Inside? && PlaceMove(s, s.threads[t].at, e, f')
    requires Enabled(s, t, e)
    requires next == Apply(s, t, e) && s' == With(next, t, Inside(s.threads[t].outer, f'))
    ensures Inv(s')
  {
    MoveShared(s, t, s.threads[t].outer, s.threads[t].at, e, f');
    forall u | 0 <= u < |s'.threads| ensures ThreadInv(s', u, s'.threads[u]) {
      MovedThread(s, s', t, e, f', u, next);
    }
  }

  lemma MoveInv(s: State, s': State, t: nat, e: Effect, f': Frame)
    requires Inv(s) && t < |s.threads| && Move(s, s', t, e, f')
    ensures Inv(s')
  {
    GoesIsPlaceMove(s, s.threads[t].at, e, f');
    Moved(s, s', t, e, f', Apply(s, t, e));
  }

  /** A new call owns nothing yet. */
  lemma CallOwn(s: State, t: nat, th: Thread, f: Frame)
    requires ThreadInv(s, t, th) && (th.Outside? || th.at == Body) && (f == WantRequest || f == StopWantSocket)
    ensures ThreadInv(s, t, Nested(th, f))
  {
  }

  lemma CallInv(s: State, s': State, t: nat)
    requires Inv(s) && t < |s.threads| && Call(s, s', t)
    ensures Inv(s')
  {
    var th := s.threads[t];
    var f := s'.threads[t].at;
    CallOwn(s, t, th, f);
    forall u | 0 <= u < |s'.threads| ensures ThreadInv(s', u, s'.threads[u]) {
      assert ThreadInv(s, u, s'.threads[u]);
    }
  }

  lemma ReturnInv(s: State, s': State, t: nat)
    requires Inv(s) && t < |s.threads| && Return(s, s', t)
    ensures Inv(s')
  {
    assert ThreadInv(s, t, s.threads[t]);
    forall u | 0 <= u < |s'.threads| ensures ThreadInv(s', u, s'.threads[u]) {
      assert ThreadInv(s, u, s.threads[u]);
    }
  }

  lemma NextInv(s: State, s': State)
    requires Inv(s) && Next(s, s')
    ensures Inv(s')
  {
    var t :| 0 <= t < |s.threads| && Step(s, s', t);
    if e, f' :| Move(s, s', t, e, f') {
      MoveInv(s, s', t, e, f');
    } else if Call(s, s', t) {
      CallInv(s, s', t);
    } else {
      ReturnInv(s, s', t);
    }
  }

  // ---------------------------------------------------------------- whole runs

  ghost predicate IsRun(run: seq<State>) {
    && |run| > 0 && Init(run[0])
    && (forall i :: 0 <= i < |run| - 1 ==> Next(run[i], run[i + 1]))
  }

  lemma {:induction false} RunInv(run: seq<State>, n: nat)
    requires IsRun(run) && n < |run|
    ensures Inv(run[n])
  {
    if n > 0 {
      RunInv(run, n - 1);
      assert Next(run[n - 1], run[n - 1 + 1]);
      NextInv(run[n - 1], run[n]);
    }
  }

  /**
   The in-flight count is the number of requests in flight of the thread that owns
   the request mutex; no other thread has any, and that thread is the recorded one.
   */
  lemma InFlightIsOwners(run: seq<State>, n: nat)
    requires IsRun(run) && n < |run|
    ensures var s := run[n];
            && (s.requestOwner.Some? ==> s.requestOwner.value < |s.threads|)
            && (s.requestOwner.Some? ==> s.inFlight == FlightCount(s.threads[s.requestOwner.value]))
            && (s.requestOwner.None? ==> s.inFlight == 0)
            && (forall t :: 0 <= t < |s.threads| && s.requestOwner != Some(t) ==> FlightCount(s.threads[t]) == 0)
            && s.from == (if s.inFlight > 0 then s.requestOwner else None)
  {
    RunInv(run, n);
    var s := run[n];
    if s.requestOwner.Some? { assert ThreadInv(s, s.requestOwner.value, s.threads[s.requestOwner.value]); }
    forall t | 0 <= t < |s.threads| && s.requestOwner != Some(t) ensures FlightCount(s.threads[t]) == 0 {
      assert ThreadInv(s, t, s.threads[t]);
    }
  }

  /** The places at which the socket is about to be closed. */
  predicate IsClose(f: Frame) {
    f in {CloseDead, BodyClose, StopClose} || f.ExitClose?
  }

  /**
   Nobody closes the socket while another thread has a request in flight, so the
   assertions of `close_socket` and `shutdown_ssl` hold wherever they are reached;
   so do those of `send_` on the recorded thread and on the count not falling below zero.
   */
  lemma AssertionsHold(run: seq<State>, n: nat, t: nat)
    requires IsRun(run) && n < |run| && t < |run[n].threads| && run[n].threads[t].Inside?
    ensures var s, f := run[n], run[n].threads[t].at;
            && (IsClose(f) ==> s.inFlight == 0 || s.from == Some(t))
            && (IsClose(f) ==> forall u :: 0 <= u < |s.threads| && u != t ==> FlightCount(s.threads[u]) == 0)
            && (f == Mark && s.inFlight > 1 ==> s.from == Some(t))
            && (f.ExitDecrement? ==> s.inFlight >= 1 && s.from == Some(t))
  {
    RunInv(run, n);
    InFlightIsOwners(run, n);
    assert ThreadInv(run[n], t, run[n].threads[t]);
  }

  /** Whoever holds the socket mutex can go on, so `stop` never waits for a request to finish. */
  lemma SocketMutexIsBrief(run: seq<State>, n: nat)
    requires IsRun(run) && n < |run| && run[n].socketMutex.Some?
    ensures var t := run[n].socketMutex.value; t < |run[n].threads| && exists s' :: Step(run[n], s', t)
  {
    RunInv(run, n);
    var s := run[n];
    var t := s.socketMutex.value;
    assert ThreadInv(s, t, s.threads[t]);
    var e, f' := HolderMoves(s, s.threads[t].at);
    var s' := With(Apply(s, t, e), t, Inside(s.threads[t].outer, f'));
    assert Move(s, s', t, e, f');
    assert Step(s, s', t);
  }

  lemma HolderMoves(s: State, f: Frame) returns (e: Effect, f': Frame)
    requires HoldsSocket(f)
    ensures Goes(s, f, e, f') && e != TakeRequest && e != TakeSocket
  {
    match f {
      case Reset => e, f' := ClearClose, CheckAlive;
      case CheckAlive => e, f' := Quiet, if s.open then Mark else Connect;
      case CloseDead => e, f' := Closed, Connect;
      case Connect => e, f' := Quiet, FailUnlock;
      case Mark => e, f' := Count, UnlockMarked;
      case UnlockMarked => e, f' := FreeSocket, Body;
      case BodyClose => e, f' := Closed, BodyUnlock;
      case BodyUnlock => e, f' := FreeSocket, Body;
      case ExitDecrement(keep) => e, f' := Uncount, ExitCheck(keep);
      case ExitCheck(keep) => e, f' := Quiet, if s.closeWhenDone || !keep then ExitClose(keep) else ExitUnlock(keep);
      case ExitClose(keep) => e, f' := Closed, ExitUnlock(keep);
      case ExitUnlock(_) => e, f' := FreeSocket, Sent;
      case FailUnlock => e, f' := FreeSocket, Sent;
      case StopCheck => e, f' := Quiet, if s.inFlight > 0 then StopShutdown else StopClose;
      case StopShutdown => e, f' := SetClose, StopUnlock;
      case StopClose => e, f' := Closed, StopUnlock;
      case StopUnlock => e, f' := FreeSocket, Stopped;
    }
  }

  // ---------------------------------------------------------------- the order to close

  /** The places between the reset of a new request and its count. */
  predicate IsConnecting(f: Frame) {
    f in {CheckAlive, CloseDead, Connect, Mark}
  }

  /** What a call that holds the socket mutex knows of the order to close. */
  ghost predicate OrderAt(s: State, th: Thread) {
    th.Inside? ==> (th.at == StopShutdown ==> s.inFlight > 0) && (IsConnecting(th.at) ==> !s.closeWhenDone)
  }

  /** The order has still to be carried out: the last request has ended. */
  predicate IsDue(s: State) {
    s.closeWhenDone && s.open && s.inFlight == 0
  }

  predicate IsClosing(f: Frame) {
    f.ExitCheck? || f.ExitClose?
  }

  /** An order that is due is about to be carried out by who holds the socket mutex. */
  ghost predicate OrderInv(s: State) {
    && (forall t :: 0 <= t < |s.threads| ==> OrderAt(s, s.threads[t]))
    && (IsDue(s) ==>
          && s.socketMutex.Some? && s.socketMutex.value < |s.threads|
          && s.threads[s.socketMutex.value].Inside? && IsClosing(s.threads[s.socketMutex.value].at))
  }

  /** What the moves have to do with the order. */
  predicate OrderMove(s: State, f: Frame, e: Effect, f': Frame) {
    && (f' == StopShutdown ==> e == Quiet && s.inFlight > 0)
    && (IsConnecting(f') ==> e == ClearClose || (IsConnecting(f) && (e == Quiet || e == Opened || e == Closed)))
    && (e == SetClose ==> f == StopShutdown) && (e == Opened ==> IsConnecting(f)) && (e == Uncount ==> IsClosing(f'))
    && (IsClosing(f) ==> e == Closed || (e == Quiet && (IsClosing(f') || !s.closeWhenDone)))
  }

  lemma GoesIsOrderMove(s: State, f: Frame, e: Effect, f': Frame)
    requires Goes(s, f, e, f')
    ensures OrderMove(s, f, e, f')
  {
  }

  /** Only who holds the socket mutex touches the socket, the count or the order. */
  predicate Keeps(s: State, t: nat, e: Effect) {
    s.socketMutex == Some(t) || (e == Quiet || e == TakeRequest || (e == TakeSocket && s.socketMutex.None?))
  }

  lemma MoveKeeps(s: State, t: nat, outer: nat, f: Frame, e: Effect, f': Frame)
    requires ThreadInv(s, t, Inside(outer, f)) && Goes(s, f, e, f') && Enabled(s, t, e)
    ensures Keeps(s, t, e)
  {
  }

  lemma MoveOrderOwn(s: State, t: nat, outer: nat, f: Frame, e: Effect, f': Frame)
    requires OrderAt(s, Inside(outer, f)) && OrderMove(s, f, e, f')
    ensures OrderAt(Apply(s, t, e), Inside(outer, f'))
  {
  }

  lemma MoveOrderOther(s: State, t: nat, e: Effect, u: nat, th: Thread)
    requires u != t && ThreadInv(s, u, th) && OrderAt(s, th) && Keeps(s, t, e)
    ensures OrderAt(Apply(s, t, e), th)
  {
  }

  /** A move makes an order due only by counting the last request down, and carries it out before the mutex is free. */
  lemma MoveDue(s: State, t: nat, outer: nat, f: Frame, e: Effect, f': Frame)
    requires OrderAt(s, Inside(outer, f)) && OrderMove(s, f, e, f') && Keeps(s, t, e) && s.inFlight >= 0
    requires IsDue(s) ==> s.socketMutex.Some? && (s.socketMutex == Some(t) ==> IsClosing(f))
    ensures IsDue(Apply(s, t, e)) ==>
              if Apply(s, t, e).socketMutex == Some(t) then IsClosing(f')
              else IsDue(s) && Apply(s, t, e).socketMutex == s.socketMutex
  {
  }

  lemma MoveOrder(s: State, s': State, t: nat, e: Effect, f': Frame)
    requires Inv(s) && OrderInv(s) && t < |s.threads| && Move(s, s', t, e, f')
    ensures OrderInv(s')
  {
    var th := s.threads[t];
    assert ThreadInv(s, t, th);
    GoesIsOrderMove(s, th.at, e, f');
    MoveKeeps(s, t, th.outer, th.at, e, f');
    OrderMoved(s, s', t, e, f');
  }

  lemma OrderMoved(s: State, s': State, t: nat, e: Effect, f': Frame)
    requires Inv(s) && OrderInv(s) && t < |s.threads| && s.threads[t].Inside? && OrderMove(s, s.threads[t].at, e, f')
    requires Keeps(s, t, e)
    requires s' == With(Apply(s, t, e), t, Inside(s.threads[t].outer, f'))
    ensures OrderInv(s')
  {
    var th := s.threads[t];
    MoveOrderOwn(s, t, th.outer, th.at, e, f');
    MoveDue(s, t, th.outer, th.at, e, f');
    forall u | 0 <= u < |s'.threads| ensures OrderAt(s', s'.threads[u]) {
      if u != t {
        assert ThreadInv(s, u, s.threads[u]);
        MoveOrderOther(s, t, e, u, s.threads[u]);
      }
    }
  }

  /** A thread at no place that knows of the order. */
  predicate IsPlain(th: Thread) {
    th.Inside? ==> th.at == Body || th.at == WantRequest || th.at == StopWantSocket
  }

  /** Calls and returns touch neither the socket nor the order. */
  lemma CallIsPlain(s: State, s': State, t: nat)
    requires t < |s.threads| && (Call(s, s', t) || Return(s, s', t))
    ensures |s'.threads| == |s.threads| && s'.threads == s.threads[t := s'.threads[t]] && IsPlain(s'.threads[t])
    ensures s'.open == s.open && s'.closeWhenDone == s.closeWhenDone && s'.inFlight == s.inFlight
    ensures s'.socketMutex == s.socketMutex
    ensures s.threads[t].Inside? ==> !IsClosing(s.threads[t].at)
  {
  }

  lemma PlainOrder(s: State, s': State, t: nat)
    requires OrderInv(s) && t < |s.threads|
    requires |s'.threads| == |s.threads| && s'.threads == s.threads[t := s'.threads[t]] && IsPlain(s'.threads[t])
    requires s'.open == s.open && s'.closeWhenDone == s.closeWhenDone && s'.inFlight == s.inFlight
    requires s'.socketMutex == s.socketMutex
    requires s.threads[t].Inside? ==> !IsClosing(s.threads[t].at)
    ensures OrderInv(s')
  {
    if IsDue(s') {
      var h := s.socketMutex.value;
      assert s'.threads[h] == s.threads[h];
    }
    forall u | 0 <= u < |s'.threads| ensures OrderAt(s', s'.threads[u]) {
      assert OrderAt(s, s.threads[u]);
    }
  }

  lemma NextOrder(s: State, s': State)
    requires Inv(s) && OrderInv(s) && Next(s, s')
    ensures OrderInv(s')
  {
    var t :| 0 <= t < |s.threads| && Step(s, s', t);
    if e, f' :| Move(s, s', t, e, f') {
      MoveOrder(s, s', t, e, f');
    } else {
      CallIsPlain(s, s', t);
      PlainOrder(s, s', t);
    }
  }

  lemma {:induction false} RunOrder(run: seq<State>, n: nat)
    requires IsRun(run) && n < |run|
    ensures Inv(run[n]) && OrderInv(run[n])
  {
    RunInv(run, n);
    if n > 0 {
      RunOrder(run, n - 1);
      assert Next(run[n - 1], run[n - 1 + 1]);
      NextOrder(run[n - 1], run[n]);
    }
  }

  /** A `stop` that finds requests in flight orders the socket to be closed when they are done. */
  ghost predicate GivesOrder(s: State, s': State, t: nat) {
    && t < |s.threads| && s.threads[t].Inside? && s.threads[t].at == StopShutdown
    && s' == With(s, t, Inside(s.threads[t].outer, StopUnlock)).(closeWhenDone := true)
  }

  /** A new request takes the order back. */
  ghost predicate TakesBack(s: State, s': State, t: nat) {
    && t < |s.threads| && s.threads[t].Inside? && s.threads[t].at == Reset
    && s' == With(s, t, Inside(s.threads[t].outer, CheckAlive)).(closeWhenDone := false)
  }

  lemma MoveTakesBack(s: State, s': State, t: nat, e: Effect, f': Frame)
    requires t < |s.threads| && Move(s, s', t, e, f') && s.closeWhenDone && !s'.closeWhenDone
    ensures TakesBack(s, s', t)
  {
  }

  lemma OnlyResetTakesBack(s: State, s': State) returns (t: nat)
    requires Next(s, s') && s.closeWhenDone && !s'.closeWhenDone
    ensures TakesBack(s, s', t)
  {
    t :| 0 <= t < |s.threads| && Step(s, s', t);
    if e, f' :| Move(s, s', t, e, f') {
      MoveTakesBack(s, s', t, e, f');
    } else {
      CallIsPlain(s, s', t);
      assert false;
    }
  }

  /** A request that is not nested finds an order carried out. */
  lemma OuterResetIsLate(s: State, s': State, t: nat)
    requires Inv(s) && OrderInv(s) && s.closeWhenDone && TakesBack(s, s', t) && s.threads[t].outer == 0
    ensures !s.open
  {
    assert ThreadInv(s, t, s.threads[t]);
  }

  lemma OrderTakenBack(s: State, s': State) returns (t: nat)
    requires Inv(s) && OrderInv(s) && Next(s, s') && s.closeWhenDone && !s'.closeWhenDone
    ensures TakenBack(s, s', t)
  {
    t := OnlyResetTakesBack(s, s');
    if s.threads[t].outer == 0 {
      OuterResetIsLate(s, s', t);
    }
  }

  /** Step `k` of a run takes the order back: in a nested request, or when the socket is closed. */
  ghost predicate TakenBack(s: State, s': State, t: nat) {
    TakesBack(s, s', t) && (s.threads[t].outer > 0 || !s.open)
  }

  lemma StepOfRun(run: seq<State>, k: nat, s: State, s': State)
    requires IsRun(run) && k + 1 < |run| && s == run[k] && s' == run[k + 1]
    ensures Next(s, s')
  {
  }

  lemma TakenBackInRun(run: seq<State>, k: nat, s: State, s': State) returns (t: nat)
    requires IsRun(run) && k + 1 < |run| && s == run[k] && s' == run[k + 1] && s.closeWhenDone && !s'.closeWhenDone
    ensures TakenBack(s, s', t)
  {
    RunOrder(run, k);
    StepOfRun(run, k, s, s');
    t := OrderTakenBack(s, s');
  }

  lemma {:induction false} SwitchedOff(run: seq<State>, i: nat, j: nat) returns (k: nat)
    requires i <= j < |run| && run[i].closeWhenDone && !run[j].closeWhenDone
    ensures i <= k < j && run[k].closeWhenDone && !run[k + 1].closeWhenDone
    decreases j
  {
    k := j - 1;
    if !run[k].closeWhenDone {
      k := SwitchedOff(run, i, k);
    }
  }

  /** An order stands until it is taken back. */
  lemma OrderStands(run: seq<State>, i: nat, j: nat) returns (k: nat, s: State, s': State, t: nat)
    requires IsRun(run) && i <= j < |run| && run[i].closeWhenDone && !run[j].closeWhenDone
    ensures i <= k < j && s == run[k] && s' == run[k + 1] && TakenBack(s, s', t)
  {
    k := SwitchedOff(run, i, j);
    s, s' := run[k], run[k + 1];
    t := TakenBackInRun(run, k, s, s');
  }

  lemma OrderEnds(run: seq<State>, i: nat, j: nat) returns (k: nat, s: State, s': State, t: nat)
    requires IsRun(run) && i <= j < |run| && run[i].closeWhenDone && run[j].inFlight == 0 && run[j].socketMutex.None?
    ensures i <= k <= j && s == run[k]
    ensures !s.open || (k < j && s' == run[k + 1] && TakenBack(s, s', t))
  {
    if run[j].closeWhenDone {
      RunOrder(run, j);
      k, s, s', t := j, run[j], run[j], 0;
    } else {
      k, s, s', t := OrderStands(run, i, j);
    }
  }

  /**
   An order given by `stop` is carried out: once no request is in flight and nobody
   holds the socket mutex, the socket has been closed, unless a nested request has
   taken the order back.
   */
  lemma StopCloses(run: seq<State>, i: nat, u: nat, j: nat) returns (k: nat, s: State, s': State, t: nat)
    requires IsRun(run) && i < j < |run| && GivesOrder(run[i], run[i + 1], u)
    requires run[j].inFlight == 0 && run[j].socketMutex.None?
    ensures i < k <= j && s == run[k]
    ensures !s.open || (k < j && s' == run[k + 1] && TakesBack(s, s', t) && s.threads[t].outer > 0)
  {
    var first := i + 1;
    assert run[first].closeWhenDone;
    k, s, s', t := OrderEnds(run, first, j);
  }

  // ---------------------------------------------------------------- connecting and keeping

  /**
   A thread about to connect has found the socket closed, or closed it; so has one
   whose request is done and does not keep the connection.
   */
  predicate ConnectAt(s: State, th: Thread) {
    th.Inside? && (th.at == Connect || th.at == ExitUnlock(false)) ==> !s.open
  }

  ghost predicate ConnectInv(s: State) {
    forall t :: 0 <= t < |s.threads| ==> ConnectAt(s, s.threads[t])
  }

  lemma MoveConnectOwn(s: State, t: nat, outer: nat, f: Frame, e: Effect, f': Frame)
    requires Goes(s, f, e, f')
    ensures ConnectAt(Apply(s, t, e), Inside(outer, f'))
  {
  }

  lemma MoveConnectOther(s: State, t: nat, e: Effect, u: nat, th: Thread)
    requires u != t && ThreadInv(s, u, th) && ConnectAt(s, th) && Keeps(s, t, e)
    ensures ConnectAt(Apply(s, t, e), th)
  {
  }

  lemma MoveConnect(s: State, s': State, t: nat, e: Effect, f': Frame)
    requires Inv(s) && ConnectInv(s) && t < |s.threads| && Move(s, s', t, e, f')
    ensures ConnectInv(s')
  {
    hide Goes;
    var th := s.threads[t];
    assert ThreadInv(s, t, th);
    MoveKeeps(s, t, th.outer, th.at, e, f');
    MoveConnectOwn(s, t, th.outer, th.at, e, f');
    forall u | 0 <= u < |s'.threads| ensures ConnectAt(s', s'.threads[u]) {
      if u != t {
        assert ThreadInv(s, u, s.threads[u]);
        MoveConnectOther(s, t, e, u, s.threads[u]);
      }
    }
  }

  lemma NextConnect(s: State, s': State)
    requires Inv(s) && ConnectInv(s) && Next(s, s')
    ensures ConnectInv(s')
  {
    hide Goes;
    var t :| 0 <= t < |s.threads| && Step(s, s', t);
    if e, f' :| Move(s, s', t, e, f') {
      MoveConnect(s, s', t, e, f');
    } else {
      CallIsPlain(s, s', t);
      forall u | 0 <= u < |s'.threads| ensures ConnectAt(s', s'.threads[u]) {
        assert ConnectAt(s, s.threads[u]);
      }
    }
  }

  lemma {:induction false} RunConnect(run: seq<State>, n: nat)
    requires IsRun(run) && n < |run|
    ensures Inv(run[n]) && ConnectInv(run[n])
  {
    RunInv(run, n);
    if n > 0 {
      RunConnect(run, n - 1);
      assert Next(run[n - 1], run[n - 1 + 1]);
      NextConnect(run[n - 1], run[n]);
    }
  }

  /**
   A new connection is made only when there is none: the socket is closed wherever
   `Connect` is reached, and a send that finds it open either uses it as it is or, if
   the peer has closed it, closes it first.
   */
  lemma ConnectsWhenClosed(run: seq<State>, n: nat, t: nat, e: Effect, f': Frame)
    requires IsRun(run) && n < |run| && t < |run[n].threads| && run[n].threads[t].Inside?
    ensures var s, f := run[n], run[n].threads[t].at;
            && (f == Connect ==> !s.open)
            && (f == CheckAlive && s.open && Goes(s, f, e, f') ==>
                  f' == CloseDead || (f' == Mark && Apply(s, t, e) == s))
  {
    RunConnect(run, n);
    assert ConnectAt(run[n], run[n].threads[t]);
  }

  /**
   A request that has failed, or does not keep the connection, leaves the socket closed;
   one that keeps it leaves it as it is, unless there is an order to close.
   */
  lemma KeptIfAsked(run: seq<State>, n: nat, t: nat, e: Effect, f': Frame)
    requires IsRun(run) && n < |run| && t < |run[n].threads| && run[n].threads[t].Inside?
    ensures var s, f := run[n], run[n].threads[t].at;
            && (f == ExitUnlock(false) ==> !s.open)
            && (f == ExitCheck(true) && !s.closeWhenDone && Goes(s, f, e, f') ==>
                  f' == ExitUnlock(true) && Apply(s, t, e) == s)
  {
    RunConnect(run, n);
    assert ConnectAt(run[n], run[n].threads[t]);
  }
}
