/** Semaphores, locks and condition variables of kern/thread/synch.c over the wait channels of
    kern/thread/thread.c, as step systems: a step is a section under the spinlock, so a run is any
    interleaving of any number of threads. A woken thread is runnable and has yet to take the spinlock. */
module Synch {
  import opened Basics

  // ---------------------------------------------------------------------------------------
  // Semaphores
  // ---------------------------------------------------------------------------------------

  const UINT_MAX: nat := 0xffff_ffff

  /** `trying` threads have called `P`, `sleepers` are on the wait channel in order, `woken` were taken off it;
      `vs` and `ps` count completed calls. */
  datatype Sem = Sem(count: nat, sleepers: seq<nat>, woken: set<nat>, trying: set<nat>, vs: nat, ps: nat)

  datatype SemEvent = CallP(t: nat) | Attempt(t: nat) | V

  ghost predicate SemLegal(s: Sem, e: SemEvent) {
    match e
    case CallP(t) => t !in s.trying && t !in s.woken && t !in s.sleepers
    case Attempt(t) => t in s.trying || t in s.woken
    case V => s.count < UINT_MAX
  }

  /** `wchan_wakeone`: the thread longest on the channel becomes runnable. */
  function WakeOne(s: Sem): Sem {
    if s.sleepers == [] then s else s.(sleepers := s.sleepers[1..], woken := s.woken + {s.sleepers[0]})
  }

  function SemStep(s: Sem, e: SemEvent): Sem {
    match e
    case CallP(t) => s.(trying := s.trying + {t})
    case Attempt(t) =>
      var s' := s.(trying := s.trying - {t}, woken := s.woken - {t});
      if s.count == 0 then s'.(sleepers := s.sleepers + [t]) else s'.(count := s.count - 1, ps := s.ps + 1)
    case V => WakeOne(s.(count := s.count + 1, vs := s.vs + 1))
  }

  /** Counts add up; and while anybody sleeps, enough threads have been woken to use up the count. */
  ghost predicate SemOk(s: Sem, initial: nat) {
    s.count + s.ps == initial + s.vs && s.count <= UINT_MAX &&
    Distinct(s.sleepers) && s.trying !! s.woken && (forall t :: t in s.sleepers ==> t !in s.trying && t !in s.woken) &&
    (s.sleepers != [] ==> |s.woken| >= s.count)
  }

  lemma SemStepOk(s: Sem, initial: nat, e: SemEvent)
    requires SemOk(s, initial) && SemLegal(s, e)
    ensures SemOk(SemStep(s, e), initial)
  {
    if e.V? && s.sleepers != [] {
      var t := s.sleepers[0];
      assert t in s.sleepers;
      assert |s.woken + {t}| == |s.woken| + 1;
      assert s.sleepers == [t] + s.sleepers[1..];
    }
  }

  ghost predicate SemRun(s: Sem, events: seq<SemEvent>, s': Sem)
    decreases |events|
  {
    if events == [] then s' == s else SemLegal(s, events[0]) && SemRun(SemStep(s, events[0]), events[1..], s')
  }

  function SemCreate(initial: nat): Sem {
    Sem(initial, [], {}, {}, 0, 0)
  }

  lemma {:induction false} SemRunOk(s: Sem, initial: nat, events: seq<SemEvent>, s': Sem)
    requires SemOk(s, initial) && SemRun(s, events, s')
    ensures SemOk(s', initial)
    decreases |events|
  {
    if events != [] {
      SemStepOk(s, initial, events[0]);
      SemRunOk(SemStep(s, events[0]), initial, events[1..], s');
    }
  }

  /** No lost wakeup: after any run, when no woken thread is still to run, nobody sleeps unless the count is zero;
      and completed operations account for the count. */
  lemma NoLostV(initial: nat, events: seq<SemEvent>, s: Sem)
    requires initial <= UINT_MAX && SemRun(SemCreate(initial), events, s)
    ensures s.count == initial + s.vs - s.ps
    ensures s.sleepers != [] && s.count > 0 ==> s.woken != {}
    ensures s.sleepers != [] ==> |s.woken| >= s.count
  {
    SemRunOk(SemCreate(initial), initial, events, s);
  }

  // ---------------------------------------------------------------------------------------
  // Locks
  // ---------------------------------------------------------------------------------------

  /** Where a thread stands with a lock. `Asleep` is on the wait channel, `Dropping` has passed the test at the
      head of `lock_release` but not yet taken the spinlock. */
  datatype Place = Out | Trying | Asleep | Woken | Holding | Dropping

  datatype Lock = Lock(owner: Option<nat>, sleepers: seq<nat>, place: map<nat, Place>)

  function At(s: Lock, t: nat): Place {
    if t in s.place then s.place[t] else Out
  }

  function Move(s: Lock, t: nat, p: Place): Lock {
    s.(place := s.place[t := p])
  }

  datatype LockEvent = Call(t: nat) | TryLock(t: nat) | CallRelease(t: nat) | Drop(t: nat)

  ghost predicate LockLegal(s: Lock, e: LockEvent) {
    match e
    case Call(t) => At(s, t).Out? || At(s, t).Holding?
    case TryLock(t) => At(s, t).Trying? || At(s, t).Woken?
    case CallRelease(t) => At(s, t).Out? || At(s, t).Holding?
    case Drop(t) => At(s, t).Dropping?
  }

  function WakeFirst(s: Lock): Lock {
    if s.sleepers == [] then s else Move(s.(sleepers := s.sleepers[1..]), s.sleepers[0], Woken)
  }

  /** `lock_acquire` and `lock_release`; a release by a thread that is not the owner does nothing. */
  function LockStep(s: Lock, e: LockEvent): Lock {
    match e
    case Call(t) => Move(s, t, Trying)
    case TryLock(t) =>
      if s.owner.None? then Move(s.(owner := Some(t)), t, Holding)
      else Move(s.(sleepers := s.sleepers + [t]), t, Asleep)
    case CallRelease(t) => if s.owner == Some(t) then Move(s, t, Dropping) else s
    case Drop(t) => WakeFirst(Move(s.(owner := None), t, Out))
  }

  ghost predicate LockOk(s: Lock) {
    Distinct(s.sleepers) && (forall t: nat :: t in s.sleepers <==> At(s, t).Asleep?) &&
    (forall t: nat :: At(s, t).Holding? || At(s, t).Dropping? ==> s.owner == Some(t)) &&
    (s.owner.None? && s.sleepers != [] ==> exists t: nat :: At(s, t).Woken?)
  }

  lemma CallOk(s: Lock, t: nat)
    requires LockOk(s) && LockLegal(s, Call(t))
    ensures LockOk(LockStep(s, Call(t)))
  {
  }

  lemma TryOk(s: Lock, t: nat)
    requires LockOk(s) && LockLegal(s, TryLock(t))
    ensures LockOk(LockStep(s, TryLock(t)))
  {
  }

  lemma DropOk(s: Lock, t: nat)
    requires LockOk(s) && LockLegal(s, Drop(t))
    ensures LockOk(LockStep(s, Drop(t)))
  {
    var s1 := Move(s.(owner := None), t, Out);
    MoveAt(s.(owner := None), t, Out);
    if s.sleepers != [] {
      var s', w := LockStep(s, Drop(t)), s.sleepers[0];
      Uncons(s.sleepers);
      MoveAt(s1.(sleepers := s1.sleepers[1..]), w, Woken);
      hide Move;
      assert forall x: nat :: At(s', x) == if x == w then Woken else if x == t then Out else At(s, x);
      hide At;
      assert At(s', w).Woken?;
    }
  }

  lemma LockStepOk(s: Lock, e: LockEvent)
    requires LockOk(s) && LockLegal(s, e)
    ensures LockOk(LockStep(s, e))
  {
    match e
    case Call(t) => CallOk(s, t);
    case TryLock(t) => TryOk(s, t);
    case CallRelease(t) => MoveAt(s, t, Dropping);
    case Drop(t) => DropOk(s, t);
  }

  lemma MoveAt(s: Lock, t: nat, p: Place)
    ensures forall x: nat :: At(Move(s, t, p), x) == if x == t then p else At(s, x)
  {
  }

  ghost predicate LockRun(s: Lock, events: seq<LockEvent>, s': Lock)
    decreases |events|
  {
    if events == [] then s' == s else LockLegal(s, events[0]) && LockRun(LockStep(s, events[0]), events[1..], s')
  }

  lemma {:induction false} LockRunOk(s: Lock, events: seq<LockEvent>, s': Lock)
    requires LockOk(s) && LockRun(s, events, s')
    ensures LockOk(s')
    decreases |events|
  {
    if events != [] {
      LockStepOk(s, events[0]);
      LockRunOk(LockStep(s, events[0]), events[1..], s');
    }
  }

  /** Over every run: two threads never both hold the lock, the unlocked test in `lock_release` cannot go stale, and
      a free lock with sleepers has a woken thread about to take it. */
  lemma LockSafe(events: seq<LockEvent>, s: Lock, t: nat, t': nat)
    requires LockRun(Lock(None, [], map[]), events, s)
    ensures At(s, t).Holding? && At(s, t').Holding? ==> t == t'
    ensures At(s, t).Dropping? ==> s.owner == Some(t)
    ensures s.owner.None? && s.sleepers != [] ==>
      exists w: nat :: At(s, w).Woken? && LockStep(s, TryLock(w)).owner == Some(w)
  {
    LockRunOk(Lock(None, [], map[]), events, s);
    if s.owner.None? && s.sleepers != [] {
      var w: nat :| At(s, w).Woken?;
      assert LockStep(s, TryLock(w)).owner == Some(w);
    }
  }

  // ---------------------------------------------------------------------------------------
  // Condition variables
  // ---------------------------------------------------------------------------------------

  /** Where a thread stands with a lock and a condition variable used with it. In `cv_wait`: `Entering` (lock held),
      `Waiting` (lock and spinlock), `Released` (spinlock only), `Sleeping` (on the channel), `Roused` (woken),
      `Respun` (spinlock again), `Relocking`. In `cv_signal` or `cv_broadcast`: `Notifying` (lock held), `Armed` (lock
      and spinlock), `Notified` (the same, after the wakeup). */
  datatype Stage =
    | Outside | Inside | Entering | Waiting | Released | Sleeping | Roused | Respun | Relocking
    | Notifying | Armed | Notified

  datatype Cv = Cv(lock: Option<nat>, spin: Option<nat>, channel: seq<nat>, stage: map<nat, Stage>)

  datatype CvEvent =
    | TakeLock(t: nat) | GiveLock(t: nat)
    | EnterWait(t: nat) | SpinForWait(t: nat) | ReleaseLock(t: nat) | Sleep(t: nat) | Respin(t: nat) | LeaveSpin(t: nat)
    | EnterNotify(t: nat) | SpinForNotify(t: nat) | Signal(t: nat) | Broadcast(t: nat) | LeaveNotify(t: nat)

  function StageOf(s: Cv, t: nat): Stage {
    if t in s.stage then s.stage[t] else Outside
  }

  function Put(s: Cv, t: nat, p: Stage): Cv {
    s.(stage := s.stage[t := p])
  }

  ghost predicate CvLegal(s: Cv, e: CvEvent) {
    match e
    case TakeLock(t) => s.lock.None? && (StageOf(s, t).Outside? || StageOf(s, t).Relocking?)
    case GiveLock(t) => StageOf(s, t).Inside?
    case EnterWait(t) => StageOf(s, t).Inside?
    case SpinForWait(t) => s.spin.None? && StageOf(s, t).Entering?
    case ReleaseLock(t) => StageOf(s, t).Waiting?
    case Sleep(t) => StageOf(s, t).Released?
    case Respin(t) => s.spin.None? && StageOf(s, t).Roused?
    case LeaveSpin(t) => StageOf(s, t).Respun?
    case EnterNotify(t) => StageOf(s, t).Inside?
    case SpinForNotify(t) => s.spin.None? && StageOf(s, t).Notifying?
    case Signal(t) => StageOf(s, t).Armed?
    case Broadcast(t) => StageOf(s, t).Armed?
    case LeaveNotify(t) => StageOf(s, t).Notified?
  }

  function WakeHead(s: Cv): Cv {
    if s.channel == [] then s else Put(s.(channel := s.channel[1..]), s.channel[0], Roused)
  }

  /** `wchan_wakeall`: everybody off the channel, one by one. */
  function WakeAll(s: Cv): Cv
    decreases |s.channel|
  {
    if s.channel == [] then s else WakeAll(WakeHead(s))
  }

  function CvStep(s: Cv, e: CvEvent): Cv {
    match e
    case TakeLock(t) => Put(s.(lock := Some(t)), t, Inside)
    case GiveLock(t) => Put(s.(lock := None), t, Outside)
    case EnterWait(t) => Put(s, t, Entering)
    case SpinForWait(t) => Put(s.(spin := Some(t)), t, Waiting)
    case ReleaseLock(t) => Put(s.(lock := None), t, Released)
    case Sleep(t) => Put(s.(spin := None, channel := s.channel + [t]), t, Sleeping)
    case Respin(t) => Put(s.(spin := Some(t)), t, Respun)
    case LeaveSpin(t) => Put(s.(spin := None), t, Relocking)
    case EnterNotify(t) => Put(s, t, Notifying)
    case SpinForNotify(t) => Put(s.(spin := Some(t)), t, Armed)
    case Signal(t) => Put(WakeHead(s), t, Notified)
    case Broadcast(t) => Put(WakeAll(s), t, Notified)
    case LeaveNotify(t) => Put(s.(spin := None), t, Inside)
  }

  predicate HasSpin(p: Stage) {
    p.Waiting? || p.Released? || p.Respun? || p.Armed? || p.Notified?
  }

  predicate HasLock(p: Stage) {
    p.Inside? || p.Entering? || p.Waiting? || p.Notifying? || p.Armed? || p.Notified?
  }

  ghost predicate CvOk(s: Cv) {
    Distinct(s.channel) && (forall t: nat :: t in s.channel <==> StageOf(s, t).Sleeping?) &&
    (forall t: nat :: HasSpin(StageOf(s, t)) <==> s.spin == Some(t)) &&
    (forall t: nat :: HasLock(StageOf(s, t)) <==> s.lock == Some(t))
  }

  lemma PutAt(s: Cv, t: nat, p: Stage)
    ensures forall x: nat :: StageOf(Put(s, t, p), x) == if x == t then p else StageOf(s, x)
  {
  }

  lemma WakeHeadOk(s: Cv)
    requires CvOk(s)
    ensures CvOk(WakeHead(s))
    ensures forall x: nat ::
      StageOf(WakeHead(s), x) == if s.channel != [] && x == s.channel[0] then Roused else StageOf(s, x)
  {
    if s.channel != [] {
      Uncons(s.channel);
      PutAt(s.(channel := s.channel[1..]), s.channel[0], Roused);
      hide Put, StageOf, Distinct;
      assert s.channel[0] in s.channel;
    }
  }

  lemma {:induction false} WakeAllOk(s: Cv)
    requires CvOk(s)
    ensures CvOk(WakeAll(s)) && WakeAll(s).channel == []
    ensures forall x: nat :: StageOf(WakeAll(s), x) == if x in s.channel then Roused else StageOf(s, x)
    decreases |s.channel|
  {
    if s.channel != [] {
      WakeHeadOk(s);
      Uncons(s.channel);
      WakeAllOk(WakeHead(s));
      hide StageOf, CvOk, Distinct;
    }
  }

  /** One thread moves on; lock, spinlock and channel follow. */
  lemma PutOk(s: Cv, s1: Cv, t: nat, p: Stage)
    requires CvOk(s) && s1.stage == s.stage && Distinct(s1.channel)
    requires forall x: nat :: x in s1.channel <==> if x == t then p.Sleeping? else x in s.channel
    requires forall x: nat :: s1.spin == Some(x) <==> if x == t then HasSpin(p) else s.spin == Some(x)
    requires forall x: nat :: s1.lock == Some(x) <==> if x == t then HasLock(p) else s.lock == Some(x)
    ensures CvOk(Put(s1, t, p))
  {
  }

  lemma NotifyOk(s: Cv, t: nat, all: bool)
    requires CvOk(s) && StageOf(s, t).Armed?
    ensures CvOk(Put(if all then WakeAll(s) else WakeHead(s), t, Notified))
  {
    var s1 := if all then WakeAll(s) else WakeHead(s);
    WakeHeadOk(s);
    WakeAllOk(s);
    assert StageOf(s1, t).Armed? by {
      assert t !in s.channel;
      assert s.channel != [] ==> s.channel[0] in s.channel;
    }
    PutOk(s1, s1, t, Notified);
  }

  lemma CvStepOk(s: Cv, e: CvEvent)
    requires CvOk(s) && CvLegal(s, e)
    ensures CvOk(CvStep(s, e))
  {
    match e
    case TakeLock(t) => PutOk(s, s.(lock := Some(t)), t, Inside);
    case GiveLock(t) => PutOk(s, s.(lock := None), t, Outside);
    case EnterWait(t) => PutOk(s, s, t, Entering);
    case SpinForWait(t) => PutOk(s, s.(spin := Some(t)), t, Waiting);
    case ReleaseLock(t) => PutOk(s, s.(lock := None), t, Released);
    case Sleep(t) => PutOk(s, s.(spin := None, channel := s.channel + [t]), t, Sleeping);
    case Respin(t) => PutOk(s, s.(spin := Some(t)), t, Respun);
    case LeaveSpin(t) => PutOk(s, s.(spin := None), t, Relocking);
    case EnterNotify(t) => PutOk(s, s, t, Notifying);
    case SpinForNotify(t) => PutOk(s, s.(spin := Some(t)), t, Armed);
    case Signal(t) => NotifyOk(s, t, false);
    case Broadcast(t) => NotifyOk(s, t, true);
    case LeaveNotify(t) => PutOk(s, s.(spin := None), t, Inside);
  }

  ghost predicate CvRun(s: Cv, events: seq<CvEvent>, s': Cv)
    decreases |events|
  {
    if events == [] then s' == s else CvLegal(s, events[0]) && CvRun(CvStep(s, events[0]), events[1..], s')
  }

  lemma {:induction false} CvRunOk(s: Cv, events: seq<CvEvent>, s': Cv)
    requires CvOk(s) && CvRun(s, events, s')
    ensures CvOk(s')
    decreases |events|
  {
    if events != [] {
      CvStepOk(s, events[0]);
      CvRunOk(CvStep(s, events[0]), events[1..], s');
    }
  }

  /** Has given up the lock in `cv_wait` and not been woken since. */
  predicate Unwoken(p: Stage) {
    p.Released? || p.Sleeping?
  }

  /** No lost signal: after any run, a waiter that has given up the lock is on the channel when a signal comes, since
      the signaller needs the spinlock the waiter keeps until it is there; so a broadcast wakes every such waiter and a
      signal the one that has slept longest. */
  lemma NoLostSignal(events: seq<CvEvent>, s: Cv, t: nat, w: nat)
    requires CvRun(Cv(None, None, [], map[]), events, s) && StageOf(s, t).Armed? && Unwoken(StageOf(s, w))
    ensures w in s.channel
    ensures StageOf(CvStep(s, Broadcast(t)), w).Roused?
    ensures StageOf(CvStep(s, Signal(t)), s.channel[0]).Roused?
  {
    CvRunOk(Cv(None, None, [], map[]), events, s);
    SignalFinds(s, t, w);
  }

  lemma SignalFinds(s: Cv, t: nat, w: nat)
    requires CvOk(s) && StageOf(s, t).Armed? && Unwoken(StageOf(s, w))
    ensures w in s.channel
    ensures StageOf(CvStep(s, Broadcast(t)), w).Roused?
    ensures StageOf(CvStep(s, Signal(t)), s.channel[0]).Roused?
  {
    assert HasSpin(StageOf(s, t)) && s.spin == Some(t);
    assert HasSpin(StageOf(s, w)) ==> s.spin == Some(w);
    assert w in s.channel && s.channel[0] in s.channel && StageOf(s, s.channel[0]).Sleeping?;
    WakeAllOk(s);
    WakeHeadOk(s);
    hide CvOk;
    PutAt(WakeAll(s), t, Notified);
    PutAt(WakeHead(s), t, Notified);
    hide StageOf, Put;
  }

  /** Signals among some events. */
  function Signals(events: seq<CvEvent>): nat {
    if events == [] then 0 else (if events[0].Signal? then 1 else 0) + Signals(events[1..])
  }

  /** Thread `w` is woken at some point of the run. */
  ghost predicate RousedDuring(s: Cv, events: seq<CvEvent>, w: nat)
    decreases |events|
  {
    StageOf(s, w).Roused? || (events != [] && RousedDuring(CvStep(s, events[0]), events[1..], w))
  }

  /** One step: a sleeper keeps its place, or moves up one by a signal, or is woken. */
  lemma PlaceInLine(s: Cv, e: CvEvent, w: nat)
    requires CvOk(s) && CvLegal(s, e) && w in s.channel
    ensures var s' := CvStep(s, e);
      StageOf(s', w).Roused? ||
      (w in s'.channel && !e.Broadcast? &&
       IndexOf(s'.channel, w) + (if e.Signal? then 1 else 0) == IndexOf(s.channel, w))
  {
    var s', k := CvStep(s, e), IndexOf(s.channel, w);
    if e.Signal? {
      SignalPlace(s, e.t, w);
    } else if e.Broadcast? {
      WakeAllOk(s);
      PutAt(WakeAll(s), e.t, Notified);
      assert StageOf(s, e.t) != StageOf(s, w);
    } else {
      assert s'.channel == s.channel || s'.channel == s.channel + [e.t];
      assert s'.channel[k] == w;
      assert forall i :: 0 <= i < k ==> s'.channel[i] != w;
    }
  }

  lemma SignalPlace(s: Cv, t: nat, w: nat)
    requires CvOk(s) && StageOf(s, t).Armed? && w in s.channel
    ensures var s' := CvStep(s, Signal(t));
      StageOf(s', w).Roused? || (w in s'.channel && IndexOf(s'.channel, w) + 1 == IndexOf(s.channel, w))
  {
  }

  /** Waiters are served in order: over any run, a sleeper with `k` others ahead is woken by the time `k + 1` signals
      have been sent, and by any broadcast. */
  lemma {:induction false} ServedInOrder(s: Cv, events: seq<CvEvent>, s': Cv, w: nat)
    requires CvOk(s) && CvRun(s, events, s') && w in s.channel
    ensures RousedDuring(s, events, w) ||
      (w in s'.channel && IndexOf(s'.channel, w) + Signals(events) == IndexOf(s.channel, w) &&
       forall e :: e in events ==> !e.Broadcast?)
    decreases |events|
  {
    if events != [] {
      PlaceInLine(s, events[0], w);
      CvStepOk(s, events[0]);
      var s1 := CvStep(s, events[0]);
      assert events == [events[0]] + events[1..];
      if w in s1.channel {
        ServedInOrder(s1, events[1..], s', w);
      }
      hide CvStep, CvOk, StageOf;
    }
  }
}
