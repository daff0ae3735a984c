/**
 * Reference counting of utils/rc.c, as the interleaved steps of any number of threads. The count is updated
 * under the block's spin lock; cleanup and free run after the lock has been released.
 */
module RefCount {

  /** Where a thread stands inside rc_inc_impl, rc_dec_impl or refcount_cleanup. */
  datatype Pc =
    | Idle
    | IncSpin                            // waiting for the lock
    | IncLocked                          // holding it, count not yet looked at
    | IncUnlock(ok: bool)                // count dealt with, lock still held
    | DecSpin
    | DecLocked
    | DecUnlock(count: int, invalid: bool)
    | DecTest(count: int, invalid: bool) // lock released, only locals left
    | Cleaning                           // about to call cleanup_func
    | Freeing                            // about to call mem_free

  /** A thread and the number of references it may still use. */
  datatype Thread = Thread(refs: nat, pc: Pc)

  /** The lock holder, if any. */
  datatype Lock = Unlocked | LockedBy(t: nat)

  datatype State = State(count: int, lock: Lock, freed: bool, cleanups: nat, threads: seq<Thread>)

  datatype Action =
    | CallInc | CallDec | Acquire | Update | Release | Test | Cleanup | Free
    | Give(to: nat) // pass a reference to another thread

  /** A thread calls inc and dec only on a reference it holds. */
  predicate Enabled(s: State, t: nat, a: Action) {
    && t < |s.threads|
    && var pc := s.threads[t].pc;
      match a
      case CallInc => pc.Idle? && s.threads[t].refs >= 1
      case CallDec => pc.Idle? && s.threads[t].refs >= 1
      case Acquire => (pc.IncSpin? || pc.DecSpin?) && s.lock.Unlocked?
      case Update => pc.IncLocked? || pc.DecLocked?
      case Release => pc.IncUnlock? || pc.DecUnlock?
      case Test => pc.DecTest?
      case Cleanup => pc.Cleaning?
      case Free => pc.Freeing?
      case Give(to) => pc.Idle? && s.threads[t].refs >= 1 && to < |s.threads| && to != t
  }

  function SetPc(s: State, t: nat, pc: Pc): State
    requires t < |s.threads|
  {
    s.(threads := s.threads[t := s.threads[t].(pc := pc)])
  }

  function SetThread(s: State, t: nat, refs: nat, pc: Pc): State
    requires t < |s.threads|
  {
    s.(threads := s.threads[t := Thread(refs, pc)])
  }

  function Step(s: State, t: nat, a: Action): State
    requires Enabled(s, t, a)
  {
    var th := s.threads[t];
    match a
    case CallInc => SetPc(s, t, IncSpin)
    case CallDec => SetThread(s, t, th.refs - 1, DecSpin)
    case Acquire => SetPc(s, t, if th.pc.IncSpin? then IncLocked else DecLocked).(lock := LockedBy(t))
    case Update =>
      if th.pc.IncLocked? then
        if s.count > 0 then SetPc(s, t, IncUnlock(true)).(count := s.count + 1)
        else SetPc(s, t, IncUnlock(false))
      else
        if s.count > 0 then SetPc(s, t, DecUnlock(s.count - 1, false)).(count := s.count - 1)
        else SetPc(s, t, DecUnlock(s.count, true))
    case Release =>
      if th.pc.IncUnlock? then SetThread(s, t, th.refs + (if th.pc.ok then 1 else 0), Idle).(lock := Unlocked)
      else SetPc(s, t, DecTest(th.pc.count, th.pc.invalid)).(lock := Unlocked)
    case Test => SetPc(s, t, if !th.pc.invalid && th.pc.count <= 0 then Cleaning else Idle)
    case Cleanup => SetPc(s, t, Freeing).(cleanups := s.cleanups + 1)
    case Free => SetPc(s, t, Idle).(freed := true)
    case Give(to) =>
      var u := s.threads[to];
      s.(threads := s.threads[t := Thread(th.refs - 1, th.pc)][to := Thread(u.refs + 1, u.pc)])
  }

  /** rc_alloc_impl: one reference, held by one thread. */
  ghost predicate Init(s: State) {
    && s.count == 1 && s.lock == Unlocked && !s.freed && s.cleanups == 0
    && exists owner :: OnlyOwner(s.threads, owner)
  }

  ghost predicate OnlyOwner(ts: seq<Thread>, owner: int) {
    && 0 <= owner < |ts| && ts[owner] == Thread(1, Idle)
    && forall t :: 0 <= t < |ts| && t != owner ==> ts[t] == Thread(0, Idle)
  }

  // ---- what is counted

  /** The references a thread accounts for: its own, one being dropped, one just taken. */
  function Held(th: Thread): nat {
    th.refs + (if th.pc.DecSpin? || th.pc.DecLocked? || th.pc == IncUnlock(true) then 1 else 0)
  }

  /** The thread that took the count to zero, until it has freed the block. */
  function LastDropper(th: Thread): nat {
    if th.pc == DecUnlock(0, false) || th.pc == DecTest(0, false) || th.pc.Cleaning? || th.pc.Freeing? then 1 else 0
  }

  function CleanedUp(th: Thread): nat {
    if th.pc.Freeing? then 1 else 0
  }

  function Sum(ts: seq<Thread>, f: Thread -> nat): nat {
    if ts == [] then 0 else f(ts[0]) + Sum(ts[1..], f)
  }

  lemma {:induction false} SumAfterUpdate(ts: seq<Thread>, t: nat, th: Thread, f: Thread -> nat)
    requires t < |ts|
    ensures Sum(ts[t := th], f) == Sum(ts, f) - f(ts[t]) + f(th)
  {
    if t == 0 {
      assert ts[t := th][1..] == ts[1..];
    } else {
      SumAfterUpdate(ts[1..], t - 1, th, f);
      assert ts[t := th][1..] == ts[1..][t - 1 := th];
    }
  }

  lemma {:induction false} SumBounds(ts: seq<Thread>, t: nat, f: Thread -> nat)
    requires t < |ts|
    ensures Sum(ts, f) >= f(ts[t])
  {
    if t > 0 {
      SumBounds(ts[1..], t - 1, f);
    }
  }

  lemma {:induction false} SumOfNothing(ts: seq<Thread>, f: Thread -> nat)
    requires forall t :: 0 <= t < |ts| ==> f(ts[t]) == 0
    ensures Sum(ts, f) == 0
  {
    if ts != [] {
      SumOfNothing(ts[1..], f);
    }
  }

  // ---- the invariant

  predicate HoldsLock(pc: Pc) {
    pc.IncLocked? || pc.IncUnlock? || pc.DecLocked? || pc.DecUnlock?
  }

  /** The next step of a thread reads or writes the lock, the count or the cleanup pointer of the block. */
  predicate TouchesBlock(pc: Pc) {
    pc.IncSpin? || pc.DecSpin? || HoldsLock(pc) || pc.Cleaning? || pc.Freeing?
  }

  ghost predicate ThreadOk(s: State, t: nat)
    requires t < |s.threads|
  {
    var th := s.threads[t];
    && (HoldsLock(th.pc) <==> s.lock == LockedBy(t))
    && (th.pc.IncSpin? || th.pc.IncLocked? || th.pc.IncUnlock? ==> th.refs >= 1)
    && (th.pc.DecUnlock? ==> !th.pc.invalid && th.pc.count == s.count)
    && (th.pc.DecTest? ==> !th.pc.invalid && th.pc.count >= 0)
    && (th.pc.IncUnlock? ==> th.pc.ok)
  }

  /** The count is exact, and while it is 0 exactly one thread is cleaning up, or the block is freed. */
  ghost predicate CountsOk(s: State) {
    && s.count == Sum(s.threads, Held)
    && Sum(s.threads, LastDropper) + (if s.freed then 1 else 0) == (if s.count == 0 then 1 else 0)
    && s.cleanups == Sum(s.threads, CleanedUp) + (if s.freed then 1 else 0)
  }

  ghost predicate Inv(s: State) {
    && CountsOk(s)
    && (forall t :: 0 <= t < |s.threads| ==> ThreadOk(s, t))
    && (s.lock.LockedBy? ==> s.lock.t < |s.threads|)
  }

  lemma InitEstablishesInv(s: State)
    requires Init(s)
    ensures Inv(s)
  {
    var owner :| OnlyOwner(s.threads, owner);
    var none := s.threads[owner := Thread(0, Idle)];
    SumOfNothing(none, Held);
    SumAfterUpdate(none, owner, Thread(1, Idle), Held);
    assert none[owner := Thread(1, Idle)] == s.threads;
    SumOfNothing(s.threads, LastDropper);
    SumOfNothing(s.threads, CleanedUp);
  }

  /** What one changed thread does to the three sums. */
  lemma SumsAfterUpdate(ts: seq<Thread>, t: nat, th: Thread)
    requires t < |ts|
    ensures Sum(ts[t := th], Held) == Sum(ts, Held) - Held(ts[t]) + Held(th)
    ensures Sum(ts[t := th], LastDropper) == Sum(ts, LastDropper) - LastDropper(ts[t]) + LastDropper(th)
    ensures Sum(ts[t := th], CleanedUp) == Sum(ts, CleanedUp) - CleanedUp(ts[t]) + CleanedUp(th)
  {
    SumAfterUpdate(ts, t, th, Held);
    SumAfterUpdate(ts, t, th, LastDropper);
    SumAfterUpdate(ts, t, th, CleanedUp);
  }

  lemma GiveKeepsCounts(s: State, t: nat, to: nat)
    requires CountsOk(s) && Enabled(s, t, Give(to))
    ensures CountsOk(Step(s, t, Give(to)))
  {
    hide Sum;
    var giver := Thread(s.threads[t].refs - 1, s.threads[t].pc);
    SumsAfterUpdate(s.threads, t, giver);
    SumsAfterUpdate(s.threads[t := giver], to, Step(s, t, Give(to)).threads[to]);
  }

  lemma StepKeepsCounts(s: State, t: nat, a: Action)
    requires CountsOk(s) && Enabled(s, t, a) && ThreadOk(s, t)
    ensures CountsOk(Step(s, t, a))
  {
    SumBounds(s.threads, t, Held);
    SumBounds(s.threads, t, LastDropper);
    if a.Give? {
      GiveKeepsCounts(s, t, a.to);
    } else {
      hide Sum;
      SumsAfterUpdate(s.threads, t, Step(s, t, a).threads[t]);
    }
  }

  lemma StepKeepsOwn(s: State, t: nat, a: Action)
    requires Inv(s) && Enabled(s, t, a)
    ensures ThreadOk(Step(s, t, a), t)
  {
    assert ThreadOk(s, t);
    SumBounds(s.threads, t, Held);
  }

  lemma StepKeepsOther(s: State, t: nat, a: Action, u: nat)
    requires Inv(s) && Enabled(s, t, a) && u < |s.threads| && u != t
    ensures ThreadOk(Step(s, t, a), u)
  {
    assert ThreadOk(s, t) && ThreadOk(s, u);
  }

  lemma StepKeepsThreads(s: State, t: nat, a: Action)
    requires Inv(s) && Enabled(s, t, a)
    ensures forall u :: 0 <= u < |s.threads| ==> ThreadOk(Step(s, t, a), u)
  {
    hide Inv, ThreadOk;
    StepKeepsOwn(s, t, a);
    forall u | 0 <= u < |s.threads| && u != t
      ensures ThreadOk(Step(s, t, a), u)
    {
      StepKeepsOther(s, t, a, u);
    }
  }

  /** Every step of every thread keeps the invariant. */
  lemma StepKeepsInv(s: State, t: nat, a: Action)
    requires Inv(s) && Enabled(s, t, a)
    ensures Inv(Step(s, t, a))
  {
    assert ThreadOk(s, t);
    StepKeepsCounts(s, t, a);
    StepKeepsThreads(s, t, a);
  }

  // ---- whole runs

  /** A run: the states it passes through, from an allocation on, under any interleaving. */
  ghost predicate IsRun(run: seq<State>) {
    && run != [] && Init(run[0])
    && forall i :: 0 < i < |run| ==> StepAt(run, i)
  }

  /** The i-th state follows from the one before it. */
  ghost predicate StepAt(run: seq<State>, i: int)
    requires 0 < i < |run|
  {
    Follows(run[i - 1], run[i])
  }

  ghost predicate Follows(s: State, s': State) {
    exists t: nat, a: Action :: Enabled(s, t, a) && s' == Step(s, t, a)
  }

  lemma {:induction false} InvAlongRun(run: seq<State>, i: nat)
    requires IsRun(run) && i < |run|
    ensures Inv(run[i])
  {
    if i == 0 {
      InitEstablishesInv(run[0]);
    } else {
      InvAlongRun(run, i - 1);
      assert StepAt(run, i);
      var t: nat, a: Action :| Enabled(run[i - 1], t, a) && run[i] == Step(run[i - 1], t, a);
      StepKeepsInv(run[i - 1], t, a);
    }
  }

  /** At every moment the count is the number of outstanding references. */
  lemma CountIsOutstanding(run: seq<State>, i: nat)
    requires IsRun(run) && i < |run|
    ensures run[i].count == Sum(run[i].threads, Held)
  {
    InvAlongRun(run, i);
  }

  /** Cleanup runs at most once, and only when no reference is left. */
  lemma CleanupOnlyAtTheEnd(run: seq<State>, i: nat)
    requires IsRun(run) && i < |run|
    ensures run[i].cleanups <= 1
    ensures run[i].cleanups == 1 ==> Sum(run[i].threads, Held) == 0
  {
    InvAlongRun(run, i);
    CleanedUpIsLast(run[i].threads);
  }

  lemma {:induction false} CleanedUpIsLast(ts: seq<Thread>)
    ensures Sum(ts, CleanedUp) <= Sum(ts, LastDropper)
  {
    if ts != [] {
      CleanedUpIsLast(ts[1..]);
    }
  }

  /** Whatever thread is about to touch the lock, the count or the cleanup pointer: the block is still there. */
  lemma NoTouchAfterFree(run: seq<State>, i: nat, t: nat)
    requires IsRun(run) && i < |run| && t < |run[i].threads|
    ensures TouchesBlock(run[i].threads[t].pc) ==> !run[i].freed
  {
    var s := run[i];
    InvAlongRun(run, i);
    assert ThreadOk(s, t);
    SumBounds(s.threads, t, Held);
    SumBounds(s.threads, t, LastDropper);
  }

  lemma CountStaysZero(s: State, t: nat, a: Action)
    requires Enabled(s, t, a) && s.count == 0
    ensures Step(s, t, a).count == 0
  {
  }

  /** Once the count is 0 it stays 0, so no inc succeeds any more. */
  lemma {:induction false} ZeroIsForever(run: seq<State>, i: nat, j: nat)
    requires IsRun(run) && i <= j < |run| && run[i].count == 0
    ensures run[j].count == 0
    decreases j - i
  {
    if i < j {
      var s, s' := run[i], run[i + 1];
      InvAlongRun(run, i);
      assert StepAt(run, i + 1);
      var t: nat, a: Action :| Enabled(s, t, a) && s' == Step(s, t, a);
      CountStaysZero(s, t, a);
      ZeroIsForever(run, i + 1, j);
    }
  }

  /** No inc is ever refused while its caller holds the reference it passes. */
  lemma IncNeverFails(run: seq<State>, i: nat, t: nat)
    requires IsRun(run) && i < |run| && t < |run[i].threads|
    ensures run[i].threads[t].pc.IncUnlock? ==> run[i].threads[t].pc.ok
  {
    InvAlongRun(run, i);
    assert ThreadOk(run[i], t);
  }

  /** When every thread is out of the library and no reference is left, the block was cleaned up once and freed. */
  lemma QuietMeansFreed(run: seq<State>, i: nat)
    requires IsRun(run) && i < |run|
    requires forall t :: 0 <= t < |run[i].threads| ==> run[i].threads[t] == Thread(0, Idle)
    ensures run[i].freed && run[i].cleanups == 1
  {
    var s := run[i];
    InvAlongRun(run, i);
    SumOfNothing(s.threads, Held);
    SumOfNothing(s.threads, LastDropper);
    SumOfNothing(s.threads, CleanedUp);
  }

  // ---- every run can be brought to its end

  /** How many steps of its own a thread is from being out of the library without a reference, at most. */
  function Work(th: Thread): nat {
    10 * th.refs
    + match th.pc
      case Idle => 0
      case IncSpin => 13
      case IncLocked => 12
      case IncUnlock(_) => 11
      case DecSpin => 7
      case DecLocked => 6
      case DecUnlock(_, _) => 5
      case DecTest(_, _) => 4
      case Cleaning => 3
      case Freeing => 2
  }

  /** Every step but a new inc, and the passing of a reference, leaves less work than before. */
  lemma StepDoesWork(s: State, t: nat, a: Action)
    requires Enabled(s, t, a) && !a.CallInc? && !a.Give?
    ensures Sum(Step(s, t, a).threads, Work) < Sum(s.threads, Work)
  {
    hide Sum;
    SumAfterUpdate(s.threads, t, Step(s, t, a).threads[t], Work);
  }

  ghost predicate Quiet(s: State) {
    forall t :: 0 <= t < |s.threads| ==> s.threads[t] == Thread(0, Idle)
  }

  /** As long as some thread is in the library or has a reference, one of these steps is possible. */
  lemma SomeStepIsEnabled(s: State) returns (t: nat, a: Action)
    requires Inv(s) && !Quiet(s)
    ensures Enabled(s, t, a) && !a.CallInc? && !a.Give?
  {
    if s.lock.LockedBy? {
      t := s.lock.t;
      assert ThreadOk(s, t);
      a := if s.threads[t].pc.IncLocked? || s.threads[t].pc.DecLocked? then Update else Release;
    } else {
      t :| 0 <= t < |s.threads| && s.threads[t] != Thread(0, Idle);
      assert ThreadOk(s, t);
      match s.threads[t].pc {
        case Idle => a := CallDec;
        case DecTest(_, _) => a := Test;
        case Cleaning => a := Cleanup;
        case Freeing => a := Free;
        case _ => a := Acquire;
      }
    }
  }

  /**
   * No run gets stuck, and the end is always the same: any run can go on until all threads have dropped their
   * references and left, and then the block has been cleaned up, once, and freed.
   */
  lemma {:induction false} EveryRunCanEnd(run: seq<State>) returns (longer: seq<State>)
    requires IsRun(run)
    ensures IsRun(longer) && run <= longer
    ensures var end := longer[|longer| - 1];
      Quiet(end) && end.freed && end.cleanups == 1
    decreases Sum(run[|run| - 1].threads, Work)
  {
    var s := run[|run| - 1];
    InvAlongRun(run, |run| - 1);
    if Quiet(s) {
      longer := run;
      QuietMeansFreed(run, |run| - 1);
    } else {
      var t, a := SomeStepIsEnabled(s);
      StepDoesWork(s, t, a);
      OneStepLonger(run, t, a);
      longer := EveryRunCanEnd(run + [Step(s, t, a)]);
    }
  }

  lemma OneStepLonger(run: seq<State>, t: nat, a: Action)
    requires IsRun(run) && Enabled(run[|run| - 1], t, a)
    ensures IsRun(run + [Step(run[|run| - 1], t, a)])
  {
    var longer := run + [Step(run[|run| - 1], t, a)];
    forall i | 0 < i < |longer|
      ensures StepAt(longer, i)
    {
      if i < |run| {
        assert StepAt(run, i);
      }
    }
  }

  /**
   * And it cannot go on for ever without a new inc or a reference changing hands: however the threads are scheduled,
   * the number of steps is bounded by the work that was left.
   */
  lemma {:induction false} ScheduleIsBounded(s: State, steps: seq<(nat, Action)>)
    requires Runnable(s, steps)
    ensures |steps| + Sum(AfterSteps(s, steps).threads, Work) <= Sum(s.threads, Work)
    decreases |steps|
  {
    if steps != [] {
      StepDoesWork(s, steps[0].0, steps[0].1);
      ScheduleIsBounded(Step(s, steps[0].0, steps[0].1), steps[1..]);
    }
  }

  /** A schedule of steps, none of them a new inc or a reference changing hands. */
  ghost predicate Runnable(s: State, steps: seq<(nat, Action)>)
    decreases |steps|
  {
    steps != [] ==>
      && Enabled(s, steps[0].0, steps[0].1) && !steps[0].1.CallInc? && !steps[0].1.Give?
      && Runnable(Step(s, steps[0].0, steps[0].1), steps[1..])
  }

  ghost function AfterSteps(s: State, steps: seq<(nat, Action)>): State
    requires Runnable(s, steps)
    decreases |steps|
  {
    if steps == [] then s else AfterSteps(Step(s, steps[0].0, steps[0].1), steps[1..])
  }
}
