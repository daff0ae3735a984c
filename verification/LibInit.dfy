/**
 * initialize_modules() of lib/init.c, as the interleaved steps of any number of concurrent callers. A spin
 * lock guards the creation of the library mutex, and the mutex guards the initialization of the modules.
 */
module LibInit {
  import opened Basics

  /** The modules in the order of their init calls: lib, ab, mb, omron. */
  const NUM_MODULES: nat := 4

  /** Where a caller stands. The value rc is the local variable of that name. */
  datatype Pc =
    | Outside
    | SpinWait
    | SpinIn                            // about to test lib_mutex
    | SpinOut(rc: int)                  // mutex creation settled, spin lock still held
    | RcTest(rc: int)
    | MutexWait
    | MutexIn                           // about to test library_initialized
    | Init(k: nat, rc: int)             // about to deal with module k
    | Publish(rc: int)                  // about to set library_initialized
    | MutexOut(rc: int)
    | Returned(rc: int, passed: bool)   // passed: the call got past mutex creation

  datatype SpinLock = Unlocked | SpunBy(t: nat)
  datatype LibMutex = Null | Unheld | HeldBy(t: nat)

  /** One call of a module's init function, and what it returned. */
  datatype InitCall = InitCall(mod_: nat, rc: int)

  datatype State = State(spin: SpinLock, mutex: LibMutex, initialized: bool, created: nat,
                         log: seq<InitCall>, threads: seq<Pc>)

  /** The steps; where a called function decides the outcome, the step carries its return code. */
  datatype Action =
    | Call | SpinAcquire | EnsureMutex(rc: int) | SpinRelease | TestRc
    | MutexAcquire | TestInitialized | InitModule(rc: int) | SetInitialized | MutexRelease

  predicate Enabled(s: State, t: nat, a: Action) {
    && t < |s.threads|
    && var pc := s.threads[t];
      match a
      case Call => pc.Outside? || pc.Returned?
      case SpinAcquire => pc.SpinWait? && s.spin.Unlocked?
      case EnsureMutex(_) => pc.SpinIn?
      case SpinRelease => pc.SpinOut?
      case TestRc => pc.RcTest?
      case MutexAcquire => pc.MutexWait? && s.mutex.Unheld?
      case TestInitialized => pc.MutexIn?
      case InitModule(_) => pc.Init?
      case SetInitialized => pc.Publish?
      case MutexRelease => pc.MutexOut?
  }

  function Goto(s: State, t: nat, pc: Pc): State
    requires t < |s.threads|
  {
    s.(threads := s.threads[t := pc])
  }

  function Step(s: State, t: nat, a: Action): State
    requires Enabled(s, t, a)
  {
    var pc := s.threads[t];
    match a
    case Call => Goto(s, t, SpinWait)
    case SpinAcquire => Goto(s, t, SpinIn).(spin := SpunBy(t))
    case EnsureMutex(rc) =>
      if !s.mutex.Null? then Goto(s, t, SpinOut(PLCTAG_STATUS_OK))
      else if rc == PLCTAG_STATUS_OK then Goto(s, t, SpinOut(rc)).(mutex := Unheld, created := s.created + 1)
      else Goto(s, t, SpinOut(rc))
    case SpinRelease => Goto(s, t, RcTest(pc.rc)).(spin := Unlocked)
    case TestRc => Goto(s, t, if pc.rc != PLCTAG_STATUS_OK then Returned(pc.rc, false) else MutexWait)
    case MutexAcquire => Goto(s, t, MutexIn).(mutex := HeldBy(t))
    case TestInitialized => Goto(s, t, if s.initialized then MutexOut(PLCTAG_STATUS_OK) else Init(0, PLCTAG_STATUS_OK))
    case InitModule(rc) =>
      // lib_init is called outright, each later module only while all went well
      var runs := pc.k == 0 || pc.rc == PLCTAG_STATUS_OK;
      var rc' := if runs then rc else pc.rc;
      var s' := if runs then s.(log := s.log + [InitCall(pc.k, rc)]) else s;
      Goto(s', t, if pc.k + 1 < NUM_MODULES then Init(pc.k + 1, rc') else Publish(rc'))
    case SetInitialized => Goto(s, t, MutexOut(pc.rc)).(initialized := true)
    case MutexRelease => Goto(s, t, Returned(pc.rc, true)).(mutex := Unheld)
  }

  ghost predicate Start(s: State) {
    && s.spin == Unlocked && s.mutex == Null && !s.initialized && s.created == 0 && s.log == []
    && forall t :: 0 <= t < |s.threads| ==> s.threads[t] == Outside
  }

  // ---- the invariant

  predicate InSpin(pc: Pc) {
    pc.SpinIn? || pc.SpinOut?
  }

  predicate InMutex(pc: Pc) {
    pc.MutexIn? || pc.Init? || pc.Publish? || pc.MutexOut?
  }

  /** The calls made so far: modules in order, and none after a failure. */
  ghost predicate InOrder(log: seq<InitCall>) {
    && |log| <= NUM_MODULES
    && (forall i :: 0 <= i < |log| ==> log[i].mod_ == i)
    && (forall i :: 0 <= i < |log| - 1 ==> log[i].rc == PLCTAG_STATUS_OK)
  }

  /** What rc says about the calls: all of the first k succeeded, or rc is the failure that ended them. */
  ghost predicate Explains(rc: int, k: nat, log: seq<InitCall>) {
    if rc == PLCTAG_STATUS_OK then
      |log| == k && (k > 0 ==> log[k - 1].rc == PLCTAG_STATUS_OK)
    else
      0 < |log| <= k && log[|log| - 1].rc == rc
  }

  /** All four modules were initialized, successfully. */
  ghost predicate AllSucceeded(log: seq<InitCall>) {
    |log| == NUM_MODULES && forall i :: 0 <= i < |log| ==> log[i].rc == PLCTAG_STATUS_OK
  }

  /** What holds for each caller. */
  ghost predicate ThreadOk(s: State, t: nat)
    requires t < |s.threads|
  {
    var pc := s.threads[t];
    && (InSpin(pc) <==> s.spin == SpunBy(t))
    && (InMutex(pc) <==> s.mutex == HeldBy(t))
    && ((pc.SpinOut? || pc.RcTest?) && pc.rc == PLCTAG_STATUS_OK ==> !s.mutex.Null?)
    && (pc.MutexWait? ==> !s.mutex.Null?)
    && (pc.MutexIn? && !s.initialized ==> s.log == [])
    && (pc.Init? ==> pc.k < NUM_MODULES && !s.initialized && Explains(pc.rc, pc.k, s.log))
    && (pc.Publish? ==> !s.initialized && Explains(pc.rc, NUM_MODULES, s.log))
    && (pc.MutexOut? ==> s.initialized && (pc.rc != PLCTAG_STATUS_OK ==> Explains(pc.rc, NUM_MODULES, s.log)))
    && (pc.Returned? && pc.passed ==>
          s.initialized && (pc.rc != PLCTAG_STATUS_OK ==> Explains(pc.rc, NUM_MODULES, s.log)))
    && (pc.Returned? && !pc.passed ==> pc.rc != PLCTAG_STATUS_OK)
  }

  ghost predicate GlobalOk(s: State) {
    && s.created == (if s.mutex.Null? then 0 else 1)
    && InOrder(s.log)
    && (s.initialized ==> exists rc :: Explains(rc, NUM_MODULES, s.log))
    && (!s.initialized && !s.mutex.HeldBy? ==> s.log == [])
    && (s.mutex.HeldBy? ==> s.mutex.t < |s.threads|) && (s.spin.SpunBy? ==> s.spin.t < |s.threads|)
    && (s.initialized ==> !s.mutex.Null?)
  }

  ghost predicate Inv(s: State) {
    GlobalOk(s) && forall t :: 0 <= t < |s.threads| ==> ThreadOk(s, t)
  }

  lemma StartEstablishesInv(s: State)
    requires Start(s)
    ensures Inv(s)
  {
  }

  lemma StepKeepsGlobal(s: State, t: nat, a: Action)
    requires Inv(s) && Enabled(s, t, a)
    ensures GlobalOk(Step(s, t, a))
  {
    assert ThreadOk(s, t);
    if a.SetInitialized? {
      assert Explains(s.threads[t].rc, NUM_MODULES, s.log);
    }
  }

  lemma StepKeepsOwn(s: State, t: nat, a: Action)
    requires Inv(s) && Enabled(s, t, a)
    ensures ThreadOk(Step(s, t, a), t)
  {
    assert ThreadOk(s, t);
  }

  lemma StepKeepsOther(s: State, t: nat, a: Action, u: nat)
    requires Inv(s) && Enabled(s, t, a) && u < |s.threads| && u != t
    ensures ThreadOk(Step(s, t, a), u)
  {
    assert ThreadOk(s, t) && ThreadOk(s, u);
  }

  lemma StepKeepsThreads(s: State, t: nat, a: Action)
    requires Inv(s) && Enabled(s, t, a)
    ensures forall u :: 0 <= u < |s.threads| ==> ThreadOk(Step(s, t, a), u)
  {
    hide Inv, ThreadOk;
    StepKeepsOwn(s, t, a);
    forall u | 0 <= u < |s.threads| && u != t
      ensures ThreadOk(Step(s, t, a), u)
    {
      StepKeepsOther(s, t, a, u);
    }
  }

  /** Every step of every caller keeps the invariant. */
  lemma StepKeepsInv(s: State, t: nat, a: Action)
    requires Inv(s) && Enabled(s, t, a)
    ensures Inv(Step(s, t, a))
  {
    StepKeepsGlobal(s, t, a);
    StepKeepsThreads(s, t, a);
  }

  // ---- whole runs

  ghost predicate IsRun(run: seq<State>) {
    && run != [] && Start(run[0])
    && forall i :: 0 < i < |run| ==> StepAt(run, i)
  }

  /** The i-th state follows from the one before it. */
  ghost predicate StepAt(run: seq<State>, i: int)
    requires 0 < i < |run|
  {
    Follows(run[i - 1], run[i])
  }

  ghost predicate Follows(s: State, s': State) {
    exists t: nat, a: Action :: Enabled(s, t, a) && s' == Step(s, t, a)
  }

  lemma {:induction false} InvAlongRun(run: seq<State>, i: nat)
    requires IsRun(run) && i < |run|
    ensures Inv(run[i])
  {
    if i == 0 {
      StartEstablishesInv(run[0]);
    } else {
      InvAlongRun(run, i - 1);
      assert StepAt(run, i);
      var t: nat, a: Action :| Enabled(run[i - 1], t, a) && run[i] == Step(run[i - 1], t, a);
      StepKeepsInv(run[i - 1], t, a);
    }
  }

  /** At most one library mutex is ever created. */
  lemma OneMutex(run: seq<State>, i: nat)
    requires IsRun(run) && i < |run|
    ensures run[i].created <= 1
  {
    InvAlongRun(run, i);
  }

  /** The init calls of a whole run: each module at most once, in order, and only after successes. */
  lemma InitsOnceAndInOrder(run: seq<State>, i: nat)
    requires IsRun(run) && i < |run|
    ensures InOrder(run[i].log)
  {
    InvAlongRun(run, i);
  }

  /** Calls are never forgotten: the log only grows. */
  lemma {:induction false} LogGrows(run: seq<State>, i: nat, j: nat)
    requires IsRun(run) && i <= j < |run|
    ensures run[i].log <= run[j].log
    decreases j
  {
    if i < j {
      LogGrows(run, i, j - 1);
      assert StepAt(run, j);
      var t: nat, a: Action :| Enabled(run[j - 1], t, a) && run[j] == Step(run[j - 1], t, a);
      StepGrowsLog(run[j - 1], t, a);
    }
  }

  lemma StepGrowsLog(s: State, t: nat, a: Action)
    requires Enabled(s, t, a)
    ensures s.log <= Step(s, t, a).log
  {
  }

  /** Two callers are never both inside the code that the mutex guards. */
  lemma MutualExclusion(run: seq<State>, i: nat, t: nat, u: nat)
    requires IsRun(run) && i < |run| && t < |run[i].threads| && u < |run[i].threads| && t != u
    ensures !(InMutex(run[i].threads[t]) && InMutex(run[i].threads[u]))
    ensures !(InSpin(run[i].threads[t]) && InSpin(run[i].threads[u]))
  {
    InvAlongRun(run, i);
    assert ThreadOk(run[i], t) && ThreadOk(run[i], u);
  }

  /** A call that got past mutex creation has returned only once the library is marked initialized. */
  lemma ReturnsInitialized(run: seq<State>, i: nat, t: nat)
    requires IsRun(run) && i < |run| && t < |run[i].threads|
    requires run[i].threads[t].Returned? && run[i].threads[t].passed
    ensures run[i].initialized && run[i].log != []
    ensures run[i].threads[t].rc != PLCTAG_STATUS_OK ==> run[i].log[|run[i].log| - 1].rc == run[i].threads[t].rc
  {
    InvAlongRun(run, i);
    assert ThreadOk(run[i], t);
  }

  // ---- what a caller told OK may conclude

  predicate LastFailed(log: seq<InitCall>) {
    log != [] && log[|log| - 1].rc != PLCTAG_STATUS_OK
  }

  /** A caller inside the mutex that is about to return the failure of an init call. */
  predicate Carries(pc: Pc) {
    ((pc.Init? && pc.k > 0) || pc.Publish? || pc.MutexOut?) && pc.rc != PLCTAG_STATUS_OK
  }

  /** A caller has just been told that the initialization failed. */
  predicate ToldFailure(s: State) {
    exists t :: 0 <= t < |s.threads| && s.threads[t].Returned? && s.threads[t].passed && s.threads[t].rc != PLCTAG_STATUS_OK
  }

  ghost predicate ToldBy(run: seq<State>, i: nat)
    requires i < |run|
  {
    exists j :: 0 <= j <= i && ToldFailure(run[j])
  }

  /** Until a failure has been told, a caller carries it and no other has got through the mutex. */
  ghost predicate FailureGuarded(s: State, told: bool) {
    LastFailed(s.log) && !told ==>
      && (exists u :: 0 <= u < |s.threads| && Carries(s.threads[u]))
      && (forall t :: 0 <= t < |s.threads| ==> !(s.threads[t].Returned? && s.threads[t].passed))
  }

  /** The step that makes an init call fail, or that its caller takes afterwards. */
  lemma CarrierStep(s: State, t: nat, a: Action)
    requires Inv(s) && Enabled(s, t, a) && !a.Call?
    requires LastFailed(Step(s, t, a).log) && (Carries(s.threads[t]) || !LastFailed(s.log))
    ensures Carries(Step(s, t, a).threads[t]) || ToldFailure(Step(s, t, a))
  {
    assert ThreadOk(s, t);
    if a.MutexRelease? {
      assert Step(s, t, a).threads[t].Returned?;
    }
  }

  lemma StepKeepsGuarded(s: State, t: nat, a: Action, told: bool)
    requires Inv(s) && Enabled(s, t, a) && FailureGuarded(s, told)
    ensures FailureGuarded(Step(s, t, a), told || ToldFailure(Step(s, t, a)))
  {
    var s' := Step(s, t, a);
    assert ThreadOk(s, t);
    if LastFailed(s'.log) && !told && !ToldFailure(s') {
      if LastFailed(s.log) {
        var u :| 0 <= u < |s.threads| && Carries(s.threads[u]);
        assert ThreadOk(s, u);
        if u == t {
          CarrierStep(s, t, a);
        } else {
          assert s'.threads[u] == s.threads[u];
        }
      } else {
        CarrierStep(s, t, a);
        forall x | 0 <= x < |s.threads|
          ensures !(s'.threads[x].Returned? && s'.threads[x].passed)
        {
          assert ThreadOk(s, x);
        }
      }
    }
  }

  lemma {:induction false} GuardedAlongRun(run: seq<State>, i: nat)
    requires IsRun(run) && i < |run|
    ensures FailureGuarded(run[i], ToldBy(run, i))
  {
    if i > 0 {
      GuardedAlongRun(run, i - 1);
      InvAlongRun(run, i - 1);
      assert StepAt(run, i);
      var t: nat, a: Action :| Enabled(run[i - 1], t, a) && run[i] == Step(run[i - 1], t, a);
      StepKeepsGuarded(run[i - 1], t, a, ToldBy(run, i - 1));
    }
  }

  /** A failure that was told stays in the log. */
  lemma ToldMeansFailed(run: seq<State>, j: nat, i: nat)
    requires IsRun(run) && j <= i < |run| && ToldFailure(run[j])
    ensures !AllSucceeded(run[i].log)
  {
    var t :| 0 <= t < |run[j].threads| && run[j].threads[t].Returned? && run[j].threads[t].passed
             && run[j].threads[t].rc != PLCTAG_STATUS_OK;
    ReturnsInitialized(run, j, t);
    LogGrows(run, j, i);
    var n := |run[j].log| - 1;
    assert run[i].log[n] == run[j].log[n];
  }

  /**
   * What callers can see decides it: for a caller told OK all modules were initialized exactly when no call that got
   * past mutex creation has returned a failure before.
   */
  lemma OkMeansAllSucceededIff(run: seq<State>, i: nat, t: nat)
    requires IsRun(run) && i < |run| && t < |run[i].threads|
    requires run[i].threads[t] == Returned(PLCTAG_STATUS_OK, true)
    ensures AllSucceeded(run[i].log) <==> forall j :: 0 <= j <= i ==> !ToldFailure(run[j])
  {
    InvAlongRun(run, i);
    assert ThreadOk(run[i], t);
    GuardedAlongRun(run, i);
    var rc :| Explains(rc, NUM_MODULES, run[i].log);
    if j :| 0 <= j <= i && ToldFailure(run[j]) {
      ToldMeansFailed(run, j, i);
    }
  }

  // ---- a run in which a later caller is told OK although lib_init failed

  ghost predicate Reachable(s: State) {
    exists run :: IsRun(run) && run[|run| - 1] == s
  }

  lemma ReachStep(s: State, t: nat, a: Action)
    requires Reachable(s) && Enabled(s, t, a)
    ensures Reachable(Step(s, t, a))
  {
    var run :| IsRun(run) && run[|run| - 1] == s;
    var longer := run + [Step(s, t, a)];
    assert Follows(s, Step(s, t, a));
    forall i | 0 < i < |longer|
      ensures StepAt(longer, i)
    {
      if i < |run| {
        assert StepAt(run, i);
      }
    }
  }

  /** A caller walks up to the mutex undisturbed. */
  lemma WalkToMutex(s: State, t: nat)
    requires Reachable(s) && s.spin.Unlocked? && t < |s.threads| && s.threads[t].Outside?
    ensures Reachable(State(Unlocked, if s.mutex.Null? then Unheld else s.mutex, s.initialized,
                            if s.mutex.Null? then s.created + 1 else s.created, s.log, s.threads[t := MutexWait]))
  {
    hide Reachable;
    var s1 := Step(s, t, Call);
    var s2 := Step(s1, t, SpinAcquire);
    var s3 := Step(s2, t, EnsureMutex(PLCTAG_STATUS_OK));
    var s4 := Step(s3, t, SpinRelease);
    ReachStep(s, t, Call);
    ReachStep(s1, t, SpinAcquire);
    ReachStep(s2, t, EnsureMutex(PLCTAG_STATUS_OK));
    ReachStep(s3, t, SpinRelease);
    ReachStep(s4, t, TestRc);
    assert s.threads[t := SpinWait][t := SpinIn][t := SpinOut(0)][t := RcTest(0)][t := MutexWait]
      == s.threads[t := MutexWait];
  }

  /** A caller whose lib_init failed with -1 skips the other modules. */
  lemma SkipAfterFailure(s: State, t: nat)
    requires Reachable(s) && t < |s.threads| && s.threads[t] == Init(1, -1)
    ensures Reachable(Goto(s, t, Publish(-1)))
  {
    hide Reachable;
    var s1 := Step(s, t, InitModule(0));
    var s2 := Step(s1, t, InitModule(0));
    ReachStep(s, t, InitModule(0));
    ReachStep(s1, t, InitModule(0));
    ReachStep(s2, t, InitModule(0));
    assert Step(s2, t, InitModule(0)).threads == s.threads[t := Publish(-1)];
  }

  /** A caller whose lib_init fails with -1: the flag is set all the same. */
  lemma FailInside(s: State, t: nat)
    requires Reachable(s) && t < |s.threads| && s.threads[t].MutexWait? && s.mutex.Unheld? && !s.initialized && s.log == []
    ensures Reachable(s.(initialized := true, log := [InitCall(0, -1)], threads := s.threads[t := Returned(-1, true)]))
  {
    hide Reachable;
    var s1 := Step(s, t, MutexAcquire);
    var s2 := Step(s1, t, TestInitialized);
    var s3 := Step(s2, t, InitModule(-1));
    ReachStep(s, t, MutexAcquire);
    ReachStep(s1, t, TestInitialized);
    ReachStep(s2, t, InitModule(-1));
    SkipAfterFailure(s3, t);
    var s4 := Goto(s3, t, Publish(-1));
    var s5 := Step(s4, t, SetInitialized);
    ReachStep(s4, t, SetInitialized);
    ReachStep(s5, t, MutexRelease);
    assert Step(s5, t, MutexRelease).threads == s.threads[t := Returned(-1, true)];
    assert s3.log == [InitCall(0, -1)];
  }

  /** A caller who finds the flag set. */
  lemma PassThrough(s: State, t: nat)
    requires Reachable(s) && t < |s.threads| && s.threads[t].MutexWait? && s.mutex.Unheld? && s.initialized
    ensures Reachable(s.(threads := s.threads[t := Returned(PLCTAG_STATUS_OK, true)]))
  {
    hide Reachable;
    var s1 := Step(s, t, MutexAcquire);
    var s2 := Step(s1, t, TestInitialized);
    ReachStep(s, t, MutexAcquire);
    ReachStep(s1, t, TestInitialized);
    ReachStep(s2, t, MutexRelease);
    assert Step(s2, t, MutexRelease).threads == s.threads[t := Returned(0, true)];
  }

  /** So the return code of a later call does not say that the library was initialized. */
  lemma OkDespiteFailedInit()
    ensures exists s :: Reachable(s) && s.threads == [Returned(-1, true), Returned(PLCTAG_STATUS_OK, true)]
              && s.log == [InitCall(0, -1)] && !AllSucceeded(s.log)
  {
    var s0 := State(Unlocked, Null, false, 0, [], [Outside, Outside]);
    assert IsRun([s0]);
    assert Reachable(s0);
    hide Reachable, IsRun;
    WalkToMutex(s0, 0);
    var s1 := State(Unlocked, Unheld, false, 1, [], s0.threads[0 := MutexWait]);
    FailInside(s1, 0);
    var s2 := State(Unlocked, Unheld, true, 1, [InitCall(0, -1)], s1.threads[0 := Returned(-1, true)]);
    WalkToMutex(s2, 1);
    var s3 := s2.(threads := s2.threads[1 := MutexWait]);
    PassThrough(s3, 1);
    var s4 := s3.(threads := s3.threads[1 := Returned(PLCTAG_STATUS_OK, true)]);
    assert s4.threads == [Returned(-1, true), Returned(PLCTAG_STATUS_OK, true)];
    assert Reachable(s4);
  }

  // ---- every run can be brought to its end

  /** How many steps a caller is from its return, at most. */
  function Work(pc: Pc): int {
    match pc
    case Outside => 0
    case SpinWait => 14
    case SpinIn => 13
    case SpinOut(_) => 12
    case RcTest(_) => 11
    case MutexWait => 10
    case MutexIn => 9
    case Init(k, _) => 8 - k
    case Publish(_) => 3
    case MutexOut(_) => 2
    case Returned(_, _) => 0
  }

  function SumWork(pcs: seq<Pc>): int {
    if pcs == [] then 0 else Work(pcs[0]) + SumWork(pcs[1..])
  }

  lemma {:induction false} SumAfterUpdate(pcs: seq<Pc>, t: nat, pc: Pc)
    requires t < |pcs|
    ensures SumWork(pcs[t := pc]) == SumWork(pcs) - Work(pcs[t]) + Work(pc)
  {
    if t == 0 {
      assert pcs[t := pc][1..] == pcs[1..];
    } else {
      SumAfterUpdate(pcs[1..], t - 1, pc);
      assert pcs[t := pc][1..] == pcs[1..][t - 1 := pc];
    }
  }

  ghost predicate KsInRange(pcs: seq<Pc>) {
    forall t :: 0 <= t < |pcs| ==> (pcs[t].Init? ==> pcs[t].k < NUM_MODULES)
  }

  lemma {:induction false} SumIsNat(pcs: seq<Pc>)
    requires KsInRange(pcs)
    ensures SumWork(pcs) >= 0
  {
    if pcs != [] {
      assert forall t :: 0 <= t < |pcs[1..]| ==> pcs[1..][t] == pcs[t + 1];
      SumIsNat(pcs[1..]);
    }
  }

  /** The work left of a state that satisfies the invariant. */
  ghost function WorkLeft(s: State): nat
    requires Inv(s)
  {
    assert KsInRange(s.threads) by { KsOfInv(s); }
    SumIsNat(s.threads);
    SumWork(s.threads)
  }

  lemma KsOfInv(s: State)
    requires Inv(s)
    ensures KsInRange(s.threads)
  {
    forall t | 0 <= t < |s.threads|
      ensures s.threads[t].Init? ==> s.threads[t].k < NUM_MODULES
    {
      assert ThreadOk(s, t);
    }
  }

  /** Every step but a new call leaves less work, whatever the called functions return. */
  lemma StepDoesWork(s: State, t: nat, a: Action)
    requires Inv(s) && Enabled(s, t, a) && !a.Call?
    ensures SumWork(Step(s, t, a).threads) < SumWork(s.threads)
  {
    hide SumWork;
    assert ThreadOk(s, t);
    SumAfterUpdate(s.threads, t, Step(s, t, a).threads[t]);
  }

  predicate AtRest(pc: Pc) {
    pc.Outside? || pc.Returned?
  }

  predicate AllAtRest(s: State) {
    forall t :: 0 <= t < |s.threads| ==> AtRest(s.threads[t])
  }

  /** What a caller does next, if no function that it calls fails. */
  function NextAction(pc: Pc): Action {
    match pc
    case SpinWait => SpinAcquire
    case SpinIn => EnsureMutex(PLCTAG_STATUS_OK)
    case SpinOut(_) => SpinRelease
    case RcTest(_) => TestRc
    case MutexWait => MutexAcquire
    case MutexIn => TestInitialized
    case Init(_, _) => InitModule(PLCTAG_STATUS_OK)
    case Publish(_) => SetInitialized
    case MutexOut(_) => MutexRelease
    case _ => Call
  }

  /** As long as a caller is inside, some caller can go on: a holder of one of the two locks, or any other. */
  lemma SomeStepIsEnabled(s: State) returns (t: nat)
    requires Inv(s) && !AllAtRest(s)
    ensures t < |s.threads| && !AtRest(s.threads[t]) && Enabled(s, t, NextAction(s.threads[t]))
  {
    t :| 0 <= t < |s.threads| && !AtRest(s.threads[t]);
    assert ThreadOk(s, t);
    if s.threads[t].SpinWait? && s.spin.SpunBy? {
      t := SpinHolder(s);
    } else if s.threads[t].MutexWait? && s.mutex.HeldBy? {
      t := s.mutex.t;
      assert ThreadOk(s, t);
    }
  }

  lemma SpinHolder(s: State) returns (t: nat)
    requires Inv(s) && s.spin.SpunBy?
    ensures t < |s.threads| && InSpin(s.threads[t])
  {
    t := s.spin.t;
    assert ThreadOk(s, t);
  }

  /** A caller that is inside, and has not been refused the mutex, or one that got through. */
  predicate OnItsWay(pc: Pc) {
    !pc.Outside? && ((pc.SpinOut? || pc.RcTest?) ==> pc.rc == PLCTAG_STATUS_OK) && (pc.Returned? ==> pc.passed)
  }

  ghost predicate NoFailure(log: seq<InitCall>) {
    forall i :: 0 <= i < |log| ==> log[i].rc == PLCTAG_STATUS_OK
  }

  /** What a run keeps while it is brought to its end without a failure. */
  ghost predicate Kept(s: State, s': State) {
    && |s'.threads| == |s.threads|
    && (NoFailure(s.log) ==> NoFailure(s'.log))
    && forall t :: 0 <= t < |s.threads| ==> (OnItsWay(s.threads[t]) ==> OnItsWay(s'.threads[t]))
  }

  lemma NextIsKept(s: State, t: nat)
    requires Inv(s) && t < |s.threads| && !AtRest(s.threads[t]) && Enabled(s, t, NextAction(s.threads[t]))
    ensures Kept(s, Step(s, t, NextAction(s.threads[t])))
  {
    assert ThreadOk(s, t);
  }

  lemma OneStepLonger(run: seq<State>, t: nat, a: Action)
    requires IsRun(run) && Enabled(run[|run| - 1], t, a)
    ensures IsRun(run + [Step(run[|run| - 1], t, a)])
  {
    var longer := run + [Step(run[|run| - 1], t, a)];
    assert Follows(run[|run| - 1], Step(run[|run| - 1], t, a));
    forall i | 0 < i < |longer|
      ensures StepAt(longer, i)
    {
      if i < |run| {
        assert StepAt(run, i);
      }
    }
  }

  /**
   * No run gets stuck: any run can go on until every caller has returned. If from there on nothing fails, each caller
   * that was on its way gets through, and if nothing failed before, all four modules are initialized then.
   */
  lemma {:induction false} EveryRunCanEnd(run: seq<State>) returns (longer: seq<State>)
    requires run != [] && IsRun(run) && Inv(run[|run| - 1])
    ensures run <= longer && IsRun(longer)
    ensures AllAtRest(longer[|longer| - 1])
    ensures Kept(run[|run| - 1], longer[|longer| - 1])
    decreases WorkLeft(run[|run| - 1])
  {
    hide Inv, IsRun, Kept, NoFailure, Enabled, Step, NextAction;
    var s := run[|run| - 1];
    KeptByNothing(s);
    if AllAtRest(s) {
      longer := run;
    } else {
      var t := SomeStepIsEnabled(s);
      var a := NextAction(s.threads[t]);
      var next := Step(s, t, a);
      NextIsNoCall(s.threads[t]);
      StepKeepsInv(s, t, a);
      StepDoesWork(s, t, a);
      NextIsKept(s, t);
      OneStepLonger(run, t, a);
      longer := EveryRunCanEnd(run + [next]);
      KeptByBoth(s, next, longer[|longer| - 1]);
    }
  }

  lemma NextIsNoCall(pc: Pc)
    requires !AtRest(pc)
    ensures !NextAction(pc).Call?
  {
  }

  lemma KeptByNothing(s: State)
    ensures Kept(s, s)
  {
  }

  lemma KeptByBoth(s: State, s': State, s'': State)
    requires Kept(s, s') && Kept(s', s'')
    ensures Kept(s, s'')
  {
  }

  /** So a caller that is on its way finds the library initialized in the end, unless an init call failed before. */
  lemma InitializationCompletes(run: seq<State>, t: nat) returns (longer: seq<State>)
    requires IsRun(run) && t < |run[|run| - 1].threads| && OnItsWay(run[|run| - 1].threads[t])
    ensures IsRun(longer) && run <= longer && t < |longer[|longer| - 1].threads|
    ensures var end := longer[|longer| - 1];
      && AllAtRest(end) && end.initialized && end.threads[t].Returned? && end.threads[t].passed
      && (NoFailure(run[|run| - 1].log) ==> AllSucceeded(end.log) && end.threads[t].rc == PLCTAG_STATUS_OK)
  {
    InvAlongRun(run, |run| - 1);
    longer := EveryRunCanEnd(run);
    var end := longer[|longer| - 1];
    InvAlongRun(longer, |longer| - 1);
    assert ThreadOk(end, t);
    var rc :| Explains(rc, NUM_MODULES, end.log);
  }
}
