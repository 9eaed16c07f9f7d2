// The one-time initialisation of the hardware random number generator
// (src/drivers/rng/drng.c, lines 66 to 75, 217 to 223, 294 to 342 and 396 to 455), as a state
// machine over the atomic steps of any number of threads.
module Drng {

  // rng_impl_t
  datatype Impl = NoRng | RdSeed | RdRand | ArmRndr | BCrypt | Urandom

  // The next atomic step of one activation of drng_init, with its local variables.
  datatype Pc =
    | Check                    // load drng_state.initialized
    | Cas                      // compare-exchange drng_init_state from 0 to 1
    | Spin                     // load drng_init_state until it is 2
    | Probe                    // this thread initialises: choose the hardware
    | FillLoad(chosen: Impl)   // self-test: drng_fill loads rng_impl
    | FillWait(chosen: Impl)   // self-test: inside the drng_init that drng_fill calls
    | FillRun(chosen: Impl)    // self-test: generate and judge 64 bytes
    | Publish(chosen: Impl)    // store rng_impl
    | SetInit                  // store drng_state.initialized
    | Finish                   // store 2 to drng_init_state

  datatype Path = Fast | Spun | Won

  datatype Return = Return(tid: nat, path: Path, seen: Impl)

  datatype Owner = NoOwner | Owner(tid: nat, depth: nat)

  // The shared variables, the call stacks of the threads, and a history: how often the
  // compare-exchange was won and by which activation, what was stored in rng_impl, who returned.
  // The source is the case reenters; otherwise the self-test generates its bytes without calling
  // drng_init, and what is published is arbitrary.
  datatype State = State(
    reenters: bool,
    hardware: bool,
    initialized: bool,
    initState: int,
    impl: Impl,
    stacks: map<nat, seq<Pc>>,
    wins: nat,
    owner: Owner,
    stores: seq<Impl>,
    log: seq<Return>)

  function Stack(s: State, tid: nat): seq<Pc> {
    if tid in s.stacks then s.stacks[tid] else []
  }

  // An activation returns; what rng_impl then holds is recorded.
  function Returned(s: State, tid: nat, path: Path): State {
    s.(log := s.log + [Return(tid, path, s.impl)])
  }

  // The call stack of thread tid after its next atomic step.  The bit b is what the hardware answers,
  // where it is asked.
  function NextStack(s: State, tid: nat, b: bool): seq<Pc> {
    var k := Stack(s, tid);
    if |k| == 0 then [Check]
    else
      var rest := k[..|k| - 1];
      match k[|k| - 1]
      case Check => if s.initialized then rest else rest + [Cas]
      case Cas => rest + [if s.initState == 0 then Probe else Spin]
      case Spin => if s.initState == 2 then rest else rest + [Spin]
      case Probe => rest + [if s.hardware && b then FillLoad(ArmRndr) else Publish(NoRng)]
      case FillLoad(c) => if s.reenters && s.impl == NoRng then rest + [FillWait(c), Check] else rest + [FillRun(c)]
      case FillWait(c) => rest + [FillRun(c)]
      case FillRun(c) => rest + [Publish(if b then c else NoRng)]
      case Publish(_) => rest + [SetInit]
      case SetInit => rest + [Finish]
      case Finish => rest
  }

  // What the step does to the shared variables.
  function Effect(s: State, tid: nat): State {
    var k := Stack(s, tid);
    if |k| == 0 then s
    else
      match k[|k| - 1]
      case Check => if s.initialized then Returned(s, tid, Fast) else s
      case Cas => if s.initState == 0 then s.(initState := 1, wins := s.wins + 1, owner := Owner(tid, |k| - 1)) else s
      case Spin => if s.initState == 2 then Returned(s, tid, Spun) else s
      case Publish(c) => s.(impl := c, stores := s.stores + [c])
      case SetInit => s.(initialized := true)
      case Finish => Returned(s, tid, Won).(initState := 2)
      case _ => s
  }

  // One atomic step of thread tid.
  function Step(s: State, tid: nat, b: bool): State {
    Effect(s, tid).(stacks := s.stacks[tid := NextStack(s, tid, b)])
  }

  ghost predicate Init(s: State) {
    !s.initialized && s.initState == 0 && s.impl == NoRng && s.stacks == map[] &&
    s.wins == 0 && s.owner == NoOwner && s.stores == [] && s.log == []
  }

  ghost predicate Next(s: State, t: State) {
    exists tid, b :: t == Step(s, tid, b)
  }

  // A run: any interleaving of the steps of any threads.
  ghost predicate Run(r: seq<State>) {
    |r| > 0 && Init(r[0]) && forall i :: 0 <= i < |r| - 1 ==> Next(r[i], r[i + 1])
  }

  // ---- the invariant ----------------------------------------------------------------------------

  // Activations past a successful compare-exchange.
  ghost predicate Initialising(pc: Pc) {
    !pc.Check? && !pc.Cas? && !pc.Spin?
  }

  // Where one activation may be, given the shared variables.
  ghost predicate PcOk(s: State, tid: nat, i: nat)
    requires i < |Stack(s, tid)|
  {
    var k := Stack(s, tid);
    var pc := k[i];
    (Initialising(pc) ==> s.owner == Owner(tid, i) && s.initState == 1) &&
    (pc.FillWait? <==> i + 1 < |k|) && |k| <= i + 2 &&
    (s.reenters ==> !pc.FillRun? && (pc.Publish? ==> pc.chosen == NoRng)) &&
    (pc.SetInit? ==> |s.stores| == 1 && !s.initialized) &&
    (pc.Finish? ==> |s.stores| == 1 && s.initialized) &&
    (Initialising(pc) && !pc.SetInit? && !pc.Finish? ==> s.stores == [] && !s.initialized)
  }

  // The lock: who has won the compare-exchange and how far initialisation has come.
  ghost predicate Shared(s: State) {
    0 <= s.initState <= 2 && s.wins == (if s.initState == 0 then 0 else 1) &&
    (s.initState == 0 ==> s.owner == NoOwner && !s.initialized) &&
    (s.initState == 1 ==> OwnerRuns(s)) &&
    (s.initState == 2 ==> s.initialized)
  }

  // What is published: nothing before the one store of rng_impl, its value afterwards, and whoever has
  // returned has seen it.
  ghost predicate Published(s: State) {
    |s.stores| <= 1 && s.impl == (if s.stores == [] then NoRng else s.stores[0]) &&
    (s.initState == 0 ==> s.stores == []) &&
    (s.initialized ==> |s.stores| == 1) &&
    (!s.initialized ==> s.log == []) &&
    (forall e :: 0 <= e < |s.log| ==> s.log[e].seen == s.impl) &&
    (s.reenters ==> s.impl == NoRng)
  }

  // The activation that won the compare-exchange is still at work.
  ghost predicate OwnerRuns(s: State) {
    s.owner.Owner? && s.owner.depth < |Stack(s, s.owner.tid)| && Initialising(Stack(s, s.owner.tid)[s.owner.depth])
  }

  ghost predicate Frames(s: State) {
    forall tid, i :: 0 <= i < |Stack(s, tid)| ==> PcOk(s, tid, i)
  }

  ghost predicate Inv(s: State) {
    Shared(s) && Published(s) && Frames(s)
  }

  // Facts about the two topmost activations of the thread that steps.
  lemma Top(s: State, tid: nat)
    requires Frames(s) && |Stack(s, tid)| > 0
    ensures var k := Stack(s, tid); PcOk(s, tid, |k| - 1) && (|k| > 1 ==> PcOk(s, tid, |k| - 2))
  {
  }

  lemma StepShared(s: State, tid: nat, b: bool)
    requires Inv(s)
    ensures Shared(Step(s, tid, b))
  {
    hide Frames;
    if |Stack(s, tid)| > 0 {
      Top(s, tid);
    }
    if s.initState == 1 {
      assert PcOk(s, s.owner.tid, s.owner.depth) by { OwnerOk(s); }
    }
  }

  lemma StepPublished(s: State, tid: nat, b: bool)
    requires Inv(s)
    ensures Published(Step(s, tid, b))
  {
    hide Frames, OwnerRuns, NextStack;
    if |Stack(s, tid)| > 0 {
      Top(s, tid);
    }
  }

  lemma OwnerOk(s: State)
    requires Inv(s) && s.initState == 1
    ensures PcOk(s, s.owner.tid, s.owner.depth)
  {
  }

  // The activations of the other threads.
  lemma StepOther(s: State, tid: nat, b: bool, u: nat, i: nat)
    requires Inv(s) && u != tid && i < |Stack(s, u)|
    ensures Stack(Step(s, tid, b), u) == Stack(s, u) && PcOk(Step(s, tid, b), u, i)
  {
    hide NextStack;
    assert PcOk(s, u, i);
    if |Stack(s, tid)| > 0 {
      Top(s, tid);
    }
  }

  // The activations of the thread itself.
  lemma StepOwn(s: State, tid: nat, b: bool, i: nat)
    requires Inv(s) && i < |Stack(Step(s, tid, b), tid)|
    ensures PcOk(Step(s, tid, b), tid, i)
  {
    var k := Stack(s, tid);
    if |k| > 0 {
      Top(s, tid);
      if i < |k| - 1 {
        assert PcOk(s, tid, i);
      }
    }
  }

  lemma StepInv(s: State, tid: nat, b: bool)
    requires Inv(s)
    ensures Inv(Step(s, tid, b))
  {
    hide Shared, Published, PcOk, Step, Stack;
    StepShared(s, tid, b);
    StepPublished(s, tid, b);
    var t := Step(s, tid, b);
    forall u, i | 0 <= i < |Stack(t, u)|
      ensures PcOk(t, u, i)
    {
      if u == tid {
        StepOwn(s, tid, b, i);
      } else {
        StackOther(s, tid, b, u);
        StepOther(s, tid, b, u, i);
      }
    }
  }

  lemma StackOther(s: State, tid: nat, b: bool, u: nat)
    requires u != tid
    ensures Stack(Step(s, tid, b), u) == Stack(s, u)
  {
    hide NextStack, Effect;
  }

  // ---- what every run keeps -----------------------------------------------------------------------

  lemma {:induction false} RunInv(r: seq<State>, i: nat)
    requires Run(r) && i < |r|
    ensures Inv(r[i])
  {
    if i == 0 {
    } else {
      RunInv(r, i - 1);
      var tid, b :| r[i - 1 + 1] == Step(r[i - 1], tid, b);
      StepInv(r[i - 1], tid, b);
    }
  }

  // How one step may change the shared variables.
  ghost predicate Advances(s: State, t: State) {
    s.initState <= t.initState <= s.initState + 1 && s.wins <= t.wins && s.stores <= t.stores && s.log <= t.log &&
    (s.initialized ==> t.initialized) && (s.owner != NoOwner ==> t.owner == s.owner)
  }

  lemma StepAdvances(s: State, tid: nat, b: bool)
    requires Inv(s)
    ensures Advances(s, Step(s, tid, b))
  {
    hide NextStack;
    if |Stack(s, tid)| > 0 {
      Top(s, tid);
    }
  }

  // In every interleaving the compare-exchange is won at most once, drng_init_state moves 0, 1, 2,
  // rng_impl is stored at most once, and histories only grow.
  lemma OnceOnly(r: seq<State>, i: nat)
    requires Run(r) && i + 1 < |r|
    ensures r[i].wins <= 1 && |r[i].stores| <= 1 && 0 <= r[i].initState <= 2
    ensures Advances(r[i], r[i + 1])
  {
    RunInv(r, i);
    var tid, b :| r[i + 1] == Step(r[i], tid, b);
    StepAdvances(r[i], tid, b);
  }

  // Histories and flags only grow along a run.
  lemma {:induction false} Later(r: seq<State>, i: nat, j: nat)
    requires Run(r) && i <= j < |r|
    ensures r[i].stores <= r[j].stores && r[i].log <= r[j].log && (r[i].initialized ==> r[j].initialized)
    decreases j
  {
    hide Run, Step;
    if i < j {
      Later(r, i, j - 1);
      assert r[j - 1 + 1] == r[j];
      OnceOnly(r, j - 1);
    }
  }

  // Whoever has returned, by the fast path or after spinning, returned after the one store of
  // rng_impl, saw the stored value, whatever it is, and every later state still holds it.
  lemma ReturnedSeesStore(r: seq<State>, i: nat, j: nat, e: nat)
    requires Run(r) && i <= j < |r| && e < |r[i].log|
    ensures |r[j].stores| == 1 && r[j].stores == r[i].stores
    ensures r[i].log[e].seen == r[j].stores[0] == r[j].impl
  {
    hide Frames, OwnerRuns;
    RunInv(r, j);
    RunInv(r, i);
    Later(r, i, j);
  }

  // rng_impl never holds anything but RNG_NONE: randombytes_drng_available returns 0 in every run.
  lemma NeverHardware(r: seq<State>, i: nat)
    requires Run(r) && i < |r| && r[0].reenters
    ensures r[i].impl == NoRng && (r[i].stores == [] || r[i].stores == [NoRng])
  {
    RunInv(r, i);
    SameCode(r, i);
  }

  lemma {:induction false} SameCode(r: seq<State>, i: nat)
    requires Run(r) && i < |r|
    ensures r[i].reenters == r[0].reenters
  {
    if i > 0 {
      hide NextStack;
      SameCode(r, i - 1);
      var tid, b :| r[i - 1 + 1] == Step(r[i - 1], tid, b);
    }
  }

  // ---- exactly when initialisation completes --------------------------------------------------------

  // The initialising activation has chosen the hardware and runs the self-test.
  ghost predicate SelfTesting(s: State) {
    s.reenters && s.initState == 1 && OwnerRuns(s) &&
    (var pc := Stack(s, s.owner.tid)[s.owner.depth]; pc.FillLoad? || pc.FillWait?)
  }

  lemma SelfTestingKept(s: State, tid: nat, b: bool)
    requires Inv(s) && SelfTesting(s)
    ensures var t := Step(s, tid, b); SelfTesting(t) && !t.initialized && t.log == s.log && t.stores == []
  {
    OwnerOk(s);
    if |Stack(s, tid)| > 0 {
      Top(s, tid);
    }
    if tid != s.owner.tid {
      StackOther(s, tid, b, s.owner.tid);
    }
  }

  // Once the self-test has begun nobody ever returns: its drng_fill calls drng_init again, which
  // waits for the initialisation that waits for it.
  lemma {:induction false} SelfTestNeverEnds(r: seq<State>, i: nat, j: nat)
    requires Run(r) && i <= j < |r| && SelfTesting(r[i])
    ensures SelfTesting(r[j]) && r[j].log == [] && r[j].stores == []
    decreases j
  {
    hide Step, SelfTesting, Inv;
    if i < j {
      SelfTestNeverEnds(r, i, j - 1);
      RunInv(r, j - 1);
      var tid, b :| r[j - 1 + 1] == Step(r[j - 1], tid, b);
      SelfTestingKept(r[j - 1], tid, b);
    } else {
      RunInv(r, i);
      SelfTestingQuiet(r[i]);
    }
  }

  lemma SelfTestingQuiet(s: State)
    requires Inv(s) && SelfTesting(s)
    ensures s.log == [] && s.stores == []
  {
    OwnerOk(s);
  }

  // The answer of the hardware decides: if it is used, the self-test begins and never ends; if not,
  // four steps of the same thread complete the initialisation.
  lemma ProbeDecides(s: State, b: bool)
    requires Inv(s) && s.initState == 1 && Stack(s, s.owner.tid)[s.owner.depth] == Probe
    ensures s.reenters && s.hardware && b ==> SelfTesting(Step(s, s.owner.tid, b))
    ensures !(s.hardware && b) ==>
      var u := s.owner.tid;
      var t := Step(Step(Step(Step(s, u, b), u, b), u, b), u, b);
      t.initState == 2 && t.initialized && t.stores == [NoRng] && t.log == [Return(u, Won, NoRng)]
  {
    var u := s.owner.tid;
    OwnerOk(s);
    Top(s, u);
    OwnerTop(s);
    if !(s.hardware && b) {
      assert Stack(Step(s, u, b), u) == Stack(s, u)[..s.owner.depth] + [Publish(NoRng)];
      PublishCompletes(Step(s, u, b), u, b);
    }
  }

  lemma PublishCompletes(s: State, u: nat, b: bool)
    requires |Stack(s, u)| > 0 && Stack(s, u)[|Stack(s, u)| - 1] == Publish(NoRng) && s.stores == [] && s.log == []
    ensures var t := Step(Step(Step(s, u, b), u, b), u, b);
      t.initState == 2 && t.initialized && t.stores == [NoRng] && t.log == [Return(u, Won, NoRng)]
  {
    var t1 := Step(s, u, b);
    assert t1.stores == [NoRng] && t1.impl == NoRng && Stack(t1, u)[|Stack(s, u)| - 1] == SetInit;
    var t2 := Step(t1, u, b);
    assert t2.initialized && Stack(t2, u)[|Stack(s, u)| - 1] == Finish;
  }

  // An activation that does not wait in a self-test is the top one.
  lemma OwnerTop(s: State)
    requires Inv(s) && s.initState == 1 && !Stack(s, s.owner.tid)[s.owner.depth].FillWait?
    ensures s.owner.depth == |Stack(s, s.owner.tid)| - 1
  {
    OwnerOk(s);
  }

  // ---- schedules ------------------------------------------------------------------------------------

  // Which thread steps next, and what the hardware answers if it is asked.
  datatype Choice = Choice(tid: nat, b: bool)

  // The state after the choices of a schedule.
  function Exec(s: State, c: seq<Choice>): State
    decreases |c|
  {
    if c == [] then s else Exec(Step(s, c[0].tid, c[0].b), c[1..])
  }

  // All states on the way.
  function Trace(s: State, c: seq<Choice>): (r: seq<State>)
    ensures |r| == |c| + 1 && r[0] == s
    decreases |c|
  {
    if c == [] then [s] else [s] + Trace(Step(s, c[0].tid, c[0].b), c[1..])
  }

  lemma {:induction false} TraceSteps(s: State, c: seq<Choice>)
    ensures forall i :: 0 <= i < |c| ==> Next(Trace(s, c)[i], Trace(s, c)[i + 1])
    ensures Trace(s, c)[|c|] == Exec(s, c)
    decreases |c|
  {
    hide Step;
    if c != [] {
      var t := Step(s, c[0].tid, c[0].b);
      TraceSteps(t, c[1..]);
      assert Next(s, t);
      forall i | 0 <= i < |c|
        ensures Next(Trace(s, c)[i], Trace(s, c)[i + 1])
      {
        if i > 0 {
          assert Next(Trace(t, c[1..])[i - 1], Trace(t, c[1..])[i - 1 + 1]);
        }
      }
    }
  }

  // Every schedule from an initial state is a run.
  lemma TraceIsRun(s: State, c: seq<Choice>)
    requires Init(s)
    ensures var r := Trace(s, c); Run(r) && r[|r| - 1] == Exec(s, c)
  {
    hide Step, Init, Next;
    TraceSteps(s, c);
  }

  lemma {:induction false} ExecJoin(s: State, c: seq<Choice>, d: seq<Choice>)
    ensures Exec(s, c + d) == Exec(Exec(s, c), d)
    decreases |c|
  {
    hide Step;
    if c == [] {
      assert c + d == d;
    } else {
      ExecJoin(Step(s, c[0].tid, c[0].b), c[1..], d);
      assert (c + d)[1..] == c[1..] + d;
    }
  }

  // n steps of the same thread.
  function Alone(u: nat, b: bool, n: nat): (c: seq<Choice>)
    ensures |c| == n
  {
    if n == 0 then [] else [Choice(u, b)] + Alone(u, b, n - 1)
  }

  lemma ExecAlone(s: State, u: nat, b: bool, n: nat)
    requires n > 0
    ensures Exec(s, Alone(u, b, n)) == Exec(Step(s, u, b), Alone(u, b, n - 1))
  {
    assert Alone(u, b, n)[1..] == Alone(u, b, n - 1);
  }

  // ---- the cases occur ------------------------------------------------------------------------------

  function Start(reenters: bool, hardware: bool): State {
    State(reenters, hardware, false, 0, NoRng, map[], 0, NoOwner, [], [])
  }

  // A thread that wins the compare-exchange, and one that loses it.
  lemma Entering(s: State, u: nat, b: bool)
    requires Stack(s, u) == [] && !s.initialized
    ensures Exec(s, Alone(u, b, 3)) ==
      if s.initState == 0 then
        s.(stacks := s.stacks[u := [Probe]], initState := 1, wins := s.wins + 1, owner := Owner(u, 0))
      else s.(stacks := s.stacks[u := [Spin]])
  {
    hide Step, Exec;
    ThreeSteps(s, u, b);
    CallStep(s, u, b);
    var t := s.(stacks := s.stacks[u := [Check]]);
    CheckStep(t, u, b);
    CasStep(t.(stacks := t.stacks[u := [Cas]]), u, b);
    assert s.stacks[u := [Check]][u := [Cas]][u := [Probe]] == s.stacks[u := [Probe]];
    assert s.stacks[u := [Check]][u := [Cas]][u := [Spin]] == s.stacks[u := [Spin]];
  }

  lemma CallStep(s: State, u: nat, b: bool)
    requires Stack(s, u) == []
    ensures Step(s, u, b) == s.(stacks := s.stacks[u := [Check]])
  {
    assert [] + [Check] == [Check];
  }

  lemma CheckStep(s: State, u: nat, b: bool)
    requires Stack(s, u) == [Check] && !s.initialized
    ensures Step(s, u, b) == s.(stacks := s.stacks[u := [Cas]])
  {
    assert [] + [Cas] == [Cas];
  }

  lemma CasStep(s: State, u: nat, b: bool)
    requires Stack(s, u) == [Cas]
    ensures Step(s, u, b) ==
      if s.initState == 0 then
        s.(stacks := s.stacks[u := [Probe]], initState := 1, wins := s.wins + 1, owner := Owner(u, 0))
      else s.(stacks := s.stacks[u := [Spin]])
  {
    assert [] + [Probe] == [Probe] && [] + [Spin] == [Spin];
  }

  lemma ThreeSteps(s: State, u: nat, b: bool)
    ensures Exec(s, Alone(u, b, 3)) == Step(Step(Step(s, u, b), u, b), u, b)
  {
    hide Step;
    ExecAlone(s, u, b, 3);
    ExecAlone(Step(s, u, b), u, b, 2);
    ExecAlone(Step(Step(s, u, b), u, b), u, b, 1);
  }

  lemma ExecOne(s: State, x: Choice)
    ensures Exec(s, [x]) == Step(s, x.tid, x.b)
  {
    hide Step;
    assert Exec(s, [x]) == Exec(Step(s, x.tid, x.b), []);
  }

  // Some run enters the self-test, and by SelfTestNeverEnds never completes.
  lemma SelfTestReached()
    ensures exists r :: Run(r) && SelfTesting(r[|r| - 1])
  {
    hide Step, Exec, Init;
    var s, x := Start(true, true), Choice(0, true);
    var c := Alone(0, true, 3) + [x];
    StartIsInitial();
    Entering(s, 0, true);
    ExecJoin(s, Alone(0, true, 3), [x]);
    ExecOne(Exec(s, Alone(0, true, 3)), x);
    TakesHardware(Exec(s, Alone(0, true, 3)));
    TraceIsRun(s, c);
    assert Run(Trace(s, c));
  }

  lemma TakesHardware(s: State)
    requires s.reenters && s.stacks == map[0 := [Probe]] && s.hardware && s.initState == 1 && s.owner == Owner(0, 0)
    ensures SelfTesting(Step(s, 0, true))
  {
  }

  // In some run threads return by all three paths: the winner, one that spun, one that came later.
  lemma AllPathsReached()
    ensures exists r: seq<State> :: Run(r) && r[|r| - 1].log == [Return(0, Won, NoRng), Return(1, Spun, NoRng), Return(2, Fast, NoRng)]
  {
    hide Exec, Step, Init, Run;
    var s := Start(true, false);
    var enter := Alone(0, false, 3) + Alone(1, false, 3);
    var leave := [Choice(0, false)] + Alone(0, false, 3);
    var late := [Choice(1, false)] + Alone(2, false, 2);
    Enter(s);
    ExecJoin(s, Alone(0, false, 3), Alone(1, false, 3));
    var t := Exec(s, enter);
    ProbeRefused(t);
    ExecJoin(t, [Choice(0, false)], Alone(0, false, 3));
    OthersLeave(Exec(t, leave), NoRng);
    ExecJoin(s, enter, leave);
    ExecJoin(s, enter + leave, late);
    StartIsInitial();
    TraceIsRun(s, enter + leave + late);
    assert Run(Trace(s, enter + leave + late));
  }

  lemma StartIsInitial()
    ensures forall reenters, hardware :: Init(Start(reenters, hardware))
  {
  }

  lemma Enter(s: State)
    requires s == Start(true, false)
    ensures var t := Exec(Exec(s, Alone(0, false, 3)), Alone(1, false, 3));
      Stack(t, 0) == [Probe] && Stack(t, 1) == [Spin] && Stack(t, 2) == [] &&
      !t.hardware && !t.initialized && t.initState == 1 && t.impl == NoRng && t.stores == [] && t.log == []
  {
    hide Exec, Step;
    Entering(s, 0, false);
    Entering(Exec(s, Alone(0, false, 3)), 1, false);
  }

  lemma ProbeRefused(s: State)
    requires Stack(s, 0) == [Probe] && Stack(s, 1) == [Spin] && Stack(s, 2) == [] && !s.hardware && s.stores == [] && s.log == []
    ensures var t := Exec(Exec(s, [Choice(0, false)]), Alone(0, false, 3));
      Stack(t, 1) == [Spin] && Stack(t, 2) == [] && t.initState == 2 && t.initialized && t.impl == NoRng &&
      t.log == [Return(0, Won, NoRng)]
  {
    hide Exec, Step;
    ExecOne(s, Choice(0, false));
    OneStep(s, 0, false, Probe, [Publish(NoRng)]);
    Finishing(Step(s, 0, false), 0, false, NoRng);
  }

  // A step of a thread with one activation.
  lemma OneStep(s: State, u: nat, b: bool, pc: Pc, next: seq<Pc>)
    requires Stack(s, u) == [pc] && NextStack(s, u, b) == next
    ensures var t := Step(s, u, b);
      Stack(t, u) == next && (forall v :: v != u ==> Stack(t, v) == Stack(s, v)) && t == Effect(s, u).(stacks := t.stacks)
  {
    hide NextStack, Effect;
  }

  // The three closing stores.
  lemma Finishing(s: State, u: nat, b: bool, c: Impl)
    requires Stack(s, u) == [Publish(c)] && s.stores == [] && s.log == []
    ensures var t := Exec(s, Alone(u, b, 3));
      Stack(t, u) == [] && (forall v :: v != u ==> Stack(t, v) == Stack(s, v)) &&
      t.initState == 2 && t.initialized && t.impl == c && t.stores == [c] && t.log == [Return(u, Won, c)]
  {
    hide Exec, Step;
    ThreeSteps(s, u, b);
    OneStep(s, u, b, Publish(c), [SetInit]);
    var t2 := Step(s, u, b);
    OneStep(t2, u, b, SetInit, [Finish]);
    OneStep(Step(t2, u, b), u, b, Finish, []);
  }

  lemma OthersLeave(s: State, c: Impl)
    requires Stack(s, 1) == [Spin] && Stack(s, 2) == [] && s.initState == 2 && s.initialized && s.impl == c
    ensures Exec(s, [Choice(1, false)] + Alone(2, false, 2)).log == s.log + [Return(1, Spun, c), Return(2, Fast, c)]
  {
    hide Exec, Step;
    ExecJoin(s, [Choice(1, false)], Alone(2, false, 2));
    ExecOne(s, Choice(1, false));
    OneStep(s, 1, false, Spin, []);
    LateComer(Step(s, 1, false));
  }

  lemma LateComer(s: State)
    requires Stack(s, 2) == [] && s.initialized
    ensures Exec(s, Alone(2, false, 2)).log == s.log + [Return(2, Fast, s.impl)]
  {
    hide Exec;
    ExecAlone(s, 2, false, 2);
    ExecAlone(Step(s, 2, false), 2, false, 1);
    NoSteps(Step(Step(s, 2, false), 2, false));
  }

  lemma NoSteps(s: State)
    ensures Exec(s, Alone(2, false, 0)) == s
  {
  }

  ghost predicate PublishesHardware(s: State, t: State) {
    !s.reenters && t.stores == [ArmRndr] && t.log == [Return(0, Won, ArmRndr), Return(2, Fast, ArmRndr)]
  }

  // With a self-test that does not call drng_init some run publishes the hardware, and a thread that
  // comes later sees it.
  lemma HardwarePublished()
    ensures exists r :: Run(r) && PublishesHardware(r[0], r[|r| - 1])
  {
    hide Exec, Step, Init, Run;
    var s, x := Start(false, true), Choice(0, true);
    var enter, late := Alone(0, true, 3), Alone(0, true, 3) + Alone(2, false, 2);
    Entering(s, 0, true);
    var t := Exec(s, enter);
    SelfTestPasses(t);
    ThreeSteps(t, 0, true);
    var p := Exec(t, enter);
    Finishing(p, 0, true, ArmRndr);
    ExecJoin(p, Alone(0, true, 3), Alone(2, false, 2));
    LateComer(Exec(p, Alone(0, true, 3)));
    LateStores(Exec(p, Alone(0, true, 3)));
    ExecJoin(s, enter, enter);
    ExecJoin(s, enter + enter, late);
    StartIsInitial();
    TraceIsRun(s, enter + enter + late);
    assert Run(Trace(s, enter + enter + late));
  }

  lemma SelfTestPasses(s: State)
    requires Stack(s, 0) == [Probe] && Stack(s, 2) == [] && !s.reenters && s.hardware && s.stores == [] && s.log == []
    ensures var t := Step(Step(Step(s, 0, true), 0, true), 0, true);
      Stack(t, 0) == [Publish(ArmRndr)] && Stack(t, 2) == [] && t.stores == [] && t.log == []
  {
    hide Step;
    OneStep(s, 0, true, Probe, [FillLoad(ArmRndr)]);
    var t1 := Step(s, 0, true);
    OneStep(t1, 0, true, FillLoad(ArmRndr), [FillRun(ArmRndr)]);
    OneStep(Step(t1, 0, true), 0, true, FillRun(ArmRndr), [Publish(ArmRndr)]);
  }

  lemma LateStores(s: State)
    requires Stack(s, 2) == [] && s.initialized
    ensures Exec(s, Alone(2, false, 2)).stores == s.stores
  {
    hide Exec;
    ExecAlone(s, 2, false, 2);
    ExecAlone(Step(s, 2, false), 2, false, 1);
    NoSteps(Step(Step(s, 2, false), 2, false));
  }

  // ---- completion under every schedule --------------------------------------------------------------

  // How many steps of the initialising activation are left.
  function Left(s: State): nat
    requires s.initState == 1 ==> s.owner.Owner? && s.owner.depth < |Stack(s, s.owner.tid)|
  {
    if s.initState != 1 then 0
    else
      match Stack(s, s.owner.tid)[s.owner.depth]
      case Probe => 4
      case Publish(_) => 3
      case SetInit => 2
      case _ => 1
  }

  // The thread u is not offered the hardware, or does not get it, in its next step.
  ghost predicate Refused(hardware: bool, u: nat, c: seq<Choice>)
    decreases |c|
  {
    c == [] || if c[0].tid == u then !(hardware && c[0].b) else Refused(hardware, u, c[1..])
  }

  function Turns(c: seq<Choice>, u: nat): nat {
    if c == [] then 0 else (if c[0].tid == u then 1 else 0) + Turns(c[1..], u)
  }

  // The initialiser is past a refused probe, or about to be refused.
  ghost predicate Declines(s: State, c: seq<Choice>)
    requires s.initState == 1 ==> OwnerRuns(s)
  {
    s.initState == 2 ||
    (s.initState == 1 && s.reenters && !SelfTesting(s) &&
     (Stack(s, s.owner.tid)[s.owner.depth].Probe? ==> Refused(s.hardware, s.owner.tid, c)))
  }

  // Only the initialising thread's own steps count, and each takes it one step further.
  lemma StepDeclines(s: State, c: seq<Choice>)
    requires Inv(s) && c != [] && s.initState == 1 && Declines(s, c)
    ensures var t := Step(s, c[0].tid, c[0].b);
      Inv(t) && t.owner == s.owner && t.initState >= 1 && Declines(t, c[1..]) &&
      Left(t) == Left(s) - (if c[0].tid == s.owner.tid then 1 else 0) && (Left(t) == 0 <==> t.initState == 2)
  {
    var u, x := s.owner.tid, c[0];
    StepInv(s, x.tid, x.b);
    StepAdvances(s, x.tid, x.b);
    OwnerOk(s);
    OwnerTop(s);
    if x.tid == u {
      OwnerStep(s, x.b);
    } else {
      StackOther(s, x.tid, x.b, u);
      OtherKeepsState(s, x.tid, x.b);
    }
  }

  // Where the initialising thread is after its own step, the self-test apart.
  lemma OwnerStep(s: State, b: bool)
    requires Inv(s) && s.reenters && s.initState == 1 && !SelfTesting(s)
    requires Stack(s, s.owner.tid)[s.owner.depth].Probe? ==> !(s.hardware && b)
    ensures var t, u, d := Step(s, s.owner.tid, b), s.owner.tid, s.owner.depth;
      t.owner == s.owner &&
      match Stack(s, u)[d]
      case Probe => t.initState == 1 && d < |Stack(t, u)| && Stack(t, u)[d] == Publish(NoRng)
      case Publish(_) => t.initState == 1 && d < |Stack(t, u)| && Stack(t, u)[d] == SetInit
      case SetInit => t.initState == 1 && d < |Stack(t, u)| && Stack(t, u)[d] == Finish
      case _ => t.initState == 2
  {
    OwnerOk(s);
    OwnerTop(s);
    Top(s, s.owner.tid);
  }

  lemma OtherKeepsState(s: State, tid: nat, b: bool)
    requires Inv(s) && s.initState == 1 && tid != s.owner.tid
    ensures var t := Step(s, tid, b); t.initState == 1 && t.hardware == s.hardware && t.reenters == s.reenters
  {
    if |Stack(s, tid)| > 0 {
      Top(s, tid);
    }
  }

  lemma StaysDone(s: State, tid: nat, b: bool)
    requires Inv(s) && s.initState == 2
    ensures var t := Step(s, tid, b); Inv(t) && t.initState == 2 && forall c :: Declines(t, c)
  {
    hide Step;
    StepInv(s, tid, b);
    StepAdvances(s, tid, b);
  }

  lemma LeftPositive(s: State)
    requires Inv(s) && s.initState == 1
    ensures OwnerRuns(s) && Left(s) > 0
  {
  }

  // Past a refused probe, initialisation completes in exactly those schedules that give the
  // initialising thread the steps it still needs, whatever the other threads do in between.
  lemma {:induction false} Completes(s: State, c: seq<Choice>)
    requires Inv(s) && s.initState >= 1 && Declines(s, c)
    ensures Exec(s, c).initState == 2 <==> s.initState == 2 || Turns(c, s.owner.tid) >= Left(s)
    decreases |c|
  {
    hide Step, Frames, Declines, Left, SelfTesting, OwnerRuns;
    if s.initState == 1 {
      LeftPositive(s);
    }
    if c != [] {
      var t := Step(s, c[0].tid, c[0].b);
      if s.initState == 2 {
        StaysDone(s, c[0].tid, c[0].b);
      } else {
        StepDeclines(s, c);
      }
      Completes(t, c[1..]);
    }
  }

  // If the thread gets the hardware, initialisation never completes.
  lemma {:induction false} NeverCompletes(s: State, c: seq<Choice>)
    requires Inv(s) && s.initState == 1
    requires SelfTesting(s) || (s.reenters && Stack(s, s.owner.tid)[s.owner.depth].Probe? && !Refused(s.hardware, s.owner.tid, c))
    ensures Exec(s, c).initState == 1
    decreases |c|
  {
    hide Step, Frames, SelfTesting;
    if c != [] {
      var x := c[0];
      StepInv(s, x.tid, x.b);
      if SelfTesting(s) {
        SelfTestingKept(s, x.tid, x.b);
      } else if x.tid == s.owner.tid {
        ProbeDecides(s, x.b);
      } else {
        StepAdvances(s, x.tid, x.b);
        StackOther(s, x.tid, x.b, s.owner.tid);
        OtherKeepsState(s, x.tid, x.b);
      }
      NeverCompletes(Step(s, x.tid, x.b), c[1..]);
    }
  }

  // From the probe on, a schedule completes the initialisation exactly when the hardware is refused
  // and the initialising thread takes its four remaining steps, in whatever interleaving.
  lemma InitialisationCompletes(s: State, c: seq<Choice>)
    requires Inv(s) && s.reenters && s.initState == 1 && Stack(s, s.owner.tid)[s.owner.depth].Probe?
    ensures Exec(s, c).initState == 2 <==> Refused(s.hardware, s.owner.tid, c) && Turns(c, s.owner.tid) >= 4
  {
    hide Step, Exec, Frames;
    if Refused(s.hardware, s.owner.tid, c) {
      Completes(s, c);
    } else {
      NeverCompletes(s, c);
    }
  }
}
