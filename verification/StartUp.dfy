/**
 The two-phase start-up barrier. A coordinator for at most `max` components
 owns a reusable barrier for `max + 1` arrivals; each tracked component arrives
 once to be ready and once to be running, and the coordinator makes up the
 arrivals of the components that were never tracked, plus its own.
 */
module StartUp {
  import MapSum

  type Name = string

  /** A reusable barrier: the generation being filled and the arrivals in it. */
  datatype Barrier = Barrier(gen: nat, count: nat)

  function Arrive(b: Barrier, size: nat): Barrier {
    if b.count + 1 >= size then Barrier(b.gen + 1, 0) else b.(count := b.count + 1)
  }

  /** A component: how often it has reached the barrier and been let through, and the generation it reached last. */
  datatype Component = Component(arrived: nat, passed: nat, gen: nat)

  /** The coordinator: the phase it waits for, and the generations its own arrivals fell into. */
  datatype Coordinator = Before | Waiting(phase: nat, unused: nat, gens: seq<nat>) | Done

  datatype State = State(
    max: nat,
    barrier: Barrier,
    components: map<Name, Component>,
    coordinator: Coordinator,
    panicked: bool)

  function Init(max: nat): State {
    State(max, Barrier(0, 0), map[], Before, false)
  }

  datatype Step =
    | Track(name: Name)
    | Reach(name: Name)
    | Pass(name: Name)
    | StartWait
    | Fill
    | Resume

  predicate Released(s: State) {
    && s.coordinator.Waiting? && |s.coordinator.gens| == s.coordinator.unused
    && forall i :: 0 <= i < |s.coordinator.gens| ==> s.coordinator.gens[i] < s.barrier.gen
  }

  predicate Enabled(s: State, step: Step) {
    && !s.panicked
    && match step
       case Track(_) => s.coordinator.Before?
       case Reach(n) => n in s.components && s.components[n].arrived == s.components[n].passed < 2
       case Pass(n) =>
         && n in s.components && s.components[n].passed < s.components[n].arrived
         && s.components[n].gen < s.barrier.gen
       case StartWait => s.coordinator.Before?
       case Fill => s.coordinator.Waiting? && |s.coordinator.gens| < s.coordinator.unused
       case Resume => Released(s)
  }

  /** The arrivals the coordinator makes itself; tracking never lets the components outnumber `max`. */
  function Unused(s: State): nat {
    if |s.components| <= s.max then s.max - |s.components| + 1 else 0
  }

  function Apply(s: State, step: Step): State
    requires Enabled(s, step)
  {
    match step
    case Track(n) =>
      if n in s.components || |s.components| + 1 > s.max then s.(panicked := true)
      else s.(components := s.components[n := Component(0, 0, 0)])
    case Reach(n) =>
      var c := s.components[n];
      s.(components := s.components[n := c.(arrived := c.arrived + 1, gen := s.barrier.gen)],
         barrier := Arrive(s.barrier, s.max + 1))
    case Pass(n) =>
      var c := s.components[n];
      s.(components := s.components[n := c.(passed := c.passed + 1)])
    case StartWait => s.(coordinator := Waiting(1, Unused(s), []))
    case Fill =>
      s.(coordinator := s.coordinator.(gens := s.coordinator.gens + [s.barrier.gen]),
         barrier := Arrive(s.barrier, s.max + 1))
    case Resume =>
      s.(coordinator := if s.coordinator.phase == 1 then Waiting(2, Unused(s), []) else Done)
  }

  predicate Runs(s: State, steps: seq<Step>, s': State)
    decreases |steps|
  {
    if steps == [] then s == s'
    else Enabled(s, steps[0]) && Runs(Apply(s, steps[0]), steps[1..], s')
  }

  // --------------------------------------------------------------- invariant

  /** The components that have already reached the generation being filled. */
  function Ahead(s: State): (r: set<Name>)
    ensures r <= s.components.Keys
  {
    set n | n in s.components && s.components[n].arrived == s.barrier.gen + 1
  }

  function Filled(s: State): nat {
    if s.coordinator.Waiting? && s.coordinator.phase == s.barrier.gen + 1 then |s.coordinator.gens| else 0
  }

  /** A component is at most one arrival ahead of the barrier, and never behind it. */
  predicate InStep(s: State, n: Name) {
    n in s.components ==>
      var c := s.components[n];
      && c.passed <= c.arrived <= c.passed + 1 && c.arrived <= 2
      && s.barrier.gen <= c.arrived <= s.barrier.gen + 1
      && c.passed <= s.barrier.gen
      && (c.arrived > 0 ==> c.gen == c.arrived - 1)
  }

  predicate CoordinatorOk(s: State) {
    match s.coordinator
    case Before => s.barrier.gen == 0
    case Done => s.barrier.gen == 2
    case Waiting(phase, unused, gens) =>
      && 1 <= phase <= 2 && unused == s.max - |s.components| + 1 && |gens| <= unused
      && (forall i :: 0 <= i < |gens| ==> gens[i] == phase - 1)
      && phase - 1 <= s.barrier.gen <= phase
      && (s.barrier.gen == phase ==> |gens| == unused)
  }

  ghost predicate Inv(s: State) {
    && |s.components| <= s.max
    && s.barrier.gen <= 2
    && (forall n :: InStep(s, n))
    && CoordinatorOk(s)
    && s.barrier.count == |Ahead(s)| + Filled(s) <= s.max
  }

  lemma SubsetSize<T>(a: set<T>, b: set<T>)
    requires a <= b
    ensures |a| <= |b|
    ensures |a| == |b| ==> a == b
  {
    assert b == a + (b - a);
  }

  /** The tracked names and the keys of the map are as many. */
  lemma AheadIsNoMore(s: State)
    ensures |Ahead(s)| <= |s.components|
    ensures |Ahead(s)| == |s.components| ==> Ahead(s) == s.components.Keys
  {
    SubsetSize(Ahead(s), s.components.Keys);
    assert |s.components.Keys| == |s.components|;
  }

  lemma TrackKeepsInv(s: State, n: Name)
    requires Inv(s) && Enabled(s, Track(n)) && !Apply(s, Track(n)).panicked
    ensures Inv(Apply(s, Track(n)))
  {
    var s' := Apply(s, Track(n));
    assert Ahead(s') == Ahead(s);
    forall k ensures InStep(s', k) {
      assert InStep(s, k);
    }
  }

  lemma PassKeepsInv(s: State, n: Name)
    requires Inv(s) && Enabled(s, Pass(n))
    ensures Inv(Apply(s, Pass(n)))
  {
    var s' := Apply(s, Pass(n));
    Updated(s, n, s'.components[n]);
    assert Ahead(s') == Ahead(s);
    forall k ensures InStep(s', k) {
      assert InStep(s, k) && InStep(s, n);
    }
  }

  /** The last arrival of a generation: everybody has arrived, so the barrier opens on a new phase. */
  lemma OpeningKeepsInv(s: State, s': State)
    requires |s.components| <= s.max && s.barrier.gen <= 1
    requires s' == s.(barrier := Barrier(s.barrier.gen + 1, 0))
    requires forall n :: InStep(s, n)
    requires CoordinatorOk(s)
    requires |Ahead(s)| + Filled(s) == s.max + 1
    ensures Inv(s')
    ensures Ahead(s) == s.components.Keys && Filled(s) == s.max - |s.components| + 1
  {
    AheadIsNoMore(s);
    forall n ensures InStep(s', n) {
      assert InStep(s, n);
      assert n in s.components ==> n in Ahead(s);
    }
    assert Ahead(s') == {} by {
      forall n | n in s.components ensures n !in Ahead(s') {
        assert n in Ahead(s);
      }
    }
  }

  /** An arrival that does not complete the generation, or one that does. */
  lemma ArrivalKeepsInv(s: State, t: State)
    requires |s.components| <= s.max && s.barrier.gen <= 1
    requires t == s.(barrier := Arrive(s.barrier, s.max + 1))
    requires forall n :: InStep(s, n)
    requires CoordinatorOk(s)
    requires s.barrier.count + 1 == |Ahead(s)| + Filled(s) <= s.max + 1
    ensures Inv(t)
  {
    if s.barrier.count + 1 >= s.max + 1 {
      OpeningKeepsInv(s, t);
    } else {
      assert Ahead(t) == Ahead(s);
      forall n ensures InStep(t, n) {
        assert InStep(s, n);
      }
    }
  }

  lemma Updated(s: State, n: Name, c: Component)
    requires n in s.components
    ensures var t := s.(components := s.components[n := c]);
      t.components.Keys == s.components.Keys && |t.components| == |s.components|
  {
    var t := s.(components := s.components[n := c]);
    assert t.components.Keys == s.components.Keys;
    assert |t.components| == |t.components.Keys| == |s.components.Keys|;
  }

  lemma OneMoreAhead(s: State, n: Name, t: State)
    requires n in s.components && InStep(s, n) && s.components[n].arrived == s.barrier.gen <= 1
    requires t == s.(components := s.components[n := s.components[n].(arrived := s.barrier.gen + 1, gen := s.barrier.gen)])
    ensures |Ahead(t)| == |Ahead(s)| + 1
  {
    assert Ahead(t) == Ahead(s) + {n} && n !in Ahead(s);
  }

  lemma ReachKeepsInv(s: State, n: Name)
    requires Inv(s) && Enabled(s, Reach(n))
    ensures Inv(Apply(s, Reach(n)))
  {
    var c := s.components[n];
    assert InStep(s, n);
    var c' := c.(arrived := c.arrived + 1, gen := s.barrier.gen);
    var mid := s.(components := s.components[n := c']);
    Updated(s, n, c');
    OneMoreAhead(s, n, mid);
    forall k ensures InStep(mid, k) {
      assert InStep(s, k);
    }
    ArrivalKeepsInv(mid, Apply(s, Reach(n)));
  }

  lemma FillKeepsInv(s: State)
    requires Inv(s) && Enabled(s, Fill)
    ensures Inv(Apply(s, Fill))
  {
    var mid := s.(coordinator := s.coordinator.(gens := s.coordinator.gens + [s.barrier.gen]));
    assert Ahead(mid) == Ahead(s);
    forall k ensures InStep(mid, k) {
      assert InStep(s, k);
    }
    ArrivalKeepsInv(mid, Apply(s, Fill));
  }

  lemma CoordinatorStepKeepsInv(s: State, step: Step)
    requires Inv(s) && Enabled(s, step) && (step.StartWait? || step.Resume?)
    ensures Inv(Apply(s, step))
  {
    var s' := Apply(s, step);
    if step.Resume? {
      assert |s.coordinator.gens| > 0;
      assert s.coordinator.gens[0] == s.coordinator.phase - 1;
    }
    assert Ahead(s') == Ahead(s);
    forall k ensures InStep(s', k) {
      assert InStep(s, k);
    }
  }

  lemma StepKeepsInv(s: State, step: Step)
    requires Inv(s) && Enabled(s, step)
    ensures Apply(s, step).panicked || Inv(Apply(s, step))
  {
    match step
    case Track(n) => if !Apply(s, step).panicked { TrackKeepsInv(s, n); }
    case Reach(n) => ReachKeepsInv(s, n);
    case Pass(n) => PassKeepsInv(s, n);
    case Fill => FillKeepsInv(s);
    case _ => CoordinatorStepKeepsInv(s, step);
  }

  lemma {:induction false} RunKeepsInv(s: State, steps: seq<Step>, s': State)
    requires Inv(s) && Runs(s, steps, s')
    ensures s'.panicked || Inv(s')
    decreases |steps|
  {
    if steps != [] {
      StepKeepsInv(s, steps[0]);
      if Apply(s, steps[0]).panicked {
        assert |steps| == 1;
      } else {
        RunKeepsInv(Apply(s, steps[0]), steps[1..], s');
      }
    }
  }

  lemma InitIsInv(max: nat)
    ensures Inv(Init(max))
  {
    assert Ahead(Init(max)) == {};
  }

  // ---------------------------------------------------------------- theorems

  /** The coordinator has been let through phase `k`. */
  predicate Finished(s: State, k: nat) {
    s.coordinator.Done? || (s.coordinator.Waiting? && s.coordinator.phase > k)
  }

  /** Nobody gets through ready, or through running, before every tracked component has reached it. */
  lemma NobodyPassesEarly(max: nat, steps: seq<Step>, s: State, k: nat, n: Name, other: Name)
    requires Runs(Init(max), steps, s) && !s.panicked && 1 <= k <= 2
    requires n in s.components && other in s.components
    requires s.components[n].passed >= k || Finished(s, k)
    ensures s.components[other].arrived >= k
    ensures s.coordinator.Done? || (s.coordinator.Waiting? && s.coordinator.phase >= k)
  {
    InitIsInv(max);
    RunKeepsInv(Init(max), steps, s);
    assert InStep(s, n) && InStep(s, other);
  }

  /**
   The barrier opens exactly once every tracked component has reached the phase
   and the coordinator has made its arrivals, `max + 1` in all.
   */
  lemma OpensExactlyWhenAllArrived(max: nat, steps: seq<Step>, s: State, k: nat)
    requires Runs(Init(max), steps, s) && !s.panicked && 1 <= k <= 2
    requires s.coordinator.Waiting? && s.coordinator.phase == k
    ensures s.barrier.gen >= k <==>
      && |s.coordinator.gens| == s.coordinator.unused
      && forall n :: n in s.components ==> s.components[n].arrived >= k
    ensures s.coordinator.unused + |s.components| == max + 1
  {
    InitIsInv(max);
    RunKeepsInv(Init(max), steps, s);
    MaxIsFixed(Init(max), steps, s);
    if s.barrier.gen >= k {
      forall n | n in s.components ensures s.components[n].arrived >= k {
        assert InStep(s, n);
      }
    } else if forall n :: n in s.components ==> s.components[n].arrived >= k {
      AllAreAhead(s);
    }
  }

  lemma AllAreAhead(s: State)
    requires forall n :: InStep(s, n)
    requires forall n :: n in s.components ==> s.components[n].arrived > s.barrier.gen
    ensures |Ahead(s)| == |s.components|
  {
    forall n | n in s.components ensures n in Ahead(s) {
      assert InStep(s, n);
    }
    assert Ahead(s) == s.components.Keys;
  }

  lemma {:induction false} MaxIsFixed(s: State, steps: seq<Step>, s': State)
    requires Runs(s, steps, s')
    ensures s'.max == s.max
    decreases |steps|
  {
    if steps != [] {
      MaxIsFixed(Apply(s, steps[0]), steps[1..], s');
    }
  }

  function Arrivals(steps: seq<Step>): nat {
    if steps == [] then 0 else (if steps[0].Reach? || steps[0].Fill? then 1 else 0) + Arrivals(steps[1..])
  }

  /** All arrivals at a barrier since it was made. */
  function Total(b: Barrier, size: nat): nat {
    b.gen * size + b.count
  }

  lemma ArriveAddsOne(b: Barrier, size: nat)
    requires b.count < size
    ensures Total(Arrive(b, size), size) == Total(b, size) + 1
  {
    if b.count + 1 >= size {
      assert (b.gen + 1) * size == b.gen * size + size;
    }
  }

  lemma StepArrives(s: State, step: Step)
    requires Inv(s) && Enabled(s, step)
    ensures Total(Apply(s, step).barrier, s.max + 1) ==
      Total(s.barrier, s.max + 1) + if step.Reach? || step.Fill? then 1 else 0
  {
    ArriveAddsOne(s.barrier, s.max + 1);
  }

  lemma {:induction false} ArrivalsAdvance(s: State, steps: seq<Step>, s': State)
    requires Inv(s) && Runs(s, steps, s') && !s'.panicked
    ensures Total(s'.barrier, s.max + 1) == Total(s.barrier, s.max + 1) + Arrivals(steps)
    decreases |steps|
  {
    if steps != [] {
      var t := Apply(s, steps[0]);
      StepKeepsInv(s, steps[0]);
      StepArrives(s, steps[0]);
      if !t.panicked {
        ArrivalsAdvance(t, steps[1..], s');
      }
    }
  }

  /** Every phase that has opened took exactly `max + 1` arrivals, and there are only two. */
  lemma ArrivalsPerPhase(max: nat, steps: seq<Step>, s: State)
    requires Runs(Init(max), steps, s) && !s.panicked
    ensures Arrivals(steps) == s.barrier.gen * (max + 1) + s.barrier.count
    ensures s.barrier.gen <= 2 && s.barrier.count <= max
  {
    InitIsInv(max);
    RunKeepsInv(Init(max), steps, s);
    MaxIsFixed(Init(max), steps, s);
    ArrivalsAdvance(Init(max), steps, s);
  }

  /** Until the coordinator and every component are through both phases, somebody can take a step. */
  lemma NeverStuck(max: nat, steps: seq<Step>, s: State, n: Name)
    requires Runs(Init(max), steps, s) && !s.panicked
    requires !s.coordinator.Done? || (n in s.components && s.components[n].passed < 2)
    ensures exists step: Step :: !step.Track? && Enabled(s, step)
  {
    InitIsInv(max);
    RunKeepsInv(Init(max), steps, s);
    assert InStep(s, n);
    if s.coordinator.Before? {
      assert Enabled(s, StartWait);
    } else if s.coordinator.Done? {
      assert Enabled(s, Pass(n));
    } else if |s.coordinator.gens| < s.coordinator.unused {
      assert Enabled(s, Fill);
    } else if s.barrier.gen == s.coordinator.phase {
      assert Enabled(s, Resume);
    } else {
      SomeoneIsMissing(max, steps, s);
    }
  }

  /** While the barrier stays shut, some component is still on its way to it. */
  lemma SomeoneIsMissing(max: nat, steps: seq<Step>, s: State)
    requires Runs(Init(max), steps, s) && Inv(s) && !s.panicked && s.coordinator.Waiting?
    requires |s.coordinator.gens| == s.coordinator.unused && s.barrier.gen < s.coordinator.phase
    ensures exists step: Step :: !step.Track? && Enabled(s, step)
  {
    OpensExactlyWhenAllArrived(max, steps, s, s.coordinator.phase);
    var m :| m in s.components && s.components[m].arrived < s.coordinator.phase;
    assert InStep(s, m);
    if s.components[m].arrived == s.components[m].passed {
      assert Enabled(s, Reach(m));
    } else {
      assert Enabled(s, Pass(m));
    }
  }

  // ------------------------------------------------------- how long it can take

  function WorkOf(c: Component): nat {
    c.arrived + c.passed
  }

  ghost function Works(components: map<Name, Component>): map<Name, nat> {
    map n | n in components :: WorkOf(components[n])
  }

  /** The steps the coordinator has taken. */
  function Waited(s: State): nat {
    match s.coordinator
    case Before => 0
    case Waiting(phase, unused, gens) => (if phase == 1 then 1 else unused + 2) + |gens|
    case Done => 2 * Unused(s) + 3
  }

  /** All steps taken so far but the tracking. */
  ghost function Work(s: State): nat {
    MapSum.Sum(Works(s.components)) + Waited(s)
  }

  lemma WorkOfUpdate(components: map<Name, Component>, n: Name, c: Component)
    requires n in components
    ensures MapSum.Sum(Works(components[n := c])) == MapSum.Sum(Works(components)) - WorkOf(components[n]) + WorkOf(c)
  {
    MapSum.Insert(Works(components), n, WorkOf(c));
    assert Works(components[n := c]) == Works(components)[n := WorkOf(c)];
  }

  lemma WorkOfTracking(components: map<Name, Component>, n: Name)
    requires n !in components
    ensures MapSum.Sum(Works(components[n := Component(0, 0, 0)])) == MapSum.Sum(Works(components))
  {
    MapSum.Insert(Works(components), n, 0);
    assert Works(components[n := Component(0, 0, 0)]) == Works(components)[n := 0];
  }

  /** Every step but tracking is one more step of work. */
  lemma WorkOfStep(s: State, step: Step)
    requires Inv(s) && Enabled(s, step) && !Apply(s, step).panicked
    ensures Work(Apply(s, step)) == Work(s) + if step.Track? then 0 else 1
  {
    match step
    case Track(n) => WorkOfTracking(s.components, n);
    case Reach(n) =>
      Updated(s, n, Apply(s, step).components[n]);
      WorkOfUpdate(s.components, n, Apply(s, step).components[n]);
    case Pass(n) =>
      Updated(s, n, Apply(s, step).components[n]);
      WorkOfUpdate(s.components, n, Apply(s, step).components[n]);
    case _ =>
  }

  lemma WorkIsBounded(s: State)
    requires Inv(s)
    ensures Work(s) <= 4 * |s.components| + 2 * Unused(s) + 3
  {
    var works := Works(s.components);
    forall n | n in works ensures works[n] <= 4 {
      assert InStep(s, n);
    }
    MapSum.SumIsBounded(works, 4);
    assert works.Keys == s.components.Keys;
    assert |works| == |works.Keys| == |s.components.Keys|;
  }

  function Moves(steps: seq<Step>): nat {
    if steps == [] then 0 else (if steps[0].Track? then 0 else 1) + Moves(steps[1..])
  }

  lemma {:induction false} WorkOfRun(s: State, steps: seq<Step>, s': State)
    requires Inv(s) && !s.panicked && Runs(s, steps, s') && !s'.panicked
    ensures Work(s') == Work(s) + Moves(steps)
    decreases |steps|
  {
    if steps != [] {
      var t := Apply(s, steps[0]);
      StepKeepsInv(s, steps[0]);
      if !t.panicked {
        WorkOfStep(s, steps[0]);
        WorkOfRun(t, steps[1..], s');
      }
    }
  }

  /** No start-up takes more steps than this, tracking apart. */
  lemma StartUpIsBounded(max: nat, steps: seq<Step>, s: State)
    requires Runs(Init(max), steps, s) && !s.panicked
    ensures Moves(steps) <= 4 * |s.components| + 2 * (max - |s.components| + 1) + 3
  {
    InitIsInv(max);
    RunKeepsInv(Init(max), steps, s);
    MaxIsFixed(Init(max), steps, s);
    WorkOfRun(Init(max), steps, s);
    WorkIsBounded(s);
    assert Works(map[]) == map[];
  }

  /** So every start-up that goes on as long as it can ends with the coordinator done and every component running. */
  lemma StartUpEnds(max: nat, steps: seq<Step>, s: State, n: Name)
    requires Runs(Init(max), steps, s) && !s.panicked
    requires forall step: Step :: Enabled(s, step) ==> step.Track?
    ensures s.coordinator.Done? && (n in s.components ==> s.components[n].passed == 2)
  {
    InitIsInv(max);
    RunKeepsInv(Init(max), steps, s);
    assert InStep(s, n);
    if !s.coordinator.Done? || (n in s.components && s.components[n].passed < 2) {
      NeverStuck(max, steps, s, n);
    }
  }

  // ------------------------------------------------------------------ tracking

  function Names(steps: seq<Step>): seq<Name> {
    if steps == [] then []
    else (if steps[0].Track? then [steps[0].name] else []) + Names(steps[1..])
  }

  predicate Distinct(names: seq<Name>) {
    forall i, j :: 0 <= i < j < |names| ==> names[i] != names[j]
  }

  /** Tracking succeeds from a state exactly when the names are new, distinct and not too many. */
  predicate Trackable(s: State, names: seq<Name>) {
    Distinct(names) && |s.components| + |names| <= s.max && forall i :: 0 <= i < |names| ==> names[i] !in s.components
  }

  lemma {:induction false} PanicsExactlyWhen(s: State, steps: seq<Step>, s': State)
    requires !s.panicked && |s.components| <= s.max && Runs(s, steps, s')
    ensures s'.panicked <==> !Trackable(s, Names(steps))
    decreases |steps|
  {
    if steps != [] {
      var step, rest := steps[0], steps[1..];
      var t := Apply(s, step);
      if t.panicked {
        assert rest == [];
        assert Names(steps) == [step.name];
      } else {
        PanicsExactlyWhen(t, rest, s');
        if step.Track? {
          TrackableStep(s, step.name, Names(rest));
        } else {
          SameNames(s, step);
          assert Names(steps) == Names(rest);
        }
      }
    }
  }

  lemma SameNames(s: State, step: Step)
    requires Enabled(s, step) && !step.Track?
    ensures Apply(s, step).components.Keys == s.components.Keys
    ensures |Apply(s, step).components| == |s.components|
  {
    match step
    case Reach(n) => Updated(s, n, Apply(s, step).components[n]);
    case Pass(n) => Updated(s, n, Apply(s, step).components[n]);
    case _ =>
  }

  lemma TrackableStep(s: State, n: Name, names: seq<Name>)
    requires n !in s.components && |s.components| + 1 <= s.max
    ensures Trackable(s, [n] + names) <==> Trackable(s.(components := s.components[n := Component(0, 0, 0)]), names)
  {
    var t := s.(components := s.components[n := Component(0, 0, 0)]);
    var all := [n] + names;
    if Trackable(s, all) {
      forall i, j | 0 <= i < j < |names| ensures names[i] != names[j] {
        assert all[i + 1] == names[i] && all[j + 1] == names[j];
      }
      forall i | 0 <= i < |names| ensures names[i] !in t.components {
        assert all[0] == n && all[i + 1] == names[i];
      }
    }
  }

  /** A start-up panics exactly when a name is tracked twice or more than `max` names are tracked. */
  lemma StartUpPanicsExactlyWhen(max: nat, steps: seq<Step>, s: State)
    requires Runs(Init(max), steps, s)
    ensures s.panicked <==> !Distinct(Names(steps)) || |Names(steps)| > max
  {
    PanicsExactlyWhen(Init(max), steps, s);
  }
}
