/**
 Bringing the running components in line with a new configuration. The maps are
 drained in any order; what is done to each component is recorded in order.
 */
module Reconcile {
  import opened Prelude

  type Name = string

  /** A unit or target: its type and the rest of its configuration. */
  datatype Component = Component(kind: nat, settings: nat)

  /** A running component: its type and the agent or sender that commands reach it by. */
  datatype Running = Running(kind: nat, link: nat)

  /** A gate prepared for a unit that something links to. */
  datatype Pending = Pending(gate: nat, agent: nat)

  datatype Side = Units | Targets

  datatype Action =
    | Spawn(side: Side, name: Name, component: Component, end: nat)
    | Reconfigure(side: Side, name: Name, link: nat, component: Component, gate: Option<nat>)
    | Terminate(side: Side, name: Name, link: nat)

  // ------------------------------------------------------------ specification

  function Lookup<V>(m: map<Name, V>, n: Name): Option<V> {
    if n in m then Some(m[n]) else None
  }

  /** What was done to one component, in order. */
  function ActionsOn(log: seq<Action>, side: Side, name: Name): seq<Action> {
    if log == [] then []
    else
      var last := log[|log| - 1];
      ActionsOn(log[..|log| - 1], side, name) + if last.side == side && last.name == name then [last] else []
  }

  /** A running component of the type that is configured. */
  predicate Same(running: Option<Running>, config: Option<Component>) {
    running.Some? && config.Some? && running.value.kind == config.value.kind
  }

  function StopPlan(side: Side, name: Name, running: Option<Running>): seq<Action> {
    match running case None => [] case Some(r) => [Terminate(side, name, r.link)]
  }

  /** What is owed to the target of a name. */
  function TargetPlan(name: Name, running: Option<Running>, config: Option<Component>, channel: nat): seq<Action> {
    match config
    case None => StopPlan(Targets, name, running)
    case Some(c) =>
      if Same(running, config) then [Reconfigure(Targets, name, running.value.link, c, None)]
      else StopPlan(Targets, name, running) + [Spawn(Targets, name, c, channel)]
  }

  function NewTarget(running: Option<Running>, config: Option<Component>, channel: nat): Option<Running> {
    match config
    case None => None
    case Some(c) => Some(Running(c.kind, if Same(running, config) then running.value.link else channel))
  }

  predicate TargetSpawns(running: Option<Running>, config: Option<Component>) {
    config.Some? && !Same(running, config)
  }

  /** What is owed to the unit of a name; one without a pending gate is unused. */
  function UnitPlan(name: Name, running: Option<Running>, config: Option<Component>, pending: Option<Pending>): seq<Action> {
    if config == None || pending == None then StopPlan(Units, name, running)
    else if Same(running, config)
    then [Reconfigure(Units, name, running.value.link, config.value, Some(pending.value.gate))]
    else StopPlan(Units, name, running) + [Spawn(Units, name, config.value, pending.value.gate)]
  }

  function NewUnit(config: Option<Component>, pending: Option<Pending>): Option<Running> {
    if config == None || pending == None then None else Some(Running(config.value.kind, pending.value.agent))
  }

  predicate UnitSpawns(running: Option<Running>, config: Option<Component>, pending: Option<Pending>) {
    config.Some? && pending.Some? && !Same(running, config)
  }

  // ---------------------------------------------------------------------- log

  lemma OneMoreAction(log: seq<Action>, a: Action, side: Side, name: Name)
    ensures ActionsOn(log + [a], side, name) ==
      ActionsOn(log, side, name) + if a.side == side && a.name == name then [a] else []
  {
    assert (log + [a])[..|log|] == log;
  }

  /** Between two logs only one component was acted on. */
  ghost predicate Extends(before: seq<Action>, after: seq<Action>, side: Side, name: Name, plan: seq<Action>) {
    forall s, n :: ActionsOn(after, s, n) == ActionsOn(before, s, n) + if s == side && n == name then plan else []
  }

  predicate About(plan: seq<Action>, side: Side, name: Name) {
    plan != [] ==>
      var last := plan[|plan| - 1];
      last.side == side && last.name == name && About(plan[..|plan| - 1], side, name)
  }

  lemma {:induction false} ActionsOnConcat(a: seq<Action>, b: seq<Action>, side: Side, name: Name)
    ensures ActionsOn(a + b, side, name) == ActionsOn(a, side, name) + ActionsOn(b, side, name)
    decreases |b|
  {
    if b == [] {
      assert a + b == a;
    } else {
      var init, last := b[..|b| - 1], b[|b| - 1];
      ActionsOnConcat(a, init, side, name);
      OneMoreAction(a + init, last, side, name);
      assert a + b == a + init + [last];
      Assoc(ActionsOn(a, side, name), ActionsOn(init, side, name), if last.side == side && last.name == name then [last] else []);
    }
  }

  lemma {:induction false} ActionsOnPlan(plan: seq<Action>, side: Side, name: Name, s: Side, n: Name)
    requires About(plan, side, name)
    ensures ActionsOn(plan, s, n) == if s == side && n == name then plan else []
    decreases |plan|
  {
    if plan != [] {
      var init, last := plan[..|plan| - 1], plan[|plan| - 1];
      ActionsOnPlan(init, side, name, s, n);
      if s == side && n == name {
        assert ActionsOn(plan, s, n) == init + [last] == plan;
      } else {
        assert ActionsOn(plan, s, n) == [] + [];
      }
    }
  }

  lemma Appended(log: seq<Action>, plan: seq<Action>, side: Side, name: Name)
    requires About(plan, side, name)
    ensures Extends(log, log + plan, side, name, plan)
  {
    forall s, n ensures ActionsOn(log + plan, s, n) == ActionsOn(log, s, n) + if s == side && n == name then plan else [] {
      ActionsOnConcat(log, plan, s, n);
      ActionsOnPlan(plan, side, name, s, n);
    }
  }

  // ----------------------------------------------------------------- progress

  /** Everything a run of `spawn_internal` starts from. */
  datatype Plan = Plan(
    units: map<Name, Running>,
    targets: map<Name, Running>,
    pending: map<Name, Pending>,
    unitConfig: map<Name, Component>,
    targetConfig: map<Name, Component>,
    channel: Name -> nat)
  {
    function ForTarget(n: Name): seq<Action> {
      TargetPlan(n, Lookup(targets, n), Lookup(targetConfig, n), channel(n))
    }

    function ForUnit(n: Name): seq<Action> {
      UnitPlan(n, Lookup(units, n), Lookup(unitConfig, n), Lookup(pending, n))
    }

    function TargetAfter(n: Name): Option<Running> {
      NewTarget(Lookup(targets, n), Lookup(targetConfig, n), channel(n))
    }

    function UnitAfter(n: Name): Option<Running> {
      NewUnit(Lookup(unitConfig, n), Lookup(pending, n))
    }

    predicate SpawnsTarget(n: Name) {
      TargetSpawns(Lookup(targets, n), Lookup(targetConfig, n))
    }

    predicate SpawnsUnit(n: Name) {
      UnitSpawns(Lookup(units, n), Lookup(unitConfig, n), Lookup(pending, n))
    }

    /** Both a target and a unit of this name are to be spawned. */
    predicate Clash(n: Name) {
      SpawnsTarget(n) && SpawnsUnit(n)
    }
  }

  /** How far the target of a name has been dealt with. */
  predicate TargetAt(p: Plan, done: set<Name>, now: map<Name, Running>, log: seq<Action>, tracked: set<Name>, next: map<Name, Running>, n: Name) {
    && ActionsOn(log, Targets, n) == (if n in done then p.ForTarget(n) else [])
    && ActionsOn(log, Units, n) == []
    && Lookup(now, n) == (if n in done then None else Lookup(p.targets, n))
    && Lookup(next, n) == (if n in done then p.TargetAfter(n) else None)
    && (n in tracked <==> n in done && p.SpawnsTarget(n))
  }

  ghost predicate TargetsAt(p: Plan, done: set<Name>, now: map<Name, Running>, log: seq<Action>, tracked: set<Name>, next: map<Name, Running>) {
    forall n :: TargetAt(p, done, now, log, tracked, next, n)
  }

  /** How far the unit of a name has been dealt with, once all targets have been. */
  predicate UnitAt(p: Plan, done: set<Name>, now: map<Name, Running>, gates: map<Name, Pending>, log: seq<Action>, tracked: set<Name>,
                   next: map<Name, Running>, n: Name)
  {
    && ActionsOn(log, Units, n) == (if n in done then p.ForUnit(n) else [])
    && ActionsOn(log, Targets, n) == (if n in p.targetConfig then p.ForTarget(n) else [])
    && Lookup(now, n) == (if n in done then None else Lookup(p.units, n))
    && Lookup(gates, n) == (if n in done then None else Lookup(p.pending, n))
    && Lookup(next, n) == (if n in done then p.UnitAfter(n) else None)
    && (n in tracked <==> p.SpawnsTarget(n) || (n in done && p.SpawnsUnit(n)))
    && !(n in done && p.Clash(n))
  }

  ghost predicate UnitsAt(p: Plan, done: set<Name>, now: map<Name, Running>, gates: map<Name, Pending>, log: seq<Action>, tracked: set<Name>,
                          next: map<Name, Running>)
  {
    forall n :: UnitAt(p, done, now, gates, log, tracked, next, n)
  }

  /** The components of these names, and no others, have been terminated. */
  ghost predicate Stopped(before: seq<Action>, after: seq<Action>, side: Side, running: map<Name, Running>, names: set<Name>) {
    forall s, n :: ActionsOn(after, s, n) ==
      ActionsOn(before, s, n) + if s == side && n in names then StopPlan(side, n, Lookup(running, n)) else []
  }

  /** Everything has been done, and the running sets are those of the configuration. */
  predicate SettledAt(p: Plan, targets: map<Name, Running>, units: map<Name, Running>, gates: map<Name, Pending>, log: seq<Action>, n: Name) {
    && ActionsOn(log, Targets, n) == p.ForTarget(n)
    && ActionsOn(log, Units, n) == p.ForUnit(n)
    && Lookup(targets, n) == p.TargetAfter(n)
    && Lookup(units, n) == p.UnitAfter(n)
    && Lookup(gates, n) == (if n in p.unitConfig then None else Lookup(p.pending, n))
  }

  // ------------------------------------------------------------------ manager

  class Manager {
    var runningUnits: map<Name, Running>
    var runningTargets: map<Name, Running>
    var pendingGates: map<Name, Pending>
    /** The calls made to the spawn, reconfigure and terminate functions. */
    var actions: seq<Action>
    /** The names the start-up coordinator tracks. */
    var tracked: set<Name>

    constructor (units: map<Name, Running>, targets: map<Name, Running>, pending: map<Name, Pending>)
      ensures runningUnits == units && runningTargets == targets && pendingGates == pending
    {
      runningUnits, runningTargets, pendingGates, actions, tracked := units, targets, pending, [], {};
    }

    /** The body of the target loop. */
    method OneTarget(name: Name, c: Component, channel: nat) returns (entry: Running)
      modifies `runningTargets, `actions, `tracked
      ensures runningTargets == old(runningTargets) - {name}
      ensures actions == old(actions) + TargetPlan(name, Lookup(old(runningTargets), name), Some(c), channel)
      ensures tracked == old(tracked) + if TargetSpawns(Lookup(old(runningTargets), name), Some(c)) then {name} else {}
      ensures Some(entry) == NewTarget(Lookup(old(runningTargets), name), Some(c), channel)
    {
      if name in runningTargets {
        var running := runningTargets[name];
        runningTargets := runningTargets - {name};
        if c.kind != running.kind {
          actions := actions + [Terminate(Targets, name, running.link)];
        } else {
          actions := actions + [Reconfigure(Targets, name, running.link, c, None)];
          return running;
        }
      }
      actions := actions + [Spawn(Targets, name, c, channel)];
      tracked := tracked + {name};
      entry := Running(c.kind, channel);
    }

    /** A unit that has a gate waiting for it. */
    method UsableUnit(name: Name, c: Component, made: Pending) returns (entry: Running, ok: bool)
      modifies `runningUnits, `actions, `tracked
      ensures runningUnits == old(runningUnits) - {name}
      ensures ok <==> !(UnitSpawns(Lookup(old(runningUnits), name), Some(c), Some(made)) && name in old(tracked))
      ensures ok ==> actions == old(actions) + UnitPlan(name, Lookup(old(runningUnits), name), Some(c), Some(made))
      ensures ok ==> tracked == old(tracked) + if UnitSpawns(Lookup(old(runningUnits), name), Some(c), Some(made)) then {name} else {}
      ensures entry == Running(c.kind, made.agent)
    {
      entry, ok := Running(c.kind, made.agent), true;
      if name in runningUnits {
        var running := runningUnits[name];
        runningUnits := runningUnits - {name};
        if c.kind != running.kind {
          actions := actions + [Terminate(Units, name, running.link)];
        } else {
          actions := actions + [Reconfigure(Units, name, running.link, c, Some(made.gate))];
          return;
        }
      }
      if name in tracked {
        ok := false;
        return;
      }
      tracked := tracked + {name};
      actions := actions + [Spawn(Units, name, c, made.gate)];
    }

    /** The body of the unit loop; false is the panic of tracking a name twice. */
    method OneUnit(name: Name, c: Component) returns (entry: Option<Running>, ok: bool)
      modifies `runningUnits, `pendingGates, `actions, `tracked
      ensures runningUnits == old(runningUnits) - {name} && pendingGates == old(pendingGates) - {name}
      ensures ok <==> !(UnitSpawns(Lookup(old(runningUnits), name), Some(c), Lookup(old(pendingGates), name)) && name in old(tracked))
      ensures ok ==> actions == old(actions) + UnitPlan(name, Lookup(old(runningUnits), name), Some(c), Lookup(old(pendingGates), name))
      ensures ok ==>
        tracked == old(tracked) + if UnitSpawns(Lookup(old(runningUnits), name), Some(c), Lookup(old(pendingGates), name)) then {name} else {}
      ensures ok ==> entry == NewUnit(Some(c), Lookup(old(pendingGates), name))
    {
      entry, ok := None, true;
      if name !in pendingGates {
        if name in runningUnits {
          var running := runningUnits[name];
          runningUnits := runningUnits - {name};
          actions := actions + [Terminate(Units, name, running.link)];
        }
        return;
      }
      var made := pendingGates[name];
      pendingGates := pendingGates - {name};
      var agent;
      agent, ok := UsableUnit(name, c, made);
      entry := Some(agent);
    }

    /** Spawn, reconfigure and terminate targets according to the configuration. */
    method AlignTargets(ghost p: Plan, config: map<Name, Component>, channel: Name -> nat) returns (next: map<Name, Running>)
      requires actions == [] && tracked == {} && runningTargets == p.targets
      requires config == p.targetConfig && channel == p.channel
      modifies `runningTargets, `actions, `tracked
      ensures TargetsAt(p, config.Keys, runningTargets, actions, tracked, next)
    {
      var left := config.Keys;
      ghost var done: set<Name> := {};
      next := map[];
      TargetStart(p);
      while left != {}
        invariant left <= config.Keys && done == config.Keys - left
        invariant TargetsAt(p, done, runningTargets, actions, tracked, next)
        decreases |left|
      {
        var name :| name in left;
        ghost var now, log, was := runningTargets, actions, tracked;
        var entry := OneTarget(name, config[name], channel(name));
        TargetStep(p, done, name, now, log, was, next, runningTargets, actions, tracked, entry);
        left, done := left - {name}, done + {name};
        next := next[name := entry];
      }
      assert done == config.Keys;
    }

    /** Spawn, reconfigure and terminate units according to the configuration; false is the panic of tracking a name twice. */
    method AlignUnits(ghost p: Plan, config: map<Name, Component>) returns (next: map<Name, Running>, ok: bool)
      requires config == p.unitConfig
      requires UnitsAt(p, {}, runningUnits, pendingGates, actions, tracked, map[])
      modifies `runningUnits, `pendingGates, `actions, `tracked
      ensures ok ==> UnitsAt(p, config.Keys, runningUnits, pendingGates, actions, tracked, next)
      ensures !ok ==> exists n :: p.Clash(n)
    {
      var left := config.Keys;
      ghost var done: set<Name> := {};
      next := map[];
      while left != {}
        invariant left <= config.Keys && done == config.Keys - left
        invariant UnitsAt(p, done, runningUnits, pendingGates, actions, tracked, next)
        decreases |left|
      {
        var name :| name in left;
        ghost var now, gates, log, was := runningUnits, pendingGates, actions, tracked;
        var entry, fine := OneUnit(name, config[name]);
        if !fine {
          UnitClash(p, done, name, now, gates, log, was, next);
          return next, false;
        }
        UnitAdvance(p, done, name, now, gates, log, was, next, runningUnits, pendingGates, actions, tracked, entry);
        left, done := left - {name}, done + {name};
        next := Put(next, name, entry);
      }
      assert done == config.Keys;
      ok := true;
    }

    /** Terminate what is left of one side. */
    method Stop(side: Side, running: map<Name, Running>)
      modifies `actions
      ensures Stopped(old(actions), actions, side, running, running.Keys)
    {
      var left := running.Keys;
      ghost var done: set<Name> := {};
      while left != {}
        invariant left <= running.Keys && done == running.Keys - left
        invariant Stopped(old(actions), actions, side, running, done)
        decreases |left|
      {
        var name :| name in left;
        StopStep(old(actions), actions, side, running, done, name);
        actions := actions + [Terminate(side, name, running[name].link)];
        left, done := left - {name}, done + {name};
      }
      assert done == running.Keys;
    }

    /** The reconciliation; false is the panic of tracking a name twice. */
    method SpawnInternal(unitConfig: map<Name, Component>, targetConfig: map<Name, Component>, channel: Name -> nat)
      returns (ok: bool, ghost p: Plan)
      modifies this
      ensures p == Plan(old(runningUnits), old(runningTargets), old(pendingGates), unitConfig, targetConfig, channel)
      ensures ok <==> forall n :: !p.Clash(n)
      ensures ok ==> forall n :: SettledAt(p, runningTargets, runningUnits, pendingGates, actions, n)
      ensures ok ==> forall n :: n in tracked <==> p.SpawnsTarget(n) || p.SpawnsUnit(n)
    {
      p := Plan(runningUnits, runningTargets, pendingGates, unitConfig, targetConfig, channel);
      actions, tracked := [], {};
      var newTargets := AlignTargets(p, targetConfig, channel);
      UnitStart(p, runningTargets, actions, tracked, newTargets);
      ghost var log0, tracked0 := actions, tracked;
      var newUnits;
      newUnits, ok := AlignUnits(p, unitConfig);
      if !ok {
        return;
      }
      ghost var log := actions;
      Stop(Units, runningUnits);
      ghost var log' := actions;
      Stop(Targets, runningTargets);
      Settle(p, runningTargets, log0, tracked0, newTargets, runningUnits, pendingGates, log, tracked, newUnits, log', actions);
      runningUnits, runningTargets := newUnits, newTargets;
    }
  }

  function Put(m: map<Name, Running>, n: Name, entry: Option<Running>): map<Name, Running> {
    match entry case None => m case Some(r) => m[n := r]
  }

  // -------------------------------------------------------------------- loops

  lemma TargetStart(p: Plan)
    ensures TargetsAt(p, {}, p.targets, [], {}, map[])
  {
  }

  lemma TargetStepAt(p: Plan, done: set<Name>, name: Name,
                     now: map<Name, Running>, log: seq<Action>, tracked: set<Name>, next: map<Name, Running>,
                     now': map<Name, Running>, log': seq<Action>, tracked': set<Name>, next': map<Name, Running>, n: Name)
    requires TargetAt(p, done, now, log, tracked, next, n)
    requires name !in done && now' == now - {name} && Extends(log, log', Targets, name, p.ForTarget(name))
    requires tracked' == tracked + if p.SpawnsTarget(name) then {name} else {}
    requires Lookup(next', n) == if n == name then p.TargetAfter(n) else Lookup(next, n)
    ensures TargetAt(p, done + {name}, now', log', tracked', next', n)
  {
    assert ActionsOn(log', Targets, n) == ActionsOn(log, Targets, n) + if n == name then p.ForTarget(n) else [];
    assert ActionsOn(log', Units, n) == ActionsOn(log, Units, n) + [];
  }

  lemma TargetAdvance(p: Plan, done: set<Name>, name: Name,
                      now: map<Name, Running>, log: seq<Action>, tracked: set<Name>, next: map<Name, Running>,
                      now': map<Name, Running>, log': seq<Action>, tracked': set<Name>, next': map<Name, Running>)
    requires TargetsAt(p, done, now, log, tracked, next)
    requires name !in done && now' == now - {name} && Extends(log, log', Targets, name, p.ForTarget(name))
    requires tracked' == tracked + if p.SpawnsTarget(name) then {name} else {}
    requires forall n :: Lookup(next', n) == if n == name then p.TargetAfter(n) else Lookup(next, n)
    ensures TargetsAt(p, done + {name}, now', log', tracked', next')
  {
    var done' := done + {name};
    forall n ensures TargetAt(p, done', now', log', tracked', next', n) {
      assert TargetAt(p, done, now, log, tracked, next, n);
      TargetStepAt(p, done, name, now, log, tracked, next, now', log', tracked', next', n);
    }
  }

  lemma TargetStep(p: Plan, done: set<Name>, name: Name,
                   now: map<Name, Running>, log: seq<Action>, tracked: set<Name>, next: map<Name, Running>,
                   now': map<Name, Running>, log': seq<Action>, tracked': set<Name>, entry: Running)
    requires TargetsAt(p, done, now, log, tracked, next)
    requires name in p.targetConfig && name !in done && now' == now - {name}
    requires log' == log + TargetPlan(name, Lookup(now, name), Some(p.targetConfig[name]), p.channel(name))
    requires tracked' == tracked + if TargetSpawns(Lookup(now, name), Some(p.targetConfig[name])) then {name} else {}
    requires Some(entry) == NewTarget(Lookup(now, name), Some(p.targetConfig[name]), p.channel(name))
    ensures TargetsAt(p, done + {name}, now', log', tracked', next[name := entry])
  {
    assert TargetAt(p, done, now, log, tracked, next, name);
    Appended(log, p.ForTarget(name), Targets, name);
    TargetAdvance(p, done, name, now, log, tracked, next, now', log', tracked', next[name := entry]);
  }

  lemma UnitStart(p: Plan, now: map<Name, Running>, log: seq<Action>, tracked: set<Name>, next: map<Name, Running>)
    requires TargetsAt(p, p.targetConfig.Keys, now, log, tracked, next)
    ensures UnitsAt(p, {}, p.units, p.pending, log, tracked, map[])
  {
    forall n ensures UnitAt(p, {}, p.units, p.pending, log, tracked, map[], n) {
      assert TargetAt(p, p.targetConfig.Keys, now, log, tracked, next, n);
    }
  }

  lemma UnitAsPlanned(p: Plan, done: set<Name>, name: Name, now: map<Name, Running>, gates: map<Name, Pending>, log: seq<Action>,
                      tracked: set<Name>, next: map<Name, Running>)
    requires UnitsAt(p, done, now, gates, log, tracked, next)
    requires name in p.unitConfig && name !in done
    ensures Lookup(now, name) == Lookup(p.units, name) && Lookup(gates, name) == Lookup(p.pending, name)
    ensures name in tracked <==> p.SpawnsTarget(name)
    ensures Lookup(next, name) == None
  {
    assert UnitAt(p, done, now, gates, log, tracked, next, name);
  }

  lemma UnitClash(p: Plan, done: set<Name>, name: Name, now: map<Name, Running>, gates: map<Name, Pending>, log: seq<Action>,
                  tracked: set<Name>, next: map<Name, Running>)
    requires UnitsAt(p, done, now, gates, log, tracked, next)
    requires name in p.unitConfig && name !in done && name in tracked
    requires UnitSpawns(Lookup(now, name), Some(p.unitConfig[name]), Lookup(gates, name))
    ensures p.Clash(name)
  {
    UnitAsPlanned(p, done, name, now, gates, log, tracked, next);
  }

  /** What the body of the unit loop did, in terms of the plan. */
  ghost predicate UnitDone(p: Plan, name: Name,
                           now: map<Name, Running>, gates: map<Name, Pending>, log: seq<Action>, tracked: set<Name>,
                           now': map<Name, Running>, gates': map<Name, Pending>, log': seq<Action>, tracked': set<Name>)
  {
    && now' == now - {name} && gates' == gates - {name}
    && Extends(log, log', Units, name, p.ForUnit(name))
    && !p.Clash(name) && tracked' == tracked + if p.SpawnsUnit(name) then {name} else {}
  }

  lemma UnitStepAt(p: Plan, done: set<Name>, name: Name,
                   now: map<Name, Running>, gates: map<Name, Pending>, log: seq<Action>, tracked: set<Name>, next: map<Name, Running>,
                   now': map<Name, Running>, gates': map<Name, Pending>, log': seq<Action>, tracked': set<Name>, next': map<Name, Running>,
                   n: Name)
    requires UnitAt(p, done, now, gates, log, tracked, next, n)
    requires UnitDone(p, name, now, gates, log, tracked, now', gates', log', tracked')
    requires name !in done && Lookup(next', n) == if n == name then p.UnitAfter(n) else Lookup(next, n)
    ensures UnitAt(p, done + {name}, now', gates', log', tracked', next', n)
  {
    assert ActionsOn(log', Units, n) == ActionsOn(log, Units, n) + if n == name then p.ForUnit(n) else [];
    assert ActionsOn(log', Targets, n) == ActionsOn(log, Targets, n) + [];
  }

  lemma UnitStep(p: Plan, done: set<Name>, name: Name,
                 now: map<Name, Running>, gates: map<Name, Pending>, log: seq<Action>, tracked: set<Name>, next: map<Name, Running>,
                 now': map<Name, Running>, gates': map<Name, Pending>, log': seq<Action>, tracked': set<Name>, next': map<Name, Running>)
    requires UnitsAt(p, done, now, gates, log, tracked, next)
    requires UnitDone(p, name, now, gates, log, tracked, now', gates', log', tracked')
    requires name !in done && Lookup(next, name) == None && next' == Put(next, name, p.UnitAfter(name))
    ensures UnitsAt(p, done + {name}, now', gates', log', tracked', next')
  {
    var done' := done + {name};
    forall n ensures UnitAt(p, done', now', gates', log', tracked', next', n) {
      assert UnitAt(p, done, now, gates, log, tracked, next, n);
      UnitStepAt(p, done, name, now, gates, log, tracked, next, now', gates', log', tracked', next', n);
    }
  }

  lemma UnitAdvance(p: Plan, done: set<Name>, name: Name,
                    now: map<Name, Running>, gates: map<Name, Pending>, log: seq<Action>, tracked: set<Name>, next: map<Name, Running>,
                    now': map<Name, Running>, gates': map<Name, Pending>, log': seq<Action>, tracked': set<Name>, entry: Option<Running>)
    requires UnitsAt(p, done, now, gates, log, tracked, next)
    requires name in p.unitConfig && name !in done && now' == now - {name} && gates' == gates - {name}
    requires log' == log + UnitPlan(name, Lookup(now, name), Some(p.unitConfig[name]), Lookup(gates, name))
    requires !(UnitSpawns(Lookup(now, name), Some(p.unitConfig[name]), Lookup(gates, name)) && name in tracked)
    requires tracked' == tracked + if UnitSpawns(Lookup(now, name), Some(p.unitConfig[name]), Lookup(gates, name)) then {name} else {}
    requires entry == NewUnit(Some(p.unitConfig[name]), Lookup(gates, name))
    ensures UnitsAt(p, done + {name}, now', gates', log', tracked', Put(next, name, entry))
  {
    UnitAsPlanned(p, done, name, now, gates, log, tracked, next);
    Appended(log, p.ForUnit(name), Units, name);
    UnitStep(p, done, name, now, gates, log, tracked, next, now', gates', log', tracked', Put(next, name, entry));
  }

  lemma StopStep(before: seq<Action>, log: seq<Action>, side: Side, running: map<Name, Running>, done: set<Name>, name: Name)
    requires Stopped(before, log, side, running, done) && name in running && name !in done
    ensures Stopped(before, log + [Terminate(side, name, running[name].link)], side, running, done + {name})
  {
    Appended(log, [Terminate(side, name, running[name].link)], side, name);
  }

  lemma Settle(p: Plan, targets: map<Name, Running>, log0: seq<Action>, tracked0: set<Name>, newTargets: map<Name, Running>,
               units: map<Name, Running>, gates: map<Name, Pending>, log: seq<Action>, tracked: set<Name>, newUnits: map<Name, Running>,
               log': seq<Action>, log'': seq<Action>)
    requires TargetsAt(p, p.targetConfig.Keys, targets, log0, tracked0, newTargets)
    requires UnitsAt(p, p.unitConfig.Keys, units, gates, log, tracked, newUnits)
    requires Stopped(log, log', Units, units, units.Keys) && Stopped(log', log'', Targets, targets, targets.Keys)
    ensures forall n :: SettledAt(p, newTargets, newUnits, gates, log'', n) && !p.Clash(n)
    ensures forall n :: n in tracked <==> p.SpawnsTarget(n) || p.SpawnsUnit(n)
  {
    forall n
      ensures SettledAt(p, newTargets, newUnits, gates, log'', n) && !p.Clash(n)
      ensures n in tracked <==> p.SpawnsTarget(n) || p.SpawnsUnit(n)
    {
      assert TargetAt(p, p.targetConfig.Keys, targets, log0, tracked0, newTargets, n);
      assert UnitAt(p, p.unitConfig.Keys, units, gates, log, tracked, newUnits, n);
    }
  }

  // ----------------------------------------------------------- what it means

  /** The old component of a name, if there is one, is given this command first; everything else is a spawn. */
  predicate CommandedOnce(plan: seq<Action>, running: bool, command: Action) {
    && (running ==> plan != [] && plan[0] == command && !command.Spawn?)
    && forall i :: (if running then 1 else 0) <= i < |plan| ==> plan[i].Spawn?
  }

  function TargetCommand(p: Plan, n: Name): Action
    requires n in p.targets
  {
    if Same(Lookup(p.targets, n), Lookup(p.targetConfig, n))
    then Reconfigure(Targets, n, p.targets[n].link, p.targetConfig[n], None)
    else Terminate(Targets, n, p.targets[n].link)
  }

  function UnitCommand(p: Plan, n: Name): Action
    requires n in p.units
  {
    if n in p.pending && Same(Lookup(p.units, n), Lookup(p.unitConfig, n))
    then Reconfigure(Units, n, p.units[n].link, p.unitConfig[n], Some(p.pending[n].gate))
    else Terminate(Units, n, p.units[n].link)
  }

  /** Every old component gets exactly one command: reconfigure if its type is configured still, terminate otherwise. */
  lemma OneCommandEach(p: Plan, n: Name)
    ensures n in p.targets ==> CommandedOnce(p.ForTarget(n), true, TargetCommand(p, n))
    ensures n in p.units ==> CommandedOnce(p.ForUnit(n), true, UnitCommand(p, n))
    ensures n !in p.targets ==> forall a :: CommandedOnce(p.ForTarget(n), false, a)
    ensures n !in p.units ==> forall a :: CommandedOnce(p.ForUnit(n), false, a)
  {
  }

  predicate EndsInSpawn(plan: seq<Action>) {
    plan != [] && plan[|plan| - 1].Spawn? && forall i :: 0 <= i < |plan| - 1 ==> !plan[i].Spawn?
  }

  predicate NeverSpawns(plan: seq<Action>) {
    forall i :: 0 <= i < |plan| ==> !plan[i].Spawn?
  }

  /** A component is spawned, once and last, exactly when it is configured, usable, and not running with that type. */
  lemma SpawnsExactlyTheNew(p: Plan, n: Name)
    ensures if p.SpawnsTarget(n) then EndsInSpawn(p.ForTarget(n)) else NeverSpawns(p.ForTarget(n))
    ensures if p.SpawnsUnit(n) then EndsInSpawn(p.ForUnit(n)) else NeverSpawns(p.ForUnit(n))
    ensures p.SpawnsTarget(n) <==> n in p.targetConfig && !(n in p.targets && p.targets[n].kind == p.targetConfig[n].kind)
    ensures p.SpawnsUnit(n) <==>
      n in p.unitConfig && n in p.pending && !(n in p.units && p.units[n].kind == p.unitConfig[n].kind)
  {
  }

  /** The running sets afterwards are the configured targets and the configured units that something links to. */
  lemma RunningIsConfigured(p: Plan, targets: map<Name, Running>, units: map<Name, Running>, gates: map<Name, Pending>, log: seq<Action>)
    requires forall n :: SettledAt(p, targets, units, gates, log, n)
    ensures targets.Keys == p.targetConfig.Keys
    ensures units.Keys == p.unitConfig.Keys * p.pending.Keys
    ensures gates.Keys == p.pending.Keys - p.unitConfig.Keys
  {
    forall n
      ensures n in targets <==> n in p.targetConfig
      ensures n in units <==> n in p.unitConfig && n in p.pending
      ensures n in gates <==> n in p.pending && n !in p.unitConfig
    {
      assert SettledAt(p, targets, units, gates, log, n);
    }
  }

  /** The start-up coordinator is made for enough components: its own limit is never the reason to panic. */
  lemma CoordinatorIsLargeEnough(p: Plan, tracked: set<Name>)
    requires forall n :: n in tracked ==> p.SpawnsTarget(n) || p.SpawnsUnit(n)
    ensures |tracked| <= |p.targetConfig| + |p.unitConfig|
  {
    var t, u := p.targetConfig.Keys, p.unitConfig.Keys;
    assert tracked <= t + u;
    assert t + u == tracked + (t + u - tracked);
    assert |t + u| <= |t| + |u|;
    assert |t| == |p.targetConfig| && |u| == |p.unitConfig|;
  }

  /** Disjoint unit and target names never clash. */
  lemma DisjointNamesNeverClash(p: Plan, n: Name)
    requires p.unitConfig.Keys !! p.targetConfig.Keys
    ensures !p.Clash(n)
  {
    assert n in p.unitConfig.Keys ==> n !in p.targetConfig.Keys;
  }

  /** A unit and a target that share a name and both start panic. */
  lemma SharedNamePanics()
    ensures exists p: Plan, n: Name :: p.Clash(n)
  {
    var p := Plan(map[], map[], map["a" := Pending(0, 1)], map["a" := Component(0, 0)], map["a" := Component(0, 0)], _ => 0);
    assert p.Clash("a");
  }
}
