/**
 A gate, its tree of clones, and the commands that flow between them, as the
 interleaving of small atomic steps. The root forwards a command by walking a
 snapshot of its clone senders while other tasks go on cloning, detaching and
 dropping gates.
 */
module Gate {
  import opened Prelude

  const QUEUE: nat := 16

  type Id = nat

  // ---------------------------------------------------------------- commands

  datatype Command =
    | ReportLinks
    | Suspension(slot: nat, suspend: bool)
    | Subscribe(slot: nat, delivered: bool)
    | Unsubscribe(slot: nat)
    | Reconfigure(queue: seq<Command>)
    | Trigger
    | Terminate
    | FollowSubscribe(slot: nat)
    | FollowUnsubscribe(slot: nat)
    | FollowReconfigure

  /** The commands that agents and links send to a root gate. */
  predicate FromAgent(c: Command) {
    match c
    case Reconfigure(q) => |q| <= QUEUE && forall i :: 0 <= i < |q| ==> FromAgent(q[i])
    case _ => !c.FollowSubscribe? && !c.FollowUnsubscribe? && !c.FollowReconfigure?
  }

  /** The role assertions of `process`. */
  predicate RoleHolds(isClone: bool, c: Command) {
    match c
    case Subscribe(_, _) => !isClone
    case Unsubscribe(_) => !isClone
    case Reconfigure(_) => !isClone
    case FollowSubscribe(_) => isClone
    case FollowUnsubscribe(_) => isClone
    case FollowReconfigure => isClone
    case _ => true
  }

  /** The arms of `GateCommand::clone`; any other command panics there. */
  predicate Clonable(c: Command) {
    c.FollowSubscribe? || c.FollowUnsubscribe? || c.FollowReconfigure? || c.Terminate? || c.ReportLinks?
  }

  /** What the root forwards to its clones when it processes a command. */
  function Forwarded(c: Command): Option<Command> {
    match c
    case Subscribe(slot, delivered) => if delivered then Some(FollowSubscribe(slot)) else None
    case Unsubscribe(slot) => Some(FollowUnsubscribe(slot))
    case Reconfigure(_) => Some(FollowReconfigure)
    case ReportLinks => Some(ReportLinks)
    case Trigger => Some(Trigger)
    case Terminate => Some(Terminate)
    case _ => None
  }

  // ------------------------------------------------------------------- state

  /** `Dropping` is a clone whose `Drop` has detached it but whose receiver is still there. */
  datatype Phase = Live | Dropping | Gone

  /**
   `since`, `taken` and `dropped` are history: how much had been forwarded when
   the clone was made, what it has taken, and whether a full queue cost it a command.
   */
  datatype Clone = Clone(queue: seq<Command>, phase: Phase, detached: bool, since: nat, taken: seq<Command>, dropped: bool)

  /** The walk over the senders: the snapshot it holds, and the part still to be visited. */
  datatype Walk = Idle | Busy(cmd: Command, guard: set<Id>, todo: set<Id>, closedFound: bool)

  /** `log` is history: everything the root has forwarded. */
  datatype State = State(
    rootAlive: bool,
    rootQueue: seq<Command>,
    senders: set<Id>,
    walk: Walk,
    clones: map<Id, Clone>,
    panicked: bool,
    log: seq<Command>)

  function Init(): State {
    State(true, [], {}, Idle, map[], false, [])
  }

  datatype Step =
    | CloneGate(from: Option<Id>, id: Id)
    | Detach(id: Id)
    | DropClone(id: Id)
    | FreeClone(id: Id)
    | DropRoot
    | AgentSend(cmd: Command)
    | RootTake
    | NotifyOne(id: Id)
    | NotifyEnd
    | CloneTake(id: Id)

  predicate IsLive(s: State, id: Id) {
    id in s.clones && s.clones[id].phase == Live
  }

  predicate Enabled(s: State, step: Step) {
    match step
    case CloneGate(from, id) =>
      id !in s.clones && (match from case None => s.rootAlive case Some(p) => IsLive(s, p))
    case Detach(id) => IsLive(s, id)
    case DropClone(id) => IsLive(s, id)
    case FreeClone(id) => id in s.clones && s.clones[id].phase == Dropping
    case DropRoot => s.rootAlive && s.walk.Idle?
    case AgentSend(cmd) => s.rootAlive && FromAgent(cmd) && |s.rootQueue| < QUEUE
    case RootTake => s.rootAlive && s.walk.Idle? && s.rootQueue != []
    case NotifyOne(id) => s.walk.Busy? && id in s.walk.todo && id in s.clones
    case NotifyEnd => s.walk.Busy? && s.walk.todo == {}
    case CloneTake(id) => IsLive(s, id) && s.clones[id].queue != []
  }

  function Removed(s: State, id: Id, c: Clone): State {
    s.(senders := s.senders - {id}, clones := s.clones[id := c])
  }

  /** `process` on the root up to the point where it starts to notify. */
  function Take(s: State): State
    requires s.rootQueue != []
  {
    var cmd := s.rootQueue[0];
    var queue := if cmd.Reconfigure? then cmd.queue else s.rootQueue[1..];
    var t := s.(rootQueue := queue, panicked := s.panicked || !RoleHolds(false, cmd));
    match Forwarded(cmd)
    case None => t
    case Some(f) => t.(walk := Busy(f, s.senders, s.senders, false), log := s.log + [f])
  }

  /** One iteration of the loop in `notify_clones`: `try_send` never waits. */
  function Visit(s: State, id: Id): State
    requires s.walk.Busy? && id in s.clones
  {
    var w := s.walk.(todo := s.walk.todo - {id});
    var c := s.clones[id];
    if !Clonable(w.cmd) then s.(panicked := true, walk := w)
    else if c.phase == Gone then s.(walk := w.(closedFound := true))
    else if |c.queue| >= QUEUE then s.(walk := w, clones := s.clones[id := c.(dropped := true)])
    else s.(walk := w, clones := s.clones[id := c.(queue := c.queue + [w.cmd])])
  }

  function Retained(s: State): set<Id> {
    set id | id in s.senders && id in s.clones && s.clones[id].phase != Gone
  }

  function Apply(s: State, step: Step): State
    requires Enabled(s, step)
  {
    match step
    case CloneGate(_, id) =>
      s.(clones := s.clones[id := Clone([], Live, false, |s.log|, [], false)],
         senders := if s.rootAlive then s.senders + {id} else s.senders)
    case Detach(id) => Removed(s, id, s.clones[id].(detached := true))
    case DropClone(id) => Removed(s, id, s.clones[id].(phase := Dropping))
    case FreeClone(id) => s.(clones := s.clones[id := s.clones[id].(phase := Gone)])
    case DropRoot => s.(rootAlive := false, senders := {})
    case AgentSend(cmd) => s.(rootQueue := s.rootQueue + [cmd])
    case RootTake => Take(s)
    case NotifyOne(id) => Visit(s, id)
    case NotifyEnd => s.(walk := Idle, senders := if s.walk.closedFound then Retained(s) else s.senders)
    case CloneTake(id) =>
      var c := s.clones[id];
      s.(clones := s.clones[id := c.(queue := c.queue[1..], taken := c.taken + [c.queue[0]])],
         panicked := s.panicked || !RoleHolds(true, c.queue[0]))
  }

  predicate Runs(s: State, steps: seq<Step>, s': State)
    decreases |steps|
  {
    if steps == [] then s == s'
    else Enabled(s, steps[0]) && Runs(Apply(s, steps[0]), steps[1..], s')
  }

  /** The root does not process a Trigger while a clone is registered. */
  predicate Untriggered(s: State, step: Step) {
    step.RootTake? && s.rootQueue != [] && s.rootQueue[0].Trigger? ==> s.senders == {}
  }

  predicate RunsUntriggered(s: State, steps: seq<Step>, s': State)
    decreases |steps|
  {
    if steps == [] then s == s'
    else && Enabled(s, steps[0]) && Untriggered(s, steps[0])
         && RunsUntriggered(Apply(s, steps[0]), steps[1..], s')
  }

  // --------------------------------------------------------------- invariant

  /** While the root lives, its sender map holds exactly the live clones that have not detached. */
  predicate Registered(s: State, id: Id) {
    s.rootAlive ==> (id in s.senders <==> IsLive(s, id) && !s.clones[id].detached)
  }

  predicate FromRoot(queue: seq<Command>) {
    |queue| <= QUEUE && forall i :: 0 <= i < |queue| ==> Clonable(queue[i])
  }

  predicate QueueOk(s: State, id: Id) {
    id in s.clones ==> FromRoot(s.clones[id].queue)
  }

  predicate WalkOk(s: State) {
    match s.walk
    case Idle => true
    case Busy(cmd, guard, todo, _) =>
      && s.rootAlive && todo <= guard <= s.clones.Keys && (Clonable(cmd) || cmd.Trigger?)
      && s.log != [] && cmd == s.log[|s.log| - 1]
  }

  /** How much of the log a clone should have been given by now. */
  function Due(s: State, id: Id): nat {
    if s.walk.Busy? && id in s.walk.todo && s.log != [] then |s.log| - 1 else |s.log|
  }

  /** A clone that stayed registered and lost nothing was given the log from where it joined, in order. */
  predicate Delivered(s: State, id: Id) {
    IsLive(s, id) && !s.clones[id].detached && !s.clones[id].dropped && !s.panicked ==>
      var c := s.clones[id];
      c.since <= Due(s, id) && c.taken + c.queue == s.log[c.since..Due(s, id)]
  }

  predicate AgentQueue(queue: seq<Command>) {
    |queue| <= QUEUE && forall i :: 0 <= i < |queue| ==> FromAgent(queue[i])
  }

  ghost predicate Inv(s: State) {
    && (forall id :: Registered(s, id))
    && (forall id :: QueueOk(s, id))
    && (forall id :: Delivered(s, id))
    && WalkOk(s)
    && AgentQueue(s.rootQueue)
    && s.senders <= s.clones.Keys
    && (!s.rootAlive ==> s.senders == {})
  }

  lemma LogGrows(log: seq<Command>, f: Command, i: nat)
    requires i <= |log|
    ensures (log + [f])[i..|log|] == log[i..]
    ensures (log + [f])[i..] == log[i..] + [f]
  {
  }

  lemma TakeKeepsInv(s: State)
    requires Inv(s) && s.rootAlive && s.walk.Idle? && s.rootQueue != []
    ensures Inv(Take(s))
    ensures Take(s).panicked == s.panicked
  {
    var s' := Take(s);
    assert FromAgent(s.rootQueue[0]);
    assert AgentQueue(s'.rootQueue);
    forall id ensures Registered(s', id) && QueueOk(s', id) && Delivered(s', id) {
      assert Registered(s, id) && QueueOk(s, id) && Delivered(s, id);
      if s'.walk.Busy? && id in s.clones && s.clones[id].since <= |s.log| {
        LogGrows(s.log, s'.walk.cmd, s.clones[id].since);
      }
    }
  }

  /** The visited clone has been given one command more of the log, or has lost one. */
  lemma VisitDelivers(s: State, id: Id)
    requires s.walk.Busy? && id in s.walk.todo && id in s.clones && WalkOk(s)
    requires Registered(s, id) && QueueOk(s, id) && Delivered(s, id)
    ensures Registered(Visit(s, id), id) && QueueOk(Visit(s, id), id) && Delivered(Visit(s, id), id)
  {
    var c, last := s.clones[id], |s.log| - 1;
    Assoc(c.taken, c.queue, [s.walk.cmd]);
    if c.since <= last {
      LogGrows(s.log[..last], s.walk.cmd, c.since);
      assert s.log[..last] + [s.walk.cmd] == s.log && s.log[..last][c.since..] == s.log[c.since..last];
    }
  }

  lemma VisitSpares(s: State, id: Id, k: Id)
    requires s.walk.Busy? && id in s.clones && k != id
    requires Registered(s, k) && QueueOk(s, k) && Delivered(s, k)
    ensures Registered(Visit(s, id), k) && QueueOk(Visit(s, id), k) && Delivered(Visit(s, id), k)
  {
  }

  lemma VisitKeepsInv(s: State, id: Id)
    requires Inv(s) && s.walk.Busy? && id in s.walk.todo && id in s.clones
    ensures Inv(Visit(s, id))
    ensures Visit(s, id).panicked == (s.panicked || s.walk.cmd.Trigger?)
  {
    var s' := Visit(s, id);
    forall k ensures Registered(s', k) && QueueOk(s', k) && Delivered(s', k) {
      assert Registered(s, k) && QueueOk(s, k) && Delivered(s, k);
      if k == id {
        VisitDelivers(s, id);
      } else {
        VisitSpares(s, id, k);
      }
    }
    assert s'.clones.Keys == s.clones.Keys;
  }

  /** A sender is only ever removed by its own clone: the sweep for closed channels finds nothing. */
  lemma SweepFindsNothing(s: State)
    requires Inv(s) && s.rootAlive
    ensures Retained(s) == s.senders
  {
    forall id | id in s.senders ensures id in Retained(s) {
      assert Registered(s, id);
    }
  }

  /** The steps of clones and agents. */
  lemma OwnStepKeepsInv(s: State, step: Step)
    requires Inv(s) && Enabled(s, step)
    requires step.CloneGate? || step.Detach? || step.DropClone? || step.FreeClone? || step.DropRoot?
    ensures Inv(Apply(s, step)) && Apply(s, step).panicked == s.panicked
  {
    var s' := Apply(s, step);
    forall id ensures Registered(s', id) && QueueOk(s', id) && Delivered(s', id) {
      assert Registered(s, id) && QueueOk(s, id) && Delivered(s, id);
    }
    assert s.clones.Keys <= s'.clones.Keys;
  }

  lemma CloneTakeKeepsInv(s: State, id: Id)
    requires Inv(s) && Enabled(s, CloneTake(id))
    ensures Inv(Apply(s, CloneTake(id))) && Apply(s, CloneTake(id)).panicked == s.panicked
  {
    var s' := Apply(s, CloneTake(id));
    assert QueueOk(s, id);
    assert Clonable(s.clones[id].queue[0]);
    assert FromRoot(s.clones[id].queue[1..]);
    forall k ensures Registered(s', k) && QueueOk(s', k) && Delivered(s', k) {
      assert Registered(s, k) && QueueOk(s, k) && Delivered(s, k);
    }
    assert s'.clones.Keys == s.clones.Keys;
  }

  lemma EndKeepsInv(s: State, step: Step)
    requires Inv(s) && Enabled(s, step) && (step.NotifyEnd? || step.AgentSend?)
    ensures Inv(Apply(s, step)) && Apply(s, step).panicked == s.panicked
  {
    var s' := Apply(s, step);
    if step.NotifyEnd? {
      SweepFindsNothing(s);
    }
    forall id ensures Registered(s', id) && QueueOk(s', id) && Delivered(s', id) {
      assert Registered(s, id) && QueueOk(s, id) && Delivered(s, id);
    }
  }

  /** Every step keeps the invariant; the only one that can panic is forwarding a Trigger to a clone. */
  lemma StepKeepsInv(s: State, step: Step)
    requires Inv(s) && Enabled(s, step)
    ensures Inv(Apply(s, step))
    ensures Apply(s, step).panicked == (s.panicked || (step.NotifyOne? && s.walk.cmd.Trigger?))
  {
    match step
    case RootTake => TakeKeepsInv(s);
    case NotifyOne(id) => VisitKeepsInv(s, id);
    case CloneTake(id) => CloneTakeKeepsInv(s, id);
    case NotifyEnd => EndKeepsInv(s, step);
    case AgentSend(_) => EndKeepsInv(s, step);
    case _ => OwnStepKeepsInv(s, step);
  }

  lemma {:induction false} RunKeepsInv(s: State, steps: seq<Step>, s': State)
    requires Inv(s) && Runs(s, steps, s')
    ensures Inv(s')
    decreases |steps|
  {
    if steps != [] {
      StepKeepsInv(s, steps[0]);
      RunKeepsInv(Apply(s, steps[0]), steps[1..], s');
    }
  }

  // ---------------------------------------------------------------- theorems

  /**
   In every run the root's sender map is exactly the set of live clones that
   have not detached, clones of clones included, and no queue outgrows its channel.
   */
  lemma EveryLiveCloneIsRegistered(steps: seq<Step>, s: State, id: Id)
    requires Runs(Init(), steps, s) && s.rootAlive
    ensures id in s.senders <==> IsLive(s, id) && !s.clones[id].detached
    ensures id in s.clones ==> |s.clones[id].queue| <= QUEUE
  {
    RunKeepsInv(Init(), steps, s);
    assert Registered(s, id) && QueueOk(s, id);
  }

  /** Between walks, a live clone that stayed registered has had every forwarded command in order, unless its queue was full for one. */
  lemma DeliveredInOrder(steps: seq<Step>, s: State, id: Id)
    requires Runs(Init(), steps, s) && !s.panicked && s.walk.Idle?
    requires IsLive(s, id) && !s.clones[id].detached && !s.clones[id].dropped
    ensures s.clones[id].since <= |s.log|
    ensures s.clones[id].taken + s.clones[id].queue == s.log[s.clones[id].since..]
  {
    RunKeepsInv(Init(), steps, s);
    assert Delivered(s, id);
  }

  predicate Harmless(s: State) {
    !s.panicked && (s.walk.Busy? && s.walk.cmd.Trigger? ==> s.walk.todo == {})
  }

  lemma {:induction false} UntriggeredRunIsHarmless(s: State, steps: seq<Step>, s': State)
    requires Inv(s) && Harmless(s) && RunsUntriggered(s, steps, s')
    ensures Inv(s') && Harmless(s')
    decreases |steps|
  {
    if steps != [] {
      var t := Apply(s, steps[0]);
      StepKeepsInv(s, steps[0]);
      assert Harmless(t);
      UntriggeredRunIsHarmless(t, steps[1..], s');
    }
  }

  /** No role assertion and no unclonable command, unless a Trigger is processed while a clone is registered. */
  lemma NoAssertionFails(steps: seq<Step>, s: State)
    requires RunsUntriggered(Init(), steps, s)
    ensures !s.panicked
  {
    UntriggeredRunIsHarmless(Init(), steps, s);
  }

  /** A Trigger processed while a clone is registered does panic. */
  lemma TriggerPanicsExactlyWhen(s: State, id: Id)
    requires Inv(s) && !s.panicked && Enabled(s, RootTake) && s.rootQueue[0].Trigger?
    ensures id in s.senders <==>
      && Enabled(Apply(s, RootTake), NotifyOne(id))
      && Apply(Apply(s, RootTake), NotifyOne(id)).panicked
  {
    assert Registered(s, id);
    var t := Apply(s, RootTake);
    TakeKeepsInv(s);
  }

  // ------------------------------------------------------------ after the root

  /** What `recv` gives a clone: its channel is closed once no sender is left in the map or in a snapshot. */
  datatype Received = Message(cmd: Command) | Waiting | Closed

  predicate HasSender(s: State, id: Id) {
    id in s.senders || (s.walk.Busy? && id in s.walk.guard)
  }

  function Receive(s: State, id: Id): Received
    requires id in s.clones
  {
    var q := s.clones[id].queue;
    if q != [] then Message(q[0]) else if HasSender(s, id) then Waiting else Closed
  }

  function Takes(steps: seq<Step>, id: Id): nat {
    if steps == [] then 0 else (if steps[0] == CloneTake(id) then 1 else 0) + Takes(steps[1..], id)
  }

  function Pending(s: State, id: Id): nat {
    if id in s.clones then |s.clones[id].queue| else 0
  }

  lemma {:induction false} NothingArrives(s: State, steps: seq<Step>, s': State, id: Id)
    requires Inv(s) && !s.rootAlive && Runs(s, steps, s')
    ensures !s'.rootAlive && Pending(s', id) + Takes(steps, id) == Pending(s, id)
    decreases |steps|
  {
    if steps != [] {
      StepKeepsInv(s, steps[0]);
      NothingArrives(Apply(s, steps[0]), steps[1..], s', id);
    }
  }

  /**
   Once the root is gone no clone ever waits: it takes at most its queued commands,
   never more than sixteen, and then finds its channel closed. A clone made after
   the root was dropped finds it closed at once.
   */
  lemma ClonesTerminateAfterRoot(before: seq<Step>, s: State, after: seq<Step>, s': State, id: Id)
    requires Runs(Init(), before, s) && !s.rootAlive
    requires Runs(s, after, s') && id in s'.clones
    ensures Takes(after, id) <= Pending(s, id) <= QUEUE
    ensures Receive(s', id) != Waiting
    ensures Receive(s', id) == Closed <==> Takes(after, id) == Pending(s, id)
    ensures id !in s.clones ==> Receive(s', id) == Closed
  {
    RunKeepsInv(Init(), before, s);
    RunKeepsInv(s, after, s');
    NothingArrives(s, after, s', id);
    assert QueueOk(s, id);
  }
}
