/**
 The ingress register: one locked map that many tasks edit. Each method holds
 the lock for its whole body, so it is one atomic step; the theorems are about
 every interleaving of such steps.
 */
module IngressRegister {
  import opened Prelude

  type Id = x: int | 0 <= x < 0x1_0000_0000
  type u64 = x: int | 0 <= x < 0x1_0000_0000_0000_0000
  const MAX: u64 := 0xffff_ffff_ffff_ffff

  datatype IngressType = Bmp | BgpViaBmp | Bgp | Mrt | Rtr | BgpPath
  datatype IngressState = Connected | Disconnected | NonNetwork

  /** The fields that some method reads; every other optional field is an entry of `other`. */
  datatype Info = Info(
    ingressType: Option<IngressType>,
    parent: Option<Id>,
    state: Option<IngressState>,
    remoteAddr: Option<string>,
    remoteAsn: Option<nat>,
    ribType: Option<nat>,
    peerRibType: Option<nat>,
    peerType: Option<nat>,
    distinguisher: Option<bytes>,
    vrfName: Option<string>,
    name: Option<string>,
    pathId: Option<nat>,
    other: map<string, string>,
    activity: u64,     // path_activity
    generation: u64,   // history_generation
    revision: u64)     // history_revision

  datatype Reg = Reg(serial: Id, info: map<Id, Info>)

  function Bump(n: u64): (m: u64)
    ensures n <= m && (n < m || m == MAX)
  {
    if n == MAX then MAX else n + 1
  }

  function Newer<T>(old_: Option<T>, new_: Option<T>): Option<T> {
    if new_.Some? then new_ else old_
  }

  /** The merge that `update_info` does: set fields of `n` replace those of `o`. */
  function Merge(o: Info, n: Info): Info {
    Info(Newer(o.ingressType, n.ingressType), Newer(o.parent, n.parent), Newer(o.state, n.state),
         Newer(o.remoteAddr, n.remoteAddr), Newer(o.remoteAsn, n.remoteAsn), Newer(o.ribType, n.ribType),
         Newer(o.peerRibType, n.peerRibType), Newer(o.peerType, n.peerType),
         Newer(o.distinguisher, n.distinguisher), Newer(o.vrfName, n.vrfName), Newer(o.name, n.name),
         Newer(o.pathId, n.pathId), o.other + n.other,
         o.activity,
         if n.state == Some(Connected) && o.state != Some(Connected) then Bump(o.generation) else o.generation,
         Bump(o.revision))
  }

  /** What a claim does to the entry it found. */
  function Claimed(o: Info): Info {
    o.(state := Some(Connected), generation := Bump(o.generation), revision := Bump(o.revision))
  }

  function Down(o: Info): Info {
    o.(state := Some(Disconnected), revision := Bump(o.revision))
  }

  predicate Same<T(==)>(a: Option<T>, b: Option<T>) {
    a.Some? && a == b
  }

  predicate MatchesSession(o: Info, q: Info) {
    Same(o.remoteAddr, q.remoteAddr) && Same(o.remoteAsn, q.remoteAsn) && Same(o.ingressType, q.ingressType)
  }

  predicate MatchesPeer(o: Info, q: Info) {
    && o.state != Some(Connected)
    && Same(o.parent, q.parent) && Same(o.remoteAddr, q.remoteAddr) && Same(o.remoteAsn, q.remoteAsn)
    && o.ribType == q.ribType && o.peerRibType == q.peerRibType && o.peerType == q.peerType
    && o.distinguisher == q.distinguisher && o.vrfName == q.vrfName
  }

  predicate MatchesPath(o: Info, parent: Id, pathId: nat) {
    && o.state != Some(Connected)
    && o.ingressType == Some(BgpPath) && o.parent == Some(parent) && o.pathId == Some(pathId)
  }

  predicate MatchesRouter(o: Info, q: Info) {
    && o.state != Some(Connected)
    && Same(o.parent, q.parent) && Same(o.remoteAddr, q.remoteAddr) && Same(o.ingressType, q.ingressType)
    && o.name == q.name
  }

  // ------------------------------------------------------------------- steps

  /** `hit` is the entry that the claim's iteration met first, in whatever order the map gives them. */
  datatype Step =
    | NewId
    | UpdateInfo(id: Id, info: Info)
    | Remove(id: Id)
    | RemoveIfDisconnected(id: Id)
    | MarkDisconnected(id: Id)
    | Refresh(id: Id, parent: Id, pathId: nat)
    | Retire(id: Id, observed: u64)
    | ClaimSession(query: Info, hit: Option<Id>)
    | ClaimPeer(query: Info, hit: Option<Id>)
    | ClaimPath(parent: Id, pathId: nat, hit: Option<Id>)
    | ClaimRouter(query: Info, hit: Option<Id>)

  predicate Eligible(step: Step, o: Info) {
    match step
    case ClaimSession(q, _) => MatchesSession(o, q)
    case ClaimPeer(q, _) => MatchesPeer(o, q)
    case ClaimPath(p, n, _) => MatchesPath(o, p, n)
    case ClaimRouter(q, _) => MatchesRouter(o, q)
    case _ => false
  }

  predicate IsClaim(step: Step) {
    step.ClaimSession? || step.ClaimPeer? || step.ClaimPath? || step.ClaimRouter?
  }

  /** A claim hits an eligible entry if there is one. */
  ghost predicate Enabled(r: Reg, step: Step) {
    IsClaim(step) ==>
      match step.hit
      case Some(id) => id in r.info && Eligible(step, r.info[id])
      case None => forall id :: id in r.info ==> !Eligible(step, r.info[id])
  }

  predicate Refreshes(r: Reg, id: Id, parent: Id, pathId: nat) {
    && id in r.info
    && r.info[id].ingressType == Some(BgpPath) && r.info[id].parent == Some(parent) && r.info[id].pathId == Some(pathId)
  }

  predicate Retires(r: Reg, id: Id, observed: u64) {
    && id in r.info
    && r.info[id].ingressType == Some(BgpPath) && r.info[id].state == Some(Connected)
    && r.info[id].activity == observed && observed != MAX
  }

  function Put(r: Reg, id: Id, o: Info): Reg {
    r.(info := r.info[id := o])
  }

  function Apply(r: Reg, step: Step): Reg
  {
    match step
    case NewId => r.(serial := (r.serial + 1) % 0x1_0000_0000)
    case UpdateInfo(id, n) => Put(r, id, if id in r.info then Merge(r.info[id], n) else n)
    case Remove(id) => r.(info := r.info - {id})
    case RemoveIfDisconnected(id) =>
      if id in r.info && r.info[id].state == Some(Disconnected) then r.(info := r.info - {id}) else r
    case MarkDisconnected(id) => if id in r.info then Put(r, id, Down(r.info[id])) else r
    case Refresh(id, p, n) =>
      if Refreshes(r, id, p, n)
      then Put(r, id, r.info[id].(activity := Bump(r.info[id].activity), state := Some(Connected)))
      else r
    case Retire(id, a) => if Retires(r, id, a) then Put(r, id, Down(r.info[id])) else r
    case _ =>
      if step.hit == None || step.hit.value !in r.info then r
      else
        var o := Claimed(r.info[step.hit.value]);
        Put(r, step.hit.value, if step.ClaimPath? then o.(activity := Bump(o.activity)) else o)
  }

  ghost predicate Run(states: seq<Reg>, steps: seq<Step>) {
    && |states| == |steps| + 1
    && forall i :: 0 <= i < |steps| ==> Enabled(states[i], steps[i]) && states[i + 1] == Apply(states[i], steps[i])
  }

  /** The entry stays in the register from state `i` to state `j`. */
  ghost predicate Stays(states: seq<Reg>, id: Id, i: nat, j: nat) {
    forall k :: i <= k <= j && k < |states| ==> id in states[k].info
  }

  // --------------------------------------------------- retirement is not ABA

  /** The step records activity on the path child: a refresh that took effect, or a claim of it. */
  predicate Touches(r: Reg, step: Step, id: Id) {
    || (step.Refresh? && step.id == id && Refreshes(r, id, step.parent, step.pathId))
    || (step.ClaimPath? && step.hit == Some(id))
  }

  ghost predicate TouchedWithin(states: seq<Reg>, steps: seq<Step>, id: Id, i: nat, j: nat) {
    exists k :: i <= k < j && k < |steps| && k < |states| && Touches(states[k], steps[k], id)
  }

  lemma ActivityOfStep(r: Reg, step: Step, id: Id)
    requires Enabled(r, step) && id in r.info && id in Apply(r, step).info
    ensures Apply(r, step).info[id].activity
         == if Touches(r, step, id) then Bump(r.info[id].activity) else r.info[id].activity
  {
  }

  /** Activity never falls while an entry stays, and a touch shows unless the counter has saturated. */
  lemma {:induction false} ActivityOfRun(states: seq<Reg>, steps: seq<Step>, id: Id, i: nat, j: nat)
    requires Run(states, steps) && i <= j < |states| && Stays(states, id, i, j)
    ensures var a, b := states[i].info[id].activity, states[j].info[id].activity;
      && a <= b
      && (TouchedWithin(states, steps, id, i, j) ==> a < b || b == MAX)
      && (!TouchedWithin(states, steps, id, i, j) ==> a == b)
    decreases j - i
  {
    if i < j {
      var m := j - 1;
      ActivityOfRun(states, steps, id, i, m);
      assert states[j] == Apply(states[m], steps[m]);
      ActivityOfStep(states[m], steps[m], id);
      if Touches(states[m], steps[m], id) {
        assert TouchedWithin(states, steps, id, i, j);
      } else if TouchedWithin(states, steps, id, i, j) {
        var k :| i <= k < j && k < |steps| && Touches(states[k], steps[k], id);
        assert k < m;
      }
    }
  }

  /**
   No ABA: an entry that stayed in the register since its activity was
   observed is retired exactly when nothing touched it since, it is a connected
   path child, and the observed count is not the saturated one.
   */
  lemma RetirementSeesEveryTouch(states: seq<Reg>, steps: seq<Step>, id: Id, i: nat, j: nat)
    requires Run(states, steps) && i <= j < |states| && Stays(states, id, i, j)
    ensures var a := states[i].info[id].activity;
      Retires(states[j], id, a) <==>
        && !TouchedWithin(states, steps, id, i, j)
        && states[j].info[id].ingressType == Some(BgpPath) && states[j].info[id].state == Some(Connected)
        && a != MAX
  {
    ActivityOfRun(states, steps, id, i, j);
  }

  function Child(state: IngressState): Info {
    Info(Some(BgpPath), Some(1), Some(state), None, None, None, None, None, None, None, None, Some(7), map[], 0, 0, 0)
  }

  /** The entry has to stay: removed and registered again, it is retired in spite of a touch. */
  lemma ReinsertionIsNotSeen() returns (states: seq<Reg>, steps: seq<Step>)
    ensures Run(states, steps) && |steps| == 3
    ensures 5 in states[0].info && TouchedWithin(states, steps, 5, 0, 3)
    ensures Retires(states[3], 5, states[0].info[5].activity)
  {
    var r0 := Reg(9, map[5 := Child(Connected)]);
    steps := [Refresh(5, 1, 7), Remove(5), UpdateInfo(5, Child(Connected))];
    var r1 := Apply(r0, steps[0]);
    var r2 := Apply(r1, steps[1]);
    var r3 := Apply(r2, steps[2]);
    states := [r0, r1, r2, r3];
    assert Touches(states[0], steps[0], 5);
    assert r2.info == map[];
  }

  // ---------------------------------------------------- claims are exclusive

  /** The three claims that skip connected entries. */
  predicate ClaimsIdle(step: Step, id: Id) {
    (step.ClaimPeer? || step.ClaimPath? || step.ClaimRouter?) && step.hit == Some(id)
  }

  predicate IsConnected(r: Reg, id: Id) {
    id in r.info && r.info[id].state == Some(Connected)
  }

  /** The steps that can take an entry out of the connected state. */
  predicate Releases(r: Reg, step: Step, id: Id) {
    || step == MarkDisconnected(id)
    || step == Remove(id)
    || (step.Retire? && step.id == id && Retires(r, id, step.observed))
    || (step.UpdateInfo? && step.id == id && step.info.state.Some? && step.info.state != Some(Connected))
  }

  lemma OnlyReleasesDisconnect(r: Reg, step: Step, id: Id)
    requires Enabled(r, step) && IsConnected(r, id) && !Releases(r, step, id)
    ensures IsConnected(Apply(r, step), id)
  {
  }

  lemma {:induction false} StaysConnected(states: seq<Reg>, steps: seq<Step>, id: Id, i: nat, j: nat)
    requires Run(states, steps) && i <= j < |states| && IsConnected(states[i], id)
    requires forall k :: i <= k < j ==> !Releases(states[k], steps[k], id)
    ensures IsConnected(states[j], id)
    decreases j - i
  {
    if i < j {
      StaysConnected(states, steps, id, i, j - 1);
      assert states[j] == Apply(states[j - 1], steps[j - 1]);
      OnlyReleasesDisconnect(states[j - 1], steps[j - 1], id);
    }
  }

  predicate Claims(step: Step, id: Id) {
    IsClaim(step) && step.hit == Some(id)
  }

  ghost predicate ReleasedBetween(states: seq<Reg>, steps: seq<Step>, id: Id, i: nat, j: nat) {
    exists k :: i < k < j && k < |steps| && k < |states| && Releases(states[k], steps[k], id)
  }

  /** After a claim, with no release since, the id is registered and connected, whatever collections ran. */
  lemma ClaimedStaysConnected(states: seq<Reg>, steps: seq<Step>, id: Id, i: nat, j: nat)
    requires Run(states, steps) && i < j < |states| && Claims(steps[i], id)
    requires !ReleasedBetween(states, steps, id, i, j)
    ensures IsConnected(states[j], id)
  {
    assert Enabled(states[i], steps[i]) && states[i + 1] == Apply(states[i], steps[i]);
    StaysConnected(states, steps, id, i + 1, j);
  }

  /**
   Two claims of one id, of any kinds: a step between them released it, or the
   later one is a session claim that found the entry connected.
   */
  lemma ClaimedAgainExactlyWhen(states: seq<Reg>, steps: seq<Step>, id: Id, i: nat, j: nat)
    requires Run(states, steps) && i < j < |steps| && Claims(steps[i], id) && Claims(steps[j], id)
    ensures ReleasedBetween(states, steps, id, i, j) || (steps[j].ClaimSession? && IsConnected(states[j], id))
    ensures IsConnected(states[j], id) ==> steps[j].ClaimSession?
  {
    assert Enabled(states[j], steps[j]);
    if !ReleasedBetween(states, steps, id, i, j) {
      ClaimedStaysConnected(states, steps, id, i, j);
    }
  }

  /** Two claims that skip connected entries never hold one id at a time: between them lies a step that released it. */
  lemma ClaimsAreExclusive(states: seq<Reg>, steps: seq<Step>, id: Id, i: nat, j: nat)
    requires Run(states, steps) && i < j < |steps|
    requires Claims(steps[i], id) && ClaimsIdle(steps[j], id)
    ensures ReleasedBetween(states, steps, id, i, j)
  {
    ClaimedAgainExactlyWhen(states, steps, id, i, j);
  }

  /** The session claim is the exception: it hands out a connected entry again. */
  lemma SessionClaimIsNotExclusive() returns (states: seq<Reg>, steps: seq<Step>)
    ensures Run(states, steps) && |steps| == 2
    ensures forall k :: 0 <= k < 2 ==> steps[k].ClaimSession? && steps[k].hit == Some(5) && !Releases(states[k], steps[k], 5)
    ensures IsConnected(states[1], 5)
  {
    var o := Child(Disconnected).(ingressType := Some(Bgp), remoteAddr := Some("a"), remoteAsn := Some(1));
    var r0 := Reg(9, map[5 := o]);
    steps := [ClaimSession(o, Some(5)), ClaimSession(o, Some(5))];
    var r1 := Apply(r0, steps[0]);
    states := [r0, r1, Apply(r1, steps[1])];
  }

  // -------------------------------------------------------------- generations

  lemma GenerationOfStep(r: Reg, step: Step, id: Id)
    requires Enabled(r, step) && id in r.info && id in Apply(r, step).info
    ensures var g, g' := r.info[id].generation, Apply(r, step).info[id].generation;
      && g <= g'
      && (IsClaim(step) && step.hit == Some(id) && g < MAX ==> g < g')
      && (g < g' ==> IsConnected(Apply(r, step), id))
  {
  }

  /** While an entry stays its generation never falls, and every claim of it below the maximum raises it. */
  lemma {:induction false} GenerationOfRun(states: seq<Reg>, steps: seq<Step>, id: Id, i: nat, j: nat)
    requires Run(states, steps) && i <= j < |states| && Stays(states, id, i, j)
    ensures var g, g' := states[i].info[id].generation, states[j].info[id].generation;
      && g <= g'
      && ((exists k :: i <= k < j && IsClaim(steps[k]) && steps[k].hit == Some(id)) ==> g < g' || g' == MAX)
    decreases j - i
  {
    if i < j {
      var m := j - 1;
      GenerationOfRun(states, steps, id, i, m);
      assert Enabled(states[m], steps[m]) && states[j] == Apply(states[m], steps[m]);
      GenerationOfStep(states[m], steps[m], id);
    }
  }

  // ---------------------------------------------------------------- revisions

  predicate Revises(r: Reg, step: Step, id: Id) {
    || (step.UpdateInfo? && step.id == id)
    || step == MarkDisconnected(id)
    || (step.Retire? && step.id == id && Retires(r, id, step.observed))
    || (IsClaim(step) && step.hit == Some(id))
  }

  ghost predicate RevisedWithin(states: seq<Reg>, steps: seq<Step>, id: Id, i: nat, j: nat) {
    exists k :: i <= k < j && k < |steps| && k < |states| && Revises(states[k], steps[k], id)
  }

  lemma RevisionOfStep(r: Reg, step: Step, id: Id)
    requires Enabled(r, step) && id in r.info && id in Apply(r, step).info
    ensures Apply(r, step).info[id].revision
         == if Revises(r, step, id) then Bump(r.info[id].revision) else r.info[id].revision
    ensures !Revises(r, step, id) && r.info[id].ingressType != Some(BgpPath) ==> Apply(r, step).info[id] == r.info[id]
  {
  }

  /**
   While an entry stays its revision never falls and shows every edit, unless
   saturated; an entry that is not a path child is unchanged without one.
   */
  lemma {:induction false} RevisionOfRun(states: seq<Reg>, steps: seq<Step>, id: Id, i: nat, j: nat)
    requires Run(states, steps) && i <= j < |states| && Stays(states, id, i, j)
    ensures var o, o' := states[i].info[id], states[j].info[id];
      && o.revision <= o'.revision
      && (RevisedWithin(states, steps, id, i, j) ==> o.revision < o'.revision || o'.revision == MAX)
      && (!RevisedWithin(states, steps, id, i, j) && o.ingressType != Some(BgpPath) ==> o' == o)
    decreases j - i
  {
    if i < j {
      var m := j - 1;
      RevisionOfRun(states, steps, id, i, m);
      assert states[j] == Apply(states[m], steps[m]);
      RevisionOfStep(states[m], steps[m], id);
      if Revises(states[m], steps[m], id) {
        assert RevisedWithin(states, steps, id, i, j);
      } else if RevisedWithin(states, steps, id, i, j) {
        var k :| i <= k < j && k < |steps| && Revises(states[k], steps[k], id);
        assert k < m;
      }
    }
  }

  // ------------------------------------------------------- garbage collection

  /** The reclaim step removes an entry exactly when it is disconnected at that moment, and touches no other. */
  lemma ReclaimOnlyDisconnected(r: Reg, id: Id)
    ensures var r' := Apply(r, RemoveIfDisconnected(id));
      && (id in r.info ==> (id !in r'.info <==> r.info[id].state == Some(Disconnected)))
      && forall m :: m != id ==> (m in r'.info <==> m in r.info) && (m in r.info ==> r'.info[m] == r.info[m])
  {
  }

  // ----------------------------------------------------------------- fresh ids

  function NewIds(steps: seq<Step>, n: nat): nat
    requires n <= |steps|
  {
    if n == 0 then 0 else NewIds(steps, n - 1) + if steps[n - 1] == NewId then 1 else 0
  }

  lemma {:induction false} SerialOfRun(states: seq<Reg>, steps: seq<Step>, n: nat)
    requires Run(states, steps) && n <= |steps|
    ensures states[n].serial == (states[0].serial + NewIds(steps, n)) % 0x1_0000_0000
  {
    if n > 0 {
      SerialOfRun(states, steps, n - 1);
      assert states[n] == Apply(states[n - 1], steps[n - 1]);
      SerialOfStep(states[n - 1], steps[n - 1]);
      OneMore(states[0].serial + NewIds(steps, n - 1));
    }
  }

  lemma SerialOfStep(r: Reg, step: Step)
    ensures Apply(r, step).serial == if step == NewId then (r.serial + 1) % 0x1_0000_0000 else r.serial
  {
  }

  lemma OneMore(n: nat)
    ensures (n % 0x1_0000_0000 + 1) % 0x1_0000_0000 == (n + 1) % 0x1_0000_0000
  {
  }

  lemma SameRemainder(s: nat, a: nat, b: nat)
    ensures (s + a) % 0x1_0000_0000 == (s + b) % 0x1_0000_0000 <==> (b - a) % 0x1_0000_0000 == 0
  {
    var p, q := (s + a) / 0x1_0000_0000, (s + b) / 0x1_0000_0000;
    if (s + a) % 0x1_0000_0000 == (s + b) % 0x1_0000_0000 {
      assert b - a == 0x1_0000_0000 * (q - p);
    }
    if (b - a) % 0x1_0000_0000 == 0 {
      assert s + b == s + a + 0x1_0000_0000 * ((b - a) / 0x1_0000_0000);
    }
  }

  /** Two ids handed out are equal exactly when a whole turn of the 32-bit counter lies between them. */
  lemma IdsRepeatAfterAWholeTurn(states: seq<Reg>, steps: seq<Step>, i: nat, j: nat)
    requires Run(states, steps) && i <= j < |steps| && steps[i] == NewId && steps[j] == NewId
    ensures states[i].serial == states[j].serial
       <==> (NewIds(steps, j) - NewIds(steps, i)) % 0x1_0000_0000 == 0
  {
    SerialOfRun(states, steps, i);
    SerialOfRun(states, steps, j);
    SameRemainder(states[0].serial, NewIds(steps, i), NewIds(steps, j));
  }
}
