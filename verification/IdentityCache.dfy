/**
 The exporter's cache of peer identities. An identity is rendered from the
 register once and found again by session, generation and revisions; the
 theorems say when what is found is what would be rendered now.
 */
module IdentityCache {
  import opened Prelude
  import opened IngressRegister
  import MapSum

  function Entry(r: Reg, id: Id): Option<Info> {
    if id in r.info then Some(r.info[id]) else None
  }

  /** `with_history_info`: a path child stands for its session. */
  function SessionOf(r: Reg, id: Id): Id {
    match Entry(r, id)
    case Some(o) => if o.ingressType == Some(BgpPath) && o.parent.Some? then o.parent.value else id
    case None => id
  }

  function RouterOf(r: Reg, session: Id): Option<Info> {
    match Entry(r, session)
    case Some(o) => (match o.parent case Some(p) => Entry(r, p) case None => None)
    case None => None
  }

  datatype Key = Key(session: Id, generation: u64, revision: u64, routerRevision: u64)

  function KeyFor(r: Reg, session: Id): Key {
    var peer, router := Entry(r, session), RouterOf(r, session);
    Key(session,
        match peer case Some(o) => o.generation case None => 0,
        match peer case Some(o) => o.revision case None => 0,
        match router case Some(o) => o.revision case None => 0)
  }

  /** The fields that are serialised: the three internal counters are not. */
  function Shown(o: Option<Info>): Option<Info> {
    match o case None => None case Some(x) => Some(x.(activity := 0, generation := 0, revision := 0))
  }

  datatype Identity = Identity(session: Id, generation: u64, peer: Option<Info>, router: Option<Info>)

  /** What is rendered when the cache has nothing. */
  function Render(r: Reg, session: Id): Identity {
    Identity(session, KeyFor(r, session).generation, Shown(Entry(r, session)), Shown(RouterOf(r, session)))
  }

  // -------------------------------------------------------- keys and identities

  /** Present, not a path child, and not saturated. */
  predicate Plain(o: Option<Info>) {
    o.Some? ==> o.value.ingressType != Some(BgpPath) && o.value.revision < MAX
  }

  /** Once present, an entry is not removed. */
  ghost predicate Kept(states: seq<Reg>, id: Id, i: nat, j: nat) {
    i < |states| && id in states[i].info ==> Stays(states, id, i, j)
  }

  /** The session known at `i`, and its router then, are not removed; other entries may be. */
  ghost predicate SessionKept(states: seq<Reg>, session: Id, i: nat, j: nat)
    requires i < |states|
  {
    && Kept(states, session, i, j)
    && (Entry(states[i], session).Some? && states[i].info[session].parent.Some? ==>
          Kept(states, states[i].info[session].parent.value, i, j))
  }

  /** An entry present at both times with the same revision is the same entry. */
  lemma SameRevisionSameEntry(states: seq<Reg>, steps: seq<Step>, id: Id, i: nat, j: nat)
    requires Run(states, steps) && i <= j < |states| && Kept(states, id, i, j)
    requires id in states[i].info && Plain(Entry(states[j], id)) && Plain(Entry(states[i], id))
    requires states[i].info[id].revision == states[j].info[id].revision
    ensures states[i].info[id] == states[j].info[id]
  {
    RevisionOfRun(states, steps, id, i, j);
  }

  /**
   Equal keys at two times stand for the same identity exactly when the session
   and its router were known at both times or unknown at both.
   */
  lemma EqualKeysEqualIdentities(states: seq<Reg>, steps: seq<Step>, session: Id, i: nat, j: nat)
    requires Run(states, steps) && i <= j < |states| && KeyFor(states[i], session) == KeyFor(states[j], session)
    requires SessionKept(states, session, i, j)
    requires Plain(Entry(states[i], session)) && Plain(Entry(states[j], session))
    requires Plain(RouterOf(states[i], session)) && Plain(RouterOf(states[j], session))
    ensures Render(states[i], session) == Render(states[j], session) <==>
      && (Entry(states[i], session).Some? <==> Entry(states[j], session).Some?)
      && (RouterOf(states[i], session).Some? <==> RouterOf(states[j], session).Some?)
  {
    if Entry(states[i], session).Some? && Entry(states[j], session).Some? {
      SameRevisionSameEntry(states, steps, session, i, j);
      if RouterOf(states[i], session).Some? && RouterOf(states[j], session).Some? {
        SameRevisionSameEntry(states, steps, states[i].info[session].parent.value, i, j);
      }
    }
  }

  /** Unknown and just registered have the same key: the identity found then still says the peer is unknown. */
  lemma UnknownPeerIsRemembered() returns (states: seq<Reg>, steps: seq<Step>)
    ensures Run(states, steps) && |steps| == 1 && steps[0].UpdateInfo?
    ensures KeyFor(states[0], 5) == KeyFor(states[1], 5) && Render(states[0], 5) != Render(states[1], 5)
  {
    var o := Child(Connected).(ingressType := Some(Bgp), parent := None);
    steps := [UpdateInfo(5, o)];
    states := [Reg(9, map[]), Apply(Reg(9, map[]), steps[0])];
  }

  /** A session removed and registered again is found under the key it had before. */
  lemma ReregisteredPeerIsRemembered() returns (states: seq<Reg>, steps: seq<Step>)
    ensures Run(states, steps) && |steps| == 2 && steps[0] == Remove(5) && steps[1].UpdateInfo?
    ensures KeyFor(states[0], 5) == KeyFor(states[2], 5) && Render(states[0], 5) != Render(states[2], 5)
  {
    var o := Child(Connected).(ingressType := Some(Bgp), parent := None);
    steps := [Remove(5), UpdateInfo(5, o.(name := Some("b")))];
    var r0 := Reg(9, map[5 := o]);
    var r1 := Apply(r0, steps[0]);
    states := [r0, r1, Apply(r1, steps[1])];
  }

  // ---------------------------------------------------------------- the cache

  datatype Sys = Sys(reg: Reg, cache: map<Key, Identity>)

  /** `evicts` and `stores` are what the size limits decide. */
  datatype Op = Edit(step: Step) | Look(id: Id, evicts: bool, stores: bool)

  function Answer(s: Sys, id: Id): Identity {
    var session := SessionOf(s.reg, id);
    var key := KeyFor(s.reg, session);
    if key in s.cache then s.cache[key] else Render(s.reg, session)
  }

  function After(s: Sys, op: Op): Sys {
    match op
    case Edit(step) => s.(reg := Apply(s.reg, step))
    case Look(id, evicts, stores) =>
      var session := SessionOf(s.reg, id);
      var key := KeyFor(s.reg, session);
      if key in s.cache then s
      else
        var kept := if evicts then map[] else s.cache;
        s.(cache := if stores then kept[key := Render(s.reg, session)] else kept)
  }

  /** A lookup leaves the register as a retirement that is always refused does. */
  function StepOf(op: Op): Step {
    match op case Edit(step) => step case Look(_, _, _) => Retire(0, MAX)
  }

  ghost predicate CacheRun(states: seq<Sys>, ops: seq<Op>) {
    && |states| == |ops| + 1
    && states[0].cache == map[]
    && forall i :: 0 <= i < |ops| ==> Enabled(states[i].reg, StepOf(ops[i])) && states[i + 1] == After(states[i], ops[i])
  }

  function Regs(states: seq<Sys>): (r: seq<Reg>)
    ensures |r| == |states| && forall i :: 0 <= i < |r| ==> r[i] == states[i].reg
  {
    seq(|states|, i requires 0 <= i < |states| => states[i].reg)
  }

  function Steps(ops: seq<Op>): (r: seq<Step>)
    ensures |r| == |ops| && forall i :: 0 <= i < |r| ==> r[i] == StepOf(ops[i])
  {
    seq(|ops|, i requires 0 <= i < |ops| => StepOf(ops[i]))
  }

  lemma RegistersRun(states: seq<Sys>, ops: seq<Op>)
    requires CacheRun(states, ops)
    ensures Run(Regs(states), Steps(ops))
  {
    forall i | 0 <= i < |ops| ensures Regs(states)[i + 1] == Apply(Regs(states)[i], Steps(ops)[i]) {
      assert states[i + 1] == After(states[i], ops[i]);
    }
  }

  /** The session is known, and so is its router if it has one. */
  predicate Settled(r: Reg, session: Id) {
    && Entry(r, session).Some? && Plain(Entry(r, session)) && Plain(RouterOf(r, session))
    && (r.info[session].parent.Some? ==> RouterOf(r, session).Some?)
  }

  predicate LooksUp(s: Sys, op: Op, session: Id) {
    op.Look? && SessionOf(s.reg, op.id) == session
  }

  /** A cached identity was rendered by an earlier lookup of its session. */
  lemma {:induction false} CacheIsFromThePast(states: seq<Sys>, ops: seq<Op>, n: nat, key: Key) returns (i: nat)
    requires CacheRun(states, ops) && n < |states| && key in states[n].cache
    ensures i < n && LooksUp(states[i], ops[i], key.session)
    ensures KeyFor(states[i].reg, key.session) == key && Render(states[i].reg, key.session) == states[n].cache[key]
    decreases n
  {
    var s, op := states[n - 1], ops[n - 1];
    assert states[n] == After(s, op);
    if key in s.cache && states[n].cache[key] == s.cache[key] {
      i := CacheIsFromThePast(states, ops, n - 1, key);
    } else {
      i := n - 1;
    }
  }

  /** Every lookup of this session up to `n` was made while it was settled, and since then it was not removed. */
  ghost predicate Orderly(states: seq<Sys>, ops: seq<Op>, session: Id, n: nat)
    requires |states| == |ops| + 1
  {
    forall i :: 0 <= i <= n && i < |ops| && LooksUp(states[i], ops[i], session) ==>
      Settled(states[i].reg, session) && SessionKept(Regs(states), session, i, n)
  }

  /**
   The answer about a session that was settled whenever it was looked up, and
   not removed since, is what would be rendered from the register at that
   moment, whatever happened to other entries and whatever was evicted.
   */
  lemma AnswersAreCurrent(states: seq<Sys>, ops: seq<Op>, n: nat)
    requires CacheRun(states, ops) && n < |ops| && ops[n].Look?
    requires Orderly(states, ops, SessionOf(states[n].reg, ops[n].id), n)
    ensures Answer(states[n], ops[n].id) == Render(states[n].reg, SessionOf(states[n].reg, ops[n].id))
  {
    var session := SessionOf(states[n].reg, ops[n].id);
    var key := KeyFor(states[n].reg, session);
    if key in states[n].cache {
      var i := CacheIsFromThePast(states, ops, n, key);
      RegistersRun(states, ops);
      var regs := Regs(states);
      assert LooksUp(states[n], ops[n], session);
      SameRevisionSameEntry(regs, Steps(ops), session, i, n);
      EqualKeysEqualIdentities(regs, Steps(ops), session, i, n);
    }
  }

  // --------------------------------------------------------------- its bounds

  const MAX_ENTRIES: nat := 65536
  const MAX_BYTES: nat := 0x100_0000     // 16 MiB
  const MAX_IDENTITY: nat := 0x4_0000    // 256 KiB
  const OVERHEAD: nat := 128

  ghost function Weights(size: Identity -> nat, entries: map<Key, Identity>): map<Key, nat> {
    map k | k in entries :: size(entries[k]) + OVERHEAD
  }

  /** What the entries count for together. */
  ghost function Weight(size: Identity -> nat, entries: map<Key, Identity>): nat {
    MapSum.Sum(Weights(size, entries))
  }

  lemma NothingWeighsNothing(size: Identity -> nat)
    ensures Weight(size, map[]) == 0
  {
    assert Weights(size, map[]) == map[];
  }

  lemma OneMoreWeighs(size: Identity -> nat, entries: map<Key, Identity>, key: Key, identity: Identity)
    requires key !in entries
    ensures Weight(size, entries[key := identity]) == Weight(size, entries) + size(identity) + OVERHEAD
  {
    var ws := Weights(size, entries);
    MapSum.Insert(ws, key, size(identity) + OVERHEAD);
    assert Weights(size, entries[key := identity]) == ws[key := size(identity) + OVERHEAD];
  }

  /** The cache as the exporter holds it; `size` is the length of the JSON text of an identity. */
  class Cache {
    const size: Identity -> nat
    var entries: map<Key, Identity>
    var total: nat

    /** The byte count is that of the entries, and both limits hold. */
    ghost predicate Valid()
      reads this
    {
      total == Weight(size, entries) <= MAX_BYTES && |entries| <= MAX_ENTRIES
    }

    constructor (size: Identity -> nat)
      ensures Valid() && entries == map[] && this.size == size
    {
      this.size, entries, total := size, map[], 0;
      new;
      NothingWeighsNothing(size);
    }

    method Find(r: Reg, id: Id) returns (identity: Identity, ghost op: Op)
      requires Valid()
      modifies this
      ensures Valid()
      ensures op.Look? && op.id == id && identity == Answer(Sys(r, old(entries)), id)
      ensures entries == After(Sys(r, old(entries)), op).cache
      ensures op.evicts <==> |old(entries)| >= MAX_ENTRIES || old(total) + size(identity) + OVERHEAD > MAX_BYTES
      ensures op.stores <==> size(identity) < MAX_IDENTITY
    {
      var session := SessionOf(r, id);
      var key := KeyFor(r, session);
      if key in entries {
        identity := entries[key];
        op := Look(id, |entries| >= MAX_ENTRIES || total + size(identity) + OVERHEAD > MAX_BYTES, size(identity) < MAX_IDENTITY);
        return;
      }
      identity := Render(r, session);
      op := Look(id, |entries| >= MAX_ENTRIES || total + size(identity) + OVERHEAD > MAX_BYTES, size(identity) < MAX_IDENTITY);
      if |entries| >= MAX_ENTRIES || total + size(identity) + OVERHEAD > MAX_BYTES {
        entries, total := map[], 0;
        NothingWeighsNothing(size);
      }
      if size(identity) < MAX_IDENTITY {
        Store(key, identity);
      }
    }

    method Store(key: Key, identity: Identity)
      requires Valid() && key !in entries && |entries| < MAX_ENTRIES && total + size(identity) + OVERHEAD <= MAX_BYTES
      modifies this
      ensures Valid() && entries == old(entries)[key := identity]
    {
      OneMoreWeighs(size, entries, key, identity);
      entries, total := entries[key := identity], total + size(identity) + OVERHEAD;
    }
  }
}
