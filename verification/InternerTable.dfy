/** The interner as the object its methods update: `intern`, `sweep_shard` and `stats`. */
module InternerTable {
  import opened Prelude
  import opened Interner
  import MapSum

  ghost function Lengths(shard: Shard): map<nat, nat> {
    map h | h in shard :: |shard[h]|
  }

  /** The slots of a shard, summed over its buckets. */
  ghost function Slots(shard: Shard): nat {
    MapSum.Sum(Lengths(shard))
  }

  ghost function DeadSlots(c: Core, shard: Shard): map<nat, nat> {
    map h | h in shard :: |shard[h]| - Kept(c, shard[h])
  }

  ghost function Kept(c: Core, es: seq<BlobId>): (n: nat)
    ensures n <= |es|
  {
    LiveOnlyKeeps(c, es);
    |LiveOnly(c, es)|
  }

  ghost function EmptiedBuckets(c: Core, shard: Shard): set<nat> {
    set h | h in shard && LiveOnly(c, shard[h]) == []
  }

  /** Taking one bucket out of a shard before counting its slots, its dead slots, or sweeping it. */
  lemma SlotsOneLess(shard: Shard, h: nat)
    requires h in shard
    ensures Slots(shard) == |shard[h]| + Slots(shard - {h})
  {
    MapSum.TakeOut(Lengths(shard), h);
    assert Lengths(shard) - {h} == Lengths(shard - {h});
  }

  lemma DeadOneLess(c: Core, shard: Shard, h: nat)
    requires h in shard
    ensures MapSum.Sum(DeadSlots(c, shard)) == |shard[h]| - Kept(c, shard[h]) + MapSum.Sum(DeadSlots(c, shard - {h}))
  {
    MapSum.TakeOut(DeadSlots(c, shard), h);
    assert DeadSlots(c, shard) - {h} == DeadSlots(c, shard - {h});
  }

  lemma SweptOneLess(c: Core, shard: Shard, h: nat)
    requires h in shard
    ensures Slots(Swept(c, shard)) == Kept(c, shard[h]) + Slots(Swept(c, shard - {h}))
  {
    var swept := Swept(c, shard);
    assert swept - {h} == Swept(c, shard - {h});
    if h in swept {
      SlotsOneLess(swept, h);
    } else {
      assert swept - {h} == swept;
    }
  }

  /** A sweep takes out the dead slots and the emptied buckets, and nothing else. */
  lemma {:induction false} SweepAccounts(c: Core, shard: Shard)
    ensures Slots(shard) == Slots(Swept(c, shard)) + MapSum.Sum(DeadSlots(c, shard))
    ensures |shard| == |Swept(c, shard)| + |EmptiedBuckets(c, shard)|
    decreases |shard|
  {
    assert shard.Keys == Swept(c, shard).Keys + EmptiedBuckets(c, shard);
    if shard == map[] {
      assert Lengths(shard) == map[] && DeadSlots(c, shard) == map[] && Swept(c, shard) == map[];
    } else {
      var h :| h in shard;
      var rest: Shard := shard - {h};
      MapSum.Shrinks(shard, h);
      SweepAccounts(c, rest);
      SlotsOneLess(shard, h);
      DeadOneLess(c, shard, h);
      SweptOneLess(c, shard, h);
    }
  }

  method CountSlots(shard: Shard) returns (n: nat)
    ensures n == Slots(shard)
  {
    n := 0;
    var todo := shard;
    while todo != map[]
      invariant n + Slots(todo) == Slots(shard)
      decreases |todo|
    {
      var h :| h in todo;
      SlotsOneLess(todo, h);
      MapSum.Shrinks(todo, h);
      n := n + |todo[h]|;
      todo := todo - {h};
    }
    assert Lengths(map[]) == map[];
  }

  /** The search is set to another slot up to which it knows enough. */
  lemma MoveProbe(hash: bytes -> nat, s: Sys, raw: bytes, idx: nat, next: nat)
    requires s.threads == map[0 := Probe(raw, idx)] && Inv(hash, s)
    requires ProbeInv(s.core, Probe(raw, next), Bucket(s.shards, hash(raw)))
    ensures Inv(hash, Sys(s.core, s.shards, map[0 := Probe(raw, next)]))
  {
    RetargetThreads(hash, s, map[0 := Probe(raw, next)]);
  }

  class PathAttributeInterner {
    const hash: bytes -> nat
    var shards: seq<Shard>
    var core: Core   // the blobs and how many handles each has

    ghost predicate Valid()
      reads this
    {
      Inv(hash, Sys(core, shards, map[]))
    }

    constructor (hash: bytes -> nat)
      ensures Valid() && this.hash == hash && core == Empty().core
    {
      this.hash := hash;
      shards, core := seq(NUM_SHARDS, _ => map[]), Core(map[], map[], 0);
      new;
      EmptyInv(hash);
      assert Sys(core, shards, map[]) == Empty();
    }

    /** The slot at `idx` is dead: the last slot of the bucket takes its place. */
    method Prune(raw: bytes, idx: nat)
      requires Inv(hash, Sys(core, shards, map[0 := Probe(raw, idx)]))
      requires idx < |Bucket(shards, hash(raw))| && !Live(core, Bucket(shards, hash(raw))[idx])
      modifies this`shards
      ensures Inv(hash, Sys(core, shards, map[0 := Probe(raw, idx)]))
      ensures |Bucket(shards, hash(raw))| < |old(Bucket(shards, hash(raw)))|
    {
      var h := hash(raw);
      var es := Bucket(shards, h);
      PruneKeepsInv(hash, Sys(core, shards, map[0 := Probe(raw, idx)]), 0);
      SetBucketFrame(shards, h, SwapRemove(es, idx), h);
      shards := SetBucket(shards, h, SwapRemove(es, idx));
    }

    /** The loop of `intern`: looks for a live blob with these bytes and prunes the dead slots it meets. */
    method Look(raw: bytes) returns (found: Option<BlobId>)
      requires Inv(hash, Sys(core, shards, map[0 := Probe(raw, 0)]))
      modifies this`shards
      ensures found.Some? ==> Live(core, found.value) && core.content[found.value] == raw
      ensures Inv(hash, Sys(core, shards, map[0 := Probe(raw, if found.Some? then 0 else |Bucket(shards, hash(raw))|)]))
    {
      var h := hash(raw);
      var idx := 0;
      while idx < |Bucket(shards, h)|
        invariant Inv(hash, Sys(core, shards, map[0 := Probe(raw, idx)]))
        decreases |Bucket(shards, h)| - idx
      {
        var es := Bucket(shards, h);
        ghost var s := Sys(core, shards, map[0 := Probe(raw, idx)]);
        assert ProbeOk(hash, s, 0);
        if Live(core, es[idx]) {
          if core.content[es[idx]] == raw {
            MoveProbe(hash, s, raw, idx, 0);
            return Some(es[idx]);
          }
          MoveProbe(hash, s, raw, idx, idx + 1);
          idx := idx + 1;
        } else {
          Prune(raw, idx);
        }
      }
      ghost var s := Sys(core, shards, map[0 := Probe(raw, idx)]);
      assert ProbeOk(hash, s, 0);
      return None;
    }

    /** Returns the live blob with these bytes, or makes one. */
    method Intern(raw: bytes) returns (b: BlobId)
      requires Valid()
      modifies this
      ensures Valid()
      ensures Answers(old(core), raw, b)
      ensures core == Effect(old(core), Interned(raw, b))
      ensures Live(core, b) && core.content[b] == raw
    {
      var h := hash(raw);
      StartKeepsInv(hash, Sys(core, shards, map[]), 0, raw);
      shards := SetBucket(shards, h, Bucket(shards, h));
      var found := Look(raw);
      ghost var s := Sys(core, shards, map[0 := Probe(raw, |Bucket(shards, h)|)]);
      if found.Some? {
        RetargetThreads(hash, Sys(core, shards, map[0 := Probe(raw, 0)]), map[]);
        CountKeepsInv(hash, Sys(core, shards, map[]), found.value, true);
        b := found.value;
        core := Count(core, b, true);
        return;
      }
      AllocateKeepsInv(hash, s, 0);
      StepRefines(hash, s, Interner.Look(0));
      assert s.threads - {0} == map[];
      b := core.next;
      shards := SetBucket(shards, h, Bucket(shards, h) + [b]);
      core := Allocate(core, raw);
    }

    /** Drops the dead slots of one shard and the buckets they emptied, and says how many of each. */
    method SweepShard(index: nat) returns (slots: nat, buckets: nat)
      requires Valid()
      modifies this
      ensures Valid() && core == old(core)
      ensures index >= NUM_SHARDS ==> slots == 0 && buckets == 0 && shards == old(shards)
      ensures index < NUM_SHARDS ==>
        && shards == old(shards)[index := Swept(core, old(shards)[index])]
        && slots == MapSum.Sum(DeadSlots(core, old(shards)[index]))
        && buckets == |EmptiedBuckets(core, old(shards)[index])|
    {
      if index >= |shards| {
        return 0, 0;
      }
      var shard := shards[index];
      var slotsBefore := CountSlots(shard);
      SweepKeepsInv(hash, Sys(core, shards, map[]), index);
      var kept := Swept(core, shard);
      shards := shards[index := kept];
      var slotsAfter := CountSlots(kept);
      SweepAccounts(core, shard);
      return slotsBefore - slotsAfter, |shard| - |kept|;
    }

    /**
     The hash buckets and the weak slots in the table, dead ones included, and
     the blobs in use, each counted once whatever the table holds besides.
     */
    method Stats() returns (buckets: nat, slots: nat, live: nat)
      requires Valid()
      ensures buckets == AllBuckets(shards) && slots == AllSlots(shards)
      ensures live == |InUse(hash, core, NUM_SHARDS)|
    {
      buckets, slots, live := StatsOf(hash, Sys(core, shards, map[]));
    }
  }

  /** The blobs in use whose hash belongs to one of the first `n` shards. */
  ghost function InUse(hash: bytes -> nat, c: Core, n: nat): set<BlobId> {
    set b | b in c.content && Live(c, b) && hash(c.content[b]) % NUM_SHARDS < n
  }

  ghost function AllBuckets(shards: seq<Shard>): nat {
    if shards == [] then 0 else AllBuckets(shards[..|shards| - 1]) + |shards[|shards| - 1]|
  }

  ghost function AllSlots(shards: seq<Shard>): nat {
    if shards == [] then 0 else AllSlots(shards[..|shards| - 1]) + Slots(shards[|shards| - 1])
  }

  lemma OneMoreShard(shards: seq<Shard>, i: nat)
    requires i < |shards|
    ensures AllBuckets(shards[..i + 1]) == AllBuckets(shards[..i]) + |shards[i]|
    ensures AllSlots(shards[..i + 1]) == AllSlots(shards[..i]) + Slots(shards[i])
  {
    assert shards[..i + 1][..i] == shards[..i];
  }

  method StatsOf(hash: bytes -> nat, s: Sys) returns (buckets: nat, slots: nat, live: nat)
    requires Inv(hash, s)
    ensures buckets == AllBuckets(s.shards) && slots == AllSlots(s.shards)
    ensures live == |InUse(hash, s.core, NUM_SHARDS)|
  {
    buckets, slots, live := 0, 0, 0;
    assert InUse(hash, s.core, 0) == {};
    assert s.shards[..0] == [];
    for i := 0 to NUM_SHARDS
      invariant buckets == AllBuckets(s.shards[..i]) && slots == AllSlots(s.shards[..i])
      invariant live == |InUse(hash, s.core, i)|
    {
      OneMoreShard(s.shards, i);
      var n, m := StatsOfShard(hash, s, i);
      buckets, slots, live := buckets + |s.shards[i]|, slots + n, live + m;
    }
    assert s.shards[..NUM_SHARDS] == s.shards;
  }

  method StatsOfShard(hash: bytes -> nat, s: Sys, i: nat) returns (slots: nat, live: nat)
    requires Inv(hash, s) && i < NUM_SHARDS
    ensures slots == Slots(s.shards[i])
    ensures live + |InUse(hash, s.core, i)| == |InUse(hash, s.core, i + 1)|
  {
    slots := CountSlots(s.shards[i]);
    live := LiveInShard(hash, s, i);
  }

  method LiveInShard(hash: bytes -> nat, s: Sys, i: nat) returns (n: nat)
    requires Inv(hash, s) && i < NUM_SHARDS
    ensures n + |InUse(hash, s.core, i)| == |InUse(hash, s.core, i + 1)|
  {
    n := 0;
    var todo := s.shards[i];
    ghost var seen: set<BlobId> := {};
    assert s.shards[i].Keys - todo.Keys == {};
    while todo != map[]
      invariant forall h :: h in todo ==> h in s.shards[i] && todo[h] == s.shards[i][h]
      invariant n == |seen|
      invariant forall b :: b in seen <==> HashedTo(hash, s.core, b, s.shards[i].Keys - todo.Keys)
      decreases |todo|
    {
      var h :| h in todo;
      MapSum.Shrinks(todo, h);
      ghost var here := BucketLive(hash, s, h);
      assert seen !! here;
      n := n + |LiveOnly(s.core, todo[h])|;
      seen := seen + here;
      todo := todo - {h};
    }
    assert s.shards[i].Keys - todo.Keys == s.shards[i].Keys;
    ShardUsers(hash, s, i, seen);
  }

  /** A live blob whose hash is one of `hs`. */
  ghost predicate HashedTo(hash: bytes -> nat, c: Core, b: BlobId, hs: set<nat>) {
    Live(c, b) && hash(c.content[b]) in hs
  }

  /** The live slots of one bucket are exactly the live blobs of that hash, each once. */
  lemma BucketLive(hash: bytes -> nat, s: Sys, h: nat) returns (here: set<BlobId>)
    requires Inv(hash, s)
    ensures |here| == |LiveOnly(s.core, Bucket(s.shards, h))|
    ensures forall b :: b in here <==> Live(s.core, b) && hash(s.core.content[b]) == h
  {
    var es := Bucket(s.shards, h);
    assert BucketOk(hash, s, h);
    LiveOnlyBucket(hash, s.core, h, es);
    LiveOnlyKeeps(s.core, es);
    var ls := LiveOnly(s.core, es);
    here := Elements(ls);
    DistinctElements(s.core, ls);
    forall b | Live(s.core, b) && hash(s.core.content[b]) == h ensures b in here {
      assert HasSlot(hash, s, b);
    }
  }

  lemma ShardUsers(hash: bytes -> nat, s: Sys, i: nat, users: set<BlobId>)
    requires Inv(hash, s) && i < NUM_SHARDS
    requires forall b :: b in users <==> HashedTo(hash, s.core, b, s.shards[i].Keys)
    ensures |users| + |InUse(hash, s.core, i)| == |InUse(hash, s.core, i + 1)|
  {
    forall b | Live(s.core, b) && hash(s.core.content[b]) % NUM_SHARDS == i ensures b in users {
      assert HasSlot(hash, s, b);
    }
    assert InUse(hash, s.core, i + 1) == InUse(hash, s.core, i) + users;
    assert InUse(hash, s.core, i) !! users;
  }

  ghost function Elements(es: seq<BlobId>): set<BlobId> {
    set b | b in es
  }

  /** Slots with different contents are different blobs. */
  lemma {:induction false} DistinctElements(c: Core, es: seq<BlobId>)
    requires forall i :: 0 <= i < |es| ==> es[i] in c.content
    requires forall i, j :: 0 <= i < j < |es| ==> c.content[es[i]] != c.content[es[j]]
    ensures |Elements(es)| == |es|
  {
    if es == [] {
      assert Elements(es) == {};
    } else {
      var init, last := es[..|es| - 1], es[|es| - 1];
      DistinctElements(c, init);
      assert forall i :: 0 <= i < |init| ==> init[i] != last;
      assert Elements(es) == Elements(init) + {last};
    }
  }
}
