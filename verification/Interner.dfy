/**
 The path-attribute interner: a sharded cache of weak references, probed under
 a shard's lock while handles are dropped at any time and sweeps run. The
 theorems say that it behaves like a map from contents to the live blob.
 */
module Interner {
  import opened Prelude

  const NUM_SHARDS: nat := 64

  type BlobId = nat   // an allocation
  type Tid = nat
  type Shard = map<nat, seq<BlobId>>

  /** `content` and `refs` describe every blob the interner ever made; a count of zero is a dead one. */
  datatype Core = Core(content: map<BlobId, bytes>, refs: map<BlobId, nat>, next: BlobId)

  /** A thread inside `intern`: it holds its shard's lock and has looked at `idx` slots. */
  datatype Probe = Probe(raw: bytes, idx: nat)

  datatype Sys = Sys(core: Core, shards: seq<Shard>, threads: map<Tid, Probe>)

  predicate Live(c: Core, b: BlobId) {
    b in c.content && b in c.refs && c.refs[b] > 0
  }

  function Bucket(shards: seq<Shard>, h: nat): seq<BlobId> {
    var i := h % NUM_SHARDS;
    if i < |shards| && h in shards[i] then shards[i][h] else []
  }

  function SetBucket(shards: seq<Shard>, h: nat, es: seq<BlobId>): seq<Shard>
    requires |shards| == NUM_SHARDS
  {
    var i := h % NUM_SHARDS;
    var shard: Shard := shards[i];
    shards[i := shard[h := es]]
  }

  function SwapRemove<T>(es: seq<T>, i: nat): (r: seq<T>)
    requires i < |es|
    ensures |r| == |es| - 1
    ensures forall k :: 0 <= k < |r| ==> r[k] == es[if k == i then |es| - 1 else k]
  {
    es[i := es[|es| - 1]][..|es| - 1]
  }

  function LiveOnly(c: Core, es: seq<BlobId>): seq<BlobId> {
    if es == [] then []
    else LiveOnly(c, es[..|es| - 1]) + if Live(c, es[|es| - 1]) then [es[|es| - 1]] else []
  }

  /** `retain` over a shard: dead slots go, then the buckets they emptied. */
  function Swept(c: Core, shard: Shard): Shard {
    map h | h in shard && LiveOnly(c, shard[h]) != [] :: LiveOnly(c, shard[h])
  }

  // ------------------------------------------------------------------- steps

  datatype Step =
    | Start(t: Tid, raw: bytes)
    | Look(t: Tid)              // one round of the loop
    | Drop(b: BlobId)
    | CloneHandle(b: BlobId)
    | Sweep(i: nat)

  datatype Event = Interned(raw: bytes, b: BlobId) | Dropped(b: BlobId) | Cloned(b: BlobId)

  predicate Locked(hash: bytes -> nat, s: Sys, i: nat) {
    exists t :: t in s.threads && hash(s.threads[t].raw) % NUM_SHARDS == i
  }

  predicate Enabled(hash: bytes -> nat, s: Sys, step: Step) {
    match step
    case Start(t, raw) => t !in s.threads && !Locked(hash, s, hash(raw) % NUM_SHARDS)
    case Look(t) => t in s.threads
    case Drop(b) => Live(s.core, b)
    case CloneHandle(b) => Live(s.core, b)
    case Sweep(i) => i < NUM_SHARDS && !Locked(hash, s, i)
  }

  function Count(c: Core, b: BlobId, up: bool): Core
    requires Live(c, b)
  {
    c.(refs := c.refs[b := if up then c.refs[b] + 1 else c.refs[b] - 1])
  }

  function Allocate(c: Core, raw: bytes): Core {
    Core(c.content[c.next := raw], c.refs[c.next := 1], c.next + 1)
  }

  /** One round of `intern`'s loop, with what it returns when it ends the call. */
  function LookOnce(hash: bytes -> nat, s: Sys, t: Tid): (Sys, Option<Event>)
    requires t in s.threads && |s.shards| == NUM_SHARDS
  {
    var Probe(raw, idx) := s.threads[t];
    var h := hash(raw);
    var es := Bucket(s.shards, h);
    if idx >= |es| then
      var b := s.core.next;
      (Sys(Allocate(s.core, raw), SetBucket(s.shards, h, es + [b]), s.threads - {t}), Some(Interned(raw, b)))
    else if Live(s.core, es[idx]) then
      if s.core.content[es[idx]] == raw
      then (s.(core := Count(s.core, es[idx], true), threads := s.threads - {t}), Some(Interned(raw, es[idx])))
      else (s.(threads := s.threads[t := Probe(raw, idx + 1)]), None)
    else (s.(shards := SetBucket(s.shards, h, SwapRemove(es, idx))), None)
  }

  function Next(hash: bytes -> nat, s: Sys, step: Step): (Sys, Option<Event>)
    requires Enabled(hash, s, step) && |s.shards| == NUM_SHARDS
  {
    match step
    case Start(t, raw) =>
      var h := hash(raw);
      (s.(threads := s.threads[t := Probe(raw, 0)], shards := SetBucket(s.shards, h, Bucket(s.shards, h))), None)
    case Look(t) => LookOnce(hash, s, t)
    case Drop(b) => (s.(core := Count(s.core, b, false)), Some(Dropped(b)))
    case CloneHandle(b) => (s.(core := Count(s.core, b, true)), Some(Cloned(b)))
    case Sweep(i) => (s.(shards := s.shards[i := Swept(s.core, s.shards[i])]), None)
  }

  function Empty(): Sys {
    Sys(Core(map[], map[], 0), seq(NUM_SHARDS, _ => map[]), map[])
  }

  // --------------------------------------------------------------- invariant

  ghost predicate CoreInv(c: Core) {
    c.refs.Keys == c.content.Keys && forall b :: b in c.content ==> b < c.next
  }

  ghost predicate ShardsInv(shards: seq<Shard>) {
    && |shards| == NUM_SHARDS
    && forall i, h :: 0 <= i < NUM_SHARDS && h in shards[i] ==> h % NUM_SHARDS == i
  }

  /** One bucket: its slots hold blobs of that hash, and no two live ones have equal contents. */
  ghost predicate BucketInv(hash: bytes -> nat, c: Core, h: nat, es: seq<BlobId>) {
    && (forall i :: 0 <= i < |es| ==> es[i] in c.content && hash(c.content[es[i]]) == h)
    && (forall i, j :: 0 <= i < j < |es| && Live(c, es[i]) && Live(c, es[j]) ==> c.content[es[i]] != c.content[es[j]])
  }

  ghost predicate BucketOk(hash: bytes -> nat, s: Sys, h: nat) {
    BucketInv(hash, s.core, h, Bucket(s.shards, h))
  }

  /** A live blob has its slot. */
  ghost predicate HasSlot(hash: bytes -> nat, s: Sys, b: BlobId) {
    Live(s.core, b) ==> b in Bucket(s.shards, hash(s.core.content[b]))
  }

  /** What a thread in the loop knows: none of the slots it passed is a live blob with its bytes. */
  ghost predicate ProbeInv(c: Core, p: Probe, es: seq<BlobId>) {
    && p.idx <= |es|
    && forall k :: 0 <= k < p.idx ==> !(Live(c, es[k]) && c.content[es[k]] == p.raw)
  }

  ghost predicate ProbeOk(hash: bytes -> nat, s: Sys, t: Tid) {
    t in s.threads ==> ProbeInv(s.core, s.threads[t], Bucket(s.shards, hash(s.threads[t].raw)))
  }

  /** Two threads in the loop hold different locks. */
  ghost predicate Apart(hash: bytes -> nat, s: Sys, t: Tid, u: Tid) {
    t in s.threads && u in s.threads && t != u ==>
      hash(s.threads[t].raw) % NUM_SHARDS != hash(s.threads[u].raw) % NUM_SHARDS
  }

  ghost predicate Inv(hash: bytes -> nat, s: Sys) {
    && CoreInv(s.core) && ShardsInv(s.shards)
    && (forall h: nat :: BucketOk(hash, s, h))
    && (forall b: BlobId :: HasSlot(hash, s, b))
    && (forall t: Tid :: ProbeOk(hash, s, t))
    && (forall t: Tid, u: Tid :: Apart(hash, s, t, u))
  }

  lemma SetBucketFrame(shards: seq<Shard>, h: nat, es: seq<BlobId>, g: nat)
    requires ShardsInv(shards)
    ensures ShardsInv(SetBucket(shards, h, es))
    ensures Bucket(SetBucket(shards, h, es), g) == if g == h then es else Bucket(shards, g)
  {
  }

  lemma SetBucketFrames(shards: seq<Shard>, h: nat, es: seq<BlobId>)
    requires ShardsInv(shards)
    ensures ShardsInv(SetBucket(shards, h, es))
    ensures forall g: nat :: Bucket(SetBucket(shards, h, es), g) == if g == h then es else Bucket(shards, g)
  {
    forall g: nat ensures Bucket(SetBucket(shards, h, es), g) == if g == h then es else Bucket(shards, g) {
      SetBucketFrame(shards, h, es, g);
    }
  }

  /** Changing the count of a live blob makes nothing come alive. */
  lemma CountKeepsInv(hash: bytes -> nat, s: Sys, b: BlobId, up: bool)
    requires Inv(hash, s) && Live(s.core, b)
    ensures Inv(hash, s.(core := Count(s.core, b, up)))
  {
    var s' := s.(core := Count(s.core, b, up));
    assert s'.core.content == s.core.content && forall x :: Live(s'.core, x) ==> Live(s.core, x);
    forall h: nat ensures BucketOk(hash, s', h) {
      assert BucketOk(hash, s, h);
    }
    forall x: BlobId ensures HasSlot(hash, s', x) {
      assert HasSlot(hash, s, x);
    }
    forall t: Tid ensures ProbeOk(hash, s', t) {
      assert ProbeOk(hash, s, t);
    }
    forall t: Tid, u: Tid ensures Apart(hash, s', t, u) {
      assert Apart(hash, s, t, u);
    }
  }

  lemma StartKeepsInv(hash: bytes -> nat, s: Sys, t: Tid, raw: bytes)
    requires Inv(hash, s) && Enabled(hash, s, Start(t, raw))
    ensures Inv(hash, Next(hash, s, Start(t, raw)).0)
  {
    SetBucketFrames(s.shards, hash(raw), Bucket(s.shards, hash(raw)));
    var s' := Next(hash, s, Start(t, raw)).0;
    forall h: nat ensures BucketOk(hash, s', h) {
      assert BucketOk(hash, s, h);
    }
    forall x: BlobId ensures HasSlot(hash, s', x) {
      assert HasSlot(hash, s, x);
    }
    forall u: Tid ensures ProbeOk(hash, s', u) {
      assert ProbeOk(hash, s, u);
    }
    forall u: Tid, v: Tid ensures Apart(hash, s', u, v) {
      assert Apart(hash, s, u, v);
    }
  }

  /** Taking out a dead slot keeps the bucket, its live slots, and what lies before it. */
  lemma PruneBucket(hash: bytes -> nat, c: Core, h: nat, es: seq<BlobId>, p: Probe)
    requires BucketInv(hash, c, h, es) && p.idx < |es| && !Live(c, es[p.idx]) && ProbeInv(c, p, es)
    ensures BucketInv(hash, c, h, SwapRemove(es, p.idx)) && ProbeInv(c, p, SwapRemove(es, p.idx))
    ensures forall b :: b in es && Live(c, b) ==> b in SwapRemove(es, p.idx)
  {
    var rs := SwapRemove(es, p.idx);
    forall b | b in es && Live(c, b) ensures b in rs {
      var k :| 0 <= k < |es| && es[k] == b;
      assert rs[if k == |es| - 1 then p.idx else k] == b;
    }
  }

  /** Pruning loses no live slot, and keeps what the probe knows. */
  lemma PruneKeepsInv(hash: bytes -> nat, s: Sys, t: Tid)
    requires Inv(hash, s) && t in s.threads
    requires var es := Bucket(s.shards, hash(s.threads[t].raw));
      s.threads[t].idx < |es| && !Live(s.core, es[s.threads[t].idx])
    ensures Inv(hash, LookOnce(hash, s, t).0)
  {
    var p := s.threads[t];
    var h := hash(p.raw);
    var es := Bucket(s.shards, h);
    var s' := LookOnce(hash, s, t).0;
    SetBucketFrames(s.shards, h, SwapRemove(es, p.idx));
    assert BucketOk(hash, s, h) && ProbeOk(hash, s, t);
    PruneBucket(hash, s.core, h, es, p);
    forall g: nat ensures BucketOk(hash, s', g) {
      assert BucketOk(hash, s, g);
    }
    forall x: BlobId ensures HasSlot(hash, s', x) {
      assert HasSlot(hash, s, x);
    }
    forall u: Tid ensures ProbeOk(hash, s', u) {
      assert ProbeOk(hash, s, u) && Apart(hash, s, t, u);
    }
    forall u: Tid, v: Tid ensures Apart(hash, s', u, v) {
      assert Apart(hash, s, u, v);
    }
  }

  /** A new blob is alive and the others are as before. */
  lemma AllocateFrame(c: Core, raw: bytes)
    requires CoreInv(c)
    ensures var d := Allocate(c, raw);
      && CoreInv(d) && Live(d, c.next) && d.content[c.next] == raw
      && (forall x :: x in c.content ==> x in d.content && d.content[x] == c.content[x])
      && (forall x :: Live(d, x) <==> Live(c, x) || x == c.next)
  {
  }

  lemma BucketGrows(hash: bytes -> nat, c: Core, raw: bytes, h: nat, es: seq<BlobId>)
    requires CoreInv(c) && BucketInv(hash, c, h, es)
    ensures BucketInv(hash, Allocate(c, raw), h, es)
    ensures h == hash(raw) && ProbeInv(c, Probe(raw, |es|), es) ==> BucketInv(hash, Allocate(c, raw), h, es + [c.next])
  {
    AllocateFrame(c, raw);
  }

  lemma ProbeSurvives(hash: bytes -> nat, c: Core, raw: bytes, p: Probe, es: seq<BlobId>)
    requires CoreInv(c) && BucketInv(hash, c, hash(p.raw), es) && ProbeInv(c, p, es)
    ensures ProbeInv(Allocate(c, raw), p, es)
  {
    AllocateFrame(c, raw);
  }

  lemma AllocateKeepsInv(hash: bytes -> nat, s: Sys, t: Tid)
    requires Inv(hash, s) && t in s.threads
    requires s.threads[t].idx >= |Bucket(s.shards, hash(s.threads[t].raw))|
    ensures Inv(hash, LookOnce(hash, s, t).0)
  {
    var c, raw := s.core, s.threads[t].raw;
    var h := hash(raw);
    var es := Bucket(s.shards, h);
    var s' := LookOnce(hash, s, t).0;
    AllocateFrame(c, raw);
    SetBucketFrames(s.shards, h, es + [c.next]);
    assert ProbeOk(hash, s, t);
    forall g: nat ensures BucketOk(hash, s', g) {
      assert BucketOk(hash, s, g);
      BucketGrows(hash, c, raw, g, Bucket(s.shards, g));
    }
    forall x: BlobId ensures HasSlot(hash, s', x) {
      assert HasSlot(hash, s, x);
      assert (es + [c.next])[|es|] == c.next;
    }
    forall u: Tid ensures ProbeOk(hash, s', u) {
      if u in s'.threads {
        assert ProbeOk(hash, s, u) && Apart(hash, s, t, u);
        var g := hash(s.threads[u].raw);
        assert BucketOk(hash, s, g);
        ProbeSurvives(hash, c, raw, s.threads[u], Bucket(s.shards, g));
      }
    }
    forall u: Tid, v: Tid ensures Apart(hash, s', u, v) {
      assert Apart(hash, s, u, v);
    }
  }

  lemma {:induction false} LiveOnlyKeeps(c: Core, es: seq<BlobId>)
    ensures forall b :: b in LiveOnly(c, es) <==> b in es && Live(c, b)
    ensures |LiveOnly(c, es)| <= |es|
  {
    if es != [] {
      LiveOnlyKeeps(c, es[..|es| - 1]);
      assert es == es[..|es| - 1] + [es[|es| - 1]];
    }
  }

  lemma {:induction false} LiveOnlyBucket(hash: bytes -> nat, c: Core, h: nat, es: seq<BlobId>)
    requires BucketInv(hash, c, h, es)
    ensures BucketInv(hash, c, h, LiveOnly(c, es))
  {
    if es != [] {
      var init, last := es[..|es| - 1], es[|es| - 1];
      LiveOnlyBucket(hash, c, h, init);
      LiveOnlyKeeps(c, init);
      var rs := LiveOnly(c, init);
      if Live(c, last) {
        forall i | 0 <= i < |rs| ensures c.content[rs[i]] != c.content[last] {
          assert rs[i] in init;
        }
      }
    }
  }

  lemma SweepKeepsInv(hash: bytes -> nat, s: Sys, i: nat)
    requires Inv(hash, s) && Enabled(hash, s, Sweep(i))
    ensures Inv(hash, Next(hash, s, Sweep(i)).0)
  {
    var s' := Next(hash, s, Sweep(i)).0;
    forall h: nat ensures BucketOk(hash, s', h) {
      assert BucketOk(hash, s, h);
      LiveOnlyBucket(hash, s.core, h, Bucket(s.shards, h));
    }
    forall x: BlobId ensures HasSlot(hash, s', x) {
      assert HasSlot(hash, s, x);
      if Live(s.core, x) {
        LiveOnlyKeeps(s.core, Bucket(s.shards, hash(s.core.content[x])));
      }
    }
    forall u: Tid ensures ProbeOk(hash, s', u) {
      assert ProbeOk(hash, s, u);
    }
    forall u: Tid, v: Tid ensures Apart(hash, s', u, v) {
      assert Apart(hash, s, u, v);
    }
  }

  lemma StepKeepsInv(hash: bytes -> nat, s: Sys, step: Step)
    requires Inv(hash, s) && Enabled(hash, s, step)
    ensures Inv(hash, Next(hash, s, step).0)
  {
    match step
    case Start(t, raw) => StartKeepsInv(hash, s, t, raw);
    case Drop(b) => CountKeepsInv(hash, s, b, false);
    case CloneHandle(b) => CountKeepsInv(hash, s, b, true);
    case Sweep(i) => SweepKeepsInv(hash, s, i);
    case Look(t) => LookKeepsInv(hash, s, t);
  }

  lemma LookKeepsInv(hash: bytes -> nat, s: Sys, t: Tid)
    requires Inv(hash, s) && t in s.threads
    ensures Inv(hash, LookOnce(hash, s, t).0)
  {
    var p := s.threads[t];
    var es := Bucket(s.shards, hash(p.raw));
    if p.idx >= |es| {
      AllocateKeepsInv(hash, s, t);
    } else if Live(s.core, es[p.idx]) {
      PassKeepsInv(hash, s, t);
    } else {
      PruneKeepsInv(hash, s, t);
    }
  }

  /** A live slot: the call ends there, or the probe moves past it. */
  lemma PassKeepsInv(hash: bytes -> nat, s: Sys, t: Tid)
    requires Inv(hash, s) && t in s.threads
    requires var es := Bucket(s.shards, hash(s.threads[t].raw));
      s.threads[t].idx < |es| && Live(s.core, es[s.threads[t].idx])
    ensures Inv(hash, LookOnce(hash, s, t).0)
  {
    var p := s.threads[t];
    var b := Bucket(s.shards, hash(p.raw))[p.idx];
    if s.core.content[b] == p.raw {
      CountKeepsInv(hash, s, b, true);
      RetargetThreads(hash, s.(core := Count(s.core, b, true)), s.threads - {t});
    } else {
      assert ProbeOk(hash, s, t);
      RetargetThreads(hash, s, s.threads[t := Probe(p.raw, p.idx + 1)]);
    }
  }

  /** Only the threads change: those that stay look for the same bytes and know what they claim. */
  lemma RetargetThreads(hash: bytes -> nat, s: Sys, threads: map<Tid, Probe>)
    requires Inv(hash, s)
    requires forall t :: t in threads ==> t in s.threads && threads[t].raw == s.threads[t].raw
    requires forall t :: t in threads && threads[t] != s.threads[t] ==>
      ProbeInv(s.core, threads[t], Bucket(s.shards, hash(threads[t].raw)))
    ensures Inv(hash, s.(threads := threads))
  {
    var s' := s.(threads := threads);
    forall h: nat ensures BucketOk(hash, s', h) {
      assert BucketOk(hash, s, h);
    }
    forall x: BlobId ensures HasSlot(hash, s', x) {
      assert HasSlot(hash, s, x);
    }
    forall u: Tid ensures ProbeOk(hash, s', u) {
      assert ProbeOk(hash, s, u);
    }
    forall u: Tid, v: Tid ensures Apart(hash, s', u, v) {
      assert Apart(hash, s, u, v);
    }
  }

  // -------------------------------------------------------------- refinement

  /** The specification: the live blob with these bytes if there is one, a new one otherwise. */
  ghost predicate Answers(c: Core, raw: bytes, b: BlobId) {
    || (Live(c, b) && c.content[b] == raw)
    || (b == c.next && forall x :: Live(c, x) ==> c.content[x] != raw)
  }

  /** What an event does to the blobs; the table of weak references has no part in it. */
  ghost function Effect(c: Core, e: Event): Core {
    match e
    case Interned(raw, b) => if Live(c, b) then Count(c, b, true) else Allocate(c, raw)
    case Dropped(b) => if Live(c, b) then Count(c, b, false) else c
    case Cloned(b) => if Live(c, b) then Count(c, b, true) else c
  }

  ghost predicate Legal(c: Core, e: Event) {
    match e
    case Interned(raw, b) => Answers(c, raw, b)
    case Dropped(b) => Live(c, b)
    case Cloned(b) => Live(c, b)
  }

  /** Live handles with equal bytes are one blob. */
  lemma EqualBytesOneBlob(hash: bytes -> nat, s: Sys, a: BlobId, b: BlobId)
    requires Inv(hash, s) && Live(s.core, a) && Live(s.core, b) && s.core.content[a] == s.core.content[b]
    ensures a == b
  {
    var h := hash(s.core.content[a]);
    var es := Bucket(s.shards, h);
    assert BucketOk(hash, s, h) && HasSlot(hash, s, a) && HasSlot(hash, s, b);
    var i :| 0 <= i < |es| && es[i] == a;
    var j :| 0 <= j < |es| && es[j] == b;
  }

  /** Each step either ends a call as the specification says, or leaves the blobs alone. */
  lemma StepRefines(hash: bytes -> nat, s: Sys, step: Step)
    requires Inv(hash, s) && Enabled(hash, s, step)
    ensures var (s', e) := Next(hash, s, step);
      match e
      case None => s'.core == s.core
      case Some(ev) => Legal(s.core, ev) && s'.core == Effect(s.core, ev)
  {
    if step.Look? {
      var p := s.threads[step.t];
      var es := Bucket(s.shards, hash(p.raw));
      if p.idx >= |es| {
        assert ProbeOk(hash, s, step.t);
        forall x | Live(s.core, x) ensures s.core.content[x] != p.raw {
          assert HasSlot(hash, s, x);
        }
      }
    }
  }

  // -------------------------------------------------------------------- runs

  ghost predicate Run(hash: bytes -> nat, states: seq<Sys>, steps: seq<Step>) {
    && |states| == |steps| + 1
    && states[0] == Empty()
    && (forall i :: 0 <= i < |states| ==> |states[i].shards| == NUM_SHARDS)
    && forall i :: 0 <= i < |steps| ==>
         Enabled(hash, states[i], steps[i]) && states[i + 1] == Next(hash, states[i], steps[i]).0
  }

  /** The events of the first `n` steps. */
  ghost function Events(hash: bytes -> nat, states: seq<Sys>, steps: seq<Step>, n: nat): seq<Event>
    requires Run(hash, states, steps) && n <= |steps|
  {
    if n == 0 then [] else
    var e := Next(hash, states[n - 1], steps[n - 1]).1;
    Events(hash, states, steps, n - 1) + if e.Some? then [e.value] else []
  }

  lemma EmptyInv(hash: bytes -> nat)
    ensures Inv(hash, Empty())
  {
    forall h: nat ensures BucketOk(hash, Empty(), h) {
      assert Bucket(Empty().shards, h) == [];
    }
  }

  lemma {:induction false} RunKeepsInv(hash: bytes -> nat, states: seq<Sys>, steps: seq<Step>, n: nat)
    requires Run(hash, states, steps) && n < |states|
    ensures Inv(hash, states[n])
  {
    if n == 0 {
      EmptyInv(hash);
    } else {
      RunKeepsInv(hash, states, steps, n - 1);
      StepKeepsInv(hash, states[n - 1], steps[n - 1]);
    }
  }

  /** In every state of every run, two live handles with equal bytes are the same blob. */
  lemma LiveHandlesAreCanonical(hash: bytes -> nat, states: seq<Sys>, steps: seq<Step>, n: nat, a: BlobId, b: BlobId)
    requires Run(hash, states, steps) && n < |states|
    requires Live(states[n].core, a) && Live(states[n].core, b)
    requires states[n].core.content[a] == states[n].core.content[b]
    ensures a == b
  {
    RunKeepsInv(hash, states, steps, n);
    EqualBytesOneBlob(hash, states[n], a, b);
  }

  /** A history of the specification alone, and the blobs it leads to. */
  ghost predicate Explains(es: seq<Event>, c: Core)
    decreases |es|, 1
  {
    if es == [] then c == Empty().core
    else exists p :: ExplainsLast(es, p, c)
  }

  ghost predicate ExplainsLast(es: seq<Event>, p: Core, c: Core)
    requires es != []
    decreases |es|, 0
  {
    Explains(es[..|es| - 1], p) && Legal(p, es[|es| - 1]) && c == Effect(p, es[|es| - 1])
  }

  /** Every run, seen through its events, is a history of the specification. */
  lemma {:induction false} RunRefines(hash: bytes -> nat, states: seq<Sys>, steps: seq<Step>, n: nat)
    requires Run(hash, states, steps) && n <= |steps|
    ensures Explains(Events(hash, states, steps, n), states[n].core)
  {
    if n > 0 {
      RunRefines(hash, states, steps, n - 1);
      RunKeepsInv(hash, states, steps, n - 1);
      StepRefines(hash, states[n - 1], steps[n - 1]);
      var before := Events(hash, states, steps, n - 1);
      var e := Next(hash, states[n - 1], steps[n - 1]).1;
      if e.Some? {
        var es := before + [e.value];
        assert es[..|es| - 1] == before;
        assert ExplainsLast(es, states[n - 1].core, states[n].core);
      } else {
        assert before + [] == before;
      }
    }
  }

  /** In a history no two live blobs have equal contents, and the counter is ahead of every blob. */
  ghost predicate Canonical(c: Core) {
    && CoreInv(c)
    && forall a, b :: Live(c, a) && Live(c, b) && c.content[a] == c.content[b] ==> a == b
  }

  lemma EffectIsCanonical(c: Core, e: Event)
    requires Canonical(c) && Legal(c, e)
    ensures Canonical(Effect(c, e))
  {
    if e.Interned? && !Live(c, e.b) {
      AllocateFrame(c, e.raw);
    } else {
      var d := Effect(c, e);
      assert d.content == c.content && forall x :: Live(d, x) ==> Live(c, x);
    }
  }

  lemma {:induction false} HistoriesAreCanonical(es: seq<Event>, c: Core)
    requires Explains(es, c)
    ensures Canonical(c)
    decreases |es|
  {
    if es != [] {
      var p :| ExplainsLast(es, p, c);
      HistoriesAreCanonical(es[..|es| - 1], p);
      EffectIsCanonical(p, es[|es| - 1]);
    }
  }

  /** The same requests: what a caller asked for, without the answers to `intern`. */
  ghost predicate SameRequests(es: seq<Event>, fs: seq<Event>) {
    && |es| == |fs|
    && forall i :: 0 <= i < |es| ==> SameRequest(es[i], fs[i])
  }

  ghost predicate SameRequest(e: Event, f: Event) {
    match e
    case Interned(raw, _) => f.Interned? && f.raw == raw
    case _ => e == f
  }

  /** The specification is deterministic: equal requests get equal answers. */
  lemma {:induction false} AnswersAreDetermined(es: seq<Event>, c: Core, fs: seq<Event>, d: Core)
    requires Explains(es, c) && Explains(fs, d) && SameRequests(es, fs)
    ensures es == fs && c == d
    decreases |es|
  {
    if es != [] {
      var n := |es| - 1;
      var p :| ExplainsLast(es, p, c);
      var q :| ExplainsLast(fs, q, d);
      AnswersAreDetermined(es[..n], p, fs[..n], q);
      HistoriesAreCanonical(es[..n], p);
      assert SameRequest(es[n], fs[n]);
      assert es[n] == fs[n];
      assert es == es[..n] + [es[n]] && fs == fs[..n] + [fs[n]];
    }
  }

  /**
   Sweeps are invisible. Two runs that serve the same requests in the same
   order give the same answers and end with the same blobs, wherever either of
   them sweeps, prunes or interleaves.
   */
  lemma SweepsChangeNothing(
      hash: bytes -> nat, states: seq<Sys>, steps: seq<Step>, states': seq<Sys>, steps': seq<Step>)
    requires Run(hash, states, steps) && Run(hash, states', steps')
    requires SameRequests(Events(hash, states, steps, |steps|), Events(hash, states', steps', |steps'|))
    ensures Events(hash, states, steps, |steps|) == Events(hash, states', steps', |steps'|)
    ensures states[|steps|].core == states'[|steps'|].core
  {
    RunRefines(hash, states, steps, |steps|);
    RunRefines(hash, states', steps', |steps'|);
    AnswersAreDetermined(Events(hash, states, steps, |steps|), states[|steps|].core,
                         Events(hash, states', steps', |steps'|), states'[|steps'|].core);
  }

  // ------------------------------------------------------ every call comes to an end

  /** The slots that the search of a thread has still to look at. */
  function ToLook(hash: bytes -> nat, s: Sys, t: Tid): int
    requires t in s.threads
  {
    |Bucket(s.shards, hash(s.threads[t].raw))| - s.threads[t].idx
  }

  /** A round of another search is in another shard. */
  lemma OthersLookElsewhere(hash: bytes -> nat, s: Sys, t: Tid, u: Tid)
    requires Inv(hash, s) && t in s.threads && u in s.threads && t != u
    ensures t in LookOnce(hash, s, u).0.threads && ToLook(hash, LookOnce(hash, s, u).0, t) == ToLook(hash, s, t)
  {
    assert Apart(hash, s, t, u);
    var h, g := hash(s.threads[u].raw), hash(s.threads[t].raw);
    var es, idx := Bucket(s.shards, h), s.threads[u].idx;
    assert ProbeOk(hash, s, u);
    if idx >= |es| {
      SetBucketFrame(s.shards, h, es + [s.core.next], g);
    } else if !Live(s.core, es[idx]) {
      SetBucketFrame(s.shards, h, SwapRemove(es, idx), g);
    }
  }

  lemma OwnRoundLooksAtOne(hash: bytes -> nat, s: Sys, t: Tid)
    requires Inv(hash, s) && t in s.threads && t in LookOnce(hash, s, t).0.threads
    ensures ToLook(hash, LookOnce(hash, s, t).0, t) == ToLook(hash, s, t) - 1
  {
    var h := hash(s.threads[t].raw);
    var es, idx := Bucket(s.shards, h), s.threads[t].idx;
    if idx < |es| && !Live(s.core, es[idx]) {
      SetBucketFrame(s.shards, h, SwapRemove(es, idx), h);
    }
  }

  /** A round that does not end a call takes one slot off what it has to look at; no other step changes that. */
  lemma OnlyOwnRoundsCount(hash: bytes -> nat, s: Sys, step: Step, t: Tid)
    requires Inv(hash, s) && Enabled(hash, s, step) && t in s.threads && t in Next(hash, s, step).0.threads
    ensures ToLook(hash, Next(hash, s, step).0, t) == ToLook(hash, s, t) - if step == Look(t) then 1 else 0
  {
    match step
    case Start(u, raw) =>
      SetBucketFrame(s.shards, hash(raw), Bucket(s.shards, hash(raw)), hash(s.threads[t].raw));
    case Look(u) =>
      if u == t {
        OwnRoundLooksAtOne(hash, s, t);
      } else {
        OthersLookElsewhere(hash, s, t, u);
      }
    case Sweep(i) => assert hash(s.threads[t].raw) % NUM_SHARDS != i;
    case _ =>
  }

  function Rounds(steps: seq<Step>, t: Tid, i: nat, j: nat): nat
    requires i <= j <= |steps|
    decreases j - i
  {
    if i == j then 0 else Rounds(steps, t, i, j - 1) + if steps[j - 1] == Look(t) then 1 else 0
  }

  lemma SearchesAreWithinBounds(hash: bytes -> nat, states: seq<Sys>, steps: seq<Step>, t: Tid, j: nat)
    requires Run(hash, states, steps) && j < |states| && t in states[j].threads
    ensures ToLook(hash, states[j], t) >= 0
  {
    RunKeepsInv(hash, states, steps, j);
    assert ProbeOk(hash, states[j], t);
  }

  /** From state `k` to the next, a round of the search was counted if there was one. */
  predicate Counted(hash: bytes -> nat, states: seq<Sys>, steps: seq<Step>, t: Tid, k: nat) {
    && k + 1 < |states| && k < |steps| && t in states[k].threads && t in states[k + 1].threads
    && ToLook(hash, states[k + 1], t) == ToLook(hash, states[k], t) - if steps[k] == Look(t) then 1 else 0
  }

  lemma StepsCountRounds(hash: bytes -> nat, states: seq<Sys>, steps: seq<Step>, t: Tid, k: nat)
    requires Run(hash, states, steps) && k < |steps| && t in states[k].threads && t in states[k + 1].threads
    ensures Counted(hash, states, steps, t, k)
  {
    RunKeepsInv(hash, states, steps, k);
    OnlyOwnRoundsCount(hash, states[k], steps[k], t);
  }

  lemma {:induction false} RoundsAddUp(hash: bytes -> nat, states: seq<Sys>, steps: seq<Step>, t: Tid, i: nat, j: nat)
    requires i <= j <= |steps| && j < |states| && t in states[i].threads
    requires forall k: nat :: i <= k < j ==> Counted(hash, states, steps, t, k)
    ensures t in states[j].threads && Rounds(steps, t, i, j) + ToLook(hash, states[j], t) == ToLook(hash, states[i], t)
    decreases j - i
  {
    if i < j {
      RoundsAddUp(hash, states, steps, t, i, j - 1);
      assert Counted(hash, states, steps, t, j - 1);
    }
  }

  /**
   A search that is still going on has looked at one slot for each of its
   rounds, whatever was dropped, swept or interned meanwhile: it makes at most
   as many rounds as its bucket had slots, and one more that ends it.
   */
  lemma SearchesEnd(hash: bytes -> nat, states: seq<Sys>, steps: seq<Step>, t: Tid, i: nat, j: nat)
    requires Run(hash, states, steps) && i <= j <= |steps| && forall k :: i <= k <= j ==> t in states[k].threads
    ensures Rounds(steps, t, i, j) + ToLook(hash, states[j], t) == ToLook(hash, states[i], t)
    ensures Rounds(steps, t, i, j) <= ToLook(hash, states[i], t)
  {
    forall k: nat | i <= k < j ensures Counted(hash, states, steps, t, k) {
      StepsCountRounds(hash, states, steps, t, k);
    }
    RoundsAddUp(hash, states, steps, t, i, j);
    SearchesAreWithinBounds(hash, states, steps, t, j);
  }
}
