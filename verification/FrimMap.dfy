/**
 The frequently-read, infrequently-modified map: every update loads the shared
 contents, computes new ones and swaps them in if nobody was faster, else tries
 again. The theorems are about every interleaving of such updates.
 */
module FrimMap {
  import opened Prelude

  type Key = nat     // keys are only compared
  type Value = nat

  type Contents = seq<(Key, Value)>

  datatype Op =
    | Insert(k: Key, v: Value)
    | Remove(k: Key)
    | Retain(keep: (Key, Value) -> bool)
    | Replace(with: Contents)

  // ------------------------------------------------- one update of the contents

  function Select(c: Contents, keep: (Key, Value) -> bool): Contents {
    if c == [] then [] else
    var p := c[|c| - 1];
    Select(c[..|c| - 1], keep) + if keep(p.0, p.1) then [p] else []
  }

  /** The position of a key, or the length when it is absent. */
  function Position(c: Contents, k: Key): (i: nat)
    ensures i <= |c|
    ensures i < |c| ==> c[i].0 == k
    ensures forall j :: 0 <= j < i ==> c[j].0 != k
  {
    if c == [] then 0 else if c[0].0 == k then 0 else
    var rest := c[1..];
    var i := Position(rest, k);
    assert forall j :: 0 <= j < i ==> c[1..][j].0 != k;
    assert forall j :: 1 <= j < i + 1 ==> c[j] == rest[j - 1];
    i + 1
  }

  function Get(c: Contents, k: Key): Option<Value> {
    var i := Position(c, k);
    if i < |c| then Some(c[i].1) else None
  }

  function Others(k: Key): (Key, Value) -> bool {
    (k', _) => k' != k
  }

  function Update(c: Contents, op: Op): Contents {
    match op
    case Insert(k, v) => Select(c, Others(k)) + [(k, v)]
    case Remove(k) =>
      var i := Position(c, k);
      if i < |c| then c[..i] + c[i + 1..] else c
    case Retain(keep) => Select(c, keep)
    case Replace(with) => with
  }

  // ------------------------------------------------------- the map it stands for

  predicate DistinctKeys(c: Contents) {
    forall i, j :: 0 <= i < j < |c| ==> c[i].0 != c[j].0
  }

  function ToMap(c: Contents): map<Key, Value> {
    if c == [] then map[] else ToMap(c[..|c| - 1])[c[|c| - 1].0 := c[|c| - 1].1]
  }

  /** The same update of a plain map. */
  function MapUpdate(m: map<Key, Value>, op: Op): map<Key, Value> {
    match op
    case Insert(k, v) => m[k := v]
    case Remove(k) => m - {k}
    case Retain(keep) => map k | k in m && keep(k, m[k]) :: m[k]
    case Replace(with) => ToMap(with)
  }

  /** A key is in the map exactly when some pair has it. */
  lemma {:induction false} KeysOfToMap(c: Contents, k: Key)
    ensures k in ToMap(c) <==> Position(c, k) < |c|
  {
    if c != [] {
      var init := c[..|c| - 1];
      KeysOfToMap(init, k);
      var i, j := Position(c, k), Position(init, k);
      if j < |init| {
        assert c[j].0 == k;
      }
    }
  }

  lemma {:induction false} ValuesOfToMap(c: Contents, i: nat)
    requires DistinctKeys(c) && i < |c|
    ensures c[i].0 in ToMap(c) && ToMap(c)[c[i].0] == c[i].1
  {
    var n := |c| - 1;
    if i < n {
      ValuesOfToMap(c[..n], i);
    }
  }

  lemma GetIsLookup(c: Contents, k: Key)
    requires DistinctKeys(c)
    ensures Get(c, k) == if k in ToMap(c) then Some(ToMap(c)[k]) else None
  {
    KeysOfToMap(c, k);
    if Position(c, k) < |c| {
      ValuesOfToMap(c, Position(c, k));
    }
  }

  lemma AbsentKey(c: Contents, k: Key)
    requires forall i :: 0 <= i < |c| ==> c[i].0 != k
    ensures k !in ToMap(c)
  {
    KeysOfToMap(c, k);
  }

  /** Every selected pair is one of the pairs. */
  lemma {:induction false} SelectIsSubset(c: Contents, keep: (Key, Value) -> bool)
    ensures forall p :: p in Select(c, keep) ==> p in c && keep(p.0, p.1)
  {
    if c != [] {
      SelectIsSubset(c[..|c| - 1], keep);
      assert c == c[..|c| - 1] + [c[|c| - 1]];
    }
  }

  lemma {:induction false} SelectIsDistinct(c: Contents, keep: (Key, Value) -> bool)
    requires DistinctKeys(c)
    ensures DistinctKeys(Select(c, keep))
  {
    if c != [] {
      var init := c[..|c| - 1];
      SelectIsDistinct(init, keep);
      SelectIsSubset(init, keep);
      var s := Select(init, keep);
      forall i | 0 <= i < |s| ensures s[i].0 != c[|c| - 1].0 {
        assert s[i] in init;
      }
    }
  }

  lemma RetainOfUpdate(m: map<Key, Value>, k: Key, v: Value, keep: (Key, Value) -> bool)
    requires k !in m
    ensures MapUpdate(m[k := v], Retain(keep))
         == if keep(k, v) then MapUpdate(m, Retain(keep))[k := v] else MapUpdate(m, Retain(keep))
  {
  }

  lemma {:induction false} SelectRefines(c: Contents, keep: (Key, Value) -> bool)
    requires DistinctKeys(c)
    ensures ToMap(Select(c, keep)) == MapUpdate(ToMap(c), Retain(keep))
  {
    if c == [] {
      assert MapUpdate(map[], Retain(keep)) == map[];
    } else {
      var init, last := c[..|c| - 1], c[|c| - 1];
      SelectRefines(init, keep);
      AbsentKey(init, last.0);
      RetainOfUpdate(ToMap(init), last.0, last.1, keep);
      var s := Select(init, keep);
      assert (s + [last])[..|s|] == s && s + [] == s;
    }
  }

  lemma {:induction false} ToMapAppend(a: Contents, b: Contents)
    ensures ToMap(a + b) == ToMap(a) + ToMap(b)
  {
    if b == [] {
      assert a + b == a;
    } else {
      ToMapAppend(a, b[..|b| - 1]);
      assert (a + b)[..|a + b| - 1] == a + b[..|b| - 1];
    }
  }

  lemma DropMiddle(a: map<Key, Value>, k: Key, v: Value, b: map<Key, Value>)
    requires k !in a && k !in b
    ensures (a + (map[k := v] + b)) - {k} == a + b
  {
  }

  lemma CutIsDistinct(c: Contents, i: nat)
    requires DistinctKeys(c) && i < |c|
    ensures DistinctKeys(c[..i] + c[i + 1..])
  {
    var r := c[..i] + c[i + 1..];
    assert forall j :: 0 <= j < |r| ==> r[j] == c[if j < i then j else j + 1];
  }

  lemma RemoveRefines(c: Contents, k: Key)
    requires DistinctKeys(c)
    ensures DistinctKeys(Update(c, Remove(k)))
    ensures ToMap(Update(c, Remove(k))) == ToMap(c) - {k}
  {
    var i := Position(c, k);
    KeysOfToMap(c, k);
    if i < |c| {
      ToMapAround(c, i);
      ToMapAppend(c[..i], c[i + 1..]);
      AbsentKey(c[..i], k);
      AbsentKey(c[i + 1..], k);
      DropMiddle(ToMap(c[..i]), k, c[i].1, ToMap(c[i + 1..]));
      CutIsDistinct(c, i);
    }
  }

  lemma ToMapAround(c: Contents, i: nat)
    requires i < |c|
    ensures ToMap(c) == ToMap(c[..i]) + (map[c[i].0 := c[i].1] + ToMap(c[i + 1..]))
  {
    var a: Contents, b: Contents, one: Contents := c[..i], c[i + 1..], [c[i]];
    assert c == a + (one + b);
    assert one[..0] == [];
    assert ToMap(one) == map[c[i].0 := c[i].1];
    ToMapAppend(a, one + b);
    ToMapAppend(one, b);
  }

  lemma InsertRefines(c: Contents, k: Key, v: Value)
    requires DistinctKeys(c)
    ensures DistinctKeys(Update(c, Insert(k, v)))
    ensures ToMap(Update(c, Insert(k, v))) == ToMap(c)[k := v]
  {
    var s := Select(c, Others(k));
    SelectRefines(c, Others(k));
    SelectIsDistinct(c, Others(k));
    SelectIsSubset(c, Others(k));
    assert (s + [(k, v)])[..|s|] == s;
    forall i | 0 <= i < |s| ensures s[i].0 != k {
      assert s[i] in s;
    }
    assert MapUpdate(ToMap(c), Retain(Others(k)))[k := v] == ToMap(c)[k := v];
  }

  /** What a `FrimMap` given to `replace` always is. */
  predicate Proper(op: Op) {
    op.Replace? ==> DistinctKeys(op.with)
  }

  /** Each update of the contents is the update of the map they stand for. */
  lemma UpdateRefines(c: Contents, op: Op)
    requires DistinctKeys(c) && Proper(op)
    ensures DistinctKeys(Update(c, op))
    ensures ToMap(Update(c, op)) == MapUpdate(ToMap(c), op)
  {
    match op
    case Insert(k, v) => InsertRefines(c, k, v);
    case Remove(k) => RemoveRefines(c, k);
    case Retain(keep) =>
      SelectRefines(c, keep);
      SelectIsDistinct(c, keep);
    case Replace(with) =>
  }

  // ----------------------------------------------------- concurrent updates

  type Tid = nat

  /** A call in progress: the contents it loaded, and what a removal has found so far. */
  datatype Call = Call(op: Op, loaded: nat, found: Option<Value>)

  /**
   `published` is every contents that was ever shared, oldest first; the last
   one is current and a pointer is a position in it, so no pointer recurs while
   it is held. `log` is the committed updates in commit order.
   */
  datatype Sys = Sys(published: seq<Contents>, calls: map<Tid, Call>, guards: map<nat, nat>, log: seq<Op>)

  datatype Step =
    | Load(t: Tid, op: Op)
    | Swap(t: Tid)               // compute and compare-and-swap: commit or retry
    | Store(with: Contents)      // replace
    | TakeGuard(g: nat)

  function Found(s: Sys, call: Call): Option<Value>
    requires call.loaded < |s.published|
  {
    if call.op.Remove? && Get(s.published[call.loaded], call.op.k).Some?
    then Get(s.published[call.loaded], call.op.k)
    else call.found
  }

  predicate Enabled(s: Sys, step: Step) {
    match step
    case Load(t, op) => t !in s.calls && !op.Replace?
    case Swap(t) => t in s.calls && s.calls[t].loaded < |s.published|
    case Store(with) => DistinctKeys(with)
    case TakeGuard(g) => g !in s.guards
  }

  function Next(s: Sys, step: Step): Sys
    requires Enabled(s, step) && |s.published| > 0
  {
    var current := |s.published| - 1;
    match step
    case Load(t, op) => s.(calls := s.calls[t := Call(op, current, None)])
    case Swap(t) =>
      var call := s.calls[t];
      if call.loaded == current
      then s.(published := s.published + [Update(s.published[current], call.op)],
              calls := s.calls - {t}, log := s.log + [call.op])
      else s.(calls := s.calls[t := call.(loaded := current, found := Found(s, call))])
    case Store(with) => s.(published := s.published + [with], log := s.log + [Replace(with)])
    case TakeGuard(g) => s.(guards := s.guards[g := current])
  }

  ghost predicate Run(states: seq<Sys>, steps: seq<Step>) {
    && |states| == |steps| + 1
    && states[0] == Sys([[]], map[], map[], [])
    && (forall i :: 0 <= i < |states| ==> |states[i].published| > 0)
    && forall i :: 0 <= i < |steps| ==> Enabled(states[i], steps[i]) && states[i + 1] == Next(states[i], steps[i])
  }

  /** Each published contents is the update of the one before it by the operation logged for it. */
  ghost predicate Chained(s: Sys) {
    && |s.published| == |s.log| + 1
    && s.published[0] == []
    && forall i :: 0 <= i < |s.log| ==> Proper(s.log[i]) && s.published[i + 1] == Update(s.published[i], s.log[i])
  }

  ghost predicate Inv(s: Sys) {
    && Chained(s)
    && (forall t :: t in s.calls ==> s.calls[t].loaded < |s.published| && !s.calls[t].op.Replace?)
    && (forall g :: g in s.guards ==> s.guards[g] < |s.published|)
  }

  lemma StepKeepsInv(s: Sys, step: Step)
    requires Inv(s) && Enabled(s, step)
    ensures Inv(Next(s, step))
    ensures s.published <= Next(s, step).published && s.log <= Next(s, step).log
  {
    var last := s.published[|s.published| - 1];
    match step
    case Swap(t) => CommitKeepsChain(s, s.calls[t].op);
    case Store(with) => CommitKeepsChain(s, Replace(with));
    case _ =>
  }

  lemma CommitKeepsChain(s: Sys, op: Op)
    requires Chained(s) && Proper(op)
    ensures var last := s.published[|s.published| - 1];
      Chained(s.(published := s.published + [Update(last, op)], log := s.log + [op]))
  {
    var last := s.published[|s.published| - 1];
    var t := s.(published := s.published + [Update(last, op)], log := s.log + [op]);
    forall i | 0 <= i < |t.log| ensures Proper(t.log[i]) && t.published[i + 1] == Update(t.published[i], t.log[i]) {
      if i < |s.log| {
        assert t.log[i] == s.log[i] && t.published[i] == s.published[i] && t.published[i + 1] == s.published[i + 1];
      }
    }
  }

  lemma {:induction false} RunKeepsInv(states: seq<Sys>, steps: seq<Step>, n: nat)
    requires Run(states, steps) && n < |states|
    ensures Inv(states[n])
  {
    if n > 0 {
      RunKeepsInv(states, steps, n - 1);
      StepKeepsInv(states[n - 1], steps[n - 1]);
    }
  }

  function Replay(log: seq<Op>): map<Key, Value> {
    if log == [] then map[] else MapUpdate(Replay(log[..|log| - 1]), log[|log| - 1])
  }

  lemma {:induction false} ChainIsReplay(s: Sys, i: nat)
    requires Chained(s) && i < |s.published|
    ensures DistinctKeys(s.published[i]) && ToMap(s.published[i]) == Replay(s.log[..i])
  {
    if i > 0 {
      ChainIsReplay(s, i - 1);
      assert s.log[..i][..i - 1] == s.log[..i - 1];
      UpdateRefines(s.published[i - 1], s.log[i - 1]);
    }
  }

  /**
   In every interleaving the contents are what applying the committed updates,
   in commit order, makes of a plain map: none is lost, none applied twice, and
   keys stay distinct.
   */
  lemma ContentsAreTheReplayedLog(states: seq<Sys>, steps: seq<Step>, n: nat)
    requires Run(states, steps) && n < |states|
    ensures var c := states[n].published[|states[n].published| - 1];
      && DistinctKeys(c)
      && ToMap(c) == Replay(states[n].log)
      && forall k :: Get(c, k) == if k in Replay(states[n].log) then Some(Replay(states[n].log)[k]) else None
  {
    RunKeepsInv(states, steps, n);
    var s := states[n];
    var last := |s.published| - 1;
    ChainIsReplay(s, last);
    assert s.log[..last] == s.log;
    forall k: Key ensures Get(s.published[last], k) == if k in Replay(s.log) then Some(Replay(s.log)[k]) else None {
      GetIsLookup(s.published[last], k);
    }
  }

  // ------------------------------------------------------------- whole calls

  /** A call of `t` that loads at step `m` is in progress up to state `n`. */
  ghost predicate Spans(states: seq<Sys>, steps: seq<Step>, t: Tid, op: Op, m: nat, n: nat) {
    && m < n < |states| && m < |steps| && steps[m] == Load(t, op)
    && forall i :: m < i <= n ==> t in states[i].calls
  }

  /** Step `n` ends the call. */
  ghost predicate Ends(states: seq<Sys>, steps: seq<Step>, t: Tid, n: nat) {
    n < |steps| && n + 1 < |states| && steps[n] == Swap(t) && t !in states[n + 1].calls
  }

  lemma {:induction false} OpOfCall(states: seq<Sys>, steps: seq<Step>, t: Tid, op: Op, m: nat, n: nat)
    requires Run(states, steps) && Spans(states, steps, t, op, m, n)
    ensures states[n].calls[t].op == op
  {
    assert states[n] == Next(states[n - 1], steps[n - 1]);
    if m + 1 < n {
      OpOfCall(states, steps, t, op, m, n - 1);
    }
  }

  lemma {:induction false} LogOnlyGrows(states: seq<Sys>, steps: seq<Step>, i: nat, j: nat)
    requires Run(states, steps) && i <= j < |states|
    ensures states[i].log <= states[j].log
    decreases j - i
  {
    if i < j {
      LogOnlyGrows(states, steps, i, j - 1);
      RunKeepsInv(states, steps, j - 1);
      StepKeepsInv(states[j - 1], steps[j - 1]);
    }
  }

  /** The steps among the first `n` that commit: the ends of calls, and stores. */
  ghost function Commits(states: seq<Sys>, steps: seq<Step>, n: nat): nat
    requires n <= |steps|
  {
    if n == 0 then 0 else
    var step := steps[n - 1];
    Commits(states, steps, n - 1) + if step.Store? || (step.Swap? && Ends(states, steps, step.t, n - 1)) then 1 else 0
  }

  /** The log holds one operation for every ended call and every store, and nothing else. */
  lemma {:induction false} LogCountsCommits(states: seq<Sys>, steps: seq<Step>, n: nat)
    requires Run(states, steps) && n <= |steps|
    ensures |states[n].log| == Commits(states, steps, n)
  {
    if n > 0 {
      LogCountsCommits(states, steps, n - 1);
      assert states[n] == Next(states[n - 1], steps[n - 1]);
    }
  }

  /**
   A call that ends puts its operation at the end of the log, in a place that
   no other commit takes and where every later state still has it.
   */
  lemma EachCallCommitsOnce(states: seq<Sys>, steps: seq<Step>, t: Tid, op: Op, m: nat, n: nat, j: nat)
    requires Run(states, steps) && Spans(states, steps, t, op, m, n) && Ends(states, steps, t, n) && n < j < |states|
    ensures states[n + 1].log == states[n].log + [op]
    ensures |states[n].log| == Commits(states, steps, n) < |states[j].log| && states[j].log[|states[n].log|] == op
  {
    OpOfCall(states, steps, t, op, m, n);
    assert states[n + 1] == Next(states[n], steps[n]);
    LogOnlyGrows(states, steps, n + 1, j);
    LogCountsCommits(states, steps, n);
  }

  /** What a guard shows never changes, whatever is committed after it was taken. */
  lemma {:induction false} GuardsAreFrozen(states: seq<Sys>, steps: seq<Step>, i: nat, j: nat, g: nat)
    requires Run(states, steps) && i <= j < |states| && g in states[i].guards
    ensures g in states[j].guards && states[j].guards[g] == states[i].guards[g]
    ensures states[i].guards[g] < |states[i].published| <= |states[j].published|
    ensures states[j].published[states[j].guards[g]] == states[i].published[states[i].guards[g]]
    decreases j - i
  {
    RunKeepsInv(states, steps, i);
    if i < j {
      GuardsAreFrozen(states, steps, i, j - 1, g);
      RunKeepsInv(states, steps, j - 1);
      StepKeepsInv(states[j - 1], steps[j - 1]);
    }
  }

  // ------------------------------------------------- what `remove` returns

  /** The value a committing removal returns: set by any attempt, not only the one that commits. */
  function Returned(s: Sys, t: Tid): Option<Value>
    requires t in s.calls && s.calls[t].loaded < |s.published|
  {
    Found(s, s.calls[t])
  }

  predicate LoadedHolds(s: Sys, t: Tid, k: Key) {
    t in s.calls && s.calls[t].loaded < |s.published| && Get(s.published[s.calls[t].loaded], k).Some?
  }

  /** Some retry of the call had loaded contents that held the key. */
  ghost predicate RetrySaw(states: seq<Sys>, steps: seq<Step>, t: Tid, k: Key, m: nat, n: nat) {
    exists i :: m < i < n && i < |steps| && i < |states| && steps[i] == Swap(t) && LoadedHolds(states[i], t, k)
  }

  lemma FoundByStep(s: Sys, step: Step, t: Tid, k: Key)
    requires Enabled(s, step) && |s.published| > 0
    requires t in s.calls && t in Next(s, step).calls && s.calls[t].op == Remove(k)
    ensures Next(s, step).calls[t].found.Some? <==>
      s.calls[t].found.Some? || (step == Swap(t) && LoadedHolds(s, t, k))
  {
  }

  lemma {:induction false} FoundByRetries(states: seq<Sys>, steps: seq<Step>, t: Tid, k: Key, m: nat, n: nat)
    requires Run(states, steps) && Spans(states, steps, t, Remove(k), m, n)
    ensures states[n].calls[t].found.Some? <==> RetrySaw(states, steps, t, k, m, n)
  {
    var p := n - 1;
    assert states[n] == Next(states[p], steps[p]);
    if m < p {
      FoundByRetries(states, steps, t, k, m, p);
      OpOfCall(states, steps, t, Remove(k), m, p);
      FoundByStep(states[p], steps[p], t, k);
      if steps[p] == Swap(t) && LoadedHolds(states[p], t, k) {
        assert RetrySaw(states, steps, t, k, m, n);
      } else if RetrySaw(states, steps, t, k, m, n) {
        var i :| m < i < n && i < |steps| && steps[i] == Swap(t) && LoadedHolds(states[i], t, k);
        assert i < p;
      }
    }
  }

  /**
   Over a whole call: the returned value is the removed one exactly when the key
   is there at the commit, or no retry since the load had loaded contents that
   held it.
   */
  lemma RemoveReturnsWhatItRemovedExactlyWhen(states: seq<Sys>, steps: seq<Step>, t: Tid, k: Key, m: nat, n: nat)
    requires Run(states, steps) && Spans(states, steps, t, Remove(k), m, n) && Ends(states, steps, t, n)
    ensures Enabled(states[n], Swap(t))
    ensures var removed := Get(states[n].published[|states[n].published| - 1], k);
      Returned(states[n], t) == removed <==> removed.Some? || !RetrySaw(states, steps, t, k, m, n)
  {
    FoundByRetries(states, steps, t, k, m, n);
    OpOfCall(states, steps, t, Remove(k), m, n);
    assert Enabled(states[n], steps[n]) && states[n + 1] == Next(states[n], steps[n]);
  }

  /** Without a commit since the load, the call is still on the current contents and has not retried. */
  lemma {:induction false} UncontendedIsCurrent(states: seq<Sys>, steps: seq<Step>, t: Tid, op: Op, m: nat, n: nat)
    requires Run(states, steps) && Spans(states, steps, t, op, m, n) && |states[n].log| == |states[m].log|
    ensures states[n].calls[t] == Call(op, |states[n].published| - 1, None)
  {
    var p := n - 1;
    RunKeepsInv(states, steps, n);
    RunKeepsInv(states, steps, p);
    assert states[n] == Next(states[p], steps[p]);
    if m < p {
      LogOnlyGrows(states, steps, m, p);
      LogOnlyGrows(states, steps, p, n);
      UncontendedIsCurrent(states, steps, t, op, m, p);
    }
  }

  /** So a removal that nobody got ahead of commits at once and returns what it removed. */
  lemma UncontendedRemoveReturnsIt(states: seq<Sys>, steps: seq<Step>, t: Tid, k: Key, m: nat, n: nat)
    requires Run(states, steps) && Spans(states, steps, t, Remove(k), m, n) && |states[n].log| == |states[m].log|
    requires n < |steps| && steps[n] == Swap(t)
    ensures Ends(states, steps, t, n) && Enabled(states[n], Swap(t))
    ensures Returned(states[n], t) == Get(states[n].published[|states[n].published| - 1], k)
  {
    UncontendedIsCurrent(states, steps, t, Remove(k), m, n);
    assert Enabled(states[n], steps[n]) && states[n + 1] == Next(states[n], steps[n]);
  }

  // Two removals of the one value in a map, from the empty map on.

  const INS: Op := Insert(5, 7)
  const REM: Op := Remove(5)
  const ONE: Contents := [(5, 7)]

  function ExampleStep(i: nat): Step {
    if i == 0 then Load(0, INS) else if i == 1 then Swap(0)
    else if i == 2 then Load(1, REM) else if i == 3 then Load(2, REM)
    else if i == 4 then Swap(1) else Swap(2)
  }

  function ExampleState(i: nat): Sys {
    if i == 0 then Sys([[]], map[], map[], [])
    else if i == 1 then Sys([[]], map[0 := Call(INS, 0, None)], map[], [])
    else if i == 2 then Sys([[], ONE], map[], map[], [INS])
    else if i == 3 then Sys([[], ONE], map[1 := Call(REM, 1, None)], map[], [INS])
    else if i == 4 then Sys([[], ONE], map[1 := Call(REM, 1, None), 2 := Call(REM, 1, None)], map[], [INS])
    else if i == 5 then Sys([[], ONE, []], map[2 := Call(REM, 1, None)], map[], [INS, REM])
    else if i == 6 then Sys([[], ONE, []], map[2 := Call(REM, 2, Some(7))], map[], [INS, REM])
    else Sys([[], ONE, [], []], map[], map[], [INS, REM, REM])
  }

  lemma UpdatesOfOne()
    ensures Update([], INS) == ONE && Get(ONE, 5) == Some(7) && Update(ONE, REM) == [] && Update([], REM) == []
  {
    assert Position(ONE, 5) == 0;
    assert ONE[..0] + ONE[1..] == [];
  }

  lemma ExampleNext(i: nat)
    requires i < 7
    ensures Enabled(ExampleState(i), ExampleStep(i))
    ensures Next(ExampleState(i), ExampleStep(i)) == ExampleState(i + 1)
  {
    UpdatesOfOne();
    var s := Next(ExampleState(i), ExampleStep(i));
    assert s.published == ExampleState(i + 1).published;
    assert s.calls == ExampleState(i + 1).calls;
  }

  /** Both removals end, one after the other, and both return the value. */
  lemma BothRemoversReturnIt() returns (states: seq<Sys>, steps: seq<Step>)
    ensures Run(states, steps) && |steps| == 7
    ensures steps[2] == Load(1, REM) && steps[3] == Load(2, REM)
    ensures Ends(states, steps, 1, 4) && Enabled(states[4], Swap(1)) && Returned(states[4], 1) == Some(7)
    ensures Ends(states, steps, 2, 6) && Enabled(states[6], Swap(2)) && Returned(states[6], 2) == Some(7)
    ensures states[7].log == [INS, REM, REM]
  {
    states := seq(8, i requires 0 <= i < 8 => ExampleState(i));
    steps := seq(7, i requires 0 <= i < 7 => ExampleStep(i));
    forall i | 0 <= i < 7 ensures Enabled(states[i], steps[i]) && states[i + 1] == Next(states[i], steps[i]) {
      ExampleNext(i);
    }
    UpdatesOfOne();
  }
}
