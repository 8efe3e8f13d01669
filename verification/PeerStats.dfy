/**
 Adj-RIB-In gauges: an aggregate kept beside a per-family map, and a registry
 in which the path children of a session share the session's gauges.
 */
module PeerStats {
  import opened Prelude
  import MapSum

  type Id = nat
  type Family = (nat, nat)   // AFI, SAFI

  datatype Gauges = Gauges(families: map<Family, nat>, routes: nat)

  function At(g: Gauges, f: Family): nat {
    if f in g.families then g.families[f] else 0
  }

  datatype Op = Add(f: Family, n: nat) | Sub(f: Family, n: nat) | Reset | ResetFamily(f: Family)

  /** 64-bit arithmetic as written: a family's count wraps, the aggregate saturates at both ends. */
  function Apply(g: Gauges, op: Op): Gauges {
    match op
    case Add(f, n) =>
      if n == 0 then g
      else Gauges(g.families[f := (At(g, f) + n) % U64], Min(g.routes + n, U64 - 1))
    case Sub(f, n) =>
      if n == 0 then g
      else
        var dec := Min(At(g, f), n);
        Gauges(g.families[f := At(g, f) - dec], if dec <= g.routes then g.routes - dec else 0)
    case Reset => Gauges(map[], 0)
    case ResetFamily(f) =>
      var dropped := At(g, f);
      Gauges(g.families - {f}, if dropped <= g.routes then g.routes - dropped else 0)
  }

  ghost predicate Agree(g: Gauges) {
    g.routes == MapSum.Sum(g.families) < U64
  }

  /** The only operation that can break the agreement is an addition whose total does not fit. */
  predicate Fits(g: Gauges, op: Op) {
    op.Add? ==> g.routes + op.n < U64
  }

  /** The amount by which the aggregate would have to fall below zero for a subtraction to saturate. */
  function Taken(g: Gauges, op: Op): nat {
    match op
    case Sub(f, n) => Min(At(g, f), n)
    case ResetFamily(f) => At(g, f)
    case _ => 0
  }

  lemma SumWithout(m: map<Family, nat>, f: Family)
    ensures MapSum.Sum(m) == MapSum.Sum(m - {f}) + (if f in m then m[f] else 0)
  {
    if f in m {
      MapSum.TakeOut(m, f);
    } else {
      assert m - {f} == m;
    }
  }

  lemma WrapsOnce(x: nat)
    requires x < 2 * U64
    ensures x % U64 == if x < U64 then x else x - U64
  {
  }

  lemma AddKeepsAgreement(g: Gauges, f: Family, n: nat)
    requires Agree(g) && n < U64
    ensures Agree(Apply(g, Add(f, n))) <==> Fits(g, Add(f, n))
  {
    SumWithout(g.families, f);
    if n > 0 {
      WrapsOnce(At(g, f) + n);
      MapSum.Insert(g.families, f, (At(g, f) + n) % U64);
    }
  }

  /**
   Aggregate and sum stay equal exactly as long as the total fits in 64 bits,
   and the subtraction from the aggregate never saturates.
   */
  lemma OperationKeepsAgreement(g: Gauges, op: Op)
    requires Agree(g) && (op.Add? ==> op.n < U64)
    ensures Agree(Apply(g, op)) <==> Fits(g, op)
    ensures Taken(g, op) <= g.routes
  {
    match op
    case Reset =>
    case Add(f, n) => AddKeepsAgreement(g, f, n);
    case Sub(f, n) =>
      SumWithout(g.families, f);
      if n > 0 {
        MapSum.Insert(g.families, f, At(g, f) - Min(At(g, f), n));
      }
    case ResetFamily(f) =>
      SumWithout(g.families, f);
  }

  function ApplyAll(g: Gauges, ops: seq<Op>): Gauges {
    if ops == [] then g else Apply(ApplyAll(g, ops[..|ops| - 1]), ops[|ops| - 1])
  }

  ghost predicate AllFit(g: Gauges, ops: seq<Op>) {
    forall i :: 0 <= i < |ops| ==> Fits(ApplyAll(g, ops[..i]), ops[i]) && (ops[i].Add? ==> ops[i].n < U64)
  }

  /** Over any sequence of operations the aggregate is the sum of the families. */
  lemma {:induction false} RunKeepsAgreement(g: Gauges, ops: seq<Op>)
    requires Agree(g) && AllFit(g, ops)
    ensures Agree(ApplyAll(g, ops))
  {
    if ops != [] {
      var init := ops[..|ops| - 1];
      assert forall i :: 0 <= i < |init| ==> init[..i] == ops[..i];
      RunKeepsAgreement(g, init);
      assert Fits(ApplyAll(g, init), ops[|ops| - 1]);
      OperationKeepsAgreement(ApplyAll(g, init), ops[|ops| - 1]);
    }
  }

  // ------------------------------------------------------------- the objects

  class BgpPeerStats {
    var families: map<Family, nat>
    var routes: nat

    constructor ()
      ensures Now() == Gauges(map[], 0) && Agree(Now())
    {
      families, routes := map[], 0;
    }

    function Now(): Gauges
      reads this
    {
      Gauges(families, routes)
    }

    method AddAdjRibIn(f: Family, n: nat)
      modifies this
      ensures Now() == Apply(old(Now()), Add(f, n))
      ensures Agree(old(Now())) && n < U64 ==> (Agree(Now()) <==> old(routes) + n < U64)
    {
      if Agree(Now()) && n < U64 {
        OperationKeepsAgreement(Now(), Add(f, n));
      }
      if n == 0 {
        return;
      }
      families := families[f := ((if f in families then families[f] else 0) + n) % U64];
      routes := Min(routes + n, U64 - 1);
    }

    method SubAdjRibIn(f: Family, n: nat)
      modifies this
      ensures Now() == Apply(old(Now()), Sub(f, n))
      ensures Agree(old(Now())) ==> Agree(Now()) && routes == old(routes) - Min(At(old(Now()), f), n)
    {
      if Agree(Now()) {
        OperationKeepsAgreement(Now(), Sub(f, n));
      }
      if n == 0 {
        return;
      }
      var cur := if f in families then families[f] else 0;
      var dec := Min(cur, n);
      families := families[f := cur - dec];
      routes := if dec <= routes then routes - dec else 0;
    }

    method ResetAdjRibIn()
      modifies this
      ensures Now() == Apply(old(Now()), Reset) && Agree(Now())
    {
      families, routes := map[], 0;
    }

    method ResetAdjRibInFamily(f: Family)
      modifies this
      ensures Now() == Apply(old(Now()), ResetFamily(f))
      ensures Agree(old(Now())) ==> Agree(Now()) && routes == old(routes) - At(old(Now()), f)
    {
      if Agree(Now()) {
        OperationKeepsAgreement(Now(), ResetFamily(f));
      }
      var dropped := if f in families then families[f] else 0;
      families := families - {f};
      routes := if dropped <= routes then routes - dropped else 0;
    }
  }

  datatype Entry = Session(stats: BgpPeerStats) | Alias(stats: BgpPeerStats)

  class Registry {
    var entries: map<Id, Entry>
    var len: nat

    /** No two sessions share gauges, and `len` mirrors the map. */
    ghost predicate Valid()
      reads this
    {
      && len == |entries|
      && forall a, b :: a in entries && b in entries && a != b && entries[a].Session? && entries[b].Session?
           ==> entries[a].stats != entries[b].stats
    }

    ghost function Gauged(): set<BgpPeerStats>
      reads this
    {
      set a | a in entries :: entries[a].stats
    }

    /** Every gauge that an id leads to is the sum of its families. */
    ghost predicate AllAgree()
      reads this, Gauged()
    {
      forall a :: a in entries ==> Agree(entries[a].stats.Now())
    }

    constructor ()
      ensures Valid() && entries == map[] && AllAgree()
    {
      entries, len := map[], 0;
    }

    method GetOrCreate(id: Id) returns (stats: BgpPeerStats)
      requires Valid()
      modifies this
      ensures Valid() && id in entries && entries[id].stats == stats
      ensures old(AllAgree()) ==> AllAgree()
      ensures id in old(entries) ==> entries == old(entries)
      ensures id !in old(entries) ==>
        entries == old(entries)[id := Session(stats)] && fresh(stats) && stats.Now() == Gauges(map[], 0)
    {
      if id in entries {
        return entries[id].stats;
      }
      stats := new BgpPeerStats();
      entries := entries[id := Session(stats)];
      len := |entries|;
    }

    /** Points `child` at the gauges of `parent`; refused when the parent is unknown. */
    method AliasTo(child: Id, parent: Id) returns (ok: bool)
      requires Valid()
      modifies this
      ensures Valid() && (ok <==> parent in old(entries))
      ensures old(AllAgree()) ==> AllAgree()
      ensures ok ==> entries == old(entries)[child := Alias(old(entries)[parent].stats)]
      ensures !ok ==> entries == old(entries)
    {
      if parent !in entries {
        return false;
      }
      entries := entries[child := Alias(entries[parent].stats)];
      len := |entries|;
      return true;
    }

    method RemoveEntry(id: Id)
      requires Valid()
      modifies this
      ensures Valid() && entries == old(entries) - {id}
      ensures old(AllAgree()) ==> AllAgree()
    {
      entries := entries - {id};
      len := |entries|;
    }

    /** An operation through `id`, a session or an alias of it, lands on the session's gauges and on no others. */
    method Operate(id: Id, op: Op) returns (found: bool)
      requires Valid()
      modifies Gauged()
      ensures found <==> id in entries
      ensures found ==> entries[id].stats.Now() == Apply(old(entries[id].stats.Now()), op)
      ensures found && Agree(old(entries[id].stats.Now())) && (op.Add? ==> op.n < U64) ==>
        (Agree(entries[id].stats.Now()) <==> Fits(old(entries[id].stats.Now()), op))
      ensures old(AllAgree()) && (id in entries && op.Add? ==> op.n < U64 && Fits(old(entries[id].stats.Now()), op)) ==> AllAgree()
      ensures forall a :: a in entries && (!found || entries[a].stats != entries[id].stats) ==>
        entries[a].stats.Now() == old(entries[a].stats.Now())
    {
      if id !in entries {
        return false;
      }
      var stats := entries[id].stats;
      found := true;
      match op
      case Add(f, n) => stats.AddAdjRibIn(f, n);
      case Sub(f, n) => stats.SubAdjRibIn(f, n);
      case Reset => stats.ResetAdjRibIn();
      case ResetFamily(f) => stats.ResetAdjRibInFamily(f);
    }

    /** Every session once, with its own gauges, and no alias. */
    method SnapshotAll() returns (out: seq<(Id, Gauges)>)
      requires Valid()
      ensures forall i, j :: 0 <= i < j < |out| ==> out[i].0 != out[j].0
      ensures forall i :: 0 <= i < |out| ==>
        out[i].0 in entries && entries[out[i].0].Session? && out[i].1 == entries[out[i].0].stats.Now()
      ensures forall a :: a in entries && entries[a].Session? ==> exists i :: 0 <= i < |out| && out[i].0 == a
    {
      out := [];
      var todo := entries.Keys;
      while todo != {}
        invariant todo <= entries.Keys
        invariant forall i :: 0 <= i < |out| ==>
          && out[i].0 in entries && out[i].0 !in todo
          && entries[out[i].0].Session? && out[i].1 == entries[out[i].0].stats.Now()
        invariant forall i, j :: 0 <= i < j < |out| ==> out[i].0 != out[j].0
        invariant forall a :: a in entries && a !in todo && entries[a].Session? ==>
          exists i :: 0 <= i < |out| && out[i].0 == a
        decreases |todo|
      {
        var id :| id in todo;
        todo := todo - {id};
        if entries[id].Session? {
          ghost var before := out;
          out := out + [(id, entries[id].stats.Now())];
          assert out[|before|].0 == id;
          assert forall i :: 0 <= i < |before| ==> out[i] == before[i];
        }
      }
    }
  }
}
