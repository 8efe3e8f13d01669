/**
 The register as the object its methods update. Every method is shown to take
 exactly the step that the theorems of `IngressRegister` are about.
 */
module IngressTable {
  import opened Prelude
  import opened IngressRegister

  class Register {
    var serial: Id
    var info: map<Id, Info>

    constructor ()
      ensures State() == Reg(1, map[])
    {
      serial, info := 1, map[];
    }

    function State(): Reg
      reads this
    {
      Reg(serial, info)
    }

    method NewIngressId() returns (id: Id)
      modifies this
      ensures id == old(serial) && State() == Apply(old(State()), NewId)
    {
      id := serial;
      serial := (serial + 1) % 0x1_0000_0000;
    }

    method Update(id: Id, n: Info)
      modifies this
      ensures State() == Apply(old(State()), UpdateInfo(id, n))
    {
      if id in info {
        var o := info[id];
        info := info - {id};
        if n.state == Some(Connected) && o.state != Some(Connected) {
          o := o.(generation := Bump(o.generation));
        }
        o := o.(revision := Bump(o.revision));
        info := info[id := Overwrite(o, n)];
      } else {
        info := info[id := n];
      }
    }

    method RemoveEntry(id: Id) returns (removed: Option<Info>)
      modifies this
      ensures State() == Apply(old(State()), Remove(id))
      ensures removed == if id in old(info) then Some(old(info)[id]) else None
    {
      removed := if id in info then Some(info[id]) else None;
      info := info - {id};
    }

    method RemoveDisconnected(id: Id) returns (removed: Option<Info>)
      modifies this
      ensures State() == Apply(old(State()), RemoveIfDisconnected(id))
      ensures removed.Some? <==> info != old(info)
    {
      if id in info && info[id].state == Some(Disconnected) {
        removed := Some(info[id]);
        info := info - {id};
      } else {
        removed := None;
      }
    }

    method Disconnect(id: Id) returns (known: bool)
      modifies this
      ensures State() == Apply(old(State()), MarkDisconnected(id))
      ensures known <==> id in old(info)
    {
      if id !in info {
        return false;
      }
      info := info[id := info[id].(state := Some(Disconnected), revision := Bump(info[id].revision))];
      return true;
    }

    method RefreshPathChild(id: Id, parent: Id, pathId: nat) returns (valid: bool)
      modifies this
      ensures State() == Apply(old(State()), Refresh(id, parent, pathId))
      ensures valid <==> Refreshes(old(State()), id, parent, pathId)
    {
      if id !in info {
        return false;
      }
      var o := info[id];
      if o.ingressType != Some(BgpPath) || o.parent != Some(parent) || o.pathId != Some(pathId) {
        return false;
      }
      info := info[id := o.(activity := Bump(o.activity), state := Some(Connected))];
      return true;
    }

    method RetirePathChild(id: Id, observed: u64) returns (retired: bool)
      modifies this
      ensures State() == Apply(old(State()), Retire(id, observed))
      ensures retired <==> Retires(old(State()), id, observed)
    {
      if id !in info {
        return false;
      }
      var o := info[id];
      if o.ingressType != Some(BgpPath) || o.state != Some(Connected) || o.activity != observed || observed == MAX {
        return false;
      }
      info := info[id := o.(state := Some(Disconnected), revision := Bump(o.revision))];
      return true;
    }

    /** The search loop of the four claims, over the entries in the order the map gives them. */
    method FirstMatch(order: seq<Id>, eligible: Info -> bool) returns (hit: Option<Id>)
      requires forall id :: id in order <==> id in info
      ensures hit.Some? ==> hit.value in info && eligible(info[hit.value])
      ensures hit == None ==> forall id :: id in info ==> !eligible(info[id])
    {
      for i := 0 to |order|
        invariant forall k :: 0 <= k < i ==> !eligible(info[order[k]])
      {
        if eligible(info[order[i]]) {
          return Some(order[i]);
        }
      }
      return None;
    }

    method ClaimBgpSession(q: Info, order: seq<Id>) returns (hit: Option<Id>)
      requires forall id :: id in order <==> id in info
      modifies this
      ensures Enabled(old(State()), ClaimSession(q, hit))
      ensures State() == Apply(old(State()), ClaimSession(q, hit))
    {
      hit := FirstMatch(order, o => MatchesSession(o, q));
      if hit.Some? {
        info := info[hit.value := Claimed(info[hit.value])];
      }
    }

    method ClaimIdlePeer(q: Info, order: seq<Id>) returns (hit: Option<Id>)
      requires forall id :: id in order <==> id in info
      modifies this
      ensures Enabled(old(State()), ClaimPeer(q, hit))
      ensures State() == Apply(old(State()), ClaimPeer(q, hit))
    {
      hit := FirstMatch(order, o => MatchesPeer(o, q));
      if hit.Some? {
        info := info[hit.value := Claimed(info[hit.value])];
      }
    }

    method ClaimPathChild(parent: Id, pathId: nat, order: seq<Id>) returns (hit: Option<Id>)
      requires forall id :: id in order <==> id in info
      modifies this
      ensures Enabled(old(State()), ClaimPath(parent, pathId, hit))
      ensures State() == Apply(old(State()), ClaimPath(parent, pathId, hit))
    {
      hit := FirstMatch(order, o => MatchesPath(o, parent, pathId));
      if hit.Some? {
        var o := Claimed(info[hit.value]);
        info := info[hit.value := o.(activity := Bump(o.activity))];
      }
    }

    method ClaimBmpRouter(q: Info, order: seq<Id>) returns (hit: Option<Id>)
      requires forall id :: id in order <==> id in info
      modifies this
      ensures Enabled(old(State()), ClaimRouter(q, hit))
      ensures State() == Apply(old(State()), ClaimRouter(q, hit))
    {
      hit := FirstMatch(order, o => MatchesRouter(o, q));
      if hit.Some? {
        info := info[hit.value := Claimed(info[hit.value])];
      }
    }
  }

  /** The field-by-field replacement of `update_info`. */
  function Overwrite(o: Info, n: Info): Info {
    Merge(o, n).(generation := o.generation, revision := o.revision)
  }
}
