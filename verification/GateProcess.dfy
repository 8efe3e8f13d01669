/** The command loop of a cloned gate. */
module GateProcess {
  import opened Gate

  datatype Outcome = Status | Terminated | Blocked

  /** The commands on which `process` returns at once. */
  predicate Returns(c: Command) {
    c.FollowReconfigure? || c.ReportLinks? || c.Trigger? || c.Terminate?
  }

  /** How many commands are taken until the first Terminate, or all of them. */
  function UntilTerminate(queue: seq<Command>): nat {
    if queue == [] then 0
    else if queue[0].Terminate? then 1
    else 1 + UntilTerminate(queue[1..])
  }

  lemma {:induction false} UntilTerminateSkips(queue: seq<Command>, n: nat)
    requires n <= |queue| && forall i :: 0 <= i < n ==> !queue[i].Terminate?
    ensures UntilTerminate(queue) == n + UntilTerminate(queue[n..])
    ensures UntilTerminate(queue) <= |queue|
    decreases |queue|
  {
    if n > 0 {
      UntilTerminateSkips(queue[1..], n - 1);
      assert queue[1..][n - 1..] == queue[n..];
    } else if queue != [] {
      if !queue[0].Terminate? {
        UntilTerminateSkips(queue[1..], 0);
      }
    }
  }

  /** The command at `i` does not make `process` return. */
  predicate Silent(queue: seq<Command>, changed: nat -> bool, i: nat)
    requires i < |queue|
  {
    !Returns(queue[i]) && !changed(|queue| - 1 - i)
  }

  class CloneGate {
    var queue: seq<Command>

    constructor (queue: seq<Command>)
      ensures this.queue == queue
    {
      this.queue := queue;
    }

    /**
     One call of `process`: commands are taken in order until one makes it
     return. `changed` is whether the gate's status differs once so many
     commands are left; `open` is whether a sender for the channel remains.
     */
    method Process(open: bool, changed: nat -> bool) returns (r: Outcome, ghost taken: nat)
      requires FromRoot(queue)
      modifies this
      ensures taken <= |old(queue)| && queue == old(queue)[taken..] && FromRoot(queue)
      ensures forall i: nat :: i + 1 < taken ==> Silent(old(queue), changed, i)
      ensures r == Status ==> taken > 0 && !old(queue)[taken - 1].Terminate?
      ensures r == Status ==> Returns(old(queue)[taken - 1]) || changed(|queue|)
      ensures r == Blocked ==> open && queue == []
      ensures r == Terminated ==> (taken > 0 && old(queue)[taken - 1].Terminate?) || (queue == [] && !open)
      ensures r != Terminated ==> forall i :: 0 <= i < taken ==> !old(queue)[i].Terminate?
    {
      taken := 0;
      while queue != []
        invariant taken <= |old(queue)| && queue == old(queue)[taken..]
        invariant forall i: nat :: i < taken ==> Silent(old(queue), changed, i)
        decreases |queue|
      {
        var cmd := queue[0];
        queue, taken := queue[1..], taken + 1;
        assert Clonable(cmd) && RoleHolds(true, cmd);
        if cmd.Terminate? {
          return Terminated, taken;
        }
        if Returns(cmd) || changed(|queue|) {
          forall i: nat | i + 1 < taken ensures !old(queue)[i].Terminate? {
            assert Silent(old(queue), changed, i);
          }
          return Status, taken;
        }
        assert Silent(old(queue), changed, taken - 1);
      }
      forall i: nat | i < taken ensures !old(queue)[i].Terminate? {
        assert Silent(old(queue), changed, i);
      }
      r := if open then Blocked else Terminated;
    }

    /**
     Calling `process` again and again on a clone whose channel has no sender
     left ends with Terminated, after the commands up to the first Terminate
     or the whole queue, never more than sixteen.
     */
    method ProcessToTermination(changed: nat -> bool) returns (ghost taken: nat)
      requires FromRoot(queue)
      modifies this
      ensures taken == UntilTerminate(old(queue)) <= |old(queue)| <= QUEUE
      ensures queue == old(queue)[taken..]
    {
      taken := 0;
      UntilTerminateSkips(queue, 0);
      while true
        invariant FromRoot(queue) && taken <= |old(queue)| && queue == old(queue)[taken..]
        invariant UntilTerminate(old(queue)) == taken + UntilTerminate(queue)
        decreases |queue|
      {
        ghost var was := queue;
        var r, n := Process(false, changed);
        taken := taken + n;
        forall i: nat | i + 1 < n ensures !was[i].Terminate? {
          assert Silent(was, changed, i);
        }
        if r == Terminated {
          TerminatedAfter(was, n);
          return;
        }
        UntilTerminateSkips(was, n);
      }
    }
  }

  lemma TerminatedAfter(queue: seq<Command>, n: nat)
    requires n <= |queue| && forall i: nat :: i + 1 < n ==> !queue[i].Terminate?
    requires (n > 0 && queue[n - 1].Terminate?) || n == |queue|
    ensures UntilTerminate(queue) == n
  {
    if n > 0 {
      UntilTerminateSkips(queue, n - 1);
      assert queue[n - 1..][1..] == queue[n..];
    }
  }
}
