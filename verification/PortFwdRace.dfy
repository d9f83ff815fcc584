/**
 One slot of the port-forward table as a data core sees it. The control thread
 publishes and withdraws a target with three stores each; a lookup loads the flag,
 then the address, then the port, and takes no lock.
 */
module PortFwdRace {
  /** Address and port; a withdrawn slot holds zeros. */
  datatype Target = Target(dip: nat, iport: nat)

  datatype Memory = Memory(active: bool, dip: nat, iport: nat)

  datatype Op = Add(target: Target) | Remove

  /** The control thread adds only over an inactive slot and removes only an active one. */
  ghost predicate Program(ops: seq<Op>) {
    forall i :: 0 <= i < |ops| ==> (ops[i].Add? <==> i % 2 == 0)
  }

  /** Targets of real hosts have an address and a port. */
  ghost predicate RealTargets(ops: seq<Op>) {
    forall i :: 0 <= i < |ops| && ops[i].Add? ==> ops[i].target.dip != 0 && ops[i].target.iport != 0
  }

  ghost predicate InTable(ops: seq<Op>, t: Target) {
    Add(t) in ops
  }

  /** After k whole operations. */
  ghost function Between(ops: seq<Op>, k: nat): Memory
    requires k <= |ops|
  {
    if k == 0 || ops[k - 1].Remove? then Memory(false, 0, 0)
    else Memory(true, ops[k - 1].target.dip, ops[k - 1].target.iport)
  }

  /** After n stores: nat.h port_fwd_add stores address, port, flag; port_fwd_remove flag, address, port. */
  ghost function After(ops: seq<Op>, n: nat): Memory
    requires n <= 3 * |ops|
  {
    var k, j := n / 3, n % 3;
    var m := Between(ops, k);
    if j == 0 then m
    else match ops[k]
         case Add(t) => if j == 1 then m.(dip := t.dip) else m.(dip := t.dip, iport := t.iport)
         case Remove => if j == 1 then m.(active := false) else m.(active := false, dip := 0)
  }

  /** When a lookup does its three loads, in stores seen so far; it goes on only if the flag is set. */
  ghost predicate Lookup(ops: seq<Op>, flag: nat, dip: nat, iport: nat) {
    flag <= dip <= iport <= 3 * |ops| && After(ops, flag).active
  }

  ghost function Result(ops: seq<Op>, dip: nat, iport: nat): Target
    requires dip <= 3 * |ops| && iport <= 3 * |ops|
  {
    Target(After(ops, dip).dip, After(ops, iport).iport)
  }

  /** While the flag is set, address and port are those of the last target added. */
  lemma ActiveIsPublished(ops: seq<Op>, n: nat)
    requires Program(ops) && n <= 3 * |ops| && After(ops, n).active
    ensures InTable(ops, Target(After(ops, n).dip, After(ops, n).iport))
  {
    var k := n / 3;
    assert ops[k - 1] in ops;
  }

  /** A lookup during which the control thread stores nothing returns a target of the table. */
  lemma QuietLookupIsExact(ops: seq<Op>, n: nat)
    requires Program(ops) && Lookup(ops, n, n, n)
    ensures InTable(ops, Result(ops, n, n))
  {
    ActiveIsPublished(ops, n);
  }

  /** Some lookup returns a target that was never in the table. */
  ghost predicate TearingPossible(ops: seq<Op>) {
    exists flag: nat, dip: nat, iport: nat ::
      Lookup(ops, flag, dip, iport) && !InTable(ops, Result(ops, dip, iport))
  }

  lemma SecondIsRemove(ops: seq<Op>)
    requires Program(ops)
    ensures |ops| > 1 ==> Remove in ops
  {
    if |ops| > 1 { assert ops[1] == Remove; }
  }

  /** That can happen exactly if the control thread ever removes the entry. */
  lemma TearingExactly(ops: seq<Op>)
    requires Program(ops) && RealTargets(ops)
    ensures TearingPossible(ops) <==> Remove in ops
  {
    if Remove in ops {
      var i :| 0 <= i < |ops| && ops[i] == Remove;
      assert i != 0;
      assert ops[1].Remove? && ops[0].Add?;
      assert After(ops, 3).active && After(ops, 5).dip == 0;
      assert Lookup(ops, 3, 5, 5);
      assert forall j :: 0 <= j < |ops| ==> ops[j] != Add(Result(ops, 5, 5));
    } else {
      SecondIsRemove(ops);
      forall flag: nat, dip: nat, iport: nat | Lookup(ops, flag, dip, iport)
        ensures InTable(ops, Result(ops, dip, iport))
      {
        assert flag == dip == iport == 3 * |ops|;
        ActiveIsPublished(ops, flag);
      }
    }
  }

  /** Moving a port from one host to another, a lookup can even return the old address with the new port. */
  lemma OldAddressNewPort(a: Target, b: Target)
    requires a.dip != b.dip && a.iport != b.iport
    ensures var ops := [Add(a), Remove, Add(b)];
            && Program(ops) && Lookup(ops, 3, 4, 9)
            && Result(ops, 4, 9) == Target(a.dip, b.iport) && !InTable(ops, Target(a.dip, b.iport))
  {
    var ops := [Add(a), Remove, Add(b)];
    assert Between(ops, 1) == Memory(true, a.dip, a.iport);
    assert Between(ops, 3) == Memory(true, b.dip, b.iport);
  }
}
