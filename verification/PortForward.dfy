/**
 The per-subscriber port-forwarding table (direct-indexed by external port) and
 the two routines that keep it equal to the list etcd holds: the two-pass
 reconcile, and the cheap "does it already match" check.
 */
module PortForward {
  import opened Common

  const PORT_FWD_TABLE_SIZE := 65536

  type Port = p: nat | p < 65536

  /** Where an external port is forwarded to. */
  datatype Target = Target(dip: nat, iport: Port)

  /** One mapping of the etcd list; `dip` is None when its text is not an address. */
  datatype Mapping = Mapping(eport: Port, dip: Option<nat>, dport: Port)

  /** One slot of the in-memory table. */
  datatype Entry = Inactive | Active(target: Target, hits: nat)

  /** The active part of a table. */
  type Table = map<Port, Target>

  predicate Named(ms: seq<Mapping>, e: Port) {
    exists i :: 0 <= i < |ms| && ms[i].eport == e
  }

  ghost predicate AllParse(ms: seq<Mapping>) {
    forall i :: 0 <= i < |ms| ==> ms[i].dip.Some?
  }

  ghost predicate DistinctEports(ms: seq<Mapping>) {
    forall i, j :: 0 <= i < j < |ms| ==> ms[i].eport != ms[j].eport
  }

  /** Pass 1: forget every active port the list does not name. */
  function Prune(t: Table, ms: seq<Mapping>): Table {
    map e | e in t && Named(ms, e) :: t[e]
  }

  /** One iteration of pass 2. */
  function ApplyOne(t: Table, m: Mapping): Table {
    if m.dip.None? then t else t[m.eport := Target(m.dip.value, m.dport)]
  }

  /** Pass 2 over a whole list. */
  function ApplyAll(t: Table, ms: seq<Mapping>): Table {
    if ms == [] then t else ApplyOne(ApplyAll(t, ms[..|ms| - 1]), ms[|ms| - 1])
  }

  function Reconciled(t: Table, ms: seq<Mapping>): Table {
    ApplyAll(Prune(t, ms), ms)
  }

  /** The table a list stands for, starting from nothing. */
  ghost function Desired(ms: seq<Mapping>): Table {
    ApplyAll(map[], ms)
  }

  /** Index of the last readable mapping for a port, -1 when there is none. */
  ghost function Winner(ms: seq<Mapping>, e: Port): (w: int)
    ensures -1 <= w < |ms|
    ensures w >= 0 ==> ms[w].eport == e && ms[w].dip.Some?
    ensures forall j :: w < j < |ms| && ms[j].eport == e ==> ms[j].dip.None?
  {
    if ms == [] then -1
    else if ms[|ms| - 1].eport == e && ms[|ms| - 1].dip.Some? then |ms| - 1
    else
      var w := Winner(ms[..|ms| - 1], e);
      assert forall j :: 0 <= j < |ms| - 1 ==> ms[..|ms| - 1][j] == ms[j];
      w
  }

  /** What the cheap check computes. */
  predicate CheapMatch(t: Table, ms: seq<Mapping>) {
    |t| == |ms| &&
    forall i :: 0 <= i < |ms| ==>
      ms[i].dip.Some? && ms[i].eport in t && t[ms[i].eport] == Target(ms[i].dip.value, ms[i].dport)
  }

  // ---- What the two passes leave behind ----

  /** Pass 2 gives a port its last readable mapping, or leaves it alone when there is none. */
  lemma {:induction false} ApplyAllAt(t: Table, ms: seq<Mapping>, e: Port)
    ensures var w := Winner(ms, e);
            var r := ApplyAll(t, ms);
            if w >= 0 then e in r && r[e] == Target(ms[w].dip.value, ms[w].dport)
            else (e in r <==> e in t) && (e in t ==> r[e] == t[e])
  {
    if ms == [] {
    } else {
      ApplyAllAt(t, ms[..|ms| - 1], e);
    }
  }

  /**
   The full outcome of a reconcile, also when some addresses do not parse: the
   last readable mapping wins; a port named only by unreadable mappings keeps
   what it had; a port the list does not name is gone.
   */
  lemma ReconcileOutcome(t: Table, ms: seq<Mapping>, e: Port)
    ensures var w := Winner(ms, e);
            var r := Reconciled(t, ms);
            if w >= 0 then e in r && r[e] == Target(ms[w].dip.value, ms[w].dport)
            else if Named(ms, e) then (e in r <==> e in t) && (e in t ==> r[e] == t[e])
            else e !in r
  {
    ApplyAllAt(Prune(t, ms), ms, e);
  }

  /** A reconcile that reports success leaves exactly the desired table, whatever was there. */
  lemma ReconcileExact(t: Table, ms: seq<Mapping>)
    requires AllParse(ms)
    ensures Reconciled(t, ms) == Desired(ms)
  {
    var a, b := Reconciled(t, ms), Desired(ms);
    forall e: Port ensures (e in a <==> e in b) && (e in a ==> a[e] == b[e]) {
      ReconcileOutcome(t, ms, e);
      ApplyAllAt(map[], ms, e);
    }
    assert a.Keys == b.Keys;
  }

  /** Unreadable addresses included: nothing is left over exactly when no stale port is named by unreadable mappings only. */
  lemma ReconcileExactly(t: Table, ms: seq<Mapping>)
    ensures Reconciled(t, ms) == Desired(ms) <==>
            forall e :: e in t && Named(ms, e) ==> Winner(ms, e) >= 0
  {
    var a, b := Reconciled(t, ms), Desired(ms);
    forall e: Port
      ensures (e in a <==> e in b) && (e in a ==> a[e] == b[e]) <==> (e in t && Named(ms, e) ==> Winner(ms, e) >= 0)
    {
      ReconcileOutcome(t, ms, e);
      ApplyAllAt(map[], ms, e);
    }
    if forall e :: e in t && Named(ms, e) ==> Winner(ms, e) >= 0 {
      assert forall e: Port :: (e in a <==> e in b) && (e in a ==> a[e] == b[e]);
      assert a.Keys == b.Keys;
    }
  }

  // ---- The cheap check ----

  ghost function Eports(ms: seq<Mapping>): set<Port> {
    set i | 0 <= i < |ms| :: ms[i].eport
  }

  lemma EportsSnoc(ms: seq<Mapping>)
    requires ms != []
    ensures Eports(ms) == Eports(ms[..|ms| - 1]) + {ms[|ms| - 1].eport}
  {
    var n := |ms| - 1;
    var init := ms[..n];
    forall e | e in Eports(ms) ensures e in Eports(init) + {ms[n].eport} {
      var i :| 0 <= i < |ms| && ms[i].eport == e;
      if i < n { assert init[i].eport == e; }
    }
    forall e | e in Eports(init) ensures e in Eports(ms) {
      var i :| 0 <= i < |init| && init[i].eport == e;
      assert ms[i].eport == e;
    }
  }

  lemma DistinctSnoc(ms: seq<Mapping>)
    requires ms != []
    ensures var init := ms[..|ms| - 1];
            DistinctEports(ms) <==> DistinctEports(init) && ms[|ms| - 1].eport !in Eports(init)
  {
    var n := |ms| - 1;
    var init := ms[..n];
    assert forall i :: 0 <= i < n ==> init[i] == ms[i];
    if DistinctEports(init) && ms[n].eport !in Eports(init) {
      forall i, j | 0 <= i < j < |ms| ensures ms[i].eport != ms[j].eport {
        assert init[i].eport in Eports(init);
        if j < n { assert init[j].eport == ms[j].eport; }
      }
    }
    if DistinctEports(ms) {
      assert DistinctEports(init);
    }
  }

  /** A list never names more ports than it has mappings, and names as many only when all differ. */
  lemma {:induction false} EportsCardinality(ms: seq<Mapping>)
    ensures |Eports(ms)| <= |ms|
    ensures |Eports(ms)| == |ms| <==> DistinctEports(ms)
  {
    if ms == [] {
      assert Eports(ms) == {};
    } else {
      EportsCardinality(ms[..|ms| - 1]);
      EportsSnoc(ms);
      DistinctSnoc(ms);
    }
  }

  /** The ports of the desired table are exactly those named. */
  lemma DesiredKeys(ms: seq<Mapping>)
    requires AllParse(ms)
    ensures Desired(ms).Keys == Eports(ms)
  {
    forall e: Port ensures e in Desired(ms) <==> e in Eports(ms) {
      ApplyAllAt(map[], ms, e);
      if e in Eports(ms) {
        var i :| 0 <= i < |ms| && ms[i].eport == e;
      }
    }
  }

  lemma SubsetOfEqualSize<T>(a: set<T>, b: set<T>)
    requires a <= b && |a| == |b|
    ensures a == b
  {
    if a != b {
      var x :| x in b && x !in a;
      SubsetSize(a, b - {x});
    }
  }

  lemma {:induction false} SubsetSize<T>(a: set<T>, b: set<T>)
    requires a <= b
    ensures |a| <= |b|
  {
    if a == {} {
    } else {
      var x :| x in a;
      SubsetSize(a - {x}, b - {x});
    }
  }

  /** With distinct ports, equal count plus containment is equality. */
  lemma CheapMatchSound(t: Table, ms: seq<Mapping>)
    requires DistinctEports(ms) && AllParse(ms)
    ensures CheapMatch(t, ms) <==> t == Desired(ms)
  {
    var d := Desired(ms);
    DesiredKeys(ms);
    EportsCardinality(ms);
    assert |d| == |d.Keys| && |t| == |t.Keys|;
    forall i | 0 <= i < |ms|
      ensures ms[i].eport in d && d[ms[i].eport] == Target(ms[i].dip.value, ms[i].dport)
    {
      ApplyAllAt(map[], ms, ms[i].eport);
    }
    if CheapMatch(t, ms) {
      assert Eports(ms) <= t.Keys;
      SubsetOfEqualSize(Eports(ms), t.Keys);
      forall e | e in t ensures e in d && t[e] == d[e] {
        var i :| 0 <= i < |ms| && ms[i].eport == e;
      }
      assert t.Keys == d.Keys;
    }
  }

  /** An unreadable address always makes the check answer no. */
  lemma CheapMatchNeedsParse(t: Table, ms: seq<Mapping>)
    requires !AllParse(ms)
    ensures !CheapMatch(t, ms)
  {
  }

  /**
   The check decides "the table is the desired one" for every table exactly when
   no port occurs twice in the list.
   */
  lemma CheapMatchExactlyWhenDistinct(ms: seq<Mapping>)
    requires AllParse(ms)
    ensures (forall t: Table :: CheapMatch(t, ms) <==> t == Desired(ms)) <==> DistinctEports(ms)
  {
    if DistinctEports(ms) {
      forall t: Table ensures CheapMatch(t, ms) <==> t == Desired(ms) {
        CheapMatchSound(t, ms);
      }
    } else {
      var d := Desired(ms);
      DesiredKeys(ms);
      EportsCardinality(ms);
      assert |d| == |d.Keys|;
      assert !CheapMatch(d, ms);
    }
  }

  // ---- which lists let the check accept a wrong table ----

  /** Mappings of one port say the same. */
  ghost predicate Agreeing(ms: seq<Mapping>) {
    forall i, j :: 0 <= i < j < |ms| && ms[i].eport == ms[j].eport ==> ms[i] == ms[j]
  }

  /** A port occurs twice, always with the same target, and the list is no longer than a table can be. */
  ghost predicate Foolable(ms: seq<Mapping>) {
    !DistinctEports(ms) && Agreeing(ms) && |ms| <= PORT_FWD_TABLE_SIZE
  }

  ghost function PortsBelow(n: nat): (s: set<Port>)
    requires n <= PORT_FWD_TABLE_SIZE
    ensures |s| == n && forall p: Port :: p in s <==> p < n
    decreases n
  {
    if n == 0 then {} else PortsBelow(n - 1) + {n - 1}
  }

  lemma TableSize(t: Table)
    ensures |t| <= PORT_FWD_TABLE_SIZE
    ensures |t| < PORT_FWD_TABLE_SIZE ==> exists p: Port :: p !in t
  {
    var all := PortsBelow(PORT_FWD_TABLE_SIZE);
    assert t.Keys <= all && |t| == |t.Keys|;
    SubsetSize(t.Keys, all);
    if |t| < PORT_FWD_TABLE_SIZE {
      assert t.Keys != all;
      var p :| p in all && p !in t.Keys;
    }
  }

  /** A table can be padded with stale entries up to any size that fits. */
  lemma {:induction false} Padded(t: Table, n: nat) returns (t': Table)
    requires |t| <= n <= PORT_FWD_TABLE_SIZE
    ensures |t'| == n && forall p :: p in t ==> p in t' && t'[p] == t[p]
    decreases n - |t|
  {
    if |t| == n {
      t' := t;
    } else {
      TableSize(t);
      var p: Port :| p !in t;
      var bigger := t[p := Target(0, 0)];
      assert bigger.Keys == t.Keys + {p};
      assert |bigger| == |bigger.Keys| && |t| == |t.Keys|;
      t' := Padded(bigger, n);
    }
  }

  lemma FoolableIsFooled(ms: seq<Mapping>) returns (t: Table)
    requires AllParse(ms) && Foolable(ms)
    ensures CheapMatch(t, ms) && t != Desired(ms)
  {
    var d := Desired(ms);
    DesiredKeys(ms);
    EportsCardinality(ms);
    assert |d| == |d.Keys|;
    t := Padded(d, |ms|);
    forall i | 0 <= i < |ms|
      ensures ms[i].eport in t && t[ms[i].eport] == Target(ms[i].dip.value, ms[i].dport)
    {
      ApplyAllAt(map[], ms, ms[i].eport);
      var w := Winner(ms, ms[i].eport);
      assert ms[w] == ms[i];
    }
  }

  /**
   The check accepts some wrong table exactly for the lists that repeat a port
   with the same mapping, never with different ones, and fit the table.
   */
  lemma FooledExactly(ms: seq<Mapping>)
    requires AllParse(ms)
    ensures (exists t: Table :: CheapMatch(t, ms) && t != Desired(ms)) <==> Foolable(ms)
  {
    if t: Table :| CheapMatch(t, ms) && t != Desired(ms) {
      if DistinctEports(ms) { CheapMatchSound(t, ms); }
      forall i, j | 0 <= i < j < |ms| && ms[i].eport == ms[j].eport ensures ms[i] == ms[j] {
        assert t[ms[i].eport] == Target(ms[i].dip.value, ms[i].dport);
        assert t[ms[j].eport] == Target(ms[j].dip.value, ms[j].dport);
      }
      TableSize(t);
    }
    if Foolable(ms) {
      var t := FoolableIsFooled(ms);
    }
  }

  /** A repeated mapping lets a stale entry hide: the check says yes to the wrong table. */
  lemma CheapMatchFooledByDuplicate()
    ensures var m := Mapping(80, Some(1), 8080);
            var stale: Table := map[80 := Target(1, 8080), 81 := Target(2, 9090)];
            CheapMatch(stale, [m, m]) && stale != Desired([m, m])
  {
    var m := Mapping(80, Some(1), 8080);
    var stale: Table := map[80 := Target(1, 8080), 81 := Target(2, 9090)];
    DesiredKeys([m, m]);
    assert 81 in stale && 81 !in Eports([m, m]);
    assert stale.Keys == {80, 81};
    assert |stale| == |stale.Keys| == 2;
  }

  // ---- The in-place routines ----

  /** Every readable mapping of this port says what the entry already says. */
  ghost predicate AlreadyInPlace(entry: Entry, ms: seq<Mapping>, e: Port) {
    entry.Active? && Named(ms, e) &&
    forall i :: 0 <= i < |ms| && ms[i].eport == e && ms[i].dip.Some? ==>
      entry.target == Target(ms[i].dip.value, ms[i].dport)
  }

  /** The active part of an array-backed table. */
  ghost function Contents(a: seq<Entry>): Table {
    map e: Port | e < |a| && a[e].Active? :: a[e].target
  }

  /** nat.h port_fwd_add: an active entry is left alone. */
  method PortFwdAdd(a: array<Entry>, eport: Port, dip: nat, iport: Port)
    requires a.Length == PORT_FWD_TABLE_SIZE
    modifies a
    ensures a[..] == old(a[..])[eport := if old(a[eport]).Active? then old(a[eport])
                                         else Entry.Active(Target(dip, iport), 0)]
  {
    if a[eport].Active? { return; }
    a[eport] := Entry.Active(Target(dip, iport), 0);
  }

  /** nat.h port_fwd_remove. */
  method PortFwdRemove(a: array<Entry>, eport: Port) returns (ret: Status)
    requires a.Length == PORT_FWD_TABLE_SIZE
    modifies a
    ensures a[..] == old(a[..])[eport := Inactive]
    ensures ret == (if old(a[eport]).Active? then SUCCESS else ERROR)
  {
    if a[eport].Inactive? { return ERROR; }
    a[eport] := Inactive;
    ret := SUCCESS;
  }

  /** The inner search of pass 1. */
  method IsNamed(ms: seq<Mapping>, eport: Port) returns (found: bool)
    ensures found <==> Named(ms, eport)
  {
    found := false;
    var i := 0;
    while i < |ms|
      invariant 0 <= i <= |ms|
      invariant !found
      invariant forall j :: 0 <= j < i ==> ms[j].eport != eport
    {
      if ms[i].eport == eport { return true; }
      i := i + 1;
    }
  }

  lemma ActiveUpdate(a: seq<Entry>, e: Port, x: Entry)
    requires |a| == PORT_FWD_TABLE_SIZE
    ensures x.Active? ==> Contents(a[e := x]) == Contents(a)[e := x.target]
    ensures x.Inactive? ==> Contents(a[e := x]) == Contents(a) - {e}
  {
  }

  /** Pass 1 in place: stale entries go, the others keep even their hit counters. */
  method RemoveStale(a: array<Entry>, ms: seq<Mapping>)
    requires a.Length == PORT_FWD_TABLE_SIZE
    modifies a
    ensures forall e: Port :: a[e] == if Named(ms, e) then old(a[e]) else Inactive
    ensures Contents(a[..]) == Prune(Contents(old(a[..])), ms)
  {
    var eport := 0;
    while eport < PORT_FWD_TABLE_SIZE
      invariant 0 <= eport <= PORT_FWD_TABLE_SIZE
      invariant forall e: Port ::
        a[e] == if e < eport && !Named(ms, e) then Inactive else old(a[e])
    {
      if a[eport].Active? {
        var found := IsNamed(ms, eport);
        if !found {
          var _ := PortFwdRemove(a, eport);
        }
      }
      eport := eport + 1;
    }
  }

  /**
   northbound.c reconcile_port_mapping: the final table is the two-pass result,
   the status says whether every address parsed, and a port whose mapping
   was already in place keeps its entry (hit counter included).
   */
  method ReconcilePortMapping(a: array<Entry>, ms: seq<Mapping>) returns (ret: Status)
    requires a.Length == PORT_FWD_TABLE_SIZE
    modifies a
    ensures Contents(a[..]) == Reconciled(Contents(old(a[..])), ms)
    ensures ret == SUCCESS <==> AllParse(ms)
    ensures ret == SUCCESS ==> Contents(a[..]) == Desired(ms)
    ensures forall e: Port :: AlreadyInPlace(old(a[e]), ms, e) ==> a[e] == old(a[e])
  {
    RemoveStale(a, ms);
    var errors, i := 0, 0;
    while i < |ms|
      invariant 0 <= i <= |ms| && errors >= 0
      invariant Contents(a[..]) == ApplyAll(Prune(Contents(old(a[..])), ms), ms[..i])
      invariant errors == 0 <==> AllParse(ms[..i])
      invariant forall e: Port :: AlreadyInPlace(old(a[e]), ms, e) ==> a[e] == old(a[e])
    {
      assert ms[..i + 1][..i] == ms[..i];
      var m := ms[i];
      label Before:
      if m.dip.None? {
        errors := errors + 1;
        assert !AllParse(ms[..i + 1]) by { assert ms[..i + 1][i].dip.None?; }
      } else {
        var want := Target(m.dip.value, m.dport);
        ActiveUpdate(a[..], m.eport, Entry.Active(want, 0));
        if a[m.eport].Inactive? {
          PortFwdAdd(a, m.eport, m.dip.value, m.dport);
        } else if a[m.eport].target != want {
          var _ := PortFwdRemove(a, m.eport);
          PortFwdAdd(a, m.eport, m.dip.value, m.dport);
        } else {
          assert Contents(a[..])[m.eport := want] == Contents(a[..]);
        }
        assert Contents(a[..]) == Contents(old@Before(a[..]))[m.eport := want];
      }
      i := i + 1;
    }
    assert ms[..|ms|] == ms;
    if AllParse(ms) { ReconcileExact(Contents(old(a[..])), ms); }
    ret := if errors > 0 then ERROR else SUCCESS;
  }

  lemma {:induction false} ActivePrefix(a: seq<Entry>, n: nat)
    requires n < |a| <= PORT_FWD_TABLE_SIZE
    ensures |Contents(a[..n + 1])| == |Contents(a[..n])| + if a[n].Active? then 1 else 0
  {
    var small, big := Contents(a[..n]), Contents(a[..n + 1]);
    assert forall e: Port :: e < n ==> a[..n][e] == a[e] && a[..n + 1][e] == a[e];
    assert a[..n + 1][n] == a[n] && n !in small;
    assert |big| == |big.Keys| && |small| == |small.Keys|;
    assert big.Keys == if a[n].Active? then small.Keys + {n} else small.Keys;
  }

  /** etcd_integration.c:251-289: the port-mapping part of hsi_config_matches_local. */
  method PortMappingsMatch(a: array<Entry>, ms: seq<Mapping>) returns (same: bool)
    requires a.Length == PORT_FWD_TABLE_SIZE
    ensures same <==> CheapMatch(Contents(a[..]), ms)
  {
    var localActive, i := 0, 0;
    while i < PORT_FWD_TABLE_SIZE
      invariant 0 <= i <= PORT_FWD_TABLE_SIZE
      invariant localActive == |Contents(a[..i])|
    {
      assert a[..][..i] == a[..i] && a[..][..i + 1] == a[..i + 1];
      ActivePrefix(a[..], i);
      if a[i].Active? { localActive := localActive + 1; }
      i := i + 1;
    }
    assert a[..PORT_FWD_TABLE_SIZE] == a[..];
    if localActive != |ms| { return false; }
    var k := 0;
    while k < |ms|
      invariant 0 <= k <= |ms|
      invariant forall j :: 0 <= j < k ==>
        ms[j].dip.Some? && ms[j].eport in Contents(a[..]) &&
        Contents(a[..])[ms[j].eport] == Target(ms[j].dip.value, ms[j].dport)
    {
      var e := a[ms[k].eport];
      if e.Inactive? || e.target.iport != ms[k].dport || ms[k].dip.None? || e.target.dip != ms[k].dip.value {
        return false;
      }
      k := k + 1;
    }
    same := true;
  }
}
