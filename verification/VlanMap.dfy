/**
 Which subscriber owns which VLAN. The VLAN map is read by the data plane for
 every frame; the per-subscriber VLAN id is the control plane's copy. Applying,
 rolling back and removing a subscriber config must keep the two inverse to each
 other.
 */
module VlanMap {
  import opened Common

  const MAX_VLAN_ID := 4000
  const MIN_VLAN_ID := 2
  const INVALID_CCB_ID := 65535

  /** ppp_bool, dp_start_bool and dhcp_bool of one subscriber. */
  datatype Gates = Gates(ppp: bool, dp: bool, dhcp: bool)

  const CLOSED := Gates(false, false, false)

  /** vlanMap[v - 1] is the owner of VLAN v; the other sequences are indexed by subscriber. */
  datatype Table = Table(vlanMap: seq<nat>, vlanId: seq<nat>, configured: seq<bool>, gates: seq<Gates>)

  ghost predicate Shape(t: Table) {
    && |t.vlanMap| == MAX_VLAN_ID
    && |t.vlanId| == |t.configured| == |t.gates| < INVALID_CCB_ID
  }

  /** What the parts outside this model answer during one apply. */
  datatype ApplyEnv = ApplyEnv(valid: bool, drained: bool, credentialsOk: bool, dhcpPoolOk: bool)

  datatype Op =
    | Apply(ccb: nat, vlan: nat, isUpdate: bool, env: ApplyEnv)   // apply_hsi_config
    | Remove(ccb: nat, cleanupOk: bool)                           // remove_hsi_config
    | Disable(ccb: nat, cleanupOk: bool)                          // one turn of pppd_disable_ccb
    | SetGates(ccb: nat, becomes: Gates)                          // PPPoE and DHCP start or stop

  ghost function Claim(t: Table, vlan: nat, ccb: nat): (Table, bool)
    requires Shape(t)
  {
    if vlan < 1 || vlan > MAX_VLAN_ID || t.vlanMap[vlan - 1] != INVALID_CCB_ID then (t, false)
    else (t.(vlanMap := t.vlanMap[vlan - 1 := ccb]), true)
  }

  ghost function Release(t: Table, vlan: nat): Table
    requires Shape(t)
  {
    if vlan < 1 || vlan > MAX_VLAN_ID then t
    else t.(vlanMap := t.vlanMap[vlan - 1 := INVALID_CCB_ID])
  }

  /** The VLAN part of ppp_init_config_by_user and ppp_update_config_by_user on success. */
  ghost function SetVlan(t: Table, ccb: nat, vlan: nat, configured: bool): Table
    requires Shape(t) && ccb < |t.vlanId|
  {
    t.(vlanId := t.vlanId[ccb := vlan], configured := t.configured[ccb := configured])
  }

  /** apply_hsi_config on VLAN state; every path restores the three gates. */
  ghost function Applied(t: Table, ccb: nat, vlan: nat, isUpdate: bool, env: ApplyEnv): (r: (Table, Status))
    requires Shape(t)
    ensures Shape(r.0) && |r.0.vlanId| == |t.vlanId| && r.0.gates == t.gates
  {
    if ccb >= |t.vlanId| || !env.valid then (t, ERROR)
    else if !isUpdate && (t.gates[ccb].dhcp || t.gates[ccb].ppp) then (t, SUCCESS)
    else if !env.drained then (t, ERROR)
    else
      var original := t.vlanId[ccb];
      var fresh_ := !isUpdate || !t.configured[ccb];
      var (claimed, ok) := if fresh_ || original != vlan then Claim(t, vlan, ccb) else (t, true);
      var moved := if original != vlan then Release(claimed, original) else claimed;
      if !ok then (t, ERROR)
      else if !env.credentialsOk then
        (if fresh_ then Release(claimed, vlan)
         else if original != vlan then Claim(Release(moved, vlan), original, ccb).0
         else t, ERROR)
      else
        (SetVlan(moved, ccb, vlan, if fresh_ then vlan != 0 else t.configured[ccb]),
         if env.dhcpPoolOk then SUCCESS else ERROR)
  }

  /** Past its guards, a removal frees the map slot first and then clears the subscriber, if it can. */
  ghost function Cleared(t: Table, ccb: nat, cleanupOk: bool): Table
    requires Shape(t) && ccb < |t.vlanId|
  {
    var freed := Release(t, t.vlanId[ccb]);
    if !cleanupOk then freed
    else SetVlan(freed.(gates := freed.gates[ccb := freed.gates[ccb].(ppp := false, dp := false)]), ccb, 0, false)
  }

  ghost predicate RemoveAllowed(t: Table, ccb: nat)
    requires Shape(t)
  {
    ccb < |t.vlanId| && t.vlanId[ccb] != 0 && !t.gates[ccb].ppp && !t.gates[ccb].dhcp
  }

  ghost function Next(t: Table, op: Op): (t': Table)
    requires Shape(t)
    ensures Shape(t') && |t'.vlanId| == |t.vlanId|
  {
    match op
    case Apply(c, v, u, env) => Applied(t, c, v, u, env).0
    case Remove(c, ok) => if RemoveAllowed(t, c) then Cleared(t, c, ok) else t
    case Disable(c, ok) =>
      if c >= |t.vlanId| then t
      else Cleared(t.(gates := t.gates[c := CLOSED]), c, ok)
    case SetGates(c, g) => if c < |t.gates| then t.(gates := t.gates[c := g]) else t
  }

  ghost function Run(t: Table, ops: seq<Op>): (t': Table)
    requires Shape(t)
    ensures Shape(t') && |t'.vlanId| == |t.vlanId|
    decreases |ops|
  {
    if ops == [] then t else Run(Next(t, ops[0]), ops[1..])
  }

  // ---- the bijection ----

  /** Slot i of the map (VLAN i + 1) names c exactly when c's VLAN id is i + 1. */
  ghost predicate Bijective(t: Table)
    requires Shape(t)
  {
    && (forall i :: 0 <= i < MAX_VLAN_ID ==>
          t.vlanMap[i] == INVALID_CCB_ID || t.vlanMap[i] < |t.vlanId|)
    && (forall c :: 0 <= c < |t.vlanId| ==> t.vlanId[c] <= MAX_VLAN_ID)
    && (forall i, c :: 0 <= i < MAX_VLAN_ID && 0 <= c < |t.vlanId| ==>
          (t.vlanMap[i] == c <==> t.vlanId[c] == i + 1))
  }

  /** The one thing that breaks it: the slot was freed but the subscriber could not be cleared. */
  ghost predicate LosesCleanup(t: Table, op: Op)
    requires Shape(t)
  {
    match op
    case Remove(c, ok) => !ok && RemoveAllowed(t, c)
    case Disable(c, ok) => !ok && c < |t.vlanId| && t.vlanId[c] != 0
    case _ => false
  }

  /** Giving c a free VLAN and then freeing the one it had. */
  lemma MoveKeepsBijection(t: Table, c: nat, v: nat, configured: bool)
    requires Shape(t) && Bijective(t) && c < |t.vlanId|
    requires 1 <= v <= MAX_VLAN_ID && t.vlanMap[v - 1] == INVALID_CCB_ID
    ensures t.vlanId[c] != v
    ensures Bijective(SetVlan(Release(t.(vlanMap := t.vlanMap[v - 1 := c]), t.vlanId[c]), c, v, configured))
  {
    var old_ := t.vlanId[c];
    var t' := SetVlan(Release(t.(vlanMap := t.vlanMap[v - 1 := c]), old_), c, v, configured);
    assert old_ != v;
    forall i, d | 0 <= i < MAX_VLAN_ID && 0 <= d < |t'.vlanId|
      ensures t'.vlanMap[i] == d <==> t'.vlanId[d] == i + 1
    {
      assert t'.vlanMap[i] == if i + 1 == v then c else if i + 1 == old_ then INVALID_CCB_ID else t.vlanMap[i];
      assert t'.vlanId[d] == if d == c then v else t.vlanId[d];
      assert t.vlanMap[i] == d <==> t.vlanId[d] == i + 1;
      assert t.vlanMap[i] == c <==> t.vlanId[c] == i + 1;
    }
  }

  lemma CredentialFailureRestores(t: Table, c: nat, v: nat, isUpdate: bool, env: ApplyEnv)
    requires Shape(t) && Bijective(t) && !env.credentialsOk
    ensures Applied(t, c, v, isUpdate, env).0 == t
  {
  }

  lemma ApplyKeepsBijection(t: Table, c: nat, v: nat, isUpdate: bool, env: ApplyEnv)
    requires Shape(t) && Bijective(t)
    ensures Bijective(Applied(t, c, v, isUpdate, env).0)
  {
    if !env.credentialsOk {
      CredentialFailureRestores(t, c, v, isUpdate, env);
    } else if c < |t.vlanId| && t.vlanId[c] == v {
    } else if c < |t.vlanId| && Claim(t, v, c).1 {
      MoveKeepsBijection(t, c, v, true);
      MoveKeepsBijection(t, c, v, t.configured[c]);
    }
  }

  lemma ClearedKeepsBijectionExactly(t: Table, c: nat, ok: bool)
    requires Shape(t) && Bijective(t) && c < |t.vlanId|
    ensures Bijective(Cleared(t, c, ok)) <==> ok || t.vlanId[c] == 0
  {
    if !ok && t.vlanId[c] != 0 {
      assert Cleared(t, c, ok).vlanMap[t.vlanId[c] - 1] == INVALID_CCB_ID;
    }
  }

  /** Every operation keeps the bijection, except exactly a removal whose cleanup fails. */
  lemma StepKeepsBijectionExactly(t: Table, op: Op)
    requires Shape(t) && Bijective(t)
    ensures Bijective(Next(t, op)) <==> !LosesCleanup(t, op)
  {
    match op
    case Apply(c, v, u, env) => ApplyKeepsBijection(t, c, v, u, env);
    case Remove(c, ok) => if RemoveAllowed(t, c) { ClearedKeepsBijectionExactly(t, c, ok); }
    case Disable(c, ok) =>
      if c < |t.vlanId| {
        var t1 := t.(gates := t.gates[c := CLOSED]);
        assert Bijective(t1);
        ClearedKeepsBijectionExactly(t1, c, ok);
      }
    case SetGates(c, g) =>
  }

  /** Disabling a subscriber closes its gates, frees its VLAN and, cleanup permitting, clears it; nobody else changes. */
  lemma DisabledExactly(t: Table, c: nat, ok: bool)
    requires Shape(t) && c < |t.vlanId|
    ensures var t' := Next(t, Disable(c, ok));
            && t'.gates == t.gates[c := CLOSED]
            && (forall i :: 0 <= i < MAX_VLAN_ID ==>
                  t'.vlanMap[i] == if i + 1 == t.vlanId[c] then INVALID_CCB_ID else t.vlanMap[i])
            && t'.vlanId == (if ok then t.vlanId[c := 0] else t.vlanId)
            && t'.configured == (if ok then t.configured[c := false] else t.configured)
  {
  }

  /** No operation of the run loses a cleanup. */
  ghost predicate CleanRun(t: Table, ops: seq<Op>)
    requires Shape(t)
    decreases |ops|
  {
    ops == [] || (!LosesCleanup(t, ops[0]) && CleanRun(Next(t, ops[0]), ops[1..]))
  }

  lemma {:induction false} RunKeepsBijection(t: Table, ops: seq<Op>)
    requires Shape(t) && Bijective(t) && CleanRun(t, ops)
    ensures Bijective(Run(t, ops))
    decreases |ops|
  {
    if ops == [] {
    } else {
      StepKeepsBijectionExactly(t, ops[0]);
      RunKeepsBijection(Next(t, ops[0]), ops[1..]);
    }
  }

  /** At boot no VLAN is owned. */
  ghost function Boot(n: nat): (t: Table)
    requires n < INVALID_CCB_ID
    ensures Shape(t) && Bijective(t) && |t.vlanId| == n
  {
    Table(seq(MAX_VLAN_ID, _ => INVALID_CCB_ID), seq(n, _ => 0), seq(n, _ => false), seq(n, _ => CLOSED))
  }

  // ---- what the data plane sees ----

  /** parse_l2_hdr: the subscriber a frame tagged with this VLAN is attributed to. */
  function FrameOwner(vlanMap: seq<nat>, tag: nat, userCount: nat): Option<nat>
    requires |vlanMap| == MAX_VLAN_ID
  {
    if tag < MIN_VLAN_ID || tag > MAX_VLAN_ID then None
    else if vlanMap[tag - 1] as int > userCount as int - 1 then None
    else Some(vlanMap[tag - 1])
  }

  /**
   After any run from boot that loses no cleanup, a frame is attributed to a
   subscriber exactly when that subscriber holds the frame's VLAN (and is below
   the count), and no two subscribers hold the same VLAN.
   */
  lemma {:induction false} FramesReachTheirOwner(n: nat, ops: seq<Op>, tag: nat, userCount: nat, c: nat)
    requires n < INVALID_CCB_ID && userCount <= n && CleanRun(Boot(n), ops)
    ensures var t := Run(Boot(n), ops);
            && (FrameOwner(t.vlanMap, tag, userCount) == Some(c) <==>
                  c < userCount && t.vlanId[c] == tag && tag >= MIN_VLAN_ID)
            && forall a, b :: 0 <= a < b < n && t.vlanId[a] == t.vlanId[b] ==> t.vlanId[a] == 0
  {
    RunKeepsBijection(Boot(n), ops);
    var t := Run(Boot(n), ops);
    forall a | 0 <= a < n && t.vlanId[a] != 0 ensures t.vlanMap[t.vlanId[a] - 1] == a {}
  }

  /** A failing apply changes nothing unless only the DHCP pool failed, and then only the VLAN moved. */
  lemma FailedApplyRollsBack(t: Table, c: nat, v: nat, isUpdate: bool, env: ApplyEnv)
    requires Shape(t) && Bijective(t)
    ensures var (t', ret) := Applied(t, c, v, isUpdate, env);
            ret == ERROR ==> t' == t || (!env.dhcpPoolOk && t'.vlanId == t.vlanId[c := v])
  {
  }

  /** A slot is free exactly when nobody holds its VLAN. */
  lemma FreeExactly(t: Table, v: nat)
    requires Shape(t) && Bijective(t) && 1 <= v <= MAX_VLAN_ID
    ensures t.vlanMap[v - 1] == INVALID_CCB_ID <==> forall d :: 0 <= d < |t.vlanId| ==> t.vlanId[d] != v
  {
    var c := t.vlanMap[v - 1];
    if c < |t.vlanId| { assert t.vlanId[c] == v; }
  }

  /**
   When an apply reports success: the values are valid, and either it is a CREATE
   for a running subscriber, which applies nothing, or every outside step works
   and the subscriber is a configured one being updated in place, or the VLAN is
   one the map holds and nobody has it, the subscriber itself included.
   */
  lemma ApplySucceedsExactly(t: Table, c: nat, v: nat, isUpdate: bool, env: ApplyEnv)
    requires Shape(t) && Bijective(t)
    ensures Applied(t, c, v, isUpdate, env).1 == SUCCESS <==>
            && c < |t.vlanId| && env.valid
            && ((!isUpdate && (t.gates[c].dhcp || t.gates[c].ppp)) ||
                (env.drained && env.credentialsOk && env.dhcpPoolOk &&
                 ((isUpdate && t.configured[c] && t.vlanId[c] == v) ||
                  (1 <= v <= MAX_VLAN_ID && forall d :: 0 <= d < |t.vlanId| ==> t.vlanId[d] != v))))
  {
    if 1 <= v <= MAX_VLAN_ID { FreeExactly(t, v); }
  }

  /** Subscriber c has come to hold VLAN v: its slot, its id, its flag; the slot it had is free, and all else is as it was. */
  ghost predicate CameToHold(was: Table, c: nat, v: nat, now: Table)
    requires Shape(was) && c < |was.vlanId|
  {
    && Shape(now)
    && now.vlanId == was.vlanId[c := v] && now.configured == was.configured[c := true] && now.gates == was.gates
    && forall i :: 0 <= i < MAX_VLAN_ID ==>
         now.vlanMap[i] ==
         if i + 1 == v then c else if i + 1 == was.vlanId[c] then INVALID_CCB_ID else was.vlanMap[i]
  }

  /** Everything a move to v needs, the DHCP pool apart. */
  ghost predicate CanMove(t: Table, c: nat, v: nat, isUpdate: bool, env: ApplyEnv)
    requires Shape(t)
  {
    && c < |t.vlanId| && env.valid && env.drained && env.credentialsOk
    && (isUpdate || (!t.gates[c].dhcp && !t.gates[c].ppp))
    && ((isUpdate && t.configured[c] && t.vlanId[c] == v) ||
        (1 <= v <= MAX_VLAN_ID && forall d :: 0 <= d < |t.vlanId| ==> t.vlanId[d] != v))
  }

  /**
   What an apply leaves, in every case: the subscriber holds the new VLAN exactly
   if it can move, be the pool allocated or not, and otherwise nothing changed.
   */
  lemma AppliedExactly(t: Table, c: nat, v: nat, isUpdate: bool, env: ApplyEnv)
    requires Shape(t) && Bijective(t)
    ensures var t' := Applied(t, c, v, isUpdate, env).0;
            if CanMove(t, c, v, isUpdate, env) then CameToHold(t, c, v, t') else t' == t
  {
    if 1 <= v <= MAX_VLAN_ID { FreeExactly(t, v); }
    if !env.credentialsOk { CredentialFailureRestores(t, c, v, isUpdate, env); }
  }

  /** A CREATE of an idle subscriber with the VLAN it already holds is refused as "already assigned". */
  lemma CreateWithOwnVlanRefused(t: Table, c: nat, v: nat, env: ApplyEnv)
    requires Shape(t) && Bijective(t) && c < |t.vlanId| && t.vlanId[c] == v != 0
    requires !t.gates[c].ppp && !t.gates[c].dhcp
    ensures Applied(t, c, v, false, env) == (t, ERROR)
  {
    assert t.vlanMap[v - 1] == c;
  }

  /**
   What a lost cleanup leads to: subscriber 1 is given the freed VLAN, and the
   next move of subscriber 0 silently takes it away again.
   */
  lemma LostCleanupTakesNeighboursVlan()
    ensures var ok := ApplyEnv(true, true, true, true);
            var t := Run(Boot(2), [Apply(0, 100, false, ok), Remove(0, false),
                                   Apply(1, 100, false, ok), Apply(0, 200, true, ok)]);
            t.vlanId[1] == 100 && FrameOwner(t.vlanMap, 100, 2) == None
  {
    var ok := ApplyEnv(true, true, true, true);
    var ops := [Apply(0, 100, false, ok), Remove(0, false), Apply(1, 100, false, ok), Apply(0, 200, true, ok)];
    var t0 := Boot(2);
    var t1 := Next(t0, ops[0]);
    assert t1.vlanMap[99] == 0 && t1.vlanId[0] == 100 && t1.configured[0];
    var t2 := Next(t1, ops[1]);
    assert t2.vlanMap[99] == INVALID_CCB_ID && t2.vlanId[0] == 100;
    var t3 := Next(t2, ops[2]);
    assert t3.vlanMap[99] == 1 && t3.vlanId[1] == 100;
    var t4 := Next(t3, ops[3]);
    assert t4.vlanMap[99] == INVALID_CCB_ID && t4.vlanId[1] == 100;
    assert ops[1..][0] == ops[1] && ops[1..][1..] == ops[2..];
    assert ops[2..][0] == ops[2] && ops[2..][1..] == ops[3..];
    assert ops[3..][0] == ops[3] && ops[3..][1..] == [];
    assert Run(t3, ops[3..]) == t4;
    assert Run(t2, ops[2..]) == t4;
    assert Run(t1, ops[1..]) == t4;
  }

  // ---- the routines ----

  /** The arrays the routines work on in place. */
  class Subscribers {
    const vlanMap: array<nat>
    const vlanId: array<nat>
    const configured: array<bool>
    const gates: array<Gates>

    ghost predicate Valid()
      reads this
    {
      && vlanMap.Length == MAX_VLAN_ID && vlanMap != vlanId
      && vlanId.Length == configured.Length == gates.Length < INVALID_CCB_ID
    }

    ghost function View(): Table
      reads this, vlanMap, vlanId, configured, gates
    {
      Table(vlanMap[..], vlanId[..], configured[..], gates[..])
    }

    constructor (n: nat)
      requires n < INVALID_CCB_ID
      ensures Valid() && View() == Boot(n)
      ensures fresh(vlanMap) && fresh(vlanId) && fresh(configured) && fresh(gates)
    {
      vlanMap := new nat[MAX_VLAN_ID](_ => INVALID_CCB_ID);
      vlanId := new nat[n](_ => 0);
      configured := new bool[n](_ => false);
      gates := new Gates[n](_ => CLOSED);
      new;
      assert vlanMap[..] == Boot(n).vlanMap;
    }

    method SetVlanMapCcbId(vlan: nat, ccb: nat) returns (ok: bool)
      requires Valid()
      modifies vlanMap
      ensures View() == Claim(old(View()), vlan, ccb).0 && ok == Claim(old(View()), vlan, ccb).1
      ensures ok <==> 1 <= vlan <= MAX_VLAN_ID && old(vlanMap[vlan - 1]) == INVALID_CCB_ID
      ensures vlanMap[..] == if ok then old(vlanMap[..])[vlan - 1 := ccb] else old(vlanMap[..])
    {
      if vlan < 1 || vlan > MAX_VLAN_ID { return false; }
      if vlanMap[vlan - 1] != INVALID_CCB_ID { return false; }
      vlanMap[vlan - 1] := ccb;
      ok := true;
    }

    method ResetVlanMapCcbId(vlan: nat)
      requires Valid()
      modifies vlanMap
      ensures View() == Release(old(View()), vlan)
      ensures vlanMap[..] ==
              if 1 <= vlan <= MAX_VLAN_ID then old(vlanMap[..])[vlan - 1 := INVALID_CCB_ID] else old(vlanMap[..])
    {
      if vlan < 1 || vlan > MAX_VLAN_ID { return; }
      vlanMap[vlan - 1] := INVALID_CCB_ID;
    }

    /** ppp_init_config_by_user: refuses before touching anything, or resets the session state. */
    method PppInitConfig(ccb: nat, vlan: nat, credentialsOk: bool) returns (ok: bool)
      requires Valid() && ccb < vlanId.Length
      modifies vlanId, configured, gates
      ensures ok == credentialsOk
      ensures !ok ==> View() == old(View())
      ensures ok ==> vlanId[..] == old(vlanId[..])[ccb := vlan]
      ensures ok ==> configured[..] == old(configured[..])[ccb := vlan != 0]
      ensures ok ==> gates[..] == old(gates[..])[ccb := old(gates[ccb]).(ppp := false, dp := false)]
      ensures vlanMap[..] == old(vlanMap[..])
    {
      if !credentialsOk { return false; }
      vlanId[ccb] := vlan;
      configured[ccb] := vlan != 0;
      gates[ccb] := gates[ccb].(ppp := false, dp := false);
      ok := true;
    }

    /** The new VLAN claimed and, if it is another one, the old one freed. */
    ghost function Moved(t: Table, ccb: nat, vlan: nat): Table
      requires Shape(t) && ccb < |t.vlanId|
    {
      if t.vlanId[ccb] != vlan then Release(Claim(t, vlan, ccb).0, t.vlanId[ccb]) else t
    }

    /** northbound.c:149-163: a subscriber without a config; on failure nothing is left. */
    method ApplyAsNew(ccb: nat, vlan: nat, credentialsOk: bool) returns (ok: bool)
      requires Valid() && ccb < vlanId.Length && gates[ccb] == CLOSED
      modifies vlanMap, vlanId, configured, gates
      ensures ok == (Claim(old(View()), vlan, ccb).1 && credentialsOk)
      ensures var t := old(View());
              View() == if !ok then t
                        else SetVlan(if t.vlanId[ccb] != vlan then Moved(t, ccb, vlan) else Claim(t, vlan, ccb).0,
                                     ccb, vlan, vlan != 0)
    {
      ghost var map0 := vlanMap[..];
      var original := vlanId[ccb];
      ok := SetVlanMapCcbId(vlan, ccb);
      if !ok { return; }
      ok := PppInitConfig(ccb, vlan, credentialsOk);
      if !ok {
        ResetVlanMapCcbId(vlan);
        assert vlanMap[..] == map0;
        return;
      }
      if original != vlan { ResetVlanMapCcbId(original); }
      assert gates[..] == old(gates[..]);
    }

    /** northbound.c:164-185: a configured subscriber; failing credentials put both VLANs back. */
    method ApplyInPlace(ccb: nat, vlan: nat, credentialsOk: bool) returns (ok: bool)
      requires Valid() && ccb < vlanId.Length
      modifies vlanMap, vlanId
      ensures var t := old(View());
              var claimed := t.vlanId[ccb] == vlan || Claim(t, vlan, ccb).1;
              && ok == (claimed && credentialsOk)
              && View() == if ok then SetVlan(Moved(t, ccb, vlan), ccb, vlan, t.configured[ccb])
                           else if claimed && t.vlanId[ccb] != vlan
                           then Claim(Release(Moved(t, ccb, vlan), vlan), t.vlanId[ccb], ccb).0
                           else t
    {
      var original := vlanId[ccb];
      if original != vlan {
        ok := SetVlanMapCcbId(vlan, ccb);
        if !ok { return; }
        ResetVlanMapCcbId(original);
      }
      if !credentialsOk {
        if original != vlan {
          ResetVlanMapCcbId(vlan);
          var _ := SetVlanMapCcbId(original, ccb);
        }
        return false;
      }
      vlanId[ccb] := vlan;
      ok := true;
      assert configured[..] == old(configured[..])[ccb := old(configured[ccb])];
    }

    /** northbound.c:101-229, the part of apply_hsi_config between closing and reopening the gates. */
    method ApplyWithGatesClosed(ccb: nat, vlan: nat, isUpdate: bool, env: ApplyEnv, was: Gates)
      returns (ret: Status)
      requires Valid() && ccb < vlanId.Length && env.valid
      requires gates[ccb] == CLOSED
      modifies vlanMap, vlanId, configured, gates
      ensures var (t, s) := Applied(old(View()).(gates := old(gates[..])[ccb := was]), ccb, vlan, isUpdate, env);
              && ret == s && gates[..] == old(gates[..])
              && vlanMap[..] == t.vlanMap && vlanId[..] == t.vlanId && configured[..] == t.configured
    {
      if !isUpdate && (was.dhcp || was.ppp) { return SUCCESS; }
      if !env.drained { return ERROR; }
      var ok: bool;
      if !isUpdate || !configured[ccb] {
        ok := ApplyAsNew(ccb, vlan, env.credentialsOk);
      } else {
        ok := ApplyInPlace(ccb, vlan, env.credentialsOk);
      }
      if !ok { return ERROR; }
      if !env.dhcpPoolOk { return ERROR; }
      ret := SUCCESS;
    }

    /** northbound.c apply_hsi_config */
    method ApplyHsiConfig(ccb: nat, vlan: nat, isUpdate: bool, env: ApplyEnv) returns (ret: Status)
      requires Valid()
      modifies vlanMap, vlanId, configured, gates
      ensures (View(), ret) == Applied(old(View()), ccb, vlan, isUpdate, env)
      ensures old(Bijective(View())) ==> Bijective(View())
      ensures old(Bijective(View())) && ret == SUCCESS && !isUpdate && old(gates[ccb].dhcp || gates[ccb].ppp) ==>
        View() == old(View())
      ensures old(Bijective(View())) && ret == SUCCESS && (isUpdate || !old(gates[ccb].dhcp || gates[ccb].ppp)) ==>
        && vlanId[..] == old(vlanId[..])[ccb := vlan] && configured[ccb]
        && configured[..] == old(configured[..])[ccb := true] && gates[..] == old(gates[..])
        && forall i :: 0 <= i < MAX_VLAN_ID ==>
             vlanMap[i] == if i + 1 == vlan then ccb else if i + 1 == old(vlanId[ccb]) then INVALID_CCB_ID
                           else old(vlanMap[i])
      ensures old(Bijective(View())) && ret == ERROR && (!env.valid || !env.drained || !env.credentialsOk || env.dhcpPoolOk) ==>
        View() == old(View())
    {
      if Bijective(View()) {
        ApplyKeepsBijection(View(), ccb, vlan, isUpdate, env);
        AppliedExactly(View(), ccb, vlan, isUpdate, env);
        ApplySucceedsExactly(View(), ccb, vlan, isUpdate, env);
      }
      if ccb >= vlanId.Length || !env.valid { return ERROR; }
      var was := gates[ccb];
      gates[ccb] := CLOSED;
      assert old(gates[..]) == gates[..][ccb := was];
      ret := ApplyWithGatesClosed(ccb, vlan, isUpdate, env, was);
      gates[ccb] := was;
    }

    /** northbound.c remove_hsi_config: reports success even when the cleanup could not run. */
    method RemoveHsiConfig(ccb: nat, cleanupOk: bool) returns (ret: Status)
      requires Valid()
      modifies vlanMap, vlanId, configured, gates
      ensures View() == Next(old(View()), Remove(ccb, cleanupOk))
      ensures ret == SUCCESS <==> RemoveAllowed(old(View()), ccb)
      ensures ret == SUCCESS <==>
        ccb < vlanId.Length && old(vlanId[ccb]) != 0 && !old(gates[ccb]).ppp && !old(gates[ccb]).dhcp
      ensures ret == ERROR ==> View() == old(View())
      ensures ret == SUCCESS ==>
        && (forall i :: 0 <= i < MAX_VLAN_ID ==>
              vlanMap[i] == if i + 1 == old(vlanId[ccb]) then INVALID_CCB_ID else old(vlanMap[i]))
        && vlanId[..] == (if cleanupOk then old(vlanId[..])[ccb := 0] else old(vlanId[..]))
        && configured[..] == (if cleanupOk then old(configured[..])[ccb := false] else old(configured[..]))
        && gates[..] == (if cleanupOk then old(gates[..])[ccb := CLOSED] else old(gates[..]))
    {
      if ccb >= vlanId.Length { return ERROR; }
      if vlanId[ccb] == 0 { return ERROR; }
      if gates[ccb].ppp { return ERROR; }
      if gates[ccb].dhcp { return ERROR; }
      ResetVlanMapCcbId(vlanId[ccb]);
      var _ := PppInitConfig(ccb, 0, cleanupOk);
      ret := SUCCESS;
    }
  }
}
