/**
 Packets waiting for a LAN host's MAC address: a ring of 64 slots per subscriber,
 holding 63 entries taken from a pool all subscribers share. Operations are
 modelled one after the other.
 */
module ArpPending {
  import opened Common
  import opened PackedWord

  const ARP_PENDING_QUEUE_SIZE := 64
  const CAPACITY := ARP_PENDING_QUEUE_SIZE - 1

  type Mbuf = nat

  datatype Pending = Pending(mbuf: Mbuf, targetIp: nat, txQueue: nat)

  // ---- what a drain selects ----

  /** The queued packets that are released: those for ip in arrival order, but no more than room. */
  function Released(q: seq<Pending>, ip: nat, room: nat): seq<Pending>
    decreases |q|
  {
    if q == [] then []
    else if q[0].targetIp == ip && room > 0 then [q[0]] + Released(q[1..], ip, room - 1)
    else Released(q[1..], ip, room)
  }

  /** The others. */
  function Kept(q: seq<Pending>, ip: nat, room: nat): seq<Pending>
    decreases |q|
  {
    if q == [] then []
    else if q[0].targetIp == ip && room > 0 then Kept(q[1..], ip, room - 1)
    else [q[0]] + Kept(q[1..], ip, room)
  }

  /** All packets for ip, in arrival order. */
  function Matching(q: seq<Pending>, ip: nat): seq<Pending>
    decreases |q|
  {
    if q == [] then [] else (if q[0].targetIp == ip then [q[0]] else []) + Matching(q[1..], ip)
  }

  function Others(q: seq<Pending>, ip: nat): seq<Pending>
    decreases |q|
  {
    if q == [] then [] else (if q[0].targetIp != ip then [q[0]] else []) + Others(q[1..], ip)
  }

  /** Where the entries of a sequence sit in another, in increasing order. */
  ghost predicate Picks(at: seq<nat>, part: seq<Pending>, whole: seq<Pending>) {
    && |at| == |part|
    && (forall i :: 0 <= i < |at| ==> at[i] < |whole| && part[i] == whole[at[i]])
    && (forall i, j :: 0 <= i < j < |at| ==> at[i] < at[j])
  }

  /** The released packets are the first `room` of the matching ones. */
  lemma {:induction false} ReleasedArePrefix(q: seq<Pending>, ip: nat, room: nat)
    ensures var all := Matching(q, ip);
            Released(q, ip, room) == all[..if room < |all| then room else |all|]
    decreases |q|
  {
    if q == [] {
    } else {
      var all := Matching(q[1..], ip);
      if q[0].targetIp == ip && room > 0 {
        ReleasedArePrefix(q[1..], ip, room - 1);
        var n := if room - 1 < |all| then room - 1 else |all|;
        assert ([q[0]] + all)[..n + 1] == [q[0]] + all[..n];
      } else {
        ReleasedArePrefix(q[1..], ip, room);
      }
    }
  }

  /** With room for all of them, only packets for other addresses stay. */
  lemma {:induction false} RoomForAll(q: seq<Pending>, ip: nat, room: nat)
    requires room >= |Matching(q, ip)|
    ensures Released(q, ip, room) == Matching(q, ip) && Kept(q, ip, room) == Others(q, ip)
    decreases |q|
  {
    if q == [] {
    } else {
      RoomForAll(q[1..], ip, if q[0].targetIp == ip then room - 1 else room);
    }
  }

  /** Who goes and who stays: only packets for ip are released, and one stays only when the room is used up. */
  lemma {:induction false} ReleasedExactly(q: seq<Pending>, ip: nat, room: nat)
    ensures forall e :: e in Released(q, ip, room) ==> e.targetIp == ip
    ensures |Released(q, ip, room)| <= room
    ensures |Released(q, ip, room)| < room ==> forall e :: e in Kept(q, ip, room) ==> e.targetIp != ip
    decreases |q|
  {
    if q == [] {
    } else {
      ReleasedExactly(q[1..], ip, if q[0].targetIp == ip && room > 0 then room - 1 else room);
    }
  }

  ghost function Shifted(at: seq<nat>): seq<nat> {
    seq(|at|, i requires 0 <= i < |at| => at[i] + 1)
  }

  lemma PicksLater(at: seq<nat>, part: seq<Pending>, whole: seq<Pending>)
    requires whole != [] && Picks(at, part, whole[1..])
    ensures Picks(Shifted(at), part, whole) && Picks([0] + Shifted(at), [whole[0]] + part, whole)
    ensures forall i: nat :: i in Shifted(at) <==> i > 0 && i - 1 in at
  {
    forall i: nat ensures i in Shifted(at) <==> i > 0 && i - 1 in at {
      if i > 0 && i - 1 in at {
        var j :| 0 <= j < |at| && at[j] == i - 1;
        assert Shifted(at)[j] == i;
      }
    }
  }

  /**
   Every position of the queue goes to exactly one side, and both sides keep
   arrival order; no packet for ip goes before an older one.
   */
  lemma {:induction false} DrainPartitions(q: seq<Pending>, ip: nat, room: nat) returns (out: seq<nat>, stay: seq<nat>)
    ensures Picks(out, Released(q, ip, room), q) && Picks(stay, Kept(q, ip, room), q)
    ensures forall i: nat :: i < |q| <==> i in out || i in stay
    ensures forall i: nat :: !(i in out && i in stay)
    ensures |out| + |stay| == |q|
    ensures forall i, j :: i in out && j in stay && q[j].targetIp == ip ==> i < j
    decreases |q|
  {
    if q == [] {
      out, stay := [], [];
    } else if q[0].targetIp == ip && room > 0 {
      var o, s := DrainPartitions(q[1..], ip, room - 1);
      PicksLater(o, Released(q[1..], ip, room - 1), q);
      PicksLater(s, Kept(q[1..], ip, room - 1), q);
      out, stay := [0] + Shifted(o), Shifted(s);
    } else {
      var o, s := DrainPartitions(q[1..], ip, room);
      PicksLater(o, Released(q[1..], ip, room), q);
      PicksLater(s, Kept(q[1..], ip, room), q);
      out, stay := Shifted(o), [0] + Shifted(s);
      ReleasedExactly(q[1..], ip, room);
      assert room == 0 ==> out == [];
    }
  }

  /** Adding at the end, as the drain loop goes. */
  lemma {:induction false} DrainSnoc(q: seq<Pending>, e: Pending, ip: nat, room: nat)
    ensures var take := e.targetIp == ip && |Released(q, ip, room)| < room;
            && Released(q + [e], ip, room) == (if take then Released(q, ip, room) + [e] else Released(q, ip, room))
            && Kept(q + [e], ip, room) == (if take then Kept(q, ip, room) else Kept(q, ip, room) + [e])
            && |Released(q, ip, room)| <= room
    decreases |q|
  {
    if q == [] {
      assert [] + [e] == [e] && [e][1..] == [];
    } else {
      assert (q + [e])[1..] == q[1..] + [e] && (q + [e])[0] == q[0];
      DrainSnoc(q[1..], e, ip, if q[0].targetIp == ip && room > 0 then room - 1 else room);
    }
  }

  lemma KeptFits(q: seq<Pending>, ip: nat, room: nat)
    ensures |Released(q, ip, room)| + |Kept(q, ip, room)| == |q|
  {
    var out, stay := DrainPartitions(q, ip, room);
  }

  /** The drain loop at entry i: what it released and what it queued again so far. */
  ghost predicate DrainedTo(batch: seq<Pending>, i: nat, ip: nat, room: nat, out: seq<Pending>, ring: seq<Pending>) {
    i <= |batch| && out == Released(batch[..i], ip, room) && ring == Kept(batch[..i], ip, room)
  }

  lemma DrainStep(batch: seq<Pending>, i: nat, ip: nat, room: nat, out: seq<Pending>, ring: seq<Pending>)
    requires DrainedTo(batch, i, ip, room, out, ring) && i < |batch|
    ensures |out| <= room && |out| + |ring| == i
    ensures if batch[i].targetIp == ip && |out| < room then DrainedTo(batch, i + 1, ip, room, out + [batch[i]], ring)
            else DrainedTo(batch, i + 1, ip, room, out, ring + [batch[i]])
  {
    assert batch[..i + 1] == batch[..i] + [batch[i]];
    DrainSnoc(batch[..i], batch[i], ip, room);
    KeptFits(batch[..i], ip, room);
  }

  lemma DrainedAll(batch: seq<Pending>, ip: nat, room: nat, out: seq<Pending>, ring: seq<Pending>)
    requires DrainedTo(batch, |batch|, ip, room, out, ring)
    ensures out == Released(batch, ip, room) && ring == Kept(batch, ip, room) && |out| + |ring| == |batch|
  {
    assert batch[..|batch|] == batch;
    KeptFits(batch, ip, room);
  }

  /** An output array after part has been written from `at` on. */
  ghost function Written<T>(was: seq<T>, at: nat, part: seq<T>): (r: seq<T>)
    requires at + |part| <= |was|
    ensures |r| == |was|
    ensures forall i :: 0 <= i < |was| ==> r[i] == if at <= i < at + |part| then part[i - at] else was[i]
  {
    was[..at] + part + was[at + |part|..]
  }

  lemma WrittenSnoc<T>(was: seq<T>, at: nat, part: seq<T>, x: T)
    requires at + |part| < |was|
    ensures Written(was, at, part + [x]) == Written(was, at, part)[at + |part| := x]
  {
  }

  // ---- the queue ----

  /** The destination addresses after writing mac into every one of these packets, and no other. */
  ghost function Addressed(before: map<Mbuf, Mac>, out: seq<Pending>, mac: Mac): map<Mbuf, Mac> {
    if out == [] then before else Addressed(before, out[..|out| - 1], mac)[out[|out| - 1].mbuf := mac]
  }

  lemma AddressedSnoc(before: map<Mbuf, Mac>, out: seq<Pending>, e: Pending, mac: Mac)
    ensures Addressed(before, out + [e], mac) == Addressed(before, out, mac)[e.mbuf := mac]
  {
    assert (out + [e])[..|out + [e]| - 1] == out;
  }

  /** A packet's destination is mac if it is among them, and what it was before if it is not. */
  lemma {:induction false} AddressedExactly(before: map<Mbuf, Mac>, out: seq<Pending>, mac: Mac)
    ensures var after := Addressed(before, out, mac);
            && (forall i :: 0 <= i < |out| ==> out[i].mbuf in after && after[out[i].mbuf] == mac)
            && (forall p :: (forall i :: 0 <= i < |out| ==> out[i].mbuf != p) ==>
                  (p in after <==> p in before) && (p in before ==> after[p] == before[p]))
  {
    if out == [] {
    } else {
      AddressedExactly(before, out[..|out| - 1], mac);
      assert forall i :: 0 <= i < |out| - 1 ==> out[..|out| - 1][i] == out[i];
    }
  }

  /** The three outputs after out has been added to them. */
  ghost predicate Added(out: seq<Pending>, mac: Mac, at: nat, pkts: seq<Mbuf>, queues: seq<nat>, macs: map<Mbuf, Mac>,
                        pkts': seq<Mbuf>, queues': seq<nat>, macs': map<Mbuf, Mac>)
  {
    && at + |out| <= |pkts| == |pkts'| && at + |out| <= |queues| == |queues'|
    && pkts' == Written(pkts, at, Mbufs(out)) && queues' == Written(queues, at, Queues(out))
    && macs' == Addressed(macs, out, mac)
  }

  /** One more released entry, in all three of them. */
  lemma AddedSnoc(out: seq<Pending>, e: Pending, mac: Mac, at: nat, pkts: seq<Mbuf>, queues: seq<nat>, macs: map<Mbuf, Mac>,
                  pkts': seq<Mbuf>, queues': seq<nat>, macs': map<Mbuf, Mac>)
    requires Added(out, mac, at, pkts, queues, macs, pkts', queues', macs')
    requires at + |out| < |pkts| && at + |out| < |queues|
    ensures Added(out + [e], mac, at, pkts, queues, macs,
                  pkts'[at + |out| := e.mbuf], queues'[at + |out| := e.txQueue], macs'[e.mbuf := mac])
  {
    assert Mbufs(out + [e]) == Mbufs(out) + [e.mbuf] && Queues(out + [e]) == Queues(out) + [e.txQueue];
    WrittenSnoc(pkts, at, Mbufs(out), e.mbuf);
    WrittenSnoc(queues, at, Queues(out), e.txQueue);
    AddressedSnoc(macs, out, e, mac);
  }

  /** Each released packet is one for ip, stands in its place with its queue, and carries the address. */
  ghost predicate PutOut(out: seq<Pending>, ip: nat, mac: Mac, at: nat, pkts: seq<Mbuf>, queues: seq<nat>, macs: map<Mbuf, Mac>) {
    && at + |out| <= |pkts| && at + |out| <= |queues|
    && forall k :: at <= k < at + |out| ==>
         && out[k - at].targetIp == ip && pkts[k] == out[k - at].mbuf && queues[k] == out[k - at].txQueue
         && pkts[k] in macs && macs[pkts[k]] == mac
  }

  lemma PutOutExactly(out: seq<Pending>, ip: nat, mac: Mac, at: nat, pkts: seq<Mbuf>, queues: seq<nat>, macs: map<Mbuf, Mac>,
                      pkts': seq<Mbuf>, queues': seq<nat>, macs': map<Mbuf, Mac>)
    requires Added(out, mac, at, pkts, queues, macs, pkts', queues', macs') && forall e :: e in out ==> e.targetIp == ip
    ensures PutOut(out, ip, mac, at, pkts', queues', macs')
  {
    AddressedExactly(macs, out, mac);
    forall k | at <= k < at + |out|
      ensures out[k - at].targetIp == ip && pkts'[k] == out[k - at].mbuf && queues'[k] == out[k - at].txQueue
    {
      assert Mbufs(out)[k - at] == out[k - at].mbuf && Queues(out)[k - at] == out[k - at].txQueue;
    }
  }

  ghost predicate NoneFor(q: seq<Pending>, ip: nat) {
    forall e :: e in q ==> e.targetIp != ip
  }

  /** At the end of the loop. */
  lemma DrainedExactly(q: seq<Pending>, ip: nat, room: nat, out: seq<Pending>, kept: seq<Pending>, mac: Mac, at: nat,
                       pkts: seq<Mbuf>, queues: seq<nat>, macs: map<Mbuf, Mac>,
                       pkts': seq<Mbuf>, queues': seq<nat>, macs': map<Mbuf, Mac>)
    requires DrainedTo(q, |q|, ip, room, out, kept)
    requires Added(out, mac, at, pkts, queues, macs, pkts', queues', macs')
    ensures out == Released(q, ip, room) && kept == Kept(q, ip, room) && |out| + |kept| == |q|
    ensures PutOut(out, ip, mac, at, pkts', queues', macs')
    ensures |out| < room ==> NoneFor(kept, ip)
  {
    DrainedAll(q, ip, room, out, kept);
    ReleasedExactly(q, ip, room);
    PutOutExactly(out, ip, mac, at, pkts, queues, macs, pkts', queues', macs');
  }

  class Queue {
    var ring: seq<Pending>
    var free: nat             // entries left in the shared pool
    ghost var total: nat      // entries of the pool not held by another subscriber
    ghost var dropped: seq<Mbuf>
    var dstMac: map<Mbuf, Mac>

    ghost predicate Valid()
      reads this
    {
      |ring| <= CAPACITY && free + |ring| == total
    }

    constructor (poolFree: nat)
      ensures Valid() && ring == [] && free == total == poolFree && dropped == [] && dstMac == map[]
    {
      ring, free, total, dropped, dstMac := [], poolFree, poolFree, [], map[];
    }

    /**
     arp_pending_enqueue. With the pool empty the packet stays with the caller and
     nothing changes; on a full ring exactly the oldest packet makes way.
     */
    method Enqueue(mbuf: Mbuf, targetIp: nat, txQueue: nat) returns (ret: Status)
      requires Valid()
      modifies this
      ensures Valid() && total == old(total) && dstMac == old(dstMac)
      ensures ret == SUCCESS <==> old(free) > 0
      ensures ret == ERROR ==> ring == old(ring) && free == old(free) && dropped == old(dropped)
      ensures ret == SUCCESS ==>
                var e := Pending(mbuf, targetIp, txQueue);
                if |old(ring)| < CAPACITY then ring == old(ring) + [e] && dropped == old(dropped)
                else ring == old(ring)[1..] + [e] && dropped == old(dropped) + [old(ring)[0].mbuf]
    {
      if free == 0 { return ERROR; }
      free := free - 1;
      var entry := Pending(mbuf, targetIp, txQueue);
      if |ring| >= CAPACITY {
        var oldest := ring[0];
        ring := ring[1..];
        dropped := dropped + [oldest.mbuf];
        free := free + 1;
        assert |ring| < CAPACITY;   // so the retry cannot fail
      }
      ring := ring + [entry];
      ret := SUCCESS;
    }

    /** One released entry: its packet is addressed and put out at place k, the entry returns to the pool. */
    method Emit(e: Pending, mac: Mac, txPkts: array<Mbuf>, txQueues: array<nat>, k: nat)
      requires txPkts != txQueues && k < txPkts.Length && k < txQueues.Length
      modifies this`dstMac, this`free, txPkts, txQueues
      ensures dstMac == old(dstMac)[e.mbuf := mac] && free == old(free) + 1
      ensures txPkts[..] == old(txPkts[..])[k := e.mbuf] && txQueues[..] == old(txQueues[..])[k := e.txQueue]
    {
      dstMac := dstMac[e.mbuf := mac];
      txQueues[k] := e.txQueue;
      txPkts[k] := e.mbuf;
      free := free + 1;
    }

    /**
     arp_pending_drain: the first packets for the resolved address go out after the
     count already there, each on its own queue and with the MAC set; the others
     are queued again in order, and none is dropped.
     */
    method Drain(resolvedIp: nat, mac: Mac, txPkts: array<Mbuf>, txQueues: array<nat>, txCount: nat, txMax: nat)
      returns (txCount': nat)
      requires Valid() && txPkts != txQueues
      requires txCount <= txMax <= txPkts.Length && txMax <= txQueues.Length
      modifies this, txPkts, txQueues
      ensures Valid() && total == old(total) && dropped == old(dropped)
      ensures ring == Kept(old(ring), resolvedIp, txMax - txCount)
      ensures var out := Released(old(ring), resolvedIp, txMax - txCount);
              && txCount' == txCount + |out| <= txMax
              && Added(out, mac, txCount, old(txPkts[..]), old(txQueues[..]), old(dstMac), txPkts[..], txQueues[..], dstMac)

              && PutOut(out, resolvedIp, mac, txCount, txPkts[..], txQueues[..], dstMac)
      ensures txCount' < txMax ==> NoneFor(ring, resolvedIp)
    {
      var batch := ring;
      ring := [];
      txCount' := DrainBatch(batch, resolvedIp, mac, txPkts, txQueues, txCount, txMax);
    }

    /** The loop over what the drain took off the ring. */
    method DrainBatch(batch: seq<Pending>, resolvedIp: nat, mac: Mac, txPkts: array<Mbuf>, txQueues: array<nat>, txCount: nat, txMax: nat)
      returns (txCount': nat)
      requires |batch| <= CAPACITY && ring == [] && txPkts != txQueues
      requires txCount <= txMax <= txPkts.Length && txMax <= txQueues.Length
      modifies this`ring, this`free, this`dstMac, txPkts, txQueues
      ensures ring == Kept(batch, resolvedIp, txMax - txCount) && free + |ring| == old(free) + |batch|
      ensures var out := Released(batch, resolvedIp, txMax - txCount);
              && txCount' == txCount + |out| <= txMax
              && Added(out, mac, txCount, old(txPkts[..]), old(txQueues[..]), old(dstMac), txPkts[..], txQueues[..], dstMac)

              && PutOut(out, resolvedIp, mac, txCount, txPkts[..], txQueues[..], dstMac)
      ensures txCount' < txMax ==> NoneFor(ring, resolvedIp)
      ensures |ring| <= |batch|
    {
      txCount' := txCount;
      ghost var room := txMax - txCount;
      ghost var pkts, queues, macs := txPkts[..], txQueues[..], dstMac;
      ghost var out: seq<Pending> := [];
      var i := 0;
      while i < |batch|
        invariant DrainedTo(batch, i, resolvedIp, room, out, ring)
        invariant txCount' == txCount + |out| <= txMax
        invariant free + |ring| + (|batch| - i) == old(free) + |batch|
        invariant Added(out, mac, txCount, pkts, queues, macs, txPkts[..], txQueues[..], dstMac)
      {
        var e := batch[i];
        DrainStep(batch, i, resolvedIp, room, out, ring);
        if e.targetIp == resolvedIp && txCount' < txMax {
          AddedSnoc(out, e, mac, txCount, pkts, queues, macs, txPkts[..], txQueues[..], dstMac);
          Emit(e, mac, txPkts, txQueues, txCount');
          txCount' := txCount' + 1;
          out := out + [e];
        } else {
          assert |ring| < CAPACITY;   // so the packet is never dropped here
          ring := ring + [e];
        }
        i := i + 1;
      }
      DrainedExactly(batch, resolvedIp, room, out, ring, mac, txCount, pkts, queues, macs, txPkts[..], txQueues[..], dstMac);
    }

    /** arp_pending_flush */
    method Flush()
      requires Valid()
      modifies this
      ensures Valid() && total == old(total) && dstMac == old(dstMac)
      ensures ring == [] && free == total && dropped == old(dropped) + Mbufs(old(ring))
    {
      while ring != []
        invariant Valid() && total == old(total) && dstMac == old(dstMac)
        invariant dropped + Mbufs(ring) == old(dropped) + Mbufs(old(ring))
        decreases |ring|
      {
        var e := ring[0];
        assert Mbufs(ring) == [e.mbuf] + Mbufs(ring[1..]);
        ring := ring[1..];
        dropped := dropped + [e.mbuf];
        free := free + 1;
      }
    }
  }

  function Queues(q: seq<Pending>): seq<nat> {
    seq(|q|, i requires 0 <= i < |q| => q[i].txQueue)
  }

  function Mbufs(q: seq<Pending>): seq<Mbuf> {
    seq(|q|, i requires 0 <= i < |q| => q[i].mbuf)
  }

  // ---- over whole runs ----

  datatype Op = Add(e: Pending, poolEmpty: bool) | Resolve(ip: nat, room: nat) | Clear

  /** The queue after one operation, and the packets that left it, sent or dropped. */
  ghost function After(q: seq<Pending>, op: Op): (seq<Pending>, seq<Pending>) {
    match op
    case Add(e, poolEmpty) =>
      if poolEmpty then (q, []) else if |q| < CAPACITY then (q + [e], []) else (q[1..] + [e], [q[0]])
    case Resolve(ip, room) => (Kept(q, ip, room), Released(q, ip, room))
    case Clear => ([], q)
  }

  ghost function Came(op: Op): seq<Pending> {
    if op.Add? && !op.poolEmpty then [op.e] else []
  }

  ghost function Final(q: seq<Pending>, ops: seq<Op>): seq<Pending>
    decreases |ops|
  {
    if ops == [] then q else Final(After(q, ops[0]).0, ops[1..])
  }

  ghost function AllLeft(q: seq<Pending>, ops: seq<Op>): seq<Pending>
    decreases |ops|
  {
    if ops == [] then [] else After(q, ops[0]).1 + AllLeft(After(q, ops[0]).0, ops[1..])
  }

  ghost function AllCame(ops: seq<Op>): seq<Pending>
    decreases |ops|
  {
    if ops == [] then [] else Came(ops[0]) + AllCame(ops[1..])
  }

  lemma MatchingCons(e: Pending, s: seq<Pending>, ip: nat)
    ensures Matching([e] + s, ip) == if e.targetIp == ip then [e] + Matching(s, ip) else Matching(s, ip)
  {
    assert ([e] + s)[1..] == s;
  }

  lemma {:induction false} MatchingAppend(a: seq<Pending>, b: seq<Pending>, ip: nat)
    ensures Matching(a + b, ip) == Matching(a, ip) + Matching(b, ip)
    decreases |a|
  {
    if a == [] {
      assert a + b == b;
    } else {
      assert a + b == [a[0]] + (a[1..] + b) && a == [a[0]] + a[1..];
      MatchingCons(a[0], a[1..] + b, ip);
      MatchingAppend(a[1..], b, ip);
    }
  }

  lemma {:induction false} NothingElseReleased(q: seq<Pending>, resolved: nat, room: nat, ip: nat)
    requires ip != resolved || room == 0
    ensures Matching(Released(q, resolved, room), ip) == []
    ensures Matching(Kept(q, resolved, room), ip) == Matching(q, ip)
    decreases |q|
  {
    if q == [] {
    } else {
      NothingElseReleased(q[1..], resolved, if q[0].targetIp == resolved && room > 0 then room - 1 else room, ip);
    }
  }

  lemma {:induction false} ResolveKeepsHostOrder(q: seq<Pending>, resolved: nat, room: nat, ip: nat)
    ensures Matching(q, ip) == Matching(Released(q, resolved, room), ip) + Matching(Kept(q, resolved, room), ip)
    decreases |q|
  {
    if ip != resolved || room == 0 {
      NothingElseReleased(q, resolved, room, ip);
    } else if q != [] && q[0].targetIp == resolved {
      ResolveKeepsHostOrder(q[1..], resolved, room - 1, ip);
      MatchingCons(q[0], Released(q[1..], resolved, room - 1), ip);
    } else if q != [] {
      ResolveKeepsHostOrder(q[1..], resolved, room, ip);
      MatchingCons(q[0], Kept(q[1..], resolved, room), ip);
    }
  }

  lemma StepKeepsHostOrder(q: seq<Pending>, op: Op, ip: nat)
    ensures Matching(q, ip) + Matching(Came(op), ip) == Matching(After(q, op).1, ip) + Matching(After(q, op).0, ip)
  {
    match op
    case Add(e, poolEmpty) =>
      if !poolEmpty {
        MatchingAppend(q, [e], ip);
        if |q| >= CAPACITY {
          MatchingAppend(q[1..], [e], ip);
          MatchingAppend([q[0]], q[1..], ip);
          assert q == [q[0]] + q[1..];
        }
      }
    case Resolve(resolved, room) => ResolveKeepsHostOrder(q, resolved, room, ip);
    case Clear =>
  }

  lemma Weave(q: seq<Pending>, came: seq<Pending>, left: seq<Pending>, q': seq<Pending>,
              came': seq<Pending>, left': seq<Pending>, final: seq<Pending>)
    requires q + came == left + q' && q' + came' == left' + final
    ensures q + (came + came') == (left + left') + final
  {
    calc {
      q + (came + came');
      (q + came) + came';
      (left + q') + came';
      left + (q' + came');
      left + (left' + final);
      (left + left') + final;
    }
  }

  /**
   Over every run the packets for one host leave, sent or dropped, in exactly the
   order they came, and the ones that have not left are still queued.
   */
  lemma {:induction false} HostOrderKept(q: seq<Pending>, ops: seq<Op>, ip: nat)
    ensures Matching(q + AllCame(ops), ip) == Matching(AllLeft(q, ops), ip) + Matching(Final(q, ops), ip)
    decreases |ops|
  {
    MatchingAppend(q, AllCame(ops), ip);
    if ops == [] {
      assert Matching(q, ip) + [] == [] + Matching(q, ip);
    } else {
      var (q', left) := After(q, ops[0]);
      StepKeepsHostOrder(q, ops[0], ip);
      HostOrderKept(q', ops[1..], ip);
      MatchingAppend(Came(ops[0]), AllCame(ops[1..]), ip);
      MatchingAppend(q', AllCame(ops[1..]), ip);
      MatchingAppend(left, AllLeft(q', ops[1..]), ip);
      Weave(Matching(q, ip), Matching(Came(ops[0]), ip), Matching(left, ip), Matching(q', ip),
            Matching(AllCame(ops[1..]), ip), Matching(AllLeft(q', ops[1..]), ip), Matching(Final(q', ops[1..]), ip));
    }
  }
}
