/**
 One poll of a data core: the received burst is compacted in place into the
 packets to transmit, topped up from the handoff ring of the queue the core
 owns, and offered to the port, which may refuse a tail. And the layout that
 gives every transmit queue one owner.
 */
module Burst {
  import opened Common
  import Ipv6Forward

  const BURST_SIZE := 32
  const TX_HANDOFF_RING_SIZE := 256
  const U16_RANGE := 0x1_0000

  type Mbuf = nat

  // ---- who sends on which queue ----

  const PORT_AMOUNT := 2
  const LAN_PORT := 0
  const WAN_PORT := 1
  const TX_QUEUE_NONE := 0xFFFF

  datatype Sender = CTRL_THREAD | WAN_DATA | LAN_DATA | LAN_CTRL | WAN_CTRL

  /** get_tx_queue_count, in 16 bits */
  function QueueCount(dataQueues: nat): nat {
    (dataQueues + 3) % U16_RANGE
  }

  /** get_tx_queue_id_for_sender, in 16 bits */
  function QueueIdFor(sender: Sender, index: nat, port: nat, dataQueues: nat): nat {
    if port >= PORT_AMOUNT then TX_QUEUE_NONE
    else match sender
         case CTRL_THREAD => if index == 0 then 0 else TX_QUEUE_NONE
         case WAN_DATA => if index >= dataQueues || port != LAN_PORT then TX_QUEUE_NONE else (index + 1) % U16_RANGE
         case LAN_DATA => if index >= dataQueues || port != WAN_PORT then TX_QUEUE_NONE else (index + 1) % U16_RANGE
         case LAN_CTRL =>
           if index != 0 then TX_QUEUE_NONE
           else if port == LAN_PORT then (dataQueues + 1) % U16_RANGE else (dataQueues + 2) % U16_RANGE
         case WAN_CTRL =>
           if index != 0 then TX_QUEUE_NONE
           else if port == WAN_PORT then (dataQueues + 1) % U16_RANGE else (dataQueues + 2) % U16_RANGE
  }

  /** The layout as documented: queue 0, the data cores, the port's own poller, the other port's. */
  ghost function Owner(queue: nat, port: nat, dataQueues: nat): (Sender, nat)
    requires queue < dataQueues + 3
  {
    if queue == 0 then (CTRL_THREAD, 0)
    else if queue <= dataQueues then (if port == LAN_PORT then WAN_DATA else LAN_DATA, queue - 1)
    else if (queue == dataQueues + 1) == (port == LAN_PORT) then (LAN_CTRL, 0)
    else (WAN_CTRL, 0)
  }

  const MAX_DATA_QUEUES := 65532

  /** Each queue of a port has exactly one sender, the documented one. */
  lemma OneSenderPerQueue(queue: nat, port: nat, dataQueues: nat, sender: Sender, index: nat)
    requires dataQueues <= MAX_DATA_QUEUES && port < PORT_AMOUNT
    ensures QueueCount(dataQueues) == dataQueues + 3
    ensures queue < QueueCount(dataQueues) ==>
              (QueueIdFor(sender, index, port, dataQueues) == queue <==> Owner(queue, port, dataQueues) == (sender, index))
  {
  }

  /** Whoever has a queue has one that exists. */
  ghost predicate QueuesExist(dataQueues: nat) {
    forall sender: Sender, index: nat, port: nat ::
      QueueIdFor(sender, index, port, dataQueues) == TX_QUEUE_NONE ||
      QueueIdFor(sender, index, port, dataQueues) < QueueCount(dataQueues)
  }

  /** The 16-bit arithmetic carries the layout exactly this far. */
  lemma QueuesExistExactly(dataQueues: nat)
    requires dataQueues < U16_RANGE
    ensures QueuesExist(dataQueues) <==> dataQueues <= MAX_DATA_QUEUES
  {
    if dataQueues > MAX_DATA_QUEUES {
      assert QueueIdFor(CTRL_THREAD, 0, LAN_PORT, dataQueues) == 0;
      assert QueueIdFor(WAN_DATA, 1, LAN_PORT, dataQueues) == 2;
      assert QueueIdFor(WAN_DATA, 0, LAN_PORT, dataQueues) == 1;
    } else {
      forall sender: Sender, index: nat, port: nat
        ensures QueueIdFor(sender, index, port, dataQueues) == TX_QUEUE_NONE ||
                QueueIdFor(sender, index, port, dataQueues) < QueueCount(dataQueues)
      {
      }
    }
  }

  // ---- what becomes of the received packets ----

  /** Ways a packet leaves the burst without being transmitted with it; ALONE is a transmission of its own. */
  datatype Disposal = DROP | TO_CP | PARKED | ALONE

  /** Whether a packet is kept for transmission, and every disposal the code makes of it. */
  datatype Fate = Fate(kept: bool, left: seq<Disposal>)

  const KEEP := Fate(true, [])

  function Once(how: Disposal): Fate {
    Fate(false, [how])
  }

  /** How often the packet is let go of; a sound fate has weight one. */
  function Weight(f: Fate): nat {
    (if f.kept then 1 else 0) + |f.left|
  }

  datatype Leaving = Leaving(mbuf: Mbuf, how: Disposal)

  function Leavings(m: Mbuf, how: seq<Disposal>): seq<Leaving> {
    seq(|how|, i requires 0 <= i < |how| => Leaving(m, how[i]))
  }

  function Kept(rx: seq<Mbuf>, v: seq<Fate>): seq<Mbuf>
    requires |rx| == |v|
  {
    if rx == [] then []
    else Kept(rx[..|rx| - 1], v[..|rx| - 1]) + (if v[|rx| - 1].kept then [rx[|rx| - 1]] else [])
  }

  function Left(rx: seq<Mbuf>, v: seq<Fate>): seq<Leaving>
    requires |rx| == |v|
  {
    if rx == [] then []
    else Left(rx[..|rx| - 1], v[..|rx| - 1]) + Leavings(rx[|rx| - 1], v[|rx| - 1].left)
  }

  /** How often p is let go of, over a burst. */
  ghost function Weighted(rx: seq<Mbuf>, v: seq<Fate>, p: Mbuf): nat
    requires |rx| == |v|
  {
    if rx == [] then 0
    else
      Weighted(rx[..|rx| - 1], v[..|rx| - 1], p) + (if rx[|rx| - 1] == p then Weight(v[|rx| - 1]) else 0)
  }

  function Dropped(pkts: seq<Mbuf>): seq<Leaving> {
    seq(|pkts|, i requires 0 <= i < |pkts| => Leaving(pkts[i], DROP))
  }

  function Min(a: nat, b: nat): nat {
    if a < b then a else b
  }

  /** The batch of one poll. */
  function Batch(rx: seq<Mbuf>, v: seq<Fate>, handoff: seq<Mbuf>): seq<Mbuf>
    requires |rx| == |v| <= BURST_SIZE
  {
    KeptFits(rx, v);
    Kept(rx, v) + handoff[..TopUp(rx, v, handoff)]
  }

  function TopUp(rx: seq<Mbuf>, v: seq<Fate>, handoff: seq<Mbuf>): (n: nat)
    requires |rx| == |v| <= BURST_SIZE
    ensures n <= |handoff|
  {
    KeptFits(rx, v);
    Min(BURST_SIZE - |Kept(rx, v)|, |handoff|)
  }

  lemma {:induction false} KeptFits(rx: seq<Mbuf>, v: seq<Fate>)
    requires |rx| == |v|
    ensures |Kept(rx, v)| <= |rx|
  {
    if rx == [] {
    } else {
      KeptFits(rx[..|rx| - 1], v[..|rx| - 1]);
    }
  }

  /** The positions of the packets to keep. */
  ghost function Positions(v: seq<Fate>): seq<nat> {
    if v == [] then []
    else Positions(v[..|v| - 1]) + (if v[|v| - 1].kept then [|v| - 1] else [])
  }

  /** They are all of them, in arrival order. */
  lemma {:induction false} PositionsExact(v: seq<Fate>)
    ensures forall i: nat :: i in Positions(v) <==> i < |v| && v[i].kept
    ensures forall i, j :: 0 <= i < j < |Positions(v)| ==> Positions(v)[i] < Positions(v)[j]
  {
    if v == [] {
    } else {
      var n := |v| - 1;
      PositionsExact(v[..n]);
      forall i: nat ensures i in Positions(v) <==> i < |v| && v[i].kept {
        assert i < n ==> v[..n][i] == v[i];
      }
      var rest := Positions(v[..n]);
      forall i | 0 <= i < |rest| ensures Positions(v)[i] == rest[i] < n {
        assert rest[i] in rest;
      }
    }
  }

  /** And the kept packets are the ones received there. */
  lemma {:induction false} KeptInOrder(rx: seq<Mbuf>, v: seq<Fate>)
    requires |rx| == |v|
    ensures |Kept(rx, v)| == |Positions(v)|
    ensures forall k :: 0 <= k < |Positions(v)| ==> Positions(v)[k] < |rx| && Kept(rx, v)[k] == rx[Positions(v)[k]]
  {
    if rx == [] {
    } else {
      KeptInOrder(rx[..|rx| - 1], v[..|rx| - 1]);
    }
  }

  /** What leaves the burst is each packet, once for every disposal of its fate. */
  lemma {:induction false} LeftExactly(rx: seq<Mbuf>, v: seq<Fate>, x: Leaving)
    requires |rx| == |v|
    ensures x in Left(rx, v) <==> exists i :: 0 <= i < |rx| && rx[i] == x.mbuf && x.how in v[i].left
  {
    if rx == [] {
    } else {
      var n := |rx| - 1;
      LeftExactly(rx[..n], v[..n], x);
      if x in Left(rx[..n], v[..n]) {
        var i :| 0 <= i < n && rx[..n][i] == x.mbuf && x.how in v[..n][i].left;
        assert rx[i] == x.mbuf && x.how in v[i].left;
      }
      if x in Leavings(rx[n], v[n].left) {
        assert rx[n] == x.mbuf && x.how in v[n].left;
      }
      if i :| 0 <= i < |rx| && rx[i] == x.mbuf && x.how in v[i].left {
        if i < n {
          assert rx[..n][i] == x.mbuf && x.how in v[..n][i].left;
        } else {
          var j :| 0 <= j < |v[n].left| && v[n].left[j] == x.how;
          assert Leavings(rx[n], v[n].left)[j] == x;
        }
      }
    }
  }

  // ---- accounting over whole runs ----

  ghost function Times(pkts: seq<Mbuf>, p: Mbuf): nat {
    if pkts == [] then 0 else Times(pkts[..|pkts| - 1], p) + if pkts[|pkts| - 1] == p then 1 else 0
  }

  ghost function TimesLeft(gone: seq<Leaving>, p: Mbuf): nat {
    if gone == [] then 0 else TimesLeft(gone[..|gone| - 1], p) + if gone[|gone| - 1].mbuf == p then 1 else 0
  }

  lemma {:induction false} TimesAppend(a: seq<Mbuf>, b: seq<Mbuf>, p: Mbuf)
    ensures Times(a + b, p) == Times(a, p) + Times(b, p)
  {
    if b == [] {
      assert a + b == a;
    } else {
      assert (a + b)[..|a + b| - 1] == a + b[..|b| - 1];
      TimesAppend(a, b[..|b| - 1], p);
    }
  }

  lemma {:induction false} TimesLeftAppend(a: seq<Leaving>, b: seq<Leaving>, p: Mbuf)
    ensures TimesLeft(a + b, p) == TimesLeft(a, p) + TimesLeft(b, p)
  {
    if b == [] {
      assert a + b == a;
    } else {
      assert (a + b)[..|a + b| - 1] == a + b[..|b| - 1];
      TimesLeftAppend(a, b[..|b| - 1], p);
    }
  }

  lemma {:induction false} DroppedTimes(pkts: seq<Mbuf>, p: Mbuf)
    ensures TimesLeft(Dropped(pkts), p) == Times(pkts, p)
  {
    if pkts == [] {
    } else {
      assert Dropped(pkts)[..|pkts| - 1] == Dropped(pkts[..|pkts| - 1]);
      DroppedTimes(pkts[..|pkts| - 1], p);
    }
  }

  lemma {:induction false} LeavingsTimes(m: Mbuf, how: seq<Disposal>, p: Mbuf)
    ensures TimesLeft(Leavings(m, how), p) == if m == p then |how| else 0
  {
    if how == [] {
    } else {
      var n := |how| - 1;
      assert Leavings(m, how)[..n] == Leavings(m, how[..n]);
      LeavingsTimes(m, how[..n], p);
    }
  }

  /** Kept and let go, a packet of the burst counts as often as its fate says. */
  lemma {:induction false} BurstSplits(rx: seq<Mbuf>, v: seq<Fate>, p: Mbuf)
    requires |rx| == |v|
    ensures Times(Kept(rx, v), p) + TimesLeft(Left(rx, v), p) == Weighted(rx, v, p)
  {
    if rx == [] {
      assert Kept(rx, v) == [] && Left(rx, v) == [];
    } else {
      var n := |rx| - 1;
      BurstSplits(rx[..n], v[..n], p);
      assert [rx[n]][..0] == [];
      TimesAppend(Kept(rx[..n], v[..n]), if v[n].kept then [rx[n]] else [], p);
      TimesLeftAppend(Left(rx[..n], v[..n]), Leavings(rx[n], v[n].left), p);
      LeavingsTimes(rx[n], v[n].left, p);
    }
  }

  /** In a burst that holds p once, p counts by its own fate. */
  lemma {:induction false} WeightedOnce(rx: seq<Mbuf>, v: seq<Fate>, p: Mbuf, k: nat)
    requires |rx| == |v| && k < |rx| && rx[k] == p && Times(rx, p) == 1
    ensures Weighted(rx, v, p) == Weight(v[k])
  {
    var n := |rx| - 1;
    if k == n {
      WeightedNone(rx[..n], v[..n], p);
    } else {
      TimesPositive(rx[..n], k, p);
      WeightedOnce(rx[..n], v[..n], p, k);
    }
  }

  lemma {:induction false} WeightedNone(rx: seq<Mbuf>, v: seq<Fate>, p: Mbuf)
    requires |rx| == |v| && Times(rx, p) == 0
    ensures Weighted(rx, v, p) == 0
  {
    if rx == [] {
    } else {
      WeightedNone(rx[..|rx| - 1], v[..|rx| - 1], p);
    }
  }

  lemma {:induction false} TimesPositive(rx: seq<Mbuf>, k: nat, p: Mbuf)
    requires k < |rx| && rx[k] == p
    ensures Times(rx, p) >= 1
  {
    if k < |rx| - 1 { TimesPositive(rx[..|rx| - 1], k, p); }
  }

  datatype Core = Core(handoff: seq<Mbuf>, sent: seq<Mbuf>, gone: seq<Leaving>)

  datatype Event =
    | HandOver(mbuf: Mbuf)                                    // another core's packet; dropped if the ring is full
    | Poll(rx: seq<Mbuf>, fates: seq<Fate>, accepted: nat)   // accepted: what the port takes of the batch

  ghost predicate Possible(e: Event) {
    e.Poll? ==> |e.rx| == |e.fates| <= BURST_SIZE
  }

  ghost function Next(c: Core, e: Event): Core
    requires Possible(e)
  {
    match e
    case HandOver(m) =>
      if |c.handoff| < TX_HANDOFF_RING_SIZE - 1 then c.(handoff := c.handoff + [m])
      else c.(gone := c.gone + [Leaving(m, DROP)])
    case Poll(rx, v, accepted) =>
      var batch := Batch(rx, v, c.handoff);
      var n := Min(accepted, |batch|);
      Core(c.handoff[TopUp(rx, v, c.handoff)..], c.sent + batch[..n], c.gone + Left(rx, v) + Dropped(batch[n..]))
  }

  ghost function Brought(e: Event): seq<Mbuf> {
    match e
    case HandOver(m) => [m]
    case Poll(rx, _, _) => rx
  }

  ghost function Places(c: Core, p: Mbuf): nat {
    Times(c.handoff, p) + Times(c.sent, p) + TimesLeft(c.gone, p)
  }

  lemma HandOverConserves(c: Core, m: Mbuf, p: Mbuf)
    ensures Places(Next(c, HandOver(m)), p) == Places(c, p) + Times([m], p)
  {
    TimesAppend(c.handoff, [m], p);
    TimesLeftAppend(c.gone, [Leaving(m, DROP)], p);
    DroppedTimes([m], p);
    assert Dropped([m]) == [Leaving(m, DROP)];
  }

  /** The batch is the kept packets and the ring's front; the rest of the ring stays. */
  lemma BatchCounts(rx: seq<Mbuf>, v: seq<Fate>, handoff: seq<Mbuf>, p: Mbuf)
    requires |rx| == |v| <= BURST_SIZE
    ensures Times(Batch(rx, v, handoff), p) + Times(handoff[TopUp(rx, v, handoff)..], p)
         == Times(Kept(rx, v), p) + Times(handoff, p)
  {
    var k := TopUp(rx, v, handoff);
    assert handoff == handoff[..k] + handoff[k..];
    TimesAppend(handoff[..k], handoff[k..], p);
    TimesAppend(Kept(rx, v), handoff[..k], p);
  }

  /** Sent and refused, the batch is accounted for. */
  lemma TallyCounts(sent: seq<Mbuf>, gone: seq<Leaving>, left: seq<Leaving>, batch: seq<Mbuf>, n: nat, p: Mbuf)
    requires n <= |batch|
    ensures Times(sent + batch[..n], p) + TimesLeft(gone + left + Dropped(batch[n..]), p)
         == Times(sent, p) + TimesLeft(gone, p) + TimesLeft(left, p) + Times(batch, p)
  {
    assert batch == batch[..n] + batch[n..];
    TimesAppend(batch[..n], batch[n..], p);
    TimesAppend(sent, batch[..n], p);
    DroppedTimes(batch[n..], p);
    TimesLeftAppend(gone, left, p);
    TimesLeftAppend(gone + left, Dropped(batch[n..]), p);
  }

  lemma PollCounts(c: Core, rx: seq<Mbuf>, v: seq<Fate>, accepted: nat, p: Mbuf)
    requires |rx| == |v| <= BURST_SIZE
    ensures Places(Next(c, Poll(rx, v, accepted)), p) == Places(c, p) + Weighted(rx, v, p)
  {
    var batch := Batch(rx, v, c.handoff);
    BurstSplits(rx, v, p);
    BatchCounts(rx, v, c.handoff, p);
    TallyCounts(c.sent, c.gone, Left(rx, v), batch, Min(accepted, |batch|), p);
  }

  ghost predicate ValidRun(events: seq<Event>) {
    forall i :: 0 <= i < |events| ==> Possible(events[i])
  }

  ghost function Run(c: Core, events: seq<Event>): Core
    requires ValidRun(events)
    decreases |events|
  {
    if events == [] then c else Run(Next(c, events[0]), events[1..])
  }

  ghost function AllBrought(events: seq<Event>): seq<Mbuf>
    decreases |events|
  {
    if events == [] then [] else Brought(events[0]) + AllBrought(events[1..])
  }

  /** How often p is let go of over a run, handed-over packets once each. */
  ghost function AllWeighted(events: seq<Event>, p: Mbuf): nat
    requires ValidRun(events)
    decreases |events|
  {
    if events == [] then 0 else EventWeight(events[0], p) + AllWeighted(events[1..], p)
  }

  ghost function EventWeight(e: Event, p: Mbuf): nat
    requires Possible(e)
  {
    match e
    case HandOver(m) => Times([m], p)
    case Poll(rx, v, _) => Weighted(rx, v, p)
  }

  /** Over every run a packet is sent, gone or still on the ring exactly as often as its fates say. */
  lemma {:induction false} RunCounts(c: Core, events: seq<Event>, p: Mbuf)
    requires ValidRun(events)
    ensures Places(Run(c, events), p) == Places(c, p) + AllWeighted(events, p)
    decreases |events|
  {
    if events == [] {
    } else {
      var e := events[0];
      match e {
        case HandOver(m) => HandOverConserves(c, m, p);
        case Poll(rx, v, accepted) => PollCounts(c, rx, v, accepted, p);
      }
      RunCounts(Next(c, e), events[1..], p);
    }
  }

  ghost predicate Sound(events: seq<Event>) {
    forall i, k :: 0 <= i < |events| && events[i].Poll? && 0 <= k < |events[i].fates| ==> Weight(events[i].fates[k]) == 1
  }

  lemma {:induction false} WeightedSound(rx: seq<Mbuf>, v: seq<Fate>, p: Mbuf)
    requires |rx| == |v| && forall k :: 0 <= k < |v| ==> Weight(v[k]) == 1
    ensures Weighted(rx, v, p) == Times(rx, p)
  {
    if rx == [] {
    } else {
      WeightedSound(rx[..|rx| - 1], v[..|rx| - 1], p);
    }
  }

  /** With sound fates only, each packet is sent, gone or still on the ring as often as it came. */
  lemma {:induction false} RunConserves(c: Core, events: seq<Event>, p: Mbuf)
    requires ValidRun(events) && Sound(events)
    ensures Places(Run(c, events), p) == Places(c, p) + Times(AllBrought(events), p)
    decreases |events|
  {
    if events == [] {
    } else {
      var e := events[0];
      if e.Poll? {
        WeightedSound(e.rx, e.fates, p);
        PollCounts(c, e.rx, e.fates, e.accepted, p);
      } else {
        HandOverConserves(c, e.mbuf, p);
      }
      RunConserves(Next(c, e), events[1..], p);
      TimesAppend(Brought(e), AllBrought(events[1..]), p);
    }
  }

  /** p is the k-th packet of the i-th event, a poll. */
  ghost predicate ReceivedAt(events: seq<Event>, i: nat, k: nat, p: Mbuf) {
    i < |events| && events[i].Poll? && k < |events[i].rx| && events[i].rx[k] == p
  }

  lemma {:induction false} RunWeightedOnce(events: seq<Event>, i: nat, k: nat, p: Mbuf)
    requires ValidRun(events) && ReceivedAt(events, i, k, p) && Times(AllBrought(events), p) == 1
    ensures k < |events[i].fates| && AllWeighted(events, p) == Weight(events[i].fates[k])
    decreases |events|
  {
    assert Possible(events[i]);
    TimesAppend(Brought(events[0]), AllBrought(events[1..]), p);
    if i == 0 {
      TimesPositive(events[0].rx, k, p);
      RunWeightedNone(events[1..], p);
      WeightedOnce(events[0].rx, events[0].fates, p, k);
    } else {
      BroughtPositive(events[1..], i - 1, k, p);
      EventWeightNone(events[0], p);
      RunWeightedOnce(events[1..], i - 1, k, p);
    }
  }

  lemma EventWeightNone(e: Event, p: Mbuf)
    requires Possible(e) && Times(Brought(e), p) == 0
    ensures EventWeight(e, p) == 0
  {
    if e.Poll? { WeightedNone(e.rx, e.fates, p); }
  }

  lemma {:induction false} RunWeightedNone(events: seq<Event>, p: Mbuf)
    requires ValidRun(events) && Times(AllBrought(events), p) == 0
    ensures AllWeighted(events, p) == 0
    decreases |events|
  {
    if events == [] {
    } else {
      TimesAppend(Brought(events[0]), AllBrought(events[1..]), p);
      EventWeightNone(events[0], p);
      RunWeightedNone(events[1..], p);
    }
  }

  lemma {:induction false} BroughtPositive(events: seq<Event>, i: nat, k: nat, p: Mbuf)
    requires ReceivedAt(events, i, k, p)
    ensures Times(AllBrought(events), p) >= 1
    decreases |events|
  {
    TimesAppend(Brought(events[0]), AllBrought(events[1..]), p);
    if i == 0 {
      TimesPositive(events[0].rx, k, p);
    } else {
      BroughtPositive(events[1..], i - 1, k, p);
    }
  }

  /** How often p has been let go of by the end of a run from an idle core, counting the ring that still holds it. */
  ghost function Disposed(events: seq<Event>, p: Mbuf): nat
    requires ValidRun(events)
  {
    Places(Run(Core([], [], []), events), p)
  }

  /** A packet received once is sent or disposed of, all told, exactly once if and only if its fate has weight one. */
  lemma {:induction false} DisposedOnceExactly(events: seq<Event>, i: nat, k: nat, p: Mbuf)
    requires ValidRun(events) && ReceivedAt(events, i, k, p) && Times(AllBrought(events), p) == 1
    ensures k < |events[i].fates|
    ensures Disposed(events, p) == 1 <==> Weight(events[i].fates[k]) == 1
  {
    RunCounts(Core([], [], []), events, p);
    RunWeightedOnce(events, i, k, p);
  }

  // ---- fates the code hands out ----

  /** What an ICMP packet of the LAN control queue meets on its way to the WAN. */
  datatype IcmpPath = IcmpPath(toGateway: bool, gateOpen: bool, portFound: bool, headerFits: bool)

  /** encaps_icmp: packets to transmit, and what it did with the others itself. */
  function EncapsIcmp(e: IcmpPath): (nat, seq<Disposal>) {
    if !e.portFound then (0, [DROP]) else if !e.headerFits then (0, [DROP]) else (1, [])
  }

  /** The ICMP branch of lan_ctrl_rx: a packet encaps_icmp returns 0 for is dropped. */
  function LanCtrlIcmp(e: IcmpPath): Fate {
    if !e.toGateway then KEEP
    else if !e.gateOpen then Once(DROP)
    else
      var (n, left) := EncapsIcmp(e);
      if n != 0 then Fate(true, left) else Fate(false, left + [DROP])
  }

  /** That drop is the second one: exactly the packets encaps_icmp gives up on are dropped twice. */
  lemma LanCtrlIcmpOnceExactly(e: IcmpPath)
    ensures Weight(LanCtrlIcmp(e)) == 1 <==> !e.toGateway || !e.gateOpen || (e.portFound && e.headerFits)
    ensures Weight(LanCtrlIcmp(e)) != 1 ==> LanCtrlIcmp(e) == Fate(false, [DROP, DROP])
    ensures LanCtrlIcmp(e) == Fate(true, []) <==> !e.toGateway || (e.gateOpen && e.portFound && e.headerFits)
  {
  }

  /** A gateway-bound packet with no NAT port left for it is freed twice. */
  lemma FreedTwice(p: Mbuf, headerFits: bool)
    ensures var events := [Poll([p], [LanCtrlIcmp(IcmpPath(true, true, false, headerFits))], 0)];
            ValidRun(events) && TimesLeft(Run(Core([], [], []), events).gone, p) == 2
  {
    var f := LanCtrlIcmp(IcmpPath(true, true, false, headerFits));
    var events := [Poll([p], [f], 0)];
    assert [p][..0] == [] && Times([p], p) == 1;
    RunCounts(Core([], [], []), events, p);
    WeightedOnce([p], [f], p, 0);
    assert events[1..] == [];
    var c := Next(Core([], [], []), events[0]);
    assert Run(Core([], [], []), events) == Run(c, []) == c;
    assert Kept([p], [f]) == [];
    assert c.sent == [] && c.handoff == [];
  }

  /** What a WAN packet meets in decaps_udp and decaps_tcp. */
  datatype DecapsPath = DecapsPath(session: bool, portForward: bool, macKnown: bool, pendingPoolEmpty: bool)

  /** The caller trusts the pending queue; with its pool empty nobody holds the packet any more. */
  function Decaps(e: DecapsPath): Fate {
    if e.session then KEEP
    else if !e.portForward then Once(DROP)
    else if e.macKnown then KEEP
    else if e.pendingPoolEmpty then Fate(false, [])
    else Once(PARKED)
  }

  /** A decapsulated packet has somewhere to go on the LAN. */
  predicate Reaches(d: DecapsPath) {
    d.session || (d.portForward && d.macKnown)
  }

  /** A packet is translated and kept, parked or dropped, or held by nobody. */
  lemma DecapsOnceExactly(e: DecapsPath)
    ensures Weight(Decaps(e)) == 1 <==> e.session || !e.portForward || e.macKnown || !e.pendingPoolEmpty
    ensures Decaps(e) == Fate(true, []) <==> Reaches(e)
    ensures Decaps(e) == Fate(false, [DROP]) <==> !e.session && !e.portForward
    ensures Decaps(e) == Fate(false, [PARKED]) <==> !Reaches(e) && e.portForward && !e.pendingPoolEmpty
  {
  }

  /** The IP protocols the receive loops tell apart. */
  datatype Proto = UDP | TCP | ICMP | IGMP | ANOTHER

  /** What a packet received on a WAN data queue meets, in the order it is asked. */
  datatype WanFacts = WanFacts(
    l2Ok: bool,
    ipv6: bool, gate6: bool, verdict6: Ipv6Forward.WanVerdict, pppUp: bool,
    firewallPass: bool, forward6: Ipv6Forward.ForwardResult, missReported: bool,
    gate: bool, proto: Proto, dnsForProxy: bool, decaps: DecapsPath, conntrackDrops: bool,
    i40e: bool, echoReply: bool, echoSession: bool)

  /** The IPv6 branch: behind a closed gate everything goes to the control plane. */
  function WanIpv6Fate(f: WanFacts): Fate {
    match if f.gate6 then f.verdict6 else Ipv6Forward.WAN_TO_CP
    case WAN_FORWARD =>
      if !f.firewallPass then Once(DROP)
      else (match f.forward6
            case OK => KEEP
            case NEIGHBOR_MISS => Once(if f.missReported then DROP else TO_CP)
            case HOP_LIMIT => Once(DROP))
    case WAN_TO_CP => Once(if f.pppUp then TO_CP else DROP)
    case WAN_DROP => Once(DROP)
  }

  /** The receive loop of wan_data_rx. */
  function WanDataFate(f: WanFacts): Fate {
    if !f.l2Ok then Once(DROP)
    else if f.ipv6 then WanIpv6Fate(f)
    else if !f.gate then Once(DROP)
    else match f.proto
         case UDP => if f.dnsForProxy then Once(TO_CP) else Decaps(f.decaps)
         case TCP => if f.decaps.session && f.conntrackDrops then Once(DROP) else Decaps(f.decaps)
         case ICMP => if f.i40e && f.echoReply && f.echoSession then KEEP else Once(DROP)
         case _ => Once(DROP)
  }

  /** The packet is port-forwarded to a host without a known address while the pending pool is empty. */
  predicate WanLeaks(f: WanFacts) {
    f.l2Ok && !f.ipv6 && f.gate && ((f.proto == UDP && !f.dnsForProxy) || f.proto == TCP) &&
    !f.decaps.session && f.decaps.portForward && !f.decaps.macKnown && f.decaps.pendingPoolEmpty
  }

  /** On a WAN data queue every packet is let go of exactly once, but for exactly those, which are lost. */
  lemma WanDataOnceExactly(f: WanFacts)
    ensures Weight(WanDataFate(f)) == 1 <==> !WanLeaks(f)
    ensures WanLeaks(f) ==> Weight(WanDataFate(f)) == 0
  {
    DecapsOnceExactly(f.decaps);
  }

  /** Which packets of a WAN data queue are transmitted on the LAN. */
  lemma WanKeptExactly(f: WanFacts)
    ensures WanDataFate(f) == Fate(true, []) <==>
              f.l2Ok &&
              if f.ipv6 then f.gate6 && f.verdict6.WAN_FORWARD? && f.firewallPass && f.forward6.OK?
              else f.gate &&
                   ((f.proto == UDP && !f.dnsForProxy && Reaches(f.decaps)) ||
                    (f.proto == TCP && Reaches(f.decaps) && !(f.decaps.session && f.conntrackDrops)) ||
                    (f.proto == ICMP && f.i40e && f.echoReply && f.echoSession))
    ensures WanDataFate(f).kept ==> WanDataFate(f).left == []
  {
  }

  /** Which go to the control plane: session traffic of a closed IPv6 gate or for this node, the first miss of a neighbor, proxied DNS. */
  lemma WanToCpExactly(f: WanFacts)
    ensures WanDataFate(f) == Fate(false, [TO_CP]) <==>
              f.l2Ok &&
              if f.ipv6 then
                ((!f.gate6 || f.verdict6.WAN_TO_CP?) && f.pppUp) ||
                (f.gate6 && f.verdict6.WAN_FORWARD? && f.firewallPass && f.forward6.NEIGHBOR_MISS? && !f.missReported)
              else f.gate && f.proto == UDP && f.dnsForProxy
  {
  }

  /** Which wait for a host's address. */
  lemma WanParkedExactly(f: WanFacts)
    ensures WanDataFate(f) == Fate(false, [PARKED]) <==>
              f.l2Ok && !f.ipv6 && f.gate && ((f.proto == UDP && !f.dnsForProxy) || f.proto == TCP) &&
              !f.decaps.session && f.decaps.portForward && !f.decaps.macKnown && !f.decaps.pendingPoolEmpty
  {
  }

  /** All others are dropped, apart from those that leak. */
  lemma WanDroppedExactly(f: WanFacts)
    ensures WanDataFate(f) == Fate(false, [DROP]) <==>
              WanDataFate(f) != Fate(true, []) && WanDataFate(f) != Fate(false, [TO_CP]) &&
              WanDataFate(f) != Fate(false, [PARKED]) && !WanLeaks(f)
  {
  }

  datatype LanKind = ARP | IPV6 | PPPOE | IPV4 | UNKNOWN

  /** What a packet received on the LAN control queue meets; `taken` is whether a transmission of its own is. */
  datatype LanFacts = LanFacts(
    l2Ok: bool, kind: LanKind, arpRequestToUs: bool, arpReplyToUs: bool, taken: bool,
    ipv6Enabled: bool, verdict6: Ipv6Forward.LanVerdict,
    inSubnet: bool, proto: Proto, toServer: bool, echoRequest: bool, icmp: IcmpPath)

  function Alone(taken: bool): Fate {
    Once(if taken then ALONE else DROP)
  }

  /** The receive loop of lan_ctrl_rx. */
  function LanCtrlFate(f: LanFacts): Fate {
    if !f.l2Ok then Once(DROP)
    else match f.kind
         case ARP => if !f.arpRequestToUs && f.arpReplyToUs then Once(DROP) else Alone(f.taken)
         case IPV6 =>
           if !f.ipv6Enabled then Once(DROP)
           else (match f.verdict6
                 case LAN_TO_CP => Once(TO_CP)
                 case LAN_PASSTHROUGH => KEEP
                 case LAN_FORWARD => KEEP
                 case _ => Once(DROP))
         case PPPOE => KEEP
         case IPV4 =>
           if f.inSubnet then
             if f.proto != ICMP || (f.toServer && !f.echoRequest) then Once(DROP) else Alone(f.taken)
           else (match f.proto
                 case ICMP => LanCtrlIcmp(f.icmp)
                 case IGMP => KEEP
                 case _ => Once(DROP))
         case UNKNOWN => Once(DROP)
  }

  /** A ping through the gateway that gets no NAT port, or no room for the session header. */
  predicate LanDropsTwice(f: LanFacts) {
    f.l2Ok && f.kind == IPV4 && !f.inSubnet && f.proto == ICMP &&
    f.icmp.toGateway && f.icmp.gateOpen && !(f.icmp.portFound && f.icmp.headerFits)
  }

  /** On the LAN control queue every packet is let go of exactly once, but for exactly those, which are dropped twice. */
  lemma LanCtrlOnceExactly(f: LanFacts)
    ensures Weight(LanCtrlFate(f)) == 1 <==> !LanDropsTwice(f)
    ensures LanDropsTwice(f) ==> LanCtrlFate(f) == Fate(false, [DROP, DROP])
  {
    LanCtrlIcmpOnceExactly(f.icmp);
  }

  /** Which packets of the LAN control queue go to the WAN with the batch. */
  lemma LanKeptExactly(f: LanFacts)
    ensures LanCtrlFate(f) == Fate(true, []) <==>
              f.l2Ok &&
              ((f.kind == IPV6 && f.ipv6Enabled && (f.verdict6.LAN_PASSTHROUGH? || f.verdict6.LAN_FORWARD?)) ||
               f.kind == PPPOE ||
               (f.kind == IPV4 && !f.inSubnet &&
                (f.proto == IGMP ||
                 (f.proto == ICMP && (!f.icmp.toGateway || (f.icmp.gateOpen && f.icmp.portFound && f.icmp.headerFits))))))
    ensures LanCtrlFate(f).kept ==> LanCtrlFate(f).left == []
  {
  }

  /** Which are sent alone: ARP answered or passed on, pings of the gateway answered, ICMP between hosts. */
  lemma LanAloneExactly(f: LanFacts)
    ensures LanCtrlFate(f) == Fate(false, [ALONE]) <==>
              f.l2Ok && f.taken &&
              ((f.kind == ARP && (f.arpRequestToUs || !f.arpReplyToUs)) ||
               (f.kind == IPV4 && f.inSubnet && f.proto == ICMP && (!f.toServer || f.echoRequest)))
  {
  }

  /** Only neighbor discovery goes to the control plane, and what is left is dropped, some of it twice. */
  lemma LanRestExactly(f: LanFacts)
    ensures LanCtrlFate(f) == Fate(false, [TO_CP]) <==>
              f.l2Ok && f.kind == IPV6 && f.ipv6Enabled && f.verdict6.LAN_TO_CP?
    ensures LanCtrlFate(f) == Fate(false, [DROP, DROP]) <==> LanDropsTwice(f)
    ensures LanCtrlFate(f) == Fate(false, [DROP]) <==>
              LanCtrlFate(f) != Fate(true, []) && LanCtrlFate(f) != Fate(false, [ALONE]) &&
              LanCtrlFate(f) != Fate(false, [TO_CP]) && !LanDropsTwice(f)
  {
  }

  // ---- which packets are transmitted, over whole runs ----

  lemma {:induction false} KeptNone(rx: seq<Mbuf>, v: seq<Fate>, p: Mbuf)
    requires |rx| == |v| && Times(rx, p) == 0
    ensures Times(Kept(rx, v), p) == 0
  {
    if rx == [] {
    } else {
      var n := |rx| - 1;
      KeptNone(rx[..n], v[..n], p);
      TimesAppend(Kept(rx[..n], v[..n]), if v[n].kept then [rx[n]] else [], p);
      assert [rx[n]][..0] == [];
    }
  }

  lemma {:induction false} KeptOnce(rx: seq<Mbuf>, v: seq<Fate>, p: Mbuf, k: nat)
    requires |rx| == |v| && k < |rx| && rx[k] == p && Times(rx, p) == 1
    ensures Times(Kept(rx, v), p) == if v[k].kept then 1 else 0
  {
    var n := |rx| - 1;
    TimesAppend(Kept(rx[..n], v[..n]), if v[n].kept then [rx[n]] else [], p);
    assert [rx[n]][..0] == [];
    if k == n {
      KeptNone(rx[..n], v[..n], p);
    } else {
      TimesPositive(rx[..n], k, p);
      KeptOnce(rx[..n], v[..n], p, k);
    }
  }

  /** A poll the port takes whole sends as many of p as it keeps and finds on the ring it takes. */
  lemma WholePollSends(c: Core, rx: seq<Mbuf>, v: seq<Fate>, accepted: nat, p: Mbuf)
    requires |rx| == |v| <= BURST_SIZE && accepted >= BURST_SIZE && Times(c.handoff, p) == 0
    ensures var c' := Next(c, Poll(rx, v, accepted));
            Times(c'.sent, p) == Times(c.sent, p) + Times(Kept(rx, v), p) && Times(c'.handoff, p) == 0
  {
    var k := TopUp(rx, v, c.handoff);
    WholeBatch(c, rx, v, accepted);
    assert c.handoff == c.handoff[..k] + c.handoff[k..];
    TimesAppend(c.handoff[..k], c.handoff[k..], p);
    TimesAppend(Kept(rx, v), c.handoff[..k], p);
    TimesAppend(c.sent, Batch(rx, v, c.handoff), p);
  }

  lemma WholeBatch(c: Core, rx: seq<Mbuf>, v: seq<Fate>, accepted: nat)
    requires |rx| == |v| <= BURST_SIZE && accepted >= BURST_SIZE
    ensures Next(c, Poll(rx, v, accepted)).sent == c.sent + Batch(rx, v, c.handoff)
    ensures Next(c, Poll(rx, v, accepted)).handoff == c.handoff[TopUp(rx, v, c.handoff)..]
  {
    var batch := Batch(rx, v, c.handoff);
    KeptFits(rx, v);
    assert |batch| <= BURST_SIZE;
    assert batch[..|batch|] == batch;
  }

  /** An event that does not bring p sends none of it. */
  lemma OtherEventSends(c: Core, e: Event, p: Mbuf)
    requires Possible(e) && Times(Brought(e), p) == 0 && Times(c.handoff, p) == 0
    ensures Times(Next(c, e).sent, p) == Times(c.sent, p) && Times(Next(c, e).handoff, p) == 0
  {
    match e
    case HandOver(m) => TimesAppend(c.handoff, [m], p);
    case Poll(rx, v, accepted) =>
      var batch := Batch(rx, v, c.handoff);
      var n := Min(accepted, |batch|);
      KeptNone(rx, v, p);
      BatchCounts(rx, v, c.handoff, p);
      assert batch == batch[..n] + batch[n..];
      TimesAppend(batch[..n], batch[n..], p);
      TimesAppend(c.sent, batch[..n], p);
  }

  lemma {:induction false} OtherRunSends(c: Core, events: seq<Event>, p: Mbuf)
    requires ValidRun(events) && Times(AllBrought(events), p) == 0 && Times(c.handoff, p) == 0
    ensures Times(Run(c, events).sent, p) == Times(c.sent, p)
    decreases |events|
  {
    if events == [] {
    } else {
      TimesAppend(Brought(events[0]), AllBrought(events[1..]), p);
      OtherEventSends(c, events[0], p);
      OtherRunSends(Next(c, events[0]), events[1..], p);
    }
  }

  /** A packet received once is transmitted with its burst, once, if and only if its fate keeps it. */
  lemma {:induction false} SentExactly(c: Core, events: seq<Event>, i: nat, k: nat, p: Mbuf)
    requires ValidRun(events) && ReceivedAt(events, i, k, p) && Times(AllBrought(events), p) == 1
    requires Possible(events[i]) && events[i].accepted >= BURST_SIZE && Times(c.handoff, p) == 0
    ensures Times(Run(c, events).sent, p) == Times(c.sent, p) + if events[i].fates[k].kept then 1 else 0
    decreases |events|
  {
    if i == 0 {
      SentFirst(c, events, k, p);
    } else {
      NotBroughtFirst(events, i, k, p);
      OtherEventSends(c, events[0], p);
      SentExactly(Next(c, events[0]), events[1..], i - 1, k, p);
    }
  }

  lemma SentFirst(c: Core, events: seq<Event>, k: nat, p: Mbuf)
    requires ValidRun(events) && ReceivedAt(events, 0, k, p) && Times(AllBrought(events), p) == 1
    requires Possible(events[0]) && events[0].accepted >= BURST_SIZE && Times(c.handoff, p) == 0
    ensures Times(Run(c, events).sent, p) == Times(c.sent, p) + if events[0].fates[k].kept then 1 else 0
  {
    FirstBringsIt(events, k, p);
    var c' := FirstPoll(c, events, k, p);
    OtherRunSends(c', events[1..], p);
  }

  lemma FirstBringsIt(events: seq<Event>, k: nat, p: Mbuf)
    requires ReceivedAt(events, 0, k, p) && Times(AllBrought(events), p) == 1
    ensures Times(events[0].rx, p) == 1 && Times(AllBrought(events[1..]), p) == 0
  {
    BroughtSplits(events, p);
    TimesPositive(events[0].rx, k, p);
  }

  lemma FirstPoll(c: Core, events: seq<Event>, k: nat, p: Mbuf) returns (c': Core)
    requires ValidRun(events) && ReceivedAt(events, 0, k, p) && Times(events[0].rx, p) == 1
    requires Possible(events[0]) && events[0].accepted >= BURST_SIZE && Times(c.handoff, p) == 0
    ensures ValidRun(events[1..]) && Run(c, events) == Run(c', events[1..])
    ensures Times(c'.sent, p) == Times(c.sent, p) + if events[0].fates[k].kept then 1 else 0
    ensures Times(c'.handoff, p) == 0
  {
    c' := RunFirst(c, events);
    SentByPoll(c, c', events[0], k, p);
  }

  lemma RunFirst(c: Core, events: seq<Event>) returns (c': Core)
    requires ValidRun(events) && events != []
    ensures Possible(events[0]) && c' == Next(c, events[0])
    ensures ValidRun(events[1..]) && Run(c, events) == Run(c', events[1..])
  {
    assert Possible(events[0]);
    c' := Next(c, events[0]);
  }

  lemma BroughtSplits(events: seq<Event>, p: Mbuf)
    requires events != []
    ensures Times(AllBrought(events), p) == Times(Brought(events[0]), p) + Times(AllBrought(events[1..]), p)
  {
    TimesAppend(Brought(events[0]), AllBrought(events[1..]), p);
  }

  /** What comes once and later does not come with the first event. */
  lemma NotBroughtFirst(events: seq<Event>, i: nat, k: nat, p: Mbuf)
    requires i > 0 && ReceivedAt(events, i, k, p) && Times(AllBrought(events), p) == 1
    ensures Times(Brought(events[0]), p) == 0 && Times(AllBrought(events[1..]), p) == 1
    ensures ReceivedAt(events[1..], i - 1, k, p)
  {
    BroughtSplits(events, p);
    BroughtPositive(events[1..], i - 1, k, p);
  }

  lemma SentByPoll(c: Core, c': Core, e: Event, k: nat, p: Mbuf)
    requires Possible(e) && e.Poll? && k < |e.rx| && e.rx[k] == p && Times(e.rx, p) == 1
    requires c' == Next(c, e) && e.accepted >= BURST_SIZE && Times(c.handoff, p) == 0
    ensures Times(c'.sent, p) == Times(c.sent, p) + (if e.fates[k].kept then 1 else 0)
    ensures Times(c'.handoff, p) == 0
  {
    KeptOnce(e.rx, e.fates, p, k);
    WholePollSends(c, e.rx, e.fates, e.accepted, p);
  }

  /** So over every run of a WAN data core exactly the packets that reach a LAN host are transmitted, each once. */
  lemma WanPacketSentExactly(events: seq<Event>, i: nat, k: nat, p: Mbuf, f: WanFacts)
    requires ValidRun(events) && ReceivedAt(events, i, k, p) && Times(AllBrought(events), p) == 1
    requires Possible(events[i]) && events[i].fates[k] == WanDataFate(f) && events[i].accepted >= BURST_SIZE
    ensures Times(Run(Core([], [], []), events).sent, p) ==
            if f.l2Ok &&
               (if f.ipv6 then f.gate6 && f.verdict6.WAN_FORWARD? && f.firewallPass && f.forward6.OK?
                else f.gate &&
                     ((f.proto == UDP && !f.dnsForProxy && Reaches(f.decaps)) ||
                      (f.proto == TCP && Reaches(f.decaps) && !(f.decaps.session && f.conntrackDrops)) ||
                      (f.proto == ICMP && f.i40e && f.echoReply && f.echoSession)))
            then 1 else 0
  {
    SentExactly(Core([], [], []), events, i, k, p);
    WanKeptExactly(f);
  }

  /** And of the LAN control core exactly those for the WAN. */
  lemma LanPacketSentExactly(events: seq<Event>, i: nat, k: nat, p: Mbuf, f: LanFacts)
    requires ValidRun(events) && ReceivedAt(events, i, k, p) && Times(AllBrought(events), p) == 1
    requires Possible(events[i]) && events[i].fates[k] == LanCtrlFate(f) && events[i].accepted >= BURST_SIZE
    ensures Times(Run(Core([], [], []), events).sent, p) ==
            if f.l2Ok &&
               ((f.kind == IPV6 && f.ipv6Enabled && (f.verdict6.LAN_PASSTHROUGH? || f.verdict6.LAN_FORWARD?)) ||
                f.kind == PPPOE ||
                (f.kind == IPV4 && !f.inSubnet &&
                 (f.proto == IGMP ||
                  (f.proto == ICMP && (!f.icmp.toGateway || (f.icmp.gateOpen && f.icmp.portFound && f.icmp.headerFits))))))
            then 1 else 0
  {
    SentExactly(Core([], [], []), events, i, k, p);
    LanKeptExactly(f);
  }

  /** Over every run of a WAN data core, a packet that met f is sent or disposed of exactly once if and only if it does not leak. */
  lemma WanPacketDisposedOnceExactly(events: seq<Event>, i: nat, k: nat, p: Mbuf, f: WanFacts)
    requires ValidRun(events) && ReceivedAt(events, i, k, p) && Times(AllBrought(events), p) == 1
    requires Possible(events[i]) && events[i].fates[k] == WanDataFate(f)
    ensures Disposed(events, p) == 1 <==> !WanLeaks(f)
  {
    DisposedOnceExactly(events, i, k, p);
    WanDataOnceExactly(f);
  }

  /** Over every run of the LAN control core, likewise but for the double drop. */
  lemma LanPacketDisposedOnceExactly(events: seq<Event>, i: nat, k: nat, p: Mbuf, f: LanFacts)
    requires ValidRun(events) && ReceivedAt(events, i, k, p) && Times(AllBrought(events), p) == 1
    requires Possible(events[i]) && events[i].fates[k] == LanCtrlFate(f)
    ensures Disposed(events, p) == 1 <==> !LanDropsTwice(f)
  {
    DisposedOnceExactly(events, i, k, p);
    LanCtrlOnceExactly(f);
  }

  // ---- the routines ----

  class DataCore {
    var handoff: seq<Mbuf>
    ghost var sent: seq<Mbuf>
    ghost var gone: seq<Leaving>

    constructor ()
      ensures handoff == [] && sent == [] && gone == []
    {
      handoff, sent, gone := [], [], [];
    }

    ghost function View(): Core
      reads this
    {
      Core(handoff, sent, gone)
    }

    /** send_pkt_to_other_lcore, on the owner's ring: on ERROR the packet is still the caller's. */
    method SendPktToOtherLcore(m: Mbuf) returns (ret: Status)
      modifies this`handoff
      ensures ret == SUCCESS <==> |old(handoff)| < TX_HANDOFF_RING_SIZE - 1
      ensures handoff == if ret == SUCCESS then old(handoff) + [m] else old(handoff)
    {
      if |handoff| >= TX_HANDOFF_RING_SIZE - 1 { return ERROR; }
      handoff := handoff + [m];
      ret := SUCCESS;
    }

    /** What every sender does with it: a packet the owner cannot take is dropped. */
    method HandOver(m: Mbuf)
      modifies this
      ensures View() == Next(old(View()), Event.HandOver(m))
      ensures sent == old(sent)
      ensures if |old(handoff)| < 255 then handoff == old(handoff) + [m] && gone == old(gone)
              else handoff == old(handoff) && gone == old(gone) + [Leaving(m, DROP)]
    {
      var ret := SendPktToOtherLcore(m);
      if ret == ERROR { gone := gone + [Leaving(m, DROP)]; }
    }

    /** check_pkt_from_other_lcore */
    method CheckPktFromOtherLcore(batch: array<Mbuf>, batchLen: nat, batchMax: nat) returns (len: nat)
      requires batchMax <= batch.Length
      modifies this`handoff, batch
      ensures var n := if batchLen >= batchMax then 0 else Min(batchMax - batchLen, |old(handoff)|);
              && len == batchLen + n && handoff == old(handoff)[n..]
              && (len <= batch.Length ==> batch[..len] == old(batch[..batchLen]) + old(handoff)[..n])
      ensures batchLen < batchMax ==> len <= batchMax
    {
      if batchLen >= batchMax { return batchLen; }
      ghost var before := batch[..batchLen];
      var n := Min(batchMax - batchLen, |handoff|);
      var i := 0;
      while i < n
        invariant 0 <= i <= n && handoff == old(handoff)
        invariant batch[..batchLen + i] == before + handoff[..i]
      {
        batch[batchLen + i] := handoff[i];
        assert handoff[..i + 1] == handoff[..i] + [handoff[i]];
        assert batch[..batchLen + (i + 1)] == batch[..batchLen + i] + [handoff[i]];
        i := i + 1;
      }
      handoff := handoff[n..];
      len := batchLen + n;
    }

    /** The receive loop: packets to transmit move to the front of the array they were received in. */
    method Compact(pkt: array<Mbuf>, nbRx: nat, fates: seq<Fate>) returns (totalTx: nat)
      requires pkt.Length == BURST_SIZE && nbRx == |fates| <= BURST_SIZE
      modifies pkt, this`gone
      ensures var rx := old(pkt[..nbRx]);
              && totalTx == |Kept(rx, fates)| <= nbRx && pkt[..totalTx] == Kept(rx, fates)
              && gone == old(gone) + Left(rx, fates)
    {
      ghost var rx := pkt[..nbRx];
      totalTx := 0;
      var i := 0;
      while i < nbRx
        invariant 0 <= totalTx <= i <= nbRx
        invariant pkt[..totalTx] == Kept(rx[..i], fates[..i])
        invariant forall j :: i <= j < nbRx ==> pkt[j] == rx[j]      // nothing unread is overwritten
        invariant gone == old(gone) + Left(rx[..i], fates[..i])
      {
        var singlePkt := pkt[i];
        assert rx[..i + 1][..i] == rx[..i] && fates[..i + 1][..i] == fates[..i];
        ghost var leaving := Leavings(singlePkt, fates[i].left);
        gone := gone + leaving;
        assert gone == old(gone) + Left(rx[..i + 1], fates[..i + 1]);
        if fates[i].kept {
          ghost var before := pkt[..totalTx];
          pkt[totalTx] := singlePkt;
          totalTx := totalTx + 1;
          assert pkt[..totalTx] == before + [singlePkt];
        }
        i := i + 1;
      }
      assert rx[..i] == rx && fates[..i] == fates;
    }

    /** What the port's transmit burst does not take is dropped, in order. */
    method DropRefused(pkt: array<Mbuf>, nbTx: nat, totalTx: nat)
      requires nbTx <= totalTx <= pkt.Length
      modifies this`gone
      ensures gone == old(gone) + Dropped(pkt[nbTx..totalTx])
    {
      var buf := nbTx;
      while buf < totalTx
        invariant nbTx <= buf <= totalTx
        invariant gone == old(gone) + Dropped(pkt[nbTx..buf])
      {
        assert Dropped(pkt[nbTx..buf + 1]) == Dropped(pkt[nbTx..buf]) + [Leaving(pkt[buf], DROP)];
        gone := gone + [Leaving(pkt[buf], DROP)];
        buf := buf + 1;
      }
    }

    /** One turn of wan_data_rx; `accepted` is what the port's transmit burst takes. */
    method PollOnce(pkt: array<Mbuf>, nbRx: nat, fates: seq<Fate>, accepted: nat)
      requires pkt.Length == BURST_SIZE && nbRx == |fates| <= BURST_SIZE
      modifies this, pkt
      ensures View() == Next(old(View()), Poll(old(pkt[..nbRx]), fates, accepted))
      ensures var kept := Kept(old(pkt[..nbRx]), fates);
              var room := 32 - |kept|;
              var n := if room < |old(handoff)| then room else |old(handoff)|;
              && 0 <= n && handoff == old(handoff)[n..]
              && var batch := kept + old(handoff)[..n];
                 var m := if accepted < |batch| then accepted else |batch|;
                 && sent == old(sent) + batch[..m]
                 && gone == old(gone) + Left(old(pkt[..nbRx]), fates) + Dropped(batch[m..])
    {
      ghost var rx := pkt[..nbRx];
      var kept := Compact(pkt, nbRx, fates);
      var totalTx := CheckPktFromOtherLcore(pkt, kept, BURST_SIZE);
      ghost var batch := Batch(rx, fates, old(handoff));
      assert pkt[..totalTx] == batch;
      var nbTx := Min(accepted, totalTx);
      assert pkt[..nbTx] == batch[..nbTx] && pkt[nbTx..totalTx] == batch[nbTx..];
      sent := sent + pkt[..nbTx];
      DropRefused(pkt, nbTx, totalTx);
    }

    /** dp_codec.h encaps_icmp, on the packet's ownership: what it gives up on it drops itself. */
    method EncapsIcmpPacket(m: Mbuf, e: IcmpPath) returns (newPktNum: nat)
      modifies this`gone
      ensures newPktNum == EncapsIcmp(e).0 && gone == old(gone) + Leavings(m, EncapsIcmp(e).1)
    {
      if !e.portFound {
        gone := gone + [Leaving(m, DROP)];
        return 0;
      }
      if !e.headerFits {
        gone := gone + [Leaving(m, DROP)];
        return 0;
      }
      newPktNum := 1;
    }

    /** dp.c lan_ctrl_rx, the ICMP branch. */
    method IcmpToWan(m: Mbuf, e: IcmpPath) returns (kept: bool)
      modifies this`gone
      ensures kept == LanCtrlIcmp(e).kept && gone == old(gone) + Leavings(m, LanCtrlIcmp(e).left)
    {
      if !e.toGateway { return true; }
      if !e.gateOpen {
        gone := gone + [Leaving(m, DROP)];
        return false;
      }
      var n := EncapsIcmpPacket(m, e);
      if n != 0 { return true; }
      gone := gone + [Leaving(m, DROP)];
      kept := false;
    }
  }
}
