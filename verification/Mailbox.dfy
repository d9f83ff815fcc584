/**
 The control mailbox. A fixed pool of mail slots circulates: producers on many
 threads take a slot from the free ring, fill it and queue it; the control loop
 takes bursts off the queue, frees what each mail carries and gives the slot
 back; shutdown drains what is left. Link mails are allocated one by one and
 never come from the pool.
 */
module Mailbox {
  import opened Common

  const MAIL_SLOT_RING_SIZE := 8192
  const RING_SIZE := 16384
  const RING_BURST_SIZE := 64

  /** A ring of size n holds n - 1 entries. */
  const POOL := MAIL_SLOT_RING_SIZE - 1
  const CP_CAPACITY := RING_SIZE - 1

  /** What a mail owns: nothing (or a CLI payload its own handler frees), a packet, an etcd event, its own memory. */
  datatype Payload = Nothing | Mbuf(id: nat) | Etcd(id: nat) | LinkMem(id: nat)

  /** The type field of a mail; OTHER is any value no handler knows. */
  datatype EventType =
    | EV_NORTHBOUND_PPPoE | EV_NORTHBOUND_DHCP | EV_NORTHBOUND_DNS | EV_NORTHBOUND_NODE
    | EV_ETCD | EV_LINK
    | EV_DP_PPPoE | EV_DP_DHCP | EV_DP_DNS | EV_DP_ICMP6 | EV_DP_ND6_MISS
    | OTHER

  /** A mail sits in a pool slot, or in none when it is a link mail. */
  datatype Mail = Mail(slot: Option<nat>, ev: EventType, payload: Payload)

  /** What a mail of this type carries. */
  predicate Fits(ev: EventType, p: Payload) {
    match ev
    case EV_ETCD => p.Etcd?
    case EV_LINK => p.LinkMem?
    case EV_DP_PPPoE => p.Mbuf?
    case EV_DP_DHCP => p.Mbuf?
    case EV_DP_DNS => p.Mbuf?
    case EV_DP_ICMP6 => p.Mbuf?
    case EV_DP_ND6_MISS => p.Mbuf?
    case _ => p.Nothing?
  }

  predicate WellTyped(m: Mail) {
    Fits(m.ev, m.payload) && (m.slot.None? <==> m.ev.EV_LINK?)
  }

  predicate AllWellTyped(ms: seq<Mail>) {
    forall i :: 0 <= i < |ms| ==> WellTyped(ms[i])
  }

  // ---- the two switches over the type ----

  /** What a branch releases: the packet, the etcd event, the mail's own memory; and whether the slot goes back. */
  datatype Release = Release(mbuf: bool, etcd: bool, memory: bool, slot: bool)

  /** The branches of fastrg_loop. */
  function HandlerSwitch(ev: EventType): Release {
    match ev
    case EV_NORTHBOUND_PPPoE => Release(false, false, false, true)
    case EV_NORTHBOUND_DHCP => Release(false, false, false, true)
    case EV_NORTHBOUND_DNS => Release(false, false, false, true)
    case EV_NORTHBOUND_NODE => Release(false, false, false, true)
    case EV_ETCD => Release(false, true, false, true)
    case EV_LINK => Release(false, false, true, false)
    case EV_DP_PPPoE => Release(true, false, false, true)
    case EV_DP_DHCP => Release(true, false, false, true)
    case EV_DP_DNS => Release(true, false, false, true)
    case EV_DP_ICMP6 => Release(true, false, false, true)
    case EV_DP_ND6_MISS => Release(true, false, false, true)
    case OTHER => Release(false, false, false, true)
  }

  /** The branches of the shutdown drain. */
  function DrainSwitch(ev: EventType): Release {
    match ev
    case EV_DP_PPPoE => Release(true, false, false, true)
    case EV_DP_DNS => Release(true, false, false, true)
    case EV_DP_DHCP => Release(true, false, false, true)
    case EV_DP_ICMP6 => Release(true, false, false, true)
    case EV_DP_ND6_MISS => Release(true, false, false, true)
    case EV_ETCD => Release(false, true, false, true)
    case EV_LINK => Release(false, false, true, false)
    case _ => Release(false, false, false, true)
  }

  /** The part of a payload that a branch releases. */
  function Freed(r: Release, p: Payload): Payload {
    if (p.Mbuf? && r.mbuf) || (p.Etcd? && r.etcd) || (p.LinkMem? && r.memory) then p else Nothing
  }

  /** Both switches release exactly what a well-typed mail carries and return exactly the pool slots. */
  lemma SwitchesComplete(m: Mail)
    requires WellTyped(m)
    ensures HandlerSwitch(m.ev) == DrainSwitch(m.ev)
    ensures Freed(HandlerSwitch(m.ev), m.payload) == m.payload
    ensures HandlerSwitch(m.ev).slot <==> m.slot.Some?
  {
  }

  // ---- accounting ----

  /** How many of these mails sit in pool slot x. */
  ghost function At(ms: seq<Mail>, x: nat): nat {
    if ms == [] then 0 else At(ms[..|ms| - 1], x) + SlotIs(ms[|ms| - 1], x)
  }

  ghost function SlotIs(m: Mail, x: nat): nat {
    if m.slot == Some(x) then 1 else 0
  }

  /** How many of them carry p. */
  ghost function Carrying(ms: seq<Mail>, p: Payload): nat {
    if ms == [] then 0 else Carrying(ms[..|ms| - 1], p) + Carries(ms[|ms| - 1], p)
  }

  ghost function Carries(m: Mail, p: Payload): nat {
    if m.payload == p && !p.Nothing? then 1 else 0
  }

  /** How many entries of a ring of slots are x. */
  ghost function Homes(ring: seq<nat>, x: nat): nat {
    if ring == [] then 0 else Homes(ring[..|ring| - 1], x) + if ring[|ring| - 1] == x then 1 else 0
  }

  /** Every pool slot is in exactly one place. */
  ghost function Unit(x: nat): nat {
    if x < POOL then 1 else 0
  }

  lemma {:induction false} Append(a: seq<Mail>, b: seq<Mail>, x: nat, p: Payload)
    ensures At(a + b, x) == At(a, x) + At(b, x)
    ensures Carrying(a + b, p) == Carrying(a, p) + Carrying(b, p)
  {
    if b == [] {
      assert a + b == a;
    } else {
      var n := |b| - 1;
      assert (a + b)[..|a + b| - 1] == a + b[..n];
      Append(a, b[..n], x, p);
    }
  }

  lemma Push(ms: seq<Mail>, m: Mail, x: nat, p: Payload)
    ensures At(ms + [m], x) == At(ms, x) + SlotIs(m, x)
    ensures Carrying(ms + [m], p) == Carrying(ms, p) + Carries(m, p)
  {
    assert (ms + [m])[..|ms|] == ms;
  }

  lemma First(ms: seq<Mail>, x: nat, p: Payload)
    requires ms != []
    ensures At(ms, x) == SlotIs(ms[0], x) + At(ms[1..], x)
    ensures Carrying(ms, p) == Carries(ms[0], p) + Carrying(ms[1..], p)
  {
    assert ms == [ms[0]] + ms[1..];
    Append([ms[0]], ms[1..], x, p);
    Push([], ms[0], x, p);
    assert [] + [ms[0]] == [ms[0]];
  }

  lemma Remove(ms: seq<Mail>, i: nat, x: nat, p: Payload)
    requires i < |ms|
    ensures At(ms, x) == At(ms[..i] + ms[i + 1..], x) + SlotIs(ms[i], x)
    ensures Carrying(ms, p) == Carrying(ms[..i] + ms[i + 1..], p) + Carries(ms[i], p)
  {
    assert ms == ms[..i] + ms[i..];
    Append(ms[..i], ms[i..], x, p);
    First(ms[i..], x, p);
    assert ms[i..][1..] == ms[i + 1..];
    Append(ms[..i], ms[i + 1..], x, p);
  }

  lemma {:induction false} HomesAppend(a: seq<nat>, b: seq<nat>, x: nat)
    ensures Homes(a + b, x) == Homes(a, x) + Homes(b, x)
  {
    if b == [] {
      assert a + b == a;
    } else {
      var n := |b| - 1;
      assert (a + b)[..|a + b| - 1] == a + b[..n];
      HomesAppend(a, b[..n], x);
    }
  }

  lemma HomesPush(ring: seq<nat>, y: nat, x: nat)
    ensures Homes(ring + [y], x) == Homes(ring, x) + if x == y then 1 else 0
  {
    assert (ring + [y])[..|ring|] == ring;
  }

  lemma HomesRemove(ring: seq<nat>, i: nat, x: nat)
    requires i < |ring|
    ensures Homes(ring, x) == Homes(ring[..i] + ring[i + 1..], x) + if x == ring[i] then 1 else 0
  {
    assert ring == ring[..i] + [ring[i]] + ring[i + 1..];
    HomesAppend(ring[..i] + [ring[i]], ring[i + 1..], x);
    HomesPush(ring[..i], ring[i], x);
    HomesAppend(ring[..i], ring[i + 1..], x);
  }

  lemma HomesPop(ring: seq<nat>, x: nat)
    requires ring != []
    ensures Homes(ring, x) == Homes(ring[1..], x) + if x == ring[0] then 1 else 0
  {
    HomesRemove(ring, 0, x);
    assert ring[..0] + ring[1..] == ring[1..];
  }

  lemma {:induction false} HomesPositive(ring: seq<nat>, x: nat)
    ensures Homes(ring, x) > 0 <==> x in ring
  {
    if ring == [] {
    } else {
      HomesPositive(ring[..|ring| - 1], x);
      assert ring == ring[..|ring| - 1] + [ring[|ring| - 1]];
    }
  }

  /** A ring holding each slot below n at most once has at most n entries. */
  lemma {:induction false} RingSize(ring: seq<nat>, n: nat)
    requires forall x: nat :: Homes(ring, x) <= if x < n then 1 else 0
    ensures |ring| <= n
    ensures (exists x: nat :: x < n && Homes(ring, x) == 0) ==> |ring| < n
    decreases n
  {
    if n == 0 {
      if ring != [] {
        HomesPositive(ring, ring[0]);
        assert false;
      }
    } else {
      var last: nat := n - 1;
      HomesPositive(ring, last);
      if last in ring {
        var i :| 0 <= i < |ring| && ring[i] == last;
        var rest: seq<nat> := ring[..i] + ring[i + 1..];
        forall x: nat ensures Homes(ring, x) == Homes(rest, x) + if x == last then 1 else 0 {
          HomesRemove(ring, i, x);
        }
        RingSize(rest, last);
        if x: nat :| x < n && Homes(ring, x) == 0 {
          assert x < last && Homes(rest, x) == 0;
        }
      } else {
        RingSize(ring, last);
      }
    }
  }

  /** And a ring that holds them all has n. */
  lemma {:induction false} FullRing(ring: seq<nat>, n: nat)
    requires forall x: nat :: x < n ==> Homes(ring, x) >= 1
    ensures |ring| >= n
    decreases n
  {
    if n > 0 {
      var last: nat := n - 1;
      assert Homes(ring, last) >= 1;
      HomesPositive(ring, last);
      var i :| 0 <= i < |ring| && ring[i] == last;
      var rest: seq<nat> := ring[..i] + ring[i + 1..];
      forall x: nat | x < last ensures Homes(rest, x) >= 1 {
        HomesRemove(ring, i, x);
      }
      FullRing(rest, last);
    }
  }

  // ---- interleavings ----

  datatype Phase = Running | Stopped | Draining

  /**
   `hands` are mails between a producer's dequeue and its enqueue, `batch` what the
   consumer took and has not handled; `entered` is every resource ever handed in
   and `disposed` lists the mails whose
   contents were released, in order.
   */
  datatype State = State(free: seq<nat>, cpQ: seq<Mail>, hands: seq<Mail>, batch: seq<Mail>,
                         entered: set<Payload>, disposed: seq<Mail>, phase: Phase)

  datatype Step =
    | Take(ev: EventType, payload: Payload)   // a producer gets a slot, or finds none and drops
    | NewLink(id: nat)         // the link interrupt allocates its mail
    | Post(i: nat)             // a producer queues what it holds, or gives everything back
    | Receive                  // the consumer takes a burst (one mail while draining)
    | Handle                   // ... and handles the first of it
    | Stop                     // the loop ends between two bursts
    | BeginDrain               // every producer is gone

  ghost predicate Enabled(s: State, st: Step) {
    match st
    case Take(ev, p) => !s.phase.Draining? && !ev.EV_LINK? && Fits(ev, p) && p !in s.entered
    case NewLink(id) => !s.phase.Draining? && LinkMem(id) !in s.entered
    case Post(i) => i < |s.hands|
    case Receive => s.batch == [] && s.cpQ != [] && !s.phase.Stopped?
    case Handle => s.batch != []
    case Stop => s.phase.Running? && s.batch == []
    case BeginDrain => s.phase.Stopped? && s.hands == []
  }

  /** A branch runs: what it releases is released, and the slot goes back if it says so. */
  ghost function GiveBack(s: State, m: Mail, r: Release): State {
    s.(free := if r.slot && m.slot.Some? then s.free + [m.slot.value] else s.free,
       disposed := s.disposed + [m.(payload := Freed(r, m.payload))])
  }

  /** A producer that finds the queue full gives slot and content back itself. */
  const ALL := Release(true, true, true, true)

  ghost function Next(s: State, st: Step): State
    requires Enabled(s, st)
  {
    match st
    case Take(ev, p) =>
      var s1 := if p.Nothing? then s else s.(entered := s.entered + {p});
      if s.free == [] then s1.(disposed := s1.disposed + [Mail(None, ev, p)])
      else s1.(free := s.free[1..], hands := s.hands + [Mail(Some(s.free[0]), ev, p)])
    case NewLink(id) =>
      s.(entered := s.entered + {LinkMem(id)}, hands := s.hands + [Mail(None, EV_LINK, LinkMem(id))])
    case Post(i) =>
      var m := s.hands[i];
      var s1 := s.(hands := s.hands[..i] + s.hands[i + 1..]);
      if |s.cpQ| < CP_CAPACITY then s1.(cpQ := s.cpQ + [m]) else GiveBack(s1, m, ALL)
    case Receive =>
      var n := if s.phase.Draining? then 1 else if |s.cpQ| < RING_BURST_SIZE then |s.cpQ| else RING_BURST_SIZE;
      s.(batch := s.cpQ[..n], cpQ := s.cpQ[n..])
    case Handle =>
      var m := s.batch[0];
      GiveBack(s.(batch := s.batch[1..]), m, if s.phase.Draining? then DrainSwitch(m.ev) else HandlerSwitch(m.ev))
    case Stop => s.(phase := Stopped)
    case BeginDrain => s.(phase := Draining)
  }

  ghost predicate ValidRun(s: State, steps: seq<Step>)
    decreases |steps|
  {
    steps == [] || (Enabled(s, steps[0]) && ValidRun(Next(s, steps[0]), steps[1..]))
  }

  ghost function Run(s: State, steps: seq<Step>): State
    requires ValidRun(s, steps)
    decreases |steps|
  {
    if steps == [] then s else Run(Next(s, steps[0]), steps[1..])
  }

  ghost predicate Initial(s: State) {
    && (forall x: nat :: Homes(s.free, x) == Unit(x)) && s.cpQ == s.hands == s.batch == []
    && s.entered == {} && s.disposed == [] && s.phase.Running?
  }

  /** In how many places slot x is. */
  ghost function SlotPlaces(s: State, x: nat): nat {
    Homes(s.free, x) + At(s.cpQ, x) + At(s.hands, x) + At(s.batch, x)
  }

  /** How often p is in flight or was released. */
  ghost function PayloadPlaces(s: State, p: Payload): nat {
    Carrying(s.disposed, p) + Carrying(s.cpQ, p) + Carrying(s.hands, p) + Carrying(s.batch, p)
  }

  /** What a step hands in. */
  ghost predicate Brings(st: Step, p: Payload) {
    !p.Nothing? && ((st.Take? && st.payload == p) || (p.LinkMem? && st == NewLink(p.id)))
  }

  lemma TakeConserves(s: State, ev: EventType, q: Payload, x: nat, p: Payload)
    requires Enabled(s, Take(ev, q))
    ensures SlotPlaces(Next(s, Take(ev, q)), x) == SlotPlaces(s, x)
    ensures PayloadPlaces(Next(s, Take(ev, q)), p) == PayloadPlaces(s, p) + if Brings(Take(ev, q), p) then 1 else 0
  {
    if s.free == [] {
      Push(s.disposed, Mail(None, ev, q), x, p);
    } else {
      Push(s.hands, Mail(Some(s.free[0]), ev, q), x, p);
      HomesPop(s.free, x);
    }
  }

  lemma GiveBackConserves(s: State, m: Mail, r: Release, x: nat, p: Payload)
    requires Freed(r, m.payload) == m.payload && (m.slot.Some? ==> r.slot)
    ensures SlotPlaces(GiveBack(s, m, r), x) == SlotPlaces(s, x) + SlotIs(m, x)
    ensures PayloadPlaces(GiveBack(s, m, r), p) == PayloadPlaces(s, p) + Carries(m, p)
  {
    Push(s.disposed, m.(payload := Freed(r, m.payload)), x, p);
    if m.slot.Some? {
      HomesPush(s.free, m.slot.value, x);
    }
  }

  lemma LetGoOf(s: State, i: nat, x: nat, p: Payload)
    requires i < |s.hands|
    ensures var s1 := s.(hands := s.hands[..i] + s.hands[i + 1..]);
            && SlotPlaces(s, x) == SlotPlaces(s1, x) + SlotIs(s.hands[i], x)
            && PayloadPlaces(s, p) == PayloadPlaces(s1, p) + Carries(s.hands[i], p)
  {
    Remove(s.hands, i, x, p);
  }

  lemma Queued(s: State, m: Mail, x: nat, p: Payload)
    ensures SlotPlaces(s.(cpQ := s.cpQ + [m]), x) == SlotPlaces(s, x) + SlotIs(m, x)
    ensures PayloadPlaces(s.(cpQ := s.cpQ + [m]), p) == PayloadPlaces(s, p) + Carries(m, p)
  {
    Push(s.cpQ, m, x, p);
  }

  lemma PostConserves(s: State, i: nat, x: nat, p: Payload)
    requires Enabled(s, Post(i))
    ensures SlotPlaces(Next(s, Post(i)), x) == SlotPlaces(s, x)
    ensures PayloadPlaces(Next(s, Post(i)), p) == PayloadPlaces(s, p)
  {
    var m, s1 := s.hands[i], s.(hands := s.hands[..i] + s.hands[i + 1..]);
    LetGoOf(s, i, x, p);
    if |s.cpQ| < CP_CAPACITY {
      Queued(s1, m, x, p);
    } else {
      GiveBackConserves(s1, m, ALL, x, p);
    }
  }

  lemma ReceiveConserves(s: State, x: nat, p: Payload)
    requires Enabled(s, Receive)
    ensures SlotPlaces(Next(s, Receive), x) == SlotPlaces(s, x)
    ensures PayloadPlaces(Next(s, Receive), p) == PayloadPlaces(s, p)
  {
    var s' := Next(s, Receive);
    assert s.cpQ == s'.batch + s'.cpQ;
    Append(s'.batch, s'.cpQ, x, p);
  }

  lemma HandleConserves(s: State, x: nat, p: Payload)
    requires Enabled(s, Handle) && WellTyped(s.batch[0])
    ensures SlotPlaces(Next(s, Handle), x) == SlotPlaces(s, x)
    ensures PayloadPlaces(Next(s, Handle), p) == PayloadPlaces(s, p)
  {
    First(s.batch, x, p);
    SwitchesComplete(s.batch[0]);
    GiveBackConserves(s.(batch := s.batch[1..]), s.batch[0], HandlerSwitch(s.batch[0].ev), x, p);
  }

  /** Conservation, step by step: slots only move, and a resource appears once, when handed in. */
  lemma StepConserves(s: State, st: Step, x: nat, p: Payload)
    requires Enabled(s, st) && AllWellTyped(s.batch)
    ensures SlotPlaces(Next(s, st), x) == SlotPlaces(s, x)
    ensures PayloadPlaces(Next(s, st), p) == PayloadPlaces(s, p) + if Brings(st, p) then 1 else 0
  {
    match st
    case Take(ev, q) => TakeConserves(s, ev, q, x, p);
    case NewLink(id) =>
      Push(s.hands, Mail(None, EV_LINK, LinkMem(id)), x, p);
    case Post(i) => PostConserves(s, i, x, p);
    case Receive => ReceiveConserves(s, x, p);
    case Handle => HandleConserves(s, x, p);
    case Stop =>
    case BeginDrain =>
  }

  ghost predicate Inv(s: State) {
    && (forall x: nat :: SlotPlaces(s, x) == Unit(x))
    && (forall p :: PayloadPlaces(s, p) == if p in s.entered then 1 else 0)
    && Nothing !in s.entered
    && |s.cpQ| <= CP_CAPACITY
    && (s.phase.Draining? ==> s.hands == [])
    && AllWellTyped(s.cpQ) && AllWellTyped(s.hands) && AllWellTyped(s.batch)
  }

  lemma BroughtIsEntered(s: State, st: Step, p: Payload)
    requires Inv(s) && Enabled(s, st)
    ensures p in Next(s, st).entered <==> p in s.entered || Brings(st, p)
    ensures Brings(st, p) ==> p !in s.entered
  {
  }

  lemma StepKeepsBounds(s: State, st: Step)
    requires Inv(s) && Enabled(s, st)
    ensures var s' := Next(s, st);
            Nothing !in s'.entered && |s'.cpQ| <= CP_CAPACITY && (s'.phase.Draining? ==> s'.hands == [])
  {
  }

  lemma StepKeepsTypes(s: State, st: Step)
    requires Inv(s) && Enabled(s, st)
    ensures var s' := Next(s, st); AllWellTyped(s'.cpQ) && AllWellTyped(s'.hands) && AllWellTyped(s'.batch)
  {
  }

  lemma StepKeepsInv(s: State, st: Step)
    requires Inv(s) && Enabled(s, st)
    ensures Inv(Next(s, st))
  {
    StepKeepsTypes(s, st);
    StepKeepsBounds(s, st);
    forall x: nat ensures SlotPlaces(Next(s, st), x) == Unit(x) {
      StepConserves(s, st, x, Nothing);
    }
    forall p ensures PayloadPlaces(Next(s, st), p) == if p in Next(s, st).entered then 1 else 0 {
      StepConserves(s, st, 0, p);
      BroughtIsEntered(s, st, p);
    }
  }

  lemma {:induction false} RunKeepsInv(s: State, steps: seq<Step>)
    requires Inv(s) && ValidRun(s, steps)
    ensures Inv(Run(s, steps))
    decreases |steps|
  {
    if steps == [] {
    } else {
      StepKeepsInv(s, steps[0]);
      RunKeepsInv(Next(s, steps[0]), steps[1..]);
    }
  }

  /**
   In every reachable state the pool slots are partitioned, each in one place,
   among the free ring, the queue, the producers and the consumer's batch.
   */
  lemma SlotsPartitioned(s0: State, steps: seq<Step>, x: nat)
    requires Initial(s0) && ValidRun(s0, steps)
    ensures SlotPlaces(Run(s0, steps), x) == if x < POOL then 1 else 0
  {
    RunKeepsInv(s0, steps);
  }

  lemma {:induction false} HolderCounts(ms: seq<Mail>, m: Mail)
    requires m in ms && m.slot.Some?
    ensures At(ms, m.slot.value) >= 1
  {
    var i :| 0 <= i < |ms| && ms[i] == m;
    Remove(ms, i, m.slot.value, Nothing);
  }

  /** Whoever holds a pool slot always finds room in the free ring. */
  lemma GiveBackNeverFails(s0: State, steps: seq<Step>, m: Mail)
    requires Initial(s0) && ValidRun(s0, steps)
    requires var s := Run(s0, steps);
             (m in s.hands || m in s.batch || m in s.cpQ) && m.slot.Some?
    ensures |Run(s0, steps).free| < POOL
  {
    RunKeepsInv(s0, steps);
    var s := Run(s0, steps);
    if m in s.hands { HolderCounts(s.hands, m); }
    if m in s.batch { HolderCounts(s.batch, m); }
    if m in s.cpQ { HolderCounts(s.cpQ, m); }
    var x := m.slot.value;
    assert SlotPlaces(s, x) == Unit(x);
    assert x < POOL && Homes(s.free, x) == 0;
    forall y: nat ensures Homes(s.free, y) <= if y < POOL then 1 else 0 {
      assert SlotPlaces(s, y) == Unit(y);
    }
    RingSize(s.free, POOL);
  }

  /** Nothing a mail carries is ever released twice, and nothing in flight has been released. */
  lemma NothingFreedTwice(s0: State, steps: seq<Step>, p: Payload)
    requires Initial(s0) && ValidRun(s0, steps)
    ensures var s := Run(s0, steps);
            Carrying(s.disposed, p) <= 1 &&
            (Carrying(s.disposed, p) == 1 ==> Carrying(s.cpQ, p) == Carrying(s.hands, p) == Carrying(s.batch, p) == 0)
  {
    RunKeepsInv(s0, steps);
    assert PayloadPlaces(Run(s0, steps), p) <= 1;
  }

  /** Once the shutdown drain is through, every resource was released exactly once and the whole pool is home. */
  lemma DrainReturnsEverything(s0: State, steps: seq<Step>)
    requires Initial(s0) && ValidRun(s0, steps)
    requires var s := Run(s0, steps); s.phase.Draining? && s.cpQ == [] && s.batch == []
    ensures var s := Run(s0, steps);
            && (forall p :: Carrying(s.disposed, p) == if p in s.entered then 1 else 0)
            && (forall x: nat :: Homes(s.free, x) == if x < POOL then 1 else 0)
            && |s.free| == POOL
  {
    RunKeepsInv(s0, steps);
    var s := Run(s0, steps);
    forall p ensures Carrying(s.disposed, p) == if p in s.entered then 1 else 0 {
      assert PayloadPlaces(s, p) == Carrying(s.disposed, p);
    }
    forall x: nat ensures Homes(s.free, x) == if x < POOL then 1 else 0 {
      assert SlotPlaces(s, x) == Unit(x);
    }
    RingSize(s.free, POOL);
    FullRing(s.free, POOL);
  }

  // ---- the routines, one at a time ----

  class ControlMailbox {
    var freeRing: seq<nat>
    var cpQ: seq<Mail>
    ghost var disposed: seq<Mail>

    /** Between two calls every slot is in the free ring or in the queue. */
    ghost predicate Valid()
      reads this
    {
      (forall x: nat :: Homes(freeRing, x) + At(cpQ, x) == Unit(x)) && |cpQ| <= CP_CAPACITY && AllWellTyped(cpQ)
    }

    /** init.c init_ring: the pool is one less than the ring. */
    constructor ()
      ensures Valid() && cpQ == [] && disposed == [] && |freeRing| == POOL
    {
      cpQ, disposed := [], [];
      freeRing := [];
      new;
      var i := 0;
      while i < MAIL_SLOT_RING_SIZE - 1
        invariant 0 <= i <= POOL && |freeRing| == i && cpQ == [] && disposed == []
        invariant forall x: nat :: Homes(freeRing, x) == if x < i then 1 else 0
      {
        forall x: nat ensures Homes(freeRing + [i], x) == Homes(freeRing, x) + if x == i then 1 else 0 {
          HomesPush(freeRing, i, x);
        }
        freeRing := freeRing + [i];
        i := i + 1;
      }
    }

    /** northbound_event_post and fastrg_gen_etcd_event: on ERROR the payload stays with the caller. */
    method PostEvent(ev: EventType, payload: Payload) returns (ret: Status)
      requires Valid() && Fits(ev, payload) && !ev.EV_LINK?
      modifies this
      ensures Valid() && disposed == old(disposed)
      ensures ret == SUCCESS <==> old(freeRing) != [] && |old(cpQ)| < CP_CAPACITY
      ensures ret == SUCCESS ==>
        cpQ == old(cpQ) + [Mail(Some(old(freeRing)[0]), ev, payload)] && freeRing == old(freeRing)[1..]
      ensures ret == ERROR ==> cpQ == old(cpQ) && |freeRing| == |old(freeRing)|
      ensures ret == ERROR && old(freeRing) != [] ==> freeRing == old(freeRing)[1..] + [old(freeRing)[0]]
    {
      if freeRing == [] { return ERROR; }
      var slot := freeRing[0];
      forall x: nat ensures Homes(freeRing, x) == Homes(freeRing[1..], x) + if x == slot then 1 else 0 {
        HomesPop(freeRing, x);
      }
      freeRing := freeRing[1..];
      if |cpQ| >= CP_CAPACITY {
        GiveBackSlot(slot);
        return ERROR;
      }
      var m := Mail(Some(slot), ev, payload);
      forall x: nat ensures At(cpQ + [m], x) == At(cpQ, x) + SlotIs(m, x) {
        Push(cpQ, m, x, Nothing);
      }
      cpQ := cpQ + [m];
      ret := SUCCESS;
    }

    /** rte_ring_enqueue(free_mail_ring, slot) by whoever holds the slot: there is always room. */
    method GiveBackSlot(slot: nat)
      requires forall x: nat :: Homes(freeRing, x) + (if x == slot then 1 else 0) <= Unit(x)
      modifies this`freeRing
      ensures freeRing == old(freeRing) + [slot] && |freeRing| <= POOL
      ensures forall x: nat :: Homes(freeRing, x) == Homes(old(freeRing), x) + if x == slot then 1 else 0
    {
      forall x: nat ensures Homes(freeRing + [slot], x) == Homes(freeRing, x) + if x == slot then 1 else 0 {
        HomesPush(freeRing, slot, x);
      }
      freeRing := freeRing + [slot];
      RingSize(freeRing, POOL);
    }

    /** dp.h send2cp: the packet is queued or dropped, never left behind. */
    method Send2cp(ev: EventType, mbuf: nat)
      requires Valid() && Fits(ev, Mbuf(mbuf))
      modifies this
      ensures Valid()
      ensures if old(freeRing) != [] && |old(cpQ)| < CP_CAPACITY
              then cpQ == old(cpQ) + [Mail(Some(old(freeRing)[0]), ev, Mbuf(mbuf))] && disposed == old(disposed)
              else cpQ == old(cpQ) && disposed == old(disposed) + [Mail(None, ev, Mbuf(mbuf))]
    {
      var ret := PostEvent(ev, Mbuf(mbuf));
      if ret == ERROR { disposed := disposed + [Mail(None, ev, Mbuf(mbuf))]; }
    }

    /** rte_pktmbuf_free, etcd_event_free and fastrg_mfree on what a mail holds; a mail holding nothing is just done. */
    method FreeMbuf(m: Mail)
      requires m.payload.Mbuf?
      modifies this`disposed
      ensures disposed == old(disposed) + [m]
    { disposed := disposed + [m]; }

    method FreeEtcdEvent(m: Mail)
      requires m.payload.Etcd?
      modifies this`disposed
      ensures disposed == old(disposed) + [m]
    { disposed := disposed + [m]; }

    method FreeMail(m: Mail)
      requires m.payload.LinkMem?
      modifies this`disposed
      ensures disposed == old(disposed) + [m]
    { disposed := disposed + [m]; }

    method Done(m: Mail)
      requires m.payload.Nothing?
      modifies this`disposed
      ensures disposed == old(disposed) + [m]
    { disposed := disposed + [m]; }

    method ReturnSlot(m: Mail)
      requires m.slot.Some? && forall x: nat :: Homes(freeRing, x) + SlotIs(m, x) <= Unit(x)
      modifies this`freeRing
      ensures forall x: nat :: Homes(freeRing, x) == Homes(old(freeRing), x) + SlotIs(m, x)
    {
      assert forall x: nat :: (if x == m.slot.value then 1 else 0) == SlotIs(m, x);
      GiveBackSlot(m.slot.value);
    }

    /** One mail in the switch of fastrg_loop. */
    method HandleMail(m: Mail)
      requires WellTyped(m) && forall x: nat :: Homes(freeRing, x) + SlotIs(m, x) <= Unit(x)
      modifies this`freeRing, this`disposed
      ensures disposed == old(disposed) + [m]
      ensures forall x: nat :: Homes(freeRing, x) == Homes(old(freeRing), x) + SlotIs(m, x)
    {
      match m.ev
      case EV_NORTHBOUND_PPPoE => Done(m); ReturnSlot(m);
      case EV_NORTHBOUND_DHCP => Done(m); ReturnSlot(m);
      case EV_NORTHBOUND_DNS => Done(m); ReturnSlot(m);
      case EV_NORTHBOUND_NODE => Done(m); ReturnSlot(m);
      case EV_ETCD => FreeEtcdEvent(m); ReturnSlot(m);
      case EV_LINK => FreeMail(m);
      case EV_DP_PPPoE => FreeMbuf(m); ReturnSlot(m);
      case EV_DP_DHCP => FreeMbuf(m); ReturnSlot(m);
      case EV_DP_DNS => FreeMbuf(m); ReturnSlot(m);
      case EV_DP_ICMP6 => FreeMbuf(m); ReturnSlot(m);
      case EV_DP_ND6_MISS => FreeMbuf(m); ReturnSlot(m);
      case OTHER => Done(m); ReturnSlot(m);
    }

    /** One mail in the switch of the shutdown drain. */
    method DrainMail(m: Mail)
      requires WellTyped(m) && forall x: nat :: Homes(freeRing, x) + SlotIs(m, x) <= Unit(x)
      modifies this`freeRing, this`disposed
      ensures disposed == old(disposed) + [m]
      ensures forall x: nat :: Homes(freeRing, x) == Homes(old(freeRing), x) + SlotIs(m, x)
    {
      match m.ev
      case EV_DP_PPPoE => FreeMbuf(m); ReturnSlot(m);
      case EV_DP_DNS => FreeMbuf(m); ReturnSlot(m);
      case EV_DP_DHCP => FreeMbuf(m); ReturnSlot(m);
      case EV_DP_ICMP6 => FreeMbuf(m); ReturnSlot(m);
      case EV_DP_ND6_MISS => FreeMbuf(m); ReturnSlot(m);
      case EV_ETCD => FreeEtcdEvent(m); ReturnSlot(m);
      case EV_LINK => FreeMail(m);
      case _ => Done(m); ReturnSlot(m);
    }

    /** The handling loop over the mails of one burst. */
    method HandleAll(mail: seq<Mail>)
      requires AllWellTyped(mail)
      requires forall x: nat :: Homes(freeRing, x) + At(cpQ, x) + At(mail, x) == Unit(x)
      modifies this`freeRing, this`disposed
      ensures forall x: nat :: Homes(freeRing, x) + At(cpQ, x) == Unit(x)
      ensures disposed == old(disposed) + mail
    {
      var i := 0;
      assert mail[0..] == mail;
      while i < |mail|
        invariant 0 <= i <= |mail| && cpQ == old(cpQ)
        invariant forall x: nat :: Homes(freeRing, x) + At(cpQ, x) + At(mail[i..], x) == Unit(x)
        invariant disposed == old(disposed) + mail[..i]
      {
        assert mail[i..][1..] == mail[i + 1..] && mail[..i + 1][..i] == mail[..i];
        forall x: nat ensures At(mail[i..], x) == SlotIs(mail[i], x) + At(mail[i + 1..], x) {
          First(mail[i..], x, Nothing);
        }
        forall x: nat ensures Homes(freeRing, x) + SlotIs(mail[i], x) <= Unit(x) {
          assert At(mail[i..], x) == SlotIs(mail[i], x) + At(mail[i + 1..], x);
        }
        HandleMail(mail[i]);
        i := i + 1;
      }
      assert mail[i..] == [] && mail[..i] == mail;
    }

    /** fastrg.c fastrg_loop, one turn: a burst of at most 64 mails is handled in order. */
    method RunBurst()
      requires Valid()
      modifies this
      ensures Valid()
      ensures var n := if |old(cpQ)| < RING_BURST_SIZE then |old(cpQ)| else RING_BURST_SIZE;
              && cpQ == old(cpQ)[n..]
              && disposed == old(disposed) + old(cpQ)[..n]
    {
      var n := if |cpQ| < RING_BURST_SIZE then |cpQ| else RING_BURST_SIZE;
      var mail := cpQ[..n];
      assert cpQ == mail + cpQ[n..];
      forall x: nat ensures At(cpQ, x) == At(mail, x) + At(cpQ[n..], x) { Append(mail, cpQ[n..], x, Nothing); }
      cpQ := cpQ[n..];
      HandleAll(mail);
    }

    /** fastrg.c fastrg_stop: the drain loop. */
    method Drain()
      requires Valid()
      modifies this
      ensures Valid() && cpQ == [] && |freeRing| == POOL
      ensures disposed == old(disposed) + old(cpQ)
    {
      while cpQ != []
        invariant Valid()
        invariant disposed + cpQ == old(disposed) + old(cpQ)
        decreases |cpQ|
      {
        var left := cpQ[0];
        forall x: nat ensures At(cpQ, x) == SlotIs(left, x) + At(cpQ[1..], x) {
          First(cpQ, x, Nothing);
        }
        assert cpQ == [left] + cpQ[1..];
        forall x: nat ensures Homes(freeRing, x) + SlotIs(left, x) <= Unit(x) {
          assert At(cpQ, x) == SlotIs(left, x) + At(cpQ[1..], x);
        }
        cpQ := cpQ[1..];
        DrainMail(left);
      }
      RingSize(freeRing, POOL);
      FullRing(freeRing, POOL);
    }
  }
}
