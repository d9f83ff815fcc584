/**
 The per-subscriber MAC table: a hash of fixed capacity whose entries carry the
 generation they were learned in, so that a reset is one increment. Learns and
 lookups run on several cores with no lock.
 */
module MacTable {
  import opened Common
  import opened PackedWord

  const MAC_TABLE_MAX_ENTRIES := 65536

  type Ip = nat

  /** What a lookup in this generation sees for one address. */
  function Seen(hash: map<Ip, U64>, gen: U16, ip: Ip): Option<Mac> {
    if ip in hash && StampOf(hash[ip]) == gen then Some(MacOf(hash[ip])) else None
  }

  function Bump(gen: U16): U16 {
    (gen + 1) % STAMPS
  }

  // ---- interleavings ----

  /** A learn in progress: it has read the generation (after `born` resets), and maybe found a store is due. */
  datatype Learner = Learner(ip: Ip, mac: Mac, stamp: U16, born: nat, storing: bool)

  /**
   `hash` and `gen` are the table. The rest is bookkeeping of the model: how many
   resets there were, after how many of them each entry's generation was read,
   and the plain map the table is meant to be: a reset empties it, and a learn
   enters its address when it completes, unless a reset came after it began.
   */
  datatype State = State(hash: map<Ip, U64>, gen: U16, learners: seq<Learner>,
                         resets: nat, born: map<Ip, nat>, plain: map<Ip, Mac>)

  datatype Step =
    | Begin(ip: Ip, mac: Mac)        // read the generation
    | Probe(i: nat)                  // look the address up; nothing to do if the very word is there
    | Store(i: nat, room: bool)      // add the word; the hash may refuse a new address
    | Reset

  ghost predicate Enabled(s: State, st: Step) {
    match st
    case Begin(ip, mac) => true
    case Probe(i) => i < |s.learners| && !s.learners[i].storing
    case Store(i, room) => i < |s.learners| && s.learners[i].storing
    case Reset => true
  }

  ghost function Finished(s: State, i: nat): State
    requires i < |s.learners|
  {
    s.(learners := s.learners[..i] + s.learners[i + 1..])
  }

  ghost predicate Accepted(s: State, l: Learner, room: bool) {
    l.ip in s.hash || (room && |s.hash| < MAC_TABLE_MAX_ENTRIES)
  }

  /** The word stored for l; to the plain map a learn begun before the last reset never happened. */
  ghost function Stored(s: State, l: Learner): State {
    Completed(s.(hash := s.hash[l.ip := Word(l)], born := s.born[l.ip := l.born]), l)
  }

  ghost function Completed(s: State, l: Learner): State {
    if l.born == s.resets then s.(born := s.born[l.ip := l.born], plain := s.plain[l.ip := l.mac]) else s
  }

  ghost function Word(l: Learner): U64 {
    PackedFits(l.mac, l.stamp);
    Packed(l.mac, l.stamp)
  }

  ghost function Next(s: State, st: Step): State
    requires Enabled(s, st)
  {
    match st
    case Begin(ip, mac) => s.(learners := s.learners + [Learner(ip, mac, s.gen, s.resets, false)])
    case Probe(i) =>
      var l := s.learners[i];
      if l.ip in s.hash && s.hash[l.ip] == Word(l) then Completed(Finished(s, i), l)
      else s.(learners := s.learners[i := l.(storing := true)])
    case Store(i, room) =>
      var l := s.learners[i];
      if Accepted(s, l, room) then Stored(Finished(s, i), l) else Finished(s, i)
    case Reset => s.(gen := Bump(s.gen), resets := s.resets + 1, plain := map[])
  }

  ghost predicate ValidRun(s: State, steps: seq<Step>)
    decreases |steps|
  {
    steps == [] || (Enabled(s, steps[0]) && ValidRun(Next(s, steps[0]), steps[1..]))
  }

  ghost function Run(s: State, steps: seq<Step>): State
    requires ValidRun(s, steps)
    decreases |steps|
  {
    if steps == [] then s else Run(Next(s, steps[0]), steps[1..])
  }

  /** mac_table_alloc */
  ghost predicate Initial(s: State) {
    s == State(map[], 0, [], 0, map[], map[])
  }

  ghost function Plain(s: State, ip: Ip): Option<Mac> {
    if ip in s.plain then Some(s.plain[ip]) else None
  }

  // ---- the invariant ----

  ghost predicate LearnerOk(s: State, l: Learner) {
    l.born <= s.resets && l.stamp == l.born % STAMPS
  }

  ghost predicate EntryOk(s: State, ip: Ip) {
    if ip !in s.hash then ip !in s.born && ip !in s.plain
    else
      && ip in s.born && s.born[ip] <= s.resets && StampOf(s.hash[ip]) == s.born[ip] % STAMPS
      && (s.born[ip] == s.resets ==> ip in s.plain && s.plain[ip] == MacOf(s.hash[ip]))
  }

  ghost predicate Inv(s: State) {
    && s.gen == s.resets % STAMPS
    && |s.hash| <= MAC_TABLE_MAX_ENTRIES
    && (forall i :: 0 <= i < |s.learners| ==> LearnerOk(s, s.learners[i]))
    && (forall ip: Ip :: EntryOk(s, ip))
  }

  lemma LearnerStepKeepsInv(s: State, st: Step)
    requires Inv(s) && Enabled(s, st) && (st.Begin? || st.Probe?)
    ensures Inv(Next(s, st))
  {
    var s' := Next(s, st);
    forall i | 0 <= i < |s'.learners| ensures LearnerOk(s', s'.learners[i]) {
      if st.Probe? {
        assert LearnerOk(s, s.learners[st.i]);
        assert s'.learners[i] in s.learners || s'.learners[i] == s.learners[st.i].(storing := true);
      }
    }
    if st.Probe? { UnpackPack(s.learners[st.i].mac, s.learners[st.i].stamp); }
    forall ip: Ip ensures EntryOk(s', ip) {
      assert EntryOk(s, ip);
    }
  }

  lemma StoreKeepsInv(s: State, i: nat, room: bool)
    requires Inv(s) && Enabled(s, Store(i, room))
    ensures Inv(Next(s, Store(i, room)))
  {
    var l := s.learners[i];
    var s' := Next(s, Store(i, room));
    assert LearnerOk(s, l);
    forall j | 0 <= j < |s'.learners| ensures LearnerOk(s', s'.learners[j]) {
      assert s'.learners[j] in s.learners;
    }
    UnpackPack(l.mac, l.stamp);
    forall ip: Ip ensures EntryOk(s', ip) {
      assert EntryOk(s, ip);
    }
    if l.ip in s.hash {
      assert s'.hash.Keys == s.hash.Keys;
      SameSize(s.hash, s'.hash);
    }
  }

  lemma SameSize(a: map<Ip, U64>, b: map<Ip, U64>)
    requires a.Keys == b.Keys
    ensures |a| == |b|
  {
    assert |a| == |a.Keys| && |b| == |b.Keys|;
  }

  lemma ResetKeepsInv(s: State)
    requires Inv(s)
    ensures Inv(Next(s, Reset))
  {
    var s' := Next(s, Reset);
    forall i | 0 <= i < |s'.learners| ensures LearnerOk(s', s'.learners[i]) {
      assert LearnerOk(s, s.learners[i]);
    }
    forall ip: Ip ensures EntryOk(s', ip) {
      assert EntryOk(s, ip);
    }
  }

  lemma StepKeepsInv(s: State, st: Step)
    requires Inv(s) && Enabled(s, st)
    ensures Inv(Next(s, st))
  {
    match st
    case Begin(_, _) => LearnerStepKeepsInv(s, st);
    case Probe(_) => LearnerStepKeepsInv(s, st);
    case Store(i, room) => StoreKeepsInv(s, i, room);
    case Reset => ResetKeepsInv(s);
  }

  lemma {:induction false} RunKeepsInv(s: State, steps: seq<Step>)
    requires Inv(s) && ValidRun(s, steps)
    ensures Inv(Run(s, steps)) && Run(s, steps).resets >= s.resets
    decreases |steps|
  {
    if steps == [] {
    } else {
      StepKeepsInv(s, steps[0]);
      RunKeepsInv(Next(s, steps[0]), steps[1..]);
    }
  }

  // ---- refinement ----

  /** The entry outlived a whole turn of the generation counter. */
  ghost predicate Resurrected(s: State, ip: Ip) {
    ip in s.born && s.born[ip] < s.resets && (s.resets - s.born[ip]) % STAMPS == 0
  }

  lemma SameStamp(m: nat, n: nat)
    requires m <= n
    ensures m % STAMPS == n % STAMPS <==> (n - m) % STAMPS == 0
  {
  }

  /** A learn that began before the last reset stored its word over one of this generation. */
  ghost predicate Overwritten(s: State, ip: Ip) {
    ip in s.plain && ip in s.born && s.born[ip] < s.resets
  }

  lemma SeenExactly(s: State, ip: Ip)
    requires Inv(s)
    ensures Seen(s.hash, s.gen, ip) == Plain(s, ip) <==>
              if Resurrected(s, ip) then Overwritten(s, ip) && ip in s.hash && MacOf(s.hash[ip]) == s.plain[ip]
              else !Overwritten(s, ip)
  {
    assert EntryOk(s, ip);
    if ip in s.hash { SameStamp(s.born[ip], s.resets); }
  }

  lemma InitialInv(s: State)
    requires Initial(s)
    ensures Inv(s)
  {
    assert forall ip: Ip :: EntryOk(s, ip);
  }

  /**
   In every interleaving of learns and resets a lookup answers as the plain map,
   which a reset empties, exactly when the entry is no positive multiple of 65536
   resets old and no learn from before the last reset overwrote a current entry
   (or both happened and the two addresses agree).
   */
  lemma {:induction false} LookupRefinesPlainMap(s0: State, steps: seq<Step>, ip: Ip)
    requires Initial(s0) && ValidRun(s0, steps)
    ensures var s := Run(s0, steps);
            Seen(s.hash, s.gen, ip) == Plain(s, ip) <==>
              if Resurrected(s, ip) then Overwritten(s, ip) && ip in s.hash && MacOf(s.hash[ip]) == s.plain[ip]
              else !Overwritten(s, ip)
  {
    InitialInv(s0);
    RunKeepsInv(s0, steps);
    SeenExactly(Run(s0, steps), ip);
  }

  /** This step puts a stale word over an address learned since the last reset. */
  ghost predicate StaleStore(s: State, st: Step)
    requires Enabled(s, st)
  {
    && st.Store? && Accepted(s, s.learners[st.i], st.room)
    && s.learners[st.i].born < s.resets && s.learners[st.i].ip in s.plain
  }

  /** An address becomes overwritten by exactly such a step, from which only a reset or a current learn recovers it. */
  lemma OverwrittenExactly(s: State, st: Step, ip: Ip)
    requires Inv(s) && Enabled(s, st)
    ensures Overwritten(Next(s, st), ip) <==>
              (StaleStore(s, st) && s.learners[st.i].ip == ip) ||
              (Overwritten(s, ip) && !st.Reset? && !Relearned(s, st, ip))
  {
    assert EntryOk(s, ip);
    if st.Store? || st.Probe? { assert LearnerOk(s, s.learners[st.i]); }
  }

  /** A learn of this generation completes for ip. */
  ghost predicate Relearned(s: State, st: Step, ip: Ip)
    requires Enabled(s, st)
  {
    (st.Store? || st.Probe?) && s.learners[st.i].ip == ip && s.learners[st.i].born == s.resets &&
    (if st.Store? then Accepted(s, s.learners[st.i], st.room)
     else ip in s.hash && s.hash[ip] == Word(s.learners[st.i]))
  }

  /** No reset, and no learn of this generation for ip, anywhere in the run. */
  ghost predicate Undisturbed(s: State, steps: seq<Step>, ip: Ip)
    requires ValidRun(s, steps)
    decreases |steps|
  {
    steps == [] ||
    (!steps[0].Reset? && !Relearned(s, steps[0], ip) && Undisturbed(Next(s, steps[0]), steps[1..], ip))
  }

  /** Somewhere in the run a stale store hits ip, and neither a reset nor a current learn of ip follows. */
  ghost predicate StaleStoreLast(s: State, steps: seq<Step>, ip: Ip)
    requires ValidRun(s, steps)
    decreases |steps|
  {
    steps != [] &&
    ((StaleStore(s, steps[0]) && s.learners[steps[0].i].ip == ip && Undisturbed(Next(s, steps[0]), steps[1..], ip)) ||
     StaleStoreLast(Next(s, steps[0]), steps[1..], ip))
  }

  lemma {:induction false} RunOverwritten(s: State, steps: seq<Step>, ip: Ip)
    requires Inv(s) && ValidRun(s, steps)
    ensures Overwritten(Run(s, steps), ip) <==>
              (Overwritten(s, ip) && Undisturbed(s, steps, ip)) || StaleStoreLast(s, steps, ip)
    decreases |steps|
  {
    if steps == [] {
    } else {
      OverwrittenExactly(s, steps[0], ip);
      StepKeepsInv(s, steps[0]);
      RunOverwritten(Next(s, steps[0]), steps[1..], ip);
    }
  }

  /** After any run from boot, an address is overwritten exactly if its last event was the late store of an old learn. */
  lemma OverwrittenRunsExactly(s0: State, steps: seq<Step>, ip: Ip)
    requires Initial(s0) && ValidRun(s0, steps)
    ensures Overwritten(Run(s0, steps), ip) <==> StaleStoreLast(s0, steps, ip)
  {
    InitialInv(s0);
    RunOverwritten(s0, steps, ip);
  }

  /**
   So after any run from boot with fewer than 65536 resets, a lookup answers as the
   plain map exactly if no late store of an old learn is the last event of the address.
   */
  lemma {:induction false} LookupRefinesOverRuns(s0: State, steps: seq<Step>, ip: Ip)
    requires Initial(s0) && ValidRun(s0, steps) && Run(s0, steps).resets < STAMPS
    ensures var s := Run(s0, steps);
            Seen(s.hash, s.gen, ip) == Plain(s, ip) <==> !StaleStoreLast(s0, steps, ip)
  {
    InitialInv(s0);
    RunKeepsInv(s0, steps);
    OverwrittenRunsExactly(s0, steps, ip);
    SeenExactly(Run(s0, steps), ip);
  }

  /** No stale store anywhere in the run, and at most 65535 resets. */
  ghost predicate CalmRun(s: State, steps: seq<Step>)
    requires ValidRun(s, steps)
    decreases |steps|
  {
    s.resets < STAMPS &&
    (steps != [] ==> !StaleStore(s, steps[0]) && CalmRun(Next(s, steps[0]), steps[1..]))
  }

  lemma {:induction false} CalmRunRefines(s: State, steps: seq<Step>, ip: Ip)
    requires Inv(s) && ValidRun(s, steps) && CalmRun(s, steps) && !Overwritten(s, ip)
    ensures var s' := Run(s, steps); Seen(s'.hash, s'.gen, ip) == Plain(s', ip)
    decreases |steps|
  {
    if steps == [] {
      assert EntryOk(s, ip);
      SeenExactly(s, ip);
    } else {
      OverwrittenExactly(s, steps[0], ip);
      StepKeepsInv(s, steps[0]);
      CalmRunRefines(Next(s, steps[0]), steps[1..], ip);
    }
  }

  /** A learn that read the generation before a reset stays invisible, again up to the wrap; the plain map ignores it. */
  lemma StaleLearnStaysInvisible(s: State, i: nat, room: bool)
    requires Inv(s) && Enabled(s, Store(i, room)) && s.learners[i].born < s.resets
    requires Accepted(s, s.learners[i], room)
    ensures var l := s.learners[i];
            var s' := Next(s, Store(i, room));
            && Plain(s', l.ip) == Plain(s, l.ip)
            && (Seen(s'.hash, s'.gen, l.ip) == None <==> (s.resets - l.born) % STAMPS != 0)
  {
    var l := s.learners[i];
    UnpackPack(l.mac, l.stamp);
    assert LearnerOk(s, l);
    SameStamp(l.born, s.resets);
  }

  /** A learn that no reset interrupts is seen at once. */
  lemma LearnIsSeen(s: State, i: nat, room: bool)
    requires Inv(s) && Enabled(s, Store(i, room)) && s.learners[i].born == s.resets
    requires Accepted(s, s.learners[i], room)
    ensures var s' := Next(s, Store(i, room));
            Seen(s'.hash, s'.gen, s.learners[i].ip) == Some(s.learners[i].mac) == Plain(s', s.learners[i].ip)
  {
    UnpackPack(s.learners[i].mac, s.learners[i].stamp);
    assert LearnerOk(s, s.learners[i]);
  }

  /** A learn of this generation whose probe finds its very word is seen without a store. */
  lemma ProbeHitIsSeen(s: State, i: nat)
    requires Inv(s) && Enabled(s, Probe(i)) && s.learners[i].born == s.resets
    requires s.learners[i].ip in s.hash && s.hash[s.learners[i].ip] == Word(s.learners[i])
    ensures var s' := Next(s, Probe(i));
            Seen(s'.hash, s'.gen, s.learners[i].ip) == Some(s.learners[i].mac) == Plain(s', s.learners[i].ip)
  {
    var l := s.learners[i];
    UnpackPack(l.mac, l.stamp);
    assert LearnerOk(s, l);
  }

  lemma Prepend(s: State, st: Step, rest: seq<Step>)
    requires Enabled(s, st) && ValidRun(Next(s, st), rest)
    ensures ValidRun(s, [st] + rest) && Run(s, [st] + rest) == Run(Next(s, st), rest)
  {
    assert ([st] + rest)[1..] == rest;
  }

  /** A learn from before the last reset is still in progress beside the entry a current one stored. */
  ghost predicate AboutToOverwrite(s: State, mac: Mac) {
    && s.learners == [Learner(0, mac, 0, 0, false)] && s.gen == 1 && s.resets == 1
    && s.hash == map[0 := Word(Learner(0, mac, 1, 1, true))] && s.plain == map[0 := mac]
  }

  lemma TwoLearnsAroundReset(s0: State, mac: Mac) returns (steps: seq<Step>)
    requires Initial(s0)
    ensures ValidRun(s0, steps) && AboutToOverwrite(Run(s0, steps), mac)
  {
    var slow, quick := Learner(0, mac, 0, 0, false), Learner(0, mac, 1, 1, false);
    var s1 := Next(s0, Begin(0, mac));
    var s2 := Next(s1, Reset);
    var s3 := Next(s2, Begin(0, mac));
    assert s3.learners == [slow, quick] && s3.hash == map[];
    var s4 := Next(s3, Probe(1));
    assert s4.learners == [slow, quick.(storing := true)] && s4.hash == map[];
    var s5 := Next(s4, Store(1, true));
    assert s5.learners == [slow];
    assert Run(s5, []) == s5;
    steps := [Store(1, true)] + [];
    Prepend(s4, Store(1, true), []);
    Prepend(s3, Probe(1), steps);
    steps := [Probe(1)] + steps;
    Prepend(s2, Begin(0, mac), steps);
    steps := [Begin(0, mac)] + steps;
    Prepend(s1, Reset, steps);
    steps := [Reset] + steps;
    Prepend(s0, Begin(0, mac), steps);
    steps := [Begin(0, mac)] + steps;
  }

  lemma SlowLearnFinishes(s: State, mac: Mac)
    requires AboutToOverwrite(s, mac)
    ensures ValidRun(s, [Probe(0), Store(0, true)])
    ensures Run(s, [Probe(0), Store(0, true)]).plain == s.plain && Run(s, [Probe(0), Store(0, true)]).gen == 1
    ensures Run(s, [Probe(0), Store(0, true)]).hash == map[0 := Word(Learner(0, mac, 0, 0, true))]
  {
    var slow := Learner(0, mac, 0, 0, true);
    UnpackPack(mac, 0);
    UnpackPack(mac, 1);
    assert Word(slow) != Word(Learner(0, mac, 1, 1, true));
    var s1 := Next(s, Probe(0));
    assert s1.learners == [slow] && s1.hash == s.hash;
    var s2 := Next(s1, Store(0, true));
    assert s2.hash == map[0 := Word(slow)] && Run(s2, []) == s2;
    Prepend(s1, Store(0, true), []);
    assert [Store(0, true)] + [] == [Store(0, true)];
    Prepend(s, Probe(0), [Store(0, true)]);
    assert [Probe(0)] + [Store(0, true)] == [Probe(0), Store(0, true)];
  }

  /**
   From boot: a host learned since the last reset is seen, and then lost with no
   reset in between, because a learn begun before that reset stores last.
   */
  lemma FreshLearnLost(s0: State, mac: Mac) returns (steps: seq<Step>, more: seq<Step>)
    requires Initial(s0)
    ensures ValidRun(s0, steps) && ValidRun(Run(s0, steps), more) && Reset !in more
    ensures var s := Run(s0, steps); Seen(s.hash, s.gen, 0) == Plain(s, 0) == Some(mac)
    ensures var s := Run(Run(s0, steps), more); Seen(s.hash, s.gen, 0) == None && Plain(s, 0) == Some(mac)
  {
    steps := TwoLearnsAroundReset(s0, mac);
    more := [Probe(0), Store(0, true)];
    SlowLearnFinishes(Run(s0, steps), mac);
    UnpackPack(mac, 0);
    UnpackPack(mac, 1);
  }

  ghost function Resets(n: nat): seq<Step> {
    if n == 0 then [] else [Reset] + Resets(n - 1)
  }

  lemma {:induction false} ManyResets(s: State, n: nat)
    requires Inv(s)
    ensures ValidRun(s, Resets(n))
    ensures var s' := Run(s, Resets(n)); Inv(s') && s'.hash == s.hash && s'.resets == s.resets + n && s'.born == s.born
    ensures n > 0 ==> Run(s, Resets(n)).plain == map[]
    decreases n
  {
    if n > 0 {
      ResetKeepsInv(s);
      ManyResets(Next(s, Reset), n - 1);
      assert Resets(n)[0] == Reset && Resets(n)[1..] == Resets(n - 1);
    }
  }

  /** n resets hide a current entry, except that every 65536th brings it back. */
  lemma ResurrectedEveryTurn(s: State, ip: Ip, n: nat)
    requires Inv(s) && ip in s.plain && !Overwritten(s, ip) && n > 0
    ensures ValidRun(s, Resets(n))
    ensures var s' := Run(s, Resets(n));
            && Plain(s', ip) == None
            && Seen(s'.hash, s'.gen, ip) == if n % STAMPS == 0 then Some(s.plain[ip]) else None
  {
    ManyResets(s, n);
    assert EntryOk(s, ip);
    SameStamp(s.resets, s.resets + n);
  }

  /**
   A lookup loads the word in one state and the generation in a later one. For an
   entry less than a turn old it finds the address exactly if the entry was
   current then and no reset came between, and it is what the plain map held.
   */
  lemma SplitLookupIsAtomic(s: State, steps: seq<Step>, ip: Ip)
    requires Inv(s) && ValidRun(s, steps) && ip in s.hash && ip in s.born
    requires Run(s, steps).resets - s.born[ip] < STAMPS
    ensures var s' := Run(s, steps);
            StampOf(s.hash[ip]) == s'.gen <==> s'.resets == s.resets == s.born[ip]
    ensures StampOf(s.hash[ip]) == Run(s, steps).gen ==> Plain(s, ip) == Some(MacOf(s.hash[ip]))
  {
    RunKeepsInv(s, steps);
    assert EntryOk(s, ip);
    SameStamp(s.born[ip], Run(s, steps).resets);
  }

  // ---- the routines ----

  /** The addresses a walk lists: those of this generation, in the hash's own order. */
  ghost function Listed(hash: map<Ip, U64>, gen: U16, order: seq<Ip>): seq<Ip> {
    if order == [] then []
    else
      Listed(hash, gen, order[..|order| - 1]) +
      (if Seen(hash, gen, order[|order| - 1]).Some? then [order[|order| - 1]] else [])
  }

  /** The walk lists exactly the addresses a lookup would find, each once. */
  lemma {:induction false} ListedIsSeen(hash: map<Ip, U64>, gen: U16, order: seq<Ip>, ip: Ip)
    requires forall a, b :: 0 <= a < b < |order| ==> order[a] != order[b]
    ensures ip in Listed(hash, gen, order) <==> ip in order && Seen(hash, gen, ip).Some?
    ensures forall a, b :: 0 <= a < b < |Listed(hash, gen, order)| ==>
              Listed(hash, gen, order)[a] != Listed(hash, gen, order)[b]
    decreases |order|
  {
    if order == [] {
    } else {
      var n := |order| - 1;
      assert order == order[..n] + [order[n]];
      ListedIsSeen(hash, gen, order[..n], ip);
      ListedIsSeen(hash, gen, order[..n], order[n]);
    }
  }

  class Table {
    var hash: map<Ip, U64>
    var generation: U16
    var learnFail: nat

    constructor ()
      ensures hash == map[] && generation == 0 && learnFail == 0
    {
      hash, generation, learnFail := map[], 0, 0;
    }

    /** mac_table_lookup: the output is written even when the entry turns out stale. */
    method Lookup(ip: Ip, macOut: array<U8>) returns (ret: Status)
      requires macOut.Length == ETHER_ADDR_LEN
      modifies macOut
      ensures ret == SUCCESS <==> Seen(hash, generation, ip).Some?
      ensures ret == SUCCESS ==> Seen(hash, generation, ip) == Some(macOut[..])
      ensures ip !in hash ==> macOut[..] == old(macOut[..])
    {
      if ip !in hash { return ERROR; }
      var gen := Unpack(hash[ip], macOut);
      if gen != generation { return ERROR; }
      ret := SUCCESS;
    }

    /** mac_table_learn; `room` is whether the hash can place one more key. */
    method Learn(ip: Ip, mac: Mac, room: bool)
      requires |hash| <= MAC_TABLE_MAX_ENTRIES
      modifies this
      ensures generation == old(generation) && |hash| <= MAC_TABLE_MAX_ENTRIES
      ensures if ip in old(hash) || (room && |old(hash)| < MAC_TABLE_MAX_ENTRIES)
              then Seen(hash, generation, ip) == Some(mac) && learnFail == old(learnFail)
              else hash == old(hash) && learnFail == old(learnFail) + 1
      ensures hash - {ip} == old(hash) - {ip}
    {
      var gen := generation;
      var want := Pack(mac, gen);
      UnpackPack(mac, gen);
      if ip in hash && hash[ip] == want { return; }
      if ip in hash || (room && |hash| < MAC_TABLE_MAX_ENTRIES) {
        ghost var before := hash;
        hash := hash[ip := want];
        if ip in before {
          assert hash.Keys == before.Keys;
          SameSize(hash, before);
        }
      } else {
        learnFail := learnFail + 1;
      }
    }

    /** mac_table_reset */
    method Reset()
      modifies this
      ensures hash == old(hash) && generation == Bump(old(generation)) && learnFail == 0
      ensures forall ip :: Seen(old(hash), old(generation), ip).Some? ==> Seen(hash, generation, ip) == None
    {
      generation := Bump(generation);
      learnFail := 0;
    }

    /** mac_table_iterate over the hash's order of its keys: the next address of this generation, or -1. */
    method Iterate(order: seq<Ip>, next: nat, macOut: array<U8>) returns (pos: int, next': nat, ip: Ip)
      requires macOut.Length == ETHER_ADDR_LEN && next <= |order|
      requires forall i :: 0 <= i < |order| ==> order[i] in hash
      modifies macOut
      ensures next <= next' <= |order|
      ensures pos == -1 || (next <= pos && next' == pos + 1 && ip == order[pos])
      ensures pos == -1 ==> next' == |order| && Listed(hash, generation, order) == Listed(hash, generation, order[..next])
      ensures pos >= 0 ==> Seen(hash, generation, ip) == Some(macOut[..])
      ensures pos >= 0 ==> Listed(hash, generation, order[..next']) == Listed(hash, generation, order[..next]) + [ip]
    {
      var curGen := generation;
      next', ip := next, 0;
      while next' < |order|
        invariant next <= next' <= |order|
        invariant Listed(hash, generation, order[..next']) == Listed(hash, generation, order[..next])
      {
        pos, ip := next', order[next'];
        assert order[..next' + 1][..next'] == order[..next'];
        next' := next' + 1;
        var gen := Unpack(hash[ip], macOut);
        if gen == curGen { return; }
      }
      assert order[..|order|] == order;
      pos := -1;
    }

    /** fastrg_node_grpc.cpp GetArpTable: counts every address seen and returns the first maxCount of them. */
    method List(order: seq<Ip>, maxCount: nat) returns (total: nat, entries: seq<(Ip, Mac)>)
      requires forall i :: 0 <= i < |order| ==> order[i] in hash
      ensures var all := Listed(hash, generation, order);
              && total == |all|
              && |entries| == (if total < maxCount then total else maxCount)
              && forall i :: 0 <= i < |entries| ==>
                   entries[i].0 == all[i] && Seen(hash, generation, all[i]) == Some(entries[i].1)
    {
      total, entries := 0, [];
      var mac := new U8[ETHER_ADDR_LEN](_ => 0);
      var next := 0;
      var pos, ip;
      pos, next, ip := Iterate(order, next, mac);
      assert order[..0] == [];
      ghost var done := 0;
      while pos >= 0
        invariant 0 <= done <= next <= |order|
        invariant pos == -1 ==> next == |order| && Listed(hash, generation, order) == Listed(hash, generation, order[..done])
        invariant pos >= 0 ==>
                    && Listed(hash, generation, order[..next]) == Listed(hash, generation, order[..done]) + [ip]
                    && Seen(hash, generation, ip) == Some(mac[..])
        invariant total == |Listed(hash, generation, order[..done])|
        invariant |entries| == if total < maxCount then total else maxCount
        invariant forall i :: 0 <= i < |entries| ==>
                    entries[i].0 == Listed(hash, generation, order[..done])[i] &&
                    Seen(hash, generation, entries[i].0) == Some(entries[i].1)
        invariant pos == -1 || pos >= 0
        decreases |order| - next, pos
      {
        total := total + 1;
        if |entries| < maxCount { entries := entries + [(ip, mac[..])]; }
        done := next;
        pos, next, ip := Iterate(order, next, mac);
      }
    }
  }
}
