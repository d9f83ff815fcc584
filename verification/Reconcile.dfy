/**
 Convergence of the node's subscriber configuration to etcd.

 etcd is a log of committed writes whose length is the store revision. Watchers,
 the periodic reconcile pass and the republish request all turn parts of that
 log into events; the control loop applies one event at a time and remembers,
 per subscriber, the revision it last applied. Live events may be lost, delayed,
 repeated or reordered: an event may be queued whenever some prefix of the log
 justifies it.
 */
module Reconcile {
  import opened Common
  import PortForward

  // ---- etcd ----

  /** Everything of a subscriber config that is applied as one unit, ports apart. */
  datatype Core = Core(vlan: nat, account: string, password: string,
                       gateway: nat, subnet: nat, poolStart: nat, poolEnd: nat,
                       dnsProxy: bool, tcpConntrack: bool, ipv6: bool)

  datatype Config = Config(core: Core, ports: seq<PortForward.Mapping>)

  /** What an apply of the core leaves in force: of the address pool, its first address and its length. */
  datatype InForce = InForce(vlan: nat, account: string, password: string,
                             gateway: nat, subnet: nat, poolFirst: nat, poolLen: nat,
                             dnsProxy: bool, tcpConntrack: bool, ipv6: bool)

  /** The length of a pool, its ends in either order. */
  function PoolLen(start: nat, end: nat): nat {
    if end >= start then end - start + 1 else start - end + 1
  }

  /** Field by field, what is in force is what the config asks for. */
  predicate Took(x: InForce, c: Core) {
    && x.vlan == c.vlan && x.account == c.account && x.password == c.password
    && x.gateway == c.gateway && x.subnet == c.subnet
    && x.poolFirst == c.poolStart
    && x.poolLen == (if c.poolEnd >= c.poolStart then c.poolEnd - c.poolStart + 1 else c.poolStart - c.poolEnd + 1)
    && x.dnsProxy == c.dnsProxy && x.tcpConntrack == c.tcpConntrack && x.ipv6 == c.ipv6
  }

  /** And nothing but Effect does that. */
  lemma EffectExactly(x: InForce, c: Core)
    ensures Took(x, c) <==> x == Effect(c)
  {
  }

  function Effect(c: Core): InForce {
    InForce(c.vlan, c.account, c.password, c.gateway, c.subnet, c.poolStart, PoolLen(c.poolStart, c.poolEnd),
            c.dnsProxy, c.tcpConntrack, c.ipv6)
  }

  /** Two configs are the same in force exactly if they are equal but for a pool turned around its first address. */
  lemma SameEffectExactly(a: Core, b: Core)
    ensures Effect(a) == Effect(b) <==>
              b == a.(poolEnd := b.poolEnd) && (b.poolEnd == a.poolEnd || a.poolEnd + b.poolEnd == 2 * a.poolStart)
  {
  }

  /**
   One committed write; a subscriber's value that does not parse is put as None.
   `Other` is any key that is not a subscriber config of this node.
   */
  datatype Write = Put(user: nat, config: Option<Config>) | Delete(user: nat) | Other

  type Log = seq<Write>

  ghost predicate Touches(w: Write, u: nat) {
    !w.Other? && w.user == u
  }

  /** Revision of the last write to u's key, 0 when there is none. */
  ghost function LastWrite(log: Log, u: nat): (r: nat)
    ensures r <= |log|
    ensures r > 0 ==> Touches(log[r - 1], u)
    ensures forall i :: r <= i < |log| ==> !Touches(log[i], u)
  {
    if log == [] then 0
    else if Touches(log[|log| - 1], u) then |log|
    else
      assert forall i :: 0 <= i < |log| - 1 ==> log[..|log| - 1][i] == log[i];
      LastWrite(log[..|log| - 1], u)
  }

  /** u's key exists. */
  ghost predicate Present(log: Log, u: nat) {
    var r := LastWrite(log, u);
    r > 0 && log[r - 1].Put?
  }

  /** What u's key holds now, if it can be read. */
  ghost function Value(log: Log, u: nat): Option<Config> {
    if Present(log, u) then log[LastWrite(log, u) - 1].config else None
  }

  /** No stored revision may be newer than this. */
  ghost function Bound(log: Log, u: nat): nat {
    if Present(log, u) then LastWrite(log, u) else |log|
  }

  /** A prefix agrees with the whole log on a key that was not written after it. */
  lemma PrefixAgrees(log: Log, u: nat, r: nat)
    requires r <= |log|
    ensures LastWrite(log, u) <= r ==> LastWrite(log[..r], u) == LastWrite(log, u)
    ensures LastWrite(log, u) <= r ==> Value(log[..r], u) == Value(log, u)
    ensures LastWrite(log, u) <= r ==> (Present(log[..r], u) <==> Present(log, u))
  {
    assert forall i :: 0 <= i < r ==> log[..r][i] == log[i];
  }

  // ---- events ----

  datatype Action = CREATE | UPDATE | DELETE

  datatype Event =
    | Hsi(user: nat, action: Action, config: Option<Config>, revision: nat,
          fromReconcile: bool, fromRepublish: bool)
    | Sweep(present: seq<nat>, readAt: nat)
    | UserCount(count: int)

  /** The reconcile pass's event for a key it could read: always an UPDATE at the key's own revision. */
  ghost function ReconcileEvent(log: Log, u: nat): Event {
    Hsi(u, UPDATE, Value(log, u), LastWrite(log, u), true, false)
  }

  /** The sweep of a pass that read the store at revision R lists exactly the users present then. */
  ghost predicate HonestSweep(log: Log, present: seq<nat>, readAt: nat, max: nat) {
    readAt <= |log| &&
    forall u :: 0 <= u < max ==> (u in present <==> Present(log[..readAt], u))
  }

  /**
   The events a watcher, a reconcile pass, a republish, the boot load (revision 0
   when it comes from the local snapshot) or the CLI can put in the queue.
   */
  ghost predicate Honest(ev: Event, log: Log, max: nat) {
    match ev
    case Hsi(u, action, config, rev, rec, rep) =>
      && rev <= |log|
      && (config.None? <==> action == DELETE)
      && (rev == 0 ==> !rec && !rep)
      && (rec || rep ==> action == UPDATE)
      && (rev > 0 ==>
            if action == DELETE then log[rev - 1] == Delete(u)
            else log[rev - 1] == Put(u, config))
    case Sweep(present, readAt) => HonestSweep(log, present, readAt, max)
    case UserCount(_) => true
  }

  // ---- local state ----

  /** One subscriber slot: config in force, port-forward table, PPPoE or DHCP running, applied revision. */
  datatype User = User(core: Option<InForce>, ports: PortForward.Table, inUse: bool, last: nat)

  datatype Local = Local(count: nat, users: seq<User>)

  ghost predicate WellFormed(l: Local) {
    l.count <= |l.users|
  }

  /**
   How the parts outside this model answer for one subscriber: the values do not
   validate, a later step fails and leaves some residue behind, or all goes well.
   */
  datatype Outcome = Invalid | Failed(residue: Option<InForce>) | Done

  /** hsi_config_matches_local */
  ghost predicate MatchesLocal(user: User, cfg: Config) {
    user.core == Some(Effect(cfg.core)) && PortForward.CheapMatch(user.ports, cfg.ports)
  }

  /** is_hsi_etcd_revision_newest: only a reconcile event can be stale, and only when strictly older. */
  predicate RevisionNewest(last: nat, ev: Event)
    requires ev.Hsi?
  {
    !ev.fromReconcile || ev.revision >= last
  }

  /** is_sweep_may_remove */
  predicate SweepMayRemove(last: nat, readAt: nat) {
    last == 0 || readAt == 0 || last <= readAt
  }

  /** apply_hsi_config, as far as convergence sees it: new state and whether it reported success. */
  ghost function ApplyCore(user: User, cfg: Config, isUpdate: bool, o: Outcome): (User, bool) {
    if o.Invalid? then (user, false)
    else if !isUpdate && user.inUse then (user, true)
    else if o.Failed? then (user.(core := o.residue), false)
    else (user.(core := Some(Effect(cfg.core))), true)
  }

  /** remove_hsi_config: refused while PPPoE or DHCP runs; the cleanup's own failure goes unreported. */
  ghost function RemoveCore(user: User, o: Outcome): (User, bool) {
    if user.core.None? || user.inUse then (user, false)
    else (user.(core := if o.Failed? then o.residue else None), true)
  }

  /** hsi_config_changed_callback for a subscriber below the count. */
  ghost function ConfigChanged(user: User, ev: Event, o: Outcome): User
    requires ev.Hsi?
  {
    if ev.action == DELETE then
      var (u', ok) := RemoveCore(user, o);
      if ok then u'.(last := ev.revision) else u'
    else if ev.config.None? then user
    else
      var (u', ok) := ApplyCore(user, ev.config.value, ev.action == UPDATE, o);
      if !ok then u'
      else
        var ms := ev.config.value.ports;
        var ports := if |ms| > 0 || ev.action == UPDATE
                     then PortForward.Reconciled(u'.ports, ms) else u'.ports;
        u'.(ports := ports, last := ev.revision)
  }

  /** The ETCD_EVENT_HSI branch of etcd_event_dispatch for a subscriber below the count. */
  ghost function HandleHsi(user: User, ev: Event, o: Outcome): User
    requires ev.Hsi?
  {
    if !RevisionNewest(user.last, ev) then user
    else if (ev.fromRepublish || ev.fromReconcile) && ev.action != DELETE && ev.config.Some? &&
            MatchesLocal(user, ev.config.value) then user
    else ConfigChanged(user, ev, o)
  }

  /** One iteration of etcd_reconcile_sweep. */
  ghost function SweepUser(user: User, u: nat, present: seq<nat>, readAt: nat, o: Outcome): User {
    if user.core.None? || u in present || !SweepMayRemove(user.last, readAt) then user
    else
      var (u', ok) := RemoveCore(user, o);
      if ok then u'.(last := readAt) else u'
  }

  /** What lowering the subscriber count does to a slot that falls outside it. */
  ghost function DisableUser(user: User, o: Outcome): User {
    user.(core := if o.Failed? then o.residue else None, inUse := false)
  }

  ghost function SweepUsers(users: seq<User>, count: nat, present: seq<nat>, readAt: nat,
                            env: seq<Outcome>): (r: seq<User>)
    requires |env| == |users|
    ensures |r| == |users|
    ensures forall i :: 0 <= i < |users| ==>
      r[i] == if i < count then SweepUser(users[i], i, present, readAt, env[i]) else users[i]
  {
    seq(|users|, i requires 0 <= i < |users| =>
      if i < count then SweepUser(users[i], i, present, readAt, env[i]) else users[i])
  }

  ghost function DisableRange(users: seq<User>, lo: nat, hi: nat, env: seq<Outcome>): (r: seq<User>)
    requires |env| == |users|
    ensures |r| == |users|
    ensures forall i :: 0 <= i < |users| ==>
      r[i] == if lo <= i < hi then DisableUser(users[i], env[i]) else users[i]
  {
    seq(|users|, i requires 0 <= i < |users| =>
      if lo <= i < hi then DisableUser(users[i], env[i]) else users[i])
  }

  /** etcd_event_dispatch, specified on values; env[u] answers for subscriber u. */
  ghost function Dispatch(l: Local, ev: Event, env: seq<Outcome>): (l': Local)
    requires WellFormed(l) && |env| == |l.users|
    ensures WellFormed(l') && |l'.users| == |l.users|
  {
    match ev
    case Hsi(u, _, _, _, _, _) =>
      if u >= l.count then l
      else l.(users := l.users[u := HandleHsi(l.users[u], ev, env[u])])
    case Sweep(present, readAt) =>
      l.(users := SweepUsers(l.users, l.count, present, readAt, env))
    case UserCount(n) =>
      if n <= 0 || n > |l.users| then l
      else if n >= l.count then l.(count := n)
      else Local(n, DisableRange(l.users, n, l.count, env))
  }

  /**
   Which events are applied: every live one, a republished one unless it matches,
   a reconcile one unless it is older or matches; and nobody else is touched.
   */
  lemma HsiDispatched(l: Local, ev: Event, env: seq<Outcome>, u: nat)
    requires WellFormed(l) && |env| == |l.users| && u < |l.users| && ev.Hsi?
    ensures var now, user := Dispatch(l, ev, env).users[u], l.users[u];
            && Dispatch(l, ev, env).count == l.count
            && (u != ev.user || u >= l.count ==> now == user)
            && (u == ev.user && u < l.count ==>
                  now == if (ev.fromReconcile && ev.revision < user.last) ||
                            ((ev.fromReconcile || ev.fromRepublish) && ev.action != DELETE && ev.config.Some? &&
                             MatchesLocal(user, ev.config.value))
                         then user else ConfigChanged(user, ev, env[u]))
  {
  }

  /** What a new subscriber count makes of every slot: those that fall out are stopped and cleared, as far as they can be. */
  lemma CountDispatched(l: Local, n: int, env: seq<Outcome>, u: nat)
    requires WellFormed(l) && |env| == |l.users| && u < |l.users|
    ensures var l' := Dispatch(l, UserCount(n), env);
            && l'.count == (if 0 < n <= |l.users| then n else l.count)
            && (0 < n <= u < l.count ==>
                  && !l'.users[u].inUse && l'.users[u].last == l.users[u].last && l'.users[u].ports == l.users[u].ports
                  && l'.users[u].core == if env[u].Failed? then env[u].residue else None)
            && (!(0 < n <= u < l.count) ==> l'.users[u] == l.users[u])
  {
  }

  ghost function DispatchAll(l: Local, evs: seq<Event>, env: seq<Outcome>): (l': Local)
    requires WellFormed(l) && |env| == |l.users|
    ensures WellFormed(l') && |l'.users| == |l.users|
    decreases |evs|
  {
    if evs == [] then l else DispatchAll(Dispatch(l, evs[0], env), evs[1..], env)
  }

  lemma {:induction false} DispatchAllAppend(l: Local, a: seq<Event>, b: seq<Event>, env: seq<Outcome>)
    requires WellFormed(l) && |env| == |l.users|
    ensures DispatchAll(l, a + b, env) == DispatchAll(DispatchAll(l, a, env), b, env)
    decreases |a|
  {
    if a == [] {
      assert a + b == b;
    } else {
      assert (a + b)[0] == a[0] && (a + b)[1..] == a[1..] + b;
      DispatchAllAppend(Dispatch(l, a[0], env), a[1..], b, env);
    }
  }

  // ---- runs ----

  datatype State = State(log: Log, queue: seq<Event>, local: Local)

  datatype Step =
    | Commit(write: Write)                    // someone writes etcd
    | Enqueue(event: Event)                   // a watcher or reconcile thread queues an event
    | DispatchHead(env: seq<Outcome>)         // the control loop takes one event
    | LocalChange(user: nat, becomes: User)   // CLI edits, PPPoE/DHCP start and stop

  ghost predicate Enabled(s: State, st: Step) {
    match st
    case Commit(_) => true
    case Enqueue(ev) => Honest(ev, s.log, |s.local.users|)
    case DispatchHead(env) => s.queue != [] && |env| == |s.local.users| && WellFormed(s.local)
    case LocalChange(u, x) => u < |s.local.users| && x.last == s.local.users[u].last
  }

  ghost function Next(s: State, st: Step): State
    requires Enabled(s, st)
  {
    match st
    case Commit(w) => s.(log := s.log + [w])
    case Enqueue(ev) => s.(queue := s.queue + [ev])
    case DispatchHead(env) =>
      s.(queue := s.queue[1..], local := Dispatch(s.local, s.queue[0], env))
    case LocalChange(u, x) => s.(local := s.local.(users := s.local.users[u := x]))
  }

  ghost predicate ValidRun(s: State, steps: seq<Step>)
    decreases |steps|
  {
    steps == [] || (Enabled(s, steps[0]) && ValidRun(Next(s, steps[0]), steps[1..]))
  }

  ghost function Run(s: State, steps: seq<Step>): State
    requires ValidRun(s, steps)
    decreases |steps|
  {
    if steps == [] then s else Run(Next(s, steps[0]), steps[1..])
  }

  /** Boot: nothing queued, nothing applied from etcd yet. */
  ghost predicate Initial(s: State) {
    s.queue == [] && WellFormed(s.local) &&
    forall u :: 0 <= u < |s.local.users| ==> s.local.users[u].last == 0
  }

  ghost predicate Bounded(l: Local, log: Log) {
    forall u :: 0 <= u < |l.users| ==> l.users[u].last <= Bound(log, u)
  }

  ghost predicate Inv(s: State) {
    && WellFormed(s.local)
    && Bounded(s.local, s.log)
    && forall i :: 0 <= i < |s.queue| ==> Honest(s.queue[i], s.log, |s.local.users|)
  }

  /** Justification by a prefix survives later writes. */
  lemma HonestMonotone(ev: Event, log: Log, w: Write, max: nat)
    requires Honest(ev, log, max)
    ensures Honest(ev, log + [w], max)
  {
    if ev.Sweep? {
      assert (log + [w])[..ev.readAt] == log[..ev.readAt];
    }
  }

  lemma BoundMonotone(log: Log, w: Write, u: nat)
    ensures Bound(log + [w], u) >= Bound(log, u)
  {
    var log' := log + [w];
    assert log'[..|log|] == log;
    if !Touches(w, u) {
      assert LastWrite(log', u) == LastWrite(log, u);
      PrefixAgrees(log', u, |log|);
    }
  }

  /** A user the sweep did not see has, if present now, been written after the sweep's read. */
  lemma SweepReadIsOld(log: Log, present: seq<nat>, readAt: nat, max: nat, u: nat)
    requires HonestSweep(log, present, readAt, max) && u < max && u !in present
    ensures readAt <= Bound(log, u)
  {
    PrefixAgrees(log, u, readAt);
  }

  lemma HonestRevisionBounded(ev: Event, log: Log, max: nat)
    requires ev.Hsi? && Honest(ev, log, max)
    ensures ev.revision <= Bound(log, ev.user)
  {
  }

  lemma DispatchKeepsBound(l: Local, log: Log, ev: Event, env: seq<Outcome>)
    requires WellFormed(l) && |env| == |l.users|
    requires Bounded(l, log) && Honest(ev, log, |l.users|)
    ensures Bounded(Dispatch(l, ev, env), log)
  {
    var l' := Dispatch(l, ev, env);
    forall u | 0 <= u < |l'.users| ensures l'.users[u].last <= Bound(log, u) {
      match ev
      case Hsi(_, _, _, _, _, _) => HonestRevisionBounded(ev, log, |l.users|);
      case Sweep(present, readAt) =>
        if u !in present { SweepReadIsOld(log, present, readAt, |l.users|, u); }
      case UserCount(_) =>
    }
  }

  lemma StepKeepsInv(s: State, st: Step)
    requires Inv(s) && Enabled(s, st)
    ensures Inv(Next(s, st))
  {
    match st
    case Commit(w) =>
      forall u: nat ensures Bound(s.log + [w], u) >= Bound(s.log, u) { BoundMonotone(s.log, w, u); }
      forall i | 0 <= i < |s.queue| ensures Honest(s.queue[i], s.log + [w], |s.local.users|) {
        HonestMonotone(s.queue[i], s.log, w, |s.local.users|);
      }
    case Enqueue(ev) =>
    case DispatchHead(env) => DispatchKeepsBound(s.local, s.log, s.queue[0], env);
    case LocalChange(u, x) =>
  }

  /** In every run, no stored revision is ever newer than its key (or the store, when the key is absent). */
  lemma {:induction false} RunKeepsInv(s: State, steps: seq<Step>)
    requires Inv(s) && ValidRun(s, steps)
    ensures Inv(Run(s, steps))
    decreases |steps|
  {
    if steps == [] {
    } else {
      StepKeepsInv(s, steps[0]);
      RunKeepsInv(Next(s, steps[0]), steps[1..]);
    }
  }

  // ---- healing ----

  /** The local slot says what etcd says. A removed subscriber keeps its port-forward table. */
  ghost predicate Healed(user: User, want: Option<Config>) {
    if want.Some? then
      user.core == Some(Effect(want.value.core)) && user.ports == PortForward.Desired(want.value.ports)
    else user.core == None
  }

  /** The event part of a pass over the keys us. */
  ghost function PassEvents(log: Log, us: seq<nat>): seq<Event> {
    seq(|us|, i requires 0 <= i < |us| => ReconcileEvent(log, us[i]))
  }

  /**
   One full pass read at the current revision: an event for each listed key that
   could be read and queued, then the sweep with the listing, if it was sent.
   */
  ghost function Pass(log: Log, us: seq<nat>, sent: seq<nat>, swept: bool): seq<Event> {
    PassEvents(log, sent) + if swept then [Sweep(us, |log|)] else []
  }

  ghost predicate NoRepeats(us: seq<nat>) {
    forall i, j :: 0 <= i < j < |us| ==> us[i] != us[j]
  }

  /** us is the key listing of a read at the current revision, sent are keys of it that can be read. */
  ghost predicate Listing(log: Log, us: seq<nat>, sent: seq<nat>) {
    && NoRepeats(sent)
    && (forall u :: u in us <==> Present(log, u))
    && (forall u :: u in sent ==> Value(log, u).Some?)
  }

  /** A listing that finds no key at all is answered "key not found", which is no answer, and sends no sweep. */
  ghost predicate SweepRule(us: seq<nat>, answered: bool, swept: bool) {
    (us != [] ==> answered) && (swept ==> answered)
  }

  lemma PassIsHonest(log: Log, us: seq<nat>, sent: seq<nat>, swept: bool, max: nat)
    requires Listing(log, us, sent)
    ensures forall i :: 0 <= i < |Pass(log, us, sent, swept)| ==> Honest(Pass(log, us, sent, swept)[i], log, max)
  {
    assert log[..|log|] == log;
    forall i | 0 <= i < |sent| ensures Honest(ReconcileEvent(log, sent[i]), log, max) {
      assert sent[i] in sent;
    }
  }

  /** The events of a pass touch each listed subscriber below the count once and nobody else. */
  lemma {:induction false} PassEventsEffect(l: Local, log: Log, us: seq<nat>, env: seq<Outcome>, u: nat)
    requires WellFormed(l) && |env| == |l.users| && u < l.count
    requires NoRepeats(us)
    ensures var l' := DispatchAll(l, PassEvents(log, us), env);
            l'.count == l.count &&
            l'.users[u] == if u in us then HandleHsi(l.users[u], ReconcileEvent(log, u), env[u])
                           else l.users[u]
    decreases |us|
  {
    if us == [] {
    } else {
      var evs := PassEvents(log, us);
      assert evs[1..] == PassEvents(log, us[1..]);
      var l1 := Dispatch(l, evs[0], env);
      PassEventsEffect(l1, log, us[1..], env, u);
      if us[0] == u {
        assert u !in us[1..];
      }
    }
  }

  /** What a pass leaves of one subscriber below the count. */
  lemma PassEffect(l: Local, log: Log, us: seq<nat>, sent: seq<nat>, swept: bool, env: seq<Outcome>, u: nat)
    requires WellFormed(l) && |env| == |l.users| && u < l.count
    requires Listing(log, us, sent)
    ensures DispatchAll(l, Pass(log, us, sent, swept), env).users[u] ==
            if u in sent then HandleHsi(l.users[u], ReconcileEvent(log, u), env[u])
            else if swept then SweepUser(l.users[u], u, us, |log|, env[u])
            else l.users[u]
  {
    var evs := PassEvents(log, sent);
    PassEventsEffect(l, log, sent, env, u);
    if swept {
      DispatchAllAppend(l, evs, [Sweep(us, |log|)], env);
      var l1 := DispatchAll(l, evs, env);
      assert [Sweep(us, |log|)][1..] == [];
      assert DispatchAll(l1, [Sweep(us, |log|)], env) == Dispatch(l1, Sweep(us, |log|), env);
      assert u in sent ==> u in us;
    } else {
      assert evs + [] == evs;
    }
  }

  /**
   A pass heals a present subscriber exactly when it already agreed with etcd, or
   its event was queued and the apply goes through. Needs the port list to be readable and free of repeats,
   see RepeatedPortIsNotHealed.
   */
  lemma PassHealsPresent(l: Local, log: Log, us: seq<nat>, sent: seq<nat>, swept: bool, env: seq<Outcome>, u: nat)
    requires WellFormed(l) && |env| == |l.users| && u < l.count
    requires Bounded(l, log) && Listing(log, us, sent) && Value(log, u).Some?
    requires PortForward.AllParse(Value(log, u).value.ports)
    requires PortForward.DistinctEports(Value(log, u).value.ports)
    requires env[u].Failed? ==> env[u].residue != Some(Effect(Value(log, u).value.core))
    ensures Healed(DispatchAll(l, Pass(log, us, sent, swept), env).users[u], Value(log, u)) <==>
            Healed(l.users[u], Value(log, u)) || (u in sent && env[u].Done?)
  {
    var cfg := Value(log, u).value;
    PassEffect(l, log, us, sent, swept, env, u);
    assert RevisionNewest(l.users[u].last, ReconcileEvent(log, u));
    PortForward.CheapMatchSound(l.users[u].ports, cfg.ports);
    PortForward.ReconcileExact(l.users[u].ports, cfg.ports);
  }

  /**
   Without any assumption on the port list: when the apply goes through, a pass
   heals exactly unless the cheap check takes a wrong table for the right one, or
   a stale port is named by unreadable mappings only.
   */
  lemma PassHealsExactly(l: Local, log: Log, us: seq<nat>, sent: seq<nat>, swept: bool, env: seq<Outcome>, u: nat)
    requires WellFormed(l) && |env| == |l.users| && u < l.count
    requires Bounded(l, log) && Listing(log, us, sent) && u in sent && env[u].Done?
    ensures var ports, ms := l.users[u].ports, Value(log, u).value.ports;
            Healed(DispatchAll(l, Pass(log, us, sent, swept), env).users[u], Value(log, u)) <==>
            if MatchesLocal(l.users[u], Value(log, u).value) then ports == PortForward.Desired(ms)
            else forall e :: e in ports && PortForward.Named(ms, e) ==> PortForward.Winner(ms, e) >= 0
  {
    PassEffect(l, log, us, sent, swept, env, u);
    assert RevisionNewest(l.users[u].last, ReconcileEvent(log, u));
    PortForward.ReconcileExactly(l.users[u].ports, Value(log, u).value.ports);
  }

  /** Whatever is in force here, a pass whose apply goes through brings u to what etcd holds. */
  ghost predicate HealsEveryLocalState(log: Log, us: seq<nat>, sent: seq<nat>, swept: bool, u: nat) {
    forall l: Local, env: seq<Outcome> ::
      WellFormed(l) && |env| == |l.users| && u < l.count && Bounded(l, log) && env[u].Done? ==>
        Healed(DispatchAll(l, Pass(log, us, sent, swept), env).users[u], Value(log, u))
  }

  /** A local state that differs from etcd at most in u's port table. */
  lemma StateWithTable(log: Log, u: nat, core: Core, ports: PortForward.Table) returns (l: Local, env: seq<Outcome>)
    ensures WellFormed(l) && |env| == |l.users| && u < l.count && Bounded(l, log)
    ensures env[u].Done? && l.users[u] == User(Some(Effect(core)), ports, false, 0)
  {
    l := Local(u + 1, seq(u + 1, i => User(Some(Effect(core)), ports, false, 0)));
    env := seq(u + 1, i => Done);
  }

  /**
   For which port lists a pass heals every local state: readable lists that do
   not repeat a port with one and the same mapping, and unreadable ones in which
   every port named has a readable mapping.
   */
  lemma PassHealsEveryStateExactly(log: Log, us: seq<nat>, sent: seq<nat>, swept: bool, u: nat)
    requires Listing(log, us, sent) && u in sent
    ensures var ms := Value(log, u).value.ports;
            HealsEveryLocalState(log, us, sent, swept, u) <==>
            if PortForward.AllParse(ms) then !PortForward.Foolable(ms)
            else forall e :: PortForward.Named(ms, e) ==> PortForward.Winner(ms, e) >= 0
  {
    var cfg := Value(log, u).value;
    var ms := cfg.ports;
    if PortForward.AllParse(ms) {
      PortForward.FooledExactly(ms);
      if PortForward.Foolable(ms) {
        var t := PortForward.FoolableIsFooled(ms);
        var l, env := StateWithTable(log, u, cfg.core, t);
        PassHealsExactly(l, log, us, sent, swept, env, u);
        assert MatchesLocal(l.users[u], cfg);
      }
    } else if e: PortForward.Port :| PortForward.Named(ms, e) && PortForward.Winner(ms, e) < 0 {
      var l, env := StateWithTable(log, u, cfg.core, map[e := PortForward.Target(0, 0)]);
      PassHealsExactly(l, log, us, sent, swept, env, u);
      PortForward.CheapMatchNeedsParse(l.users[u].ports, ms);
    }
    forall l: Local, env: seq<Outcome>
      | WellFormed(l) && |env| == |l.users| && u < l.count && Bounded(l, log) && env[u].Done?
      && (if PortForward.AllParse(ms) then !PortForward.Foolable(ms)
          else forall e :: PortForward.Named(ms, e) ==> PortForward.Winner(ms, e) >= 0)
      ensures Healed(DispatchAll(l, Pass(log, us, sent, swept), env).users[u], Value(log, u))
    {
      PassHealsExactly(l, log, us, sent, swept, env, u);
      if !PortForward.AllParse(ms) { PortForward.CheapMatchNeedsParse(l.users[u].ports, ms); }
    }
  }

  /**
   A pass removes a subscriber etcd no longer has exactly when the sweep was
   sent, its PPPoE session and DHCP server are down, and the cleanup works.
   */
  lemma PassHealsAbsent(l: Local, log: Log, us: seq<nat>, sent: seq<nat>, swept: bool, env: seq<Outcome>, u: nat)
    requires WellFormed(l) && |env| == |l.users| && u < l.count
    requires Bounded(l, log) && Listing(log, us, sent) && !Present(log, u)
    ensures Healed(DispatchAll(l, Pass(log, us, sent, swept), env).users[u], None) <==>
            l.users[u].core.None? ||
            (swept && !l.users[u].inUse && (env[u].Failed? ==> env[u].residue.None?))
  {
    PassEffect(l, log, us, sent, swept, env, u);
    assert SweepMayRemove(l.users[u].last, |log|);
  }

  /** A subscriber whose value cannot be read is left alone. */
  lemma UnreadableIsLeftAlone(l: Local, log: Log, us: seq<nat>, sent: seq<nat>, swept: bool, env: seq<Outcome>, u: nat)
    requires WellFormed(l) && |env| == |l.users| && u < l.count
    requires Listing(log, us, sent) && Present(log, u) && Value(log, u).None?
    ensures DispatchAll(l, Pass(log, us, sent, swept), env).users[u] == l.users[u]
  {
    PassEffect(l, log, us, sent, swept, env, u);
  }

  /** Every apply succeeds and no subscriber etcd dropped is still in use. */
  ghost predicate Cooperative(l: Local, log: Log, env: seq<Outcome>)
    requires WellFormed(l) && |env| == |l.users|
  {
    forall u :: 0 <= u < l.count ==>
      env[u].Done? && (!Present(log, u) ==> !l.users[u].inUse)
  }

  ghost predicate ReadablePorts(log: Log, max: nat) {
    forall u :: 0 <= u < max && Value(log, u).Some? ==>
      PortForward.AllParse(Value(log, u).value.ports) &&
      !PortForward.Foolable(Value(log, u).value.ports)
  }

  lemma {:induction false} DispatchAllKeepsBound(l: Local, log: Log, evs: seq<Event>, env: seq<Outcome>)
    requires WellFormed(l) && |env| == |l.users| && Bounded(l, log)
    requires forall i :: 0 <= i < |evs| ==> Honest(evs[i], log, |l.users|)
    ensures Bounded(DispatchAll(l, evs, env), log)
    decreases |evs|
  {
    if evs == [] {
    } else {
      DispatchKeepsBound(l, log, evs[0], env);
      DispatchAllKeepsBound(Dispatch(l, evs[0], env), log, evs[1..], env);
    }
  }

  /** u agrees with etcd: with what its key holds, or by not being configured when there is no key. */
  ghost predicate Agrees(user: User, log: Log, u: nat) {
    if Present(log, u) then Value(log, u).Some? && Healed(user, Value(log, u)) else Healed(user, None)
  }

  /**
   Reconcile heals everything: after any run from boot, once what is queued is
   handled and one full pass read at the current revision follows with nothing
   else interfering, a subscriber below the count agrees with etcd exactly if it
   did before, or its key could be read and its event was queued, or its key is
   gone and the sweep was sent.
   */
  lemma {:induction false} ReconcileHeals(s0: State, steps: seq<Step>, us: seq<nat>, sent: seq<nat>, swept: bool,
                                          envQueue: seq<Outcome>, envPass: seq<Outcome>, u: nat)
    requires Initial(s0) && ValidRun(s0, steps)
    requires var s := Run(s0, steps);
             && |envQueue| == |s.local.users| && |envPass| == |s.local.users|
             && WellFormed(s.local)
             && Listing(s.log, us, sent)
             && ReadablePorts(s.log, |s.local.users|)
             && Cooperative(DispatchAll(s.local, s.queue, envQueue), s.log, envPass)
             && u < DispatchAll(s.local, s.queue, envQueue).count
    ensures var s := Run(s0, steps);
            var l := DispatchAll(s.local, s.queue, envQueue);
            Agrees(DispatchAll(l, Pass(s.log, us, sent, swept), envPass).users[u], s.log, u) <==>
              Agrees(l.users[u], s.log, u) || u in sent || (!Present(s.log, u) && swept)
  {
    RunKeepsInv(s0, steps);
    var s := Run(s0, steps);
    DispatchAllKeepsBound(s.local, s.log, s.queue, envQueue);
    PassAgrees(DispatchAll(s.local, s.queue, envQueue), s.log, us, sent, swept, envPass, u);
  }

  lemma PassAgrees(l: Local, log: Log, us: seq<nat>, sent: seq<nat>, swept: bool, env: seq<Outcome>, u: nat)
    requires WellFormed(l) && |env| == |l.users| && u < l.count && Bounded(l, log)
    requires Listing(log, us, sent) && ReadablePorts(log, |l.users|) && Cooperative(l, log, env)
    ensures Agrees(DispatchAll(l, Pass(log, us, sent, swept), env).users[u], log, u) <==>
              Agrees(l.users[u], log, u) || u in sent || (!Present(log, u) && swept)
  {
    if !Present(log, u) {
      PassHealsAbsent(l, log, us, sent, swept, env, u);
      assert u !in sent;
    } else if u in sent {
      assert PortForward.AllParse(Value(log, u).value.ports);
      PassHealsExactly(l, log, us, sent, swept, env, u);
      PortForward.FooledExactly(Value(log, u).value.ports);
    } else {
      PassEffect(l, log, us, sent, swept, env, u);
    }
  }

  /** One subscriber, configured from the only key ever written. */
  ghost predicate ConfiguredFrom(s: State, cfg: Config) {
    && s.log == [Put(0, Some(cfg))] && s.queue == [] && s.local.count == |s.local.users| == 1
    && s.local.users[0].core == Some(Effect(cfg.core)) && !s.local.users[0].inUse
  }

  lemma Configure(cfg: Config) returns (s0: State, steps: seq<Step>)
    ensures Initial(s0) && ValidRun(s0, steps) && ConfiguredFrom(Run(s0, steps), cfg)
  {
    s0 := State([], [], Local(1, [User(None, map[], false, 0)]));
    var ev := Hsi(0, CREATE, Some(cfg), 1, false, false);
    var s1 := Next(s0, Commit(Put(0, Some(cfg))));
    assert s1.log == [Put(0, Some(cfg))];
    var s2 := Next(s1, Enqueue(ev));
    assert s2.queue == [ev] && s2.local == s0.local;
    var s3 := Next(s2, DispatchHead([Done]));
    assert ConfiguredFrom(s3, cfg) && Run(s3, []) == s3;
    steps := [DispatchHead([Done])] + [];
    Prepend(s2, DispatchHead([Done]), []);
    Prepend(s1, Enqueue(ev), steps);
    steps := [Enqueue(ev)] + steps;
    Prepend(s0, Commit(Put(0, Some(cfg))), steps);
    steps := [Commit(Put(0, Some(cfg)))] + steps;
  }

  /** The key is gone, the subscriber still configured and idle, and a pass, which may send no sweep, leaves it so. */
  ghost predicate EmptiedUnhealed(s: State, cfg: Config) {
    && s.queue == [] && s.local.count == |s.local.users| == 1
    && Listing(s.log, [], []) && !Present(s.log, 0)
    && s.local.users[0].core == Some(Effect(cfg.core)) && !s.local.users[0].inUse
    && !SweepRule([], false, true) && SweepRule([], false, false)
    && !Agrees(DispatchAll(s.local, Pass(s.log, [], [], false), [Done]).users[0], s.log, 0)
  }

  lemma DeletedUnhealed(s: State, cfg: Config)
    requires ConfiguredFrom(s, cfg)
    ensures EmptiedUnhealed(Next(s, Commit(Delete(0))), cfg)
  {
    var log := [Put(0, Some(cfg)), Delete(0)];
    assert [Put(0, Some(cfg))] + [Delete(0)] == log;
    NothingListed(cfg);
    NoKeysNoPass(s.local, log, [Done]);
    IdleButConfigured(s.local.users[0], log);
  }

  lemma NothingListed(cfg: Config)
    ensures var log := [Put(0, Some(cfg)), Delete(0)]; Listing(log, [], []) && !Present(log, 0)
  {
    NothingLeft(cfg);
  }

  lemma IdleButConfigured(user: User, log: Log)
    requires user.core.Some? && !Present(log, 0)
    ensures !Agrees(user, log, 0)
  {
  }

  /**
   Etcd emptied while the live event is lost: after a run that configured the
   subscriber and the deletion of its key, the next pass sees no key, sends no
   sweep and removes nobody.
   */
  lemma EmptiedEtcdIsNotHealed(cfg: Config) returns (s0: State, steps: seq<Step>)
    ensures Initial(s0) && ValidRun(s0, steps) && Enabled(Run(s0, steps), Commit(Delete(0)))
    ensures EmptiedUnhealed(Next(Run(s0, steps), Commit(Delete(0))), cfg)
  {
    s0, steps := Configure(cfg);
    DeletedUnhealed(Run(s0, steps), cfg);
  }

  lemma NothingLeft(cfg: Config)
    ensures forall u: nat :: !Present([Put(0, Some(cfg)), Delete(0)], u)
  {
    var log := [Put(0, Some(cfg)), Delete(0)];
    assert log[..1] == [Put(0, Some(cfg))] && log[..1][..0] == [];
    assert LastWrite(log, 0) == 2;
    forall u: nat ensures !Present(log, u) {}
  }

  lemma NoKeysNoPass(l: Local, log: Log, env: seq<Outcome>)
    requires WellFormed(l) && |env| == |l.users|
    ensures DispatchAll(l, Pass(log, [], [], false), env) == l
  {
    assert Pass(log, [], [], false) == [];
  }

  lemma Prepend(s: State, st: Step, rest: seq<Step>)
    requires Enabled(s, st) && ValidRun(Next(s, st), rest)
    ensures ValidRun(s, [st] + rest) && Run(s, [st] + rest) == Run(Next(s, st), rest)
  {
    assert ([st] + rest)[1..] == rest;
  }

  /** With a repeated port the pass can take a wrong table for the right one and stop there. */
  lemma RepeatedPortIsNotHealed(core: Core)
    ensures var m := PortForward.Mapping(80, Some(1), 8080);
            var log := [Put(0, Some(Config(core, [m, m])))];
            var stale: PortForward.Table :=
              map[80 := PortForward.Target(1, 8080), 81 := PortForward.Target(2, 9090)];
            var l := Local(1, [User(Some(Effect(core)), stale, false, 1)]);
            !Healed(DispatchAll(l, Pass(log, [0], [0], true), [Done]).users[0], Value(log, 0))
  {
    var m := PortForward.Mapping(80, Some(1), 8080);
    var cfg := Config(core, [m, m]);
    var log := [Put(0, Some(cfg))];
    var stale: PortForward.Table :=
      map[80 := PortForward.Target(1, 8080), 81 := PortForward.Target(2, 9090)];
    var l := Local(1, [User(Some(Effect(core)), stale, false, 1)]);
    PortForward.CheapMatchFooledByDuplicate();
    assert LastWrite(log, 0) == 1;
    forall u: nat ensures u in [0] <==> Present(log, u) {}
    PassEffect(l, log, [0], [0], true, [Done], 0);
    assert MatchesLocal(l.users[0], cfg);
  }

  // ---- live events alone ----

  /** The watch event of write r to u's key: a put of an absent key is a CREATE. */
  ghost function LiveEvent(log: Log, u: nat, r: nat): Event
    requires 0 < r <= |log| && Touches(log[r - 1], u)
  {
    var w := log[r - 1];
    if w.Delete? then Hsi(u, DELETE, None, r, false, false)
    else Hsi(u, if Present(log[..r - 1], u) then UPDATE else CREATE, w.config, r, false, false)
  }

  /** No port of the table is left to unreadable mappings. */
  ghost predicate LeavesNothing(ports: PortForward.Table, ms: seq<PortForward.Mapping>) {
    forall e :: e in ports && PortForward.Named(ms, e) ==> PortForward.Winner(ms, e) >= 0
  }

  /**
   When one live event that goes through leaves its subscriber as etcd says: a
   delete, always unless a service runs; a put, unless it is a CREATE on a running
   subscriber that holds something else, or brings an empty port list over a table
   that is not, or leaves stale ports to unreadable mappings.
   */
  lemma LiveEventHealsExactly(user: User, log: Log, u: nat, r: nat)
    requires 0 < r <= |log| && Touches(log[r - 1], u) && r == LastWrite(log, u)
    requires log[r - 1].Put? ==> log[r - 1].config.Some?
    ensures var ev := LiveEvent(log, u, r);
            Agrees(ConfigChanged(user, ev, Done), log, u) <==>
            if ev.action == DELETE then user.core.None? || !user.inUse
            else
              var cfg := ev.config.value;
              && (ev.action == CREATE && user.inUse ==> user.core == Some(Effect(cfg.core)))
              && (if ev.action == CREATE && cfg.ports == [] then user.ports == map[]
                  else LeavesNothing(user.ports, cfg.ports))
  {
    var ev := LiveEvent(log, u, r);
    if ev.action != DELETE {
      PortForward.ReconcileExactly(user.ports, ev.config.value.ports);
      assert PortForward.Desired([]) == map[];
    }
  }

  /** Every write of u delivered live, in order, each applied with success. */
  ghost function Delivered(user: User, log: Log, u: nat): User {
    if log == [] then user
    else
      var before := Delivered(user, log[..|log| - 1], u);
      if Touches(log[|log| - 1], u) then ConfigChanged(before, LiveEvent(log, u, |log|), Done) else before
  }

  ghost predicate ReadableLog(log: Log, u: nat) {
    forall i :: 0 <= i < |log| && log[i].Put? && log[i].user == u ==>
      log[i].config.Some? && PortForward.AllParse(log[i].config.value.ports)
  }

  /** The port table in-order delivery leads to, told from the log: a CREATE without ports inherits the one before. */
  ghost function Inherited(ports: PortForward.Table, log: Log, u: nat): PortForward.Table
    requires ReadableLog(log, u)
  {
    if log == [] then ports
    else
      var n := |log| - 1;
      ReadablePrefix(log, u);
      var before := Inherited(ports, log[..n], u);
      if !Touches(log[n], u) || log[n].Delete? then before
      else
        var ms := log[n].config.value.ports;
        if ms == [] && !Present(log[..n], u) then before else PortForward.Desired(ms)
  }

  lemma ReadablePrefix(log: Log, u: nat)
    requires ReadableLog(log, u) && log != []
    ensures ReadableLog(log[..|log| - 1], u)
  {
    assert forall i :: 0 <= i < |log| - 1 ==> log[..|log| - 1][i] == log[i];
  }

  lemma PresentSnoc(log: Log, u: nat)
    requires log != []
    ensures var w := log[|log| - 1];
            && Present(log, u) == (if Touches(w, u) then w.Put? else Present(log[..|log| - 1], u))
            && Value(log, u) == (if Touches(w, u) then (if w.Put? then w.config else None) else Value(log[..|log| - 1], u))
  {
    var n := |log| - 1;
    if !Touches(log[n], u) { PrefixAgrees(log, u, n); }
  }

  lemma {:induction false} DeliveredIs(user: User, log: Log, u: nat)
    requires user.core.None? && !user.inUse && ReadableLog(log, u)
    ensures var d := Delivered(user, log, u);
            && !d.inUse && d.ports == Inherited(user.ports, log, u)
            && d.core == (if Present(log, u) && Value(log, u).Some? then Some(Effect(Value(log, u).value.core)) else None)
            && (Present(log, u) ==> Value(log, u).Some?)
  {
    if log == [] {
    } else {
      var n := |log| - 1;
      ReadablePrefix(log, u);
      DeliveredIs(user, log[..n], u);
      PresentSnoc(log, u);
      if Touches(log[n], u) && log[n].Put? {
        PortForward.ReconcileExact(Inherited(user.ports, log[..n], u), log[n].config.value.ports);
      }
    }
  }

  /** Writes that do not touch u inherit nothing new. */
  lemma {:induction false} InheritedAtLastWrite(ports: PortForward.Table, log: Log, u: nat)
    requires ReadableLog(log, u)
    ensures var r := LastWrite(log, u);
            ReadableLog(log[..r], u) && Inherited(ports, log, u) == Inherited(ports, log[..r], u)
  {
    var r := LastWrite(log, u);
    if log == [] {
      assert log[..r] == log;
    } else if Touches(log[|log| - 1], u) {
      assert log[..r] == log;
    } else {
      ReadablePrefix(log, u);
      InheritedAtLastWrite(ports, log[..|log| - 1], u);
      assert log[..|log| - 1][..r] == log[..r];
    }
  }

  /** The last write created the subscriber without ports, over a table that earlier writes left. */
  ghost predicate BornOverOldTable(ports: PortForward.Table, log: Log, u: nat)
    requires ReadableLog(log, u)
  {
    Present(log, u) &&
    var r := LastWrite(log, u);
    && log[r - 1].config.value.ports == [] && !Present(log[..r - 1], u)
    && ReadableLog(log[..r - 1], u) && Inherited(ports, log[..r - 1], u) != map[]
  }

  /**
   Complete, in-order delivery to an idle subscriber converges without any pass,
   exactly unless the subscriber was last created without ports over a table that
   an earlier life left behind: no event clears that.
   */
  lemma InOrderDeliveryConvergesExactly(user: User, log: Log, u: nat)
    requires user.core.None? && !user.inUse && ReadableLog(log, u)
    ensures Agrees(Delivered(user, log, u), log, u) <==> !BornOverOldTable(user.ports, log, u)
  {
    DeliveredIs(user, log, u);
    InheritedAtLastWrite(user.ports, log, u);
    if Present(log, u) {
      var r := LastWrite(log, u);
      ReadablePrefix(log[..r], u);
      assert log[..r][..r - 1] == log[..r - 1] && log[..r][r - 1] == log[r - 1];
      assert PortForward.Desired([]) == map[];
    }
  }

  /** Forwards survive the subscriber: created with one, deleted, and created again without any. */
  lemma ForwardsOutliveTheSubscriber(core: Core)
    ensures var m := PortForward.Mapping(80, Some(1), 8080);
            var log := [Put(0, Some(Config(core, [m]))), Delete(0), Put(0, Some(Config(core, [])))];
            ReadableLog(log, 0) && !Agrees(Delivered(User(None, map[], false, 0), log, 0), log, 0)
  {
    var m := PortForward.Mapping(80, Some(1), 8080);
    var first := [Put(0, Some(Config(core, [m])))];
    var second := first + [Delete(0)];
    var log := second + [Put(0, Some(Config(core, [])))];
    assert log == [Put(0, Some(Config(core, [m]))), Delete(0), Put(0, Some(Config(core, [])))];
    assert log[..2] == second && second[..1] == first && first[..0] == [];
    assert PortForward.AllParse([m]) && ReadableLog(first, 0) && ReadableLog(second, 0) && ReadableLog(log, 0);
    PresentSnoc(second, 0);
    PortForward.DesiredKeys([m]);
    assert 80 in PortForward.Eports([m]) by { assert [m][0].eport == 80; }
    assert Inherited(map[], first, 0) == PortForward.Desired([m]);
    assert Inherited(map[], second, 0) == Inherited(map[], first, 0);
    assert LastWrite(log, 0) == 3;
    assert BornOverOldTable(map[], log, 0);
    InOrderDeliveryConvergesExactly(User(None, map[], false, 0), log, 0);
  }

  // ---- no rollback ----

  /** Events the periodic pass produces, read at a real revision. */
  ghost predicate FromReconcile(ev: Event) {
    (ev.Hsi? && ev.fromReconcile) || (ev.Sweep? && ev.readAt > 0)
  }

  ghost function ReadRevision(ev: Event): nat
    requires FromReconcile(ev)
  {
    if ev.Hsi? then ev.revision else ev.readAt
  }

  /** A delayed reconcile event or sweep leaves every subscriber with newer state untouched. */
  lemma DelayedReconcileLeavesNewer(l: Local, ev: Event, env: seq<Outcome>, u: nat)
    requires WellFormed(l) && |env| == |l.users| && u < |l.users|
    requires FromReconcile(ev) && l.users[u].last > ReadRevision(ev)
    ensures Dispatch(l, ev, env).users[u] == l.users[u]
  {
  }

  /** Over any sequence of reconcile events stored revisions never go down. */
  lemma {:induction false} ReconcileNeverRollsBack(l: Local, evs: seq<Event>, env: seq<Outcome>, u: nat)
    requires WellFormed(l) && |env| == |l.users| && u < |l.users|
    requires forall i :: 0 <= i < |evs| ==> FromReconcile(evs[i])
    ensures DispatchAll(l, evs, env).users[u].last >= l.users[u].last
    decreases |evs|
  {
    if evs == [] {
    } else {
      ReconcileNeverRollsBack(Dispatch(l, evs[0], env), evs[1..], env, u);
    }
  }

  /**
   Exactly which events move a stored revision back: a live or republished event
   that is applied with an older revision, or a sweep without a revision.
   */
  lemma RollbackExactly(l: Local, ev: Event, env: seq<Outcome>, u: nat)
    requires WellFormed(l) && |env| == |l.users| && u < l.count
    ensures Dispatch(l, ev, env).users[u].last < l.users[u].last <==>
            match ev
            case Hsi(v, action, cfg, rev, rec, rep) =>
              && v == u && !rec && rev < l.users[u].last
              && !(rep && action != DELETE && cfg.Some? && MatchesLocal(l.users[u], cfg.value))
              && (if action == DELETE then l.users[u].core.Some? && !l.users[u].inUse
                  else cfg.Some? && !env[u].Invalid? && (env[u].Done? || (action == CREATE && l.users[u].inUse)))
            case Sweep(present, readAt) =>
              && readAt == 0 && l.users[u].last > 0 && u !in present
              && l.users[u].core.Some? && !l.users[u].inUse
            case UserCount(_) => false
  {
  }

  /** A republished read that is overtaken by a newer live event does roll that subscriber back. */
  lemma RepublishCanRollBack(old_: Config, new_: Config)
    requires Effect(old_.core) != Effect(new_.core)
    ensures var log := [Put(0, Some(old_)), Put(0, Some(new_))];
            var l := Local(1, [User(Some(Effect(new_.core)), PortForward.Desired(new_.ports), false, 2)]);
            var ev := Hsi(0, UPDATE, Some(old_), 1, false, true);
            Honest(ev, log, 1) && Dispatch(l, ev, [Done]).users[0].last == 1 &&
            Dispatch(l, ev, [Done]).users[0].core == Some(Effect(old_.core))
  {
  }

  /** A CREATE for a running subscriber is reported applied and its revision stored, but nothing is applied. */
  lemma CreateOnRunningUserOnlyStampsRevision(user: User, ev: Event, o: Outcome)
    requires ev.Hsi? && ev.action == CREATE && ev.config.Some? && ev.config.value.ports == []
    requires user.inUse && !o.Invalid? && !ev.fromReconcile && !ev.fromRepublish
    ensures HandleHsi(user, ev, o) == user.(last := ev.revision)
  {
  }

  // ---- the control loop itself ----

  /** What the control thread keeps of a subscriber beside its port-forward table. */
  datatype Slot = Slot(core: Option<InForce>, inUse: bool, last: nat)

  /** What one turn of the sweep makes of a slot. */
  ghost predicate SweptSlot(was: Slot, listed: bool, readAt: nat, o: Outcome, now: Slot) {
    now ==
    if !listed && was.core.Some? && !was.inUse && (was.last == 0 || readAt == 0 || was.last <= readAt)
    then Slot(if o.Failed? then o.residue else None, false, readAt)
    else was
  }

  /** The state the control thread owns. */
  class ControlLoop {
    var userCount: nat
    const slots: array<Slot>
    const tables: seq<array<PortForward.Entry>>

    ghost predicate Valid()
      reads this
    {
      && userCount <= slots.Length == |tables|
      && (forall u :: 0 <= u < |tables| ==> tables[u].Length == PortForward.PORT_FWD_TABLE_SIZE)
      && (forall u, v :: 0 <= u < v < |tables| ==> tables[u] != tables[v])
    }

    ghost function UserAt(u: nat): User
      reads this, slots, tables
      requires u < slots.Length == |tables|
    {
      User(slots[u].core, PortForward.Contents(tables[u][..]), slots[u].inUse, slots[u].last)
    }

    ghost function Users(): (r: seq<User>)
      reads this, slots, tables
      requires slots.Length == |tables|
      ensures |r| == slots.Length && forall u :: 0 <= u < |r| ==> r[u] == UserAt(u)
    {
      seq(slots.Length, u requires 0 <= u < slots.Length == |tables| reads this, slots, tables => UserAt(u))
    }

    ghost function View(): Local
      reads this, slots, tables
      requires Valid()
    {
      Local(userCount, Users())
    }

    constructor (max: nat)
      ensures Valid() && userCount == 0 && slots.Length == max && fresh(slots)
      ensures forall u :: 0 <= u < max ==> fresh(tables[u]) && UserAt(u) == User(None, map[], false, 0)
    {
      var s := new Slot[max](_ => Slot(None, false, 0));
      var ts: seq<array<PortForward.Entry>> := [];
      var i := 0;
      while i < max
        invariant 0 <= i <= max && |ts| == i
        invariant forall u :: 0 <= u < i ==> fresh(ts[u]) && ts[u].Length == PortForward.PORT_FWD_TABLE_SIZE
        invariant forall u :: 0 <= u < i ==> PortForward.Contents(ts[u][..]) == map[]
        invariant forall u, v :: 0 <= u < v < i ==> ts[u] != ts[v]
        invariant forall u :: 0 <= u < max ==> s[u] == Slot(None, false, 0)
      {
        var a := new PortForward.Entry[PortForward.PORT_FWD_TABLE_SIZE](_ => PortForward.Inactive);
        assert PortForward.Contents(a[..]) == map[];
        ts := ts + [a];
        i := i + 1;
      }
      userCount, slots, tables := 0, s, ts;
    }

    /** The inner search of the sweep. */
    static method IsPresent(present: seq<nat>, u: nat) returns (inEtcd: bool)
      ensures inEtcd <==> u in present
    {
      inEtcd := false;
      var i := 0;
      while i < |present|
        invariant 0 <= i <= |present|
        invariant !inEtcd && u !in present[..i]
      {
        if present[i] == u { return true; }
        i := i + 1;
      }
      assert present[..|present|] == present;
    }

    /** northbound.c remove_hsi_config */
    method RemoveHsiConfig(u: nat, o: Outcome) returns (ok: bool)
      requires Valid() && u < userCount
      modifies slots
      ensures (UserAt(u), ok) == RemoveCore(old(UserAt(u)), o)
      ensures ok <==> old(slots[u].core.Some? && !slots[u].inUse)
      ensures slots[u].inUse == old(slots[u].inUse) && slots[u].last == old(slots[u].last)
      ensures slots[u].core == if !ok then old(slots[u].core) else if o.Failed? then o.residue else None
      ensures forall v :: 0 <= v < slots.Length && v != u ==> slots[v] == old(slots[v])
    {
      if slots[u].core.None? { return false; }
      if slots[u].inUse { return false; }
      slots[u] := slots[u].(core := if o.Failed? then o.residue else None);
      ok := true;
    }

    /** One turn of the sweep. */
    method SweepOne(u: nat, present: seq<nat>, readAt: nat, o: Outcome)
      requires Valid() && u < userCount
      modifies slots
      ensures UserAt(u) == SweepUser(old(UserAt(u)), u, present, readAt, o)
      ensures SweptSlot(old(slots[u]), u in present, readAt, o, slots[u])
      ensures forall v :: 0 <= v < slots.Length && v != u ==> slots[v] == old(slots[v])
    {
      if slots[u].core.None? { return; }
      var inEtcd := IsPresent(present, u);
      if !inEtcd && SweepMayRemove(slots[u].last, readAt) {
        var ok := RemoveHsiConfig(u, o);
        if ok { slots[u] := slots[u].(last := readAt); }
      }
    }

    /** etcd_integration.c etcd_reconcile_sweep */
    method ReconcileSweep(present: seq<nat>, readAt: nat, env: seq<Outcome>)
      requires Valid() && |env| == slots.Length
      modifies slots
      ensures Valid() && View() == Dispatch(old(View()), Sweep(present, readAt), env)
      ensures forall u :: 0 <= u < slots.Length ==>
        if u < userCount && u !in present && old(slots[u]).core.Some? && !old(slots[u]).inUse
           && (old(slots[u]).last == 0 || readAt == 0 || old(slots[u]).last <= readAt)
        then slots[u] == Slot(if env[u].Failed? then env[u].residue else None, false, readAt)
        else slots[u] == old(slots[u])
    {
      var u := 0;
      while u < userCount
        invariant 0 <= u <= userCount
        invariant forall v :: 0 <= v < u ==> UserAt(v) == SweepUser(old(UserAt(v)), v, present, readAt, env[v])
        invariant forall v :: u <= v < slots.Length ==> slots[v] == old(slots[v])
        invariant forall v :: 0 <= v < u ==> SweptSlot(old(slots[v]), v in present, readAt, env[v], slots[v])
      {
        assert UserAt(u) == old(UserAt(u));
        SweepOne(u, present, readAt, env[u]);
        u := u + 1;
      }
      assert forall v :: userCount <= v < slots.Length ==> UserAt(v) == old(UserAt(v));
    }

    /** etcd_integration.c user_count_changed_callback */
    method UserCountChanged(n: int, env: seq<Outcome>)
      requires Valid() && |env| == slots.Length
      modifies this`userCount, slots
      ensures Valid() && View() == Dispatch(old(View()), UserCount(n), env)
      ensures userCount == if 0 < n <= slots.Length then n else old(userCount)
      ensures forall u :: 0 <= u < slots.Length ==>
        if 0 < n <= u < old(userCount) then
          && !slots[u].inUse && slots[u].last == old(slots[u]).last
          && slots[u].core == if env[u].Failed? then env[u].residue else None
        else slots[u] == old(slots[u])
    {
      if n <= 0 || n > slots.Length { return; }
      if n == userCount { return; }
      if n > userCount {
        userCount := n;
        return;
      }
      var u, top := userCount, userCount;
      userCount := n;
      while u > n
        invariant n <= u <= top && userCount == n
        invariant forall v :: u <= v < top ==> UserAt(v) == DisableUser(old(UserAt(v)), env[v])
        invariant forall v :: u <= v < top ==>
          slots[v] == Slot(if env[v].Failed? then env[v].residue else None, false, old(slots[v]).last)
        invariant forall v :: 0 <= v < slots.Length && !(u <= v < top) ==> slots[v] == old(slots[v])
      {
        u := u - 1;
        assert UserAt(u) == old(UserAt(u));
        slots[u] := slots[u].(core := if env[u].Failed? then env[u].residue else None, inUse := false);
      }
      assert forall v :: 0 <= v < slots.Length && !(n <= v < top) ==> UserAt(v) == old(UserAt(v));
    }

    /** northbound.c apply_hsi_config, reduced to the three ways it can end. */
    method ApplyHsiConfig(u: nat, cfg: Config, isUpdate: bool, o: Outcome) returns (ok: bool)
      requires Valid() && u < userCount
      modifies slots
      ensures (UserAt(u), ok) == ApplyCore(old(UserAt(u)), cfg, isUpdate, o)
      ensures ok <==> !o.Invalid? && (o.Done? || (!isUpdate && old(slots[u].inUse)))
      ensures slots[u].inUse == old(slots[u].inUse) && slots[u].last == old(slots[u].last)
      ensures o.Invalid? || (!isUpdate && old(slots[u].inUse)) ==> slots[u] == old(slots[u])
      ensures !ok && o.Failed? ==> slots[u].core == o.residue
      ensures ok && (isUpdate || !old(slots[u].inUse)) ==> slots[u].core.Some? && Took(slots[u].core.value, cfg.core)
      ensures forall v :: 0 <= v < slots.Length && v != u ==> slots[v] == old(slots[v])
    {
      if o.Invalid? { return false; }
      if !isUpdate && slots[u].inUse { return true; }
      if o.Failed? {
        slots[u] := slots[u].(core := o.residue);
        return false;
      }
      slots[u] := slots[u].(core := Some(Effect(cfg.core)));
      ok := true;
    }

    /** etcd_integration.c hsi_config_changed_callback, past the id check; the ports go through the in-place reconcile. */
    method HsiConfigChanged(ev: Event, o: Outcome)
      requires Valid() && ev.Hsi? && ev.user < userCount
      modifies slots, tables[ev.user]
      ensures UserAt(ev.user) == ConfigChanged(old(UserAt(ev.user)), ev, o)
      ensures ev.action == DELETE ==>
        var was, removed := old(slots[ev.user]), old(slots[ev.user].core.Some? && !slots[ev.user].inUse);
        && slots[ev.user] == (if removed then Slot(if o.Failed? then o.residue else None, false, ev.revision) else was)
        && tables[ev.user][..] == old(tables[ev.user][..])
      ensures ev.action != DELETE && ev.config.Some? ==>
        var was, cfg, now := old(slots[ev.user]), ev.config.value, slots[ev.user];
        var skipped := ev.action == CREATE && was.inUse;
        var ok := !o.Invalid? && (o.Done? || skipped);
        && now.inUse == was.inUse && now.last == (if ok then ev.revision else was.last)
        && (ok && !skipped ==> now.core.Some? && Took(now.core.value, cfg.core))
        && (ok && skipped ==> now.core == was.core)
        && (ok && PortForward.AllParse(cfg.ports) && (cfg.ports != [] || ev.action == UPDATE) ==>
              PortForward.Contents(tables[ev.user][..]) == PortForward.Desired(cfg.ports))
        && (!ok || (cfg.ports == [] && ev.action == CREATE) ==> tables[ev.user][..] == old(tables[ev.user][..]))
      ensures forall v :: 0 <= v < slots.Length && v != ev.user ==> slots[v] == old(slots[v])
    {
      var u := ev.user;
      if ev.action == DELETE {
        var ok := RemoveHsiConfig(u, o);
        if ok { slots[u] := slots[u].(last := ev.revision); }
        return;
      }
      if ev.config.None? { return; }
      var cfg := ev.config.value;
      var ok := ApplyHsiConfig(u, cfg, ev.action == UPDATE, o);
      if ok {
        if |cfg.ports| > 0 || ev.action == UPDATE {
          var _ := PortForward.ReconcilePortMapping(tables[u], cfg.ports);
        }
        slots[u] := slots[u].(last := ev.revision);
      }
    }

    /** hsi_config_matches_local */
    method HsiConfigMatchesLocal(u: nat, cfg: Config) returns (same: bool)
      requires Valid() && u < userCount
      ensures same <==> MatchesLocal(UserAt(u), cfg)
      ensures same ==> slots[u].core.Some? && Took(slots[u].core.value, cfg.core)
      ensures slots[u].core.None? || !Took(slots[u].core.value, cfg.core) ==> !same
    {
      if slots[u].core.None? { return false; }
      var mine, want := slots[u].core.value, cfg.core;
      if mine.vlan != want.vlan { return false; }
      if mine.account != want.account || mine.password != want.password { return false; }
      if mine.gateway != want.gateway || mine.subnet != want.subnet { return false; }
      var expectedLen := if want.poolEnd >= want.poolStart then want.poolEnd - want.poolStart + 1
                         else want.poolStart - want.poolEnd + 1;
      if mine.poolLen != expectedLen { return false; }
      if mine.poolFirst != want.poolStart { return false; }
      if mine.dnsProxy != want.dnsProxy || mine.tcpConntrack != want.tcpConntrack || mine.ipv6 != want.ipv6 {
        return false;
      }
      same := PortForward.PortMappingsMatch(tables[u], cfg.ports);
    }

    /** etcd_integration.c etcd_event_dispatch: the loop refines Dispatch. */
    method EventDispatch(ev: Event, env: seq<Outcome>)
      requires Valid() && |env| == slots.Length
      modifies this`userCount, slots, set u | 0 <= u < |tables| :: tables[u]
      ensures Valid() && View() == Dispatch(old(View()), ev, env)
    {
      match ev
      case Sweep(present, readAt) => ReconcileSweep(present, readAt, env);
      case UserCount(n) => UserCountChanged(n, env);
      case Hsi(u, action, config, revision, fromReconcile, fromRepublish) =>
        if fromReconcile && u >= userCount { return; }
        if u >= userCount { return; }
        DispatchHsi(ev, env[u]);
        assert forall v :: 0 <= v < slots.Length && v != u ==> UserAt(v) == old(UserAt(v));
    }

    /** The ETCD_EVENT_HSI branch for a subscriber below the count: gate, comparison, callback. */
    method DispatchHsi(ev: Event, o: Outcome)
      requires Valid() && ev.Hsi? && ev.user < userCount
      modifies slots, tables[ev.user]
      ensures UserAt(ev.user) == HandleHsi(old(UserAt(ev.user)), ev, o)
      ensures ev.fromReconcile && ev.revision < old(slots[ev.user].last) ==>
        slots[ev.user] == old(slots[ev.user]) && tables[ev.user][..] == old(tables[ev.user][..])
      ensures !ev.fromReconcile && !ev.fromRepublish && ev.action == DELETE ==>
        slots[ev.user] ==
          if old(slots[ev.user].core.Some? && !slots[ev.user].inUse)
          then Slot(if o.Failed? then o.residue else None, false, ev.revision)
          else old(slots[ev.user])
      ensures !ev.fromReconcile && !ev.fromRepublish && ev.action == UPDATE && ev.config.Some? && o.Done? ==>
        && slots[ev.user].last == ev.revision && slots[ev.user].inUse == old(slots[ev.user].inUse)
        && slots[ev.user].core.Some? && Took(slots[ev.user].core.value, ev.config.value.core)
      ensures forall v :: 0 <= v < slots.Length && v != ev.user ==> slots[v] == old(slots[v])
    {
      if !RevisionNewest(slots[ev.user].last, ev) { return; }
      if ev.action != DELETE && ev.config.Some? {
        if ev.fromRepublish {
          var same := HsiConfigMatchesLocal(ev.user, ev.config.value);
          if same { return; }
        }
        if ev.fromReconcile {
          var same := HsiConfigMatchesLocal(ev.user, ev.config.value);
          if same { return; }
        }
      }
      HsiConfigChanged(ev, o);
    }
  }
}
