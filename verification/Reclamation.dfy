/**
 When a capture session may free its ring, pool and filters. Burst callbacks run
 on lcores that take no lock; the control side unlinks the callbacks, waits for a
 quiescent-state grace period, and only then frees. Three kinds of readers differ
 in where they report: poll loops between receive and transmit, distributor
 workers around their blocking call, and control transmissions around one burst.
 */
module Reclamation {
  import opened Common

  datatype Role = Poller | Worker | Control

  /** Where a reader is between two bursts. */
  datatype Pc = OFFLINE | RX | AFTER_RX | WORK | WINDOW | AFTER_TX | CLOSING

  /**
   One reader: its position, the session whose resources the callback it is
   inside of uses, and its quiescent-state counter (0 when offline).
   */
  datatype Reader = Reader(role: Role, pc: Pc, inside: Option<nat>, cnt: nat)

  /** The capture mutex holder: not tearing down, or waiting with the readers already checked. */
  datatype Writer = Idle | Syncing(target: nat, checked: set<nat>)

  datatype State = State(readers: seq<Reader>, token: nat, linked: set<nat>,
                         session: Option<nat>, opened_: nat, writer: Writer)

  datatype Step =
    | GoOnline(t: nat)          // rte_rcu_qsbr_thread_online
    | Enter(t: nat, port: nat)  // a burst finds the port's callback linked and calls it
    | Leave(t: nat)             // the callback returns and the burst with it
    | SkipBurst(t: nat)         // a burst that runs no callback
    | Quiescent(t: nat)         // rte_rcu_qsbr_quiescent
    | LoopTop(t: nat)           // a poll loop starts over
    | GoOffline(t: nat)         // rte_rcu_qsbr_thread_offline
    | Open                      // pdump_capture_open
    | Link(port: nat)           // pdump_register_port
    | Unlink(port: nat)         // pdump_unregister_port
    | BeginSync                 // rte_rcu_qsbr_synchronize: take a token
    | Check(t: nat)             // ... and see one reader past it
    | Free                      // free ring, pool and filters

  ghost predicate MayBurst(r: Reader) {
    r.inside.None? && (r.pc == RX || r.pc == WORK || r.pc == WINDOW)
  }

  ghost predicate Passed(r: Reader, target: nat) {
    r.cnt == 0 || r.cnt >= target
  }

  /** `unlinkFirst` is the order of pdump_capture_teardown: no callback is linked when the wait begins. */
  ghost predicate Enabled(s: State, st: Step, unlinkFirst: bool) {
    match st
    case GoOnline(t) => t < |s.readers| && s.readers[t].pc == OFFLINE
    case Enter(t, p) => t < |s.readers| && MayBurst(s.readers[t]) && p in s.linked && s.session.Some?
    case Leave(t) => t < |s.readers| && s.readers[t].inside.Some?
    case SkipBurst(t) => t < |s.readers| && MayBurst(s.readers[t])
    case Quiescent(t) => t < |s.readers| && (s.readers[t].pc == AFTER_RX || s.readers[t].pc == AFTER_TX)
    case LoopTop(t) =>
      t < |s.readers| && s.readers[t].role.Poller? && s.readers[t].pc == WORK && s.readers[t].inside.None?
    case GoOffline(t) =>
      t < |s.readers| && s.readers[t].inside.None? &&
      (s.readers[t].pc == CLOSING || (s.readers[t].pc == WORK && !s.readers[t].role.Control?))
    case Open => s.session.None? && s.writer.Idle?
    case Link(p) => s.session.Some? && s.writer.Idle?
    case Unlink(p) => true
    case BeginSync => s.writer.Idle? && s.session.Some? && (unlinkFirst ==> s.linked == {})
    case Check(t) => t < |s.readers| && s.writer.Syncing? && Passed(s.readers[t], s.writer.target)
    case Free =>
      s.writer.Syncing? && s.linked == {} && forall t :: 0 <= t < |s.readers| ==> t in s.writer.checked
  }

  ghost function AfterBurst(pc: Pc): Pc {
    match pc
    case RX => AFTER_RX
    case WINDOW => AFTER_TX
    case _ => pc
  }

  ghost function Next(s: State, st: Step): (s': State)
    requires Enabled(s, st, false)
    ensures |s'.readers| == |s.readers|
  {
    match st
    case GoOnline(t) =>
      var r := s.readers[t];
      var pc := match r.role case Poller => RX case Worker => WORK case Control => WINDOW;
      s.(readers := s.readers[t := r.(pc := pc, cnt := s.token)])
    case Enter(t, _) => s.(readers := s.readers[t := s.readers[t].(inside := s.session)])
    case Leave(t) =>
      var r := s.readers[t];
      s.(readers := s.readers[t := r.(inside := None, pc := AfterBurst(r.pc))])
    case SkipBurst(t) =>
      var r := s.readers[t];
      s.(readers := s.readers[t := r.(pc := AfterBurst(r.pc))])
    case Quiescent(t) =>
      var r := s.readers[t];
      s.(readers := s.readers[t := r.(cnt := s.token, pc := if r.pc == AFTER_RX then WORK else CLOSING)])
    case LoopTop(t) => s.(readers := s.readers[t := s.readers[t].(pc := RX)])
    case GoOffline(t) => s.(readers := s.readers[t := s.readers[t].(pc := OFFLINE, cnt := 0)])
    case Open => s.(session := Some(s.opened_), opened_ := s.opened_ + 1)
    case Link(p) => s.(linked := s.linked + {p})
    case Unlink(p) => s.(linked := s.linked - {p})
    case BeginSync => s.(token := s.token + 1, writer := Syncing(s.token + 1, {}))
    case Check(t) => s.(writer := s.writer.(checked := s.writer.checked + {t}))
    case Free => s.(session := None, writer := Idle)
  }

  lemma EnabledWeaker(s: State, st: Step)
    requires Enabled(s, st, true)
    ensures Enabled(s, st, false)
  {
  }

  ghost predicate ValidRun(s: State, steps: seq<Step>, unlinkFirst: bool)
    decreases |steps|
  {
    steps == [] ||
    (Enabled(s, steps[0], unlinkFirst) && Enabled(s, steps[0], false) &&
     ValidRun(Next(s, steps[0]), steps[1..], unlinkFirst))
  }

  ghost function Run(s: State, steps: seq<Step>, unlinkFirst: bool): State
    requires ValidRun(s, steps, unlinkFirst)
    decreases |steps|
  {
    if steps == [] then s else Run(Next(s, steps[0]), steps[1..], unlinkFirst)
  }

  ghost predicate Initial(s: State) {
    && s.token == 1 && s.linked == {} && s.session.None? && s.writer.Idle?
    && forall t :: 0 <= t < |s.readers| ==>
         s.readers[t].pc == OFFLINE && s.readers[t].inside.None? && s.readers[t].cnt == 0
  }

  /** Nobody is inside a callback of a session that is not the live one. */
  ghost predicate Safe(s: State) {
    forall t :: 0 <= t < |s.readers| && s.readers[t].inside.Some? ==> s.session == s.readers[t].inside
  }

  ghost predicate ReaderOk(r: Reader, s: State) {
    && r.cnt <= s.token
    && (r.pc == OFFLINE <==> r.cnt == 0)
    && (r.inside.Some? ==> s.session == r.inside && (r.pc == RX || r.pc == WORK || r.pc == WINDOW))
  }

  ghost predicate Inv(s: State) {
    && s.token >= 1
    && (forall t :: 0 <= t < |s.readers| ==> ReaderOk(s.readers[t], s))
    && (s.linked != {} ==> s.session.Some? && s.writer.Idle?)
    && (s.writer.Syncing? ==>
          && s.session.Some? && s.linked == {} && s.writer.target == s.token
          && forall t :: 0 <= t < |s.readers| && s.readers[t].inside.Some? ==>
               s.readers[t].cnt < s.writer.target && t !in s.writer.checked)
  }

  lemma StepKeepsInv(s: State, st: Step)
    requires Inv(s) && Enabled(s, st, true)
    ensures Inv(Next(s, st))
  {
    EnabledWeaker(s, st);
    var s' := Next(s, st);
    forall t | 0 <= t < |s'.readers| ensures ReaderOk(s'.readers[t], s') {
      assert ReaderOk(s.readers[t], s);
    }
  }

  lemma {:induction false} RunKeepsInv(s: State, steps: seq<Step>)
    requires Inv(s) && ValidRun(s, steps, true)
    ensures Inv(Run(s, steps, true))
    decreases |steps|
  {
    if steps == [] {
    } else {
      StepKeepsInv(s, steps[0]);
      RunKeepsInv(Next(s, steps[0]), steps[1..]);
    }
  }

  /**
   Over all runs and repeated sessions: a reader inside a callback always uses
   the live session, so nothing it touches has been freed.
   */
  lemma NeverInsideFreedSession(s: State, steps: seq<Step>)
    requires Initial(s) && ValidRun(s, steps, true)
    ensures Safe(Run(s, steps, true))
  {
    RunKeepsInv(s, steps);
    var s' := Run(s, steps, true);
    forall t | 0 <= t < |s'.readers| && s'.readers[t].inside.Some?
      ensures s'.session == s'.readers[t].inside
    {
      assert ReaderOk(s'.readers[t], s');
    }
  }

  /** Put one step in front of a run. */
  lemma Prepend(s: State, st: Step, rest: seq<Step>)
    requires Enabled(s, st, false) && ValidRun(Next(s, st), rest, false)
    ensures ValidRun(s, [st] + rest, false)
    ensures Run(s, [st] + rest, false) == Run(Next(s, st), rest, false)
  {
    assert ([st] + rest)[1..] == rest;
  }

  ghost predicate OneReader(s: State, pc: Pc, inside: Option<nat>, cnt: nat) {
    |s.readers| == 1 && s.readers[0] == Reader(Control, pc, inside, cnt)
  }

  /** The second half: the reader, seen past the token, enters the callback that is unlinked only now. */
  lemma HastyFree(s: State) returns (steps: seq<Step>)
    requires OneReader(s, WINDOW, None, 2) && s.linked == {0} && s.session == Some(0)
    requires s.writer == Syncing(2, {})
    ensures ValidRun(s, steps, false) && !Safe(Run(s, steps, false))
  {
    var s1 := Next(s, Check(0));
    var s2 := Next(s1, Enter(0, 0));
    var s3 := Next(s2, Unlink(0));
    assert OneReader(s3, WINDOW, Some(0), 2) && s3.linked == {};
    var s4 := Next(s3, Free);
    assert s4.readers[0].inside == Some(0) && s4.session.None?;
    assert Run(s4, [], false) == s4 && !Safe(s4);
    Prepend(s3, Free, []);
    Prepend(s2, Unlink(0), [Free] + []);
    Prepend(s1, Enter(0, 0), [Unlink(0)] + ([Free] + []));
    steps := [Enter(0, 0)] + ([Unlink(0)] + ([Free] + []));
    Prepend(s, Check(0), steps);
    steps := [Check(0)] + steps;
  }

  /**
   Were the wait begun while a callback is still linked, a control transmission
   could come online, be seen past the token, enter the callback, and have the
   session freed under it.
   */
  lemma HastyRunFreesUnderAReader() returns (s: State, steps: seq<Step>)
    ensures Initial(s) && ValidRun(s, steps, false) && !Safe(Run(s, steps, false))
  {
    s := State([Reader(Control, OFFLINE, None, 0)], 1, {}, None, 0, Idle);
    var s1 := Next(s, Open);
    var s2 := Next(s1, Link(0));
    var s3 := Next(s2, BeginSync);
    assert OneReader(s3, OFFLINE, None, 0) && s3.token == 2 && s3.linked == {0};
    var s4 := Next(s3, GoOnline(0));
    steps := HastyFree(s4);
    Prepend(s3, GoOnline(0), steps);
    steps := [GoOnline(0)] + steps;
    Prepend(s2, BeginSync, steps);
    steps := [BeginSync] + steps;
    Prepend(s1, Link(0), steps);
    steps := [Link(0)] + steps;
    Prepend(s, Open, steps);
    steps := [Open] + steps;
  }

  ghost predicate EveryRunSafe(unlinkFirst: bool) {
    forall s, steps :: Initial(s) && ValidRun(s, steps, unlinkFirst) ==> Safe(Run(s, steps, unlinkFirst))
  }

  /** Safety of every run is exactly what unlinking before waiting buys. */
  lemma SafeExactlyWhenUnlinkedFirst(unlinkFirst: bool)
    ensures EveryRunSafe(unlinkFirst) <==> unlinkFirst
  {
    if unlinkFirst {
      forall s, steps | Initial(s) && ValidRun(s, steps, true) ensures Safe(Run(s, steps, true)) {
        NeverInsideFreedSession(s, steps);
      }
    } else {
      var s, steps := HastyRunFreesUnderAReader();
    }
  }

  // ---- the wait ends ----

  /** A reader seen past the token stays past it, whatever anyone does before the free. */
  lemma PassedIsStable(s: State, st: Step, t: nat)
    requires Inv(s) && Enabled(s, st, true) && s.writer.Syncing? && t < |s.readers|
    requires Passed(s.readers[t], s.writer.target) && !st.Free?
    ensures Enabled(s, st, false) && Next(s, st).writer.Syncing?
    ensures Next(s, st).writer.target == s.writer.target
    ensures Passed(Next(s, st).readers[t], s.writer.target)
  {
    EnabledWeaker(s, st);
  }

  /** Every burst boundary a reader crosses during the wait puts it past the token. */
  lemma BoundaryPasses(s: State, st: Step, t: nat)
    requires Inv(s) && s.writer.Syncing? && t < |s.readers|
    requires st == Quiescent(t) || st == GoOffline(t) || st == GoOnline(t)
    requires Enabled(s, st, true)
    ensures Enabled(s, st, false) && Passed(Next(s, st).readers[t], s.writer.target)
  {
    EnabledWeaker(s, st);
  }
}
