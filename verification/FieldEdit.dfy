/**
 An offline field edit is not one locked section: it reads the stored document,
 merges its field into the copy, and stores the result, whose version is stamped
 from whatever the entry holds by then. One key, any number of editors, the etcd
 mirror and deletes interleave.
 */
module FieldEdit {
  import opened Common

  /** A document, as the numbers of the writes whose effect it contains, its own last. */
  type Doc = seq<nat>

  /** What an editor holds between its read and its store: the document (None: no entry), and the writes so far. */
  datatype Reading = Reading(base: Option<Doc>, at: nat)

  datatype State = State(value: Doc, exists_: bool, dirty: bool, version: int, writes: nat, editors: seq<Reading>)

  datatype Step =
    | Read                    // config_snapshot_get
    | Store(i: nat)           // config_snapshot_offline_edit of the merged document
    | Mirror(version: int)    // config_snapshot_watch_update with a new value
    | Delete                  // config_snapshot_offline_delete
    | Clear                   // config_snapshot_clear_dirty

  ghost function Visible(s: State): Option<Doc> {
    if s.exists_ then Some(s.value) else None
  }

  /** What the editor stores as write number n: its field on top of what it read. */
  ghost function Merged(r: Reading, n: nat): Doc {
    (if r.base.Some? then r.base.value else []) + [n]
  }

  ghost predicate Enabled(s: State, st: Step) {
    st.Store? ==> st.i < |s.editors|
  }

  ghost function Next(s: State, st: Step): State
    requires Enabled(s, st)
  {
    match st
    case Read => s.(editors := s.editors + [Reading(Visible(s), s.writes)])
    case Store(i) =>
      var n := s.writes + 1;
      State(Merged(s.editors[i], n), true, true, s.version + 1, n, s.editors[..i] + s.editors[i + 1..])
    case Mirror(v) =>
      if s.dirty then s else s.(value := [s.writes + 1], exists_ := true, version := v, writes := s.writes + 1)
    case Delete => if s.exists_ then s.(exists_ := false, dirty := true, writes := s.writes + 1) else s
    case Clear => s.(dirty := false)
  }

  ghost predicate ValidRun(s: State, steps: seq<Step>)
    decreases |steps|
  {
    steps == [] || (Enabled(s, steps[0]) && ValidRun(Next(s, steps[0]), steps[1..]))
  }

  ghost function Run(s: State, steps: seq<Step>): State
    requires ValidRun(s, steps)
    decreases |steps|
  {
    if steps == [] then s else Run(Next(s, steps[0]), steps[1..])
  }

  ghost predicate Initial(s: State) {
    !s.exists_ && s.writes == 0 && s.editors == []
  }

  /** No write to the key since the editor read it. */
  ghost predicate Untouched(s: State, r: Reading) {
    r.at == s.writes
  }

  ghost function Last(d: Doc): nat {
    if d == [] then 0 else d[|d| - 1]
  }

  /** The editor's copy is what the key holds exactly while nothing was written, or there is nothing to hold. */
  ghost predicate ReadingOk(s: State, r: Reading) {
    && r.at <= s.writes
    && (r.base.Some? ==> 0 < Last(r.base.value) <= r.at)
    && (Untouched(s, r) ==> r.base == Visible(s))
    && (!Untouched(s, r) && s.exists_ ==> Last(s.value) > r.at)
  }

  ghost predicate Inv(s: State) {
    && (s.exists_ ==> 0 < Last(s.value) <= s.writes)
    && forall i :: 0 <= i < |s.editors| ==> ReadingOk(s, s.editors[i])
  }

  lemma StepKeepsInv(s: State, st: Step)
    requires Inv(s) && Enabled(s, st)
    ensures Inv(Next(s, st))
  {
    var s' := Next(s, st);
    forall i | 0 <= i < |s'.editors| ensures ReadingOk(s', s'.editors[i]) {
      if st.Read? && i == |s.editors| {
      } else {
        assert s'.editors[i] in s.editors;
        var j :| 0 <= j < |s.editors| && s.editors[j] == s'.editors[i];
        assert ReadingOk(s, s.editors[j]);
      }
    }
  }

  lemma {:induction false} RunKeepsInv(s: State, steps: seq<Step>)
    requires Inv(s) && ValidRun(s, steps)
    ensures Inv(Run(s, steps))
    decreases |steps|
  {
    if steps == [] {
    } else {
      StepKeepsInv(s, steps[0]);
      RunKeepsInv(Next(s, steps[0]), steps[1..]);
    }
  }

  /** The stored document is the field put on top of the entry it replaces. */
  ghost predicate Extends(s: State, i: nat)
    requires i < |s.editors|
  {
    Next(s, Store(i)).value == (if s.exists_ then s.value else []) + [s.writes + 1]
  }

  /**
   In every interleaving, what an editor stores extends the entry it replaces
   exactly if nothing was written to the key since it read it, or the key was
   absent then and is absent again.
   */
  lemma {:induction false} StoreExtendsExactly(s0: State, steps: seq<Step>, i: nat)
    requires Initial(s0) && ValidRun(s0, steps) && i < |Run(s0, steps).editors|
    ensures var s := Run(s0, steps);
            Extends(s, i) <==> Untouched(s, s.editors[i]) || (s.editors[i].base.None? && !s.exists_)
  {
    RunKeepsInv(s0, steps);
    var s := Run(s0, steps);
    var r := s.editors[i];
    assert ReadingOk(s, r);
    var stored, due := Merged(r, s.writes + 1), (if s.exists_ then s.value else []) + [s.writes + 1];
    assert stored[..|stored| - 1] == if r.base.Some? then r.base.value else [];
    assert due[..|due| - 1] == if s.exists_ then s.value else [];
  }

  lemma Prepend(s: State, st: Step, rest: seq<Step>)
    requires Enabled(s, st) && ValidRun(Next(s, st), rest)
    ensures ValidRun(s, [st] + rest) && Run(s, [st] + rest) == Run(Next(s, st), rest)
  {
    assert ([st] + rest)[1..] == rest;
  }

  /** Two editors holding the first document store it. */
  lemma BothStore(s: State)
    requires s.writes == 1 && s.editors == [Reading(Some([1]), 1), Reading(Some([1]), 1)]
    ensures ValidRun(s, [Store(0)] + ([Store(0)] + []))
    ensures var s' := Run(s, [Store(0)] + ([Store(0)] + [])); s'.value == [1, 3] && s'.version == s.version + 2
  {
    var s1 := Next(s, Store(0));
    assert s1.value == [1, 2] && s1.editors == [Reading(Some([1]), 1)];
    var s2 := Next(s1, Store(0));
    assert s2.value == [1, 3] && Run(s2, []) == s2;
    Prepend(s1, Store(0), []);
    Prepend(s, Store(0), [Store(0)] + []);
  }

  /**
   Two editors read the same document and store one after the other: the second
   document carries the next version after the first and has lost the first edit.
   */
  lemma SecondEditorWins(s0: State, v: int) returns (steps: seq<Step>)
    requires Initial(s0) && !s0.dirty
    ensures ValidRun(s0, steps) && Run(s0, steps).value == [1, 3] && Run(s0, steps).version == v + 2
    ensures steps == [Mirror(v), Read, Read, Store(0), Store(0)]
  {
    var s1 := Next(s0, Mirror(v));
    var s2 := Next(s1, Read);
    var s3 := Next(s2, Read);
    BothStore(s3);
    Prepend(s2, Read, [Store(0)] + ([Store(0)] + []));
    Prepend(s1, Read, [Read] + ([Store(0)] + ([Store(0)] + [])));
    steps := [Read] + ([Read] + ([Store(0)] + ([Store(0)] + [])));
    Prepend(s0, Mirror(v), steps);
    steps := [Mirror(v)] + steps;
  }

  /** And a document merged from a value the mirror has since replaced carries the new value's version plus one. */
  lemma MirrorIsOverwritten(s0: State, v: int, w: int) returns (steps: seq<Step>)
    requires Initial(s0) && !s0.dirty
    ensures ValidRun(s0, steps) && Run(s0, steps).value == [1, 3] && Run(s0, steps).version == w + 1
    ensures steps == [Mirror(v), Read, Mirror(w), Store(0)]
  {
    var s1 := Next(s0, Mirror(v));
    var s2 := Next(s1, Read);
    assert s2.editors == [Reading(Some([1]), 1)];
    var s3 := Next(s2, Mirror(w));
    assert s3.value == [2];
    var s4 := Next(s3, Store(0));
    assert s4.value == [1, 3] && Run(s4, []) == s4;
    Prepend(s3, Store(0), []);
    Prepend(s2, Mirror(w), [Store(0)] + []);
    Prepend(s1, Read, [Mirror(w)] + ([Store(0)] + []));
    steps := [Read] + ([Mirror(w)] + ([Store(0)] + []));
    Prepend(s0, Mirror(v), steps);
    steps := [Mirror(v)] + steps;
  }
}
