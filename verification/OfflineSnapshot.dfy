/**
 The offline-edit snapshot. An editor changes entries while etcd is away, a
 mirror writes what etcd says, and a reporter copies the dirty entries out,
 releases the lock, and much later clears exactly what it reported. Every locked
 section is one atomic step here; the steps interleave in any order.
 */
module OfflineSnapshot {
  import opened Common

  datatype Kind = HSI | DNS | COUNT

  datatype Key = Key(kind: Kind, user: string)

  /**
   A stored text: nothing, or a document whose metadata.resourceVersion reads as
   `version` (None when it cannot be read).
   */
  datatype Value = Empty | Doc(body: string, version: Option<int>)

  datatype Entry = Entry(value: Value, exists_: bool, dirty: bool, editSeq: nat, summary: seq<string>)

  const FRESH := Entry(Empty, false, false, 0, [])

  type Entries = map<Key, Entry>

  datatype Snapshot = Snapshot(entries: Entries, disk: Entries, persistFailed: bool)

  /** What the file holds: everything but the edit sequence numbers. */
  function Persisted(entries: Entries): Entries {
    map k | k in entries :: entries[k].(editSeq := 0)
  }

  /** The file holds every entry with everything it carries, apart from its sequence number. */
  ghost predicate SameButSequence(file: Entries, entries: Entries) {
    && file.Keys == entries.Keys
    && forall k :: k in entries ==>
         && file[k].value == entries[k].value && file[k].exists_ == entries[k].exists_
         && file[k].dirty == entries[k].dirty && file[k].summary == entries[k].summary && file[k].editSeq == 0
  }

  /** And there is only one such file. */
  lemma PersistedExactly(file: Entries, entries: Entries)
    ensures SameButSequence(file, entries) <==> file == Persisted(entries)
  {
    if SameButSequence(file, entries) {
      forall k | k in file ensures file[k] == Persisted(entries)[k] {}
      assert file.Keys == Persisted(entries).Keys;
    }
  }

  /** persist_and_track_locked: the file is replaced as a whole or left as it was. */
  ghost function Persist(s: Snapshot, ok: bool): Snapshot {
    if ok then s.(disk := Persisted(s.entries), persistFailed := false) else s.(persistFailed := true)
  }

  ghost function Lookup(entries: Entries, k: Key): Entry {
    if k in entries then entries[k] else FRESH
  }

  /** The version an edit stamps, from the entry it replaces. */
  function NextVersion(e: Entry): int {
    if !e.exists_ && e.value.Empty? then 1
    else if e.value.Empty? || e.value.version.None? then 2
    else e.value.version.value + 1
  }

  function AppendSummary(old_: seq<string>, text: string): seq<string> {
    if text == "" then old_ else old_ + [text]
  }

  // ---- the locked sections, on values ----

  /** A mirrored value is taken only by a clean entry, and only if it differs. */
  ghost predicate MirrorWrites(s: Snapshot, k: Key, v: Option<Value>) {
    k in s.entries ==>
      !s.entries[k].dirty && (s.entries[k].exists_ != v.Some? || s.entries[k].value != Text(v))
  }

  function Text(v: Option<Value>): Value {
    if v.Some? then v.value else Empty
  }

  function Mirrored(e: Entry, v: Option<Value>): Entry {
    e.(value := Text(v), exists_ := v.Some?, dirty := false, summary := [])
  }

  /** config_snapshot_watch_update; None records a deletion. */
  ghost function AfterMirror(s: Snapshot, k: Key, v: Option<Value>, ok: bool): Snapshot {
    if !MirrorWrites(s, k, v) then s
    else Persist(s.(entries := s.entries[k := Mirrored(Lookup(s.entries, k), v)]), ok)
  }

  function Edited(e: Entry, body: string, text: string): Entry {
    Entry(Doc(body, Some(NextVersion(e))), true, true, e.editSeq + 1, AppendSummary(e.summary, text))
  }

  /** config_snapshot_offline_edit; None is a text that is not a JSON object. */
  ghost function AfterEdit(s: Snapshot, k: Key, body: Option<string>, text: string, ok: bool): Snapshot {
    if body.None? then s
    else Persist(s.(entries := s.entries[k := Edited(Lookup(s.entries, k), body.value, text)]), ok)
  }

  function Buried(e: Entry, text: string): Entry {
    e.(exists_ := false, dirty := true, editSeq := e.editSeq + 1, summary := AppendSummary(e.summary, text))
  }

  /** config_snapshot_offline_delete: the value stays behind as a tombstone. */
  ghost function AfterDelete(s: Snapshot, k: Key, text: string, ok: bool): Snapshot {
    if k !in s.entries || !s.entries[k].exists_ then s
    else Persist(s.(entries := s.entries[k := Buried(s.entries[k], text)]), ok)
  }

  /** config_snapshot_clear_dirty: compare, then clear. */
  ghost function AfterClear(s: Snapshot, k: Key, seenEditSeq: nat, ok: bool): Snapshot {
    if k !in s.entries || s.entries[k].editSeq != seenEditSeq then s
    else Persist(s.(entries := s.entries[k := s.entries[k].(dirty := false, summary := [])]), ok)
  }

  /** One copied item of config_snapshot_foreach_dirty. */
  datatype Ticket = Ticket(key: Key, value: Value, tombstone: bool, editSeq: nat)

  function TicketFor(k: Key, e: Entry): Ticket {
    Ticket(k, e.value, !e.exists_, e.editSeq)
  }

  // ---- interleavings ----

  /** What an offline edit or delete proposes to the controller; `id` tells equal texts of different edits apart. */
  datatype Proposal = Proposal(value: Value, tombstone: bool, id: nat)

  /** A copied item and the proposal it carries. */
  datatype Held = Held(ticket: Ticket, id: nat)

  type Tags = map<Key, nat>

  /**
   The snapshot together with its history: which proposal each entry in memory
   and in the file stems from (0 for one found at boot), the latest proposal per
   key, the items the reporter still holds, everything ever handed to it, and the
   number of proposals made.
   */
  datatype World = World(snap: Snapshot, tags: Tags, diskTags: Tags, latest: map<Key, Proposal>,
                         tickets: set<Held>, handed: set<(Key, Proposal)>, count: nat)

  datatype Step =
    | DoMirror(key: Key, v: Option<Value>, ok: bool)
    | DoEdit(key: Key, body: Option<string>, text: string, ok: bool)
    | DoDelete(key: Key, text: string, ok: bool)
    | DoCopy                              // the reporter copies the dirty set
    | DoClear(item: Held, ok: bool)       // ... and later acknowledges one item
    | DoRestart                           // the process comes back from the file

  ghost function Tag(tags: Tags, k: Key): nat {
    if k in tags then tags[k] else 0
  }

  ghost function DirtyTickets(entries: Entries): set<Ticket> {
    set k | k in entries && entries[k].dirty :: TicketFor(k, entries[k])
  }

  ghost function ProposalOf(h: Held): Proposal {
    Proposal(h.ticket.value, h.ticket.tombstone, h.id)
  }

  ghost function CurrentProposal(e: Entry, id: nat): Proposal {
    Proposal(e.value, !e.exists_, id)
  }

  ghost predicate Enabled(w: World, st: Step) {
    match st
    case DoClear(h, _) => h in w.tickets
    case DoRestart => !w.snap.persistFailed
    case _ => true
  }

  /** The step is an offline edit or delete of k that is carried out. */
  ghost predicate Proposes(w: World, st: Step, k: Key) {
    (st.DoEdit? && st.key == k && st.body.Some?) ||
    (st.DoDelete? && st.key == k && k in w.snap.entries && w.snap.entries[k].exists_)
  }

  /** The step writes the whole snapshot to the file, with success. */
  ghost predicate Saves(w: World, st: Step) {
    match st
    case DoMirror(k, v, ok) => ok && MirrorWrites(w.snap, k, v)
    case DoEdit(k, body, _, ok) => ok && body.Some?
    case DoDelete(k, _, ok) => ok && Proposes(w, st, k)
    case DoClear(h, ok) =>
      ok && h.ticket.key in w.snap.entries && w.snap.entries[h.ticket.key].editSeq == h.ticket.editSeq
    case _ => false
  }

  /** The history after a step that leaves this snapshot and these tags. */
  ghost function Written(w: World, st: Step, snap: Snapshot, tags: Tags): World {
    w.(snap := snap, tags := tags, diskTags := if Saves(w, st) then tags else w.diskTags)
  }

  /** What the editor hands in: the text it submits under the next version, or the end of what there is. */
  ghost function Submitted(w: World, st: Step, k: Key): Proposal
    requires Proposes(w, st, k)
  {
    if st.DoEdit? then Proposal(Doc(st.body.value, Some(NextVersion(Lookup(w.snap.entries, k)))), false, w.count + 1)
    else Proposal(w.snap.entries[k].value, true, w.count + 1)
  }

  /** The history after a proposal for k. */
  ghost function Proposed(w: World, st: Step, k: Key, snap: Snapshot): World
    requires Proposes(w, st, k)
  {
    var id := w.count + 1;
    Written(w, st, snap, w.tags[k := id]).(latest := w.latest[k := Submitted(w, st, k)], count := id)
  }

  ghost function Next(w: World, st: Step): World {
    match st
    case DoMirror(k, v, ok) => Written(w, st, AfterMirror(w.snap, k, v, ok), w.tags)
    case DoEdit(k, body, text, ok) =>
      if Proposes(w, st, k) then Proposed(w, st, k, AfterEdit(w.snap, k, body, text, ok)) else w
    case DoDelete(k, text, ok) =>
      if Proposes(w, st, k) then Proposed(w, st, k, AfterDelete(w.snap, k, text, ok)) else w
    case DoCopy =>
      var hs := set t | t in DirtyTickets(w.snap.entries) :: Held(t, Tag(w.tags, t.key));
      w.(tickets := w.tickets + hs, handed := w.handed + set h | h in hs :: (h.ticket.key, ProposalOf(h)))
    case DoClear(h, ok) => Written(w, st, AfterClear(w.snap, h.ticket.key, h.ticket.editSeq, ok), w.tags)
    case DoRestart =>
      w.(snap := w.snap.(entries := Persisted(w.snap.disk)), tags := w.diskTags, tickets := {})
  }

  ghost predicate ValidRun(w: World, steps: seq<Step>)
    decreases |steps|
  {
    steps == [] || (Enabled(w, steps[0]) && ValidRun(Next(w, steps[0]), steps[1..]))
  }

  ghost function Run(w: World, steps: seq<Step>): World
    decreases |steps|
  {
    if steps == [] then w else Run(Next(w, steps[0]), steps[1..])
  }

  /** Right after config_snapshot_init: memory is the file, proposals found dirty there are the latest ones. */
  ghost predicate Booted(w: World) {
    && w.tickets == {} && w.handed == {} && !w.snap.persistFailed
    && w.snap.entries == w.snap.disk == Persisted(w.snap.disk)
    && w.tags == w.diskTags == map[] && w.count == 0
    && w.latest == map k | k in w.snap.entries && w.snap.entries[k].dirty :: CurrentProposal(w.snap.entries[k], 0)
  }

  /** These entries hold p for k, still to be reported. */
  ghost predicate Holds(entries: Entries, tags: Tags, k: Key, p: Proposal) {
    k in entries && entries[k].dirty && CurrentProposal(entries[k], Tag(tags, k)) == p
  }

  /** The key's latest proposal is still pending, untouched. */
  ghost predicate Pending(w: World, k: Key) {
    k in w.latest && Holds(w.snap.entries, w.tags, k, w.latest[k])
  }

  /** It was given to the reporter exactly as it is. */
  ghost predicate Handed(w: World, k: Key) {
    k in w.latest && (k, w.latest[k]) in w.handed
  }

  ghost predicate NothingLost(w: World) {
    forall k :: k in w.latest ==> Pending(w, k) || Handed(w, k)
  }

  /** A held item whose entry has not been edited since carries the latest proposal, and it is handed over. */
  ghost predicate HeldOk(w: World, h: Held) {
    && h.ticket.key in w.snap.entries
    && h.ticket.editSeq <= w.snap.entries[h.ticket.key].editSeq
    && (h.ticket.editSeq == w.snap.entries[h.ticket.key].editSeq ==>
          h.ticket.key in w.latest && w.latest[h.ticket.key] == ProposalOf(h) && Handed(w, h.ticket.key))
  }

  /** The file holds the latest proposal once the tag says so, unless it was handed over. */
  ghost predicate SavedOk(w: World, k: Key)
    requires k in w.latest
  {
    && Tag(w.tags, k) == w.latest[k].id <= w.count
    && (Tag(w.diskTags, k) == w.latest[k].id ==>
          Handed(w, k) || Holds(w.snap.disk, w.diskTags, k, w.latest[k]))
  }

  ghost predicate Inv(w: World) {
    && NothingLost(w)
    && (forall k :: k in w.snap.entries && w.snap.entries[k].dirty ==> Pending(w, k))
    && (forall h :: h in w.tickets ==> HeldOk(w, h))
    && (!w.snap.persistFailed ==> w.snap.disk == Persisted(w.snap.entries) && w.diskTags == w.tags)
    && (forall k :: k in w.latest ==> SavedOk(w, k))
    && (forall k: Key :: Tag(w.tags, k) <= w.count && Tag(w.diskTags, k) <= w.count)
  }

  /** A file written from entries that hold p holds it too. */
  lemma PersistedHolds(entries: Entries, tags: Tags, k: Key, p: Proposal)
    ensures Holds(Persisted(entries), tags, k, p) <==> Holds(entries, tags, k, p)
  {
  }

  lemma CopyKeepsInv(w: World)
    requires Inv(w)
    ensures Inv(Next(w, DoCopy))
  {
    var w' := Next(w, DoCopy);
    forall h | h in w'.tickets ensures HeldOk(w', h) {
      if h in w.tickets {
        assert HeldOk(w, h);
      } else {
        var k :| k in w.snap.entries && w.snap.entries[k].dirty && h.ticket == TicketFor(k, w.snap.entries[k]);
        assert Pending(w, k);
        assert (h.ticket.key, ProposalOf(h)) in w'.handed;
      }
    }
    forall k | k in w'.latest ensures (Pending(w', k) || Handed(w', k)) && SavedOk(w', k) {
      assert (Pending(w, k) || Handed(w, k)) && SavedOk(w, k);
    }
    forall k | k in w'.snap.entries && w'.snap.entries[k].dirty ensures Pending(w', k) {
      assert Pending(w, k);
    }
  }

  lemma RestartKeepsInv(w: World)
    requires Inv(w) && Enabled(w, DoRestart)
    ensures Inv(Next(w, DoRestart))
  {
    var w' := Next(w, DoRestart);
    assert Persisted(Persisted(w.snap.entries)) == Persisted(w.snap.entries);
    forall k | k in w'.latest ensures (Pending(w', k) || Handed(w', k)) && SavedOk(w', k) {
      assert (Pending(w, k) || Handed(w, k)) && SavedOk(w, k);
      PersistedHolds(w.snap.entries, w.tags, k, w.latest[k]);
    }
    forall k | k in w'.snap.entries && w'.snap.entries[k].dirty ensures Pending(w', k) {
      assert Pending(w, k);
    }
  }

  /** A mirror write or a clear: only clean or handed-over entries change, and no sequence number does. */
  lemma SettleKeepsInv(w: World, st: Step, k: Key, e: Entry, ok: bool)
    requires Inv(w) && !e.dirty && e.editSeq == Lookup(w.snap.entries, k).editSeq
    requires k in w.snap.entries && w.snap.entries[k].dirty ==> Handed(w, k)
    requires Saves(w, st) == ok
    ensures Inv(Written(w, st, Persist(w.snap.(entries := w.snap.entries[k := e]), ok), w.tags))
  {
    var w' := Written(w, st, Persist(w.snap.(entries := w.snap.entries[k := e]), ok), w.tags);
    forall j | j in w'.latest ensures Pending(w', j) || Handed(w', j) {
      assert Pending(w, j) || Handed(w, j);
    }
    forall j | j in w'.snap.entries && w'.snap.entries[j].dirty ensures Pending(w', j) {
      assert Pending(w, j);
    }
    forall h | h in w'.tickets ensures HeldOk(w', h) {
      assert HeldOk(w, h);
    }
    forall j | j in w'.latest ensures SavedOk(w', j) {
      assert SavedOk(w, j);
      PersistedHolds(w'.snap.entries, w'.tags, j, w'.latest[j]);
    }
  }

  /** An edit or a delete: the entry turns dirty under a new sequence number and a new id. */
  lemma ProposeKeepsInv(w: World, st: Step, k: Key, e: Entry, ok: bool)
    requires Inv(w)
    requires Proposes(w, st, k) && CurrentProposal(e, w.count + 1) == Submitted(w, st, k)
    requires e.dirty && e.editSeq == Lookup(w.snap.entries, k).editSeq + 1
    requires Saves(w, st) == ok
    ensures Inv(Proposed(w, st, k, Persist(w.snap.(entries := w.snap.entries[k := e]), ok)))
  {
    var w' := Proposed(w, st, k, Persist(w.snap.(entries := w.snap.entries[k := e]), ok));
    forall j: Key ensures KeyOk(w', j) {
      ProposeKeepsKey(w, st, k, e, ok, j);
    }
    forall j | j in w'.latest ensures Pending(w', j) || Handed(w', j) {
      assert KeyOk(w', j);
    }
    forall j | j in w'.snap.entries && w'.snap.entries[j].dirty ensures Pending(w', j) {
      assert KeyOk(w', j);
    }
    forall j | j in w'.latest ensures SavedOk(w', j) {
      assert KeyOk(w', j);
    }
    forall h | h in w'.tickets ensures HeldOk(w', h) {
      assert HeldOk(w, h);
    }
    forall j: Key ensures Tag(w'.tags, j) <= w'.count && Tag(w'.diskTags, j) <= w'.count {
      assert KeyOk(w', j);
    }
  }

  /** What the invariant says of one key. */
  ghost predicate KeyOk(w: World, j: Key) {
    && (j in w.latest ==> (Pending(w, j) || Handed(w, j)) && SavedOk(w, j))
    && (j in w.snap.entries && w.snap.entries[j].dirty ==> Pending(w, j))
    && Tag(w.tags, j) <= w.count && Tag(w.diskTags, j) <= w.count
  }

  lemma ProposeKeepsKey(w: World, st: Step, k: Key, e: Entry, ok: bool, j: Key)
    requires Inv(w) && e.dirty && Saves(w, st) == ok
    requires Proposes(w, st, k) && CurrentProposal(e, w.count + 1) == Submitted(w, st, k)
    ensures KeyOk(Proposed(w, st, k, Persist(w.snap.(entries := w.snap.entries[k := e]), ok)), j)
  {
    var w' := Proposed(w, st, k, Persist(w.snap.(entries := w.snap.entries[k := e]), ok));
    assert Tag(w.tags, j) <= w.count && Tag(w.diskTags, j) <= w.count;
    if j != k {
      if j in w.latest { assert (Pending(w, j) || Handed(w, j)) && SavedOk(w, j); }
      if j in w.snap.entries && w.snap.entries[j].dirty { assert Pending(w, j); }
    }
    if j in w'.latest { PersistedHolds(w'.snap.entries, w'.tags, j, w'.latest[j]); }
  }

  lemma ClearKeepsInv(w: World, h: Held, ok: bool)
    requires Inv(w) && Enabled(w, DoClear(h, ok))
    ensures Inv(Next(w, DoClear(h, ok)))
  {
    assert HeldOk(w, h);
    var k := h.ticket.key;
    if w.snap.entries[k].editSeq == h.ticket.editSeq {
      SettleKeepsInv(w, DoClear(h, ok), k, w.snap.entries[k].(dirty := false, summary := []), ok);
    } else {
      assert Next(w, DoClear(h, ok)) == w;
    }
  }

  lemma MirrorKeepsInv(w: World, k: Key, v: Option<Value>, ok: bool)
    requires Inv(w)
    ensures Inv(Next(w, DoMirror(k, v, ok)))
  {
    if MirrorWrites(w.snap, k, v) {
      SettleKeepsInv(w, DoMirror(k, v, ok), k, Mirrored(Lookup(w.snap.entries, k), v), ok);
    } else {
      assert Next(w, DoMirror(k, v, ok)) == w;
    }
  }

  lemma StepKeepsInv(w: World, st: Step)
    requires Inv(w) && Enabled(w, st)
    ensures Inv(Next(w, st))
  {
    match st
    case DoMirror(k, v, ok) => MirrorKeepsInv(w, k, v, ok);
    case DoEdit(k, body, text, ok) =>
      if body.Some? {
        ProposeKeepsInv(w, st, k, Edited(Lookup(w.snap.entries, k), body.value, text), ok);
      }
    case DoDelete(k, text, ok) =>
      if Proposes(w, st, k) {
        ProposeKeepsInv(w, st, k, Buried(w.snap.entries[k], text), ok);
      }
    case DoCopy => CopyKeepsInv(w);
    case DoClear(h, ok) => ClearKeepsInv(w, h, ok);
    case DoRestart => RestartKeepsInv(w);
  }

  lemma {:induction false} RunKeepsInv(w: World, steps: seq<Step>)
    requires Inv(w) && ValidRun(w, steps)
    ensures Inv(Run(w, steps))
    decreases |steps|
  {
    if steps == [] {
    } else {
      StepKeepsInv(w, steps[0]);
      RunKeepsInv(Next(w, steps[0]), steps[1..]);
    }
  }

  lemma BootedInv(w: World)
    requires Booted(w)
    ensures Inv(w)
  {
    forall k | k in w.snap.entries && w.snap.entries[k].dirty ensures Pending(w, k) {}
    forall k | k in w.latest ensures SavedOk(w, k) {
      assert Pending(w, k);
    }
  }

  /**
   No offline edit is ever lost: in every interleaving, each key's latest edit or
   tombstone is still dirty with its value intact, or a report copied exactly it
   (an earlier report of the same text does not count).
   */
  lemma {:induction false} NoOfflineEditLost(w: World, steps: seq<Step>)
    requires Booted(w) && ValidRun(w, steps)
    ensures NothingLost(Run(w, steps))
  {
    BootedInv(w);
    RunKeepsInv(w, steps);
  }

  // ---- what a restart loses ----

  /** The last edit or delete of k wrote the file, or some later step did; `saved` is the answer before the run. */
  ghost function SavedSince(w: World, steps: seq<Step>, k: Key, saved: bool): bool
    decreases |steps|
  {
    if steps == [] then saved
    else
      var st := steps[0];
      SavedSince(Next(w, st), steps[1..], k, Saves(w, st) || (saved && !Proposes(w, st, k)))
  }

  /** The file's tag says the same. */
  ghost predicate TagSaysSaved(w: World, k: Key, saved: bool) {
    k in w.latest ==> saved == (Tag(w.diskTags, k) == w.latest[k].id)
  }

  lemma StepTracksSaved(w: World, st: Step, k: Key, saved: bool)
    requires Inv(w) && Enabled(w, st) && TagSaysSaved(w, k, saved)
    ensures TagSaysSaved(Next(w, st), k, Saves(w, st) || (saved && !Proposes(w, st, k)))
  {
    StepKeepsInv(w, st);
    var w' := Next(w, st);
    assert Tag(w.diskTags, k) <= w.count;
    if k in w'.latest { assert SavedOk(w', k); }
    if k in w.latest { assert SavedOk(w, k); }
  }

  lemma {:induction false} RunTracksSaved(w: World, steps: seq<Step>, k: Key, saved: bool)
    requires Inv(w) && ValidRun(w, steps) && TagSaysSaved(w, k, saved)
    ensures TagSaysSaved(Run(w, steps), k, SavedSince(w, steps, k, saved))
    decreases |steps|
  {
    if steps == [] {
    } else {
      StepTracksSaved(w, steps[0], k, saved);
      StepKeepsInv(w, steps[0]);
      RunTracksSaved(Next(w, steps[0]), steps[1..], k, Saves(w, steps[0]) || (saved && !Proposes(w, steps[0], k)));
    }
  }

  /**
   A restart at any moment of any run loses nothing exactly if the last edit or
   delete of every key was handed to the reporter, or it wrote the file itself,
   or some step after it did.
   */
  lemma {:induction false} RestartLosesNothingExactly(w: World, steps: seq<Step>)
    requires Booted(w) && ValidRun(w, steps)
    ensures var w' := Run(w, steps);
            NothingLost(Next(w', DoRestart)) <==>
            forall k :: k in w'.latest ==> Handed(w', k) || SavedSince(w, steps, k, true)
  {
    BootedInv(w);
    RunKeepsInv(w, steps);
    var w' := Run(w, steps);
    var r := Next(w', DoRestart);
    forall k | k in w'.latest
      ensures Pending(r, k) || Handed(r, k) <==> Handed(w', k) || SavedSince(w, steps, k, true)
    {
      RunTracksSaved(w, steps, k, true);
      assert SavedOk(w', k);
      PersistedHolds(w'.snap.disk, w'.diskTags, k, w'.latest[k]);
    }
  }

  /** An edit made while the file cannot be written is gone after a restart. */
  lemma EditLostWhenPersistFails(k: Key)
    ensures var w0 := World(Snapshot(map[], map[], false), map[], map[], map[], {}, {}, 0);
            var w := Next(w0, DoEdit(k, Some("x"), "", false));
            Booted(w0) && w.snap.persistFailed && !NothingLost(Next(w, DoRestart))
  {
    var w0 := World(Snapshot(map[], map[], false), map[], map[], map[], {}, {}, 0);
    var w := Next(w0, DoEdit(k, Some("x"), "", false));
    assert Persisted(map[]) == map[];
    assert k in w.latest;
    var w' := Next(w, DoRestart);
    assert !Pending(w', k) && !Handed(w', k);
  }

  // ---- the version chain ----

  ghost function Version(w: World, k: Key): Option<int> {
    if k in w.snap.entries && w.snap.entries[k].value.Doc? then w.snap.entries[k].value.version else None
  }

  ghost predicate EditsKey(st: Step, k: Key) {
    st.DoEdit? && st.key == k && st.body.Some?
  }

  /** The versions stamped on k, in order. */
  ghost function Stamps(w: World, steps: seq<Step>, k: Key): seq<Option<int>>
    decreases |steps|
  {
    if steps == [] then []
    else
      var w1 := Next(w, steps[0]);
      (if EditsKey(steps[0], k) then [Version(w1, k)] else []) + Stamps(w1, steps[1..], k)
  }

  ghost predicate Clears(w: World, st: Step, k: Key) {
    st.DoClear? && st.item.ticket.key == k && k in w.snap.entries && w.snap.entries[k].editSeq == st.item.ticket.editSeq
  }

  /** No acknowledgement clears k anywhere along the run. */
  ghost predicate Uncleared(w: World, steps: seq<Step>, k: Key)
    decreases |steps|
  {
    steps == [] || (!Clears(w, steps[0], k) && Uncleared(Next(w, steps[0]), steps[1..], k))
  }

  /** k waits to be reported at version b. */
  ghost predicate WaitsAt(w: World, k: Key, b: int) {
    k in w.snap.entries && w.snap.entries[k].dirty && Version(w, k) == Some(b)
  }

  lemma ChainStep(w: World, st: Step, k: Key, b: int)
    requires Inv(w) && Enabled(w, st) && !Clears(w, st, k) && WaitsAt(w, k, b)
    ensures WaitsAt(Next(w, st), k, if EditsKey(st, k) then b + 1 else b)
  {
    match st
    case DoRestart => ChainRestart(w, k, b);
    case DoClear(h, ok) => ChainClear(w, h, ok, k, b);
    case DoMirror(_, _, _) => ChainMirror(w, st, k, b);
    case DoEdit(_, _, _, _) => ChainEdit(w, st, k, b);
    case DoDelete(_, _, _) => ChainDelete(w, st, k, b);
    case DoCopy =>
  }

  lemma ChainMirror(w: World, st: Step, k: Key, b: int)
    requires st.DoMirror? && WaitsAt(w, k, b)
    ensures WaitsAt(Next(w, st), k, b)
  {
  }

  lemma ChainEdit(w: World, st: Step, k: Key, b: int)
    requires st.DoEdit? && WaitsAt(w, k, b)
    ensures WaitsAt(Next(w, st), k, if EditsKey(st, k) then b + 1 else b)
  {
  }

  lemma ChainDelete(w: World, st: Step, k: Key, b: int)
    requires st.DoDelete? && WaitsAt(w, k, b)
    ensures WaitsAt(Next(w, st), k, b)
  {
  }

  lemma ChainRestart(w: World, k: Key, b: int)
    requires Inv(w) && Enabled(w, DoRestart) && WaitsAt(w, k, b)
    ensures WaitsAt(Next(w, DoRestart), k, b)
  {
  }

  lemma ChainClear(w: World, h: Held, ok: bool, k: Key, b: int)
    requires Inv(w) && Enabled(w, DoClear(h, ok)) && !Clears(w, DoClear(h, ok), k) && WaitsAt(w, k, b)
    ensures WaitsAt(Next(w, DoClear(h, ok)), k, b)
  {
  }

  /** b + 1, b + 2, ... */
  ghost predicate Ascends(stamps: seq<Option<int>>, b: int) {
    forall i :: 0 <= i < |stamps| ==> stamps[i] == Some(b + 1 + i)
  }

  lemma AscendsCons(stamps: seq<Option<int>>, b: int)
    requires Ascends(stamps, b + 1)
    ensures Ascends([Some(b + 1)] + stamps, b)
  {
  }

  /**
   While an entry waits to be reported, mirror writes cannot intervene, deletes
   preserve the version, and successive edits (also across a delete and a
   recreate) stamp successive versions.
   */
  lemma {:induction false} VersionChain(w: World, steps: seq<Step>, k: Key, b: int)
    requires Inv(w) && ValidRun(w, steps) && Uncleared(w, steps, k) && WaitsAt(w, k, b)
    ensures Ascends(Stamps(w, steps, k), b)
    ensures WaitsAt(Run(w, steps), k, b + |Stamps(w, steps, k)|)
    decreases |steps|
  {
    if steps == [] {
    } else {
      var st := steps[0];
      var w1 := Next(w, st);
      StepKeepsInv(w, st);
      ChainStep(w, st, k, b);
      var b1 := if EditsKey(st, k) then b + 1 else b;
      var rest := Stamps(w1, steps[1..], k);
      VersionChain(w1, steps[1..], k, b1);
      if EditsKey(st, k) {
        AscendsCons(rest, b);
        assert Stamps(w, steps, k) == [Some(b + 1)] + rest;
      } else {
        assert Stamps(w, steps, k) == rest;
      }
    }
  }

  /** The first edit of a chain: base version, unreadable version, or no entry at all. */
  lemma FirstEditStamp(w: World, k: Key, body: string, text: string, ok: bool)
    ensures var w1 := Next(w, DoEdit(k, Some(body), text, ok));
            && w1.snap.entries[k].dirty
            && Version(w1, k) == Some(
                 if Version(w, k).Some? then Version(w, k).value + 1
                 else if k in w.snap.entries && (w.snap.entries[k].exists_ || w.snap.entries[k].value.Doc?) then 2
                 else 1)
  {
  }

  /** What a copy made now hands over for k, tombstone or not, carries version v. */
  ghost predicate CopiesVersion(w: World, k: Key, v: int) {
    var t := TicketFor(k, Lookup(w.snap.entries, k));
    Held(t, Tag(w.tags, k)) in Next(w, DoCopy).tickets && t.value.Doc? && t.value.version == Some(v)
  }

  lemma WaitingIsCopied(w: World, k: Key, v: int)
    requires WaitsAt(w, k, v)
    ensures CopiesVersion(w, k, v)
  {
    var t := TicketFor(k, w.snap.entries[k]);
    assert t in DirtyTickets(w.snap.entries) && t.key == k;
  }

  /** The item the reporter copies after such a run carries the last version stamped. */
  lemma {:induction false} ReportCarriesLastStamp(w: World, steps: seq<Step>, k: Key, b: int)
    requires Inv(w) && ValidRun(w, steps) && Uncleared(w, steps, k)
    requires WaitsAt(w, k, b)
    ensures CopiesVersion(Run(w, steps), k, b + |Stamps(w, steps, k)|)
  {
    VersionChain(w, steps, k, b);
    WaitingIsCopied(Run(w, steps), k, b + |Stamps(w, steps, k)|);
  }

  // ---- the module's state and its locked sections ----

  /** Only changes of the persist state are worth a report. */
  datatype Transition = NONE | FAILED | RECOVERED

  class ConfigSnapshot {
    var entries: Entries
    var initialized: bool
    var persistFailed: bool
    var disk: Entries       // the file

    constructor (file: Entries)
      ensures !initialized && !persistFailed && entries == map[] && disk == file
    {
      entries, initialized, persistFailed, disk := map[], false, false, file;
    }

    ghost function View(): Snapshot
      reads this
    {
      Snapshot(entries, disk, persistFailed)
    }

    /** config_snapshot_init: a missing file reads as empty; over a corrupt one it starts empty, too, and says so. */
    method Init(corrupt: bool) returns (ret: Status)
      modifies this
      ensures initialized && (ret == ERROR <==> corrupt)
      ensures View() == old(View()).(entries := if corrupt then map[] else Persisted(old(disk)))
    {
      entries := map[];
      initialized := true;
      if corrupt { return ERROR; }
      entries := Persisted(disk);
      ret := SUCCESS;
    }

    /** persist_and_track_locked */
    method PersistAndTrack(ok: bool) returns (report: Transition)
      modifies this`disk, this`persistFailed
      ensures View() == Persist(old(View()), ok)
      ensures persistFailed == !ok && (ok ==> SameButSequence(disk, entries)) && (!ok ==> disk == old(disk))
      ensures report == (if old(persistFailed) == !ok then NONE else if ok then RECOVERED else FAILED)
    {
      report := NONE;
      if !ok && !persistFailed { report := FAILED; }
      else if ok && persistFailed { report := RECOVERED; }
      if ok { disk := Persisted(entries); }
      persistFailed := !ok;
    }

    /** config_snapshot_watch_update */
    method WatchUpdate(k: Key, v: Option<Value>, ok: bool)
      modifies this
      ensures initialized == old(initialized)
      ensures View() == if initialized then AfterMirror(old(View()), k, v, ok) else old(View())
      ensures var was := old(entries);
              if !initialized || (k in was && (was[k].dirty || (was[k].exists_ == v.Some? && was[k].value == Text(v))))
              then entries == was && disk == old(disk)
              else
                && k in entries && entries[k].value == (if v.Some? then v.value else Empty) && entries[k].exists_ == v.Some?
                && !entries[k].dirty && entries[k].summary == []
                && entries[k].editSeq == (if k in was then was[k].editSeq else 0)
                && entries - {k} == was - {k} && (ok ==> disk == Persisted(entries)) && (!ok ==> disk == old(disk))
    {
      if !initialized { return; }
      if k in entries && entries[k].dirty { return; }
      var value := if v.Some? then v.value else Empty;
      if k in entries && entries[k].exists_ == v.Some? && entries[k].value == value { return; }
      var e := if k in entries then entries[k] else FRESH;
      e := e.(value := value);
      e := e.(exists_ := v.Some?);
      e := e.(dirty := false);
      e := e.(summary := []);
      entries := entries[k := e];
      var _ := PersistAndTrack(ok);
    }

    /** What an edit makes of its entry: the text, the version after the one it replaces, flags and summary. */
    method StampEdit(was: Entry, body: string, text: string) returns (e: Entry)
      ensures e == Edited(was, body, text)
      ensures e.value == Doc(body, Some(if was.value.Doc? && was.value.version.Some? then was.value.version.value + 1
                                        else if was.exists_ || was.value.Doc? then 2 else 1))
      ensures e.exists_ && e.dirty && e.editSeq == was.editSeq + 1
      ensures e.summary == was.summary + if text == "" then [] else [text]
    {
      var version: int;
      if !was.exists_ && was.value.Empty? {
        version := 1;
      } else if was.value.Empty? || was.value.version.None? {
        version := 2;
      } else {
        version := was.value.version.value + 1;
      }
      e := was.(value := Doc(body, Some(version)), exists_ := true, dirty := true, editSeq := was.editSeq + 1);
      if text != "" { e := e.(summary := e.summary + [text]); }
    }

    /** config_snapshot_offline_edit: succeeds even when the file cannot be written. */
    method OfflineEdit(k: Key, body: Option<string>, text: string, ok: bool) returns (ret: Status)
      modifies this
      ensures initialized == old(initialized)
      ensures ret == SUCCESS <==> initialized && body.Some?
      ensures View() == if ret == SUCCESS then AfterEdit(old(View()), k, body, text, ok)
                        else old(View())
      ensures ret == SUCCESS ==>
        var was := old(entries);
        && k in entries && entries[k].value.Doc? && entries[k].value.body == body.value
        && entries[k].exists_ && entries[k].dirty
        && entries[k].editSeq == (if k in was then was[k].editSeq else 0) + 1
        && entries[k].summary == (if k in was then was[k].summary else []) + (if text == "" then [] else [text])
        && entries - {k} == was - {k}
        && (if ok then disk == Persisted(entries) else disk == old(disk))
      ensures ret == SUCCESS ==>
        var was := old(entries);
        entries[k].value.version == Some(
          if k in was && was[k].value.Doc? && was[k].value.version.Some? then was[k].value.version.value + 1
          else if k in was && (was[k].exists_ || was[k].value.Doc?) then 2
          else 1)
    {
      if body.None? { return ERROR; }
      if !initialized { return ERROR; }
      var e := if k in entries then entries[k] else FRESH;
      e := StampEdit(e, body.value, text);
      entries := entries[k := e];
      var _ := PersistAndTrack(ok);
      ret := SUCCESS;
    }

    /** config_snapshot_offline_delete */
    method OfflineDelete(k: Key, text: string, ok: bool) returns (ret: Status)
      modifies this
      ensures initialized == old(initialized)
      ensures ret == SUCCESS <==> initialized
      ensures View() == if initialized then AfterDelete(old(View()), k, text, ok)
                        else old(View())
      ensures var was := old(entries);
              if !initialized || k !in was || !was[k].exists_ then entries == was && disk == old(disk)
              else
                && k in entries && entries[k].value == was[k].value && !entries[k].exists_ && entries[k].dirty
                && entries[k].editSeq == was[k].editSeq + 1
                && entries[k].summary == was[k].summary + (if text == "" then [] else [text])
                && entries - {k} == was - {k}
                && (if ok then disk == Persisted(entries) else disk == old(disk))
    {
      if !initialized { return ERROR; }
      if k !in entries || !entries[k].exists_ { return SUCCESS; }
      var e := entries[k].(exists_ := false, dirty := true, editSeq := entries[k].editSeq + 1);
      if text != "" { e := e.(summary := e.summary + [text]); }
      entries := entries[k := e];
      var _ := PersistAndTrack(ok);
      ret := SUCCESS;
    }

    /** config_snapshot_clear_dirty */
    method ClearDirty(k: Key, seenEditSeq: nat, ok: bool)
      modifies this
      ensures initialized == old(initialized)
      ensures View() == AfterClear(old(View()), k, seenEditSeq, ok)
      ensures var was := old(entries);
              if k !in was || was[k].editSeq != seenEditSeq then entries == was && disk == old(disk)
              else
                && entries == was[k := Entry(was[k].value, was[k].exists_, false, was[k].editSeq, [])]
                && (if ok then disk == Persisted(entries) else disk == old(disk))
    {
      if k !in entries { return; }
      if entries[k].editSeq != seenEditSeq { return; }
      entries := entries[k := entries[k].(dirty := false, summary := [])];
      var _ := PersistAndTrack(ok);
    }

    /** The locked copy of foreach_impl in dirty-only mode: each dirty entry once, tombstones included, in map order. */
    method CopyDirty() returns (items: seq<Ticket>)
      ensures forall t :: t in items <==> t in DirtyTickets(entries)
      ensures forall k :: k in entries && entries[k].dirty ==>
        Ticket(k, entries[k].value, !entries[k].exists_, entries[k].editSeq) in items
      ensures forall t :: t in items ==>
        && t.key in entries && entries[t.key].dirty && t.value == entries[t.key].value
        && t.tombstone == !entries[t.key].exists_ && t.editSeq == entries[t.key].editSeq
      ensures forall i, j :: 0 <= i < j < |items| ==> Before(items[i].key, items[j].key)
    {
      items := [];
      var left := entries.Keys;
      while left != {}
        invariant Copied(entries, left, items)
        decreases left
      {
        var k := FirstKey(left);
        CopiedStep(entries, left, items, k);
        left := left - {k};
        if entries[k].dirty {
          items := items + [TicketFor(k, entries[k])];
        }
      }
    }
  }

  // ---- the order of the map ----

  /** The dirty entries before those left, in order. */
  ghost predicate Copied(entries: Entries, left: set<Key>, items: seq<Ticket>) {
    && left <= entries.Keys
    && (forall t :: t in items <==> t in DirtyTickets(entries) && t.key !in left)
    && (forall i, k :: 0 <= i < |items| && k in left ==> Before(items[i].key, k))
    && (forall i, j :: 0 <= i < j < |items| ==> Before(items[i].key, items[j].key))
  }

  lemma CopiedStep(entries: Entries, left: set<Key>, items: seq<Ticket>, k: Key)
    requires Copied(entries, left, items) && k in left
    requires forall j :: j in left && j != k ==> Before(k, j)
    ensures Copied(entries, left - {k}, if entries[k].dirty then items + [TicketFor(k, entries[k])] else items)
  {
    var items' := if entries[k].dirty then items + [TicketFor(k, entries[k])] else items;
    forall t ensures t in items' <==> t in DirtyTickets(entries) && t.key !in left - {k} {
      assert t in items <==> t in DirtyTickets(entries) && t.key !in left;
    }
  }

  /** The text a key is stored under. */
  function KeyText(k: Key): string {
    (match k.kind case HSI => "hsi/" case DNS => "dns/" case COUNT => "count/") + k.user
  }

  /** Lexicographic order. */
  predicate Less(a: string, b: string) {
    if b == "" then false
    else if a == "" then true
    else a[0] < b[0] || (a[0] == b[0] && Less(a[1..], b[1..]))
  }

  predicate Before(a: Key, b: Key) {
    Less(KeyText(a), KeyText(b))
  }

  lemma {:induction false} LessTotal(a: string, b: string)
    ensures Less(a, b) || a == b || Less(b, a)
  {
    if a != "" && b != "" && a[0] == b[0] {
      LessTotal(a[1..], b[1..]);
      assert a == [a[0]] + a[1..] && b == [b[0]] + b[1..];
    }
  }

  lemma {:induction false} LessTransitive(a: string, b: string, c: string)
    requires Less(a, b) && Less(b, c)
    ensures Less(a, c)
  {
    if a != "" && a[0] == b[0] && b[0] == c[0] { LessTransitive(a[1..], b[1..], c[1..]); }
  }

  /** Different keys are stored under different texts. */
  lemma KeyTextInjective(a: Key, b: Key)
    requires KeyText(a) == KeyText(b)
    ensures a == b
  {
    assert KeyText(a)[0] == match a.kind case HSI => 'h' case DNS => 'd' case COUNT => 'c';
    assert KeyText(b)[0] == match b.kind case HSI => 'h' case DNS => 'd' case COUNT => 'c';
    var n := match a.kind case HSI => 4 case DNS => 4 case COUNT => 6;
    assert KeyText(a)[n..] == a.user && KeyText(b)[n..] == b.user;
  }

  /** The least key of a set: where an ordered map begins. */
  method FirstKey(keys: set<Key>) returns (first: Key)
    requires keys != {}
    ensures first in keys && forall k :: k in keys && k != first ==> Before(first, k)
  {
    first :| first in keys;
    var rest := keys - {first};
    while rest != {}
      invariant first in keys && rest <= keys && first !in rest
      invariant forall k :: k in keys && k !in rest && k != first ==> Before(first, k)
      decreases rest
    {
      var k :| k in rest;
      rest := rest - {k};
      LessTotal(KeyText(first), KeyText(k));
      if Less(KeyText(k), KeyText(first)) {
        forall j | j in keys && j !in rest && j != k ensures Before(k, j) {
          if j != first { LessTransitive(KeyText(k), KeyText(first), KeyText(j)); }
        }
        first := k;
      } else if KeyText(first) == KeyText(k) {
        KeyTextInjective(first, k);
      }
    }
  }
}
