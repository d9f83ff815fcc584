/**
 Bookkeeping of the CLI packet capture: a matrix of (port, subscriber) switches,
 counters derived from it, the compiled filters, the per-port burst callbacks,
 and the session resources (ring, pool, file, writer) that exist while at least
 one switch is on.
 */
module CaptureSession {
  import opened Common

  const PDUMP_MAX_SIZE_MB := 2048
  const PDUMP_MAX_FILTER_LEN := 1024
  const PDUMP_MAX_FILTERS := 32
  const PDUMP_SNAPLEN := 262144
  const PCAP_FILE_HDR := 24
  const PCAP_REC_HDR := 16

  // ---- counting switches ----

  ghost function CountOn(row: seq<bool>): (n: nat)
    ensures n <= |row|
  {
    if row == [] then 0 else CountOn(row[..|row| - 1]) + if row[|row| - 1] then 1 else 0
  }

  lemma {:induction false} CountUpdate(row: seq<bool>, i: nat, b: bool)
    requires i < |row|
    ensures CountOn(row[i := b]) == CountOn(row) - (if row[i] then 1 else 0) + (if b then 1 else 0)
  {
    var n := |row| - 1;
    if i == n {
      assert row[i := b][..n] == row[..n];
    } else {
      assert row[i := b][..n] == row[..n][i := b];
      CountUpdate(row[..n], i, b);
    }
  }

  lemma {:induction false} CountZero(row: seq<bool>)
    ensures CountOn(row) == 0 <==> forall i :: 0 <= i < |row| ==> !row[i]
  {
    if row == [] {
    } else {
      CountZero(row[..|row| - 1]);
      assert forall i :: 0 <= i < |row| - 1 ==> row[..|row| - 1][i] == row[i];
    }
  }

  /** A row with one value from lo to hi. */
  ghost function Range<T>(row: seq<T>, lo: int, hi: int, value: T): (r: seq<T>)
    ensures |r| == |row|
    ensures forall i :: 0 <= i < |row| ==> r[i] == if lo <= i <= hi then value else row[i]
  {
    seq(|row|, i requires 0 <= i < |row| => if lo <= i <= hi then value else row[i])
  }

  /** The same, if the port is covered. */
  ghost function Marked<T>(row: seq<T>, covered: bool, lo: int, hi: int, value: T): seq<T> {
    if covered then Range(row, lo, hi, value) else row
  }

  // ---- one port ----

  /** The switches and filters of a port. */
  datatype Rows = Rows(on: seq<bool>, filter: seq<Option<nat>>)

  /**
   A request for one subscriber, or for all of them with 0, has set exactly those
   slots to a switch and a filter.
   */
  ghost predicate Switched(was: Rows, now: Rows, subscriber: nat, userCount: nat, on: bool, f: Option<nat>) {
    && |now.on| == |was.on| && |now.filter| == |was.filter| == |was.on|
    && forall i :: 0 <= i < |was.on| ==>
         if (if subscriber == 0 then i < userCount else i == subscriber - 1)
         then now.on[i] == on && now.filter[i] == f
         else now.on[i] == was.on[i] && now.filter[i] == was.filter[i]
  }

  ghost function RangeOf(was: Rows, lo: int, hi: int, on: bool, f: Option<nat>): Rows {
    Rows(Range(was.on, lo, hi, on), Range(was.filter, lo, hi, f))
  }

  lemma RangeSwitches(was: Rows, subscriber: nat, userCount: nat, on: bool, f: Option<nat>)
    requires |was.on| == |was.filter| && subscriber <= userCount <= |was.on|
    ensures var lo, hi := First(subscriber), Last(subscriber, userCount);
            Switched(was, RangeOf(was, lo, hi, on, f), subscriber, userCount, on, f)
  {
  }

  /** capture_on[p], filter[p], active_per_port[p] and the callbacks of port p. */
  class PortCapture {
    const on: array<bool>
    const filter: array<Option<nat>>
    var active: int
    var linked: bool

    constructor (slots: nat)
      ensures fresh(on) && fresh(filter) && on.Length == filter.Length == slots
      ensures !linked && active == 0 && CountOn(on[..]) == 0
      ensures forall i :: 0 <= i < slots ==> !on[i] && filter[i] == None
    {
      on := new bool[slots](_ => false);
      filter := new Option<nat>[slots](_ => None);
      active, linked := 0, false;
      new;
      CountZero(on[..]);
    }

    ghost function Slots(): Rows
      reads this, on, filter
    {
      Rows(on[..], filter[..])
    }

    /** The counter is the number of set switches, callbacks need one, filters sit on set switches only. */
    ghost predicate Valid(filters: seq<nat>)
      reads this, on, filter
    {
      && on.Length == filter.Length
      && active == CountOn(on[..])
      && (linked ==> active > 0)
      && forall i :: 0 <= i < filter.Length && filter[i].Some? ==> on[i] && filter[i].value in filters
    }

    /** One turn of the start loop: publish the filter, then switch on. */
    method EnableOne(ccb: nat, f: Option<nat>) returns (added: nat)
      requires on.Length == filter.Length && ccb < on.Length && active == CountOn(on[..])
      modifies this`active, on, filter
      ensures on[..] == old(on[..])[ccb := true] && filter[..] == old(filter[..])[ccb := f]
      ensures active == CountOn(on[..]) == old(active) + added
    {
      filter[ccb] := f;
      added := 0;
      CountUpdate(on[..], ccb, true);
      assert on[ccb] ==> on[..][ccb := true] == on[..];
      if !on[ccb] {
        on[ccb] := true;
        active := active + 1;
        added := 1;
      }
    }

    /** The start loop over one port. `registers` is whether rte_eth_dev_info_get answers. */
    method EnableRange(lo: nat, hi: nat, f: Option<nat>, registers: bool, ghost filters: seq<nat>)
      returns (added: nat)
      requires Valid(filters) && lo <= hi < on.Length
      requires f.Some? ==> f.value in filters
      modifies this, on, filter
      ensures Valid(filters) && active == old(active) + added && active > 0
      ensures on[..] == Range(old(on[..]), lo, hi, true) && filter[..] == Range(old(filter[..]), lo, hi, f)
      ensures linked == (if old(active) == 0 then registers else old(linked))
    {
      added := 0;
      var wasIdle := active == 0;
      var ccb := lo;
      while ccb <= hi
        invariant lo <= ccb <= hi + 1
        invariant active == CountOn(on[..]) == old(active) + added && linked == old(linked)
        invariant forall i :: 0 <= i < on.Length ==> on[i] == (old(on[i]) || lo <= i < ccb)
        invariant forall i :: 0 <= i < on.Length ==>
          filter[i] == if lo <= i < ccb then f else old(filter[i])
      {
        var n := EnableOne(ccb, f);
        added := added + n;
        ccb := ccb + 1;
      }
      assert on[..][lo];
      CountZero(on[..]);
      if wasIdle && active > 0 { linked := registers; }
    }

    /** One turn of the stop loop: only a slot that is on loses its filter. */
    method DisableOne(ccb: nat) returns (removed: nat)
      requires on.Length == filter.Length && ccb < on.Length && active == CountOn(on[..])
      modifies this`active, on, filter
      ensures on[..] == old(on[..])[ccb := false]
      ensures filter[..] == if old(on[ccb]) then old(filter[..])[ccb := None] else old(filter[..])
      ensures active == CountOn(on[..]) == old(active) - removed
    {
      removed := 0;
      if on[ccb] {
        CountUpdate(on[..], ccb, false);
        on[ccb] := false;
        filter[ccb] := None;
        active := active - 1;
        removed := 1;
      } else {
        assert on[..][ccb := false] == on[..];
      }
    }

    /** pdump_stop_range over one port. */
    method DisableRange(lo: nat, hi: int, ghost filters: seq<nat>) returns (removed: nat)
      requires Valid(filters) && hi < on.Length
      modifies this, on, filter
      ensures Valid(filters) && active == old(active) - removed
      ensures on[..] == Range(old(on[..]), lo, hi, false) && filter[..] == Range(old(filter[..]), lo, hi, None)
      ensures linked == (old(linked) && active > 0)
    {
      removed := 0;
      var ccb := lo;
      while ccb <= hi
        invariant lo <= ccb && (lo <= hi ==> ccb <= hi + 1)
        invariant active == CountOn(on[..]) == old(active) - removed && linked == old(linked)
        invariant forall i :: 0 <= i < on.Length ==>
          on[i] == (old(on[i]) && !(lo <= i < ccb && i <= hi))
        invariant forall i :: 0 <= i < on.Length ==>
          filter[i] == if lo <= i < ccb && i <= hi && old(on[i]) then None else old(filter[i])
      {
        var n := DisableOne(ccb);
        removed := removed + n;
        ccb := ccb + 1;
      }
      if active == 0 { linked := false; }
    }

    /** One port of the cleanup: the switch row is wiped, the callbacks go. */
    method SwitchAllOff()
      modifies this, on
      ensures active == CountOn(on[..]) == 0 && !linked
      ensures forall i :: 0 <= i < on.Length ==> !on[i]
    {
      var i := 0;
      while i < on.Length
        invariant 0 <= i <= on.Length
        invariant forall j :: 0 <= j < i ==> !on[j]
        modifies on
      {
        on[i] := false;
        i := i + 1;
      }
      active, linked := 0, false;
      CountZero(on[..]);
    }

    /** The memset of the filter row at teardown. */
    method ClearFilters()
      requires filter.Length == on.Length
      modifies filter
      ensures forall i :: 0 <= i < filter.Length ==> filter[i] == None
    {
      var i := 0;
      while i < filter.Length
        invariant 0 <= i <= filter.Length
        invariant forall j :: 0 <= j < i ==> filter[j] == None
      {
        filter[i] := None;
        i := i + 1;
      }
    }
  }

  // ---- verdicts ----

  datatype Direction = WAN | LAN | ALL | UNKNOWN

  /** What a start request carries and what compiling and opening answer. */
  datatype StartRequest = StartRequest(dir: Direction, subscriber: nat, filterLen: nat, sizeMb: nat,
                                       compiles: bool, opens: bool,
                                       lanRegisters: bool, wanRegisters: bool)

  /** How a start ends: refused before anything changed, failed after compiling a filter, or started. */
  datatype StartVerdict = Refused | FailedAfterCompile | Started

  function StartDecision(r: StartRequest, userCount: nat, idle: bool, paused: bool, nbFilters: nat): StartVerdict {
    if r.dir.UNKNOWN? || r.subscriber > userCount || userCount == 0 || r.filterLen > PDUMP_MAX_FILTER_LEN then Refused
    else if r.filterLen > 0 && (nbFilters >= PDUMP_MAX_FILTERS || !r.compiles) then Refused
    else if (if idle then r.opens else !paused) then Started
    else if r.filterLen > 0 then FailedAfterCompile
    else Refused
  }

  predicate StopAccepted(dir: Direction, subscriber: nat, userCount: nat, idle: bool) {
    !dir.UNKNOWN? && subscriber <= userCount && userCount > 0 && !idle
  }

  /** First and last subscriber slot of a request; 0 means all. */
  function First(subscriber: nat): nat {
    if subscriber == 0 then 0 else subscriber - 1
  }

  function Last(subscriber: nat, userCount: nat): int {
    if subscriber == 0 then userCount - 1 else subscriber - 1
  }

  function EffectiveLimit(sizeMb: nat): nat {
    (if sizeMb == 0 || sizeMb > PDUMP_MAX_SIZE_MB then PDUMP_MAX_SIZE_MB else sizeMb) * 1024 * 1024
  }

  // ---- the size limit ----

  /** How the writes of one record end. */
  datatype RecordIo = AllWritten | HeaderShort(written: nat) | BodyShort(written: nat)

  /** Writer state: limit, the counter it compares with, bytes really in the file. */
  datatype Writer = Writer(limit: nat, counted: nat, inFile: nat, paused: bool)

  function CapLen(pktLen: nat): nat {
    if pktLen > PDUMP_SNAPLEN then PDUMP_SNAPLEN else pktLen
  }

  predicate Fits(w: Writer, pktLen: nat) {
    w.limit == 0 || w.counted + PCAP_REC_HDR + CapLen(pktLen) <= w.limit
  }

  ghost predicate Plausible(pktLen: nat, io: RecordIo) {
    match io
    case AllWritten => true
    case HeaderShort(n) => n < PCAP_REC_HDR
    case BodyShort(n) => n < CapLen(pktLen)
  }

  /** pdump_write_record: when the record would not fit, the capture is paused and nothing written. */
  function WriteRecord(w: Writer, pktLen: nat, io: RecordIo): Writer {
    var capLen := CapLen(pktLen);
    if !Fits(w, pktLen) then w.(paused := true)
    else match io
      case AllWritten => w.(counted := w.counted + PCAP_REC_HDR + capLen, inFile := w.inFile + PCAP_REC_HDR + capLen)
      case HeaderShort(n) => w.(inFile := w.inFile + n)
      case BodyShort(n) => w.(counted := w.counted + PCAP_REC_HDR, inFile := w.inFile + PCAP_REC_HDR + n)
  }

  function WriteAll(w: Writer, recs: seq<(nat, RecordIo)>): Writer
    decreases |recs|
  {
    if recs == [] then w else WriteAll(WriteRecord(w, recs[0].0, recs[0].1), recs[1..])
  }

  /** The counter never passes the limit, and every byte counted is in the file. */
  lemma {:induction false} CountedWithinLimit(w: Writer, recs: seq<(nat, RecordIo)>)
    requires 0 < w.limit && w.counted <= w.limit && w.counted <= w.inFile
    ensures var w' := WriteAll(w, recs);
            w'.limit == w.limit && w'.counted <= w.limit && w'.counted <= w'.inFile
    decreases |recs|
  {
    if recs == [] {
    } else {
      CountedWithinLimit(WriteRecord(w, recs[0].0, recs[0].1), recs[1..]);
    }
  }

  /** Bytes that short writes leave in the file without counting them. */
  function Leaked(w: Writer, recs: seq<(nat, RecordIo)>): nat
    decreases |recs|
  {
    if recs == [] then 0
    else
      (if !Fits(w, recs[0].0) || recs[0].1.AllWritten? then 0 else recs[0].1.written) +
      Leaked(WriteRecord(w, recs[0].0, recs[0].1), recs[1..])
  }

  /** The file runs ahead of the counter by exactly what leaked. */
  lemma {:induction false} FileIsCountedPlusLeaked(w: Writer, recs: seq<(nat, RecordIo)>)
    ensures var w' := WriteAll(w, recs);
            w'.inFile - w'.counted == w.inFile - w.counted + Leaked(w, recs)
    decreases |recs|
  {
    if recs == [] {
    } else {
      FileIsCountedPlusLeaked(WriteRecord(w, recs[0].0, recs[0].1), recs[1..]);
    }
  }

  /** When the file of a session stays within its limit, over any records and any short writes. */
  lemma {:induction false} FileWithinLimitExactly(w: Writer, recs: seq<(nat, RecordIo)>)
    requires w.counted == w.inFile
    ensures WriteAll(w, recs).inFile <= w.limit <==> WriteAll(w, recs).counted + Leaked(w, recs) <= w.limit
  {
    FileIsCountedPlusLeaked(w, recs);
  }

  lemma {:induction false} NothingLeaks(w: Writer, recs: seq<(nat, RecordIo)>)
    requires FullyWritten(recs)
    ensures Leaked(w, recs) == 0
    decreases |recs|
  {
    if recs == [] {
    } else {
      NothingLeaks(WriteRecord(w, recs[0].0, recs[0].1), recs[1..]);
    }
  }

  /** In particular, without short writes. */
  lemma FileWithinLimit(w: Writer, recs: seq<(nat, RecordIo)>)
    requires 0 < w.limit && w.counted == w.inFile <= w.limit
    requires FullyWritten(recs)
    ensures WriteAll(w, recs).inFile == WriteAll(w, recs).counted <= w.limit
  {
    NothingLeaks(w, recs);
    FileIsCountedPlusLeaked(w, recs);
    CountedWithinLimit(w, recs);
  }

  ghost predicate FullyWritten(recs: seq<(nat, RecordIo)>) {
    forall i :: 0 <= i < |recs| ==> recs[i].1.AllWritten?
  }

  /** What the size limit leaves of a writer: the counter within it, and the file not behind the counter. */
  ghost predicate WriterOk(w: Writer) {
    0 < w.limit && w.counted <= w.limit && w.counted <= w.inFile
  }

  /** Not even an empty record fits any more. */
  lemma {:induction false} Stuck(w: Writer, recs: seq<(nat, RecordIo)>)
    requires 0 < w.limit < w.counted + PCAP_REC_HDR
    ensures WriteAll(w, recs).inFile == w.inFile && WriteAll(w, recs).counted == w.counted
    decreases |recs|
  {
    if recs == [] {
    } else {
      Stuck(WriteRecord(w, recs[0].0, recs[0].1), recs[1..]);
    }
  }

  /** While a record header fits, fully written records can use the limit up to the last byte. */
  lemma {:induction false} Fill(w: Writer) returns (recs: seq<(nat, RecordIo)>)
    requires 0 < w.limit && w.counted + PCAP_REC_HDR <= w.limit
    ensures FullyWritten(recs) && WriteAll(w, recs).counted == w.limit == WriteAll(w, recs).limit
    decreases w.limit - w.counted
  {
    var gap := w.limit - w.counted;
    if gap <= PCAP_REC_HDR + PDUMP_SNAPLEN {
      recs := [(gap - PCAP_REC_HDR, AllWritten)];
      assert recs[1..] == [];
    } else {
      var some := PDUMP_SNAPLEN / 2;
      var rest := Fill(WriteRecord(w, some, AllWritten));
      recs := [(some, AllWritten)] + rest;
      assert recs[1..] == rest;
    }
  }

  /**
   Whether the file will stay within its limit, told from the writer alone: every
   continuation by fully written records does exactly if the file is within the
   limit now and nothing has leaked, or no further record can fit.
   */
  lemma StaysWithinLimitExactly(w: Writer)
    requires WriterOk(w)
    ensures (forall recs :: FullyWritten(recs) ==> WriteAll(w, recs).inFile <= w.limit) <==>
              w.inFile <= w.limit && (w.inFile == w.counted || w.counted + PCAP_REC_HDR > w.limit)
  {
    if forall recs :: FullyWritten(recs) ==> WriteAll(w, recs).inFile <= w.limit {
      assert FullyWritten([]) && WriteAll(w, []) == w;
      if w.counted + PCAP_REC_HDR <= w.limit {
        var recs := Fill(w);
        NothingLeaks(w, recs);
        FileIsCountedPlusLeaked(w, recs);
      }
    }
    if w.inFile <= w.limit && (w.inFile == w.counted || w.counted + PCAP_REC_HDR > w.limit) {
      forall recs | FullyWritten(recs) ensures WriteAll(w, recs).inFile <= w.limit {
        if w.inFile == w.counted {
          FileWithinLimit(w, recs);
        } else {
          Stuck(w, recs);
        }
      }
    }
  }

  // ---- sessions, on values ----

  /** The switches, whether ring, pool, file and writer exist, the filters held, and the writer while it exists. */
  datatype Session = Session(lan: seq<bool>, wan: seq<bool>, open: bool, filters: nat, writer: Writer)

  const NO_WRITER := Writer(0, 0, 0, false)

  ghost predicate AnyOn(row: seq<bool>) {
    exists i :: 0 <= i < |row| && row[i]
  }

  /** fastrg_pdump_start */
  ghost function AfterStart(s: Session, r: StartRequest, userCount: nat): Session {
    var v := StartDecision(r, userCount, !s.open, s.writer.paused, s.filters);
    var kept := if v != Refused && r.filterLen > 0 then s.filters + 1 else s.filters;
    if v != Started then s.(filters := kept) else Joined(s.(filters := kept), r, userCount)
  }

  /** The session opened if there was none, and the requested slots switched on. */
  ghost function Joined(s: Session, r: StartRequest, userCount: nat): Session {
    var lo, hi := First(r.subscriber), Last(r.subscriber, userCount);
    Session(Marked(s.lan, r.dir.LAN? || r.dir.ALL?, lo, hi, true),
            Marked(s.wan, r.dir.WAN? || r.dir.ALL?, lo, hi, true),
            true, s.filters,
            if s.open then s.writer else Writer(EffectiveLimit(r.sizeMb), PCAP_FILE_HDR, PCAP_FILE_HDR, false))
  }

  /** Switching a range off; with the last switch the session ends and its filters go. */
  ghost function AfterStopRange(s: Session, d: Direction, lo: int, hi: int): Session {
    var lan := Marked(s.lan, d.LAN? || d.ALL?, lo, hi, false);
    var wan := Marked(s.wan, d.WAN? || d.ALL?, lo, hi, false);
    if AnyOn(lan) || AnyOn(wan) then s.(lan := lan, wan := wan) else Session(lan, wan, false, 0, NO_WRITER)
  }

  /** fastrg_pdump_disable_ccb */
  ghost function AfterDisable(s: Session, toRemove: nat, current: nat): Session {
    if toRemove == 0 || toRemove > current || current > |s.lan| || !s.open then s
    else AfterStopRange(s, ALL, current - toRemove, current - 1)
  }

  lemma DisableIsStop(s: Session, toRemove: nat, current: nat)
    requires 0 < toRemove <= current <= |s.lan| && s.open
    ensures AfterDisable(s, toRemove, current) == AfterStopRange(s, ALL, current - toRemove, current - 1)
  {
  }

  datatype Op =
    | StartOp(r: StartRequest, userCount: nat)
    | StopOp(dir: Direction, subscriber: nat, userCount: nat)
    | DisableOp(toRemove: nat, currentCount: nat)
    | RecordOp(pktLen: nat, io: RecordIo)     // the writer thread

  ghost function Next(s: Session, op: Op): Session {
    match op
    case StartOp(r, n) => AfterStart(s, r, n)
    case StopOp(d, subscriber, n) =>
      if StopAccepted(d, subscriber, n, !s.open) then AfterStopRange(s, d, First(subscriber), Last(subscriber, n))
      else s
    case DisableOp(toRemove, current) => AfterDisable(s, toRemove, current)
    case RecordOp(pktLen, io) => if s.open then s.(writer := WriteRecord(s.writer, pktLen, io)) else s
  }

  ghost function Run(s: Session, ops: seq<Op>): Session
    decreases |ops|
  {
    if ops == [] then s else Run(Next(s, ops[0]), ops[1..])
  }

  ghost function Boot(slots: nat): Session {
    Session(seq(slots, _ => false), seq(slots, _ => false), false, 0, NO_WRITER)
  }

  // ---- the size limit over whole runs ----

  /** At boot and after every operation, an open session's writer obeys its limit. */
  lemma {:induction false} RunKeepsWriter(s: Session, ops: seq<Op>)
    requires s.open ==> WriterOk(s.writer)
    ensures Run(s, ops).open ==> WriterOk(Run(s, ops).writer)
    decreases |ops|
  {
    if ops == [] {
    } else {
      RunKeepsWriter(Next(s, ops[0]), ops[1..]);
    }
  }

  ghost function Records(recs: seq<(nat, RecordIo)>): seq<Op> {
    seq(|recs|, i requires 0 <= i < |recs| => RecordOp(recs[i].0, recs[i].1))
  }

  lemma {:induction false} RunRecords(s: Session, recs: seq<(nat, RecordIo)>)
    requires s.open
    ensures Run(s, Records(recs)) == s.(writer := WriteAll(s.writer, recs))
    decreases |recs|
  {
    if recs == [] {
    } else {
      assert Records(recs)[1..] == Records(recs[1..]);
      RunRecords(Next(s, RecordOp(recs[0].0, recs[0].1)), recs[1..]);
    }
  }

  /**
   After any run from boot that leaves a session open, its file stays within the
   limit, whatever fully written records follow, exactly if no short write has
   left bytes behind (and the file is within it now), or it is full to a header.
   */
  lemma SessionStaysWithinLimitExactly(slots: nat, ops: seq<Op>)
    requires Run(Boot(slots), ops).open
    ensures var w := Run(Boot(slots), ops).writer;
            (forall recs :: FullyWritten(recs) ==>
               Run(Run(Boot(slots), ops), Records(recs)).writer.inFile <= w.limit) <==>
            w.inFile <= w.limit && (w.inFile == w.counted || w.counted + PCAP_REC_HDR > w.limit)
  {
    var s := Run(Boot(slots), ops);
    RunKeepsWriter(Boot(slots), ops);
    StaysWithinLimitExactly(s.writer);
    forall recs ensures Run(s, Records(recs)).writer == WriteAll(s.writer, recs) {
      RunRecords(s, recs);
    }
  }

  /** An unfiltered capture of one subscriber with the smallest limit there is, one mebibyte. */
  ghost function SmallCapture(): Op {
    StartOp(StartRequest(ALL, 0, 0, 1, true, true, true, true), 1)
  }

  /** One record cut short one byte before its end, then fully written ones: the file passes its limit. */
  lemma ShortWriteEscapesLimit() returns (recs: seq<(nat, RecordIo)>)
    ensures Plausible(60, BodyShort(59)) && FullyWritten(recs)
    ensures var s := Run(Boot(1), [SmallCapture(), RecordOp(60, BodyShort(59))]);
            && s.open && s.writer.limit == 1024 * 1024
            && Run(s, Records(recs)).writer.inFile > s.writer.limit
  {
    var w := Writer(EffectiveLimit(1), PCAP_FILE_HDR, PCAP_FILE_HDR, false);
    var s1 := Next(Boot(1), SmallCapture());
    assert s1.open && s1.writer == w;
    var s2 := Next(s1, RecordOp(60, BodyShort(59)));
    var ops := [SmallCapture(), RecordOp(60, BodyShort(59))];
    assert ops[1..] == [RecordOp(60, BodyShort(59))] && ops[1..][1..] == [];
    assert Run(s1, ops[1..]) == Run(s2, []) == s2;
    recs := Fill(s2.writer);
    NothingLeaks(s2.writer, recs);
    FileIsCountedPlusLeaked(s2.writer, recs);
    RunRecords(s2, recs);
  }

  // ---- compiled filters over whole runs ----

  /** The operation compiles a filter: a well-formed start with a filter that compiles, below the cap. */
  ghost predicate Compiles(s: Session, op: Op) {
    && op.StartOp? && !op.r.dir.UNKNOWN? && op.r.subscriber <= op.userCount && op.userCount > 0
    && 0 < op.r.filterLen <= PDUMP_MAX_FILTER_LEN && op.r.compiles && s.filters < PDUMP_MAX_FILTERS
  }

  ghost predicate TearsDown(s: Session, op: Op) {
    s.open && !Next(s, op).open
  }

  /** How many filters were compiled since the last teardown, `before` of them earlier. */
  ghost function SinceTeardown(s: Session, ops: seq<Op>, before: nat): nat
    decreases |ops|
  {
    if ops == [] then before
    else SinceTeardown(Next(s, ops[0]), ops[1..],
                       if TearsDown(s, ops[0]) then 0 else if Compiles(s, ops[0]) then before + 1 else before)
  }

  /** The session holds every filter compiled since the last teardown, of failed starts too. */
  lemma {:induction false} FiltersSinceTeardown(s: Session, ops: seq<Op>)
    ensures Run(s, ops).filters == SinceTeardown(s, ops, s.filters)
    decreases |ops|
  {
    if ops == [] {
    } else {
      FiltersSinceTeardown(Next(s, ops[0]), ops[1..]);
    }
  }

  /** Some request with a filter would be started. */
  ghost predicate FilteredStartPossible(s: Session) {
    exists r: StartRequest, n: nat :: r.filterLen > 0 && Next(s, StartOp(r, n)).open && !s.open
  }

  /** After any run from boot, an idle context can start a filtered capture exactly below 32 filters compiled since the last teardown. */
  lemma {:induction false} IdleContextRunsOutOfFilters(slots: nat, ops: seq<Op>)
    requires !Run(Boot(slots), ops).open
    ensures FilteredStartPossible(Run(Boot(slots), ops)) <==>
              SinceTeardown(Boot(slots), ops, 0) < PDUMP_MAX_FILTERS
  {
    FiltersSinceTeardown(Boot(slots), ops);
    var s := Run(Boot(slots), ops);
    if s.filters < PDUMP_MAX_FILTERS {
      var r := StartRequest(ALL, 0, 1, 0, true, true, true, true);
      assert Next(s, StartOp(r, 1)).open;
    }
  }

  /** A start whose filter compiles and whose session then cannot be opened. */
  ghost function FailingStart(): Op {
    StartOp(StartRequest(ALL, 0, 1, 0, true, false, true, true), 1)
  }

  ghost function FailingStarts(n: nat): seq<Op> {
    if n == 0 then [] else [FailingStart()] + FailingStarts(n - 1)
  }

  /** Each failing start leaves one filter behind; 32 of them fill the list of a context that never captured anything. */
  lemma {:induction false} FailedOpensFillTheList(s: Session, n: nat)
    requires !s.open && s.filters + n <= PDUMP_MAX_FILTERS
    ensures Run(s, FailingStarts(n)) == s.(filters := s.filters + n)
    decreases n
  {
    if n > 0 {
      var ops := FailingStarts(n);
      assert ops[0] == FailingStart() && ops[1..] == FailingStarts(n - 1);
      FailedOpensFillTheList(Next(s, FailingStart()), n - 1);
    }
  }

  /** Some unfiltered start of the run succeeds. */
  ghost predicate UnfilteredStarts(s: Session, ops: seq<Op>)
    decreases |ops|
  {
    ops != [] &&
    ((ops[0].StartOp? && ops[0].r.filterLen == 0 && Next(s, ops[0]).open) || UnfilteredStarts(Next(s, ops[0]), ops[1..]))
  }

  /** A full list is never emptied, whatever is started or stopped, before an unfiltered capture has been started. */
  lemma {:induction false} StuckUntilUnfilteredStart(s: Session, ops: seq<Op>)
    requires !s.open && s.filters >= PDUMP_MAX_FILTERS && !UnfilteredStarts(s, ops)
    ensures Run(s, ops) == s
    decreases |ops|
  {
    if ops == [] {
    } else {
      assert Next(s, ops[0]) == s;
      StuckUntilUnfilteredStart(s, ops[1..]);
    }
  }

  /** Starting and stopping an unfiltered capture does empty it. */
  lemma UnfilteredSessionEmptiesTheList(s: Session, r: StartRequest, n: nat)
    requires !s.open && !AnyOn(s.lan) && !AnyOn(s.wan) && n <= |s.lan| == |s.wan|
    requires r.filterLen == 0 && StartDecision(r, n, true, s.writer.paused, s.filters) == Started
    ensures Run(s, [StartOp(r, n), StopOp(ALL, 0, n)]) == s.(filters := 0, writer := NO_WRITER)
  {
    var s1 := Next(s, StartOp(r, n));
    var s2 := Next(s1, StopOp(ALL, 0, n));
    assert forall i :: 0 <= i < |s.lan| ==> !s.lan[i] && !s.wan[i];
    assert s2.lan == s.lan && s2.wan == s.wan;
    assert [StartOp(r, n), StopOp(ALL, 0, n)][1..] == [StopOp(ALL, 0, n)];
    assert [StopOp(ALL, 0, n)][1..] == [];
    assert Run(s1, [StopOp(ALL, 0, n)]) == Run(s2, []) == s2;
  }

  // ---- the context ----

  class PdumpContext {
    const slots: nat
    const lan: PortCapture
    const wan: PortCapture
    var anyActive: int
    var filterList: seq<nat>    // ids of the compiled filters, newest first
    var nbFilters: nat
    var nextFilter: nat
    var open: bool              // ring, pool, file and writer exist
    var sizeLimit: nat
    var bytesWritten: nat
    var paused: bool
    ghost var inFile: nat       // bytes in the capture file

    /** The switches, their counters and the filters agree. */
    ghost predicate Matrix()
      reads this, lan, wan, lan.on, wan.on, lan.filter, wan.filter
    {
      && lan != wan && lan.on != wan.on && lan.filter != wan.filter
      && lan.on.Length == wan.on.Length == slots
      && lan.Valid(filterList) && wan.Valid(filterList)
      && anyActive == lan.active + wan.active
      && nbFilters == |filterList| <= PDUMP_MAX_FILTERS
    }

    ghost predicate Valid()
      reads this, lan, wan, lan.on, wan.on, lan.filter, wan.filter
    {
      && Matrix()
      && (open <==> anyActive > 0)
      && (open ==> 0 < bytesWritten <= sizeLimit && bytesWritten <= inFile)
    }

    ghost function WriterView(): Writer
      reads this
    {
      if open then Writer(sizeLimit, bytesWritten, inFile, paused) else NO_WRITER
    }

    ghost function View(): Session
      reads this, lan, wan, lan.on, wan.on
    {
      Session(lan.on[..], wan.on[..], open, nbFilters, WriterView())
    }

    /** The session exists exactly while some switch is on. */
    lemma OpenWhileOn()
      requires Valid()
      ensures open <==> AnyOn(lan.on[..]) || AnyOn(wan.on[..])
    {
      CountZero(lan.on[..]);
      CountZero(wan.on[..]);
    }

    /** fastrg_pdump_capture_init */
    constructor (slots: nat)
      ensures Valid() && this.slots == slots && View() == Boot(slots)
      ensures fresh(lan) && fresh(wan) && fresh(lan.on) && fresh(wan.on) && fresh(lan.filter) && fresh(wan.filter)
    {
      this.slots := slots;
      var l := new PortCapture(slots);
      var w := new PortCapture(slots);
      lan, wan := l, w;
      anyActive, filterList, nbFilters, nextFilter := 0, [], 0, 0;
      open, sizeLimit, bytesWritten, paused, inFile := false, 0, 0, false, 0;
      new;
      CountZero(lan.on[..]);
      CountZero(wan.on[..]);
      assert lan.on[..] == Boot(slots).lan && wan.on[..] == Boot(slots).wan;
    }

    /**
     pdump_capture_teardown. Its caller must have unlinked the callbacks of every
     port: that is what the grace period it waits for relies on.
     */
    method Teardown()
      requires !lan.linked && !wan.linked
      requires lan.filter.Length == lan.on.Length && wan.filter.Length == wan.on.Length
      requires lan.filter != wan.filter
      modifies this`open, this`filterList, this`nbFilters, lan.filter, wan.filter
      ensures !open && filterList == [] && nbFilters == 0
      ensures forall i :: 0 <= i < lan.filter.Length ==> lan.filter[i] == None
      ensures forall i :: 0 <= i < wan.filter.Length ==> wan.filter[i] == None
    {
      open := false;
      filterList := [];
      nbFilters := 0;
      lan.ClearFilters();
      wan.ClearFilters();
    }

    /** The two-port loop of a start. */
    method EnablePorts(d: Direction, lo: nat, hi: nat, f: Option<nat>, lanRegisters: bool, wanRegisters: bool)
      requires Matrix() && lo <= hi < slots && !d.UNKNOWN?
      requires f.Some? ==> f.value in filterList
      modifies this`anyActive, lan, wan, lan.on, wan.on, lan.filter, wan.filter
      ensures Matrix() && anyActive > 0
      ensures d.WAN? ==> lan.Slots() == old(lan.Slots()) && lan.linked == old(lan.linked)
      ensures d.LAN? ==> wan.Slots() == old(wan.Slots()) && wan.linked == old(wan.linked)
      ensures !d.LAN? ==>
        && wan.Slots() == RangeOf(old(wan.Slots()), lo, hi, true, f)
        && wan.linked == if old(wan.active) == 0 then wanRegisters else old(wan.linked)
      ensures !d.WAN? ==>
        && lan.Slots() == RangeOf(old(lan.Slots()), lo, hi, true, f)
        && lan.linked == if old(lan.active) == 0 then lanRegisters else old(lan.linked)
    {
      if d.WAN? || d.ALL? {
        var added := wan.EnableRange(lo, hi, f, wanRegisters, filterList);
        anyActive := anyActive + added;
      }
      if d.LAN? || d.ALL? {
        var added := lan.EnableRange(lo, hi, f, lanRegisters, filterList);
        anyActive := anyActive + added;
      }
    }

    /** The filter part of a start: a compiled filter goes on the session list at once. */
    method CompileFilter(filterLen: nat, compiles: bool) returns (ok: bool, f: Option<nat>)
      requires Valid()
      modifies this`filterList, this`nbFilters, this`nextFilter
      ensures Valid()
      ensures ok <==> filterLen == 0 || (old(nbFilters) < PDUMP_MAX_FILTERS && compiles)
      ensures nbFilters == old(nbFilters) + (if ok && filterLen > 0 then 1 else 0)
      ensures f.Some? ==> f.value in filterList
      ensures ok ==> f == if filterLen > 0 then Some(old(nextFilter)) else None
    {
      if filterLen == 0 { return true, None; }
      if nbFilters >= PDUMP_MAX_FILTERS { return false, None; }
      if !compiles { return false, None; }
      f := Some(nextFilter);
      filterList := [nextFilter] + filterList;
      nextFilter := nextFilter + 1;
      nbFilters := nbFilters + 1;
      ok := true;
    }

    /** fastrg_pdump_start past its checks and its filter: open or join the session, then switch on. */
    method StartSession(r: StartRequest, userCount: nat, f: Option<nat>) returns (ret: Status)
      requires Valid() && 0 < userCount <= slots && r.subscriber <= userCount && !r.dir.UNKNOWN?
      requires f.Some? ==> f.value in filterList
      modifies this`anyActive, this`open, this`sizeLimit, this`bytesWritten, this`paused, this`inFile
      modifies lan, wan, lan.on, wan.on, lan.filter, wan.filter
      ensures Valid()
      ensures ret == SUCCESS <==> if old(open) then !old(paused) else r.opens
      ensures open == (old(open) || ret == SUCCESS)
      ensures WriterView() == if old(open) || ret == ERROR then old(WriterView())
                              else Writer(EffectiveLimit(r.sizeMb), PCAP_FILE_HDR, PCAP_FILE_HDR, false)
      ensures ret == ERROR || r.dir.WAN? ==> lan.Slots() == old(lan.Slots()) && lan.linked == old(lan.linked)
      ensures ret == ERROR || r.dir.LAN? ==> wan.Slots() == old(wan.Slots()) && wan.linked == old(wan.linked)
      ensures ret == SUCCESS && !r.dir.LAN? ==>
        && wan.Slots() == RangeOf(old(wan.Slots()), First(r.subscriber), Last(r.subscriber, userCount), true, f)
        && wan.linked == (if old(wan.active) == 0 then r.wanRegisters else old(wan.linked))
      ensures ret == SUCCESS && !r.dir.WAN? ==>
        && lan.Slots() == RangeOf(old(lan.Slots()), First(r.subscriber), Last(r.subscriber, userCount), true, f)
        && lan.linked == (if old(lan.active) == 0 then r.lanRegisters else old(lan.linked))
    {
      if anyActive == 0 {
        sizeLimit := EffectiveLimit(r.sizeMb);
        if !r.opens { return ERROR; }
        open, bytesWritten, inFile, paused := true, PCAP_FILE_HDR, PCAP_FILE_HDR, false;
      } else if paused {
        return ERROR;
      }
      EnablePorts(r.dir, First(r.subscriber), Last(r.subscriber, userCount), f, r.lanRegisters, r.wanRegisters);
      ret := SUCCESS;
    }

    /** fastrg_pdump_start once its filter is there: the whole outcome, told from the session it finds. */
    method StartCompiled(r: StartRequest, userCount: nat, f: Option<nat>) returns (ret: Status)
      requires Valid() && 0 < userCount <= slots && r.subscriber <= userCount && !r.dir.UNKNOWN?
      requires f.Some? ==> f.value in filterList
      modifies this`anyActive, this`open, this`sizeLimit, this`bytesWritten, this`paused, this`inFile
      modifies lan, wan, lan.on, wan.on, lan.filter, wan.filter
      ensures Valid()
      ensures ret == SUCCESS <==> if old(open) then !old(paused) else r.opens
      ensures View() == if ret == SUCCESS then Joined(old(View()), r, userCount) else old(View())
      ensures ret == SUCCESS && !old(open) ==>
        && open && bytesWritten == 24 && inFile == 24 && !paused
        && sizeLimit == (if r.sizeMb == 0 || r.sizeMb > 2048 then 2048 else r.sizeMb) * 1048576
      ensures ret == ERROR || r.dir.WAN? ==> lan.Slots() == old(lan.Slots()) && lan.linked == old(lan.linked)
      ensures ret == ERROR || r.dir.LAN? ==> wan.Slots() == old(wan.Slots()) && wan.linked == old(wan.linked)
      ensures ret == SUCCESS && !r.dir.LAN? ==>
        && Switched(old(wan.Slots()), wan.Slots(), r.subscriber, userCount, true, f)
        && wan.linked == (if old(wan.active) == 0 then r.wanRegisters else old(wan.linked))
      ensures ret == SUCCESS && !r.dir.WAN? ==>
        && Switched(old(lan.Slots()), lan.Slots(), r.subscriber, userCount, true, f)
        && lan.linked == (if old(lan.active) == 0 then r.lanRegisters else old(lan.linked))
    {
      RangeSwitches(lan.Slots(), r.subscriber, userCount, true, f);
      RangeSwitches(wan.Slots(), r.subscriber, userCount, true, f);
      ret := StartSession(r, userCount, f);
    }

    /** fastrg_pdump_start */
    method Start(r: StartRequest, userCount: nat) returns (ret: Status)
      requires Valid() && userCount <= slots
      modifies this, lan, wan, lan.on, wan.on, lan.filter, wan.filter
      ensures Valid()
      ensures View() == AfterStart(old(View()), r, userCount)
      ensures ret == SUCCESS <==>
        && !r.dir.UNKNOWN? && r.subscriber <= userCount && userCount > 0 && r.filterLen <= PDUMP_MAX_FILTER_LEN
        && (r.filterLen > 0 ==> old(nbFilters) < PDUMP_MAX_FILTERS && r.compiles)
        && (if old(open) then !old(paused) else r.opens)
      ensures ret == SUCCESS && !old(open) ==>
        && open && bytesWritten == 24 && inFile == 24 && !paused
        && sizeLimit == (if r.sizeMb == 0 || r.sizeMb > 2048 then 2048 else r.sizeMb) * 1048576
      ensures ret == ERROR || r.dir.WAN? ==> lan.Slots() == old(lan.Slots()) && lan.linked == old(lan.linked)
      ensures ret == ERROR || r.dir.LAN? ==> wan.Slots() == old(wan.Slots()) && wan.linked == old(wan.linked)
      ensures ret == SUCCESS && !r.dir.LAN? ==>
        && Switched(old(wan.Slots()), wan.Slots(), r.subscriber, userCount, true, (if r.filterLen > 0 then Some(old(nextFilter)) else None))
        && wan.linked == (if old(wan.active) == 0 then r.wanRegisters else old(wan.linked))
      ensures ret == SUCCESS && !r.dir.WAN? ==>
        && Switched(old(lan.Slots()), lan.Slots(), r.subscriber, userCount, true, (if r.filterLen > 0 then Some(old(nextFilter)) else None))
        && lan.linked == (if old(lan.active) == 0 then r.lanRegisters else old(lan.linked))
    {
      if r.dir.UNKNOWN? { return ERROR; }
      if r.subscriber > userCount { return ERROR; }
      if userCount == 0 { return ERROR; }
      if r.filterLen > PDUMP_MAX_FILTER_LEN { return ERROR; }
      var ok, f := CompileFilter(r.filterLen, r.compiles);
      if !ok { return ERROR; }
      assert lan.Slots() == old(lan.Slots()) && wan.Slots() == old(wan.Slots());
      ret := StartCompiled(r, userCount, f);
    }

    /** pdump_stop_range */
    method DisablePorts(d: Direction, lo: nat, hi: int)
      requires Matrix() && hi < slots
      modifies this`anyActive, lan, wan, lan.on, wan.on, lan.filter, wan.filter
      ensures Matrix()
      ensures !(d.LAN? || d.ALL?) ==> lan.Slots() == old(lan.Slots())
      ensures !(d.WAN? || d.ALL?) ==> wan.Slots() == old(wan.Slots())
      ensures d.WAN? || d.ALL? ==> wan.Slots() == RangeOf(old(wan.Slots()), lo, hi, false, None)
      ensures d.LAN? || d.ALL? ==> lan.Slots() == RangeOf(old(lan.Slots()), lo, hi, false, None)
    {
      if d.WAN? || d.ALL? {
        var removed := wan.DisableRange(lo, hi, filterList);
        anyActive := anyActive - removed;
      }
      if d.LAN? || d.ALL? {
        var removed := lan.DisableRange(lo, hi, filterList);
        anyActive := anyActive - removed;
      }
    }

    /** Stopping a range, then the teardown when nothing is left on. */
    method StopRange(d: Direction, lo: nat, hi: int)
      requires Valid() && open && hi < slots
      modifies this`anyActive, this`open, this`filterList, this`nbFilters
      modifies lan, wan, lan.on, wan.on, lan.filter, wan.filter
      ensures Valid()
      ensures View() == AfterStopRange(old(View()), d, lo, hi)
      ensures !(d.LAN? || d.ALL?) ==> lan.Slots() == old(lan.Slots())
      ensures !(d.WAN? || d.ALL?) ==> wan.Slots() == old(wan.Slots())
      ensures d.WAN? || d.ALL? ==> wan.Slots() == RangeOf(old(wan.Slots()), lo, hi, false, None)
      ensures d.LAN? || d.ALL? ==> lan.Slots() == RangeOf(old(lan.Slots()), lo, hi, false, None)
    {
      DisablePorts(d, lo, hi);
      if anyActive == 0 { EndSession(); }
      OpenWhileOn();
    }

    /** The teardown once nothing is on: it finds no filter in the rows any more. */
    method EndSession()
      requires Matrix() && anyActive == 0
      modifies this`open, this`filterList, this`nbFilters, lan.filter, wan.filter
      ensures Valid() && !open && nbFilters == 0
      ensures lan.filter[..] == old(lan.filter[..]) && wan.filter[..] == old(wan.filter[..])
    {
      CountZero(lan.on[..]);
      CountZero(wan.on[..]);
      Teardown();
    }

    /** fastrg_pdump_stop */
    method Stop(d: Direction, subscriber: nat, userCount: nat) returns (ret: Status)
      requires Valid() && userCount <= slots
      modifies this`anyActive, this`open, this`filterList, this`nbFilters
      modifies lan, wan, lan.on, wan.on, lan.filter, wan.filter
      ensures Valid()
      ensures View() == Next(old(View()), StopOp(d, subscriber, userCount))
      ensures ret == SUCCESS <==> !d.UNKNOWN? && subscriber <= userCount && userCount > 0 && old(open)
      ensures ret == ERROR || d.WAN? ==> lan.Slots() == old(lan.Slots())
      ensures ret == ERROR || d.LAN? ==> wan.Slots() == old(wan.Slots())
      ensures ret == SUCCESS && !d.LAN? ==> Switched(old(wan.Slots()), wan.Slots(), subscriber, userCount, false, None)
      ensures ret == SUCCESS && !d.WAN? ==> Switched(old(lan.Slots()), lan.Slots(), subscriber, userCount, false, None)
    {
      if d.UNKNOWN? { return ERROR; }
      if subscriber > userCount { return ERROR; }
      if userCount == 0 { return ERROR; }
      if anyActive == 0 { return ERROR; }
      RangeSwitches(lan.Slots(), subscriber, userCount, false, None);
      RangeSwitches(wan.Slots(), subscriber, userCount, false, None);
      StopRange(d, First(subscriber), Last(subscriber, userCount));
      ret := SUCCESS;
    }

    /** The part of fastrg_pdump_disable_ccb under an active capture. */
    method DisableActive(toRemove: nat, currentCount: nat)
      requires Valid() && open && 0 < toRemove <= currentCount <= slots
      modifies this`anyActive, this`open, this`filterList, this`nbFilters
      modifies lan, wan, lan.on, wan.on, lan.filter, wan.filter
      ensures Valid()
      ensures View() == AfterDisable(old(View()), toRemove, currentCount)
      ensures lan.filter[..] == Range(old(lan.filter[..]), currentCount - toRemove, currentCount - 1, None)
      ensures wan.filter[..] == Range(old(wan.filter[..]), currentCount - toRemove, currentCount - 1, None)
    {
      DisableIsStop(View(), toRemove, currentCount);
      StopRange(ALL, currentCount - toRemove, currentCount - 1);
    }

    /** fastrg_pdump_disable_ccb: the count drops from currentCount by toRemove. */
    method DisableCcb(toRemove: nat, currentCount: nat) returns (ret: Status)
      requires Valid()
      modifies this`anyActive, this`open, this`filterList, this`nbFilters
      modifies lan, wan, lan.on, wan.on, lan.filter, wan.filter
      ensures Valid()
      ensures ret == SUCCESS <==> toRemove == 0 || toRemove <= currentCount <= slots
      ensures View() == AfterDisable(old(View()), toRemove, currentCount)
      ensures var lo, hi := currentCount - toRemove, currentCount - 1;
              var covered := ret == SUCCESS && toRemove > 0 && old(open);
              && lan.filter[..] == Marked(old(lan.filter[..]), covered, lo, hi, None)
              && wan.filter[..] == Marked(old(wan.filter[..]), covered, lo, hi, None)
      ensures forall i :: 0 <= i < slots ==>
        && lan.on[i] == (old(lan.on[i]) && !(ret == SUCCESS && currentCount - toRemove <= i < currentCount))
        && wan.on[i] == (old(wan.on[i]) && !(ret == SUCCESS && currentCount - toRemove <= i < currentCount))
    {
      OpenWhileOn();
      if toRemove == 0 { return SUCCESS; }
      if toRemove > currentCount || currentCount > slots { return ERROR; }
      ret := SUCCESS;
      if anyActive > 0 { DisableActive(toRemove, currentCount); }
    }

    /** pdump_write_record by the writer thread, which runs while the session is open. */
    method WriteOne(pktLen: nat, io: RecordIo)
      requires Valid() && open
      modifies this`bytesWritten, this`paused, this`inFile
      ensures Valid()
      ensures View() == Next(old(View()), RecordOp(pktLen, io))
      ensures var len := if pktLen > 262144 then 262144 else pktLen;
              if old(bytesWritten) + 16 + len > sizeLimit
              then paused && bytesWritten == old(bytesWritten) && inFile == old(inFile)
              else
                && paused == old(paused)
                && bytesWritten == old(bytesWritten) + (if io.AllWritten? then 16 + len else if io.BodyShort? then 16 else 0)
                && inFile == old(inFile) +
                     (if io.AllWritten? then 16 + len else if io.BodyShort? then 16 + io.written else io.written)
    {
      var capLen := CapLen(pktLen);
      if sizeLimit != 0 && bytesWritten + PCAP_REC_HDR + capLen > sizeLimit {
        paused := true;
        return;
      }
      if io.HeaderShort? {
        inFile := inFile + io.written;
        return;
      }
      inFile := inFile + PCAP_REC_HDR;
      bytesWritten := bytesWritten + PCAP_REC_HDR;
      if io.BodyShort? {
        inFile := inFile + io.written;
        return;
      }
      inFile := inFile + capLen;
      bytesWritten := bytesWritten + capLen;
    }

    /** The active part of fastrg_pdump_capture_cleanup: everything off, nothing left. */
    method Cleanup()
      requires Valid()
      modifies this, lan, wan, lan.on, wan.on, lan.filter, wan.filter
      ensures Valid() && !open && anyActive == 0
      ensures forall i :: 0 <= i < slots ==> !lan.on[i] && !wan.on[i]
      ensures nbFilters == if old(open) then 0 else old(nbFilters)
    {
      CountZero(lan.on[..]);
      CountZero(wan.on[..]);
      if anyActive > 0 {
        if lan.active > 0 { lan.SwitchAllOff(); }
        if wan.active > 0 { wan.SwitchAllOff(); }
        anyActive := 0;
        Teardown();
      }
    }
  }
}
