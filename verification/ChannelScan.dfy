/**
 The batched scans over the channel table (controller/channel_upstream_update.go,
 lines 577-665 and 874-949): enabled channels are fetched in id order, a batch at
 a time, resuming after the last id seen and stopping on a short batch.

 A scan writes to the table it is reading.  The theorem is that, for every batch
 size, it handles each enabled channel exactly once, in id order, on the row it
 had when the scan began, as one full query would.
 */
module ChannelScan {
  import opened ModelNames
  import opened Text
  import opened UpstreamSync
  import opened UpstreamTheorems
  import opened Wrappers

  datatype Entry = Entry(id: int, name: string, enabled: bool, checkEnabled: bool, row: Row)

  type Handler = Entry -> Row

  /** Primary keys are positive, and a table is listed by them. */
  ghost predicate Keyed(rows: seq<Entry>) {
    && (forall i :: 0 <= i < |rows| ==> rows[i].id > 0)
    && (forall i, j :: 0 <= i < j < |rows| ==> rows[i].id < rows[j].id)
  }

  /** The enabled channels after lastID; a lastID of 0 means no bound. */
  function EnabledAfter(rows: seq<Entry>, lastID: int): seq<Entry> {
    if rows == [] then []
    else
      (if rows[0].enabled && (lastID > 0 ==> rows[0].id > lastID) then [rows[0]] else [])
      + EnabledAfter(rows[1..], lastID)
  }

  function Limit<T>(xs: seq<T>, n: nat): seq<T> {
    if |xs| <= n then xs else xs[..n]
  }

  /** The table once every enabled channel up to id has been handled. */
  function HandledUpTo(rows: seq<Entry>, id: int, f: Handler): seq<Entry> {
    seq(|rows|, i requires 0 <= i < |rows| =>
      if rows[i].enabled && rows[i].id <= id then rows[i].(row := f(rows[i])) else rows[i])
  }

  /** The table once every enabled channel has been handled. */
  function Handled(rows: seq<Entry>, f: Handler): seq<Entry> {
    seq(|rows|, i requires 0 <= i < |rows| =>
      if rows[i].enabled then rows[i].(row := f(rows[i])) else rows[i])
  }

  function WithRow(rows: seq<Entry>, id: int, row: Row): seq<Entry> {
    seq(|rows|, i requires 0 <= i < |rows| => if rows[i].id == id then rows[i].(row := row) else rows[i])
  }

  lemma {:induction false} EnabledMembers(rows: seq<Entry>, lastID: int)
    ensures forall e :: e in EnabledAfter(rows, lastID) <==>
              e in rows && e.enabled && (lastID > 0 ==> e.id > lastID)
  {
    if rows != [] {
      EnabledMembers(rows[1..], lastID);
      assert rows == [rows[0]] + rows[1..];
    }
  }

  lemma KeyedCons(first: Entry, rest: seq<Entry>)
    requires Keyed(rest) && first.id > 0 && forall e :: e in rest ==> first.id < e.id
    ensures Keyed([first] + rest)
  {
    assert forall k :: 0 <= k < |rest| ==> rest[k] in rest;
  }

  lemma KeyedTail(rows: seq<Entry>)
    requires Keyed(rows) && rows != []
    ensures Keyed(rows[1..]) && rows[0].id > 0 && forall e :: e in rows[1..] ==> rows[0].id < e.id
  {
  }

  lemma {:induction false} EnabledAfterExact(rows: seq<Entry>, lastID: int)
    requires Keyed(rows)
    ensures Keyed(EnabledAfter(rows, lastID))
    ensures forall e :: e in EnabledAfter(rows, lastID) <==>
              e in rows && e.enabled && (lastID > 0 ==> e.id > lastID)
  {
    EnabledMembers(rows, lastID);
    if rows != [] {
      var first, rest := rows[0], EnabledAfter(rows[1..], lastID);
      assert EnabledAfter(rows, lastID) == [first] + rest || EnabledAfter(rows, lastID) == rest;
      hide EnabledAfter, Keyed;
      KeyedTail(rows);
      EnabledAfterExact(rows[1..], lastID);
      KeyedCons(first, rest);
    }
  }

  lemma {:induction false} AllLater(rows: seq<Entry>, id: int, lastID: int)
    requires id > 0 && forall e :: e in rows ==> e.id > id
    requires lastID <= id
    ensures EnabledAfter(rows, id) == EnabledAfter(rows, lastID)
  {
    if rows != [] {
      assert rows[0] in rows;
      AllLater(rows[1..], id, lastID);
    }
  }

  /** Resuming after the first channel of the list continues the list. */
  lemma {:induction false} Resume(rows: seq<Entry>, lastID: int)
    requires Keyed(rows) && lastID >= 0
    requires EnabledAfter(rows, lastID) != []
    ensures EnabledAfter(rows, EnabledAfter(rows, lastID)[0].id) == EnabledAfter(rows, lastID)[1..]
  {
    var rest := EnabledAfter(rows[1..], lastID);
    if rows[0].enabled && (lastID > 0 ==> rows[0].id > lastID) {
      assert EnabledAfter(rows, lastID)[1..] == rest;
      AllLater(rows[1..], rows[0].id, lastID);
    } else {
      Resume(rows[1..], lastID);
      EnabledAfterExact(rows[1..], lastID);
      assert rest[0] in rest;
    }
  }

  lemma FirstIsLeast(rows: seq<Entry>, lastID: int, e: Entry)
    requires Keyed(rows) && e in rows && e.enabled && (lastID > 0 ==> e.id > lastID)
    ensures EnabledAfter(rows, lastID) != [] && EnabledAfter(rows, lastID)[0].id <= e.id
  {
    EnabledAfterExact(rows, lastID);
    var k :| 0 <= k < |EnabledAfter(rows, lastID)| && EnabledAfter(rows, lastID)[k] == e;
  }

  /** Channels already handled are behind the cursor, so a query sees only rows
      the scan has not written. */
  lemma {:induction false} QueryIgnoresWrites(rows: seq<Entry>, id: int, f: Handler)
    requires Keyed(rows) && id >= 0
    ensures EnabledAfter(HandledUpTo(rows, id, f), id) == EnabledAfter(rows, id)
  {
    if rows != [] {
      QueryIgnoresWrites(rows[1..], id, f);
      assert HandledUpTo(rows, id, f)[1..] == HandledUpTo(rows[1..], id, f);
    }
  }

  /** Handling the next channel of the list moves the handled region up to it. */
  lemma HandleNext(rows: seq<Entry>, lastID: int, f: Handler)
    requires Keyed(rows) && lastID >= 0 && EnabledAfter(rows, lastID) != []
    ensures var e := EnabledAfter(rows, lastID)[0];
            && e.id > lastID && e in rows
            && HandledUpTo(rows, e.id, f) == WithRow(HandledUpTo(rows, lastID, f), e.id, f(e))
            && (f(e) == e.row ==> HandledUpTo(rows, e.id, f) == HandledUpTo(rows, lastID, f))
  {
    var list := EnabledAfter(rows, lastID);
    var e := list[0];
    EnabledAfterExact(rows, lastID);
    assert e in list;
    var a, b := HandledUpTo(rows, e.id, f), WithRow(HandledUpTo(rows, lastID, f), e.id, f(e));
    forall i | 0 <= i < |rows| ensures a[i] == b[i] {
      if rows[i].id == e.id {
        var k :| 0 <= k < |rows| && rows[k] == e;
        assert i == k;
      } else if rows[i].enabled && rows[i].id <= e.id && rows[i].id > lastID {
        FirstIsLeast(rows, lastID, rows[i]);
      }
    }
    if f(e) == e.row {
      forall i | 0 <= i < |rows| ensures b[i] == HandledUpTo(rows, lastID, f)[i] {
        if rows[i].id == e.id {
          var k :| 0 <= k < |rows| && rows[k] == e;
          assert i == k;
        }
      }
    }
  }

  lemma HandledAll(rows: seq<Entry>, id: int, f: Handler)
    requires Keyed(rows) && id >= 0 && EnabledAfter(rows, id) == []
    ensures HandledUpTo(rows, id, f) == Handled(rows, f)
  {
    EnabledAfterExact(rows, id);
    forall i | 0 <= i < |rows| ensures HandledUpTo(rows, id, f)[i] == Handled(rows, f)[i] {
      assert rows[i] in rows;
    }
  }

  lemma HandledNone(rows: seq<Entry>, f: Handler)
    requires Keyed(rows)
    ensures HandledUpTo(rows, 0, f) == rows
  {
  }

  // ---------------------------------------------------------- apply to all channels

  /** Whether ApplyAll touches a channel at all. */
  predicate HasStaged(e: Entry) {
    e.checkEnabled && (Normalize(e.row.settings.detected) != [] || Normalize(e.row.settings.removed) != [])
  }

  /** What ApplyAll makes of one enabled channel. */
  function ApplyEntry(e: Entry, now: int, io: int -> Io): Row {
    if HasStaged(e) && !io(e.id).WriteFails? then Applied(e.row, SelectAll(e.row.settings, now)) else e.row
  }

  function Applier(now: int, io: int -> Io): Handler {
    e => ApplyEntry(e, now, io)
  }

  datatype AppliedChannel = AppliedChannel(
    id: int, name: string, added: seq<string>, removed: seq<string>,
    remaining: seq<string>, remainingRemove: seq<string>)

  /** The answer of ApplyAll: the channels processed and failed, the totals, and
      whether the caches must be refreshed. */
  datatype ApplyReport = ApplyReport(
    results: seq<AppliedChannel>, failed: seq<int>, added: nat, removed: nat, refresh: bool)

  const NOTHING_APPLIED := ApplyReport([], [], 0, 0, false)

  predicate ModelsChange(e: Entry, now: int) {
    NextModels(e.row, SelectAll(e.row.settings, now)) != Local(e.row)
  }

  /** Whether applying everything staged on a channel fails. */
  predicate ApplyFails(e: Entry, now: int, io: Io) {
    io.WriteFails? || (io.AbilitiesFail? && ModelsChange(e, now))
  }

  function AppliedEntry(e: Entry, now: int): AppliedChannel {
    var s, sel := e.row.settings, SelectAll(e.row.settings, now);
    AppliedChannel(e.id, e.name, SelectedAdd(s, sel), SelectedRemove(s, sel),
                   RemainingAdd(s, sel), RemainingRemove(s, sel))
  }

  function AddApplied(r: ApplyReport, e: Entry, now: int, io: Io): ApplyReport {
    if !HasStaged(e) then r
    else if ApplyFails(e, now, io) then r.(failed := r.failed + [e.id])
    else
      var a := AppliedEntry(e, now);
      ApplyReport(r.results + [a], r.failed, r.added + |a.added|, r.removed + |a.removed|,
                  r.refresh || ModelsChange(e, now))
  }

  function ReportApplied(channels: seq<Entry>, now: int, io: int -> Io): ApplyReport {
    if channels == [] then NOTHING_APPLIED
    else
      var e := channels[|channels| - 1];
      AddApplied(ReportApplied(channels[..|channels| - 1], now, io), e, now, io(e.id))
  }

  // ---------------------------------------------------------- check all channels

  function CheckEntry(e: Entry, checks: int -> Check, io: int -> Io): Row {
    if e.checkEnabled && !io(e.id).WriteFails? then Checked(e.row, checks(e.id)) else e.row
  }

  function Checker(checks: int -> Check, io: int -> Io): Handler {
    e => CheckEntry(e, checks, io)
  }

  datatype Summary = Summary(name: string, adds: nat, removes: nat)

  /** What the detection task counts and collects. */
  datatype CheckReport = CheckReport(
    processed: nat, checked: nat, failed: seq<int>, changed: nat,
    detectedAdd: nat, detectedRemove: nat, autoAdded: nat,
    summaries: seq<Summary>, addSamples: seq<string>, removeSamples: seq<string>, refresh: bool)

  const NOTHING_CHECKED := CheckReport(0, 0, [], 0, 0, 0, 0, [], [], [], false)

  predicate CheckFails(e: Entry, c: Check, io: Io) {
    && !TooSoon(e.row.settings, c)
    && (io.WriteFails? || c.fetched.None? || (Adopts(e.row, c) && io.AbilitiesFail?))
  }

  function AutoAdded(e: Entry, c: Check): nat {
    if !TooSoon(e.row.settings, c) && c.fetched.Some? && Adopts(e.row, c) then |Found(e.row, c)| else 0
  }

  /** One more channel with these staged additions and removals. */
  function Collected(r: CheckReport, name: string, add: seq<string>, rem: seq<string>, autoAdded: nat): CheckReport {
    var adds, removes := |add| + autoAdded, |rem|;
    var changed := adds > 0 || removes > 0;
    r.(changed := if changed then r.changed + 1 else r.changed,
       summaries := if changed then r.summaries + [Summary(name, adds, removes)] else r.summaries,
       detectedAdd := r.detectedAdd + adds,
       detectedRemove := r.detectedRemove + removes,
       addSamples := Merged(r.addSamples, add),
       removeSamples := Merged(r.removeSamples, rem),
       refresh := r.refresh || autoAdded > 0,
       autoAdded := r.autoAdded + autoAdded)
  }

  function AddChecked(r: CheckReport, e: Entry, c: Check, io: Io): CheckReport {
    var r1 := r.(processed := r.processed + 1);
    if !e.checkEnabled then r1
    else
      var r2 := r1.(checked := r.checked + 1);
      if CheckFails(e, c, io) then r2.(failed := r.failed + [e.id])
      else
        var s := (if io.WriteFails? then e.row else Checked(e.row, c)).settings;
        Collected(r2, e.name, Normalize(s.detected), Normalize(s.removed), AutoAdded(e, c))
  }

  function ReportChecked(channels: seq<Entry>, checks: int -> Check, io: int -> Io): CheckReport {
    if channels == [] then NOTHING_CHECKED
    else
      var e := channels[|channels| - 1];
      AddChecked(ReportChecked(channels[..|channels| - 1], checks, io), e, checks(e.id), io(e.id))
  }

  /** The id up to which a list of channels goes. */
  function LastID(channels: seq<Entry>): int {
    if channels == [] then 0 else channels[|channels| - 1].id
  }

  /** A scan of the list all has handled its first done channels with f: the table
      and the cursor are where one pass over the list would have them. */
  ghost predicate Scanned(start: seq<Entry>, all: seq<Entry>, done: nat, f: Handler, rows: seq<Entry>, cursor: int) {
    && done <= |all| && cursor >= 0 && cursor == LastID(all[..done])
    && EnabledAfter(start, cursor) == all[done..]
    && rows == HandledUpTo(start, cursor, f)
  }

  lemma ScanStarts(start: seq<Entry>, f: Handler)
    requires Keyed(start)
    ensures Scanned(start, EnabledAfter(start, 0), 0, f, start, 0)
  {
    HandledNone(start, f);
  }

  /** The next query sees the rest of the list, unwritten. */
  lemma ScanQueries(start: seq<Entry>, all: seq<Entry>, done: nat, f: Handler, rows: seq<Entry>, cursor: int)
    requires Keyed(start) && Scanned(start, all, done, f, rows, cursor)
    ensures done <= |all| && EnabledAfter(rows, cursor) == all[done..]
  {
    QueryIgnoresWrites(start, cursor, f);
  }

  /** One channel more. */
  lemma ScanAdvances(start: seq<Entry>, all: seq<Entry>, done: nat, f: Handler,
                     rows: seq<Entry>, cursor: int, next: seq<Entry>)
    requires Keyed(start) && Scanned(start, all, done, f, rows, cursor) && done < |all|
    requires var e := all[done]; next == WithRow(rows, e.id, f(e)) || (next == rows && f(e) == e.row)
    ensures Scanned(start, all, done + 1, f, next, all[done].id)
  {
    assert all[done..][0] == all[done] && all[done..][1..] == all[done + 1..];
    HandleNext(start, cursor, f);
    Resume(start, cursor);
  }

  lemma ScanEnds(start: seq<Entry>, all: seq<Entry>, done: nat, f: Handler, rows: seq<Entry>, cursor: int)
    requires Keyed(start) && Scanned(start, all, done, f, rows, cursor)
    ensures done <= |all| && rows == HandledUpTo(start, LastID(all[..done]), f)
    ensures done == |all| ==> rows == Handled(start, f)
  {
    if done == |all| {
      HandledAll(start, cursor, f);
    }
  }

  lemma ReportAppliedStep(all: seq<Entry>, done: nat, now: int, io: int -> Io)
    requires done < |all|
    ensures ReportApplied(all[..done + 1], now, io)
         == AddApplied(ReportApplied(all[..done], now, io), all[done], now, io(all[done].id))
  {
    assert all[..done + 1][..done] == all[..done];
  }

  lemma NextBatch(i: nat, n: nat, size: nat)
    requires i < n
    ensures i * size + size == (i + 1) * size <= n * size
  {
  }

  lemma NothingApplied(now: int, io: int -> Io)
    ensures ReportApplied([], now, io) == NOTHING_APPLIED
  {
  }

  lemma NothingChecked(checks: int -> Check, io: int -> Io)
    ensures ReportChecked([], checks, io) == NOTHING_CHECKED
  {
  }

  lemma ReportCheckedStep(all: seq<Entry>, done: nat, checks: int -> Check, io: int -> Io)
    requires done < |all|
    ensures ReportChecked(all[..done + 1], checks, io)
         == AddChecked(ReportChecked(all[..done], checks, io), all[done],
                       checks(all[done].id), io(all[done].id))
  {
    assert all[..done + 1][..done] == all[..done];
  }

  class ChannelTable {
    var rows: seq<Entry>

    constructor (rows: seq<Entry>)
      ensures this.rows == rows
    {
      this.rows := rows;
    }

    method FindEnabledChannelsAfterID(lastID: int, batchSize: nat) returns (channels: seq<Entry>)
      ensures channels == Limit(EnabledAfter(rows, lastID), batchSize)
    {
      channels := Limit(EnabledAfter(rows, lastID), batchSize);
    }

    method Store(id: int, row: Row)
      modifies this
      ensures rows == WithRow(old(rows), id, row)
    {
      rows := WithRow(rows, id, row);
    }

    /** Applies everything staged on one channel. */
    method ApplyStaged(channel: Entry, now: int, io: Io) returns (result: ApplyResult)
      modifies this
      ensures rows == if io.WriteFails? then old(rows)
                      else WithRow(old(rows), channel.id, Applied(channel.row, SelectAll(channel.row.settings, now)))
      ensures (result.ApplyFailed? || result.abilitiesFailed) <==> ApplyFails(channel, now, io)
      ensures result.ApplyDone? ==>
                && AppliedEntry(channel, now)
                   == AppliedChannel(channel.id, channel.name, result.added, result.removed,
                                     result.remaining, result.remainingRemove)
                && result.modelsChanged == ModelsChange(channel, now)
    {
      var c := new Channel(channel.row);
      result := c.ApplyUpdates(SelectAll(channel.row.settings, now), io);
      if !result.ApplyFailed? {
        Store(channel.id, c.row);
      }
    }

    method ApplyOne(channel: Entry, now: int, io: Io, report: ApplyReport) returns (r: ApplyReport)
      modifies this
      ensures r == AddApplied(report, channel, now, io)
      ensures rows == if HasStaged(channel) && !io.WriteFails?
                      then WithRow(old(rows), channel.id, Applied(channel.row, SelectAll(channel.row.settings, now)))
                      else old(rows)
    {
      hide HasStaged, AppliedEntry, ModelsChange, Applied, SelectAll;
      r := report;
      if HasStaged(channel) {
        var result := ApplyStaged(channel, now, io);
        if result.ApplyFailed? || result.abilitiesFailed {
          r := r.(failed := r.failed + [channel.id]);
        } else {
          var applied := AppliedChannel(channel.id, channel.name, result.added, result.removed,
                                        result.remaining, result.remainingRemove);
          r := ApplyReport(r.results + [applied], r.failed, r.added + |result.added|, r.removed + |result.removed|,
                           r.refresh || result.modelsChanged);
        }
      }
    }

    /** Applies everything staged to every enabled channel; io says how the database
        answers for each, and goodQueries how many queries succeed before one fails,
        which ends the scan without a report. */
    method ApplyAll(batchSize: nat, goodQueries: nat, now: int, io: int -> Io) returns (report: Option<ApplyReport>)
      requires Keyed(rows) && batchSize > 0
      modifies this
      ensures var all := EnabledAfter(old(rows), 0);
              if goodQueries * batchSize <= |all|
              then report == None
                   && rows == HandledUpTo(old(rows), LastID(all[..goodQueries * batchSize]), Applier(now, io))
              else report == Some(ReportApplied(all, now, io)) && rows == Handled(old(rows), Applier(now, io))
    {
      hide HasStaged, Applied, AddApplied, ReportApplied, EnabledAfter, Handled, HandledUpTo, WithRow, Scanned;
      ghost var f, start := Applier(now, io), rows;
      ghost var all, done := EnabledAfter(start, 0), 0;
      var r := NOTHING_APPLIED;
      NothingApplied(now, io);
      ScanStarts(start, f);
      var lastID, queries := 0, 0;
      while true
        invariant queries <= goodQueries && done == queries * batchSize
        invariant done <= |all| && Scanned(start, all, done, f, rows, lastID)
        invariant r == ReportApplied(all[..done], now, io)
        decreases |all| - done
      {
        if queries >= goodQueries {
          ScanEnds(start, all, done, f, rows, lastID);
          return None;
        }
        NextBatch(queries, goodQueries, batchSize);
        var channels := FindEnabledChannelsAfterID(lastID, batchSize);
        ScanQueries(start, all, done, f, rows, lastID);
        if |channels| == 0 { break; }
        ghost var base, cursor := done, lastID;
        lastID := channels[|channels| - 1].id;
        for i := 0 to |channels|
          invariant done == base + i && done <= |all| && Scanned(start, all, done, f, rows, cursor)
          invariant i == |channels| ==> cursor == lastID
          invariant r == ReportApplied(all[..done], now, io)
        {
          var channel := channels[i];
          ghost var before := rows;
          ReportAppliedStep(all, done, now, io);
          r := ApplyOne(channel, now, io(channel.id), r);
          ScanAdvances(start, all, done, f, before, cursor, rows);
          cursor, done := channel.id, done + 1;
        }
        if |channels| < batchSize { break; }
        queries := queries + 1;
      }
      ScanEnds(start, all, done, f, rows, lastID);
      assert all[..done] == all;
      report := Some(r);
    }

    /** Checks one channel and writes it back. */
    method CheckHeld(channel: Entry, c: Check, io: Io) returns (result: CheckResult, settings: Settings)
      modifies this
      ensures rows == if io.WriteFails? then old(rows) else WithRow(old(rows), channel.id, Checked(channel.row, c))
      ensures settings == (if io.WriteFails? then channel.row else Checked(channel.row, c)).settings
      ensures (result.FetchFailed? || result.WriteFailed? || result.AbilitiesFailed?) <==> CheckFails(channel, c, io)
      ensures result.CheckDone? ==> result.autoAdded == AutoAdded(channel, c)
      ensures result.CheckDone? ==> (result.modelsChanged <==> AutoAdded(channel, c) > 0)
      ensures result.Skipped? ==> AutoAdded(channel, c) == 0
    {
      var held := new Channel(channel.row);
      result := held.CheckAndPersist(c, io);
      settings := held.row.settings;
      if !io.WriteFails? {
        Store(channel.id, held.row);
      }
    }

    method CheckOne(channel: Entry, c: Check, io: Io, report: CheckReport) returns (r: CheckReport)
      modifies this
      ensures r == AddChecked(report, channel, c, io) && r.processed == report.processed + 1
      ensures rows == if channel.checkEnabled && !io.WriteFails?
                      then WithRow(old(rows), channel.id, Checked(channel.row, c)) else old(rows)
    {
      hide Checked, CheckFails, AutoAdded, Normalize, Collected;
      r := report.(processed := report.processed + 1);
      if channel.checkEnabled {
        r := r.(checked := r.checked + 1);
        var result, settings := CheckHeld(channel, c, io);
        if result.FetchFailed? || result.WriteFailed? || result.AbilitiesFailed? {
          r := r.(failed := r.failed + [channel.id]);
        } else {
          var autoAdded := if result.Skipped? then 0 else result.autoAdded;
          r := Collect(r, channel.name, settings, autoAdded, result.CheckDone? && result.modelsChanged);
        }
      }
    }

    /** Counts and collects what is staged on one channel. */
    static method Collect(report: CheckReport, name: string, settings: Settings, autoAdded: nat, modelsChanged: bool)
      returns (r: CheckReport)
      requires modelsChanged <==> autoAdded > 0
      ensures r == Collected(report, name, Normalize(settings.detected), Normalize(settings.removed), autoAdded)
      ensures r.processed == report.processed
    {
      hide Normalize, Merged;
      r := report;
      var add, rem := Normalize(settings.detected), Normalize(settings.removed);
      var addCount, removeCount := |add| + autoAdded, |rem|;
      r := r.(detectedAdd := r.detectedAdd + addCount, detectedRemove := r.detectedRemove + removeCount);
      if addCount > 0 || removeCount > 0 {
        r := r.(changed := r.changed + 1, summaries := r.summaries + [Summary(name, addCount, removeCount)]);
      }
      var adds := Merge(r.addSamples, add);
      var removes := Merge(r.removeSamples, rem);
      r := r.(addSamples := adds, removeSamples := removes);
      if modelsChanged {
        r := r.(refresh := true);
      }
      r := r.(autoAdded := r.autoAdded + autoAdded);
    }

    /** The detection task: checks every enabled channel once, or, when it is
        cancelled or a query fails, the first stopAfter of them. */
    method RunUpdateTaskOnce(batchSize: nat, stopAfter: nat, checks: int -> Check, io: int -> Io)
      returns (report: CheckReport)
      requires Keyed(rows) && batchSize > 0
      modifies this
      ensures var seen := Limit(EnabledAfter(old(rows), 0), stopAfter);
              && rows == HandledUpTo(old(rows), LastID(seen), Checker(checks, io))
              && report == ReportChecked(seen, checks, io)
      ensures stopAfter >= |EnabledAfter(old(rows), 0)| ==> rows == Handled(old(rows), Checker(checks, io))
    {
      hide Checked, AddChecked, ReportChecked, EnabledAfter, Handled, HandledUpTo, WithRow, Scanned;
      ghost var f, start := Checker(checks, io), rows;
      ghost var all, done, cursor := EnabledAfter(start, 0), 0, 0;
      report := NOTHING_CHECKED;
      NothingChecked(checks, io);
      ScanStarts(start, f);
      var lastID := 0;
      label scanLoop: while true
        invariant cursor == lastID && done <= |all| && Scanned(start, all, done, f, rows, cursor)
        invariant report.processed == done <= stopAfter
        invariant report == ReportChecked(all[..done], checks, io)
        decreases |all| - done
      {
        if report.processed >= stopAfter { break; }
        var channels := FindEnabledChannelsAfterID(lastID, batchSize);
        ScanQueries(start, all, done, f, rows, lastID);
        if |channels| == 0 { break; }
        ghost var base := done;
        lastID := channels[|channels| - 1].id;
        for i := 0 to |channels|
          invariant done == base + i && done <= |all| && Scanned(start, all, done, f, rows, cursor)
          invariant report.processed == done <= stopAfter
          invariant i == |channels| ==> cursor == lastID
          invariant report == ReportChecked(all[..done], checks, io)
        {
          if report.processed >= stopAfter { break scanLoop; }
          var channel := channels[i];
          ghost var before := rows;
          ReportCheckedStep(all, done, checks, io);
          report := CheckOne(channel, checks(channel.id), io(channel.id), report);
          ScanAdvances(start, all, done, f, before, cursor, rows);
          cursor, done := channel.id, done + 1;
        }
        if |channels| < batchSize { break; }
      }
      assert all[..done] == Limit(all, stopAfter);
      ScanEnds(start, all, done, f, rows, cursor);
    }
  }

  // ---------------------------------------------------------- what a scan achieves

  /** The list a scan works through holds each enabled channel once, in id order. */
  lemma ScanOrder(rows: seq<Entry>)
    requires Keyed(rows)
    ensures Keyed(EnabledAfter(rows, 0))
    ensures forall e :: e in EnabledAfter(rows, 0) <==> e in rows && e.enabled
  {
    EnabledAfterExact(rows, 0);
  }

  /** How many channels take part in checking. */
  function Checkable(channels: seq<Entry>): nat {
    if channels == [] then 0
    else Checkable(channels[..|channels| - 1]) + if channels[|channels| - 1].checkEnabled then 1 else 0
  }

  /** How many names their checks adopt. */
  function SumAdopted(channels: seq<Entry>, checks: int -> Check, io: int -> Io): nat {
    if channels == [] then 0
    else
      var e := channels[|channels| - 1];
      SumAdopted(channels[..|channels| - 1], checks, io)
      + if WellChecked(e, checks, io) then AutoAdded(e, checks(e.id)) else 0
  }

  /** The check report counts every channel the scan saw. */
  lemma {:induction false} CheckReportCounts(channels: seq<Entry>, checks: int -> Check, io: int -> Io)
    ensures var r := ReportChecked(channels, checks, io);
            && r.processed == |channels|
            && |r.failed| + r.changed <= r.checked <= r.processed
            && r.autoAdded <= r.detectedAdd
            && (r.changed == 0 <==> r.detectedAdd + r.detectedRemove == 0)
            && |r.summaries| == r.changed && (r.refresh <==> r.autoAdded > 0)
            && r.checked == Checkable(channels) && r.autoAdded == SumAdopted(channels, checks, io)
  {
    hide AddChecked;
    if channels != [] {
      var before, e := channels[..|channels| - 1], channels[|channels| - 1];
      CheckReportCounts(before, checks, io);
      hide ReportChecked;
      OneMoreCounted(ReportChecked(before, checks, io), e, checks(e.id), io(e.id));
      assert channels == before + [e] && channels[..|before|] == before;
      ReportCheckedStep(channels, |before|, checks, io);
      assert channels[..|channels|] == channels;
    }
  }

  lemma OneMoreCounted(r: CheckReport, e: Entry, c: Check, io: Io)
    requires |r.failed| + r.changed <= r.checked <= r.processed && r.autoAdded <= r.detectedAdd
    requires r.changed == 0 <==> r.detectedAdd + r.detectedRemove == 0
    requires |r.summaries| == r.changed && (r.refresh <==> r.autoAdded > 0)
    ensures var next := AddChecked(r, e, c, io);
            && next.processed == r.processed + 1
            && |next.failed| + next.changed <= next.checked <= next.processed && next.autoAdded <= next.detectedAdd
            && (next.changed == 0 <==> next.detectedAdd + next.detectedRemove == 0)
            && |next.summaries| == next.changed && (next.refresh <==> next.autoAdded > 0)
            && next.checked == r.checked + (if e.checkEnabled then 1 else 0)
            && next.autoAdded == r.autoAdded
                                 + if e.checkEnabled && !CheckFails(e, c, io) then AutoAdded(e, c) else 0
  {
    hide Merged, Normalize, Checked, CheckFails, AutoAdded;
  }

  // ---------------------------------------------------------- what the reports hold

  function SumAdds(summaries: seq<Summary>): nat {
    if summaries == [] then 0 else SumAdds(summaries[..|summaries| - 1]) + summaries[|summaries| - 1].adds
  }

  function SumRemoves(summaries: seq<Summary>): nat {
    if summaries == [] then 0 else SumRemoves(summaries[..|summaries| - 1]) + summaries[|summaries| - 1].removes
  }

  lemma SumsSnoc(summaries: seq<Summary>, s: Summary)
    ensures SumAdds(summaries + [s]) == SumAdds(summaries) + s.adds
    ensures SumRemoves(summaries + [s]) == SumRemoves(summaries) + s.removes
  {
    assert (summaries + [s])[..|summaries|] == summaries;
  }

  /** A channel that takes part in checking and whose check does not fail. */
  predicate WellChecked(e: Entry, checks: int -> Check, io: int -> Io) {
    e.checkEnabled && !CheckFails(e, checks(e.id), io(e.id))
  }

  /** Its settings afterwards. */
  function SettingsAfter(e: Entry, checks: int -> Check, io: int -> Io): Settings {
    (if io(e.id).WriteFails? then e.row else Checked(e.row, checks(e.id))).settings
  }

  function SummaryOf(e: Entry, checks: int -> Check, io: int -> Io): Summary {
    var s := SettingsAfter(e, checks, io);
    Summary(e.name, |Normalize(s.detected)| + AutoAdded(e, checks(e.id)), |Normalize(s.removed)|)
  }

  ghost predicate FailedExact(failed: seq<int>, channels: seq<Entry>, checks: int -> Check, io: int -> Io) {
    forall id :: id in failed <==>
      exists e :: e in channels && e.id == id && e.checkEnabled && CheckFails(e, checks(e.id), io(e.id))
  }

  ghost predicate SummariesExact(summaries: seq<Summary>, channels: seq<Entry>,
                                 checks: int -> Check, io: int -> Io) {
    forall s :: s in summaries <==>
      && (s.adds > 0 || s.removes > 0)
      && exists e :: e in channels && WellChecked(e, checks, io) && s == SummaryOf(e, checks, io)
  }

  function StagedNames(e: Entry, removes: bool, checks: int -> Check, io: int -> Io): seq<string> {
    var s := SettingsAfter(e, checks, io);
    Normalize(if removes then s.removed else s.detected)
  }

  ghost predicate SamplesExact(samples: seq<string>, removes: bool, channels: seq<Entry>,
                               checks: int -> Check, io: int -> Io) {
    && Normal(samples)
    && forall x :: x in samples <==>
         exists e :: e in channels && WellChecked(e, checks, io) && x in StagedNames(e, removes, checks, io)
  }

  /** The report of the detection task: exactly the failed channels, a summary of
      exactly the channels with something staged or adopted, the sums of the
      summaries, and as samples exactly the names staged anywhere, each once. */
  lemma {:induction false} CheckReportExact(channels: seq<Entry>, checks: int -> Check, io: int -> Io)
    ensures var r := ReportChecked(channels, checks, io);
            && FailedExact(r.failed, channels, checks, io)
            && SummariesExact(r.summaries, channels, checks, io)
            && SamplesExact(r.addSamples, false, channels, checks, io)
            && SamplesExact(r.removeSamples, true, channels, checks, io)
            && r.detectedAdd == SumAdds(r.summaries) && r.detectedRemove == SumRemoves(r.summaries)
  {
    hide FailedExact, SummariesExact, SamplesExact, AddChecked;
    if channels == [] {
      NothingReported(checks, io);
    } else {
      hide ReportChecked;
      var before, e := channels[..|channels| - 1], channels[|channels| - 1];
      CheckReportExact(before, checks, io);
      assert channels == before + [e] && channels[..|before|] == before && channels[..|channels|] == channels;
      ReportCheckedStep(channels, |before|, checks, io);
      var r := ReportChecked(before, checks, io);
      OneMoreFailed(r, before, e, checks, io);
      OneMoreSummary(r, before, e, checks, io);
      OneMoreSampled(r, before, e, checks, io);
    }
  }

  lemma NothingReported(checks: int -> Check, io: int -> Io)
    ensures var r := ReportChecked([], checks, io);
            && FailedExact(r.failed, [], checks, io) && SummariesExact(r.summaries, [], checks, io)
            && SamplesExact(r.addSamples, false, [], checks, io) && SamplesExact(r.removeSamples, true, [], checks, io)
            && r.detectedAdd == SumAdds(r.summaries) && r.detectedRemove == SumRemoves(r.summaries)
  {
    hide WellChecked, SettingsAfter, SummaryOf, CheckFails;
    NothingChecked(checks, io);
  }

  lemma OneMore<T>(before: seq<T>, e: T)
    ensures forall x :: x in before + [e] <==> x in before || x == e
  {
  }

  lemma OneMoreFailed(r: CheckReport, before: seq<Entry>, e: Entry, checks: int -> Check, io: int -> Io)
    requires FailedExact(r.failed, before, checks, io)
    ensures FailedExact(AddChecked(r, e, checks(e.id), io(e.id)).failed, before + [e], checks, io)
  {
    hide CheckFails, Checked, Normalize, Merged, AutoAdded;
    OneMore(before, e);
  }

  lemma AddCheckedParts(r: CheckReport, e: Entry, checks: int -> Check, io: int -> Io)
    ensures var next, s := AddChecked(r, e, checks(e.id), io(e.id)), SummaryOf(e, checks, io);
            if !WellChecked(e, checks, io)
            then && next.summaries == r.summaries
                 && next.addSamples == r.addSamples && next.removeSamples == r.removeSamples
                 && next.detectedAdd == r.detectedAdd && next.detectedRemove == r.detectedRemove
            else && next.summaries == (if s.adds > 0 || s.removes > 0 then r.summaries + [s] else r.summaries)
                 && next.addSamples == Merged(r.addSamples, StagedNames(e, false, checks, io))
                 && next.removeSamples == Merged(r.removeSamples, StagedNames(e, true, checks, io))
                 && next.detectedAdd == r.detectedAdd + s.adds && next.detectedRemove == r.detectedRemove + s.removes
  {
    hide CheckFails, Checked, Normalize, Merged, AutoAdded;
  }

  lemma OneMoreSummary(r: CheckReport, before: seq<Entry>, e: Entry, checks: int -> Check, io: int -> Io)
    requires SummariesExact(r.summaries, before, checks, io)
    requires r.detectedAdd == SumAdds(r.summaries) && r.detectedRemove == SumRemoves(r.summaries)
    ensures var next := AddChecked(r, e, checks(e.id), io(e.id));
            && SummariesExact(next.summaries, before + [e], checks, io)
            && next.detectedAdd == SumAdds(next.summaries) && next.detectedRemove == SumRemoves(next.summaries)
  {
    hide AddChecked, WellChecked, SummaryOf, StagedNames, Merged, SumAdds, SumRemoves;
    var s := SummaryOf(e, checks, io);
    AddCheckedParts(r, e, checks, io);
    SumsSnoc(r.summaries, s);
    OneMore(before, e);
    OneMore(r.summaries, s);
  }

  lemma OneMoreSampled(r: CheckReport, before: seq<Entry>, e: Entry, checks: int -> Check, io: int -> Io)
    requires SamplesExact(r.addSamples, false, before, checks, io)
    requires SamplesExact(r.removeSamples, true, before, checks, io)
    ensures var next := AddChecked(r, e, checks(e.id), io(e.id));
            && SamplesExact(next.addSamples, false, before + [e], checks, io)
            && SamplesExact(next.removeSamples, true, before + [e], checks, io)
  {
    hide AddChecked, WellChecked, SummaryOf, SamplesExact;
    AddCheckedParts(r, e, checks, io);
    SamplesStep(r.addSamples, false, before, e, checks, io);
    SamplesStep(r.removeSamples, true, before, e, checks, io);
  }

  lemma SamplesStep(samples: seq<string>, removes: bool, before: seq<Entry>, e: Entry,
                    checks: int -> Check, io: int -> Io)
    requires SamplesExact(samples, removes, before, checks, io)
    ensures var next := if WellChecked(e, checks, io) then Merged(samples, StagedNames(e, removes, checks, io))
                        else samples;
            SamplesExact(next, removes, before + [e], checks, io)
  {
    OneMore(before, e);
    if WellChecked(e, checks, io) {
      var s := SettingsAfter(e, checks, io);
      SamplesMerged(samples, if removes then s.removed else s.detected);
      hide WellChecked, Merged, SettingsAfter, Normalize;
      assert StagedNames(e, removes, checks, io) == Normalize(if removes then s.removed else s.detected);
      hide StagedNames;
    }
  }

  lemma SamplesMerged(samples: seq<string>, names: seq<string>)
    requires Normal(samples)
    ensures Normal(Merged(samples, Normalize(names)))
    ensures forall x :: x in Merged(samples, Normalize(names)) <==> x in samples || x in Normalize(names)
  {
    NormalizeShape(names);
    NormalizeFixed(samples);
    NormalizeFixed(Normalize(names));
    MergedMembers(samples, Normalize(names));
  }

  function SumAdded(results: seq<AppliedChannel>): nat {
    if results == [] then 0 else SumAdded(results[..|results| - 1]) + |results[|results| - 1].added|
  }

  function SumRemoved(results: seq<AppliedChannel>): nat {
    if results == [] then 0 else SumRemoved(results[..|results| - 1]) + |results[|results| - 1].removed|
  }

  lemma SumsAppliedSnoc(results: seq<AppliedChannel>, a: AppliedChannel)
    ensures SumAdded(results + [a]) == SumAdded(results) + |a.added|
    ensures SumRemoved(results + [a]) == SumRemoved(results) + |a.removed|
  {
    assert (results + [a])[..|results|] == results;
  }

  /** A channel that takes part and has something staged, spelled out. */
  ghost predicate TakesPart(e: Entry) {
    && e.checkEnabled
    && exists x :: x in Normalize(e.row.settings.detected) || x in Normalize(e.row.settings.removed)
  }

  lemma TakesPartExactly(e: Entry)
    ensures HasStaged(e) <==> TakesPart(e)
  {
    var d, r := Normalize(e.row.settings.detected), Normalize(e.row.settings.removed);
    assert d != [] ==> d[0] in d;
    assert r != [] ==> r[0] in r;
  }

  ghost predicate ApplyFailedExact(failed: seq<int>, channels: seq<Entry>, now: int, io: int -> Io) {
    forall id :: id in failed <==>
      exists e :: e in channels && e.id == id && TakesPart(e) && ApplyFails(e, now, io(e.id))
  }

  ghost predicate ResultsExact(results: seq<AppliedChannel>, channels: seq<Entry>, now: int, io: int -> Io) {
    forall a :: a in results <==>
      exists e :: e in channels && TakesPart(e) && !ApplyFails(e, now, io(e.id)) && a == AppliedEntry(e, now)
  }

  /** The report of the scan that applies everything: exactly the failed channels,
      exactly the others that had something staged, and the sums. */
  lemma {:induction false} ApplyReportExact(channels: seq<Entry>, now: int, io: int -> Io)
    ensures var r := ReportApplied(channels, now, io);
            && ApplyFailedExact(r.failed, channels, now, io) && ResultsExact(r.results, channels, now, io)
            && r.added == SumAdded(r.results) && r.removed == SumRemoved(r.results)
  {
    hide ApplyFailedExact, ResultsExact, AddApplied;
    if channels == [] {
      NothingListed(now, io);
    } else {
      hide ReportApplied;
      var before, e := channels[..|channels| - 1], channels[|channels| - 1];
      ApplyReportExact(before, now, io);
      assert channels == before + [e] && channels[..|before|] == before && channels[..|channels|] == channels;
      ReportAppliedStep(channels, |before|, now, io);
      OneMoreListed(ReportApplied(before, now, io), before, e, now, io);
    }
  }

  lemma NothingListed(now: int, io: int -> Io)
    ensures var r := ReportApplied([], now, io);
            && ApplyFailedExact(r.failed, [], now, io) && ResultsExact(r.results, [], now, io)
            && r.added == SumAdded(r.results) && r.removed == SumRemoved(r.results)
  {
    hide TakesPart, ApplyFails, AppliedEntry;
    NothingApplied(now, io);
  }

  lemma OneMoreListed(r: ApplyReport, before: seq<Entry>, e: Entry, now: int, io: int -> Io)
    requires ApplyFailedExact(r.failed, before, now, io) && ResultsExact(r.results, before, now, io)
    requires r.added == SumAdded(r.results) && r.removed == SumRemoved(r.results)
    ensures var next := AddApplied(r, e, now, io(e.id));
            && ApplyFailedExact(next.failed, before + [e], now, io) && ResultsExact(next.results, before + [e], now, io)
            && next.added == SumAdded(next.results) && next.removed == SumRemoved(next.results)
  {
    hide HasStaged, TakesPart, ApplyFails, AppliedEntry, ModelsChange, SumAdded, SumRemoved;
    OneMore(before, e);
    OneMore(r.results, AppliedEntry(e, now));
    TakesPartExactly(e);
    SumsAppliedSnoc(r.results, AppliedEntry(e, now));
  }

  /** What is listed for a channel: everything staged to be added, everything staged to
      be removed but not added, and as remaining only names staged both ways. */
  lemma AppliedEntryExact(e: Entry, now: int)
    ensures var a, s := AppliedEntry(e, now), e.row.settings;
            && a.id == e.id && a.name == e.name && a.remaining == []
            && (forall x :: x in a.added <==> x in Normalize(s.detected))
            && (forall x :: x in a.removed <==> x in Normalize(s.removed) && x !in Normalize(s.detected))
            && (forall x :: x in a.remainingRemove <==> x in Normalize(s.removed) && x in Normalize(s.detected))
  {
    hide SelectedAdd, SelectedRemove, RemainingAdd, RemainingRemove, Normalize;
    var s := e.row.settings;
    SelectAllTakesAll(s, now);
    SelectedFacts(s, SelectAll(s, now));
    NormalizeShape(s.detected);
    NormalizeShape(s.removed);
    NormalizeFixed(Normalize(s.detected));
    NormalizeFixed(Normalize(s.removed));
  }

  lemma SelectAllTakesAll(s: Settings, now: int)
    ensures RemainingAdd(s, SelectAll(s, now)) == []
    ensures RemainingRemove(s, SelectAll(s, now)) == [] <==>
              forall x :: x in Normalize(s.removed) ==> x !in Normalize(s.detected)
  {
    var sel := SelectAll(s, now);
    SelectedFacts(s, sel);
    NormalizeShape(s.detected);
    NormalizeShape(s.removed);
    NormalizeFixed(Normalize(s.detected));
    NormalizeFixed(Normalize(s.removed));
    EmptyWithoutMembers(RemainingAdd(s, sel));
    EmptyWithoutMembers(RemainingRemove(s, sel));
    assert RemainingRemove(s, sel) == [] ==> forall x :: x !in RemainingRemove(s, sel);
  }

  /** After ApplyAll a channel that takes part, and whose write succeeds, has nothing
      staged if and only if no name was staged both for addition and for removal. */
  lemma ApplyAllDrains(rows: seq<Entry>, now: int, io: int -> Io, i: nat)
    requires i < |rows| && rows[i].enabled && rows[i].checkEnabled && !io(rows[i].id).WriteFails?
    ensures var s := rows[i].row.settings;
            var next := Handled(rows, Applier(now, io))[i].row.settings;
            (Normalize(next.detected) == [] && Normalize(next.removed) == [])
            <==> forall x :: x in Normalize(s.removed) ==> x !in Normalize(s.detected)
  {
    hide Normalize, RemainingAdd, RemainingRemove, SelectAll, SelectedAdd, SelectedRemove, NextModels, NextIgnored,
         Local;
    var s := rows[i].row.settings;
    SelectAllTakesAll(s, now);
    RemainingNormal(s, SelectAll(s, now));
    NothingLocal();
  }

  lemma RemainingNormal(s: Settings, sel: Selection)
    ensures Normalize(RemainingAdd(s, sel)) == RemainingAdd(s, sel)
    ensures Normalize(RemainingRemove(s, sel)) == RemainingRemove(s, sel)
  {
    SelectedFacts(s, sel);
    NormalizeFixed(RemainingAdd(s, sel));
    NormalizeFixed(RemainingRemove(s, sel));
  }

  // ---------------------------------------------------------- what a scan leaves and when it fails

  /** The table after a checking scan: an enabled channel that takes part is checked
      unless its write fails; every other row is as it was. */
  lemma CheckedRowsExactly(rows: seq<Entry>, checks: int -> Check, io: int -> Io, i: nat)
    requires i < |rows|
    ensures var before, after := rows[i], Handled(rows, Checker(checks, io))[i];
            && |Handled(rows, Checker(checks, io))| == |rows|
            && after == before.(row := after.row)
            && (before.enabled && before.checkEnabled && !io(before.id).WriteFails?
                ==> after.row == Checked(before.row, checks(before.id)))
            && (!before.enabled || !before.checkEnabled || io(before.id).WriteFails? ==> after == before)
  {
    hide Checked;
  }

  /** A channel counts as failed when it was due and the write, the fetch, or, if names
      are adopted, the rebuild of the abilities fails. */
  lemma CheckFailsExactly(e: Entry, c: Check, io: Io)
    ensures var s := e.row.settings;
            CheckFails(e, c, io) <==>
              && (c.force || s.lastCheckTime <= 0 || c.now >= s.lastCheckTime + c.minInterval)
              && (io.WriteFails? || c.fetched.None?
                  || (io.AbilitiesFail? && c.allowAuto && s.autoSync && Found(e.row, c) != []))
  {
    hide Found;
  }

  /** A check adopts names exactly when it is due, the fetch succeeds, and adopting is
      allowed and switched on; the number counted is that of the models gained. */
  lemma AutoAddedExactly(e: Entry, c: Check)
    ensures var s := e.row.settings;
            AutoAdded(e, c) > 0 <==>
              && (c.force || s.lastCheckTime <= 0 || c.now >= s.lastCheckTime + c.minInterval)
              && c.fetched.Some? && c.allowAuto && s.autoSync && Found(e.row, c) != []
    ensures c.fetched.Some? && SepFree(',', Found(e.row, c)) && AutoAdded(e, c) > 0 ==>
              |Local(Checked(e.row, c))| == |Local(e.row)| + AutoAdded(e, c)
  {
    hide PendingAdd, PendingRemove, Local, Merged, Join;
    if c.fetched.Some? && AutoAdded(e, c) > 0 {
      CheckInterval(e.row, c);
      CheckAnswerExact(e.row, c.(force := true), AllWell);
    }
  }

  ghost predicate Ascending(ids: seq<int>) {
    forall i, j :: 0 <= i < j < |ids| ==> ids[i] < ids[j]
  }

  /** What is reported of channels so far is of earlier ones. */
  lemma AscendingSnoc(ids: seq<int>, before: seq<Entry>, e: Entry)
    requires Ascending(ids) && Keyed(before + [e])
    requires forall id :: id in ids ==> exists d :: d in before && d.id == id
    ensures Ascending(ids + [e.id])
  {
    forall i | 0 <= i < |ids| ensures ids[i] < e.id {
      assert ids[i] in ids;
      var d :| d in before && d.id == ids[i];
      var k :| 0 <= k < |before| && before[k] == d;
      assert (before + [e])[k] == d && (before + [e])[|before|] == e;
    }
  }

  lemma KeyedPrefix(before: seq<Entry>, e: Entry)
    ensures Keyed(before + [e]) ==> Keyed(before)
  {
    assert Keyed(before + [e]) ==> forall i :: 0 <= i < |before| ==> before[i] == (before + [e])[i];
  }

  /** The failed channels are reported once each, in the order of their ids. */
  lemma {:induction false} FailedInOrder(channels: seq<Entry>, checks: int -> Check, io: int -> Io)
    requires Keyed(channels)
    ensures Ascending(ReportChecked(channels, checks, io).failed)
  {
    hide AddChecked, Keyed, Ascending;
    if channels == [] {
      NoneAscending();
    } else {
      var before, e := channels[..|channels| - 1], channels[|channels| - 1];
      assert channels == before + [e];
      KeyedPrefix(before, e);
      FailedInOrder(before, checks, io);
      CheckReportExact(before, checks, io);
      FailedGrows(ReportChecked(before, checks, io), e, checks(e.id), io(e.id));
      AscendingSnoc(ReportChecked(before, checks, io).failed, before, e);
    }
  }

  lemma NoneAscending()
    ensures Ascending([])
  {
  }

  lemma FailedGrows(r: CheckReport, e: Entry, c: Check, io: Io)
    ensures var next := AddChecked(r, e, c, io).failed; next == r.failed || next == r.failed + [e.id]
  {
    hide CheckFails, Checked, Normalize, Merged, AutoAdded;
  }

  function AppliedIDs(results: seq<AppliedChannel>): seq<int> {
    seq(|results|, i requires 0 <= i < |results| => results[i].id)
  }

  /** So are those that were handled. */
  lemma {:induction false} AppliedInOrder(channels: seq<Entry>, now: int, io: int -> Io)
    requires Keyed(channels)
    ensures var r := ReportApplied(channels, now, io); Ascending(r.failed) && Ascending(AppliedIDs(r.results))
  {
    hide AddApplied, Keyed, Ascending, AppliedIDs, ApplyFailedExact, ResultsExact;
    if channels == [] {
      NoneAscending();
      assert AppliedIDs([]) == [] by { NoneApplied(); }
    } else {
      var before, e := channels[..|channels| - 1], channels[|channels| - 1];
      assert channels == before + [e];
      KeyedPrefix(before, e);
      AppliedInOrder(before, now, io);
      ApplyReportExact(before, now, io);
      OneMoreInOrder(ReportApplied(before, now, io), before, e, now, io);
    }
  }

  lemma NoneApplied()
    ensures AppliedIDs([]) == []
  {
  }

  lemma OneMoreInOrder(r: ApplyReport, before: seq<Entry>, e: Entry, now: int, io: int -> Io)
    requires Keyed(before + [e]) && Ascending(r.failed) && Ascending(AppliedIDs(r.results))
    requires ApplyFailedExact(r.failed, before, now, io) && ResultsExact(r.results, before, now, io)
    ensures var next := AddApplied(r, e, now, io(e.id)); Ascending(next.failed) && Ascending(AppliedIDs(next.results))
  {
    hide Keyed, Ascending, AddApplied, TakesPart, ApplyFails, AppliedEntry;
    var ids := AppliedIDs(r.results);
    forall id | id in ids ensures exists d :: d in before && d.id == id {
      var i :| 0 <= i < |ids| && ids[i] == id;
      assert r.results[i] in r.results;
      AppliedEntryIDs(now);
    }
    AscendingSnoc(r.failed, before, e);
    AscendingSnoc(ids, before, e);
    AddAppliedGrows(r, e, now, io(e.id));
  }

  lemma AppliedEntryIDs(now: int)
    ensures forall d :: AppliedEntry(d, now).id == d.id
  {
  }

  lemma AddAppliedGrows(r: ApplyReport, e: Entry, now: int, io: Io)
    ensures var next := AddApplied(r, e, now, io);
            && (next.failed == r.failed || next.failed == r.failed + [e.id])
            && (next.results == r.results || AppliedIDs(next.results) == AppliedIDs(r.results) + [e.id])
  {
    hide ApplyFails, HasStaged, ModelsChange, SelectAll, SelectedAdd, SelectedRemove, RemainingAdd, RemainingRemove;
  }

  /** Applying everything changes the models exactly when a staged addition is new or a
      staged removal, not also staged to be added, is a model. */
  lemma ModelsChangeExactly(e: Entry, now: int)
    ensures var s := e.row.settings;
            ModelsChange(e, now) <==>
              || (exists x :: x in Normalize(s.detected) && x !in Local(e.row))
              || (exists x :: x in Normalize(s.removed) && x !in Normalize(s.detected) && x in Local(e.row))
  {
    hide Normalize, Local, SelectedAdd, SelectedRemove, SelectAll, Keep;
    var s, sel := e.row.settings, SelectAll(e.row.settings, now);
    var local, add, remove := Local(e.row), SelectedAdd(s, sel), SelectedRemove(s, sel);
    AppliedEntryExact(e, now);
    LocalShape(e.row);
    SelectedFacts(s, sel);
    NormalizeFixed(local);
    NormalizeFixed(add);
    NormalizeFixed(remove);
    ApplySelectedMembers(local, add, remove);
    ApplySelectedExact(local, add, remove);
    if (forall x :: x in add ==> x in local) && (forall x :: x in remove ==> x !in local) {
      KeepAll(local, x => x in add || x !in remove);
      KeepMembers(add, x => x !in local);
      EmptyWithoutMembers(Without(add, local));
    }
  }

  lemma ApplyFailsExactly(e: Entry, now: int, io: Io)
    ensures var s := e.row.settings;
            ApplyFails(e, now, io) <==>
              || io.WriteFails?
              || (io.AbilitiesFail? && exists x :: x in Normalize(s.detected) && x !in Local(e.row))
              || (io.AbilitiesFail? && exists x ::
                   x in Normalize(s.removed) && x !in Normalize(s.detected) && x in Local(e.row))
  {
    hide ModelsChange, Normalize, Local;
    ModelsChangeExactly(e, now);
  }

  /** The caches are refreshed when a channel that is listed has other models now. */
  lemma {:induction false} RefreshExactly(channels: seq<Entry>, now: int, io: int -> Io)
    ensures ReportApplied(channels, now, io).refresh <==>
              exists e :: e in channels && TakesPart(e) && !ApplyFails(e, now, io(e.id)) && ModelsChange(e, now)
  {
    hide AddApplied, TakesPart, ApplyFails, ModelsChange;
    if channels != [] {
      var before, e := channels[..|channels| - 1], channels[|channels| - 1];
      RefreshExactly(before, now, io);
      OneMoreRefreshes(ReportApplied(before, now, io), e, now, io(e.id));
      assert channels == before + [e];
      OneMore(before, e);
    }
  }

  lemma OneMoreRefreshes(r: ApplyReport, e: Entry, now: int, io: Io)
    ensures AddApplied(r, e, now, io).refresh <==>
              r.refresh || (TakesPart(e) && !ApplyFails(e, now, io) && ModelsChange(e, now))
  {
    hide HasStaged, TakesPart, ApplyFails, ModelsChange, AppliedEntry;
    TakesPartExactly(e);
  }
}
