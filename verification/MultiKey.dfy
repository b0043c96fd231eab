/**
 Channels with several keys (controller/channel.go, lines 954-1034 and 1434-1896;
 model/channel.go, lines 199-221, 550-597 and 665-728).

 A channel stores its keys as one newline-joined text, and what is known about
 each key in three maps from the key's position.  The thing they stand for is a
 list of records, one per key; Records is that view, as the status listing
 shows it.
 */
module MultiKey {
  import opened Text
  import opened Wrappers

  datatype Info = Info(size: int, status: map<int, int>, time: map<int, int>, reason: map<int, string>)

  /** The channel's database row. */
  datatype Row = Row(key: string, info: Info)

  const ENABLED := 1
  const MANUALLY_DISABLED := 2
  const AUTO_DISABLED := 3

  datatype Record = Record(key: string, status: int, time: int, reason: string)

  function GetKeys(key: string): seq<string> {
    Lines('\n', key)
  }

  function Get<V>(m: map<int, V>, i: int, default: V): V {
    if i in m then m[i] else default
  }

  function StatusOf(info: Info, i: int): int {
    Get(info.status, i, ENABLED)
  }

  /** What the listing shows of the key at position i; the time and the reason
      of an enabled key are not shown. */
  function RecordOf(key: string, info: Info, i: int): Record {
    var status := StatusOf(info, i);
    if status == ENABLED then Record(key, status, 0, "")
    else Record(key, status, Get(info.time, i, 0), Get(info.reason, i, ""))
  }

  function Records(row: Row): seq<Record> {
    var keys := GetKeys(row.key);
    seq(|keys|, i requires 0 <= i < |keys| => RecordOf(keys[i], row.info, i))
  }

  // ---------------------------------------------------------------- writing back

  /** The info that Update writes: the size is counted again, and statuses past
      it are dropped.  Times and reasons are not. */
  function Recounted(key: string, info: Info): Info {
    var n := |GetKeys(key)|;
    info.(size := n, status := Only(info.status, Below(n)))
  }

  function Below(n: int): int -> bool {
    i => i < n
  }

  /** The row after Update: an empty key text is not written, so the stored one
      stays. */
  function Updated(stored: Row, key: string, info: Info): Row {
    var text := if key != "" then key else stored.key;
    Row(text, Recounted(text, info))
  }

  // ---------------------------------------------------------------- the actions

  datatype Outcome =
    | Done(count: int)
    | NoIndex | OutOfRange | NothingToDisable | LastKey | NothingToDelete | WriteFailed

  /** The positions below n that satisfy p, in order. */
  function Kept(n: nat, p: int -> bool): seq<int> {
    if n == 0 then []
    else if p(n - 1) then Kept(n - 1, p) + [n - 1] else Kept(n - 1, p)
  }

  function Select<T>(xs: seq<T>, kept: seq<int>): seq<T>
    requires forall j :: 0 <= j < |kept| ==> 0 <= kept[j] < |xs|
  {
    seq(|kept|, j requires 0 <= j < |kept| => xs[kept[j]])
  }

  /** The entries of m at the kept positions, under their new positions. */
  function Reindexed<V>(m: map<int, V>, kept: seq<int>): map<int, V> {
    if kept == [] then map[]
    else
      var n := |kept| - 1;
      var r := Reindexed(m, kept[..n]);
      if kept[n] in m then r[n := m[kept[n]]] else r
  }

  function Only<K, V>(m: map<K, V>, p: K -> bool): map<K, V> {
    map i | i in m && p(i) :: m[i]
  }

  function InRange(info: Info, index: Option<int>): Outcome {
    if index.None? then NoIndex
    else if index.value < 0 || index.value >= info.size then OutOfRange
    else Done(0)
  }

  function Disabled(info: Info, i: int): Info {
    info.(status := info.status[i := MANUALLY_DISABLED])
  }

  function Enabled(info: Info, i: int): Info {
    info.(status := info.status - {i}, time := info.time - {i}, reason := info.reason - {i})
  }

  function AllEnabled(info: Info): Info {
    info.(status := map[], time := map[], reason := map[])
  }

  function AllDisabled(info: Info, n: int): Info {
    info.(status := info.status + map i | 0 <= i < n && StatusOf(info, i) == ENABLED :: MANUALLY_DISABLED)
  }

  function CountEnabled(info: Info, n: int): nat {
    if n <= 0 then 0 else CountEnabled(info, n - 1) + (if StatusOf(info, n - 1) == ENABLED then 1 else 0)
  }

  function Other(i: int): int -> bool {
    k => k != i
  }

  function NotAutoDisabled(info: Info): int -> bool {
    k => StatusOf(info, k) != AUTO_DISABLED
  }

  /** The entries of xs at the positions that satisfy p. */
  function SelectIf<T>(xs: seq<T>, p: int -> bool): seq<T> {
    KeptInRange(|xs|, p);
    Select(xs, Kept(|xs|, p))
  }

  function KeptOnDelete(row: Row, i: int): seq<int> {
    Kept(|GetKeys(row.key)|, Other(i))
  }

  function KeptOnPurge(row: Row): seq<int> {
    Kept(|GetKeys(row.key)|, NotAutoDisabled(row.info))
  }

  function NotEnabled(status: map<int, int>): int -> bool {
    i => i in status && status[i] != ENABLED
  }

  /** delete_key keeps the times and reasons of every remaining key. */
  function InfoOnDelete(info: Info, kept: seq<int>): Info {
    Info(|kept|,
         Reindexed(Only(info.status, NotEnabled(info.status)), kept),
         Reindexed(info.time, kept),
         Reindexed(info.reason, kept))
  }

  /** delete_disabled_keys keeps those of keys that are not enabled. */
  function InfoOnPurge(info: Info, kept: seq<int>): Info {
    Info(|kept|,
         Reindexed(Only(info.status, NotEnabled(info.status)), kept),
         Reindexed(Only(info.time, NotEnabled(info.status)), kept),
         Reindexed(Only(info.reason, NotEnabled(info.status)), kept))
  }

  function KeyDeleted(row: Row, i: int): Row {
    Updated(row, Join('\n', SelectIf(GetKeys(row.key), Other(i))), InfoOnDelete(row.info, KeptOnDelete(row, i)))
  }

  function DisabledDeleted(row: Row): Row {
    Updated(row, Join('\n', SelectIf(GetKeys(row.key), NotAutoDisabled(row.info))),
            InfoOnPurge(row.info, KeptOnPurge(row)))
  }

  // ---------------------------------------------------------------- appending

  /** The requested keys that are new, each once; existing keys compare by their trimmed text. */
  function Fresh(existing: seq<string>, requested: seq<string>): seq<string> {
    if requested == [] then []
    else
      var rest := Fresh(existing, requested[..|requested| - 1]);
      var key := requested[|requested| - 1];
      if key in Trimmed(existing) || key in rest then rest else rest + [key]
  }

  /** The existing keys an append starts from. */
  function Existing(stored: string): seq<string> {
    Split('\n', TrimSep('\n', stored))
  }

  /** The key text an append sends to Update. */
  function Appended(stored: string, input: string): string {
    if stored == "" then input
    else Join('\n', Existing(stored) + Fresh(Existing(stored), Trimmed(Split('\n', input))))
  }

  // ---------------------------------------------------------------- status reports

  /** The first position of a key, or |keys|. */
  function IndexOf(keys: seq<string>, key: string): nat {
    if keys == [] || keys[0] == key then 0 else 1 + IndexOf(keys[1..], key)
  }

  /** What the relay records when a key fails or recovers. */
  function StatusReported(row: Row, key: string, status: int, reason: string, now: int): Row {
    var keys := GetKeys(row.key);
    var i := IndexOf(keys, key);
    if i == |keys| then row
    else if status == ENABLED then row.(info := row.info.(status := row.info.status - {i}))
    else row.(info := row.info.(status := row.info.status[i := status],
                                time := row.info.time[i := now],
                                reason := row.info.reason[i := reason]))
  }

  /** Whether some key is enabled. */
  predicate HasEnabled(n: nat, status: map<int, int>) {
    exists i :: 0 <= i < n && Get(status, i, ENABLED) == ENABLED
  }

  /** The status of the channel itself, with the reason and the time of its last
      change. */
  datatype Standing = Standing(status: int, reason: string, time: int)

  /** The channel after a report: disabled with its last key, enabled again with any
      key; a report without keys or without a key is about the channel. */
  function StandingReported(row: Row, before: Standing, key: string, status: int, reason: string, now: int): Standing {
    var keys := GetKeys(row.key);
    if keys == [] then before.(status := status)
    else if IndexOf(keys, key) == |keys| then (if key == "" then Standing(status, reason, now) else before)
    else if !HasEnabled(|keys|, StatusReported(row, key, status, reason, now).info.status)
    then Standing(AUTO_DISABLED, "All keys are disabled", now)
    else if status == ENABLED then before.(status := ENABLED)
    else before
  }

  // ---------------------------------------------------------------- one request

  datatype Action =
    | Disable(i: int) | Enable(i: int) | EnableAll | DisableAll
    | Delete(i: int) | Purge | Append(input: string)
    | Report(key: string, status: int, reason: string, now: int)

  /** What an action sends to the database: the whole row, or everything but the
      keys. */
  datatype Write = Nothing | Whole(key: string, info: Info) | InfoOnly(info: Info)

  /** What an action sends when it has loaded this row. */
  function Sent(row: Row, a: Action): Write {
    match a
    case Disable(i) =>
      if InRange(row.info, Some(i)).Done? then Whole(row.key, Disabled(row.info, i)) else Nothing
    case Enable(i) =>
      if InRange(row.info, Some(i)).Done? then Whole(row.key, Enabled(row.info, i)) else Nothing
    case EnableAll => Whole(row.key, AllEnabled(row.info))
    case DisableAll =>
      if CountEnabled(row.info, row.info.size) == 0 then Nothing
      else Whole(row.key, AllDisabled(row.info, row.info.size))
    case Delete(i) =>
      var rem := SelectIf(GetKeys(row.key), Other(i));
      if InRange(row.info, Some(i)).Done? && rem != []
      then Whole(Join('\n', rem), InfoOnDelete(row.info, KeptOnDelete(row, i))) else Nothing
    case Purge =>
      var rem := SelectIf(GetKeys(row.key), NotAutoDisabled(row.info));
      if |rem| == |GetKeys(row.key)| then Nothing else Whole(Join('\n', rem), InfoOnPurge(row.info, KeptOnPurge(row)))
    case Append(input) => Whole(Appended(row.key, input), row.info)
    case Report(key, status, reason, now) => InfoOnly(StatusReported(row, key, status, reason, now).info)
  }

  /** The row after a write arrives. */
  function Received(stored: Row, w: Write): Row {
    match w
    case Nothing => stored
    case Whole(key, info) => Updated(stored, key, info)
    case InfoOnly(info) => stored.(info := info)
  }

  /** The row after an action whose write succeeds. */
  function After(row: Row, a: Action): Row {
    Received(row, Sent(row, a))
  }

  // ---------------------------------------------------------------- the listing

  function CountStatus(rs: seq<Record>, status: int): nat {
    if rs == [] then 0
    else CountStatus(rs[..|rs| - 1], status) + (if rs[|rs| - 1].status == status then 1 else 0)
  }

  datatype Entry = Entry(index: int, record: Record)

  /** The listing shows the beginning of a long key only. */
  function Preview(key: string): string {
    if |key| > 10 then key[..10] + "..." else key
  }

  function Previewed(r: Record): Record {
    r.(key := Preview(r.key))
  }

  function Entries(row: Row): seq<Entry> {
    seq(|Records(row)|, i requires 0 <= i < |Records(row)| => Entry(i, Previewed(Records(row)[i])))
  }

  function Filtered(entries: seq<Entry>, status: int): seq<Entry> {
    if entries == [] then []
    else
      var rest := Filtered(entries[..|entries| - 1], status);
      var last := entries[|entries| - 1];
      if last.record.status == status then rest + [last] else rest
  }

  function Shown(row: Row, status: Option<int>): seq<Entry> {
    if status.None? then Entries(row) else Filtered(Entries(row), status.value)
  }

  function TotalPages(n: nat, pageSize: nat): (r: nat)
    requires pageSize > 0
    ensures r > 0
  {
    PagesPositive(n, pageSize);
    if n == 0 then 1 else (n + pageSize - 1) / pageSize
  }

  /** Page number page, counted from 1. */
  function PageOf(entries: seq<Entry>, page: nat, pageSize: nat): seq<Entry>
    requires page > 0
  {
    var start := (page - 1) * pageSize;
    if start >= |entries| then []
    else entries[start..if start + pageSize > |entries| then |entries| else start + pageSize]
  }

  datatype Listing = Listing(
    keys: seq<Entry>, total: nat, page: nat, pageSize: nat, totalPages: nat,
    enabled: nat, manuallyDisabled: nat, autoDisabled: nat)

  // ---------------------------------------------------------------- the class

  /** A multi-key channel.  Every action works on a loaded copy and writes it
      back with Update; writes says whether that succeeds. */
  class MultiKeyChannel {
    var row: Row
    var standing: Standing

    constructor (row: Row, standing: Standing)
      ensures this.row == row && this.standing == standing
    {
      this.row, this.standing := row, standing;
    }

    /** Deletes the entries that do not satisfy p. */
    static method Prune<K(==), V>(m: map<K, V>, p: K -> bool) returns (pruned: map<K, V>)
      ensures pruned == Only(m, p)
    {
      pruned := m;
      var todo := m.Keys;
      while todo != {}
        invariant todo <= pruned.Keys <= m.Keys
        invariant forall i :: i in pruned ==> pruned[i] == m[i]
        invariant forall i :: i in m && i !in todo ==> (i in pruned <==> p(i))
        decreases |todo|
      {
        var i :| i in todo;
        todo := todo - {i};
        if !p(i) {
          pruned := pruned - {i};
        }
      }
    }

    method Update(key: string, info: Info)
      modifies this`row
      ensures row == Updated(old(row), key, info)
    {
      var text := if key != "" then key else row.key;
      var keys := if text == "" then [] else Split('\n', TrimSep('\n', text));
      var status := Prune(info.status, Below(|keys|));
      row := Row(text, info.(size := |keys|, status := status));
    }

    method DisableKey(keyIndex: Option<int>, writes: bool) returns (r: Outcome)
      modifies this`row
      ensures r.NoIndex? <==> keyIndex.None?
      ensures r.OutOfRange? <==> keyIndex.Some? && !(0 <= keyIndex.value < old(row).info.size)
      ensures InRange(old(row).info, keyIndex).Done? ==>
                && r == (if writes then Done(0) else WriteFailed)
                && row == if writes
                          then Updated(old(row), old(row).key, Disabled(old(row).info, keyIndex.value)) else old(row)
      ensures !InRange(old(row).info, keyIndex).Done? ==> r == InRange(old(row).info, keyIndex) && row == old(row)
    {
      if keyIndex.None? { return NoIndex; }
      var i := keyIndex.value;
      if i < 0 || i >= row.info.size { return OutOfRange; }
      var info := row.info.(status := row.info.status[i := MANUALLY_DISABLED]);
      if !writes { return WriteFailed; }
      Update(row.key, info);
      return Done(0);
    }

    method EnableKey(keyIndex: Option<int>, writes: bool) returns (r: Outcome)
      modifies this`row
      ensures r.NoIndex? <==> keyIndex.None?
      ensures r.OutOfRange? <==> keyIndex.Some? && !(0 <= keyIndex.value < old(row).info.size)
      ensures InRange(old(row).info, keyIndex).Done? ==>
                && r == (if writes then Done(0) else WriteFailed)
                && row == if writes
                          then Updated(old(row), old(row).key, Enabled(old(row).info, keyIndex.value)) else old(row)
      ensures !InRange(old(row).info, keyIndex).Done? ==> r == InRange(old(row).info, keyIndex) && row == old(row)
    {
      if keyIndex.None? { return NoIndex; }
      var i := keyIndex.value;
      if i < 0 || i >= row.info.size { return OutOfRange; }
      var info := row.info;
      info := info.(status := info.status - {i});
      info := info.(time := info.time - {i});
      info := info.(reason := info.reason - {i});
      if !writes { return WriteFailed; }
      Update(row.key, info);
      return Done(0);
    }

    method EnableAllKeys(writes: bool) returns (r: Outcome)
      modifies this`row
      ensures r == if writes then Done(|old(row).info.status|) else WriteFailed
      ensures row == if writes then Updated(old(row), old(row).key, AllEnabled(old(row).info)) else old(row)
    {
      var enabledCount := |row.info.status|;
      var info := row.info.(status := map[], time := map[], reason := map[]);
      if !writes { return WriteFailed; }
      Update(row.key, info);
      return Done(enabledCount);
    }

    method DisableAllKeys(writes: bool) returns (r: Outcome)
      modifies this`row
      ensures var n := CountEnabled(old(row).info, old(row).info.size);
              && r == (if n == 0 then NothingToDisable else if writes then Done(n) else WriteFailed)
              && row == if r.Done? then Updated(old(row), old(row).key, AllDisabled(old(row).info, old(row).info.size))
                        else old(row)
    {
      var info, disabledCount := DisableEach(row.info);
      if disabledCount == 0 { return NothingToDisable; }
      if !writes { return WriteFailed; }
      Update(row.key, info);
      return Done(disabledCount);
    }

    /** Disables every enabled position below the size, and counts them. */
    static method DisableEach(start: Info) returns (info: Info, disabledCount: nat)
      ensures info == AllDisabled(start, start.size) && disabledCount == CountEnabled(start, start.size)
    {
      NoneDisabled(start);
      hide AllDisabled, CountEnabled;
      info, disabledCount := start, 0;
      var i := 0;
      while i < info.size
        invariant 0 <= i && (i <= start.size || i == 0)
        invariant info == AllDisabled(start, i) && info.size == start.size
        invariant disabledCount == CountEnabled(start, i)
      {
        DisabledStep(start, i);
        var status := ENABLED;
        if i in info.status {
          status := info.status[i];
        }
        if status == ENABLED {
          info := info.(status := info.status[i := MANUALLY_DISABLED]);
          disabledCount := disabledCount + 1;
        }
        i := i + 1;
      }
    }

    /** Everything but the key at keyAt, re-indexed. */
    static method RemainingKeys(keys: seq<string>, info: Info, keyAt: int)
      returns (remaining: seq<string>, next: Info)
      ensures remaining == SelectIf(keys, Other(keyAt))
      ensures next == InfoOnDelete(info, Kept(|keys|, Other(keyAt)))
    {
      var status, time, reason, newIndex := map[], map[], map[], 0;
      remaining := [];
      ghost var p := Other(keyAt);
      NothingKept(keys, info, p);
      for i := 0 to |keys|
        invariant remaining == SelectIf(keys[..i], p)
        invariant Info(newIndex, status, time, reason) == InfoOnDelete(info, Kept(i, p))
      {
        hide SelectIf, InfoOnDelete, Kept;
        KeptStep(keys, i, p);
        if i != keyAt {
          DeleteStep(info, Kept(i, p), i);
          remaining := remaining + [keys[i]];
          if i in info.status && info.status[i] != ENABLED {
            status := status[newIndex := info.status[i]];
          }
          if i in info.time {
            time := time[newIndex := info.time[i]];
          }
          if i in info.reason {
            reason := reason[newIndex := info.reason[i]];
          }
          newIndex := newIndex + 1;
        }
      }
      assert keys[..|keys|] == keys;
      next := Info(newIndex, status, time, reason);
    }

    method DeleteKey(keyIndex: Option<int>, writes: bool) returns (r: Outcome)
      modifies this`row
      ensures r.NoIndex? <==> keyIndex.None?
      ensures r.OutOfRange? <==> keyIndex.Some? && !(0 <= keyIndex.value < old(row).info.size)
      ensures !InRange(old(row).info, keyIndex).Done? ==> r == InRange(old(row).info, keyIndex)
      ensures InRange(old(row).info, keyIndex).Done? ==>
                r == (if SelectIf(GetKeys(old(row).key), Other(keyIndex.value)) == [] then LastKey
                      else if writes then Done(0) else WriteFailed)
      ensures row == if r.Done? then KeyDeleted(old(row), keyIndex.value) else old(row)
    {
      if keyIndex.None? { return NoIndex; }
      var keyAt := keyIndex.value;
      if keyAt < 0 || keyAt >= row.info.size { return OutOfRange; }
      var remaining, info := RemainingKeys(GetKeys(row.key), row.info, keyAt);
      if |remaining| == 0 { return LastKey; }
      if !writes { return WriteFailed; }
      Update(Join('\n', remaining), info);
      return Done(0);
    }

    /** Everything but the automatically disabled keys, re-indexed. */
    static method UsableKeys(keys: seq<string>, info: Info)
      returns (remaining: seq<string>, next: Info, deletedCount: int)
      ensures remaining == SelectIf(keys, NotAutoDisabled(info))
      ensures next == InfoOnPurge(info, Kept(|keys|, NotAutoDisabled(info)))
      ensures deletedCount == |keys| - |remaining|
    {
      var status, time, reason, newIndex := map[], map[], map[], 0;
      remaining, deletedCount := [], 0;
      ghost var p := NotAutoDisabled(info);
      NothingKept(keys, info, p);
      for i := 0 to |keys|
        invariant deletedCount == i - |remaining|
        invariant remaining == SelectIf(keys[..i], p)
        invariant Info(newIndex, status, time, reason) == InfoOnPurge(info, Kept(i, p))
      {
        hide SelectIf, InfoOnPurge, Kept;
        KeptStep(keys, i, p);
        var keyStatus := ENABLED;
        if i in info.status {
          keyStatus := info.status[i];
        }
        if keyStatus == AUTO_DISABLED {
          deletedCount := deletedCount + 1;
        } else {
          PurgeStep(info, Kept(i, p), i);
          remaining := remaining + [keys[i]];
          if keyStatus != ENABLED {
            status := status[newIndex := keyStatus];
            if i in info.time {
              time := time[newIndex := info.time[i]];
            }
            if i in info.reason {
              reason := reason[newIndex := info.reason[i]];
            }
          }
          newIndex := newIndex + 1;
        }
      }
      assert keys[..|keys|] == keys;
      next := Info(newIndex, status, time, reason);
    }

    method DeleteDisabledKeys(writes: bool) returns (r: Outcome)
      modifies this`row
      ensures var n := |GetKeys(old(row).key)| - |SelectIf(GetKeys(old(row).key), NotAutoDisabled(old(row).info))|;
              r == if n == 0 then NothingToDelete else if writes then Done(n) else WriteFailed
      ensures row == if r.Done? then DisabledDeleted(old(row)) else old(row)
    {
      var remaining, info, deletedCount := UsableKeys(GetKeys(row.key), row.info);
      if deletedCount == 0 { return NothingToDelete; }
      if !writes { return WriteFailed; }
      Update(Join('\n', remaining), info);
      return Done(deletedCount);
    }

    static method TrimmedLines(input: string) returns (keys: seq<string>)
      ensures keys == Trimmed(Split('\n', input))
    {
      var lines := Split('\n', input);
      keys := [];
      for i := 0 to |lines|
        invariant keys == Trimmed(lines[..i])
      {
        assert lines[..i + 1][..i] == lines[..i];
        var key := TrimSpace(lines[i]);
        if key != "" {
          keys := keys + [key];
        }
      }
      assert lines[..|lines|] == lines;
    }

    static method NewKeys(existing: seq<string>, requested: seq<string>) returns (deduped: seq<string>)
      requires forall k :: k in requested ==> Clean(k)
      ensures deduped == Fresh(existing, requested)
    {
      var seen: set<string> := {};
      for i := 0 to |existing|
        invariant seen == set k | k in Trimmed(existing[..i])
      {
        assert existing[..i + 1][..i] == existing[..i];
        var normalized := TrimSpace(existing[i]);
        if normalized == "" { continue; }
        seen := seen + {normalized};
      }
      assert existing[..|existing|] == existing;
      deduped := [];
      for i := 0 to |requested|
        invariant deduped == Fresh(existing, requested[..i])
        invariant seen == (set k | k in Trimmed(existing)) + (set k | k in deduped)
      {
        assert requested[..i + 1][..i] == requested[..i];
        assert requested[i] in requested;
        var normalized := TrimSpace(requested[i]);
        if normalized == "" { continue; }
        if normalized in seen { continue; }
        seen := seen + {normalized};
        deduped := deduped + [normalized];
      }
      assert requested[..|requested|] == requested;
    }

    /** The status listing: every key's record, filtered and cut into pages. */
    method GetKeyStatus(status: Option<int>, page: int, pageSize: int) returns (r: Listing)
      ensures r.total == |Shown(row, status)|
      ensures r.pageSize == if pageSize <= 0 then 50 else pageSize
      ensures r.totalPages == TotalPages(r.total, r.pageSize)
      ensures r.page == if page <= 0 then 1 else if page > r.totalPages then r.totalPages else page
      ensures r.keys == PageOf(Shown(row, status), r.page, r.pageSize)
      ensures r.enabled == CountStatus(Records(row), ENABLED)
      ensures r.manuallyDisabled == CountStatus(Records(row), MANUALLY_DISABLED)
      ensures r.autoDisabled == CountStatus(Records(row), AUTO_DISABLED)
    {
      hide Filtered, Entries, CountStatus, PageOf;
      var number := if page <= 0 then 1 else page;
      var size := if pageSize <= 0 then 50 else pageSize;
      var all, enabled, manual, auto := ListKeys();
      var shown := all;
      if status.Some? {
        shown := FilterEntries(all, status.value);
      }
      var total := |shown|;
      var totalPages := (total + size - 1) / size;
      if totalPages == 0 {
        totalPages := 1;
      }
      PagesPositive(total, size);
      if number > totalPages {
        number := totalPages;
      }
      var keys := CutPage(shown, number, size);
      r := Listing(keys, total, number, size, totalPages, enabled, manual, auto);
    }

    static method CutPage(shown: seq<Entry>, number: nat, size: nat) returns (keys: seq<Entry>)
      requires number > 0
      ensures keys == PageOf(shown, number, size)
    {
      var start := (number - 1) * size;
      var end := start + size;
      if end > |shown| {
        end := |shown|;
      }
      keys := [];
      if start < |shown| {
        keys := shown[start..end];
      }
    }

    method ListKeys() returns (all: seq<Entry>, enabled: nat, manual: nat, auto: nat)
      ensures all == Entries(row)
      ensures enabled == CountStatus(Records(row), ENABLED)
      ensures manual == CountStatus(Records(row), MANUALLY_DISABLED)
      ensures auto == CountStatus(Records(row), AUTO_DISABLED)
    {
      var keys, info := GetKeys(row.key), row.info;
      ghost var rs := Records(row);
      all, enabled, manual, auto := [], 0, 0, 0;
      for i := 0 to |keys|
        invariant all == Entries(row)[..i]
        invariant enabled == CountStatus(rs[..i], ENABLED)
        invariant manual == CountStatus(rs[..i], MANUALLY_DISABLED)
        invariant auto == CountStatus(rs[..i], AUTO_DISABLED)
      {
        hide Records, Entries, CountStatus;
        ListStep(row, i);
        var keyStatus, disabledTime, reason := ENABLED, 0, "";
        if i in info.status {
          keyStatus := info.status[i];
        }
        if keyStatus == ENABLED {
          enabled := enabled + 1;
        } else if keyStatus == MANUALLY_DISABLED {
          manual := manual + 1;
        } else if keyStatus == AUTO_DISABLED {
          auto := auto + 1;
        }
        if keyStatus != ENABLED {
          disabledTime := Get(info.time, i, 0);
          reason := Get(info.reason, i, "");
        }
        var keyPreview := keys[i];
        if |keys[i]| > 10 {
          keyPreview := keys[i][..10] + "...";
        }
        all := all + [Entry(i, Record(keyPreview, keyStatus, disabledTime, reason))];
      }
      assert rs[..|keys|] == rs && Entries(row)[..|keys|] == Entries(row);
    }

    static method FilterEntries(all: seq<Entry>, status: int) returns (shown: seq<Entry>)
      ensures shown == Filtered(all, status)
    {
      shown := [];
      for i := 0 to |all|
        invariant shown == Filtered(all[..i], status)
      {
        assert all[..i + 1][..i] == all[..i];
        if all[i].record.status == status {
          shown := shown + [all[i]];
        }
      }
      assert all[..|all|] == all;
    }

    /** What the relay does when a key fails or recovers. */
    method ReportStatus(key: string, status: int, reason: string, now: int)
      modifies this
      ensures row == StatusReported(old(row), key, status, reason, now)
      ensures standing == StandingReported(old(row), old(standing), key, status, reason, now)
    {
      var keys := GetKeys(row.key);
      if |keys| == 0 {
        standing := standing.(status := status);
        return;
      }
      var keyIndex := -1;
      var i := 0;
      while i < |keys|
        invariant i <= |keys| && keyIndex == -1
        invariant IndexOf(keys, key) == i + IndexOf(keys[i..], key)
      {
        if keys[i] == key {
          keyIndex := i;
          break;
        }
        assert keys[i..][1..] == keys[i + 1..];
        i := i + 1;
      }
      if keyIndex < 0 {
        if key == "" {
          standing := Standing(status, reason, now);
        }
        return;
      }
      if status == ENABLED {
        row := row.(info := row.info.(status := row.info.status - {keyIndex}));
      } else {
        row := row.(info := row.info.(status := row.info.status[keyIndex := status],
                                      reason := row.info.reason[keyIndex := reason],
                                      time := row.info.time[keyIndex := now]));
      }
      var enabled := HasEnabledMultiKey(|keys|, row.info.status);
      if !enabled {
        standing := Standing(AUTO_DISABLED, "All keys are disabled", now);
      } else if status == ENABLED {
        standing := standing.(status := ENABLED);
      }
    }

    static method HasEnabledMultiKey(n: nat, status: map<int, int>) returns (enabled: bool)
      ensures enabled == HasEnabled(n, status)
    {
      for i := 0 to n
        invariant !HasEnabled(i, status)
      {
        if i !in status || status[i] == ENABLED {
          assert Get(status, i, ENABLED) == ENABLED;
          return true;
        }
      }
      return false;
    }

    /** Any one request; After is what it does when its write succeeds. */
    method Manage(a: Action, writes: bool)
      modifies this
      ensures row == if writes then After(old(row), a) else old(row)
    {
      hide Updated, Disabled, Enabled, AllEnabled, AllDisabled, CountEnabled, SelectIf, InfoOnDelete, InfoOnPurge,
           KeptOnDelete, KeptOnPurge, Other, NotAutoDisabled, GetKeys, IndexOf, Appended, StandingReported;
      match a {
        case Disable(i) => var _ := DisableKey(Some(i), writes);
        case Enable(i) => var _ := EnableKey(Some(i), writes);
        case EnableAll => var _ := EnableAllKeys(writes);
        case DisableAll => var _ := DisableAllKeys(writes);
        case Delete(i) => var _ := DeleteKey(Some(i), writes);
        case Purge => var _ := DeleteDisabledKeys(writes);
        case Append(input) => AppendKeys(input, writes);
        case Report(key, status, reason, now) =>
          if writes {
            ReportStatus(key, status, reason, now);
          }
      }
    }

    /** The append branch of UpdateChannel. */
    method AppendKeys(input: string, writes: bool)
      modifies this`row
      ensures row == if writes then Updated(old(row), Appended(old(row).key, input), old(row).info) else old(row)
    {
      var key := input;
      if row.key != "" {
        var existing := Split('\n', TrimSep('\n', row.key));
        var newKeys := TrimmedLines(input);
        TrimmedMembers(Split('\n', input));
        var deduped := NewKeys(existing, newKeys);
        key := Join('\n', existing + deduped);
      }
      if writes {
        Update(key, row.info);
      }
    }
  }

  lemma ListStep(row: Row, i: nat)
    requires i < |GetKeys(row.key)|
    ensures |Records(row)| == |Entries(row)| == |GetKeys(row.key)|
    ensures Entries(row)[..i + 1]
         == Entries(row)[..i] + [Entry(i, Previewed(RecordOf(GetKeys(row.key)[i], row.info, i)))]
    ensures forall status :: CountStatus(Records(row)[..i + 1], status)
                          == CountStatus(Records(row)[..i], status) + if StatusOf(row.info, i) == status then 1 else 0
  {
    assert Records(row)[..i + 1][..i] == Records(row)[..i];
  }

  lemma NoneDisabled(info: Info)
    ensures AllDisabled(info, 0) == info && CountEnabled(info, 0) == 0
    ensures info.size <= 0 ==> AllDisabled(info, info.size) == info && CountEnabled(info, info.size) == 0
  {
  }

  lemma DisabledStep(info: Info, i: nat)
    ensures var before, after := AllDisabled(info, i), AllDisabled(info, i + 1);
            && (i in before.status <==> i in info.status)
            && (i in info.status ==> before.status[i] == info.status[i])
            && after == (if StatusOf(info, i) == ENABLED
                         then before.(status := before.status[i := MANUALLY_DISABLED]) else before)
    ensures CountEnabled(info, i + 1) == CountEnabled(info, i) + if StatusOf(info, i) == ENABLED then 1 else 0
  {
  }

  lemma PagesPositive(n: nat, pageSize: nat)
    requires pageSize > 0
    ensures n == 0 ==> (n + pageSize - 1) / pageSize == 0
    ensures n > 0 ==> (n + pageSize - 1) / pageSize > 0
  {
    if n > 0 {
      assert n + pageSize - 1 >= pageSize;
    }
  }

  lemma {:induction false} KeptInRange(n: nat, p: int -> bool)
    ensures forall j :: 0 <= j < |Kept(n, p)| ==> 0 <= Kept(n, p)[j] < n && p(Kept(n, p)[j])
    ensures forall i, j :: 0 <= i < j < |Kept(n, p)| ==> Kept(n, p)[i] < Kept(n, p)[j]
    ensures forall k :: 0 <= k < n && p(k) ==> k in Kept(n, p)
    ensures |Kept(n, p)| <= n
  {
    if n > 0 {
      KeptInRange(n - 1, p);
    }
  }

  lemma NothingKept(keys: seq<string>, info: Info, p: int -> bool)
    ensures SelectIf(keys[..0], p) == []
    ensures InfoOnDelete(info, Kept(0, p)) == Info(0, map[], map[], map[])
    ensures InfoOnPurge(info, Kept(0, p)) == Info(0, map[], map[], map[])
  {
  }

  lemma KeptStep<T>(xs: seq<T>, i: nat, p: int -> bool)
    requires i < |xs|
    ensures Kept(i + 1, p) == if p(i) then Kept(i, p) + [i] else Kept(i, p)
    ensures SelectIf(xs[..i + 1], p) == if p(i) then SelectIf(xs[..i], p) + [xs[i]] else SelectIf(xs[..i], p)
  {
    KeptInRange(i, p);
  }

  lemma ReindexedSnoc<V>(m: map<int, V>, kept: seq<int>, i: int)
    ensures Reindexed(m, kept + [i])
         == if i in m then Reindexed(m, kept)[|kept| := m[i]] else Reindexed(m, kept)
  {
    assert (kept + [i])[..|kept|] == kept;
  }

  lemma {:induction false} ReindexedMembers<V>(m: map<int, V>, kept: seq<int>)
    ensures forall j :: j in Reindexed(m, kept) <==> 0 <= j < |kept| && kept[j] in m
    ensures forall j :: j in Reindexed(m, kept) ==> Reindexed(m, kept)[j] == m[kept[j]]
  {
    if kept != [] {
      ReindexedMembers(m, kept[..|kept| - 1]);
    }
  }

  lemma DeleteStep(info: Info, kept: seq<int>, i: int)
    ensures var a, n := InfoOnDelete(info, kept), |kept|;
            InfoOnDelete(info, kept + [i]) == Info(n + 1,
              if i in info.status && info.status[i] != ENABLED then a.status[n := info.status[i]] else a.status,
              if i in info.time then a.time[n := info.time[i]] else a.time,
              if i in info.reason then a.reason[n := info.reason[i]] else a.reason)
  {
    ReindexedSnoc(Only(info.status, NotEnabled(info.status)), kept, i);
    ReindexedSnoc(info.time, kept, i);
    ReindexedSnoc(info.reason, kept, i);
  }

  lemma PurgeStep(info: Info, kept: seq<int>, i: int)
    ensures var a, n := InfoOnPurge(info, kept), |kept|;
            var off := i in info.status && info.status[i] != ENABLED;
            InfoOnPurge(info, kept + [i]) == Info(n + 1,
              if off then a.status[n := info.status[i]] else a.status,
              if off && i in info.time then a.time[n := info.time[i]] else a.time,
              if off && i in info.reason then a.reason[n := info.reason[i]] else a.reason)
  {
    ReindexedSnoc(Only(info.status, NotEnabled(info.status)), kept, i);
    ReindexedSnoc(Only(info.time, NotEnabled(info.status)), kept, i);
    ReindexedSnoc(Only(info.reason, NotEnabled(info.status)), kept, i);
  }
}
