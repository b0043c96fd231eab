/**
 What the multi-key actions do to the list of records.
 */
module MultiKeyTheorems {
  import opened Text
  import opened MultiKey
  import ModelNames
  import opened Wrappers

  /** The recorded size is the number of keys. */
  ghost predicate Counted(row: Row) {
    row.info.size == |GetKeys(row.key)|
  }

  /** ... and every position in the three maps is the position of a key. */
  ghost predicate Aligned(row: Row) {
    && Counted(row)
    && (forall i :: i in row.info.status ==> 0 <= i < row.info.size)
    && (forall i :: i in row.info.time ==> 0 <= i < row.info.size)
    && (forall i :: i in row.info.reason ==> 0 <= i < row.info.size)
  }

  /** The size and the status positions, without any condition on the keys. */
  ghost predicate StatusAligned(row: Row) {
    Counted(row) && forall i :: i in row.info.status ==> 0 <= i < row.info.size
  }

  ghost predicate NoBlankKeys(row: Row) {
    forall i :: 0 <= i < |GetKeys(row.key)| ==> GetKeys(row.key)[i] != ""
  }

  /** Whatever an action writes, Update counts the keys again and drops the
      statuses past them. */
  lemma UpdateRecounts(stored: Row, key: string, info: Info)
    ensures Counted(Updated(stored, key, info))
    ensures forall i :: i in Updated(stored, key, info).info.status ==> i < |GetKeys(Updated(stored, key, info).key)|
  {
  }

  // ---------------------------------------------------------------- four actions

  lemma AfterDelete(row: Row, i: int)
    ensures After(row, Delete(i))
         == if 0 <= i < row.info.size && SelectIf(GetKeys(row.key), Other(i)) != [] then KeyDeleted(row, i) else row
  {
    hide Lines, Kept, SelectIf, Recounted, InfoOnDelete;
  }

  lemma AfterPurge(row: Row)
    ensures After(row, Purge)
         == if |SelectIf(GetKeys(row.key), NotAutoDisabled(row.info))| == |GetKeys(row.key)| then row
            else DisabledDeleted(row)
  {
    hide Lines, Kept, SelectIf, Recounted, InfoOnPurge;
  }

  lemma AfterAppend(row: Row, input: string)
    ensures After(row, Append(input)) == Updated(row, Appended(row.key, input), row.info)
  {
    hide Lines, Appended, Recounted;
  }

  lemma AfterReport(row: Row, key: string, status: int, reason: string, now: int)
    ensures After(row, Report(key, status, reason, now)) == StatusReported(row, key, status, reason, now)
  {
    hide Lines, IndexOf;
  }

  // ---------------------------------------------------------------- deletion

  function RemoveAt<T>(xs: seq<T>, i: nat): seq<T>
    requires i < |xs|
  {
    xs[..i] + xs[i + 1..]
  }

  /** The records whose key was not disabled automatically. */
  function Surviving(rs: seq<Record>): seq<Record> {
    if rs == [] then []
    else
      var rest := Surviving(rs[..|rs| - 1]);
      if rs[|rs| - 1].status == AUTO_DISABLED then rest else rest + [rs[|rs| - 1]]
  }

  lemma {:induction false} KeptBelow(n: nat, i: int)
    requires i >= n
    ensures Kept(n, Other(i)) == seq(n, k => k)
  {
    if n > 0 {
      KeptBelow(n - 1, i);
    }
  }

  lemma {:induction false} KeptOther(n: nat, i: int)
    requires 0 <= i < n
    ensures Kept(n, Other(i)) == seq(n - 1, k => if k < i then k else k + 1)
  {
    if i == n - 1 {
      KeptBelow(n - 1, i);
    } else {
      KeptOther(n - 1, i);
    }
  }

  lemma SelectOther<T>(xs: seq<T>, i: nat)
    requires i < |xs|
    ensures SelectIf(xs, Other(i)) == RemoveAt(xs, i)
  {
    KeptOther(|xs|, i);
    KeptInRange(|xs|, Other(i));
  }

  lemma {:induction false} SelectSurviving(rs: seq<Record>, info: Info)
    requires forall i :: 0 <= i < |rs| ==> rs[i].status == StatusOf(info, i)
    ensures SelectIf(rs, NotAutoDisabled(info)) == Surviving(rs)
  {
    if rs != [] {
      var n := |rs| - 1;
      SelectSurviving(rs[..n], info);
      KeptStep(rs, n, NotAutoDisabled(info));
      assert rs[..n + 1] == rs;
    } else {
      assert Kept(0, NotAutoDisabled(info)) == [];
    }
  }

  /** Re-indexed maps give every kept key the record it had. */
  lemma RecordKept(key: string, info: Info, kept: seq<int>, j: nat, size: int)
    requires j < |kept| && j < size
    ensures var next := InfoOnDelete(info, kept);
            RecordOf(key, next.(size := size, status := Only(next.status, Below(size))), j)
            == RecordOf(key, info, kept[j])
    ensures var next := InfoOnPurge(info, kept);
            RecordOf(key, next.(size := size, status := Only(next.status, Below(size))), j)
            == RecordOf(key, info, kept[j])
  {
    ReindexedMembers(Only(info.status, NotEnabled(info.status)), kept);
    ReindexedMembers(info.time, kept);
    ReindexedMembers(info.reason, kept);
    ReindexedMembers(Only(info.time, NotEnabled(info.status)), kept);
    ReindexedMembers(Only(info.reason, NotEnabled(info.status)), kept);
  }

  lemma SelectedKeys(row: Row, p: int -> bool)
    ensures var rem := SelectIf(GetKeys(row.key), p);
            && SepFree('\n', rem) && |rem| == |Kept(|GetKeys(row.key)|, p)|
            && forall j :: 0 <= j < |rem| ==>
                 0 <= Kept(|GetKeys(row.key)|, p)[j] < |GetKeys(row.key)|
                 && rem[j] == GetKeys(row.key)[Kept(|GetKeys(row.key)|, p)[j]]
  {
    LinesSepFree('\n', row.key);
    KeptInRange(|GetKeys(row.key)|, p);
  }

  lemma WrittenKeys(row: Row, rem: seq<string>, info: Info)
    requires rem != [] && SepFree('\n', rem) && |rem| < |GetKeys(row.key)|
    ensures var next := Updated(row, Join('\n', rem), info);
            if CleanEnds(rem) then GetKeys(next.key) == rem && next.key == Join('\n', rem)
            else |GetKeys(next.key)| != |rem|
  {
    hide Lines, Recounted;
    LinesJoin('\n', rem);
    JoinEnds('\n', rem);
  }

  /** When the remaining keys have clean ends, writing them leaves exactly the
      records of the kept positions; otherwise the number of keys is off. */
  lemma WrittenRecords(row: Row, p: int -> bool, info: Info)
    requires SelectIf(GetKeys(row.key), p) != []
    requires |SelectIf(GetKeys(row.key), p)| < |GetKeys(row.key)|
    requires var kept := Kept(|GetKeys(row.key)|, p);
             info == InfoOnDelete(row.info, kept) || info == InfoOnPurge(row.info, kept)
    ensures var rem := SelectIf(GetKeys(row.key), p);
            var next := Updated(row, Join('\n', rem), info);
            && (CleanEnds(rem) ==> GetKeys(next.key) == rem && Records(next) == SelectIf(Records(row), p))
            && (!CleanEnds(rem) ==> |Records(next)| != |rem|)
  {
    hide Lines, Join, Kept, InfoOnDelete, InfoOnPurge;
    var keys, rem := GetKeys(row.key), SelectIf(GetKeys(row.key), p);
    var kept := Kept(|keys|, p);
    var next := Updated(row, Join('\n', rem), info);
    SelectedKeys(row, p);
    LinesJoin('\n', rem);
    WrittenKeys(row, rem, info);
    if CleanEnds(rem) {
      JoinEnds('\n', rem);
      KeptInRange(|keys|, p);
      forall j | 0 <= j < |rem| ensures Records(next)[j] == SelectIf(Records(row), p)[j] {
        RecordKept(rem[j], row.info, kept, j, |rem|);
      }
    }
  }

  /** delete_key removes exactly one record if and only if the first and the last
      remaining key are not empty. */
  lemma DeleteKeyExactly(row: Row, i: nat)
    requires Counted(row) && i < row.info.size && row.info.size > 1
    ensures Records(KeyDeleted(row, i)) == RemoveAt(Records(row), i)
       <==> CleanEnds(RemoveAt(GetKeys(row.key), i))
  {
    SelectOther(GetKeys(row.key), i);
    SelectOther(Records(row), i);
    WrittenRecords(row, Other(i), InfoOnDelete(row.info, KeptOnDelete(row, i)));
  }

  lemma ExampleKeys()
    ensures GetKeys("a\n\nb") == ["a", "", "b"]
    ensures Join('\n', ["", "b"]) == "\nb" && GetKeys("\nb") == ["b"]
  {
    assert ["a", "", "b"][1..] == ["", "b"];
    LinesJoin('\n', ["a", "", "b"]);
    assert "\nb"[1..] == "b";
    SplitWhole('\n', "b");
  }

  /** For example: with a blank line between two keys, deleting the first key
      also drops the blank one, and the second, which was disabled automatically,
      comes back enabled, while its time is left at a position past the end. */
  lemma DeleteKeyMisaligns(time: int, reason: string)
    ensures var row := Row("a\n\nb", Info(3, map[2 := AUTO_DISABLED], map[2 := time], map[2 := reason]));
            && Counted(row)
            && Records(row)[2] == Record("b", AUTO_DISABLED, time, reason)
            && Records(KeyDeleted(row, 0)) == [Record("b", ENABLED, 0, "")]
            && KeyDeleted(row, 0).info.size == 1 && 1 in KeyDeleted(row, 0).info.time
  {
    hide Lines, Join, Kept, TrimSep;
    var info := Info(3, map[2 := AUTO_DISABLED], map[2 := time], map[2 := reason]);
    var row := Row("a\n\nb", info);
    ExampleKeys();
    SelectOther(["a", "", "b"], 0);
    KeptOther(3, 0);
    var kept := KeptOnDelete(row, 0);
    assert kept == [1, 2];
    ReindexedMembers(Only(info.status, NotEnabled(info.status)), kept);
    assert RemoveAt(["a", "", "b"], 0) == ["", "b"];
    var next := KeyDeleted(row, 0);
    assert next.key == "\nb" && |Records(next)| == 1;
    assert Records(next)[0] == Record("b", ENABLED, 0, "");
  }

  /** delete_disabled_keys keeps exactly the records that were not disabled
      automatically if and only if some key remains and the first and the last
      remaining key are not empty. */
  lemma PurgeExactly(row: Row)
    requires |SelectIf(GetKeys(row.key), NotAutoDisabled(row.info))| < |GetKeys(row.key)|
    ensures var rem := SelectIf(GetKeys(row.key), NotAutoDisabled(row.info));
            Records(DisabledDeleted(row)) == Surviving(Records(row)) <==> rem != [] && CleanEnds(rem)
  {
    var rem := SelectIf(GetKeys(row.key), NotAutoDisabled(row.info));
    SelectSurviving(Records(row), row.info);
    KeptInRange(|Records(row)|, NotAutoDisabled(row.info));
    if rem != [] {
      WrittenRecords(row, NotAutoDisabled(row.info), InfoOnPurge(row.info, KeptOnPurge(row)));
    }
  }

  /** The failing case: when every key was disabled automatically, deleting them
      reports success but keeps them all, and enables every one of them. */
  lemma PurgeOfAllRevives(row: Row)
    requires forall i :: 0 <= i < |Records(row)| ==> Records(row)[i].status == AUTO_DISABLED
    ensures var next := DisabledDeleted(row);
            && next.key == row.key
            && |Records(next)| == |Records(row)|
            && forall i :: 0 <= i < |Records(row)| ==> Records(next)[i] == Record(Records(row)[i].key, ENABLED, 0, "")
  {
    forall i | 0 <= i < |Records(row)| ensures StatusOf(row.info, i) == AUTO_DISABLED {
      assert Records(row)[i].status == AUTO_DISABLED;
    }
    NoneKept(|Records(row)|, NotAutoDisabled(row.info));
  }

  lemma {:induction false} NoneKept(n: nat, p: int -> bool)
    requires forall i :: 0 <= i < n ==> !p(i)
    ensures Kept(n, p) == []
  {
    if n > 0 {
      NoneKept(n - 1, p);
    }
  }

  // ---------------------------------------------------------------- what one position holds

  /** What the maps hold of one key, shown or not. */
  datatype Slot = Slot(status: int, time: int, reason: string)

  function SlotOf(info: Info, k: int): Slot {
    Slot(StatusOf(info, k), Get(info.time, k, 0), Get(info.reason, k, ""))
  }

  /** Deleting a key moves what is recorded of the later keys down by one position,
      also the time and the reason left from before a key was enabled. */
  lemma DeleteSlots(row: Row, i: nat, p: nat)
    requires i < |GetKeys(row.key)| && p < |GetKeys(row.key)| - 1
    ensures p < KeyDeleted(row, i).info.size ==>
              SlotOf(KeyDeleted(row, i).info, p) == SlotOf(row.info, if p < i then p else p + 1)
  {
    hide Lines, Join, Kept, Reindexed;
    var kept := KeptOnDelete(row, i);
    KeptOther(|GetKeys(row.key)|, i);
    ReindexedMembers(Only(row.info.status, NotEnabled(row.info.status)), kept);
    ReindexedMembers(row.info.time, kept);
    ReindexedMembers(row.info.reason, kept);
  }

  /** Bulk deletion does so for the keys it keeps, but forgets what is left of enabled
      keys. */
  lemma PurgeSlots(row: Row, p: nat)
    requires p < |KeptOnPurge(row)|
    ensures var s := SlotOf(row.info, KeptOnPurge(row)[p]);
            p < DisabledDeleted(row).info.size ==>
              SlotOf(DisabledDeleted(row).info, p) == if s.status == ENABLED then Slot(ENABLED, 0, "") else s
  {
    hide Lines, Join, Kept, Reindexed;
    var kept := KeptOnPurge(row);
    ReindexedMembers(Only(row.info.status, NotEnabled(row.info.status)), kept);
    ReindexedMembers(Only(row.info.time, NotEnabled(row.info.status)), kept);
    ReindexedMembers(Only(row.info.reason, NotEnabled(row.info.status)), kept);
  }

  /** Which positions bulk deletion keeps: those not disabled automatically, in order. */
  lemma PurgeKeeps(row: Row)
    ensures forall k :: k in KeptOnPurge(row) <==>
              0 <= k < |GetKeys(row.key)| && Get(row.info.status, k, 1) != 3
    ensures forall i, j :: 0 <= i < j < |KeptOnPurge(row)| ==> KeptOnPurge(row)[i] < KeptOnPurge(row)[j]
  {
    KeptInRange(|GetKeys(row.key)|, NotAutoDisabled(row.info));
  }

  /** When the only key cannot be deleted. */
  lemma LastKeyExactly(row: Row, i: nat)
    requires Counted(row) && i < row.info.size
    ensures SelectIf(GetKeys(row.key), Other(i)) == [] <==> |GetKeys(row.key)| == 1
  {
    hide Lines;
    SelectOther(GetKeys(row.key), i);
  }

  // ---------------------------------------------------------------- single keys

  /** What the listing shows of each key: status 1 and nothing else unless another
      status is recorded; otherwise that status with the time and reason recorded. */
  lemma RecordsExactly(row: Row, i: nat)
    requires i < |GetKeys(row.key)|
    ensures |Records(row)| == |GetKeys(row.key)|
    ensures var key, info := GetKeys(row.key)[i], row.info;
            Records(row)[i]
            == if i !in info.status || info.status[i] == 1 then Record(key, 1, 0, "")
               else Record(key, info.status[i],
                           if i in info.time then info.time[i] else 0,
                           if i in info.reason then info.reason[i] else "")
  {
    hide Lines;
  }

  /** disable_key changes one record; a time and a reason left from an earlier
      disabling are shown again. */
  lemma DisableKeyRecords(row: Row, i: nat)
    requires Counted(row) && i < row.info.size
    ensures var next := Updated(row, row.key, Disabled(row.info, i));
            && |Records(next)| == |Records(row)|
            && Records(next)[i] == Record(Records(row)[i].key, 2,
                                          Get(row.info.time, i, 0), Get(row.info.reason, i, ""))
            && next.info.time == row.info.time && next.info.reason == row.info.reason
            && (Records(row)[i].status != ENABLED ==>
                  Records(next)[i] == Records(row)[i].(status := MANUALLY_DISABLED))
            && forall j :: 0 <= j < |Records(row)| && j != i ==> Records(next)[j] == Records(row)[j]
  {
  }

  lemma EnableKeyRecords(row: Row, i: nat)
    requires Counted(row) && i < row.info.size
    ensures Records(Updated(row, row.key, Enabled(row.info, i)))
         == Records(row)[i := Record(Records(row)[i].key, ENABLED, 0, "")]
    ensures var next := Updated(row, row.key, Enabled(row.info, i)).info;
            i !in next.status && i !in next.time && i !in next.reason
  {
  }

  lemma EnableAllRecords(row: Row)
    ensures Records(Updated(row, row.key, AllEnabled(row.info)))
         == seq(|Records(row)|, i requires 0 <= i < |Records(row)| => Record(Records(row)[i].key, ENABLED, 0, ""))
  {
  }

  lemma {:induction false} IndexOfFirst(keys: seq<string>, key: string)
    ensures IndexOf(keys, key) <= |keys|
    ensures IndexOf(keys, key) < |keys| ==> keys[IndexOf(keys, key)] == key
    ensures forall i :: 0 <= i < IndexOf(keys, key) ==> keys[i] != key
  {
    if keys != [] && keys[0] != key {
      IndexOfFirst(keys[1..], key);
      assert forall i :: 1 <= i < |keys| ==> keys[i] == keys[1..][i - 1];
    }
  }

  /** A reported key's first record takes the reported status, time and reason; no
      other record changes, and an unknown key changes nothing. */
  lemma ReportRecords(row: Row, key: string, status: int, reason: string, now: int)
    ensures var i, next := IndexOf(GetKeys(row.key), key), StatusReported(row, key, status, reason, now);
            Records(next)
            == if i >= |Records(row)| then Records(row)
               else Records(row)[i := if status == ENABLED then Record(key, ENABLED, 0, "")
                                      else Record(key, status, now, reason)]
    ensures var i, next := IndexOf(GetKeys(row.key), key), StatusReported(row, key, status, reason, now);
            && next.key == row.key && next.info.size == row.info.size
            && next.info.status - {i} == row.info.status - {i}
            && next.info.time - {i} == row.info.time - {i} && next.info.reason - {i} == row.info.reason - {i}
            && (i < |GetKeys(row.key)| && status == ENABLED ==>
                  && i !in next.info.status
                  && next.info.time == row.info.time && next.info.reason == row.info.reason)
            && (i == |GetKeys(row.key)| ==> next == row)
  {
    hide Lines;
    IndexOfFirst(GetKeys(row.key), key);
  }

  /** What a report does to the channel itself.  One that finds its key: the channel is
      disabled automatically if and only if no key is left enabled or it was and this
      key is not the one that recovers; the reason and the time change exactly with the
      last key.  One for an unknown key: nothing, unless it names no key. */
  lemma ReportStanding(row: Row, before: Standing, key: string, status: int, reason: string, now: int)
    ensures var after := Records(StatusReported(row, key, status, reason, now));
            var next := StandingReported(row, before, key, status, reason, now);
            var none := forall i :: 0 <= i < |after| ==> after[i].status != ENABLED;
            if key in GetKeys(row.key)
            then && (next.status == 3 <==> none || (before.status == 3 && status != 1))
                 && next == (if none then Standing(3, "All keys are disabled", now)
                             else if status == 1 then before.(status := 1) else before)
            else if GetKeys(row.key) == [] then next == Standing(status, before.reason, before.time)
            else if key == "" then next == Standing(status, reason, now)
            else next == before
  {
    hide Lines, IndexOf;
    IndexOfFirst(GetKeys(row.key), key);
    var keys := GetKeys(row.key);
    if key in keys {
      var k :| 0 <= k < |keys| && keys[k] == key;
      assert IndexOf(keys, key) < |keys|;
    }
    var after := StatusReported(row, key, status, reason, now);
    forall i | 0 <= i < |Records(after)| ensures Records(after)[i].status == Get(after.info.status, i, ENABLED) {
    }
  }

  lemma {:induction false} CountEnabledRecords(row: Row, n: nat)
    requires n <= |Records(row)|
    ensures CountEnabled(row.info, n) == CountStatus(Records(row)[..n], ENABLED)
  {
    if n > 0 {
      CountEnabledRecords(row, n - 1);
      assert Records(row)[..n][..n - 1] == Records(row)[..n - 1];
    }
  }

  lemma AllDisabledAt(row: Row, i: nat)
    requires Counted(row) && i < |GetKeys(row.key)|
    ensures var next := Updated(row, row.key, AllDisabled(row.info, row.info.size));
            && next.key == row.key
            && StatusOf(next.info, i)
               == (if StatusOf(row.info, i) == ENABLED then MANUALLY_DISABLED else StatusOf(row.info, i))
            && next.info.time == row.info.time && next.info.reason == row.info.reason
  {
    hide Lines;
  }

  /** disable_all_keys disables the enabled keys, leaves every other record as it
      was, and reports how many it disabled. */
  lemma DisableAllRecords(row: Row)
    requires Counted(row)
    ensures var next := Updated(row, row.key, AllDisabled(row.info, row.info.size));
            && |Records(next)| == |Records(row)|
            && (forall i :: 0 <= i < |Records(row)| ==>
                  && Records(next)[i].key == Records(row)[i].key
                  && (Records(row)[i].status == ENABLED ==> Records(next)[i].status == MANUALLY_DISABLED)
                  && (Records(row)[i].status != ENABLED ==> Records(next)[i] == Records(row)[i]))
            && CountStatus(Records(next), ENABLED) == 0
    ensures CountEnabled(row.info, row.info.size) == CountStatus(Records(row), ENABLED)
  {
    hide Lines, Updated, AllDisabled, StatusOf;
    var next := Updated(row, row.key, AllDisabled(row.info, row.info.size));
    forall i: nat | i < |GetKeys(row.key)|
      ensures next.key == row.key
      ensures StatusOf(next.info, i)
           == if StatusOf(row.info, i) == ENABLED then MANUALLY_DISABLED else StatusOf(row.info, i)
      ensures next.info.time == row.info.time && next.info.reason == row.info.reason
    {
      AllDisabledAt(row, i);
    }
    SameKeyText(row, AllDisabled(row.info, row.info.size));
    CountEnabledRecords(row, row.info.size);
    assert Records(row)[..row.info.size] == Records(row);
    NoneCounted(Records(next), ENABLED);
  }

  lemma SameKeyText(row: Row, info: Info)
    ensures Updated(row, row.key, info).key == row.key
  {
  }

  lemma {:induction false} NoneCounted(rs: seq<Record>, status: int)
    requires forall i :: 0 <= i < |rs| ==> rs[i].status != status
    ensures CountStatus(rs, status) == 0
  {
    if rs != [] {
      NoneCounted(rs[..|rs| - 1], status);
    }
  }

  // ---------------------------------------------------------------- the listing

  /** The first n pages, one after the other. */
  function Pages(entries: seq<Entry>, pageSize: nat, n: nat): seq<Entry> {
    if n == 0 then [] else Pages(entries, pageSize, n - 1) + PageOf(entries, n, pageSize)
  }

  /** The end of page n of a listing of this length. */
  function PageEnd(size: nat, n: nat, pageSize: nat): nat {
    if n * pageSize <= size then n * pageSize else size
  }

  lemma NextPage(entries: seq<Entry>, n: nat, pageSize: nat)
    requires pageSize > 0
    ensures PageOf(entries, n + 1, pageSize)
         == entries[PageEnd(|entries|, n, pageSize)..PageEnd(|entries|, n + 1, pageSize)]
    ensures PageEnd(|entries|, n, pageSize) <= PageEnd(|entries|, n + 1, pageSize) <= |entries|
  {
    assert (n + 1) * pageSize == n * pageSize + pageSize;
  }

  lemma JoinSlices<T>(xs: seq<T>, i: nat, j: nat)
    requires i <= j <= |xs|
    ensures xs[..i] + xs[i..j] == xs[..j]
  {
  }

  lemma {:induction false} PagesPrefix(entries: seq<Entry>, pageSize: nat, n: nat)
    requires pageSize > 0
    ensures Pages(entries, pageSize, n) == entries[..PageEnd(|entries|, n, pageSize)]
  {
    if n == 0 {
      assert 0 * pageSize == 0;
    } else {
      hide PageOf, PageEnd;
      PagesPrefix(entries, pageSize, n - 1);
      NextPage(entries, n - 1, pageSize);
      JoinSlices(entries, PageEnd(|entries|, n - 1, pageSize), PageEnd(|entries|, n, pageSize));
    }
  }

  /** The pages of a listing are the listing: no entry is lost, repeated or moved. */
  lemma {:induction false} PagesCoverListing(entries: seq<Entry>, pageSize: nat)
    requires pageSize > 0
    ensures Pages(entries, pageSize, TotalPages(|entries|, pageSize)) == entries
  {
    PagesPrefix(entries, pageSize, TotalPages(|entries|, pageSize));
    EnoughPages(|entries|, pageSize);
  }

  lemma EnoughPages(n: nat, pageSize: nat)
    requires pageSize > 0
    ensures TotalPages(n, pageSize) * pageSize >= n
  {
    var x := n + pageSize - 1;
    var q, r := x / pageSize, x % pageSize;
    assert x == q * pageSize + r && r < pageSize;
  }

  /** Each page holds the entries at its positions, and there are as many pages as it
      takes, at least one. */
  lemma PagesExact(entries: seq<Entry>, pageSize: nat, page: nat, i: nat)
    requires pageSize > 0 && page > 0
    ensures |PageOf(entries, page, pageSize)| <= pageSize
    ensures var at := (page - 1) * pageSize + i;
            if i < pageSize && at < |entries|
            then i < |PageOf(entries, page, pageSize)| && PageOf(entries, page, pageSize)[i] == entries[at]
            else i >= |PageOf(entries, page, pageSize)|
    ensures (TotalPages(|entries|, pageSize) - 1) * pageSize < |entries| || TotalPages(|entries|, pageSize) == 1
  {
    hide PageOf, TotalPages;
    PageFrom(entries, page, pageSize, (page - 1) * pageSize, i);
    LastPage(|entries|, pageSize);
  }

  lemma PageFrom(entries: seq<Entry>, page: nat, pageSize: nat, start: nat, i: nat)
    requires page > 0 && start == (page - 1) * pageSize
    ensures var shown := PageOf(entries, page, pageSize);
            && |shown| <= pageSize
            && if i < pageSize && start + i < |entries| then i < |shown| && shown[i] == entries[start + i]
               else i >= |shown|
  {
  }

  lemma LastPage(n: nat, pageSize: nat)
    requires pageSize > 0
    ensures (TotalPages(n, pageSize) - 1) * pageSize < n || TotalPages(n, pageSize) == 1
  {
    if n > 0 {
      var x := n + pageSize - 1;
      var q, r := x / pageSize, x % pageSize;
      assert x == q * pageSize + r && (q - 1) * pageSize == q * pageSize - pageSize;
    }
  }

  lemma {:induction false} FilteredExact(entries: seq<Entry>, status: int)
    requires forall i, j :: 0 <= i < j < |entries| ==> entries[i].index < entries[j].index
    ensures forall e :: e in Filtered(entries, status) <==> e in entries && e.record.status == status
    ensures forall i, j :: 0 <= i < j < |Filtered(entries, status)| ==>
              Filtered(entries, status)[i].index < Filtered(entries, status)[j].index
  {
    if entries != [] {
      var before, last := entries[..|entries| - 1], entries[|entries| - 1];
      FilteredExact(before, status);
      assert entries == before + [last];
      var rest := Filtered(before, status);
      assert forall i :: 0 <= i < |rest| ==> rest[i] in rest;
    }
  }

  /** What a listing shows: the keys with the status asked for, or all, by position,
      each with its record and the beginning of its key. */
  lemma ShownExact(row: Row, status: Option<int>)
    ensures forall e :: e in Shown(row, status) <==>
              && 0 <= e.index < |Records(row)| && e.record == Previewed(Records(row)[e.index])
              && (status.Some? ==> Records(row)[e.index].status == status.value)
    ensures forall i, j :: 0 <= i < j < |Shown(row, status)| ==>
              Shown(row, status)[i].index < Shown(row, status)[j].index
    ensures status.None? ==> |Shown(row, status)| == |Records(row)|
  {
    hide Records, Filtered;
    var all := Entries(row);
    assert forall i :: 0 <= i < |all| ==> all[i] == Entry(i, Previewed(Records(row)[i]));
    forall e ensures e in all <==> 0 <= e.index < |Records(row)| && e.record == Previewed(Records(row)[e.index]) {
      if 0 <= e.index < |Records(row)| && e.record == Previewed(Records(row)[e.index]) {
        assert all[e.index] == e;
      }
    }
    if status.Some? {
      FilteredExact(all, status.value);
    }
  }

  /** A preview is the key, or its first ten characters and three dots. */
  lemma PreviewExact(key: string)
    ensures |key| <= 10 ==> Preview(key) == key
    ensures |key| > 10 ==>
              && |Preview(key)| == 13 && Preview(key)[10..] == "..."
              && forall k :: 0 <= k < 10 ==> Preview(key)[k] == key[k]
    ensures forall r: Record :: r.key == key ==> Previewed(r) == Record(Preview(key), r.status, r.time, r.reason)
  {
  }

  lemma {:induction false} CountStatusExact(entries: seq<Entry>, rs: seq<Record>, status: int)
    requires |entries| == |rs| && forall i :: 0 <= i < |rs| ==> entries[i].record.status == rs[i].status
    ensures CountStatus(rs, status) == |Filtered(entries, status)|
  {
    if rs != [] {
      CountStatusExact(entries[..|rs| - 1], rs[..|rs| - 1], status);
    }
  }

  /** The totals of a listing are the lengths of its three filtered listings. */
  lemma TotalsExact(row: Row, status: int)
    ensures CountStatus(Records(row), status) == |Shown(row, Some(status))|
  {
    hide Lines;
    CountStatusExact(Entries(row), Records(row), status);
  }

  // ---------------------------------------------------------------- appending

  lemma {:induction false} FreshShape(existing: seq<string>, requested: seq<string>)
    ensures var added := Fresh(existing, requested);
            && (forall k :: k in added ==> k in requested && k !in Trimmed(existing))
            && (forall i, j :: 0 <= i < j < |added| ==> added[i] != added[j])
            && (forall k :: k in requested ==> k in Trimmed(existing) || k in added)
  {
    if requested != [] {
      var n := |requested| - 1;
      assert requested == requested[..n] + [requested[n]];
      FreshShape(existing, requested[..n]);
    }
  }

  lemma {:induction false} SplitEnds(sep: char, s: string)
    requires s != ""
    ensures s[0] != sep ==> Split(sep, s)[0] != ""
    ensures s[|s| - 1] != sep ==> Split(sep, s)[|Split(sep, s)| - 1] != ""
  {
    if |s| > 1 {
      var r := Split(sep, s[1..]);
      SplitEnds(sep, s[1..]);
      assert s == [s[0]] + s[1..];
      SplitStep(sep, s[0], s[1..]);
      hide Split;
      assert |r| > 1 ==> r[1..][|r| - 2] == r[|r| - 1];
    }
  }

  /** A key text with a character that is not a line break has clean ends. */
  lemma ExistingClean(stored: string)
    requires exists c :: c in stored && c != '\n'
    ensures CleanEnds(Existing(stored)) && GetKeys(stored) == Existing(stored)
  {
    var p := (c: char) => c == '\n';
    var i, j := TrimShape(p, stored);
    TrimMembers(p, stored);
    SplitEnds('\n', TrimSep('\n', stored));
  }

  /** The new keys are the requested ones, each once, without those that exist. */
  lemma {:induction false} FreshExact(existing: seq<string>, requested: seq<string>)
    ensures Fresh(existing, requested) == ModelNames.Without(ModelNames.Uniq(requested), Trimmed(existing))
  {
    if requested != [] {
      var before, last := requested[..|requested| - 1], requested[|requested| - 1];
      FreshExact(existing, before);
      assert requested == before + [last];
      var p := x => x !in Trimmed(existing);
      ModelNames.UniqMembers(before);
      ModelNames.KeepMembers(ModelNames.Uniq(before), p);
      ModelNames.UniqSnoc(before, last);
      ModelNames.KeepSnoc(ModelNames.Uniq(before), last, p);
    }
  }

  /** They stand in the order in which the input first names them. */
  lemma AppendOrder(existing: seq<string>, input: string, i: nat, j: nat)
    requires i < j < |Fresh(existing, RequestedKeys(input))|
    ensures var added, lines := Fresh(existing, RequestedKeys(input)), Split('\n', input);
            ModelNames.FirstNamed(lines, added[i]) < ModelNames.FirstNamed(lines, added[j])
  {
    hide Trimmed, Split;
    var lines := Split('\n', input);
    FreshExact(existing, RequestedKeys(input));
    assert ModelNames.Uniq(RequestedKeys(input)) == ModelNames.Normalize(lines);
    var a, b := ModelNames.KeepPositions(ModelNames.Normalize(lines), x => x !in Trimmed(existing), i, j);
    ModelNames.NormalizeOrder(lines, a, b);
  }

  function RequestedKeys(input: string): seq<string> {
    Trimmed(Split('\n', input))
  }

  lemma RequestedSepFree(input: string)
    ensures forall k :: k in RequestedKeys(input) ==> '\n' !in k && k != "" && TrimSpace(k) == k
  {
    SplitSepFree('\n', input);
    TrimmedMembers(Split('\n', input));
    forall k | k in RequestedKeys(input) ensures '\n' !in k {
      var l :| l in Split('\n', input) && TrimSpace(l) == k;
      TrimMembers(IsSpace, l);
    }
  }

  lemma AppendedSepFree(stored: string, input: string)
    ensures SepFree('\n', Existing(stored) + Fresh(Existing(stored), RequestedKeys(input)))
  {
    var existing, added := Existing(stored), Fresh(Existing(stored), RequestedKeys(input));
    SplitSepFree('\n', TrimSep('\n', stored));
    RequestedSepFree(input);
    FreshShape(existing, RequestedKeys(input));
    forall k | 0 <= k < |added| ensures '\n' !in added[k] {
      assert added[k] in added;
    }
  }

  /** Appending keeps the existing keys as a prefix and adds exactly the new ones,
      if and only if the stored text has a character that is not a line break or
      nothing is new. */
  lemma AppendExactly(row: Row, input: string)
    requires row.key != ""
    ensures var added := Fresh(Existing(row.key), RequestedKeys(input));
            var next := Updated(row, Appended(row.key, input), row.info);
            (GetKeys(next.key) == GetKeys(row.key) + added
             <==> (exists c :: c in row.key && c != '\n') || added == [])
  {
    var existing, added := Existing(row.key), Fresh(Existing(row.key), RequestedKeys(input));
    var all := existing + added;
    AppendedSepFree(row.key, input);
    LinesJoin('\n', all);
    RequestedSepFree(input);
    FreshShape(existing, RequestedKeys(input));
    if added != [] {
      assert added[|added| - 1] in added;
    }
    if exists c :: c in row.key && c != '\n' {
      ExistingClean(row.key);
      JoinEnds('\n', all);
    } else {
      TrimmedAway((c: char) => c == '\n', row.key);
      assert existing == [""];
      JoinEnds('\n', all);
    }
  }

  /** What appending adds: trimmed, non-blank, pairwise distinct keys that are not
      there yet, and no requested key is lost. */
  lemma AppendAdds(row: Row, input: string)
    ensures var existing, added := Existing(row.key), Fresh(Existing(row.key), RequestedKeys(input));
            && (forall k :: k in added ==> k != "" && TrimSpace(k) == k && k in RequestedKeys(input))
            && (forall k, l :: k in added && l in existing ==> TrimSpace(l) != k)
            && (forall i, j :: 0 <= i < j < |added| ==> added[i] != added[j])
            && (forall k :: k in RequestedKeys(input) ==> k in added || exists l :: l in existing && TrimSpace(l) == k)
  {
    RequestedSepFree(input);
    FreshShape(Existing(row.key), RequestedKeys(input));
    TrimmedMembers(Existing(row.key));
  }

  function EnabledRecords(keys: seq<string>): seq<Record> {
    seq(|keys|, i requires 0 <= i < |keys| => Record(keys[i], ENABLED, 0, ""))
  }

  /** Appending leaves the records of the existing keys and enables the new ones,
      under the same condition; an empty key text takes the input as it is. */
  lemma AppendRecords(row: Row, input: string)
    requires StatusAligned(row)
    ensures var added := Fresh(Existing(row.key), RequestedKeys(input));
            row.key != "" ==>
              (Records(After(row, Append(input))) == Records(row) + EnabledRecords(added)
               <==> (exists c :: c in row.key && c != '\n') || added == [])
    ensures row.key == "" ==> Records(After(row, Append(input))) == EnabledRecords(GetKeys(input))
  {
    if row.key != "" {
      hide Lines, Join, Existing, Fresh, RequestedKeys, Records, After;
      AfterAppend(row, input);
      AppendExactly(row, input);
      RecordsExtended(row, Appended(row.key, input), Fresh(Existing(row.key), RequestedKeys(input)));
    }
  }

  lemma RecordsExtended(row: Row, key: string, added: seq<string>)
    requires StatusAligned(row)
    ensures var next := Updated(row, key, row.info);
            Records(next) == Records(row) + EnabledRecords(added) <==> GetKeys(next.key) == GetKeys(row.key) + added
  {
    hide Lines;
    var next := Updated(row, key, row.info);
    var keys, all := GetKeys(next.key), GetKeys(row.key) + added;
    if Records(next) == Records(row) + EnabledRecords(added) {
      forall i | 0 <= i < |all| ensures i < |keys| && keys[i] == all[i] {
        assert Records(next)[i].key == (Records(row) + EnabledRecords(added))[i].key;
      }
      assert keys == all;
    }
  }

  lemma {:induction false} NothingFresh(existing: seq<string>, requested: seq<string>)
    requires forall k :: k in requested ==> k in Trimmed(existing)
    ensures Fresh(existing, requested) == []
  {
    if requested != [] {
      NothingFresh(existing, requested[..|requested| - 1]);
    }
  }

  /** Every line that is requested is kept, under the first or the second list. */
  lemma NothingMore(existing: seq<string>, all: seq<string>, requested: seq<string>)
    requires forall k :: k != "" && (k in existing || k in Fresh(existing, requested)) ==> k in all
    requires forall k :: k in requested ==> Clean(k)
    ensures Fresh(all, requested) == []
  {
    FreshShape(existing, requested);
    TrimmedMembers(existing);
    TrimmedMembers(all);
    forall k | k in requested ensures k in Trimmed(all) {
      if k in Fresh(existing, requested) {
        assert TrimSpace(k) == k && k in all;
      } else {
        var l :| l in existing && TrimSpace(l) == k;
        assert l != "" && l in all;
      }
    }
    NothingFresh(all, requested);
  }

  /** An input stored as it is asks for nothing it does not hold already. */
  lemma InputHoldsItsKeys(input: string)
    ensures Fresh(Existing(input), RequestedKeys(input)) == []
  {
    TrimLeftPieces('\n', input);
    TrimRightPieces('\n', TrimLeft(c => c == '\n', input));
    TrimmedMembers(Split('\n', input));
    TrimmedMembers(Existing(input));
    forall k | k in RequestedKeys(input) ensures k in Trimmed(Existing(input)) {
      var l :| l in Split('\n', input) && TrimSpace(l) == k;
      assert l != "" && l in Existing(input);
    }
    NothingFresh(Existing(input), RequestedKeys(input));
  }

  lemma AppendTwiceToEmpty(row: Row, input: string)
    requires row.key == "" && input != ""
    ensures var text := TrimSep('\n', input);
            && After(row, Append(input)).key == input
            && After(After(row, Append(input)), Append(input)).key == (if text == "" then input else text)
            && GetKeys(if text == "" then input else text) == GetKeys(input)
  {
    hide After, Sent;
    AfterAppend(row, input);
    AfterAppend(After(row, Append(input)), input);
    InputHoldsItsKeys(input);
    JoinSplit('\n', TrimSep('\n', input));
    assert Existing(input) + [] == Existing(input);
    TrimIdempotent(c => c == '\n', input);
  }

  lemma AppendTwiceToKeys(row: Row, input: string)
    requires exists c :: c in row.key && c != '\n'
    ensures After(After(row, Append(input)), Append(input)).key == After(row, Append(input)).key
  {
    hide After, Sent;
    var existing, requested := Existing(row.key), RequestedKeys(input);
    var all := existing + Fresh(existing, requested);
    var next := After(row, Append(input));
    AfterAppend(row, input);
    AfterAppend(next, input);
    AppendExactly(row, input);
    ExistingClean(row.key);
    JoinEnds('\n', all);
    assert Existing(next.key) == all;
    RequestedSepFree(input);
    NothingMore(existing, all, requested);
    assert all + [] == all;
  }

  /** A text of line breaks only is one blank key; the first append leaves it in
      front, the second drops it. */
  lemma AppendTwiceToBreaks(row: Row, input: string)
    requires row.key != "" && forall c :: c in row.key ==> c == '\n'
    ensures var added := Fresh(Existing(row.key), RequestedKeys(input));
            var once := After(row, Append(input));
            var twice := After(once, Append(input));
            if added == [] then twice.key == once.key == row.key
            else once.key == "\n" + twice.key && GetKeys(twice.key) == GetKeys(once.key) == added
  {
    var requested := RequestedKeys(input);
    TrimmedAway((c: char) => c == '\n', row.key);
    assert Existing(row.key) == [""];
    var added := Fresh([""], requested);
    hide Lines, RequestedKeys, Fresh, Trimmed, Inner, After, Sent;
    AfterAppend(row, input);
    AfterAppend(After(row, Append(input)), input);
    RequestedSepFree(input);
    FreshShape([""], requested);
    AppendedSepFree(row.key, input);
    if added == [] {
      assert [""] + added == [""];
    } else {
      BlankInFront(added);
      NothingMore([""], added, requested);
      assert added + [] == added;
    }
  }

  lemma BlankBefore(keys: seq<string>)
    requires keys != [] && forall k :: k in keys ==> k != ""
    ensures !AllBlank([""] + keys) && Inner([""] + keys) == keys && CleanEnds(keys)
    ensures Join('\n', [""] + keys) == "\n" + Join('\n', keys)
  {
    var all := [""] + keys;
    assert all[1..] == keys && all[1..|all|] == keys;
    assert forall k :: 0 <= k < |keys| ==> keys[k] in keys && keys[k] == all[k + 1];
    InnerIs(all, 1, |all|);
  }

  /** A list of keys written behind a blank one, and written alone. */
  lemma BlankInFront(keys: seq<string>)
    requires keys != [] && SepFree('\n', [""] + keys) && forall k :: k in keys ==> k != ""
    ensures Join('\n', [""] + keys) == "\n" + Join('\n', keys)
    ensures GetKeys("\n" + Join('\n', keys)) == Existing("\n" + Join('\n', keys)) == keys
    ensures Join('\n', keys) != "" && GetKeys(Join('\n', keys)) == keys
  {
    hide Join, Inner, AllBlank, CleanEnds;
    BlankBefore(keys);
    LinesJoinInner('\n', [""] + keys);
    assert forall k :: 0 <= k < |keys| ==> keys[k] == ([""] + keys)[k + 1];
    LinesJoin('\n', keys);
    assert keys[0] in keys;
    JoinEnds('\n', keys);
  }

  lemma SameKeysSameRecords(row: Row, key: string)
    requires GetKeys(Updated(row, key, row.info).key) == GetKeys(row.key)
    ensures Records(Updated(row, key, row.info)) == Records(row)
  {
  }

  /** Appending the same input again changes no record; it changes the text if and
      only if the channel had none and the input has outer line breaks around a
      key, or it had only line breaks and something was new. */
  lemma AppendIdempotent(row: Row, input: string)
    ensures var once := After(row, Append(input));
            var twice := After(once, Append(input));
            && Records(twice) == Records(once)
            && (twice.key == once.key <==>
                  if row.key == "" then TrimSep('\n', input) in {"", input}
                  else (exists c :: c in row.key && c != '\n')
                       || Fresh(Existing(row.key), RequestedKeys(input)) == [])
  {
    hide Lines, Existing, Fresh, RequestedKeys, Join, Records, After;
    var once := After(row, Append(input));
    AfterAppend(row, input);
    AfterAppend(once, input);
    if row.key == "" {
      if input != "" {
        AppendTwiceToEmpty(row, input);
      }
    } else if exists c :: c in row.key && c != '\n' {
      AppendTwiceToKeys(row, input);
    } else {
      AppendTwiceToBreaks(row, input);
    }
    SameKeysSameRecords(once, Appended(once.key, input));
  }
}
