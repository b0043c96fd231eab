/**
 What every run of actions on a multi-key channel keeps, from which channels.
 */
module MultiKeyRuns {
  import opened Text
  import opened MultiKey
  import opened MultiKeyTheorems
  import opened Wrappers

  function Run(row: Row, actions: seq<Action>): Row
    decreases |actions|
  {
    if actions == [] then row else Run(After(row, actions[0]), actions[1..])
  }

  lemma RunCons(row: Row, a: Action, rest: seq<Action>)
    ensures Run(row, [a] + rest) == Run(After(row, a), rest)
  {
    assert ([a] + rest)[1..] == rest;
  }

  // ---------------------------------------------------------------- sizes and statuses

  lemma UpdateKeepsStatusAligned(stored: Row, key: string, info: Info)
    requires forall i :: i in info.status ==> 0 <= i
    ensures StatusAligned(Updated(stored, key, info))
  {
  }

  lemma ActionKeepsStatusAligned(row: Row, a: Action)
    requires StatusAligned(row)
    ensures StatusAligned(After(row, a))
  {
    hide Lines, Kept;
    match a {
      case Disable(i) =>
      case Enable(i) =>
      case EnableAll =>
      case DisableAll =>
      case Delete(i) =>
        ReindexedMembers(Only(row.info.status, NotEnabled(row.info.status)), KeptOnDelete(row, i));
      case Purge =>
        ReindexedMembers(Only(row.info.status, NotEnabled(row.info.status)), KeptOnPurge(row));
      case Append(input) => UpdateKeepsStatusAligned(row, Appended(row.key, input), row.info);
      case Report(key, status, reason, now) => IndexOfFirst(GetKeys(row.key), key);
    }
  }

  /** For any key text, blank keys included, every run keeps the size equal to the
      number of keys and every recorded status at the position of a key. */
  lemma {:induction false} RunKeepsStatusAligned(row: Row, actions: seq<Action>)
    requires StatusAligned(row)
    ensures StatusAligned(Run(row, actions))
    decreases |actions|
  {
    if actions != [] {
      ActionKeepsStatusAligned(row, actions[0]);
      RunKeepsStatusAligned(After(row, actions[0]), actions[1..]);
    }
  }

  // ---------------------------------------------------------------- times and reasons

  /** The channels whose maps stay aligned: some key text, aligned maps, and either
      a single key or no blank one. */
  ghost predicate Sound(row: Row) {
    Aligned(row) && row.key != "" && (row.info.size == 1 || NoBlankKeys(row))
  }

  lemma DeleteKeepsNoBlank(row: Row, i: nat)
    requires Counted(row) && NoBlankKeys(row) && i < row.info.size && row.info.size > 1
    ensures var next := KeyDeleted(row, i);
            && Counted(next) && NoBlankKeys(next)
            && GetKeys(next.key) == RemoveAt(GetKeys(row.key), i)
            && Records(next) == RemoveAt(Records(row), i)
  {
    SelectOther(GetKeys(row.key), i);
    SelectOther(Records(row), i);
    WrittenRecords(row, Other(i), InfoOnDelete(row.info, KeptOnDelete(row, i)));
  }

  lemma SoundText(row: Row)
    requires NoBlankKeys(row) && row.key != ""
    ensures exists c :: c in row.key && c != '\n'
  {
    var k := GetKeys(row.key)[0];
    assert k[0] in k;
    LinesSepFree('\n', row.key);
    TrimmedAway((c: char) => c == '\n', row.key);
  }

  lemma DeleteKeepsSound(row: Row, i: nat)
    requires Sound(row) && i < row.info.size && row.info.size > 1
    ensures Sound(KeyDeleted(row, i)) && NoBlankKeys(KeyDeleted(row, i))
  {
    hide Lines, Join, Kept, Reindexed, Select;
    var kept := KeptOnDelete(row, i);
    DeleteKeepsNoBlank(row, i);
    KeptOther(|GetKeys(row.key)|, i);
    ReindexedMembers(Only(row.info.status, NotEnabled(row.info.status)), kept);
    ReindexedMembers(row.info.time, kept);
    ReindexedMembers(row.info.reason, kept);
  }

  lemma PurgedPositions(row: Row)
    ensures var info := InfoOnPurge(row.info, KeptOnPurge(row));
            && (forall i :: i in info.status ==> 0 <= i < info.size)
            && (forall i :: i in info.time ==> 0 <= i < info.size)
            && (forall i :: i in info.reason ==> 0 <= i < info.size)
  {
    ReindexedMembers(Only(row.info.status, NotEnabled(row.info.status)), KeptOnPurge(row));
    ReindexedMembers(Only(row.info.time, NotEnabled(row.info.status)), KeptOnPurge(row));
    ReindexedMembers(Only(row.info.reason, NotEnabled(row.info.status)), KeptOnPurge(row));
  }

  lemma PurgeKeepsSound(row: Row)
    requires Sound(row) && |SelectIf(GetKeys(row.key), NotAutoDisabled(row.info))| < |GetKeys(row.key)|
    ensures Sound(DisabledDeleted(row)) && (NoBlankKeys(row) ==> NoBlankKeys(DisabledDeleted(row)))
  {
    var p := NotAutoDisabled(row.info);
    PurgedPositions(row);
    SelectedKeys(row, p);
    if SelectIf(GetKeys(row.key), p) != [] {
      WrittenRecords(row, p, InfoOnPurge(row.info, KeptOnPurge(row)));
    }
  }

  lemma AppendToKeys(row: Row, input: string)
    requires Sound(row) && NoBlankKeys(row)
    ensures var next := Updated(row, Appended(row.key, input), row.info); Sound(next) && NoBlankKeys(next)
  {
    SoundText(row);
    AppendExactly(row, input);
    AppendAdds(row, input);
    var added := Fresh(Existing(row.key), RequestedKeys(input));
    forall j | 0 <= j < |added| ensures added[j] != "" {
      assert added[j] in added;
    }
  }

  /** A text of line breaks only is one blank key, which an append replaces. */
  lemma AppendToBlank(row: Row, input: string)
    requires Sound(row) && !NoBlankKeys(row)
    ensures Sound(Updated(row, Appended(row.key, input), row.info))
  {
    hide Lines, RequestedKeys, Fresh, Existing, Appended;
    OnlyBreaks(row);
    var added := Fresh(Existing(row.key), RequestedKeys(input));
    AppendAdds(row, input);
    AppendTwiceToBreaks(row, input);
    assert forall j :: 0 <= j < |added| ==> added[j] in added;
  }

  lemma OnlyBreaks(row: Row)
    requires |GetKeys(row.key)| == 1 && !NoBlankKeys(row)
    ensures forall c :: c in row.key ==> c == '\n'
  {
    hide Lines;
    if exists c :: c in row.key && c != '\n' {
      ExistingClean(row.key);
      assert false;
    }
  }

  /** Writing the same keys back with positions in range. */
  lemma UpdateKeepsSound(row: Row, info: Info)
    requires Sound(row)
    requires forall i :: i in info.status ==> 0 <= i
    requires forall i :: i in info.time || i in info.reason ==> 0 <= i < row.info.size
    ensures Updated(row, row.key, info).key == row.key && Sound(Updated(row, row.key, info))
  {
    hide Lines;
  }

  lemma StatusActionKeepsSound(row: Row, a: Action)
    requires Sound(row) && (a.Disable? || a.Enable? || a.EnableAll? || a.DisableAll?)
    ensures After(row, a).key == row.key && Sound(After(row, a))
  {
    hide Lines, CountEnabled, Recounted;
    match a {
      case Disable(i) =>
        if InRange(row.info, Some(i)).Done? {
          UpdateKeepsSound(row, Disabled(row.info, i));
        }
      case Enable(i) =>
        if InRange(row.info, Some(i)).Done? {
          UpdateKeepsSound(row, Enabled(row.info, i));
        }
      case EnableAll => UpdateKeepsSound(row, AllEnabled(row.info));
      case DisableAll => UpdateKeepsSound(row, AllDisabled(row.info, row.info.size));
    }
  }

  lemma ReportKeepsSound(row: Row, key: string, status: int, reason: string, now: int)
    requires Sound(row)
    ensures var next := After(row, Report(key, status, reason, now)); next.key == row.key && Sound(next)
  {
    hide Lines, After, IndexOf;
    AfterReport(row, key, status, reason, now);
    IndexOfFirst(GetKeys(row.key), key);
  }

  lemma ActionKeepsSound(row: Row, a: Action)
    requires Sound(row)
    ensures Sound(After(row, a)) && (NoBlankKeys(row) ==> NoBlankKeys(After(row, a)))
  {
    hide Lines, Kept, After, Sent, KeyDeleted, DisabledDeleted, Appended, StatusReported;
    match a {
      case Delete(i) =>
        AfterDelete(row, i);
        if 0 <= i < row.info.size {
          SelectOther(GetKeys(row.key), i);
          if SelectIf(GetKeys(row.key), Other(i)) != [] {
            DeleteKeepsSound(row, i);
          }
        }
      case Purge =>
        AfterPurge(row);
        KeptInRange(|GetKeys(row.key)|, NotAutoDisabled(row.info));
        if |SelectIf(GetKeys(row.key), NotAutoDisabled(row.info))| < |GetKeys(row.key)| {
          PurgeKeepsSound(row);
        }
      case Append(input) =>
        AfterAppend(row, input);
        if NoBlankKeys(row) {
          AppendToKeys(row, input);
        } else {
          AppendToBlank(row, input);
        }
      case Report(key, status, reason, now) => ReportKeepsSound(row, key, status, reason, now);
      case _ => StatusActionKeepsSound(row, a);
    }
  }

  /** Such a channel stays one, and keys none of which is blank stay so. */
  lemma {:induction false} RunKeepsSound(row: Row, actions: seq<Action>)
    requires Sound(row)
    ensures Sound(Run(row, actions)) && (NoBlankKeys(row) ==> NoBlankKeys(Run(row, actions)))
    decreases |actions|
  {
    if actions != [] {
      ActionKeepsSound(row, actions[0]);
      RunKeepsSound(After(row, actions[0]), actions[1..]);
    }
  }

  // ---------------------------------------------------------------- how alignment is lost

  /** A time is recorded for the last key and a blank key stands before it: deleting
      the first key until the blank one leads loses a line but not the position. */
  lemma {:induction false} DeletingLosesAlignment(row: Row, blank: nat) returns (actions: seq<Action>)
    requires Counted(row) && CleanEnds(GetKeys(row.key))
    requires blank < |GetKeys(row.key)| && GetKeys(row.key)[blank] == ""
    requires |GetKeys(row.key)| - 1 in row.info.time
    ensures !Aligned(Run(row, actions))
    decreases blank
  {
    hide Lines, Kept, Reindexed, After;
    var next, rest := After(row, Delete(0)), GetKeys(row.key)[1..];
    FirstDeleted(row);
    if rest[0] == "" {
      actions := [Delete(0)];
      RunCons(row, Delete(0), []);
      RunNone(next);
      assert [Delete(0)] + [] == [Delete(0)];
    } else {
      var others := DeletingLosesAlignment(next, blank - 1);
      actions := [Delete(0)] + others;
      RunCons(row, Delete(0), others);
    }
  }

  lemma RunNone(row: Row)
    ensures Run(row, []) == row
  {
  }

  lemma FirstDeleted(row: Row)
    requires Counted(row) && CleanEnds(GetKeys(row.key)) && |GetKeys(row.key)| > 1
    requires |GetKeys(row.key)| - 1 in row.info.time
    ensures var next, rest := After(row, Delete(0)), GetKeys(row.key)[1..];
            && Counted(next) && |rest| - 1 in next.info.time
            && (if rest[0] == "" then |GetKeys(next.key)| < |rest| else GetKeys(next.key) == rest)
  {
    hide Lines, Join, CleanEnds, After, KeyDeleted;
    var keys := GetKeys(row.key);
    FirstDeletedText(row);
    LinesSepFree('\n', row.key);
    assert SepFree('\n', keys[1..]);
    RestEnds(keys);
    LinesJoin('\n', keys[1..]);
    LastTimeKept(row);
  }

  lemma FirstDeletedText(row: Row)
    requires Counted(row) && |GetKeys(row.key)| > 1
    ensures After(row, Delete(0)) == KeyDeleted(row, 0) && Counted(KeyDeleted(row, 0))
    ensures GetKeys(row.key)[|GetKeys(row.key)| - 1] != "" ==>
              KeyDeleted(row, 0).key == Join('\n', GetKeys(row.key)[1..])
  {
    hide Lines, Kept, Reindexed, InfoOnDelete, After;
    AfterDelete(row, 0);
    var keys := GetKeys(row.key);
    SelectOther(keys, 0);
    assert RemoveAt(keys, 0) == keys[1..] && keys[1..][|keys| - 2] == keys[|keys| - 1];
    JoinEnds('\n', keys[1..]);
  }

  lemma LastTimeKept(row: Row)
    requires |GetKeys(row.key)| > 1 && |GetKeys(row.key)| - 1 in row.info.time
    ensures |GetKeys(row.key)| - 2 in KeyDeleted(row, 0).info.time
  {
    hide Lines, Join, Kept, Reindexed;
    KeptOther(|GetKeys(row.key)|, 0);
    ReindexedMembers(row.info.time, KeptOnDelete(row, 0));
  }

  lemma RestEnds(keys: seq<string>)
    requires |keys| > 1 && CleanEnds(keys)
    ensures CleanEnds(keys[1..]) <==> keys[1] != ""
    ensures keys[|keys| - 1] != ""
  {
    assert keys[1..][|keys| - 2] == keys[|keys| - 1];
  }

  /** A key longer than the stored text is new. */
  function LongKey(n: nat): string {
    seq(n, _ => 'x')
  }

  lemma LongKeyIsNew(stored: string, n: nat)
    requires n > |stored|
    ensures RequestedKeys(LongKey(n)) == [LongKey(n)]
    ensures LongKey(n) !in Existing(stored)
    ensures Fresh(Existing(stored), [LongKey(n)]) == [LongKey(n)]
  {
    var x, existing := LongKey(n), Existing(stored);
    SplitWhole('\n', x);
    TrimFixed(IsSpace, x);
    assert Trimmed([x]) == [x] by {
      TrimmedSnoc([], x);
      assert [] + [x] == [x];
    }
    var i, j := TrimShape((c: char) => c == '\n', stored);
    SplitNoLonger('\n', TrimSep('\n', stored));
    TrimmedMembers(existing);
    if x in Trimmed(existing) {
      var m :| m in existing && TrimSpace(m) == x;
      var a, b := TrimShape(IsSpace, m);
      assert false;
    }
    assert [x][..0] == [];
  }

  /** With a blank key between two others: append a new key, report it, and delete
      the first key until the blank one leads. */
  lemma BlankKeyLosesAlignment(row: Row) returns (actions: seq<Action>)
    requires Counted(row) && !NoBlankKeys(row)
    requires exists c :: c in row.key && c != '\n'
    ensures !Aligned(Run(row, actions))
  {
    hide Lines, RequestedKeys, LongKey, Existing, Fresh, After, Run;
    var keys, x := GetKeys(row.key), LongKey(|row.key| + 1);
    var blank :| 0 <= blank < |keys| && keys[blank] == "";
    ExistingClean(row.key);
    LongKeyIsNew(row.key, |row.key| + 1);
    var appended := After(row, Append(x));
    var reported := After(appended, Report(x, AUTO_DISABLED, "", 0));
    LastReported(row, x);
    var others := DeletingLosesAlignment(reported, blank);
    actions := [Append(x)] + ([Report(x, AUTO_DISABLED, "", 0)] + others);
    RunCons(row, Append(x), [Report(x, AUTO_DISABLED, "", 0)] + others);
    RunCons(appended, Report(x, AUTO_DISABLED, "", 0), others);
  }

  lemma LastReported(row: Row, x: string)
    requires exists c :: c in row.key && c != '\n'
    requires RequestedKeys(x) == Fresh(Existing(row.key), [x]) == [x] && x !in Existing(row.key) && x != ""
    ensures var reported := After(After(row, Append(x)), Report(x, AUTO_DISABLED, "", 0));
            && Counted(reported) && GetKeys(reported.key) == GetKeys(row.key) + [x]
            && |GetKeys(row.key)| in reported.info.time && CleanEnds(GetKeys(reported.key))
  {
    hide Lines, Existing, Appended, Fresh, RequestedKeys, IndexOf, After;
    AfterAppend(row, x);
    AfterReport(After(row, Append(x)), x, AUTO_DISABLED, "", 0);
    ExistingClean(row.key);
    AppendExactly(row, x);
    var appended := After(row, Append(x));
    assert GetKeys(appended.key) == GetKeys(row.key) + [x];
    IndexOfFirst(GetKeys(appended.key), x);
    assert GetKeys(appended.key)[|GetKeys(row.key)|] == x;
  }

  lemma EmptyTextLosesAlignment(row: Row) returns (actions: seq<Action>)
    requires row.key == ""
    ensures !Aligned(Run(row, actions))
  {
    ExampleKeys();
    var next := After(row, Append("a\n\nb"));
    assert next.key == "a\n\nb" && GetKeys(next.key)[1] == "";
    assert next.key[0] in next.key;
    var others := BlankKeyLosesAlignment(next);
    actions := [Append("a\n\nb")] + others;
    RunCons(row, Append("a\n\nb"), others);
  }

  /** In every run the size is the number of keys and all positions in the three
      maps are positions of keys, if and only if they are to begin with, the key
      text is not empty, and the channel has a single key or no blank one. */
  lemma AlignedExactly(row: Row)
    ensures (forall actions :: Aligned(Run(row, actions)))
       <==> Aligned(row) && row.key != "" && (row.info.size == 1 || NoBlankKeys(row))
  {
    hide Lines;
    if Sound(row) {
      forall actions ensures Aligned(Run(row, actions)) {
        RunKeepsSound(row, actions);
      }
    } else if !Aligned(row) {
      RunNone(row);
    } else if row.key == "" {
      var actions := EmptyTextLosesAlignment(row);
    } else {
      SeveralKeys(row);
      var actions := BlankKeyLosesAlignment(row);
    }
  }

  lemma SeveralKeys(row: Row)
    requires row.key != "" && |GetKeys(row.key)| != 1
    ensures exists c :: c in row.key && c != '\n'
  {
    TrimmedAway((c: char) => c == '\n', row.key);
  }
}
