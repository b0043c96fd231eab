/**
 Two requests on one channel that overlap (controller/channel.go, lines 1443-1467):
 a request loads the channel before it takes the channel's lock, so the second may
 write what it made of the row as it was before the first.
 */
module MultiKeyStale {
  import opened Text
  import opened MultiKey
  import opened MultiKeyPurge
  import opened MultiKeyRuns
  import opened MultiKeyTheorems
  import opened Wrappers

  /** The row when b, having loaded what a had loaded, writes after a. */
  function Stale(row: Row, a: Action, b: Action): Row {
    Received(After(row, a), Sent(row, b))
  }

  /** The stale write leaves exactly what b alone would have left: a is undone as if
      it had never happened, keys included.  Only a status report spares the keys,
      and so does an empty key text, which is not written. */
  lemma StaleUndoes(row: Row, a: Action, b: Action)
    ensures var first, w := After(row, a), Sent(row, b);
            match w
            case Nothing => Stale(row, a, b) == first
            case Whole(key, info) =>
              if key != "" then Stale(row, a, b) == After(row, b)
              else Stale(row, a, b) == Row(first.key, Recounted(first.key, info))
            case InfoOnly(info) => Stale(row, a, b) == Row(first.key, After(row, b).info)
  {
    hide Sent, Recounted;
  }

  // ---------------------------------------------------------------- what one position holds

  function Shown(key: string, s: Slot): Record {
    if s.status == ENABLED then Record(key, ENABLED, 0, "") else Record(key, s.status, s.time, s.reason)
  }

  lemma RecordsAreSlots(row: Row)
    ensures |Records(row)| == |GetKeys(row.key)|
    ensures forall k :: 0 <= k < |Records(row)| ==> Records(row)[k] == Shown(GetKeys(row.key)[k], SlotOf(row.info, k))
  {
  }

  /** The actions that change no key. */
  predicate SetsStatus(a: Action) {
    a.Disable? || a.Enable? || a.EnableAll? || a.DisableAll? || a.Report?
  }

  /** What such an action makes of position k. */
  function Effect(a: Action, keys: seq<string>, k: int, s: Slot): Slot
    requires SetsStatus(a)
  {
    match a
    case Disable(i) => if k == i then s.(status := MANUALLY_DISABLED) else s
    case Enable(i) => if k == i then Slot(ENABLED, 0, "") else s
    case EnableAll => Slot(ENABLED, 0, "")
    case DisableAll => if s.status == ENABLED then s.(status := MANUALLY_DISABLED) else s
    case Report(key, status, reason, now) =>
      if k != IndexOf(keys, key) then s
      else if status == ENABLED then s.(status := ENABLED)
      else Slot(status, now, reason)
  }

  lemma {:induction false} NoneEnabled(info: Info, n: nat)
    ensures CountEnabled(info, n) == 0 <==> forall k :: 0 <= k < n ==> StatusOf(info, k) != ENABLED
  {
    if n > 0 {
      NoneEnabled(info, n - 1);
    }
  }

  /** Whether an action that changes no key writes anything. */
  ghost predicate Writes(row: Row, b: Action) {
    match b
    case Disable(j) => 0 <= j < |Records(row)|
    case Enable(j) => 0 <= j < |Records(row)|
    case DisableAll => exists k :: 0 <= k < |Records(row)| && Records(row)[k].status == ENABLED
    case _ => true
  }

  lemma WritesExactly(row: Row, b: Action)
    requires Counted(row) && SetsStatus(b)
    ensures Writes(row, b) <==> !Sent(row, b).Nothing?
  {
    hide Lines, IndexOf;
    if b.DisableAll? {
      NoneEnabled(row.info, row.info.size);
      assert forall k :: 0 <= k < |Records(row)| ==>
               (Records(row)[k].status == ENABLED <==> StatusOf(row.info, k) == ENABLED);
    }
  }

  lemma EffectKept(row: Row, a: Action)
    requires Counted(row) && SetsStatus(a)
    ensures After(row, a).key == row.key && Counted(After(row, a))
  {
    hide Lines, IndexOf, CountEnabled, Disabled, Enabled, AllEnabled, AllDisabled;
  }

  lemma EffectAt(row: Row, a: Action, k: nat)
    requires Counted(row) && SetsStatus(a) && !a.DisableAll? && k < row.info.size
    ensures SlotOf(After(row, a).info, k) == Effect(a, GetKeys(row.key), k, SlotOf(row.info, k))
  {
    hide Lines, IndexOf, CountEnabled, AllDisabled;
    if a.Report? {
      IndexOfFirst(GetKeys(row.key), a.key);
    }
  }

  lemma DisableAllAt(row: Row, k: nat)
    requires Counted(row) && k < row.info.size
    ensures SlotOf(After(row, DisableAll).info, k) == Effect(DisableAll, GetKeys(row.key), k, SlotOf(row.info, k))
  {
    hide Lines, CountEnabled, Updated, AllDisabled;
    NoneEnabled(row.info, row.info.size);
    AllDisabledAt(row, k);
  }

  lemma EffectExact(row: Row, a: Action)
    requires Counted(row) && SetsStatus(a)
    ensures var next := After(row, a);
            && next.key == row.key && Counted(next)
            && forall k :: 0 <= k < row.info.size ==>
                 SlotOf(next.info, k) == Effect(a, GetKeys(row.key), k, SlotOf(row.info, k))
  {
    hide After, SlotOf, Effect, Lines;
    EffectKept(row, a);
    forall k | 0 <= k < row.info.size
      ensures SlotOf(After(row, a).info, k) == Effect(a, GetKeys(row.key), k, SlotOf(row.info, k))
    {
      if a.DisableAll? {
        DisableAllAt(row, k);
      } else {
        EffectAt(row, a, k);
      }
    }
  }

  lemma StaleSlots(row: Row, a: Action, b: Action)
    requires Counted(row) && SetsStatus(a) && SetsStatus(b)
    ensures var stale, keys := Stale(row, a, b), GetKeys(row.key);
            && stale.key == row.key
            && forall k :: 0 <= k < row.info.size ==>
                 SlotOf(stale.info, k) == Effect(if Writes(row, b) then b else a, keys, k, SlotOf(row.info, k))
  {
    hide After, Sent, SlotOf, Effect, Writes, Recounted, Stale, Lines;
    StaleUndoes(row, a, b);
    WritesExactly(row, b);
    EffectExact(row, a);
    EffectExact(row, b);
    SentKey(row, b);
  }

  lemma SentKey(row: Row, b: Action)
    requires SetsStatus(b)
    ensures Sent(row, b).Whole? ==> Sent(row, b).key == row.key
    ensures row.key == "" ==> GetKeys(row.key) == []
  {
    hide CountEnabled, IndexOf;
  }

  // ---------------------------------------------------------------- statuses against statuses

  /** Whether the position already shows what a makes of it. */
  predicate Unmoved(a: Action, keys: seq<string>, k: int, s: Slot)
    requires SetsStatus(a)
  {
    match a
    case Disable(i) => k == i ==> s.status == MANUALLY_DISABLED
    case Enable(i) => k == i ==> s.status == ENABLED
    case EnableAll => s.status == ENABLED
    case DisableAll => s.status != ENABLED
    case Report(key, status, reason, now) =>
      k == IndexOf(keys, key) ==> if status == ENABLED then s.status == ENABLED else s == Slot(status, now, reason)
  }

  /** Whether a enables the key at position k. */
  predicate Enables(a: Action, keys: seq<string>, k: int) {
    match a
    case Enable(i) => k == i
    case EnableAll => true
    case Report(key, status, _, _) => status == ENABLED && k == IndexOf(keys, key)
    case _ => false
  }

  /** Whether the time and the reason at position k are those that a leaves there. */
  predicate SameRest(a: Action, keys: seq<string>, k: int, s: Slot) {
    match a
    case Enable(i) => k == i ==> s.time == 0 && s.reason == ""
    case EnableAll => s.time == 0 && s.reason == ""
    case Report(key, status, reason, now) =>
      k == IndexOf(keys, key) && status != ENABLED ==> s.time == now && s.reason == reason
    case _ => true
  }

  /** Whether disabling every enabled key hides what a did to position k. */
  predicate Levelled(a: Action, keys: seq<string>, k: int, s: Slot) {
    match a
    case Disable(i) => k == i ==> s.status in {ENABLED, MANUALLY_DISABLED}
    case DisableAll => true
    case Report(key, status, _, _) =>
      k == IndexOf(keys, key) ==>
        if status in {ENABLED, MANUALLY_DISABLED} then s.status in {ENABLED, MANUALLY_DISABLED} else s.status == status
    case _ => Enables(a, keys, k) ==> s.status in {ENABLED, MANUALLY_DISABLED}
  }

  /** Whether position k shows the same after b alone and after a and b, in terms of
      what it holds before. */
  predicate Agrees(a: Action, b: Action, keys: seq<string>, k: int, s: Slot)
    requires SetsStatus(a) && SetsStatus(b)
  {
    match b
    case Disable(j) => if k == j then SameRest(a, keys, k, s) else Unmoved(a, keys, k, s)
    case Enable(j) => k != j ==> Unmoved(a, keys, k, s)
    case Report(key, _, _, _) => k != IndexOf(keys, key) ==> Unmoved(a, keys, k, s)
    case EnableAll => true
    case DisableAll => Levelled(a, keys, k, s) && SameRest(a, keys, k, s)
  }

  lemma AgreesExact(a: Action, b: Action, keys: seq<string>, k: int, key: string, s: Slot)
    requires SetsStatus(a) && SetsStatus(b)
    ensures Shown(key, Effect(b, keys, k, s)) == Shown(key, Effect(b, keys, k, Effect(a, keys, k, s)))
       <==> Agrees(a, b, keys, k, s)
    ensures Shown(key, s) == Shown(key, Effect(a, keys, k, s)) <==> Unmoved(a, keys, k, s)
  {
    hide IndexOf;
  }

  /** For any two overlapping actions that change no key, what is left is what the two
      in sequence leave if and only if every position agrees; when the second found no
      key to disable and so wrote nothing, if and only if the first enables none. */
  lemma StaleStatusExactly(row: Row, a: Action, b: Action)
    requires Counted(row) && SetsStatus(a) && SetsStatus(b)
    ensures var keys := GetKeys(row.key);
            Records(Stale(row, a, b)) == Records(After(After(row, a), b)) <==>
              if Writes(row, b)
              then forall k :: 0 <= k < |keys| ==> Agrees(a, b, keys, k, SlotOf(row.info, k))
              else b.DisableAll? ==> forall k :: 0 <= k < |keys| ==> !Enables(a, keys, k)
  {
    hide Records, SlotOf, Effect, Shown, Stale, After, Agrees, Writes, Enables, Lines;
    var keys, stale, current := GetKeys(row.key), Stale(row, a, b), After(After(row, a), b);
    StaleSlots(row, a, b);
    EffectExact(row, a);
    EffectExact(After(row, a), b);
    RecordsAreSlots(row);
    RecordsAreSlots(stale);
    RecordsAreSlots(current);
    forall k | 0 <= k < |keys|
      ensures Records(stale)[k] == Records(current)[k] <==>
                if Writes(row, b) then Agrees(a, b, keys, k, SlotOf(row.info, k))
                else b.DisableAll? ==> !Enables(a, keys, k)
    {
      AgreesExact(a, b, keys, k, keys[k], SlotOf(row.info, k));
      if !Writes(row, b) {
        RefusedSlot(row, a, b, k);
      }
    }
    SameRecords(stale, current);
  }

  lemma SameRecords(x: Row, y: Row)
    ensures Records(x) == Records(y) <==>
              |Records(x)| == |Records(y)| && forall k :: 0 <= k < |Records(x)| ==> Records(x)[k] == Records(y)[k]
  {
  }

  lemma RefusedSlot(row: Row, a: Action, b: Action, k: nat)
    requires Counted(row) && SetsStatus(a) && SetsStatus(b) && !Writes(row, b) && k < |GetKeys(row.key)|
    ensures var keys, s := GetKeys(row.key), SlotOf(row.info, k);
            Shown(keys[k], Effect(a, keys, k, s)) == Shown(keys[k], Effect(b, keys, k, Effect(a, keys, k, s)))
            <==> (b.DisableAll? ==> !Enables(a, keys, k))
  {
    hide Lines, IndexOf;
    RecordsAreSlots(row);
  }

  // ---------------------------------------------------------------- two different keys

  /** The position an action is about. */
  function Position(a: Action, keys: seq<string>): int
    requires a.Disable? || a.Enable? || a.Report?
  {
    match a
    case Disable(i) => i
    case Enable(i) => i
    case Report(key, _, _, _) => IndexOf(keys, key)
  }

  /** Whether a record already is what the action makes of it. */
  predicate AlreadyDone(a: Action, r: Record)
    requires a.Disable? || a.Enable? || a.Report?
  {
    match a
    case Disable(_) => r.status == MANUALLY_DISABLED
    case Enable(_) => r.status == ENABLED
    case Report(_, status, reason, now) =>
      if status == ENABLED then r.status == ENABLED else r == Record(r.key, status, now, reason)
  }

  /** Of two overlapping requests or reports about different keys the first is lost,
      an automatic disabling included, unless its key already had the record it
      asks for. */
  lemma StaleOtherKeyExactly(row: Row, a: Action, b: Action)
    requires Counted(row)
    requires (a.Disable? || a.Enable? || a.Report?) && (b.Disable? || b.Enable? || b.Report?)
    requires 0 <= Position(a, GetKeys(row.key)) < |Records(row)|
    requires 0 <= Position(b, GetKeys(row.key)) < |Records(row)|
    requires Position(a, GetKeys(row.key)) != Position(b, GetKeys(row.key))
    ensures Records(Stale(row, a, b)) == Records(After(After(row, a), b))
       <==> AlreadyDone(a, Records(row)[Position(a, GetKeys(row.key))])
  {
    hide Records, Stale, After, Lines, IndexOf;
    var keys := GetKeys(row.key);
    StaleStatusExactly(row, a, b);
    RecordsAreSlots(row);
    var i := Position(a, keys);
    assert forall k :: 0 <= k < |keys| && k != i ==> Agrees(a, b, keys, k, SlotOf(row.info, k));
    assert Agrees(a, b, keys, i, SlotOf(row.info, i)) <==> AlreadyDone(a, Records(row)[i]);
  }

  // ---------------------------------------------------------------- keys against statuses

  /** The requests that send the whole row without changing a key. */
  predicate ResendsKeys(b: Action) {
    SetsStatus(b) && !b.Report?
  }

  lemma KeysResent(row: Row, a: Action, b: Action)
    requires Counted(row) && row.key != "" && ResendsKeys(b) && Writes(row, b)
    ensures Stale(row, a, b) == After(row, b)
    ensures KeysOf(Records(Stale(row, a, b))) == KeysOf(Records(row))
    ensures Counted(After(row, a)) ==> KeysOf(Records(After(After(row, a), b))) == KeysOf(Records(After(row, a)))
  {
    hide After, Sent, Writes, Recounted, Lines;
    StaleUndoes(row, a, b);
    WritesExactly(row, b);
    SentKey(row, b);
    ReportsOnly(row, b);
    EffectExact(row, b);
    if Counted(After(row, a)) {
      EffectExact(After(row, a), b);
    }
  }

  lemma ReportsOnly(row: Row, b: Action)
    ensures Sent(row, b).InfoOnly? <==> b.Report?
  {
    hide Lines, Kept, SelectIf, CountEnabled, IndexOf;
  }

  /** A deletion that took effect is always undone: the stale row has every key back,
      while the sequence has fewer. */
  lemma StaleUndoesDelete(row: Row, i: nat, b: Action)
    requires Counted(row) && i < row.info.size && row.info.size > 1
    requires ResendsKeys(b) && Writes(row, b)
    ensures KeysOf(Records(Stale(row, Delete(i), b))) == KeysOf(Records(row))
    ensures |Records(After(After(row, Delete(i)), b))| < |Records(row)|
    ensures CleanEnds(RemoveAt(GetKeys(row.key), i)) ==>
              |Records(After(After(row, Delete(i)), b))| == |Records(row)| - 1
  {
    hide Records, Stale, After, Writes, Lines;
    var first := After(row, Delete(i));
    RecordsAreSlots(row);
    assert row.key != "" by { EmptyKeys(row.key); }
    DeletedCount(row, i);
    KeysResent(row, Delete(i), b);
    assert |KeysOf(Records(first))| == |Records(first)|;
  }

  lemma EmptyKeys(key: string)
    ensures key == "" ==> GetKeys(key) == []
  {
  }

  lemma DeletedCount(row: Row, i: nat)
    requires Counted(row) && i < row.info.size && row.info.size > 1
    ensures Counted(After(row, Delete(i))) && |Records(After(row, Delete(i)))| < |Records(row)|
    ensures CleanEnds(RemoveAt(GetKeys(row.key), i)) ==>
              |Records(After(row, Delete(i)))| == |Records(row)| - 1
  {
    hide Lines, Kept, After, Squeezed, Join;
    var keys := GetKeys(row.key);
    AfterDelete(row, i);
    UpdateRecounts(row, Join('\n', SelectIf(keys, Other(i))), InfoOnDelete(row.info, KeptOnDelete(row, i)));
    SelectOther(keys, i);
    LinesSepFree('\n', row.key);
    KeyEnds(row.key);
    NotAllBlank(keys, i);
    assert SepFree('\n', RemoveAt(keys, i));
    LinesJoinInner('\n', RemoveAt(keys, i));
    if CleanEnds(RemoveAt(keys, i)) {
      LinesJoin('\n', RemoveAt(keys, i));
    }
  }

  lemma NotAllBlank(keys: seq<string>, i: nat)
    requires |keys| > 1 && CleanEnds(keys) && i < |keys|
    ensures !AllBlank(RemoveAt(keys, i))
  {
    var rest := RemoveAt(keys, i);
    assert i > 0 ==> rest[0] == keys[0];
    assert i == 0 ==> rest[|rest| - 1] == keys[|keys| - 1];
  }

  /** So is a bulk deletion that left a key that is not blank. */
  lemma StaleUndoesPurge(row: Row, b: Action)
    requires Counted(row) && ResendsKeys(b) && Writes(row, b)
    requires exists r :: r in Records(row) && r.status == AUTO_DISABLED
    requires exists r :: r in Records(row) && r.status != AUTO_DISABLED && r.key != ""
    ensures KeysOf(Records(Stale(row, Purge, b))) == KeysOf(Records(row))
    ensures |Records(After(After(row, Purge), b))| < |Records(row)|
  {
    hide Records, Stale, After, Writes, Lines, Surviving, AutoDisabledDown;
    var first := After(row, Purge);
    RecordsAreSlots(row);
    assert row.key != "" by { EmptyKeys(row.key); }
    PurgeReadBack(row);
    SurvivingBlank(Records(row));
    SurvivingMembers(Records(row));
    var r :| r in Records(row) && r.status == AUTO_DISABLED;
    PurgeCounts(row);
    KeysResent(row, Purge, b);
    assert |KeysOf(Records(first))| == |Records(first)|;
  }

  lemma PurgeCounts(row: Row)
    requires Counted(row)
    ensures Counted(After(row, Purge))
  {
    hide Lines, Kept, After, SelectIf;
    AfterPurge(row);
  }

  /** Keys that were appended are lost: what is left is what the sequence leaves if
      and only if none was new. */
  lemma StaleUndoesAppend(row: Row, input: string, b: Action)
    requires Counted(row) && ResendsKeys(b) && Writes(row, b)
    requires exists c :: c in row.key && c != '\n'
    ensures KeysOf(Records(Stale(row, Append(input), b))) == KeysOf(Records(row))
    ensures var added := Fresh(Existing(row.key), RequestedKeys(input));
            && KeysOf(Records(After(After(row, Append(input)), b))) == KeysOf(Records(row)) + added
            && (Records(Stale(row, Append(input), b)) == Records(After(After(row, Append(input)), b)) <==> added == [])
  {
    hide Records, Stale, After, Writes, Lines, Fresh, Existing, RequestedKeys, Appended, Effect, SlotOf;
    var first := After(row, Append(input));
    var stale, current := Stale(row, Append(input), b), After(first, b);
    AppendedSlots(row, input);
    KeysResent(row, Append(input), b);
    KeysOfRecords(row);
    KeysOfRecords(first);
    EffectExact(row, b);
    EffectExact(first, b);
    RecordsAreSlots(stale);
    RecordsAreSlots(current);
    if Fresh(Existing(row.key), RequestedKeys(input)) == [] {
      assert GetKeys(row.key) + [] == GetKeys(row.key);
      SameRecords(stale, current);
    } else {
      assert |KeysOf(Records(current))| > |KeysOf(Records(stale))|;
    }
  }

  lemma AppendedSlots(row: Row, input: string)
    requires exists c :: c in row.key && c != '\n'
    ensures var first := After(row, Append(input));
            && Counted(first)
            && GetKeys(first.key) == GetKeys(row.key) + Fresh(Existing(row.key), RequestedKeys(input))
            && forall k :: 0 <= k < |GetKeys(row.key)| ==> SlotOf(first.info, k) == SlotOf(row.info, k)
  {
    hide After, Lines, Fresh, Existing, RequestedKeys, Appended;
    AfterAppend(row, input);
    AppendExactly(row, input);
  }

  /** A report writes the size it loaded, so overlapping an action that changes the
      number of keys leaves a wrong size; a deletion that took effect always does. */
  lemma StaleReportMiscounts(row: Row, a: Action, key: string, status: int, reason: string, now: int)
    requires Counted(row)
    ensures var stale := Stale(row, a, Report(key, status, reason, now));
            && stale.key == After(row, a).key
            && (Counted(stale) <==> |GetKeys(After(row, a).key)| == |GetKeys(row.key)|)
            && (a.Delete? && 0 <= a.i < row.info.size && row.info.size > 1 ==> !Counted(stale))
  {
    hide After, Lines, Stale;
    var b := Report(key, status, reason, now);
    StaleUndoes(row, a, b);
    ReportsOnly(row, b);
    EffectExact(row, b);
    if a.Delete? && 0 <= a.i < row.info.size && row.info.size > 1 {
      DeletedCount(row, a.i);
      RecordsAreSlots(row);
      RecordsAreSlots(After(row, a));
    }
  }

  // ---------------------------------------------------------------- statuses against keys

  lemma UnmovedRecord(row: Row, a: Action, k: nat)
    requires Counted(row) && SetsStatus(a) && k < |GetKeys(row.key)|
    ensures |Records(After(row, a))| == |Records(row)| == |GetKeys(row.key)|
    ensures Records(After(row, a))[k].key == Records(row)[k].key == GetKeys(row.key)[k]
    ensures Records(row)[k] == Records(After(row, a))[k]
       <==> Unmoved(a, GetKeys(row.key), k, SlotOf(row.info, k))
  {
    hide After, Records, Effect, SlotOf, Unmoved, Lines;
    EffectExact(row, a);
    RecordsAreSlots(row);
    RecordsAreSlots(After(row, a));
    AgreesExact(a, a, GetKeys(row.key), k, GetKeys(row.key)[k], SlotOf(row.info, k));
  }

  /** A stale append adds its keys and loses the first action, unless every position
      already showed it. */
  lemma StaleAppendExactly(row: Row, a: Action, input: string)
    requires StatusAligned(row) && SetsStatus(a)
    requires exists c :: c in row.key && c != '\n'
    ensures Records(Stale(row, a, Append(input))) == Records(After(After(row, a), Append(input)))
       <==> forall k :: 0 <= k < |GetKeys(row.key)| ==> Unmoved(a, GetKeys(row.key), k, SlotOf(row.info, k))
  {
    hide After, Sent, Records, SlotOf, Unmoved, Lines, Fresh, Existing, RequestedKeys, Stale, Recounted, Appended;
    var first := After(row, a);
    EffectExact(row, a);
    ActionKeepsStatusAligned(row, a);
    AppendRecords(row, input);
    AppendRecords(first, input);
    AppendSends(row, a, input);
    RecordsAreSlots(row);
    RecordsAreSlots(first);
    forall k | 0 <= k < |GetKeys(row.key)|
      ensures Records(row)[k] == Records(first)[k] <==> Unmoved(a, GetKeys(row.key), k, SlotOf(row.info, k))
    {
      UnmovedRecord(row, a, k);
    }
    SameRecords(row, first);
    SameFront(Records(row), Records(first), EnabledRecords(Fresh(Existing(row.key), RequestedKeys(input))));
  }

  lemma SameFront<T>(x: seq<T>, y: seq<T>, tail: seq<T>)
    requires |x| == |y|
    ensures x + tail == y + tail <==> x == y
  {
    assert (x + tail)[..|x|] == x && (y + tail)[..|y|] == y;
  }

  lemma AppendSends(row: Row, a: Action, input: string)
    requires exists c :: c in row.key && c != '\n'
    ensures Stale(row, a, Append(input)) == After(row, Append(input))
  {
    hide After, Recounted, Lines;
    AppendedText(row.key, input);
    StaleUndoes(row, a, Append(input));
  }

  lemma AppendedText(stored: string, input: string)
    requires exists c :: c in stored && c != '\n'
    ensures Appended(stored, input) != ""
  {
    hide Fresh;
    ExistingClean(stored);
    JoinEnds('\n', Existing(stored) + Fresh(Existing(stored), Trimmed(Split('\n', input))));
  }

  /** Where position p was before position j was removed. */
  function Source(p: int, j: int): int {
    if p < j then p else p + 1
  }

  /** A stale deletion removes its key and loses the first action, unless every
      position that is left already showed it. */
  lemma StaleDeleteExactly(row: Row, a: Action, j: nat)
    requires Counted(row) && SetsStatus(a) && j < row.info.size && row.info.size > 1
    ensures |Records(After(row, Delete(j)))| < |Records(row)| == |GetKeys(row.key)|
    ensures Records(Stale(row, a, Delete(j))) == Records(After(After(row, a), Delete(j)))
       <==> forall p :: 0 <= p < |Records(After(row, Delete(j)))| ==>
              Unmoved(a, GetKeys(row.key), Source(p, j), SlotOf(row.info, Source(p, j)))
  {
    hide After, Sent, Records, SlotOf, Unmoved, Lines, Stale, Squeezed, AllBlank;
    var first := After(row, a);
    EffectExact(row, a);
    RecordsAreSlots(row);
    RecordsAreSlots(first);
    DeletedCount(row, j);
    DeleteSends(row, a, j);
    var x, y := RemoveAt(Records(row), j), RemoveAt(Records(first), j);
    forall p | 0 <= p < |x|
      ensures x[p].key == y[p].key
      ensures x[p] == y[p] <==> Unmoved(a, GetKeys(row.key), Source(p, j), SlotOf(row.info, Source(p, j)))
    {
      UnmovedRecord(row, a, Source(p, j));
    }
    assert KeysOf(x) == KeysOf(y);
    KeysRemoved(row, j);
    DeleteReadBack(row, j);
    DeleteReadBack(first, j);
    SqueezedSame(x, y);
    assert |Squeezed(x)| == |Records(After(row, Delete(j)))|;
  }

  lemma KeysRemoved(row: Row, j: nat)
    requires j < |Records(row)| && |Records(row)| > 1
    ensures !AllBlank(KeysOf(RemoveAt(Records(row), j)))
  {
    hide Lines;
    KeyEnds(row.key);
    NotAllBlank(GetKeys(row.key), j);
    assert KeysOf(RemoveAt(Records(row), j)) == RemoveAt(GetKeys(row.key), j);
  }

  lemma SqueezedSame(x: seq<Record>, y: seq<Record>)
    requires |x| == |y| && KeysOf(x) == KeysOf(y)
    ensures |Squeezed(x)| == |Squeezed(y)| <= |x|
    ensures Squeezed(x) == Squeezed(y) <==> forall p :: 0 <= p < |Squeezed(x)| ==> x[p] == y[p]
  {
    hide Inner;
    forall p | 0 <= p < |Squeezed(x)| ensures Squeezed(x)[p] == Squeezed(y)[p] <==> x[p] == y[p] {
      assert KeysOf(x)[p] == KeysOf(y)[p];
    }
  }

  lemma DeleteSends(row: Row, a: Action, j: nat)
    requires Counted(row) && j < row.info.size && row.info.size > 1
    ensures Stale(row, a, Delete(j)) == After(row, Delete(j))
  {
    hide Lines, Kept, After, Recounted;
    var keys := GetKeys(row.key);
    SelectOther(keys, j);
    LinesSepFree('\n', row.key);
    KeyEnds(row.key);
    NotAllBlank(keys, j);
    assert SepFree('\n', RemoveAt(keys, j));
    LinesJoinInner('\n', RemoveAt(keys, j));
    StaleUndoes(row, a, Delete(j));
  }
}
