/**
 Deleting the automatically disabled keys at once (delete_disabled_keys) against
 deleting them one at a time from the highest position (delete_key).

 Both write the keys back as one text, and a text loses the blank keys at its
 ends while the records keep their positions; so the two can differ.
 */
module MultiKeyPurge {
  import opened Text
  import opened MultiKey
  import opened MultiKeyTheorems

  /** The automatically disabled positions, highest first. */
  function AutoDisabledDown(rs: seq<Record>): seq<int> {
    if rs == [] then []
    else
      var n := |rs| - 1;
      var rest := AutoDisabledDown(rs[..n]);
      if rs[n].status == AUTO_DISABLED then [n] + rest else rest
  }

  /** delete_key at each of the positions in turn, with its refusals. */
  function DeleteEach(row: Row, positions: seq<int>): Row
    decreases |positions|
  {
    if positions == [] then row else DeleteEach(After(row, Delete(positions[0])), positions[1..])
  }

  lemma DeleteEachStep(row: Row, p: int, rest: seq<int>)
    ensures DeleteEach(row, [p] + rest) == DeleteEach(After(row, Delete(p)), rest)
  {
    assert ([p] + rest)[1..] == rest;
  }

  // ---------------------------------------------------------------- what is read back

  function KeysOf(rs: seq<Record>): seq<string> {
    seq(|rs|, i requires 0 <= i < |rs| => rs[i].key)
  }

  /** Without the blank keys at the end. */
  function TrimBack(rs: seq<Record>): seq<Record> {
    BlankTailShape(KeysOf(rs));
    rs[..BlankTail(KeysOf(rs))]
  }

  /** What writing these records and reading them back gives: the keys move up
      past the blank ones at the front, everything else stays in its place. */
  function Squeezed(rs: seq<Record>): seq<Record> {
    var keys := Inner(KeysOf(rs));
    seq(|keys|, j requires 0 <= j < |keys| => rs[j].(key := keys[j]))
  }

  lemma TrimBackShape(rs: seq<Record>) returns (n: nat)
    ensures n <= |rs| && TrimBack(rs) == rs[..n] && (n > 0 ==> rs[n - 1].key != "")
    ensures forall k :: n <= k < |rs| ==> rs[k].key == ""
    ensures n == 0 <==> AllBlank(KeysOf(rs))
  {
    BlankTailShape(KeysOf(rs));
    n := BlankTail(KeysOf(rs));
    assert forall k :: 0 <= k < |rs| ==> KeysOf(rs)[k] == rs[k].key;
  }

  lemma TrimBackIs(rs: seq<Record>, n: nat)
    requires n <= |rs| && (n > 0 ==> rs[n - 1].key != "")
    requires forall k :: n <= k < |rs| ==> rs[k].key == ""
    ensures TrimBack(rs) == rs[..n]
  {
    var t := TrimBackShape(rs);
  }

  lemma SqueezedFront(rs: seq<Record>)
    requires rs != [] && rs[0].key != ""
    ensures Squeezed(rs) == TrimBack(rs)
  {
    var n := TrimBackShape(rs);
    assert KeysOf(rs)[0] == rs[0].key;
    InnerIs(KeysOf(rs), 0, n);
  }

  lemma SqueezedTrimBack(rs: seq<Record>)
    requires !AllBlank(KeysOf(rs))
    ensures !AllBlank(KeysOf(TrimBack(rs))) && Squeezed(TrimBack(rs)) == Squeezed(rs)
  {
    var n := TrimBackShape(rs);
    var keys := KeysOf(rs);
    BlankLeadShape(keys);
    var i := BlankLead(keys);
    assert KeysOf(TrimBack(rs)) == keys[..n];
    assert keys[i] == rs[i].key && i < n;
    InnerIs(keys, i, n);
    InnerIs(keys[..n], i, n);
    assert keys[i..n] == keys[..n][i..n];
  }

  lemma RemovedBefore<T>(xs: seq<T>, n: nat, p: nat)
    requires p < n <= |xs|
    ensures RemoveAt(xs, p) == RemoveAt(xs[..n], p) + xs[n..]
  {
    assert xs == xs[..n] + xs[n..];
  }

  lemma TrimBackExtended(rs: seq<Record>, blank: seq<Record>)
    requires forall k :: 0 <= k < |blank| ==> blank[k].key == ""
    ensures TrimBack(rs + blank) == TrimBack(rs)
  {
    var n := TrimBackShape(rs);
    hide TrimBack;
    TrimBackIs(rs + blank, n);
    assert (rs + blank)[..n] == rs[..n];
  }

  lemma TrimBackRemoved(rs: seq<Record>, p: nat)
    requires p < |rs|
    ensures p < |TrimBack(rs)| ==> TrimBack(RemoveAt(TrimBack(rs), p)) == TrimBack(RemoveAt(rs, p))
    ensures p >= |TrimBack(rs)| ==> TrimBack(rs) == TrimBack(RemoveAt(rs, p))
  {
    var n := TrimBackShape(rs);
    hide TrimBack;
    if p < n {
      RemovedBefore(rs, n, p);
      TrimBackExtended(RemoveAt(rs[..n], p), rs[n..]);
    } else {
      TrimBackIs(RemoveAt(rs, p), n);
    }
  }

  /** Writing a selection of keys, not all blank, leaves the selected records,
      squeezed. */
  lemma WrittenSqueezed(row: Row, p: int -> bool, info: Info)
    requires !AllBlank(SelectIf(GetKeys(row.key), p))
    requires var kept := Kept(|GetKeys(row.key)|, p);
             info == InfoOnDelete(row.info, kept) || info == InfoOnPurge(row.info, kept)
    ensures var next := Updated(row, Join('\n', SelectIf(GetKeys(row.key), p)), info);
            Records(next) == Squeezed(SelectIf(Records(row), p))
  {
    hide Lines, Join, Kept, InfoOnDelete, InfoOnPurge, AllBlank;
    var keys, rem, rs := GetKeys(row.key), SelectIf(GetKeys(row.key), p), SelectIf(Records(row), p);
    var kept := Kept(|keys|, p);
    var next := Updated(row, Join('\n', rem), info);
    KeptInRange(|keys|, p);
    SelectedKeys(row, p);
    assert KeysOf(rs) == rem;
    LinesJoinInner('\n', rem);
    var inner := Inner(rem);
    forall j | 0 <= j < |inner| ensures Records(next)[j] == Squeezed(rs)[j] {
      RecordKept(inner[j], row.info, kept, j, |inner|);
    }
  }

  /** Deleting one key in range reads back the other records, squeezed; the last
      key, and a position past the records, is refused. */
  lemma DeleteReadBack(row: Row, p: nat)
    requires Counted(row)
    ensures Counted(After(row, Delete(p)))
    ensures p >= |Records(row)| || |Records(row)| == 1 ==> After(row, Delete(p)) == row
    ensures p < |Records(row)| && !AllBlank(KeysOf(RemoveAt(Records(row), p))) ==>
              Records(After(row, Delete(p))) == Squeezed(RemoveAt(Records(row), p))
  {
    hide Lines, Kept, Squeezed, After, KeyDeleted, Records;
    AfterDelete(row, p);
    KeyDeletedCounted(row, p);
    KeysOfRecords(row);
    assert |KeysOf(Records(row))| == |Records(row)|;
    if p < |Records(row)| {
      SelectOther(GetKeys(row.key), p);
      SelectOther(Records(row), p);
      if |Records(row)| > 1 && !AllBlank(KeysOf(RemoveAt(Records(row), p))) {
        assert KeysOf(RemoveAt(Records(row), p)) == RemoveAt(KeysOf(Records(row)), p);
        KeyDeletedSqueezed(row, p);
      }
    }
  }

  lemma KeysOfRecords(row: Row)
    ensures KeysOf(Records(row)) == GetKeys(row.key)
  {
    hide Lines;
  }

  lemma KeyDeletedCounted(row: Row, p: int)
    ensures Counted(KeyDeleted(row, p))
  {
    hide Lines, Kept, SelectIf, InfoOnDelete;
  }

  lemma KeyDeletedSqueezed(row: Row, p: nat)
    requires !AllBlank(SelectIf(GetKeys(row.key), Other(p)))
    ensures Records(KeyDeleted(row, p)) == Squeezed(SelectIf(Records(row), Other(p)))
  {
    hide Lines, Kept, Squeezed, Records, AllBlank;
    WrittenSqueezed(row, Other(p), InfoOnDelete(row.info, KeptOnDelete(row, p)));
  }

  // ---------------------------------------------------------------- one at a time

  /** rs is the list the records stand for; the blank keys at its end are gone. */
  lemma DeleteLater(row: Row, rs: seq<Record>, p: nat)
    requires Counted(row) && Records(row) == TrimBack(rs)
    requires 0 < p < |rs| && rs[0].key != ""
    ensures Counted(After(row, Delete(p))) && Records(After(row, Delete(p))) == TrimBack(RemoveAt(rs, p))
  {
    hide Records, TrimBack, Squeezed, After;
    var n := TrimBackShape(rs);
    DeleteReadBack(row, p);
    TrimBackRemoved(rs, p);
    if p < n {
      var rest := RemoveAt(TrimBack(rs), p);
      assert rest[0] == rs[0] && KeysOf(rest)[0] != "";
      SqueezedFront(rest);
    }
  }

  lemma RemoveBetween(init: seq<Record>, last: Record, tail: seq<Record>)
    ensures (init + [last]) + tail == init + ([last] + tail)
    ensures RemoveAt((init + [last]) + tail, |init|) == init + tail
  {
    var xs := (init + [last]) + tail;
    assert xs[..|init|] == init && xs[|init| + 1..] == tail;
  }

  lemma SurvivingSnoc(init: seq<Record>, last: Record)
    ensures Surviving(init + [last])
         == if last.status == AUTO_DISABLED then Surviving(init) else Surviving(init) + [last]
    ensures AutoDisabledDown(init + [last])
         == if last.status == AUTO_DISABLED then [|init|] + AutoDisabledDown(init) else AutoDisabledDown(init)
  {
    assert (init + [last])[..|init|] == init;
  }

  lemma {:induction false} SurvivingCons(first: Record, rest: seq<Record>)
    ensures Surviving([first] + rest)
         == if first.status == AUTO_DISABLED then Surviving(rest) else [first] + Surviving(rest)
  {
    if rest == [] {
      assert [first] + rest == [] + [first];
      SurvivingSnoc([], first);
    } else {
      hide Surviving;
      var init, last := rest[..|rest| - 1], rest[|rest| - 1];
      SurvivingCons(first, init);
      assert rest == init + [last];
      assert [first] + rest == ([first] + init) + [last];
      SurvivingSnoc([first] + init, last);
      SurvivingSnoc(init, last);
      Associate([first], Surviving(init), [last]);
    }
  }

  /** One deletion, or none, at the end of a list. */
  lemma LastStep(row: Row, first: Record, init: seq<Record>, r: Record, tail: seq<Record>)
    returns (next: Row, back: seq<Record>)
    requires Counted(row) && Records(row) == TrimBack((([first] + init) + [r]) + tail) && first.key != ""
    ensures Counted(next) && Records(next) == TrimBack(([first] + init) + back)
    ensures back == if r.status == AUTO_DISABLED then tail else [r] + tail
    ensures DeleteEach(row, AutoDisabledDown(([first] + init) + [r]))
         == DeleteEach(next, AutoDisabledDown([first] + init))
  {
    hide Records, TrimBack, After, AutoDisabledDown, DeleteEach, RemoveAt;
    var front := [first] + init;
    SurvivingSnoc(front, r);
    RemoveBetween(front, r, tail);
    if r.status == AUTO_DISABLED {
      DeleteLater(row, (front + [r]) + tail, |front|);
      DeleteEachStep(row, |front|, AutoDisabledDown(front));
      next, back := After(row, Delete(|front|)), tail;
    } else {
      next, back := row, [r] + tail;
    }
  }

  /** Every deletion but that of the first key. */
  lemma {:induction false} DownToFirst(row: Row, first: Record, rest: seq<Record>, tail: seq<Record>)
    returns (last: Row)
    requires Counted(row) && Records(row) == TrimBack(([first] + rest) + tail) && first.key != ""
    ensures Counted(last) && Records(last) == TrimBack(([first] + Surviving(rest)) + tail)
    ensures DeleteEach(row, AutoDisabledDown([first] + rest)) == DeleteEach(last, AutoDisabledDown([first]))
    decreases |rest|
  {
    if rest == [] {
      last := row;
      assert [first] + rest == [first];
    } else {
      hide Records, TrimBack, Surviving, After, AutoDisabledDown, DeleteEach, Counted;
      var init, r := rest[..|rest| - 1], rest[|rest| - 1];
      assert rest == init + [r];
      Associate([first], init, [r]);
      var next, back := LastStep(row, first, init, r, tail);
      last := DownToFirst(next, first, init, back);
      SurvivingSnoc(init, r);
      if r.status != AUTO_DISABLED {
        Associate([first], Surviving(init), [r]);
        Associate([first] + Surviving(init), [r], tail);
      }
    }
  }

  /** What repeated deletion leaves when the first key is not blank. */
  lemma EachReadBack(row: Row)
    requires Counted(row) && Records(row) != [] && Records(row)[0].key != ""
    requires Records(row) == TrimBack(Records(row))
    ensures var rs, next := Records(row), DeleteEach(row, AutoDisabledDown(Records(row)));
            && (!AllBlank(KeysOf(Surviving(rs))) ==> Records(next) == Squeezed(Surviving(rs)))
            && (AllBlank(KeysOf(Surviving(rs))) ==> Records(next) == [rs[0]] && rs[0].status == AUTO_DISABLED)
  {
    hide Records, TrimBack, Surviving, After, DeleteEach, Squeezed;
    var rs := Records(row);
    var first, rest := rs[0], rs[1..];
    assert rs == [first] + rest && ([first] + rest) + [] == rs;
    var last := DownToFirst(row, first, rest, []);
    var s := Surviving(rest);
    assert ([first] + s) + [] == [first] + s;
    SurvivingCons(first, rest);
    assert AutoDisabledDown([first]) == if first.status == AUTO_DISABLED then [0] else [];
    if first.status == AUTO_DISABLED {
      DeleteEachStep(last, 0, []);
      DeleteEachNone(After(last, Delete(0)));
      assert [0] + [] == [0];
      DeleteFirst(last, first, s);
    } else {
      DeleteEachNone(last);
      assert KeysOf([first] + s)[0] == first.key;
      SqueezedFront([first] + s);
    }
  }

  lemma DeleteEachNone(row: Row)
    ensures DeleteEach(row, []) == row
  {
  }

  lemma TrimBackCons(first: Record, rest: seq<Record>)
    requires first.key != ""
    ensures AllBlank(KeysOf(rest)) ==> TrimBack([first] + rest) == [first]
    ensures !AllBlank(KeysOf(rest)) ==> TrimBack([first] + rest) == [first] + TrimBack(rest)
  {
    hide TrimBack, KeysOf, AllBlank;
    var rs := [first] + rest;
    var n := TrimBackShape(rest);
    assert forall k :: 1 <= k < |rs| ==> rs[k] == rest[k - 1];
    TrimBackIs(rs, n + 1);
    assert rs[..n + 1] == [first] + rest[..n];
    assert n == 0 ==> rest[..n] == [];
  }

  lemma DeleteFirst(row: Row, first: Record, rest: seq<Record>)
    requires Counted(row) && Records(row) == TrimBack([first] + rest) && first.key != ""
    ensures !AllBlank(KeysOf(rest)) ==> Records(After(row, Delete(0))) == Squeezed(rest)
    ensures AllBlank(KeysOf(rest)) ==> Records(After(row, Delete(0))) == [first]
  {
    hide Records, TrimBack, Squeezed, After;
    DeleteReadBack(row, 0);
    TrimBackCons(first, rest);
    if !AllBlank(KeysOf(rest)) {
      assert RemoveAt(Records(row), 0) == TrimBack(rest);
      SqueezedTrimBack(rest);
    }
  }

  // ---------------------------------------------------------------- all at once

  /** No key is automatically disabled after delete_disabled_keys. */
  lemma NoneLeftDisabled(row: Row)
    ensures forall i :: 0 <= i < |Records(DisabledDeleted(row))| ==>
              Records(DisabledDeleted(row))[i].status != AUTO_DISABLED
  {
    hide Lines, Join;
    KeptInRange(|GetKeys(row.key)|, NotAutoDisabled(row.info));
    ReindexedMembers(Only(row.info.status, NotEnabled(row.info.status)), KeptOnPurge(row));
  }

  lemma {:induction false} SurvivingMembers(rs: seq<Record>)
    ensures forall r :: r in Surviving(rs) <==> r in rs && r.status != AUTO_DISABLED
    ensures |Surviving(rs)| <= |rs|
    ensures |Surviving(rs)| == |rs| <==> forall i :: 0 <= i < |rs| ==> rs[i].status != AUTO_DISABLED
    ensures AutoDisabledDown(rs) == [] <==> forall i :: 0 <= i < |rs| ==> rs[i].status != AUTO_DISABLED
  {
    if rs != [] {
      SurvivingMembers(rs[..|rs| - 1]);
      assert rs == rs[..|rs| - 1] + [rs[|rs| - 1]];
    }
  }

  lemma SurvivingKeys(row: Row)
    ensures KeysOf(Surviving(Records(row))) == SelectIf(GetKeys(row.key), NotAutoDisabled(row.info))
  {
    SelectSurviving(Records(row), row.info);
    SelectedKeys(row, NotAutoDisabled(row.info));
  }

  lemma PurgeReadBack(row: Row)
    ensures |Surviving(Records(row))| == |Records(row)| ==> After(row, Purge) == row
    ensures |Surviving(Records(row))| < |Records(row)| && !AllBlank(KeysOf(Surviving(Records(row)))) ==>
              Records(After(row, Purge)) == Squeezed(Surviving(Records(row)))
    ensures |Surviving(Records(row))| < |Records(row)| ==>
              forall i :: 0 <= i < |Records(After(row, Purge))| ==>
                Records(After(row, Purge))[i].status != AUTO_DISABLED
  {
    hide Lines, Kept, Squeezed, After;
    AfterPurge(row);
    var p := NotAutoDisabled(row.info);
    SelectSurviving(Records(row), row.info);
    NoneLeftDisabled(row);
    SurvivingKeys(row);
    SelectedKeys(row, p);
    if !AllBlank(KeysOf(Surviving(Records(row)))) {
      WrittenSqueezed(row, p, InfoOnPurge(row.info, KeptOnPurge(row)));
    }
  }

  // ---------------------------------------------------------------- the comparison

  /** A key text reads back as nothing, as one blank key, or with clean ends. */
  lemma KeyEnds(key: string)
    ensures GetKeys(key) == [] || GetKeys(key) == [""] || CleanEnds(GetKeys(key))
  {
    if exists c :: c in key && c != '\n' {
      ExistingClean(key);
    } else {
      TrimmedAway((c: char) => c == '\n', key);
    }
  }

  /** delete_disabled_keys and deleting the same keys one at a time, from the
      highest position, leave the same records if and only if there is nothing to
      delete or a key that is not blank survives. */
  lemma PurgeIsRepeatedDeletionExactly(row: Row)
    requires Counted(row)
    ensures var rs := Records(row);
            (Records(After(row, Purge)) == Records(DeleteEach(row, AutoDisabledDown(rs)))
             <==> || (forall r :: r in rs ==> r.status != AUTO_DISABLED)
                  || (exists r :: r in rs && r.status != AUTO_DISABLED && r.key != ""))
  {
    hide Records, Surviving, After, DeleteEach, AutoDisabledDown, Squeezed, TrimBack, Lines;
    var rs := Records(row);
    var bulk, each := After(row, Purge), DeleteEach(row, AutoDisabledDown(rs));
    SurvivingMembers(rs);
    PurgeReadBack(row);
    KeyEnds(row.key);
    RecordKeys(row);
    SurvivingBlank(rs);
    if AutoDisabledDown(rs) == [] {
      DeleteEachNone(row);
    } else if rs[0].key == "" {
      OnlyKeyRefused(row);
      assert rs[0] in rs;
    } else {
      TrimBackIs(rs, |rs|);
      assert rs[..|rs|] == rs;
      EachReadBack(row);
      if AllBlank(KeysOf(Surviving(rs))) {
        assert Records(each)[0].status == AUTO_DISABLED;
      }
    }
  }

  lemma {:induction false} SurvivingAll(rs: seq<Record>)
    requires forall i :: 0 <= i < |rs| ==> rs[i].status != AUTO_DISABLED
    ensures Surviving(rs) == rs
  {
    if rs != [] {
      SurvivingAll(rs[..|rs| - 1]);
      assert rs == rs[..|rs| - 1] + [rs[|rs| - 1]];
    }
  }

  /** When the first and the last survivor are not blank, both leave exactly the
      survivors. */
  lemma BothLeaveSurvivors(row: Row)
    requires Counted(row) && Surviving(Records(row)) != [] && CleanEnds(KeysOf(Surviving(Records(row))))
    ensures Records(After(row, Purge)) == Records(DeleteEach(row, AutoDisabledDown(Records(row))))
                                       == Surviving(Records(row))
  {
    hide Records, Surviving, DeleteEach, AutoDisabledDown, Lines, DisabledDeleted, After;
    AfterPurge(row);
    var rs, s := Records(row), Surviving(Records(row));
    PurgeIsRepeatedDeletionExactly(row);
    SurvivingBlank(rs);
    SurvivingMembers(rs);
    SurvivingKeys(row);
    RecordKeys(row);
    if |s| < |rs| {
      PurgeExactly(row);
    } else {
      SurvivingAll(rs);
    }
  }

  lemma RecordKeys(row: Row)
    ensures |Records(row)| == |GetKeys(row.key)|
    ensures forall i :: 0 <= i < |Records(row)| ==> Records(row)[i].key == GetKeys(row.key)[i]
  {
  }

  lemma SurvivingBlank(rs: seq<Record>)
    ensures AllBlank(KeysOf(Surviving(rs))) <==> !exists r :: r in rs && r.status != AUTO_DISABLED && r.key != ""
  {
    SurvivingMembers(rs);
    var s := Surviving(rs);
    assert forall k :: 0 <= k < |s| ==> KeysOf(s)[k] == s[k].key && s[k] in s;
  }

  lemma OnlyKeyRefused(row: Row)
    requires Counted(row) && |Records(row)| == 1
    ensures DeleteEach(row, AutoDisabledDown(Records(row))) == row
  {
    hide Records, After;
    var rs := Records(row);
    DeleteReadBack(row, 0);
    assert rs == [] + [rs[0]];
    SurvivingSnoc([], rs[0]);
  }

  lemma DropAt(rs: seq<Record>)
    requires |rs| == 3 && rs[0].status == rs[2].status == AUTO_DISABLED && rs[1].status != AUTO_DISABLED
    ensures Surviving(rs) == [rs[1]]
  {
    assert rs == [rs[0]] + ([rs[1]] + ([rs[2]] + []));
    SurvivingCons(rs[0], [rs[1]] + ([rs[2]] + []));
    SurvivingCons(rs[1], [rs[2]] + []);
    SurvivingCons(rs[2], []);
  }

  /** For example: of the keys a, blank and b the outer two are disabled
      automatically.  Deleting them at once leaves all three, because the text of
      the one survivor is empty and an empty text is not written; deleting them one
      at a time leaves the first. */
  lemma PurgeWithBlankSurvivor(time: map<int, int>, reason: map<int, string>)
    ensures var row := Row("a\n\nb", Info(3, map[0 := AUTO_DISABLED, 2 := AUTO_DISABLED], time, reason));
            && Counted(row) && KeysOf(Records(row)) == ["a", "", "b"]
            && |Records(After(row, Purge))| == 3
            && Records(DeleteEach(row, AutoDisabledDown(Records(row)))) == [Records(row)[0]]
  {
    hide Lines, Kept, Surviving, AutoDisabledDown, DeleteEach, TrimBack, Squeezed, After;
    var row := Row("a\n\nb", Info(3, map[0 := AUTO_DISABLED, 2 := AUTO_DISABLED], time, reason));
    ExampleKeys();
    var rs := Records(row);
    DropAt(rs);
    assert KeysOf(Surviving(rs)) == [""];
    SurvivingKeys(row);
    TrimBackIs(rs, 3);
    assert rs[..3] == rs;
    EachReadBack(row);
    AfterPurge(row);
  }
}
