/**
 What one detection or application of upstream changes keeps, and when a second
 detection finds nothing left to do.
 */
module UpstreamTheorems {
  import opened Text
  import opened ModelNames
  import opened UpstreamSync
  import opened Wrappers

  // ---------------------------------------------------------- the staging invariant

  /** Staged additions are not models yet, staged removals are, no name is staged
      both ways, and the lists are in normal form. */
  ghost predicate Staged(row: Row) {
    var s := row.settings;
    && Normal(s.detected) && Normal(s.removed) && Normal(s.ignored)
    && (forall x :: x in s.detected ==> x !in Local(row))
    && (forall x :: x in s.removed ==> x in Local(row))
    && (forall x :: x in s.detected ==> x !in s.removed)
  }

  lemma AdoptedKeepsLocal(row: Row, c: Check, x: string)
    requires c.fetched.Some? && Adopts(row, c) && x in Local(row)
    ensures x in Normalize(GetModels(Join(',', Merged(Local(row), Found(row, c)))))
  {
    LocalShape(row);
    AdoptedModels(row, c);
    var k :| 0 <= k < |Local(row)| && Local(row)[k] == x;
    StoredKeeps(Local(row) + Found(row, c), x);
  }

  /** A check keeps the invariant whatever the upstream lists, even names with
      commas, and with or without adopting. */
  lemma CheckKeepsStaging(row: Row, c: Check)
    requires Staged(row)
    ensures Staged(Checked(row, c))
  {
    if !TooSoon(row.settings, c) && c.fetched.Some? {
      PendingAddExact(GetModels(row.models), c.fetched.value, row.settings.ignored, c.mapping, c.re);
      PendingRemoveExact(GetModels(row.models), c.fetched.value, c.mapping);
      if Adopts(row, c) {
        forall x | x in Local(row) ensures x in Local(Checked(row, c)) {
          AdoptedKeepsLocal(row, c, x);
        }
      }
    }
  }

  // ---------------------------------------------------------- one check

  /** An unforced check within the interval of the last one changes nothing; any other
      is made and writes down its time. */
  lemma CheckInterval(row: Row, c: Check)
    ensures !c.force && row.settings.lastCheckTime > 0 && c.now < row.settings.lastCheckTime + c.minInterval ==>
              Checked(row, c) == row
    ensures c.force || row.settings.lastCheckTime <= 0 || c.now >= row.settings.lastCheckTime + c.minInterval ==>
              Checked(row, c).settings.lastCheckTime == c.now
              && (c.fetched.Some? ==> Checked(row, c) == Checked(row, c.(force := true)))
  {
    hide PendingAdd, PendingRemove, Merged, Local, Join;
  }

  /** No check touches the ignore list or the auto-sync setting; one whose fetch fails
      changes at most the time; and one that does not adopt leaves the models' text. */
  lemma CheckFrame(row: Row, c: Check)
    ensures var next := Checked(row, c);
            && next.settings.ignored == row.settings.ignored && next.settings.autoSync == row.settings.autoSync
            && (c.fetched.None? ==>
                  && next.models == row.models && next.settings.detected == row.settings.detected
                  && next.settings.removed == row.settings.removed)
            && (c.fetched.Some? && !(c.allowAuto && row.settings.autoSync) ==> next.models == row.models)
  {
    hide PendingAdd, PendingRemove, Merged, Local, Join;
  }

  /** What a check stages: unless names are adopted, the upstream names that are no
      models, to which no model is redirected, and which no ignore entry names or
      matches; and the models, other than those redirected, that upstream lacks. */
  lemma CheckStagesExact(row: Row, c: Check, x: string)
    requires c.force && c.fetched.Some?
    ensures var next := Checked(row, c).settings;
            && (c.allowAuto && row.settings.autoSync ==> next.detected == [])
            && (!c.allowAuto || !row.settings.autoSync ==>
                  (x in next.detected <==>
                     && x in Normalize(c.fetched.value) && x !in Local(row)
                     && (forall k :: k in c.mapping ==> c.mapping[k] != x)
                     && forall e :: e in Normalize(row.settings.ignored) ==>
                          if |e| >= 6 && e[..6] == "regex:" then !c.re(TrimSpace(e[6..]), x) else e != x))
            && (x in next.removed <==> x in Local(row) && x !in c.mapping && x !in Normalize(c.fetched.value))
  {
    hide PendingAdd, PendingRemove, Merged, Normalize, TrimSpace, Join;
    PendingAddListed(GetModels(row.models), c.fetched.value, row.settings.ignored, c.mapping, c.re);
    PendingRemoveExact(GetModels(row.models), c.fetched.value, c.mapping);
  }

  /** What a check answers: a failed write whenever there is one; otherwise the number
      of models a channel has gained by adopting comma-free names, as a failure when the
      abilities cannot be rebuilt; and nothing gained, models as they were, when nothing
      is adopted. */
  lemma CheckAnswerExact(row: Row, c: Check, io: Io)
    requires c.force && c.fetched.Some?
    ensures var before, after := Local(row), Local(Checked(row, c));
            var adopts := c.allowAuto && row.settings.autoSync && Found(row, c) != [];
            match CheckAnswer(row, c, io)
            case WriteFailed => io.WriteFails?
            case CheckDone(false, count) => !io.WriteFails? && !adopts && count == 0 && after == before
            case CheckDone(true, count) =>
              && io.AllWell? && adopts
              && (SepFree(',', Found(row, c)) ==> count > 0 && |after| == |before| + count)
            case AbilitiesFailed(count) =>
              && io.AbilitiesFail? && adopts
              && (SepFree(',', Found(row, c)) ==> count > 0 && |after| == |before| + count)
            case _ => false
  {
    hide PendingAdd, PendingRemove, Normalize, Lines, Join;
    if Adopts(row, c) && SepFree(',', Found(row, c)) {
      LocalShape(row);
      AdoptedModels(row, c);
      StoredModels(Local(row) + Found(row, c));
    }
  }

  // ---------------------------------------------------------- one application

  /** The selections: names the user picked, in the order given, as far as they were
      staged; what is staged to be added is not removed; the rest stays in its order. */
  lemma SelectionsExact(s: Settings, sel: Selection)
    ensures forall x :: x in SelectedAdd(s, sel) <==> x in Normalize(sel.add) && x in Normalize(s.detected)
    ensures forall x :: x in SelectedIgnore(s, sel) <==> x in Normalize(sel.ignore) && x in Normalize(s.detected)
    ensures forall x :: x in SelectedRemove(s, sel) <==>
              && x in Normalize(sel.remove) && x in Normalize(s.removed)
              && !(x in Normalize(sel.add) && x in Normalize(s.detected))
    ensures forall x :: x in RemainingAdd(s, sel) <==>
              x in Normalize(s.detected) && x !in Normalize(sel.add) && x !in Normalize(sel.ignore)
    ensures forall x :: x in RemainingRemove(s, sel) <==>
              x in Normalize(s.removed) && !(x in Normalize(sel.remove)
                                             && !(x in Normalize(sel.add) && x in Normalize(s.detected)))
    ensures forall x :: x in NextIgnored(s, sel) <==>
              && (x in Normalize(s.ignored) || (x in Normalize(sel.ignore) && x in Normalize(s.detected)))
              && !(x in Normalize(sel.add) && x in Normalize(s.detected))
  {
    hide SelectedIgnore, SelectedRemove, RemainingRemove, NextIgnored, Normalize, FirstNamed, Intersect, Subtract;
    SelectedFacts(s, sel);
  }

  /** The selected names stand in the order in which they were selected; what stays
      staged, and what is ignored, in the order it had, newly ignored names last. */
  lemma SelectionsOrder(s: Settings, sel: Selection, i: nat, j: nat)
    requires i < j
    ensures j < |SelectedAdd(s, sel)| ==> InOrder(sel.add, SelectedAdd(s, sel), i, j)
    ensures j < |SelectedIgnore(s, sel)| ==> InOrder(sel.ignore, SelectedIgnore(s, sel), i, j)
    ensures j < |SelectedRemove(s, sel)| ==> InOrder(sel.remove, SelectedRemove(s, sel), i, j)
    ensures j < |RemainingAdd(s, sel)| ==> InOrder(s.detected, RemainingAdd(s, sel), i, j)
    ensures j < |RemainingRemove(s, sel)| ==> InOrder(s.removed, RemainingRemove(s, sel), i, j)
    ensures j < |NextIgnored(s, sel)| ==> InOrder(s.ignored + SelectedIgnore(s, sel), NextIgnored(s, sel), i, j)
  {
    hide Normalize, FirstNamed, Intersect, Subtract, Merged;
    SelectionFacts(s, sel);
    NormalizeShape(s.detected);
    NormalizeShape(s.removed);
    SelectionOrder(sel.add, Normalize(s.detected), i, j);
    SelectionOrder(sel.ignore, Normalize(s.detected), i, j);
    var picked := Intersect(sel.remove, Normalize(s.removed));
    if j < |SelectedRemove(s, sel)| {
      IntersectMembers(sel.remove, Normalize(s.removed));
      var a, b := SubtractPositions(picked, SelectedAdd(s, sel), i, j);
      SelectionOrder(sel.remove, Normalize(s.removed), a, b);
    }
    if j < |RemainingAdd(s, sel)| {
      var a, b := SubtractPositions(Normalize(s.detected), SelectedAdd(s, sel) + SelectedIgnore(s, sel), i, j);
      NormalizeOrder(s.detected, a, b);
    }
    if j < |RemainingRemove(s, sel)| {
      var a, b := SubtractPositions(Normalize(s.removed), SelectedRemove(s, sel), i, j);
      NormalizeOrder(s.removed, a, b);
    }
    if j < |NextIgnored(s, sel)| {
      IgnoredOrder(s, sel, i, j);
    }
  }

  predicate InOrder(base: seq<string>, names: seq<string>, i: nat, j: nat)
    requires i < |names| && j < |names|
  {
    FirstNamed(base, names[i]) < FirstNamed(base, names[j])
  }

  lemma SubtractPositions(base: seq<string>, removed: seq<string>, i: nat, j: nat) returns (a: nat, b: nat)
    requires Normal(base) && i < j < |Subtract(base, removed)|
    ensures a < b < |base| && base[a] == Subtract(base, removed)[i] && base[b] == Subtract(base, removed)[j]
  {
    NormalizeFixed(base);
    a, b := KeepPositions(base, x => x !in Normalize(removed), i, j);
  }

  lemma IgnoredOrder(s: Settings, sel: Selection, i: nat, j: nat)
    requires i < j < |NextIgnored(s, sel)|
    ensures InOrder(s.ignored + SelectedIgnore(s, sel), NextIgnored(s, sel), i, j)
  {
    hide Normalize, FirstNamed, Subtract, Merged;
    var ignored := SelectedIgnore(s, sel);
    MergedIsConcatenation(s.ignored, ignored);
    MergedMembers(s.ignored, ignored);
    if SelectedAdd(s, sel) != [] {
      var a, b := SubtractPositions(Merged(s.ignored, ignored), SelectedAdd(s, sel), i, j);
      NormalizeOrder(s.ignored + ignored, a, b);
    } else {
      NormalizeOrder(s.ignored + ignored, i, j);
    }
  }

  /** An application writes down its time and leaves the auto-sync setting; the models'
      text is rewritten only when the models change. */
  lemma ApplyFrame(row: Row, sel: Selection)
    ensures var next := Applied(row, sel);
            && next.settings.lastCheckTime == sel.now && next.settings.autoSync == row.settings.autoSync
            && (NextModels(row, sel) == Local(row) ==> next.models == row.models)
  {
    hide RemainingAdd, RemainingRemove, NextIgnored, NextModels, Local, Join;
  }

  lemma SelectedFacts(s: Settings, sel: Selection)
    ensures Normal(SelectedAdd(s, sel)) && Normal(SelectedIgnore(s, sel)) && Normal(SelectedRemove(s, sel))
    ensures Normal(RemainingAdd(s, sel)) && Normal(RemainingRemove(s, sel)) && Normal(NextIgnored(s, sel))
    ensures forall x :: x in SelectedAdd(s, sel) <==> x in Normalize(sel.add) && x in Normalize(s.detected)
    ensures forall x :: x in SelectedIgnore(s, sel) <==> x in Normalize(sel.ignore) && x in Normalize(s.detected)
    ensures forall x :: x in SelectedRemove(s, sel) <==>
              x in Normalize(sel.remove) && x in Normalize(s.removed) && x !in SelectedAdd(s, sel)
    ensures forall x :: x in RemainingAdd(s, sel) <==>
              x in Normalize(s.detected) && x !in SelectedAdd(s, sel) && x !in SelectedIgnore(s, sel)
    ensures forall x :: x in RemainingRemove(s, sel) <==> x in Normalize(s.removed) && x !in SelectedRemove(s, sel)
    ensures forall x :: x in NextIgnored(s, sel) <==>
              (x in Normalize(s.ignored) || x in SelectedIgnore(s, sel)) && x !in SelectedAdd(s, sel)
  {
    SelectionFacts(s, sel);
    var add, ign := SelectedAdd(s, sel), SelectedIgnore(s, sel);
    NormalizeShape(s.detected);
    NormalizeFixed(Normalize(s.detected));
    NormalizeShape(add + ign);
    SubtractMembers(Normalize(s.detected), add + ign);
    MergedIsConcatenation(add, ign);
    MergedMembers(add, ign);
    NormalizeFixed(add);
    NormalizeFixed(ign);
    NextIgnoredFacts(s, sel);
  }

  lemma SelectionFacts(s: Settings, sel: Selection)
    ensures Normal(SelectedAdd(s, sel)) && Normal(SelectedIgnore(s, sel)) && Normal(SelectedRemove(s, sel))
    ensures forall x :: x in SelectedAdd(s, sel) <==> x in Normalize(sel.add) && x in Normalize(s.detected)
    ensures forall x :: x in SelectedIgnore(s, sel) <==> x in Normalize(sel.ignore) && x in Normalize(s.detected)
    ensures forall x :: x in SelectedRemove(s, sel) <==>
              x in Normalize(sel.remove) && x in Normalize(s.removed) && x !in SelectedAdd(s, sel)
    ensures Normal(RemainingRemove(s, sel))
    ensures forall x :: x in RemainingRemove(s, sel) <==> x in Normalize(s.removed) && x !in SelectedRemove(s, sel)
  {
    NormalizeShape(s.detected);
    NormalizeShape(s.removed);
    NormalizeFixed(Normalize(s.detected));
    NormalizeFixed(Normalize(s.removed));
    IntersectMembers(sel.add, Normalize(s.detected));
    IntersectMembers(sel.ignore, Normalize(s.detected));
    IntersectMembers(sel.remove, Normalize(s.removed));
    var picked := Intersect(sel.remove, Normalize(s.removed));
    NormalizeFixed(picked);
    NormalizeFixed(SelectedAdd(s, sel));
    SubtractMembers(picked, SelectedAdd(s, sel));
    NormalizeFixed(SelectedRemove(s, sel));
    SubtractMembers(Normalize(s.removed), SelectedRemove(s, sel));
  }

  lemma NextIgnoredFacts(s: Settings, sel: Selection)
    ensures Normal(NextIgnored(s, sel))
    ensures forall x :: x in NextIgnored(s, sel) <==>
              (x in Normalize(s.ignored) || x in SelectedIgnore(s, sel)) && x !in SelectedAdd(s, sel)
  {
    SelectionFacts(s, sel);
    NormalizeFixed(SelectedAdd(s, sel));
    NormalizeFixed(SelectedIgnore(s, sel));
    MergedMembers(s.ignored, SelectedIgnore(s, sel));
    var merged := Merged(s.ignored, SelectedIgnore(s, sel));
    NormalizeFixed(merged);
    SubtractMembers(merged, SelectedAdd(s, sel));
  }

  /** The models after an application are the stored form of the selected
      change, whether or not the text was rewritten. */
  lemma AppliedLocal(row: Row, sel: Selection)
    ensures Local(Applied(row, sel)) == Normalize(GetModels(Join(',', NextModels(row, sel))))
    ensures Normal(NextModels(row, sel))
    ensures forall x :: x in NextModels(row, sel) <==>
              x in SelectedAdd(row.settings, sel)
              || (x in Local(row) && x !in SelectedRemove(row.settings, sel))
  {
    var next := NextModels(row, sel);
    LocalShape(row);
    SelectionFacts(row.settings, sel);
    NormalizeFixed(Local(row));
    NormalizeFixed(SelectedAdd(row.settings, sel));
    NormalizeFixed(SelectedRemove(row.settings, sel));
    ApplySelectedMembers(Local(row), SelectedAdd(row.settings, sel), SelectedRemove(row.settings, sel));
    if next == Local(row) {
      StoredModels(next);
    }
  }

  lemma LocalPiece(row: Row, n: string, p: string)
    requires n in Local(row) && p in Split(',', n)
    ensures TrimSpace(p) == n
  {
    LocalShape(row);
    SplitOfMember(Local(row), n);
    assert Clean(n);
  }

  lemma OnlyAddedOrKept(row: Row, sel: Selection, x: string)
    requires PieceOf(NextModels(row, sel), x)
    ensures PieceOf(SelectedAdd(row.settings, sel), x) || (x in Local(row) && x !in SelectedRemove(row.settings, sel))
  {
    AppliedLocal(row, sel);
    var n, p :| n in NextModels(row, sel) && p in Split(',', n) && TrimSpace(p) == x;
    if n !in SelectedAdd(row.settings, sel) {
      LocalPiece(row, n, p);
    }
  }

  lemma AddedPieces(row: Row, sel: Selection, x: string)
    requires PieceOf(SelectedAdd(row.settings, sel), x)
    ensures PieceOf(NextModels(row, sel), x)
  {
    AppliedLocal(row, sel);
    var n, p :| n in SelectedAdd(row.settings, sel) && p in Split(',', n) && TrimSpace(p) == x;
  }

  lemma KeptPieces(row: Row, sel: Selection, x: string)
    requires x in Local(row) && x !in SelectedRemove(row.settings, sel)
    ensures x != "" && PieceOf(NextModels(row, sel), x)
  {
    AppliedLocal(row, sel);
    LocalShape(row);
    SplitOfMember(Local(row), x);
    assert Clean(x) && x in Split(',', x);
  }

  /** Which models a channel has after an application: the pieces of the added
      names and the old models that were not removed. */
  lemma AppliedModels(row: Row, sel: Selection, x: string)
    ensures x in Local(Applied(row, sel)) <==>
              || (x != "" && PieceOf(SelectedAdd(row.settings, sel), x))
              || (x in Local(row) && x !in SelectedRemove(row.settings, sel))
  {
    var next, add := NextModels(row, sel), SelectedAdd(row.settings, sel);
    assert x in Local(Applied(row, sel)) <==> x != "" && PieceOf(next, x) by {
      AppliedLocal(row, sel);
      StoredModels(next);
    }
    if PieceOf(next, x) {
      OnlyAddedOrKept(row, sel, x);
    }
    if PieceOf(add, x) {
      AddedPieces(row, sel, x);
    }
    if x in Local(row) && x !in SelectedRemove(row.settings, sel) {
      KeptPieces(row, sel, x);
    }
  }

  lemma RemainingModels(row: Row, sel: Selection, x: string)
    requires Staged(row)
    ensures x in RemainingAdd(row.settings, sel) ==>
              (x in Local(Applied(row, sel)) <==> PieceOf(SelectedAdd(row.settings, sel), x))
    ensures x in RemainingRemove(row.settings, sel) ==> x in Local(Applied(row, sel))
  {
    hide Local, Applied, PieceOf, SelectedAdd, SelectedRemove, SelectedIgnore, RemainingAdd, RemainingRemove,
         NextIgnored, Normalize;
    var s := row.settings;
    SelectedFacts(s, sel);
    NormalizeFixed(s.detected);
    NormalizeFixed(s.removed);
    AppliedModels(row, sel, x);
    assert x in s.detected ==> Clean(x);
  }

  /** An application keeps the invariant exactly when no comma-separated piece
      of an added name is itself still staged.  Names without commas are their
      own only piece, so for those it always does. */
  lemma {:induction false} ApplyKeepsStagingExactly(row: Row, sel: Selection)
    requires Staged(row)
    ensures Staged(Applied(row, sel)) <==>
              forall x :: x in RemainingAdd(row.settings, sel) ==> !PieceOf(SelectedAdd(row.settings, sel), x)
    ensures SepFree(',', SelectedAdd(row.settings, sel)) ==> Staged(Applied(row, sel))
  {
    hide Local, PieceOf, SelectedAdd, SelectedRemove, SelectedIgnore, RemainingAdd, RemainingRemove, NextIgnored,
         Normalize, NextModels, Join;
    var s := row.settings;
    SelectedFacts(s, sel);
    NormalizeFixed(s.detected);
    NormalizeFixed(s.removed);
    forall x
      ensures x in RemainingAdd(s, sel) ==> (x in Local(Applied(row, sel)) <==> PieceOf(SelectedAdd(s, sel), x))
      ensures x in RemainingRemove(s, sel) ==> x in Local(Applied(row, sel))
    {
      RemainingModels(row, sel, x);
    }
    if SepFree(',', SelectedAdd(s, sel)) {
      forall x | x in RemainingAdd(s, sel) ensures !PieceOf(SelectedAdd(s, sel), x) {
        PieceOfSepFree(SelectedAdd(s, sel), x);
      }
    }
  }

  lemma PlainName(x: string)
    requires x != "" && !IsSpace(x[0]) && !IsSpace(x[|x| - 1])
    ensures Clean(x)
  {
    TrimFixed(IsSpace, x);
  }

  lemma SplitPair()
    ensures Split(',', "a,b") == ["a", "b"]
  {
    assert "a,b" == "a" + [','] + "b";
    SplitWhole(',', "a");
    SplitWhole(',', "b");
    SplitAppend(',', "a", "b");
  }

  /** For example: with "a,b" and "a" staged, adding only "a,b" makes "a" a model
      that is still staged. */
  lemma AddedPieceStaysStaged(now: int)
    ensures var row := Row("", Settings(false, 0, ["a,b", "a"], [], []));
            var next := Applied(row, Selection(["a,b"], [], [], now));
            Staged(row) && "a" in next.settings.detected && "a" in Local(next) && !Staged(next)
  {
    hide Normalize, Local, SelectedAdd, RemainingAdd, Split, Lines;
    var names := ["a,b", "a"];
    var row := Row("", Settings(false, 0, names, [], []));
    var sel := Selection(["a,b"], [], [], now);
    PlainName("a,b");
    PlainName("a");
    assert names[0] == "a,b" && names[1] == "a" && ["a,b"][0] == "a,b";
    NormalizeFixed(names);
    NormalizeFixed(["a,b"]);
    NothingLocal();
    SelectedFacts(row.settings, sel);
    SplitPair();
    assert ["a", "b"][0] == "a" && "a" in Split(',', "a,b");
    assert PieceOf(SelectedAdd(row.settings, sel), "a");
    AppliedModels(row, sel, "a");
  }

  lemma NothingLocal()
    ensures GetModels("") == [] && Normalize([]) == [] && forall s :: Local(Row("", s)) == []
  {
  }

  /** For comma-free additions the new model list is literally the selected
      change, in its order. */
  lemma AppliedOrder(row: Row, sel: Selection)
    requires SepFree(',', SelectedAdd(row.settings, sel))
    ensures Local(Applied(row, sel)) == NextModels(row, sel)
  {
    var next := NextModels(row, sel);
    AppliedLocal(row, sel);
    LocalShape(row);
    forall k | 0 <= k < |next| ensures ',' !in next[k] {
      assert next[k] in next;
    }
    StoredModels(next);
  }

  // ---------------------------------------------------------------- conservation

  lemma {:induction false} DistinctMultiset(xs: seq<string>, x: string)
    requires Distinct(xs)
    ensures multiset(xs)[x] == if x in xs then 1 else 0
  {
    if xs != [] {
      var n := |xs| - 1;
      DistinctMultiset(xs[..n], x);
      assert xs == xs[..n] + [xs[n]];
    }
  }

  /** Three duplicate-free lists that share out the names of a fourth. */
  lemma SharedOut(whole: seq<string>, a: seq<string>, b: seq<string>, c: seq<string>)
    requires Distinct(whole) && Distinct(a) && Distinct(b) && Distinct(c)
    requires forall x :: x in whole <==> x in a || x in b || x in c
    requires forall x :: !(x in a && x in b) && !(x in a && x in c) && !(x in b && x in c)
    ensures multiset(whole) == multiset(a) + multiset(b) + multiset(c)
  {
    forall x: string ensures multiset(whole)[x] == multiset(a)[x] + multiset(b)[x] + multiset(c)[x] {
      DistinctMultiset(whole, x);
      DistinctMultiset(a, x);
      DistinctMultiset(b, x);
      DistinctMultiset(c, x);
    }
  }

  /** Every staged change goes exactly one way: an addition is added, ignored
      without being added, or still staged; a removal is removed or still staged. */
  lemma ApplyConserves(s: Settings, sel: Selection)
    ensures multiset(Normalize(s.detected))
         == multiset(SelectedAdd(s, sel))
            + multiset(Without(SelectedIgnore(s, sel), SelectedAdd(s, sel)))
            + multiset(RemainingAdd(s, sel))
    ensures multiset(Normalize(s.removed))
         == multiset(SelectedRemove(s, sel)) + multiset(RemainingRemove(s, sel))
  {
    var add, ign := SelectedAdd(s, sel), SelectedIgnore(s, sel);
    SelectedFacts(s, sel);
    NormalizeShape(s.detected);
    NormalizeShape(s.removed);
    KeepMembers(ign, x => x !in add);
    SharedOut(Normalize(s.detected), add, Without(ign, add), RemainingAdd(s, sel));
    SharedOut(Normalize(s.removed), SelectedRemove(s, sel), [], RemainingRemove(s, sel));
  }

  // ---------------------------------------------------------------- convergence

  /** Staging everything a fresh check finds, then applying all of it. */
  function Synchronised(row: Row, c: Check, applyTime: int): Row {
    var staged := Checked(row, c);
    Applied(staged, SelectAll(staged.settings, applyTime))
  }

  /** A check finds nothing to add and nothing to remove. */
  ghost predicate Settled(row: Row, c: Check)
    requires c.fetched.Some?
  {
    Found(row, c) == [] && PendingRemove(GetModels(row.models), c.fetched.value, c.mapping) == []
  }

  /** Nothing that is ignored is ignored only because of an entry that is itself
      about to be added (adding a name takes it off the ignore list). */
  ghost predicate NoSuppressionLost(row: Row, c: Check)
    requires c.fetched.Some?
  {
    forall y :: y in Normalize(c.fetched.value) && !Covered(GetModels(row.models), c.mapping, y)
                && Suppressed(c.re, row.settings.ignored, y) ==>
      exists e :: e in Normalize(row.settings.ignored) && e !in Found(row, c) && Ignores(c.re, e, y)
  }

  lemma SynchronisedRow(row: Row, c: Check, applyTime: int)
    requires c.force && c.fetched.Some? && !Adopts(row, c)
    ensures var r, gone := Synchronised(row, c, applyTime),
                           PendingRemove(GetModels(row.models), c.fetched.value, c.mapping);
            && (forall x :: x in Normalize(r.settings.ignored) <==>
                  x in Normalize(row.settings.ignored) && x !in Found(row, c))
            && (forall x :: x in Local(r) <==>
                  (x != "" && PieceOf(Found(row, c), x)) || (x in Local(row) && x !in gone))
            && r.settings.detected == [] && r.settings.removed == []
  {
    var staged := Checked(row, c);
    var sel := SelectAll(staged.settings, applyTime);
    var add, gone := Found(row, c), PendingRemove(GetModels(row.models), c.fetched.value, c.mapping);
    PendingAddExact(GetModels(row.models), c.fetched.value, row.settings.ignored, c.mapping, c.re);
    PendingRemoveExact(GetModels(row.models), c.fetched.value, c.mapping);
    NormalizeFixed(add);
    NormalizeFixed(gone);
    assert sel.add == add && sel.remove == gone;
    SelectedFacts(staged.settings, sel);
    NormalizeShape([]);
    assert forall x :: x in SelectedAdd(staged.settings, sel) <==> x in add;
    assert forall x :: x in SelectedRemove(staged.settings, sel) <==> x in gone;
    forall x
      ensures PieceOf(SelectedAdd(staged.settings, sel), x) <==> PieceOf(add, x)
      ensures x in Local(Synchronised(row, c, applyTime)) <==>
                (x != "" && PieceOf(add, x)) || (x in Local(row) && x !in gone)
    {
      AppliedModels(staged, sel, x);
    }
    assert forall x :: x in RemainingAdd(staged.settings, sel) ==> false;
    EmptyWithoutMembers(RemainingAdd(staged.settings, sel));
    EmptyWithoutMembers(RemainingRemove(staged.settings, sel));
    NormalizeFixed(NextIgnored(staged.settings, sel));
  }

  lemma EmptyWithoutMembers(xs: seq<string>)
    ensures (forall x :: x !in xs) ==> xs == []
  {
    if xs != [] {
      assert xs[0] in xs;
    }
  }

  lemma ModelsAndPieces(row: Row, add: seq<string>, x: string)
    ensures PieceOf(Local(row) + add, x) <==> x in Local(row) || PieceOf(add, x)
  {
    var local := Local(row);
    LocalShape(row);
    hide Local, Split, TrimSpace;
    if PieceOf(local + add, x) && !PieceOf(add, x) {
      var n, p :| n in local + add && p in Split(',', n) && TrimSpace(p) == x;
      LocalPiece(row, n, p);
    }
    if x in local {
      SplitOfMember(local, x);
      assert Clean(x) && x in Split(',', x) && x in local + add;
    }
    if PieceOf(add, x) {
      var n, p :| n in add && p in Split(',', n) && TrimSpace(p) == x;
      assert n in local + add;
    }
  }

  /** The models after a check adopts what it finds. */
  lemma AdoptedLocal(row: Row, c: Check, x: string)
    requires c.force && c.fetched.Some? && Adopts(row, c)
    ensures x in Local(Checked(row, c)) <==> x in Local(row) || (x != "" && PieceOf(Found(row, c), x))
  {
    hide PieceOf, Normalize, PendingAdd, PendingRemove, Lines, Join, Merged;
    LocalShape(row);
    AdoptedModels(row, c);
    StoredModels(Local(row) + Found(row, c));
    ModelsAndPieces(row, Found(row, c), x);
    assert x in Local(row) ==> Clean(x);
  }

  lemma AdoptedRow(row: Row, c: Check, applyTime: int)
    requires c.force && c.fetched.Some? && Adopts(row, c)
    ensures var r, gone := Synchronised(row, c, applyTime),
                           PendingRemove(GetModels(row.models), c.fetched.value, c.mapping);
            && (forall x :: x in Normalize(r.settings.ignored) <==> x in Normalize(row.settings.ignored))
            && (forall x :: x in Local(r) <==>
                  (x in Local(row) || (x != "" && PieceOf(Found(row, c), x))) && x !in gone)
  {
    hide Local, PendingAdd, PendingRemove, PieceOf, Normalize, SelectedRemove, SelectedAdd, NextModels, NextIgnored;
    var staged := Checked(row, c);
    var sel := SelectAll(staged.settings, applyTime);
    var gone := PendingRemove(GetModels(row.models), c.fetched.value, c.mapping);
    PendingRemoveExact(GetModels(row.models), c.fetched.value, c.mapping);
    NormalizeFixed(gone);
    NothingLocal();
    SelectedFacts(staged.settings, sel);
    NothingSelected(staged.settings, sel);
    NormalizeFixed(NextIgnored(staged.settings, sel));
    forall x
      ensures x in Local(Synchronised(row, c, applyTime)) <==>
                (x in Local(row) || (x != "" && PieceOf(Found(row, c), x))) && x !in gone
    {
      AppliedModels(staged, sel, x);
      AdoptedLocal(row, c, x);
    }
  }

  lemma NothingSelected(s: Settings, sel: Selection)
    requires forall x :: x !in SelectedAdd(s, sel)
    ensures forall x :: !PieceOf(SelectedAdd(s, sel), x)
  {
  }

  lemma ConvergesWhenSafe(row: Row, c: Check, applyTime: int)
    requires c.force && c.fetched.Some? && !Adopts(row, c)
    requires SepFree(',', Found(row, c)) && NoSuppressionLost(row, c)
    ensures Settled(Synchronised(row, c, applyTime), c)
  {
    var r, up, add := Synchronised(row, c, applyTime), c.fetched.value, Found(row, c);
    SynchronisedRow(row, c, applyTime);
    PendingAddExact(GetModels(row.models), up, row.settings.ignored, c.mapping, c.re);
    PendingRemoveExact(GetModels(row.models), up, c.mapping);
    PendingAddExact(GetModels(r.models), up, r.settings.ignored, c.mapping, c.re);
    PendingRemoveExact(GetModels(r.models), up, c.mapping);
    NormalizeShape(up);
    forall x ensures x !in PendingAdd(GetModels(r.models), up, r.settings.ignored, c.mapping, c.re) {
      if x in Normalize(up) {
        PieceOfSepFree(add, x);
        if x !in add && !Covered(GetModels(row.models), c.mapping, x) {
          var e :| e in Normalize(row.settings.ignored) && e !in add && Ignores(c.re, e, x);
          assert e in Normalize(r.settings.ignored);
        }
      }
    }
    forall x ensures x !in PendingRemove(GetModels(r.models), up, c.mapping) {
      PieceOfSepFree(add, x);
    }
    EmptyWithoutMembers(PendingAdd(GetModels(r.models), up, r.settings.ignored, c.mapping, c.re));
    EmptyWithoutMembers(PendingRemove(GetModels(r.models), up, c.mapping));
  }

  lemma CommaIsProposedAgain(row: Row, c: Check, applyTime: int, x: string)
    requires c.force && c.fetched.Some?
    requires x in Found(row, c) && ',' in x
    ensures x in Found(Synchronised(row, c, applyTime), c)
  {
    hide Local, PendingAdd, PendingRemove, Normalize, Synchronised, PieceOf;
    var r, up := Synchronised(row, c, applyTime), c.fetched.value;
    if Adopts(row, c) {
      AdoptedRow(row, c, applyTime);
    } else {
      SynchronisedRow(row, c, applyTime);
    }
    PendingAddExact(GetModels(row.models), up, row.settings.ignored, c.mapping, c.re);
    PendingAddExact(GetModels(r.models), up, r.settings.ignored, c.mapping, c.re);
    LocalShape(r);
    LocalAre(r);
  }

  lemma UnsuppressedIsProposedAgain(row: Row, c: Check, applyTime: int, x: string)
    requires c.force && c.fetched.Some? && !Adopts(row, c)
    requires SepFree(',', Found(row, c))
    requires x in Normalize(c.fetched.value) && !Covered(GetModels(row.models), c.mapping, x)
    requires Suppressed(c.re, row.settings.ignored, x)
    requires forall e :: e in Normalize(row.settings.ignored) && e !in Found(row, c) ==> !Ignores(c.re, e, x)
    ensures x in Found(Synchronised(row, c, applyTime), c)
  {
    var r, up := Synchronised(row, c, applyTime), c.fetched.value;
    SynchronisedRow(row, c, applyTime);
    PendingAddExact(GetModels(row.models), up, row.settings.ignored, c.mapping, c.re);
    PendingAddExact(GetModels(r.models), up, r.settings.ignored, c.mapping, c.re);
    PieceOfSepFree(Found(row, c), x);
  }

  lemma UnsafeIsProposedAgain(row: Row, c: Check, applyTime: int)
    requires c.force && c.fetched.Some? && !Adopts(row, c)
    requires !SepFree(',', Found(row, c)) || !NoSuppressionLost(row, c)
    ensures Found(Synchronised(row, c, applyTime), c) != []
  {
    var add := Found(row, c);
    PendingAddExact(GetModels(row.models), c.fetched.value, row.settings.ignored, c.mapping, c.re);
    if !SepFree(',', add) {
      var k :| 0 <= k < |add| && ',' in add[k];
      CommaIsProposedAgain(row, c, applyTime, add[k]);
    } else {
      var x :| x in Normalize(c.fetched.value) && !Covered(GetModels(row.models), c.mapping, x)
           && Suppressed(c.re, row.settings.ignored, x)
           && !exists e :: e in Normalize(row.settings.ignored) && e !in add && Ignores(c.re, e, x);
      UnsuppressedIsProposedAgain(row, c, applyTime, x);
    }
  }

  lemma LocalAre(row: Row)
    ensures Local(row) == Normalize(GetModels(row.models))
  {
  }

  /** A check that adopts does not touch the ignore list. */
  lemma AdoptingConverges(row: Row, c: Check, applyTime: int)
    requires c.force && c.fetched.Some? && Adopts(row, c)
    ensures Settled(Synchronised(row, c, applyTime), c) <==> SepFree(',', Found(row, c))
  {
    hide Local, PendingAdd, PendingRemove, Normalize, Synchronised;
    var r, up, add := Synchronised(row, c, applyTime), c.fetched.value, Found(row, c);
    AdoptedRow(row, c, applyTime);
    PendingAddExact(GetModels(row.models), up, row.settings.ignored, c.mapping, c.re);
    PendingRemoveExact(GetModels(row.models), up, c.mapping);
    PendingAddExact(GetModels(r.models), up, r.settings.ignored, c.mapping, c.re);
    PendingRemoveExact(GetModels(r.models), up, c.mapping);
    LocalAre(row);
    LocalAre(r);
    if SepFree(',', add) {
      forall x ensures PieceOf(add, x) <==> x in add {
        PieceOfSepFree(add, x);
      }
      EmptyWithoutMembers(PendingAdd(GetModels(r.models), up, r.settings.ignored, c.mapping, c.re));
      EmptyWithoutMembers(PendingRemove(GetModels(r.models), up, c.mapping));
    } else {
      var k :| 0 <= k < |add| && ',' in add[k];
      LocalShape(r);
      assert add[k] in add && add[k] in Found(r, c);
    }
  }

  /** One-step convergence, exactly: after everything found is adopted, or staged and
      applied, a second detection on the same upstream list, ignore list and mapping
      finds nothing if and only if no found name contains the separator and, unless
      the check adopts, no suppression is lost with an ignore entry that is itself one
      of the found names. */
  lemma {:induction false} ConvergesExactly(row: Row, c: Check, applyTime: int)
    requires c.force && c.fetched.Some?
    ensures Settled(Synchronised(row, c, applyTime), c)
       <==> SepFree(',', Found(row, c)) && (Adopts(row, c) || NoSuppressionLost(row, c))
  {
    hide Settled, Synchronised, Adopts, NoSuppressionLost, Found;
    if Adopts(row, c) {
      AdoptingConverges(row, c, applyTime);
    } else if SepFree(',', Found(row, c)) && NoSuppressionLost(row, c) {
      ConvergesWhenSafe(row, c, applyTime);
    } else {
      UnsafeIsProposedAgain(row, c, applyTime);
      NotSettled(Synchronised(row, c, applyTime), c);
    }
  }

  lemma NotSettled(row: Row, c: Check)
    requires c.fetched.Some?
    ensures Found(row, c) != [] ==> !Settled(row, c)
  {
  }

  /** Detecting and applying everything found, n times over. */
  function Rounds(row: Row, c: Check, applyTime: int, n: nat): Row {
    if n == 0 then row else Synchronised(Rounds(row, c, applyTime, n - 1), c, applyTime)
  }

  lemma {:induction false} CommaFoundEachRound(row: Row, c: Check, applyTime: int, x: string, n: nat)
    requires c.force && c.fetched.Some?
    requires x in Found(row, c) && ',' in x
    ensures x in Found(Rounds(row, c, applyTime, n), c)
  {
    hide Synchronised, Found;
    if n > 0 {
      CommaFoundEachRound(row, c, applyTime, x, n - 1);
      CommaIsProposedAgain(Rounds(row, c, applyTime, n - 1), c, applyTime, x);
    }
  }

  lemma PlainFoundOnce(row: Row, c: Check, applyTime: int, x: string)
    requires c.force && c.fetched.Some?
    requires x in Found(row, c) && ',' !in x
    ensures x !in Found(Synchronised(row, c, applyTime), c)
  {
    hide Local, PendingAdd, PendingRemove, Normalize, Synchronised;
    var r, up := Synchronised(row, c, applyTime), c.fetched.value;
    PendingAddExact(GetModels(row.models), up, row.settings.ignored, c.mapping, c.re);
    PendingAddExact(GetModels(r.models), up, r.settings.ignored, c.mapping, c.re);
    PendingRemoveExact(GetModels(row.models), up, c.mapping);
    assert Clean(x);
    SplitWhole(',', x);
    assert x in Split(',', x) && PieceOf(Found(row, c), x);
    LocalAre(r);
    if Adopts(row, c) {
      AdoptedRow(row, c, applyTime);
    } else {
      SynchronisedRow(row, c, applyTime);
    }
  }

  /** A name that is found once is found in every round for ever if and only if it
      contains a comma. */
  lemma FoundForEverExactly(row: Row, c: Check, applyTime: int, x: string)
    requires c.force && c.fetched.Some? && x in Found(row, c)
    ensures (forall n: nat :: x in Found(Rounds(row, c, applyTime, n), c)) <==> ',' in x
  {
    hide Synchronised, Found;
    if ',' in x {
      forall n: nat ensures x in Found(Rounds(row, c, applyTime, n), c) {
        CommaFoundEachRound(row, c, applyTime, x, n);
      }
    } else {
      PlainFoundOnce(row, c, applyTime, x);
      assert Rounds(row, c, applyTime, 0) == row;
      assert x !in Found(Rounds(row, c, applyTime, 1), c);
    }
  }

  /** For example: the upstream name "a,b" on a channel with no models. */
  lemma CommaExample(re: Regex, applyTime: int, n: nat)
    ensures var row := Row("", Settings(false, 0, [], [], []));
            var c := Check(map[], re, true, false, 0, 0, Some(["a,b"]));
            "a,b" in Found(Rounds(row, c, applyTime, n), c) && !Settled(Rounds(row, c, applyTime, n), c)
  {
    hide Normalize, PendingAdd, PendingRemove, Rounds;
    var row := Row("", Settings(false, 0, [], [], []));
    var c := Check(map[], re, true, false, 0, 0, Some(["a,b"]));
    PlainName("a,b");
    NothingLocal();
    NormalizeFixed(["a,b"]);
    assert ["a,b"][0] == "a,b" && "a,b"[1] == ',';
    PendingAddExact(GetModels(""), ["a,b"], [], map[], re);
    CommaFoundEachRound(row, c, applyTime, "a,b", n);
  }

  /** Upstream names without commas and without the "regex:" prefix always
      converge. */
  lemma {:induction false} PlainNamesConverge(row: Row, c: Check, applyTime: int)
    requires c.force && c.fetched.Some?
    requires forall x :: x in Normalize(c.fetched.value) ==> ',' !in x && !("regex:" <= x)
    ensures Settled(Synchronised(row, c, applyTime), c)
  {
    PendingAddExact(GetModels(row.models), c.fetched.value, row.settings.ignored, c.mapping, c.re);
    forall k | 0 <= k < |Found(row, c)| ensures ',' !in Found(row, c)[k] {
      assert Found(row, c)[k] in Found(row, c);
    }
    forall y | y in Normalize(c.fetched.value) && !Covered(GetModels(row.models), c.mapping, y)
               && Suppressed(c.re, row.settings.ignored, y)
      ensures exists e :: e in Normalize(row.settings.ignored) && e !in Found(row, c) && Ignores(c.re, e, y)
    {
      var e :| e in Normalize(row.settings.ignored) && Ignores(c.re, e, y);
      if e in Found(row, c) {
        assert Ignores(c.re, e, e);
      }
    }
    ConvergesExactly(row, c, applyTime);
  }

  lemma PatternExample(re: Regex)
    requires re("^a$", "a") && !re("^a$", "regex:^a$")
    ensures var pattern, up := "regex:^a$", ["regex:^a$", "a"];
            && Normalize([pattern]) == [pattern] && Normalize(up) == up
            && Ignores(re, pattern, "a") && !Ignores(re, pattern, pattern)
  {
    hide Normalize, TrimSpace;
    var pattern, up := "regex:^a$", ["regex:^a$", "a"];
    PlainName(pattern);
    PlainName("a");
    PlainName("^a$");
    assert pattern[6..] == "^a$";
    assert up[0] != up[1];
    NormalizeFixed(up);
    NormalizeFixed([pattern]);
  }

  /** For example: ignoring the pattern "regex:^a$" suppresses the upstream name
      "a".  If upstream also offers a model literally called "regex:^a$", adding
      that model removes the pattern, and "a" is proposed next time. */
  lemma {:induction false} AddedPatternReveals(re: Regex, applyTime: int)
    requires re("^a$", "a") && !re("^a$", "regex:^a$")
    ensures var row := Row("", Settings(false, 0, [], [], ["regex:^a$"]));
            var c := Check(map[], re, true, false, 0, 0, Some(["regex:^a$", "a"]));
            "a" !in Found(row, c) && "a" in Found(Synchronised(row, c, applyTime), c)
  {
    hide Normalize, PendingAdd, Synchronised, Local, PieceOf, Ignores;
    var pattern, up := "regex:^a$", ["regex:^a$", "a"];
    var row := Row("", Settings(false, 0, [], [], [pattern]));
    var c := Check(map[], re, true, false, 0, 0, Some(up));
    PatternExample(re);
    NothingLocal();
    assert up[0] == pattern && up[1] == "a" && [pattern][0] == pattern;
    PendingAddExact(GetModels(""), up, [pattern], map[], re);
    var add := Found(row, c);
    assert pattern in add && "a" !in add;
    forall k | 0 <= k < |add| ensures ',' !in add[k] {
      assert add[k] in add;
      assert ',' !in pattern && ',' !in "a";
    }
    UnsuppressedIsProposedAgain(row, c, applyTime, "a");
  }
}
