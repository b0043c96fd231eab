/**
 What runs of detecting, selecting and applying upstream changes keep, with any
 upstream lists, any selections and any failing writes.
 */
module UpstreamRuns {
  import opened Text
  import opened ModelNames
  import opened UpstreamSync
  import opened UpstreamTheorems
  import opened Wrappers

  datatype Step = DoCheck(c: Check, writes: bool) | DoApply(sel: Selection, writes: bool)

  function Next(row: Row, step: Step): Row {
    match step
    case DoCheck(c, writes) => if writes then Checked(row, c) else row
    case DoApply(sel, writes) => if writes then Applied(row, sel) else row
  }

  function Run(row: Row, steps: seq<Step>): Row {
    if steps == [] then row else Next(Run(row, steps[..|steps| - 1]), steps[|steps| - 1])
  }

  lemma RunSnoc(row: Row, steps: seq<Step>, step: Step)
    ensures Run(row, steps + [step]) == Next(Run(row, steps), step)
  {
    assert (steps + [step])[..|steps|] == steps;
  }

  // ---------------------------------------------------------- the staging invariant

  /** The applications that keep the invariant: no comma-separated piece of an added
      name is itself still staged. */
  ghost predicate Separates(row: Row, step: Step) {
    step.DoApply? && step.writes ==>
      forall x :: x in RemainingAdd(row.settings, step.sel) ==> !PieceOf(SelectedAdd(row.settings, step.sel), x)
  }

  lemma StepStagedExactly(row: Row, step: Step)
    requires Staged(row)
    ensures Staged(Next(row, step)) <==> Separates(row, step)
  {
    match step {
      case DoCheck(c, writes) => CheckKeepsStaging(row, c);
      case DoApply(sel, writes) => ApplyKeepsStagingExactly(row, sel);
    }
  }

  ghost predicate StagedThroughout(row: Row, steps: seq<Step>) {
    forall n :: 0 <= n <= |steps| ==> Staged(Run(row, steps[..n]))
  }

  ghost predicate SeparatesThroughout(row: Row, steps: seq<Step>) {
    forall n :: 0 <= n < |steps| ==> Separates(Run(row, steps[..n]), steps[n])
  }

  lemma StagedSnoc(row: Row, steps: seq<Step>, step: Step)
    ensures StagedThroughout(row, steps + [step])
       <==> StagedThroughout(row, steps) && Staged(Run(row, steps + [step]))
  {
    hide Staged, Run;
    var all := steps + [step];
    assert forall n :: 0 <= n <= |steps| ==> all[..n] == steps[..n];
    assert all[..|all|] == all;
  }

  lemma SeparatesSnoc(row: Row, steps: seq<Step>, step: Step)
    ensures SeparatesThroughout(row, steps + [step])
       <==> SeparatesThroughout(row, steps) && Separates(Run(row, steps), step)
  {
    hide Separates, Run;
    var all := steps + [step];
    assert forall n :: 0 <= n <= |steps| ==> all[..n] == steps[..n];
    assert steps[..|steps|] == steps && all[|steps|] == step;
  }

  lemma StagedNow(row: Row, steps: seq<Step>)
    ensures StagedThroughout(row, steps) ==> Staged(Run(row, steps))
  {
    hide Staged, Run;
    assert steps[..|steps|] == steps;
  }

  /** The staging invariant holds throughout a run if and only if every application
      in it keeps added and remaining names apart. */
  lemma {:induction false} RunStagedExactly(row: Row, steps: seq<Step>)
    requires Staged(row)
    ensures StagedThroughout(row, steps) <==> SeparatesThroughout(row, steps)
  {
    if steps == [] {
      assert steps[..0] == [];
    } else {
      hide Staged, Separates, Next, Run, StagedThroughout, SeparatesThroughout;
      var before, last := steps[..|steps| - 1], steps[|steps| - 1];
      assert steps == before + [last];
      RunStagedExactly(row, before);
      StagedSnoc(row, before, last);
      SeparatesSnoc(row, before, last);
      RunSnoc(row, before, last);
      StagedNow(row, before);
      if Staged(Run(row, before)) {
        StepStagedExactly(Run(row, before), last);
      }
    }
  }

  ghost predicate CommaFree(step: Step) {
    step.DoCheck? && step.c.fetched.Some? ==> SepFree(',', Normalize(step.c.fetched.value))
  }

  ghost predicate Good(row: Row) {
    Staged(row) && SepFree(',', row.settings.detected)
  }

  lemma SubsetSepFree(xs: seq<string>, ys: seq<string>)
    requires SepFree(',', ys) && forall x :: x in xs ==> x in ys
    ensures SepFree(',', xs)
  {
    forall k | 0 <= k < |xs| ensures ',' !in xs[k] {
      assert xs[k] in xs;
    }
  }

  lemma StepKeepsGood(row: Row, step: Step)
    requires Good(row) && CommaFree(step)
    ensures Good(Next(row, step))
  {
    match step {
      case DoCheck(c, writes) =>
        CheckKeepsStaging(row, c);
        if c.fetched.Some? {
          PendingAddExact(GetModels(row.models), c.fetched.value, row.settings.ignored, c.mapping, c.re);
          SubsetSepFree(Found(row, c), Normalize(c.fetched.value));
        }
      case DoApply(sel, writes) =>
        SelectedFacts(row.settings, sel);
        NormalizeFixed(row.settings.detected);
        SubsetSepFree(SelectedAdd(row.settings, sel), row.settings.detected);
        SubsetSepFree(RemainingAdd(row.settings, sel), row.settings.detected);
        ApplyKeepsStagingExactly(row, sel);
    }
  }

  /** It does so in every run whose upstream names have no commas. */
  lemma {:induction false} RunKeepsGood(row: Row, steps: seq<Step>)
    requires Good(row) && forall i :: 0 <= i < |steps| ==> CommaFree(steps[i])
    ensures Good(Run(row, steps))
  {
    if steps != [] {
      RunKeepsGood(row, steps[..|steps| - 1]);
      StepKeepsGood(Run(row, steps[..|steps| - 1]), steps[|steps| - 1]);
    }
  }

  // ---------------------------------------------------------- the interval between checks

  function TimeOf(step: Step): int {
    match step
    case DoCheck(c, _) => c.now
    case DoApply(sel, _) => sel.now
  }

  /** The recorded time does not go back below t while no step is earlier than t. */
  lemma {:induction false} TimeKept(row: Row, steps: seq<Step>, t: int)
    requires row.settings.lastCheckTime >= t && forall k :: 0 <= k < |steps| ==> TimeOf(steps[k]) >= t
    ensures Run(row, steps).settings.lastCheckTime >= t
  {
    if steps != [] {
      hide Checked, Applied;
      var before, last := steps[..|steps| - 1], steps[|steps| - 1];
      TimeKept(row, before, t);
      if last.DoCheck? {
        CheckInterval(Run(row, before), last.c);
        CheckTime(Run(row, before), last.c);
      } else {
        ApplyFrame(Run(row, before), last.sel);
      }
    }
  }

  lemma CheckTime(row: Row, c: Check)
    ensures Checked(row, c).settings.lastCheckTime in {row.settings.lastCheckTime, c.now}
  {
    hide PendingAdd, PendingRemove, Merged, Local, Join;
  }

  /** In every run whose clock does not go back, whatever is checked or applied in
      between, an unforced check less than its interval after a recorded check or
      application changes nothing. */
  lemma ChecksApart(row: Row, steps: seq<Step>, c: Check, writes: bool)
    requires row.settings.lastCheckTime > 0 && !c.force
    requires forall k :: 0 <= k < |steps| ==> TimeOf(steps[k]) >= row.settings.lastCheckTime
    requires c.now < row.settings.lastCheckTime + c.minInterval
    ensures Run(row, steps + [DoCheck(c, writes)]) == Run(row, steps)
  {
    hide Checked, Applied, Run;
    TimeKept(row, steps, row.settings.lastCheckTime);
    CheckInterval(Run(row, steps), c);
    RunSnoc(row, steps, DoCheck(c, writes));
  }

  // ---------------------------------------------------------- ignoring

  /** Ignoring a staged name without adding it: ignored, not staged, and not a model
      unless it is a piece of an added name. */
  lemma IgnoringLeavesAlone(row: Row, sel: Selection, n: string)
    requires Staged(row)
    requires n in SelectedIgnore(row.settings, sel) && n !in SelectedAdd(row.settings, sel)
    ensures Shelved(Applied(row, sel), n)
    ensures n !in Local(Applied(row, sel)) <==> !PieceOf(SelectedAdd(row.settings, sel), n)
  {
    SelectedFacts(row.settings, sel);
    NormalizeFixed(row.settings.detected);
    AppliedModels(row, sel, n);
    assert Clean(n);
  }

  /** On the ignore list and not staged. */
  ghost predicate Shelved(row: Row, n: string) {
    n in row.settings.ignored && n !in row.settings.detected
  }

  /** A step of a run in which the regular expressions are re and no upstream name
      has a comma. */
  ghost predicate Plain(step: Step, re: Regex) {
    CommaFree(step) && (step.DoCheck? ==> step.c.re == re)
  }

  ghost predicate AllPlain(steps: seq<Step>, re: Regex) {
    forall i :: 0 <= i < |steps| ==> Plain(steps[i], re)
  }

  /** Names each of which has a comma, so that it is never proposed, or is suppressed
      by one of them. */
  ghost predicate SelfSupporting(re: Regex, names: seq<string>) {
    forall x :: x in names ==> ',' in x || exists e :: e in names && Ignores(re, e, x)
  }

  ghost predicate AllShelved(row: Row, names: seq<string>) {
    forall x :: x in names ==> Shelved(row, x)
  }

  /** Whether n belongs to shelved names that suppress one another. */
  ghost predicate Entrenched(row: Row, re: Regex, n: string) {
    exists names :: n in names && AllShelved(row, names) && SelfSupporting(re, names)
  }

  lemma NotFound(row: Row, c: Check, names: seq<string>, x: string)
    requires Good(row) && c.fetched.Some? && SepFree(',', Normalize(c.fetched.value))
    requires AllShelved(row, names) && SelfSupporting(c.re, names) && x in names
    ensures x !in Found(row, c)
  {
    PendingAddExact(GetModels(row.models), c.fetched.value, row.settings.ignored, c.mapping, c.re);
    NormalizeFixed(row.settings.ignored);
    if ',' !in x {
      var e :| e in names && Ignores(c.re, e, x);
      assert Shelved(row, e);
    }
  }

  lemma StepKeepsShelved(row: Row, step: Step, re: Regex, names: seq<string>)
    requires Good(row) && Plain(step, re)
    requires AllShelved(row, names) && SelfSupporting(re, names)
    ensures AllShelved(Next(row, step), names)
  {
    forall x | x in names ensures Shelved(Next(row, step), x) {
      assert Shelved(row, x);
      match step {
        case DoCheck(c, writes) =>
          if c.fetched.Some? {
            NotFound(row, c, names, x);
          }
        case DoApply(sel, writes) =>
          SelectedFacts(row.settings, sel);
          NormalizeFixed(row.settings.ignored);
          NormalizeFixed(row.settings.detected);
      }
    }
  }

  lemma {:induction false} RunKeepsShelved(row: Row, steps: seq<Step>, re: Regex, names: seq<string>)
    requires Good(row) && AllPlain(steps, re)
    requires AllShelved(row, names) && SelfSupporting(re, names)
    ensures AllShelved(Run(row, steps), names)
  {
    if steps != [] {
      var before := steps[..|steps| - 1];
      assert forall i :: 0 <= i < |steps| ==> Plain(steps[i], re);
      RunKeepsShelved(row, before, re, names);
      RunKeepsGood(row, before);
      StepKeepsShelved(Run(row, before), steps[|steps| - 1], re, names);
    }
  }

  /** A shelved name that is not a model does not become one. */
  lemma StepAdoptsNoShelved(row: Row, step: Step, re: Regex, names: seq<string>, n: string)
    requires Good(row) && Plain(step, re) && n !in Local(row)
    requires n in names && AllShelved(row, names) && SelfSupporting(re, names)
    ensures n !in Local(Next(row, step))
  {
    assert Shelved(row, n);
    match step {
      case DoCheck(c, writes) =>
        if c.fetched.Some? && Adopts(row, c) {
          NotFound(row, c, names, n);
          AdoptedModels(row, c);
          LocalShape(row);
          PendingAddExact(GetModels(row.models), c.fetched.value, row.settings.ignored, c.mapping, c.re);
          SubsetSepFree(Found(row, c), Normalize(c.fetched.value));
          StoredModels(Local(row) + Found(row, c));
        }
      case DoApply(sel, writes) =>
        SelectedFacts(row.settings, sel);
        NormalizeFixed(row.settings.detected);
        SubsetSepFree(SelectedAdd(row.settings, sel), row.settings.detected);
        AppliedModels(row, sel, n);
        PieceOfSepFree(SelectedAdd(row.settings, sel), n);
    }
  }

  /** An entrenched name that is not a model is never proposed, staged or adopted, and
      stays ignored, in every run. */
  lemma {:induction false} RunLeavesAlone(row: Row, steps: seq<Step>, re: Regex, n: string)
    requires Good(row) && AllPlain(steps, re)
    requires Entrenched(row, re, n) && n !in Local(row)
    ensures Shelved(Run(row, steps), n) && n !in Local(Run(row, steps))
  {
    var names :| n in names && AllShelved(row, names) && SelfSupporting(re, names);
    RunKeepsShelved(row, steps, re, names);
    if steps != [] {
      var before := steps[..|steps| - 1];
      assert forall i :: 0 <= i < |steps| ==> Plain(steps[i], re);
      RunLeavesAlone(row, before, re, n);
      RunKeepsGood(row, before);
      RunKeepsShelved(row, before, re, names);
      StepAdoptsNoShelved(Run(row, before), steps[|steps| - 1], re, names, n);
    }
  }

  /** A name that is not a pattern suppresses itself. */
  lemma PlainNamesEntrenched(row: Row, re: Regex, n: string)
    requires Shelved(row, n) && !("regex:" <= n)
    ensures Entrenched(row, re, n)
  {
    assert Ignores(re, n, n);
    assert [n][0] == n && SelfSupporting(re, [n]) && AllShelved(row, [n]);
  }

  // ---------------------------------------------------------- how a shelved name comes back

  lemma {:induction false} RunAppend(row: Row, a: seq<Step>, b: seq<Step>)
    ensures Run(row, a + b) == Run(Run(row, a), b)
  {
    if b == [] {
      assert a + b == a;
    } else {
      hide Run, Next;
      var init, last := b[..|b| - 1], b[|b| - 1];
      assert b == init + [last] && a + b == (a + init) + [last];
      RunAppend(row, a, init);
      RunSnoc(row, a + init, last);
      RunSnoc(Run(row, a), init, last);
    }
  }

  lemma PlainAppend(a: seq<Step>, b: seq<Step>, re: Regex)
    requires AllPlain(a, re) && AllPlain(b, re)
    ensures AllPlain(a + b, re)
  {
  }

  /** A forced check that stages, against this upstream list. */
  function Look(re: Regex, upstream: seq<string>): Step {
    DoCheck(Check(map[], re, true, false, 0, 0, Some(upstream)), true)
  }

  /** A name that upstream offers, no model and not suppressed, is staged. */
  lemma LookStages(row: Row, re: Regex, e: string)
    requires Good(row) && Clean(e) && ',' !in e
    requires e !in Local(row) && forall d :: d in row.settings.ignored ==> !Ignores(re, d, e)
    ensures var next := Next(row, Look(re, [e]));
            && Plain(Look(re, [e]), re) && next.settings.ignored == row.settings.ignored
            && forall x :: x in next.settings.detected <==> x == e
  {
    hide Normalize, PendingAdd, PendingRemove, Local;
    NormalizeFixed(row.settings.ignored);
    NormalizeFixed([e]);
    assert [e][0] == e;
    LocalAre(row);
    PendingAddExact(GetModels(row.models), [e], row.settings.ignored, map[], re);
  }

  /** When upstream offers nothing, every model is staged for removal. */
  lemma LookAtNothing(row: Row, re: Regex)
    requires Good(row)
    ensures var next := Next(row, Look(re, []));
            && Plain(Look(re, []), re) && Good(next)
            && next.settings.detected == [] && next.settings.ignored == row.settings.ignored
            && next.models == row.models && forall x :: x in next.settings.removed <==> x in Local(row)
  {
    NothingLocal();
    PendingAddExact(GetModels(row.models), [], row.settings.ignored, map[], re);
    PendingRemoveExact(GetModels(row.models), [], map[]);
    EmptyWithoutMembers(Next(row, Look(re, [])).settings.detected);
    StepKeepsGood(row, Look(re, []));
  }

  lemma RemoveStaged(row: Row, e: string)
    requires Good(row) && row.settings.detected == [] && e in row.settings.removed
    ensures var next := Applied(row, Selection([], [], [e], 0));
            && Good(next) && next.settings.detected == [] && e !in Local(next)
            && forall x :: x in next.settings.ignored <==> x in row.settings.ignored
  {
    hide Normalize, Local, PieceOf;
    var sel := Selection([], [], [e], 0);
    StepKeepsGood(row, DoApply(sel, true));
    NothingLocal();
    assert [e][0] == e && Clean(e);
    NormalizeFixed([e]);
    NormalizeFixed(row.settings.ignored);
    NormalizeFixed(row.settings.removed);
    SelectedFacts(row.settings, sel);
    EmptyWithoutMembers(SelectedAdd(row.settings, sel));
    EmptyWithoutMembers(RemainingAdd(row.settings, sel));
    AppliedModels(row, sel, e);
    NoPieces(e);
  }

  lemma NoPieces(x: string)
    ensures !PieceOf([], x)
  {
  }

  /** A model can be taken away: upstream offers nothing, and it is removed. */
  lemma ModelRemoved(row: Row, re: Regex, e: string) returns (steps: seq<Step>)
    requires Good(row) && row.settings.detected == [] && e in Local(row)
    ensures AllPlain(steps, re)
    ensures var next := Run(row, steps);
            && Good(next) && next.settings.detected == [] && e !in Local(next)
            && forall x :: x in next.settings.ignored <==> x in row.settings.ignored
  {
    hide Run, Good, Checked, Applied, Local;
    var look, remove := Look(re, []), DoApply(Selection([], [], [e], 0), true);
    steps := [look, remove];
    RunTwo(row, look, remove);
    LookAtNothing(row, re);
    RemoveStaged(Next(row, look), e);
  }

  lemma RunTwo(row: Row, a: Step, b: Step)
    ensures Run(row, [a, b]) == Next(Next(row, a), b)
  {
    assert [a, b] == ([] + [a]) + [b];
    RunSnoc(row, [] + [a], b);
    RunSnoc(row, [], a);
  }

  /** Adding staged names takes them off the ignore list and leaves nothing staged. */
  lemma AddStaged(row: Row, re: Regex)
    requires Good(row)
    ensures var add := DoApply(Selection(row.settings.detected, [], [], 0), true);
            var next := Next(row, add);
            && Plain(add, re) && Good(next) && next.settings.detected == []
            && forall x :: x in next.settings.ignored <==> Shelved(row, x)
  {
    var add := DoApply(Selection(row.settings.detected, [], [], 0), true);
    NormalizeFixed(row.settings.detected);
    NormalizeFixed(row.settings.ignored);
    SelectedFacts(row.settings, add.sel);
    StepKeepsGood(row, add);
    NothingLocal();
    EmptyWithoutMembers(RemainingAdd(row.settings, add.sel));
  }

  /** With no more names shelved, no more names are entrenched. */
  lemma EntrenchedBefore(row: Row, next: Row, re: Regex, n: string)
    requires forall x :: Shelved(next, x) ==> Shelved(row, x)
    ensures Entrenched(next, re, n) ==> Entrenched(row, re, n)
  {
    if Entrenched(next, re, n) {
      var names :| n in names && AllShelved(next, names) && SelfSupporting(re, names);
      assert AllShelved(row, names);
    }
  }

  /** Among names that are not entrenched, some name is not suppressed. */
  lemma Exposed(row: Row, re: Regex, n: string) returns (e: string)
    requires row.settings.detected == [] && Shelved(row, n) && !Entrenched(row, re, n)
    ensures e in row.settings.ignored && ',' !in e && forall d :: d in row.settings.ignored ==> !Ignores(re, d, e)
  {
    var names := row.settings.ignored;
    assert AllShelved(row, names);
    e :| e in names && ',' !in e && !exists d :: d in names && Ignores(re, d, e);
  }

  ghost function IgnoredNames(row: Row): set<string> {
    set x | x in row.settings.ignored
  }

  /** One name less: make it no model, offer it, and add it. */
  lemma PeelOne(row: Row, re: Regex, e: string) returns (steps: seq<Step>)
    requires Good(row) && row.settings.detected == []
    requires e in row.settings.ignored && ',' !in e && forall d :: d in row.settings.ignored ==> !Ignores(re, d, e)
    ensures AllPlain(steps, re)
    ensures var next := Run(row, steps);
            && Good(next) && !Shelved(next, e) && e in next.settings.detected
            && forall x :: Shelved(next, x) <==> Shelved(row, x) && x != e
  {
    hide Local, Next, Run, Look, Good, Plain;
    steps := [];
    RunNone(row);
    assert Clean(e) && Normal(row.settings.ignored) by { GoodIsNormal(row); }
    if e in Local(row) {
      steps := ModelRemoved(row, re, e);
    }
    var held := Run(row, steps);
    LookStages(held, re, e);
    LookKeepsGood(held, re, e);
    RunSnoc(row, steps, Look(re, [e]));
    steps := steps + [Look(re, [e])];
  }

  lemma RunNone(row: Row)
    ensures Run(row, []) == row
  {
  }

  lemma GoodIsNormal(row: Row)
    requires Good(row)
    ensures Normal(row.settings.ignored)
  {
  }

  lemma LookKeepsGood(row: Row, re: Regex, e: string)
    requires Good(row) && Plain(Look(re, [e]), re)
    ensures Good(Next(row, Look(re, [e])))
  {
    StepKeepsGood(row, Look(re, [e]));
  }

  /** A name that is not entrenched can be brought back. */
  lemma {:induction false} Revealed(row: Row, re: Regex, n: string) returns (steps: seq<Step>)
    requires Good(row) && row.settings.detected == [] && Shelved(row, n) && !Entrenched(row, re, n)
    ensures AllPlain(steps, re) && !Shelved(Run(row, steps), n)
    decreases |IgnoredNames(row)|
  {
    hide Run, Next, Good, Plain;
    var e := Exposed(row, re, n);
    steps := PeelOne(row, re, e);
    if e != n {
      var offered := Run(row, steps);
      var add := DoApply(Selection(offered.settings.detected, [], [], 0), true);
      AddStaged(offered, re);
      var next := Next(offered, add);
      RunSnoc(row, steps, add);
      assert IgnoredNames(next) == IgnoredNames(row) - {e};
      EntrenchedBefore(row, next, re, n);
      var others := Revealed(next, re, n);
      RunAppend(row, steps + [add], others);
      PlainAppend(steps + [add], others, re);
      steps := (steps + [add]) + others;
    }
  }

  /** In every run whose upstream names have no commas, a name stays ignored and is
      never staged, if and only if it is one of a set of shelved names each of which
      contains a comma or is suppressed by one of the set.  A name that is not a
      pattern is such a set by itself; a pattern is when it matches its own text. */
  lemma StaysShelvedExactly(row: Row, re: Regex, n: string)
    requires Good(row)
    ensures (forall steps :: AllPlain(steps, re) ==> Shelved(Run(row, steps), n)) <==> Entrenched(row, re, n)
  {
    hide Run, Next, Good, Plain;
    if Entrenched(row, re, n) {
      var names :| n in names && AllShelved(row, names) && SelfSupporting(re, names);
      forall steps | AllPlain(steps, re) ensures Shelved(Run(row, steps), n) {
        RunKeepsShelved(row, steps, re, names);
      }
    } else if !Shelved(row, n) {
      RunNone(row);
      assert AllPlain([], re);
    } else {
      var add := DoApply(Selection(row.settings.detected, [], [], 0), true);
      AddStaged(row, re);
      EntrenchedBefore(row, Next(row, add), re, n);
      var others := Revealed(Next(row, add), re, n);
      RunNone(row);
      RunSnoc(row, [], add);
      assert [] + [add] == [add];
      RunAppend(row, [add], others);
      PlainAppend([add], others, re);
    }
  }
}
