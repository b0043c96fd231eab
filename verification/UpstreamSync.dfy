/**
 Detecting, staging and applying upstream model changes of one channel
 (controller/channel_upstream_update.go, lines 172-231, 377-424 and 820-868).

 Regular expressions are a parameter: re(pattern, name) says whether the pattern
 compiles and matches.  Fetching the upstream list is a parameter too; None is
 a failed fetch.
 */
module UpstreamSync {
  import opened Text
  import opened ModelNames
  import opened Wrappers

  type Regex = (string, string) -> bool

  /** The part of a channel's settings that the synchronisation uses. */
  datatype Settings = Settings(
    autoSync: bool,
    lastCheckTime: int,
    detected: seq<string>,   // staged additions
    removed: seq<string>,    // staged removals
    ignored: seq<string>)

  /** A channel's database row: the model list is one comma-joined text. */
  datatype Row = Row(models: string, settings: Settings)

  function GetModels(models: string): seq<string> {
    Lines(',', models)
  }

  /** The channel's models as every comparison below sees them. */
  function Local(row: Row): seq<string> {
    Normalize(GetModels(row.models))
  }

  lemma OriginIsNormal(models: string)
    ensures Normalize(Normalize(GetModels(models))) == Normalize(GetModels(models))
  {
    NormalizeShape(GetModels(models));
    NormalizeFixed(Normalize(GetModels(models)));
  }

  // ---------------------------------------------------------------- detection

  predicate Ignores(re: Regex, entry: string, name: string) {
    if "regex:" <= entry then re(TrimSpace(entry[6..]), name) else entry == name
  }

  predicate Suppressed(re: Regex, ignored: seq<string>, name: string) {
    exists entry :: entry in Normalize(ignored) && Ignores(re, entry, name)
  }

  predicate Covered(local: seq<string>, mapping: map<string, string>, name: string) {
    name in Normalize(local) || name in mapping.Values
  }

  function PendingAdd(local: seq<string>, upstream: seq<string>, ignored: seq<string>,
                      mapping: map<string, string>, re: Regex): seq<string>
  {
    Normalize(Keep(Normalize(upstream), x => !Covered(local, mapping, x) && !Suppressed(re, ignored, x)))
  }

  function PendingRemove(local: seq<string>, upstream: seq<string>, mapping: map<string, string>): seq<string> {
    Normalize(Keep(Normalize(local), x => x !in mapping && x !in Normalize(upstream)))
  }

  lemma PendingAddExact(local: seq<string>, upstream: seq<string>, ignored: seq<string>,
                        mapping: map<string, string>, re: Regex)
    ensures Normal(PendingAdd(local, upstream, ignored, mapping, re))
    ensures forall x :: x in PendingAdd(local, upstream, ignored, mapping, re) <==>
              x in Normalize(upstream) && !Covered(local, mapping, x) && !Suppressed(re, ignored, x)
  {
    var p := x => !Covered(local, mapping, x) && !Suppressed(re, ignored, x);
    NormalizeShape(upstream);
    KeepMembers(Normalize(upstream), p);
    NormalizeFixed(Keep(Normalize(upstream), p));
  }

  lemma PendingRemoveExact(local: seq<string>, upstream: seq<string>, mapping: map<string, string>)
    ensures Normal(PendingRemove(local, upstream, mapping))
    ensures forall x :: x in PendingRemove(local, upstream, mapping) <==>
              x in Normalize(local) && x !in mapping && x !in Normalize(upstream)
  {
    var p := x => x !in mapping && x !in Normalize(upstream);
    NormalizeShape(local);
    KeepMembers(Normalize(local), p);
    NormalizeFixed(Keep(Normalize(local), p));
  }

  /** The names kept of a normalised list stand in the order of that list. */
  lemma KeptOrder(names: seq<string>, p: string -> bool, kept: seq<string>)
    requires kept == Normalize(Keep(Normalize(names), p))
    ensures forall i, j :: 0 <= i < j < |kept| ==> FirstNamed(names, kept[i]) < FirstNamed(names, kept[j])
  {
    hide Normalize, Keep, FirstNamed;
    NormalizeShape(names);
    KeepMembers(Normalize(names), p);
    NormalizeFixed(Keep(Normalize(names), p));
    forall i, j | 0 <= i < j < |kept| ensures FirstNamed(names, kept[i]) < FirstNamed(names, kept[j]) {
      var a, b := KeepPositions(Normalize(names), p, i, j);
      NormalizeOrder(names, a, b);
    }
  }

  /** The proposals spelled out: upstream names, in upstream's order, that are no
      models, to which no model is redirected, and which no ignore entry names or, as
      a pattern, matches. */
  lemma PendingAddListed(local: seq<string>, upstream: seq<string>, ignored: seq<string>,
                         mapping: map<string, string>, re: Regex)
    ensures forall x :: x in PendingAdd(local, upstream, ignored, mapping, re) <==>
              && x in Normalize(upstream) && x !in Normalize(local)
              && (forall k :: k in mapping ==> mapping[k] != x)
              && forall e :: e in Normalize(ignored) ==>
                   if |e| >= 6 && e[..6] == "regex:" then !re(TrimSpace(e[6..]), x) else e != x
    ensures forall i, j :: 0 <= i < j < |PendingAdd(local, upstream, ignored, mapping, re)| ==>
              FirstNamed(upstream, PendingAdd(local, upstream, ignored, mapping, re)[i])
              < FirstNamed(upstream, PendingAdd(local, upstream, ignored, mapping, re)[j])
  {
    hide Normalize, Keep, FirstNamed, TrimSpace;
    PendingAddExact(local, upstream, ignored, mapping, re);
    forall e: string ensures "regex:" <= e <==> |e| >= 6 && e[..6] == "regex:" {
    }
    var p := x => !Covered(local, mapping, x) && !Suppressed(re, ignored, x);
    KeptOrder(upstream, p, PendingAdd(local, upstream, ignored, mapping, re));
  }

  /** The models proposed for removal stand in the order of the models. */
  lemma PendingRemoveOrder(local: seq<string>, upstream: seq<string>, mapping: map<string, string>)
    ensures forall i, j :: 0 <= i < j < |PendingRemove(local, upstream, mapping)| ==>
              FirstNamed(local, PendingRemove(local, upstream, mapping)[i])
              < FirstNamed(local, PendingRemove(local, upstream, mapping)[j])
  {
    hide Normalize, Keep, FirstNamed;
    var p := x => x !in mapping && x !in Normalize(upstream);
    KeptOrder(local, p, PendingRemove(local, upstream, mapping));
  }

  /** What surrounds a channel when it is checked. */
  datatype Check = Check(
    mapping: map<string, string>,
    re: Regex,
    force: bool,
    allowAuto: bool,
    now: int,
    minInterval: int,
    fetched: Option<seq<string>>)

  predicate TooSoon(s: Settings, c: Check) {
    !c.force && s.lastCheckTime > 0 && c.now - s.lastCheckTime < c.minInterval
  }

  /** The additions a check finds. */
  function Found(row: Row, c: Check): seq<string>
    requires c.fetched.Some?
  {
    PendingAdd(GetModels(row.models), c.fetched.value, row.settings.ignored, c.mapping, c.re)
  }

  /** Whether a check adopts what it finds instead of staging it. */
  predicate Adopts(row: Row, c: Check)
    requires c.fetched.Some?
  {
    c.allowAuto && row.settings.autoSync && Found(row, c) != []
  }

  /** The row after a check whose write succeeds. */
  function Checked(row: Row, c: Check): Row {
    if TooSoon(row.settings, c) then row
    else if c.fetched.None? then row.(settings := row.settings.(lastCheckTime := c.now))
    else
      var auto := Adopts(row, c);
      Row(if auto then Join(',', Merged(Local(row), Found(row, c))) else row.models,
          row.settings.(
            lastCheckTime := c.now,
            detected := if auto then [] else Found(row, c),
            removed := PendingRemove(GetModels(row.models), c.fetched.value, c.mapping)))
  }

  // ---------------------------------------------------------------- application

  /** What a user selects, and when. */
  datatype Selection = Selection(add: seq<string>, ignore: seq<string>, remove: seq<string>, now: int)

  function SelectedAdd(s: Settings, sel: Selection): seq<string> {
    Intersect(sel.add, Normalize(s.detected))
  }

  function SelectedIgnore(s: Settings, sel: Selection): seq<string> {
    Intersect(sel.ignore, Normalize(s.detected))
  }

  function SelectedRemove(s: Settings, sel: Selection): seq<string> {
    Subtract(Intersect(sel.remove, Normalize(s.removed)), SelectedAdd(s, sel))
  }

  function RemainingAdd(s: Settings, sel: Selection): seq<string> {
    Subtract(Normalize(s.detected), SelectedAdd(s, sel) + SelectedIgnore(s, sel))
  }

  function RemainingRemove(s: Settings, sel: Selection): seq<string> {
    Subtract(Normalize(s.removed), SelectedRemove(s, sel))
  }

  function NextIgnored(s: Settings, sel: Selection): seq<string> {
    var merged := Merged(s.ignored, SelectedIgnore(s, sel));
    if SelectedAdd(s, sel) != [] then Subtract(merged, SelectedAdd(s, sel)) else merged
  }

  function NextModels(row: Row, sel: Selection): seq<string> {
    ApplySelected(Local(row), SelectedAdd(row.settings, sel), SelectedRemove(row.settings, sel))
  }

  /** The row after an application whose write succeeds. */
  function Applied(row: Row, sel: Selection): Row {
    var next := NextModels(row, sel);
    Row(if next == Local(row) then row.models else Join(',', next),
        row.settings.(
          lastCheckTime := sel.now,
          detected := RemainingAdd(row.settings, sel),
          removed := RemainingRemove(row.settings, sel),
          ignored := NextIgnored(row.settings, sel)))
  }

  /** Everything staged. */
  function SelectAll(s: Settings, now: int): Selection {
    Selection(Normalize(s.detected), [], Normalize(s.removed), now)
  }

  /** How the database answers: the channel's update fails, or the update of its
      abilities after it, or neither. */
  datatype Io = WriteFails | AbilitiesFail | AllWell

  datatype CheckResult =
    | Skipped | FetchFailed | WriteFailed
    | AbilitiesFailed(autoAdded: int)
    | CheckDone(modelsChanged: bool, autoAdded: int)

  /** abilitiesFailed says that the rows of the channel's abilities do not follow
      its models. */
  datatype ApplyResult =
    | ApplyFailed
    | ApplyDone(added: seq<string>, removed: seq<string>, remaining: seq<string>,
                remainingRemove: seq<string>, modelsChanged: bool, abilitiesFailed: bool)

  /** What a check answers when it is not skipped and the fetch succeeds. */
  function CheckAnswer(row: Row, c: Check, io: Io): CheckResult
    requires c.fetched.Some?
  {
    if io.WriteFails? then WriteFailed
    else if !Adopts(row, c) then CheckDone(false, 0)
    else if io.AbilitiesFail? then AbilitiesFailed(|Found(row, c)|)
    else CheckDone(true, |Found(row, c)|)
  }

  /** A channel as its handlers see it: loaded, changed in memory, written back
      in one update. */
  class Channel {
    var row: Row

    constructor (row: Row)
      ensures this.row == row
    {
      this.row := row;
    }

    method CheckAndPersist(c: Check, io: Io) returns (r: CheckResult)
      modifies this
      ensures row == if io.WriteFails? then old(row) else Checked(old(row), c)
      ensures r == if TooSoon(old(row).settings, c) then Skipped
                   else if c.fetched.None? then (if io.WriteFails? then WriteFailed else FetchFailed)
                   else CheckAnswer(old(row), c, io)
    {
      hide Normalize, PendingAdd, PendingRemove, Merged;
      var settings, models := row.settings, row.models;
      if !c.force && settings.lastCheckTime > 0 && c.now - settings.lastCheckTime < c.minInterval {
        return Skipped;
      }
      settings := settings.(lastCheckTime := c.now);
      if c.fetched.None? {
        if io.WriteFails? { return WriteFailed; }
        row := Row(models, settings);
        return FetchFailed;
      }
      var add := PendingAdd(GetModels(models), c.fetched.value, settings.ignored, c.mapping, c.re);
      var rem := PendingRemove(GetModels(models), c.fetched.value, c.mapping);
      var modelsChanged, autoAdded := false, 0;
      if c.allowAuto && settings.autoSync && |add| > 0 {
        models, modelsChanged, autoAdded := Adopt(models, add);
        AdoptedModels(row, c);
        settings := settings.(detected := []);
      } else {
        settings := settings.(detected := add);
      }
      settings := settings.(removed := rem);
      if io.WriteFails? { return WriteFailed; }
      row := Row(models, settings);
      if modelsChanged && io.AbilitiesFail? { return AbilitiesFailed(autoAdded); }
      return CheckDone(modelsChanged, autoAdded);
    }

    /** Appends what was found to the stored models. */
    static method Adopt(models: string, add: seq<string>) returns (next: string, changed: bool, count: int)
      ensures var origin := Normalize(GetModels(models));
              && count == |Merged(origin, add)| - |origin|
              && changed == (count > 0)
              && next == if changed then Join(',', Merged(origin, add)) else models
    {
      var origin := Normalize(GetModels(models));
      var merged := Merge(origin, add);
      OriginIsNormal(models);
      next, changed, count := models, false, 0;
      if |merged| > |origin| {
        next := Join(',', merged);
        count := |merged| - |origin|;
        changed := true;
      }
    }

    method ApplyUpdates(sel: Selection, io: Io) returns (r: ApplyResult)
      modifies this
      ensures row == if io.WriteFails? then old(row) else Applied(old(row), sel)
      ensures r == if io.WriteFails? then ApplyFailed
                   else
                     var changed := NextModels(old(row), sel) != Local(old(row));
                     ApplyDone(SelectedAdd(old(row).settings, sel), SelectedRemove(old(row).settings, sel),
                               RemainingAdd(old(row).settings, sel), RemainingRemove(old(row).settings, sel),
                               changed, changed && io.AbilitiesFail?)
    {
      var settings, models := row.settings, row.models;
      var pendingAdd := Normalize(settings.detected);
      var pendingRemove := Normalize(settings.removed);
      var add := Intersect(sel.add, pendingAdd);
      var ignore := Intersect(sel.ignore, pendingAdd);
      var remove := Intersect(sel.remove, pendingRemove);
      remove := Subtract(remove, add);
      var origin := Normalize(GetModels(models));
      var next := ApplySelected(origin, add, remove);
      var modelsChanged := origin != next;
      if modelsChanged {
        models := Join(',', next);
      }
      var merged := Merge(settings.ignored, ignore);
      settings := settings.(ignored := merged);
      if |add| > 0 {
        settings := settings.(ignored := Subtract(settings.ignored, add));
      }
      var remaining := Subtract(pendingAdd, add + ignore);
      var remainingRemove := Subtract(pendingRemove, remove);
      settings := settings.(detected := remaining, removed := remainingRemove, lastCheckTime := sel.now);
      if io.WriteFails? {
        return ApplyFailed;
      }
      row := Row(models, settings);
      if modelsChanged && io.AbilitiesFail? {
        return ApplyDone(add, remove, remaining, remainingRemove, true, true);
      }
      return ApplyDone(add, remove, remaining, remainingRemove, modelsChanged, false);
    }
  }

  // ------------------------------------------------- model lists as stored text

  lemma LocalShape(row: Row)
    ensures Normal(Local(row)) && SepFree(',', Local(row))
  {
    var stored := GetModels(row.models);
    LinesSepFree(',', row.models);
    NormalizeShape(stored);
    forall k | 0 <= k < |Local(row)| ensures ',' !in Local(row)[k] {
      assert Local(row)[k] in Local(row);
      var m :| m in stored && TrimSpace(m) == Local(row)[k];
      TrimMembers(IsSpace, m);
    }
  }

  lemma SplitOfMember(names: seq<string>, n: string)
    requires SepFree(',', names) && n in names
    ensures Split(',', n) == [n]
  {
    SplitWhole(',', n);
  }

  /** A piece of a stored name, up to surrounding space. */
  ghost predicate PieceOf(names: seq<string>, x: string) {
    exists n, p :: n in names && p in Split(',', n) && TrimSpace(p) == x
  }

  /** The models a channel has after a list is stored: the pieces of its names. */
  lemma StoredModels(names: seq<string>)
    ensures forall x :: x in Normalize(GetModels(Join(',', names))) <==> x != "" && PieceOf(names, x)
    ensures Normal(names) && SepFree(',', names) ==> Normalize(GetModels(Join(',', names))) == names
  {
    var stored := GetModels(Join(',', names));
    NormalizeShape(stored);
    forall p | p != "" ensures p in stored <==> InPieces(',', names, p) {
      LinesPieces(',', names, p);
    }
    forall x ensures x in Normalize(stored) <==> x != "" && PieceOf(names, x) {
      if x in Normalize(stored) {
        var p :| p in stored && TrimSpace(p) == x;
        assert p != "";
      }
      if x != "" && PieceOf(names, x) {
        var n, p :| n in names && p in Split(',', n) && TrimSpace(p) == x;
        assert p != "";
        assert p in stored;
      }
    }
    if Normal(names) && SepFree(',', names) {
      LinesJoin(',', names);
      assert names != [] ==> names[0] in names && names[|names| - 1] in names;
      NormalizeFixed(names);
    }
  }

  /** A comma-free name that is stored is a model afterwards. */
  lemma StoredKeeps(names: seq<string>, x: string)
    requires x in names && Clean(x) && ',' !in x
    ensures x in Normalize(GetModels(Join(',', names)))
  {
    StoredModels(names);
    SplitWhole(',', x);
    assert x in Split(',', x);
  }

  lemma PieceOfSepFree(names: seq<string>, x: string)
    requires Normal(names) && SepFree(',', names)
    ensures PieceOf(names, x) <==> x in names
  {
    if PieceOf(names, x) {
      var n, p :| n in names && p in Split(',', n) && TrimSpace(p) == x;
      SplitOfMember(names, n);
      assert Clean(n);
    }
    if x in names {
      SplitOfMember(names, x);
      assert Clean(x) && x in Split(',', x);
    }
  }

  /** Adopting appends what was found; nothing found is already there. */
  lemma AdoptedModels(row: Row, c: Check)
    requires c.fetched.Some?
    ensures Merged(Local(row), Found(row, c)) == Local(row) + Found(row, c)
    ensures Normal(Local(row) + Found(row, c))
  {
    var add := Found(row, c);
    LocalShape(row);
    NormalizeFixed(Local(row));
    PendingAddExact(GetModels(row.models), c.fetched.value, row.settings.ignored, c.mapping, c.re);
    NormalizeFixed(add);
    KeepAll(add, x => x !in Local(row));
    MergedMembers(Local(row), add);
  }
}
