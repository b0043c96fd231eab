/**
 The ordered-set algebra on model-name lists
 (controller/channel_upstream_update.go, lines 93-143).
 */
module ModelNames {
  import opened Text

  /** Keeps the first occurrence of each name. */
  function Uniq(xs: seq<string>): seq<string> {
    if xs == [] then []
    else
      var rest := Uniq(xs[..|xs| - 1]);
      if xs[|xs| - 1] in rest then rest else rest + [xs[|xs| - 1]]
  }

  function Keep(xs: seq<string>, p: string -> bool): seq<string> {
    if xs == [] then []
    else
      var rest := Keep(xs[..|xs| - 1], p);
      if p(xs[|xs| - 1]) then rest + [xs[|xs| - 1]] else rest
  }

  function Without(xs: seq<string>, removed: seq<string>): seq<string> {
    Keep(xs, x => x !in removed)
  }

  function Within(xs: seq<string>, allowed: seq<string>): seq<string> {
    Keep(xs, x => x in allowed)
  }

  function Normalize(models: seq<string>): seq<string> {
    Uniq(Trimmed(models))
  }

  function Subtract(base: seq<string>, removed: seq<string>): seq<string> {
    Without(Normalize(base), Normalize(removed))
  }

  function Intersect(base: seq<string>, allowed: seq<string>): seq<string> {
    Within(Normalize(base), Normalize(allowed))
  }

  /** One name more of a distinct list, merged into others. */
  lemma MergeStep(names: seq<string>, i: nat, others: seq<string>)
    requires Distinct(names) && i < |names|
    ensures names[i] in others + Without(names[..i], others) <==> names[i] in others
    ensures Without(names[..i + 1], others)
         == Without(names[..i], others) + if names[i] in others then [] else [names[i]]
  {
    assert names[..i + 1][..i] == names[..i];
    KeepMembers(names[..i], x => x !in others);
  }

  /** mergeModelNames: the base list, then the names that are new. */
  method Merge(base: seq<string>, appended: seq<string>) returns (merged: seq<string>)
    ensures merged == Merged(base, appended)
  {
    merged := Normalize(base);
    var seen: set<string> := set x | x in merged;
    var names := Normalize(appended);
    var i := 0;
    NormalizeShape(appended);
    assert Without(names[..0], merged) == [];
    hide Keep, Normalize;
    while i < |names|
      invariant i <= |names|
      invariant merged == Normalize(base) + Without(names[..i], Normalize(base))
      invariant seen == set x | x in merged
    {
      var model := names[i];
      MergeStep(names, i, Normalize(base));
      if model !in seen {
        seen := seen + {model};
        merged := merged + [model];
      }
      i := i + 1;
    }
    assert names[..i] == names;
  }

  function Merged(base: seq<string>, appended: seq<string>): seq<string> {
    Normalize(base) + Without(Normalize(appended), Normalize(base))
  }

  function ApplySelected(origin: seq<string>, add: seq<string>, remove: seq<string>): seq<string> {
    var normalizedAdd := Normalize(add);
    var normalizedRemove := Subtract(Normalize(remove), normalizedAdd);
    Subtract(Merged(origin, normalizedAdd), normalizedRemove)
  }

  // ---------------------------------------------------------------- one more name

  lemma UniqSnoc(xs: seq<string>, x: string)
    ensures Uniq(xs + [x]) == if x in Uniq(xs) then Uniq(xs) else Uniq(xs) + [x]
  {
    assert (xs + [x])[..|xs|] == xs;
  }

  lemma KeepSnoc(xs: seq<string>, x: string, p: string -> bool)
    ensures Keep(xs + [x], p) == if p(x) then Keep(xs, p) + [x] else Keep(xs, p)
  {
    assert (xs + [x])[..|xs|] == xs;
  }

  // ---------------------------------------------------------------- basic facts

  ghost predicate Distinct(xs: seq<string>) {
    forall i, j :: 0 <= i < j < |xs| ==> xs[i] != xs[j]
  }

  /** The normal form: trimmed, non-blank, duplicate-free. */
  ghost predicate Normal(xs: seq<string>) {
    Distinct(xs) && forall x :: x in xs ==> Clean(x)
  }

  lemma {:induction false} KeepMembers(xs: seq<string>, p: string -> bool)
    ensures forall x :: x in Keep(xs, p) <==> x in xs && p(x)
    ensures Distinct(xs) ==> Distinct(Keep(xs, p))
    ensures Normal(xs) ==> Normal(Keep(xs, p))
  {
    if xs != [] {
      var n := |xs| - 1;
      KeepMembers(xs[..n], p);
      assert xs == xs[..n] + [xs[n]];
    }
  }

  lemma {:induction false} UniqMembers(xs: seq<string>)
    ensures forall x :: x in Uniq(xs) <==> x in xs
    ensures Distinct(Uniq(xs))
    ensures Distinct(xs) ==> Uniq(xs) == xs
  {
    if xs != [] {
      var n := |xs| - 1;
      UniqMembers(xs[..n]);
      assert xs == xs[..n] + [xs[n]];
    }
  }

  lemma {:induction false} TrimmedFixed(models: seq<string>)
    requires forall k :: 0 <= k < |models| ==> Clean(models[k])
    ensures Trimmed(models) == models
  {
    if models != [] {
      hide Trimmed, TrimSpace;
      var before, last := models[..|models| - 1], models[|models| - 1];
      assert models == before + [last] && Clean(last);
      TrimmedFixed(before);
      TrimmedSnoc(before, last);
    }
  }

  /** Normalising yields the normal form, loses no name and invents none. */
  lemma NormalizeShape(models: seq<string>)
    ensures Normal(Normalize(models))
    ensures forall x :: x in Normalize(models) <==>
              x != "" && exists m :: m in models && TrimSpace(m) == x
  {
    TrimmedMembers(models);
    UniqMembers(Trimmed(models));
  }

  /** ... and leaves a list already in normal form alone. */
  lemma NormalizeFixed(models: seq<string>)
    ensures Normalize(models) == models <==> Normal(models)
  {
    NormalizeShape(models);
    if Normal(models) {
      forall k | 0 <= k < |models| ensures Clean(models[k]) {
        assert models[k] in models;
      }
      TrimmedFixed(models);
      UniqMembers(models);
    }
  }

  // ---------------------------------------------------------- order and merging

  lemma {:induction false} TrimmedAppend(a: seq<string>, b: seq<string>)
    ensures Trimmed(a + b) == Trimmed(a) + Trimmed(b)
  {
    if b == [] {
      assert a + b == a;
    } else {
      var before, last := b[..|b| - 1], b[|b| - 1];
      assert b == before + [last];
      hide Trimmed;
      TrimmedAppend(a, before);
      TrimmedSnoc(before, last);
      TrimmedSnoc(a + before, last);
      Associate(a, before, [last]);
      Associate(Trimmed(a), Trimmed(before), [TrimSpace(last)]);
    }
  }

  lemma {:induction false} UniqAppend(a: seq<string>, b: seq<string>)
    ensures Uniq(a + b) == Uniq(a) + Without(Uniq(b), Uniq(a))
  {
    if b == [] {
      assert a + b == a;
    } else {
      var before, last := b[..|b| - 1], b[|b| - 1];
      assert b == before + [last];
      hide Uniq, Keep;
      UniqAppend(a, before);
      UniqSnoc(before, last);
      UniqSnoc(a + before, last);
      Associate(a, before, [last]);
      WithoutSnoc(Uniq(a), Uniq(before), last);
    }
  }

  /** Adding a name to both sides of a concatenation without repetitions. */
  lemma WithoutSnoc(a: seq<string>, b: seq<string>, x: string)
    ensures var r := a + Without(b, a);
            && (x in r <==> x in a || x in b)
            && (x !in r ==> r + [x] == a + Without(b + [x], a))
            && (x in a ==> Without(b + [x], a) == Without(b, a))
  {
    var p := y => y !in a;
    KeepMembers(b, p);
    KeepSnoc(b, x, p);
    Associate(a, Without(b, a), [x]);
  }

  /** Merging is normalising the concatenation. */
  lemma MergedIsConcatenation(a: seq<string>, b: seq<string>)
    ensures Merged(a, b) == Normalize(a + b)
  {
    TrimmedAppend(a, b);
    UniqAppend(Trimmed(a), Trimmed(b));
  }

  lemma NormalizeAbsorbs(a: seq<string>, b: seq<string>)
    ensures Normalize(Normalize(a) + b) == Normalize(a + b)
    ensures Normalize(a + Normalize(b)) == Normalize(a + b)
  {
    NormalizeShape(a);
    NormalizeShape(b);
    NormalizeFixed(Normalize(a));
    NormalizeFixed(Normalize(b));
    MergedIsConcatenation(Normalize(a), b);
    MergedIsConcatenation(a, b);
    MergedIsConcatenation(a, Normalize(b));
  }

  /** Merging is associative. */
  lemma MergedAssociative(a: seq<string>, b: seq<string>, c: seq<string>)
    ensures Merged(Merged(a, b), c) == Merged(a, Merged(b, c))
  {
    hide Merged, Normalize;
    MergedIsConcatenation(a, b);
    MergedIsConcatenation(b, c);
    MergedIsConcatenation(Merged(a, b), c);
    MergedIsConcatenation(a, Merged(b, c));
    NormalizeAbsorbs(a + b, c);
    NormalizeAbsorbs(a, b + c);
    assert a + (b + c) == (a + b) + c;
  }

  /** The first position at which a list names x, up to surrounding space. */
  function FirstNamed(models: seq<string>, x: string): nat {
    if models == [] || TrimSpace(models[0]) == x then 0 else 1 + FirstNamed(models[1..], x)
  }

  lemma {:induction false} FirstNamedPrefix(models: seq<string>, tail: seq<string>, x: string)
    ensures FirstNamed(models, x) <= |models|
    ensures FirstNamed(models, x) < |models| <==> exists m :: m in models && TrimSpace(m) == x
    ensures FirstNamed(models, x) < |models| ==> FirstNamed(models + tail, x) == FirstNamed(models, x)
    ensures FirstNamed(models, x) == |models| ==> FirstNamed(models + tail, x) >= |models|
  {
    if models != [] {
      FirstNamedPrefix(models[1..], tail, x);
      assert models == [models[0]] + models[1..];
      assert (models + tail)[1..] == models[1..] + tail;
    }
  }

  /** The names of a normalised list stand in the order of their first mention. */
  lemma {:induction false} NormalizeOrder(models: seq<string>, i: nat, j: nat)
    requires i < j < |Normalize(models)|
    ensures FirstNamed(models, Normalize(models)[i]) < FirstNamed(models, Normalize(models)[j]) < |models|
  {
    var n := |models| - 1;
    var before := models[..n];
    var r := Normalize(before);
    var m := TrimSpace(models[n]);
    assert models == before + [models[n]];
    NormalizeShape(before);
    assert Normalize(models) == r || (Normalize(models) == r + [m] && m != "" && m !in r);
    FirstNamedPrefix(before, [models[n]], Normalize(models)[i]);
    FirstNamedPrefix(before, [models[n]], Normalize(models)[j]);
    FirstNamedPrefix(models, [], Normalize(models)[j]);
    NormalizeShape(models);
    assert Normalize(models)[j] in Normalize(models);
    assert Normalize(models)[i] == r[i] && r[i] in r;
    if j < |r| {
      NormalizeOrder(before, i, j);
    }
  }

  lemma {:induction false} KeepAppend(a: seq<string>, b: seq<string>, p: string -> bool)
    ensures Keep(a + b, p) == Keep(a, p) + Keep(b, p)
  {
    if b == [] {
      assert a + b == a;
    } else {
      var n := |b| - 1;
      KeepAppend(a, b[..n], p);
      assert (a + b)[..|a + b| - 1] == a + b[..n];
    }
  }

  lemma {:induction false} KeepSame(xs: seq<string>, p: string -> bool, q: string -> bool)
    requires forall x :: x in xs ==> p(x) == q(x)
    ensures Keep(xs, p) == Keep(xs, q)
  {
    if xs != [] {
      KeepSame(xs[..|xs| - 1], p, q);
    }
  }

  lemma {:induction false} KeepAll(xs: seq<string>, p: string -> bool)
    requires forall x :: x in xs ==> p(x)
    ensures Keep(xs, p) == xs
  {
    if xs != [] {
      KeepAll(xs[..|xs| - 1], p);
    }
  }

  lemma SubtractMembers(base: seq<string>, removed: seq<string>)
    ensures Normal(Subtract(base, removed))
    ensures forall x :: x in Subtract(base, removed) <==> x in Normalize(base) && x !in Normalize(removed)
  {
    NormalizeShape(base);
    KeepMembers(Normalize(base), x => x !in Normalize(removed));
  }

  lemma IntersectMembers(base: seq<string>, allowed: seq<string>)
    ensures Normal(Intersect(base, allowed))
    ensures forall x :: x in Intersect(base, allowed) <==> x in Normalize(base) && x in Normalize(allowed)
  {
    NormalizeShape(base);
    KeepMembers(Normalize(base), x => x in Normalize(allowed));
  }

  /** Keeping some names keeps their order. */
  lemma {:induction false} KeepPositions(xs: seq<string>, p: string -> bool, i: nat, j: nat) returns (a: nat, b: nat)
    requires i < j < |Keep(xs, p)|
    ensures a < b < |xs| && xs[a] == Keep(xs, p)[i] && xs[b] == Keep(xs, p)[j]
  {
    var n := |xs| - 1;
    if j < |Keep(xs[..n], p)| {
      a, b := KeepPositions(xs[..n], p, i, j);
    } else {
      a := KeepPosition(xs[..n], p, i);
      b := n;
    }
  }

  lemma {:induction false} KeepPosition(xs: seq<string>, p: string -> bool, i: nat) returns (a: nat)
    requires i < |Keep(xs, p)|
    ensures a < |xs| && xs[a] == Keep(xs, p)[i]
  {
    a := |xs| - 1;
    if i < |Keep(xs[..a], p)| {
      a := KeepPosition(xs[..a], p, i);
    }
  }

  /** The first list says in which order the names stand that it has in common with
      the second, or has over it. */
  lemma SelectionOrder(base: seq<string>, other: seq<string>, i: nat, j: nat)
    requires i < j
    ensures j < |Intersect(base, other)| ==>
              FirstNamed(base, Intersect(base, other)[i]) < FirstNamed(base, Intersect(base, other)[j]) < |base|
    ensures j < |Subtract(base, other)| ==>
              FirstNamed(base, Subtract(base, other)[i]) < FirstNamed(base, Subtract(base, other)[j]) < |base|
  {
    hide Keep, FirstNamed;
    if j < |Intersect(base, other)| {
      var a, b := KeepPositions(Normalize(base), x => x in Normalize(other), i, j);
      NormalizeOrder(base, a, b);
    }
    if j < |Subtract(base, other)| {
      var a, b := KeepPositions(Normalize(base), x => x !in Normalize(other), i, j);
      NormalizeOrder(base, a, b);
    }
  }

  lemma MergedMembers(base: seq<string>, appended: seq<string>)
    ensures Normal(Merged(base, appended))
    ensures forall x :: x in Merged(base, appended) <==> x in Normalize(base) || x in Normalize(appended)
  {
    KeepMembers(Normalize(appended), x => x !in Normalize(base));
    MergedIsConcatenation(base, appended);
    NormalizeShape(base + appended);
  }

  lemma ApplySelectedMembers(origin: seq<string>, add: seq<string>, remove: seq<string>)
    ensures Normal(ApplySelected(origin, add, remove))
    ensures forall x :: x in ApplySelected(origin, add, remove) <==>
              x in Normalize(add) || (x in Normalize(origin) && x !in Normalize(remove))
  {
    var a, rm := Normalize(add), Normalize(remove);
    NormalizeShape(add);
    NormalizeShape(remove);
    NormalizeFixed(a);
    NormalizeFixed(rm);
    SubtractMembers(rm, a);
    NormalizeFixed(Subtract(rm, a));
    MergedMembers(origin, a);
    NormalizeFixed(Merged(origin, a));
    SubtractMembers(Merged(origin, a), Subtract(rm, a));
  }

  /** applySelectedModelChanges is (origin + add) less (remove - add): the
      surviving origin names in their order, then the new names in theirs, and
      a name both added and removed stays. */
  lemma ApplySelectedExact(origin: seq<string>, add: seq<string>, remove: seq<string>)
    ensures ApplySelected(origin, add, remove)
         == Keep(Normalize(origin), x => x in Normalize(add) || x !in Normalize(remove))
            + Without(Normalize(add), Normalize(origin))
  {
    var o, a, rm := Normalize(origin), Normalize(add), Normalize(remove);
    var gone := Subtract(rm, a);
    NormalizeShape(add);
    NormalizeFixed(a);
    NormalizeShape(remove);
    NormalizeFixed(rm);
    SubtractMembers(rm, a);
    NormalizeFixed(gone);
    MergedMembers(origin, a);
    NormalizeFixed(Merged(origin, a));
    assert ApplySelected(origin, add, remove) == Without(o + Without(a, o), gone);
    KeepAppend(o, Without(a, o), x => x !in gone);
    KeepMembers(a, x => x !in o);
    KeepSame(o, x => x !in gone, x => x in a || x !in rm);
    KeepAll(Without(a, o), x => x !in gone);
  }
}
