/**
 The string operations the repository's lists are stored with: trimming, and
 joining and splitting on one separator character.  A channel keeps its model
 names joined by ',' and its keys joined by '\n'; everything that is read back
 goes through Lines below.
 */
module Text {

  /** Go's unicode.IsSpace: the Latin-1 spaces and the Unicode category Z. */
  predicate IsSpace(c: char) {
    || '\t' <= c <= '\r'
    || c in {' ', '\U{0085}', '\U{00A0}', '\U{1680}'}
    || '\U{2000}' <= c <= '\U{200A}'
    || c in {'\U{2028}', '\U{2029}', '\U{202F}', '\U{205F}', '\U{3000}'}
  }

  lemma SpacesListed(c: char)
    ensures IsSpace(c) <==>
              c in {'\t', '\n', '\U{000B}', '\U{000C}', '\r', ' ', '\U{0085}', '\U{00A0}', '\U{1680}',
                    '\U{2000}', '\U{2001}', '\U{2002}', '\U{2003}', '\U{2004}', '\U{2005}', '\U{2006}',
                    '\U{2007}', '\U{2008}', '\U{2009}', '\U{200A}', '\U{2028}', '\U{2029}', '\U{202F}',
                    '\U{205F}', '\U{3000}'}
  {
  }

  function TrimLeft(p: char -> bool, s: string): string {
    if s != "" && p(s[0]) then TrimLeft(p, s[1..]) else s
  }

  function TrimRight(p: char -> bool, s: string): string {
    if s != "" && p(s[|s| - 1]) then TrimRight(p, s[..|s| - 1]) else s
  }

  function Trim(p: char -> bool, s: string): string {
    TrimRight(p, TrimLeft(p, s))
  }

  function TrimSpace(s: string): string {
    Trim(IsSpace, s)
  }

  /** Strips leading and trailing separators. */
  function TrimSep(sep: char, s: string): string {
    Trim(c => c == sep, s)
  }

  lemma {:induction false} TrimLeftShape(p: char -> bool, s: string) returns (i: nat)
    ensures i <= |s| && TrimLeft(p, s) == s[i..]
    ensures forall k :: 0 <= k < i ==> p(s[k])
    ensures i < |s| ==> !p(s[i])
  {
    i := 0;
    if s != "" && p(s[0]) {
      var j := TrimLeftShape(p, s[1..]);
      i := j + 1;
      assert forall k :: 1 <= k < i ==> s[k] == s[1..][k - 1];
    }
  }

  lemma {:induction false} TrimRightShape(p: char -> bool, s: string) returns (j: nat)
    ensures j <= |s| && TrimRight(p, s) == s[..j]
    ensures forall k :: j <= k < |s| ==> p(s[k])
    ensures 0 < j ==> !p(s[j - 1])
  {
    j := |s|;
    if s != "" && p(s[|s| - 1]) {
      j := TrimRightShape(p, s[..|s| - 1]);
      assert s[..|s| - 1][..j] == s[..j];
    }
  }

  /** Trim is exactly the stretch between the first and the last character
      that p does not reject. */
  lemma TrimShape(p: char -> bool, s: string) returns (i: nat, j: nat)
    ensures i <= j <= |s| && Trim(p, s) == s[i..j]
    ensures forall k :: 0 <= k < i || j <= k < |s| ==> p(s[k])
    ensures i < j ==> !p(s[i]) && !p(s[j - 1])
  {
    i := TrimLeftShape(p, s);
    var t := s[i..];
    var n := TrimRightShape(p, t);
    j := i + n;
    assert forall k :: j <= k < |s| ==> s[k] == t[k - i];
    assert n > 0 ==> t[0] == s[i] && t[n - 1] == s[j - 1];
  }

  /** ... and the only such stretch. */
  lemma TrimIs(p: char -> bool, s: string, i: nat, j: nat)
    requires i < j <= |s| && !p(s[i]) && !p(s[j - 1])
    requires forall k :: 0 <= k < i || j <= k < |s| ==> p(s[k])
    ensures Trim(p, s) == s[i..j]
  {
    var m, n := TrimShape(p, s);
  }

  lemma TrimFixed(p: char -> bool, s: string)
    ensures Trim(p, s) == s <==> s == "" || (!p(s[0]) && !p(s[|s| - 1]))
  {
    var i, j := TrimShape(p, s);
  }

  lemma TrimIdempotent(p: char -> bool, s: string)
    ensures Trim(p, Trim(p, s)) == Trim(p, s)
  {
    var i, j := TrimShape(p, s);
    TrimFixed(p, Trim(p, s));
  }

  lemma TrimMembers(p: char -> bool, s: string)
    ensures forall c :: c in Trim(p, s) ==> c in s
    ensures forall c :: c in s && !p(c) ==> c in Trim(p, s)
  {
    var i, j := TrimShape(p, s);
    forall c | c in s && !p(c) ensures c in Trim(p, s) {
      var k :| 0 <= k < |s| && s[k] == c;
      assert s[i..j][k - i] == c;
    }
  }

  lemma TrimmedAway(p: char -> bool, s: string)
    ensures Trim(p, s) == "" <==> forall c :: c in s ==> p(c)
  {
    var i, j := TrimShape(p, s);
    if i < j {
      assert s[i] in s;
    }
  }

  /** The trimmed entries of a list, blank ones dropped. */
  function Trimmed(xs: seq<string>): seq<string> {
    if xs == [] then []
    else
      var rest := Trimmed(xs[..|xs| - 1]);
      var trimmed := TrimSpace(xs[|xs| - 1]);
      if trimmed == "" then rest else rest + [trimmed]
  }

  /** Not blank, and without surrounding space. */
  predicate Clean(x: string) {
    x != "" && TrimSpace(x) == x
  }

  lemma TrimmedSnoc(xs: seq<string>, x: string)
    ensures Trimmed(xs + [x]) == if TrimSpace(x) == "" then Trimmed(xs) else Trimmed(xs) + [TrimSpace(x)]
  {
    assert (xs + [x])[..|xs|] == xs;
  }

  lemma {:induction false} TrimmedMembers(xs: seq<string>)
    ensures forall x :: x in Trimmed(xs) ==> Clean(x)
    ensures forall m :: m in xs && TrimSpace(m) != "" ==> TrimSpace(m) in Trimmed(xs)
    ensures forall x :: x in Trimmed(xs) ==> exists m :: m in xs && TrimSpace(m) == x
  {
    if xs != [] {
      var n := |xs| - 1;
      TrimmedMembers(xs[..n]);
      TrimIdempotent(IsSpace, xs[n]);
      assert xs == xs[..n] + [xs[n]];
      assert xs[n] in xs;
    }
  }

  lemma Associate<T>(a: seq<T>, b: seq<T>, c: seq<T>)
    ensures (a + b) + c == a + (b + c)
  {
  }

  function Split(sep: char, s: string): (r: seq<string>)
    ensures |r| > 0
  {
    if s == "" then [""]
    else
      var r := Split(sep, s[1..]);
      if s[0] == sep then [""] + r else [[s[0]] + r[0]] + r[1..]
  }

  function Join(sep: char, xs: seq<string>): string {
    if xs == [] then ""
    else if |xs| == 1 then xs[0]
    else xs[0] + [sep] + Join(sep, xs[1..])
  }

  predicate SepFree(sep: char, xs: seq<string>) {
    forall k :: 0 <= k < |xs| ==> sep !in xs[k]
  }

  lemma {:induction false} SplitSepFree(sep: char, s: string)
    ensures SepFree(sep, Split(sep, s))
  {
    if s != "" {
      SplitSepFree(sep, s[1..]);
    }
  }

  lemma {:induction false} SplitWhole(sep: char, s: string)
    requires sep !in s
    ensures Split(sep, s) == [s]
  {
    if s != "" {
      SplitWhole(sep, s[1..]);
      assert [s[0]] + s[1..] == s;
    }
  }

  lemma SplitStep(sep: char, c: char, s: string)
    ensures Split(sep, [c] + s) ==
            if c == sep then [""] + Split(sep, s) else [[c] + Split(sep, s)[0]] + Split(sep, s)[1..]
  {
    assert ([c] + s)[1..] == s;
  }

  lemma HeadOfConcat(x: string, a: seq<string>, b: seq<string>)
    requires a != []
    ensures [x] + (a + b) == ([x] + a) + b
    ensures [x] + (a + b)[1..] == ([x] + a[1..]) + b
    ensures (a + b)[0] == a[0]
  {
  }

  /** Splitting distributes over a separator. */
  lemma {:induction false} SplitAppend(sep: char, a: string, b: string)
    ensures Split(sep, a + [sep] + b) == Split(sep, a) + Split(sep, b)
  {
    if a == "" {
      assert a + [sep] + b == [sep] + b;
      SplitStep(sep, sep, b);
    } else {
      var c, t := a[0], a[1..] + [sep] + b;
      SplitAppend(sep, a[1..], b);
      assert a + [sep] + b == [c] + t && a == [c] + a[1..];
      SplitStep(sep, c, t);
      SplitStep(sep, c, a[1..]);
      HeadOfConcat(if c == sep then "" else [c] + Split(sep, a[1..])[0], Split(sep, a[1..]), Split(sep, b));
    }
  }

  /** Splitting a joined list gives back the list. */
  lemma {:induction false} SplitJoin(sep: char, xs: seq<string>)
    requires xs != [] && SepFree(sep, xs)
    ensures Split(sep, Join(sep, xs)) == xs
  {
    SplitWhole(sep, xs[0]);
    if |xs| > 1 {
      SplitJoin(sep, xs[1..]);
      SplitAppend(sep, xs[0], Join(sep, xs[1..]));
    }
  }

  /** Joining what was split gives back the text. */
  lemma {:induction false} JoinSplit(sep: char, s: string)
    ensures Join(sep, Split(sep, s)) == s
  {
    if s != "" {
      JoinSplit(sep, s[1..]);
      var r := Split(sep, s[1..]);
      if s[0] != sep {
        assert ([[s[0]] + r[0]] + r[1..])[1..] == r[1..];
      }
    }
  }

  /** How a stored list is read back: nothing from an empty text, otherwise the
      text without its outer separators, split. */
  function Lines(sep: char, s: string): seq<string> {
    if s == "" then [] else Split(sep, TrimSep(sep, s))
  }

  /** The lists that survive being stored: neither end is the empty string. */
  predicate CleanEnds(xs: seq<string>) {
    xs == [] || (xs[0] != "" && xs[|xs| - 1] != "")
  }

  lemma LinesSepFree(sep: char, s: string)
    ensures SepFree(sep, Lines(sep, s))
  {
    if s != "" {
      SplitSepFree(sep, TrimSep(sep, s));
    }
  }

  lemma {:induction false} JoinEnds(sep: char, xs: seq<string>)
    requires xs != []
    ensures xs[0] != "" ==> Join(sep, xs) != "" && Join(sep, xs)[0] == xs[0][0]
    ensures xs[|xs| - 1] != "" ==>
              Join(sep, xs) != "" && Join(sep, xs)[|Join(sep, xs)| - 1] == xs[|xs| - 1][|xs[|xs| - 1]| - 1]
    ensures |xs| > 1 && xs[0] == "" ==> Join(sep, xs) != "" && Join(sep, xs)[0] == sep
    ensures |xs| > 1 && xs[|xs| - 1] == "" ==>
              Join(sep, xs) != "" && Join(sep, xs)[|Join(sep, xs)| - 1] == sep
  {
    if |xs| > 1 {
      JoinEnds(sep, xs[1..]);
    }
  }

  function Count(sep: char, s: string): nat {
    if s == "" then 0 else (if s[0] == sep then 1 else 0) + Count(sep, s[1..])
  }

  lemma {:induction false} SplitLength(sep: char, s: string)
    ensures |Split(sep, s)| == Count(sep, s) + 1
  {
    if s != "" {
      SplitLength(sep, s[1..]);
    }
  }

  lemma {:induction false} CountAppend(sep: char, a: string, b: string)
    ensures Count(sep, a + b) == Count(sep, a) + Count(sep, b)
  {
    if a == "" {
      assert a + b == b;
    } else {
      CountAppend(sep, a[1..], b);
      assert (a + b)[1..] == a[1..] + b;
    }
  }

  lemma {:induction false} CountMember(sep: char, s: string)
    requires sep in s
    ensures Count(sep, s) > 0
  {
    if s[0] != sep {
      CountMember(sep, s[1..]);
    }
  }

  /** Trimming strips at least one separator from a text that has one at an end. */
  lemma TrimSepLoses(sep: char, s: string)
    requires s != "" && (s[0] == sep || s[|s| - 1] == sep)
    ensures Count(sep, TrimSep(sep, s)) < Count(sep, s)
  {
    hide Trim, Count;
    var p := (c: char) => c == sep;
    var i, j := TrimShape(p, s);
    CountSlice(sep, s, i, j);
    if i > 0 {
      assert s[..i][0] == sep;
      CountMember(sep, s[..i]);
    } else {
      assert s[j..][|s| - j - 1] == sep;
      CountMember(sep, s[j..]);
    }
  }

  lemma CountSlice(sep: char, s: string, i: nat, j: nat)
    requires i <= j <= |s|
    ensures Count(sep, s) == Count(sep, s[..i]) + Count(sep, s[i..j]) + Count(sep, s[j..])
  {
    hide Count;
    var a, b, c := s[..i], s[i..j], s[j..];
    assert s == a + (b + c);
    CountAppend(sep, a, b + c);
    CountAppend(sep, b, c);
  }

  /** A list that is stored and read back comes back unchanged exactly when it
      has clean ends; otherwise entries are lost. */
  lemma LinesJoin(sep: char, xs: seq<string>)
    requires SepFree(sep, xs)
    ensures CleanEnds(xs) ==> Lines(sep, Join(sep, xs)) == xs
    ensures !CleanEnds(xs) ==> |Lines(sep, Join(sep, xs))| < |xs|
  {
    if xs != [] {
      var s := Join(sep, xs);
      SplitJoin(sep, xs);
      JoinEnds(sep, xs);
      if CleanEnds(xs) {
        assert xs[0][0] in xs[0] && xs[|xs| - 1][|xs[|xs| - 1]| - 1] in xs[|xs| - 1];
        TrimFixed((c: char) => c == sep, s);
      } else if s != "" {
        TrimSepLoses(sep, s);
        SplitLength(sep, s);
        SplitLength(sep, TrimSep(sep, s));
      }
    }
  }

  /** How many entries at the front are blank. */
  function BlankLead(xs: seq<string>): nat {
    if xs != [] && xs[0] == "" then 1 + BlankLead(xs[1..]) else 0
  }

  /** The position after the last entry that is not blank. */
  function BlankTail(xs: seq<string>): nat {
    if xs != [] && xs[|xs| - 1] == "" then BlankTail(xs[..|xs| - 1]) else |xs|
  }

  predicate AllBlank(xs: seq<string>) {
    forall k :: 0 <= k < |xs| ==> xs[k] == ""
  }

  lemma {:induction false} BlankLeadShape(xs: seq<string>)
    ensures BlankLead(xs) <= |xs|
    ensures forall k :: 0 <= k < BlankLead(xs) ==> xs[k] == ""
    ensures BlankLead(xs) < |xs| ==> xs[BlankLead(xs)] != ""
  {
    if xs != [] && xs[0] == "" {
      BlankLeadShape(xs[1..]);
      assert forall k :: 1 <= k < |xs| ==> xs[k] == xs[1..][k - 1];
    }
  }

  lemma {:induction false} BlankTailShape(xs: seq<string>)
    ensures BlankTail(xs) <= |xs|
    ensures forall k :: BlankTail(xs) <= k < |xs| ==> xs[k] == ""
    ensures BlankTail(xs) > 0 ==> xs[BlankTail(xs) - 1] != ""
  {
    if xs != [] && xs[|xs| - 1] == "" {
      BlankTailShape(xs[..|xs| - 1]);
    }
  }

  /** The entries between the outer blank ones. */
  function Inner(xs: seq<string>): (r: seq<string>)
    ensures |r| <= |xs|
  {
    BlankLeadShape(xs);
    BlankTailShape(xs);
    if BlankLead(xs) <= BlankTail(xs) then xs[BlankLead(xs)..BlankTail(xs)] else []
  }

  lemma InnerIs(xs: seq<string>, i: nat, j: nat)
    requires i < j <= |xs| && xs[i] != "" && xs[j - 1] != ""
    requires forall k :: 0 <= k < i || j <= k < |xs| ==> xs[k] == ""
    ensures BlankLead(xs) == i && BlankTail(xs) == j && Inner(xs) == xs[i..j]
  {
    BlankLeadShape(xs);
    BlankTailShape(xs);
  }

  lemma TrimBefore(p: char -> bool, c: char, s: string)
    requires p(c) && Trim(p, s) != ""
    ensures Trim(p, [c] + s) == Trim(p, s)
  {
    hide Trim;
    var i, j := TrimShape(p, s);
    TrimIs(p, [c] + s, i + 1, j + 1);
    assert ([c] + s)[i + 1..j + 1] == s[i..j];
  }

  lemma TrimAfter(p: char -> bool, s: string, c: char)
    requires p(c) && Trim(p, s) != ""
    ensures Trim(p, s + [c]) == Trim(p, s)
  {
    hide Trim;
    var i, j := TrimShape(p, s);
    TrimIs(p, s + [c], i, j);
    assert (s + [c])[i..j] == s[i..j];
  }

  lemma TrimSepAround(sep: char, s: string)
    requires exists c :: c in s && c != sep
    ensures TrimSep(sep, [sep] + s) == TrimSep(sep, s)
    ensures TrimSep(sep, s + [sep]) == TrimSep(sep, s)
  {
    hide Trim;
    var p := (c: char) => c == sep;
    TrimmedAway(p, s);
    TrimBefore(p, sep, s);
    TrimAfter(p, s, sep);
  }

  lemma {:induction false} JoinSnoc(sep: char, xs: seq<string>, x: string)
    requires xs != []
    ensures Join(sep, xs + [x]) == Join(sep, xs) + [sep] + x
  {
    assert (xs + [x])[1..] == xs[1..] + [x];
    if |xs| > 1 {
      JoinSnoc(sep, xs[1..], x);
    }
  }

  lemma {:induction false} JoinNotBlank(sep: char, xs: seq<string>)
    requires SepFree(sep, xs) && !AllBlank(xs)
    ensures exists c :: c in Join(sep, xs) && c != sep
  {
    if xs[0] != "" {
      assert xs[0][0] in xs[0] && xs[0][0] in Join(sep, xs);
    } else {
      JoinNotBlank(sep, xs[1..]);
      var c :| c in Join(sep, xs[1..]) && c != sep;
      assert c in Join(sep, xs);
    }
  }

  lemma InnerAround(xs: seq<string>)
    requires !AllBlank(xs)
    ensures Inner([""] + xs) == Inner(xs) && Inner(xs + [""]) == Inner(xs)
  {
    BlankLeadShape(xs);
    BlankTailShape(xs);
    hide BlankLead, BlankTail;
    var i, j := BlankLead(xs), BlankTail(xs);
    InnerIs([""] + xs, i + 1, j + 1);
    InnerIs(xs + [""], i, j);
    assert ([""] + xs)[i + 1..j + 1] == xs[i..j] == (xs + [""])[i..j];
  }

  lemma LinesAround(sep: char, xs: seq<string>)
    requires SepFree(sep, xs) && !AllBlank(xs)
    ensures Join(sep, [""] + xs) != "" && Lines(sep, Join(sep, [""] + xs)) == Lines(sep, Join(sep, xs))
    ensures Join(sep, xs + [""]) != "" && Lines(sep, Join(sep, xs + [""])) == Lines(sep, Join(sep, xs))
  {
    JoinNotBlank(sep, xs);
    TrimSepAround(sep, Join(sep, xs));
    JoinSnoc(sep, xs, "");
    assert ([""] + xs)[1..] == xs;
    assert Join(sep, [""] + xs) == [sep] + Join(sep, xs);
    assert Join(sep, xs + [""]) == Join(sep, xs) + [sep];
  }

  /** What a list that is not all blank comes back as: its outer blank entries
      are lost. */
  lemma {:induction false} LinesJoinInner(sep: char, xs: seq<string>)
    requires SepFree(sep, xs) && !AllBlank(xs)
    ensures Join(sep, xs) != "" && Lines(sep, Join(sep, xs)) == Inner(xs)
    decreases |xs|
  {
    hide Lines, Join, Inner;
    var n := |xs| - 1;
    if xs[0] == "" {
      assert xs == [""] + xs[1..];
      LinesJoinInner(sep, xs[1..]);
      LinesAround(sep, xs[1..]);
      InnerAround(xs[1..]);
    } else if xs[n] == "" {
      assert xs == xs[..n] + [""];
      LinesJoinInner(sep, xs[..n]);
      LinesAround(sep, xs[..n]);
      InnerAround(xs[..n]);
    } else {
      LinesJoin(sep, xs);
      JoinEnds(sep, xs);
      InnerIs(xs, 0, |xs|);
      assert xs[0..|xs|] == xs;
    }
  }

  lemma {:induction false} SplitNoLonger(sep: char, s: string)
    ensures forall p :: p in Split(sep, s) ==> |p| <= |s|
  {
    if s != "" {
      SplitNoLonger(sep, s[1..]);
      assert Split(sep, s[1..])[0] in Split(sep, s[1..]);
    }
  }

  /** Outer separators only contribute empty pieces. */
  lemma {:induction false} TrimLeftPieces(sep: char, s: string)
    ensures forall p :: p != "" ==> (p in Split(sep, TrimLeft(c => c == sep, s)) <==> p in Split(sep, s))
  {
    if s != "" && s[0] == sep {
      TrimLeftPieces(sep, s[1..]);
      assert Split(sep, s) == [""] + Split(sep, s[1..]);
    }
  }

  lemma {:induction false} TrimRightPieces(sep: char, s: string)
    ensures forall p :: p != "" ==> (p in Split(sep, TrimRight(c => c == sep, s)) <==> p in Split(sep, s))
  {
    if s != "" && s[|s| - 1] == sep {
      var t := s[..|s| - 1];
      TrimRightPieces(sep, t);
      assert s == t + [sep] + "";
      SplitAppend(sep, t, "");
    }
  }

  /** p is one of the pieces the entries of xs split into. */
  ghost predicate InPieces(sep: char, xs: seq<string>, p: string) {
    exists x :: x in xs && p in Split(sep, x)
  }

  lemma {:induction false} JoinPieces(sep: char, xs: seq<string>, p: string)
    requires p != ""
    ensures p in Split(sep, Join(sep, xs)) <==> InPieces(sep, xs, p)
  {
    if |xs| > 1 {
      JoinPieces(sep, xs[1..], p);
      SplitAppend(sep, xs[0], Join(sep, xs[1..]));
      assert xs == [xs[0]] + xs[1..];
      if p in Split(sep, Join(sep, xs)) && p !in Split(sep, xs[0]) {
        var x :| x in xs[1..] && p in Split(sep, x);
        assert x in xs;
      }
    } else if |xs| == 1 {
      assert xs == [xs[0]];
    }
  }

  /** What any list at all turns into when it is stored and read back: the
      non-empty pieces of its entries. */
  lemma LinesPieces(sep: char, xs: seq<string>, p: string)
    requires p != ""
    ensures p in Lines(sep, Join(sep, xs)) <==> InPieces(sep, xs, p)
  {
    var s := Join(sep, xs);
    JoinPieces(sep, xs, p);
    TrimLeftPieces(sep, s);
    TrimRightPieces(sep, TrimLeft(c => c == sep, s));
  }
}
