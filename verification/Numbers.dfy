/**
 Machine numbers and sums.
 */
module Numbers {

  type Byte = x: int | 0 <= x < 256

  const TWO_63: int := 0x8000_0000_0000_0000
  const TWO_64: int := 0x1_0000_0000_0000_0000

  const NANOS_PER_SECOND := 1_000_000_000

  function Min(a: int, b: int): int {
    if a < b then a else b
  }

  function Max(a: int, b: int): int {
    if a > b then a else b
  }

  // ---------------------------------------------------------------- sums over a map

  ghost function Total<K, V>(m: map<K, V>, f: V -> nat): nat {
    if m == map[] then 0
    else
      var k :| k in m;
      f(m[k]) + Total(m - {k}, f)
  }

  lemma {:induction false} TotalWithout<K, V>(m: map<K, V>, k: K, f: V -> nat)
    requires k in m
    ensures Total(m, f) == f(m[k]) + Total(m - {k}, f)
    decreases |m|
  {
    var first :| first in m && Total(m, f) == f(m[first]) + Total(m - {first}, f);
    if first != k {
      TotalWithout(m - {first}, k, f);
      TotalWithout(m - {k}, first, f);
      assert m - {first} - {k} == m - {k} - {first};
    }
  }

  lemma TotalMove<K, V>(m: map<K, V>, k: K, v: V, f: V -> nat)
    ensures Total(m[k := v], f) == Total(m, f) - (if k in m then f(m[k]) else 0) + f(v)
  {
    TotalWithout(m[k := v], k, f);
    assert m[k := v] - {k} == m - {k};
    if k in m {
      TotalWithout(m, k, f);
    } else {
      assert m - {k} == m;
    }
  }

  lemma {:induction false} TotalSame<K, V>(m: map<K, V>, f: V -> nat, g: V -> nat)
    requires forall k :: k in m ==> f(m[k]) == g(m[k])
    ensures Total(m, f) == Total(m, g)
    decreases |m|
  {
    if m != map[] {
      var k :| k in m;
      TotalWithout(m, k, f);
      TotalWithout(m, k, g);
      TotalSame(m - {k}, f, g);
    }
  }

  /** The sum over a set. */
  ghost function TotalOf<T>(s: set<T>, f: T -> nat): nat {
    Total(map x | x in s :: x, f)
  }

  lemma TotalOfWithout<T>(s: set<T>, x: T, f: T -> nat)
    requires x in s
    ensures TotalOf(s, f) == f(x) + TotalOf(s - {x}, f)
  {
    var m := map y | y in s :: y;
    TotalWithout(m, x, f);
    assert m - {x} == map y | y in s - {x} :: y;
  }
}
