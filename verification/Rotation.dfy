/** The cycles of a left rotation of n places by m. */
module Rotation {

  // The greatest common divisor.
  function Gcd(a: nat, b: nat): (p: nat)
    ensures p == 0 <==> a == 0 && b == 0
    ensures a > 0 ==> p <= a
    decreases a + b
  {
    if b == 0 then a
    else if a == 0 then b
    else if a >= b then Gcd(a - b, b)
    else Gcd(a, b - a)
  }

  ghost predicate Multiple(a: int, p: int) {
    exists q {:trigger q * p} :: a == q * p
  }

  lemma MultipleSum(a: int, b: int, p: int)
    requires Multiple(a, p) && Multiple(b, p)
    ensures Multiple(a + b, p)
  {
    var q :| a == q * p;
    var r :| b == r * p;
    assert a + b == (q + r) * p;
  }

  lemma {:induction false} GcdDivides(a: nat, b: nat)
    ensures Multiple(a, Gcd(a, b)) && Multiple(b, Gcd(a, b))
    decreases a + b
  {
    var p := Gcd(a, b);
    if b == 0 {
      assert a == 1 * p && b == 0 * p;
    } else if a == 0 {
      assert a == 0 * p && b == 1 * p;
    } else if a >= b {
      GcdDivides(a - b, b);
      MultipleSum(a - b, b, p);
    } else {
      GcdDivides(a, b - a);
      MultipleSum(b - a, a, p);
    }
  }

  lemma ModShift(j: int, a: int, p: int)
    requires p > 0 && Multiple(a, p)
    ensures (j + a) % p == j % p
  {
    var q :| a == q * p;
    ModUnique(j + a, j / p + q, j % p, p);
  }

  lemma ModUnique(x: int, q: int, r: int, p: int)
    requires p > 0 && x == q * p + r && 0 <= r < p
    ensures x % p == r
  {
    var d := x / p - q;
    assert d * p == r - x % p;
    assert d >= 1 ==> d * p >= p;
    assert d <= -1 ==> d * p <= -p;
  }

  /* Sets of places that a shift does not change */

  ghost predicate In(v: set<int>, n: int, x: int)
    requires n > 0
  {
    x % n in v
  }

  ghost predicate Same(v: set<int>, n: int, s: int, x: int)
    requires n > 0
  {
    In(v, n, x) <==> In(v, n, x + s)
  }

  ghost predicate Unchanged(v: set<int>, n: int, s: int)
    requires n > 0
  {
    forall x {:trigger Same(v, n, s, x)} :: Same(v, n, s, x)
  }

  lemma UnchangedByDifference(v: set<int>, n: int, s: int, t: int)
    requires n > 0 && Unchanged(v, n, s) && Unchanged(v, n, t)
    ensures Unchanged(v, n, s - t)
  {
    var d := s - t;
    forall x ensures Same(v, n, d, x) {
      assert Same(v, n, s, x) && Same(v, n, t, x + d);
    }
  }

  lemma {:induction false} UnchangedByGcd(v: set<int>, n: int, a: nat, b: nat)
    requires n > 0 && Unchanged(v, n, a) && Unchanged(v, n, b)
    ensures Unchanged(v, n, Gcd(a, b))
    decreases a + b
  {
    if b == 0 || a == 0 {
    } else if a >= b {
      UnchangedByDifference(v, n, a, b);
      UnchangedByGcd(v, n, a - b, b);
    } else {
      UnchangedByDifference(v, n, b, a);
      UnchangedByGcd(v, n, a, b - a);
    }
  }

  // Where the node that goes to place j comes from.
  function Source(n: int, m: int, j: int): (k: int)
    requires 0 <= m <= n && 0 <= j < n
    ensures 0 <= k < n
  {
    if j < n - m then j + m else j - (n - m)
  }

  lemma SourceIsMod(n: int, m: int, x: int)
    requires 0 <= m <= n && 0 < n
    ensures (x + m) % n == Source(n, m, x % n)
  {
    var j := x % n;
    ModUnique(x + m, if j < n - m then x / n else x / n + 1, Source(n, m, j), n);
  }

  // A set of places that is closed both ways is changed neither by m nor by n.
  lemma ClosedIsUnchanged(v: set<int>, n: int, m: int)
    requires 0 <= m <= n && 0 < n
    requires forall j {:trigger Source(n, m, j)} | 0 <= j < n :: j in v <==> Source(n, m, j) in v
    ensures Unchanged(v, n, m) && Unchanged(v, n, n)
  {
    forall x ensures Same(v, n, m, x) {
      SourceIsMod(n, m, x);
    }
    forall x ensures Same(v, n, n, x) {
      ModUnique(x + n, x / n + 1, x % n, n);
    }
  }

  // Places that differ by a multiple of p are in it together.
  lemma {:induction false} Together(v: set<int>, n: int, p: int, j: int)
    requires 0 < p <= n && Unchanged(v, n, p) && 0 <= j < n
    ensures j in v <==> j % p in v
    decreases j
  {
    if j < p {
      ModUnique(j, 0, j, p);
    } else {
      Together(v, n, p, j - p);
      ModUnique(j - p, j / p - 1, j % p, p);
      assert Same(v, n, p, j - p);
      ModUnique(j, 0, j, n);
      ModUnique(j - p, 0, j - p, n);
    }
  }

  lemma SourceKeepsResidue(n: int, m: int, j: int)
    requires 0 <= m <= n && 0 <= j < n
    ensures 0 < Gcd(n, m) && Source(n, m, j) % Gcd(n, m) == j % Gcd(n, m)
  {
    var p := Gcd(n, m);
    GcdDivides(n, m);
    ModShift(j, m, p);
    ModShift(Source(n, m, j), n, p);
  }

  // A closed set with i in it and nothing of another residue is the residue class of i.
  lemma CycleIsClass(v: set<int>, n: int, m: int, i: int)
    requires 0 <= m <= n && 0 <= i < Gcd(n, m) && i in v
    requires forall j {:trigger Source(n, m, j)} | 0 <= j < n :: j in v <==> Source(n, m, j) in v
    requires forall j {:trigger j in v} | j in v :: 0 <= j < n && j % Gcd(n, m) == i
    ensures forall j {:trigger j in v} | 0 <= j < n :: j in v <==> j % Gcd(n, m) == i
  {
    var p := Gcd(n, m);
    ClosedIsUnchanged(v, n, m);
    UnchangedByGcd(v, n, n, m);
    forall j | 0 <= j < n ensures j in v <==> j % p == i {
      Together(v, n, p, j);
    }
  }

  // The place whose node comes from place k.
  function Back(n: int, m: int, k: int): (j: int)
    requires 0 <= m <= n && 0 <= k < n
    ensures 0 <= j < n && Source(n, m, j) == k
  {
    if k >= m then k - m else k + (n - m)
  }

  // The walk along the cycle of i has served the places in v and stands at j.
  ghost predicate Walking(n: int, m: int, i: int, v: set<int>, j: int)
    requires 0 <= m <= n
  {
    && 0 <= i < Gcd(n, m) <= n && 0 <= j < n && j !in v && j % Gcd(n, m) == i && (i in v || j == i)
    && (forall x {:trigger x in v} | x in v :: 0 <= x < n && x % Gcd(n, m) == i)
    && (forall x {:trigger Source(n, m, x)} | x in v :: Source(n, m, x) in v || Source(n, m, x) == j)
    && (forall x {:trigger Back(n, m, x)} | 0 <= x < n && (x in v || x == j) && x != i :: Back(n, m, x) in v)
  }

  lemma WalkStarts(n: int, m: int, i: int)
    requires 0 <= m <= n && 0 <= i < Gcd(n, m)
    ensures Walking(n, m, i, {}, i)
  {
    ModUnique(i, 0, i, Gcd(n, m));
  }

  // One step further.
  lemma WalkGoesOn(n: int, m: int, i: int, v: set<int>, j: int)
    requires 0 <= m <= n && Walking(n, m, i, v, j) && Source(n, m, j) != i
    ensures Walking(n, m, i, v + {j}, Source(n, m, j))
  {
    var k := Source(n, m, j);
    SourceKeepsResidue(n, m, j);
    assert Back(n, m, k) == j;
  }

  // The walk that comes back to i has served exactly the places of the residue of i.
  lemma WalkEnds(n: int, m: int, i: int, v: set<int>, j: int)
    requires 0 <= m <= n && Walking(n, m, i, v, j) && Source(n, m, j) == i
    ensures forall x {:trigger x in v} | 0 <= x < n :: x in v + {j} <==> x % Gcd(n, m) == i
  {
    var w := v + {j};
    assert Back(n, m, i) == j;
    forall x {:trigger Source(n, m, x)} | 0 <= x < n
      ensures x in w <==> Source(n, m, x) in w
    {
      if Source(n, m, x) in w && Source(n, m, x) != i {
        assert Back(n, m, Source(n, m, x)) == x;
      }
    }
    CycleIsClass(w, n, m, i);
    assert forall x {:trigger x in v} | 0 <= x < n :: x in v || x == j <==> x in w;
  }

  function Below(n: nat): (v: set<int>)
    ensures |v| == n && forall x {:trigger x in v} :: x in v <==> 0 <= x < n
  {
    if n == 0 then {} else Below(n - 1) + {n - 1}
  }

  lemma {:induction false} Smaller(v: set<int>, w: set<int>)
    requires v <= w
    ensures |v| <= |w|
  {
    assert w == v + (w - v);
  }

  // A walk is not longer than the array.
  lemma WalkIsShort(n: nat, v: set<int>)
    requires forall x {:trigger x in v} | x in v :: 0 <= x < n
    ensures |v| <= n
  {
    assert v <= Below(n);
    Smaller(v, Below(n));
  }
}
