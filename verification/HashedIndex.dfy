/** A hashed non-unique index over a chain: elements with equivalent keys are a group, and hash to its bucket. */
module HashedIndex {

  import opened Ordering
  import opened HashLayout
  import opened HashIndexNode
  import S = Spans

  ghost predicate Compatible(eq: Eq, hash: int -> nat) {
    forall a, b {:trigger eq(a, b)} :: eq(a, b) ==> hash(a) == hash(b)
  }

  class Index {
    const chain: Chain
    const buckets: seq<Cell>   // the last one is the header's
    const key: int -> int
    const eq: Eq
    const hash: int -> nat

    // The empty index around a header and an array of buckets.
    constructor (end: Cell, bs: seq<Cell>, k: int -> int, e: Eq, h: int -> nat)
      requires |bs| > 1 && Chain.Fit(end, bs) && Equivalence(e) && Compatible(e, h)
      modifies end`prior, end`next, bs`prior
      ensures Valid() && fresh(chain) && chain.end == end && chain.s.nodes == [end] && chain.buckets == (set b <- bs)
      ensures buckets == bs && key == k && eq == e && hash == h
    {
      chain := new Chain(end, bs);
      buckets, key, eq, hash := bs, k, e, h;
      new;
      assert forall m {:trigger bs[m]} | 0 <= m < |bs| :: bs[m] in chain.buckets;
      assert B(chain.s, 0) == bs[|bs| - 1];
    }

    // An index with the nodes of c and the array bs.
    constructor Over(c: Chain, bs: seq<Cell>, k: int -> int, e: Eq, h: int -> nat)
      ensures chain == c && buckets == bs && key == k && eq == e && hash == h
    {
      chain, buckets, key, eq, hash := c, bs, k, e, h;
    }

    // The key of node j of the chain.
    ghost function Q(j: int): int
      requires Inside(chain.s, j)
      reads chain, chain.s.nodes`value
    {
      key(N(chain.s, j).value)
    }

    // The chain and the buckets go together, whatever the keys.
    ghost predicate Wired()
      reads chain, chain.s.nodes`prior, chain.s.nodes`next, chain.buckets`prior
    {
      && chain.Valid() && |buckets| > 1
      && (forall m {:trigger buckets[m]} | 0 <= m < |buckets| - 1 ::
        buckets[m] in chain.buckets && buckets[m] != B(chain.s, Last(chain.s)))
      && Equivalence(eq) && Compatible(eq, hash)
    }

    // But for the node at i, equivalent keys are a group.
    ghost predicate GroupedBut(i: int)
      requires Sized(chain.s)
      reads chain, chain.s.nodes`value
    {
      forall a, b {:trigger Q(a), Q(b)} | 0 <= a < Last(chain.s) && 0 <= b < Last(chain.s) && a != i && b != i ::
        eq(Q(a), Q(b)) <==> G(chain.s, a) == G(chain.s, b)
    }

    // The node at i may stay where it is with key k.
    ghost predicate Stays(i: int, k: int, buc: Cell)
      requires Shaped(chain.s) && 0 <= i < Last(chain.s)
      reads chain, chain.s.nodes`value
    {
      && B(chain.s, i) == buc
      && (Large(G(chain.s, i)) ==>
        forall m {:trigger Q(m)} | 0 <= m < Last(chain.s) && m != i && G(chain.s, m) == G(chain.s, i) :: eq(k, Q(m)))
      && (!Large(G(chain.s, i)) ==>
        forall m {:trigger Q(m)} | 0 <= m < Last(chain.s) && m != i && B(chain.s, m) == buc && eq(k, Q(m)) ::
          i - 1 <= m <= i + 1)
    }

    ghost predicate Hit(i: int, k: int, m: int)
      requires Inside(chain.s, m)
      reads chain, chain.s.nodes`value
    {
      m != i && eq(k, Q(m))
    }

    ghost predicate NoHits(i: int, k: int, lo: int, j: int)
      reads chain, chain.s.nodes`value
    {
      forall m {:trigger Q(m)} {:trigger Hit(i, k, m)} | lo <= m < j && Inside(chain.s, m) :: !Hit(i, k, m)
    }

    // What the scan knows before node j of the bucket that starts at lo.
    ghost predicate Scanned(i: int, k: int, lo: int, j: int, found: bool, size: int)
      requires Shaped(chain.s) && 0 <= i < Last(chain.s) && 0 <= lo <= j <= Last(chain.s)
      reads chain, chain.s.nodes`value
    {
      && (found <==> lo <= i < j && !Large(G(chain.s, i)))
      && 0 <= size <= 2
      && (size == 0 ==> NoHits(i, k, lo, j) && (found ==> i <= j - 2))
      && (size == 1 && found ==> NoHits(i, k, lo, j) && i == j - 1)
      && (size == 1 && !found ==> lo < j && NoHits(i, k, lo, j - 1) && Hit(i, k, j - 1) && !Large(G(chain.s, j - 1)))
      && (size == 2 ==> found && i == j - 2 && NoHits(i, k, lo, j - 1) && Hit(i, k, j - 1))
    }

    ghost predicate Place(i: int, k: int, lo: int, j: int, buc: Cell)
      reads chain, chain.s.nodes`value
    {
      && Shaped(chain.s) && Equivalence(eq) && 0 <= i < Last(chain.s) && GroupedBut(i)
      && 0 <= lo < Last(chain.s) && B(chain.s, lo) == buc
      && K(chain.s, lo).lo == lo <= j <= K(chain.s, lo).hi < Last(chain.s)
      && (forall m {:trigger B(chain.s, m)} | Inside(chain.s, m) && B(chain.s, m) == buc ::
        lo <= m <= K(chain.s, lo).hi)
      && (lo <= i <= K(chain.s, lo).hi ==> B(chain.s, i) == buc)
    }

    lemma SameClass(i: int, k: int, a: int, b: int)
      requires Sized(chain.s) && Equivalence(eq) && GroupedBut(i)
      requires 0 <= a < Last(chain.s) && 0 <= b < Last(chain.s) && Hit(i, k, a) && Hit(i, k, b)
      ensures G(chain.s, a) == G(chain.s, b)
    {
      assert eq(Q(a), k) && eq(k, Q(b));
    }

    // A large group has a node besides i.
    lemma Other(i: int) returns (m: int)
      requires Shaped(chain.s) && 0 <= i < Last(chain.s) && Large(G(chain.s, i))
      ensures Inside(chain.s, m) && m != i && G(chain.s, m) == G(chain.s, i) && B(chain.s, m) == B(chain.s, i)
    {
      Unfold(chain.s, i);
      m := if i == G(chain.s, i).lo then i + 1 else i - 1;
      SameGroup(chain.s, i, m);
    }

    // A lone hit that i is not beside keeps i from staying.
    lemma LoneHit(i: int, k: int, lo: int, j: int, buc: Cell)
      requires Place(i, k, lo, j - 1, buc) && Scanned(i, k, lo, j, false, 1) && j != i
      ensures !Stays(i, k, buc)
    {
      if Stays(i, k, buc) {
        SameBucket(chain.s, lo, j - 1);
        if Large(G(chain.s, i)) {
          var m := Other(i);
          HeaderApart(chain.s, i);
          Unfold(chain.s, m);
          SameClass(i, k, m, j - 1);
        }
      }
    }

    // Nodes in the same group between which i lies make its group large.
    lemma Around(i: int, a: int, b: int)
      requires Shaped(chain.s) && Inside(chain.s, a) && Inside(chain.s, b) && a < i < b
        && G(chain.s, a) == G(chain.s, b)
      ensures G(chain.s, i) == G(chain.s, a) && Large(G(chain.s, i))
    {
      Unfold(chain.s, a);
      Unfold(chain.s, b);
      SameGroup(chain.s, a, i);
    }

    // Right after a lone hit x may stay.
    lemma NextToHit(i: int, k: int, lo: int, buc: Cell)
      requires Place(i, k, lo, i, buc) && Scanned(i, k, lo, i, false, 1) && !Large(G(chain.s, i))
      ensures Stays(i, k, buc)
    {
      SameBucket(chain.s, lo, i);
      forall m {:trigger Q(m)} | 0 <= m < Last(chain.s) && m != i && B(chain.s, m) == buc && eq(k, Q(m))
        ensures i - 1 <= m <= i + 1
      {
        if m > i { SameClass(i, k, i - 1, m); Around(i, i - 1, m); }
      }
    }

    // After x and one hit beside it there is no other, once a node with another key came.
    lemma PairMet(i: int, k: int, lo: int, j: int, buc: Cell)
      requires Place(i, k, lo, j, buc) && Scanned(i, k, lo, j, true, 2) && !Hit(i, k, j)
      ensures Stays(i, k, buc)
    {
      forall m {:trigger Q(m)} | 0 <= m < Last(chain.s) && m != i && B(chain.s, m) == buc && eq(k, Q(m))
        ensures i - 1 <= m <= i + 1
      {
        if m > j {
          SameClass(i, k, j - 1, m);
          Around(j, j - 1, m);
        }
      }
    }

    // Another hit, not beside x or with one before it.
    lemma FarHit(i: int, k: int, lo: int, j: int, buc: Cell, found: bool, size: int)
      requires Place(i, k, lo, j, buc) && Scanned(i, k, lo, j, found, size) && Hit(i, k, j)
      requires (size == 0 && found) || size == 2
      ensures !Stays(i, k, buc)
    {
      SameBucket(chain.s, lo, j);
    }

    // At the end of the bucket x may stay if it was found.
    lemma AtEnd(i: int, k: int, lo: int, j: int, buc: Cell, found: bool, size: int)
      requires Place(i, k, lo, j - 1, buc) && j == K(chain.s, lo).hi + 1 && Scanned(i, k, lo, j, found, size)
      ensures Stays(i, k, buc) <==> found
    {
      if found {
      } else if size == 1 {
        if i != j { LoneHit(i, k, lo, j, buc); }
      } else if lo <= i < j {
        var m := Other(i);
        var q := Q(m);
      }
    }

    // The first of a large group is a hit: x may stay if it belongs there.
    lemma LargeHit(i: int, k: int, lo: int, j: int, buc: Cell, found: bool, size: int)
      requires Place(i, k, lo, j, buc) && Scanned(i, k, lo, j, found, size) && Hit(i, k, j)
      requires Large(G(chain.s, j)) && j == G(chain.s, j).lo
      ensures Stays(i, k, buc) <==> j <= i <= G(chain.s, j).hi
    {
      SameBucket(chain.s, lo, j);
      Unfold(chain.s, j);
      Unfold(chain.s, i);
      HeaderApart(chain.s, j);
      if i != j + 1 { Members(i, k, j, j + 1); }
      if i != j + 2 { Members(i, k, j, j + 2); }
      if j <= i <= G(chain.s, j).hi {
        SameGroup(chain.s, j, i);
        forall m {:trigger Q(m)} | 0 <= m < Last(chain.s) && m != i && G(chain.s, m) == G(chain.s, i)
          ensures eq(k, Q(m))
        {
          Unfold(chain.s, m);
          Members(i, k, j, m);
        }
      } else if Large(G(chain.s, i)) && B(chain.s, i) == buc {
        var m := Other(i);
        Unfold(chain.s, m);
        NotThere(i, k, j, m);
      }
    }

    lemma Members(i: int, k: int, j: int, m: int)
      requires Shaped(chain.s) && Equivalence(eq) && GroupedBut(i) && Inside(chain.s, j) && j != i
      requires G(chain.s, j).lo <= m <= G(chain.s, j).hi < Last(chain.s) && m != i
      ensures Inside(chain.s, m) && B(chain.s, m) == B(chain.s, j) && (eq(k, Q(m)) <==> eq(k, Q(j)))
    {
      Unfold(chain.s, j);
      SameGroup(chain.s, j, m);
      assert eq(Q(j), Q(m)) && eq(Q(m), Q(j));
    }

    lemma NotThere(i: int, k: int, j: int, m: int)
      requires Shaped(chain.s) && Equivalence(eq) && 0 <= i < Last(chain.s) && GroupedBut(i)
      requires 0 <= j < Last(chain.s) && 0 <= m < Last(chain.s) && m != i && Hit(i, k, j)
        && G(chain.s, m) != G(chain.s, j)
      ensures !eq(k, Q(m))
    {
      if eq(k, Q(m)) { SameClass(i, k, j, m); }
    }

    // A large group that is no hit, x in it or not, is passed over.
    lemma LargeMiss(i: int, k: int, lo: int, j: int, buc: Cell, found: bool, size: int)
      requires Place(i, k, lo, j, buc) && Scanned(i, k, lo, j, found, size) && !eq(k, Q(j)) && j != i
      requires Large(G(chain.s, j)) && j == G(chain.s, j).lo && (size == 1 ==> found) && size < 2
      ensures 0 <= G(chain.s, j).hi < Last(chain.s) && Scanned(i, k, lo, G(chain.s, j).hi + 1, found, 0)
    {
      Unfold(chain.s, j);
      HeaderApart(chain.s, j);
      forall m | j <= m <= G(chain.s, j).hi ensures Inside(chain.s, m) && !Hit(i, k, m) {
        if m != i { Members(i, k, j, m); }
      }
      if j <= i <= G(chain.s, j).hi { SameGroup(chain.s, j, i); }
    }

    // x is the first of a large group: it may stay if its key is that of the second.
    lemma FirstStays(i: int, k: int, buc: Cell)
      requires Shaped(chain.s) && Equivalence(eq) && 0 <= i < Last(chain.s) && GroupedBut(i) && B(chain.s, i) == buc
      requires Large(G(chain.s, i)) && i == G(chain.s, i).lo
      ensures Stays(i, k, buc) <==> eq(k, Q(i + 1))
    {
      Unfold(chain.s, i);
      HeaderApart(chain.s, i);
      SameGroup(chain.s, i, i + 1);
      forall m {:trigger Q(m)} | 0 <= m < Last(chain.s) && m != i && G(chain.s, m) == G(chain.s, i)
        ensures eq(k, Q(m)) <==> eq(k, Q(i + 1))
      {
        Unfold(chain.s, m);
        Members(i, k, i + 1, m);
      }
    }

    // The loop over the group that starts with y, up to the node after it.
    method FindInGroup(y: Cell, x: Cell, z: Cell?, ghost i: int, ghost j: int) returns (b: bool)
      requires Wired() && chain.Inner(x, i) && chain.Inner(y, j) && Large(G(chain.s, j)) && j == G(chain.s, j).lo
      requires 0 <= G(chain.s, j).hi <= K(chain.s, j).hi < Last(chain.s)
      requires z == if G(chain.s, j).hi < K(chain.s, j).hi then N(chain.s, G(chain.s, j).hi + 1) else null
      ensures b <==> j <= i <= G(chain.s, j).hi
    {
      var u: Cell? := y;
      ghost var m := j;
      ghost var l := G(chain.s, j).hi;
      while true
        invariant j <= m <= l && u == N(chain.s, m) && !(j <= i < m)
        decreases l - m
      {
        assert Same(chain.s, m, i) <==> m == i;
        if u == x {
          return true;
        }
        SameGroup(chain.s, j, m);
        u := chain.AfterLocal(u, m);
        if u == z {
          assert m < l ==> !Same(chain.s, m + 1, if l < K(chain.s, j).hi then l + 1 else m);
          return false;
        }
        m := m + 1;
      }
    }

    // The node after a large group in its bucket.
    function AfterLarge(y: Cell, ghost j: int): (z: Cell?)
      requires Wired() && chain.Inner(y, j) && Large(G(chain.s, j)) && j == G(chain.s, j).lo
      reads chain, chain.s.nodes`prior, chain.s.nodes`next, chain.buckets`prior
      ensures 0 <= G(chain.s, j).hi <= K(chain.s, j).hi < Last(chain.s)
      ensures z == if G(chain.s, j).hi < K(chain.s, j).hi then N(chain.s, G(chain.s, j).hi + 1) else null
    {
      GroupPointers(chain.s, chain.buckets, j);
      SameGroup(chain.s, j, G(chain.s, j).hi);
      chain.AfterLocal(y.next.prior, G(chain.s, j).hi)
    }

    // What the first of a large group, not x, tells.
    lemma LargeTells(i: int, k: int, lo: int, j: int, buc: Cell, found: bool, size: int)
      requires Place(i, k, lo, j, buc) && Scanned(i, k, lo, j, found, size) && j != i
      requires Large(G(chain.s, j)) && j == G(chain.s, j).lo
      ensures eq(k, Q(j)) && found ==> !Stays(i, k, buc)
      ensures eq(k, Q(j)) && !found ==> (Stays(i, k, buc) <==> j <= i <= G(chain.s, j).hi)
      ensures !eq(k, Q(j)) && size == 1 && !found ==> !Stays(i, k, buc)
      ensures !eq(k, Q(j)) && size == 2 ==> Stays(i, k, buc)
      ensures !eq(k, Q(j)) && size != 2 && (size == 1 ==> found) ==>
        j <= G(chain.s, j).hi < Last(chain.s) && Scanned(i, k, lo, G(chain.s, j).hi + 1, found, 0)
    {
      Unfold(chain.s, j);
      if eq(k, Q(j)) {
        LargeHit(i, k, lo, j, buc, found, size);
      } else if size == 1 && !found {
        LoneHit(i, k, lo, j, buc);
      } else if size == 2 {
        PairMet(i, k, lo, j, buc);
      } else {
        LargeMiss(i, k, lo, j, buc, found, size);
      }
    }

    // What the scan does at the first of a large group that is not x; otherwise it goes on with z.
    method ScanLarge(y: Cell, x: Cell, k: int, found: bool, size: int, ghost i: int, ghost lo: int, ghost j: int,
        ghost buc: Cell)
        returns (done: bool, b: bool, z: Cell?)
      requires Wired() && chain.Inner(x, i) && chain.Inner(y, j) && y != x && Large(G(chain.s, j))
        && j == G(chain.s, j).lo
      requires Place(i, k, lo, j, buc) && Scanned(i, k, lo, j, found, size)
      ensures done ==> (b <==> Stays(i, k, buc))
      ensures 0 <= G(chain.s, j).hi <= K(chain.s, j).hi < Last(chain.s)
      ensures z == if G(chain.s, j).hi < K(chain.s, j).hi then N(chain.s, G(chain.s, j).hi + 1) else null
      ensures !done ==> Scanned(i, k, lo, G(chain.s, j).hi + 1, found, 0)
    {
      LargeTells(i, k, lo, j, buc, found, size);
      z := AfterLarge(y, j);
      done, b := true, false;
      if eq(k, key(y.value)) {
        if !found {
          b := FindInGroup(y, x, z, i, j);
        }
      } else if size == 1 && !found {
      } else if size == 2 {
        b := found;
      } else {
        done := false;
      }
    }

    // What the scan does at a node of a small group.
    method ScanSmall(y: Cell, x: Cell, k: int, found: bool, size: int, ghost i: int, ghost lo: int, ghost j: int,
        ghost buc: Cell)
        returns (done: bool, b: bool, found': bool, size': int)
      requires Wired() && chain.Inner(x, i) && chain.Inner(y, j) && !Large(G(chain.s, j))
      requires Place(i, k, lo, j, buc) && Scanned(i, k, lo, j, found, size)
      ensures done ==> (b <==> Stays(i, k, buc))
      ensures !done ==> Scanned(i, k, lo, j + 1, found', size')
    {
      assert Same(chain.s, j, i) <==> j == i;
      assert Hit(i, k, j) <==> y != x && eq(k, key(y.value));
      done, b, found', size' := true, false, found, size;
      if y == x {
        if size == 1 {
          NextToHit(i, k, lo, buc);
          b := true;
        } else {
          done, size', found' := false, 1, true;
        }
      } else if eq(k, key(y.value)) {
        if (size == 0 && found) || size == 2 {
          FarHit(i, k, lo, j, buc, found, size);
        } else if size == 1 && !found {
          LoneHit(i, k, lo, j, buc);
        } else {
          done, size' := false, size + 1;
        }
      } else {
        if size == 1 && !found {
          LoneHit(i, k, lo, j, buc);
        } else if size == 2 {
          PairMet(i, k, lo, j, buc);
          b := found;
        } else {
          done, size' := false, 0;
        }
      }
    }

    // Node j is where the scan stands in the bucket that starts at lo, and y that node or null after the last.
    ghost predicate Standing(y: Cell?, lo: int, j: int)
      requires Shaped(chain.s) && 0 <= lo < Last(chain.s)
      reads chain
    {
      && lo <= j <= K(chain.s, lo).hi + 1 <= Last(chain.s)
      && y == (if j <= K(chain.s, lo).hi then N(chain.s, j) else null)
      && (j <= K(chain.s, lo).hi && Large(G(chain.s, j)) ==> j == G(chain.s, j).lo)
    }

    // The answer when x is the first of a large group.
    method AtFirst(x: Cell, k: int, ghost i: int, ghost buc: Cell) returns (b: bool)
      requires Wired() && chain.Inner(x, i) && GroupedBut(i) && B(chain.s, i) == buc && Large(G(chain.s, i))
        && i == G(chain.s, i).lo
      ensures b <==> Stays(i, k, buc)
    {
      GroupPointers(chain.s, chain.buckets, i);
      FirstStays(i, k, buc);
      b := eq(k, key(x.next.value));
    }

    method Scan(y: Cell, x: Cell, k: int, found: bool, size: int, ghost i: int, ghost lo: int, ghost j: int,
        ghost buc: Cell)
        returns (done: bool, b: bool, y': Cell?, found': bool, size': int, ghost j': int)
      requires Wired() && chain.Inner(x, i) && Place(i, k, lo, j, buc) && Standing(y, lo, j)
        && Scanned(i, k, lo, j, found, size)
      ensures done ==> (b <==> Stays(i, k, buc))
      ensures !done ==> j < j' && Standing(y', lo, j') && Scanned(i, k, lo, j', found', size')
    {
      assert chain.Inner(y, j);
      if chain.IsFirstOfGroup(y, j) {
        found', size', j' := found, 0, G(chain.s, j).hi + 1;
        done, b, y' := ScanGroup(y, x, k, found, size, i, lo, j, buc);
      } else {
        j' := j + 1;
        done, b, y', found', size' := ScanNode(y, x, k, found, size, i, lo, j, buc);
      }
    }

    lemma BucketGoesOn(lo: int, j: int)
      requires Shaped(chain.s) && 0 <= lo < Last(chain.s) && lo <= j <= K(chain.s, lo).hi < Last(chain.s)
      requires Large(G(chain.s, j)) ==> j == G(chain.s, j).lo
      ensures K(chain.s, j) == K(chain.s, lo) && B(chain.s, j) == B(chain.s, lo)
      ensures var n := if Large(G(chain.s, j)) then G(chain.s, j).hi + 1 else j + 1;
        && j < n <= K(chain.s, lo).hi + 1
        && (n <= K(chain.s, lo).hi && Large(G(chain.s, n)) ==> n == G(chain.s, n).lo)
    {
      Unfold(chain.s, lo);
      SameBucket(chain.s, lo, j);
      Unfold(chain.s, j);
      NextStarts(j);
    }

    method ScanNode(y: Cell, x: Cell, k: int, found: bool, size: int, ghost i: int, ghost lo: int, ghost j: int,
        ghost buc: Cell)
        returns (done: bool, b: bool, z: Cell?, found': bool, size': int)
      requires Wired() && chain.Inner(x, i) && chain.Inner(y, j) && !Large(G(chain.s, j))
      requires Place(i, k, lo, j, buc) && Scanned(i, k, lo, j, found, size)
      ensures done ==> (b <==> Stays(i, k, buc))
      ensures !done ==> Standing(z, lo, j + 1) && Scanned(i, k, lo, j + 1, found', size')
    {
      BucketGoesOn(lo, j);
      z := chain.AfterLocal(y, j);
      done, b, found', size' := ScanSmall(y, x, k, found, size, i, lo, j, buc);
    }

    // What the scan does at the first of a large group.
    method ScanGroup(y: Cell, x: Cell, k: int, found: bool, size: int, ghost i: int, ghost lo: int, ghost j: int,
        ghost buc: Cell)
        returns (done: bool, b: bool, z: Cell?)
      requires Wired() && chain.Inner(x, i) && chain.Inner(y, j) && Large(G(chain.s, j)) && j == G(chain.s, j).lo
      requires Place(i, k, lo, j, buc) && Scanned(i, k, lo, j, found, size)
      ensures done ==> (b <==> Stays(i, k, buc))
      ensures j <= G(chain.s, j).hi
      ensures !done ==> Standing(z, lo, G(chain.s, j).hi + 1) && Scanned(i, k, lo, G(chain.s, j).hi + 1, found, 0)
    {
      BucketGoesOn(lo, j);
      Unfold(chain.s, j);
      HeaderApart(chain.s, j);
      assert Same(chain.s, j, i) <==> j == i;
      if y == x {
        b := AtFirst(x, k, i, buc);
        done, z := true, null;
      } else {
        done, b, z := ScanLarge(y, x, k, found, size, i, lo, j, buc);
      }
    }

    // Tells whether x, found in the chain with its old key, may keep its place with key k in bucket buc.
    method InPlace(x: Cell, k: int, buc: nat, ghost i: int) returns (b: bool)
      requires Wired() && chain.Inner(x, i) && GroupedBut(i) && buc < |buckets| - 1
      ensures b <==> Stays(i, k, buckets[buc])
    {
      var found, size, done, r := false, 0, false, false;
      var y := buckets[buc].prior;
      if y == null {
        chain.HomeIsUsed(buckets[buc]);
        assert B(chain.s, i) in chain.s.home;
        return false;
      }
      ghost var lo := StartsAt(buc, i, k);
      ghost var j := lo;
      while y != null
        invariant Place(i, k, lo, K(chain.s, lo).hi, buckets[buc])
        invariant Standing(y, lo, j) && Scanned(i, k, lo, j, found, size)
        decreases K(chain.s, lo).hi + 1 - j
      {
        done, r, y, found, size, j := Scan(y, x, k, found, size, i, lo, j, buckets[buc]);
        if done {
          return r;
        }
      }
      AtEnd(i, k, lo, j, buckets[buc], found, size);
      return found;
    }

    // What follows a node of a small group, or a large group, starts its group if that is large.
    lemma NextStarts(j: int)
      requires Shaped(chain.s) && 0 <= j < Last(chain.s) && (Large(G(chain.s, j)) ==> j == G(chain.s, j).lo)
      ensures var n := if Large(G(chain.s, j)) then G(chain.s, j).hi + 1 else j + 1;
        Inside(chain.s, n) && (Large(G(chain.s, n)) ==> n == G(chain.s, n).lo)
    {
      var n := if Large(G(chain.s, j)) then G(chain.s, j).hi + 1 else j + 1;
      HeaderApart(chain.s, j);
      Unfold(chain.s, j);
      Unfold(chain.s, n);
      Apart(chain.s, j, n);
    }

    lemma StartsAt(buc: nat, i: int, k: int) returns (lo: int)
      requires Wired() && 0 <= i < Last(chain.s) && GroupedBut(i) && buc < |buckets| - 1 && buckets[buc].prior != null
      ensures Place(i, k, lo, lo, buckets[buc]) && buckets[buc].prior == N(chain.s, lo) && G(chain.s, lo).lo == lo
    {
      lo := BucketStart(buc);
      Unfold(chain.s, lo);
      if lo <= i <= K(chain.s, lo).hi { SameBucket(chain.s, lo, i); }
    }

    // The interval of a bucket that has nodes.
    lemma BucketStart(buc: nat) returns (lo: int)
      requires Wired() && buc < |buckets| - 1 && buckets[buc].prior != null
      ensures 0 <= lo < Last(chain.s) && lo == K(chain.s, lo).lo == G(chain.s, lo).lo
        && lo <= K(chain.s, lo).hi < Last(chain.s)
      ensures B(chain.s, lo) == buckets[buc] && buckets[buc].prior == N(chain.s, lo)
      ensures forall m {:trigger B(chain.s, m)} | Inside(chain.s, m) && B(chain.s, m) == buckets[buc] ::
        lo <= m <= K(chain.s, lo).hi
    {
      lo := chain.FrontIndex(buckets[buc]);
      Pointers(chain.s, chain.buckets, lo);
      chain.OneHome(lo);
      HeaderApart(chain.s, lo);
      Unfold(chain.s, lo);
      forall m {:trigger B(chain.s, m)} | Inside(chain.s, m) && B(chain.s, m) == buckets[buc]
        ensures lo <= m <= K(chain.s, lo).hi
      {
        Unfold(chain.s, m);
      }
    }

    function Position(k: int): (p: nat)
      requires |buckets| > 1
      ensures p < |buckets| - 1 && Divides(|buckets| - 1, hash(k), hash(k) / (|buckets| - 1), p)
    {
      hash(k) % (|buckets| - 1)
    }

    // The bucket of node j is the one whose number is left when its hash is divided by the number of buckets, the
    // header's not counted.
    ghost predicate InBucket(j: int)
      requires Sized(chain.s) && 0 <= j < Last(chain.s)
      reads chain, chain.s.nodes`value
    {
      exists q, p {:trigger Divides(|buckets| - 1, hash(Q(j)), q, p)} ::
        Divides(|buckets| - 1, hash(Q(j)), q, p) && B(chain.s, j) == buckets[p]
    }

    lemma AllInBuckets()
      requires Valid()
      ensures forall j | 0 <= j < Last(chain.s) :: InBucket(j)
    {
      forall j | 0 <= j < Last(chain.s) ensures InBucket(j) {
        var p := Position(Q(j));
        assert Divides(|buckets| - 1, hash(Q(j)), hash(Q(j)) / (|buckets| - 1), p) && B(chain.s, j) == buckets[p];
      }
    }

    // But for the node at i, every node is in the bucket its key hashes to.
    ghost predicate HashedBut(i: int)
      requires Sized(chain.s) && |buckets| > 1
      reads chain, chain.s.nodes`value
    {
      forall a {:trigger Q(a)} | 0 <= a < Last(chain.s) && a != i :: B(chain.s, a) == buckets[Position(Q(a))]
    }

    // t explains the pointers as they are, with the node at i among its equals and in bucket buc.
    ghost predicate Encodes(t: Layout, i: int, buc: Cell)
      requires Shaped(chain.s) && 0 <= i < Last(chain.s)
      reads chain, chain.s.nodes`value
    {
      && Shaped(t) && SamePointers(chain.s, t) && B(chain.s, i) == buc
      && (forall a, b {:trigger Q(a), Q(b)} | 0 <= a < Last(chain.s) && 0 <= b < Last(chain.s) ::
        eq(Q(a), Q(b)) <==> G(t, a) == G(t, b))
    }

    lemma HomeOfX(i: int, m: int)
      requires chain.Valid() && 0 <= i < Last(chain.s) && 0 <= m < Last(chain.s)
      ensures B(chain.s, i) == B(chain.s, m) <==> K(chain.s, i) == K(chain.s, m)
    {
      chain.OneHome(i);
      if K(chain.s, i) == K(chain.s, m) { Unfold(chain.s, m); SameBucket(chain.s, i, m); }
    }

    lemma EncodesStays(t: Layout, i: int, buc: Cell)
      requires Shaped(chain.s) && 0 <= i < Last(chain.s) && Encodes(t, i, buc) && Equivalence(eq)
      ensures Stays(i, Q(i), buc)
    {
      var s := chain.s;
      HeaderApart(s, i);
      forall m {:trigger Q(m)} | 0 <= m < Last(s) && m != i && Large(G(s, i)) && G(s, m) == G(s, i)
        ensures eq(Q(i), Q(m))
      {
        Unfold(s, m);
        LargeIsFixed(s, t, i);
        LargeIsFixed(s, t, m);
      }
      forall m {:trigger Q(m)} | 0 <= m < Last(s) && m != i && !Large(G(s, i)) && B(s, m) == buc && eq(Q(i), Q(m))
        ensures i - 1 <= m <= i + 1
      {
        Unfold(t, i);
        Unfold(t, m);
        if Large(G(t, i)) { SwapPointers(s, t); LargeIsFixed(t, s, i); }
      }
    }

    lemma SwapPointers(s: Layout, t: Layout)
      requires Shaped(s) && Shaped(t) && SamePointers(s, t)
      ensures SamePointers(t, s)
    {
      forall j | Inside(t, j) ensures PriorNode(s, j) == PriorNode(t, j) && NextCell(s, j) == NextCell(t, j) {
      }
    }

    // The node beside i that is equivalent to it, or i.
    ghost function Mate(i: int): (m: int)
      requires Shaped(chain.s) && 0 <= i < Last(chain.s)
      reads chain, chain.s.nodes`value
      ensures i - 1 <= m <= i + 1 && 0 <= m < Last(chain.s)
    {
      if 0 < i && K(chain.s, i - 1) == K(chain.s, i) && eq(Q(i), Q(i - 1)) then i - 1
      else if i + 1 < Last(chain.s) && K(chain.s, i + 1) == K(chain.s, i) && eq(Q(i), Q(i + 1)) then i + 1
      else i
    }

    // Where i may stay, its equals are the node beside it, or none.
    lemma MateIsOnly(i: int, m: int, buc: Cell)
      requires Shaped(chain.s) && 0 <= i < Last(chain.s) && Equivalence(eq) && GroupedBut(i) && Stays(i, Q(i), buc)
        && !Large(G(chain.s, i))
      requires 0 <= m < Last(chain.s) && m != i && B(chain.s, m) == buc && chain.Valid()
      ensures eq(Q(i), Q(m)) <==> m == Mate(i)
    {
      var s := chain.s;
      HomeOfX(i, m);
      if eq(Q(i), Q(m)) && m != Mate(i) {
        SameClass(i, Q(i), m, Mate(i));
        Around(i, i - 1, i + 1);
      }
    }

    lemma MateIsRegroupable(i: int, buc: Cell)
      requires chain.Valid() && 0 <= i < Last(chain.s) && Equivalence(eq) && GroupedBut(i) && Stays(i, Q(i), buc)
        && !Large(G(chain.s, i))
      ensures Regroupable(chain.s, i, Mate(i))
    {
      var s, m := chain.s, Mate(i);
      if m != i && G(s, m) != G(s, i) {
        Unfold(s, m);
        MateIsAlone(i, buc, G(s, m).lo);
        MateIsAlone(i, buc, G(s, m).hi);
      }
    }

    lemma MateIsAlone(i: int, buc: Cell, n: int)
      requires chain.Valid() && 0 <= i < Last(chain.s) && Equivalence(eq) && GroupedBut(i) && Stays(i, Q(i), buc)
        && !Large(G(chain.s, i))
      requires Mate(i) != i && G(chain.s, Mate(i)) != G(chain.s, i)
        && G(chain.s, Mate(i)).lo <= n <= G(chain.s, Mate(i)).hi
      ensures n == Mate(i)
    {
      var m := Mate(i);
      HeaderApart(chain.s, m);
      SameGroup(chain.s, m, n);
      HomeOfX(i, m);
      if n != m && n != i {
        EqualTo(Q(i), Q(m), Q(n));
        MateIsOnly(i, n, buc);
      }
    }

    lemma EqualTo(a: int, b: int, c: int)
      requires Equivalence(eq) && eq(a, b)
      ensures eq(b, c) <==> eq(a, c)
    {
      assert eq(b, a);
    }

    // The node at i may stay exactly when its pointers, as they are, encode a chain grouped by the keys, i's new one
    // included.
    lemma StaysEncodes(i: int, buc: Cell)
      requires chain.Valid() && 0 <= i < Last(chain.s) && |buckets| > 1 && Equivalence(eq) && Compatible(eq, hash)
      requires GroupedBut(i) && HashedBut(i) && buc == buckets[Position(Q(i))] && Stays(i, Q(i), buc)
      ensures exists t :: Encodes(t, i, buc)
    {
      var s := chain.s;
      if Large(G(s, i)) {
        forall a, b {:trigger Q(a), Q(b)} | 0 <= a < Last(s) && 0 <= b < Last(s)
          ensures eq(Q(a), Q(b)) <==> G(s, a) == G(s, b)
        {
          LargeGrouped(i, a, b, buc);
        }
        assert Encodes(s, i, buc);
      } else {
        var t := Regrouped(s, i, Mate(i));
        MateIsRegroupable(i, buc);
        RegroupedHasSamePointers(s, i, Mate(i));
        forall a, b {:trigger Q(a), Q(b)} | 0 <= a < Last(s) && 0 <= b < Last(s)
          ensures eq(Q(a), Q(b)) <==> G(t, a) == G(t, b)
        {
          SmallGrouped(i, a, b, buc);
        }
        assert Encodes(t, i, buc);
      }
    }

    lemma LargeGrouped(i: int, a: int, b: int, buc: Cell)
      requires Shaped(chain.s) && 0 <= i < Last(chain.s) && Equivalence(eq) && GroupedBut(i) && Stays(i, Q(i), buc)
        && Large(G(chain.s, i))
      requires 0 <= a < Last(chain.s) && 0 <= b < Last(chain.s)
      ensures eq(Q(a), Q(b)) <==> G(chain.s, a) == G(chain.s, b)
    {
      var m := Other(i);
      HeaderApart(chain.s, i);
      Unfold(chain.s, m);
      assert eq(Q(i), Q(m)) && eq(Q(m), Q(i));
    }

    // The equals of i in the whole chain.
    lemma EqualIsMate(i: int, b: int, buc: Cell)
      requires chain.Valid() && 0 <= i < Last(chain.s) && |buckets| > 1 && Equivalence(eq) && Compatible(eq, hash)
      requires GroupedBut(i) && HashedBut(i) && buc == buckets[Position(Q(i))] && Stays(i, Q(i), buc)
        && !Large(G(chain.s, i))
      requires 0 <= b < Last(chain.s) && b != i
      ensures eq(Q(i), Q(b)) <==> b == Mate(i)
    {
      HomeOfX(i, b);
      if B(chain.s, b) == buc { MateIsOnly(i, b, buc); }
    }

    lemma SmallGrouped(i: int, a: int, b: int, buc: Cell)
      requires chain.Valid() && 0 <= i < Last(chain.s) && |buckets| > 1 && Equivalence(eq) && Compatible(eq, hash)
      requires GroupedBut(i) && HashedBut(i) && buc == buckets[Position(Q(i))] && Stays(i, Q(i), buc)
        && !Large(G(chain.s, i))
      requires 0 <= a < Last(chain.s) && 0 <= b < Last(chain.s)
      ensures var t := Regrouped(chain.s, i, Mate(i)); eq(Q(a), Q(b)) <==> G(t, a) == G(t, b)
    {
      var s, m := chain.s, Mate(i);
      RegroupedAt(s, i, m, a);
      RegroupedAt(s, i, m, b);
      Unfold(s, i);
      Unfold(s, a);
      Unfold(s, b);
      if a != i { EqualIsMate(i, a, buc); }
      if b != i { EqualIsMate(i, b, buc); }
      if a == i || a == m {
        if a == i { assert eq(Q(a), Q(a)); } else { EqualTo(Q(i), Q(a), Q(b)); }
      } else if b == i || b == m {
        assert eq(Q(b), Q(a)) <==> eq(Q(a), Q(b));
        if b != i { EqualTo(Q(i), Q(b), Q(a)); }
      }
    }

    /* Whole groups */

    ghost predicate Valid()
      reads chain, chain.s.nodes`prior, chain.s.nodes`next, chain.s.nodes`value, chain.buckets`prior
    {
      Wired() && GroupedBut(-1) && HashedBut(-1)
    }

    // The last of the group of x, its first.
    method LastOfRange(x: Cell, ghost i: int) returns (r: Cell)
      requires Valid() && chain.Inner(x, i) && i == G(chain.s, i).lo
      ensures 0 <= i <= G(chain.s, i).hi < Last(chain.s) && r == N(chain.s, G(chain.s, i).hi)
    {
      AfterTest(chain.s, chain.buckets, i);
      GroupEnds(chain.s, chain.buckets, i);
      var y := x.next;
      var z := y.prior;
      if z == x {
        PairOrOne(i);
        r := if eq(key(x.value), key(y.value)) then y else x;
      } else if z.prior == x {
        r := x;
      } else {
        GroupPointers(chain.s, chain.buckets, i);
        r := z;
      }
    }

    // In a small group of a bucket, the node after the first is in it if its key is equivalent.
    lemma PairOrOne(i: int)
      requires Valid() && 0 <= i < Last(chain.s) && i == G(chain.s, i).lo && !Large(G(chain.s, i))
        && i < K(chain.s, i).hi
      ensures 0 <= i < Last(chain.s) - 1 && G(chain.s, i).hi == if eq(Q(i), Q(i + 1)) then i + 1 else i
    {
      Unfold(chain.s, i);
      HeaderApart(chain.s, i);
      Unfold(chain.s, i + 1);
      if G(chain.s, i).hi == i + 1 { SameGroup(chain.s, i, i + 1); }
    }

    // The node after the group of x, its first.
    method EndOfRange(x: Cell, ghost i: int) returns (r: Cell)
      requires Valid() && chain.Inner(x, i) && i == G(chain.s, i).lo
      ensures 0 <= i <= G(chain.s, i).hi < Last(chain.s) && r == N(chain.s, G(chain.s, i).hi + 1)
    {
      AfterTest(chain.s, chain.buckets, i);
      GroupEnds(chain.s, chain.buckets, i);
      var y := x.next;
      var z := y.prior;
      if z == x {
        PairOrOne(i);
        var yy, last := y, G(chain.s, i).hi;
        if !eq(key(x.value), key(yy.value)) { yy := x; }
        EndTest(i, G(chain.s, i).hi);
        r := if yy.next.prior == yy then yy.next else yy.next.prior;
      } else if z.prior == x {
        r := z;
      } else {
        GroupPointers(chain.s, chain.buckets, i);
        EndTest(i, G(chain.s, i).hi);
        r := if z.next.prior == z then z.next else z.next.prior;
      }
    }

    lemma EndTest(i: int, l: int)
      requires Valid() && 0 <= i < Last(chain.s) && i == G(chain.s, i).lo && l == G(chain.s, i).hi < Last(chain.s)
      ensures Inside(chain.s, l) && var z := N(chain.s, l);
        && z.next != null && z.next.prior != null
        && (z.next.prior == z ==> z.next == N(chain.s, l + 1))
        && (z.next.prior != z ==> z.next.prior == N(chain.s, l + 1))
    {
      Unfold(chain.s, i);
      SameGroup(chain.s, i, l);
      AfterTest(chain.s, chain.buckets, l);
    }

    ghost predicate NoneEqual(k: int, lo: int, j: int)
      reads chain, chain.s.nodes`value
    {
      forall m {:trigger Q(m)} | lo <= m < j && Inside(chain.s, m) :: !eq(k, Q(m))
    }

    // The loop of link_point over the groups of the bucket of k.
    method FindGroup(k: int) returns (first: Cell?, ghost i: int)
      requires Valid()
      ensures first == null ==> NoneEqual(k, 0, Last(chain.s))
      ensures first != null ==> chain.Inner(first, i) && i == G(chain.s, i).lo && eq(k, Q(i))
    {
      var buc := Position(k);
      first, i := buckets[buc].prior, 0;
      if first == null {
        chain.HomeIsUsed(buckets[buc]);
        NoneElsewhere(k, 0, 0);
        return;
      }
      ghost var lo := BucketStart(buc);
      first, i := Search(k, first, lo);
      if first == null { NoneElsewhere(k, lo, K(chain.s, lo).hi + 1); }
    }

    // The loop over the groups of the bucket that starts at lo with the node y.
    method Search(k: int, y: Cell, ghost lo: int) returns (first: Cell?, ghost i: int)
      requires Valid() && 0 <= lo < Last(chain.s) && K(chain.s, lo).lo == lo && Standing(y, lo, lo)
      ensures first == null ==> NoneEqual(k, lo, K(chain.s, lo).hi + 1)
      ensures first != null ==> chain.Inner(first, i) && i == G(chain.s, i).lo && eq(k, Q(i))
    {
      first, i := y, lo;
      while first != null
        invariant Standing(first, lo, i) && NoneEqual(k, lo, i)
        decreases K(chain.s, lo).hi + 1 - i
      {
        SameBucket(chain.s, lo, i);
        if eq(k, key(first.value)) {
          FirstEqual(k, lo, i);
          return;
        }
        GroupNotEqual(k, lo, i);
        first := chain.NextToInspect(first, i);
        i := if Large(G(chain.s, i)) then G(chain.s, i).hi + 1 else i + 1;
      }
    }

    lemma FirstEqual(k: int, lo: int, i: int)
      requires Valid() && 0 <= lo <= i < Last(chain.s) && K(chain.s, lo).lo == lo && K(chain.s, i) == K(chain.s, lo)
      requires NoneEqual(k, lo, i) && eq(k, Q(i))
      ensures i == G(chain.s, i).lo
    {
      Unfold(chain.s, i);
      HeaderApart(chain.s, i);
      if G(chain.s, i).lo < i { Members(-1, k, i, i - 1); }
    }

    // The keys of a group are all equivalent to k or none is.
    lemma GroupNotEqual(k: int, lo: int, i: int)
      requires Valid() && 0 <= lo <= i < Last(chain.s) && NoneEqual(k, lo, i) && !eq(k, Q(i))
      requires Large(G(chain.s, i)) ==> i == G(chain.s, i).lo
      ensures var n := if Large(G(chain.s, i)) then G(chain.s, i).hi + 1 else i + 1;
        i < n <= Last(chain.s) && NoneEqual(k, lo, n) && n <= K(chain.s, i).hi + 1
          && (Large(G(chain.s, n)) ==> n == G(chain.s, n).lo)
    {
      NextStarts(i);
      Unfold(chain.s, i);
      HeaderApart(chain.s, i);
      forall m | i <= m <= G(chain.s, i).hi ensures Inside(chain.s, m) && !eq(k, Q(m)) {
        Members(-1, k, i, m);
      }
    }

    lemma NoneElsewhere(k: int, lo: int, j: int)
      requires Valid() && NoneEqual(k, lo, j)
      requires forall m {:trigger B(chain.s, m)} | 0 <= m < Last(chain.s) && B(chain.s, m) == buckets[Position(k)] ::
        lo <= m < j
      ensures NoneEqual(k, 0, Last(chain.s))
    {
    }

    /* Adding and taking out */

    ghost function Key(t: Layout, j: int): int
      requires Inside(t, j)
      reads t.nodes`value
    {
      key(N(t, j).value)
    }

    // What Valid says about keys, of any layout.
    ghost predicate Arranged(t: Layout)
      requires |buckets| > 1
      reads t.nodes`value
    {
      && Sized(t)
      && (forall a, b {:trigger Key(t, a), Key(t, b)} | 0 <= a < Last(t) && 0 <= b < Last(t) ::
        eq(Key(t, a), Key(t, b)) <==> G(t, a) == G(t, b))
      && (forall a {:trigger Key(t, a)} | 0 <= a < Last(t) :: B(t, a) == buckets[Position(Key(t, a))])
    }

    lemma ValidIsArranged()
      requires Wired()
      ensures GroupedBut(-1) && HashedBut(-1) <==> Arranged(chain.s)
    {
      var t := chain.s;
      if GroupedBut(-1) && HashedBut(-1) {
        forall a, b {:trigger Key(t, a), Key(t, b)} | 0 <= a < Last(t) && 0 <= b < Last(t)
          ensures eq(Key(t, a), Key(t, b)) <==> G(t, a) == G(t, b)
        {
          assert Key(t, a) == Q(a) && Key(t, b) == Q(b);
        }
        forall a {:trigger Key(t, a)} | 0 <= a < Last(t) ensures B(t, a) == buckets[Position(Key(t, a))] {
          assert Key(t, a) == Q(a);
        }
      }
      if Arranged(t) {
        forall a, b {:trigger Q(a), Q(b)} | 0 <= a < Last(t) && 0 <= b < Last(t)
          ensures eq(Q(a), Q(b)) <==> G(t, a) == G(t, b)
        {
          assert Key(t, a) == Q(a) && Key(t, b) == Q(b);
        }
        forall a {:trigger Q(a)} | 0 <= a < Last(t) ensures B(t, a) == buckets[Position(Q(a))] {
          assert Key(t, a) == Q(a);
        }
      }
    }

    // x joins the group at i, whose keys its own is equivalent to.
    lemma JoinedIsArranged(s: Layout, x: Cell, i: int)
      requires |buckets| > 1 && Equivalence(eq) && Compatible(eq, hash) && Shaped(s) && Arranged(s)
      requires 0 <= i < Last(s) && i == G(s, i).lo && eq(key(x.value), Key(s, i))
      ensures Arranged(Opened(s, [x], i, true, true, B(s, i)))
    {
      var t := Opened(s, [x], i, true, true, B(s, i));
      Unfold(s, i);
      forall a, b {:trigger Key(t, a), Key(t, b)} | 0 <= a < Last(t) && 0 <= b < Last(t)
        ensures eq(Key(t, a), Key(t, b)) <==> G(t, a) == G(t, b)
      {
        JoinedPair(s, x, i, a, b);
      }
      forall a {:trigger Key(t, a)} | 0 <= a < Last(t) ensures B(t, a) == buckets[Position(Key(t, a))] {
        OpenedAt(s, [x], i, true, true, B(s, i), a);
        var o := Origin(a, i, 1);
        assert B(s, o) == buckets[Position(Key(s, o))];
      }
    }

    lemma JoinedPair(s: Layout, x: Cell, i: int, a: int, b: int)
      requires |buckets| > 1 && Equivalence(eq) && Shaped(s) && Arranged(s)
      requires 0 <= i < Last(s) && i == G(s, i).lo && eq(key(x.value), Key(s, i))
      requires 0 <= a <= Last(s) && 0 <= b <= Last(s)
      ensures var t := Opened(s, [x], i, true, true, B(s, i));
        eq(Key(t, a), Key(t, b)) <==> G(t, a) == G(t, b)
    {
      var t, o, p := Opened(s, [x], i, true, true, B(s, i)), Origin(a, i, 1), Origin(b, i, 1);
      JoinedKey(s, x, i, a);
      JoinedKey(s, x, i, b);
      Alike(Key(t, a), Key(s, o), Key(t, b));
      Alike(Key(t, b), Key(s, p), Key(s, o));
      assert eq(Key(s, o), Key(s, p)) <==> G(s, o) == G(s, p);
      JoinedGroups(s, x, i, a, b);
    }

    // x has a key like the node it joins.
    lemma JoinedKey(s: Layout, x: Cell, i: int, a: int)
      requires |buckets| > 1 && Equivalence(eq) && Shaped(s) && Arranged(s)
      requires 0 <= i < Last(s) && i == G(s, i).lo && eq(key(x.value), Key(s, i)) && 0 <= a <= Last(s)
      ensures Inside(Opened(s, [x], i, true, true, B(s, i)), a) && 0 <= Origin(a, i, 1) < Last(s)
      ensures eq(Key(Opened(s, [x], i, true, true, B(s, i)), a), Key(s, Origin(a, i, 1)))
    {
      var o := Origin(a, i, 1);
      OpenedAt(s, [x], i, true, true, B(s, i), a);
      assert eq(Key(s, o), Key(s, o));
    }

    lemma JoinedGroups(s: Layout, x: Cell, i: int, a: int, b: int)
      requires Shaped(s) && 0 <= i < Last(s) && i == G(s, i).lo && 0 <= a <= Last(s) && 0 <= b <= Last(s)
      ensures var t := Opened(s, [x], i, true, true, B(s, i));
        G(t, a) == G(t, b) <==> G(s, Origin(a, i, 1)) == G(s, Origin(b, i, 1))
    {
      var o, p := Origin(a, i, 1), Origin(b, i, 1);
      OpenedAt(s, [x], i, true, true, B(s, i), a);
      OpenedAt(s, [x], i, true, true, B(s, i), b);
      Unfold(s, i);
      Unfold(s, o);
      Unfold(s, p);
      Apart(s, o, p);
    }

    lemma Alike(a: int, b: int, c: int)
      requires Equivalence(eq) && eq(a, b)
      ensures (eq(a, c) <==> eq(b, c)) && (eq(c, a) <==> eq(c, b)) && eq(a, a)
    {
      assert eq(b, a);
      assert eq(a, c) <==> eq(c, a);
      assert eq(b, c) <==> eq(c, b);
    }

    // x, equivalent to no other, becomes a group at the front of its bucket.
    lemma AloneIsArranged(s: Layout, x: Cell, i: int, inBucket: bool)
      requires |buckets| > 1 && Equivalence(eq) && Shaped(s) && Arranged(s)
      requires HashLayout.Place(s, 1, i, false, inBucket, buckets[Position(key(x.value))])
      requires forall a {:trigger Key(s, a)} | 0 <= a < Last(s) :: !eq(key(x.value), Key(s, a))
      ensures Arranged(Opened(s, [x], i, false, inBucket, buckets[Position(key(x.value))]))
    {
      var c := buckets[Position(key(x.value))];
      var t := Opened(s, [x], i, false, inBucket, c);
      Unfold(s, i);
      forall a, b {:trigger Key(t, a), Key(t, b)} | 0 <= a < Last(t) && 0 <= b < Last(t)
        ensures eq(Key(t, a), Key(t, b)) <==> G(t, a) == G(t, b)
      {
        AlonePair(s, x, i, inBucket, a, b);
      }
      forall a {:trigger Key(t, a)} | 0 <= a < Last(t) ensures B(t, a) == buckets[Position(Key(t, a))] {
        OpenedAt(s, [x], i, false, inBucket, c, a);
        if a != i { assert B(s, Origin(a, i, 1)) == buckets[Position(Key(s, Origin(a, i, 1)))]; }
      }
    }

    lemma AlonePair(s: Layout, x: Cell, i: int, inBucket: bool, a: int, b: int)
      requires |buckets| > 1 && Equivalence(eq) && Shaped(s) && Arranged(s)
      requires HashLayout.Place(s, 1, i, false, inBucket, buckets[Position(key(x.value))])
      requires forall a {:trigger Key(s, a)} | 0 <= a < Last(s) :: !eq(key(x.value), Key(s, a))
      requires 0 <= a < Last(s) + 1 && 0 <= b < Last(s) + 1
      ensures var t := Opened(s, [x], i, false, inBucket, buckets[Position(key(x.value))]);
        eq(Key(t, a), Key(t, b)) <==> G(t, a) == G(t, b)
    {
      var c := buckets[Position(key(x.value))];
      var o, p := Origin(a, i, 1), Origin(b, i, 1);
      OpenedAt(s, [x], i, false, inBucket, c, a);
      OpenedAt(s, [x], i, false, inBucket, c, b);
      Unfold(s, i);
      Unfold(s, o);
      Unfold(s, p);
      if a == i || b == i {
        assert a != i ==> !eq(key(x.value), Key(s, o));
        assert b != i ==> !eq(key(x.value), Key(s, p));
        assert eq(key(x.value), key(x.value));
      } else {
        Apart(s, o, p);
        assert eq(Key(s, o), Key(s, p)) <==> G(s, o) == G(s, p);
      }
    }

    lemma DroppedIsArranged(s: Layout, i: int)
      requires |buckets| > 1 && Shaped(s) && 0 <= i < Last(s) && ArrangedBut(s, i)
      ensures Arranged(Dropped(s, i))
    {
      var t := Dropped(s, i);
      forall a, b {:trigger Key(t, a), Key(t, b)} | 0 <= a < Last(t) && 0 <= b < Last(t)
        ensures eq(Key(t, a), Key(t, b)) <==> G(t, a) == G(t, b)
      {
        var o, p := S.Up(a, i, 1), S.Up(b, i, 1);
        DroppedAt(s, i, a);
        DroppedAt(s, i, b);
        Unfold(s, o);
        Unfold(s, p);
        Apart(s, o, p);
        assert eq(Key(s, o), Key(s, p)) <==> G(s, o) == G(s, p);
      }
      forall a {:trigger Key(t, a)} | 0 <= a < Last(t) ensures B(t, a) == buckets[Position(Key(t, a))] {
        DroppedAt(s, i, a);
        assert B(s, S.Up(a, i, 1)) == buckets[Position(Key(s, S.Up(a, i, 1)))];
      }
    }

    ghost predicate ArrangedBut(t: Layout, i: int)
      requires |buckets| > 1
      reads t.nodes`value
    {
      && Sized(t)
      && (forall a, b {:trigger Key(t, a), Key(t, b)} | 0 <= a < Last(t) && 0 <= b < Last(t) && a != i && b != i ::
        eq(Key(t, a), Key(t, b)) <==> G(t, a) == G(t, b))
      && (forall a {:trigger Key(t, a)} | 0 <= a < Last(t) && a != i :: B(t, a) == buckets[Position(Key(t, a))])
    }

    // Puts x, outside the chain, in front of the group of its equals, or else of its bucket.
    // Node j is the first of its group, and if it is alone in that, of its bucket.
    ghost predicate Leads(j: int)
      requires Sized(chain.s)
      reads chain
    {
      0 <= j < Last(chain.s) && j == G(chain.s, j).lo && (j == G(chain.s, j).hi ==> j == K(chain.s, j).lo)
    }

    method Insert(x: Cell) returns (ghost i: int)
      requires Valid() && x !in chain.s.nodes && x !in chain.buckets
      modifies chain`s, x`prior, x`next, chain.s.nodes`prior, chain.s.nodes`next, chain.buckets`prior
      ensures Valid() && chain.Inner(x, i) && Leads(i)
      ensures 0 <= i < |old(chain.s).nodes| && chain.s.nodes == old(chain.s).nodes[..i] + [x] + old(chain.s).nodes[i..]
      ensures old(NoneEqual(key(x.value), 0, i))
      ensures forall j | 0 <= j < Last(chain.s) :: InBucket(j)
    {
      var first;
      first, i := FindGroup(key(x.value));
      if first == null {
        i := PutAlone(x);
      } else {
        FirstHasNone(key(x.value), i);
        PutJoined(x, first, i);
      }
      AllInBuckets();
    }

    // No element before the group with the key has it.
    lemma FirstHasNone(k: int, i: int)
      requires Valid() && 0 <= i < Last(chain.s) && i == G(chain.s, i).lo && eq(k, Q(i))
      ensures NoneEqual(k, 0, i)
    {
      forall m {:trigger Q(m)} | 0 <= m < i ensures !eq(k, Q(m)) {
        EqualTo(k, Q(i), Q(m));
        Unfold(chain.s, m);
      }
    }

    method PutJoined(x: Cell, first: Cell, ghost i: int)
      requires Valid() && x !in chain.s.nodes && x !in chain.buckets
      requires chain.Inner(first, i) && i == G(chain.s, i).lo && eq(key(x.value), Q(i))
      modifies chain`s, x`prior, x`next, chain.s.nodes`prior, chain.s.nodes`next, chain.buckets`prior
      ensures Valid() && chain.Inner(x, i) && Leads(i)
      ensures 0 <= i < |old(chain.s).nodes| && chain.s.nodes == old(chain.s).nodes[..i] + [x] + old(chain.s).nodes[i..]
    {
      ghost var s0 := chain.s;
      ValidIsArranged();
      InsertJoined(x, first, i);
      JoinedIsArranged(s0, x, i);
      OpenedAt(s0, [x], i, true, true, B(s0, i), i);
      ValidIsArranged();
    }

    method PutAlone(x: Cell) returns (ghost i: int)
      requires Valid() && x !in chain.s.nodes && x !in chain.buckets && NoneEqual(key(x.value), 0, Last(chain.s))
      modifies chain`s, x`prior, x`next, chain.s.nodes`prior, chain.s.nodes`next, chain.buckets`prior
      ensures Valid() && chain.Inner(x, i) && Leads(i)
      ensures 0 <= i < |old(chain.s).nodes| && chain.s.nodes == old(chain.s).nodes[..i] + [x] + old(chain.s).nodes[i..]
    {
      ghost var s0 := chain.s;
      ghost var c := buckets[Position(key(x.value))];
      ValidIsArranged();
      NoneEqualKey(key(x.value));
      i := InsertAlone(x);
      AloneIsArranged(s0, x, i, c in s0.home);
      OpenedAt(s0, [x], i, false, c in s0.home, c, i);
      ValidIsArranged();
    }

    lemma NoneEqualKey(k: int)
      requires Sized(chain.s) && NoneEqual(k, 0, Last(chain.s))
      ensures forall a {:trigger Key(chain.s, a)} | 0 <= a < Last(chain.s) :: !eq(k, Key(chain.s, a))
    {
      forall a | 0 <= a < Last(chain.s) ensures !eq(k, Key(chain.s, a)) {
        assert Key(chain.s, a) == Q(a);
      }
    }

    method InsertJoined(x: Cell, first: Cell, ghost i: int)
      requires Valid() && x !in chain.s.nodes && x !in chain.buckets
      requires chain.Inner(first, i) && i == G(chain.s, i).lo
      modifies chain`s, x`prior, x`next, chain.s.nodes`prior, chain.s.nodes`next, chain.buckets`prior
      ensures Wired() && chain.s == Opened(old(chain.s), [x], i, true, true, B(old(chain.s), i))
    {
      ghost var s0 := chain.s;
      var last := LastOfRange(first, i);
      chain.LinkGroup(x, first, last, i);
      OpenedAt(s0, [x], i, true, true, B(s0, i), Last(chain.s));
    }

    method InsertAlone(x: Cell) returns (ghost i: int)
      requires Valid() && x !in chain.s.nodes && x !in chain.buckets
      modifies chain`s, x`prior, x`next, chain.s.nodes`prior, chain.s.nodes`next, chain.buckets`prior
      ensures Wired()
      ensures var c := buckets[Position(key(x.value))]; var s0 := old(chain.s);
        && HashLayout.Place(s0, 1, i, false, c in s0.home, c)
        && chain.s == Opened(s0, [x], i, false, c in s0.home, c)
    {
      ghost var s0 := chain.s;
      var buc := buckets[Position(key(x.value))];
      assert buc in chain.buckets;
      i := chain.Link(x, buc);
      OpenedAt(s0, [x], i, false, buc in s0.home, buc, Last(chain.s));
    }

    lemma ValidIsArrangedBut(i: int)
      requires Wired()
      ensures GroupedBut(i) && HashedBut(i) <==> ArrangedBut(chain.s, i)
    {
      var t := chain.s;
      if GroupedBut(i) && HashedBut(i) {
        forall a, b {:trigger Key(t, a), Key(t, b)} | 0 <= a < Last(t) && 0 <= b < Last(t) && a != i && b != i
          ensures eq(Key(t, a), Key(t, b)) <==> G(t, a) == G(t, b)
        {
          assert Key(t, a) == Q(a) && Key(t, b) == Q(b);
        }
        forall a {:trigger Key(t, a)} | 0 <= a < Last(t) && a != i ensures B(t, a) == buckets[Position(Key(t, a))] {
          assert Key(t, a) == Q(a);
        }
      }
      if ArrangedBut(t, i) {
        forall a, b {:trigger Q(a), Q(b)} | 0 <= a < Last(t) && 0 <= b < Last(t) && a != i && b != i
          ensures eq(Q(a), Q(b)) <==> G(t, a) == G(t, b)
        {
          assert Key(t, a) == Q(a) && Key(t, b) == Q(b);
        }
        forall a {:trigger Q(a)} | 0 <= a < Last(t) && a != i ensures B(t, a) == buckets[Position(Q(a))] {
          assert Key(t, a) == Q(a);
        }
      }
    }

    // Takes x out, whatever its key is by now.
    method Erase(x: Cell, ghost i: int) returns (undo: Undo)
      requires Wired() && GroupedBut(i) && HashedBut(i) && chain.Inner(x, i)
      modifies chain`s, chain.s.nodes`prior, chain.s.nodes`next, chain.buckets`prior
      ensures Valid() && chain.s == Dropped(old(chain.s), i) && x !in chain.s.nodes && x !in chain.buckets
      ensures undo == Tracks(old(chain.s), i) && chain.Out(old(chain.s), i)
    {
      ghost var s0 := chain.s;
      ValidIsArrangedBut(i);
      undo := EraseNode(x, i);
      DroppedIsArranged(s0, i);
      ValidIsArranged();
    }

    method EraseNode(x: Cell, ghost i: int) returns (undo: Undo)
      requires Wired() && chain.Inner(x, i)
      modifies chain`s, chain.s.nodes`prior, chain.s.nodes`next, chain.buckets`prior
      ensures Wired() && chain.s == Dropped(old(chain.s), i) && x !in chain.s.nodes && x !in chain.buckets
      ensures undo == Tracks(old(chain.s), i) && chain.Out(old(chain.s), i)
    {
      ghost var s0 := chain.s;
      undo := chain.Unlink(x, i);
      chain.TracksInside(s0, i);
      DroppedAt(s0, i, Last(chain.s));
    }

    ghost function Without(t: Layout, i: int): seq<Cell>
      requires Inside(t, i)
    {
      t.nodes[..i] + t.nodes[i + 1..]
    }

    // x is at place j of t among the nodes of s0 but the one at i, in their order.
    ghost predicate Moved(x: Cell, t: Layout, j: int, s0: Layout, i: int)
      requires Inside(s0, i)
    {
      0 <= j <= |Without(s0, i)| && t.nodes == Without(s0, i)[..j] + [x] + Without(s0, i)[j..]
    }

    // x takes the value v if the other indices accept it; if not, the chain is as before. With an equivalent key it
    // keeps its place.
    method Replace(x: Cell, v: int, accept: bool, ghost i: int) returns (ghost j: int)
      requires Valid() && chain.Inner(x, i)
      modifies chain`s, x`value, x`prior, x`next, chain.s.nodes`prior, chain.s.nodes`next, chain.buckets`prior
      ensures Valid()
      ensures accept ==> x.value == v && Moved(x, chain.s, j, old(chain.s), i)
      ensures old(eq(key(v), key(x.value))) ==> j == i
      ensures accept && !old(eq(key(v), key(x.value))) ==> Leads(j)
      ensures !accept ==> x.value == old(x.value) && chain.s == old(chain.s)
    {
      if eq(key(v), key(x.value)) {
        j := i;
        if accept {
          ReplaceInPlace(x, v, i);
        }
      } else {
        j := ReplaceElsewhere(x, v, accept, i);
      }
    }

    method ReplaceInPlace(x: Cell, v: int, ghost i: int)
      requires Valid() && chain.Inner(x, i) && eq(key(v), key(x.value))
      modifies x`value
      ensures Valid() && x.value == v && Moved(x, chain.s, i, chain.s, i)
    {
      ValidIsArranged();
      x.value := v;
      SameKeyIsArranged(x, i);
      ValidIsArranged();
    }

    twostate lemma SameKeyIsArranged(x: Cell, new i: int)
      requires Wired() && chain.Inner(x, i) && chain.s == old(chain.s) && eq(key(x.value), key(old(x.value)))
        && old(Arranged(chain.s))
      requires forall c <- chain.s.nodes | c in old(chain.s.nodes) && c != x :: c.value == old(c.value)
      ensures Arranged(chain.s)
    {
      var s := chain.s;
      forall a {:trigger Key(s, a)} | 0 <= a < Last(s)
        ensures eq(Key(s, a), old(Key(s, a))) && hash(Key(s, a)) == hash(old(Key(s, a)))
      {
        assert N(s, a) in s.nodes;
        assert old(eq(Key(s, a), Key(s, a)));
      }
      forall a, b {:trigger Key(s, a), Key(s, b)} | 0 <= a < Last(s) && 0 <= b < Last(s)
        ensures eq(Key(s, a), Key(s, b)) <==> G(s, a) == G(s, b)
      {
        Alike(Key(s, a), old(Key(s, a)), Key(s, b));
        Alike(Key(s, b), old(Key(s, b)), old(Key(s, a)));
        assert old(eq(Key(s, a), Key(s, b))) <==> G(s, a) == G(s, b);
      }
      forall a {:trigger Key(s, a)} | 0 <= a < Last(s) ensures B(s, a) == buckets[Position(Key(s, a))] {
        assert old(B(s, a) == buckets[Position(Key(s, a))]);
      }
    }

    method ReplaceElsewhere(x: Cell, v: int, accept: bool, ghost i: int) returns (ghost j: int)
      requires Valid() && chain.Inner(x, i)
      modifies chain`s, x`value, x`prior, x`next, chain.s.nodes`prior, chain.s.nodes`next, chain.buckets`prior
      ensures Valid()
      ensures accept ==> x.value == v && Moved(x, chain.s, j, old(chain.s), i) && Leads(j)
      ensures !accept ==> x.value == old(x.value) && chain.s == old(chain.s)
    {
      ghost var s0 := chain.s;
      ValidIsArranged();
      var undo := Erase(x, i);
      if accept {
        j := PutElsewhere(x, v, s0, i);
      } else {
        j := i;
        PutBack(undo, s0, i);
      }
    }

    method PutElsewhere(x: Cell, v: int, ghost s0: Layout, ghost i: int) returns (ghost j: int)
      requires Valid() && x !in chain.s.nodes && x !in chain.buckets && Inside(s0, i) && chain.s.nodes == Without(s0, i)
      modifies chain`s, x`value, x`prior, x`next, chain.s.nodes`prior, chain.s.nodes`next, chain.buckets`prior
      ensures Valid() && x.value == v && Moved(x, chain.s, j, s0, i) && Leads(j)
    {
      x.value := v;
      j := PutAgain(x, s0, i);
    }

    // The chain, and every pointer of it, is as before x was taken out.
    method PutBack(undo: Undo, ghost s0: Layout, ghost i: int)
      requires Wired() && chain.Out(s0, i) && undo == Tracks(s0, i) && Arranged(s0)
      modifies chain`s, chain.s.nodes`prior, chain.s.nodes`next, chain.buckets`prior
      ensures Valid() && chain.s == s0
    {
      PutChainBack(undo, s0, i);
      ValidIsArranged();
    }

    method PutChainBack(undo: Undo, ghost s0: Layout, ghost i: int)
      requires Wired() && chain.Out(s0, i) && undo == Tracks(s0, i)
      modifies chain`s, chain.s.nodes`prior, chain.s.nodes`next, chain.buckets`prior
      ensures Wired() && chain.s == s0
    {
      DroppedAt(s0, i, Last(s0) - 1);
      assert B(s0, Last(s0)) == B(chain.s, Last(chain.s));
      RestoreChain(undo, s0, i);
    }

    method RestoreChain(undo: Undo, ghost s0: Layout, ghost i: int)
      requires chain.Out(s0, i) && undo == Tracks(s0, i)
      modifies chain`s, chain.s.nodes`prior, chain.s.nodes`next, chain.buckets`prior
      ensures chain.Valid() && chain.s == s0
    {
      chain.Restore(undo, s0, i);
    }

    // x has another key: it is placed by it, and taken out again if the other indices refuse.
    method Modify(x: Cell, accept: bool, ghost i: int) returns (ghost j: int)
      requires Wired() && GroupedBut(i) && HashedBut(i) && chain.Inner(x, i)
      modifies chain`s, chain.s.nodes`prior, chain.s.nodes`next, x`prior, x`next, chain.buckets`prior
      ensures Valid()
      ensures accept ==> Moved(x, chain.s, j, old(chain.s), i)
      ensures accept ==> if old(Stays(i, Q(i), buckets[Position(Q(i))])) then j == i else Leads(j)
      ensures !accept ==> chain.s.nodes == Without(old(chain.s), i)
    {
      ghost var s0 := chain.s;
      j := PlaceByKey(x, i);
      if !accept {
        EraseMoved(x, j, s0, i);
      }
    }

    // x, which has moved from place i of s0, is taken out.
    method EraseMoved(x: Cell, ghost j: int, ghost s0: Layout, ghost i: int)
      requires Valid() && 0 <= j < Last(chain.s) && Inside(s0, i) && Moved(x, chain.s, j, s0, i)
      modifies chain`s, x`prior, x`next, s0.nodes`prior, s0.nodes`next, chain.buckets`prior
      ensures Valid() && chain.s.nodes == Without(s0, i)
    {
      MovedOut(x, chain.s, j, s0, i);
      EraseAmong(x, j, (set c <- s0.nodes) + {x});
    }

    // x is taken out of the nodes of cs.
    method EraseAmong(x: Cell, ghost j: int, ghost cs: set<Cell>)
      requires Valid() && chain.Inner(x, j) && forall c <- chain.s.nodes :: c in cs
      modifies chain`s, cs`prior, cs`next, chain.buckets`prior
      ensures Valid() && chain.s == Dropped(old(chain.s), j)
    {
      assert GroupedBut(j) && HashedBut(j);
      var _ := Erase(x, j);
    }

    lemma MovedOut(x: Cell, t: Layout, j: int, s0: Layout, i: int)
      requires Inside(s0, i) && Moved(x, t, j, s0, i) && Sized(t) && 0 <= j < Last(t)
      ensures N(t, j) == x && Dropped(t, j).nodes == Without(s0, i)
      ensures forall c <- t.nodes :: c in s0.nodes || c == x
    {
    }

    // Whether x may stay with the key it has now.
    method KeepsPlace(x: Cell, ghost i: int) returns (b: bool)
      requires Wired() && GroupedBut(i) && HashedBut(i) && chain.Inner(x, i)
      ensures Wired() && GroupedBut(i) && HashedBut(i) && chain.Inner(x, i)
      ensures b <==> Stays(i, Q(i), buckets[Position(Q(i))])
    {
      b := InPlace(x, key(x.value), Position(key(x.value)), i);
    }

    // It keeps its place if the pointers allow it, or moves.
    method PlaceByKey(x: Cell, ghost i: int) returns (ghost j: int)
      requires Wired() && GroupedBut(i) && HashedBut(i) && chain.Inner(x, i)
      modifies chain`s, chain.s.nodes`prior, chain.s.nodes`next, x`prior, x`next, chain.buckets`prior
      ensures Valid() && Moved(x, chain.s, j, old(chain.s), i) && 0 <= j < Last(chain.s)
      ensures if old(Stays(i, Q(i), buckets[Position(Q(i))])) then j == i else Leads(j)
    {
      var b := KeepsPlace(x, i);
      if b {
        j := i;
        KeepPlace(x, i);
      } else {
        j := Move(x, i);
      }
    }

    // x has another key: it is placed by it if the other indices accept, or else every pointer is as before.
    method ModifyRollback(x: Cell, accept: bool, ghost i: int) returns (ghost j: int)
      requires Wired() && GroupedBut(i) && HashedBut(i) && chain.Inner(x, i)
      modifies chain`s, chain.s.nodes`prior, chain.s.nodes`next, x`prior, x`next, chain.buckets`prior
      ensures accept ==> Valid() && Moved(x, chain.s, j, old(chain.s), i)
      ensures old(Stays(i, Q(i), buckets[Position(Q(i))])) ==> j == i
      ensures accept && !old(Stays(i, Q(i), buckets[Position(Q(i))])) ==> Leads(j)
      ensures !accept ==> Wired() && chain.s == old(chain.s)
    {
      var b := KeepsPlace(x, i);
      if b {
        j := i;
        if accept { KeepPlace(x, i); }
      } else {
        j := MoveOrRestore(x, accept, i);
      }
    }

    method MoveOrRestore(x: Cell, accept: bool, ghost i: int) returns (ghost j: int)
      requires Wired() && GroupedBut(i) && HashedBut(i) && chain.Inner(x, i)
      modifies chain`s, chain.s.nodes`prior, chain.s.nodes`next, x`prior, x`next, chain.buckets`prior
      ensures accept ==> Valid() && Moved(x, chain.s, j, old(chain.s), i) && Leads(j)
      ensures !accept ==> Wired() && chain.s == old(chain.s)
    {
      ghost var s0 := chain.s;
      var undo := Erase(x, i);
      j := i;
      if accept {
        j := PutAgain(x, s0, i);
      } else {
        PutChainBack(undo, s0, i);
      }
    }

    method Move(x: Cell, ghost i: int) returns (ghost j: int)
      requires Wired() && GroupedBut(i) && HashedBut(i) && chain.Inner(x, i)
      modifies chain`s, chain.s.nodes`prior, chain.s.nodes`next, x`prior, x`next, chain.buckets`prior
      ensures Valid() && Moved(x, chain.s, j, old(chain.s), i) && Leads(j)
    {
      ghost var s0 := chain.s;
      var _ := Erase(x, i);
      j := PutAgain(x, s0, i);
    }

    method PutAgain(x: Cell, ghost s0: Layout, ghost i: int) returns (ghost j: int)
      requires Valid() && x !in chain.s.nodes && x !in chain.buckets && Inside(s0, i) && chain.s.nodes == Without(s0, i)
      modifies chain`s, x`prior, x`next, chain.s.nodes`prior, chain.s.nodes`next, chain.buckets`prior
      ensures Valid() && Moved(x, chain.s, j, s0, i) && Leads(j)
    {
      j := Insert(x);
    }

    // The groups follow the new key.
    ghost method KeepPlace(x: Cell, i: int)
      requires Wired() && GroupedBut(i) && HashedBut(i) && chain.Inner(x, i) && Stays(i, Q(i), buckets[Position(Q(i))])
      modifies chain`s
      ensures Valid() && Moved(x, chain.s, i, old(chain.s), i)
    {
      StaysEncodes(i, buckets[Position(Q(i))]);
      var t :| Encodes(t, i, buckets[Position(Q(i))]);
      EncodesIsArranged(t, i);
      chain.Regroup(t);
      ValidIsArranged();
    }

    lemma EncodesIsArranged(t: Layout, i: int)
      requires Wired() && 0 <= i < Last(chain.s) && HashedBut(i) && Encodes(t, i, buckets[Position(Q(i))])
      ensures Arranged(t) && B(t, Last(t)) == B(chain.s, Last(chain.s)) && N(t, Last(t)) == N(chain.s, Last(chain.s))
    {
      forall a, b {:trigger Key(t, a), Key(t, b)} | 0 <= a < Last(t) && 0 <= b < Last(t)
        ensures eq(Key(t, a), Key(t, b)) <==> G(t, a) == G(t, b)
      {
        assert Key(t, a) == Q(a) && Key(t, b) == Q(b);
      }
      forall a {:trigger Key(t, a)} | 0 <= a < Last(t) ensures B(t, a) == buckets[Position(Key(t, a))] {
        assert Key(t, a) == Q(a);
      }
    }
  }
}
