/** Ranges of nodes of a hash chain that are a group of their own: linking one to a bucket, and taking it out again. */
module HashRanges {

  import opened HashLayout
  import opened HashIndexNode
  import S = Spans

  /* Ranges of nodes that are a group of their own */

  // The pointers between the nodes of a range.
  ghost predicate InnerPrior(xs: seq<Cell>, m: int)
    requires 0 < m < |xs|
    reads xs`prior
  {
    xs[m].prior == xs[InnerBack(|xs|, m)]
  }

  ghost predicate InnerNext(xs: seq<Cell>, m: int)
    requires 0 <= m < |xs| - 1
    reads xs`next
  {
    xs[m].next == xs[InnerForth(|xs|, m)]
  }

  function InnerBack(w: int, m: int): (r: int)
    requires 0 < m < w
    ensures 0 <= r < w && r == Back(m, S.Span(0, w - 1), w - 1)
  {
    if m == 1 && w >= 3 then w - 1 else m - 1
  }

  function InnerForth(w: int, m: int): (r: int)
    requires 0 <= m < w - 1
    ensures 0 <= r < w && r == Forth(m, S.Span(0, w - 1))
  {
    if m == w - 2 && w >= 3 then 0 else m + 1
  }

  ghost predicate Ranged(xs: seq<Cell>)
    reads xs`prior, xs`next
  {
    && (forall m {:trigger InnerPrior(xs, m)} | 0 < m < |xs| :: InnerPrior(xs, m))
    && (forall m {:trigger InnerNext(xs, m)} | 0 <= m < |xs| - 1 :: InnerNext(xs, m))
  }

  ghost predicate NewRange(chain: Chain, xs: seq<Cell>)
    reads chain
  {
    |xs| > 0 && Newcomers(chain.s, xs) && forall c {:trigger c in xs} | c in xs :: c !in chain.buckets
  }

  /* Linking a range to a bucket */

  lemma RangeWritten(s: Layout, xs: seq<Cell>, i: int, inBucket: bool)
    requires Shaped(s) && Inside(s, i) && |xs| > 0 && Ranged(xs)
    requires xs[0].prior == PriorNode(s, i) && xs[|xs| - 1].next == (if inBucket then N(s, i) else B(s, i))
    ensures forall m {:trigger NewWritten(s, xs, i, inBucket, m)} | 0 <= m < |xs| :: NewWritten(s, xs, i, inBucket, m)
  {
    forall m | 0 <= m < |xs| ensures NewWritten(s, xs, i, inBucket, m) {
      assert m > 0 ==> InnerPrior(xs, m);
      assert m < |xs| - 1 ==> InnerNext(xs, m);
    }
  }

  // The first branch: an empty bucket.
  method LinkRangeEmpty(cpy: Chain, ghost xs: seq<Cell>, first: Cell, last: Cell, buc: Cell)
    requires cpy.Valid() && NewRange(cpy, xs) && Ranged(xs) && first == xs[0] && last == xs[|xs| - 1]
    requires buc in cpy.buckets && B(cpy.s, Last(cpy.s)) != buc && buc.prior == null
    modifies cpy`s, first`prior, last`next, cpy.s.nodes`prior, cpy.s.nodes`next, buc`prior
    ensures cpy.Valid() && cpy.s == Opened(old(cpy.s), xs, Last(old(cpy.s)), false, false, buc)
  {
    ghost var s0 := cpy.s;
    ghost var i := Last(s0);
    ghost var p := if i == 0 then 0 else i - 1;
    HeaderPlace(s0);
    Pointers(s0, cpy.buckets, i);
    Pointers(s0, cpy.buckets, p);
    assert N(s0, i) in s0.nodes && N(s0, p) in s0.nodes && first in xs && last in xs;
    first.prior := cpy.end.prior;
    last.next := cpy.end.prior.next;
    first.prior.next := buc;
    buc.prior := first;
    cpy.end.prior := last;
    cpy.s := Opened(s0, xs, i, false, false, buc);
    RangeStillInner(xs);
    EmptyLinked(cpy, xs, s0, buc);
    WrittenIsLinked(s0, xs, i, false, false, buc, cpy.buckets);
    OpenedAt(s0, xs, i, false, false, buc, Last(cpy.s));
  }

  twostate lemma RangeStillInner(xs: seq<Cell>)
    requires old(Ranged(xs)) && |xs| > 0
    requires forall c {:trigger c.prior} | c in xs && c != xs[0] :: c.prior == old(c.prior)
    requires forall c {:trigger c.next} | c in xs && c != xs[|xs| - 1] :: c.next == old(c.next)
    requires forall m, n | 0 <= m < n < |xs| :: xs[m] != xs[n]
    ensures Ranged(xs)
  {
    forall m | 0 < m < |xs| ensures InnerPrior(xs, m) {
      assert old(InnerPrior(xs, m)) && xs[m] in xs;
    }
    forall m | 0 <= m < |xs| - 1 ensures InnerNext(xs, m) {
      assert old(InnerNext(xs, m)) && xs[m] in xs;
    }
  }

  twostate lemma EmptyLinked(cpy: Chain, new xs: seq<Cell>, new s0: Layout, new buc: Cell)
    requires s0 == old(cpy.s) && old(cpy.Valid()) && buc in old(cpy.buckets) && cpy.buckets == old(cpy.buckets)
    requires |xs| > 0 && Newcomers(s0, xs) && Ranged(xs) && forall c {:trigger c in xs} | c in xs :: c !in cpy.buckets
    requires B(s0, Last(s0)) != buc && old(buc.prior) == null
    requires xs[0].prior == PriorNode(s0, Last(s0)) && xs[|xs| - 1].next == B(s0, Last(s0))
    requires forall c <- s0.nodes :: c.prior == if c == cpy.end then xs[|xs| - 1] else old(c.prior)
    requires forall c <- s0.nodes :: c.next == if c == PriorNode(s0, Last(s0)) then buc else old(c.next)
    requires forall b <- cpy.buckets :: b.prior == if b == buc then xs[0] else old(b.prior)
    ensures NodesWritten(s0, xs, Last(s0), false, false, buc)
      && BucketsWritten(s0, xs, Last(s0), false, buc, cpy.buckets)
  {
    HeaderPlace(s0);
    RangeWritten(s0, xs, Last(s0), false);
    forall j | Inside(s0, j) ensures OldWritten(s0, xs, Last(s0), false, false, buc, j) {
      var p := if Last(s0) == 0 then 0 else Last(s0) - 1;
      assert N(s0, j) in s0.nodes;
      assert old(PriorOk(s0, j) && NextOk(s0, j));
      assert Same(s0, j, Last(s0)) == (j == Last(s0)) && Same(s0, j, p) == (j == p);
    }
    forall j | Inside(s0, j) ensures HomeWritten(s0, xs, Last(s0), false, cpy.buckets, j) {
      assert old(HomeOk(s0, cpy.buckets, j));
    }
    forall c | c in cpy.buckets && c != buc ensures Spare(s0, c) {
      assert old(Spare(s0, c));
    }
  }

  // The second branch: in front of the nodes of the bucket.
  method LinkRangeFront(cpy: Chain, ghost xs: seq<Cell>, first: Cell, last: Cell, buc: Cell) returns (ghost i: int)
    requires cpy.Valid() && NewRange(cpy, xs) && Ranged(xs) && first == xs[0] && last == xs[|xs| - 1]
    requires buc in cpy.buckets && B(cpy.s, Last(cpy.s)) != buc && buc.prior != null
    modifies cpy`s, first`prior, last`next, cpy.s.nodes`prior, buc`prior
    ensures cpy.Valid() && 0 <= i < Last(old(cpy.s)) && i == K(old(cpy.s), i).lo && B(old(cpy.s), i) == buc
    ensures cpy.s == Opened(old(cpy.s), xs, i, false, true, buc)
  {
    ghost var s0 := cpy.s;
    i := cpy.FrontIndex(buc);
    Pointers(s0, cpy.buckets, i);
    assert first in xs && last in xs;
    first.prior := buc.prior.prior;
    last.next := buc.prior;
    buc.prior := first;
    last.next.prior := last;
    cpy.s := Opened(s0, xs, i, false, true, buc);
    RangeStillInner(xs);
    FrontLinked(cpy, xs, s0, i);
    WrittenIsLinked(s0, xs, i, false, true, buc, cpy.buckets);
    OpenedAt(s0, xs, i, false, true, buc, Last(cpy.s));
  }

  twostate lemma FrontLinked(cpy: Chain, new xs: seq<Cell>, new s0: Layout, new i: int)
    requires s0 == old(cpy.s) && old(cpy.Valid()) && cpy.buckets == old(cpy.buckets)
    requires |xs| > 0 && Newcomers(s0, xs) && Ranged(xs) && forall c {:trigger c in xs} | c in xs :: c !in cpy.buckets
    requires 0 <= i < Last(s0) && i == K(s0, i).lo == G(s0, i).lo
    requires xs[0].prior == PriorNode(s0, i) && xs[|xs| - 1].next == N(s0, i)
    requires forall c <- s0.nodes :: c.prior == if c == N(s0, i) then xs[|xs| - 1] else old(c.prior)
    requires forall c <- s0.nodes :: c.next == old(c.next)
    requires forall b <- cpy.buckets :: b.prior == if b == B(s0, i) then xs[0] else old(b.prior)
    ensures NodesWritten(s0, xs, i, false, true, B(s0, i)) && BucketsWritten(s0, xs, i, true, B(s0, i), cpy.buckets)
  {
    RangeWritten(s0, xs, i, true);
    forall j | Inside(s0, j) ensures OldWritten(s0, xs, i, false, true, B(s0, i), j) {
      assert N(s0, j) in s0.nodes;
      assert old(PriorOk(s0, j) && NextOk(s0, j));
      assert Same(s0, j, i) == (j == i);
    }
    forall j | Inside(s0, j) ensures HomeWritten(s0, xs, i, true, cpy.buckets, j) {
      assert old(HomeOk(s0, cpy.buckets, j)) && old(HomeOk(s0, cpy.buckets, i));
      Unfold(s0, i);
      Unfold(s0, j);
      if B(s0, j) == B(s0, i) { OneFront(s0, i, j); }
      if K(s0, j).lo == i { SameBucket(s0, j, i); }
    }
    forall c | c in cpy.buckets && c != B(s0, i) ensures Spare(s0, c) {
      assert old(Spare(s0, c));
    }
  }

  /* Unlinking the range that was linked last */

  // s is s0 with xs put in front of the bucket b, the one at i.
  ghost predicate Before(s0: Layout, xs: seq<Cell>, i: int, b: Cell, s: Layout) {
    && Shaped(s0) && Newcomers(s0, xs) && HashLayout.Place(s0, |xs|, i, false, i < Last(s0), b)
    && s == Opened(s0, xs, i, false, i < Last(s0), b)
  }

  // What node j of s0, and its bucket, lead to while xs is there.
  ghost predicate OldOk(s0: Layout, xs: seq<Cell>, i: int, b: Cell, buckets: set<Cell>, j: int)
    requires Shaped(s0) && Inside(s0, i) && Inside(s0, j) && |xs| > 0
    reads s0.nodes`prior, s0.nodes`next, buckets`prior
  {
    && B(s0, j) in buckets
    && N(s0, j).prior == (if j == i then xs[|xs| - 1] else PriorNode(s0, j))
    && N(s0, j).next == (if i == Last(s0) && Following(s0, j) == i then b else NextCell(s0, j))
    && B(s0, j).prior == (if i < Last(s0) && K(s0, j).lo == i then xs[0] else Front(s0, j))
  }

  ghost predicate AllOld(s0: Layout, xs: seq<Cell>, i: int, b: Cell, buckets: set<Cell>)
    requires Shaped(s0) && Inside(s0, i) && |xs| > 0
    reads s0.nodes`prior, s0.nodes`next, buckets`prior
  {
    && b in buckets && (forall c {:trigger c in s0.nodes} | c in s0.nodes :: c !in buckets)
    && (forall j {:trigger OldOk(s0, xs, i, b, buckets, j)} | Inside(s0, j) :: OldOk(s0, xs, i, b, buckets, j))
    && (forall c {:trigger Spare(s0, c)} | c in buckets && c != b :: Spare(s0, c))
    && b.prior == xs[0]
  }

  lemma OldPointers(cpy: Chain, s0: Layout, xs: seq<Cell>, i: int, b: Cell, j: int)
    requires cpy.Valid() && Before(s0, xs, i, b, cpy.s) && Inside(s0, j)
    ensures N(s0, j) in cpy.s.nodes && OldOk(s0, xs, i, b, cpy.buckets, j)
  {
    var inBucket := i < Last(s0);
    var u := S.Up(j, i, |xs|);
    OldAt(s0, xs, i, false, inBucket, b, j);
    Pointers(cpy.s, cpy.buckets, u);
    PriorOfOpened(s0, xs, i, false, inBucket, b, j);
    NextOfOpened(s0, xs, i, false, inBucket, b, j);
    FrontOfOpened(s0, xs, i, false, inBucket, b, u);
  }

  lemma OldSpare(cpy: Chain, s0: Layout, xs: seq<Cell>, i: int, b: Cell, c: Cell)
    requires cpy.Valid() && Before(s0, xs, i, b, cpy.s) && c in cpy.buckets && c != b
    ensures Spare(s0, c)
  {
    assert Spare(cpy.s, c);
    if c in cpy.s.home {
      var u :| 0 <= u < |cpy.s.home| && cpy.s.home[u] == c;
      OpenedAt(s0, xs, i, false, i < Last(s0), b, u);
      assert s0.home[S.Before(u, i, |xs|)] == c;
    }
  }

  lemma BeforeIsOld(cpy: Chain, s0: Layout, xs: seq<Cell>, i: int, b: Cell)
    requires cpy.Valid() && Before(s0, xs, i, b, cpy.s)
    ensures AllOld(s0, xs, i, b, cpy.buckets)
  {
    forall j | Inside(s0, j) ensures OldOk(s0, xs, i, b, cpy.buckets, j) {
      OldPointers(cpy, s0, xs, i, b, j);
    }
    forall c | c in s0.nodes ensures c !in cpy.buckets {
      assert c in cpy.s.nodes;
    }
    forall c | c in cpy.buckets && c != b ensures Spare(s0, c) {
      OldSpare(cpy, s0, xs, i, b, c);
    }
    RangePointers(cpy, s0, xs, i, b);
  }

  // What the range and its bucket lead to.
  lemma RangePointers(cpy: Chain, s0: Layout, xs: seq<Cell>, i: int, b: Cell)
    requires cpy.Valid() && Before(s0, xs, i, b, cpy.s)
    ensures var e := |xs| - 1;
      && xs[0] in cpy.s.nodes && xs[e] in cpy.s.nodes && b in cpy.buckets && b.prior == xs[0]
      && xs[0].prior == PriorNode(s0, i) && xs[e].next == (if i < Last(s0) then N(s0, i) else B(s0, i))
      && (|xs| > 1 ==> xs[e].prior == xs[InnerBack(|xs|, e)] && xs[e] != xs[InnerBack(|xs|, e)])
  {
    var inBucket := i < Last(s0);
    var e := |xs| - 1;
    OpenedAt(s0, xs, i, false, inBucket, b, i);
    OpenedAt(s0, xs, i, false, inBucket, b, i + e);
    Pointers(cpy.s, cpy.buckets, i);
    Pointers(cpy.s, cpy.buckets, i + e);
    PriorOfNew(s0, xs, i, false, inBucket, b, 0);
    PriorOfNew(s0, xs, i, false, inBucket, b, e);
    NextOfNew(s0, xs, i, false, inBucket, b, e);
    Unfold(s0, i);
    FrontOfOpened(s0, xs, i, false, inBucket, b, i);
  }

  lemma RangeIsRanged(cpy: Chain, s0: Layout, xs: seq<Cell>, i: int, b: Cell)
    requires cpy.Valid() && Before(s0, xs, i, b, cpy.s)
    ensures Ranged(xs)
  {
    var inBucket := i < Last(s0);
    forall m | 0 < m < |xs| ensures InnerPrior(xs, m) {
      OpenedAt(s0, xs, i, false, inBucket, b, i + m);
      Pointers(cpy.s, cpy.buckets, i + m);
      PriorOfNew(s0, xs, i, false, inBucket, b, m);
    }
    forall m | 0 <= m < |xs| - 1 ensures InnerNext(xs, m) {
      OpenedAt(s0, xs, i, false, inBucket, b, i + m);
      Pointers(cpy.s, cpy.buckets, i + m);
      NextOfNew(s0, xs, i, false, inBucket, b, m);
    }
  }

  lemma PriorPlace(s: Layout, i: int)
    requires Shaped(s) && Inside(s, i) && i == K(s, i).lo
    ensures var p := Back(i, G(s, i), Last(s));
      Inside(s, p) && PriorNode(s, i) == N(s, p) && NextCell(s, p) == B(s, i) && Following(s, p) == i
  {
    var p := Back(i, G(s, i), Last(s));
    Unfold(s, i);
    Unfold(s, p);
    if i > 0 { Apart(s, i, p); }
  }

  // The range is the first of its bucket; it may be all of it.
  method UnlinkRange(cpy: Chain, ghost s0: Layout, ghost xs: seq<Cell>, ghost i: int, ghost b: Cell, first: Cell,
      last: Cell)
    requires cpy.Valid() && Before(s0, xs, i, b, cpy.s) && first == xs[0] && last == xs[|xs| - 1]
    requires N(s0, Last(s0)) == cpy.end
    modifies cpy`s, s0.nodes`prior, s0.nodes`next, b`prior
    ensures cpy.Valid() && cpy.s == s0
  {
    BeforeIsOld(cpy, s0, xs, i, b);
    RangePointers(cpy, s0, xs, i, b);
    LastOfBucket(s0, xs, i, b, cpy.buckets, last);
    if last.next.prior.prior == last {
      UnlinkWhole(s0, xs, i, b, cpy.buckets, first, last);
    } else {
      UnlinkPart(s0, xs, i, b, cpy.buckets, first, last);
    }
    cpy.s := s0;
  }

  // What the range itself leads to.
  ghost predicate EndsOk(s0: Layout, xs: seq<Cell>, i: int)
    requires Shaped(s0) && Inside(s0, i) && |xs| > 0
    reads xs`prior, xs`next
  {
    var e := |xs| - 1;
    && xs[0].prior == PriorNode(s0, i) && xs[e].next == (if i < Last(s0) then N(s0, i) else B(s0, i))
    && (|xs| > 1 ==> xs[e].prior == xs[InnerBack(|xs|, e)] && xs[e] != xs[InnerBack(|xs|, e)])
  }

  // The last of the range is the last of the bucket just when the range is all of it.
  lemma LastOfBucket(s0: Layout, xs: seq<Cell>, i: int, b: Cell, buckets: set<Cell>, last: Cell)
    requires Shaped(s0) && Newcomers(s0, xs) && HashLayout.Place(s0, |xs|, i, false, i < Last(s0), b)
    requires AllOld(s0, xs, i, b, buckets) && EndsOk(s0, xs, i) && last == xs[|xs| - 1]
    ensures last.next != null && last.next.prior != null
    ensures last.next.prior.prior == last <==> i == Last(s0)
  {
    assert OldOk(s0, xs, i, b, buckets, i) && OldOk(s0, xs, i, b, buckets, Last(s0));
    Unfold(s0, i);
    assert PriorNode(s0, i) in s0.nodes;
    if i == Last(s0) { HeaderPlace(s0); }
  }

  method UnlinkWhole(ghost s0: Layout, ghost xs: seq<Cell>, ghost i: int, ghost b: Cell,
      ghost buckets: set<Cell>, first: Cell, last: Cell)
    requires Shaped(s0) && Newcomers(s0, xs) && HashLayout.Place(s0, |xs|, i, false, i < Last(s0), b)
    requires AllOld(s0, xs, i, b, buckets) && EndsOk(s0, xs, i) && first == xs[0] && last == xs[|xs| - 1]
      && i == Last(s0)
    modifies s0.nodes`prior, s0.nodes`next, b`prior
    ensures Linked(s0, buckets)
  {
    ghost var p := Back(i, G(s0, i), Last(s0));
    PriorPlace(s0, i);
    HeaderPlace(s0);
    assert N(s0, i) in s0.nodes && N(s0, p) in s0.nodes;
    assert OldOk(s0, xs, i, b, buckets, i) && OldOk(s0, xs, i, b, buckets, p);
    first.prior.next.prior := null;
    first.prior.next := last.next;
    last.next.prior.prior := first.prior;
    forall j | Inside(s0, j) ensures PriorOk(s0, j) && NextOk(s0, j) && HomeOk(s0, buckets, j) {
      assert old(OldOk(s0, xs, i, b, buckets, j));
      assert Same(s0, j, i) == (j == i) && Same(s0, j, p) == (j == p);
      Unfold(s0, j);
      assert Front(s0, j) in s0.nodes && xs[0] !in s0.nodes;
    }
    forall d | d in buckets ensures Spare(s0, d) {
      assert d != b ==> old(Spare(s0, d));
    }
  }

  method UnlinkPart(ghost s0: Layout, ghost xs: seq<Cell>, ghost i: int, ghost b: Cell,
      ghost buckets: set<Cell>, first: Cell, last: Cell)
    requires Shaped(s0) && Newcomers(s0, xs) && HashLayout.Place(s0, |xs|, i, false, i < Last(s0), b)
    requires AllOld(s0, xs, i, b, buckets) && EndsOk(s0, xs, i) && first == xs[0] && last == xs[|xs| - 1]
      && i < Last(s0)
    modifies s0.nodes`prior, b`prior
    ensures Linked(s0, buckets)
  {
    ghost var p := Back(i, G(s0, i), Last(s0));
    PriorPlace(s0, i);
    assert N(s0, i) in s0.nodes && N(s0, p) in s0.nodes;
    assert OldOk(s0, xs, i, b, buckets, i) && OldOk(s0, xs, i, b, buckets, p);
    first.prior.next.prior := last.next;
    last.next.prior := first.prior;
    forall j | Inside(s0, j) ensures PriorOk(s0, j) && NextOk(s0, j) && HomeOk(s0, buckets, j) {
      assert old(OldOk(s0, xs, i, b, buckets, j));
      assert Same(s0, j, i) == (j == i);
      Unfold(s0, j);
      assert Front(s0, j) in s0.nodes && xs[0] !in s0.nodes;
      if K(s0, j).lo == i { SameBucket(s0, j, i); }
    }
    forall d | d in buckets ensures Spare(s0, d) {
      assert d != b ==> old(Spare(s0, d));
      assert s0.home[i] == b;
    }
  }

  // Links a range to a bucket; i is where it goes.
  method LinkRange(cpy: Chain, ghost xs: seq<Cell>, first: Cell, last: Cell, buc: Cell) returns (ghost i: int)
    requires cpy.Valid() && NewRange(cpy, xs) && Ranged(xs) && first == xs[0] && last == xs[|xs| - 1]
    requires buc in cpy.buckets && B(cpy.s, Last(cpy.s)) != buc
    modifies cpy`s, first`prior, last`next, cpy.s.nodes`prior, cpy.s.nodes`next, buc`prior
    ensures cpy.Valid() && Before(old(cpy.s), xs, i, buc, cpy.s)
  {
    ghost var s0 := cpy.s;
    HeaderPlace(s0);
    if buc.prior == null {
      i := Last(s0);
      LinkRangeEmpty(cpy, xs, first, last, buc);
    } else {
      i := LinkRangeFront(cpy, xs, first, last, buc);
    }
  }

  // The first node of the range is told from its last.
  method FirstOf(cpy: Chain, ghost s0: Layout, ghost xs: seq<Cell>, ghost i: int, ghost b: Cell, x: Cell)
      returns (y: Cell)
    requires cpy.Valid() && Before(s0, xs, i, b, cpy.s) && x == xs[|xs| - 1] && |xs| != 2
    ensures y == xs[0]
  {
    RangePointers(cpy, s0, xs, i, b);
    BeforeIsOld(cpy, s0, xs, i, b);
    PriorPlace(s0, i);
    assert OldOk(s0, xs, i, b, cpy.buckets, Back(i, G(s0, i), Last(s0)));
    assert N(s0, Back(i, G(s0, i), Last(s0))) in s0.nodes;
    if |xs| > 1 { RangeIsRanged(cpy, s0, xs, i, b); assert InnerNext(xs, |xs| - 2); }
    y := if x.prior.next != x && x.prior.next.prior != x then x.prior.next else x;
  }
}
