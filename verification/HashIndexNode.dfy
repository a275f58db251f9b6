/** The chain of a hashed non-unique index: linking and unlinking nodes by their two pointers. */
module HashIndexNode {

  import opened HashLayout
  import S = Spans

  ghost predicate PriorOk(s: Layout, i: int)
    requires Shaped(s) && Inside(s, i)
    reads s.nodes`prior
  {
    N(s, i).prior == PriorNode(s, i)
  }

  ghost predicate NextOk(s: Layout, i: int)
    requires Shaped(s) && Inside(s, i)
    reads s.nodes`next
  {
    N(s, i).next == NextCell(s, i)
  }

  // The bucket of node i leads to its first node.
  ghost predicate HomeOk(s: Layout, buckets: set<Cell>, i: int)
    requires Shaped(s) && Inside(s, i)
    reads buckets`prior
  {
    B(s, i) in buckets && B(s, i).prior == Front(s, i)
  }

  ghost predicate Spare(s: Layout, b: Cell)
    reads b`prior
  {
    b.prior != null ==> b in s.home
  }

  // The pointers of the nodes, and of the buckets, are those of the layout.
  ghost predicate Linked(s: Layout, buckets: set<Cell>)
    reads s.nodes`prior, s.nodes`next, buckets`prior
  {
    && Shaped(s)
    && (forall c {:trigger c in s.nodes} | c in s.nodes :: c !in buckets)
    && (forall i {:trigger PriorOk(s, i)} | Inside(s, i) :: PriorOk(s, i))
    && (forall i {:trigger NextOk(s, i)} | Inside(s, i) :: NextOk(s, i))
    && (forall i {:trigger HomeOk(s, buckets, i)} | Inside(s, i) :: HomeOk(s, buckets, i))
    && (forall b {:trigger Spare(s, b)} | b in buckets :: Spare(s, b))
  }

  /* What linking nodes must have written */

  ghost predicate OldWritten(s: Layout, xs: seq<Cell>, i: int, inGroup: bool, inBucket: bool, b: Cell, j: int)
    requires Shaped(s) && Inside(s, i) && Inside(s, j) && |xs| > 0
    reads s.nodes`prior, s.nodes`next
  {
    N(s, j).prior == PriorWith(s, xs, i, inGroup, j) && N(s, j).next == NextWith(s, xs, i, inGroup, inBucket, b, j)
  }

  ghost predicate NewWritten(s: Layout, xs: seq<Cell>, i: int, inBucket: bool, m: int)
    requires Shaped(s) && Inside(s, i) && 0 <= m < |xs|
    reads xs`prior, xs`next
  {
    && xs[m].prior == (if m == 0 then PriorNode(s, i) else xs[Back(m, S.Span(0, |xs| - 1), |xs| - 1)])
    && xs[m].next == (if m < |xs| - 1 then xs[Forth(m, S.Span(0, |xs| - 1))] else if inBucket then N(s, i) else B(s, i))
  }

  ghost predicate HomeWritten(s: Layout, xs: seq<Cell>, i: int, inBucket: bool, buckets: set<Cell>, j: int)
    requires Shaped(s) && Inside(s, i) && Inside(s, j) && |xs| > 0
    reads buckets`prior
  {
    && B(s, j) in buckets
    && B(s, j).prior == (if inBucket && K(s, j).lo == i then xs[0] else Front(s, j))
  }

  ghost predicate NodesWritten(s: Layout, xs: seq<Cell>, i: int, inGroup: bool, inBucket: bool, b: Cell)
    requires Shaped(s)
    reads s.nodes`prior, s.nodes`next, xs`prior, xs`next
  {
    && Place(s, |xs|, i, inGroup, inBucket, b)
    && (forall j {:trigger OldWritten(s, xs, i, inGroup, inBucket, b, j)} | Inside(s, j) ::
      OldWritten(s, xs, i, inGroup, inBucket, b, j))
    && (forall m {:trigger NewWritten(s, xs, i, inBucket, m)} | 0 <= m < |xs| :: NewWritten(s, xs, i, inBucket, m))
  }

  ghost predicate BucketsWritten(s: Layout, xs: seq<Cell>, i: int, inBucket: bool, b: Cell, buckets: set<Cell>)
    requires Shaped(s) && Inside(s, i) && |xs| > 0
    reads buckets`prior
  {
    && (forall j {:trigger HomeWritten(s, xs, i, inBucket, buckets, j)} | Inside(s, j) ::
      HomeWritten(s, xs, i, inBucket, buckets, j))
    && (forall c {:trigger c in s.nodes} | c in s.nodes :: c !in buckets)
    && (forall c {:trigger c in xs} | c in xs :: c !in buckets)
    && b in buckets && (!inBucket ==> b.prior == xs[0])
    && (forall c {:trigger Spare(s, c)} | c in buckets && c != b :: Spare(s, c))
  }

  lemma OldIsLinked(s: Layout, xs: seq<Cell>, i: int, inGroup: bool, inBucket: bool, b: Cell, j: int)
    requires Shaped(s) && Place(s, |xs|, i, inGroup, inBucket, b) && Shaped(Opened(s, xs, i, inGroup, inBucket, b))
    requires Inside(s, j) && OldWritten(s, xs, i, inGroup, inBucket, b, j)
    ensures var t, u := Opened(s, xs, i, inGroup, inBucket, b), S.Up(j, i, |xs|);
      Inside(t, u) && PriorOk(t, u) && NextOk(t, u)
  {
    OldAt(s, xs, i, inGroup, inBucket, b, j);
    PriorOfOpened(s, xs, i, inGroup, inBucket, b, j);
    NextOfOpened(s, xs, i, inGroup, inBucket, b, j);
  }

  lemma NewIsLinked(s: Layout, xs: seq<Cell>, i: int, inGroup: bool, inBucket: bool, b: Cell, m: int)
    requires Shaped(s) && Place(s, |xs|, i, inGroup, inBucket, b) && Shaped(Opened(s, xs, i, inGroup, inBucket, b))
    requires 0 <= m < |xs| && NewWritten(s, xs, i, inBucket, m)
    ensures var t := Opened(s, xs, i, inGroup, inBucket, b); PriorOk(t, i + m) && NextOk(t, i + m)
  {
    OpenedAt(s, xs, i, inGroup, inBucket, b, i + m);
    PriorOfNew(s, xs, i, inGroup, inBucket, b, m);
    NextOfNew(s, xs, i, inGroup, inBucket, b, m);
  }

  lemma NodesAt(s: Layout, xs: seq<Cell>, i: int, inGroup: bool, inBucket: bool, b: Cell, u: int)
    requires Shaped(s) && NodesWritten(s, xs, i, inGroup, inBucket, b) && Shaped(Opened(s, xs, i, inGroup, inBucket, b))
    requires 0 <= u <= Last(s) + |xs|
    ensures var t := Opened(s, xs, i, inGroup, inBucket, b); PriorOk(t, u) && NextOk(t, u)
  {
    var w := |xs|;
    if i <= u < i + w {
      NewNodeAt(s, xs, i, inGroup, inBucket, b, u - i);
    } else {
      var j := S.Before(u, i, w);
      assert S.Up(j, i, w) == u;
      OldNodeAt(s, xs, i, inGroup, inBucket, b, j);
    }
  }

  lemma OldNodeAt(s: Layout, xs: seq<Cell>, i: int, inGroup: bool, inBucket: bool, b: Cell, j: int)
    requires Shaped(s) && NodesWritten(s, xs, i, inGroup, inBucket, b) && Shaped(Opened(s, xs, i, inGroup, inBucket, b))
      && Inside(s, j)
    ensures var t, u := Opened(s, xs, i, inGroup, inBucket, b), S.Up(j, i, |xs|); PriorOk(t, u) && NextOk(t, u)
  {
    assert OldWritten(s, xs, i, inGroup, inBucket, b, j);
    OldIsLinked(s, xs, i, inGroup, inBucket, b, j);
  }

  lemma NewNodeAt(s: Layout, xs: seq<Cell>, i: int, inGroup: bool, inBucket: bool, b: Cell, m: int)
    requires Shaped(s) && NodesWritten(s, xs, i, inGroup, inBucket, b) && Shaped(Opened(s, xs, i, inGroup, inBucket, b))
      && 0 <= m < |xs|
    ensures var t := Opened(s, xs, i, inGroup, inBucket, b); PriorOk(t, i + m) && NextOk(t, i + m)
  {
    assert NewWritten(s, xs, i, inBucket, m);
    NewIsLinked(s, xs, i, inGroup, inBucket, b, m);
  }

  lemma HomeAt(s: Layout, xs: seq<Cell>, i: int, inGroup: bool, inBucket: bool, b: Cell, buckets: set<Cell>, u: int)
    requires Shaped(s) && Place(s, |xs|, i, inGroup, inBucket, b) && Shaped(Opened(s, xs, i, inGroup, inBucket, b))
    requires BucketsWritten(s, xs, i, inBucket, b, buckets)
    requires 0 <= u <= Last(s) + |xs|
    ensures HomeOk(Opened(s, xs, i, inGroup, inBucket, b), buckets, u)
  {
    OpenedAt(s, xs, i, inGroup, inBucket, b, u);
    FrontOfOpened(s, xs, i, inGroup, inBucket, b, u);
    assert HomeWritten(s, xs, i, inBucket, buckets, Origin(u, i, |xs|));
  }

  lemma SpareAt(s: Layout, xs: seq<Cell>, i: int, inGroup: bool, inBucket: bool, b: Cell, buckets: set<Cell>, c: Cell)
    requires Shaped(s) && Inside(s, i) && |xs| > 0 && BucketsWritten(s, xs, i, inBucket, b, buckets) && c in buckets
    ensures Spare(Opened(s, xs, i, inGroup, inBucket, b), c)
  {
    var t := Opened(s, xs, i, inGroup, inBucket, b);
    if c == b {
      assert t.home[i] == b;
    } else if c in s.home {
      var j :| 0 <= j < |s.home| && s.home[j] == c;
      assert t.home[S.Up(j, i, |xs|)] == c;
    } else {
      assert Spare(s, c);
    }
  }

  // Pointers so written are those of the opened layout.
  lemma WrittenIsLinked(s: Layout, xs: seq<Cell>, i: int, inGroup: bool, inBucket: bool, b: Cell, buckets: set<Cell>)
    requires Shaped(s) && Newcomers(s, xs) && NodesWritten(s, xs, i, inGroup, inBucket, b)
    requires BucketsWritten(s, xs, i, inBucket, b, buckets)
    ensures Linked(Opened(s, xs, i, inGroup, inBucket, b), buckets)
  {
    var t := Opened(s, xs, i, inGroup, inBucket, b);
    OpenedIsShaped(s, xs, i, inGroup, inBucket, b);
    forall u | Inside(t, u) ensures PriorOk(t, u) && NextOk(t, u) && HomeOk(t, buckets, u) {
      NodesAt(s, xs, i, inGroup, inBucket, b, u);
      HomeAt(s, xs, i, inGroup, inBucket, b, buckets, u);
    }
    forall c | c in buckets ensures Spare(t, c) {
      SpareAt(s, xs, i, inGroup, inBucket, b, buckets, c);
    }
    forall c | c in t.nodes ensures c !in buckets {
      assert c in s.nodes || c in xs;
    }
  }

  lemma Pointers(s: Layout, buckets: set<Cell>, i: int)
    requires Linked(s, buckets) && Inside(s, i)
    ensures N(s, i).prior == PriorNode(s, i) && N(s, i).next == NextCell(s, i)
    ensures N(s, i) in s.nodes && B(s, i) in buckets && B(s, i).prior == Front(s, i)
  {
    assert PriorOk(s, i) && NextOk(s, i) && HomeOk(s, buckets, i);
  }

  /* What unlinking a node must have written */

  ghost predicate NodeUnlinked(s: Layout, i: int, j: int)
    requires Shaped(s) && 0 <= i < Last(s) && Inside(s, j) && j != i
    reads s.nodes`prior, s.nodes`next
  {
    var r := BackWithout(i, G(s, i), j, G(s, j), Last(s));
    Inside(s, r) && N(s, j).prior == N(s, r) && N(s, j).next == NextWithout(s, i, j)
  }

  ghost predicate NodesUnlinked(s: Layout, i: int)
    requires Shaped(s) && 0 <= i < Last(s)
    reads s.nodes`prior, s.nodes`next
  {
    forall j {:trigger NodeUnlinked(s, i, j)} | Inside(s, j) && j != i :: NodeUnlinked(s, i, j)
  }

  // The bucket of node i leads to the next of its nodes, or nowhere, when i was its first.
  ghost predicate BucketsUnlinked(s: Layout, i: int, buckets: set<Cell>)
    requires Shaped(s) && 0 <= i < Last(s)
    reads buckets`prior
  {
    && B(s, i) in buckets
    && (K(s, i).lo == i == K(s, i).hi ==> B(s, i).prior == null)
    && (forall j {:trigger B(s, j)} | Inside(s, j) && j != i ::
      B(s, j) in buckets && B(s, j).prior == (if K(s, j).lo == i then N(s, i + 1) else Front(s, j)))
    && (forall c {:trigger c in s.nodes} | c in s.nodes :: c !in buckets)
    && (forall c {:trigger Spare(s, c)} | c in buckets && c != B(s, i) :: Spare(s, c))
  }

  lemma UnlinkedAt(s: Layout, i: int, buckets: set<Cell>, u: int)
    requires Shaped(s) && 0 <= i < Last(s) && Shaped(Dropped(s, i)) && 0 <= u < Last(s)
    requires NodeUnlinked(s, i, S.Up(u, i, 1))
    ensures PriorOk(Dropped(s, i), u) && NextOk(Dropped(s, i), u)
  {
    DroppedAt(s, i, u);
    PriorOfDropped(s, i, S.Up(u, i, 1));
    NextOfDropped(s, i, S.Up(u, i, 1));
  }

  lemma SpareOfDropped(s: Layout, i: int, buckets: set<Cell>, c: Cell)
    requires Shaped(s) && 0 <= i < Last(s) && BucketsUnlinked(s, i, buckets) && c in buckets
    ensures Spare(Dropped(s, i), c)
  {
    var t := Dropped(s, i);
    Unfold(s, i);
    if c == B(s, i) && K(s, i).lo != K(s, i).hi {
      var j := if i == K(s, i).lo then i + 1 else i - 1;
      SameBucket(s, i, j);
      assert t.home[S.Before(j, i, 1)] == c;
    } else if c != B(s, i) {
      assert Spare(s, c);
      if c in s.home {
        var j :| 0 <= j < |s.home| && s.home[j] == c;
        assert t.home[S.Before(j, i, 1)] == c;
      }
    }
  }

  // Pointers so written are those of the layout without the node.
  lemma UnlinkedIsLinked(s: Layout, i: int, buckets: set<Cell>)
    requires Shaped(s) && 0 <= i < Last(s) && NodesUnlinked(s, i) && BucketsUnlinked(s, i, buckets)
    ensures Linked(Dropped(s, i), buckets)
  {
    var t := Dropped(s, i);
    DroppedIsShaped(s, i);
    forall u | Inside(t, u) ensures PriorOk(t, u) && NextOk(t, u) && HomeOk(t, buckets, u) {
      assert NodeUnlinked(s, i, S.Up(u, i, 1));
      UnlinkedAt(s, i, buckets, u);
      DroppedAt(s, i, u);
      FrontOfDropped(s, i, S.Up(u, i, 1));
    }
    forall c | c in buckets ensures Spare(t, c) {
      SpareOfDropped(s, i, buckets, c);
    }
    forall c | c in t.nodes ensures c !in buckets {
      assert c in s.nodes;
    }
  }

  // The node before the first of a bucket is the last of another, and leads to that first's bucket.
  lemma Prior(s: Layout, buckets: set<Cell>, i: int)
    requires Linked(s, buckets) && Inside(s, i) && i == K(s, i).lo
    ensures var p := Back(i, G(s, i), Last(s));
      Inside(s, p) && PriorNode(s, i) == N(s, p) && N(s, p).next == B(s, i) == NextCell(s, p) && N(s, p) in s.nodes
  {
    var p := Back(i, G(s, i), Last(s));
    Unfold(s, i);
    Unfold(s, p);
    if i > 0 { Apart(s, i, p); }
    Pointers(s, buckets, p);
  }

  // The node after the last of a bucket is the first of its own.
  lemma NextFront(s: Layout, i: int)
    requires Shaped(s) && 0 <= i < Last(s) && i == K(s, i).hi
    ensures NextCell(s, i) == B(s, i + 1) && Front(s, i + 1) == N(s, i + 1) && K(s, i + 1).lo == i + 1 == G(s, i + 1).lo
    ensures PriorNode(s, i + 1) == N(s, i)
  {
    Unfold(s, i);
    Unfold(s, i + 1);
    Apart(s, i, i + 1);
  }

  // The pointers of a large group: its first two, its last two and the neighbours of i.
  lemma GroupPointers(s: Layout, buckets: set<Cell>, i: int)
    requires Linked(s, buckets) && 0 <= i < Last(s) && Large(G(s, i))
    ensures var f, l := G(s, i).lo, G(s, i).hi;
      && 0 <= K(s, i).lo <= f <= i <= l <= K(s, i).hi < Last(s)
      && N(s, i).prior == PriorNode(s, i) && N(s, i).next == NextCell(s, i)
      && N(s, f + 1).prior == N(s, l) == PriorNode(s, f + 1)
      && N(s, f + 1).next == N(s, if f + 2 == l then f else f + 2) == NextCell(s, f + 1)
      && N(s, f + 2).prior == N(s, f + 1) == PriorNode(s, f + 2)
      && N(s, l - 1).prior == N(s, if f + 2 == l then l else l - 2) == PriorNode(s, l - 1)
      && N(s, l - 1).next == N(s, f) == NextCell(s, l - 1)
      && N(s, l).prior == N(s, l - 1) == PriorNode(s, l)
      && N(s, f).next == N(s, f + 1) == NextCell(s, f)
      && !Same(s, f, f + 1) && !Same(s, f + 1, l) && !Same(s, l - 1, l) && (f + 1 != l - 1 ==> !Same(s, f + 1, l - 1))
  {
    var f, l := G(s, i).lo, G(s, i).hi;
    Unfold(s, i);
    HeaderApart(s, i);
    SameGroup(s, i, f);
    SameGroup(s, i, f + 1);
    SameGroup(s, i, f + 2);
    SameGroup(s, i, l - 1);
    SameGroup(s, i, l);
    Pointers(s, buckets, i);
    Pointers(s, buckets, f);
    Pointers(s, buckets, f + 1);
    Pointers(s, buckets, f + 2);
    Pointers(s, buckets, l - 1);
    Pointers(s, buckets, l);
  }

  lemma LastPointers(s: Layout, buckets: set<Cell>, i: int)
    requires Linked(s, buckets) && 0 <= i < Last(s) && Large(G(s, i)) && i == G(s, i).hi
    ensures var f := G(s, i).lo;
      && 0 <= K(s, i).lo <= f && i <= K(s, i).hi
      && N(s, i).prior == N(s, i - 1) == PriorNode(s, i) && N(s, i).next == NextCell(s, i)
      && N(s, i - 1).next == N(s, f) == NextCell(s, i - 1) && N(s, f).next == N(s, f + 1)
      && N(s, f + 1).prior == N(s, i) == PriorNode(s, f + 1)
      && N(s, i - 1).prior == N(s, if f + 2 == i then i else i - 2) == PriorNode(s, i - 1)
      && N(s, i - 2).next == NextCell(s, i - 2)
      && !Same(s, i, i - 1) && !Same(s, i, f + 1) && !Same(s, f, f + 1) && !Same(s, f, i - 1)
      && !Same(s, i - 1, i - 2) && !Same(s, i, i - 2) && (f + 2 < i ==> !Same(s, f + 1, i - 1))
      && !Same(s, i, i + 1) && !Same(s, i - 1, i + 1) && !Same(s, f + 1, i + 1)
  {
    GroupPointers(s, buckets, i);
    SameGroup(s, i, i - 2);
    Pointers(s, buckets, i - 2);
  }

  // Where the next pointer of node j leads, and where the prior pointer from there.
  lemma Onward(s: Layout, buckets: set<Cell>, j: int)
    requires Linked(s, buckets) && 0 <= j < Last(s)
    ensures var k := Forth(j, G(s, j));
      && 0 <= K(s, j).lo <= G(s, j).lo <= j <= G(s, j).hi <= K(s, j).hi < Last(s)
      && N(s, j).next == NextCell(s, j) && N(s, j + 1) in s.nodes && N(s, j + 1).prior == PriorNode(s, j + 1)
      && (j == K(s, j).hi ==>
        (NextCell(s, j) == B(s, j + 1) && B(s, j + 1) in buckets && B(s, j + 1).prior == N(s, j + 1)
          && PriorNode(s, j + 1) == N(s, j)))
      && (j < K(s, j).hi ==>
        (G(s, j).lo <= k <= j + 1 && N(s, k) in s.nodes && NextCell(s, j) == N(s, k)
          && N(s, k).prior == PriorNode(s, k)))
  {
    Unfold(s, j);
    HeaderApart(s, j);
    Pointers(s, buckets, j);
    Pointers(s, buckets, j + 1);
    if j == K(s, j).hi { NextFront(s, j); } else { Pointers(s, buckets, Forth(j, G(s, j))); }
  }

  lemma ForthTest(s: Layout, buckets: set<Cell>, i: int)
    requires Linked(s, buckets) && 0 <= i < Last(s)
    ensures var x, g := N(s, i), G(s, i);
      && x in s.nodes && x.next != null && (x.next in s.nodes || x.next in buckets)
      && x.next.prior != null && x.next.prior in s.nodes
      && (x.next.prior == x <==> i < K(s, i).hi && !(Large(g) && (i == g.lo || i == g.hi - 1)))
      && (i == K(s, i).hi ==> x.next.prior == N(s, i + 1) && N(s, i + 1).prior == x)
  {
    var g, k := G(s, i), Forth(i, G(s, i));
    Onward(s, buckets, i);
    Pointers(s, buckets, i);
    if i < K(s, i).hi {
      Apart(s, i, k);
      Unfold(s, k);
      assert Same(s, i, Back(k, G(s, k), Last(s))) <==> i == Back(k, G(s, k), Last(s));
      assert N(s, Back(k, G(s, k), Last(s))) in s.nodes;
      if g.lo <= k <= g.hi { SameGroup(s, i, k); }
    } else {
      assert !Same(s, i, i + 1);
    }
  }

  lemma LastTest(s: Layout, buckets: set<Cell>, i: int)
    requires Linked(s, buckets) && 0 <= i < Last(s)
    ensures var x := N(s, i);
      && x.next != null && (x.next in s.nodes || x.next in buckets)
      && x.next.prior != null && x.next.prior in s.nodes && x.next.prior.prior != null
      && (x.next.prior.prior == x <==> i == K(s, i).hi)
  {
    var g, k := G(s, i), Forth(i, G(s, i));
    ForthTest(s, buckets, i);
    if i < K(s, i).hi {
      Onward(s, buckets, i);
      Unfold(s, k);
      var b := Back(k, G(s, k), Last(s));
      var d := Back(b, G(s, b), Last(s));
      Pointers(s, buckets, b);
      Unfold(s, b);
      Apart(s, i, b);
      Apart(s, i, k);
      if g.lo <= k <= g.hi { SameGroup(s, i, k); }
      assert !Same(s, i, d);
    } else {
      Unfold(s, i);
    }
  }

  lemma BackTest(s: Layout, buckets: set<Cell>, i: int)
    requires Linked(s, buckets) && 0 <= i < Last(s)
    ensures var x, g, p := N(s, i), G(s, i), Back(i, G(s, i), Last(s));
      && Inside(s, p) && x.prior == N(s, p) && N(s, p) in s.nodes
      && (i == K(s, i).lo ==> N(s, p).next == B(s, i) && B(s, i) in buckets && B(s, i).prior == x)
      && (i != K(s, i).lo ==> p < Last(s))
      && (N(s, p).next == x <==> K(s, i).lo < i && !(Large(g) && (i == g.lo + 1 || i == g.hi)))
  {
    var g, p := G(s, i), Back(i, G(s, i), Last(s));
    Unfold(s, i);
    HeaderApart(s, i);
    Pointers(s, buckets, i);
    Pointers(s, buckets, p);
    if i == K(s, i).lo {
      Prior(s, buckets, i);
    } else {
      Onward(s, buckets, p);
      Apart(s, i, p);
      if p < K(s, p).hi { assert Same(s, i, Forth(p, G(s, p))) <==> i == Forth(p, G(s, p)); }
    }
  }

  lemma FirstTest(s: Layout, buckets: set<Cell>, i: int)
    requires Linked(s, buckets) && 0 <= i < Last(s)
    ensures var x := N(s, i);
      && x.prior != null && x.prior in s.nodes && x.prior.next != null
      && (x.prior.next in s.nodes || x.prior.next in buckets)
      && (x.prior.next.prior == x <==> i == K(s, i).lo)
  {
    var g, p := G(s, i), Back(i, G(s, i), Last(s));
    BackTest(s, buckets, i);
    if i != K(s, i).lo {
      Onward(s, buckets, p);
      Unfold(s, i);
      Apart(s, i, p);
      if p == K(s, p).hi {
        assert !Same(s, i, p + 1);
      } else {
        var k := Forth(p, G(s, p));
        Unfold(s, k);
        Apart(s, i, k);
        assert !Same(s, i, Back(k, G(s, k), Last(s)));
      }
    }
  }

  // Where two steps and one back from node i, not the first, lead on to.
  lemma GroupTest(s: Layout, buckets: set<Cell>, i: int)
    requires Linked(s, buckets) && 0 <= i < Last(s)
    ensures var x := N(s, i);
      && x.next != null && (x.next in s.nodes || x.next in buckets)
      && x.next.prior != null && x.next.prior in s.nodes && x.next.prior.prior != null && x.next.prior.prior in s.nodes
      && (x.next.prior != x && x.next.prior.prior.next == x <==> Large(G(s, i)) && i == G(s, i).lo)
  {
    var g, k := G(s, i), Forth(i, G(s, i));
    ForthTest(s, buckets, i);
    Onward(s, buckets, i);
    Pointers(s, buckets, i);
    Pointers(s, buckets, i + 1);
    Pointers(s, buckets, Back(i, g, Last(s)));
    if i == K(s, i).hi {
    } else if Large(g) && i == g.lo {
      GroupPointers(s, buckets, i);
      Pointers(s, buckets, g.hi - 1);
    } else if Large(g) && i == g.hi - 1 {
      LastButOneTest(s, buckets, i);
    }
  }

  // From the last but one of a large group, its first, the node before, and the one before that do not lead back.
  lemma LastButOneTest(s: Layout, buckets: set<Cell>, i: int)
    requires Linked(s, buckets) && 0 <= i < Last(s) && Large(G(s, i)) && i == G(s, i).hi - 1
    ensures var x := N(s, i);
      && 0 <= G(s, i).lo && x.next == N(s, G(s, i).lo) && x.next.prior != null
      && x.next.prior.prior != null && x.next.prior.prior in s.nodes && x.next.prior.prior.next != x
  {
    var f := G(s, i).lo;
    GroupPointers(s, buckets, i);
    SameGroup(s, i, f);
    Pointers(s, buckets, i);
    Pointers(s, buckets, f);
    var p := Back(f, G(s, f), Last(s));
    Unfold(s, p);
    Pointers(s, buckets, p);
    var q := Back(p, G(s, p), Last(s));
    Pointers(s, buckets, q);
    Apart(s, i, p);
    Unfold(s, q);
    Apart(s, i, q);
    if q == Last(s) {
      Pointers(s, buckets, 0);
    } else {
      Onward(s, buckets, q);
      if q < K(s, q).hi { assert !Same(s, i, Forth(q, G(s, q))); }
    }
  }

  // Back twice and forward twice tells the second of a large group from its last.
  lemma SecondTest(s: Layout, buckets: set<Cell>, i: int)
    requires Linked(s, buckets) && 0 <= i < Last(s) && Large(G(s, i))
    requires i == G(s, i).lo + 1 || (i == G(s, i).hi && i < K(s, i).hi)
    ensures var x := N(s, i);
      && x.prior != null && x.prior.prior != null && x.prior.prior.next != null && x.prior.prior.next in s.nodes
      && x.prior in s.nodes && x.prior.prior in s.nodes
      && (x.prior.prior.next.next == x <==> i == G(s, i).lo + 1)
  {
    var f, l := G(s, i).lo, G(s, i).hi;
    GroupPointers(s, buckets, i);
    if i == l {
      LastPointers(s, buckets, i);
      if f + 2 == l {
        Onward(s, buckets, l);
        Onward(s, buckets, l + 1);
        Apart(s, l, l + 1);
        if l + 1 < K(s, l + 1).hi { assert !Same(s, i, Forth(l + 1, G(s, l + 1))); }
      } else {
        SameGroup(s, i, l - 2);
        Pointers(s, buckets, l - 2);
        SameGroup(s, i, l - 1);
      }
    }
  }

  lemma AfterTest(s: Layout, buckets: set<Cell>, i: int)
    requires Linked(s, buckets) && 0 <= i < Last(s)
    ensures var x, g := N(s, i), G(s, i);
      && 0 <= K(s, i).lo <= g.lo <= i <= g.hi <= K(s, i).hi < Last(s)
      && x.next != null && (x.next in s.nodes || x.next in buckets)
      && x.next.prior != null && x.next.prior in s.nodes && x.next.prior.prior != null && x.next.prior.prior in s.nodes
      && (x.next.prior == x <==> i < K(s, i).hi && !(Large(g) && (i == g.lo || i == g.hi - 1)))
      && (x.next.prior.prior == x <==> i == K(s, i).hi)
      && (x.next.prior != x && x.next.prior.prior.next == x <==> Large(g) && i == g.lo)
      && (i == K(s, i).hi ==> x.next.prior == N(s, i + 1))
      && (i < K(s, i).hi && !(Large(g) && i == g.hi - 1) ==> x.next == N(s, i + 1))
      && (Large(g) && i == g.hi - 1 ==>
        (x.next in s.nodes && x.next.next != null && x.next.next in s.nodes && x.next.next.prior == N(s, i + 1)))
  {
    ForthTest(s, buckets, i);
    LastTest(s, buckets, i);
    GroupTest(s, buckets, i);
    Onward(s, buckets, i);
    if Large(G(s, i)) { GroupPointers(s, buckets, i); }
  }

  lemma InspectTest(s: Layout, buckets: set<Cell>, i: int)
    requires Linked(s, buckets) && 0 <= i < Last(s) && (Large(G(s, i)) ==> i == G(s, i).lo)
    ensures var x, g := N(s, i), G(s, i);
      && 0 <= K(s, i).lo <= g.lo <= i <= g.hi <= K(s, i).hi < Last(s)
      && x.next != null && (x.next in s.nodes || x.next in buckets)
      && x.next.prior != null && x.next.prior in s.nodes && x.next.prior.prior != null
      && (x.next.prior == x <==> i < K(s, i).hi && !Large(g))
      && (x.next.prior.prior == x <==> i == K(s, i).hi)
      && (i < K(s, i).hi && !Large(g) ==> x.next == N(s, i + 1))
      && (Large(g) ==>
        (x.next.prior == N(s, g.hi) && x.next.prior.next != null
          && (x.next.prior.next in s.nodes || x.next.prior.next in buckets)
        && (x.next.prior.next.prior == x.next.prior <==> g.hi < K(s, i).hi)
        && (g.hi < K(s, i).hi ==> x.next.prior.next == N(s, g.hi + 1))))
  {
    AfterTest(s, buckets, i);
    if Large(G(s, i)) {
      GroupPointers(s, buckets, i);
      SameGroup(s, i, G(s, i).hi);
      ForthTest(s, buckets, G(s, i).hi);
      Onward(s, buckets, G(s, i).hi);
    }
  }

  // The pointers at both ends of the group that starts at i.
  lemma GroupEnds(s: Layout, buckets: set<Cell>, i: int)
    requires Linked(s, buckets) && 0 <= i < Last(s) && i == G(s, i).lo && G(s, i).hi < Last(s)
    ensures var l := G(s, i).hi;
      && 0 <= K(s, i).lo <= i <= l <= K(s, i).hi
      && N(s, i) in s.nodes && N(s, l) in s.nodes
      && (i < l ==> N(s, i).next == N(s, i + 1) && N(s, i + 1) in s.nodes && !Same(s, i, i + 1))
      && (i < l ==> N(s, l).prior == N(s, l - 1) && N(s, l - 1) in s.nodes && !Same(s, i, l))
      && (i + 2 == l ==> Same(s, i + 1, l - 1))
      && (i + 1 < l ==> !Same(s, i + 1, l) && !Same(s, i, l - 1))
      && (0 < i ==>
        !Same(s, i - 1, i) && !Same(s, i - 1, i + 1) && (i < l ==> !Same(s, i - 1, l - 1)) && !Same(s, i - 1, l))
  {
    var l := G(s, i).hi;
    Unfold(s, i);
    Onward(s, buckets, i);
    SameGroup(s, i, l);
    Pointers(s, buckets, l);
    if i < l { Pointers(s, buckets, l - 1); Pointers(s, buckets, i + 1); }
  }

  // A hashed non-unique index: the header, the buckets and the nodes.
  class Chain {
    const end: Cell
    ghost var buckets: set<Cell>
    ghost var s: Layout

    constructor (e: Cell, bs: seq<Cell>)
      requires Fit(e, bs)
      modifies e`prior, e`next, bs`prior
      ensures end == e && Valid() && s == Blank(e, bs[|bs| - 1]) && buckets == (set b <- bs)
    {
      end := e;
      new;
      Clear(bs);
    }

    // The buckets of an array, the last one for the header.
    static ghost predicate Fit(e: Cell, bs: seq<Cell>) {
      |bs| > 0 && e !in bs && forall m, n | 0 <= m < n < |bs| :: bs[m] != bs[n]
    }

    // The chain of the header alone.
    static ghost function Blank(e: Cell, b: Cell): Layout {
      Layout([e], [S.Span(0, 0)], [S.Span(0, 0)], [b])
    }

    static lemma BlankIsShaped(e: Cell, b: Cell)
      ensures Shaped(Blank(e, b)) && PriorNode(Blank(e, b), 0) == e && NextCell(Blank(e, b), 0) == b
        && Front(Blank(e, b), 0) == e
    {
      var t := Blank(e, b);
      assert S.Covers(t.group, 0) && S.Covers(t.bucket, 0) && Nested(t, 0);
    }

    // Every bucket is emptied but the last, which the header is alone in.
    method Clear(bs: seq<Cell>)
      requires Fit(end, bs)
      modifies this`s, this`buckets, end`prior, end`next, bs`prior
      ensures Valid() && s == Blank(end, bs[|bs| - 1]) && buckets == (set b <- bs)
    {
      var k := 0;
      while k < |bs| - 1
        invariant 0 <= k <= |bs| - 1
        invariant forall m {:trigger bs[m]} | 0 <= m < k :: bs[m].prior == null
        modifies bs`prior
      {
        bs[k].prior := null;
        k := k + 1;
      }
      end.prior := end;
      bs[|bs| - 1].prior := end;
      end.next := bs[|bs| - 1];
      s, buckets := Blank(end, bs[|bs| - 1]), set b <- bs;
      BlankIsShaped(end, bs[|bs| - 1]);
      forall b | b in buckets ensures Spare(s, b) {
        var m :| 0 <= m < |bs| && bs[m] == b;
        assert m < |bs| - 1 ==> b.prior == null;
        assert m == |bs| - 1 ==> s.home[0] == b;
      }
    }

    ghost predicate Valid()
      reads this, s.nodes`prior, s.nodes`next, buckets`prior
    {
      Linked(s, buckets) && 0 <= Last(s) && N(s, Last(s)) == end
    }

    // The first branch of linking to a bucket: an empty one.
    method LinkEmpty(x: Cell, buc: Cell)
      requires Valid() && buc in buckets && x !in s.nodes && x !in buckets && B(s, Last(s)) != buc
      requires buc.prior == null
      modifies this`s, x`prior, x`next, s.nodes`prior, s.nodes`next, buc`prior
      ensures Valid()
      ensures s == Opened(old(s), [x], Last(old(s)), false, false, buc)
    {
      ghost var s0 := s;
      ghost var i := Last(s0);
      ghost var p := if i == 0 then 0 else i - 1;
      HeaderPlace(s0);
      Pointers(s0, buckets, i);
      Pointers(s0, buckets, p);
      assert N(s0, i) in s0.nodes && N(s0, p) in s0.nodes;
      x.prior := end.prior;
      x.next := end.prior.next;
      x.prior.next := buc;
      buc.prior := x;
      end.prior := x;
      s := Opened(s0, [x], i, false, false, buc);
      EmptyLinked(x, s0, buc);
      WrittenIsLinked(s0, [x], i, false, false, buc, buckets);
    }

    twostate lemma EmptyLinked(x: Cell, new s0: Layout, new buc: Cell)
      requires s0 == old(s) && old(Valid()) && buc in old(buckets) && x !in s0.nodes && x !in buckets
        && B(s0, Last(s0)) != buc
      requires old(buc.prior) == null && buckets == old(buckets)
      requires x.prior == PriorNode(s0, Last(s0)) && x.next == B(s0, Last(s0))
      requires forall c <- s0.nodes :: c.prior == if c == end then x else old(c.prior)
      requires forall c <- s0.nodes :: c.next == if c == PriorNode(s0, Last(s0)) then buc else old(c.next)
      requires forall b <- buckets :: b.prior == if b == buc then x else old(b.prior)
      ensures Newcomers(s0, [x]) && NodesWritten(s0, [x], Last(s0), false, false, buc)
      ensures BucketsWritten(s0, [x], Last(s0), false, buc, buckets)
    {
      HeaderPlace(s0);
      forall j | Inside(s0, j) ensures OldWritten(s0, [x], Last(s0), false, false, buc, j) {
        var p := if Last(s0) == 0 then 0 else Last(s0) - 1;
        assert N(s0, j) in s0.nodes;
        assert old(PriorOk(s0, j) && NextOk(s0, j));
        assert Same(s0, j, Last(s0)) == (j == Last(s0)) && Same(s0, j, p) == (j == p);
      }
      forall j | Inside(s0, j) ensures HomeWritten(s0, [x], Last(s0), false, buckets, j) {
        assert old(HomeOk(s0, buckets, j));
      }
      forall c | c in buckets && c != buc ensures Spare(s0, c) {
        assert old(Spare(s0, c));
      }
    }
  
    // The second branch: a bucket with nodes.
    method LinkFront(x: Cell, buc: Cell) returns (ghost i: int)
      requires Valid() && buc in buckets && x !in s.nodes && x !in buckets && B(s, Last(s)) != buc
      requires buc.prior != null
      modifies this`s, x`prior, x`next, s.nodes`prior, s.nodes`next, buc`prior
      ensures Valid()
      ensures 0 <= i < Last(old(s)) && i == K(old(s), i).lo && B(old(s), i) == buc
      ensures s == Opened(old(s), [x], i, false, true, buc)
    {
      ghost var s0 := s;
      i := FrontIndex(buc);
      Pointers(s0, buckets, i);
      x.prior := buc.prior.prior;
      x.next := buc.prior;
      buc.prior := x;
      x.next.prior := x;
      s := Opened(s0, [x], i, false, true, buc);
      FrontLinked(x, s0, i);
      WrittenIsLinked(s0, [x], i, false, true, buc, buckets);
      OpenedAt(s0, [x], i, false, true, buc, Last(s));
    }

    lemma FrontIndex(buc: Cell) returns (i: int)
      requires Valid() && buc in buckets && buc.prior != null && B(s, Last(s)) != buc
      ensures 0 <= i < Last(s) && i == K(s, i).lo == G(s, i).lo && B(s, i) == buc && Front(s, i) == N(s, i)
    {
      assert Spare(s, buc);
      var j :| 0 <= j < |s.home| && s.home[j] == buc;
      assert B(s, j) == buc;
      HeaderApart(s, j);
      Unfold(s, j);
      i := K(s, j).lo;
      SameBucket(s, j, i);
      Unfold(s, i);
    }

    twostate lemma FrontLinked(x: Cell, new s0: Layout, new i: int)
      requires s0 == old(s) && old(Valid()) && x !in s0.nodes && x !in buckets && buckets == old(buckets)
      requires 0 <= i < Last(s0) && i == K(s0, i).lo == G(s0, i).lo
      requires x.prior == PriorNode(s0, i) && x.next == N(s0, i)
      requires forall c <- s0.nodes :: c.prior == if c == N(s0, i) then x else old(c.prior)
      requires forall c <- s0.nodes :: c.next == old(c.next)
      requires forall b <- buckets :: b.prior == if b == B(s0, i) then x else old(b.prior)
      ensures Newcomers(s0, [x]) && NodesWritten(s0, [x], i, false, true, B(s0, i))
      ensures BucketsWritten(s0, [x], i, true, B(s0, i), buckets)
    {
      forall j | Inside(s0, j) ensures OldWritten(s0, [x], i, false, true, B(s0, i), j) {
        assert N(s0, j) in s0.nodes;
        assert old(PriorOk(s0, j) && NextOk(s0, j));
        assert Same(s0, j, i) == (j == i);
      }
      HomesMoved(x, s0, i);
    }

    // The bucket of i, whose first node it is, leads to x.
    twostate lemma HomesMoved(x: Cell, new s0: Layout, new i: int)
      requires s0 == old(s) && old(Valid()) && x !in s0.nodes && x !in buckets && buckets == old(buckets)
      requires 0 <= i < Last(s0) && i == K(s0, i).lo
      requires forall b <- buckets :: b.prior == if b == B(s0, i) then x else old(b.prior)
      ensures BucketsWritten(s0, [x], i, true, B(s0, i), buckets)
    {
      assert old(HomeOk(s0, buckets, i));
      forall j | Inside(s0, j) ensures HomeWritten(s0, [x], i, true, buckets, j) {
        assert old(HomeOk(s0, buckets, j));
        Unfold(s0, j);
        Unfold(s0, i);
        if K(s0, j).lo == i { SameBucket(s0, j, i); }
        if B(s0, i) == B(s0, j) { OneFront(s0, i, j); }
      }
      forall c | c in buckets && c != B(s0, i) ensures Spare(s0, c) {
        assert old(Spare(s0, c));
      }
    }

    /* Unlinking */

    ghost predicate Inner(x: Cell, i: int)
      requires Valid()
      reads this, s.nodes`prior, s.nodes`next, buckets`prior
    {
      0 <= i < Last(s) && N(s, i) == x
    }

    // The assignments of w were made, and no others.
    twostate predicate Carried(new w: Plan)
      requires InRange(s, w)
      reads this, s.nodes`prior, s.nodes`next
    {
      && s == old(s)
      && (forall n <- s.nodes | n in old(s.nodes) ::
        n.prior == if n == N(s, w.a) then N(s, w.p) else if n == N(s, w.b) then N(s, w.q)
        else if n == N(s, w.c) then N(s, w.r) else old(n.prior))
      && (forall n <- s.nodes | n in old(s.nodes) ::
        n.next == if n == N(s, w.d) then w.y else if n == N(s, w.e) then w.z else old(n.next))
    }

    // The bucket of the node at i leads to the next of its nodes, if i was its first.
    twostate predicate FrontMoved(new i: int)
      requires Sized(s) && 0 <= i < Last(s)
      reads this, buckets`prior
    {
      && buckets == old(buckets)
      && (forall c <- buckets | c in old(buckets) ::
        c.prior == if c == B(s, i) && K(s, i).lo == i then (if K(s, i).hi == i then null else N(s, i + 1))
          else old(c.prior))
    }

    twostate lemma CarriedIsUnlinked(x: Cell, new i: int)
      requires s == old(s) && 0 <= i < Last(s) && old(Valid()) && old(Inner(x, i))
      requires Carried(Assignments(s, i))
      ensures NodesUnlinked(s, i)
    {
      var w := Assignments(s, i);
      AssignmentsFit(s, i);
      forall j | Inside(s, j) && j != i ensures NodeUnlinked(s, i, j) {
        assert N(s, j) in s.nodes && FitsAt(s, i, w, j);
        Unfold(s, j);
        assert old(PriorOk(s, j) && NextOk(s, j));
        assert Same(s, j, w.a) == (j == w.a) && Same(s, j, w.b) == (j == w.b) && Same(s, j, w.c) == (j == w.c);
        assert Same(s, j, w.d) == (j == w.d) && Same(s, j, w.e) == (j == w.e);
      }
    }

    twostate lemma MovedIsUnlinked(x: Cell, new i: int)
      requires s == old(s) && 0 <= i < Last(s) && old(Valid()) && old(Inner(x, i)) && FrontMoved(i)
      ensures BucketsUnlinked(s, i, buckets)
    {
      assert old(HomeOk(s, buckets, i));
      forall j | Inside(s, j) && j != i
        ensures B(s, j) in buckets && B(s, j).prior == (if K(s, j).lo == i then N(s, i + 1) else Front(s, j))
      {
        assert old(HomeOk(s, buckets, j));
        Unfold(s, j);
        if K(s, j).lo == i { SameBucket(s, j, i); }
        if B(s, i) == B(s, j) { OneFront(s, i, j); }
      }
      forall c | c in buckets && c != B(s, i) ensures Spare(s, c) {
        assert old(Spare(s, c));
      }
    }

    // A node of a small group, or in the middle of a large one, neither first nor last of its bucket.
    method UnlinkPlain(x: Cell, ghost i: int) returns (undo: Undo)
      requires Valid() && Inner(x, i) && K(s, i).lo < i < K(s, i).hi
      requires !Large(G(s, i)) || G(s, i).lo + 1 < i < G(s, i).hi - 1
      modifies s.nodes`prior, s.nodes`next, buckets`prior
      ensures Carried(Assignments(s, i)) && FrontMoved(i) && undo == Tracks(s, i)
    {
      Unfold(s, i);
      Pointers(s, buckets, i);
      Pointers(s, buckets, i - 1);
      Pointers(s, buckets, i + 1);
      undo := Undo([Track(x.next, x.next.prior)], [Track(x.prior, x.prior.next)]);
      x.prior.next := x.next;
      x.next.prior := x.prior;
    }
  
    // The last of a bucket with others, in a small group.
    method UnlinkLastOfBucket(x: Cell, ghost i: int) returns (undo: Undo)
      requires Valid() && Inner(x, i) && K(s, i).lo < i == K(s, i).hi && !Large(G(s, i))
      modifies s.nodes`prior, s.nodes`next, buckets`prior
      ensures Carried(Assignments(s, i)) && FrontMoved(i) && undo == Tracks(s, i)
    {
      Unfold(s, i);
      NextFront(s, i);
      Pointers(s, buckets, i);
      Pointers(s, buckets, i - 1);
      Pointers(s, buckets, i + 1);
      undo := Undo([Track(x.next.prior, x.next.prior.prior)], [Track(x.prior, x.prior.next)]);
      x.prior.next := x.next;
      x.next.prior.prior := x.prior;
    }

    // The first of a bucket with others, in a small group.
    method UnlinkFirstOfBucket(x: Cell, ghost i: int) returns (undo: Undo)
      requires Valid() && Inner(x, i) && K(s, i).lo == i < K(s, i).hi && !Large(G(s, i))
      modifies s.nodes`prior, s.nodes`next, buckets`prior
      ensures Carried(Assignments(s, i)) && FrontMoved(i) && undo == Tracks(s, i)
    {
      Unfold(s, i);
      Prior(s, buckets, i);
      Pointers(s, buckets, i);
      Pointers(s, buckets, 0);
      Pointers(s, buckets, i + 1);
      undo := Undo([Track(x.prior.next, x.prior.next.prior), Track(x.next, x.next.prior)], []);
      x.prior.next.prior := x.next;
      x.next.prior := x.prior;
    }

    // The only node of its bucket.
    method UnlinkOnly(x: Cell, ghost i: int) returns (undo: Undo)
      requires Valid() && Inner(x, i) && K(s, i).lo == i == K(s, i).hi
      modifies s.nodes`prior, s.nodes`next, buckets`prior
      ensures Carried(Assignments(s, i)) && FrontMoved(i) && undo == Tracks(s, i)
    {
      Unfold(s, i);
      Prior(s, buckets, i);
      NextFront(s, i);
      Pointers(s, buckets, i);
      Pointers(s, buckets, i + 1);
      assert !Same(s, i, i + 1);
      undo := Undo([Track(x.prior.next, x.prior.next.prior), Track(x.next.prior, x.next.prior.prior)],
        [Track(x.prior, x.prior.next)]);
      x.prior.next.prior := null;
      x.prior.next := x.next;
      x.next.prior.prior := x.prior;
    }
  
    // A group of three or more loses its first, x; third is the header when the second is the last but one.
    static method RightUnlinkFirstOfGroup(x: Cell, undo: Undo, ghost second: Cell, ghost third: Cell, ghost last: Cell,
        ghost lastButOne: Cell)
        returns (r: Undo)
      requires x.next == second && second.prior == last && last.prior == lastButOne && second.next == third
      requires x != second && second != third && second != last && (second != lastButOne ==> x != third)
      modifies second`prior, second`next, third`prior, lastButOne`next
      ensures second.prior == x.prior
      ensures second == lastButOne ==> second.next == last && third.prior == old(third.prior)
      ensures second != lastButOne ==> lastButOne.next == second && second.next == third && third.prior == last
      ensures second == lastButOne ==>
        r == Undo(undo.pointers + [Track(second, last)], undo.bases + [Track(second, third)])
      ensures second != lastButOne ==>
        r == Undo(undo.pointers + [Track(third, old(third.prior)), Track(second, last)],
          undo.bases + [Track(lastButOne, old(lastButOne.next))])
    {
      if x.next == x.next.prior.prior {
        r := Undo(undo.pointers + [Track(x.next, x.next.prior)], undo.bases + [Track(x.next, x.next.next)]);
        x.next.next := x.next.prior;
        x.next.prior := x.prior;
      } else {
        var second, last, lastButOne := x.next, x.next.prior, x.next.prior.prior;
        r := Undo(undo.pointers + [Track(second.next, second.next.prior), Track(second, second.prior)],
                  undo.bases + [Track(lastButOne, lastButOne.next)]);
        lastButOne.next := second;
        second.next.prior := last;
        second.prior := x.prior;
      }
    }

    // The same, with the node before x, which leads to it.
    static method RightUnlinkAfterNode(x: Cell, ghost before: Cell, ghost second: Cell, ghost third: Cell,
        ghost last: Cell, ghost lastButOne: Cell)
        returns (r: Undo)
      requires x.next == second && second.prior == last && last.prior == lastButOne && second.next == third
      requires x != second && second != third && second != last && (second != lastButOne ==> x != third)
      requires x.prior == before && before != x && before != second && before != lastButOne
      modifies second`prior, second`next, third`prior, lastButOne`next, before`next
      ensures second.prior == before && before.next == second
      ensures second == lastButOne ==> second.next == last && third.prior == old(third.prior)
      ensures second != lastButOne ==> lastButOne.next == second && second.next == third && third.prior == last
      ensures second == lastButOne ==>
        r == Undo([Track(second, last)], [Track(before, old(before.next)), Track(second, third)])
      ensures second != lastButOne ==>
        r == Undo([Track(third, old(third.prior)), Track(second, last)],
                  [Track(before, old(before.next)), Track(lastButOne, old(lastButOne.next))])
    {
      r := Undo([], [Track(x.prior, x.prior.next)]);
      x.prior.next := x.next;
      r := RightUnlinkFirstOfGroup(x, r, second, third, last, lastButOne);
    }

    // The same, with the bucket that leads to x.
    static method RightUnlinkAfterBucket(x: Cell, ghost before: Cell, ghost buc: Cell, ghost second: Cell,
        ghost third: Cell, ghost last: Cell, ghost lastButOne: Cell)
        returns (r: Undo)
      requires x.next == second && second.prior == last && last.prior == lastButOne && second.next == third
      requires x != second && second != third && second != last && (second != lastButOne ==> x != third)
      requires x.prior == before && before.next == buc
      requires buc != x && buc != second && buc != last && buc != lastButOne && buc != third
      modifies second`prior, second`next, third`prior, lastButOne`next, buc`prior
      ensures second.prior == before && buc.prior == second
      ensures second == lastButOne ==> second.next == last && third.prior == old(third.prior)
      ensures second != lastButOne ==> lastButOne.next == second && second.next == third && third.prior == last
      ensures second == lastButOne ==>
        r == Undo([Track(buc, old(buc.prior)), Track(second, last)], [Track(second, third)])
      ensures second != lastButOne ==>
        r == Undo([Track(buc, old(buc.prior)), Track(third, old(third.prior)), Track(second, last)],
                  [Track(lastButOne, old(lastButOne.next))])
    {
      r := Undo([Track(x.prior.next, x.prior.next.prior)], []);
      x.prior.next.prior := x.next;
      r := RightUnlinkFirstOfGroup(x, r, second, third, last, lastButOne);
    }

    // What is tracked of the first of a large group with others before it.
    lemma FirstOfGroupTracks(i: int)
      requires Valid() && 0 <= i < Last(s) && K(s, i).lo < G(s, i).lo == i && Large(G(s, i))
      ensures var l := G(s, i).hi;
        && 0 < i && i + 2 <= l < Last(s) && N(s, i - 1).next == NextCell(s, i - 1)
        && Tracks(s, i) == (
          if i + 2 == l then
            Undo([Track(N(s, i + 1), N(s, l))], [Track(N(s, i - 1), NextCell(s, i - 1)), Track(N(s, i + 1), N(s, i))])
          else
            Undo([Track(N(s, i + 2), N(s, i + 1)), Track(N(s, i + 1), N(s, l))],
                 [Track(N(s, i - 1), NextCell(s, i - 1)), Track(N(s, l - 1), N(s, i))]))
    {
      GroupPointers(s, buckets, i);
      Pointers(s, buckets, i - 1);
    }

    // The first of a large group with others before it in its bucket.
    method UnlinkFirstOfGroup(x: Cell, ghost i: int) returns (undo: Undo)
      requires Valid() && Inner(x, i) && K(s, i).lo < G(s, i).lo == i && Large(G(s, i))
      modifies s.nodes`prior, s.nodes`next, buckets`prior
      ensures Carried(Assignments(s, i)) && FrontMoved(i) && undo == Tracks(s, i)
    {
      ghost var l := G(s, i).hi;
      GroupPointers(s, buckets, i);
      Pointers(s, buckets, i - 1);
      assert !Same(s, i, i + 2) && !Same(s, i + 1, i + 2) && !Same(s, i - 1, i + 1) && !Same(s, i - 1, l - 1)
        && !Same(s, i - 1, i);
      FirstOfGroupTracks(i);
      ghost var third := if i + 2 == l then i else i + 2;
      assert N(s, third).prior == PriorNode(s, third);
      undo := RightUnlinkAfterNode(x, N(s, i - 1), N(s, i + 1), N(s, third), N(s, l), N(s, l - 1));
    }

    // The first of a large group that is also the first of its bucket.
    method UnlinkFirstOfBoth(x: Cell, ghost i: int) returns (undo: Undo)
      requires Valid() && Inner(x, i) && G(s, i).lo == i == K(s, i).lo && Large(G(s, i))
      modifies s.nodes`prior, s.nodes`next, buckets`prior
      ensures Carried(Assignments(s, i)) && FrontMoved(i) && undo == Tracks(s, i)
    {
      ghost var l := G(s, i).hi;
      GroupPointers(s, buckets, i);
      Prior(s, buckets, i);
      Pointers(s, buckets, i);
      Pointers(s, buckets, 0);
      assert !Same(s, i, i + 2) && !Same(s, i + 1, i + 2);
      assert N(s, i + 1) in s.nodes && N(s, i + 2) in s.nodes && N(s, l) in s.nodes && N(s, l - 1) in s.nodes;
      undo := RightUnlinkAfterBucket(x, PriorNode(s, i), B(s, i), N(s, i + 1), N(s, if i + 2 == l then i else i + 2),
        N(s, l), N(s, l - 1));
    }

    // A group of three or more loses its last, x.
    static method LeftUnlinkLastOfGroup(x: Cell, undo: Undo, ghost first: Cell, ghost second: Cell, ghost before: Cell,
        ghost lastButOne: Cell)
        returns (r: Undo)
      requires x.prior == lastButOne && lastButOne.next == first && first.next == second && lastButOne.prior == before
      requires x != lastButOne && x != second && second != first && lastButOne != first
      requires before != lastButOne && (lastButOne != second ==> before != x)
      modifies second`prior, lastButOne`next, before`next
      ensures lastButOne.next == x.next
      ensures lastButOne == second ==> second.prior == first && before.next == old(before.next)
      ensures lastButOne != second ==> second.prior == lastButOne && before.next == first
      ensures lastButOne == second ==>
        r == Undo(undo.pointers + [Track(second, before)], undo.bases + [Track(lastButOne, first)])
      ensures lastButOne != second ==>
        r == Undo(undo.pointers + [Track(second, old(second.prior))],
          undo.bases + [Track(before, old(before.next)), Track(lastButOne, first)])
    {
      var lastButOne := x.prior;
      var first := lastButOne.next;
      var second := first.next;
      if lastButOne == second {
        r := Undo(undo.pointers + [Track(lastButOne, lastButOne.prior)],
          undo.bases + [Track(lastButOne, lastButOne.next)]);
        lastButOne.prior := first;
        lastButOne.next := x.next;
      } else {
        r := Undo(undo.pointers + [Track(second, second.prior)],
                  undo.bases + [Track(lastButOne.prior, lastButOne.prior.next), Track(lastButOne, lastButOne.next)]);
        second.prior := lastButOne;
        lastButOne.prior.next := first;
        lastButOne.next := x.next;
      }
    }

    // The same, with the node after x, which leads back to it.
    static method LeftUnlinkBeforeNode(x: Cell, ghost first: Cell, ghost second: Cell, ghost before: Cell,
        ghost lastButOne: Cell, ghost after: Cell)
        returns (r: Undo)
      requires x.prior == lastButOne && lastButOne.next == first && first.next == second && lastButOne.prior == before
      requires x != lastButOne && x != second && second != first && lastButOne != first
      requires before != lastButOne && (lastButOne != second ==> before != x)
      requires x.next == after
      requires after != x && after != second && after != lastButOne && (lastButOne == second ==> after != before)
      modifies second`prior, lastButOne`next, before`next, after`prior
      ensures lastButOne.next == old(x.next) && after.prior == lastButOne
      ensures lastButOne == second ==> second.prior == first && before.next == old(before.next)
      ensures lastButOne != second ==> second.prior == lastButOne && before.next == first
      ensures lastButOne == second ==>
        r == Undo([Track(second, before), Track(after, old(after.prior))], [Track(lastButOne, first)])
      ensures lastButOne != second ==>
        r == Undo([Track(second, old(second.prior)), Track(after, old(after.prior))],
                  [Track(before, old(before.next)), Track(lastButOne, first)])
    {
      r := LeftUnlinkLastOfGroup(x, Undo([], []), first, second, before, lastButOne);
      r := Undo(r.pointers + [Track(x.next, x.next.prior)], r.bases);
      x.next.prior := x.prior;
    }

    // The same, with the first node of the next bucket.
    static method LeftUnlinkBeforeBucket(x: Cell, ghost first: Cell, ghost second: Cell, ghost before: Cell,
        ghost lastButOne: Cell, ghost buc: Cell, ghost after: Cell)
        returns (r: Undo)
      requires x.prior == lastButOne && lastButOne.next == first && first.next == second && lastButOne.prior == before
      requires x != lastButOne && x != second && second != first && lastButOne != first
      requires before != lastButOne && (lastButOne != second ==> before != x)
      requires x.next == buc && buc.prior == after
      requires after != x && after != second && after != lastButOne && (lastButOne == second ==> after != before)
      requires buc != second && buc != after
      modifies second`prior, lastButOne`next, before`next, after`prior
      ensures lastButOne.next == old(x.next) && after.prior == lastButOne
      ensures lastButOne == second ==> second.prior == first && before.next == old(before.next)
      ensures lastButOne != second ==> second.prior == lastButOne && before.next == first
      ensures lastButOne == second ==>
        r == Undo([Track(second, before), Track(after, old(after.prior))], [Track(lastButOne, first)])
      ensures lastButOne != second ==>
        r == Undo([Track(second, old(second.prior)), Track(after, old(after.prior))],
                  [Track(before, old(before.next)), Track(lastButOne, first)])
    {
      r := LeftUnlinkLastOfGroup(x, Undo([], []), first, second, before, lastButOne);
      r := Undo(r.pointers + [Track(x.next.prior, x.next.prior.prior)], r.bases);
      x.next.prior.prior := x.prior;
    }

    // The last of a large group with others after it in its bucket.
    method UnlinkLastOfGroup(x: Cell, ghost i: int) returns (undo: Undo)
      requires Valid() && Inner(x, i) && G(s, i).hi == i < K(s, i).hi && Large(G(s, i))
      modifies s.nodes`prior, s.nodes`next, buckets`prior
      ensures Carried(Assignments(s, i)) && FrontMoved(i) && undo == Tracks(s, i)
    {
      ghost var f := G(s, i).lo;
      LastPointers(s, buckets, i);
      Pointers(s, buckets, i + 1);
      undo :=
        LeftUnlinkBeforeNode(x, N(s, f), N(s, f + 1), N(s, if f + 2 == i then i else i - 2), N(s, i - 1), N(s, i + 1));
    }

    // The last of a large group that is also the last of its bucket.
    method UnlinkLastOfBoth(x: Cell, ghost i: int) returns (undo: Undo)
      requires Valid() && Inner(x, i) && G(s, i).hi == i == K(s, i).hi && Large(G(s, i))
      modifies s.nodes`prior, s.nodes`next, buckets`prior
      ensures Carried(Assignments(s, i)) && FrontMoved(i) && undo == Tracks(s, i)
    {
      ghost var f := G(s, i).lo;
      LastPointers(s, buckets, i);
      NextFront(s, i);
      Pointers(s, buckets, i + 1);
      undo := LeftUnlinkBeforeBucket(x, N(s, f), N(s, f + 1), N(s, if f + 2 == i then i else i - 2), N(s, i - 1),
        B(s, i + 1), N(s, i + 1));
    }

    // The last but one of a group of four or more.
    method UnlinkLastButOne(x: Cell, ghost i: int) returns (undo: Undo)
      requires Valid() && Inner(x, i) && G(s, i).lo + 1 < i == G(s, i).hi - 1
      modifies s.nodes`prior, s.nodes`next, buckets`prior
      ensures Carried(Assignments(s, i)) && FrontMoved(i) && undo == Tracks(s, i)
    {
      GroupPointers(s, buckets, i);
      SameGroup(s, i, i - 1);
      Pointers(s, buckets, i - 1);
      var first := x.next;
      var second := first.next;
      var last := second.prior;
      undo := Undo([Track(last, last.prior)], [Track(x.prior, x.prior.next)]);
      last.prior := x.prior;
      x.prior.next := first;
    }

    // The second of a group of three or more.
    method UnlinkSecondOfGroup(x: Cell, ghost i: int) returns (undo: Undo)
      requires Valid() && Inner(x, i) && G(s, i).lo + 1 == i && Large(G(s, i))
      modifies s.nodes`prior, s.nodes`next, buckets`prior
      ensures Carried(Assignments(s, i)) && FrontMoved(i) && undo == Tracks(s, i)
    {
      GroupPointers(s, buckets, i);
      var last := x.prior;
      var lastButOne := last.prior;
      var first := lastButOne.next;
      if lastButOne == x {
        undo := Undo([Track(last, last.prior)], [Track(first, first.next)]);
        first.next := last;
        last.prior := first;
      } else {
        undo := Undo([Track(x.next, x.next.prior)], [Track(first, first.next)]);
        first.next := x.next;
        x.next.prior := last;
      }
    }

    /* Reading the chain */

    // Going back and coming forward again leads to x.
    predicate BackLinked(x: Cell, ghost i: int)
      requires Valid() && Inner(x, i)
      reads this, s.nodes`prior, s.nodes`next, buckets`prior
      ensures BackLinked(x, i) <==> K(s, i).lo < i && !(Large(G(s, i)) && (i == G(s, i).lo + 1 || i == G(s, i).hi))
    {
      BackTest(s, buckets, i);
      x.prior.next == x
    }

    // Going forward and coming back leads to x.
    predicate ForthLinked(x: Cell, ghost i: int)
      requires Valid() && Inner(x, i)
      reads this, s.nodes`prior, s.nodes`next, buckets`prior
      ensures ForthLinked(x, i) <==> i < K(s, i).hi && !(Large(G(s, i)) && (i == G(s, i).lo || i == G(s, i).hi - 1))
    {
      ForthTest(s, buckets, i);
      x.next.prior == x
    }

    predicate IsFirstOfBucket(x: Cell, ghost i: int)
      requires Valid() && Inner(x, i)
      reads this, s.nodes`prior, s.nodes`next, buckets`prior
      ensures IsFirstOfBucket(x, i) <==> i == K(s, i).lo
    {
      FirstTest(s, buckets, i);
      x.prior.next.prior == x
    }

    predicate IsLastOfBucket(x: Cell, ghost i: int)
      requires Valid() && Inner(x, i)
      reads this, s.nodes`prior, s.nodes`next, buckets`prior
      ensures IsLastOfBucket(x, i) <==> i == K(s, i).hi
    {
      ForthTest(s, buckets, i);
      LastTest(s, buckets, i);
      x.next.prior.prior == x
    }

    // First of a group of three or more.
    predicate IsFirstOfGroup(x: Cell, ghost i: int)
      requires Valid() && Inner(x, i)
      reads this, s.nodes`prior, s.nodes`next, buckets`prior
      ensures IsFirstOfGroup(x, i) <==> Large(G(s, i)) && i == G(s, i).lo
    {
      GroupTest(s, buckets, i);
      x.next.prior != x && x.next.prior.prior.next == x
    }

    // The node after x in the chain.
    function After(x: Cell, ghost i: int): (r: Cell)
      requires Valid() && Inner(x, i)
      reads this, s.nodes`prior, s.nodes`next, buckets`prior
      ensures r == N(s, i + 1)
    {
      AfterTest(s, buckets, i);
      if x.next.prior == x then x.next
      else if x.next.prior.prior == x then x.next.prior
      else if x.next.prior.prior.next == x then x.next
      else x.next.next.prior
    }

    // The node after x in its bucket.
    function AfterLocal(x: Cell, ghost i: int): (r: Cell?)
      requires Valid() && Inner(x, i)
      reads this, s.nodes`prior, s.nodes`next, buckets`prior
      ensures r == if i < K(s, i).hi then N(s, i + 1) else null
    {
      AfterTest(s, buckets, i);
      if x.next.prior == x then x.next
      else if x.next.prior.prior == x then null
      else if x.next.prior.prior.next == x then x.next
      else x.next.next.prior
    }

    // From a node of a small group the one after it, from the first of a large group the first of the next, in the
    // same bucket.
    function NextToInspect(x: Cell, ghost i: int): (r: Cell?)
      requires Valid() && Inner(x, i) && (Large(G(s, i)) ==> i == G(s, i).lo)
      reads this, s.nodes`prior, s.nodes`next, buckets`prior
      ensures var j := if Large(G(s, i)) then G(s, i).hi else i;
        r == if 0 <= j < K(s, i).hi < Last(s) then N(s, j + 1) else null
    {
      InspectTest(s, buckets, i);
      if x.next.prior == x then x.next
      else if x.next.prior.prior == x then null
      else if x.next.prior.next.prior != x.next.prior then null
      else x.next.prior.next
    }

    /* Unlinking, and undoing it */

    // The tree of tests that tells the place of x in its group and its bucket.
    method UnlinkNode(x: Cell, ghost i: int) returns (undo: Undo)
      requires Valid() && Inner(x, i)
      modifies s.nodes`prior, s.nodes`next, buckets`prior
      ensures Carried(Assignments(s, i)) && FrontMoved(i) && undo == Tracks(s, i)
    {
      Unfold(s, i);
      if BackLinked(x, i) {
        if ForthLinked(x, i) {
          undo := UnlinkPlain(x, i);
        } else if IsLastOfBucket(x, i) {
          undo := UnlinkLastOfBucket(x, i);
        } else if IsFirstOfGroup(x, i) {
          undo := UnlinkFirstOfGroup(x, i);
        } else {
          undo := UnlinkLastButOne(x, i);
        }
      } else if IsFirstOfBucket(x, i) {
        if ForthLinked(x, i) {
          undo := UnlinkFirstOfBucket(x, i);
        } else if IsLastOfBucket(x, i) {
          undo := UnlinkOnly(x, i);
        } else {
          undo := UnlinkFirstOfBoth(x, i);
        }
      } else if IsLastOfBucket(x, i) {
        undo := UnlinkLastOfBoth(x, i);
      } else {
        undo := UnlinkFromGroup(x, i);
      }
    }

    method UnlinkFromGroup(x: Cell, ghost i: int) returns (undo: Undo)
      requires Valid() && Inner(x, i) && Large(G(s, i))
      requires i == G(s, i).lo + 1 || (i == G(s, i).hi && i < K(s, i).hi)
      modifies s.nodes`prior, s.nodes`next, buckets`prior
      ensures Carried(Assignments(s, i)) && FrontMoved(i) && undo == Tracks(s, i)
    {
      SecondTest(s, buckets, i);
      if x.prior.prior.next.next == x {
        undo := UnlinkSecondOfGroup(x, i);
      } else {
        undo := UnlinkLastOfGroup(x, i);
      }
    }

    // The pointers are those of the chain without x; its own stay.
    method UnlinkPointers(x: Cell, ghost i: int) returns (undo: Undo)
      requires Valid() && Inner(x, i)
      modifies s.nodes`prior, s.nodes`next, buckets`prior
      ensures undo == Tracks(s, i) && NodesUnlinked(s, i) && BucketsUnlinked(s, i, buckets)
      ensures x.prior == PriorNode(s, i) && x.next == NextCell(s, i)
    {
      Pointers(s, buckets, i);
      undo := UnlinkNode(x, i);
      CarriedIsUnlinked(x, i);
      MovedIsUnlinked(x, i);
      OwnKept(x, i);
    }

    // Takes x out of the chain, wherever it is, and nothing else; its own pointers stay.
    method Unlink(x: Cell, ghost i: int) returns (undo: Undo)
      requires Valid() && Inner(x, i)
      modifies this`s, s.nodes`prior, s.nodes`next, buckets`prior
      ensures Valid() && s == Dropped(old(s), i)
      ensures undo == Tracks(old(s), i) && Out(old(s), i)
    {
      ghost var s0 := s;
      Pointers(s, buckets, i);
      OneHome(i);
      OthersStay(s0, i);
      undo := UnlinkPointers(x, i);
      UnlinkedIsLinked(s0, i, buckets);
      s := Dropped(s0, i);
    }

    lemma OneHome(i: int)
      requires Valid() && 0 <= i < Last(s)
      ensures forall j {:trigger B(s, j)} | Inside(s, j) && B(s, j) == B(s, i) :: K(s, j) == K(s, i)
      ensures B(s, i) !in s.nodes
    {
      Pointers(s, buckets, i);
      forall j | Inside(s, j) && B(s, j) == B(s, i) ensures K(s, j) == K(s, i) {
        Pointers(s, buckets, j);
        OneFront(s, i, j);
      }
    }

    twostate lemma OwnKept(x: Cell, new i: int)
      requires s == old(s) && 0 <= i < Last(s) && old(Valid()) && old(Inner(x, i)) && Carried(Assignments(s, i))
      ensures x.prior == old(x.prior) && x.next == old(x.next)
    {
      Unfold(s, i);
      HeaderApart(s, i);
      var w := Assignments(s, i);
      assert old(PriorOk(s, i) && NextOk(s, i));
      assert N(s, i) in s.nodes && w.a != i && w.b != i && w.c != i && (w.d != i || w.y == NextCell(s, i))
        && (w.e != i || w.z == NextCell(s, i));
      assert !Same(s, i, w.a) && !Same(s, i, w.b) && !Same(s, i, w.c) && (w.d != i ==> !Same(s, i, w.d))
        && (w.e != i ==> !Same(s, i, w.e));
    }

    // Undoes the assignments to prior pointers, the last first.
    method RestorePriors(tracks: seq<Track>)
      requires forall m {:trigger tracks[m]} | 0 <= m < |tracks| :: tracks[m].x in s.nodes || tracks[m].x in buckets
      requires forall m, n | 0 <= m < n < |tracks| :: tracks[m].x != tracks[n].x
      modifies s.nodes`prior, buckets`prior
      ensures forall m {:trigger tracks[m]} | 0 <= m < |tracks| :: tracks[m].x.prior == tracks[m].val
      ensures forall c <- s.nodes | Untouched(tracks, 0, c) :: c.prior == old(c.prior)
      ensures forall c <- buckets | Untouched(tracks, 0, c) :: c.prior == old(c.prior)
    {
      var k := |tracks|;
      while k > 0
        invariant 0 <= k <= |tracks|
        invariant forall m {:trigger tracks[m]} | k <= m < |tracks| :: tracks[m].x.prior == tracks[m].val
        invariant forall c <- s.nodes | Untouched(tracks, k, c) :: c.prior == old(c.prior)
        invariant forall c <- buckets | Untouched(tracks, k, c) :: c.prior == old(c.prior)
      {
        k := k - 1;
        tracks[k].x.prior := tracks[k].val;
      }
    }

    method RestoreNexts(tracks: seq<Track>)
      requires forall m {:trigger tracks[m]} | 0 <= m < |tracks| :: tracks[m].x in s.nodes
      requires forall m, n | 0 <= m < n < |tracks| :: tracks[m].x != tracks[n].x
      modifies s.nodes`next
      ensures forall m {:trigger tracks[m]} | 0 <= m < |tracks| :: tracks[m].x.next == tracks[m].val
      ensures forall c <- s.nodes | Untouched(tracks, 0, c) :: c.next == old(c.next)
    {
      var k := |tracks|;
      while k > 0
        invariant 0 <= k <= |tracks|
        invariant forall m {:trigger tracks[m]} | k <= m < |tracks| :: tracks[m].x.next == tracks[m].val
        invariant forall c <- s.nodes | Untouched(tracks, k, c) :: c.next == old(c.next)
      {
        k := k - 1;
        tracks[k].x.next := tracks[k].val;
      }
    }

    // x with the pointers it had, while the others are as unlinking it left them.
    ghost predicate Out(s0: Layout, i: int)
      reads this, s.nodes`prior, s.nodes`next, buckets`prior, s0.nodes`prior, s0.nodes`next
    {
      && Valid() && Shaped(s0) && 0 <= i < Last(s0) && s == Dropped(s0, i)
      && N(s0, i).prior == PriorNode(s0, i) && N(s0, i).next == NextCell(s0, i)
      && N(s0, i) !in buckets && B(s0, i) in buckets && B(s0, i) !in s0.nodes
      && (forall j {:trigger B(s0, j)} | Inside(s0, j) && B(s0, j) == B(s0, i) :: K(s0, j) == K(s0, i))
    }

    method RestoreTracks(undo: Undo)
      requires forall m {:trigger undo.pointers[m]} | 0 <= m < |undo.pointers| ::
        undo.pointers[m].x in s.nodes || undo.pointers[m].x in buckets
      requires forall m {:trigger undo.bases[m]} | 0 <= m < |undo.bases| :: undo.bases[m].x in s.nodes
      requires forall m, n | 0 <= m < n < |undo.pointers| :: undo.pointers[m].x != undo.pointers[n].x
      requires forall m, n | 0 <= m < n < |undo.bases| :: undo.bases[m].x != undo.bases[n].x
      modifies s.nodes`prior, s.nodes`next, buckets`prior
      ensures Restored(undo)
    {
      RestorePriors(undo.pointers);
      RestoreNexts(undo.bases);
    }

    // Undoing what unlinking tracked brings the chain back, every pointer of it.
    method Restore(undo: Undo, ghost s0: Layout, ghost i: int)
      requires Out(s0, i) && undo == Tracks(s0, i)
      modifies this`s, s.nodes`prior, s.nodes`next, buckets`prior
      ensures Valid() && s == s0
    {
      TracksInside(s0, i);
      RestoreTracks(undo);
      RestoredIsLinked(s0, i);
      s := s0;
    }

    lemma TracksInside(s0: Layout, i: int)
      requires Out(s0, i)
      ensures var u := Tracks(s0, i);
        && (forall m {:trigger u.pointers[m]} | 0 <= m < |u.pointers| ::
          u.pointers[m].x in s.nodes || u.pointers[m].x in buckets)
        && (forall m {:trigger u.bases[m]} | 0 <= m < |u.bases| :: u.bases[m].x in s.nodes)
        && (forall m, n | 0 <= m < n < |u.pointers| :: u.pointers[m].x != u.pointers[n].x)
        && (forall m, n | 0 <= m < n < |u.bases| :: u.bases[m].x != u.bases[n].x)
      ensures N(s0, i) !in s.nodes && N(s, Last(s)) == N(s0, Last(s0))
    {
      var u := Tracks(s0, i);
      OthersStay(s0, i);
      TracksAreExact(s0, i);
      TracksAreDistinct(s0, i);
      forall m {:trigger u.pointers[m]} | 0 <= m < |u.pointers|
        ensures u.pointers[m].x in s.nodes || u.pointers[m].x in buckets
      {
        assert TracksPrior(s0, i, u.pointers[m]);
        PriorTrackInside(s0, i, u.pointers[m]);
      }
      forall m {:trigger u.bases[m]} | 0 <= m < |u.bases| ensures u.bases[m].x in s.nodes {
        assert TracksNext(s0, i, u.bases[m]);
        NextTrackInside(s0, i, u.bases[m]);
      }
    }

    lemma PriorTrackInside(s0: Layout, i: int, t: Track)
      requires Out(s0, i) && TracksPrior(s0, i, t)
      requires forall j {:trigger N(s0, j)} | Inside(s0, j) && j != i :: N(s0, j) in s.nodes
      ensures t.x in s.nodes || t.x in buckets
    {
    }

    lemma NextTrackInside(s0: Layout, i: int, t: Track)
      requires Out(s0, i) && TracksNext(s0, i, t)
      requires forall j {:trigger N(s0, j)} | Inside(s0, j) && j != i :: N(s0, j) in s.nodes
      ensures t.x in s.nodes
    {
    }

    // The tracked pointers are back, and the others as before.
    twostate predicate Restored(new undo: Undo)
      reads this, s.nodes`prior, s.nodes`next, buckets`prior,
        (set t <- undo.pointers :: t.x)`prior, (set t <- undo.bases :: t.x)`next
    {
      && s == old(s) && buckets == old(buckets)
      && (forall m {:trigger undo.pointers[m]} | 0 <= m < |undo.pointers| ::
        undo.pointers[m] in undo.pointers && undo.pointers[m].x.prior == undo.pointers[m].val)
      && (forall m {:trigger undo.bases[m]} | 0 <= m < |undo.bases| ::
        undo.bases[m] in undo.bases && undo.bases[m].x.next == undo.bases[m].val)
      && (forall c <- s.nodes | c in old(s.nodes) && Untouched(undo.pointers, 0, c) :: c.prior == old(c.prior))
      && (forall c <- s.nodes | c in old(s.nodes) && Untouched(undo.bases, 0, c) :: c.next == old(c.next))
      && (forall c <- buckets | c in old(buckets) && Untouched(undo.pointers, 0, c) :: c.prior == old(c.prior))
    }

    twostate lemma RestoredPrior(s0: Layout, new i: int, new j: int)
      requires old(Out(s0, i)) && Restored(Tracks(s0, i)) && Inside(s0, j) && j != i
      ensures N(s0, j).prior == PriorNode(s0, j)
    {
      ghost var tracks, c := Tracks(s0, i).pointers, N(s0, j);
      if Untouched(tracks, 0, c) {
        KeptPrior(s0, i, j);
      } else {
        var m :| 0 <= m < |tracks| && tracks[m].x == c;
        assert c in s0.nodes;
        TrackedPrior(s0, i, j, m);
      }
    }

    // A pointer that was not tracked is as it was.
    twostate lemma KeptPrior(s0: Layout, new i: int, new j: int)
      requires old(Out(s0, i)) && Restored(Tracks(s0, i)) && Inside(s0, j) && j != i
        && Untouched(Tracks(s0, i).pointers, 0, N(s0, j))
      ensures N(s0, j).prior == PriorNode(s0, j)
    {
      OtherStays(s0, i, j);
      UntrackedPrior(s0, i, j);
      assert old(PriorOk(s, S.Before(j, i, 1)));
    }

    twostate lemma KeptNext(s0: Layout, new i: int, new j: int)
      requires old(Out(s0, i)) && Restored(Tracks(s0, i)) && Inside(s0, j) && j != i
        && Untouched(Tracks(s0, i).bases, 0, N(s0, j))
      ensures N(s0, j).next == NextCell(s0, j)
    {
      OtherStays(s0, i, j);
      UntrackedNext(s0, i, j);
      assert old(NextOk(s, S.Before(j, i, 1)));
    }

    twostate lemma RestoredNext(s0: Layout, new i: int, new j: int)
      requires old(Out(s0, i)) && Restored(Tracks(s0, i)) && Inside(s0, j) && j != i
      ensures N(s0, j).next == NextCell(s0, j)
    {
      ghost var tracks, c := Tracks(s0, i).bases, N(s0, j);
      if Untouched(tracks, 0, c) {
        KeptNext(s0, i, j);
      } else {
        var m :| 0 <= m < |tracks| && tracks[m].x == c;
        TrackedNext(s0, i, j, m);
      }
    }

    // Only the bucket of node i, and only when it was its first, was tracked.
    twostate lemma BucketKept(s0: Layout, new i: int, new b: Cell)
      requires old(Out(s0, i)) && Restored(Tracks(s0, i)) && b in old(buckets) && b !in s0.nodes
      requires i != K(s0, i).lo || b != B(s0, i)
      ensures b.prior == old(b.prior)
    {
      var u := Tracks(s0, i);
      TracksAreExact(s0, i);
      forall m {:trigger u.pointers[m]} | 0 <= m < |u.pointers| ensures u.pointers[m].x != b {
        assert TracksPrior(s0, i, u.pointers[m]);
        if k :| Inside(s0, k) && k != i && u.pointers[m] == WasPrior(s0, k) { assert N(s0, k) in s0.nodes; }
      }
    }

    twostate lemma RestoredHome(s0: Layout, new i: int, new j: int)
      requires old(Out(s0, i)) && Restored(Tracks(s0, i)) && Inside(s0, j) && K(s0, j).lo != i
      requires forall c <- s0.nodes :: c !in buckets
      ensures HomeOk(s0, buckets, j)
    {
      Unfold(s0, i);
      Unfold(s0, j);
      var k := if j == i then i - 1 else j;
      SameBucket(s0, j, k);
      DroppedAt(s0, i, S.Before(k, i, 1));
      FrontOfDropped(s0, i, k);
      assert old(HomeOk(s, buckets, S.Before(k, i, 1)));
      BucketKept(s0, i, B(s0, j));
    }

    twostate lemma RestoredFront(s0: Layout, new i: int, new j: int)
      requires old(Out(s0, i)) && Restored(Tracks(s0, i)) && Inside(s0, j) && K(s0, j).lo == i
      ensures HomeOk(s0, buckets, j)
    {
      Unfold(s0, j);
      SameBucket(s0, j, i);
      TracksCover(s0, i);
      var m :| 0 <= m < |Tracks(s0, i).pointers| && Tracks(s0, i).pointers[m] == WasFront(s0, i);
    }

    twostate lemma RestoredIsLinked(s0: Layout, new i: int)
      requires old(Out(s0, i)) && Restored(Tracks(s0, i))
      requires N(s0, i).prior == PriorNode(s0, i) && N(s0, i).next == NextCell(s0, i)
      ensures Linked(s0, buckets)
    {
      NodesApart(s0, i);
      forall j | Inside(s0, j) ensures PriorOk(s0, j) && NextOk(s0, j) && HomeOk(s0, buckets, j) {
        if j != i { RestoredPrior(s0, i, j); RestoredNext(s0, i, j); }
        if K(s0, j).lo == i { RestoredFront(s0, i, j); } else { RestoredHome(s0, i, j); }
      }
      forall b | b in buckets ensures Spare(s0, b) {
        assert old(Spare(s, b));
        if b != B(s0, i) { BucketKept(s0, i, b); }
      }
    }

    twostate lemma NodesApart(s0: Layout, new i: int)
      requires old(Out(s0, i)) && s == old(s) && buckets == old(buckets)
      ensures forall c <- s0.nodes :: c !in buckets
      ensures forall b <- s.home :: b in s0.home
    {
      forall c | c in s0.nodes ensures c !in buckets {
        var j :| 0 <= j < |s0.nodes| && s0.nodes[j] == c;
        if j != i { DroppedAt(s0, i, S.Before(j, i, 1)); assert c in s.nodes; }
      }
    }

    // x goes to the front of bucket buc, which is not the header's.
    method Link(x: Cell, buc: Cell) returns (ghost i: int)
      requires Valid() && buc in buckets && x !in s.nodes && x !in buckets && B(s, Last(s)) != buc
      modifies this`s, x`prior, x`next, s.nodes`prior, s.nodes`next, buc`prior
      ensures Valid() && Inside(old(s), i)
      ensures buc in old(s).home ==> i < Last(old(s)) && i == K(old(s), i).lo && B(old(s), i) == buc
      ensures buc !in old(s).home ==> i == Last(old(s))
      ensures s == Opened(old(s), [x], i, false, buc in old(s).home, buc)
    {
      HomeIsUsed(buc);
      if buc.prior == null {
        i := Last(s);
        LinkEmpty(x, buc);
      } else {
        i := LinkFront(x, buc);
      }
    }

    lemma HomeIsUsed(buc: Cell)
      requires Valid() && buc in buckets
      ensures buc in s.home <==> buc.prior != null
    {
      assert Spare(s, buc);
      if buc in s.home {
        var j :| 0 <= j < |s.home| && s.home[j] == buc;
        assert B(s, j) == buc && HomeOk(s, buckets, j);
      }
    }

    /* Linking to a group */

    // A group that starts with first and ends with last gets x in front: its own pointers.
    static method RightLink(x: Cell, first: Cell, last: Cell, ghost second: Cell, ghost lastButOne: Cell)
      requires first != last ==> first.next == second && last.prior == lastButOne && second != first
      requires first != last && second != last ==> lastButOne != first
      requires first == last ==> second == first == lastButOne
      requires first != last && second == last ==> lastButOne == first
      modifies first`prior, first`next, second`prior, lastButOne`next
      ensures first.prior == if first == last then x else last
      ensures first == last ==> first.next == old(first.next)
      ensures first != last ==> lastButOne.next == x
      ensures first != last && second != last ==> second.prior == first && first.next == second
      ensures first != last && second == last ==> second.prior == old(second.prior)
    {
      if first == last {
        last.prior := x;
      } else if first.next == last {
        first.prior := last;
        first.next := x;
      } else {
        var second, lastButOne := first.next, last.prior;
        second.prior := first;
        first.prior := last;
        lastButOne.next := x;
      }
    }

    // x becomes the first of the group from first to last.
    method LinkGroup(x: Cell, first: Cell, last: Cell, ghost i: int)
      requires Valid() && Inner(first, i) && i == G(s, i).lo <= G(s, i).hi < Last(s) && N(s, G(s, i).hi) == last
      requires x !in s.nodes && x !in buckets
      modifies this`s, x`prior, x`next, s.nodes`prior, s.nodes`next, buckets`prior
      ensures Valid()
      ensures s == Opened(old(s), [x], i, true, true, B(old(s), i))
    {
      ghost var s0 := s;
      Unfold(s0, i);
      WireGroup(x, first, last, i);
      GroupLinked(x, s0, i);
      GroupHomes(x, s0, i);
      s := Opened(s0, [x], i, true, true, B(s0, i));
      WrittenIsLinked(s0, [x], i, true, true, B(s0, i), buckets);
      OpenedAt(s0, [x], i, true, true, B(s0, i), Last(s));
    }

    method WireGroup(x: Cell, first: Cell, last: Cell, ghost i: int)
      requires Valid() && Inner(first, i) && i == G(s, i).lo <= G(s, i).hi < Last(s) && N(s, G(s, i).hi) == last
      requires x !in s.nodes && x !in buckets
      modifies x`prior, x`next, s.nodes`prior, s.nodes`next, buckets`prior
      ensures Wired(x, i)
    {
      ghost var g := G(s, i);
      GroupEnds(s, buckets, i);
      BackTest(s, buckets, i);
      var isFirst := IsFirstOfBucket(first, i);
      x.prior := first.prior;
      x.next := first;
      if isFirst {
        x.prior.next.prior := x;
      } else {
        x.prior.next := x;
      }
      RightLink(x, first, last, N(s, if g.hi == i then i else i + 1), N(s, if g.hi == i then i else g.hi - 1));
    }

    // What was written, by the place of the node written to.
    twostate predicate Wired(x: Cell, new i: int)
      requires Shaped(s) && 0 <= i < Last(s) && G(s, i).lo == i <= G(s, i).hi < Last(s)
      reads this, x, s.nodes`prior, s.nodes`next, buckets`prior
    {
      && s == old(s) && buckets == old(buckets)
      && x.prior == PriorNode(s, i) && x.next == N(s, i)
      && (forall c <- s.nodes | c in old(s.nodes) ::
        c.prior == if c == N(s, i) then (if G(s, i).hi == i then x else N(s, G(s, i).hi))
        else if i < G(s, i).hi && c == N(s, i + 1) then N(s, i) else old(c.prior))
      && (forall c <- s.nodes | c in old(s.nodes) ::
        c.next == if K(s, i).lo < i && c == PriorNode(s, i) then x
        else if i < G(s, i).hi && c == N(s, G(s, i).hi - 1) then x else old(c.next))
      && (forall b <- buckets | b in old(buckets) :: b.prior == if K(s, i).lo == i && b == B(s, i) then x
        else old(b.prior))
    }

    twostate lemma GroupLinked(x: Cell, new s0: Layout, new i: int)
      requires s0 == old(s) == s && old(Valid()) && x !in s0.nodes
      requires 0 <= i < Last(s0) && i == G(s0, i).lo <= G(s0, i).hi < Last(s0) && Wired(x, i)
      ensures Newcomers(s0, [x]) && NodesWritten(s0, [x], i, true, true, B(s0, i))
    {
      Unfold(s0, i);
      forall j | Inside(s0, j) ensures OldWritten(s0, [x], i, true, true, B(s0, i), j) {
        assert N(s0, j) in s0.nodes;
        assert old(PriorOk(s0, j) && NextOk(s0, j));
        assert Same(s0, j, i) == (j == i) && Same(s0, j, i + 1) == (j == i + 1);
        if i < G(s0, i).hi { assert Same(s0, j, G(s0, i).hi - 1) == (j == G(s0, i).hi - 1); }
        if K(s0, i).lo < i { SameBucket(s0, i, i - 1); assert Same(s0, j, i - 1) == (j == i - 1); }
        if j == i - 1 && K(s0, i).lo == i { Unfold(s0, j); Apart(s0, i, j); }
      }
    }

    twostate lemma GroupHomes(x: Cell, new s0: Layout, new i: int)
      requires s0 == old(s) == s && old(Valid()) && x !in s0.nodes && x !in buckets
      requires 0 <= i < Last(s0) && i == G(s0, i).lo <= G(s0, i).hi < Last(s0) && Wired(x, i)
      ensures BucketsWritten(s0, [x], i, true, B(s0, i), buckets)
    {
      assert old(HomeOk(s0, buckets, i));
      forall j | Inside(s0, j) ensures HomeWritten(s0, [x], i, true, buckets, j) {
        assert old(HomeOk(s0, buckets, j));
        Unfold(s0, j);
        if K(s0, j).lo == i { SameBucket(s0, j, i); }
        if B(s0, i) == B(s0, j) { OneFront(s0, i, j); }
      }
      forall c | c in buckets && c != B(s0, i) ensures Spare(s0, c) {
        assert old(Spare(s0, c));
      }
    }

    // A layout leaves no pointer of the chain open.
    twostate lemma LayoutDetermines(s0: Layout)
      requires s0 == s == old(s) && buckets == old(buckets) && old(Valid()) && Valid()
      ensures forall c <- s.nodes | c in old(s.nodes) :: c.prior == old(c.prior) && c.next == old(c.next)
      ensures forall b <- buckets | b in old(buckets) :: b.prior == old(b.prior)
    {
      forall c <- s.nodes | c in old(s.nodes) ensures c.prior == old(c.prior) && c.next == old(c.next) {
        var j :| 0 <= j < |s.nodes| && s.nodes[j] == c;
        assert N(s, j) == c;
        assert PriorOk(s, j) && NextOk(s, j) && old(PriorOk(s, j)) && old(NextOk(s, j));
      }
      forall b <- buckets | b in old(buckets) ensures b.prior == old(b.prior) {
        assert Spare(s, b) && old(Spare(s, b));
        if b in s.home {
          var j :| 0 <= j < |s.home| && s.home[j] == b;
          assert B(s, j) == b;
          assert HomeOk(s, buckets, j) && old(HomeOk(s, buckets, j));
        }
      }
    }

    // Unlinking and undoing it is the identity on every pointer.
    method UnlinkAndRestore(x: Cell, ghost i: int)
      requires Valid() && Inner(x, i)
      modifies this`s, s.nodes`prior, s.nodes`next, buckets`prior
      ensures Valid() && s == old(s)
      ensures forall c <- s.nodes | c in old(s.nodes) :: c.prior == old(c.prior) && c.next == old(c.next)
      ensures forall b <- buckets | b in old(buckets) :: b.prior == old(b.prior)
    {
      ghost var s0 := s;
      var undo := Unlink(x, i);
      Restore(undo, s0, i);
      LayoutDetermines(s0);
    }

    // Other groups for the same pointers.
    ghost method Regroup(t: Layout)
      requires Valid() && Shaped(t) && SamePointers(s, t)
      modifies this`s
      ensures Valid() && s == t
    {
      forall j | Inside(t, j) ensures PriorOk(t, j) && NextOk(t, j) && HomeOk(t, buckets, j) {
        Pointers(s, buckets, j);
        Unfold(s, j);
        assert PriorNode(t, j) == PriorNode(s, j) && NextCell(t, j) == NextCell(s, j);
      }
      forall b | b in buckets ensures Spare(t, b) {
        assert Spare(s, b);
      }
      s := t;
    }
  }
}
