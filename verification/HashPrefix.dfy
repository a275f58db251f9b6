/** A hash chain whose last groups have been taken out, in terms of the layout of the whole chain: what rehashing leaves
    behind, and what its rollback puts back. */
module HashPrefix {

  import opened HashLayout
  import opened HashIndexNode
  import opened HashRanges
  import S = Spans

  // Groups of two, which have no pointers of their own, count as two groups.
  ghost predicate Parted(s: Layout, i: int)
    requires Sized(s) && Inside(s, i)
  {
    Large(G(s, i)) || (G(s, i).lo == i == G(s, i).hi)
  }

  // Nodes with the same bucket are in the same interval of buckets.
  ghost predicate OneHome(s: Layout, i: int, j: int)
    requires Sized(s) && Inside(s, i) && Inside(s, j)
  {
    B(s, i) == B(s, j) ==> K(s, i) == K(s, j)
  }

  ghost predicate Apportioned(s: Layout) {
    && Shaped(s)
    && (forall i {:trigger Parted(s, i)} | Inside(s, i) :: Parted(s, i))
    && (forall i, j {:trigger OneHome(s, i, j)} | Inside(s, i) && Inside(s, j) :: OneHome(s, i, j))
  }

  // e is where a group starts.
  ghost predicate Boundary(s: Layout, e: int) {
    Apportioned(s) && Inside(s, e) && e == G(s, e).lo
  }

  // The index of the node before e, the header's for the first.
  ghost function Tail(s: Layout, e: int): int {
    if e == 0 then Last(s) else e - 1
  }

  ghost predicate SpareUpto(s: Layout, e: int, b: Cell)
    requires Sized(s) && Inside(s, e)
    reads b`prior
  {
    b.prior != null ==> b in s.home[..e] || b == B(s, Last(s))
  }

  // The pointers of node j, when the chain holds the nodes before e.
  ghost predicate NodeUpto(s: Layout, e: int, j: int)
    requires Shaped(s) && 0 <= j < e <= Last(s)
    reads N(s, j)`prior, N(s, j)`next
  {
    N(s, j).prior == PriorNode(s, j) && N(s, j).next == if j == e - 1 then B(s, Last(s)) else NextCell(s, j)
  }

  ghost predicate BucketUpto(s: Layout, buckets: set<Cell>, j: int)
    requires Shaped(s) && Inside(s, j)
    reads B(s, j)`prior
  {
    B(s, j) in buckets && B(s, j).prior == Front(s, j)
  }

  // The chain holds the nodes before e.
  ghost predicate Upto(s: Layout, buckets: set<Cell>, e: int)
    requires Boundary(s, e)
    reads s.nodes[..e]`prior, s.nodes[..e]`next, N(s, Last(s))`prior, N(s, Last(s))`next, buckets`prior
  {
    && (forall c {:trigger c in s.nodes} | c in s.nodes :: c !in buckets)
    && (forall c {:trigger c in s.home} | c in s.home :: c in buckets)
    && N(s, Last(s)).prior == N(s, Tail(s, e))
    && N(s, Last(s)).next == (if e > 0 then B(s, 0) else B(s, Last(s)))
    && (forall j {:trigger NodeUpto(s, e, j)} | 0 <= j < e :: NodeIn(s, e, j) && NodeUpto(s, e, j))
    && (forall j {:trigger BucketUpto(s, buckets, j)} | 0 <= j < e || j == Last(s) ::
      HomeIn(s, j) && BucketUpto(s, buckets, j))
    && (forall b {:trigger SpareUpto(s, e, b)} | b in buckets :: SpareUpto(s, e, b))
  }

  ghost predicate NodeIn(s: Layout, e: int, j: int)
    requires 0 <= j < e < |s.nodes|
  {
    N(s, j) == s.nodes[..e][j]
  }

  ghost predicate HomeIn(s: Layout, j: int)
    requires Sized(s) && Inside(s, j)
  {
    B(s, j) in s.home
  }

  // The whole chain.
  lemma LinkedIsUpto(s: Layout, buckets: set<Cell>)
    requires Boundary(s, Last(s)) && Linked(s, buckets)
    ensures Upto(s, buckets, Last(s))
  {
    var h := Last(s);
    HeaderPlace(s);
    forall j | 0 <= j <= h
      ensures (j < h ==> NodeIn(s, h, j) && NodeUpto(s, h, j)) && HomeIn(s, j) && BucketUpto(s, buckets, j)
    {
      Pointers(s, buckets, j);
    }
    Pointers(s, buckets, h);
    Unfold(s, h);
    forall c | c in s.home ensures c in buckets {
      var j :| 0 <= j <= h && s.home[j] == c;
      assert BucketUpto(s, buckets, j);
    }
    forall b | b in buckets ensures SpareUpto(s, h, b) {
      assert Spare(s, b);
      if b in s.home {
        var j :| 0 <= j <= h && s.home[j] == b;
        assert j < h ==> s.home[..h][j] == b;
      }
    }
  }

  lemma UptoIsLinked(s: Layout, buckets: set<Cell>)
    requires Boundary(s, Last(s)) && Upto(s, buckets, Last(s))
    ensures Linked(s, buckets)
  {
    var h := Last(s);
    HeaderPlace(s);
    Unfold(s, h);
    forall j | 0 <= j <= h ensures PriorOk(s, j) && NextOk(s, j) && HomeOk(s, buckets, j) {
      assert BucketUpto(s, buckets, j) && (j < h ==> NodeUpto(s, h, j));
    }
    forall b | b in buckets ensures Spare(s, b) {
      assert SpareUpto(s, h, b);
      assert s.home[h] == B(s, h);
      assert b in s.home[..h] ==> b in s.home;
    }
  }

  /* Taking out the last group */

  // Where the group before e starts.
  ghost function Start(s: Layout, e: int): (f: int)
    requires Boundary(s, e) && e > 0
    ensures 0 <= f < e <= Last(s) && 0 <= K(s, f).lo <= f && Boundary(s, f) && G(s, f) == S.Span(f, e - 1)
      && B(s, f) == B(s, e - 1)
  {
    Unfold(s, e - 1);
    Unfold(s, e);
    var g := G(s, e - 1);
    SameGroup(s, e - 1, g.lo);
    SameGroup(s, e - 1, g.hi);
    Unfold(s, g.lo);
    Apart(s, e - 1, e);
    g.lo
  }

  // Where the group before e starts, the node before it, and what leads from there.
  lemma LastGroup(s: Layout, buckets: set<Cell>, e: int)
    requires Boundary(s, e) && e > 0 && Upto(s, buckets, e)
    ensures var f := Start(s, e); var h := Last(s);
      && B(s, f) in buckets && B(s, f).prior == Front(s, f)
      && N(s, f).prior == N(s, Tail(s, f)) && N(s, h).prior == N(s, e - 1) && N(s, e - 1).next == B(s, h)
      && N(s, Tail(s, f)).next == (if f == K(s, f).lo then B(s, f) else N(s, f))
      && N(s, f) in s.nodes && N(s, e - 1) in s.nodes && N(s, Tail(s, f)) in s.nodes && N(s, h) in s.nodes
      && B(s, f) != B(s, h)
      && (f < e - 1 ==>
        N(s, e - 1).prior == N(s, e - 2) && N(s, e - 2).next == N(s, f) && N(s, e - 2) in s.nodes && !Same(s, f, e - 1))
      && !Same(s, e - 1, Tail(s, f)) && (f == K(s, f).lo ==> Front(s, f) == N(s, f))
  {
    var f, h := Start(s, e), Last(s);
    SameGroup(s, f, e - 1);
    HeaderApart(s, f);
    assert NodeUpto(s, e, f) && NodeUpto(s, e, e - 1) && BucketUpto(s, buckets, f) && BucketUpto(s, buckets, h);
    Unfold(s, f);
    if B(s, f) == B(s, h) { OneFront(s, f, h); }
    if f > 0 {
      assert NodeUpto(s, e, f - 1);
      Apart(s, f - 1, f);
      Unfold(s, f - 1);
      if f == K(s, f).lo {} else { SameBucket(s, f, f - 1); }
    } else {
      assert B(s, 0) == B(s, f);
    }
    if f < e - 1 { assert NodeUpto(s, e, e - 2) && Parted(s, f); SameGroup(s, f, e - 2); }
  }

  // The pointers between the nodes of that group.
  lemma LastGroupIsRanged(s: Layout, buckets: set<Cell>, e: int)
    requires Boundary(s, e) && e > 0 && Upto(s, buckets, e)
    ensures Ranged(s.nodes[Start(s, e)..e])
  {
    LastGroup(s, buckets, e);
    var f := Start(s, e);
    var xs := s.nodes[f..e];
    forall m | 0 < m < |xs| ensures InnerPrior(xs, m) {
      assert NodeUpto(s, e, f + m);
      SameGroup(s, f, f + m);
    }
    forall m | 0 <= m < |xs| - 1 ensures InnerNext(xs, m) {
      assert NodeUpto(s, e, f + m);
      SameGroup(s, f, f + m);
      Unfold(s, f + m);
    }
  }

  // The assignments made: p is the node before the group.
  method Cut(ghost s: Layout, ghost buckets: set<Cell>, ghost e: int, ghost p: Cell, end: Cell)
      returns (y: Cell, emptied: bool)
    requires Boundary(s, e) && e > 0 && Upto(s, buckets, e) && end == N(s, Last(s)) && p == N(s, Tail(s, Start(s, e)))
    modifies end`prior, p`next, B(s, e - 1)`prior
    ensures end.prior == p && p.next == B(s, Last(s))
    ensures var f := Start(s, e);
      && y == N(s, f) && (emptied <==> f == K(s, f).lo)
      && B(s, e - 1).prior == if emptied then null else old(B(s, e - 1).prior)
  {
    LastGroup(s, buckets, e);
    var x := end.prior;
    if x.prior.next == x {
      x.prior.next := x.next;
      end.prior := x.prior;
      y, emptied := x, false;
    } else if x.prior.next.prior == x {
      x.prior.next.prior := null;
      x.prior.next := x.next;
      end.prior := x.prior;
      y, emptied := x, true;
    } else {
      y := x.prior.next;
      if y.prior.next == y {
        y.prior.next := x.next;
        end.prior := y.prior;
        emptied := false;
      } else {
        y.prior.next.prior := null;
        y.prior.next := x.next;
        end.prior := y.prior;
        emptied := true;
      }
    }
  }

  // A bucket that starts at f has no nodes before, and is not the header's.
  lemma OtherBucket(s: Layout, f: int, j: int)
    requires Shaped(s) && 0 <= f < Last(s) && f == K(s, f).lo && (0 <= j < f || j == Last(s))
    ensures Front(s, j) != Front(s, f)
  {
    if Front(s, j) == Front(s, f) {
      OneFront(s, f, j);
      Unfold(s, j);
      HeaderApart(s, f);
    }
  }

  lemma SpareBucket(s: Layout, e: int, f: int, b: Cell, emptied: bool)
    requires Boundary(s, e) && e > 0 && f == Start(s, e) && (emptied <==> f == K(s, f).lo)
    requires b in s.home[..e] && (emptied ==> b != B(s, e - 1))
    ensures b in s.home[..f]
  {
    var j :| 0 <= j < e && s.home[j] == b;
    if j < f {
      assert s.home[..f][j] == b;
    } else {
      SameGroup(s, f, j);
      assert B(s, j) == b;
      if f > K(s, f).lo {
        Unfold(s, f);
        SameBucket(s, f, f - 1);
        assert s.home[..f][f - 1] == b;
      }
    }
  }

  // Takes out the last group; tells its first node, and whether its bucket is emptied.
  method UnlinkLastGroup(ghost s: Layout, ghost buckets: set<Cell>, ghost e: int, end: Cell)
      returns (y: Cell, emptied: bool)
    requires Boundary(s, e) && e > 0 && Upto(s, buckets, e) && end == N(s, Last(s))
    modifies end`prior, N(s, Tail(s, Start(s, e)))`next, B(s, e - 1)`prior
    ensures var f := Start(s, e); Upto(s, buckets, f) && y == N(s, f) && (emptied <==> f == K(s, f).lo)
    ensures Ranged(s.nodes[Start(s, e)..e])
  {
    ghost var f, h := Start(s, e), Last(s);
    ghost var xs := s.nodes[f..e];
    LastGroupIsRanged(s, buckets, e);
    y, emptied := CutUpto(s, buckets, e, end);
    forall m | 0 < m < |xs| ensures InnerPrior(xs, m) {
      assert old(InnerPrior(xs, m)) && !Same(s, f + m, h) && N(s, f + m) in s.nodes && B(s, e - 1) in s.home;
    }
    forall m | 0 <= m < |xs| - 1 ensures InnerNext(xs, m) {
      assert old(InnerNext(xs, m)) && !Same(s, f + m, h) && !Same(s, f + m, Tail(s, f));
    }
  }

  method CutUpto(ghost s: Layout, ghost buckets: set<Cell>, ghost e: int, end: Cell) returns (y: Cell, emptied: bool)
    requires Boundary(s, e) && e > 0 && Upto(s, buckets, e) && end == N(s, Last(s))
    modifies end`prior, N(s, Tail(s, Start(s, e)))`next, B(s, e - 1)`prior
    ensures var f := Start(s, e); Upto(s, buckets, f) && y == N(s, f) && (emptied <==> f == K(s, f).lo)
  {
    LastGroup(s, buckets, e);
    y, emptied := Cut(s, buckets, e, N(s, Tail(s, Start(s, e))), end);
    CutIsUpto(s, buckets, e, emptied);
  }

  // What is left when the last group has been cut off.
  twostate lemma CutIsUpto(s: Layout, new buckets: set<Cell>, new e: int, new emptied: bool)
    requires old(allocated(buckets))
    requires Boundary(s, e) && e > 0 && old(Upto(s, buckets, e)) && (emptied <==> Start(s, e) == K(s, Start(s, e)).lo)
    requires forall c <- s.nodes :: c.prior == if c == N(s, Last(s)) then N(s, Tail(s, Start(s, e))) else old(c.prior)
    requires forall c <- s.nodes :: c.next == if c == N(s, Tail(s, Start(s, e))) then B(s, Last(s)) else old(c.next)
    requires forall b <- buckets :: b.prior == if b == B(s, e - 1) && emptied then null else old(b.prior)
    ensures Upto(s, buckets, Start(s, e))
  {
    var f, h := Start(s, e), Last(s);
    assert old(BucketUpto(s, buckets, e - 1)) && N(s, h) in s.nodes;
    assert f > 0 ==> !Same(s, h, f - 1);
    forall j | 0 <= j < f ensures NodeIn(s, f, j) && NodeUpto(s, f, j) {
      assert old(NodeUpto(s, e, j));
      assert N(s, j) in s.nodes && Same(s, j, h) == (j == h) && Same(s, j, Tail(s, f)) == (j == Tail(s, f));
    }
    forall j | 0 <= j < f || j == h ensures HomeIn(s, j) && BucketUpto(s, buckets, j) {
      assert old(BucketUpto(s, buckets, j)) && old(BucketUpto(s, buckets, f));
      if emptied && B(s, j) == B(s, f) { OtherBucket(s, f, j); }
    }
    forall b | b in buckets ensures SpareUpto(s, f, b) {
      assert old(SpareUpto(s, e, b));
      if b.prior != null && b != B(s, h) { SpareBucket(s, e, f, b, emptied); }
    }
  }

  /* Putting it back */

  // The pointers read and written when the group that starts at f comes back.
  lemma TailPointers(s: Layout, buckets: set<Cell>, f: int)
    requires Boundary(s, f) && f < Last(s) && Upto(s, buckets, f)
    ensures var p, h := N(s, Tail(s, f)), Last(s);
      && N(s, h).prior == p && p.next == B(s, h) && p in s.nodes && N(s, f) in s.nodes && N(s, h) in s.nodes
      && B(s, f) in buckets && B(s, h) in buckets && B(s, f) != B(s, h) && N(s, f) != N(s, h) && N(s, f) != p
      && (f == K(s, f).lo ==> B(s, f).prior == null)
      && (f > 0 ==> p == s.nodes[..f][f - 1] && p != N(s, h))
  {
    var h := Last(s);
    HeaderApart(s, f);
    assert !Same(s, f, h) && !Same(s, f, Tail(s, f)) && (f > 0 ==> !Same(s, Tail(s, f), h));
    assert BucketUpto(s, buckets, h) && B(s, f) in s.home && SpareUpto(s, f, B(s, f));
    assert OneHome(s, f, h);
    Unfold(s, f);
    if f > 0 { assert NodeUpto(s, f, f - 1); }
    if f == K(s, f).lo && B(s, f) in s.home[..f] {
      var j :| 0 <= j < f && s.home[..f][j] == B(s, f);
      assert OneHome(s, f, j);
      Unfold(s, j);
    }
  }

  // A node of the group, or one before it, when it is back.
  lemma NodeIsBack(s: Layout, e: int, j: int)
    requires Boundary(s, e) && 0 < e && 0 <= j < e - 1
    ensures var f, m := Start(s, e), j - Start(s, e);
      && (j >= f ==> NextCell(s, j) == N(s, f + InnerForth(e - f, m)))
      && (j == f - 1 ==> NextCell(s, j) == if f == K(s, f).lo then B(s, f) else N(s, f))
  {
    var f := Start(s, e);
    Unfold(s, j);
    Unfold(s, f);
    if j >= f {
      SameGroup(s, f, j);
    } else if j == f - 1 {
      Apart(s, f - 1, f);
      if f > K(s, f).lo { SameBucket(s, f, f - 1); }
    }
  }

  lemma PriorIsBack(s: Layout, e: int, j: int)
    requires Boundary(s, e) && 0 < e && Start(s, e) <= j < e
    ensures PriorNode(s, j) == if j == Start(s, e) then N(s, Tail(s, Start(s, e)))
      else N(s, Start(s, e) + InnerBack(e - Start(s, e), j - Start(s, e)))
  {
    Unfold(s, j);
    SameGroup(s, Start(s, e), j);
  }

  // The assignments made: y and x are the first and the last node of the group.
  method Uncut(ghost s: Layout, ghost buckets: set<Cell>, ghost e: int, y: Cell, x: Cell, buc: Cell, same: bool,
      end: Cell)
    requires Boundary(s, e) && e > 0 && Upto(s, buckets, Start(s, e))
    requires y == N(s, Start(s, e)) && x == N(s, e - 1) && end == N(s, Last(s)) && buc == B(s, e - 1)
    requires same <==> Start(s, e) != K(s, Start(s, e)).lo
    modifies y`prior, x`next, end`prior, N(s, Tail(s, Start(s, e)))`next, buc`prior
    ensures var f := Start(s, e);
      && y.prior == N(s, Tail(s, f)) && x.next == B(s, Last(s)) && end.prior == x
      && N(s, Tail(s, f)).next == (if same then y else buc)
      && buc.prior == (if same then old(buc.prior) else y)
  {
    TailPointers(s, buckets, Start(s, e));
    assert !Same(s, e - 1, Tail(s, Start(s, e)));
    if same {
      AppendRange(y, x, end);
    } else {
      y.prior := end.prior;
      x.next := end.prior.next;
      y.prior.next := buc;
      buc.prior := y;
      end.prior := x;
    }
  }

  method AppendRange(first: Cell, last: Cell, cend: Cell)
    requires cend.prior != null && cend != first && cend.prior != last
    modifies first`prior, last`next, cend`prior, cend.prior`next
    ensures first.prior == old(cend.prior) && last.next == old(cend.prior.next) && cend.prior == last
    ensures old(cend.prior).next == first
  {
    first.prior := cend.prior;
    last.next := cend.prior.next;
    first.prior.next := first;
    cend.prior := last;
  }

  // What the assignments are to have made of the chain; same tells that the group goes on with a bucket.
  twostate predicate Uncuts(s: Layout, new buckets: set<Cell>, new e: int, new same: bool)
    requires Boundary(s, e) && e > 0 && old(allocated(buckets))
    reads s.nodes`prior, s.nodes`next, buckets`prior
  {
    var f, h := Start(s, e), Last(s);
    && (same <==> f != K(s, f).lo)
    && (forall c <- s.nodes :: c.prior == if c == N(s, f) then N(s, Tail(s, f)) else if c == N(s, h) then N(s, e - 1)
      else old(c.prior))
    && (forall c <- s.nodes ::
      c.next == if c == N(s, e - 1) then B(s, h)
        else if c == N(s, Tail(s, f)) then (if same then N(s, f) else B(s, e - 1)) else old(c.next))
    && (forall b <- buckets :: b.prior == if b == B(s, e - 1) && !same then N(s, f) else old(b.prior))
  }

  // What the assignments make of the nodes.
  twostate lemma UncutNodes(s: Layout, new buckets: set<Cell>, new e: int, new same: bool)
    requires old(allocated(buckets))
    requires Boundary(s, e) && e > 0 && old(Upto(s, buckets, Start(s, e))) && old(Ranged(s.nodes[Start(s, e)..e]))
    requires Uncuts(s, buckets, e, same)
    ensures forall j {:trigger NodeUpto(s, e, j)} | 0 <= j < e :: NodeIn(s, e, j) && NodeUpto(s, e, j)
    ensures N(s, Last(s)).prior == N(s, e - 1) && N(s, Last(s)).next == B(s, 0)
  {
    var f, h := Start(s, e), Last(s);
    var xs := s.nodes[f..e];
    Unfold(s, f);
    assert !Same(s, h, e - 1) && !Same(s, h, f) && N(s, h) in s.nodes && Same(s, h, Tail(s, f)) == (f == 0);
    assert f == 0 ==> B(s, e - 1) == B(s, 0);
    forall j | 0 <= j < e ensures NodeIn(s, e, j) && NodeUpto(s, e, j) {
      assert N(s, j) in s.nodes;
      assert Same(s, j, h) == (j == h) && Same(s, j, Tail(s, f)) == (j == Tail(s, f)) && Same(s, j, f) == (j == f)
        && Same(s, j, e - 1) == (j == e - 1);
      if j < e - 1 { NodeIsBack(s, e, j); }
      if j < f {
        assert old(NodeUpto(s, f, j));
      } else {
        PriorIsBack(s, e, j);
        assert j > f ==> old(InnerPrior(xs, j - f));
        assert j < e - 1 ==> old(InnerNext(xs, j - f));
      }
    }
  }

  // The whole chain up to e is back.
  twostate lemma UncutIsUpto(s: Layout, new buckets: set<Cell>, new e: int, new same: bool)
    requires old(allocated(buckets))
    requires Boundary(s, e) && e > 0 && old(Upto(s, buckets, Start(s, e))) && old(Ranged(s.nodes[Start(s, e)..e]))
    requires Uncuts(s, buckets, e, same)
    ensures Upto(s, buckets, e)
  {
    var f, h := Start(s, e), Last(s);
    UncutNodes(s, buckets, e, same);
    forall j | 0 <= j < e ensures NodeIn(s, e, j) && NodeUpto(s, e, j) {
    }
    forall j | 0 <= j < e || j == h ensures HomeIn(s, j) && BucketUpto(s, buckets, j) {
      BucketIsBack(s, e, j);
      assert B(s, j) in s.home;
      if j < f || j == h { assert old(BucketUpto(s, buckets, j)); }
      if j >= f && f > K(s, f).lo { assert old(BucketUpto(s, buckets, f - 1)); }
    }
    forall b | b in buckets ensures SpareUpto(s, e, b) {
      assert old(SpareUpto(s, f, b));
      assert s.home[..e][e - 1] == B(s, e - 1);
      assert b in s.home[..f] ==> b in s.home[..e];
    }
  }

  // The group goes to the end of the chain: into the bucket of the group before it, or into its own, which is empty.
  method PutBack(ghost s: Layout, ghost buckets: set<Cell>, ghost e: int, y: Cell, x: Cell, buc: Cell, same: bool,
      end: Cell)
    requires Boundary(s, e) && e > 0 && Upto(s, buckets, Start(s, e)) && Ranged(s.nodes[Start(s, e)..e])
    requires y == N(s, Start(s, e)) && x == N(s, e - 1) && end == N(s, Last(s)) && buc == B(s, e - 1)
    requires same <==> Start(s, e) != K(s, Start(s, e)).lo
    modifies y`prior, x`next, end`prior, N(s, Tail(s, Start(s, e)))`next, buc`prior
    ensures Upto(s, buckets, e)
  {
    TailPointers(s, buckets, Start(s, e));
    Uncut(s, buckets, e, y, x, buc, same, end);
    UncutIsUpto(s, buckets, e, same);
  }

  // The bucket of a node, as against that of the group that ends at e.
  lemma BucketIsBack(s: Layout, e: int, j: int)
    requires Boundary(s, e) && e > 0 && (0 <= j < e || j == Last(s))
    ensures var f := Start(s, e);
      && (f == K(s, f).lo && j != Last(s) && j >= f ==> Front(s, j) == N(s, f))
      && (f == K(s, f).lo && (j < f || j == Last(s)) ==> B(s, j) != B(s, f))
      && (j >= f && j < e ==> B(s, j) == B(s, f))
      && (f > K(s, f).lo && f <= j < e ==> B(s, f - 1) == B(s, j) && Front(s, f - 1) == Front(s, j))
  {
    var f := Start(s, e);
    HeaderApart(s, f);
    Unfold(s, f);
    Unfold(s, j);
    assert OneHome(s, j, f);
    if f <= j < e { SameGroup(s, f, j); }
    if f > K(s, f).lo { SameBucket(s, f, f - 1); }
  }

  // The whole chain.
  lemma LinkedIsApportioned(s: Layout, buckets: set<Cell>)
    requires Linked(s, buckets) && forall i {:trigger Parted(s, i)} | Inside(s, i) :: Parted(s, i)
    ensures Boundary(s, Last(s))
  {
    forall i, j | Inside(s, i) && Inside(s, j) ensures OneHome(s, i, j) {
      Pointers(s, buckets, i);
      Pointers(s, buckets, j);
      if B(s, i) == B(s, j) { OneFront(s, i, j); }
    }
    HeaderPlace(s);
  }
}
