/** The chain of a hashed unique index: every node is a group of its own, which leaves four places to unlink from. */
module HashUniqueNode {

  import opened HashLayout
  import opened HashIndexNode
  import S = Spans

  ghost predicate Alone(s: Layout, i: int)
    requires Sized(s) && Inside(s, i)
  {
    G(s, i) == S.Span(i, i)
  }

  ghost predicate Singles(s: Layout) {
    Sized(s) && forall i {:trigger Alone(s, i)} | Inside(s, i) :: Alone(s, i)
  }

  lemma BlankIsSingles(e: Cell, b: Cell)
    ensures Singles(Chain.Blank(e, b))
  {
    assert Alone(Chain.Blank(e, b), 0);
  }

  lemma DroppedIsSingles(s: Layout, i: int)
    requires Singles(s) && 0 <= i < Last(s)
    ensures Singles(Dropped(s, i))
  {
    forall j | Inside(Dropped(s, i), j) ensures Alone(Dropped(s, i), j) {
      DroppedAt(s, i, j);
      assert Alone(s, S.Up(j, i, 1));
    }
  }

  lemma OpenedIsSingles(s: Layout, x: Cell, i: int, inBucket: bool, b: Cell)
    requires Singles(s) && Inside(s, i)
    ensures Singles(Opened(s, [x], i, false, inBucket, b))
  {
    var t := Opened(s, [x], i, false, inBucket, b);
    forall j | Inside(t, j) ensures Alone(t, j) {
      OpenedAt(s, [x], i, false, inBucket, b, j);
      if j != i { assert Alone(s, S.Before(j, i, 1)); }
    }
  }

  /* Reading the chain */

  predicate IsFirstOfBucket(c: Chain, x: Cell, ghost i: int)
    requires c.Valid() && Singles(c.s) && c.Inner(x, i)
    reads c, c.s.nodes`prior, c.s.nodes`next, c.buckets`prior
    ensures IsFirstOfBucket(c, x, i) <==> i == K(c.s, i).lo
  {
    BackTest(c.s, c.buckets, i);
    Unfold(c.s, i);
    assert Alone(c.s, i);
    x.prior.next != x
  }

  predicate IsLastOfBucket(c: Chain, x: Cell, ghost i: int)
    requires c.Valid() && Singles(c.s) && c.Inner(x, i)
    reads c, c.s.nodes`prior, c.s.nodes`next, c.buckets`prior
    ensures IsLastOfBucket(c, x, i) <==> i == K(c.s, i).hi
  {
    ForthTest(c.s, c.buckets, i);
    Unfold(c.s, i);
    assert Alone(c.s, i);
    x.next.prior != x
  }

  // The node after x in the chain.
  function After(c: Chain, x: Cell, ghost i: int): (r: Cell)
    requires c.Valid() && Singles(c.s) && c.Inner(x, i)
    reads c, c.s.nodes`prior, c.s.nodes`next, c.buckets`prior
    ensures r == N(c.s, i + 1)
  {
    AfterTest(c.s, c.buckets, i);
    assert Alone(c.s, i);
    if IsLastOfBucket(c, x, i) then x.next.prior else x.next
  }

  // The node after x in its bucket.
  function AfterLocal(c: Chain, x: Cell, ghost i: int): (r: Cell?)
    requires c.Valid() && Singles(c.s) && c.Inner(x, i)
    reads c, c.s.nodes`prior, c.s.nodes`next, c.buckets`prior
    ensures r == if i < K(c.s, i).hi then N(c.s, i + 1) else null
  {
    AfterTest(c.s, c.buckets, i);
    assert Alone(c.s, i);
    if IsLastOfBucket(c, x, i) then null else x.next
  }

  /* Unlinking, and undoing it */

  // The four places of x in its bucket.
  method UnlinkNode(c: Chain, x: Cell, ghost i: int) returns (undo: Undo)
    requires c.Valid() && Singles(c.s) && c.Inner(x, i)
    modifies c.s.nodes`prior, c.s.nodes`next, c.buckets`prior
    ensures c.Carried(Assignments(c.s, i)) && c.FrontMoved(i) && undo == Tracks(c.s, i)
  {
    Unfold(c.s, i);
    assert Alone(c.s, i);
    if IsFirstOfBucket(c, x, i) {
      if IsLastOfBucket(c, x, i) {
        undo := c.UnlinkOnly(x, i);
      } else {
        undo := c.UnlinkFirstOfBucket(x, i);
      }
    } else if IsLastOfBucket(c, x, i) {
      undo := c.UnlinkLastOfBucket(x, i);
    } else {
      undo := c.UnlinkPlain(x, i);
    }
  }

  method UnlinkPointers(c: Chain, x: Cell, ghost i: int) returns (undo: Undo)
    requires c.Valid() && Singles(c.s) && c.Inner(x, i)
    modifies c.s.nodes`prior, c.s.nodes`next, c.buckets`prior
    ensures undo == Tracks(c.s, i) && NodesUnlinked(c.s, i) && BucketsUnlinked(c.s, i, c.buckets)
    ensures x.prior == PriorNode(c.s, i) && x.next == NextCell(c.s, i)
  {
    Pointers(c.s, c.buckets, i);
    undo := UnlinkNode(c, x, i);
    c.CarriedIsUnlinked(x, i);
    c.MovedIsUnlinked(x, i);
    c.OwnKept(x, i);
  }

  // Takes x out of the chain, and nothing else; its own pointers stay.
  method Unlink(c: Chain, x: Cell, ghost i: int) returns (undo: Undo)
    requires c.Valid() && Singles(c.s) && c.Inner(x, i)
    modifies c`s, c.s.nodes`prior, c.s.nodes`next, c.buckets`prior
    ensures c.Valid() && Singles(c.s) && c.s == Dropped(old(c.s), i)
    ensures undo == Tracks(old(c.s), i) && c.Out(old(c.s), i)
  {
    DroppedIsSingles(c.s, i);
    undo := UnlinkFromChain(c, x, i);
  }

  method UnlinkFromChain(c: Chain, x: Cell, ghost i: int) returns (undo: Undo)
    requires c.Valid() && Singles(c.s) && c.Inner(x, i)
    modifies c`s, c.s.nodes`prior, c.s.nodes`next, c.buckets`prior
    ensures c.s == Dropped(old(c.s), i) && undo == Tracks(old(c.s), i) && c.Out(old(c.s), i)
  {
    ghost var s0 := c.s;
    Pointers(s0, c.buckets, i);
    c.OneHome(i);
    OthersStay(s0, i);
    undo := UnlinkPointers(c, x, i);
    UnlinkedIsLinked(s0, i, c.buckets);
    c.s := Dropped(s0, i);
  }

  // Unlinking and undoing it is the identity on every pointer.
  method UnlinkAndRestore(c: Chain, x: Cell, ghost i: int)
    requires c.Valid() && Singles(c.s) && c.Inner(x, i)
    modifies c`s, c.s.nodes`prior, c.s.nodes`next, c.buckets`prior
    ensures c.Valid() && c.s == old(c.s)
    ensures forall n <- c.s.nodes | n in old(c.s.nodes) :: n.prior == old(n.prior) && n.next == old(n.next)
    ensures forall b <- c.buckets | b in old(c.buckets) :: b.prior == old(b.prior)
  {
    ghost var s0 := c.s;
    var undo := Unlink(c, x, i);
    c.Restore(undo, s0, i);
    c.LayoutDetermines(s0);
  }

  // x goes to the front of bucket buc, which is not the header's.
  method Link(c: Chain, x: Cell, buc: Cell) returns (ghost i: int)
    requires c.Valid() && Singles(c.s) && buc in c.buckets && x !in c.s.nodes && x !in c.buckets
    requires B(c.s, Last(c.s)) != buc
    modifies c`s, x`prior, x`next, c.s.nodes`prior, c.s.nodes`next, buc`prior
    ensures c.Valid() && Singles(c.s) && Inside(old(c.s), i)
    ensures buc in old(c.s).home ==> i < Last(old(c.s)) && i == K(old(c.s), i).lo && B(old(c.s), i) == buc
    ensures buc !in old(c.s).home ==> i == Last(old(c.s))
    ensures c.s == Opened(old(c.s), [x], i, false, buc in old(c.s).home, buc)
  {
    ghost var s0 := c.s;
    i := c.Link(x, buc);
    OpenedIsSingles(s0, x, i, buc in s0.home, buc);
  }
}
