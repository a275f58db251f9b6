/** Rehashing a hashed non-unique index: its groups pass one by one, from the last on, to the front of their new
    buckets; when the hash throws, they come back in the opposite order. */
module HashRehash {

  import opened HashLayout
  import opened HashIndexNode
  import opened HashRanges
  import opened HashPrefix
  import S = Spans

  /* Where the nodes come to stand */

  // Node j of s stands at p in t, in bucket b, and its group around it.
  ghost predicate Stands(s: Layout, t: Layout, j: int, p: int, b: Cell)
    requires Shaped(s) && Shaped(t) && Inside(s, j)
  {
    && 0 <= p < Last(t) && N(t, p) == N(s, j) && B(t, p) == b
    && G(t, p) == S.Span(p - (j - G(s, j).lo), p + (G(s, j).hi - j))
  }

  // Neighbours with the same new bucket stay neighbours.
  ghost predicate Adjoins(homes: seq<Cell>, pos: seq<int>, j: int)
    requires 0 <= j && j + 1 < |pos| == |homes|
  {
    homes[j] == homes[j + 1] ==> pos[j + 1] == pos[j] + 1
  }

  ghost predicate InFront(t: Layout, p: int)
    requires Shaped(t)
  {
    0 <= p < Last(t) && K(t, p).lo == p
  }

  // The nodes of s from e on have come to t, node j to pos[j] in bucket homes[j], and node e to the front of its
  // bucket.
  ghost predicate Arrived(s: Layout, t: Layout, homes: seq<Cell>, pos: seq<int>, e: int) {
    && Shaped(s) && Shaped(t) && 0 <= e <= Last(s) == |pos| == |homes| && Last(t) == Last(s) - e
    && (forall j {:trigger pos[j]} | e <= j < |pos| :: Stands(s, t, j, pos[j], homes[j]))
    && (forall j {:trigger Adjoins(homes, pos, j)} | e <= j < |pos| - 1 :: Adjoins(homes, pos, j))
    && (e < |pos| ==> InFront(t, pos[e]))
    && multiset(t.nodes[..Last(t)]) == multiset(s.nodes[e..Last(s)])
  }

  function NewPos(pos: seq<int>, f: int, e: int, i: int): (r: seq<int>)
    requires 0 <= f < e <= |pos|
    ensures |r| == |pos|
  {
    seq(|pos|, j requires 0 <= j < |pos| => if f <= j < e then i + (j - f) else S.Up(pos[j], i, e - f))
  }

  // t with the group of s from f to e put in front of bucket b.
  ghost predicate Steps(s: Layout, t: Layout, f: int, e: int, i: int, b: Cell, u: Layout) {
    && Boundary(s, e) && e > 0 && f == Start(s, e)
    && Before(t, s.nodes[f..e], i, b, u) && Shaped(u)
  }

  lemma NewStands(s: Layout, t: Layout, f: int, e: int, i: int, b: Cell, u: Layout, j: int)
    requires Steps(s, t, f, e, i, b, u) && f <= j < e
    ensures Stands(s, u, j, i + (j - f), b)
  {
    OpenedAt(t, s.nodes[f..e], i, false, i < Last(t), b, i + (j - f));
    SameGroup(s, f, j);
  }

  lemma OldStands(s: Layout, t: Layout, f: int, e: int, i: int, b: Cell, u: Layout, j: int, p: int, c: Cell)
    requires Steps(s, t, f, e, i, b, u) && Inside(s, j) && Stands(s, t, j, p, c)
    ensures Stands(s, u, j, S.Up(p, i, e - f), c)
  {
    OldAt(t, s.nodes[f..e], i, false, i < Last(t), b, p);
    Unfold(t, i);
    Unfold(t, p);
    Apart(t, i, p);
  }

  ghost predicate HomesApart(t: Layout) {
    Sized(t) && forall i, j {:trigger OneHome(t, i, j)} | Inside(t, i) && Inside(t, j) :: OneHome(t, i, j)
  }

  lemma LinkedIsApart(t: Layout, buckets: set<Cell>)
    requires Linked(t, buckets)
    ensures HomesApart(t)
  {
    forall i, j | Inside(t, i) && Inside(t, j) ensures OneHome(t, i, j) {
      Pointers(t, buckets, i);
      Pointers(t, buckets, j);
      if B(t, i) == B(t, j) { OneFront(t, i, j); }
    }
  }

  // A group does not go between neighbours in the same bucket.
  lemma NotBetween(t: Layout, p: int, i: int)
    requires Shaped(t) && HomesApart(t) && 0 <= p < Last(t) - 1 && B(t, p) == B(t, p + 1) && Inside(t, i)
      && i == K(t, i).lo
    ensures p + 1 != i
  {
    assert OneHome(t, p, p + 1);
    Unfold(t, p);
  }

  // The group goes before the one that came last, when both have the same bucket.
  lemma BeforeLatest(s: Layout, t: Layout, f: int, e: int, i: int, b: Cell, u: Layout, p: int)
    requires Steps(s, t, f, e, i, b, u) && HomesApart(t) && HomesApart(u) && InFront(t, p) && B(t, p) == b
    ensures p == i
  {
    OldAt(t, s.nodes[f..e], i, false, i < Last(t), b, p);
    OpenedAt(t, s.nodes[f..e], i, false, i < Last(t), b, i);
    Unfold(t, i);
    Unfold(t, p);
    assert OneHome(t, i, p) && OneHome(u, i, S.Up(p, i, e - f));
  }

  lemma BagOfOpened(s: Layout, t: Layout, f: int, e: int, i: int, b: Cell, u: Layout)
    requires Steps(s, t, f, e, i, b, u) && multiset(t.nodes[..Last(t)]) == multiset(s.nodes[e..Last(s)])
    ensures multiset(u.nodes[..Last(u)]) == multiset(s.nodes[f..Last(s)])
  {
    var xs := s.nodes[f..e];
    assert u.nodes[..Last(u)] == t.nodes[..i] + xs + t.nodes[i..Last(t)];
    assert t.nodes[..Last(t)] == t.nodes[..i] + t.nodes[i..Last(t)];
    assert s.nodes[f..Last(s)] == xs + s.nodes[e..Last(s)];
  }

  lemma StillNeighbours(s: Layout, t: Layout, homes: seq<Cell>, pos: seq<int>, e: int, i: int, w: int, j: int)
    requires Arrived(s, t, homes, pos, e) && HomesApart(t) && Inside(t, i) && i == K(t, i).lo
    requires e <= j < |pos| - 1 && homes[j] == homes[j + 1]
    ensures S.Up(pos[j + 1], i, w) == S.Up(pos[j], i, w) + 1
  {
    var p, q := pos[j], pos[j + 1];
    assert Adjoins(homes, pos, j);
    NotBetween(t, p, i);
  }

  lemma NewPosAdjoins(homes: seq<Cell>, pos: seq<int>, f: int, e: int, i: int, j: int)
    requires 0 <= f < e <= |pos| == |homes| && f <= j < |pos| - 1
    requires homes[j] == homes[j + 1] ==>
      (j == e - 1 ==> pos[e] == i) && (j >= e ==> S.Up(pos[j + 1], i, e - f) == S.Up(pos[j], i, e - f) + 1)
    ensures Adjoins(homes, NewPos(pos, f, e, i), j)
  {
  }

  lemma AdjoinsStill(s: Layout, t: Layout, homes: seq<Cell>, pos: seq<int>, f: int, e: int, i: int, b: Cell, u: Layout,
      j: int)
    requires Steps(s, t, f, e, i, b, u) && Arrived(s, t, homes, pos, e) && HomesApart(t) && HomesApart(u)
    requires f <= j < |pos| - 1 && (j < e ==> homes[j] == b)
    ensures Adjoins(homes, NewPos(pos, f, e, i), j)
  {
    if homes[j] == homes[j + 1] && j == e - 1 {
      var p := pos[e];
      BeforeLatest(s, t, f, e, i, b, u, p);
    } else if homes[j] == homes[j + 1] && j >= e {
      Unfold(t, i);
      StillNeighbours(s, t, homes, pos, e, i, e - f, j);
    }
    NewPosAdjoins(homes, pos, f, e, i, j);
  }

  lemma ArrivedByOne(s: Layout, t: Layout, homes: seq<Cell>, pos: seq<int>, f: int, e: int, i: int, b: Cell, u: Layout)
    requires Steps(s, t, f, e, i, b, u) && Arrived(s, t, homes, pos, e) && HomesApart(t) && HomesApart(u)
    requires forall j {:trigger homes[j]} | f <= j < e :: homes[j] == b
    ensures Arrived(s, u, homes, NewPos(pos, f, e, i), f)
  {
    AllStand(s, t, homes, pos, f, e, i, b, u);
    AllAdjoin(s, t, homes, pos, f, e, i, b, u);
    FirstIsFront(t, s.nodes[f..e], i, b);
    BagOfOpened(s, t, f, e, i, b, u);
  }

  lemma AllStand(s: Layout, t: Layout, homes: seq<Cell>, pos: seq<int>, f: int, e: int, i: int, b: Cell, u: Layout)
    requires Steps(s, t, f, e, i, b, u) && Arrived(s, t, homes, pos, e)
    requires forall j {:trigger homes[j]} | f <= j < e :: homes[j] == b
    ensures var now := NewPos(pos, f, e, i);
      forall j {:trigger now[j]} | f <= j < |now| :: Stands(s, u, j, now[j], homes[j])
  {
    var now := NewPos(pos, f, e, i);
    forall j {:trigger now[j]} | f <= j < |now| ensures Stands(s, u, j, now[j], homes[j]) {
      StandsNow(s, t, homes, pos, f, e, i, b, u, j);
    }
  }

  lemma StandsNow(s: Layout, t: Layout, homes: seq<Cell>, pos: seq<int>, f: int, e: int, i: int, b: Cell, u: Layout,
      j: int)
    requires Steps(s, t, f, e, i, b, u) && Arrived(s, t, homes, pos, e) && f <= j < |pos| && (j < e ==> homes[j] == b)
    ensures Stands(s, u, j, NewPos(pos, f, e, i)[j], homes[j])
  {
    if j < e {
      NewStands(s, t, f, e, i, b, u, j);
    } else {
      OldStands(s, t, f, e, i, b, u, j, pos[j], homes[j]);
    }
  }

  lemma AllAdjoin(s: Layout, t: Layout, homes: seq<Cell>, pos: seq<int>, f: int, e: int, i: int, b: Cell, u: Layout)
    requires Steps(s, t, f, e, i, b, u) && Arrived(s, t, homes, pos, e) && HomesApart(t) && HomesApart(u)
    requires forall j {:trigger homes[j]} | f <= j < e :: homes[j] == b
    ensures forall j {:trigger Adjoins(homes, NewPos(pos, f, e, i), j)} | f <= j < |pos| - 1 ::
      Adjoins(homes, NewPos(pos, f, e, i), j)
  {
    forall j | f <= j < |pos| - 1 ensures Adjoins(homes, NewPos(pos, f, e, i), j) {
      AdjoinsStill(s, t, homes, pos, f, e, i, b, u, j);
    }
  }

  lemma FirstIsFront(t: Layout, xs: seq<Cell>, i: int, b: Cell)
    requires Shaped(t) && |xs| > 0 && HashLayout.Place(t, |xs|, i, false, i < Last(t), b)
      && Shaped(Opened(t, xs, i, false, i < Last(t), b))
    ensures InFront(Opened(t, xs, i, false, i < Last(t), b), i)
  {
    OpenedAt(t, xs, i, false, i < Last(t), b, i);
    Unfold(t, i);
  }

  /* One group passes, or comes back */

  // The two chains have nothing in common; the old one has its nodes before e.
  ghost predicate Separate(s: Layout, olds: set<Cell>, t: Layout, news: set<Cell>, e: int) {
    && Sized(s) && 0 <= e < |s.nodes|
    && (forall j {:trigger N(s, j)} | 0 <= j < e || j == Last(s) :: N(s, j) !in t.nodes)
    && (forall k {:trigger t.nodes[k]} | 0 <= k < |t.nodes| :: t.nodes[k] !in olds)
    && (forall c {:trigger c in news} | c in news :: c !in olds && c !in s.nodes)
  }

  // The last group is taken out of the old chain; the new one does not notice.
  method TakeOut(ghost s: Layout, ghost olds: set<Cell>, ghost e: int, ghost cpy: Chain, end: Cell)
      returns (y: Cell, emptied: bool)
    requires Boundary(s, e) && e > 0 && Upto(s, olds, e) && end == N(s, Last(s))
    requires cpy.Valid() && Separate(s, olds, cpy.s, cpy.buckets, e)
    modifies end`prior, N(s, Tail(s, Start(s, e)))`next, B(s, e - 1)`prior
    ensures var f := Start(s, e); Upto(s, olds, f) && y == N(s, f) && (emptied <==> f == K(s, f).lo)
    ensures Ranged(s.nodes[Start(s, e)..e])
    ensures cpy.Valid()
  {
    ghost var f := Start(s, e);
    assert BucketUpto(s, olds, e - 1);
    assert N(s, Tail(s, f)) in s.nodes && N(s, Last(s)) in s.nodes;
    y, emptied := UnlinkLastGroup(s, olds, e, end);
    forall j | Inside(cpy.s, j) ensures PriorOk(cpy.s, j) && NextOk(cpy.s, j) && HomeOk(cpy.s, cpy.buckets, j) {
      assert N(cpy.s, j) in cpy.s.nodes;
      assert old(PriorOk(cpy.s, j)) && old(NextOk(cpy.s, j)) && old(HomeOk(cpy.s, cpy.buckets, j));
    }
    forall b | b in cpy.buckets ensures Spare(cpy.s, b) {
      assert old(Spare(cpy.s, b));
    }
  }

  // The range is linked to its new bucket; the old chain does not notice.
  method PutIn(ghost s: Layout, ghost olds: set<Cell>, ghost e: int, cpy: Chain, y: Cell, x: Cell, buc: Cell)
      returns (ghost i: int)
    requires Boundary(s, e) && e > 0 && Upto(s, olds, Start(s, e)) && y == N(s, Start(s, e)) && x == N(s, e - 1)
    requires cpy.Valid() && Separate(s, olds, cpy.s, cpy.buckets, e)
    requires Ranged(s.nodes[Start(s, e)..e]) && NewRange(cpy, s.nodes[Start(s, e)..e])
    requires buc in cpy.buckets && B(cpy.s, Last(cpy.s)) != buc
    modifies y`prior, x`next, cpy`s, cpy.s.nodes`prior, cpy.s.nodes`next, buc`prior
    ensures Upto(s, olds, Start(s, e)) && cpy.Valid()
    ensures Before(old(cpy.s), s.nodes[Start(s, e)..e], i, buc, cpy.s)
  {
    ghost var f, h := Start(s, e), Last(s);
    assert N(s, h) in s.nodes && y in s.nodes && x in s.nodes;
    i := LinkRange(cpy, s.nodes[f..e], y, x, buc);
    forall j | 0 <= j < f ensures NodeIn(s, f, j) && NodeUpto(s, f, j) {
      assert old(NodeUpto(s, f, j)) && !Same(s, j, f) && !Same(s, j, e - 1) && N(s, j) in s.nodes && NodeIn(s, f, j);
    }
    forall j | 0 <= j < f || j == h ensures HomeIn(s, j) && BucketUpto(s, olds, j) {
      assert old(BucketUpto(s, olds, j));
    }
    forall b | b in olds ensures SpareUpto(s, f, b) {
      assert old(SpareUpto(s, f, b));
    }
    assert !Same(s, h, f) && !Same(s, h, e - 1);
  }

  lemma RangeIsNew(s: Layout, olds: set<Cell>, cpy: Chain, e: int)
    requires Boundary(s, e) && e > 0 && cpy.Valid() && Separate(s, olds, cpy.s, cpy.buckets, e)
    ensures NewRange(cpy, s.nodes[Start(s, e)..e])
  {
    var f := Start(s, e);
    var xs := s.nodes[f..e];
    forall m, n | 0 <= m < n < |xs| ensures xs[m] != xs[n] {
      assert !Same(s, f + m, f + n);
    }
    forall m | 0 <= m < |xs| ensures xs[m] !in cpy.s.nodes {
      var x := N(s, f + m);
    }
    forall c | c in xs ensures c !in cpy.buckets {
      assert c in s.nodes;
    }
  }

  lemma SeparateStill(s: Layout, olds: set<Cell>, t: Layout, news: set<Cell>, e: int, i: int, b: Cell, u: Layout)
    requires Boundary(s, e) && e > 0 && Separate(s, olds, t, news, e) && Before(t, s.nodes[Start(s, e)..e], i, b, u)
    requires forall c {:trigger c in s.nodes} | c in s.nodes :: c !in olds
    ensures Separate(s, olds, u, news, Start(s, e))
  {
    var f := Start(s, e);
    var xs := s.nodes[f..e];
    forall k | 0 <= k < |u.nodes|
      ensures u.nodes[k] !in olds && forall j {:trigger N(s, j)} | 0 <= j < f || j == Last(s) :: N(s, j) != u.nodes[k]
    {
      OpenedAt(t, xs, i, false, i < Last(t), b, k);
      if i <= k < i + |xs| {
        var m := f + (k - i);
        assert u.nodes[k] == N(s, m) && N(s, m) in s.nodes;
        forall j {:trigger N(s, j)} | 0 <= j < f || j == Last(s) ensures N(s, j) != u.nodes[k] {
          assert !Same(s, j, m);
        }
      } else {
        assert u.nodes[k] == t.nodes[S.Before(k, i, |xs|)];
      }
    }
  }

  // One turn of the loop: the last group of the old chain passes to its bucket in the new one.
  method Pass(ghost s: Layout, ghost olds: set<Cell>, ghost e: int, cpy: Chain, end: Cell, x: Cell, buc: Cell)
      returns (emptied: bool, ghost i: int)
    requires Boundary(s, e) && e > 0 && Upto(s, olds, e) && end == N(s, Last(s)) && x == N(s, e - 1)
    requires cpy.Valid() && Separate(s, olds, cpy.s, cpy.buckets, e)
    requires buc in cpy.buckets && B(cpy.s, Last(cpy.s)) != buc
    modifies end`prior, N(s, Tail(s, Start(s, e)))`next, B(s, e - 1)`prior
    modifies N(s, Start(s, e))`prior, x`next, cpy`s, cpy.s.nodes`prior, cpy.s.nodes`next, buc`prior
    ensures Upto(s, olds, Start(s, e)) && cpy.Valid() && (emptied <==> Start(s, e) == K(s, Start(s, e)).lo)
    ensures Before(old(cpy.s), s.nodes[Start(s, e)..e], i, buc, cpy.s)
    ensures Separate(s, olds, cpy.s, cpy.buckets, Start(s, e))
  {
    ghost var t := cpy.s;
    var y;
    y, emptied := TakeOut(s, olds, e, cpy, end);
    RangeIsNew(s, olds, cpy, e);
    i := PutIn(s, olds, e, cpy, y, x, buc);
    SeparateStill(s, olds, t, cpy.buckets, e, i, buc, cpy.s);
  }

  // The range is taken out of the new chain; the old one, and the range, do not notice.
  method TakeBack(ghost s: Layout, ghost olds: set<Cell>, ghost e: int, cpy: Chain, ghost t: Layout, ghost i: int,
      ghost b: Cell, y: Cell, x: Cell)
    requires Boundary(s, e) && e > 0 && Upto(s, olds, Start(s, e)) && y == N(s, Start(s, e)) && x == N(s, e - 1)
    requires cpy.Valid() && Separate(s, olds, t, cpy.buckets, e) && Before(t, s.nodes[Start(s, e)..e], i, b, cpy.s)
    requires N(t, Last(t)) == cpy.end && b in cpy.buckets
    modifies cpy`s, t.nodes`prior, t.nodes`next, b`prior
    ensures Upto(s, olds, Start(s, e)) && cpy.Valid() && cpy.s == t && Ranged(s.nodes[Start(s, e)..e])
  {
    ghost var f, h := Start(s, e), Last(s);
    ghost var xs := s.nodes[f..e];
    assert N(s, h) in s.nodes;
    RangeIsRanged(cpy, t, xs, i, b);
    UnlinkRange(cpy, t, xs, i, b, y, x);
    forall j | 0 <= j < f ensures NodeIn(s, f, j) && NodeUpto(s, f, j) {
      assert old(NodeUpto(s, f, j)) && N(s, j) in s.nodes && NodeIn(s, f, j);
    }
    forall j | 0 <= j < f || j == h ensures HomeIn(s, j) && BucketUpto(s, olds, j) {
      assert old(BucketUpto(s, olds, j));
    }
    forall c | c in olds ensures SpareUpto(s, f, c) {
      assert old(SpareUpto(s, f, c));
    }
    forall m | 0 < m < |xs| ensures InnerPrior(xs, m) {
      assert old(InnerPrior(xs, m)) && N(s, f + m) in s.nodes;
    }
    forall m | 0 <= m < |xs| - 1 ensures InnerNext(xs, m) {
      assert old(InnerNext(xs, m)) && N(s, f + m) in s.nodes;
    }
  }

  // The range comes to the end of the old chain; the new one does not notice.
  method Return(ghost s: Layout, ghost olds: set<Cell>, ghost e: int, ghost cpy: Chain, y: Cell, x: Cell, buc: Cell,
      same: bool, end: Cell)
    requires Boundary(s, e) && e > 0 && Upto(s, olds, Start(s, e)) && Ranged(s.nodes[Start(s, e)..e])
    requires y == N(s, Start(s, e)) && x == N(s, e - 1) && end == N(s, Last(s)) && buc == B(s, e - 1)
    requires same <==> Start(s, e) != K(s, Start(s, e)).lo
    requires cpy.Valid() && Separate(s, olds, cpy.s, cpy.buckets, e)
    modifies y`prior, x`next, end`prior, N(s, Tail(s, Start(s, e)))`next, buc`prior
    ensures Upto(s, olds, e) && cpy.Valid()
  {
    ghost var f := Start(s, e);
    TailPointers(s, olds, f);
    assert N(s, e - 1) in s.nodes;
    PutBack(s, olds, e, y, x, buc, same, end);
    forall j | Inside(cpy.s, j) ensures PriorOk(cpy.s, j) && NextOk(cpy.s, j) && HomeOk(cpy.s, cpy.buckets, j) {
      assert N(cpy.s, j) in cpy.s.nodes;
      assert old(PriorOk(cpy.s, j)) && old(NextOk(cpy.s, j)) && old(HomeOk(cpy.s, cpy.buckets, j));
    }
    forall c | c in cpy.buckets ensures Spare(cpy.s, c) {
      assert old(Spare(cpy.s, c));
    }
  }

  /* The log of the groups that have passed */

  // The group of s before e went into the layout t at i, in front of bucket b.
  datatype Passed = Passed(t: Layout, e: int, i: int, b: Cell)

  // The layout after the k-th step; u is the one now.
  ghost function After(log: seq<Passed>, u: Layout, k: int): Layout
    requires 0 <= k < |log|
  {
    if k + 1 < |log| then log[k + 1].t else u
  }

  // Where the groups that have passed before the k-th step start.
  ghost function Reached(s: Layout, log: seq<Passed>, e: int, k: int): int
    requires 0 <= k <= |log|
  {
    if k < |log| then log[k].e else e
  }

  // The new chain's nodes are those of the old one, and its header.
  ghost predicate Drawn(s: Layout, t: Layout, cend: Cell) {
    forall k {:trigger t.nodes[k]} | 0 <= k < |t.nodes| :: t.nodes[k] in s.nodes || t.nodes[k] == cend
  }

  lemma DrawnStill(s: Layout, t: Layout, cend: Cell, e: int, i: int, b: Cell, u: Layout)
    requires Boundary(s, e) && e > 0 && Before(t, s.nodes[Start(s, e)..e], i, b, u) && Drawn(s, t, cend)
    ensures Drawn(s, u, cend)
  {
    var xs := s.nodes[Start(s, e)..e];
    forall k | 0 <= k < |u.nodes| ensures u.nodes[k] in s.nodes || u.nodes[k] == cend {
      OpenedAt(t, xs, i, false, i < Last(t), b, k);
      assert u.nodes[k] == if i <= k < i + |xs| then s.nodes[Start(s, e) + k - i] else t.nodes[S.Before(k, i, |xs|)];
    }
  }

  ghost predicate StepOk(s: Layout, olds: set<Cell>, news: set<Cell>, cend: Cell, log: seq<Passed>, u: Layout, e: int,
      k: int)
    requires 0 <= k < |log|
  {
    var p := log[k];
    && Boundary(s, p.e) && p.e > 0 && Reached(s, log, e, k + 1) == Start(s, p.e)
    && Before(p.t, s.nodes[Start(s, p.e)..p.e], p.i, p.b, After(log, u, k))
    && Separate(s, olds, p.t, news, p.e) && Drawn(s, p.t, cend) && N(p.t, Last(p.t)) == cend && p.b in news
  }

  ghost predicate Logged(s: Layout, olds: set<Cell>, news: set<Cell>, cend: Cell, log: seq<Passed>, u: Layout, e: int) {
    && Boundary(s, e) && (|log| == 0 ==> e == Last(s)) && (|log| > 0 ==> log[0].e == Last(s))
    && Separate(s, olds, u, news, e) && Drawn(s, u, cend)
    && (forall k {:trigger StepOk(s, olds, news, cend, log, u, e, k)} | 0 <= k < |log| ::
      StepOk(s, olds, news, cend, log, u, e, k))
  }

  lemma LoggedOneMore(s: Layout, olds: set<Cell>, news: set<Cell>, cend: Cell, log: seq<Passed>, t: Layout, e: int,
      i: int, b: Cell, u: Layout)
    requires Logged(s, olds, news, cend, log, t, e) && e > 0 && Before(t, s.nodes[Start(s, e)..e], i, b, u)
    requires Separate(s, olds, u, news, Start(s, e)) && N(t, Last(t)) == cend && b in news
    ensures Logged(s, olds, news, cend, log + [Passed(t, e, i, b)], u, Start(s, e))
  {
    var now, f := log + [Passed(t, e, i, b)], Start(s, e);
    DrawnStill(s, t, cend, e, i, b, u);
    forall k | 0 <= k < |now| ensures StepOk(s, olds, news, cend, now, u, f, k) {
      assert k < |log| ==> StepOk(s, olds, news, cend, log, t, e, k);
    }
  }

  lemma LoggedOneLess(s: Layout, olds: set<Cell>, news: set<Cell>, cend: Cell, log: seq<Passed>, u: Layout, e: int)
    requires Logged(s, olds, news, cend, log, u, e) && |log| > 0
    ensures var p := log[|log| - 1];
      && StepOk(s, olds, news, cend, log, u, e, |log| - 1) && Start(s, p.e) == e
      && Logged(s, olds, news, cend, log[..|log| - 1], p.t, p.e)
  {
    var was, p := log[..|log| - 1], log[|log| - 1];
    assert StepOk(s, olds, news, cend, log, u, e, |log| - 1);
    forall k | 0 <= k < |was| ensures StepOk(s, olds, news, cend, was, p.t, p.e, k) {
      assert StepOk(s, olds, news, cend, log, u, e, k);
    }
  }

  /* Buckets by number */

  type Hash = int -> nat

  function Position(hash: nat, bs: seq<Cell>): (p: nat)
    requires |bs| > 1
    ensures p < |bs| - 1 && Divides(|bs| - 1, hash, hash / (|bs| - 1), p)
  {
    hash % (|bs| - 1)
  }

  ghost predicate OtherBuckets(bs: seq<Cell>, m: int, n: int)
    requires 0 <= m < |bs| && 0 <= n < |bs|
  {
    m != n ==> bs[m] != bs[n]
  }

  // An array of different buckets.
  ghost predicate Buckets(bs: seq<Cell>) {
    |bs| > 1 && forall m, n {:trigger OtherBuckets(bs, m, n)} | 0 <= m < |bs| && 0 <= n < |bs| :: OtherBuckets(bs, m, n)
  }

  // Node j, of hash hs[j], is in its bucket.
  ghost predicate Homed(s: Layout, bs: seq<Cell>, hs: seq<nat>, j: int)
    requires Sized(s) && 0 <= j < Last(s) == |hs| && |bs| > 1
  {
    B(s, j) == bs[Position(hs[j], bs)]
  }

  ghost predicate Bucketed(s: Layout, bs: seq<Cell>, hs: seq<nat>) {
    && Sized(s) && Last(s) == |hs| && Buckets(bs) && B(s, Last(s)) == bs[|bs| - 1]
    && forall j {:trigger Homed(s, bs, hs, j)} | 0 <= j < Last(s) :: Homed(s, bs, hs, j)
  }

  // The bucket of the group before f goes on with the group at f just when the positions are the same.
  lemma SameBucketNumber(s: Layout, bs: seq<Cell>, hs: seq<nat>, f: int, g: int)
    requires Boundary(s, f) && Bucketed(s, bs, hs) && 0 < f < Last(s) && 0 <= g < f && G(s, g).hi == f - 1
    ensures Position(hs[g], bs) == Position(hs[f], bs) <==> f != K(s, f).lo
  {
    assert Homed(s, bs, hs, g) && Homed(s, bs, hs, f) && OneHome(s, g, f);
    assert OtherBuckets(bs, Position(hs[g], bs), Position(hs[f], bs));
    Unfold(s, g);
    Unfold(s, f);
    SameGroup(s, g, f - 1);
    Unfold(s, f - 1);
    if f != K(s, f).lo { SameBucket(s, f, f - 1); }
  }

  /* The rollback */

  ghost predicate Recorded(s: Layout, hs: seq<nat>, log: seq<Passed>, hashes: seq<nat>, ptrs: seq<Cell>, k: int)
    requires 0 <= k < |log| == |hashes| == |ptrs| && Sized(s) && Last(s) == |hs|
  {
    0 < log[k].e <= Last(s) && ptrs[k] == N(s, log[k].e - 1) && hashes[k] == hs[log[k].e - 1]
  }

  ghost predicate GroupHash(s: Layout, hs: seq<nat>, j: int)
    requires Sized(s) && 0 <= j < |hs| == Last(s)
  {
    j <= G(s, j).hi < |hs| && hs[j] == hs[G(s, j).hi]
  }

  // The nodes of a group have the same hash.
  ghost predicate Hashed(s: Layout, hs: seq<nat>) {
    && Sized(s) && |hs| == Last(s)
    && forall j {:trigger GroupHash(s, hs, j)} | 0 <= j < |hs| :: GroupHash(s, hs, j)
  }

  // One turn of the rollback: the group up to e comes back.
  method ComeBack(ghost s: Layout, ghost olds: set<Cell>, ghost p: Passed, cpy: Chain, x: Cell, buc: Cell, same: bool,
      end: Cell)
    requires Boundary(s, p.e) && p.e > 0 && Upto(s, olds, Start(s, p.e)) && cpy.Valid() && end == N(s, Last(s))
    requires Before(p.t, s.nodes[Start(s, p.e)..p.e], p.i, p.b, cpy.s) && Separate(s, olds, p.t, cpy.buckets, p.e)
    requires N(p.t, Last(p.t)) == cpy.end && p.b in cpy.buckets && Drawn(s, p.t, cpy.end)
    requires x == N(s, p.e - 1) && buc == B(s, p.e - 1) && (same <==> Start(s, p.e) != K(s, Start(s, p.e)).lo)
    modifies s.nodes`prior, s.nodes`next, cpy.end`prior, cpy.end`next, p.b`prior, buc`prior, cpy`s
    ensures Upto(s, olds, p.e) && cpy.Valid() && cpy.s == p.t
  {
    ghost var f := Start(s, p.e);
    ghost var xs := s.nodes[f..p.e];
    assert Parted(s, f);
    var y := FirstOf(cpy, p.t, xs, p.i, p.b, x);
    TakeBack(s, olds, p.e, cpy, p.t, p.i, p.b, y, x);
    assert y in s.nodes && x in s.nodes && end in s.nodes && N(s, Tail(s, f)) in s.nodes;
    Return(s, olds, p.e, cpy, y, x, buc, same, end);
  }

  // The hash of a group, its bucket, and whether the group after it shares it.
  lemma GroupTurn(s: Layout, hs: seq<nat>, bs: seq<Cell>, e: int)
    requires Boundary(s, e) && e > 0 && Bucketed(s, bs, hs) && Hashed(s, hs)
    ensures var f := Start(s, e);
      && hs[f] == hs[e - 1] && B(s, e - 1) == bs[Position(hs[e - 1], bs)]
      && (e < Last(s) ==> (Position(hs[e - 1], bs) == Position(hs[e], bs) <==> e != K(s, e).lo))
  {
    var f := Start(s, e);
    assert GroupHash(s, hs, f) && Homed(s, bs, hs, e - 1);
    if e < Last(s) { SameBucketNumber(s, bs, hs, e, f); }
  }

  // What the rollback relies on: the groups of the log are in the new chain, those before f in the old one.
  ghost predicate Rolling(s: Layout, olds: set<Cell>, hs: seq<nat>, bs: seq<Cell>, log: seq<Passed>, cpy: Chain,
      end: Cell, f: int)
    reads s.nodes`prior, s.nodes`next, olds`prior, cpy, cpy.s.nodes`prior, cpy.s.nodes`next, cpy.buckets`prior
  {
    && Logged(s, olds, cpy.buckets, cpy.end, log, cpy.s, f)
    && cpy.Valid() && end == N(s, Last(s)) && Bucketed(s, bs, hs) && Hashed(s, hs)
    && (forall b {:trigger b in bs} | b in bs :: b in olds)
    && end in s.nodes && Upto(s, olds, f)
  }

  // The group at f belongs to the bucket of this number just when the bucket has nodes before it.
  ghost predicate GoesOn(s: Layout, hs: seq<nat>, bs: seq<Cell>, buc: int, f: int) {
    && Sized(s) && 0 <= f < Last(s) == |hs| && |bs| > 1
    && (buc == Position(hs[f], bs) <==> f != K(s, f).lo)
  }

  method RollBackOne(ghost s: Layout, ghost olds: set<Cell>, ghost hs: seq<nat>, bs: seq<Cell>, ghost log: seq<Passed>,
      h: nat, x: Cell, prevBuc: int, ghost f: int, cpy: Chain, end: Cell)
      returns (buc: int)
    requires |log| > 0 && Rolling(s, olds, hs, bs, log, cpy, end, f)
    requires GoesOn(s, hs, bs, prevBuc, f)
    requires var p := log[|log| - 1]; 0 < p.e <= Last(s) && x == N(s, p.e - 1) && h == hs[p.e - 1]
    modifies s.nodes`prior, s.nodes`next, olds`prior, cpy.end`prior, cpy.end`next, cpy.buckets`prior, cpy`s
    ensures var p := log[|log| - 1];
      && Rolling(s, olds, hs, bs, log[..|log| - 1], cpy, end, p.e)
      && (|log| > 1 ==> GoesOn(s, hs, bs, buc, p.e))
    ensures cpy.buckets == old(cpy.buckets)
  {
    ghost var p := log[|log| - 1];
    LoggedOneLess(s, olds, cpy.buckets, cpy.end, log, cpy.s, f);
    GroupTurn(s, hs, bs, p.e);
    buc := Position(h, bs);
    assert bs[buc] in bs;
    ComeBack(s, olds, p, cpy, x, bs[buc], buc == prevBuc, end);
    if |log| > 1 { LoggedFurther(s, olds, cpy.buckets, cpy.end, log[..|log| - 1], cpy.s, p.e); }
  }

  // All groups come back, the last that passed first.
  method RollBack(ghost s: Layout, ghost olds: set<Cell>, ghost hs: seq<nat>, bs: seq<Cell>, ghost log: seq<Passed>,
      hashes: seq<nat>, ptrs: seq<Cell>, withinBucket: bool, ghost e: int, cpy: Chain, end: Cell)
    requires Rolling(s, olds, hs, bs, log, cpy, end, e) && AllRecorded(s, hs, log, hashes, ptrs)
      && Within(s, log, withinBucket, e)
    modifies s.nodes`prior, s.nodes`next, olds`prior, cpy.end`prior, cpy.end`next, cpy.buckets`prior, cpy`s
    ensures Boundary(s, Last(s)) && Upto(s, olds, Last(s))
  {
    var i := |ptrs|;
    if i != 0 {
      var prevBuc: int := Position(hashes[i - 1], bs);
      if !withinBucket { prevBuc := -1 - prevBuc; }
      assert Recorded(s, hs, log, hashes, ptrs, i - 1) && StepOk(s, olds, cpy.buckets, cpy.end, log, cpy.s, e, i - 1);
      GroupTurn(s, hs, bs, log[i - 1].e);
      RollBackAll(s, olds, hs, bs, log, hashes, ptrs, prevBuc, e, cpy, end);
    }
  }

  method RollBackAll(ghost s: Layout, ghost olds: set<Cell>, ghost hs: seq<nat>, bs: seq<Cell>, ghost log: seq<Passed>,
      hashes: seq<nat>, ptrs: seq<Cell>, firstBuc: int, ghost e: int, cpy: Chain, end: Cell)
    requires Rolling(s, olds, hs, bs, log, cpy, end, e) && AllRecorded(s, hs, log, hashes, ptrs)
    requires |log| > 0 && GoesOn(s, hs, bs, firstBuc, e)
    modifies s.nodes`prior, s.nodes`next, olds`prior, cpy.end`prior, cpy.end`next, cpy.buckets`prior, cpy`s
    ensures Boundary(s, Last(s)) && Upto(s, olds, Last(s))
  {
    var prevBuc, j := firstBuc, |ptrs|;
    ghost var f, to := e, log;
    while j > 0
      invariant 0 <= j <= |log| && |to| == j && to == log[..j]
      invariant Rolling(s, olds, hs, bs, to, cpy, end, f) && cpy.buckets == old(cpy.buckets)
      invariant j > 0 ==> GoesOn(s, hs, bs, prevBuc, f)
    {
      j := j - 1;
      assert Recorded(s, hs, log, hashes, ptrs, j);
      ghost var p := to[j];
      prevBuc := RollBackOne(s, olds, hs, bs, to, hashes[j], ptrs[j], prevBuc, f, cpy, end);
      f, to := p.e, to[..j];
    }
  }

  lemma LoggedFurther(s: Layout, olds: set<Cell>, news: set<Cell>, cend: Cell, log: seq<Passed>, u: Layout, e: int)
    requires Logged(s, olds, news, cend, log, u, e) && |log| > 0
    ensures e < Last(s)
  {
    assert StepOk(s, olds, news, cend, log, u, e, |log| - 1);
  }

  /* All groups pass */

  ghost predicate NewHome(hs: seq<nat>, ns: seq<Cell>, homes: seq<Cell>, j: int)
    requires 0 <= j < |hs| == |homes| && |ns| > 1
  {
    homes[j] == ns[Position(hs[j], ns)]
  }

  // The groups from e on are in the buckets ns of the new chain.
  ghost predicate Passing(s: Layout, hs: seq<nat>, ns: seq<Cell>, cpy: Chain, homes: seq<Cell>, pos: seq<int>, e: int)
    reads cpy
  {
    && Arrived(s, cpy.s, homes, pos, e) && Buckets(ns) && |hs| == |homes|
    && B(cpy.s, Last(cpy.s)) == ns[|ns| - 1]
    && (forall b {:trigger b in ns} | b in ns :: b in cpy.buckets)
    && (forall j {:trigger NewHome(hs, ns, homes, j)} | 0 <= j < |hs| :: NewHome(hs, ns, homes, j))
  }

  // The new layout when one more group has passed.
  lemma PassedOne(s: Layout, hs: seq<nat>, ns: seq<Cell>, cpy: Chain, homes: seq<Cell>, pos: seq<int>, e: int,
      t: Layout, i: int, b: Cell)
    requires Boundary(s, e) && e > 0 && Hashed(s, hs) && Before(t, s.nodes[Start(s, e)..e], i, b, cpy.s) && cpy.Valid()
    requires Arrived(s, t, homes, pos, e) && HomesApart(t) && Buckets(ns) && B(t, Last(t)) == ns[|ns| - 1]
    requires |hs| == |homes| && b == ns[Position(hs[e - 1], ns)]
    requires forall c {:trigger c in ns} | c in ns :: c in cpy.buckets
    requires forall j {:trigger NewHome(hs, ns, homes, j)} | 0 <= j < |hs| :: NewHome(hs, ns, homes, j)
    ensures Passing(s, hs, ns, cpy, homes, NewPos(pos, Start(s, e), e, i), Start(s, e))
  {
    var f := Start(s, e);
    LinkedIsApart(cpy.s, cpy.buckets);
    GroupHome(s, hs, ns, homes, e, b);
    ArrivedByOne(s, t, homes, pos, f, e, i, b, cpy.s);
    HeaderStays(t, s.nodes[f..e], i, b, cpy.s);
  }

  // The nodes of the group before e have the same new bucket.
  lemma GroupHome(s: Layout, hs: seq<nat>, ns: seq<Cell>, homes: seq<Cell>, e: int, b: Cell)
    requires Boundary(s, e) && e > 0 && Hashed(s, hs) && |hs| == |homes| && |ns| > 1 && b == ns[Position(hs[e - 1], ns)]
    requires forall j {:trigger NewHome(hs, ns, homes, j)} | 0 <= j < |hs| :: NewHome(hs, ns, homes, j)
    ensures forall j {:trigger homes[j]} | Start(s, e) <= j < e :: homes[j] == b
  {
    forall j {:trigger homes[j]} | Start(s, e) <= j < e ensures homes[j] == b {
      SameGroup(s, Start(s, e), j);
      assert NewHome(hs, ns, homes, j) && GroupHash(s, hs, j);
    }
  }

  lemma HeaderStays(t: Layout, xs: seq<Cell>, i: int, b: Cell, u: Layout)
    requires Before(t, xs, i, b, u)
    ensures Last(u) == Last(t) + |xs| && B(u, Last(u)) == B(t, Last(t))
  {
    OpenedAt(t, xs, i, false, i < Last(t), b, Last(u));
  }

  method PassOne(ghost s: Layout, ghost olds: set<Cell>, ghost hs: seq<nat>, ghost bs: seq<Cell>, ns: seq<Cell>,
      ghost homes: seq<Cell>, ghost pos: seq<int>, ghost log: seq<Passed>, ghost e: int, h: nat, x: Cell, cpy: Chain,
      end: Cell)
      returns (emptied: bool, ghost f: int, ghost now: seq<int>, ghost more: seq<Passed>)
    requires Rolling(s, olds, hs, bs, log, cpy, end, e) && Passing(s, hs, ns, cpy, homes, pos, e) && e > 0
    requires x == N(s, e - 1) && h == hs[e - 1]
    modifies s.nodes`prior, s.nodes`next, olds`prior, cpy.end`prior, cpy.end`next, cpy.buckets`prior, cpy`s
    ensures Rolling(s, olds, hs, bs, more, cpy, end, f) && Passing(s, hs, ns, cpy, homes, now, f)
      && cpy.buckets == old(cpy.buckets)
    ensures f < e && |more| == |log| + 1 && more[..|log|] == log && more[|log|].e == e && (emptied <==> f == K(s, f).lo)
  {
    ghost var t := cpy.s;
    var buc := ns[Position(h, ns)];
    assert buc in ns && OtherBuckets(ns, Position(h, ns), |ns| - 1) && BucketUpto(s, olds, e - 1);
    LinkedIsApart(t, cpy.buckets);
    f := Start(s, e);
    assert N(s, f) in s.nodes && x in s.nodes && N(s, Tail(s, f)) in s.nodes;
    ghost var i;
    emptied, i := Pass(s, olds, e, cpy, end, x, buc);
    PassedOne(s, hs, ns, cpy, homes, pos, e, t, i, buc);
    LoggedOneMore(s, olds, cpy.buckets, cpy.end, log, t, e, i, buc, cpy.s);
    now, more := NewPos(pos, f, e, i), log + [Passed(t, e, i, buc)];
  }

  ghost predicate AllRecorded(s: Layout, hs: seq<nat>, log: seq<Passed>, hashes: seq<nat>, ptrs: seq<Cell>) {
    && |log| == |hashes| == |ptrs| && Sized(s) && Last(s) == |hs|
    && forall k {:trigger Recorded(s, hs, log, hashes, ptrs, k)} | 0 <= k < |log| ::
      Recorded(s, hs, log, hashes, ptrs, k)
  }

  // After the last group, if any, passed.
  ghost predicate Within(s: Layout, log: seq<Passed>, withinBucket: bool, e: int) {
    |log| > 0 ==> Sized(s) && 0 <= e < Last(s) && (withinBucket <==> e != K(s, e).lo)
  }

  lemma LastOfRolling(s: Layout, olds: set<Cell>, hs: seq<nat>, bs: seq<Cell>, log: seq<Passed>, cpy: Chain, end: Cell,
      e: int)
    requires Rolling(s, olds, hs, bs, log, cpy, end, e)
    ensures Sized(s) && 0 <= e <= Last(s) && end.prior == (if e == 0 then end else N(s, e - 1))
    ensures e > 0 ==> N(s, e - 1) != end
  {
    assert e > 0 ==> !Same(s, e - 1, Last(s));
  }

  datatype Turn = Done | Thrown | Went

  // One turn of the loop: hash the last node, and pass its group.
  method PassNext(ghost s: Layout, ghost olds: set<Cell>, ghost hs: seq<nat>, ghost bs: seq<Cell>, ns: seq<Cell>,
      ghost homes: seq<Cell>, ghost pos: seq<int>, ghost log: seq<Passed>, ghost e: int, hash: Hash, cpy: Chain,
      end: Cell)
      returns (turn: Turn, h: nat, x: Cell, emptied: bool, ghost f: int, ghost now: seq<int>, ghost more: seq<Passed>)
    requires Rolling(s, olds, hs, bs, log, cpy, end, e) && Passing(s, hs, ns, cpy, homes, pos, e)
    requires forall j {:trigger hs[j]} | 0 <= j < Last(s) == |hs| :: hash(N(s, j).value) == hs[j]
    modifies s.nodes`prior, s.nodes`next, olds`prior, cpy.end`prior, cpy.end`next, cpy.buckets`prior, cpy`s
    ensures Rolling(s, olds, hs, bs, more, cpy, end, f) && Passing(s, hs, ns, cpy, homes, now, f)
      && cpy.buckets == old(cpy.buckets)
    ensures !turn.Went? ==> f == e && now == pos && more == log && (turn.Done? <==> e == 0)
    ensures turn.Went? ==>
      && 0 <= f < e <= Last(s) && |more| == |log| + 1 && more[..|log|] == log && more[|log|].e == e
      && Within(s, more, !emptied, f)
      && |hs| == Last(s) && x == N(s, e - 1) && h == hs[e - 1]
  {
    LastOfRolling(s, olds, hs, bs, log, cpy, end, e);
    x, h, emptied := end.prior, 0, false;
    f, now, more := e, pos, log;
    if x == end {
      return Done, h, x, emptied, f, now, more;
    }
    var throws: bool := *;
    if throws {
      return Thrown, h, x, emptied, f, now, more;
    }
    h := hash(x.value);
    emptied, f, now, more := PassOne(s, olds, hs, bs, ns, homes, pos, log, e, h, x, cpy, end);
    turn := Went;
  }

  // The same, on the record.
  method PassNextRecorded(ghost s: Layout, ghost olds: set<Cell>, ghost hs: seq<nat>, ghost bs: seq<Cell>,
      ns: seq<Cell>, ghost homes: seq<Cell>, ghost pos: seq<int>, ghost log: seq<Passed>, ghost e: int, hash: Hash,
      cpy: Chain, end: Cell, hashes: seq<nat>, ptrs: seq<Cell>, withinBucket: bool)
      returns (turn: Turn, hashes1: seq<nat>, ptrs1: seq<Cell>, within1: bool, ghost f: int, ghost now: seq<int>,
        ghost more: seq<Passed>)
    requires Rolling(s, olds, hs, bs, log, cpy, end, e) && Passing(s, hs, ns, cpy, homes, pos, e)
    requires forall j {:trigger hs[j]} | 0 <= j < Last(s) == |hs| :: hash(N(s, j).value) == hs[j]
    requires AllRecorded(s, hs, log, hashes, ptrs) && Within(s, log, withinBucket, e)
    modifies s.nodes`prior, s.nodes`next, olds`prior, cpy.end`prior, cpy.end`next, cpy.buckets`prior, cpy`s
    ensures Rolling(s, olds, hs, bs, more, cpy, end, f) && Passing(s, hs, ns, cpy, homes, now, f)
      && cpy.buckets == old(cpy.buckets)
    ensures if turn.Went? then 0 <= f < e else f == e && (turn.Done? ==> e == 0)
    ensures AllRecorded(s, hs, more, hashes1, ptrs1) && Within(s, more, within1, f)
  {
    var h, x, emptied;
    turn, h, x, emptied, f, now, more := PassNext(s, olds, hs, bs, ns, homes, pos, log, e, hash, cpy, end);
    if turn.Went? {
      RecordedOneMore(s, hs, log, more, hashes, ptrs, h, x);
      hashes1, ptrs1, within1 := hashes + [h], ptrs + [x], !emptied;
    } else {
      hashes1, ptrs1, within1 := hashes, ptrs, withinBucket;
    }
  }

  // Passes one group after the other, until none is left or the hash throws.
  method PassAll(ghost s: Layout, ghost olds: set<Cell>, ghost hs: seq<nat>, ghost bs: seq<Cell>, ns: seq<Cell>,
      ghost homes: seq<Cell>, ghost pos0: seq<int>, hash: Hash, cpy: Chain, end: Cell)
      returns (ok: bool, hashes: seq<nat>, ptrs: seq<Cell>, withinBucket: bool, ghost e: int, ghost pos: seq<int>,
        ghost log: seq<Passed>)
    requires Rolling(s, olds, hs, bs, [], cpy, end, Last(s)) && Passing(s, hs, ns, cpy, homes, pos0, Last(s))
    requires forall j {:trigger hs[j]} | 0 <= j < Last(s) == |hs| :: hash(N(s, j).value) == hs[j]
    modifies s.nodes`prior, s.nodes`next, olds`prior, cpy.end`prior, cpy.end`next, cpy.buckets`prior, cpy`s
    ensures cpy.buckets == old(cpy.buckets) && Rolling(s, olds, hs, bs, log, cpy, end, e)
      && Passing(s, hs, ns, cpy, homes, pos, e)
    ensures ok ==> e == 0
    ensures AllRecorded(s, hs, log, hashes, ptrs) && Within(s, log, withinBucket, e)
  {
    hashes, ptrs, withinBucket := [], [], false;
    e, pos, log := Last(s), pos0, [];
    var turn := Went;
    while turn.Went?
      invariant cpy.buckets == old(cpy.buckets) && Rolling(s, olds, hs, bs, log, cpy, end, e)
        && Passing(s, hs, ns, cpy, homes, pos, e)
      invariant AllRecorded(s, hs, log, hashes, ptrs) && Within(s, log, withinBucket, e)
      invariant 0 <= e && (turn.Done? ==> e == 0)
      decreases if turn.Went? then 1 + e else 0
    {
      turn, hashes, ptrs, withinBucket, e, pos, log :=
        PassNextRecorded(s, olds, hs, bs, ns, homes, pos, log, e, hash, cpy, end, hashes, ptrs, withinBucket);
    }
    ok := turn.Done?;
  }

  lemma RecordedOneMore(s: Layout, hs: seq<nat>, log: seq<Passed>, more: seq<Passed>, hashes: seq<nat>, ptrs: seq<Cell>,
      h: nat, x: Cell)
    requires AllRecorded(s, hs, log, hashes, ptrs) && |more| == |log| + 1 && more[..|log|] == log
    requires 0 < more[|log|].e <= Last(s) && x == N(s, more[|log|].e - 1) && h == hs[more[|log|].e - 1]
    ensures AllRecorded(s, hs, more, hashes + [h], ptrs + [x])
  {
    forall k | 0 <= k < |more| ensures Recorded(s, hs, more, hashes + [h], ptrs + [x], k) {
      assert k < |log| ==> Recorded(s, hs, log, hashes, ptrs, k) && more[..|log|][k] == more[k];
    }
  }

  /* The new chain is taken over */

  ghost function WithEnd(t: Layout, end: Cell): (u: Layout)
    requires Sized(t)
    ensures Sized(u) && Last(u) == Last(t)
  {
    t.(nodes := t.nodes[..Last(t)] + [end])
  }

  lemma WithEndAt(t: Layout, end: Cell, j: int)
    requires Shaped(t) && end !in t.nodes && Inside(t, j)
    ensures var u := WithEnd(t, end);
      && Shaped(u) && N(u, j) == (if j == Last(t) then end else N(t, j)) && B(u, j) == B(t, j) && G(u, j) == G(t, j)
      && K(u, j) == K(t, j)
      && PriorNode(u, j) == (if PriorNode(t, j) == N(t, Last(t)) then end else PriorNode(t, j))
      && NextCell(u, j) == NextCell(t, j)
      && Front(u, j) == (if j == Last(t) then end else Front(t, j))
  {
    var u := WithEnd(t, end);
    forall a, c | Inside(u, a) && Inside(u, c) && Same(u, a, c) ensures a == c {
      assert Same(t, a, c) <==> a == c;
      assert N(t, a) in t.nodes && N(t, c) in t.nodes;
    }
    forall a | Inside(u, a) ensures Nested(u, a) {
      assert Nested(t, a) && forall k {:trigger B(u, k)} | Inside(u, k) :: B(u, k) == B(t, k);
    }
    Unfold(t, j);
    if j < Last(t) { HeaderApart(t, j); }
    HeaderPlace(t);
    var b := Back(j, G(t, j), Last(t));
    assert Same(t, b, Last(t)) <==> b == Last(t);
  }

  method TakeOver(cpy: Chain, end: Cell) returns (ghost u: Layout)
    requires cpy.Valid() && end !in cpy.s.nodes && end !in cpy.buckets
    modifies end`prior, end`next, cpy.s.nodes`prior, cpy.buckets`prior
    ensures u == WithEnd(cpy.s, end) && Linked(u, cpy.buckets) && N(u, Last(u)) == end
  {
    ghost var t, h := cpy.s, Last(cpy.s);
    u := WithEnd(t, end);
    WithEndAt(t, end, h);
    HeaderPlace(t);
    Rewire(cpy, end);
    forall j {:trigger PriorOk(u, j)} {:trigger NextOk(u, j)} {:trigger HomeOk(u, cpy.buckets, j)} | Inside(u, j)
      ensures PriorOk(u, j) && NextOk(u, j) && HomeOk(u, cpy.buckets, j)
    {
      RewiredAt(t, cpy.buckets, end, j);
    }
    forall b {:trigger Spare(u, b)} | b in cpy.buckets ensures Spare(u, b) {
      assert old(Spare(t, b));
      assert t.home[h] == B(t, h);
    }
    assert forall c | c in u.nodes :: c in t.nodes || c == end;
  }

  // What the assignments do.
  twostate predicate Rewired(t: Layout, new buckets: set<Cell>, new end: Cell)
    requires Shaped(t) && old(allocated(buckets))
    reads end`prior, end`next, t.nodes`prior, t.nodes`next, buckets`prior
  {
    var h := Last(t);
    && end.prior == (if h == 0 then end else N(t, h - 1)) && end.next == B(t, 0)
    && (forall c {:trigger c.prior} | c in t.nodes :: c.prior == if c == N(t, 0) then end else old(c.prior))
    && (forall c {:trigger c.next} | c in t.nodes :: c.next == old(c.next))
    && (forall b {:trigger b.prior} | b in buckets :: b.prior == if b == B(t, h) then end else old(b.prior))
  }

  twostate lemma RewiredAt(t: Layout, new buckets: set<Cell>, new end: Cell, new j: int)
    requires old(allocated(buckets)) && Shaped(t) && old(Linked(t, buckets)) && Rewired(t, buckets, end)
    requires end !in t.nodes && end !in buckets && Inside(t, j)
    ensures var u := WithEnd(t, end);
      Shaped(u) && Inside(u, j) && PriorOk(u, j) && NextOk(u, j) && HomeOk(u, buckets, j)
  {
    var h := Last(t);
    WithEndAt(t, end, j);
    HeaderPlace(t);
    Unfold(t, h);
    assert old(PriorOk(t, j)) && old(NextOk(t, j)) && old(HomeOk(t, buckets, j)) && old(HomeOk(t, buckets, h));
    assert Same(t, if h == 0 then 0 else h - 1, h) == (h == 0);
    assert N(t, j) in t.nodes && Same(t, 0, j) == (j == 0);
    FirstPrior(t, j);
    if j < h {
      HeaderApart(t, j);
      if B(t, j) == B(t, h) { OneFront(t, j, h); }
    }
  }

  // Only the first node leads back to the header.
  lemma FirstPrior(t: Layout, j: int)
    requires Shaped(t) && Inside(t, j)
    ensures PriorNode(t, j) == N(t, Last(t)) <==> j == 0
  {
    Unfold(t, j);
    if j < Last(t) { HeaderApart(t, j); }
    HeaderPlace(t);
    var b := Back(j, G(t, j), Last(t));
    assert Same(t, b, Last(t)) <==> b == Last(t);
  }

  // The assignments made.
  method Rewire(cpy: Chain, end: Cell)
    requires cpy.Valid() && end !in cpy.s.nodes && end !in cpy.buckets
    modifies end`prior, end`next, cpy.s.nodes`prior, cpy.buckets`prior
    ensures Rewired(cpy.s, cpy.buckets, end)
  {
    ghost var t, h := cpy.s, Last(cpy.s);
    ghost var l := if h == 0 then 0 else h - 1;
    HeaderPlace(t);
    Pointers(t, cpy.buckets, h);
    Pointers(t, cpy.buckets, 0);
    Pointers(t, cpy.buckets, l);
    Unfold(t, 0);
    Unfold(t, h);
    assert Same(t, l, h) == (l == h);
    end.prior := if cpy.end.prior != cpy.end then cpy.end.prior else end;
    end.next := cpy.end.next;
    end.next.prior.prior := end;
    end.prior.next.prior := end;
  }

  /* Rehashing */

  ghost predicate SetOf(bs: seq<Cell>, buckets: set<Cell>) {
    && (forall b {:trigger b in bs} | b in bs :: b in buckets)
    && (forall b {:trigger b in buckets} | b in buckets :: b in bs)
  }

  // An index with nodes of these hashes in the buckets bs, the last one the header's.
  ghost predicate Hosted(s: Layout, buckets: set<Cell>, bs: seq<Cell>, hs: seq<nat>)
    reads s.nodes`prior, s.nodes`next, buckets`prior
  {
    Linked(s, buckets) && SetOf(bs, buckets) && Bucketed(s, bs, hs) && Hashed(s, hs)
  }

  // Room for a new array of buckets.
  ghost predicate Room(s: Layout, buckets: set<Cell>, ns: seq<Cell>, cend: Cell) {
    && Buckets(ns) && cend !in ns && cend !in s.nodes && cend !in buckets
    && (forall b {:trigger b in ns} | b in ns :: b !in s.nodes && b !in buckets)
  }

  lemma BlankIsReady(s: Layout, olds: set<Cell>, hs: seq<nat>, bs: seq<Cell>, ns: seq<Cell>, homes: seq<Cell>,
      pos: seq<int>, cpy: Chain, end: Cell)
    requires Hosted(s, olds, bs, hs) && Room(s, olds, ns, cpy.end) && end == N(s, Last(s))
    requires forall i {:trigger Parted(s, i)} | Inside(s, i) :: Parted(s, i)
    requires cpy.Valid() && cpy.s == Chain.Blank(cpy.end, ns[|ns| - 1]) && SetOf(ns, cpy.buckets)
    requires |homes| == |hs| == |pos| && forall j {:trigger NewHome(hs, ns, homes, j)} | 0 <= j < |hs| ::
      NewHome(hs, ns, homes, j)
    ensures Rolling(s, olds, hs, bs, [], cpy, end, Last(s)) && Passing(s, hs, ns, cpy, homes, pos, Last(s))
  {
    LinkedIsApportioned(s, olds);
    LinkedIsUpto(s, olds);
    Chain.BlankIsShaped(cpy.end, ns[|ns| - 1]);
    assert N(s, Last(s)) in s.nodes;
    forall j {:trigger N(s, j)} | 0 <= j < Last(s) || j == Last(s) ensures N(s, j) !in cpy.s.nodes {
      assert N(s, j) in s.nodes;
    }
    assert cpy.s.nodes[..0] == s.nodes[Last(s)..Last(s)];
  }

  // The new layout, as against the old one.
  ghost predicate Rehashed(s: Layout, t: Layout, hs: seq<nat>, ns: seq<Cell>, homes: seq<Cell>, pos: seq<int>) {
    && Arrived(s, t, homes, pos, 0) && |hs| == |homes| && Buckets(ns) && N(t, Last(t)) == N(s, Last(s))
    && B(t, Last(t)) == ns[|ns| - 1]
    && (forall j {:trigger NewHome(hs, ns, homes, j)} | 0 <= j < |hs| :: NewHome(hs, ns, homes, j))
  }

  // In t, node j of hash hs[j] is in the bucket whose number is left when that is divided by the number of buckets.
  ghost predicate InNewBucket(t: Layout, hs: seq<nat>, ns: seq<Cell>, pos: seq<int>, j: int) {
    && 0 <= j < |hs| == |pos| && Sized(t) && Inside(t, pos[j])
    && exists q, p {:trigger Divides(|ns| - 1, hs[j], q, p)} ::
      Divides(|ns| - 1, hs[j], q, p) && B(t, pos[j]) == ns[p]
  }

  lemma RehashedInBuckets(s: Layout, t: Layout, hs: seq<nat>, ns: seq<Cell>, homes: seq<Cell>, pos: seq<int>)
    requires Rehashed(s, t, hs, ns, homes, pos)
    ensures forall j | 0 <= j < |hs| :: InNewBucket(t, hs, ns, pos, j)
  {
    forall j | 0 <= j < |hs| ensures InNewBucket(t, hs, ns, pos, j) {
      assert NewHome(hs, ns, homes, j) && Stands(s, t, j, pos[j], homes[j]);
      assert Divides(|ns| - 1, hs[j], hs[j] / (|ns| - 1), Position(hs[j], ns));
    }
  }

  lemma ArrivedWithEnd(s: Layout, t: Layout, homes: seq<Cell>, pos: seq<int>, end: Cell)
    requires Arrived(s, t, homes, pos, 0) && end !in t.nodes
    ensures Arrived(s, WithEnd(t, end), homes, pos, 0) && B(WithEnd(t, end), Last(t)) == B(t, Last(t))
      && N(WithEnd(t, end), Last(t)) == end
  {
    var u := WithEnd(t, end);
    WithEndAt(t, end, Last(t));
    forall j {:trigger pos[j]} | 0 <= j < |pos| ensures Stands(s, u, j, pos[j], homes[j]) {
      assert Stands(s, t, j, pos[j], homes[j]);
      WithEndAt(t, end, pos[j]);
    }
    if |pos| > 0 { WithEndAt(t, end, pos[0]); }
    assert u.nodes[..Last(u)] == t.nodes[..Last(t)];
  }

  // All but the claim that failing leaves every pointer as it was.
  method Attempt(ghost s: Layout, ghost olds: set<Cell>, ghost hs: seq<nat>, bs: seq<Cell>, ns: seq<Cell>,
      ghost homes: seq<Cell>, hash: Hash, end: Cell, cpyEnd: Cell)
      returns (ok: bool, ghost t: Layout, ghost pos: seq<int>)
    requires Hosted(s, olds, bs, hs) && end == N(s, Last(s)) && Room(s, olds, ns, cpyEnd)
    requires forall i {:trigger Parted(s, i)} | Inside(s, i) :: Parted(s, i)
    requires forall j {:trigger hs[j]} | 0 <= j < Last(s) == |hs| :: hash(N(s, j).value) == hs[j]
    requires |homes| == |hs| && forall j {:trigger NewHome(hs, ns, homes, j)} | 0 <= j < |hs| ::
      NewHome(hs, ns, homes, j)
    modifies s.nodes`prior, s.nodes`next, olds`prior, cpyEnd`prior, cpyEnd`next, ns`prior
    ensures ok ==> Linked(t, set b <- ns) && Rehashed(s, t, hs, ns, homes, pos)
    ensures !ok ==> Linked(s, olds)
  {
    var cpy, hashes, ptrs, withinBucket;
    ghost var e, log;
    ok, cpy, hashes, ptrs, withinBucket, e, pos, log := PassToNew(s, olds, hs, bs, ns, homes, hash, end, cpyEnd);
    if ok {
      t := Conclude(s, olds, hs, bs, ns, homes, pos, log, cpy, end);
    } else {
      t := s;
      Abandon(s, olds, hs, bs, log, hashes, ptrs, withinBucket, e, cpy, end);
    }
  }

  // A new chain without nodes, and none has passed.
  method Begin(ghost s: Layout, ghost olds: set<Cell>, ghost hs: seq<nat>, ghost bs: seq<Cell>, ns: seq<Cell>,
      ghost homes: seq<Cell>, ghost end: Cell, cpyEnd: Cell)
      returns (cpy: Chain, ghost pos: seq<int>)
    requires Hosted(s, olds, bs, hs) && end == N(s, Last(s)) && Room(s, olds, ns, cpyEnd)
    requires forall i {:trigger Parted(s, i)} | Inside(s, i) :: Parted(s, i)
    requires |homes| == |hs| && forall j {:trigger NewHome(hs, ns, homes, j)} | 0 <= j < |hs| ::
      NewHome(hs, ns, homes, j)
    modifies cpyEnd`prior, cpyEnd`next, ns`prior
    ensures fresh(cpy) && cpy.end == cpyEnd && cpy.buckets == (set b <- ns) && cpy.s.nodes == [cpyEnd]
    ensures Rolling(s, olds, hs, bs, [], cpy, end, Last(s)) && Passing(s, hs, ns, cpy, homes, pos, Last(s))
  {
    cpy := NewChain(s, olds, hs, bs, ns, homes, end, cpyEnd);
    pos := seq(|hs|, _ => 0);
    BlankIsReady(s, olds, hs, bs, ns, homes, pos, cpy, end);
  }

  // The groups pass to a new chain.
  method PassToNew(ghost s: Layout, ghost olds: set<Cell>, ghost hs: seq<nat>, ghost bs: seq<Cell>, ns: seq<Cell>,
      ghost homes: seq<Cell>, hash: Hash, end: Cell, cpyEnd: Cell)
      returns (ok: bool, cpy: Chain, hashes: seq<nat>, ptrs: seq<Cell>, withinBucket: bool, ghost e: int,
        ghost pos: seq<int>, ghost log: seq<Passed>)
    requires Hosted(s, olds, bs, hs) && end == N(s, Last(s)) && Room(s, olds, ns, cpyEnd)
    requires forall i {:trigger Parted(s, i)} | Inside(s, i) :: Parted(s, i)
    requires forall j {:trigger hs[j]} | 0 <= j < Last(s) == |hs| :: hash(N(s, j).value) == hs[j]
    requires |homes| == |hs| && forall j {:trigger NewHome(hs, ns, homes, j)} | 0 <= j < |hs| ::
      NewHome(hs, ns, homes, j)
    modifies s.nodes`prior, s.nodes`next, olds`prior, cpyEnd`prior, cpyEnd`next, ns`prior
    ensures fresh(cpy) && cpy.end == cpyEnd && cpy.buckets == (set b <- ns)
    ensures Rolling(s, olds, hs, bs, log, cpy, end, e) && Passing(s, hs, ns, cpy, homes, pos, e) && (ok ==> e == 0)
    ensures AllRecorded(s, hs, log, hashes, ptrs) && Within(s, log, withinBucket, e)
  {
    cpy, pos := Begin(s, olds, hs, bs, ns, homes, end, cpyEnd);
    ok, hashes, ptrs, withinBucket, e, pos, log := PassAll(s, olds, hs, bs, ns, homes, pos, hash, cpy, end);
  }

  // All have passed.
  method Conclude(ghost s: Layout, ghost olds: set<Cell>, ghost hs: seq<nat>, ghost bs: seq<Cell>, ghost ns: seq<Cell>,
      ghost homes: seq<Cell>, ghost pos: seq<int>, ghost log: seq<Passed>, cpy: Chain, end: Cell)
      returns (ghost t: Layout)
    requires Rolling(s, olds, hs, bs, log, cpy, end, 0) && Passing(s, hs, ns, cpy, homes, pos, 0)
    modifies s.nodes`prior, s.nodes`next, cpy.end`prior, cpy.end`next, cpy.buckets`prior
    ensures Linked(t, cpy.buckets) && Rehashed(s, t, hs, ns, homes, pos)
  {
    NodesPassed(s, olds, hs, bs, log, cpy, end, 0);
    t := Commit(s, olds, hs, bs, ns, homes, pos, log, cpy, end);
  }

  lemma NodesPassed(s: Layout, olds: set<Cell>, hs: seq<nat>, bs: seq<Cell>, log: seq<Passed>, cpy: Chain, end: Cell,
      e: int)
    requires Rolling(s, olds, hs, bs, log, cpy, end, e)
    ensures end in s.nodes && forall c <- cpy.s.nodes :: c in s.nodes || c == cpy.end
  {
  }

  // After the rollback the old chain is whole.
  method Abandon(ghost s: Layout, ghost olds: set<Cell>, ghost hs: seq<nat>, bs: seq<Cell>, ghost log: seq<Passed>,
      hashes: seq<nat>, ptrs: seq<Cell>, withinBucket: bool, ghost e: int, cpy: Chain, end: Cell)
    requires Rolling(s, olds, hs, bs, log, cpy, end, e) && AllRecorded(s, hs, log, hashes, ptrs)
      && Within(s, log, withinBucket, e)
    modifies s.nodes`prior, s.nodes`next, olds`prior, cpy.end`prior, cpy.end`next, cpy.buckets`prior, cpy`s
    ensures Linked(s, olds)
  {
    RollBack(s, olds, hs, bs, log, hashes, ptrs, withinBucket, e, cpy, end);
    UptoIsLinked(s, olds);
  }

  // Passes the groups of an index to a new array of buckets, or leaves it as it was.
  method UncheckedRehash(ghost s: Layout, ghost olds: set<Cell>, ghost hs: seq<nat>, bs: seq<Cell>, ns: seq<Cell>,
      hash: Hash, end: Cell, cpyEnd: Cell)
      returns (ok: bool, ghost t: Layout, ghost homes: seq<Cell>, ghost pos: seq<int>)
    requires Hosted(s, olds, bs, hs) && end == N(s, Last(s)) && Room(s, olds, ns, cpyEnd)
    requires forall i {:trigger Parted(s, i)} | Inside(s, i) :: Parted(s, i)
    requires forall j {:trigger hs[j]} | 0 <= j < Last(s) == |hs| :: hash(N(s, j).value) == hs[j]
    modifies s.nodes`prior, s.nodes`next, olds`prior, cpyEnd`prior, cpyEnd`next, ns`prior
    ensures ok ==> Linked(t, set b <- ns) && Rehashed(s, t, hs, ns, homes, pos)
    ensures ok ==> forall j | 0 <= j < |hs| :: InNewBucket(t, hs, ns, pos, j)
    ensures !ok ==> Linked(s, olds)
    ensures !ok ==> forall j {:trigger N(s, j)} | Inside(s, j) ::
      N(s, j).prior == old(N(s, j).prior) && N(s, j).next == old(N(s, j).next)
    ensures !ok ==> forall b {:trigger b.prior} | b in olds :: b.prior == old(b.prior)
  {
    homes := NewHomes(hs, ns);
    ok, t, pos := Attempt(s, olds, hs, bs, ns, homes, hash, end, cpyEnd);
    if ok {
      RehashedInBuckets(s, t, hs, ns, homes, pos);
    } else {
      LinkedDetermines(s, olds);
    }
  }

  // A layout leaves no pointer open.
  twostate lemma LinkedDetermines(s: Layout, new olds: set<Cell>)
    requires old(allocated(olds)) && old(Linked(s, olds)) && Linked(s, olds)
    ensures forall j {:trigger N(s, j)} | Inside(s, j) ::
      N(s, j).prior == old(N(s, j).prior) && N(s, j).next == old(N(s, j).next)
    ensures forall b {:trigger b.prior} | b in olds :: b.prior == old(b.prior)
  {
    forall j {:trigger N(s, j)} | Inside(s, j)
      ensures N(s, j).prior == old(N(s, j).prior) && N(s, j).next == old(N(s, j).next)
    {
      assert PriorOk(s, j) && NextOk(s, j) && old(PriorOk(s, j)) && old(NextOk(s, j));
    }
    forall b {:trigger b.prior} | b in olds ensures b.prior == old(b.prior) {
      assert Spare(s, b) && old(Spare(s, b));
      if b in s.home {
        var j :| 0 <= j < |s.home| && s.home[j] == b;
        assert B(s, j) == b && HomeOk(s, olds, j) && old(HomeOk(s, olds, j));
      }
    }
  }

  // The new chain becomes that of the index.
  method Commit(ghost s: Layout, ghost olds: set<Cell>, ghost hs: seq<nat>, ghost bs: seq<Cell>, ghost ns: seq<Cell>,
      ghost homes: seq<Cell>, ghost pos: seq<int>, ghost log: seq<Passed>, cpy: Chain, end: Cell)
      returns (ghost t: Layout)
    requires Rolling(s, olds, hs, bs, log, cpy, end, 0) && Passing(s, hs, ns, cpy, homes, pos, 0)
    modifies end`prior, end`next, cpy.s.nodes`prior, cpy.buckets`prior
    ensures Linked(t, cpy.buckets) && Rehashed(s, t, hs, ns, homes, pos)
  {
    HeaderIsApart(s, olds, hs, bs, log, cpy, end);
    ArrivedWithEnd(s, cpy.s, homes, pos, end);
    t := TakeOver(cpy, end);
  }

  ghost function NewHomes(hs: seq<nat>, ns: seq<Cell>): (homes: seq<Cell>)
    requires |ns| > 1
    ensures |homes| == |hs| && forall j {:trigger NewHome(hs, ns, homes, j)} | 0 <= j < |hs| ::
      NewHome(hs, ns, homes, j)
  {
    seq(|hs|, j requires 0 <= j < |hs| => ns[Position(hs[j], ns)])
  }

  // The header is not in the new chain.
  lemma HeaderIsApart(s: Layout, olds: set<Cell>, hs: seq<nat>, bs: seq<Cell>, log: seq<Passed>, cpy: Chain, end: Cell)
    requires Rolling(s, olds, hs, bs, log, cpy, end, 0)
    ensures end !in cpy.s.nodes && end !in cpy.buckets && end in s.nodes && Drawn(s, cpy.s, cpy.end)
  {
    var x := N(s, Last(s));
  }

  // The new chain, of its header alone; the old one does not notice.
  method NewChain(ghost s: Layout, ghost olds: set<Cell>, ghost hs: seq<nat>, ghost bs: seq<Cell>, ns: seq<Cell>,
      ghost homes: seq<Cell>, ghost end: Cell, cpyEnd: Cell)
      returns (cpy: Chain)
    requires Hosted(s, olds, bs, hs) && Room(s, olds, ns, cpyEnd)
    modifies cpyEnd`prior, cpyEnd`next, ns`prior
    ensures fresh(cpy) && cpy.end == cpyEnd && cpy.Valid() && cpy.s == Chain.Blank(cpyEnd, ns[|ns| - 1])
    ensures cpy.buckets == (set b <- ns) && SetOf(ns, cpy.buckets)
    ensures Hosted(s, olds, bs, hs)
  {
    forall m, n | 0 <= m < n < |ns| ensures ns[m] != ns[n] {
      assert OtherBuckets(ns, m, n);
    }
    assert forall m {:trigger ns[m]} | 0 <= m < |ns| :: ns[m] in ns;
    cpy := new Chain(cpyEnd, ns);
    forall j | Inside(s, j) ensures PriorOk(s, j) && NextOk(s, j) && HomeOk(s, olds, j) {
      assert N(s, j) in s.nodes;
      assert old(PriorOk(s, j)) && old(NextOk(s, j)) && old(HomeOk(s, olds, j));
    }
    forall b | b in olds ensures Spare(s, b) {
      assert old(Spare(s, b));
    }
  }
}
