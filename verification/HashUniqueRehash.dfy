/** Rehashing a hashed unique index: its nodes pass one by one, from the last on, to the front of their new buckets;
    when the hash throws, they are appended to the old chain again without being taken out of the new one. */
module HashUniqueRehash {

  import opened HashLayout
  import opened HashIndexNode
  import opened HashRanges
  import opened HashPrefix
  import opened HashRehash
  import opened HashUniqueNode
  import S = Spans

  ghost predicate Simple(s: Layout) {
    Apportioned(s) && Singles(s)
  }

  // Every node starts a group, and ends it.
  lemma Ends(s: Layout, e: int)
    requires Simple(s) && Inside(s, e)
    ensures Boundary(s, e) && G(s, e).hi == e
    ensures e > 0 ==> Start(s, e) == e - 1 && s.nodes[e - 1..e] == [N(s, e - 1)]
  {
    assert Alone(s, e);
    if e > 0 { assert Alone(s, e - 1); }
  }

  /* One node passes, or comes back */

  // Takes out the last node; tells whether its bucket is emptied.
  method UnlinkLast(ghost s: Layout, ghost buckets: set<Cell>, ghost e: int, end: Cell) returns (emptied: bool)
    requires Simple(s) && 0 < e <= Last(s) && Boundary(s, e) && Upto(s, buckets, e) && end == N(s, Last(s))
    modifies end`prior, N(s, Tail(s, e - 1))`next, B(s, e - 1)`prior
    ensures Boundary(s, e - 1) && Upto(s, buckets, e - 1) && (emptied <==> e - 1 == K(s, e - 1).lo)
  {
    Ends(s, e);
    Ends(s, e - 1);
    LastGroup(s, buckets, e);
    var x := end.prior;
    if x.prior.next == x {
      x.prior.next := x.next;
      end.prior := x.prior;
      emptied := false;
    } else {
      x.prior.next.prior := null;
      x.prior.next := x.next;
      end.prior := x.prior;
      emptied := true;
    }
    CutIsUpto(s, buckets, e, emptied);
  }

  // x goes to the end of the chain, in the bucket of the last node.
  method Append(x: Cell, end: Cell)
    requires end.prior != null && end != x && end.prior != x
    modifies x`prior, x`next, end`prior, end.prior`next
    ensures x.prior == old(end.prior) && x.next == old(end.prior.next) && end.prior == x && old(end.prior).next == x
  {
    x.prior := end.prior;
    x.next := end.prior.next;
    x.prior.next := x;
    end.prior := x;
  }

  // x goes to the end of the chain, in an empty bucket.
  method LinkToEmpty(x: Cell, buc: Cell, end: Cell)
    requires end.prior != null && end != x && end.prior != x && buc.prior == null && buc != x
    modifies x`prior, x`next, end`prior, end.prior`next, buc`prior
    ensures x.prior == old(end.prior) && x.next == old(end.prior.next) && old(end.prior).next == buc
    ensures end.prior == x && buc.prior == x
  {
    x.prior := end.prior;
    x.next := end.prior.next;
    x.prior.next := buc;
    buc.prior := x;
    end.prior := x;
  }

  // The node before e comes back; same tells that its bucket has nodes before it.
  method Return(ghost s: Layout, ghost buckets: set<Cell>, ghost e: int, x: Cell, buc: Cell, same: bool, end: Cell)
    requires Simple(s) && 0 < e <= Last(s) && Boundary(s, e - 1) && Upto(s, buckets, e - 1)
    requires x == N(s, e - 1) && end == N(s, Last(s)) && buc == B(s, e - 1) && (same <==> e - 1 != K(s, e - 1).lo)
    modifies x`prior, x`next, end`prior, N(s, Tail(s, e - 1))`next, buc`prior
    ensures Boundary(s, e) && Upto(s, buckets, e)
  {
    Ends(s, e);
    TailPointers(s, buckets, e - 1);
    if same {
      Append(x, end);
    } else {
      LinkToEmpty(x, buc, end);
    }
    UncutIsUpto(s, buckets, e, same);
  }

  // The last node is taken out of the old chain; the new one does not notice.
  method TakeOut(ghost s: Layout, ghost olds: set<Cell>, ghost e: int, ghost cpy: Chain, end: Cell)
      returns (emptied: bool)
    requires Simple(s) && 0 < e <= Last(s) && Boundary(s, e) && Upto(s, olds, e) && end == N(s, Last(s))
    requires cpy.Valid() && Separate(s, olds, cpy.s, cpy.buckets, e)
    modifies end`prior, N(s, Tail(s, e - 1))`next, B(s, e - 1)`prior
    ensures Boundary(s, e - 1) && Upto(s, olds, e - 1) && (emptied <==> e - 1 == K(s, e - 1).lo)
    ensures cpy.Valid()
  {
    assert BucketUpto(s, olds, e - 1);
    assert N(s, Tail(s, e - 1)) in s.nodes && N(s, Last(s)) in s.nodes;
    emptied := UnlinkLast(s, olds, e, end);
    forall j | Inside(cpy.s, j) ensures PriorOk(cpy.s, j) && NextOk(cpy.s, j) && HomeOk(cpy.s, cpy.buckets, j) {
      assert N(cpy.s, j) in cpy.s.nodes;
      assert old(PriorOk(cpy.s, j)) && old(NextOk(cpy.s, j)) && old(HomeOk(cpy.s, cpy.buckets, j));
    }
    forall b | b in cpy.buckets ensures Spare(cpy.s, b) {
      assert old(Spare(cpy.s, b));
    }
  }

  // The node is linked to its new bucket; the old chain does not notice.
  method PutIn(ghost s: Layout, ghost olds: set<Cell>, ghost e: int, cpy: Chain, x: Cell, buc: Cell)
      returns (ghost i: int)
    requires Simple(s) && 0 < e <= Last(s) && Boundary(s, e - 1) && Upto(s, olds, e - 1) && x == N(s, e - 1)
    requires cpy.Valid() && Singles(cpy.s) && Separate(s, olds, cpy.s, cpy.buckets, e)
    requires buc in cpy.buckets && B(cpy.s, Last(cpy.s)) != buc
    modifies x`prior, x`next, cpy`s, cpy.s.nodes`prior, cpy.s.nodes`next, buc`prior
    ensures Boundary(s, e - 1) && Upto(s, olds, e - 1) && cpy.Valid() && Singles(cpy.s)
    ensures Before(old(cpy.s), [x], i, buc, cpy.s)
  {
    ghost var f, h := e - 1, Last(s);
    assert N(s, h) in s.nodes && x in s.nodes;
    i := LinkNew(cpy, x, buc);
    forall j | 0 <= j < f ensures NodeIn(s, f, j) && NodeUpto(s, f, j) {
      assert old(NodeUpto(s, f, j)) && !Same(s, j, f) && N(s, j) in s.nodes && NodeIn(s, f, j);
    }
    forall j | 0 <= j < f || j == h ensures HomeIn(s, j) && BucketUpto(s, olds, j) {
      assert old(BucketUpto(s, olds, j));
    }
    forall b | b in olds ensures SpareUpto(s, f, b) {
      assert old(SpareUpto(s, f, b));
    }
    assert !Same(s, h, f);
  }

  method LinkNew(cpy: Chain, x: Cell, buc: Cell) returns (ghost i: int)
    requires cpy.Valid() && Singles(cpy.s) && x !in cpy.s.nodes && x !in cpy.buckets
    requires buc in cpy.buckets && B(cpy.s, Last(cpy.s)) != buc
    modifies x`prior, x`next, cpy`s, cpy.s.nodes`prior, cpy.s.nodes`next, buc`prior
    ensures cpy.Valid() && Singles(cpy.s) && Before(old(cpy.s), [x], i, buc, cpy.s)
  {
    ghost var t := cpy.s;
    HeaderPlace(t);
    i := Link(cpy, x, buc);
  }

  // One turn of the loop: the last node of the old chain passes to its bucket in the new one.
  method Pass(ghost s: Layout, ghost olds: set<Cell>, ghost e: int, cpy: Chain, end: Cell, x: Cell, buc: Cell)
      returns (emptied: bool, ghost i: int)
    requires Simple(s) && 0 < e <= Last(s) && Boundary(s, e) && Upto(s, olds, e) && end == N(s, Last(s))
      && x == N(s, e - 1)
    requires cpy.Valid() && Singles(cpy.s) && Separate(s, olds, cpy.s, cpy.buckets, e)
    requires buc in cpy.buckets && B(cpy.s, Last(cpy.s)) != buc
    modifies end`prior, N(s, Tail(s, e - 1))`next, B(s, e - 1)`prior
    modifies x`prior, x`next, cpy`s, cpy.s.nodes`prior, cpy.s.nodes`next, buc`prior
    ensures Boundary(s, e - 1) && Upto(s, olds, e - 1) && (emptied <==> e - 1 == K(s, e - 1).lo)
    ensures cpy.Valid() && Singles(cpy.s) && Before(old(cpy.s), [x], i, buc, cpy.s)
    ensures Separate(s, olds, cpy.s, cpy.buckets, e - 1)
  {
    ghost var t := cpy.s;
    Ends(s, e);
    emptied := TakeOut(s, olds, e, cpy, end);
    assert x in s.nodes;
    i := PutIn(s, olds, e, cpy, x, buc);
    SeparateStill(s, olds, t, cpy.buckets, e, i, buc, cpy.s);
  }

  /* The rollback */

  // What was recorded of the nodes that have passed, the last node first.
  ghost predicate Recorded(s: Layout, hs: seq<nat>, hashes: seq<nat>, ptrs: seq<Cell>, k: int)
    requires Sized(s) && |hs| == Last(s) && 0 <= k < |hashes| == |ptrs| <= |hs|
  {
    hashes[k] == hs[|hs| - 1 - k] && ptrs[k] == N(s, |hs| - 1 - k)
  }

  // The nodes from e on have passed, and withinBucket tells whether the last of them left others in its bucket.
  ghost predicate Records(s: Layout, hs: seq<nat>, hashes: seq<nat>, ptrs: seq<Cell>, withinBucket: bool, e: int) {
    && Sized(s) && |hs| == Last(s) && 0 <= e <= |hs| && |hashes| == |ptrs| == |hs| - e
    && (forall k {:trigger Recorded(s, hs, hashes, ptrs, k)} | 0 <= k < |ptrs| :: Recorded(s, hs, hashes, ptrs, k))
    && (e < |hs| ==> (withinBucket <==> e != K(s, e).lo))
  }

  // The old chain, with the nodes before e.
  ghost predicate Left(s: Layout, olds: set<Cell>, hs: seq<nat>, bs: seq<Cell>, end: Cell, e: int)
    reads s.nodes`prior, s.nodes`next, olds`prior
  {
    && Simple(s) && 0 <= e <= Last(s) && Boundary(s, e) && Upto(s, olds, e) && end == N(s, Last(s)) && end in s.nodes
    && Bucketed(s, bs, hs) && (forall b {:trigger b in bs} | b in bs :: b in olds)
  }

  // The next node has the bucket number of this one just when its bucket goes on.
  lemma GoesOnToNext(s: Layout, hs: seq<nat>, bs: seq<Cell>, f: int)
    requires Simple(s) && Bucketed(s, bs, hs) && 0 <= f < Last(s) - 1
    ensures GoesOn(s, hs, bs, Position(hs[f], bs), f + 1)
  {
    Ends(s, f);
    Ends(s, f + 1);
    SameBucketNumber(s, bs, hs, f + 1, f);
  }

  method ReturnNext(ghost s: Layout, ghost olds: set<Cell>, ghost hs: seq<nat>, bs: seq<Cell>, h: nat, x: Cell,
      prevBuc: int, ghost e: int, end: Cell)
      returns (buc: int)
    requires Left(s, olds, hs, bs, end, e) && e < Last(s) && GoesOn(s, hs, bs, prevBuc, e) && x == N(s, e) && h == hs[e]
    modifies s.nodes`prior, s.nodes`next, olds`prior
    ensures Left(s, olds, hs, bs, end, e + 1) && (e + 1 < Last(s) ==> GoesOn(s, hs, bs, buc, e + 1))
  {
    buc := Position(h, bs);
    assert bs[buc] in bs && Homed(s, bs, hs, e);
    assert x in s.nodes && N(s, Tail(s, e)) in s.nodes;
    Return(s, olds, e + 1, x, bs[buc], buc == prevBuc, end);
    if e + 1 < Last(s) { GoesOnToNext(s, hs, bs, e); }
  }

  // The nodes come back, the last that passed first.
  method RollBack(ghost s: Layout, ghost olds: set<Cell>, ghost hs: seq<nat>, bs: seq<Cell>, hashes: seq<nat>,
      ptrs: seq<Cell>, withinBucket: bool, ghost e: int, end: Cell)
    requires Left(s, olds, hs, bs, end, e) && Records(s, hs, hashes, ptrs, withinBucket, e)
    modifies s.nodes`prior, s.nodes`next, olds`prior
    ensures Left(s, olds, hs, bs, end, Last(s))
  {
    var i := |ptrs|;
    if i != 0 {
      var prevBuc: int := Position(hashes[i - 1], bs);
      if !withinBucket { prevBuc := -1 - prevBuc; }
      assert Recorded(s, hs, hashes, ptrs, i - 1);
      var j := i;
      while j > 0
        invariant 0 <= j <= i && Left(s, olds, hs, bs, end, Last(s) - j)
        invariant j > 0 ==> GoesOn(s, hs, bs, prevBuc, Last(s) - j)
      {
        assert Recorded(s, hs, hashes, ptrs, j - 1);
        prevBuc := ReturnNext(s, olds, hs, bs, hashes[j - 1], ptrs[j - 1], prevBuc, Last(s) - j, end);
        j := j - 1;
      }
    }
  }

  /* All nodes pass */

  ghost predicate Halfway(s: Layout, olds: set<Cell>, hs: seq<nat>, bs: seq<Cell>, cpy: Chain, end: Cell, e: int)
    reads s.nodes`prior, s.nodes`next, olds`prior, cpy, cpy.s.nodes`prior, cpy.s.nodes`next, cpy.buckets`prior
  {
    && Left(s, olds, hs, bs, end, e)
    && cpy.Valid() && Singles(cpy.s) && Separate(s, olds, cpy.s, cpy.buckets, e) && Drawn(s, cpy.s, cpy.end)
  }

  lemma SinglesAreHashed(s: Layout, hs: seq<nat>)
    requires Sized(s) && Singles(s) && |hs| == Last(s)
    ensures Hashed(s, hs)
  {
    forall j | 0 <= j < |hs| ensures GroupHash(s, hs, j) {
      assert Alone(s, j);
    }
  }

  method PassNode(ghost s: Layout, ghost olds: set<Cell>, ghost hs: seq<nat>, ghost bs: seq<Cell>, ghost e: int,
      x: Cell, buc: Cell, cpy: Chain, end: Cell)
      returns (emptied: bool, ghost i: int)
    requires Halfway(s, olds, hs, bs, cpy, end, e) && e > 0 && x == N(s, e - 1)
    requires buc in cpy.buckets && B(cpy.s, Last(cpy.s)) != buc
    modifies s.nodes`prior, s.nodes`next, olds`prior, cpy.end`prior, cpy.end`next, cpy.buckets`prior, cpy`s
    ensures Halfway(s, olds, hs, bs, cpy, end, e - 1) && Before(old(cpy.s), [x], i, buc, cpy.s)
    ensures cpy.buckets == old(cpy.buckets) && (emptied <==> e - 1 == K(s, e - 1).lo)
  {
    ghost var t := cpy.s;
    assert BucketUpto(s, olds, e - 1);
    Ends(s, e);
    assert x in s.nodes && N(s, Tail(s, e - 1)) in s.nodes;
    emptied, i := Pass(s, olds, e, cpy, end, x, buc);
    DrawnStill(s, t, cpy.end, e, i, buc, cpy.s);
  }

  method PassOne(ghost s: Layout, ghost olds: set<Cell>, ghost hs: seq<nat>, ghost bs: seq<Cell>, ns: seq<Cell>,
      ghost homes: seq<Cell>, ghost pos: seq<int>, ghost e: int, h: nat, x: Cell, cpy: Chain, end: Cell)
      returns (emptied: bool, ghost now: seq<int>)
    requires Halfway(s, olds, hs, bs, cpy, end, e) && Passing(s, hs, ns, cpy, homes, pos, e) && e > 0
    requires x == N(s, e - 1) && h == hs[e - 1]
    modifies s.nodes`prior, s.nodes`next, olds`prior, cpy.end`prior, cpy.end`next, cpy.buckets`prior, cpy`s
    ensures Halfway(s, olds, hs, bs, cpy, end, e - 1) && Passing(s, hs, ns, cpy, homes, now, e - 1)
    ensures cpy.buckets == old(cpy.buckets) && (emptied <==> e - 1 == K(s, e - 1).lo)
  {
    ghost var t := cpy.s;
    var buc := ns[Position(h, ns)];
    assert buc in ns && OtherBuckets(ns, Position(h, ns), |ns| - 1);
    LinkedIsApart(t, cpy.buckets);
    ghost var i;
    emptied, i := PassNode(s, olds, hs, bs, e, x, buc, cpy, end);
    PassedNode(s, hs, ns, cpy, homes, pos, e, t, i, buc);
    now := NewPos(pos, e - 1, e, i);
  }

  lemma PassedNode(s: Layout, hs: seq<nat>, ns: seq<Cell>, cpy: Chain, homes: seq<Cell>, pos: seq<int>, e: int,
      t: Layout, i: int, b: Cell)
    requires Simple(s) && 0 < e <= Last(s) == |hs| && Before(t, [N(s, e - 1)], i, b, cpy.s) && cpy.Valid()
    requires Arrived(s, t, homes, pos, e) && HomesApart(t) && Buckets(ns) && B(t, Last(t)) == ns[|ns| - 1]
    requires |hs| == |homes| && b == ns[Position(hs[e - 1], ns)]
    requires forall c {:trigger c in ns} | c in ns :: c in cpy.buckets
    requires forall j {:trigger NewHome(hs, ns, homes, j)} | 0 <= j < |hs| :: NewHome(hs, ns, homes, j)
    ensures Passing(s, hs, ns, cpy, homes, NewPos(pos, e - 1, e, i), e - 1)
  {
    Ends(s, e);
    SinglesAreHashed(s, hs);
    PassedOne(s, hs, ns, cpy, homes, pos, e, t, i, b);
  }

  lemma LastNode(s: Layout, olds: set<Cell>, hs: seq<nat>, bs: seq<Cell>, end: Cell, e: int)
    requires Left(s, olds, hs, bs, end, e) && e > 0
    ensures end.prior == N(s, e - 1)
  {
  }

  lemma OneMoreRecord(s: Layout, hs: seq<nat>, hashes: seq<nat>, ptrs: seq<Cell>, withinBucket: bool, e: int, h: nat,
      x: Cell, within1: bool)
    requires Records(s, hs, hashes, ptrs, withinBucket, e) && e > 0 && h == hs[e - 1] && x == N(s, e - 1)
    requires within1 <==> e - 1 != K(s, e - 1).lo
    ensures Records(s, hs, hashes + [h], ptrs + [x], within1, e - 1)
  {
    forall k | 0 <= k < |ptrs| + 1 ensures Recorded(s, hs, hashes + [h], ptrs + [x], k) {
      assert k < |ptrs| ==> Recorded(s, hs, hashes, ptrs, k);
    }
  }

  // One turn of the loop, unless the hash throws.
  method PassNext(ghost s: Layout, ghost olds: set<Cell>, ghost hs: seq<nat>, ghost bs: seq<Cell>, ns: seq<Cell>,
      ghost homes: seq<Cell>, ghost pos: seq<int>, ghost e: int, hash: Hash, cpy: Chain, end: Cell, hashes: seq<nat>,
      ptrs: seq<Cell>, withinBucket: bool)
      returns (ok: bool, hashes1: seq<nat>, ptrs1: seq<Cell>, within1: bool, ghost now: seq<int>)
    requires Halfway(s, olds, hs, bs, cpy, end, e) && Passing(s, hs, ns, cpy, homes, pos, e) && e > 0
    requires Records(s, hs, hashes, ptrs, withinBucket, e)
    requires forall j {:trigger hs[j]} | 0 <= j < Last(s) == |hs| :: hash(N(s, j).value) == hs[j]
    modifies s.nodes`prior, s.nodes`next, olds`prior, cpy.end`prior, cpy.end`next, cpy.buckets`prior, cpy`s
    ensures var f := if ok then e - 1 else e;
      && Halfway(s, olds, hs, bs, cpy, end, f) && Passing(s, hs, ns, cpy, homes, now, f)
      && Records(s, hs, hashes1, ptrs1, within1, f)
    ensures cpy.buckets == old(cpy.buckets)
  {
    var throws: bool := *;
    LastNode(s, olds, hs, bs, end, e);
    var x := end.prior;
    if throws {
      return false, hashes, ptrs, withinBucket, pos;
    }
    var h := hash(x.value);
    var emptied;
    emptied, now := PassOne(s, olds, hs, bs, ns, homes, pos, e, h, x, cpy, end);
    OneMoreRecord(s, hs, hashes, ptrs, withinBucket, e, h, x, !emptied);
    ok, hashes1, ptrs1, within1 := true, hashes + [h], ptrs + [x], !emptied;
  }

  // Passes one node after the other, until none is left or the hash throws.
  method PassAll(ghost s: Layout, ghost olds: set<Cell>, ghost hs: seq<nat>, ghost bs: seq<Cell>, ns: seq<Cell>,
      ghost homes: seq<Cell>, ghost pos0: seq<int>, hash: Hash, size: nat, cpy: Chain, end: Cell)
      returns (ok: bool, hashes: seq<nat>, ptrs: seq<Cell>, withinBucket: bool, ghost e: int, ghost pos: seq<int>)
    requires Halfway(s, olds, hs, bs, cpy, end, size) && Passing(s, hs, ns, cpy, homes, pos0, size) && size == Last(s)
    requires forall j {:trigger hs[j]} | 0 <= j < Last(s) == |hs| :: hash(N(s, j).value) == hs[j]
    modifies s.nodes`prior, s.nodes`next, olds`prior, cpy.end`prior, cpy.end`next, cpy.buckets`prior, cpy`s
    ensures cpy.buckets == old(cpy.buckets) && Halfway(s, olds, hs, bs, cpy, end, e)
      && Passing(s, hs, ns, cpy, homes, pos, e)
    ensures Records(s, hs, hashes, ptrs, withinBucket, e) && (ok ==> e == 0)
  {
    hashes, ptrs, withinBucket := [], [], false;
    e, pos := size, pos0;
    var i := 0;
    ok := true;
    while i != size && ok
      invariant 0 <= i <= size && e == size - i && cpy.buckets == old(cpy.buckets)
      invariant Halfway(s, olds, hs, bs, cpy, end, e) && Passing(s, hs, ns, cpy, homes, pos, e)
      invariant Records(s, hs, hashes, ptrs, withinBucket, e)
      decreases ok, size - i
    {
      ok, hashes, ptrs, withinBucket, pos :=
        PassNext(s, olds, hs, bs, ns, homes, pos, e, hash, cpy, end, hashes, ptrs, withinBucket);
      if ok {
        i, e := i + 1, e - 1;
      }
    }
  }

  /* Rehashing */

  lemma Ready(s: Layout, olds: set<Cell>, hs: seq<nat>, bs: seq<Cell>, ns: seq<Cell>, homes: seq<Cell>, pos: seq<int>,
      cpy: Chain, end: Cell)
    requires Hosted(s, olds, bs, hs) && Singles(s) && Room(s, olds, ns, cpy.end) && end == N(s, Last(s))
    requires cpy.Valid() && cpy.s == Chain.Blank(cpy.end, ns[|ns| - 1]) && SetOf(ns, cpy.buckets)
    requires |homes| == |hs| == |pos| && forall j {:trigger NewHome(hs, ns, homes, j)} | 0 <= j < |hs| ::
      NewHome(hs, ns, homes, j)
    ensures Halfway(s, olds, hs, bs, cpy, end, Last(s)) && Passing(s, hs, ns, cpy, homes, pos, Last(s))
  {
    forall i | Inside(s, i) ensures Parted(s, i) {
      assert Alone(s, i);
    }
    BlankIsReady(s, olds, hs, bs, ns, homes, pos, cpy, end);
    BlankIsSingles(cpy.end, ns[|ns| - 1]);
  }

  lemma WithEndIsSingles(t: Layout, end: Cell)
    requires Shaped(t) && Singles(t)
    ensures Singles(WithEnd(t, end))
  {
    forall j | Inside(t, j) ensures Alone(WithEnd(t, end), j) {
      assert Alone(t, j);
    }
  }

  // The new chain becomes that of the index.
  method Commit(ghost s: Layout, ghost olds: set<Cell>, ghost hs: seq<nat>, ghost bs: seq<Cell>, ghost ns: seq<Cell>,
      ghost homes: seq<Cell>, ghost pos: seq<int>, cpy: Chain, end: Cell)
      returns (ghost t: Layout)
    requires Halfway(s, olds, hs, bs, cpy, end, 0) && Passing(s, hs, ns, cpy, homes, pos, 0)
    modifies end`prior, end`next, cpy.s.nodes`prior, cpy.buckets`prior
    ensures Linked(t, cpy.buckets) && Singles(t) && Rehashed(s, t, hs, ns, homes, pos)
  {
    ghost var x := N(s, Last(s));
    ArrivedWithEnd(s, cpy.s, homes, pos, end);
    WithEndIsSingles(cpy.s, end);
    t := TakeOver(cpy, end);
  }

  method Attempt(ghost s: Layout, ghost olds: set<Cell>, ghost hs: seq<nat>, bs: seq<Cell>, ns: seq<Cell>,
      ghost homes: seq<Cell>, hash: Hash, size: nat, end: Cell, cpyEnd: Cell)
      returns (ok: bool, ghost t: Layout, ghost pos: seq<int>)
    requires Hosted(s, olds, bs, hs) && Singles(s) && end == N(s, Last(s)) && Room(s, olds, ns, cpyEnd)
      && size == Last(s)
    requires forall j {:trigger hs[j]} | 0 <= j < Last(s) == |hs| :: hash(N(s, j).value) == hs[j]
    requires |homes| == |hs| && forall j {:trigger NewHome(hs, ns, homes, j)} | 0 <= j < |hs| ::
      NewHome(hs, ns, homes, j)
    modifies s.nodes`prior, s.nodes`next, olds`prior, cpyEnd`prior, cpyEnd`next, ns`prior
    ensures ok ==> Linked(t, set b <- ns) && Singles(t) && Rehashed(s, t, hs, ns, homes, pos)
    ensures !ok ==> Linked(s, olds)
  {
    var cpy := NewChain(s, olds, hs, bs, ns, homes, end, cpyEnd);
    pos := seq(|hs|, _ => 0);
    Ready(s, olds, hs, bs, ns, homes, pos, cpy, end);
    var hashes, ptrs, withinBucket;
    ghost var e;
    ok, hashes, ptrs, withinBucket, e, pos := PassAll(s, olds, hs, bs, ns, homes, pos, hash, size, cpy, end);
    if ok {
      t := Commit(s, olds, hs, bs, ns, homes, pos, cpy, end);
    } else {
      t := s;
      RollBack(s, olds, hs, bs, hashes, ptrs, withinBucket, e, end);
      UptoIsLinked(s, olds);
    }
  }

  // Passes the nodes of an index to a new array of buckets, or, when the hash throws, leaves every pointer as it was.
  method UncheckedRehash(ghost s: Layout, ghost olds: set<Cell>, ghost hs: seq<nat>, bs: seq<Cell>, ns: seq<Cell>,
      hash: Hash, size: nat, end: Cell, cpyEnd: Cell)
      returns (ok: bool, ghost t: Layout, ghost homes: seq<Cell>, ghost pos: seq<int>)
    requires Hosted(s, olds, bs, hs) && Singles(s) && end == N(s, Last(s)) && Room(s, olds, ns, cpyEnd)
      && size == Last(s)
    requires forall j {:trigger hs[j]} | 0 <= j < Last(s) == |hs| :: hash(N(s, j).value) == hs[j]
    modifies s.nodes`prior, s.nodes`next, olds`prior, cpyEnd`prior, cpyEnd`next, ns`prior
    ensures ok ==> Linked(t, set b <- ns) && Singles(t) && Rehashed(s, t, hs, ns, homes, pos)
    ensures ok ==> forall j | 0 <= j < |hs| :: InNewBucket(t, hs, ns, pos, j)
    ensures !ok ==> Linked(s, olds)
    ensures !ok ==> forall j {:trigger N(s, j)} | Inside(s, j) ::
      N(s, j).prior == old(N(s, j).prior) && N(s, j).next == old(N(s, j).next)
    ensures !ok ==> forall b {:trigger b.prior} | b in olds :: b.prior == old(b.prior)
  {
    homes := NewHomes(hs, ns);
    ok, t, pos := Attempt(s, olds, hs, bs, ns, homes, hash, size, end, cpyEnd);
    if ok {
      RehashedInBuckets(s, t, hs, ns, homes, pos);
    } else {
      LinkedDetermines(s, olds);
    }
  }
}
