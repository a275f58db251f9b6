/** Rehashing in terms of the groups of an index, of whatever size: those of two have no pointers of their own. */
module HashResize {

  import opened HashLayout
  import opened HashIndexNode
  import opened HashPrefix
  import opened HashRehash
  import S = Spans

  lemma SamePointersLink(s: Layout, t: Layout, buckets: set<Cell>)
    requires Shaped(t) && Linked(s, buckets) && SamePointers(s, t)
    ensures Linked(t, buckets)
  {
    forall j | Inside(t, j) ensures PriorOk(t, j) && NextOk(t, j) && HomeOk(t, buckets, j) {
      Pointers(s, buckets, j);
      Unfold(t, j);
      Unfold(s, j);
    }
    forall b | b in buckets ensures Spare(t, b) {
      assert Spare(s, b);
    }
  }

  /* Taking groups of two apart */

  ghost function Split(s: Layout): (t: Layout)
    requires Sized(s)
    ensures Sized(t) && |t.nodes| == |s.nodes|
  {
    s.(group := seq(|s.group|, j requires 0 <= j < |s.group| => if Large(s.group[j]) then s.group[j] else S.Span(j, j)))
  }

  lemma SplitAt(s: Layout, j: int)
    requires Sized(s) && Inside(s, j)
    ensures G(Split(s), j) == if Large(G(s, j)) then G(s, j) else S.Span(j, j)
  {
  }

  lemma SplitIsShaped(s: Layout)
    requires Shaped(s)
    ensures Shaped(Split(s)) && forall i {:trigger Parted(Split(s), i)} | Inside(s, i) :: Parted(Split(s), i)
  {
    var t := Split(s);
    forall j | 0 <= j < |t.group| ensures S.Covers(t.group, j) {
      SplitAt(s, j);
      Unfold(s, j);
      forall k | G(t, j).lo <= k <= G(t, j).hi ensures S.At(t.group, k) == S.At(t.group, j) {
        SplitAt(s, k);
        SameGroup(s, j, k);
      }
    }
    forall a, c | Inside(t, a) && Inside(t, c) && Same(t, a, c) ensures a == c {
      assert Same(s, a, c);
    }
    forall j | Inside(t, j) ensures Nested(t, j) && Parted(t, j) {
      SplitAt(s, j);
      Unfold(s, j);
      assert Nested(s, j) && forall k {:trigger B(t, k)} | Inside(t, k) :: B(t, k) == B(s, k);
    }
  }

  lemma SplitHasSamePointers(s: Layout)
    requires Shaped(s)
    ensures Shaped(Split(s)) && SamePointers(s, Split(s))
  {
    var t := Split(s);
    SplitIsShaped(s);
    forall j | Inside(s, j) ensures PriorNode(t, j) == PriorNode(s, j) && NextCell(t, j) == NextCell(s, j) {
      SplitAt(s, j);
      Unfold(s, j);
      Unfold(t, j);
    }
  }

  /* Putting them together again */

  // The node of s that stands at p in t.
  ghost function Came(s: Layout, t: Layout, homes: seq<Cell>, pos: seq<int>, p: int): (j: int)
    requires Arrived(s, t, homes, pos, 0) && 0 <= p < Last(t)
    ensures 0 <= j < |pos| && pos[j] == p
  {
    CameFrom(s, t, homes, pos, p);
    var j :| 0 <= j < |pos| && pos[j] == p; j
  }

  lemma CameFrom(s: Layout, t: Layout, homes: seq<Cell>, pos: seq<int>, p: int)
    requires Arrived(s, t, homes, pos, 0) && 0 <= p < Last(t)
    ensures exists j :: 0 <= j < |pos| && pos[j] == p
  {
    var ts, ss := t.nodes[..Last(t)], s.nodes[0..Last(s)];
    assert ts[p] in multiset(ts);
    assert ts[p] in ss;
    var j :| 0 <= j < |ss| && ss[j] == ts[p];
    assert Stands(s, t, j, pos[j], homes[j]);
    assert Same(t, p, pos[j]);
  }

  // Where node j stands is only its place.
  lemma CameOnce(s: Layout, t: Layout, homes: seq<Cell>, pos: seq<int>, j: int)
    requires Arrived(s, t, homes, pos, 0) && 0 <= j < |pos|
    ensures 0 <= pos[j] < Last(t) && Came(s, t, homes, pos, pos[j]) == j
  {
    assert Stands(s, t, j, pos[j], homes[j]);
    var k := Came(s, t, homes, pos, pos[j]);
    assert Stands(s, t, k, pos[k], homes[k]);
    assert Same(s, j, k);
  }

  // Nodes j to k, all with the same home, stand in a row.
  lemma {:induction false} InARow(homes: seq<Cell>, pos: seq<int>, j: int, k: int)
    requires 0 <= j <= k < |pos| == |homes|
    requires forall i {:trigger Adjoins(homes, pos, i)} | 0 <= i < |pos| - 1 :: Adjoins(homes, pos, i)
    requires forall i {:trigger homes[i]} | j <= i <= k :: homes[i] == homes[j]
    ensures pos[k] == pos[j] + (k - j)
    decreases k - j
  {
    if j < k {
      InARow(homes, pos, j, k - 1);
      assert Adjoins(homes, pos, k - 1);
    }
  }

  // The groups of s have the same home, and the layout u differs from it in small groups only.
  ghost predicate Whole(s: Layout, homes: seq<Cell>) {
    && Shaped(s) && |homes| == Last(s)
    && forall i, j {:trigger homes[i], homes[j]} | 0 <= i < |homes| && 0 <= j < |homes| && G(s, i) == G(s, j) ::
      homes[i] == homes[j]
  }

  lemma GroupInARow(s: Layout, t: Layout, homes: seq<Cell>, pos: seq<int>, i: int, j: int)
    requires Whole(s, homes) && Arrived(Split(s), t, homes, pos, 0) && 0 <= i < Last(s) && G(s, i).lo <= j <= G(s, i).hi
    ensures 0 <= j < |pos| && pos[j] == pos[i] + (j - i) && G(s, j) == G(s, i)
  {
    HeaderApart(s, i);
    Unfold(s, i);
    SameGroup(s, i, j);
    var a, b := if i < j then i else j, if i < j then j else i;
    forall k {:trigger homes[k]} | a <= k <= b ensures homes[k] == homes[a] {
      SameGroup(s, i, k);
      SameGroup(s, i, a);
    }
    InARow(homes, pos, a, b);
  }

  // The span of the group of node j of s around the place p of the node.
  ghost function Around(s: Layout, j: int, p: int): S.Span
    requires Sized(s) && Inside(s, j)
  {
    S.Span(p - (j - G(s, j).lo), p + (G(s, j).hi - j))
  }

  // t with the groups of s.
  ghost function Joined(s: Layout, t: Layout, homes: seq<Cell>, pos: seq<int>): (u: Layout)
    requires Sized(s) && Arrived(Split(s), t, homes, pos, 0)
    ensures Sized(u) && |u.nodes| == |t.nodes|
  {
    t.(group := seq(|t.group|, p requires 0 <= p < |t.group| =>
      if p == Last(t) then S.At(t.group, p) else Around(s, Came(Split(s), t, homes, pos, p), p)))
  }

  lemma JoinedAt(s: Layout, t: Layout, homes: seq<Cell>, pos: seq<int>, p: int)
    requires Whole(s, homes) && Arrived(Split(s), t, homes, pos, 0) && 0 <= p < Last(t)
    ensures var u, j := Joined(s, t, homes, pos), Came(Split(s), t, homes, pos, p);
      && G(u, p) == Around(s, j, p) && N(u, p) == N(s, j) && B(u, p) == homes[j] && B(u, p) == B(t, p)
      && K(u, p) == K(t, p)
      && 0 <= G(u, p).lo <= p <= G(u, p).hi < Last(u)
      && (Large(G(s, j)) ==> G(u, p) == G(t, p)) && (!Large(G(s, j)) ==> !Large(G(u, p)) && G(t, p) == S.Span(p, p))
  {
    var j := Came(Split(s), t, homes, pos, p);
    assert Stands(Split(s), t, j, pos[j], homes[j]);
    SplitAt(s, j);
    Unfold(s, j);
    HeaderApart(s, j);
    GroupInARow(s, t, homes, pos, j, G(s, j).lo);
    GroupInARow(s, t, homes, pos, j, G(s, j).hi);
    var lo, hi := G(s, j).lo, G(s, j).hi;
    assert Stands(Split(s), t, lo, pos[lo], homes[lo]) && Stands(Split(s), t, hi, pos[hi], homes[hi]);
  }

  lemma JoinedCovers(s: Layout, t: Layout, homes: seq<Cell>, pos: seq<int>, p: int, q: int)
    requires Whole(s, homes) && Arrived(Split(s), t, homes, pos, 0) && 0 <= p < Last(t)
    requires var u := Joined(s, t, homes, pos); G(u, p).lo <= q <= G(u, p).hi
    ensures var u := Joined(s, t, homes, pos); 0 <= q < Last(t) && G(u, q) == G(u, p) && B(t, q) == B(t, p)
  {
    var j := Came(Split(s), t, homes, pos, p);
    JoinedAt(s, t, homes, pos, p);
    Unfold(s, j);
    var k := j + (q - p);
    GroupInARow(s, t, homes, pos, j, k);
    CameOnce(Split(s), t, homes, pos, k);
    JoinedAt(s, t, homes, pos, q);
  }

  lemma JoinedIsShaped(s: Layout, t: Layout, homes: seq<Cell>, pos: seq<int>)
    requires Whole(s, homes) && Arrived(Split(s), t, homes, pos, 0) && HomesApart(t)
    ensures Shaped(Joined(s, t, homes, pos))
  {
    var u, h := Joined(s, t, homes, pos), Last(t);
    Unfold(t, h);
    HeaderPlace(t);
    forall p | 0 <= p < |u.group| ensures S.Covers(u.group, p) {
      if p < h {
        JoinedAt(s, t, homes, pos, p);
        forall q {:trigger S.At(u.group, q)} | G(u, p).lo <= q <= G(u, p).hi
          ensures S.At(u.group, q) == S.At(u.group, p)
        {
          JoinedCovers(s, t, homes, pos, p, q);
        }
      }
    }
    forall a, c | Inside(u, a) && Inside(u, c) && Same(u, a, c) ensures a == c {
      assert Same(t, a, c);
    }
    forall p | Inside(u, p) ensures Nested(u, p) {
      assert Nested(t, p) && forall k {:trigger B(u, k)} | Inside(u, k) :: B(u, k) == B(t, k);
      if p < h { JoinedNests(s, t, homes, pos, p); }
    }
  }

  lemma JoinedNests(s: Layout, t: Layout, homes: seq<Cell>, pos: seq<int>, p: int)
    requires Whole(s, homes) && Arrived(Split(s), t, homes, pos, 0) && HomesApart(t) && 0 <= p < Last(t)
    ensures var u := Joined(s, t, homes, pos);
      K(u, p).lo <= G(u, p).lo && G(u, p).hi <= K(u, p).hi && K(u, p) == K(t, p)
  {
    var u := Joined(s, t, homes, pos);
    JoinedAt(s, t, homes, pos, p);
    JoinedCovers(s, t, homes, pos, p, G(u, p).lo);
    JoinedCovers(s, t, homes, pos, p, G(u, p).hi);
    Unfold(t, G(u, p).lo);
    Unfold(t, G(u, p).hi);
    assert OneHome(t, p, G(u, p).lo) && OneHome(t, p, G(u, p).hi);
  }

  lemma JoinedHasSamePointers(s: Layout, t: Layout, homes: seq<Cell>, pos: seq<int>)
    requires Whole(s, homes) && Arrived(Split(s), t, homes, pos, 0) && HomesApart(t)
    ensures var u := Joined(s, t, homes, pos); Shaped(u) && SamePointers(t, u)
  {
    var u := Joined(s, t, homes, pos);
    JoinedIsShaped(s, t, homes, pos);
    forall p | Inside(t, p) ensures PriorNode(u, p) == PriorNode(t, p) && NextCell(u, p) == NextCell(t, p) {
      Unfold(t, p);
      Unfold(u, p);
      if p < Last(t) { JoinedAt(s, t, homes, pos, p); }
    }
  }

  lemma JoinedArrives(s: Layout, t: Layout, homes: seq<Cell>, pos: seq<int>)
    requires Whole(s, homes) && Arrived(Split(s), t, homes, pos, 0) && HomesApart(t)
    ensures Arrived(s, Joined(s, t, homes, pos), homes, pos, 0)
  {
    var u := Joined(s, t, homes, pos);
    JoinedIsShaped(s, t, homes, pos);
    forall j {:trigger pos[j]} | 0 <= j < |pos| ensures Stands(s, u, j, pos[j], homes[j]) {
      CameOnce(Split(s), t, homes, pos, j);
      JoinedAt(s, t, homes, pos, pos[j]);
    }
    if |pos| > 0 {
      CameOnce(Split(s), t, homes, pos, 0);
      JoinedAt(s, t, homes, pos, pos[0]);
    }
  }

  /* Rehashing */

  // What rehashing keeps: the nodes; each group, in its order; and each node is in the bucket its hash tells.
  ghost predicate Kept(s: Layout, t: Layout, hs: seq<nat>, ns: seq<Cell>, homes: seq<Cell>, pos: seq<int>) {
    && Rehashed(s, t, hs, ns, homes, pos)
    && forall i, j {:trigger pos[i], pos[j]} | 0 <= i < |pos| && 0 <= j < |pos| && G(s, i) == G(s, j) ::
      G(t, pos[i]) == G(t, pos[j]) && pos[j] - pos[i] == j - i
  }

  // Nodes of a group have the same hash.
  ghost predicate AlikeHashed(s: Layout, hs: seq<nat>) {
    && Sized(s) && |hs| == Last(s)
    && forall i, j {:trigger hs[i], hs[j]} | 0 <= i < |hs| && 0 <= j < |hs| && G(s, i) == G(s, j) :: hs[i] == hs[j]
  }

  lemma AlikeIsWhole(s: Layout, hs: seq<nat>, ns: seq<Cell>, homes: seq<Cell>)
    requires Shaped(s) && AlikeHashed(s, hs) && |homes| == |hs| && |ns| > 1
    requires forall j {:trigger NewHome(hs, ns, homes, j)} | 0 <= j < |hs| :: NewHome(hs, ns, homes, j)
    ensures Whole(s, homes) && Hashed(Split(s), hs)
  {
    forall i, j {:trigger homes[i], homes[j]} | 0 <= i < |homes| && 0 <= j < |homes| && G(s, i) == G(s, j)
      ensures homes[i] == homes[j]
    {
      assert NewHome(hs, ns, homes, i) && NewHome(hs, ns, homes, j);
      assert hs[i] == hs[j];
    }
    forall j | 0 <= j < |hs| ensures GroupHash(Split(s), hs, j) {
      SplitAt(s, j);
      Unfold(s, j);
      HeaderApart(s, j);
      SameGroup(s, j, G(s, j).hi);
      assert hs[j] == hs[G(s, j).hi];
    }
  }

  lemma KeptGroups(s: Layout, t: Layout, hs: seq<nat>, ns: seq<Cell>, homes: seq<Cell>, pos: seq<int>)
    requires Whole(s, homes) && Rehashed(s, t, hs, ns, homes, pos)
    ensures Kept(s, t, hs, ns, homes, pos)
  {
    forall i, j {:trigger pos[i], pos[j]} | 0 <= i < |pos| && 0 <= j < |pos| && G(s, i) == G(s, j)
      ensures G(t, pos[i]) == G(t, pos[j]) && pos[j] - pos[i] == j - i
    {
      Unfold(s, i);
      Unfold(s, j);
      var a, b := if i < j then i else j, if i < j then j else i;
      forall k {:trigger homes[k]} | a <= k <= b ensures homes[k] == homes[a] {
        SameGroup(s, i, k);
      }
      InARow(homes, pos, a, b);
      assert Stands(s, t, i, pos[i], homes[i]) && Stands(s, t, j, pos[j], homes[j]);
    }
  }

  lemma ReadyToRehash(s: Layout, olds: set<Cell>, hs: seq<nat>, bs: seq<Cell>, ns: seq<Cell>)
    requires Linked(s, olds) && SetOf(bs, olds) && Bucketed(s, bs, hs) && AlikeHashed(s, hs) && |ns| > 1
    ensures var t := Split(s);
      && Hosted(t, olds, bs, hs) && t.nodes == s.nodes
      && forall i {:trigger Parted(t, i)} | Inside(t, i) :: Parted(t, i)
  {
    SplitIsShaped(s);
    SplitHasSamePointers(s);
    SamePointersLink(s, Split(s), olds);
    AlikeIsWhole(s, hs, ns, NewHomes(hs, ns));
    forall j | 0 <= j < Last(s) ensures Homed(Split(s), bs, hs, j) {
      assert Homed(s, bs, hs, j);
    }
  }

  lemma JoinBack(s: Layout, olds: set<Cell>)
    requires Shaped(s) && Linked(Split(s), olds)
    ensures Linked(s, olds)
  {
    var t := Split(s);
    SplitHasSamePointers(s);
    forall j | Inside(s, j) ensures PriorNode(s, j) == PriorNode(t, j) && NextCell(s, j) == NextCell(t, j) {
      var x, y := PriorNode(t, j), NextCell(t, j);
    }
    SamePointersLink(t, s, olds);
  }

  lemma Rejoin(s: Layout, u: Layout, hs: seq<nat>, ns: seq<Cell>, homes: seq<Cell>, pos: seq<int>, buckets: set<Cell>)
      returns (t: Layout)
    requires Whole(s, homes) && Rehashed(Split(s), u, hs, ns, homes, pos) && Linked(u, buckets)
    ensures Linked(t, buckets) && Kept(s, t, hs, ns, homes, pos)
  {
    t := Joined(s, u, homes, pos);
    LinkedIsApart(u, buckets);
    JoinedHasSamePointers(s, u, homes, pos);
    SamePointersLink(u, t, buckets);
    JoinedArrives(s, u, homes, pos);
    KeptGroups(s, t, hs, ns, homes, pos);
  }

  // Rehashes to the buckets ns, or, when the hash throws, leaves every pointer as it was.
  method Rehash(ghost s: Layout, ghost olds: set<Cell>, ghost hs: seq<nat>, bs: seq<Cell>, ns: seq<Cell>, hash: Hash,
      end: Cell, cpyEnd: Cell)
      returns (ok: bool, ghost t: Layout, ghost homes: seq<Cell>, ghost pos: seq<int>)
    requires Linked(s, olds) && SetOf(bs, olds) && Bucketed(s, bs, hs) && AlikeHashed(s, hs)
    requires end == N(s, Last(s)) && Room(s, olds, ns, cpyEnd)
    requires forall j {:trigger hs[j]} | 0 <= j < Last(s) == |hs| :: hash(N(s, j).value) == hs[j]
    modifies s.nodes`prior, s.nodes`next, olds`prior, cpyEnd`prior, cpyEnd`next, ns`prior
    ensures ok ==> Linked(t, set b <- ns) && Kept(s, t, hs, ns, homes, pos)
    ensures !ok ==> Linked(s, olds)
    ensures !ok ==> forall j {:trigger N(s, j)} | Inside(s, j) ::
      N(s, j).prior == old(N(s, j).prior) && N(s, j).next == old(N(s, j).next)
    ensures !ok ==> forall b {:trigger b.prior} | b in olds :: b.prior == old(b.prior)
  {
    ghost var s1 := Split(s);
    ReadyToRehash(s, olds, hs, bs, ns);
    ghost var u;
    ok, u, homes, pos := UncheckedRehash(s1, olds, hs, bs, ns, hash, end, cpyEnd);
    if ok {
      AlikeIsWhole(s, hs, ns, homes);
      t := Rejoin(s, u, hs, ns, homes, pos, set b <- ns);
    } else {
      t := s;
      JoinBack(s, olds);
      forall j {:trigger N(s, j)} | Inside(s, j)
        ensures N(s, j).prior == old(N(s, j).prior) && N(s, j).next == old(N(s, j).next)
      {
        assert N(s, j) == N(s1, j);
      }
    }
  }
}
