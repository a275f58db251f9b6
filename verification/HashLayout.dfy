/** The order a hashed non-unique index keeps its elements in, as a value, and what the two pointers of each
    node must be for it. */
module HashLayout {

  import S = Spans

  // A node; a bucket, which has a prior pointer only; or the header.
  class Cell {
    var value: int
    var prior: Cell?
    var next: Cell?

    constructor (v: int)
      ensures value == v
    {
      value := v;
    }
  }

  // h is q times n and p, which is less than n: of n buckets, p is the number of the one of hash h.
  ghost predicate Divides(n: int, h: int, q: int, p: int) {
    h == q * n + p && 0 <= p < n
  }

  // The nodes in chain order, the header last, with the group, the bucket interval and the bucket of each.
  datatype Layout = Layout(nodes: seq<Cell>, group: seq<S.Span>, bucket: seq<S.Span>, home: seq<Cell>)

  ghost predicate Inside(s: Layout, i: int) {
    0 <= i < |s.nodes|
  }

  ghost predicate Sized(s: Layout) {
    |s.nodes| == |s.group| == |s.bucket| == |s.home| > 0
  }

  ghost function Last(s: Layout): int {
    |s.nodes| - 1
  }

  ghost function N(s: Layout, i: int): Cell
    requires Inside(s, i)
  {
    s.nodes[i]
  }

  ghost function B(s: Layout, i: int): Cell
    requires Sized(s) && Inside(s, i)
  {
    s.home[i]
  }

  ghost function G(s: Layout, i: int): S.Span
    requires Sized(s) && Inside(s, i)
  {
    S.At(s.group, i)
  }

  ghost function K(s: Layout, i: int): S.Span
    requires Sized(s) && Inside(s, i)
  {
    S.At(s.bucket, i)
  }

  ghost predicate Same(s: Layout, i: int, j: int)
    requires Inside(s, i) && Inside(s, j)
  {
    N(s, i) == N(s, j)
  }

  ghost predicate Distinct(s: Layout) {
    forall i, j {:trigger Same(s, i, j)} | Inside(s, i) && Inside(s, j) && Same(s, i, j) :: i == j
  }

  // Groups lie within buckets, and all the nodes of a bucket interval have the same bucket.
  ghost predicate Nested(s: Layout, i: int)
    requires Sized(s) && Inside(s, i)
  {
    && K(s, i).lo <= G(s, i).lo && G(s, i).hi <= K(s, i).hi
    && (forall j {:trigger B(s, j)} | Inside(s, j) && K(s, i).lo <= j <= K(s, i).hi :: B(s, j) == B(s, i))
  }

  // The header is the only node of its bucket.
  ghost predicate Shaped(s: Layout) {
    && Sized(s)
    && Distinct(s)
    && S.Partition(s.group) && S.Partition(s.bucket)
    && (forall i {:trigger Nested(s, i)} | Inside(s, i) :: Nested(s, i))
    && K(s, Last(s)).lo == Last(s)
  }

  lemma Unfold(s: Layout, i: int)
    requires Shaped(s) && Inside(s, i)
    ensures 0 <= K(s, i).lo <= G(s, i).lo <= i <= G(s, i).hi <= K(s, i).hi < |s.nodes|
  {
    assert S.Covers(s.group, i) && S.Covers(s.bucket, i) && Nested(s, i);
  }

  lemma SameGroup(s: Layout, i: int, j: int)
    requires Shaped(s) && Inside(s, i) && G(s, i).lo <= j <= G(s, i).hi
    ensures Inside(s, j) && G(s, j) == G(s, i) && K(s, j) == K(s, i) && B(s, j) == B(s, i)
  {
    assert S.Covers(s.group, i) && S.Covers(s.bucket, i) && Nested(s, i);
  }

  lemma SameBucket(s: Layout, i: int, j: int)
    requires Shaped(s) && Inside(s, i) && K(s, i).lo <= j <= K(s, i).hi
    ensures Inside(s, j) && K(s, j) == K(s, i) && B(s, j) == B(s, i)
  {
    assert S.Covers(s.bucket, i) && Nested(s, i);
  }

  // Groups are equal or apart.
  lemma Apart(s: Layout, i: int, j: int)
    requires Shaped(s) && Inside(s, i) && Inside(s, j)
    ensures G(s, i) == G(s, j) || G(s, i).hi < G(s, j).lo || G(s, j).hi < G(s, i).lo
    ensures K(s, i) == K(s, j) || K(s, i).hi < K(s, j).lo || K(s, j).hi < K(s, i).lo
  {
    Unfold(s, i);
    Unfold(s, j);
    if G(s, i).lo <= G(s, j).lo <= G(s, i).hi { SameGroup(s, i, G(s, j).lo); SameGroup(s, j, G(s, j).lo); }
    if G(s, j).lo <= G(s, i).lo <= G(s, j).hi { SameGroup(s, j, G(s, i).lo); SameGroup(s, i, G(s, i).lo); }
    if K(s, i).lo <= K(s, j).lo <= K(s, i).hi { SameBucket(s, i, K(s, j).lo); SameBucket(s, j, K(s, j).lo); }
    if K(s, j).lo <= K(s, i).lo <= K(s, j).hi { SameBucket(s, j, K(s, i).lo); SameBucket(s, i, K(s, i).lo); }
  }

  lemma HeaderApart(s: Layout, i: int)
    requires Shaped(s) && 0 <= i < Last(s)
    ensures G(s, i).hi <= K(s, i).hi < Last(s)
  {
    Unfold(s, i);
    if K(s, i).hi == Last(s) { SameBucket(s, i, Last(s)); }
  }

  /* The pointers */

  // Where the prior pointer of index i of a group g leads: back in the chain, but from the second of three or more to
  // the last.
  function Back(i: int, g: S.Span, last: int): int {
    if i == g.lo then (if i == 0 then last else i - 1)
    else if i == g.lo + 1 && g.lo + 2 <= g.hi then g.hi
    else i - 1
  }

  // Where the next pointer of an index that is not the last of its bucket leads: on in the chain, but from the
  // last but one of three or more to the first.
  function Forth(i: int, g: S.Span): int {
    if i == g.hi - 1 && g.lo + 2 <= g.hi then g.lo else i + 1
  }

  ghost function Following(s: Layout, i: int): int {
    if i == Last(s) then 0 else i + 1
  }

  ghost function PriorNode(s: Layout, i: int): (r: Cell)
    requires Shaped(s) && Inside(s, i)
  {
    Unfold(s, i);
    N(s, Back(i, G(s, i), Last(s)))
  }

  // The next pointer of the last of a bucket leads to the bucket of the following node.
  ghost function NextCell(s: Layout, i: int): (r: Cell)
    requires Shaped(s) && Inside(s, i)
  {
    Unfold(s, i);
    if i == K(s, i).hi then B(s, Following(s, i)) else N(s, Forth(i, G(s, i)))
  }

  ghost function Front(s: Layout, i: int): (r: Cell)
    requires Shaped(s) && Inside(s, i)
  {
    Unfold(s, i);
    N(s, K(s, i).lo)
  }

  // The nodes around the header's place.
  lemma HeaderPlace(s: Layout)
    requires Shaped(s)
    ensures var e, p := Last(s), if Last(s) == 0 then 0 else Last(s) - 1;
      && PriorNode(s, e) == N(s, p) && NextCell(s, p) == B(s, e) && Following(s, p) == e
      && K(s, p).hi == p && K(s, e).lo == e && G(s, e).lo == e && e == G(s, e).hi
  {
    var e, p := Last(s), if Last(s) == 0 then 0 else Last(s) - 1;
    Unfold(s, e);
    Unfold(s, p);
    if p < e { HeaderApart(s, p); }
  }

  // Buckets with the same first node are the same.
  lemma OneFront(s: Layout, i: int, j: int)
    requires Shaped(s) && Inside(s, i) && Inside(s, j) && Front(s, i) == Front(s, j)
    ensures K(s, i) == K(s, j)
  {
    Unfold(s, i);
    Unfold(s, j);
    Apart(s, i, j);
    assert Same(s, K(s, i).lo, K(s, j).lo);
  }

  /* Other groups with the same pointers */

  // The layouts differ in their groups only, and not in any pointer.
  ghost predicate SamePointers(s: Layout, t: Layout)
    requires Shaped(s) && Shaped(t)
  {
    && t.nodes == s.nodes && t.bucket == s.bucket && t.home == s.home
    && (forall j {:trigger PriorNode(t, j)} | Inside(s, j) :: PriorNode(t, j) == PriorNode(s, j))
    && (forall j {:trigger NextCell(t, j)} | Inside(s, j) :: NextCell(t, j) == NextCell(s, j))
  }

  ghost function Large(g: S.Span): bool {
    g.lo + 2 <= g.hi
  }

  // A large group shows in the pointers.
  lemma LargeIsFixed(s: Layout, t: Layout, i: int)
    requires Shaped(s) && Shaped(t) && SamePointers(s, t) && Inside(s, i) && Large(G(s, i))
    ensures G(t, i) == G(s, i)
  {
    var f, l := G(s, i).lo, G(s, i).hi;
    Unfold(s, i);
    SameGroup(s, i, f + 1);
    Unfold(t, f + 1);
    assert PriorNode(t, f + 1) == PriorNode(s, f + 1);
    assert Same(s, l, Back(f + 1, G(t, f + 1), Last(t)));
    SameGroup(t, f + 1, i);
  }

  /* Dropping node i */

  ghost function Dropped(s: Layout, i: int): (t: Layout)
    requires Sized(s) && 0 <= i < Last(s)
    ensures Sized(t) && Last(t) == Last(s) - 1
  {
    Layout(s.nodes[..i] + s.nodes[i + 1..], S.Dropped(s.group, i, 1), S.Dropped(s.bucket, i, 1),
      s.home[..i] + s.home[i + 1..])
  }

  lemma DroppedAt(s: Layout, i: int, j: int)
    requires Sized(s) && 0 <= i < Last(s) && 0 <= j < Last(s)
    ensures N(Dropped(s, i), j) == N(s, S.Up(j, i, 1)) && B(Dropped(s, i), j) == B(s, S.Up(j, i, 1))
    ensures G(Dropped(s, i), j) == S.Closed(G(s, S.Up(j, i, 1)), i, 1)
    ensures K(Dropped(s, i), j) == S.Closed(K(s, S.Up(j, i, 1)), i, 1)
  {
    S.DroppedAt(s.group, i, 1, j);
    S.DroppedAt(s.bucket, i, 1, j);
  }

  // The node at i is gone, and the others are there.
  lemma OthersStay(s: Layout, i: int)
    requires Shaped(s) && 0 <= i < Last(s)
    ensures forall j {:trigger N(s, j)} | Inside(s, j) && j != i :: N(s, j) in Dropped(s, i).nodes
    ensures N(s, i) !in Dropped(s, i).nodes && N(Dropped(s, i), Last(s) - 1) == N(s, Last(s))
  {
    forall j {:trigger N(s, j)} | Inside(s, j) && j != i ensures N(s, j) in Dropped(s, i).nodes {
      OtherStays(s, i, j);
    }
    if N(s, i) in Dropped(s, i).nodes {
      var k :| 0 <= k < Last(s) && Dropped(s, i).nodes[k] == N(s, i);
      assert Same(s, i, S.Up(k, i, 1));
    }
  }

  lemma OtherStays(s: Layout, i: int, j: int)
    requires Sized(s) && 0 <= i < Last(s) && Inside(s, j) && j != i
    ensures N(s, j) in Dropped(s, i).nodes && N(Dropped(s, i), S.Before(j, i, 1)) == N(s, j)
  {
    var t := Dropped(s, i).nodes;
    assert t[S.Before(j, i, 1)] == s.nodes[j];
  }

  lemma DroppedIsDistinct(s: Layout, i: int)
    requires Sized(s) && Distinct(s) && 0 <= i < Last(s)
    ensures Distinct(Dropped(s, i))
  {
    var t := Dropped(s, i);
    forall j, k | Inside(t, j) && Inside(t, k) && Same(t, j, k) ensures j == k {
      DroppedAt(s, i, j);
      DroppedAt(s, i, k);
      assert Same(s, S.Up(j, i, 1), S.Up(k, i, 1));
    }
  }

  lemma DroppedIsShaped(s: Layout, i: int)
    requires Shaped(s) && 0 <= i < Last(s)
    ensures Shaped(Dropped(s, i))
  {
    var t := Dropped(s, i);
    DroppedIsDistinct(s, i);
    S.DroppedIsPartition(s.group, i, 1);
    S.DroppedIsPartition(s.bucket, i, 1);
    forall j | Inside(t, j) ensures Nested(t, j) {
      DroppedIsNested(s, i, j);
    }
    DroppedAt(s, i, Last(t));
  }

  lemma DroppedIsNested(s: Layout, i: int, j: int)
    requires Shaped(s) && 0 <= i < Last(s) && 0 <= j < Last(s)
    ensures Nested(Dropped(s, i), j)
  {
    var t := Dropped(s, i);
    var j0 := S.Up(j, i, 1);
    DroppedAt(s, i, j);
    Unfold(s, j0);
    forall k | Inside(t, k) && K(t, j).lo <= k <= K(t, j).hi ensures B(t, k) == B(t, j) {
      DroppedAt(s, i, k);
      SameBucket(s, j0, S.Up(k, i, 1));
    }
  }

  // Where the prior pointer of index j must lead once i is dropped.
  function BackWithout(i: int, g: S.Span, j: int, h: S.Span, last: int): int {
    var f, l := g.lo, g.hi;
    if i == l then                                        // last of its group
      if j == l + 1 then (if f == l then Back(i, g, last) else l - 1)
      else if j == f + 1 && f + 2 <= l then (if f + 3 <= l then l - 1 else f)
      else Back(j, h, last)
    else if i == f then                                   // first of two or more
      if j == f + 1 then Back(i, g, last)
      else if j == f + 2 && f + 3 <= l then l
      else Back(j, h, last)
    else if i == f + 1 then                               // second of three or more
      if j == f + 2 then (if f + 3 <= l then l else f) else Back(j, h, last)
    else if j == i + 1 then i - 1 else Back(j, h, last)
  }

  lemma BackOfClosed(i: int, g: S.Span, j: int, h: S.Span, last: int)
    requires 0 <= g.lo <= i <= g.hi < last && 0 <= h.lo <= j <= h.hi <= last && i != j
    requires h == g || h.hi < g.lo || g.hi < h.lo
    ensures var r := Back(S.Before(j, i, 1), S.Closed(h, i, 1), last - 1);
      0 <= r < last && S.Up(r, i, 1) == BackWithout(i, g, j, h, last)
  {
  }

  lemma PriorOfDropped(s: Layout, i: int, j: int)
    requires Shaped(s) && 0 <= i < Last(s) && Inside(s, j) && i != j
    ensures 0 <= BackWithout(i, G(s, i), j, G(s, j), Last(s)) <= Last(s)
    ensures Shaped(Dropped(s, i)) && Inside(Dropped(s, i), S.Before(j, i, 1))
    ensures PriorNode(Dropped(s, i), S.Before(j, i, 1)) == N(s, BackWithout(i, G(s, i), j, G(s, j), Last(s)))
  {
    var t := Dropped(s, i);
    DroppedIsShaped(s, i);
    DroppedAt(s, i, S.Before(j, i, 1));
    Unfold(s, i);
    Unfold(s, j);
    HeaderApart(s, i);
    Apart(s, i, j);
    BackOfClosed(i, G(s, i), j, G(s, j), Last(s));
    DroppedAt(s, i, Back(S.Before(j, i, 1), G(t, S.Before(j, i, 1)), Last(t)));
  }

  // Where the next pointer of index j, not the last of its bucket, must lead once i is dropped.
  function ForthWithout(i: int, g: S.Span, j: int, h: S.Span): int {
    var f, l := g.lo, g.hi;
    if j == i - 1 then (if i == l - 1 && f + 3 <= l then f else i + 1)
    else if j == l - 2 && i == l && f + 3 <= l then f
    else if j == l - 1 && i == f && f + 2 <= l then (if f + 3 <= l then f + 1 else l)
    else Forth(j, h)
  }

  lemma ForthOfClosed(i: int, g: S.Span, j: int, h: S.Span, k: S.Span, last: int)
    requires 0 <= g.lo <= i <= g.hi < last && 0 <= h.lo <= j <= h.hi <= last && i != j
    requires h == g || h.hi < g.lo || g.hi < h.lo
    requires h.hi <= k.hi <= last && k.lo <= h.lo
    requires S.Before(j, i, 1) < S.Closed(k, i, 1).hi
    ensures var r := Forth(S.Before(j, i, 1), S.Closed(h, i, 1));
      0 <= r < last && S.Up(r, i, 1) == ForthWithout(i, g, j, h)
  {
  }

  // What the next pointer of node j must be once i is dropped.
  ghost function NextWithout(s: Layout, i: int, j: int): Cell
    requires Shaped(s) && 0 <= i < Last(s) && Inside(s, j) && i != j
  {
    var r := ForthWithout(i, G(s, i), j, G(s, j));
    if Following(s, j) == i && i == K(s, i).hi then NextCell(s, i)
    else if j == K(s, j).hi || !Inside(s, r) then NextCell(s, j)
    else N(s, r)
  }

  lemma NextOfDropped(s: Layout, i: int, j: int)
    requires Shaped(s) && 0 <= i < Last(s) && Inside(s, j) && i != j
    ensures Shaped(Dropped(s, i)) && Inside(Dropped(s, i), S.Before(j, i, 1))
    ensures NextCell(Dropped(s, i), S.Before(j, i, 1)) == NextWithout(s, i, j)
  {
    var t := Dropped(s, i);
    var u := S.Before(j, i, 1);
    DroppedIsShaped(s, i);
    DroppedAt(s, i, u);
    Unfold(s, i);
    Unfold(s, j);
    HeaderApart(s, i);
    Apart(s, i, j);
    if u == K(t, u).hi {
      LastOfDropped(s, i, j);
    } else {
      ForthOfClosed(i, G(s, i), j, G(s, j), K(s, j), Last(s));
      DroppedAt(s, i, Forth(u, G(t, u)));
    }
  }

  lemma LastOfDropped(s: Layout, i: int, j: int)
    requires Shaped(s) && 0 <= i < Last(s) && Inside(s, j) && i != j
    requires S.Before(j, i, 1) == S.Closed(K(s, j), i, 1).hi
    ensures var t := Dropped(s, i);
      B(t, Following(t, S.Before(j, i, 1))) == NextWithout(s, i, j)
  {
    var t := Dropped(s, i);
    var u := S.Before(j, i, 1);
    Unfold(s, i);
    Unfold(s, j);
    HeaderApart(s, i);
    Apart(s, i, j);
    DroppedAt(s, i, Following(t, u));
    if Following(s, j) == i && i != K(s, i).hi { SameBucket(s, i, i + 1); }
  }

  // The first node of the bucket of j once i is dropped.
  lemma FrontOfDropped(s: Layout, i: int, j: int)
    requires Shaped(s) && 0 <= i < Last(s) && Inside(s, j) && i != j
    ensures Shaped(Dropped(s, i)) && Inside(Dropped(s, i), S.Before(j, i, 1))
    ensures Front(Dropped(s, i), S.Before(j, i, 1)) == if K(s, j).lo == i then N(s, i + 1) else Front(s, j)
  {
    var t := Dropped(s, i);
    var u := S.Before(j, i, 1);
    DroppedIsShaped(s, i);
    DroppedAt(s, i, u);
    Unfold(s, j);
    Unfold(t, u);
    DroppedAt(s, i, K(t, u).lo);
  }

  /* The assignments unlinking makes */

  // At most three prior pointers, those of the nodes at a, b and c, lead to the nodes at p, q and r afterwards, and at
  // most two next pointers, those at d and e, to y and z; a name that is not needed repeats another.
  datatype Plan = Plan(a: int, p: int, b: int, q: int, c: int, r: int, d: int, y: Cell, e: int, z: Cell)

  ghost predicate InRange(s: Layout, w: Plan) {
    && Inside(s, w.a) && Inside(s, w.p) && Inside(s, w.b) && Inside(s, w.q) && Inside(s, w.c) && Inside(s, w.r)
    && Inside(s, w.d) && Inside(s, w.e)
  }

  function PlanBack(w: Plan, j: int, before: int): int {
    if j == w.a then w.p else if j == w.b then w.q else if j == w.c then w.r else before
  }

  function PlanNext(w: Plan, j: int, before: Cell?): Cell? {
    if j == w.d then w.y else if j == w.e then w.z else before
  }

  // The assignments of w, and no others, are those the layout without i asks for.
  ghost predicate FitsAt(s: Layout, i: int, w: Plan, j: int)
    requires Shaped(s) && 0 <= i < Last(s) && Inside(s, j) && j != i
  {
    && BackWithout(i, G(s, i), j, G(s, j), Last(s)) == PlanBack(w, j, Back(j, G(s, j), Last(s)))
    && NextWithout(s, i, j) == PlanNext(w, j, NextCell(s, j))
  }

  ghost predicate Fits(s: Layout, i: int, w: Plan)
    requires Shaped(s) && 0 <= i < Last(s)
  {
    forall j {:trigger FitsAt(s, i, w, j)} | Inside(s, j) && j != i :: FitsAt(s, i, w, j)
  }

  // The assignments, by the place of i in its group and its bucket.
  ghost function Assignments(s: Layout, i: int): (w: Plan)
    requires Shaped(s) && 0 <= i < Last(s)
    ensures InRange(s, w)
  {
    Unfold(s, i);
    HeaderApart(s, i);
    var f, l, o := G(s, i).lo, G(s, i).hi, Back(i, G(s, i), Last(s));
    if Large(G(s, i)) && i == f then                 // first of a large group
      var c := if i + 3 <= l then i + 2 else i + 1;
      var e := if i + 3 <= l then N(s, i + 1) else N(s, l);
      if i == K(s, i).lo then Plan(i + 1, o, c, l, c, l, l - 1, e, l - 1, e)
      else Plan(i + 1, o, c, l, c, l, i - 1, N(s, i + 1), l - 1, e)
    else if Large(G(s, i)) && i == f + 1 then        // second
      if i + 2 <= l then Plan(i + 1, l, i + 1, l, i + 1, l, f, N(s, i + 1), f, N(s, i + 1))
      else Plan(l, f, l, f, l, f, f, N(s, l), f, N(s, l))
    else if Large(G(s, i)) && i == l then            // last
      var e := if f + 3 <= l then l - 2 else l - 1;
      Plan(l + 1, l - 1, f + 1, if f + 3 <= l then l - 1 else f, f + 1, if f + 3 <= l then l - 1 else f,
           l - 1, NextCell(s, i), e, if f + 3 <= l then N(s, f) else NextCell(s, i))
    else if Large(G(s, i)) && i == l - 1 then        // last but one, not second
      Plan(l, i - 1, l, i - 1, l, i - 1, i - 1, N(s, f), i - 1, N(s, f))
    else if i == K(s, i).lo && i != K(s, i).hi then
      Plan(i + 1, o, i + 1, o, i + 1, o, 0, NextCell(s, 0), 0, NextCell(s, 0))
    else
      Plan(i + 1, o, i + 1, o, i + 1, o, o, NextCell(s, i), o, NextCell(s, i))
  }

  // Where a pointer was, and what it was.
  datatype Track = Track(x: Cell, val: Cell?)

  // The tracked assignments to prior pointers, and to next pointers, in their order.
  datatype Undo = Undo(pointers: seq<Track>, bases: seq<Track>)

  ghost function WasPrior(s: Layout, j: int): Track
    requires Shaped(s) && Inside(s, j)
  {
    Track(N(s, j), PriorNode(s, j))
  }

  ghost function WasNext(s: Layout, j: int): Track
    requires Shaped(s) && Inside(s, j)
  {
    Track(N(s, j), NextCell(s, j))
  }

  ghost function WasFront(s: Layout, j: int): Track
    requires Shaped(s) && Inside(s, j)
  {
    Track(B(s, j), N(s, j))
  }

  // What unlinking the node at i tracks.
  ghost function Tracks(s: Layout, i: int): Undo
    requires Shaped(s) && 0 <= i < Last(s)
  {
    Unfold(s, i);
    HeaderApart(s, i);
    var f, l, o := G(s, i).lo, G(s, i).hi, Back(i, G(s, i), Last(s));
    var first, last := i == K(s, i).lo, i == K(s, i).hi;
    if Large(G(s, i)) && i == f && i + 3 <= l then
      if first then Undo([WasFront(s, i), WasPrior(s, i + 2), WasPrior(s, i + 1)], [WasNext(s, l - 1)])
      else Undo([WasPrior(s, i + 2), WasPrior(s, i + 1)], [WasNext(s, i - 1), WasNext(s, l - 1)])
    else if Large(G(s, i)) && i == f then
      if first then Undo([WasFront(s, i), WasPrior(s, i + 1)], [WasNext(s, i + 1)])
      else Undo([WasPrior(s, i + 1)], [WasNext(s, i - 1), WasNext(s, i + 1)])
    else if Large(G(s, i)) && i == f + 1 then
      Undo([WasPrior(s, i + 1)], [WasNext(s, f)])
    else if Large(G(s, i)) && i == l && f + 3 <= l then
      Undo([WasPrior(s, f + 1), WasPrior(s, l + 1)], [WasNext(s, l - 2), WasNext(s, l - 1)])
    else if Large(G(s, i)) && i == l then
      Undo([WasPrior(s, l - 1), WasPrior(s, l + 1)], [WasNext(s, l - 1)])
    else if first && last then
      Undo([WasFront(s, i), WasPrior(s, i + 1)], [WasNext(s, o)])
    else if first then
      Undo([WasFront(s, i), WasPrior(s, i + 1)], [])
    else
      Undo([WasPrior(s, i + 1)], [WasNext(s, i - 1)])
  }

  lemma AssignmentsFitAt(s: Layout, i: int, j: int)
    requires Shaped(s) && 0 <= i < Last(s) && Inside(s, j) && j != i
    ensures FitsAt(s, i, Assignments(s, i), j)
  {
    Unfold(s, i);
    Unfold(s, j);
    HeaderApart(s, i);
    if 0 < i && K(s, i).lo < i { SameBucket(s, i, i - 1); }
    if i == K(s, i).lo && 0 < i { Unfold(s, i - 1); Apart(s, i, i - 1); }
    if G(s, i).lo <= j <= G(s, i).hi { SameGroup(s, i, j); }
  }

  // They are exactly the pointers that differ between the layouts with and without i.
  lemma AssignmentsFit(s: Layout, i: int)
    requires Shaped(s) && 0 <= i < Last(s)
    ensures Fits(s, i, Assignments(s, i))
  {
    forall j | Inside(s, j) && j != i ensures FitsAt(s, i, Assignments(s, i), j) {
      AssignmentsFitAt(s, i, j);
    }
  }

  ghost predicate TracksPrior(s: Layout, i: int, t: Track)
    requires Shaped(s) && 0 <= i < Last(s)
  {
    (i == K(s, i).lo && t == WasFront(s, i)) || exists j :: Inside(s, j) && j != i && t == WasPrior(s, j)
  }

  ghost predicate TracksNext(s: Layout, i: int, t: Track)
    requires Shaped(s) && Inside(s, i)
  {
    exists j :: Inside(s, j) && j != i && t == WasNext(s, j)
  }

  // At most three and two pointers are tracked, as they were.
  lemma TracksAreExact(s: Layout, i: int)
    requires Shaped(s) && 0 <= i < Last(s)
    ensures var u := Tracks(s, i);
      && |u.pointers| <= 3 && |u.bases| <= 2
      && (forall m {:trigger u.pointers[m]} | 0 <= m < |u.pointers| :: TracksPrior(s, i, u.pointers[m]))
      && (forall m {:trigger u.bases[m]} | 0 <= m < |u.bases| :: TracksNext(s, i, u.bases[m]))
  {
    Unfold(s, i);
    HeaderApart(s, i);
  }

  // No pointer is tracked twice.
  lemma TracksAreDistinct(s: Layout, i: int)
    requires Shaped(s) && 0 <= i < Last(s) && B(s, i) !in s.nodes
    ensures var u := Tracks(s, i);
      && (forall m, n | 0 <= m < n < |u.pointers| :: u.pointers[m].x != u.pointers[n].x)
      && (forall m, n | 0 <= m < n < |u.bases| :: u.bases[m].x != u.bases[n].x)
  {
    var f, l := G(s, i).lo, G(s, i).hi;
    Unfold(s, i);
    HeaderApart(s, i);
    assert !Same(s, i + 1, if i + 2 <= Last(s) then i + 2 else i);
    assert Large(G(s, i)) ==> !Same(s, f + 1, l + 1) && !Same(s, l - 1, l + 1) && !Same(s, l - 2, l - 1);
    assert 0 < i && Large(G(s, i)) && i == f ==> !Same(s, i - 1, l - 1) && !Same(s, i - 1, i + 1);
    assert N(s, i + 1) in s.nodes && (i + 2 <= Last(s) ==> N(s, i + 2) in s.nodes);
  }

  // And those are the pointers the assignments change.
  lemma TracksCover(s: Layout, i: int)
    requires Shaped(s) && 0 <= i < Last(s)
    ensures var u, w := Tracks(s, i), Assignments(s, i);
      && WasPrior(s, w.a) in u.pointers && WasPrior(s, w.b) in u.pointers && WasPrior(s, w.c) in u.pointers
      && (WasNext(s, w.d) in u.bases || w.y == NextCell(s, w.d))
      && (WasNext(s, w.e) in u.bases || w.z == NextCell(s, w.e))
      && (i == K(s, i).lo ==> WasFront(s, i) in u.pointers)
  {
    TracksCoverPriors(s, i);
    TracksCoverNexts(s, i);
  }

  lemma TracksCoverPriors(s: Layout, i: int)
    requires Shaped(s) && 0 <= i < Last(s)
    ensures var u, w := Tracks(s, i), Assignments(s, i);
      && WasPrior(s, w.a) in u.pointers && WasPrior(s, w.b) in u.pointers && WasPrior(s, w.c) in u.pointers
      && (i == K(s, i).lo ==> WasFront(s, i) in u.pointers)
  {
    Unfold(s, i);
    HeaderApart(s, i);
    var ts := Tracks(s, i).pointers;
    assert |ts| > 0 ==> ts[0] in ts;
    assert |ts| > 1 ==> ts[1] in ts;
    assert |ts| > 2 ==> ts[2] in ts;
  }

  lemma TracksCoverNexts(s: Layout, i: int)
    requires Shaped(s) && 0 <= i < Last(s)
    ensures var u, w := Tracks(s, i), Assignments(s, i);
      (WasNext(s, w.d) in u.bases || w.y == NextCell(s, w.d)) && (WasNext(s, w.e) in u.bases || w.z == NextCell(s, w.e))
  {
    Unfold(s, i);
    HeaderApart(s, i);
    var ts := Tracks(s, i).bases;
    assert |ts| > 0 ==> ts[0] in ts;
    assert |ts| > 1 ==> ts[1] in ts;
  }

  // No track from the k-th on is for c.
  ghost predicate Untouched(tracks: seq<Track>, k: int, c: Cell)
    requires 0 <= k
  {
    forall m {:trigger tracks[m]} | k <= m < |tracks| :: tracks[m].x != c
  }

  lemma NotTracked(s: Layout, tracks: seq<Track>, a: int, j: int)
    requires Shaped(s) && Inside(s, a) && Inside(s, j) && WasPrior(s, a) in tracks && Untouched(tracks, 0, N(s, j))
    ensures a != j
  {
  }

  lemma UnassignedPrior(s: Layout, i: int, w: Plan, j: int)
    requires Shaped(s) && 0 <= i < Last(s) && Inside(s, j) && j != i && InRange(s, w) && FitsAt(s, i, w, j)
    requires j != w.a && j != w.b && j != w.c
    ensures Shaped(Dropped(s, i)) && Inside(Dropped(s, i), S.Before(j, i, 1))
    ensures PriorNode(Dropped(s, i), S.Before(j, i, 1)) == PriorNode(s, j)
  {
    PriorOfDropped(s, i, j);
    Unfold(s, j);
  }

  // A pointer that is not tracked is the same without i.
  lemma UntrackedPrior(s: Layout, i: int, j: int)
    requires Shaped(s) && 0 <= i < Last(s) && Inside(s, j) && j != i && Untouched(Tracks(s, i).pointers, 0, N(s, j))
    ensures Shaped(Dropped(s, i)) && Inside(Dropped(s, i), S.Before(j, i, 1))
    ensures PriorNode(Dropped(s, i), S.Before(j, i, 1)) == PriorNode(s, j)
  {
    var tracks, w := Tracks(s, i).pointers, Assignments(s, i);
    TracksCover(s, i);
    AssignmentsFitAt(s, i, j);
    NotTracked(s, tracks, w.a, j);
    NotTracked(s, tracks, w.b, j);
    NotTracked(s, tracks, w.c, j);
    UnassignedPrior(s, i, w, j);
  }

  lemma UntrackedNext(s: Layout, i: int, j: int)
    requires Shaped(s) && 0 <= i < Last(s) && Inside(s, j) && j != i && Untouched(Tracks(s, i).bases, 0, N(s, j))
    ensures Shaped(Dropped(s, i)) && Inside(Dropped(s, i), S.Before(j, i, 1))
    ensures NextCell(Dropped(s, i), S.Before(j, i, 1)) == NextCell(s, j)
  {
    TracksCover(s, i);
    AssignmentsFitAt(s, i, j);
    NextOfDropped(s, i, j);
  }

  // A track holds what its pointer was.
  lemma TrackedPrior(s: Layout, i: int, j: int, m: int)
    requires Shaped(s) && 0 <= i < Last(s) && Inside(s, j) && j != i && N(s, j) != B(s, i)
    requires 0 <= m < |Tracks(s, i).pointers| && Tracks(s, i).pointers[m].x == N(s, j)
    ensures Tracks(s, i).pointers[m].val == PriorNode(s, j)
  {
    TracksAreExact(s, i);
    assert TracksPrior(s, i, Tracks(s, i).pointers[m]);
    var k :| Inside(s, k) && k != i && Tracks(s, i).pointers[m] == WasPrior(s, k);
    assert Same(s, j, k);
  }

  lemma TrackedNext(s: Layout, i: int, j: int, m: int)
    requires Shaped(s) && 0 <= i < Last(s) && Inside(s, j) && j != i
    requires 0 <= m < |Tracks(s, i).bases| && Tracks(s, i).bases[m].x == N(s, j)
    ensures Tracks(s, i).bases[m].val == NextCell(s, j)
  {
    TracksAreExact(s, i);
    assert TracksNext(s, i, Tracks(s, i).bases[m]);
    var k :| Inside(s, k) && k != i && Tracks(s, i).bases[m] == WasNext(s, k);
    assert Same(s, j, k);
  }

  /* Opening a place for nodes */

  // Nodes may be put in front of a group (one node, which joins it), in front of a bucket, or before the header in a
  // bucket of their own; outside an existing group they are a group.
  ghost predicate Place(s: Layout, w: int, i: int, inGroup: bool, inBucket: bool, b: Cell)
    requires Shaped(s)
  {
    && w > 0 && (inGroup ==> w == 1 && inBucket)
    && Inside(s, i)
    && i == (if inGroup then G(s, i).lo else K(s, i).lo)
    && (inBucket <==> i < Last(s))
    && (inBucket ==> b == B(s, i))
  }

  ghost predicate Newcomers(s: Layout, xs: seq<Cell>) {
    && (forall m, n | 0 <= m < n < |xs| :: xs[m] != xs[n])
    && (forall m | 0 <= m < |xs| :: xs[m] !in s.nodes)
  }

  ghost predicate Opening(s: Layout, xs: seq<Cell>, i: int, inGroup: bool, inBucket: bool, b: Cell)
    requires Shaped(s)
  {
    Newcomers(s, xs) && Place(s, |xs|, i, inGroup, inBucket, b)
  }

  ghost function Opened(s: Layout, xs: seq<Cell>, i: int, inGroup: bool, inBucket: bool, b: Cell): (t: Layout)
    requires Sized(s) && Inside(s, i) && |xs| > 0
    ensures Sized(t) && Last(t) == Last(s) + |xs|
  {
    Layout(s.nodes[..i] + xs + s.nodes[i..], S.Opened(s.group, i, |xs|, inGroup), S.Opened(s.bucket, i, |xs|, inBucket),
           s.home[..i] + seq(|xs|, _ => b) + s.home[i..])
  }

  lemma OpenedAt(s: Layout, xs: seq<Cell>, i: int, inGroup: bool, inBucket: bool, b: Cell, j: int)
    requires Sized(s) && Inside(s, i) && |xs| > 0 && 0 <= j <= Last(s) + |xs|
    ensures var t, w := Opened(s, xs, i, inGroup, inBucket, b), |xs|;
      && (i <= j < i + w ==>
        && N(t, j) == xs[j - i] && B(t, j) == b
        && G(t, j) == (if inGroup then S.Moved(G(s, i), i, w, true) else S.Span(i, i + w - 1))
        && K(t, j) == (if inBucket then S.Moved(K(s, i), i, w, true) else S.Span(i, i + w - 1)))
      && (!(i <= j < i + w) ==>
        && N(t, j) == N(s, S.Before(j, i, w)) && B(t, j) == B(s, S.Before(j, i, w))
        && G(t, j) == S.Moved(G(s, S.Before(j, i, w)), i, w, inGroup)
        && K(t, j) == S.Moved(K(s, S.Before(j, i, w)), i, w, inBucket))
  {
    S.OpenedAt(s.group, i, |xs|, inGroup, j);
    S.OpenedAt(s.bucket, i, |xs|, inBucket, j);
  }

  lemma OldAt(s: Layout, xs: seq<Cell>, i: int, inGroup: bool, inBucket: bool, b: Cell, j: int)
    requires Sized(s) && Inside(s, i) && |xs| > 0 && Inside(s, j)
    ensures var t, u := Opened(s, xs, i, inGroup, inBucket, b), S.Up(j, i, |xs|);
      && Inside(t, u) && N(t, u) == N(s, j) && B(t, u) == B(s, j)
      && G(t, u) == S.Moved(G(s, j), i, |xs|, inGroup) && K(t, u) == S.Moved(K(s, j), i, |xs|, inBucket)
  {
    OpenedAt(s, xs, i, inGroup, inBucket, b, S.Up(j, i, |xs|));
  }

  lemma OpenedIsDistinct(s: Layout, xs: seq<Cell>, i: int, inGroup: bool, inBucket: bool, b: Cell)
    requires Shaped(s) && Opening(s, xs, i, inGroup, inBucket, b)
    ensures Distinct(Opened(s, xs, i, inGroup, inBucket, b))
  {
    var t := Opened(s, xs, i, inGroup, inBucket, b);
    forall j, k | Inside(t, j) && Inside(t, k) && Same(t, j, k) ensures j == k {
      OpenedAt(s, xs, i, inGroup, inBucket, b, j);
      OpenedAt(s, xs, i, inGroup, inBucket, b, k);
      assert Same(s, Origin(j, i, |xs|), Origin(k, i, |xs|)) || j != k;
    }
  }

  // The old index of an index, or the place opened.
  ghost function Origin(j: int, i: int, w: int): int {
    if i <= j < i + w then i else S.Before(j, i, w)
  }

  lemma OpenedBucket(s: Layout, xs: seq<Cell>, i: int, inGroup: bool, inBucket: bool, b: Cell, j: int, k: int)
    requires Shaped(s) && Opening(s, xs, i, inGroup, inBucket, b) && 0 <= j <= Last(s) + |xs|
      && 0 <= k <= Last(s) + |xs|
    requires var t := Opened(s, xs, i, inGroup, inBucket, b); K(t, j).lo <= k <= K(t, j).hi
    ensures var t := Opened(s, xs, i, inGroup, inBucket, b); B(t, k) == B(t, j)
  {
    var w := |xs|;
    var j0, k0 := Origin(j, i, w), Origin(k, i, w);
    OpenedAt(s, xs, i, inGroup, inBucket, b, j);
    OpenedAt(s, xs, i, inGroup, inBucket, b, k);
    Unfold(s, i);
    Unfold(s, j0);
    if K(s, j0).lo <= k0 <= K(s, j0).hi { SameBucket(s, j0, k0); }
  }

  lemma OpenedIsNested(s: Layout, xs: seq<Cell>, i: int, inGroup: bool, inBucket: bool, b: Cell, j: int)
    requires Shaped(s) && Opening(s, xs, i, inGroup, inBucket, b) && 0 <= j <= Last(s) + |xs|
    ensures Nested(Opened(s, xs, i, inGroup, inBucket, b), j)
  {
    var t, w := Opened(s, xs, i, inGroup, inBucket, b), |xs|;
    OpenedAt(s, xs, i, inGroup, inBucket, b, j);
    Unfold(s, Origin(j, i, w));
    Apart(s, i, Origin(j, i, w));
    forall k | Inside(t, k) && K(t, j).lo <= k <= K(t, j).hi ensures B(t, k) == B(t, j) {
      OpenedBucket(s, xs, i, inGroup, inBucket, b, j, k);
    }
  }

  lemma OpenedIsShaped(s: Layout, xs: seq<Cell>, i: int, inGroup: bool, inBucket: bool, b: Cell)
    requires Shaped(s) && Opening(s, xs, i, inGroup, inBucket, b)
    ensures Shaped(Opened(s, xs, i, inGroup, inBucket, b))
  {
    var t := Opened(s, xs, i, inGroup, inBucket, b);
    Unfold(s, i);
    OpenedIsDistinct(s, xs, i, inGroup, inBucket, b);
    S.OpenedIsPartition(s.group, i, |xs|, inGroup) by { Unfold(s, i); }
    S.OpenedIsPartition(s.bucket, i, |xs|, inBucket);
    forall j | Inside(t, j) ensures Nested(t, j) {
      OpenedIsNested(s, xs, i, inGroup, inBucket, b, j);
    }
    OpenedAt(s, xs, i, inGroup, inBucket, b, Last(t));
  }

  // Where the prior pointer of the old index j leads afterwards.
  function BackWith(i: int, g: S.Span, w: int, inGroup: bool, j: int, h: S.Span, last: int): int {
    if j == i && !inGroup then i + w - 1
    else if j == i then (if i == g.hi then i else g.hi + 1)
    else if inGroup && j == i + 1 <= g.hi then i + 1
    else S.Up(Back(j, h, last), i, w)
  }

  lemma BackOfMoved(i: int, g: S.Span, w: int, inGroup: bool, j: int, h: S.Span, last: int)
    requires 0 <= g.lo <= i <= g.hi <= last && 0 <= h.lo <= j <= h.hi <= last && w > 0
    requires h == g || h.hi < g.lo || g.hi < h.lo
    requires i == g.lo && (inGroup ==> w == 1)
    ensures var r := Back(S.Up(j, i, w), S.Moved(h, i, w, inGroup), last + w);
      0 <= r <= last + w && r == BackWith(i, g, w, inGroup, j, h, last)
  {
  }

  // What the prior pointer of an old node must be afterwards.
  ghost function PriorWith(s: Layout, xs: seq<Cell>, i: int, inGroup: bool, j: int): Cell
    requires Shaped(s) && Inside(s, i) && Inside(s, j) && |xs| > 0
  {
    Unfold(s, i);
    if j == i && !inGroup then xs[|xs| - 1]
    else if j == i then (if i == G(s, i).hi then xs[0] else N(s, G(s, i).hi))
    else if inGroup && j == i + 1 <= G(s, i).hi then N(s, i)
    else PriorNode(s, j)
  }

  // The place BackWith names holds the node PriorWith names.
  lemma PriorAtPlace(s: Layout, xs: seq<Cell>, i: int, inGroup: bool, inBucket: bool, b: Cell, j: int)
    requires Shaped(s) && Place(s, |xs|, i, inGroup, inBucket, b) && Inside(s, j)
    ensures var t, r := Opened(s, xs, i, inGroup, inBucket, b),
      BackWith(i, G(s, i), |xs|, inGroup, j, G(s, j), Last(s));
      Inside(t, r) && N(t, r) == PriorWith(s, xs, i, inGroup, j)
  {
    Unfold(s, i);
    Unfold(s, j);
    OpenedAt(s, xs, i, inGroup, inBucket, b, BackWith(i, G(s, i), |xs|, inGroup, j, G(s, j), Last(s)));
  }

  lemma PriorOfOpened(s: Layout, xs: seq<Cell>, i: int, inGroup: bool, inBucket: bool, b: Cell, j: int)
    requires Shaped(s) && Place(s, |xs|, i, inGroup, inBucket, b) && Shaped(Opened(s, xs, i, inGroup, inBucket, b))
      && Inside(s, j)
    ensures PriorNode(Opened(s, xs, i, inGroup, inBucket, b), S.Up(j, i, |xs|)) == PriorWith(s, xs, i, inGroup, j)
  {
    OldAt(s, xs, i, inGroup, inBucket, b, j);
    Unfold(s, i);
    Unfold(s, j);
    Apart(s, i, j);
    BackOfMoved(i, G(s, i), |xs|, inGroup, j, G(s, j), Last(s));
    PriorAtPlace(s, xs, i, inGroup, inBucket, b, j);
  }

  lemma PriorOfNew(s: Layout, xs: seq<Cell>, i: int, inGroup: bool, inBucket: bool, b: Cell, m: int)
    requires Shaped(s) && Place(s, |xs|, i, inGroup, inBucket, b) && Shaped(Opened(s, xs, i, inGroup, inBucket, b))
      && 0 <= m < |xs|
    ensures var t := Opened(s, xs, i, inGroup, inBucket, b);
      && 0 <= Back(m, S.Span(0, |xs| - 1), |xs| - 1) < |xs|
      && PriorNode(t, i + m) == if m == 0 then PriorNode(s, i) else xs[Back(m, S.Span(0, |xs| - 1), |xs| - 1)]
  {
    var t := Opened(s, xs, i, inGroup, inBucket, b);
    OpenedAt(s, xs, i, inGroup, inBucket, b, i + m);
    Unfold(s, i);
    OpenedAt(s, xs, i, inGroup, inBucket, b, Back(i + m, G(t, i + m), Last(t)));
  }

  // Where the next pointer of the old index j, not the last of its bucket, leads afterwards.
  function ForthWith(i: int, g: S.Span, w: int, inGroup: bool, j: int, h: S.Span): int {
    if inGroup && (j == i - 1 || (j == g.hi - 1 && j >= i)) then i
    else S.Up(Forth(j, h), i, w)
  }

  lemma ForthOfMoved(i: int, g: S.Span, w: int, inGroup: bool, j: int, h: S.Span, last: int)
    requires 0 <= g.lo <= i <= g.hi <= last && 0 <= h.lo <= j <= h.hi <= last && w > 0
    requires h == g || h.hi < g.lo || g.hi < h.lo
    requires i == g.lo && (inGroup ==> w == 1)
    requires j < last && (!inGroup ==> j != i - 1)
    ensures var r := Forth(S.Up(j, i, w), S.Moved(h, i, w, inGroup));
      0 <= r <= last + w && r == ForthWith(i, g, w, inGroup, j, h)
  {
  }

  // What the next pointer of an old node must be afterwards.
  ghost function NextWith(s: Layout, xs: seq<Cell>, i: int, inGroup: bool, inBucket: bool, b: Cell, j: int): Cell
    requires Shaped(s) && Inside(s, i) && Inside(s, j) && |xs| > 0
  {
    if !inBucket && Following(s, j) == i then b
    else if inGroup && ((j == i - 1 && j != K(s, j).hi) || (j == G(s, i).hi - 1 && j >= i)) then xs[0]
    else NextCell(s, j)
  }

  lemma NextAtPlace(s: Layout, xs: seq<Cell>, i: int, inGroup: bool, inBucket: bool, b: Cell, j: int)
    requires Shaped(s) && Place(s, |xs|, i, inGroup, inBucket, b) && Inside(s, j) && j != K(s, j).hi
    ensures var t, r := Opened(s, xs, i, inGroup, inBucket, b), ForthWith(i, G(s, i), |xs|, inGroup, j, G(s, j));
      Inside(t, r) && N(t, r) == NextWith(s, xs, i, inGroup, inBucket, b, j)
  {
    Unfold(s, i);
    Unfold(s, j);
    Apart(s, i, j);
    OpenedAt(s, xs, i, inGroup, inBucket, b, ForthWith(i, G(s, i), |xs|, inGroup, j, G(s, j)));
  }

  lemma InnerOfOpened(s: Layout, xs: seq<Cell>, i: int, inGroup: bool, inBucket: bool, b: Cell, j: int)
    requires Shaped(s) && Place(s, |xs|, i, inGroup, inBucket, b) && Shaped(Opened(s, xs, i, inGroup, inBucket, b))
      && Inside(s, j)
    requires j != K(s, j).hi
    ensures NextCell(Opened(s, xs, i, inGroup, inBucket, b), S.Up(j, i, |xs|)) ==
      NextWith(s, xs, i, inGroup, inBucket, b, j)
  {
    OldAt(s, xs, i, inGroup, inBucket, b, j);
    Unfold(s, i);
    Unfold(s, j);
    Apart(s, i, j);
    ForthOfMoved(i, G(s, i), |xs|, inGroup, j, G(s, j), Last(s));
    NextAtPlace(s, xs, i, inGroup, inBucket, b, j);
  }

  lemma NextOfOpened(s: Layout, xs: seq<Cell>, i: int, inGroup: bool, inBucket: bool, b: Cell, j: int)
    requires Shaped(s) && Place(s, |xs|, i, inGroup, inBucket, b) && Shaped(Opened(s, xs, i, inGroup, inBucket, b))
      && Inside(s, j)
    ensures NextCell(Opened(s, xs, i, inGroup, inBucket, b), S.Up(j, i, |xs|)) ==
      NextWith(s, xs, i, inGroup, inBucket, b, j)
  {
    if j == K(s, j).hi {
      LastOfOpened(s, xs, i, inGroup, inBucket, b, j);
    } else {
      InnerOfOpened(s, xs, i, inGroup, inBucket, b, j);
    }
  }

  lemma LastOfOpened(s: Layout, xs: seq<Cell>, i: int, inGroup: bool, inBucket: bool, b: Cell, j: int)
    requires Shaped(s) && Place(s, |xs|, i, inGroup, inBucket, b) && Shaped(Opened(s, xs, i, inGroup, inBucket, b))
      && Inside(s, j) && j == K(s, j).hi
    ensures var t, u := Opened(s, xs, i, inGroup, inBucket, b), S.Up(j, i, |xs|);
      Inside(t, u) && u == K(t, u).hi && B(t, Following(t, u)) == NextWith(s, xs, i, inGroup, inBucket, b, j)
  {
    var t, u := Opened(s, xs, i, inGroup, inBucket, b), S.Up(j, i, |xs|);
    OldAt(s, xs, i, inGroup, inBucket, b, j);
    Unfold(s, i);
    Unfold(s, j);
    Apart(s, i, j);
    BucketAfter(s, xs, i, inGroup, inBucket, b, j);
  }

  // The bucket of what follows the last of a bucket.
  lemma BucketAfter(s: Layout, xs: seq<Cell>, i: int, inGroup: bool, inBucket: bool, b: Cell, j: int)
    requires Shaped(s) && Place(s, |xs|, i, inGroup, inBucket, b) && Inside(s, j) && j == K(s, j).hi
    ensures var t, u := Opened(s, xs, i, inGroup, inBucket, b), S.Up(j, i, |xs|);
      Inside(t, Following(t, u)) && B(t, Following(t, u)) == NextWith(s, xs, i, inGroup, inBucket, b, j)
  {
    var t, u := Opened(s, xs, i, inGroup, inBucket, b), S.Up(j, i, |xs|);
    Unfold(s, i);
    Unfold(s, j);
    Apart(s, i, j);
    OpenedAt(s, xs, i, inGroup, inBucket, b, Following(t, u));
  }

  lemma NextOfNew(s: Layout, xs: seq<Cell>, i: int, inGroup: bool, inBucket: bool, b: Cell, m: int)
    requires Shaped(s) && Place(s, |xs|, i, inGroup, inBucket, b) && Shaped(Opened(s, xs, i, inGroup, inBucket, b))
      && 0 <= m < |xs|
    ensures var t := Opened(s, xs, i, inGroup, inBucket, b);
      && (m < |xs| - 1 ==> 0 <= Forth(m, S.Span(0, |xs| - 1)) < |xs|)
      && NextCell(t, i + m) ==
        if m < |xs| - 1 then xs[Forth(m, S.Span(0, |xs| - 1))] else if inBucket then N(s, i) else B(s, i)
  {
    var t := Opened(s, xs, i, inGroup, inBucket, b);
    OpenedAt(s, xs, i, inGroup, inBucket, b, i + m);
    Unfold(s, i);
    OpenedAt(s, xs, i, inGroup, inBucket, b, Forth(i + m, G(t, i + m)));
    OpenedAt(s, xs, i, inGroup, inBucket, b, Following(t, i + m));
  }

  lemma FrontOfOpened(s: Layout, xs: seq<Cell>, i: int, inGroup: bool, inBucket: bool, b: Cell, j: int)
    requires Shaped(s) && Place(s, |xs|, i, inGroup, inBucket, b) && Shaped(Opened(s, xs, i, inGroup, inBucket, b))
      && 0 <= j <= Last(s) + |xs|
    ensures var t, w := Opened(s, xs, i, inGroup, inBucket, b), |xs|;
      && Front(t, j) ==
        if (inBucket && K(s, Origin(j, i, w)).lo == i) || (!inBucket && i <= j < i + w) then xs[0]
          else Front(s, Origin(j, i, w))
  {
    BucketOfOpened(s, xs, i, inGroup, inBucket, b, j);
    var o := Origin(j, i, |xs|);
    Unfold(s, o);
    OpenedAt(s, xs, i, inGroup, inBucket, b, K(Opened(s, xs, i, inGroup, inBucket, b), j).lo);
  }

  // Where the bucket of j starts.
  lemma BucketOfOpened(s: Layout, xs: seq<Cell>, i: int, inGroup: bool, inBucket: bool, b: Cell, j: int)
    requires Shaped(s) && Place(s, |xs|, i, inGroup, inBucket, b) && Shaped(Opened(s, xs, i, inGroup, inBucket, b))
      && 0 <= j <= Last(s) + |xs|
    ensures var t, w, o := Opened(s, xs, i, inGroup, inBucket, b), |xs|, Origin(j, i, |xs|);
      && 0 <= o <= Last(s) && Inside(t, K(t, j).lo)
      && K(t, j).lo == if (inBucket && K(s, o).lo == i) || (!inBucket && i <= j < i + w) then i
        else if K(s, o).lo < i then K(s, o).lo else K(s, o).lo + w
  {
    OpenedAt(s, xs, i, inGroup, inBucket, b, j);
    Unfold(s, i);
    Unfold(s, Origin(j, i, |xs|));
    Apart(s, i, Origin(j, i, |xs|));
    Unfold(Opened(s, xs, i, inGroup, inBucket, b), j);
  }

  /* Regrouping a node of a small group */

  // i leaves its group for that of its neighbour m, or for one of its own when m is i.
  ghost function Regrouped(s: Layout, i: int, m: int): (t: Layout)
    requires Sized(s) && Inside(s, i)
    ensures Sized(t) && |t.nodes| == |s.nodes|
  {
    var g := S.Span(if m < i then m else i, if m < i then i else m);
    s.(group := seq(|s.group|, j requires 0 <= j < |s.group| =>
                      if j == i || j == m then g
                      else if s.group[j] == s.group[i] then S.Span(j, j) else s.group[j]))
  }

  // The groups of i and of m have one node besides i, or none.
  ghost predicate Regroupable(s: Layout, i: int, m: int)
    requires Shaped(s) && Inside(s, i)
  {
    && i - 1 <= m <= i + 1 && Inside(s, m) && !Large(G(s, i)) && K(s, m) == K(s, i)
    && (m != i && G(s, m) != G(s, i) ==> G(s, m) == S.Span(m, m))
  }

  lemma RegroupedAt(s: Layout, i: int, m: int, j: int)
    requires Sized(s) && Inside(s, i) && Inside(s, j)
    ensures var t := Regrouped(s, i, m);
      && N(t, j) == N(s, j) && B(t, j) == B(s, j) && K(t, j) == K(s, j)
      && G(t, j) == if j == i || j == m then S.Span(if m < i then m else i, if m < i then i else m)
                    else if G(s, j) == G(s, i) then S.Span(j, j) else G(s, j)
  {
  }

  lemma RegroupedIsShaped(s: Layout, i: int, m: int)
    requires Shaped(s) && Inside(s, i) && Regroupable(s, i, m)
    ensures Shaped(Regrouped(s, i, m))
  {
    var t := Regrouped(s, i, m);
    RegroupedAt(s, i, m, Last(s));
    forall j | 0 <= j < |t.group| ensures S.Covers(t.group, j) { RegroupedCovers(s, i, m, j); }
    forall j | Inside(t, j) ensures Nested(t, j) {
      RegroupedAt(s, i, m, j);
      Unfold(s, j);
      Unfold(s, i);
      Unfold(s, m);
      forall k | Inside(t, k) && K(t, j).lo <= k <= K(t, j).hi ensures B(t, k) == B(t, j) {
        RegroupedAt(s, i, m, k);
        SameBucket(s, j, k);
      }
    }
    forall j, k | Inside(t, j) && Inside(t, k) && Same(t, j, k) ensures j == k {
      assert Same(s, j, k);
    }
  }

  lemma RegroupedCovers(s: Layout, i: int, m: int, j: int)
    requires Shaped(s) && Inside(s, i) && Regroupable(s, i, m) && Inside(s, j)
    ensures S.Covers(Regrouped(s, i, m).group, j)
  {
    var t := Regrouped(s, i, m);
    Unfold(s, j);
    Unfold(s, i);
    Unfold(s, m);
    RegroupedAt(s, i, m, j);
    forall k | G(t, j).lo <= k <= G(t, j).hi ensures S.At(t.group, k) == S.At(t.group, j) {
      RegroupedAt(s, i, m, k);
      if G(s, j).lo <= k <= G(s, j).hi { SameGroup(s, j, k); }
    }
  }

  // Groups of one or two have no pointers of their own.
  lemma RegroupedHasSamePointers(s: Layout, i: int, m: int)
    requires Shaped(s) && Inside(s, i) && Regroupable(s, i, m)
    ensures Shaped(Regrouped(s, i, m)) && SamePointers(s, Regrouped(s, i, m))
  {
    var t := Regrouped(s, i, m);
    RegroupedIsShaped(s, i, m);
    forall j | Inside(s, j) ensures PriorNode(t, j) == PriorNode(s, j) && NextCell(t, j) == NextCell(s, j) {
      RegroupedAt(s, i, m, j);
      Unfold(s, j);
      Unfold(s, i);
      Unfold(s, m);
    }
  }
}
