/** Sorting a sequenced index: an in-place mergesort with a binary counter of lists. */
module SeqIndexOps {

  import opened Ordering
  import opened Powers
  import opened SeqIndexNode

  /* Ascending lists, whose header does not count */

  ghost predicate InOrder(less: Less, r: seq<Node>, i: int, j: int)
    requires 0 <= i < |r| && 0 <= j < |r|
  {
    !less(r[j].value, r[i].value)
  }

  ghost predicate Ascending(less: Less, r: seq<Node>) {
    forall i, j {:trigger InOrder(less, r, i, j)} | 1 <= i < j < |r| :: InOrder(less, r, i, j)
  }

  // The element at i of r is not greater than that at j of s.
  ghost predicate Below(less: Less, r: seq<Node>, i: int, s: seq<Node>, j: int)
    requires 0 <= i < |r| && 0 <= j < |s|
  {
    !less(s[j].value, r[i].value)
  }

  // s is being merged into r: what stands before p is not greater than anything in s.
  ghost predicate Merging(less: Less, r: seq<Node>, s: seq<Node>, p: int) {
    && 1 <= p <= |r| && 1 <= |s| && Ascending(less, r) && Ascending(less, s)
    && forall i, j {:trigger Below(less, r, i, s, j)} | 1 <= i < p && 1 <= j < |s| :: Below(less, r, i, s, j)
  }

  lemma MergeSkip(less: Less, r: seq<Node>, s: seq<Node>, p: int)
    requires StrictWeakOrder(less) && Merging(less, r, s, p) && p < |r| && 1 < |s|
    requires !less(s[1].value, r[p].value)
    ensures Merging(less, r, s, p + 1)
  {
    forall i, j | 1 <= i < p + 1 && 1 <= j < |s| ensures Below(less, r, i, s, j) {
      if i < p {
        assert Below(less, r, i, s, j);
      } else {
        assert j == 1 || InOrder(less, s, 1, j);
      }
    }
  }

  lemma MergeTake(less: Less, r: seq<Node>, s: seq<Node>, p: int)
    requires StrictWeakOrder(less) && Merging(less, r, s, p) && p < |r| && 1 < |s|
    requires less(s[1].value, r[p].value)
    ensures Merging(less, Put(r, p, s[1..2]), Without(s, 1, 2), p + 1)
  {
    var r', s' := Put(r, p, s[1..2]), Without(s, 1, 2);
    forall i, j | 1 <= i < j < |r'| ensures InOrder(less, r', i, j) {
      if i < p && j == p {
        assert Below(less, r, i, s, 1);
      } else if i == p {
        assert j - 1 == p || InOrder(less, r, p, j - 1);
      } else {
        assert InOrder(less, r, if i < p then i else i - 1, if j < p then j else j - 1);
      }
    }
    forall i, j | 1 <= i < j < |s'| ensures InOrder(less, s', i, j) {
      assert InOrder(less, s, i + 1, j + 1);
    }
    forall i, j | 1 <= i < p + 1 && 1 <= j < |s'| ensures Below(less, r', i, s', j) {
      if i < p {
        assert Below(less, r, i, s, j + 1);
      } else {
        assert InOrder(less, s, 1, j + 1);
      }
    }
  }

  lemma MergeEnd(less: Less, r: seq<Node>, s: seq<Node>)
    requires Merging(less, r, s, |r|)
    ensures Ascending(less, r + s[1..])
  {
    var t := r + s[1..];
    forall i, j | 1 <= i < j < |t| ensures InOrder(less, t, i, j) {
      if j < |r| {
        assert InOrder(less, r, i, j);
      } else if i < |r| {
        assert Below(less, r, i, s, j - |r| + 1);
      } else {
        assert InOrder(less, s, i - |r| + 1, j - |r| + 1);
      }
    }
  }

  /* Nodes passing from one list to another */

  // v is w but for lists a and b, which have the same headers and the same nodes between them.
  ghost predicate Exchanged(w: World, v: World, a: int, b: int) {
    && |v| == |w| && 0 <= a < |w| && 0 <= b < |w| && a != b
    && |w[a]| > 0 && |w[b]| > 0 && |v[a]| > 0 && |v[b]| > 0
    && v[a][0] == w[a][0] && v[b][0] == w[b][0]
    && |v[a]| + |v[b]| == |w[a]| + |w[b]|
    && multiset(v[a]) + multiset(v[b]) == multiset(w[a]) + multiset(w[b])
    && v == w[a := v[a]][b := v[b]]
  }

  lemma BagOfCut<T>(r: seq<T>, i: int, j: int)
    requires 0 <= i <= j <= |r|
    ensures multiset(Without(r, i, j)) + multiset(r[i..j]) == multiset(r)
  {
    assert r == r[..i] + r[i..j] + r[j..];
  }

  lemma BagOfPut<T>(r: seq<T>, k: int, m: seq<T>)
    requires 0 <= k <= |r|
    ensures multiset(Put(r, k, m)) == multiset(r) + multiset(m)
  {
    assert r == r[..k] + r[k..];
  }

  lemma RelinkExchanges(w: World, v: World, a: int, b: int, j: int, k: int)
    requires Exchanged(w, v, a, b) && 1 <= j <= |v[b]| && 0 <= k < |v[a]|
    ensures Exchanged(w, RelinkWorld(v, b, 1, j, a, k), a, b)
    ensures RelinkWorld(v, b, 1, j, a, k)[a] == Put(v[a], Gap(|v[a]|, k), v[b][1..j])
    ensures RelinkWorld(v, b, 1, j, a, k)[b] == Without(v[b], 1, j)
  {
    RelinkWorldIs(v, b, 1, j, a, k);
    BagOfCut(v[b], 1, j);
    BagOfPut(v[a], Gap(|v[a]|, k), v[b][1..j]);
    assert RelinkWorld(v, b, 1, j, a, k) == w[a := Put(v[a], Gap(|v[a]|, k), v[b][1..j])][b := Without(v[b], 1, j)];
  }

  // The merge of list b into list a of w has come to v, where first0 is at p and first1 next to its header.
  ghost predicate Collating(comp: Less, w: World, v: World, a: int, b: int, p: int, first0: Node, first1: Node) {
    && Exchanged(w, v, a, b) && Merging(comp, v[a], v[b], p)
    && first0 == v[a][if p == |v[a]| then 0 else p]
    && first1 == v[b][if |v[b]| == 1 then 0 else 1]
  }

  method CollateTake(ghost w: World, ghost v: World, ghost nodes: set<Node>, ghost a: int, ghost b: int, ghost p: int,
      first0: Node, first1: Node, comp: Less)
      returns (tmp: Node, ghost u: World)
    requires StrictWeakOrder(comp) && Linked(v, nodes, false) && Collating(comp, w, v, a, b, p, first0, first1)
    requires p < |v[a]| && 1 < |v[b]| && comp(first1.value, first0.value)
    modifies nodes
    ensures Linked(u, nodes, false) && Collating(comp, w, u, a, b, p + 1, first0, tmp)
    ensures |u[a]| == |v[a]| + 1 && |u[b]| == |v[b]| - 1
  {
    assert EdgeOk(v, nodes, b, 1);
    tmp := first1.next;
    MergeTake(comp, v[a], v[b], p);
    RelinkExchanges(w, v, a, b, 2, p);
    Relink(v, nodes, b, 1, a, p, first0, first1);
    u := RelinkWorld(v, b, 1, 2, a, p);
  }

  method CollateRest(ghost w: World, ghost v: World, ghost nodes: set<Node>, ghost a: int, ghost b: int, ghost p: int,
      first0: Node, first1: Node, last0: Node, last1: Node, ghost comp: Less)
      returns (ghost u: World)
    requires Linked(v, nodes, false) && Collating(comp, w, v, a, b, p, first0, first1)
    requires p == |v[a]| || |v[b]| == 1
    requires last0 == v[a][0] && last1 == v[b][0]
    modifies nodes
    ensures Linked(u, nodes, false) && Exchanged(w, u, a, b) && |u[b]| == 1 && Ascending(comp, u[a])
  {
    ghost var m := |v[b]|;
    RelinkExchanges(w, v, a, b, m, 0);
    if |v[b]| == 1 {
      assert Put(v[a], |v[a]|, v[b][1..m]) == v[a];
    } else {
      MergeEnd(comp, v[a], v[b]);
      assert Put(v[a], |v[a]|, v[b][1..m]) == v[a] + v[b][1..];
    }
    RelinkRange(v, nodes, b, 1, m, a, 0, last0, first1, last1);
    u := RelinkWorld(v, b, 1, m, a, 0);
  }

  // Merges the ascending list of header y into that of header x, or stops when the comparison throws.
  method Collate(ghost w: World, ghost nodes: set<Node>, ghost a: int, ghost b: int, x: Node, y: Node, comp: Less)
      returns (ok: bool, ghost v: World)
    requires StrictWeakOrder(comp) && Linked(w, nodes, false) && Exchanged(w, w, a, b)
    requires x == w[a][0] && y == w[b][0] && Ascending(comp, w[a]) && Ascending(comp, w[b])
    modifies nodes
    ensures Linked(v, nodes, false) && Exchanged(w, v, a, b)
    ensures ok ==> |v[b]| == 1 && Ascending(comp, v[a])
  {
    v := w;
    ghost var p := 1;
    assert EdgeOk(v, nodes, a, 0) && EdgeOk(v, nodes, b, 0);
    var first0, last0 := x.next, x;
    var first1, last1 := y.next, y;
    while first0 != last0 && first1 != last1
      invariant Linked(v, nodes, false) && Collating(comp, w, v, a, b, p, first0, first1)
      invariant last0 == v[a][0] && last1 == v[b][0]
      decreases |v[a]| - p + |v[b]|
    {
      var throws: bool := *;
      if throws {
        return false, v;
      }
      if comp(first1.value, first0.value) {
        first1, v := CollateTake(w, v, nodes, a, b, p, first0, first1, comp);
      } else {
        assert EdgeOk(v, nodes, a, p);
        MergeSkip(comp, v[a], v[b], p);
        first0 := first0.next;
      }
      p := p + 1;
    }
    assert Apart(v, a, 0, a, if p == |v[a]| then 0 else p) && Apart(v, b, 0, b, if |v[b]| == 1 then 0 else 1);
    v := CollateRest(w, v, nodes, a, b, p, first0, first1, last0, last1, comp);
    ok := true;
  }

  /* What all lists hold together */

  ghost function Bag(w: World): multiset<Node> {
    if w == [] then multiset{} else Bag(w[..|w| - 1]) + multiset(w[|w| - 1])
  }

  function Count(w: World): (n: nat) {
    if w == [] then 0 else Count(w[..|w| - 1]) + |w[|w| - 1]|
  }

  lemma Cancel(a: multiset<Node>, x: multiset<Node>, y: multiset<Node>)
    requires a + x == a + y
    ensures x == y
  {
    assert x == (a + x) - a;
    assert y == (a + y) - a;
  }

  lemma TwoUpdates(bu: multiset<Node>, bt: multiset<Node>, bv: multiset<Node>, ua: multiset<Node>, ub: multiset<Node>,
      va: multiset<Node>, vb: multiset<Node>)
    requires bt + ua == bu + va && bv + ub == bt + vb && va + vb == ua + ub
    ensures bv == bu
  {
    forall n ensures bv[n] == bu[n] {
      assert (bt + ua)[n] == (bu + va)[n] && (bv + ub)[n] == (bt + vb)[n] && (va + vb)[n] == (ua + ub)[n];
    }
  }

  lemma {:induction false} BagOfUpdate(w: World, k: int, r: seq<Node>)
    requires 0 <= k < |w|
    ensures Bag(w[k := r]) + multiset(w[k]) == Bag(w) + multiset(r)
    ensures Count(w[k := r]) + |w[k]| == Count(w) + |r|
    decreases |w|
  {
    var n := |w| - 1;
    if k == n {
      assert w[k := r][..n] == w[..n];
    } else {
      var v := w[k := r];
      assert v[..n] == w[..n][k := r];
      BagOfUpdate(w[..n], k, r);
      var x, y, m := Bag(v[..n]), Bag(w[..n]), multiset(w[n]);
      assert x + m + multiset(w[k]) == x + multiset(w[k]) + m;
      assert y + m + multiset(r) == y + multiset(r) + m;
      assert Bag(v) == x + m && Bag(w) == y + m;
    }
  }

  lemma {:induction false} CountAtLeast(w: World, k: int)
    requires 0 <= k < |w| && forall l {:trigger w[l]} | 0 <= l < |w| :: |w[l]| > 0
    ensures Count(w) >= |w[k]| + |w| - 1
    decreases |w|
  {
    var n := |w| - 1;
    if k < n {
      CountAtLeast(w[..n], k);
    } else if n > 0 {
      CountAtLeast(w[..n], 0);
      assert w[..n][0] == w[0];
    }
  }

  // v has the headers of w and holds what w holds.
  ghost predicate Kept(w: World, v: World) {
    && |v| == |w| && Bag(v) == Bag(w) && Count(v) == Count(w)
    && (forall k {:trigger v[k]} | 0 <= k < |v| :: |v[k]| > 0 && |w[k]| > 0 && v[k][0] == w[k][0])
  }

  lemma KeptByExchange(w: World, u: World, v: World, a: int, b: int)
    requires Kept(w, u) && Exchanged(u, v, a, b)
    ensures Kept(w, v)
  {
    SameBag(u, v, a, b);
    forall k {:trigger v[k]} | 0 <= k < |v| ensures |v[k]| > 0 && |w[k]| > 0 && v[k][0] == w[k][0] {
      assert |u[k]| > 0 && |w[k]| > 0 && u[k][0] == w[k][0];
      assert k != a && k != b ==> v[k] == u[k];
    }
  }

  lemma SameBag(u: World, v: World, a: int, b: int)
    requires Exchanged(u, v, a, b)
    ensures Bag(v) == Bag(u) && Count(v) == Count(u)
  {
    BagOfUpdate(u, a, v[a]);
    var t := u[a := v[a]];
    BagOfUpdate(t, b, v[b]);
    assert t[b] == u[b] && t[b := v[b]] == v;
    TwoUpdates(Bag(u), Bag(t), Bag(v), multiset(u[a]), multiset(u[b]), multiset(v[a]), multiset(v[b]));
  }

  // When all lists but one are as they were, so is what it holds.
  lemma KeptInOne(w: World, v: World, k: int)
    requires Kept(w, v) && 0 <= k < |w| && v == w[k := v[k]]
    ensures multiset(v[k]) == multiset(w[k])
  {
    BagOfUpdate(w, k, v[k]);
    Cancel(Bag(w), multiset(w[k]), multiset(v[k]));
  }

  lemma SwapExchanges(w: World, a: int, b: int)
    requires 0 <= a < |w| && 0 <= b < |w| && a != b && |w[a]| > 0 && |w[b]| > 0
    ensures Exchanged(w, SwapWorld(w, a, b), a, b)
  {
    assert w[a] == [w[a][0]] + w[a][1..] && w[b] == [w[b][0]] + w[b][1..];
    var v := SwapWorld(w, a, b);
    assert multiset(v[a]) == multiset([w[a][0]]) + multiset(w[b][1..]);
    assert multiset(v[b]) == multiset([w[b][0]]) + multiset(w[a][1..]);
    assert multiset(w[a]) == multiset([w[a][0]]) + multiset(w[a][1..]);
    assert multiset(w[b]) == multiset([w[b][0]]) + multiset(w[b][1..]);
  }

  /* The binary counter */

  // Counter k is empty, or holds 2 to the power of k nodes in ascending order.
  ghost predicate CounterOk(less: Less, w: World, k: int)
    requires 0 <= k && 2 + k < |w|
  {
    |w[2 + k]| == 1 || (|w[2 + k]| == 1 + Pow2(k) && Ascending(less, w[2 + k]))
  }

  ghost predicate Empty(w: World, k: int)
    requires 0 <= k < |w|
  {
    |w[k]| == 1
  }

  // Counters from i on and below fill are full or empty, and the other ones empty.
  ghost predicate CountersOk(less: Less, w: World, i: int, fill: int) {
    && 0 <= i <= fill && 2 + fill < |w|
    && (forall k {:trigger CounterOk(less, w, k)} | i <= k < fill :: CounterOk(less, w, k))
    && (forall k {:trigger Empty(w, k)} | 2 <= k < |w| && (k < 2 + i || 2 + fill <= k) :: Empty(w, k))
  }

  // The headers of the list, the carry and the counters.
  ghost predicate Headed(w: World, header: Node, carry: Node, counter: seq<Node>) {
    && |w| == 2 + |counter| && (forall k {:trigger w[k]} | 0 <= k < |w| :: |w[k]| > 0)
    && w[0][0] == header && w[1][0] == carry
    && (forall k {:trigger counter[k]} | 0 <= k < |counter| :: w[2 + k][0] == counter[k])
  }

  lemma StillHeaded(w: World, v: World, header: Node, carry: Node, counter: seq<Node>)
    requires Headed(w, header, carry, counter) && Kept(w, v)
    ensures Headed(v, header, carry, counter)
  {
  }

  // Merging counter i into the carry, when it is full, carries on.
  lemma Carried(less: Less, u: World, v: World, i: int, fill: int)
    requires CountersOk(less, u, i, fill) && i < fill && Exchanged(u, v, 1, 2 + i) && |v[2 + i]| == 1
    requires |u[1]| == 1 + Pow2(i) && |u[2 + i]| != 1
    ensures CountersOk(less, v, i + 1, fill) && |v[1]| == 1 + Pow2(i + 1)
  {
    assert CounterOk(less, u, i);
    forall k | i + 1 <= k < fill ensures CounterOk(less, v, k) {
      assert CounterOk(less, u, k);
    }
    forall k | 2 <= k < |v| && (k < 2 + (i + 1) || 2 + fill <= k) ensures Empty(v, k) {
      assert k == 2 + i || Empty(u, k);
    }
  }

  // The carry is merged with the counters as long as they are full.
  method CarryOn(ghost w: World, ghost nodes: set<Node>, ghost header: Node, carry: Node, counter: array<Node>,
      fill: nat, comp: Less)
      returns (ok: bool, i: nat, ghost v: World)
    requires StrictWeakOrder(comp) && Linked(w, nodes, false) && Headed(w, header, carry, counter[..])
    requires fill < counter.Length && CountersOk(comp, w, 0, fill) && |w[1]| == 2
    modifies nodes
    ensures Linked(v, nodes, false) && Kept(w, v)
    ensures forall k {:trigger Empty(v, k)} | 2 + fill <= k < |v| :: Empty(v, k)
    ensures ok ==>
      i <= fill && CountersOk(comp, v, i, fill) && |v[1]| == 1 + Pow2(i) && Ascending(comp, v[1]) && Empty(v, 2 + i)
    ensures v[0] == w[0]
  {
    v := w;
    i := 0;
    ok := true;
    while true
      invariant 0 <= i <= fill && Linked(v, nodes, false) && Kept(w, v) && v[0] == w[0]
      invariant CountersOk(comp, v, i, fill) && |v[1]| == 1 + Pow2(i) && Ascending(comp, v[1])
      decreases fill - i
    {
      StillHeaded(w, v, header, carry, counter[..]);
      assert counter[i] == counter[..][i];
      assert EdgeOk(v, nodes, 2 + i, 0) && Apart(v, 2 + i, 0, 2 + i, Succ(|v[2 + i]|, 0));
      if !(i < fill && counter[i].next != counter[i]) {
        assert i == fill ==> Empty(v, 2 + i);
        break;
      }
      ghost var u := v;
      assert CounterOk(comp, u, i);
      ok, v := Collate(u, nodes, 1, 2 + i, carry, counter[i], comp);
      KeptByExchange(w, u, v, 1, 2 + i);
      if !ok {
        forall k | 2 + fill <= k < |v| ensures Empty(v, k) {
          assert Empty(u, k);
        }
        return;
      }
      Carried(comp, u, v, i, fill);
      i := i + 1;
    }
  }

  // Between two turns of the main loop: the carry is empty, and there are no more nodes than fit the counters.
  ghost predicate Counting(less: Less, w: World, nodes: set<Node>, header: Node, carry: Node, counter: seq<Node>,
      fill: int)
    reads nodes
  {
    && Linked(w, nodes, false) && Headed(w, header, carry, counter)
    && 0 <= fill < |counter| && CountersOk(less, w, 0, fill) && Empty(w, 1)
    && Count(w) - |w| < Pow2(|counter| - 1)
  }

  // The carry is exchanged with an empty counter.
  lemma Stored(less: Less, u: World, v: World, i: int, fill: int)
    requires CountersOk(less, u, i, fill) && 2 + i < |u| && Empty(u, 2 + i) && i < |u| - 3
    requires |u[1]| == 1 + Pow2(i) && Ascending(less, u[1]) && v == SwapWorld(u, 1, 2 + i)
    ensures CountersOk(less, v, 0, if i == fill then fill + 1 else fill) && Empty(v, 1)
  {
    var s := v[2 + i];
    assert s[1..] == u[1][1..];
    forall j, k | 1 <= j < k < |s| ensures InOrder(less, s, j, k) {
      assert InOrder(less, u[1], j, k);
    }
    var f := if i == fill then fill + 1 else fill;
    forall k | 0 <= k < f ensures CounterOk(less, v, k) {
      if k < i {
        assert Empty(u, 2 + k);
      } else if k > i {
        assert CounterOk(less, u, k);
      }
    }
    forall k | 2 <= k < |v| && (k < 2 || 2 + f <= k) ensures Empty(v, k) {
      assert Empty(u, k);
    }
  }

  // The carry holds no more nodes than there are, so its counter exists.
  lemma CarryFits(w: World, i: nat, n: nat)
    requires |w| == 2 + n && n > 0 && forall k {:trigger w[k]} | 0 <= k < |w| :: |w[k]| > 0
    requires |w[1]| == 1 + Pow2(i) && Count(w) - |w| < Pow2(n - 1)
    ensures i < n - 1
  {
    CountAtLeast(w, 1);
    Pow2Grows(i, n - 1);
  }

  // The first node of the list goes to the carry.
  method TakeFirst(ghost w: World, ghost nodes: set<Node>, header: Node, carry: Node, ghost counter: seq<Node>,
      ghost fill: nat, ghost comp: Less)
      returns (ghost v: World)
    requires Counting(comp, w, nodes, header, carry, counter, fill) && |w[0]| > 1
    modifies nodes
    ensures Linked(v, nodes, false) && Kept(w, v) && CountersOk(comp, v, 0, fill) && Headed(v, header, carry, counter)
    ensures |v[1]| == 2 && |v[0]| == |w[0]| - 1
  {
    assert EdgeOk(w, nodes, 1, 0) && EdgeOk(w, nodes, 0, 0);
    RelinkExchanges(w, w, 1, 0, 2, 0);
    v := RelinkWorld(w, 0, 1, 2, 1, 0);
    KeptByExchange(w, w, v, 1, 0);
    Relink(w, nodes, 0, 1, 1, 0, carry.next, header.next);
    StillHeaded(w, v, header, carry, counter);
    SameCounters(comp, w, v, fill);
  }

  // The carry is stored in counter i.
  method Store(ghost w: World, ghost nodes: set<Node>, ghost header: Node, carry: Node, counter: array<Node>, i: nat,
      fill: nat, ghost comp: Less)
      returns (newFill: nat, ghost v: World)
    requires Linked(w, nodes, false) && Headed(w, header, carry, counter[..])
    requires i <= fill < counter.Length && CountersOk(comp, w, i, fill) && Empty(w, 2 + i)
    requires |w[1]| == 1 + Pow2(i) && Ascending(comp, w[1]) && Count(w) - |w| < Pow2(counter.Length - 1)
    modifies nodes
    ensures fill <= newFill && newFill > 0 && Counting(comp, v, nodes, header, carry, counter[..], newFill)
    ensures Kept(w, v) && v[0] == w[0]
  {
    CarryFits(w, i, counter.Length);
    assert counter[i] == counter[..][i];
    Swap(w, nodes, 1, 2 + i, carry, counter[i]);
    v := SwapWorld(w, 1, 2 + i);
    SwapExchanges(w, 1, 2 + i);
    KeptByExchange(w, w, v, 1, 2 + i);
    StillHeaded(w, v, header, carry, counter[..]);
    Stored(comp, w, v, i, fill);
    newFill := fill;
    if i == fill {
      newFill := newFill + 1;
    }
  }

  // One turn of the main loop: the first node of the list is counted.
  method CountOne(ghost w: World, ghost nodes: set<Node>, header: Node, carry: Node, counter: array<Node>, fill: nat,
      comp: Less)
      returns (ok: bool, newFill: nat, ghost v: World)
    requires StrictWeakOrder(comp) && Counting(comp, w, nodes, header, carry, counter[..], fill) && |w[0]| > 1
    modifies nodes
    ensures Linked(v, nodes, false) && Kept(w, v) && fill <= newFill < counter.Length
    ensures forall k {:trigger Empty(v, k)} | 2 + newFill <= k < |v| :: Empty(v, k)
    ensures ok ==> Counting(comp, v, nodes, header, carry, counter[..], newFill) && |v[0]| == |w[0]| - 1 && newFill > 0
  {
    newFill := fill;
    v := TakeFirst(w, nodes, header, carry, counter[..], fill, comp);
    ghost var t := v;
    var i;
    ok, i, v := CarryOn(t, nodes, header, carry, counter, fill, comp);
    if ok {
      StillHeaded(t, v, header, carry, counter[..]);
      newFill, v := Store(v, nodes, header, carry, counter, i, fill, comp);
    }
  }

  lemma SameCounters(less: Less, w: World, v: World, fill: int)
    requires CountersOk(less, w, 0, fill) && |v| == |w| && forall k {:trigger v[k]} | 2 <= k < |v| :: v[k] == w[k]
    ensures CountersOk(less, v, 0, fill)
  {
    forall k | 0 <= k < fill ensures CounterOk(less, v, k) {
      assert CounterOk(less, w, k);
    }
    forall k | 2 + fill <= k < |v| ensures Empty(v, k) {
      assert Empty(w, k);
    }
  }

  /* Putting all together again */

  // All lists but list c are empty.
  ghost predicate AllIn(w: World, c: int) {
    forall k {:trigger Empty(w, k)} | 0 <= k < |w| && k != c :: Empty(w, k)
  }

  // Counters from i on and below fill are ascending, and all other lists are empty.
  ghost predicate Piled(less: Less, w: World, i: int, fill: int) {
    && 0 <= i <= fill && 2 + fill < |w|
    && (forall k {:trigger w[k]} | 2 + i <= k < 2 + fill :: Ascending(less, w[k]))
    && (forall k {:trigger Empty(w, k)} | 0 <= k < 2 + i || 2 + fill <= k < |w| :: Empty(w, k))
  }

  lemma CountedIsPiled(less: Less, w: World, nodes: set<Node>, header: Node, carry: Node, counter: seq<Node>, fill: int)
    requires Counting(less, w, nodes, header, carry, counter, fill) && |w[0]| == 1
    ensures Piled(less, w, 0, fill)
  {
    forall k | 2 <= k < 2 + fill ensures Ascending(less, w[k]) {
      assert CounterOk(less, w, k - 2);
    }
    forall k | 0 <= k < 2 || 2 + fill <= k < |w| ensures Empty(w, k) {
    }
  }

  lemma PiledUp(less: Less, u: World, v: World, i: int, fill: int)
    requires Piled(less, u, i - 1, fill) && 0 < i < fill && Exchanged(u, v, 2 + i, 2 + i - 1)
    requires |v[2 + i - 1]| == 1 && Ascending(less, v[2 + i])
    ensures Piled(less, v, i, fill)
  {
    forall k | 2 + i <= k < 2 + fill ensures Ascending(less, v[k]) {
      assert k == 2 + i || v[k] == u[k];
    }
    forall k | 0 <= k < 2 + i || 2 + fill <= k < |v| ensures Empty(v, k) {
      assert k == 2 + i - 1 || Empty(u, k);
    }
  }

  // The counters are merged upwards.
  method MergeCounters(ghost w: World, ghost nodes: set<Node>, ghost header: Node, ghost carry: Node,
      counter: array<Node>, fill: nat, comp: Less)
      returns (ok: bool, ghost v: World)
    requires StrictWeakOrder(comp) && Linked(w, nodes, false) && Headed(w, header, carry, counter[..])
    requires 0 < fill < counter.Length && Piled(comp, w, 0, fill)
    modifies nodes
    ensures Linked(v, nodes, false) && Kept(w, v)
    ensures forall k {:trigger Empty(v, k)} | 2 + fill <= k < |v| :: Empty(v, k)
    ensures ok ==> AllIn(v, 1 + fill) && Ascending(comp, v[1 + fill])
  {
    v := w;
    ok := true;
    var i := 1;
    while i < fill
      invariant 1 <= i <= fill && Linked(v, nodes, false) && Kept(w, v) && Piled(comp, v, i - 1, fill)
    {
      StillHeaded(w, v, header, carry, counter[..]);
      assert counter[i] == counter[..][i] && counter[i - 1] == counter[..][i - 1];
      ghost var u := v;
      ok, v := Collate(u, nodes, 2 + i, 2 + i - 1, counter[i], counter[i - 1], comp);
      KeptByExchange(w, u, v, 2 + i, 2 + i - 1);
      if !ok {
        forall k | 2 + fill <= k < |v| ensures Empty(v, k) {
          assert Empty(u, k);
        }
        return;
      }
      PiledUp(comp, u, v, i, fill);
      i := i + 1;
    }
  }

  // One list is emptied to the end of the first.
  method EmptyInto(ghost w: World, ghost nodes: set<Node>, ghost c: int, header: Node, from: Node)
      returns (ghost v: World)
    requires Linked(w, nodes, false) && Kept(w, w) && 0 < c < |w| && header == w[0][0] && from == w[c][0]
    modifies nodes
    ensures Linked(v, nodes, false) && Kept(w, v) && Empty(v, c) && |v| == |w|
    ensures forall k {:trigger Empty(v, k)} | 0 < k < |v| && Empty(w, k) :: Empty(v, k)
  {
    assert EdgeOk(w, nodes, c, 0);
    RelinkExchanges(w, w, 0, c, |w[c]|, 0);
    v := RelinkWorld(w, c, 1, |w[c]|, 0, 0);
    KeptByExchange(w, w, v, 0, c);
    RelinkRange(w, nodes, c, 1, |w[c]|, 0, 0, header, from.next, from);
  }

  // What is done when the comparison has thrown: all lists are emptied into the first.
  method Recover(ghost w: World, ghost nodes: set<Node>, header: Node, carry: Node, counter: array<Node>, fill: nat)
      returns (ghost v: World)
    requires Linked(w, nodes, false) && Kept(w, w) && Headed(w, header, carry, counter[..]) && fill < counter.Length
    requires forall k {:trigger Empty(w, k)} | 2 + fill <= k < |w| :: Empty(w, k)
    modifies nodes
    ensures Linked(v, nodes, false) && Kept(w, v) && AllIn(v, 0)
  {
    v := EmptyInto(w, nodes, 1, header, carry);
    for i := 0 to fill + 1
      invariant Linked(v, nodes, false) && Kept(w, v)
      invariant forall k {:trigger Empty(v, k)} | 0 < k < 2 + i || 2 + fill < k < |v| :: Empty(v, k)
    {
      StillHeaded(w, v, header, carry, counter[..]);
      assert counter[i] == counter[..][i];
      ghost var u := v;
      v := EmptyInto(u, nodes, 2 + i, header, counter[i]);
      KeptTwice(w, u, v);
      forall k | 0 < k < 2 + (i + 1) || 2 + fill < k < |v| ensures Empty(v, k) {
        assert k == 2 + i || Empty(u, k);
      }
    }
  }

  lemma KeptTwice(w: World, u: World, v: World)
    requires Kept(w, u) && Kept(u, v)
    ensures Kept(w, v) && Kept(v, v)
  {
  }

  /* The sort */

  function Alone(counter: seq<Node>): (w: World)
    ensures |w| == |counter| && forall k {:trigger w[k]} | 0 <= k < |w| :: w[k] == [counter[k]]
  {
    if counter == [] then [] else Alone(counter[..|counter| - 1]) + [[counter[|counter| - 1]]]
  }

  // The list, the carry and the counters to start with.
  ghost function SortWorld(r: seq<Node>, carry: Node, counter: seq<Node>): (w: World)
    ensures |w| == 2 + |counter| && w[0] == r && w[1] == [carry]
    ensures forall k {:trigger w[k]} | 2 <= k < |w| :: w[k] == [counter[k - 2]]
  {
    [r] + [[carry]] + Alone(counter)
  }

  ghost predicate Single(n: Node)
    reads n
  {
    n.next == n && n.prior == n
  }

  ghost predicate Other(counter: seq<Node>, i: int, j: int)
    requires 0 <= i < |counter| && 0 <= j < |counter|
  {
    i != j ==> counter[i] != counter[j]
  }

  // New headers, each linked to itself.
  ghost predicate NewHeaders(carry: Node, counter: seq<Node>, nodes: set<Node>)
    reads carry, counter
  {
    && Single(carry) && carry !in nodes
    && (forall k {:trigger counter[k]} | 0 <= k < |counter| ::
      Single(counter[k]) && counter[k] !in nodes && counter[k] != carry)
    && (forall i, j {:trigger Other(counter, i, j)} | 0 <= i < |counter| && 0 <= j < |counter| :: Other(counter, i, j))
  }

  method MakeHeaders(n: nat, ghost nodes: set<Node>) returns (carry: Node, counter: array<Node>, ghost all: set<Node>)
    ensures fresh(counter) && counter.Length == n && nodes <= all && fresh(all - nodes)
    ensures carry in all && forall k {:trigger counter[k]} | 0 <= k < n :: counter[k] in all
    ensures NewHeaders(carry, counter[..], nodes)
  {
    carry := new Node(0);
    var filler := carry;
    counter := new Node[n](_ => filler);
    all := nodes + {carry};
    for k := 0 to n
      invariant fresh(counter) && counter.Length == n && nodes <= all && fresh(all - nodes)
      invariant carry in all && forall i {:trigger counter[i]} | 0 <= i < n :: counter[i] in all
      invariant NewHeaders(carry, counter[..k], nodes)
    {
      ghost var before := counter[..k];
      var header := new Node(0);
      assert forall i {:trigger before[i]} | 0 <= i < k :: before[i] != header;
      counter[k] := header;
      all := all + {header};
      assert counter[..k + 1] == before + [header];
      ghost var now := counter[..k + 1];
      forall i, j | 0 <= i < k + 1 && 0 <= j < k + 1 ensures Other(now, i, j) {
        if i < k && j < k { assert Other(before, i, j); }
      }
    }
    assert counter[..] == counter[..n];
  }

  lemma SortWorldIsLinked(r: seq<Node>, nodes: set<Node>, carry: Node, counter: seq<Node>, all: set<Node>)
    requires Linked([r], nodes, false) && NewHeaders(carry, counter, nodes) && |r| > 0
    requires nodes <= all && carry in all && forall k {:trigger counter[k]} | 0 <= k < |counter| :: counter[k] in all
    ensures Linked(SortWorld(r, carry, counter), all, false)
    ensures Kept(SortWorld(r, carry, counter), SortWorld(r, carry, counter))
      && Headed(SortWorld(r, carry, counter), r[0], carry, counter)
  {
    var w := SortWorld(r, carry, counter);
    assert [r][0] == r;
    forall k, i | Place(w, k, i) ensures Known(w, all, k, i) {
      assert k == 0 ==> Known([r], nodes, 0, i);
    }
    forall k, i, l, j | Place(w, k, i) && Place(w, l, j) ensures Apart(w, k, i, l, j) {
      assert k == 0 ==> Known([r], nodes, 0, i);
      assert l == 0 ==> Known([r], nodes, 0, j);
      assert k == l == 0 ==> Apart([r], 0, i, 0, j);
      assert k >= 2 && l >= 2 ==> Other(counter, k - 2, l - 2);
    }
    forall k, i | Place(w, k, i) ensures EdgeOk(w, all, k, i) {
      assert Known(w, all, k, i);
      assert k == 0 ==> EdgeOk([r], nodes, 0, i);
    }
  }

  lemma {:induction false} CountOfSortWorld(r: seq<Node>, carry: Node, counter: seq<Node>)
    ensures Count(SortWorld(r, carry, counter)) == |r| + 1 + |counter|
    decreases |counter|
  {
    var w := SortWorld(r, carry, counter);
    if counter == [] {
      assert w == [r] + [[carry]] && w[..1] == [r] && [r][..0] == [];
      assert Count([r]) == |r|;
    } else {
      CountOfSortWorld(r, carry, counter[..|counter| - 1]);
      assert w[..|w| - 1] == SortWorld(r, carry, counter[..|counter| - 1]);
    }
  }

  // When all nodes are back in the first list, that is all there was in it.
  lemma AllBack(r: seq<Node>, nodes: set<Node>, carry: Node, counter: seq<Node>, v: World, all: set<Node>)
    requires Proper([r], nodes) && Linked(v, all, false) && Kept(SortWorld(r, carry, counter), v) && AllIn(v, 0)
    requires nodes <= all
    ensures Linked([v[0]], nodes, false) && multiset(v[0]) == multiset(r) && v[0][0] == r[0]
  {
    var w, s := SortWorld(r, carry, counter), v[0];
    forall k | 0 <= k < |v| ensures v[k] == w[0 := s][k] {
      assert k > 0 ==> Empty(v, k);
    }
    KeptInOne(w, v, 0);
    forall k, i | Place([s], k, i) ensures Known([s], nodes, k, i) {
      assert s[i] in multiset(r);
      var j :| 0 <= j < |r| && r[j] == s[i];
      assert Known([r], nodes, 0, j);
    }
    forall k, i, l, j | Place([s], k, i) && Place([s], l, j) ensures Apart([s], k, i, l, j) {
      assert Apart(v, 0, i, 0, j);
    }
    forall k, i | Place([s], k, i) ensures EdgeOk([s], nodes, k, i) {
      assert Known([s], nodes, k, i) && EdgeOk(v, all, 0, i);
    }
  }

  // Counts the nodes one by one, merges the counters, and puts the result back under the header.
  method SortCounting(ghost w: World, ghost nodes: set<Node>, header: Node, carry: Node, counter: array<Node>,
      comp: Less)
      returns (ok: bool, ghost v: World)
    requires StrictWeakOrder(comp) && Counting(comp, w, nodes, header, carry, counter[..], 0)
    requires Kept(w, w) && |w[0]| > 1
    modifies nodes
    ensures Linked(v, nodes, false) && Kept(w, v) && AllIn(v, 0)
    ensures ok ==> Ascending(comp, v[0])
  {
    v := w;
    var fill: nat := 0;
    ok := true;
    assert EdgeOk(v, nodes, 0, 0) && Apart(v, 0, 0, 0, 1);
    while header.next != header
      invariant Kept(w, v) && Counting(comp, v, nodes, header, carry, counter[..], fill)
      invariant header.next == v[0][if |v[0]| == 1 then 0 else 1] && (|v[0]| > 1 ==> v[0][0] != v[0][1])
      invariant fill == 0 ==> |v[0]| > 1
      decreases |v[0]|
    {
      ghost var u := v;
      ok, fill, v := CountOne(u, nodes, header, carry, counter, fill, comp);
      KeptTwice(w, u, v);
      StillHeaded(w, v, header, carry, counter[..]);
      if !ok {
        u := v;
        v := Recover(u, nodes, header, carry, counter, fill);
        KeptTwice(w, u, v);
        return;
      }
      assert EdgeOk(v, nodes, 0, 0);
      if |v[0]| > 1 { assert Apart(v, 0, 0, 0, 1); }
    }
    ok, v := SortMerging(w, v, nodes, header, carry, counter, fill, comp);
  }

  // The second half of the sort.
  method SortMerging(ghost w: World, ghost u: World, ghost nodes: set<Node>, header: Node, carry: Node,
      counter: array<Node>, fill: nat, comp: Less)
      returns (ok: bool, ghost v: World)
    requires StrictWeakOrder(comp) && Counting(comp, u, nodes, header, carry, counter[..], fill)
    requires Kept(w, u) && |u[0]| == 1 && 0 < fill
    modifies nodes
    ensures Linked(v, nodes, false) && Kept(w, v) && AllIn(v, 0)
    ensures ok ==> Ascending(comp, v[0])
  {
    CountedIsPiled(comp, u, nodes, header, carry, counter[..], fill);
    ok, v := MergeCounters(u, nodes, header, carry, counter, fill, comp);
    KeptTwice(w, u, v);
    StillHeaded(u, v, header, carry, counter[..]);
    ghost var t := v;
    if !ok {
      v := Recover(t, nodes, header, carry, counter, fill);
      KeptTwice(w, t, v);
      return;
    }
    assert counter[fill - 1] == counter[..][fill - 1];
    Swap(t, nodes, 0, 1 + fill, header, counter[fill - 1]);
    v := SwapWorld(t, 0, 1 + fill);
    SwapExchanges(t, 0, 1 + fill);
    KeptByExchange(w, t, v, 0, 1 + fill);
    TopSwapped(comp, t, v, 1 + fill);
  }

  lemma TopSwapped(less: Less, t: World, v: World, c: int)
    requires 0 < c < |t| && AllIn(t, c) && Ascending(less, t[c]) && |t[c]| > 0 && |t[0]| > 0 && v == SwapWorld(t, 0, c)
    ensures AllIn(v, 0) && Ascending(less, v[0])
  {
    assert Empty(t, 0);
    forall k | 0 < k < |v| ensures Empty(v, k) {
      assert k == c || Empty(t, k);
    }
    forall i, j | 1 <= i < j < |v[0]| ensures InOrder(less, v[0], i, j) {
      assert InOrder(less, t[c], i, j);
    }
  }

  // Sorts the list r; when the comparison throws, the list still holds what it held.
  method Sort(ghost r: seq<Node>, ghost nodes: set<Node>, header: Node, comp: Less, digits: nat)
      returns (ok: bool, ghost s: seq<Node>)
    requires StrictWeakOrder(comp) && Linked([r], nodes, false) && |r| > 0 && header == r[0]
    requires |r| - 1 < Pow2(digits)
    modifies nodes
    ensures Linked([s], nodes, false) && multiset(s) == multiset(r) && |s| > 0 && s[0] == header
    ensures ok ==> Ascending(comp, s)
  {
    s := r;
    ok := true;
    assert [r][0] == r;
    assert EdgeOk([r], nodes, 0, 0) && EdgeOk([r], nodes, 0, Succ(|r|, 0));
    assert Known([r], nodes, 0, 0) && Known([r], nodes, 0, Succ(|r|, 0));
    if header.next == header || header.next.next == header {
      assert Apart([r], 0, 0, 0, Succ(|r|, 0)) && Apart([r], 0, 0, 0, Succ(|r|, Succ(|r|, 0)));
      return;
    }
    ok, s := SortMany(r, nodes, header, comp, digits);
  }

  method SortMany(ghost r: seq<Node>, ghost nodes: set<Node>, header: Node, comp: Less, digits: nat)
      returns (ok: bool, ghost s: seq<Node>)
    requires StrictWeakOrder(comp) && Linked([r], nodes, false) && |r| > 1 && header == r[0]
    requires |r| - 1 < Pow2(digits)
    modifies nodes
    ensures Linked([s], nodes, false) && multiset(s) == multiset(r) && |s| > 0 && s[0] == header
    ensures ok ==> Ascending(comp, s)
  {
    var carry, counter;
    ghost var all;
    carry, counter, all := MakeHeaders(digits + 1, nodes);
    SortWorldIsLinked(r, nodes, carry, counter[..], all);
    CountOfSortWorld(r, carry, counter[..]);
    StartsCounting(comp, SortWorld(r, carry, counter[..]), all, header, carry, counter[..]);
    ok, s := SortWith(r, nodes, header, carry, counter, comp, all);
  }

  // The same with the headers, which are among all.
  method SortWith(ghost r: seq<Node>, ghost nodes: set<Node>, header: Node, carry: Node, counter: array<Node>,
      comp: Less, ghost all: set<Node>)
      returns (ok: bool, ghost s: seq<Node>)
    requires StrictWeakOrder(comp) && Proper([r], nodes) && |r| > 1 && header == r[0] && nodes <= all
    requires var w := SortWorld(r, carry, counter[..]);
      Kept(w, w) && w[0] == r && Counting(comp, w, all, header, carry, counter[..], 0)
    modifies all
    ensures Linked([s], nodes, false) && multiset(s) == multiset(r) && |s| > 0 && s[0] == header
    ensures ok ==> Ascending(comp, s)
  {
    ghost var v, c := [], counter[..];
    ok, v := SortCounting(SortWorld(r, carry, c), all, header, carry, counter, comp);
    AllBack(r, nodes, carry, c, v, all);
    s := v[0];
  }

  lemma StartsCounting(less: Less, w: World, nodes: set<Node>, header: Node, carry: Node, counter: seq<Node>)
    requires Linked(w, nodes, false) && Headed(w, header, carry, counter) && |counter| > 0
    requires forall k {:trigger w[k]} | 0 < k < |w| :: |w[k]| == 1
    requires Count(w) - |w| < Pow2(|counter| - 1)
    ensures Counting(less, w, nodes, header, carry, counter, 0)
  {
  }
}
