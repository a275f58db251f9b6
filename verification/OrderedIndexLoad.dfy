/** Saving and loading the order of the equivalent elements of an ordered non-unique index. */
module OrderedIndexLoad {

  import opened OrdIndexNode
  import opened Ordering
  import opened OrderedIndex
  import L = NodeList

  // x may stand between the elements before place d and the others.
  ghost predicate Between(ix: Index, x: Node, d: int)
    requires ix.tree.Indexed() && x in ix.tree.nodes
    reads ix.tree, ix.tree.nodes`pos, ix.tree.nodes`value
  {
    && 0 <= d <= |ix.tree.order|
    && forall j {:trigger ix.K(j)} | 0 <= j < |ix.tree.order| && j != x.pos ::
      if j < d then !ix.lt(ix.Key(x), ix.K(j)) else !ix.lt(ix.K(j), ix.Key(x))
  }

  // The place x is to go to when it is to stand behind position: in front of the elements
  // equivalent to it if position is none of them.
  ghost predicate PlaceBehind(ix: Index, position: Node?, x: Node, d: int)
    requires ix.tree.Indexed() && x in ix.tree.nodes && (position != null ==> position in ix.tree.nodes)
    reads ix.tree, ix.tree.nodes`pos, ix.tree.nodes`value
  {
    if position == null || ix.lt(ix.Key(position), ix.Key(x)) then ix.LowerAt(ix.Key(x), d) else d == position.pos + 1
  }

  lemma PlaceIsBetween(ix: Index, position: Node?, x: Node, d: int)
    requires StrictWeakOrder(ix.lt) && ix.tree.Indexed() && ix.Sorted() && x in ix.tree.nodes
    requires position != null ==> position in ix.tree.nodes && position != x && !ix.lt(ix.Key(x), ix.Key(position))
    requires PlaceBehind(ix, position, x, d)
    ensures Between(ix, x, d) && d != x.pos + 1
  {
    var k := ix.Key(x);
    assert At(ix.tree.order, x.pos) == x && ix.K(x.pos) == k && !ix.lt(k, k);
    if position == null || ix.lt(ix.Key(position), k) {
      forall j | 0 <= j < d ensures !ix.lt(k, ix.K(j)) {
        assert ix.lt(ix.K(j), k) && !ix.lt(k, k);
      }
    } else {
      assert At(ix.tree.order, position.pos) == position;
      var p := ix.K(position.pos);
      forall j | 0 <= j < |ix.tree.order| ensures if j < d then !ix.lt(k, ix.K(j)) else !ix.lt(ix.K(j), k) {
        var q := ix.K(j);
        assert j < position.pos ==> !ix.lt(p, q);
        assert position.pos < j ==> !ix.lt(q, p);
      }
    }
  }

  lemma OrderIsDistinct(t: Tree)
    requires t.Indexed()
    ensures L.Distinct(t.order)
    ensures forall n {:trigger n in t.nodes} | n in t.nodes :: n in t.order && L.Pos(t.order, n) == n.pos
  {
    forall i, j | 0 <= i < |t.order| && 0 <= j < |t.order| && i != j ensures L.Differ(t.order, i, j) {
      assert At(t.order, i).pos == i && At(t.order, j).pos == j;
    }
    forall n {:trigger n in t.nodes} | n in t.nodes ensures n in t.order && L.Pos(t.order, n) == n.pos {
      assert At(t.order, n.pos) == n;
      L.PosAt(t.order, n.pos);
    }
  }

  // The node x follows when it goes to place d.
  ghost function Before(o: seq<Node>, d: int): L.Pointer<Node>
    requires 0 <= d <= |o|
  {
    if d == 0 then L.Null else L.To(L.At(o, d - 1))
  }

  // In s, x stands behind the node that was before place d of o.
  ghost predicate MovedBehind(o: seq<Node>, s: seq<Node>, x: Node, d: int) {
    && 0 <= d <= |o| && x in o
    && (d > 0 ==> L.At(o, d - 1) in o && L.At(o, d - 1) != x)
    && s == L.MoveAfter(o, Before(o, d), x)
  }

  // o with x, at place p, taken out and put back where place d was.
  ghost function PutAt(o: seq<Node>, x: Node, p: int, d: int): seq<Node>
    requires 0 <= p < |o| && 0 <= d <= |o| && d != p + 1
  {
    var r, e := o[..p] + o[p + 1..], if d <= p then d else d - 1;
    r[..e] + [x] + r[e..]
  }

  // Taking x out and putting it back at its new place is moving it behind the node before that place.
  lemma MovedToPlace(o: seq<Node>, x: Node, p: int, d: int)
    requires L.Distinct(o) && 0 <= p < |o| && L.At(o, p) == x && 0 <= d <= |o| && d != p + 1
    ensures MovedBehind(o, PutAt(o, x, p, d), x, d)
  {
    var q := Before(o, d);
    L.PosAt(o, p);
    if d > 0 {
      L.PosAt(o, d - 1);
      L.Apart(o, d - 1, p);
    }
  }

  // Once x has been taken out there is a gap for it.
  twostate lemma GapAfterUnlink(ix: Index, new x: Node, new d: int)
    requires old(ix.tree.Indexed()) && x in old(ix.tree.nodes) && ix.tree.Indexed()
    requires old(Between(ix, x, d)) && d != old(x.pos) + 1
    requires ix.tree.nodes == old(ix.tree.nodes) - {x}
    requires ix.tree.order == old(ix.tree.order[..x.pos]) + old(ix.tree.order[x.pos + 1..])
    requires forall n <- old(ix.tree.nodes) :: n.value == old(n.value)
    ensures ix.Gap(ix.Key(x), if d <= old(x.pos) then d else d - 1)
  {
    var o, p := old(ix.tree.order), old(x.pos);
    forall j | 0 <= j < |ix.tree.order|
      ensures if j < (if d <= p then d else d - 1) then !ix.lt(ix.Key(x), ix.K(j)) else !ix.lt(ix.K(j), ix.Key(x))
    {
      var m := if j < p then j else j + 1;
      assert ix.tree.order[j] == At(o, m) && ix.K(j) == old(ix.K(m));
    }
  }

  lemma StaysThere(o: seq<Node>, x: Node, p: int)
    requires 0 <= p < |o| && L.At(o, p) == x
    ensures PutAt(o, x, p, p) == o
  {
  }

  method RestoreInGap(ix: Index, x: Node, to: Node, ghost e: int)
    requires StrictWeakOrder(ix.lt) && ix.tree.Valid() && ix.Sorted() && x !in ix.tree.nodes && x != ix.tree.header
    requires 0 <= e <= |ix.tree.order| && to == ix.NodeAt(e) && ix.Gap(ix.Key(x), e)
    modifies ix.tree, ix.tree.header, ix.tree.nodes, x
    ensures ix.tree.Valid() && ix.Sorted() && ix.tree.nodes == old(ix.tree.nodes) + {x}
    ensures forall n <- ix.tree.nodes :: n.value == old(n.value)
    ensures ix.tree.order == old(ix.tree.order[..e]) + [x] + old(ix.tree.order[e..])
  {
    assert e < |ix.tree.order| ==> At(ix.tree.order, e).pos == e && to in ix.tree.nodes;
    ix.tree.Restore(x, to);
    ix.LinkedKeepsSorted(x, e);
  }

  // Relinks x before the node at place d, another one or the header.
  method RelinkAt(ix: Index, x: Node, to: Node, ghost d: int)
    requires StrictWeakOrder(ix.lt) && ix.tree.Valid() && ix.Sorted() && x in ix.tree.nodes && Between(ix, x, d)
    requires d != x.pos + 1 && to == ix.NodeAt(d) && to != x
    modifies ix.tree, ix.tree.header, ix.tree.nodes
    ensures ix.tree.Valid() && ix.Sorted() && ix.tree.nodes == old(ix.tree.nodes)
    ensures forall n <- ix.tree.nodes :: n.value == old(n.value)
    ensures old(0 <= x.pos < |ix.tree.order|) && ix.tree.order == PutAt(old(ix.tree.order), x, old(x.pos), d)
  {
    ghost var o, p := ix.tree.order, x.pos;
    assert At(o, p) == x;
    var next := ix.Unlink(x);
    GapAfterUnlink(ix, x, d);
    ghost var e := if d <= p then d else d - 1;
    assert e < |ix.tree.order| ==> At(ix.tree.order, e) == to && to.pos == e;
    RestoreInGap(ix, x, to, e);
  }

  // Relinks x before the node at place d, unless it is that node.
  method MoveTo(ix: Index, x: Node, to: Node, ghost d: int)
    requires StrictWeakOrder(ix.lt) && ix.tree.Valid() && ix.Sorted() && x in ix.tree.nodes && Between(ix, x, d)
      && d != x.pos + 1
    requires to == ix.NodeAt(d)
    modifies ix.tree, ix.tree.header, ix.tree.nodes
    ensures ix.tree.Valid() && ix.Sorted() && ix.tree.nodes == old(ix.tree.nodes)
    ensures forall n <- ix.tree.nodes :: n.value == old(n.value)
    ensures MovedBehind(old(ix.tree.order), ix.tree.order, x, d)
  {
    OrderIsDistinct(ix.tree);
    assert At(ix.tree.order, x.pos) == x && L.At(ix.tree.order, x.pos) == x;
    MovedToPlace(ix.tree.order, x, x.pos, d);
    if to != x {
      RelinkAt(ix, x, to, d);
    } else {
      StaysThere(ix.tree.order, x, x.pos);
    }
  }

  // Where x goes; false when it would have to leave the elements equivalent to it.
  method Destination(ix: Index, position: Node?, x: Node) returns (ok: bool, to: Node, ghost d: int)
    requires StrictWeakOrder(ix.lt) && ix.tree.Valid() && ix.Sorted() && x in ix.tree.nodes
    requires position != null ==> position in ix.tree.nodes && position != x
    ensures ok <==> position == null || !ix.lt(ix.Key(x), ix.Key(position))
    ensures ok ==> PlaceBehind(ix, position, x, d) && Between(ix, x, d) && d != x.pos + 1 && to == ix.NodeAt(d)
  {
    ok, to, d := true, x, 0;
    if position == null || ix.lt(ix.Key(position), ix.Key(x)) {
      to, d := ix.LowerBound(ix.Key(x));
      assert !(position != null && ix.lt(ix.Key(x), ix.Key(position)));
    } else if ix.lt(ix.Key(x), ix.Key(position)) {
      return false, x, 0;
    } else {
      to := ix.tree.Increment(position);
      d := position.pos + 1;
      assert At(ix.tree.order, position.pos) == position && At(ix.tree.order, x.pos) == x;
    }
    PlaceIsBetween(ix, position, x, d);
  }

  // Puts x behind position, or in front of the elements equivalent to it; refuses when it would have to leave them.
  method Rearrange(ix: Index, position: Node?, x: Node) returns (ok: bool, ghost d: int)
    requires StrictWeakOrder(ix.lt) && ix.tree.Valid() && ix.Sorted() && x in ix.tree.nodes
    requires position != null ==> position in ix.tree.nodes && position != x
    modifies ix.tree, ix.tree.header, ix.tree.nodes
    ensures ix.tree.Valid() && ix.Sorted() && ix.tree.nodes == old(ix.tree.nodes)
    ensures forall n <- ix.tree.nodes :: n.value == old(n.value)
    ensures ok <==> position == null || !old(ix.lt(ix.Key(x), ix.Key(position)))
    ensures !ok ==> ix.tree.order == old(ix.tree.order)
    ensures ok ==> old(PlaceBehind(ix, position, x, d)) && MovedBehind(old(ix.tree.order), ix.tree.order, x, d)
  {
    var to;
    ok, to, d := Destination(ix, position, x);
    if ok {
      MoveTo(ix, x, to, d);
    }
  }

  /* The elements that are not alone in their class */

  // The keys of an index in its order.
  ghost predicate KeysOf(ix: Index, ks: seq<int>)
    requires ix.tree.Indexed()
    reads ix.tree, ix.tree.nodes`pos, ix.tree.nodes`value
  {
    |ks| == |ix.tree.order| && forall i {:trigger ix.K(i)} {:trigger ks[i]} | 0 <= i < |ks| :: ix.K(i) == ks[i]
  }

  ghost predicate InOrder(lt: Less, ks: seq<int>) {
    forall i, j {:trigger ks[i], ks[j]} | 0 <= i < j < |ks| :: !lt(ks[j], ks[i])
  }

  // The key at place i is equivalent to one beside it.
  ghost predicate Duplicate(lt: Less, ks: seq<int>, i: int)
    requires 0 <= i < |ks|
  {
    (0 < i && !lt(ks[i - 1], ks[i])) || (i + 1 < |ks| && !lt(ks[i], ks[i + 1]))
  }

  ghost predicate Equivalent(lt: Less, ks: seq<int>, i: int, j: int)
    requires 0 <= i < |ks| && 0 <= j < |ks|
  {
    !lt(ks[i], ks[j]) && !lt(ks[j], ks[i])
  }

  // That is: its class has another element.
  lemma DuplicateHasTwin(lt: Less, ks: seq<int>, i: int)
    requires StrictWeakOrder(lt) && InOrder(lt, ks) && 0 <= i < |ks|
    ensures Duplicate(lt, ks, i) <==> exists j {:trigger Equivalent(lt, ks, i, j)} ::
      0 <= j < |ks| && j != i && Equivalent(lt, ks, i, j)
  {
    if Duplicate(lt, ks, i) {
      assert Equivalent(lt, ks, i, if 0 < i && !lt(ks[i - 1], ks[i]) then i - 1 else i + 1);
    }
    if j :| 0 <= j < |ks| && j != i && Equivalent(lt, ks, i, j) {
      if j < i - 1 {
        NotBoth(lt, ks[i - 1], ks[j], ks[i]);
      } else if i + 1 < j {
        NotBoth(lt, ks[i], ks[j], ks[i + 1]);
      }
    }
  }

  // No key before place i is equivalent to the one there.
  ghost predicate Starts(lt: Less, ks: seq<int>, i: int) {
    0 < i < |ks| ==> lt(ks[i - 1], ks[i])
  }

  ghost predicate NoneBetween(lt: Less, ks: seq<int>, lo: int, hi: int) {
    forall j {:trigger Duplicate(lt, ks, j)} | lo <= j < hi && 0 <= j < |ks| :: !Duplicate(lt, ks, j)
  }

  // A key equivalent to the first of a class, b, behind it is a duplicate.
  lemma LaterIsDuplicate(lt: Less, ks: seq<int>, b: int, i: int)
    requires StrictWeakOrder(lt) && InOrder(lt, ks) && 0 <= b < i < |ks| && !lt(ks[b], ks[i])
    ensures Duplicate(lt, ks, i)
  {
    if b < i - 1 {
      NotBoth(lt, ks[i - 1], ks[b], ks[i]);
    }
  }

  // n is the node at place i, or the end.
  ghost predicate Stands(ix: Index, ks: seq<int>, n: Node, i: int)
    requires ix.tree.Indexed()
    reads ix.tree, ix.tree.nodes`pos, ix.tree.nodes`value, n`value
  {
    && KeysOf(ix, ks) && 0 <= i <= |ks| && n == ix.NodeAt(i) && (n == ix.tree.header <==> i == |ks|)
    && (i < |ks| ==> n in ix.tree.nodes && n.pos == i && ks[i] == ix.Key(n))
  }

  lemma StandsAt(ix: Index, ks: seq<int>, n: Node, i: int)
    requires ix.tree.Indexed() && KeysOf(ix, ks) && 0 <= i <= |ks| && n == ix.NodeAt(i)
    ensures Stands(ix, ks, n, i)
  {
    assert i < |ks| ==> At(ix.tree.order, i) == n && ix.K(i) == ks[i];
  }

  method NodeAfter(ix: Index, ghost ks: seq<int>, n: Node, ghost i: int) returns (r: Node)
    requires ix.tree.Valid() && Stands(ix, ks, n, i) && i < |ks|
    ensures ix.tree.Valid() && Stands(ix, ks, r, i + 1) && Stands(ix, ks, n, i)
  {
    r := ix.tree.Increment(n);
    StandsAt(ix, ks, r, i + 1);
  }

  // The loop of advance: from the first element of a class on to the first one that is not alone in its class.
  method FirstOfMany(ix: Index, ghost ks: seq<int>, n0: Node, ghost i0: int) returns (n: Node, ghost i: int)
    requires ix.tree.Valid() && Stands(ix, ks, n0, i0) && Starts(ix.lt, ks, i0)
    ensures i0 <= i && Stands(ix, ks, n, i) && NoneBetween(ix.lt, ks, i0, i) && (i < |ks| ==> Duplicate(ix.lt, ks, i))
  {
    n, i := n0, i0;
    var n2 := n;
    while n != ix.tree.header
      invariant ix.tree.Valid() && i0 <= i && Stands(ix, ks, n, i) && n2 == n
      invariant Starts(ix.lt, ks, i) && NoneBetween(ix.lt, ks, i0, i)
      decreases |ks| - i
    {
      n2 := NodeAfter(ix, ks, n2, i);
      StartIsDuplicate(ix.lt, ks, i);
      if n2 != ix.tree.header && !ix.lt(ix.Key(n), ix.Key(n2)) {
        break;
      }
      n := n2;
      i := i + 1;
    }
  }

  lemma StartIsDuplicate(lt: Less, ks: seq<int>, i: int)
    requires Starts(lt, ks, i) && 0 <= i < |ks|
    ensures Duplicate(lt, ks, i) <==> i + 1 < |ks| && !lt(ks[i], ks[i + 1])
  {
  }

  class DuplicatesIterator {
    const ix: Index
    const end: Node
    var node: Node
    var beginChunk: Node
    ghost const ks: seq<int>
    ghost var i: int // the place of node
    ghost var b: int // the place of beginChunk

    // At a duplicate, whose class starts at b, or at the end.
    ghost predicate At()
      reads this
    {
      && StrictWeakOrder(ix.lt) && InOrder(ix.lt, ks)
      && 0 <= b <= i <= |ks| && (i < |ks| ==> Duplicate(ix.lt, ks, i) && !ix.lt(ks[b], ks[i]))
    }

    ghost predicate Valid()
      reads this, ix.tree, ix.tree.header, ix.tree.nodes, node, beginChunk
    {
      && ix.tree.Valid() && end == ix.tree.header
      && Stands(ix, ks, node, i) && Stands(ix, ks, beginChunk, b)
    }

    constructor (index: Index, ghost keys: seq<int>)
      requires StrictWeakOrder(index.lt) && index.tree.Valid() && KeysOf(index, keys) && InOrder(index.lt, keys)
      ensures ix == index && ks == keys && Valid() && At() && NoneBetween(ix.lt, ks, 0, i)
    {
      ix, end, ks := index, index.tree.header, keys;
      node, beginChunk := index.tree.header.left, index.tree.header;
      i, b := 0, |keys|;
      new;
      assert ix.tree.order != [] ==> OrdIndexNode.At(ix.tree.order, 0) == node;
      StandsAt(ix, ks, node, 0);
      StandsAt(ix, ks, beginChunk, |ks|);
      Advance();
    }

    method Advance()
      requires Valid() && StrictWeakOrder(ix.lt) && InOrder(ix.lt, ks) && Starts(ix.lt, ks, i)
      modifies this
      ensures Valid() && At() && old(i) <= i && NoneBetween(ix.lt, ks, old(i), i)
    {
      ghost var j;
      node, j := FirstOfMany(ix, ks, node, i);
      i := j;
      beginChunk := node;
      b := i;
    }

    // On to the next duplicate.
    method Next()
      requires Valid() && At() && i < |ks|
      modifies this
      ensures Valid() && At() && old(i) < i && NoneBetween(ix.lt, ks, old(i) + 1, i)
    {
      node := NodeAfter(ix, ks, node, i);
      i := i + 1;
      Sync();
    }

    method Sync()
      requires Valid() && StrictWeakOrder(ix.lt) && InOrder(ix.lt, ks) && b < i && !ix.lt(ks[b], ks[i - 1])
      modifies this
      ensures Valid() && At() && old(i) <= i && NoneBetween(ix.lt, ks, old(i), i)
    {
      if node != end {
        if ix.lt(ix.Key(beginChunk), ix.Key(node)) {
          GreaterStarts(ix.lt, ks, b, i);
          Advance();
        } else {
          LaterIsDuplicate(ix.lt, ks, b, i);
        }
      }
    }
  }

  // A key greater than the first of the class of the one before it starts a class.
  lemma GreaterStarts(lt: Less, ks: seq<int>, b: int, i: int)
    requires StrictWeakOrder(lt) && 0 <= b < i < |ks| && !lt(ks[b], ks[i - 1]) && lt(ks[b], ks[i])
    ensures Starts(lt, ks, i)
  {
    NotBoth(lt, ks[b], ks[i - 1], ks[i]);
  }

  // The places in d are those of the duplicates before place n, in their order.
  ghost predicate Lists(lt: Less, ks: seq<int>, d: seq<int>, n: int) {
    && (forall j {:trigger d[j]} | 0 <= j < |d| :: 0 <= d[j] < n && d[j] < |ks| && Duplicate(lt, ks, d[j]))
    && (forall i {:trigger Duplicate(lt, ks, i)} | 0 <= i < n && i < |ks| && Duplicate(lt, ks, i) :: i in d)
    && (forall j, k {:trigger d[j], d[k]} | 0 <= j < k < |d| :: d[j] < d[k])
  }

  // d lists the nodes at the places.
  ghost predicate NodesAt(ix: Index, d: seq<Node>, places: seq<int>)
    reads ix.tree
  {
    |places| == |d| && forall j {:trigger d[j]} | 0 <= j < |d| ::
      0 <= places[j] < |ix.tree.order| && d[j] == ix.tree.order[places[j]]
  }

  lemma ListsOneMore(lt: Less, ks: seq<int>, d: seq<int>, i: int, n: int)
    requires Lists(lt, ks, d, i) && 0 <= i < |ks| && i < n && Duplicate(lt, ks, i) && NoneBetween(lt, ks, i + 1, n)
    ensures Lists(lt, ks, d + [i], n)
  {
    var e := d + [i];
    forall k | 0 <= k < n && k < |ks| && Duplicate(lt, ks, k) ensures k in e {
      if k == i { assert e[|d|] == i; } else { assert k in d; }
    }
  }

  // What has been listed when the iterator stands where it does.
  ghost predicate Listed(it: DuplicatesIterator, d: seq<Node>, places: seq<int>)
    reads it, it.ix.tree
  {
    it.At() && Lists(it.ix.lt, it.ks, places, it.i) && NodesAt(it.ix, d, places)
  }

  method TakeNext(it: DuplicatesIterator, d: seq<Node>, ghost places: seq<int>)
      returns (e: seq<Node>, ghost more: seq<int>)
    requires it.Valid() && Listed(it, d, places) && it.i < |it.ks|
    modifies it
    ensures it.Valid() && Listed(it, e, more) && old(it.i) < it.i
  {
    ghost var i := it.i;
    var n := it.node;
    it.Next();
    ListsOneMore(it.ix.lt, it.ks, places, i, it.i);
    e, more := d + [n], places + [i];
  }

  method Collect(it: DuplicatesIterator) returns (d: seq<Node>, ghost places: seq<int>)
    requires it.Valid() && it.At() && NoneBetween(it.ix.lt, it.ks, 0, it.i)
    modifies it
    ensures Lists(it.ix.lt, it.ks, places, |it.ks|) && NodesAt(it.ix, d, places)
  {
    d, places := [], [];
    while it.node != it.end
      invariant it.Valid() && Listed(it, d, places)
      decreases |it.ks| - it.i
    {
      d, places := TakeNext(it, d, places);
    }
  }

  // All duplicates, in their order.
  method Duplicates(ix: Index, ghost ks: seq<int>) returns (d: seq<Node>, ghost places: seq<int>)
    requires StrictWeakOrder(ix.lt) && ix.tree.Valid() && KeysOf(ix, ks) && InOrder(ix.lt, ks)
    ensures Lists(ix.lt, ks, places, |ks|) && NodesAt(ix, d, places)
  {
    var it := new DuplicatesIterator(ix, ks);
    d, places := Collect(it);
  }
}
