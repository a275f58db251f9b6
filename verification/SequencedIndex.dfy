/** A sequenced index: a circular list of nodes around a header. */
module SequencedIndex {

  import opened Ordering
  import opened Powers
  import opened SeqIndexNode
  import SeqIndexOps
  import L = NodeList

  // The elements of s from i up to j moved before the one at k.
  ghost function Moved(s: seq<Node>, k: int, i: int, j: int): (r: seq<Node>)
    requires 0 <= i <= j <= |s| && 0 <= k <= |s| && (k <= i || j <= k)
    ensures |r| == |s|
  {
    if k <= i then s[..k] + s[i..j] + s[k..i] + s[j..] else s[..i] + s[j..k] + s[i..j] + s[k..]
  }

  // Places in the list with the header first.
  function RingIndex(s: seq<Node>, k: int): int {
    if k == |s| then 0 else k + 1
  }

  lemma PutBetween(a: seq<Node>, m: seq<Node>, b: seq<Node>)
    ensures Put(a + b, |a|, m) == a + m + b
  {
  }

  lemma TakenOut(a: seq<Node>, m: seq<Node>, b: seq<Node>)
    ensures Without(a + m + b, |a|, |a| + |m|) == a + b && (a + m + b)[|a|..|a| + |m|] == m
  {
  }

  // m goes in front of q.
  lemma MoveForward(p: seq<Node>, q: seq<Node>, m: seq<Node>, t: seq<Node>)
    ensures var r := p + q + m + t; var i := |p + q|; var j := i + |m|;
      Put(Without(r, i, j), |p|, r[i..j]) == p + m + q + t
  {
    TakenOut(p + q, m, t);
    assert p + q + t == p + (q + t);
    PutBetween(p, m, q + t);
  }

  // m goes behind q.
  lemma MoveBackward(p: seq<Node>, m: seq<Node>, q: seq<Node>, t: seq<Node>)
    ensures var r := p + m + q + t; var i := |p|; var j := i + |m|;
      Put(Without(r, i, j), |p + q|, r[i..j]) == p + q + m + t
  {
    assert p + m + q + t == p + m + (q + t);
    TakenOut(p, m, q + t);
    assert p + (q + t) == (p + q) + t;
    PutBetween(p + q, m, t);
  }

  lemma Parts(s: seq<Node>, a: int, b: int, c: int)
    requires 0 <= a <= b <= c <= |s|
    ensures s == s[..a] + s[a..b] + s[b..c] + s[c..]
  {
    assert s == s[..a] + s[a..] && s[a..] == s[a..b] + s[b..] && s[b..] == s[b..c] + s[c..];
  }

  // m goes in front of q in a list with its header.
  lemma ForwardInList(h: Node, p: seq<Node>, q: seq<Node>, m: seq<Node>, t: seq<Node>)
    ensures var r := [h] + (p + q + m + t); var i := |p| + |q| + 1; var j := i + |m|;
      Put(Without(r, i, j), |p| + 1, r[i..j]) == [h] + (p + m + q + t)
  {
    MoveForward([h] + p, q, m, t);
    WithHeader(h, p, q, m, t);
    WithHeader(h, p, m, q, t);
  }

  lemma WithHeader(h: Node, p: seq<Node>, a: seq<Node>, b: seq<Node>, t: seq<Node>)
    ensures [h] + (p + a + b + t) == ([h] + p) + a + b + t
  {
  }

  lemma BackwardInList(h: Node, p: seq<Node>, m: seq<Node>, q: seq<Node>, t: seq<Node>)
    ensures var r := [h] + (p + m + q + t); var i := |p| + 1; var j := i + |m|;
      Put(Without(r, i, j), |p| + |q| + 1, r[i..j]) == [h] + (p + q + m + t)
  {
    MoveBackward([h] + p, m, q, t);
    WithHeader(h, p, m, q, t);
    WithHeader(h, p, q, m, t);
  }

  lemma MovedForward(h: Node, s: seq<Node>, k: int, i: int, j: int)
    requires 0 <= k <= i <= j <= |s|
    ensures var r := [h] + s; Put(Without(r, i + 1, j + 1), k + 1, r[i + 1..j + 1]) == [h] + Moved(s, k, i, j)
  {
    Parts(s, k, i, j);
    ForwardInList(h, s[..k], s[k..i], s[i..j], s[j..]);
  }

  lemma MovedBackward(h: Node, s: seq<Node>, k: int, i: int, j: int)
    requires 0 <= i <= j <= k <= |s|
    ensures var r := [h] + s; Put(Without(r, i + 1, j + 1), k + 1 - (j - i), r[i + 1..j + 1]) == [h] + Moved(s, k, i, j)
  {
    Parts(s, i, j, k);
    BackwardInList(h, s[..i], s[i..j], s[j..k], s[k..]);
    Moves(s, k, i, j);
  }

  lemma Moves(s: seq<Node>, k: int, i: int, j: int)
    requires 0 <= i <= j <= k <= |s|
    ensures Moved(s, k, i, j) == s[..i] + s[j..k] + s[i..j] + s[k..]
  {
  }

  lemma StaysPut(s: seq<Node>, k: int, i: int, j: int)
    requires 0 <= i <= j <= |s| && (k == i || k == j)
    ensures Moved(s, k, i, j) == s
  {
  }

  lemma RelinkIsMoved(h: Node, s: seq<Node>, k: int, i: int, j: int)
    requires 0 <= i <= j <= |s| && 0 <= k <= |s| && (k < i || j <= k)
    ensures RelinkWorld([[h] + s], 0, i + 1, j + 1, 0, RingIndex(s, k)) == [[h] + Moved(s, k, i, j)]
  {
    RelinkWorldIs([[h] + s], 0, i + 1, j + 1, 0, RingIndex(s, k));
    if k < i {
      MovedForward(h, s, k, i, j);
    } else {
      MovedBackward(h, s, k, i, j);
    }
  }

  class Index {
    const header: Node
    ghost var nodes: set<Node>
    ghost var list: seq<Node>

    ghost predicate Valid()
      reads this, nodes
    {
      Linked([[header] + list], nodes, false)
    }

    constructor (h: Node)
      modifies h
      ensures Valid() && header == h && list == [] && nodes == {h}
    {
      header := h;
      nodes, list := {h}, [];
      new;
      h.prior, h.next := h, h;
      assert [header] + list == [h];
      forall k, i | Place([[h]], k, i) ensures EdgeOk([[h]], nodes, k, i) {
        assert Known([[h]], nodes, k, i);
      }
    }

    // The header stands for the end.
    ghost predicate At(x: Node, k: int)
      reads this
    {
      0 <= k <= |list| && x == if k == |list| then header else list[k]
    }

    lemma AtIs(x: Node, k: int)
      requires At(x, k)
      ensures x == ([header] + list)[RingIndex(list, k)]
    {
    }

    lemma AtIsUnique(x: Node, i: int, j: int)
      requires Valid() && At(x, i) && At(x, j)
      ensures i == j
    {
      AtIs(x, i);
      AtIs(x, j);
      assert Apart([[header] + list], 0, RingIndex(list, i), 0, RingIndex(list, j));
    }

    method PushBack(x: Node)
      requires Valid() && x !in nodes
      modifies this`nodes, this`list, nodes, x
      ensures Valid() && list == old(list) + [x] && nodes == old(nodes) + {x}
    {
      ghost var w := [[header] + list];
      Link(w, nodes, 0, x, header);
      assert w[0] + [x] == [header] + (list + [x]);
      assert w[0 := w[0] + [x]] == [[header] + (list + [x])];
      nodes, list := nodes + {x}, list + [x];
    }

    method Erase(x: Node, ghost i: int)
      requires Valid() && At(x, i) && i < |list|
      modifies this`list, nodes
      ensures Valid() && list == old(list[..i] + list[i + 1..])
    {
      ghost var w := [[header] + list];
      Unlink(w, nodes, 0, i + 1, x);
      assert Without(w[0], i + 1, i + 2) == [header] + (list[..i] + list[i + 1..]);
      assert w[0 := Without(w[0], i + 1, i + 2)] == [[header] + (list[..i] + list[i + 1..])];
      list := list[..i] + list[i + 1..];
    }

    method Relocate(position: Node, x: Node, ghost k: int, ghost i: int)
      requires Valid() && At(position, k) && At(x, i) && i < |list|
      modifies this`list, nodes
      ensures Valid() && list == Moved(old(list), k, i, i + 1)
    {
      AtIs(position, k);
      AtIs(x, i);
      if position != x {
        RelinkIsMoved(header, list, k, i, i + 1);
        Relink([[header] + list], nodes, 0, i + 1, 0, RingIndex(list, k), position, x);
      } else {
        AtIsUnique(x, i, k);
        StaysPut(list, k, i, i + 1);
      }
      list := Moved(list, k, i, i + 1);
    }

    method RelocateRange(position: Node, first: Node, last: Node, ghost k: int, ghost i: int, ghost j: int)
      requires Valid() && At(position, k) && At(first, i) && At(last, j) && i <= j && (k < i || j <= k)
      modifies this`list, nodes
      ensures Valid() && list == Moved(old(list), k, i, j)
    {
      AtIs(position, k);
      AtIs(first, i);
      AtIs(last, j);
      if position != last {
        RelinkIsMoved(header, list, k, i, j);
        SeqIndexNode.RelinkRange([[header] + list], nodes, 0, i + 1, j + 1, 0, RingIndex(list, k), position, first,
          last);
      } else {
        AtIsUnique(last, j, k);
        StaysPut(list, k, i, j);
      }
      list := Moved(list, k, i, j);
    }

    method Reverse()
      requires Valid()
      modifies this`list, nodes
      ensures Valid() && |list| == |old(list)|
      ensures forall k {:trigger list[k]} | 0 <= k < |list| :: list[k] == old(list)[|list| - 1 - k]
    {
      ghost var r := [header] + list;
      SeqIndexNode.Reverse([r], nodes, 0, header);
      list := Reversed(r)[1..];
      assert Reversed(r) == [header] + list;
      assert [r][0 := Reversed(r)] == [[header] + list];
    }

    method Sort(comp: Less, digits: nat) returns (ok: bool)
      requires Valid() && StrictWeakOrder(comp) && |list| < Pow2(digits)
      modifies this`list, nodes
      ensures Valid() && multiset(list) == multiset(old(list))
      ensures ok ==> forall i, j {:trigger list[i], list[j]} | 0 <= i < j < |list| ::
        !comp(list[j].value, list[i].value)
    {
      ghost var r, s := [header] + list, [header] + list;
      ok, s := SeqIndexOps.Sort(r, nodes, header, comp, digits);
      assert multiset(r) == multiset([header]) + multiset(list);
      assert s == [header] + s[1..] && multiset(s) == multiset([header]) + multiset(s[1..]);
      SeqIndexOps.Cancel(multiset([header]), multiset(list), multiset(s[1..]));
      list := s[1..];
      if ok {
        forall i, j {:trigger list[i], list[j]} | 0 <= i < j < |list| ensures !comp(list[j].value, list[i].value) {
          assert SeqIndexOps.InOrder(comp, s, i + 1, j + 1);
        }
      }
    }
  
    // What loading does with each node read: x goes behind the node at position, or to the front.
    method Rearranger(position: L.Pointer<Node>, x: Node)
      requires Valid() && x in list && (position.To? ==> position.node in list && position.node != x)
      modifies this`list, nodes
      ensures Valid() && list == L.MoveAfter(old(list), position, x)
    {
      ListIsDistinct();
      ghost var s := list;
      ghost var i, k := L.Pos(s, x), if position.Null? then 0 else L.Pos(s, position.node) + 1;
      MovedIsMoveAfter(s, position, x);
      var p := Next(if position.Null? then header else position.node, k);
      assert At(x, i);
      if p != x {
        Relocate(p, x, k, i);
      } else {
        AtIsUnique(x, i, k);
        StaysPut(s, k, i, i + 1);
      }
    }

    // The node after p, which stands before place k.
    method Next(p: Node, ghost k: int) returns (n: Node)
      requires Valid() && 0 <= k <= |list| && p == ([header] + list)[k]
      ensures At(n, k)
    {
      assert EdgeOk([[header] + list], nodes, 0, k);
      n := p.next;
    }

    lemma ListIsDistinct()
      requires Valid()
      ensures L.Distinct(list) && forall i {:trigger list[i]} | 0 <= i < |list| :: list[i] != header && list[i] in nodes
    {
      forall i, j | 0 <= i < |list| && 0 <= j < |list| && i != j ensures L.Differ(list, i, j) {
        assert Apart([[header] + list], 0, i + 1, 0, j + 1);
      }
      forall i | 0 <= i < |list| ensures list[i] != header && list[i] in nodes {
        assert Apart([[header] + list], 0, i + 1, 0, 0) && Known([[header] + list], nodes, 0, i + 1);
      }
    }

    // Puts the nodes in the order given, which lists all of them.
    method Rearrange(first: seq<Node>)
      requires Valid() && |first| == |list| && L.Distinct(first)
      requires forall i {:trigger first[i]} | 0 <= i < |first| :: first[i] in list
      modifies this`list, nodes
      ensures Valid() && list == first
    {
      ghost var n := |list|;
      for i := 0 to |first|
        invariant Valid() && |list| == n && forall j {:trigger first[j]} | 0 <= j < n :: first[j] in list
        invariant list[n - i..] == first[..i]
      {
        ListIsDistinct();
        ghost var s := list;
        var x := first[i];
        ghost var k :| 0 <= k < n && s[k] == x;
        NotYet(s, first, i, k);
        Relocate(header, x, n, k);
        LastIs(s, first, i, k);
      }
    }
  }

  // The next of first is not among the last i of s, which are the first i of first.
  lemma NotYet(s: seq<Node>, first: seq<Node>, i: int, k: int)
    requires |s| == |first| && L.Distinct(first) && 0 <= i < |s| && 0 <= k < |s| && s[k] == first[i]
    requires s[|s| - i..] == first[..i]
    ensures k < |s| - i
  {
    forall m | 0 <= m < i ensures first[m] != first[i] {
      assert L.Differ(first, m, i);
    }
  }

  lemma LastIs(s: seq<Node>, first: seq<Node>, i: int, k: int)
    requires |s| == |first| && 0 <= i < |s| && 0 <= k < |s| - i && s[k] == first[i]
    requires s[|s| - i..] == first[..i]
    ensures var t := Moved(s, |s|, k, k + 1);
      && t[|t| - (i + 1)..] == first[..i + 1]
      && forall x {:trigger x in t} {:trigger x in s} | x in s :: x in t
  {
    var n := |s|;
    Moves(s, n, k, k + 1);
    var t := Moved(s, n, k, k + 1);
    assert t == s[..k] + s[k + 1..] + [s[k]];
    assert t[n - (i + 1)..] == s[n - i..] + [s[k]];
    forall j | 0 <= j < n ensures s[j] in t {
      assert t[if j < k then j else if j == k then n - 1 else j - 1] == s[j];
    }
  }

  lemma MovedToFront(s: seq<Node>, k: int, i: int)
    requires 0 <= k <= i < |s|
    ensures Moved(s, k, i, i + 1) == L.Insert(s[..i] + s[i + 1..], k, s[i])
  {
    var r := s[..i] + s[i + 1..];
    assert r[..k] == s[..k] && r[k..] == s[k..i] + s[i + 1..] && s[i..i + 1] == [s[i]];
  }

  lemma MovedToBack(s: seq<Node>, k: int, i: int)
    requires 0 <= i < k <= |s|
    ensures Moved(s, k, i, i + 1) == L.Insert(s[..i] + s[i + 1..], k - 1, s[i])
  {
    var r := s[..i] + s[i + 1..];
    Moves(s, k, i, i + 1);
    assert r[..k - 1] == s[..i] + s[i + 1..k] && r[k - 1..] == s[k..] && s[i..i + 1] == [s[i]];
  }

  lemma MovedIsMoveAfter(s: seq<Node>, position: L.Pointer<Node>, x: Node)
    requires L.Distinct(s) && x in s && (position.To? ==> position.node in s && position.node != x)
    ensures var i, k := L.Pos(s, x), if position.Null? then 0 else L.Pos(s, position.node) + 1;
      && (k <= i || i + 1 <= k)
      && Moved(s, k, i, i + 1) == L.MoveAfter(s, position, x)
  {
    var i, k := L.Pos(s, x), if position.Null? then 0 else L.Pos(s, position.node) + 1;
    if position.To? {
      assert L.At(s, L.Pos(s, position.node)) != L.At(s, i);
    }
    if k <= i {
      MovedToFront(s, k, i);
    } else {
      MovedToBack(s, k, i);
    }
  }
}
