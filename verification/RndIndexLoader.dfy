/**
 * Loading the order of a random access index: its pointer array and an auxiliary one serve as the
 * next and prior pointers of a circular list, which is flattened when all nodes have been moved.
 */
module RndIndexLoader {

  import opened RndIndexNode
  import L = NodeList

  function Succ(n: int, i: int): int {
    if i + 1 == n then 0 else i + 1
  }

  function Pred(n: int, i: int): int {
    if i == 0 then n - 1 else i - 1
  }

  // The node of slot k knows it.
  ghost predicate OwnerOk(base: seq<Node>, k: int)
    requires 0 <= k < |base|
    reads base`up
  {
    base[k].up == k
  }

  ghost predicate HomeOk(base: seq<Node>, l: seq<Node>, i: int)
    requires 0 <= i < |l|
    reads l`up
  {
    0 <= l[i].up < |base| && base[l[i].up] == l[i]
  }

  ghost predicate Housed(base: seq<Node>, l: seq<Node>)
    reads base`up, l`up
  {
    && (forall k {:trigger OwnerOk(base, k)} | 0 <= k < |base| :: OwnerOk(base, k))
    && (forall i {:trigger HomeOk(base, l, i)} | 0 <= i < |l| :: HomeOk(base, l, i))
  }

  ghost predicate NextOk(nexts: array<Node>, base: seq<Node>, l: seq<Node>, i: int)
    requires 0 <= i < |l| && HomeOk(base, l, i) && |base| <= nexts.Length
    reads nexts, l`up
  {
    nexts[l[i].up] == l[Succ(|l|, i)]
  }

  ghost predicate PriorOk(priors: array<Node>, base: seq<Node>, l: seq<Node>, i: int)
    requires 0 <= i < |l| && HomeOk(base, l, i) && |base| <= priors.Length
    reads priors, l`up
  {
    priors[l[i].up] == l[Pred(|l|, i)]
  }

  // The arrays hold the circular list l of distinct nodes, whose slots are those of base.
  ghost predicate Circular(nexts: array<Node>, priors: array<Node>, base: seq<Node>, l: seq<Node>)
    reads nexts, priors, base`up, l`up
  {
    && nexts != priors && |base| <= nexts.Length && |base| <= priors.Length
    && L.Distinct(l) && Housed(base, l)
    && (forall i {:trigger NextOk(nexts, base, l, i)} | 0 <= i < |l| :: NextOk(nexts, base, l, i))
    && (forall i {:trigger PriorOk(priors, base, l, i)} | 0 <= i < |l| :: PriorOk(priors, base, l, i))
  }

  lemma SlotsApart(base: seq<Node>, l: seq<Node>, i: int, j: int)
    requires Housed(base, l) && L.Distinct(l) && 0 <= i < |l| && 0 <= j < |l| && i != j
    ensures HomeOk(base, l, i) && HomeOk(base, l, j) && l[i].up != l[j].up
  {
    assert L.Differ(l, i, j);
  }

  function Without(l: seq<Node>, i: int): (r: seq<Node>)
    requires 0 <= i < |l|
    ensures |r| == |l| - 1
  {
    l[..i] + l[i + 1..]
  }

  function Put(l: seq<Node>, k: int, x: Node): (r: seq<Node>)
    requires 0 <= k <= |l|
    ensures |r| == |l| + 1
  {
    l[..k] + [x] + l[k..]
  }

  // Takes the i-th node x out of the list.
  method Unlink(nexts: array<Node>, priors: array<Node>, ghost base: seq<Node>, ghost l: seq<Node>, ghost i: int,
      x: Node)
    requires Circular(nexts, priors, base, l) && |l| >= 2 && 0 <= i < |l| && x == l[i]
    modifies nexts, priors
    ensures Circular(nexts, priors, base, Without(l, i))
  {
    ghost var n := |l|;
    assert HomeOk(base, l, i) && NextOk(nexts, base, l, i) && PriorOk(priors, base, l, i);
    assert HomeOk(base, l, Pred(n, i)) && HomeOk(base, l, Succ(n, i));
    nexts[priors[x.up].up] := nexts[x.up];
    priors[nexts[x.up].up] := priors[x.up];
    ghost var r := Without(l, i);
    forall j, k | 0 <= j < |r| && 0 <= k < |r| && j != k ensures L.Differ(r, j, k) {
      assert L.Differ(l, if j < i then j else j + 1, if k < i then k else k + 1);
    }
    forall j | 0 <= j < |r| ensures HomeOk(base, r, j) && NextOk(nexts, base, r, j) && PriorOk(priors, base, r, j) {
      var m := if j < i then j else j + 1;
      assert HomeOk(base, l, m);
      assert old(NextOk(nexts, base, l, m)) && old(PriorOk(priors, base, l, m));
      if m != Pred(n, i) { SlotsApart(base, l, m, Pred(n, i)); }
      if m != Succ(n, i) { SlotsApart(base, l, m, Succ(n, i)); }
      SlotsApart(base, l, i, m);
    }
  }

  // Puts x, which is not in the list, behind its q-th node p.
  method Link(nexts: array<Node>, priors: array<Node>, ghost base: seq<Node>, ghost l: seq<Node>, p: Node, ghost q: int,
      x: Node)
    requires Circular(nexts, priors, base, l) && 0 <= q < |l| && p == l[q]
    requires x !in l && 0 <= x.up < |base| && base[x.up] == x
    modifies nexts, priors
    ensures Circular(nexts, priors, base, Put(l, Succ(|l|, q), x))
  {
    ghost var n := |l|;
    ghost var s := Succ(n, q);
    ghost var r := Put(l, s, x);
    assert HomeOk(base, l, q) && NextOk(nexts, base, l, q);
    assert HomeOk(base, l, s) && PriorOk(priors, base, l, s);
    assert l[q] in l && l[s] in l;
    priors[x.up] := p;
    nexts[x.up] := nexts[p.up];
    priors[nexts[x.up].up] := x;
    nexts[priors[x.up].up] := x;
    forall j, k | 0 <= j < |r| && 0 <= k < |r| && j != k ensures L.Differ(r, j, k) {
      assert j != s ==> l[if j < s then j else j - 1] in l;
      assert k != s ==> l[if k < s then k else k - 1] in l;
      assert j != s && k != s ==> L.Differ(l, if j < s then j else j - 1, if k < s then k else k - 1);
    }
    forall j | 0 <= j < |r| ensures HomeOk(base, r, j) && NextOk(nexts, base, r, j) && PriorOk(priors, base, r, j) {
      if j != s {
        var m := if j < s then j else j - 1;
        assert HomeOk(base, l, m) && l[m] in l;
        assert old(NextOk(nexts, base, l, m)) && old(PriorOk(priors, base, l, m));
        if m != q { SlotsApart(base, l, m, q); }
        if m != s { SlotsApart(base, l, m, s); }
      }
    }
  }

  /* Flattening */

  // Every slot belongs to a node of the list.
  ghost predicate SlotUsed(base: seq<Node>, l: seq<Node>, k: int)
    requires 0 <= k < |base|
  {
    base[k] in l
  }

  // The nodes from i on are in their slots; those before them still have their next
  // pointers, but for the last of those, and all but the first have their prior ones.
  ghost predicate Flat(nexts: array<Node>, priors: array<Node>, base: seq<Node>, l: seq<Node>, i: int)
    reads nexts, priors, base`up, l`up
  {
    && nexts != priors && 0 <= i <= |l| == |base| <= nexts.Length && |base| <= priors.Length
    && L.Distinct(l) && Housed(base, l)
    && (forall k {:trigger SlotUsed(base, l, k)} | 0 <= k < |base| :: SlotUsed(base, l, k))
    && (forall j {:trigger NextOk(nexts, base, l, j)} | 0 <= j < i - 1 :: NextOk(nexts, base, l, j))
    && (forall j {:trigger PriorOk(priors, base, l, j)} | 0 < j < |l| :: PriorOk(priors, base, l, j))
    && (forall j {:trigger Settled(nexts, l, j)} | i <= j < |l| :: Settled(nexts, l, j))
  }

  ghost predicate Settled(nexts: array<Node>, l: seq<Node>, j: int)
    requires 0 <= j < |l| <= nexts.Length
    reads nexts, l`up
  {
    nexts[j] == l[j] && l[j].up == j
  }

  // The list position of the node of slot i, found through its next pointer; n, the node that is to get the slot, is
  // another.
  lemma NodeOfSlot(nexts: array<Node>, priors: array<Node>, base: seq<Node>, l: seq<Node>, i: int) returns (j: int)
    requires Flat(nexts, priors, base, l, i + 1) && 0 <= i < |l| - 1 && l[i].up != i
    ensures 0 <= j < i && HomeOk(base, l, j) && l[j].up == i && HomeOk(base, l, i) && l[i].up < i
    ensures HomeOk(base, l, j + 1) && nexts[i] == l[j + 1] && priors[l[j + 1].up] == l[j]
  {
    assert SlotUsed(base, l, i) && OwnerOk(base, i);
    j :| 0 <= j < |l| && l[j] == base[i];
    assert HomeOk(base, l, j) && HomeOk(base, l, i);
    assert j > i ==> Settled(nexts, l, j);
    assert NextOk(nexts, base, l, j) && PriorOk(priors, base, l, j + 1);
    if l[i].up > i {
      assert Settled(nexts, l, l[i].up) && HomeOk(base, l, l[i].up);
      assert L.Differ(l, i, l[i].up);
    }
  }

  // Nodes n and m exchange slots: n gets slot i, whose next pointer is kept for m only.
  method Exchange(nexts: array<Node>, priors: array<Node>, ghost base: seq<Node>, ghost l: seq<Node>, i: int, n: Node,
      m: Node, ghost j: int)
      returns (ghost now: seq<Node>)
    requires Flat(nexts, priors, base, l, i + 1) && 0 <= j < i < |l| - 1
    requires n == l[i] && m == l[j] && n.up < i && m.up == i && HomeOk(base, l, i)
    modifies nexts, priors, n`up, m`up
    ensures Flat(nexts, priors, now, l, i + 1) && n.up == i
  {
    var d := n.up;
    now := base[d := m][i := n];
    assert HomeOk(base, l, i) && HomeOk(base, l, j) && SlotUsed(base, l, d) && SlotUsed(base, l, i);
    m.up, n.up := n.up, m.up;
    nexts[d] := nexts[i];
    priors[d], priors[i] := priors[i], priors[d];
    forall k | 0 <= k < |base| ensures OwnerOk(now, k) && SlotUsed(now, l, k) {
      assert old(OwnerOk(base, k)) && SlotUsed(base, l, k);
    }
    forall k | 0 <= k < |l|
      ensures HomeOk(now, l, k) && l[k].up == if k == i then i else if k == j then d else old(l[k].up)
    {
      assert old(HomeOk(base, l, k));
      assert k == i || L.Differ(l, i, k);
      assert k == j || L.Differ(l, j, k);
    }
    forall k | 0 <= k < i ensures NextOk(nexts, now, l, k) {
      assert old(HomeOk(base, l, k)) && old(NextOk(nexts, base, l, k)) && HomeOk(now, l, k);
    }
    forall k | 0 < k < |l| ensures PriorOk(priors, now, l, k) {
      assert old(HomeOk(base, l, k)) && old(PriorOk(priors, base, l, k)) && HomeOk(now, l, k);
    }
    forall k | i < k < |l| ensures Settled(nexts, l, k) {
      assert old(Settled(nexts, l, k));
    }
  }

  lemma CircularIsFlat(nexts: array<Node>, priors: array<Node>, base: seq<Node>, l: seq<Node>)
    requires Circular(nexts, priors, base, l) && |base| == |l|
    requires forall k {:trigger SlotUsed(base, l, k)} | 0 <= k < |base| :: SlotUsed(base, l, k)
    ensures Flat(nexts, priors, base, l, |l|)
  {
  }

  // The next pointer of p is overwritten by p itself.
  method GiveSlot(nexts: array<Node>, ghost priors: array<Node>, ghost base: seq<Node>, ghost l: seq<Node>,
      ghost i: int, p: Node)
    requires Flat(nexts, priors, base, l, i + 1) && 0 <= i < |l| && p == l[i] && p.up == i
    modifies nexts
    ensures Flat(nexts, priors, base, l, i)
  {
    nexts[p.up] := p;
    forall j | 0 <= j < i - 1 ensures NextOk(nexts, base, l, j) {
      assert old(NextOk(nexts, base, l, j));
      SlotsApart(base, l, i, j);
    }
    forall j | 0 < j < |l| ensures PriorOk(priors, base, l, j) {
      assert old(PriorOk(priors, base, l, j));
    }
    forall j | i <= j < |l| ensures Settled(nexts, l, j) {
      assert j > i ==> old(Settled(nexts, l, j));
    }
  }

  // One turn of the loop: the node before n gets slot i.
  method Settle(nexts: array<Node>, priors: array<Node>, ghost base: seq<Node>, ghost l: seq<Node>, i: int, n: Node)
      returns (p: Node, ghost now: seq<Node>)
    requires 0 <= i < |l| - 1 && n == l[i + 1] && Flat(nexts, priors, base, l, i + 1)
    modifies nexts, priors, l`up
    ensures p == l[i] && Flat(nexts, priors, now, l, i)
  {
    assert PriorOk(priors, base, l, i + 1) && HomeOk(base, l, i + 1) && HomeOk(base, l, i);
    now := base;
    p := priors[n.up];
    if p.up != i {
      ghost var j := NodeOfSlot(nexts, priors, base, l, i);
      now := Exchange(nexts, priors, base, l, i, p, priors[nexts[i].up], j);
    }
    GiveSlot(nexts, priors, now, l, i, p);
  }

  // The list pointers of all nodes are given up for the array of them in list order; the header, n, is the last.
  method Flatten(nexts: array<Node>, priors: array<Node>, ghost base: seq<Node>, ghost l: seq<Node>, header: Node,
      size: nat)
    requires Circular(nexts, priors, base, l) && |base| == |l| == size + 1 && l[size] == header && header.up == size
    requires forall k {:trigger SlotUsed(base, l, k)} | 0 <= k < |base| :: SlotUsed(base, l, k)
    modifies nexts, priors, l`up
    ensures size < nexts.Length && nexts[..size + 1] == l && Sound(nexts, size + 1)
  {
    ghost var house := base;
    var n := header;
    CircularIsFlat(nexts, priors, base, l);
    GiveSlot(nexts, priors, base, l, size, n);
    var i := size;
    while i > 0
      invariant 0 <= i <= size && n == l[i] && Flat(nexts, priors, house, l, i)
      invariant |l| == size + 1
    {
      i := i - 1;
      n, house := Settle(nexts, priors, house, l, i, n);
    }
    forall k | 0 <= k <= size ensures nexts[k] == l[k] && Knows(nexts, k) {
      assert Settled(nexts, l, k);
    }
  }

  /* The list in terms of moves */

  lemma UnlinkedIsRemoved(s: seq<Node>, h: Node, x: Node)
    requires x in s
    ensures Without(s + [h], L.Pos(s, x)) == L.Remove(s, x) + [h] && (s + [h])[L.Pos(s, x)] == x
  {
  }

  lemma DistinctInFront(s: seq<Node>, h: Node)
    requires L.Distinct(s + [h])
    ensures L.Distinct(s) && h !in s
  {
    forall i, j | 0 <= i < |s| && 0 <= j < |s| && i != j ensures L.Differ(s, i, j) {
      assert L.Differ(s + [h], i, j);
    }
    forall i | 0 <= i < |s| ensures s[i] != h {
      assert L.Differ(s + [h], i, |s|);
    }
  }

  // The place, in the circular list without x that ends with the header h, behind which x goes.
  function Behind(s: seq<Node>, p: L.Pointer<Node>, x: Node): (q: int)
    requires x in s && (p.To? ==> p.node in s && p.node != x)
    ensures 0 <= q < |s|
  {
    if p.Null? || L.Slot(s, p, x) == 0 then |s| - 1 else L.Slot(s, p, x) - 1
  }

  lemma BehindHolds(s: seq<Node>, h: Node, p: L.Pointer<Node>, x: Node)
    requires L.Distinct(s) && x in s && (p.To? ==> p.node in s && p.node != x)
    ensures (L.Remove(s, x) + [h])[Behind(s, p, x)] == if p.Null? then h else p.node
  {
    if p.To? {
      assert L.At(s, L.Pos(s, p.node)) != L.At(s, L.Pos(s, x));
      L.RemoveAt(s, x, L.Slot(s, p, x) - 1);
    }
  }

  lemma LinkedIsInserted(s: seq<Node>, h: Node, p: L.Pointer<Node>, x: Node)
    requires L.Distinct(s) && x in s && (p.To? ==> p.node in s && p.node != x)
    ensures Put(L.Remove(s, x) + [h], Succ(|s|, Behind(s, p, x)), x) == L.MoveAfter(s, p, x) + [h]
  {
    var r, k := L.Remove(s, x), L.Slot(s, p, x);
    if p.To? {
      assert L.At(s, L.Pos(s, p.node)) != L.At(s, L.Pos(s, x));
    }
    assert k == Succ(|s|, Behind(s, p, x));
    assert (r + [h])[..k] == r[..k] && (r + [h])[k..] == r[k..] + [h];
  }

  class Loader {
    const ptrs: array<Node>
    const size: nat
    const header: Node
    var priors: array<Node>
    var preprocessed: bool
    ghost const base: seq<Node> // the nodes as they were, and the header
    ghost var list: seq<Node> // the nodes as they are now

    ghost predicate Valid()
      reads this, ptrs, priors, base`up, list`up
    {
      && |base| == size + 1 <= ptrs.Length && base[size] == header
      && L.SameNodes(base, list + [header])
      && if preprocessed then Circular(ptrs, priors, base, list + [header])
        else ptrs[..size + 1] == base == list + [header] && Sound(ptrs, size + 1)
    }

    constructor (a: array<Node>, n: nat)
      requires n < a.Length && Sound(a, n + 1)
      ensures Valid() && ptrs == a && size == n && header == a[n] && list == a[..n] && base == a[..n + 1] && priors == a
    {
      ptrs, size, header := a, n, a[n];
      priors := a;
      preprocessed := false;
      list, base := a[..n], a[..n + 1];
      SoundIsDistinct(a, n + 1);
      new;
      assert list + [header] == base;
      forall i, j | 0 <= i <= n && 0 <= j <= n && i != j ensures L.Differ(base, i, j) {
        assert RndIndexNode.Differ(base, i, j);
      }
    }

    // Turns the array into next pointers, and allocates the prior ones.
    method Preprocess()
      requires Valid()
      modifies this`priors, this`preprocessed, ptrs
      ensures Valid() && preprocessed && (priors == old(priors) || fresh(priors))
    {
      if !preprocessed {
        var n := size + 1;
        var nodes, pointee := ptrs[..n], header;
        var spc := new Node[n](_ => pointee);
        forall k | 0 <= k < n {
          spc[k] := nodes[Pred(n, k)];
        }
        forall k | 0 <= k < n {
          ptrs[k] := nodes[Succ(n, k)];
        }
        priors, preprocessed := spc, true;
        forall k | 0 <= k < n
          ensures OwnerOk(base, k) && HomeOk(base, base, k) && NextOk(ptrs, base, base, k)
            && PriorOk(priors, base, base, k)
        {
          assert old(Knows(ptrs, k));
        }
      }
    }
  
    // Moves x behind the node at position, or to the front when there is none.
    method Rearrange(position: L.Pointer<Node>, x: Node)
      requires Valid() && x in list && (position.To? ==> position.node in list && position.node != x)
      modifies this, ptrs, priors
      ensures Valid() && preprocessed && (priors == old(priors) || fresh(priors))
      ensures list == L.MoveAfter(old(list), position, x)
    {
      Preprocess();
      DistinctInFront(list, header);
      var p := if position.Null? then header else position.node;
      ghost var s := list;
      Relink(p, x, L.Pos(s, x), Behind(s, position, x), position);
      list := L.MoveAfter(s, position, x);
      L.MoveAfterKeeps(s, position, x);
      SameWithHeader(s, list);
    }

    lemma SameWithHeader(s: seq<Node>, t: seq<Node>)
      requires L.SameNodes(t, s) && L.SameNodes(base, s + [header])
      ensures L.SameNodes(base, t + [header])
    {
      var u := t + [header];
      DistinctInFront(s, header);
      forall i, j | 0 <= i < |u| && 0 <= j < |u| && i != j ensures L.Differ(u, i, j) {
        if i < |t| && j < |t| {
          assert L.Differ(t, i, j);
        } else {
          var k := if i < |t| then i else j;
          assert t[k] in t && t[k] in s;
        }
      }
      forall y {:trigger y in base} | y in base ensures y in u {
        assert y in s + [header];
        assert y in s ==> y in t;
        assert u[|t|] == header;
      }
      forall y {:trigger y in u} | y in u ensures y in base {
        assert y in t || y == header;
        assert y in t ==> y in s;
        assert (s + [header])[|s|] == header;
        assert y in s + [header];
      }
    }

    // Takes x out and puts it behind p.
    method Relink(p: Node, x: Node, ghost i: int, ghost q: int, ghost position: L.Pointer<Node>)
      requires Valid() && preprocessed
      requires x in list && (position.To? ==> position.node in list && position.node != x)
      requires i == L.Pos(list, x) && q == Behind(list, position, x)
        && p == if position.Null? then header else position.node
      modifies ptrs, priors
      ensures Circular(ptrs, priors, base, L.MoveAfter(list, position, x) + [header])
    {
      ghost var s := list;
      DistinctInFront(s, header);
      UnlinkedIsRemoved(s, header, x);
      BehindHolds(s, header, position, x);
      LinkedIsInserted(s, header, position, x);
      assert L.Distinct(s + [header]) && HomeOk(base, s + [header], i);
      forall j | 0 <= j < |s| ensures (L.Remove(s, x) + [header])[j] != x {
        assert L.Differ(s + [header], i, if j < i then j else j + 1);
      }
      Unlink(ptrs, priors, base, s + [header], i, x);
      Link(ptrs, priors, base, L.Remove(s, x) + [header], p, q, x);
    }

    // What the destructor does: the array has the nodes in list order again, and each knows its slot.
    method Finish()
      requires Valid()
      modifies ptrs, priors, base`up
      ensures ptrs[..size] == list && ptrs[size] == header && Sound(ptrs, size + 1)
    {
      if preprocessed {
        forall k | 0 <= k < |base| ensures SlotUsed(base, list + [header], k) {
          assert base[k] in base;
        }
        assert OwnerOk(base, size);
        forall k | 0 <= k <= size ensures (list + [header])[k] in base {
          assert (list + [header])[k] in list + [header];
        }
        Flatten(ptrs, priors, base, list + [header], header, size);
      }
    }
  }

  // Moves one after the other.
  datatype Move = Move(position: L.Pointer<Node>, x: Node)

  ghost predicate MoveOk(l: seq<Node>, m: Move) {
    m.x in l && (m.position.To? ==> m.position.node in l && m.position.node != m.x)
  }

  ghost predicate MovesOk(l: seq<Node>, moves: seq<Move>) {
    forall i {:trigger moves[i]} | 0 <= i < |moves| :: MoveOk(l, moves[i])
  }

  ghost function Replayed(l: seq<Node>, moves: seq<Move>): (r: seq<Node>)
    requires L.Distinct(l) && MovesOk(l, moves)
    ensures L.SameNodes(r, l)
  {
    if moves == [] then l else
      var m := moves[|moves| - 1];
      var r := Replayed(l, moves[..|moves| - 1]);
      L.MoveAfterKeeps(r, m.position, m.x);
      L.MoveAfter(r, m.position, m.x)
  }

  // Whatever the moves, the array ends up as a plain list would have it.
  method Load(ptrs: array<Node>, size: nat, moves: seq<Move>)
    requires size < ptrs.Length && Sound(ptrs, size + 1)
    requires L.Distinct(ptrs[..size]) && MovesOk(ptrs[..size], moves)
    modifies ptrs, ptrs[..size + 1]`up
    ensures ptrs[..size] == Replayed(old(ptrs[..size]), moves)
    ensures ptrs[size] == old(ptrs[size]) && Sound(ptrs, size + 1)
  {
    var ld := new Loader(ptrs, size);
    ghost var l := ptrs[..size];
    for i := 0 to |moves|
      invariant ld.Valid() && ld.ptrs == ptrs && ld.size == size && fresh(ld) && ld.header == old(ptrs[size])
      invariant ld.base == old(ptrs[..size + 1])
      invariant ld.priors == ptrs || fresh(ld.priors)
      invariant ld.list == Replayed(l, moves[..i])
    {
      assert moves[..i + 1][..i] == moves[..i] && MoveOk(l, moves[i]);
      ld.Rearrange(moves[i].position, moves[i].x);
    }
    assert moves[..|moves|] == moves;
    ld.Finish();
  }
}
