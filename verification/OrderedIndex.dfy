/** An ordered index: lookup, insertion with and without a hint, ranges and ranks over the tree. */
module OrderedIndex {
  import opened OrdIndexNode
  import opened Ordering

  class Index {
    const tree: Tree
    const key: int -> int
    const lt: Less

    // The empty index around a header.
    constructor (h: Node, k: int -> int, l: Less)
      modifies h
      ensures fresh(tree) && tree.Valid() && tree.header == h && tree.order == [] && key == k && lt == l
      ensures Sorted() && StrictlySorted()
    {
      tree := new Tree(h);
      key, lt := k, l;
    }

    function Key(n: Node): int
      reads n`value
    {
      key(n.value)
    }

    // The key at place i of the order.
    ghost function K(i: int): int
      requires tree.Indexed() && 0 <= i < |tree.order|
      reads tree, tree.nodes`pos, tree.nodes`value
    {
      key(At(tree.order, i).value)
    }

    // p holds from some place of the order on.
    ghost predicate Upward(p: int -> bool)
      requires tree.Indexed()
      reads tree, tree.nodes`pos, tree.nodes`value
    {
      forall i, j {:trigger K(i), K(j)} | 0 <= i <= j < |tree.order| :: p(K(i)) ==> p(K(j))
    }

    // Of the places from lo to hi, those before i fail p and the others meet it.
    ghost predicate Cut(p: int -> bool, lo: int, i: int, hi: int)
      requires tree.Indexed()
      reads tree, tree.nodes`pos, tree.nodes`value
    {
      && 0 <= lo <= i <= hi <= |tree.order|
      && (forall j {:trigger K(j)} | lo <= j < i :: !p(K(j)))
      && (forall j {:trigger K(j)} | i <= j < hi :: p(K(j)))
    }

    // The node at place i, the header standing for the end.
    ghost function NodeAt(i: int): Node
      requires 0 <= i <= |tree.order|
      reads tree
    {
      if i == |tree.order| then tree.header else At(tree.order, i)
    }

    ghost predicate Spanned(top: Node?, lo: int, hi: int)
      reads tree, tree.nodes`lo, tree.nodes`hi
    {
      && 0 <= lo <= hi <= |tree.order|
      && (top == null ==> lo == hi)
      && (top != null ==> top in tree.nodes && lo == top.lo && hi == top.hi)
    }

    // The loop of lower_bound, upper_bound, lower_range and upper_range.
    method FirstFrom(top: Node?, y: Node, p: int -> bool, ghost lo: int, ghost hi: int) returns (r: Node, ghost i: int)
      requires tree.Shape() && Upward(p) && Spanned(top, lo, hi) && y == NodeAt(hi)
      ensures Cut(p, lo, i, hi) && r == NodeAt(i)
    {
      var x := top;
      r := y;
      ghost var a, b := lo, hi;
      while x != null
        invariant Spanned(x, a, b) && lo <= a <= b <= hi && r == NodeAt(b)
        invariant Cut(p, lo, a, a) && Cut(p, b, b, hi)
        decreases if x == null then 0 else x.hi - x.lo
      {
        assert tree.LeftOk(x) && tree.RightOk(x) && K(x.pos) == key(x.value);
        if p(key(x.value)) {
          r := x;
          b := x.pos;
          x := x.left;
        } else {
          a := x.pos + 1;
          x := x.right;
        }
      }
      i := b;
    }

    // The same loop, counting with the subtree sizes.
    method RankFrom(top: Node?, y: Node, p: int -> bool, ghost lo: int, ghost hi: int)
        returns (s: int, r: Node, ghost i: int)
      requires tree.Shape() && tree.Sized() && Upward(p) && Spanned(top, lo, hi) && y == NodeAt(hi)
      ensures Cut(p, lo, i, hi) && s == i - lo && r == NodeAt(i)
    {
      var x := top;
      s, r := SizeOf(top), y;
      ghost var a, b := lo, hi;
      while x != null
        invariant Spanned(x, a, b) && lo <= a <= b <= hi && s == b - lo && r == NodeAt(b)
        invariant Cut(p, lo, a, a) && Cut(p, b, b, hi)
        decreases if x == null then 0 else x.hi - x.lo
      {
        assert tree.LeftOk(x) && tree.RightOk(x) && K(x.pos) == key(x.value);
        if p(key(x.value)) {
          s, r := s - (SizeOf(x.right) + 1), x;
          b := x.pos;
          x := x.left;
        } else {
          a := x.pos + 1;
          x := x.right;
        }
      }
      i := b;
    }

    // No key is less than an earlier one.
    ghost predicate Sorted()
      requires tree.Indexed()
      reads tree, tree.nodes`pos, tree.nodes`value
    {
      forall i, j {:trigger K(i), K(j)} | 0 <= i < j < |tree.order| :: !lt(K(j), K(i))
    }

    ghost predicate StrictlySorted()
      requires tree.Indexed()
      reads tree, tree.nodes`pos, tree.nodes`value
    {
      forall i, j {:trigger K(i), K(j)} | 0 <= i < j < |tree.order| :: lt(K(i), K(j))
    }

    // The lower and the upper bound of k.

    ghost predicate LowerAt(k: int, i: int)
      requires tree.Indexed()
      reads tree, tree.nodes`pos, tree.nodes`value
    {
      Cut(a => !lt(a, k), 0, i, |tree.order|)
    }

    ghost predicate UpperAt(k: int, i: int)
      requires tree.Indexed()
      reads tree, tree.nodes`pos, tree.nodes`value
    {
      Cut(a => lt(k, a), 0, i, |tree.order|)
    }

    // An element with key k may be inserted at place i.
    ghost predicate Gap(k: int, i: int)
      requires tree.Indexed()
      reads tree, tree.nodes`pos, tree.nodes`value
    {
      && 0 <= i <= |tree.order|
      && forall j {:trigger K(j)} | 0 <= j < |tree.order| :: if j < i then !lt(k, K(j)) else !lt(K(j), k)
    }

    lemma BoundsUpward(k: int)
      requires StrictWeakOrder(lt) && tree.Indexed() && Sorted()
      ensures Upward(a => !lt(a, k)) && Upward(a => lt(k, a))
    {
      forall i, j | 0 <= i <= j < |tree.order|
        ensures (!lt(K(i), k) ==> !lt(K(j), k)) && (lt(k, K(i)) ==> lt(k, K(j)))
      {
        assert i < j ==> !lt(K(j), K(i));
      }
    }

    method LowerBound(k: int) returns (r: Node, ghost i: int)
      requires StrictWeakOrder(lt) && tree.Valid() && Sorted()
      ensures LowerAt(k, i) && r == NodeAt(i)
    {
      BoundsUpward(k);
      assert tree.header.parent != null ==> tree.UpOk(tree.header.parent);
      r, i := FirstFrom(tree.header.parent, tree.header, a => !lt(a, k), 0, |tree.order|);
    }

    method UpperBound(k: int) returns (r: Node, ghost i: int)
      requires StrictWeakOrder(lt) && tree.Valid() && Sorted()
      ensures UpperAt(k, i) && r == NodeAt(i)
    {
      BoundsUpward(k);
      assert tree.header.parent != null ==> tree.UpOk(tree.header.parent);
      r, i := FirstFrom(tree.header.parent, tree.header, a => lt(k, a), 0, |tree.order|);
    }

    method Find(k: int) returns (r: Node)
      requires StrictWeakOrder(lt) && tree.Valid() && Sorted()
      ensures if r == tree.header then forall i {:trigger K(i)} | 0 <= i < |tree.order| :: lt(K(i), k) || lt(k, K(i))
        else r in tree.nodes && !lt(Key(r), k) && !lt(k, Key(r)) && forall i {:trigger K(i)} | 0 <= i < r.pos ::
          lt(K(i), k)
    {
      ghost var i: int;
      r, i := LowerBound(k);
      BoundsUpward(k);
      assert i < |tree.order| ==> K(i) == Key(r);
      if r != tree.header && lt(k, key(r.value)) {
        r := tree.header;
      }
    }

    lemma JoinFrom(p: int -> bool, a: int, i: int, c: int)
      requires tree.Indexed() && Upward(p) && 0 <= c < |tree.order| && p(K(c))
      requires Cut(p, 0, a, a) && Cut(p, a, i, c)
      ensures Cut(p, 0, i, |tree.order|)
    {
    }

    lemma JoinUpTo(p: int -> bool, c: int, j: int, b: int)
      requires tree.Indexed() && Upward(p) && 0 <= c < |tree.order| && !p(K(c))
      requires Cut(p, c + 1, j, b) && Cut(p, b, b, |tree.order|)
      ensures Cut(p, 0, j, |tree.order|)
    {
    }

    // The subtree at z, of the places from a to b, holds all bounds, and its top lies between them.
    ghost predicate Straddled(z: Node, low: int -> bool, above: int -> bool, a: int, b: int)
      requires tree.Indexed()
      reads tree, tree.nodes`lo, tree.nodes`hi, tree.nodes`pos, tree.nodes`value, z
    {
      && Spanned(z, a, b) && a <= z.pos < b && low(key(z.value)) && !above(key(z.value))
      && Cut(low, 0, a, a) && Cut(above, b, b, |tree.order|)
    }

    lemma StraddledSides(z: Node, low: int -> bool, above: int -> bool, a: int, b: int)
      requires tree.Shape() && Straddled(z, low, above, a, b)
      ensures K(z.pos) == key(z.value) && z == NodeAt(z.pos)
      ensures Spanned(z.left, a, z.pos) && Spanned(z.right, z.pos + 1, b)
    {
      assert tree.LeftOk(z) && tree.RightOk(z);
    }

    method FirstBelow(z: Node, low: int -> bool, ghost above: int -> bool, ghost a: int, ghost b: int)
        returns (r: Node, ghost i: int)
      requires tree.Valid() && Upward(low) && Straddled(z, low, above, a, b)
      ensures Cut(low, 0, i, |tree.order|) && i <= z.pos && r == NodeAt(i)
    {
      StraddledSides(z, low, above, a, b);
      r, i := FirstFrom(z.left, z, low, a, z.pos);
      JoinFrom(low, a, i, z.pos);
    }

    method FirstAbove(z: Node, y: Node, ghost low: int -> bool, above: int -> bool, ghost a: int, ghost b: int)
        returns (r: Node, ghost j: int)
      requires tree.Valid() && Upward(above) && Straddled(z, low, above, a, b) && y == NodeAt(b)
      ensures Cut(above, 0, j, |tree.order|) && z.pos < j && r == NodeAt(j)
    {
      StraddledSides(z, low, above, a, b);
      r, j := FirstFrom(z.right, y, above, z.pos + 1, b);
      JoinUpTo(above, z.pos, j, b);
    }

    method RangeAt(z: Node, y: Node, low: int -> bool, above: int -> bool, ghost a: int, ghost b: int)
        returns (r: Node, r': Node, ghost i: int, ghost j: int)
      requires tree.Valid() && Upward(low) && Upward(above) && Straddled(z, low, above, a, b) && y == NodeAt(b)
      ensures Cut(low, 0, i, |tree.order|) && Cut(above, 0, j, |tree.order|) && i < j
      ensures r == NodeAt(i) && r' == NodeAt(j)
    {
      r, i := FirstBelow(z, low, above, a, b);
      r', j := FirstAbove(z, y, low, above, a, b);
    }

    method RankBelow(z: Node, low: int -> bool, ghost above: int -> bool, ghost a: int, ghost b: int) returns (m: int)
      requires tree.Valid() && Upward(low) && Straddled(z, low, above, a, b)
      ensures Cut(low, 0, a + m, |tree.order|) && a + m <= z.pos
    {
      StraddledSides(z, low, above, a, b);
      var r;
      ghost var i;
      m, r, i := RankFrom(z.left, z, low, a, z.pos);
      JoinFrom(low, a, i, z.pos);
    }

    method RankAbove(z: Node, y: Node, ghost low: int -> bool, above: int -> bool, ghost a: int, ghost b: int)
        returns (m: int)
      requires tree.Valid() && Upward(above) && Straddled(z, low, above, a, b) && y == NodeAt(b)
      ensures Cut(above, 0, z.pos + 1 + m, |tree.order|) && 0 <= m
    {
      StraddledSides(z, low, above, a, b);
      var r;
      ghost var j;
      m, r, j := RankFrom(z.right, y, above, z.pos + 1, b);
      JoinUpTo(above, z.pos, j, b);
    }

    lemma StraddledSizes(z: Node, low: int -> bool, above: int -> bool, a: int, b: int)
      requires tree.Valid() && Straddled(z, low, above, a, b)
      ensures z.size == b - a && SizeOf(z.right) == b - z.pos - 1
    {
      assert tree.RightOk(z);
    }

    method RangeRankAt(z: Node, y: Node, low: int -> bool, above: int -> bool, s: int, ghost a: int, ghost b: int)
        returns (m: int, m': int)
      requires tree.Valid() && Upward(low) && Upward(above) && Straddled(z, low, above, a, b) && y == NodeAt(b)
        && s == b
      ensures Cut(low, 0, m, |tree.order|) && Cut(above, 0, m', |tree.order|) && m < m'
    {
      StraddledSizes(z, low, above, a, b);
      m := RankBelow(z, low, above, a, b);
      m' := RankAbove(z, y, low, above, a, b);
      m, m' := s - z.size + m, s - SizeOf(z.right) + m';
    }

    // The loop of range and equal_range: low holds from place i on, and high up to place j.
    method Range(low: int -> bool, high: int -> bool) returns (r: Node, r': Node, ghost i: int, ghost j: int)
      requires tree.Valid() && Upward(low) && Upward(a => !high(a))
      ensures Cut(low, 0, i, |tree.order|) && Cut(a => !high(a), 0, j, |tree.order|)
      ensures r == NodeAt(i) && r' == NodeAt(if i < j then j else i)
    {
      var y, z := tree.header, tree.header.parent;
      ghost var a, b, n := 0, |tree.order|, |tree.order|;
      assert z != null ==> tree.UpOk(z);
      while z != null
        invariant Spanned(z, a, b) && y == NodeAt(b)
        invariant Cut(low, 0, a, a) && Cut(low, b, b, n)
        invariant Cut(a => !high(a), b, b, n)
        decreases if z == null then 0 else z.hi - z.lo
      {
        assert tree.LeftOk(z) && tree.RightOk(z) && K(z.pos) == key(z.value);
        if !low(key(z.value)) {
          a := z.pos + 1;
          z := z.right;
        } else if !high(key(z.value)) {
          y, b := z, z.pos;
          z := z.left;
        } else {
          r, r', i, j := RangeAt(z, y, low, a => !high(a), a, b);
          return;
        }
      }
      i := b;
      r, r' := y, y;
      j := Partition(a => !high(a), b);
    }

    // The place where p starts to hold, at most n.
    lemma Partition(p: int -> bool, n: int) returns (j: int)
      requires tree.Indexed() && Upward(p) && 0 <= n <= |tree.order| && Cut(p, n, n, |tree.order|)
      ensures Cut(p, 0, j, |tree.order|) && j <= n
    {
      j := n;
      while 0 < j && p(K(j - 1))
        invariant 0 <= j <= n && Cut(p, j, j, |tree.order|)
      {
        j := j - 1;
      }
    }

    method RangeRank(low: int -> bool, high: int -> bool) returns (m: int, m': int)
      requires tree.Valid() && Upward(low) && Upward(a => !high(a))
      ensures Cut(low, 0, m, |tree.order|) && m <= m' <= |tree.order|
      ensures forall i {:trigger K(i)} | 0 <= i < |tree.order| :: m <= i < m' <==> low(K(i)) && high(K(i))
    {
      var y, z := tree.header, tree.header.parent;
      if z == null {
        return 0, 0;
      }
      var s := z.size;
      ghost var a, b, n := 0, |tree.order|, |tree.order|;
      assert tree.UpOk(z);
      while z != null
        invariant Spanned(z, a, b) && s == b && y == NodeAt(b)
        invariant Cut(low, 0, a, a) && Cut(low, b, b, n)
        invariant Cut(a => !high(a), b, b, n)
        decreases if z == null then 0 else z.hi - z.lo
      {
        assert tree.LeftOk(z) && tree.RightOk(z) && K(z.pos) == key(z.value);
        if !low(key(z.value)) {
          a := z.pos + 1;
          z := z.right;
        } else if !high(key(z.value)) {
          y, b := z, z.pos;
          s := s - (SizeOf(z.right) + 1);
          z := z.left;
        } else {
          m, m' := RangeRankAt(z, y, low, a => !high(a), s, a, b);
          return;
        }
      }
      m, m' := s, s;
    }

    lemma EqualUpward(k: int)
      requires StrictWeakOrder(lt) && tree.Indexed() && Sorted()
      ensures Upward(a => !lt(a, k)) && Upward(a => !(b => !lt(k, b))(a))
    {
      BoundsUpward(k);
      assert Upward(a => lt(k, a));
    }

    // The elements equivalent to k are those at the places from i to j.
    ghost predicate Run(k: int, i: int, j: int)
      requires tree.Indexed()
      reads tree, tree.nodes`pos, tree.nodes`value
    {
      && 0 <= i <= j <= |tree.order|
      && forall m {:trigger K(m)} | 0 <= m < |tree.order| ::
           (m < i <==> lt(K(m), k)) && (j <= m <==> lt(k, K(m)))
    }

    method EqualRange(k: int) returns (r: Node, r': Node, ghost i: int, ghost j: int)
      requires StrictWeakOrder(lt) && tree.Valid() && Sorted()
      ensures Run(k, i, j) && r == NodeAt(i) && r' == NodeAt(j)
    {
      EqualUpward(k);
      r, r', i, j := Range(a => !lt(a, k), b => !lt(k, b));
      RunOfCuts(k, i, j);
    }

    lemma RunOfCuts(k: int, i: int, j: int)
      requires StrictWeakOrder(lt) && tree.Indexed()
      requires Cut(a => !lt(a, k), 0, i, |tree.order|) && Cut(a => !(b => !lt(k, b))(a), 0, j, |tree.order|)
      ensures Run(k, i, j)
    {
      if j < |tree.order| {
        var a := K(j);
        assert lt(a, k) && lt(k, a) ==> lt(a, a);
      }
    }

    // Ranks of the same places.

    method LowerBoundRank(k: int) returns (s: int)
      requires StrictWeakOrder(lt) && tree.Valid() && Sorted()
      ensures LowerAt(k, s)
    {
      BoundsUpward(k);
      assert tree.header.parent != null ==> tree.UpOk(tree.header.parent);
      ghost var i: int;
      var r;
      s, r, i := RankFrom(tree.header.parent, tree.header, a => !lt(a, k), 0, |tree.order|);
    }

    method UpperBoundRank(k: int) returns (s: int)
      requires StrictWeakOrder(lt) && tree.Valid() && Sorted()
      ensures UpperAt(k, s)
    {
      BoundsUpward(k);
      assert tree.header.parent != null ==> tree.UpOk(tree.header.parent);
      ghost var i: int;
      var r;
      s, r, i := RankFrom(tree.header.parent, tree.header, a => lt(k, a), 0, |tree.order|);
    }

    method EqualRangeRank(k: int) returns (s: int, s': int)
      requires StrictWeakOrder(lt) && tree.Valid() && Sorted()
      ensures Run(k, s, s')
    {
      EqualUpward(k);
      s, s' := RangeRank(a => !lt(a, k), b => !lt(k, b));
      RunOfRange(k, s, s');
    }

    lemma RunOfRange(k: int, i: int, j: int)
      requires StrictWeakOrder(lt) && tree.Indexed()
      requires Cut(a => !lt(a, k), 0, i, |tree.order|) && i <= j <= |tree.order|
      requires forall m {:trigger K(m)} | 0 <= m < |tree.order| :: i <= m < j <==> !lt(K(m), k) && !lt(k, K(m))
      ensures Run(k, i, j)
    {
      forall m {:trigger K(m)} | 0 <= m < |tree.order| ensures (m < i <==> lt(K(m), k)) && (j <= m <==> lt(k, K(m))) {
        var a := K(m);
        assert lt(a, k) && lt(k, a) ==> lt(a, a);
      }
    }

    // The rank of the first element equivalent to k, or the number of elements.
    method FindRank(k: int) returns (s: int)
      requires StrictWeakOrder(lt) && tree.Valid() && Sorted()
      ensures 0 <= s <= |tree.order| && forall i {:trigger K(i)} | 0 <= i < s :: lt(K(i), k) || lt(k, K(i))
      ensures s < |tree.order| ==>
        !lt(K(s), k) && !lt(k, K(s)) && forall i {:trigger K(i)} | 0 <= i < s :: lt(K(i), k)
    {
      BoundsUpward(k);
      assert tree.header.parent != null ==> tree.UpOk(tree.header.parent);
      ghost var i: int;
      var r;
      s, r, i := RankFrom(tree.header.parent, tree.header, a => !lt(a, k), 0, |tree.order|);
      assert i < |tree.order| ==> K(i) == Key(r);
      if r == tree.header || lt(k, key(r.value)) {
        s := SizeOf(tree.header.parent);
      }
    }

    // Insertion points.

    // The descent of link_point and lower_link_point: the free slot at the cut of p.
    method SlotFrom(p: int -> bool) returns (s: Side, q: Node, ghost i: int)
      requires tree.Valid() && Upward(p)
      ensures q in tree.nodes + {tree.header} && tree.Slot(q, s) && i == tree.SlotIndex(q, s)
      ensures Cut(p, 0, i, |tree.order|)
    {
      q := tree.header;
      var x := tree.header.parent;
      var c := true;
      ghost var a, b := 0, |tree.order|;
      assert x != null ==> tree.UpOk(x);
      while x != null
        invariant Spanned(x, a, b)
        invariant Cut(p, 0, a, a) && Cut(p, b, b, |tree.order|)
        invariant q == tree.header ==> x == tree.header.parent && c
        invariant q != tree.header ==> q in tree.nodes && Child(q, if c then ToLeft else ToRight) == x
        invariant q != tree.header ==> if c then b == q.pos else a == q.pos + 1
        decreases if x == null then 0 else x.hi - x.lo
      {
        q := x;
        assert tree.LeftOk(x) && tree.RightOk(x) && K(x.pos) == key(x.value);
        c := p(key(x.value));
        if c { b := x.pos; } else { a := x.pos + 1; }
        x := if c then x.left else x.right;
      }
      i := a;
      s := if c then ToLeft else ToRight;
    }

    // Where a new element goes: after its equivalents.
    method LinkPoint(k: int) returns (s: Side, q: Node, ghost i: int)
      requires StrictWeakOrder(lt) && tree.Valid() && Sorted()
      ensures q in tree.nodes + {tree.header} && tree.Slot(q, s) && i == tree.SlotIndex(q, s)
      ensures UpperAt(k, i)
    {
      BoundsUpward(k);
      s, q, i := SlotFrom(a => lt(k, a));
    }

    // Before its equivalents.
    method LowerLinkPoint(k: int) returns (s: Side, q: Node, ghost i: int)
      requires StrictWeakOrder(lt) && tree.Valid() && Sorted()
      ensures q in tree.nodes + {tree.header} && tree.Slot(q, s) && i == tree.SlotIndex(q, s)
      ensures LowerAt(k, i)
    {
      BoundsUpward(k);
      s, q, i := SlotFrom(a => !lt(a, k));
    }

    ghost predicate Clash(k: int)
      requires tree.Indexed()
      reads tree, tree.nodes`pos, tree.nodes`value
    {
      exists i {:trigger K(i)} :: 0 <= i < |tree.order| && !lt(K(i), k) && !lt(k, K(i))
    }

    // Where a new element goes in a unique index, or the element it clashes with.
    method LinkPointUnique(k: int) returns (ok: bool, s: Side, q: Node, ghost i: int)
      requires StrictWeakOrder(lt) && tree.Valid() && StrictlySorted()
      ensures ok <==> !Clash(k)
      ensures ok ==> q in tree.nodes + {tree.header} && tree.Slot(q, s) && i == tree.SlotIndex(q, s)
      ensures ok ==> UpperAt(k, i)
      ensures !ok ==> q in tree.nodes && !lt(Key(q), k) && !lt(k, Key(q))
    {
      StrictIsSorted();
      s, q, i := LinkPoint(k);
      var yy;
      ok, yy := FreeOfClash(k, s, q, i);
      if !ok {
        q := yy;
      }
    }

    // Whether the element before the slot found for k, if there is one, is less; otherwise it is the clash.
    method FreeOfClash(k: int, s: Side, q: Node, ghost i: int) returns (ok: bool, yy: Node)
      requires StrictWeakOrder(lt) && tree.Valid() && StrictlySorted() && UpperAt(k, i)
      requires q in tree.nodes + {tree.header} && tree.Slot(q, s) && i == tree.SlotIndex(q, s)
      ensures ok <==> !Clash(k)
      ensures ok ==> q in tree.nodes + {tree.header} && tree.Slot(q, s) && i == tree.SlotIndex(q, s) && UpperAt(k, i)
      ensures !ok ==> yy in tree.nodes && !lt(Key(yy), k) && !lt(k, Key(yy))
    {
      if 0 < i { NoClash(k, i); NotGreater(k, i); }
      var first;
      first, yy := BeforeSlot(s, q, i);
      ok := first || lt(key(yy.value), k);
    }

    // The element before a free slot, unless the slot is the first.
    method BeforeSlot(s: Side, q: Node, ghost i: int) returns (first: bool, yy: Node)
      requires tree.Valid() && q in tree.nodes + {tree.header} && tree.Slot(q, s) && i == tree.SlotIndex(q, s)
      ensures first <==> i == 0
      ensures !first ==> 0 < i <= |tree.order| && yy in tree.nodes && K(i - 1) == Key(yy)
    {
      first, yy := false, q;
      if s == ToLeft {
        assert tree.order != [] ==> At(tree.order, 0) in tree.nodes;
        if yy == tree.header.left {
          return true, yy;
        }
        yy := tree.Decrement(yy);
      }
      assert At(tree.order, i - 1) == yy;
    }

    lemma NotGreater(k: int, i: int)
      requires tree.Indexed() && UpperAt(k, i) && 0 < i
      ensures !lt(k, K(i - 1))
    {
    }

    // Only the element before the upper bound of k may be equivalent to k.
    lemma NoClash(k: int, i: int)
      requires StrictWeakOrder(lt) && tree.Indexed() && StrictlySorted() && UpperAt(k, i) && 0 < i
      ensures Clash(k) <==> !lt(K(i - 1), k)
    {
      if lt(K(i - 1), k) {
        forall j | 0 <= j < |tree.order| ensures lt(K(j), k) || lt(k, K(j)) {
          if j < i - 1 { Through(K(j), K(i - 1), k); }
        }
      }
    }

    lemma Through(a: int, b: int, c: int)
      requires StrictWeakOrder(lt)
      ensures lt(a, b) && lt(b, c) ==> lt(a, c)
    {
    }

    lemma StrictIsSorted()
      requires StrictWeakOrder(lt) && tree.Indexed() && StrictlySorted()
      ensures Sorted()
    {
      forall i, j | 0 <= i < j < |tree.order| ensures !lt(K(j), K(i)) {
        assert lt(K(i), K(j)) && !lt(K(i), K(i));
      }
    }

    ghost function Place(n: Node): int
      reads tree, n`pos
    {
      if n == tree.header then |tree.order| else n.pos
    }

    ghost function Clamp(h: int, lo: int, hi: int): int {
      if h < lo then lo else if hi < h then hi else h
    }

    // The free slot just before a node that is not the first, before being its predecessor.
    method SlotBefore(position: Node, before: Node) returns (s: Side, q: Node)
      requires tree.Valid() && position in tree.nodes && 0 < position.pos && before == tree.order[position.pos - 1]
      ensures q in tree.nodes + {tree.header} && tree.Slot(q, s) && tree.SlotIndex(q, s) == position.pos
    {
      assert At(tree.order, position.pos - 1) == before;
      assert tree.RightOk(before);
      if before.right == null {
        s, q := ToRight, before;
      } else {
        s, q := ToLeft, position;
        tree.OnlyOneFree(before, position);
      }
    }

    // The hint is neither the first element nor the end.
    method HintedInside(k: int, position: Node, ghost lo: int, ghost hi: int) returns (s: Side, q: Node)
      requires StrictWeakOrder(lt) && tree.Valid() && Sorted() && position in tree.nodes && 0 < position.pos
      requires LowerAt(k, lo) && UpperAt(k, hi) && lo <= hi
      ensures q in tree.nodes + {tree.header} && tree.Slot(q, s)
      ensures tree.SlotIndex(q, s) == Clamp(position.pos, lo, hi)
    {
      var before := tree.Decrement(position);
      assert K(position.pos - 1) == Key(before) && K(position.pos) == Key(position);
      if !lt(k, key(before.value)) {
        if !lt(key(position.value), k) {
          s, q := SlotBefore(position, before);
        } else {
          s, q := LowerSlot(k, lo);
        }
      } else {
        s, q := UpperSlot(k, hi);
      }
    }

    method LowerSlot(k: int, ghost lo: int) returns (s: Side, q: Node)
      requires StrictWeakOrder(lt) && tree.Valid() && Sorted() && LowerAt(k, lo)
      ensures q in tree.nodes + {tree.header} && tree.Slot(q, s) && tree.SlotIndex(q, s) == lo
    {
      ghost var i;
      s, q, i := LowerLinkPoint(k);
      CutsAgree(a => !lt(a, k), i, lo);
    }

    method UpperSlot(k: int, ghost hi: int) returns (s: Side, q: Node)
      requires StrictWeakOrder(lt) && tree.Valid() && Sorted() && UpperAt(k, hi)
      ensures q in tree.nodes + {tree.header} && tree.Slot(q, s) && tree.SlotIndex(q, s) == hi
    {
      ghost var i;
      s, q, i := LinkPoint(k);
      CutsAgree(a => lt(k, a), i, hi);
    }

    // A hint: the insertion goes as close to just before it as the order allows.
    method HintedLinkPoint(k: int, position: Node, ghost lo: int, ghost hi: int) returns (s: Side, q: Node)
      requires StrictWeakOrder(lt) && tree.Valid() && Sorted() && position in tree.nodes + {tree.header}
      requires LowerAt(k, lo) && UpperAt(k, hi)
      ensures q in tree.nodes + {tree.header} && tree.Slot(q, s)
      ensures tree.SlotIndex(q, s) == Clamp(Place(position), lo, hi)
    {
      EndKeys();
      BoundsCross(k, lo, hi);
      if position == tree.header.left {
        if tree.header.parent != null && !lt(key(position.value), k) {
          s, q := ToLeft, position;
        } else {
          s, q := LowerSlot(k, lo);
        }
      } else if position == tree.header {
        if !lt(k, key(tree.header.right.value)) {
          s, q := ToRight, tree.header.right;
        } else {
          s, q := UpperSlot(k, hi);
        }
      } else {
        s, q := HintedInside(k, position, lo, hi);
      }
    }

    lemma EndKeys()
      requires tree.Valid()
      ensures tree.order != [] ==> {tree.header.left, tree.header.right} <= tree.nodes
      ensures tree.order != [] ==> tree.header.left.left == null && tree.header.left.pos == 0
      ensures tree.order != [] ==> tree.header.right.right == null && tree.header.right.pos == |tree.order| - 1
      ensures tree.order != [] ==> K(0) == Key(tree.header.left) && K(|tree.order| - 1) == Key(tree.header.right)
      ensures tree.order == [] ==> tree.header.left == tree.header && tree.header.parent == null
      ensures forall n <- tree.nodes | n.pos == 0 :: n == tree.header.left
    {
      if tree.order != [] { tree.FreeEnds(); }
    }

    lemma CutsAgree(p: int -> bool, i: int, j: int)
      requires tree.Indexed() && Cut(p, 0, i, |tree.order|) && Cut(p, 0, j, |tree.order|)
      ensures i == j
    {
      if i < |tree.order| { assert p(K(i)); }
      if j < |tree.order| { assert p(K(j)); }
    }

    lemma BoundsCross(k: int, lo: int, hi: int)
      requires StrictWeakOrder(lt) && tree.Indexed() && Sorted()
      requires LowerAt(k, lo) && UpperAt(k, hi)
      ensures lo <= hi && Upward(a => !lt(a, k)) && Upward(a => lt(k, a))
    {
      BoundsUpward(k);
      if hi < |tree.order| {
        var a := K(hi);
        assert lt(a, k) && lt(k, a) ==> lt(a, a);
      }
    }

    // In a unique index the hint changes neither the outcome nor the place.
    method HintedLinkPointUnique(k: int, position: Node) returns (ok: bool, s: Side, q: Node, ghost i: int)
      requires StrictWeakOrder(lt) && tree.Valid() && StrictlySorted() && position in tree.nodes + {tree.header}
      ensures ok <==> !Clash(k)
      ensures ok ==> q in tree.nodes + {tree.header} && tree.Slot(q, s) && i == tree.SlotIndex(q, s)
      ensures ok ==> UpperAt(k, i)
      ensures !ok ==> q in tree.nodes && !lt(Key(q), k) && !lt(k, Key(q))
    {
      EndKeys();
      if position == tree.header.left {
        if tree.header.parent != null && lt(k, key(position.value)) {
          FitsAt(k, 0);
          ok, s, q, i := true, ToLeft, position, 0;
        } else {
          ok, s, q, i := LinkPointUnique(k);
        }
      } else if position == tree.header {
        if lt(key(tree.header.right.value), k) {
          FitsAt(k, |tree.order|);
          ok, s, q, i := true, ToRight, tree.header.right, |tree.order|;
        } else {
          ok, s, q, i := LinkPointUnique(k);
        }
      } else {
        ok, s, q, i := HintedInsideUnique(k, position);
      }
    }

    method HintedInsideUnique(k: int, position: Node) returns (ok: bool, s: Side, q: Node, ghost i: int)
      requires StrictWeakOrder(lt) && tree.Valid() && StrictlySorted() && position in tree.nodes && 0 < position.pos
      ensures ok <==> !Clash(k)
      ensures ok ==> q in tree.nodes + {tree.header} && tree.Slot(q, s) && i == tree.SlotIndex(q, s)
      ensures ok ==> UpperAt(k, i)
      ensures !ok ==> q in tree.nodes && !lt(Key(q), k) && !lt(k, Key(q))
    {
      var before := tree.Decrement(position);
      assert K(position.pos - 1) == Key(before) && K(position.pos) == Key(position);
      if lt(key(before.value), k) && lt(k, key(position.value)) {
        s, q := SlotBetween(k, position, before);
        ok, i := true, position.pos;
      } else {
        ok, s, q, i := LinkPointUnique(k);
      }
    }

    method SlotBetween(k: int, position: Node, before: Node) returns (s: Side, q: Node)
      requires StrictWeakOrder(lt) && tree.Valid() && StrictlySorted() && position in tree.nodes && 0 < position.pos
      requires before == tree.order[position.pos - 1] && lt(K(position.pos - 1), k) && lt(k, K(position.pos))
      ensures !Clash(k) && UpperAt(k, position.pos)
      ensures q in tree.nodes + {tree.header} && tree.Slot(q, s) && tree.SlotIndex(q, s) == position.pos
    {
      s, q := SlotBefore(position, before);
      FitsAt(k, position.pos);
    }

    // k lies strictly between the keys at places i - 1 and i.
    lemma FitsAt(k: int, i: int)
      requires StrictWeakOrder(lt) && tree.Indexed() && StrictlySorted() && 0 <= i <= |tree.order|
      requires (0 < i ==> lt(K(i - 1), k)) && (i < |tree.order| ==> lt(k, K(i)))
      ensures !Clash(k) && UpperAt(k, i)
    {
      forall j | 0 <= j < |tree.order| ensures if j < i then lt(K(j), k) && !lt(k, K(j)) else lt(k, K(j)) {
        if j < i {
          assert j < i - 1 ==> lt(K(j), K(i - 1));
          assert !lt(k, k);
        } else {
          assert i < j ==> lt(K(i), K(j));
        }
      }
    }

    // The keys of all elements but x fit around k at the place of x.
    ghost predicate Fits(x: Node, k: int)
      requires tree.Indexed() && x in tree.nodes
      reads tree, tree.nodes`pos, tree.nodes`value
    {
      forall j {:trigger K(j)} | 0 <= j < |tree.order| && j != x.pos ::
        if j < x.pos then !lt(k, K(j)) else !lt(K(j), k)
    }

    ghost predicate FitsStrictly(x: Node, k: int)
      requires tree.Indexed() && x in tree.nodes
      reads tree, tree.nodes`pos, tree.nodes`value
    {
      forall j {:trigger K(j)} | 0 <= j < |tree.order| && j != x.pos ::
        if j < x.pos then lt(K(j), k) else lt(k, K(j))
    }

    // The order is right but perhaps for x, whose value may have changed.
    ghost predicate SortedBut(x: Node)
      requires tree.Indexed() && x in tree.nodes
      reads tree, tree.nodes`pos, tree.nodes`value
    {
      forall i, j {:trigger K(i), K(j)} | 0 <= i < j < |tree.order| && i != x.pos && j != x.pos :: !lt(K(j), K(i))
    }

    // Whether x, given value v, needs no relinking; the value it has is not looked at.
    method InPlace(v: int, x: Node) returns (b: bool)
      requires StrictWeakOrder(lt) && tree.Valid() && x in tree.nodes && SortedBut(x)
      ensures b <==> Fits(x, key(v))
    {
      FitsByNeighbours(x, key(v));
      var first, prior := PriorKey(x);
      if !first && lt(key(v), prior) {
        return false;
      }
      var last, next := NextKey(x);
      b := last || !lt(next, key(v));
    }

    // The key of the element before x, unless that is the first.
    method PriorKey(x: Node) returns (first: bool, k: int)
      requires tree.Valid() && x in tree.nodes
      ensures (first <==> x.pos == 0) && 0 <= x.pos < |tree.order| && (!first ==> k == K(x.pos - 1))
    {
      EndKeys();
      first, k := x == tree.header.left, 0;
      if !first {
        var y := tree.Decrement(x);
        k := key(y.value);
        assert K(x.pos - 1) == Key(NodeAt(x.pos - 1));
      }
    }

    // The key of the element after x, unless that is the last.
    method NextKey(x: Node) returns (last: bool, k: int)
      requires tree.Valid() && x in tree.nodes
      ensures (last <==> x.pos + 1 == |tree.order|) && 0 <= x.pos < |tree.order| && (!last ==> k == K(x.pos + 1))
    {
      EndKeys();
      var y := tree.Increment(x);
      last, k := y == tree.header, key(y.value);
      assert x.pos + 1 < |tree.order| ==> K(x.pos + 1) == Key(NodeAt(x.pos + 1)) && NodeAt(x.pos + 1) != tree.header;
    }

    lemma FitsByNeighbours(x: Node, k: int)
      requires StrictWeakOrder(lt) && tree.Indexed() && x in tree.nodes && SortedBut(x)
      ensures Fits(x, k) <==>
        (0 < x.pos ==> !lt(k, K(x.pos - 1))) && (x.pos + 1 < |tree.order| ==> !lt(K(x.pos + 1), k))
    {
      var p := x.pos;
      if (0 < p ==> !lt(k, K(p - 1))) && (p + 1 < |tree.order| ==> !lt(K(p + 1), k)) {
        forall j | 0 <= j < |tree.order| && j != p ensures if j < p then !lt(k, K(j)) else !lt(K(j), k) {
          if j < p {
            assert j < p - 1 ==> !lt(K(p - 1), K(j));
          } else {
            assert p + 1 < j ==> !lt(K(j), K(p + 1));
          }
        }
      }
    }

    // Every place between the bounds is a gap.
    lemma GapBetween(k: int, lo: int, i: int, hi: int)
      requires StrictWeakOrder(lt) && tree.Indexed() && LowerAt(k, lo) && UpperAt(k, hi) && lo <= i <= hi
      ensures Gap(k, i)
    {
    }

    lemma GapAtUpper(k: int, i: int)
      requires StrictWeakOrder(lt) && tree.Indexed() && UpperAt(k, i)
      ensures Gap(k, i)
    {
      forall j | i <= j < |tree.order| ensures !lt(K(j), k) {
        assert lt(k, K(j)) && !lt(k, k);
      }
    }

    // Linking x in a gap for its key keeps the order sorted.
    twostate lemma LinkedKeepsSorted(x: Node, new i: int)
      requires StrictWeakOrder(lt) && old(tree.Indexed()) && tree.Indexed() && old(Sorted())
        && old(Gap(key(x.value), i))
      requires x !in old(tree.nodes) && tree.nodes == old(tree.nodes) + {x}
      requires tree.order == old(tree.order[..i]) + [x] + old(tree.order[i..])
      requires forall n <- tree.nodes :: n.value == old(n.value)
      ensures Sorted()
    {
      forall j, m | 0 <= j < m < |tree.order| ensures !lt(K(m), K(j)) {
        var o := old(tree.order);
        var j', m' := if j < i then j else j - 1, if m < i then m else m - 1;
        assert j != i ==> tree.order[j] == At(o, j') && K(j) == old(K(j'));
        assert m != i ==> tree.order[m] == At(o, m') && K(m) == old(K(m'));
        if j != i && m != i { assert old(!lt(K(m'), K(j'))); }
      }
    }

    // No element before x is greater, and all behind it are.
    ghost predicate BehindEquals(x: Node)
      requires tree.Indexed() && x in tree.nodes
      reads tree, tree.nodes`pos, tree.nodes`value
    {
      forall j {:trigger K(j)} | 0 <= j < |tree.order| && j != x.pos ::
        if j < x.pos then !lt(key(x.value), K(j)) else lt(key(x.value), K(j))
    }

    twostate lemma LinkedBehindEquals(x: Node, new i: int)
      requires old(tree.Indexed()) && tree.Indexed() && old(UpperAt(key(x.value), i)) && x !in old(tree.nodes)
      requires tree.nodes == old(tree.nodes) + {x}
      requires tree.order == old(tree.order[..i]) + [x] + old(tree.order[i..])
      requires forall n <- tree.nodes :: n.value == old(n.value)
      ensures BehindEquals(x)
    {
      var o := old(tree.order);
      assert At(tree.order, i) == x;
      forall j {:trigger K(j)} | 0 <= j < |tree.order| && j != i
        ensures if j < i then !lt(key(x.value), K(j)) else lt(key(x.value), K(j))
      {
        var j' := if j < i then j else j - 1;
        assert tree.order[j] == At(o, j') && K(j) == old(K(j'));
      }
    }

    method Insert(x: Node) returns (ghost i: int)
      requires StrictWeakOrder(lt) && tree.Valid() && Sorted() && x !in tree.nodes && x != tree.header
      modifies tree, tree.header, tree.nodes, x
      ensures tree.Valid() && Sorted() && tree.nodes == old(tree.nodes) + {x}
      ensures forall n <- tree.nodes :: n.value == old(n.value)
      ensures old(UpperAt(key(x.value), i)) && BehindEquals(x)
      ensures tree.order == old(tree.order[..i]) + [x] + old(tree.order[i..])
    {
      var s, q;
      s, q, i := LinkPoint(key(x.value));
      GapAtUpper(key(x.value), i);
      tree.Link(x, s, q);
      LinkedKeepsSorted(x, i);
      LinkedBehindEquals(x, i);
    }

    method InsertHinted(x: Node, position: Node, ghost lo: int, ghost hi: int)
      requires StrictWeakOrder(lt) && tree.Valid() && Sorted() && x !in tree.nodes && x != tree.header
      requires position in tree.nodes + {tree.header} && LowerAt(key(x.value), lo) && UpperAt(key(x.value), hi)
      modifies tree, tree.header, tree.nodes, x
      ensures tree.Valid() && Sorted() && tree.nodes == old(tree.nodes) + {x}
      ensures forall n <- tree.nodes :: n.value == old(n.value)
      ensures var i := Clamp(old(Place(position)), lo, hi);
        0 <= i <= |old(tree.order)| && tree.order == old(tree.order[..i]) + [x] + old(tree.order[i..])
    {
      ghost var i := Clamp(Place(position), lo, hi);
      BoundsCross(key(x.value), lo, hi);
      GapBetween(key(x.value), lo, i, hi);
      var s, q := HintedLinkPoint(key(x.value), position, lo, hi);
      tree.Link(x, s, q);
      LinkedKeepsSorted(x, i);
    }

    twostate lemma LinkedKeepsStrict(x: Node, new i: int)
      requires StrictWeakOrder(lt) && old(tree.Indexed()) && tree.Indexed() && old(StrictlySorted())
      requires old(UpperAt(key(x.value), i)) && old(!Clash(key(x.value)))
      requires x !in old(tree.nodes) && tree.nodes == old(tree.nodes) + {x}
      requires tree.order == old(tree.order[..i]) + [x] + old(tree.order[i..])
      requires forall n <- tree.nodes :: n.value == old(n.value)
      ensures StrictlySorted()
    {
      forall j, m | 0 <= j < m < |tree.order| ensures lt(K(j), K(m)) {
        var o := old(tree.order);
        var j', m' := if j < i then j else j - 1, if m < i then m else m - 1;
        assert j != i ==> tree.order[j] == At(o, j') && K(j) == old(K(j'));
        assert m != i ==> tree.order[m] == At(o, m') && K(m) == old(K(m'));
        if j != i && m != i { assert old(lt(K(j'), K(m'))); }
      }
    }

    // Links x at a free slot where no equivalent element is.
    method LinkUnique(x: Node, s: Side, q: Node, ghost i: int)
      requires StrictWeakOrder(lt) && tree.Valid() && StrictlySorted() && x !in tree.nodes && x != tree.header
      requires q in tree.nodes + {tree.header} && tree.Slot(q, s) && i == tree.SlotIndex(q, s)
      requires UpperAt(key(x.value), i) && !Clash(key(x.value))
      modifies tree, tree.header, tree.nodes, x
      ensures tree.Valid() && StrictlySorted() && tree.nodes == old(tree.nodes) + {x}
      ensures tree.order == old(tree.order[..i]) + [x] + old(tree.order[i..])
      ensures forall n <- tree.nodes :: n.value == old(n.value)
    {
      tree.Link(x, s, q);
      LinkedKeepsStrict(x, i);
    }

    method InsertUnique(x: Node, position: Node) returns (ok: bool, ghost i: int)
      requires StrictWeakOrder(lt) && tree.Valid() && StrictlySorted() && x !in tree.nodes && x != tree.header
      requires position in tree.nodes + {tree.header}
      modifies tree, tree.header, tree.nodes, x
      ensures tree.Valid() && StrictlySorted()
      ensures ok <==> old(!Clash(key(x.value)))
      ensures !ok ==> tree.nodes == old(tree.nodes) && tree.order == old(tree.order)
      ensures ok ==> tree.nodes == old(tree.nodes) + {x} && old(UpperAt(key(x.value), i))
      ensures ok ==> tree.order == old(tree.order[..i]) + [x] + old(tree.order[i..])
      ensures x.value == old(x.value) && forall n <- tree.nodes :: n.value == old(n.value)
    {
      var s, q;
      ok, s, q, i := HintedLinkPointUnique(key(x.value), position);
      if ok {
        LinkUnique(x, s, q, i);
      }
    }

    // Replacement and modification, as far as this index goes.

    twostate lemma ExtractedKeepsSorted(x: Node)
      requires old(tree.Indexed()) && x in old(tree.nodes) && tree.Indexed() && old(SortedBut(x))
      requires tree.nodes == old(tree.nodes) - {x}
      requires tree.order == old(tree.order[..x.pos]) + old(tree.order[x.pos + 1..])
      requires forall n <- tree.nodes :: n.value == old(n.value)
      ensures Sorted()
    {
      forall j, m | 0 <= j < m < |tree.order| ensures !lt(K(m), K(j)) {
        var o, i := old(tree.order), old(x.pos);
        var j', m' := if j < i then j else j + 1, if m < i then m else m + 1;
        assert tree.order[j] == At(o, j') && K(j) == old(K(j'));
        assert tree.order[m] == At(o, m') && K(m) == old(K(m'));
        assert old(!lt(K(m'), K(j')));
      }
    }

    method AssignInPlace(x: Node, v: int)
      requires tree.Indexed() && x in tree.nodes && SortedBut(x) && Fits(x, key(v))
      modifies x`value
      ensures Sorted() && x.value == v
    {
      x.value := v;
      forall i, j | 0 <= i < j < |tree.order| ensures !lt(K(j), K(i)) {
        if i != x.pos { assert K(i) == old(K(i)); }
        if j != x.pos { assert K(j) == old(K(j)); }
        assert K(x.pos) == key(v);
      }
    }

    // The first half of a relinking: the node after x is remembered and x unlinked.
    method UnlinkNode(x: Node) returns (next: Node)
      requires tree.Valid() && x in tree.nodes
      modifies tree, tree.header, tree.nodes
      ensures tree.Valid() && tree.nodes == old(tree.nodes) - {x}
      ensures tree.order == old(tree.order[..x.pos]) + old(tree.order[x.pos + 1..])
      ensures forall n <- old(tree.nodes) :: n.value == old(n.value)
      ensures next in tree.nodes + {tree.header} && Place(next) == old(x.pos)
    {
      ghost var p := x.pos;
      assert At(tree.order, p) == x;
      assert p + 1 < |tree.order| ==> At(tree.order, p + 1) in tree.nodes;
      next := tree.Increment(x);
      assert next == tree.header <==> p + 1 == |tree.order|;
      tree.Extract(x);
      assert next == tree.header ==> p == |tree.order|;
      assert next != tree.header ==> tree.order[old(x.pos)] == next && At(tree.order, old(x.pos)) == next;
      assert next != tree.header ==> next in tree.nodes && next.pos == old(x.pos);
    }

    method Unlink(x: Node) returns (next: Node)
      requires StrictWeakOrder(lt) && tree.Valid() && x in tree.nodes && SortedBut(x)
      modifies tree, tree.header, tree.nodes
      ensures tree.Valid() && Sorted() && tree.nodes == old(tree.nodes) - {x}
      ensures tree.order == old(tree.order[..x.pos]) + old(tree.order[x.pos + 1..])
      ensures forall n <- old(tree.nodes) :: n.value == old(n.value)
      ensures next in tree.nodes + {tree.header} && Place(next) == old(x.pos)
    {
      next := UnlinkNode(x);
      ExtractedKeepsSorted(x);
    }

    method LinkAs(x: Node, v: int) returns (ghost i: int)
      requires StrictWeakOrder(lt) && tree.Valid() && Sorted() && x !in tree.nodes && x != tree.header
      modifies tree, tree.header, tree.nodes, x
      ensures tree.Valid() && Sorted() && tree.nodes == old(tree.nodes) + {x}
      ensures forall n <- tree.nodes :: n.value == if n == x then v else old(n.value)
      ensures 0 <= i <= |old(tree.order)| && tree.order == old(tree.order[..i]) + [x] + old(tree.order[i..])
      ensures old(UpperAt(key(v), i)) && BehindEquals(x)
    {
      x.value := v;
      i := Insert(x);
    }

    // The order without its element at place p.
    ghost function Without(o: seq<Node>, p: int): (r: seq<Node>)
      requires 0 <= p < |o|
      ensures |r| == |o| - 1
    {
      o[..p] + o[p + 1..]
    }

    // x was at place p of o, and is there again.
    lemma PutBack(o: seq<Node>, p: int, x: Node)
      requires 0 <= p < |o| && o[p] == x
      ensures Without(o, p)[..p] + [x] + Without(o, p)[p..] == o
    {
    }

    // x is unlinked and the other indices refuse the new value.
    method UnlinkAndRestore(x: Node)
      requires StrictWeakOrder(lt) && tree.Valid() && x in tree.nodes && SortedBut(x)
      modifies tree, tree.header, tree.nodes
      ensures tree.Valid() && tree.nodes == old(tree.nodes) && tree.order == old(tree.order)
      ensures forall n <- tree.nodes :: n.value == old(n.value)
    {
      PutBack(tree.order, x.pos, x);
      var next := Unlink(x);
      tree.Restore(x, next);
    }

    // The order is o with x at place i.
    lemma InsertedAt(o: seq<Node>, i: int, x: Node)
      requires tree.Indexed() && 0 <= i <= |o| && tree.order == o[..i] + [x] + o[i..]
      ensures x in tree.nodes && x.pos == i && Without(tree.order, x.pos) == o
    {
      assert At(tree.order, i) == x;
    }

    // x is unlinked and linked again for its value v.
    method Relink(x: Node, v: int)
      requires StrictWeakOrder(lt) && tree.Valid() && x in tree.nodes && SortedBut(x)
      modifies tree, tree.header, tree.nodes
      ensures tree.Valid() && Sorted() && tree.nodes == old(tree.nodes) && x in tree.nodes
      ensures forall n <- tree.nodes :: n.value == if n == x then v else old(n.value)
      ensures Without(tree.order, x.pos) == old(Without(tree.order, x.pos)) && BehindEquals(x)
    {
      ghost var o := Without(tree.order, x.pos);
      var next := Unlink(x);
      ghost var i := LinkAs(x, v);
      InsertedAt(o, i, x);
    }

    // replace_ (v the new value) and modify_rollback_ (v the value x already has) of this
    // index; accept is the answer of the rest of the indices.
    method Replace(x: Node, v: int, accept: bool)
      requires StrictWeakOrder(lt) && tree.Valid() && x in tree.nodes && SortedBut(x)
      modifies tree, tree.header, tree.nodes
      ensures tree.Valid() && tree.nodes == old(tree.nodes)
      ensures forall n <- tree.nodes :: n.value == if n == x && accept then v else old(n.value)
      ensures accept ==> Sorted() && x in tree.nodes && Without(tree.order, x.pos) == old(Without(tree.order, x.pos))
      ensures !accept || old(Fits(x, key(v))) ==> tree.order == old(tree.order)
      ensures accept && !old(Fits(x, key(v))) ==> BehindEquals(x)
    {
      var b := InPlace(v, x);
      if b {
        Keep(x, v, accept);
      } else if accept {
        Relink(x, v);
      } else {
        UnlinkAndRestore(x);
      }
    }

    method Keep(x: Node, v: int, accept: bool)
      requires tree.Valid() && x in tree.nodes && SortedBut(x) && Fits(x, key(v))
      modifies x`value
      ensures tree.Valid() && (accept ==> Sorted())
      ensures forall n <- tree.nodes :: n.value == if n == x && accept then v else old(n.value)
    {
      if accept {
        AssignInPlace(x, v);
      }
    }

    // x, whose value was changed, is placed by it.
    method PlaceByValue(x: Node)
      requires StrictWeakOrder(lt) && tree.Valid() && x in tree.nodes && SortedBut(x)
      modifies tree, tree.header, tree.nodes
      ensures tree.Valid() && Sorted() && tree.nodes == old(tree.nodes) && x in tree.nodes
      ensures forall n <- tree.nodes :: n.value == old(n.value)
      ensures Without(tree.order, x.pos) == old(Without(tree.order, x.pos))
      ensures if old(Fits(x, key(x.value))) then tree.order == old(tree.order) else BehindEquals(x)
    {
      var b := KeepsPlace(x);
      if !b {
        Relink(x, x.value);
      }
    }

    method KeepsPlace(x: Node) returns (b: bool)
      requires StrictWeakOrder(lt) && tree.Valid() && x in tree.nodes && SortedBut(x)
      ensures (b <==> Fits(x, key(x.value))) && (b ==> Sorted())
    {
      b := InPlace(x.value, x);
      FitsIsSorted(x);
    }

    lemma FitsIsSorted(x: Node)
      requires tree.Indexed() && x in tree.nodes
      ensures SortedBut(x) && Fits(x, key(x.value)) ==> Sorted()
      ensures StrictBut(x) && FitsStrictly(x, key(x.value)) ==> StrictlySorted()
    {
      assert tree.Valid() ==> At(tree.order, x.pos) == x;
      assert K(x.pos) == key(x.value);
    }

    // modify_ of this index: x, whose value was changed, is placed by it, and unlinked again if the other indices
    // refuse.
    method Modify(x: Node, accept: bool)
      requires StrictWeakOrder(lt) && tree.Valid() && x in tree.nodes && SortedBut(x)
      modifies tree, tree.header, tree.nodes
      ensures tree.Valid() && Sorted() && forall n <- old(tree.nodes) :: n.value == old(n.value)
      ensures tree.nodes == if accept then old(tree.nodes) else old(tree.nodes) - {x}
      ensures accept ==> x in tree.nodes && Without(tree.order, x.pos) == old(Without(tree.order, x.pos))
      ensures accept ==>
        if old(Fits(x, key(x.value))) then tree.order == old(tree.order) else x in tree.nodes && BehindEquals(x)
      ensures !accept ==> tree.order == old(Without(tree.order, x.pos))
    {
      PlaceByValue(x);
      if !accept {
        Drop(x);
      }
    }

    method Drop(x: Node)
      requires StrictWeakOrder(lt) && tree.Valid() && x in tree.nodes && Sorted()
      modifies tree, tree.header, tree.nodes
      ensures tree.Valid() && Sorted() && tree.nodes == old(tree.nodes) - {x}
      ensures tree.order == old(Without(tree.order, x.pos))
      ensures forall n <- old(tree.nodes) :: n.value == old(n.value)
    {
      SortedIsSortedBut(x);
      var next := Unlink(x);
    }

    lemma SortedIsSortedBut(x: Node)
      requires tree.Indexed() && x in tree.nodes
      ensures Sorted() ==> SortedBut(x)
      ensures StrictlySorted() ==> StrictBut(x)
    {
    }

    // Replacement and modification in a unique index.

    // The order is strictly right but perhaps for x, whose value may have changed.
    ghost predicate StrictBut(x: Node)
      requires tree.Indexed() && x in tree.nodes
      reads tree, tree.nodes`pos, tree.nodes`value
    {
      forall i, j {:trigger K(i), K(j)} | 0 <= i < j < |tree.order| && i != x.pos && j != x.pos :: lt(K(i), K(j))
    }

    // An element other than x has a key equivalent to k.
    ghost predicate ClashBut(x: Node, k: int)
      requires tree.Indexed() && x in tree.nodes
      reads tree, tree.nodes`pos, tree.nodes`value
    {
      exists i {:trigger K(i)} :: 0 <= i < |tree.order| && i != x.pos && !lt(K(i), k) && !lt(k, K(i))
    }

    method InPlaceUnique(v: int, x: Node) returns (b: bool)
      requires StrictWeakOrder(lt) && tree.Valid() && x in tree.nodes && StrictBut(x)
      ensures b <==> FitsStrictly(x, key(v))
    {
      FitsStrictlyByNeighbours(x, key(v));
      var first, prior := PriorKey(x);
      if !first && !lt(prior, key(v)) {
        return false;
      }
      var last, next := NextKey(x);
      b := last || lt(key(v), next);
    }

    lemma FitsStrictlyByNeighbours(x: Node, k: int)
      requires StrictWeakOrder(lt) && tree.Indexed() && x in tree.nodes && StrictBut(x)
      ensures FitsStrictly(x, k) <==>
        (0 < x.pos ==> lt(K(x.pos - 1), k)) && (x.pos + 1 < |tree.order| ==> lt(k, K(x.pos + 1)))
      ensures FitsStrictly(x, k) ==> !ClashBut(x, k)
    {
      var p := x.pos;
      if (0 < p ==> lt(K(p - 1), k)) && (p + 1 < |tree.order| ==> lt(k, K(p + 1))) {
        forall j | 0 <= j < |tree.order| && j != p ensures if j < p then lt(K(j), k) else lt(k, K(j)) {
          if j < p {
            assert j < p - 1 ==> lt(K(j), K(p - 1));
          } else {
            assert p + 1 < j ==> lt(K(p + 1), K(j));
          }
        }
      }
    }

    twostate lemma ExtractedKeepsStrict(x: Node, new k: int)
      requires old(tree.Indexed()) && x in old(tree.nodes) && tree.Indexed() && old(StrictBut(x))
      requires tree.nodes == old(tree.nodes) - {x}
      requires tree.order == old(tree.order[..x.pos]) + old(tree.order[x.pos + 1..])
      requires forall n <- tree.nodes :: n.value == old(n.value)
      ensures StrictlySorted() && (Clash(k) <==> old(ClashBut(x, k)))
    {
      var o, p := old(tree.order), old(x.pos);
      forall j {:trigger K(j)} | 0 <= j < |tree.order| ensures K(j) == old(K(if j < p then j else j + 1)) {
        assert tree.order[j] == At(o, if j < p then j else j + 1);
      }
      forall j {:trigger old(K(j))} | 0 <= j < |o| && j != p ensures old(K(j)) == K(if j < p then j else j - 1) {
        assert tree.order[if j < p then j else j - 1] == At(o, j);
      }
    }

    method UnlinkUnique(x: Node, ghost k: int) returns (next: Node)
      requires StrictWeakOrder(lt) && tree.Valid() && x in tree.nodes && StrictBut(x)
      modifies tree, tree.header, tree.nodes
      ensures tree.Valid() && StrictlySorted() && tree.nodes == old(tree.nodes) - {x}
      ensures tree.order == old(tree.order[..x.pos]) + old(tree.order[x.pos + 1..])
      ensures forall n <- old(tree.nodes) :: n.value == old(n.value)
      ensures next in tree.nodes + {tree.header} && Place(next) == old(x.pos)
      ensures Clash(k) <==> old(ClashBut(x, k))
    {
      next := UnlinkNode(x);
      ExtractedKeepsStrict(x, k);
    }

    // x is linked by v if no element has an equivalent key and the rest of the indices accept it, or else put before
    // next.
    method LinkOrRestore(x: Node, v: int, accept: bool, next: Node) returns (ok: bool, ghost i: int)
      requires StrictWeakOrder(lt) && tree.Valid() && StrictlySorted() && x !in tree.nodes && x != tree.header
      requires next in tree.nodes + {tree.header}
      modifies tree, tree.header, tree.nodes, x
      ensures tree.Valid() && tree.nodes == old(tree.nodes) + {x} && (ok <==> accept && old(!Clash(key(v))))
      ensures ok ==> StrictlySorted()
      ensures forall n <- tree.nodes :: n.value == if n == x && ok then v else old(n.value)
      ensures 0 <= i <= |old(tree.order)| && tree.order == old(tree.order[..i]) + [x] + old(tree.order[i..])
      ensures if ok then old(UpperAt(key(v), i)) else i == old(Place(next))
    {
      var s, q;
      ok, s, q, i := LinkPointUnique(key(v));
      ok := ok && accept;
      i := LinkAtOrRestore(x, v, ok, s, q, i, next);
    }

    // The same, as seen from the others.
    method LinkBetween(x: Node, v: int, accept: bool, next: Node) returns (ok: bool)
      requires StrictWeakOrder(lt) && tree.Valid() && StrictlySorted() && x !in tree.nodes && x != tree.header
      requires next in tree.nodes + {tree.header}
      modifies tree, tree.header, tree.nodes, x
      ensures tree.Valid() && tree.nodes == old(tree.nodes) + {x} && (ok <==> accept && old(!Clash(key(v))))
      ensures ok ==> StrictlySorted()
      ensures forall n <- tree.nodes :: n.value == if n == x && ok then v else old(n.value)
      ensures 0 <= x.pos <= |old(tree.order)| && |tree.order| == |old(tree.order)| + 1
      ensures Without(tree.order, x.pos) == old(tree.order)
      ensures !ok ==> var i := old(Place(next));
        0 <= i <= |old(tree.order)| && tree.order == old(tree.order[..i]) + [x] + old(tree.order[i..])
    {
      ghost var o := tree.order;
      ghost var i;
      ok, i := LinkOrRestore(x, v, accept, next);
      InsertedAt(o, i, x);
    }

    method LinkAtOrRestore(x: Node, v: int, ok: bool, s: Side, q: Node, ghost at: int, next: Node)
        returns (ghost i: int)
      requires StrictWeakOrder(lt) && tree.Valid() && StrictlySorted() && x !in tree.nodes && x != tree.header
      requires ok ==> q in tree.nodes + {tree.header} && tree.Slot(q, s) && at == tree.SlotIndex(q, s)
      requires ok ==> UpperAt(key(v), at) && !Clash(key(v))
      requires next in tree.nodes + {tree.header}
      modifies tree, tree.header, tree.nodes, x
      ensures tree.Valid() && tree.nodes == old(tree.nodes) + {x} && (ok ==> StrictlySorted())
      ensures forall n <- tree.nodes :: n.value == if n == x && ok then v else old(n.value)
      ensures i == if ok then at else old(Place(next))
      ensures 0 <= i <= |old(tree.order)| && tree.order == old(tree.order[..i]) + [x] + old(tree.order[i..])
    {
      if ok {
        LinkValue(x, v, s, q, at);
        i := at;
      } else {
        i := PutBefore(x, next);
      }
    }

    method PutBefore(x: Node, next: Node) returns (ghost i: int)
      requires tree.Valid() && x !in tree.nodes && x != tree.header && next in tree.nodes + {tree.header}
      modifies tree, tree.header, tree.nodes, x
      ensures tree.Valid() && tree.nodes == old(tree.nodes) + {x} && i == old(Place(next))
      ensures forall n <- tree.nodes :: n.value == old(n.value)
      ensures 0 <= i <= |old(tree.order)| && tree.order == old(tree.order[..i]) + [x] + old(tree.order[i..])
    {
      i := Place(next);
      tree.Restore(x, next);
    }

    method LinkValue(x: Node, v: int, s: Side, q: Node, ghost i: int)
      requires StrictWeakOrder(lt) && tree.Valid() && StrictlySorted() && x !in tree.nodes && x != tree.header
      requires q in tree.nodes + {tree.header} && tree.Slot(q, s) && i == tree.SlotIndex(q, s)
      requires UpperAt(key(v), i) && !Clash(key(v))
      modifies tree, tree.header, tree.nodes, x
      ensures tree.Valid() && StrictlySorted() && tree.nodes == old(tree.nodes) + {x}
      ensures tree.order == old(tree.order[..i]) + [x] + old(tree.order[i..])
      ensures forall n <- tree.nodes :: n.value == if n == x then v else old(n.value)
    {
      x.value := v;
      LinkUnique(x, s, q, i);
    }

    method AssignInPlaceUnique(x: Node, v: int)
      requires tree.Indexed() && x in tree.nodes && StrictBut(x) && FitsStrictly(x, key(v))
      modifies x`value
      ensures StrictlySorted() && x.value == v
    {
      x.value := v;
      forall i, j | 0 <= i < j < |tree.order| ensures lt(K(i), K(j)) {
        if i != x.pos { assert K(i) == old(K(i)); }
        if j != x.pos { assert K(j) == old(K(j)); }
        assert K(x.pos) == key(v);
      }
    }

    // x gets the value v at another place, or stays as it is.
    method RelinkUnique(x: Node, v: int, accept: bool) returns (ok: bool)
      requires StrictWeakOrder(lt) && tree.Valid() && x in tree.nodes && StrictBut(x)
      modifies tree, tree.header, tree.nodes
      ensures tree.Valid() && tree.nodes == old(tree.nodes) && (ok <==> accept && !old(ClashBut(x, key(v))))
      ensures forall n <- tree.nodes :: n.value == if n == x && ok then v else old(n.value)
      ensures ok ==> StrictlySorted() && Without(tree.order, x.pos) == old(Without(tree.order, x.pos))
      ensures !ok ==> tree.order == old(tree.order)
    {
      ghost var o, p := Without(tree.order, x.pos), x.pos;
      PutBack(tree.order, p, x);
      var next := UnlinkUnique(x, key(v));
      ok := LinkBetween(x, v, accept, next);
    }

    // replace_ (v the new value) and modify_rollback_ (v the value x already has) of a unique index: it fails, changing
    // nothing, exactly if another element has an equivalent key or the rest of the indices refuse.
    method ReplaceUnique(x: Node, v: int, accept: bool) returns (ok: bool)
      requires StrictWeakOrder(lt) && tree.Valid() && x in tree.nodes && StrictBut(x)
      modifies tree, tree.header, tree.nodes
      ensures tree.Valid() && tree.nodes == old(tree.nodes) && (ok <==> accept && !old(ClashBut(x, key(v))))
      ensures forall n <- tree.nodes :: n.value == if n == x && ok then v else old(n.value)
      ensures ok ==> StrictlySorted() && Without(tree.order, x.pos) == old(Without(tree.order, x.pos))
      ensures !ok || old(FitsStrictly(x, key(v))) ==> tree.order == old(tree.order)
    {
      var b := InPlaceUnique(v, x);
      if b {
        KeepUnique(x, v, accept);
        ok := accept;
      } else {
        ok := RelinkUnique(x, v, accept);
      }
    }

    method KeepUnique(x: Node, v: int, accept: bool)
      requires StrictWeakOrder(lt) && tree.Valid() && x in tree.nodes && StrictBut(x) && FitsStrictly(x, key(v))
      modifies x`value
      ensures tree.Valid() && !old(ClashBut(x, key(v))) && (accept ==> StrictlySorted())
      ensures forall n <- tree.nodes :: n.value == if n == x && accept then v else old(n.value)
    {
      FitsStrictlyByNeighbours(x, key(v));
      if accept {
        AssignInPlaceUnique(x, v);
      }
    }

    // x, whose value was changed, is placed by it if no other element has an equivalent key, and unlinked if one has.
    method PlaceOrDrop(x: Node) returns (ok: bool)
      requires StrictWeakOrder(lt) && tree.Valid() && x in tree.nodes && StrictBut(x)
      modifies tree, tree.header, tree.nodes
      ensures tree.Valid() && StrictlySorted() && forall n <- old(tree.nodes) :: n.value == old(n.value)
      ensures ok <==> !old(ClashBut(x, key(x.value)))
      ensures tree.nodes == if ok then old(tree.nodes) else old(tree.nodes) - {x}
      ensures ok ==> x in tree.nodes && Without(tree.order, x.pos) == old(Without(tree.order, x.pos))
      ensures ok && old(FitsStrictly(x, key(x.value))) ==> tree.order == old(tree.order)
      ensures !ok ==> tree.order == old(Without(tree.order, x.pos))
    {
      ok := KeepsPlaceUnique(x);
      if !ok {
        ok := MoveOrDrop(x);
      }
    }

    method KeepsPlaceUnique(x: Node) returns (b: bool)
      requires StrictWeakOrder(lt) && tree.Valid() && x in tree.nodes && StrictBut(x)
      ensures (b <==> FitsStrictly(x, key(x.value))) && (b ==> StrictlySorted() && !ClashBut(x, key(x.value)))
    {
      b := InPlaceUnique(x.value, x);
      FitsIsSorted(x);
      FitsStrictlyByNeighbours(x, key(x.value));
    }

    // modify_ of a unique index.
    method ModifyUnique(x: Node, accept: bool) returns (ok: bool)
      requires StrictWeakOrder(lt) && tree.Valid() && x in tree.nodes && StrictBut(x)
      modifies tree, tree.header, tree.nodes
      ensures tree.Valid() && StrictlySorted() && forall n <- old(tree.nodes) :: n.value == old(n.value)
      ensures ok <==> accept && !old(ClashBut(x, key(x.value)))
      ensures tree.nodes == if ok then old(tree.nodes) else old(tree.nodes) - {x}
      ensures ok ==> x in tree.nodes && Without(tree.order, x.pos) == old(Without(tree.order, x.pos))
      ensures ok && old(FitsStrictly(x, key(x.value))) ==> tree.order == old(tree.order)
      ensures !ok ==> tree.order == old(Without(tree.order, x.pos))
    {
      ok := PlaceOrDrop(x);
      if ok && !accept {
        DropUnique(x);
        ok := false;
      }
    }

    method DropUnique(x: Node)
      requires StrictWeakOrder(lt) && tree.Valid() && x in tree.nodes && StrictlySorted()
      modifies tree, tree.header, tree.nodes
      ensures tree.Valid() && StrictlySorted() && tree.nodes == old(tree.nodes) - {x}
      ensures tree.order == old(Without(tree.order, x.pos))
      ensures forall n <- old(tree.nodes) :: n.value == old(n.value)
    {
      SortedIsSortedBut(x);
      var next := UnlinkUnique(x, key(x.value));
    }

    // x is unlinked, and linked again by its value if no element has an equivalent key.
    method MoveOrDrop(x: Node) returns (ok: bool)
      requires StrictWeakOrder(lt) && tree.Valid() && x in tree.nodes && StrictBut(x)
      modifies tree, tree.header, tree.nodes
      ensures tree.Valid() && StrictlySorted() && forall n <- old(tree.nodes) :: n.value == old(n.value)
      ensures ok <==> !old(ClashBut(x, key(x.value)))
      ensures tree.nodes == if ok then old(tree.nodes) else old(tree.nodes) - {x}
      ensures ok ==> x in tree.nodes && Without(tree.order, x.pos) == old(Without(tree.order, x.pos))
      ensures !ok ==> tree.order == old(Without(tree.order, x.pos))
    {
      var next := UnlinkUnique(x, key(x.value));
      ok := LinkAgain(x, tree.order);
    }

    // x is linked to the order o by its value, if no element has an equivalent key.
    method LinkAgain(x: Node, ghost o: seq<Node>) returns (ok: bool)
      requires StrictWeakOrder(lt) && tree.Valid() && StrictlySorted() && x !in tree.nodes && x != tree.header
        && tree.order == o
      modifies tree, tree.header, tree.nodes, x
      ensures tree.Valid() && StrictlySorted() && (ok <==> old(!Clash(key(x.value))))
      ensures tree.nodes == if ok then old(tree.nodes) + {x} else old(tree.nodes)
      ensures x.value == old(x.value) && forall n <- old(tree.nodes) :: n.value == old(n.value)
      ensures if ok then x in tree.nodes && Without(tree.order, x.pos) == o else tree.order == o
    {
      ghost var i;
      ok, i := LinkIfFree(x);
      if ok {
        InsertedAt(o, i, x);
      }
    }

    method LinkIfFree(x: Node) returns (ok: bool, ghost i: int)
      requires StrictWeakOrder(lt) && tree.Valid() && StrictlySorted() && x !in tree.nodes && x != tree.header
      modifies tree, tree.header, tree.nodes, x
      ensures tree.Valid() && StrictlySorted() && (ok <==> old(!Clash(key(x.value))))
      ensures tree.nodes == if ok then old(tree.nodes) + {x} else old(tree.nodes)
      ensures x.value == old(x.value) && forall n <- old(tree.nodes) :: n.value == old(n.value)
      ensures ok ==> 0 <= i <= |old(tree.order)| && tree.order == old(tree.order[..i]) + [x] + old(tree.order[i..])
      ensures ok ==> old(UpperAt(key(x.value), i))
      ensures !ok ==> tree.order == old(tree.order)
    {
      var s, q;
      ok, s, q, i := LinkPointUnique(key(x.value));
      if ok {
        LinkUnique(x, s, q, i);
      }
    }
  }
}
