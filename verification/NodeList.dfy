/** Sequences of distinct nodes, and moving one of them. */
module NodeList {

  ghost predicate Differ<T>(s: seq<T>, i: int, j: int)
    requires 0 <= i < |s| && 0 <= j < |s|
  {
    s[i] != s[j]
  }

  ghost predicate Distinct<T>(s: seq<T>) {
    forall i, j {:trigger Differ(s, i, j)} | 0 <= i < |s| && 0 <= j < |s| && i != j :: Differ(s, i, j)
  }

  function At<T>(s: seq<T>, i: int): T
    requires 0 <= i < |s|
  {
    s[i]
  }

  function Pos<T(==)>(s: seq<T>, x: T): (i: int)
    requires x in s
    ensures 0 <= i < |s| && At(s, i) == x
  {
    if s[0] == x then 0 else 1 + Pos(s[1..], x)
  }

  lemma Apart<T>(s: seq<T>, i: int, j: int)
    requires Distinct(s) && 0 <= i < |s| && 0 <= j < |s| && i != j
    ensures At(s, i) != At(s, j)
  {
    assert Differ(s, i, j);
  }

  lemma PosAt<T>(s: seq<T>, i: int)
    requires Distinct(s) && 0 <= i < |s|
    ensures At(s, i) in s && Pos(s, At(s, i)) == i
  {
    assert s[i] in s;
    if Pos(s, At(s, i)) != i { Apart(s, Pos(s, At(s, i)), i); }
  }

  function Remove<T(==)>(s: seq<T>, x: T): (r: seq<T>)
    requires x in s
    ensures |r| == |s| - 1
  {
    s[..Pos(s, x)] + s[Pos(s, x) + 1..]
  }

  lemma RemoveAt<T>(s: seq<T>, x: T, i: int)
    requires x in s && 0 <= i < |s| - 1
    ensures At(Remove(s, x), i) == At(s, if i < Pos(s, x) then i else i + 1)
  {
  }

  // Removing x keeps the others in their order.
  lemma RemoveKeeps<T>(s: seq<T>, x: T)
    requires Distinct(s) && x in s
    ensures Distinct(Remove(s, x)) && x !in Remove(s, x)
    ensures forall y {:trigger y in Remove(s, x)} | y in s && y != x ::
      y in Remove(s, x) && Pos(Remove(s, x), y) == if Pos(s, y) < Pos(s, x) then Pos(s, y) else Pos(s, y) - 1
    ensures forall y {:trigger y in Remove(s, x)} | y in Remove(s, x) :: y in s && y != x
  {
    var r, p := Remove(s, x), Pos(s, x);
    forall i, j | 0 <= i < |r| && 0 <= j < |r| && i != j ensures Differ(r, i, j) {
      RemoveAt(s, x, i);
      RemoveAt(s, x, j);
      assert Differ(s, if i < p then i else i + 1, if j < p then j else j + 1);
    }
    forall y | y in r ensures y in s && y != x {
      RemoveAt(s, x, Pos(r, y));
      assert Differ(s, if Pos(r, y) < p then Pos(r, y) else Pos(r, y) + 1, p);
    }
    forall y | y in s && y != x ensures y in r && Pos(r, y) == if Pos(s, y) < p then Pos(s, y) else Pos(s, y) - 1 {
      var i := if Pos(s, y) < p then Pos(s, y) else Pos(s, y) - 1;
      RemoveAt(s, x, i);
      PosAt(r, i);
    }
  }

  function Insert<T(==)>(s: seq<T>, q: int, x: T): (r: seq<T>)
    requires 0 <= q <= |s|
    ensures |r| == |s| + 1
  {
    s[..q] + [x] + s[q..]
  }

  lemma InsertAt<T>(s: seq<T>, q: int, x: T, i: int)
    requires 0 <= q <= |s| && 0 <= i <= |s|
    ensures At(Insert(s, q, x), i) == if i < q then At(s, i) else if i == q then x else At(s, i - 1)
  {
  }

  lemma InsertIsDistinct<T>(s: seq<T>, q: int, x: T)
    requires Distinct(s) && x !in s && 0 <= q <= |s|
    ensures Distinct(Insert(s, q, x))
  {
    var r := Insert(s, q, x);
    forall i, j | 0 <= i < |r| && 0 <= j < |r| && i != j ensures Differ(r, i, j) {
      InsertAt(s, q, x, i);
      InsertAt(s, q, x, j);
      assert i != q ==> At(s, if i < q then i else i - 1) in s;
      assert j != q ==> At(s, if j < q then j else j - 1) in s;
      assert i != q && j != q ==> Differ(s, if i < q then i else i - 1, if j < q then j else j - 1);
    }
  }

  lemma InsertKeeps<T>(s: seq<T>, q: int, x: T)
    requires Distinct(s) && x !in s && 0 <= q <= |s|
    ensures Distinct(Insert(s, q, x)) && x in Insert(s, q, x) && Pos(Insert(s, q, x), x) == q
    ensures forall y {:trigger y in Insert(s, q, x)} | y in s ::
      y in Insert(s, q, x) && Pos(Insert(s, q, x), y) == if Pos(s, y) < q then Pos(s, y) else Pos(s, y) + 1
    ensures forall y {:trigger y in Insert(s, q, x)} | y in Insert(s, q, x) :: y in s || y == x
  {
    var r := Insert(s, q, x);
    InsertIsDistinct(s, q, x);
    InsertAt(s, q, x, q);
    PosAt(r, q);
    forall y | y in r ensures y in s || y == x {
      InsertAt(s, q, x, Pos(r, y));
    }
    forall y | y in s ensures y in r && Pos(r, y) == if Pos(s, y) < q then Pos(s, y) else Pos(s, y) + 1 {
      var i := if Pos(s, y) < q then Pos(s, y) else Pos(s, y) + 1;
      InsertAt(s, q, x, i);
      PosAt(r, i);
    }
  }

  // A pointer to a node, or null.
  datatype Pointer<T> = Null | To(node: T)

  // Where x goes to be right behind p, once it is taken out, or to be the first.
  function Slot<T(==)>(s: seq<T>, p: Pointer<T>, x: T): (q: int)
    requires x in s && (p.To? ==> p.node in s && p.node != x)
    ensures 0 <= q < |s|
  {
    if p.Null? then 0 else if Pos(s, p.node) < Pos(s, x) then Pos(s, p.node) + 1 else Pos(s, p.node)
  }

  function MoveAfter<T(==)>(s: seq<T>, p: Pointer<T>, x: T): seq<T>
    requires x in s && (p.To? ==> p.node in s && p.node != x)
  {
    Insert(Remove(s, x), Slot(s, p, x), x)
  }

  ghost predicate Precedes<T>(s: seq<T>, a: T, b: T)
    requires a in s && b in s
  {
    Pos(s, a) < Pos(s, b)
  }

  ghost predicate SameNodes<T>(s: seq<T>, t: seq<T>) {
    |s| == |t| && Distinct(s) && Distinct(t) && (forall y {:trigger y in s} | y in s :: y in t)
      && (forall y {:trigger y in t} | y in t :: y in s)
  }

  // All the nodes of s are in t.
  ghost predicate Within<T>(s: seq<T>, t: seq<T>) {
    Distinct(s) && Distinct(t) && forall y {:trigger y in s} | y in s :: y in t
  }

  lemma MoveAfterKeeps<T>(s: seq<T>, p: Pointer<T>, x: T)
    requires Distinct(s) && x in s && (p.To? ==> p.node in s && p.node != x)
    ensures SameNodes(MoveAfter(s, p, x), s)
  {
    RemoveKeeps(s, x);
    InsertKeeps(Remove(s, x), Slot(s, p, x), x);
    var t := MoveAfter(s, p, x);
    forall y | y in t ensures y in s {
      assert y in Remove(s, x) || y == x;
    }
    forall y | y in s ensures y in t {
      if y != x { assert y in Remove(s, x); }
    }
  }

  lemma MoveAfterPos<T>(s: seq<T>, p: Pointer<T>, x: T, a: T)
    requires Distinct(s) && x in s && (p.To? ==> p.node in s && p.node != x) && a in s && a != x
    ensures var t, q, r := MoveAfter(s, p, x), Slot(s, p, x), if Pos(s, a) < Pos(s, x) then Pos(s, a)
      else Pos(s, a) - 1;
      && x in t && Pos(t, x) == q && a in t && Pos(t, a) == (if r < q then r else r + 1)
      && Pos(s, a) != Pos(s, x)
  {
    RemoveKeeps(s, x);
    InsertKeeps(Remove(s, x), Slot(s, p, x), x);
    assert a in Remove(s, x);
    assert At(s, Pos(s, a)) != At(s, Pos(s, x));
  }

  // The others keep their order, and x stands after p and those before it, and before the rest.
  lemma MoveAfterOrders<T>(s: seq<T>, p: Pointer<T>, x: T, a: T, b: T)
    requires Distinct(s) && x in s && (p.To? ==> p.node in s && p.node != x) && a in s && b in s && a != x
    ensures SameNodes(MoveAfter(s, p, x), s)
    ensures b != x ==> (Precedes(MoveAfter(s, p, x), a, b) <==> Precedes(s, a, b))
    ensures Precedes(MoveAfter(s, p, x), a, x) <==> p.To? && Pos(s, a) <= Pos(s, p.node)
    ensures Precedes(MoveAfter(s, p, x), x, a) <==> !Precedes(MoveAfter(s, p, x), a, x)
  {
    MoveAfterKeeps(s, p, x);
    MoveAfterPos(s, p, x, a);
    if b != x { MoveAfterPos(s, p, x, b); }
    if p.To? { MoveAfterPos(s, p, x, p.node); }
  }
}
