/** An ordered index on a tree does to its state what the cascade does to a view of it. */
module OrderedRefinement {

  import opened Ordering
  import opened IndexStep
  import K = IndexKind
  import V = IndexView
  import C = Container
  import A = IndexAbstraction
  import T = OrdIndexNode
  import O = OrderedIndex
  import L = NodeList

  // The tree has the order of w, and its nodes the values w has them placed by.
  ghost predicate Represents(ix: O.Index, w: V.View, at: map<K.Node, T.Node>)
    reads ix.tree, ix.tree.nodes`value
  {
    && V.WellFormed(w) && Stands(w, at, ix.tree.order)
    && (forall y {:trigger w.linked[y]} | y in w.linked ::
      y in at && at[y] in ix.tree.nodes && at[y].value == w.linked[y])
  }

  // An index, unique or not, whose state is w.
  ghost predicate Stated(ix: O.Index, unique: bool, w: V.View, at: map<K.Node, T.Node>)
    reads ix.tree, ix.tree.header, ix.tree.nodes
  {
    StrictWeakOrder(ix.lt) && ix.tree.Valid() && V.Good(A.Kind(ix, unique), w) && Represents(ix, w, at)
  }

  // The same, but n has the value v by now.
  ghost predicate Changed(ix: O.Index, unique: bool, w: V.View, at: map<K.Node, T.Node>, n: K.Node, v: int)
    reads ix.tree, ix.tree.header, ix.tree.nodes
  {
    && StrictWeakOrder(ix.lt) && ix.tree.Valid() && V.Good(A.Kind(ix, unique), w) && n in w.order
    && Represents(ix, V.Relinked(w, n, v), at)
  }

  lemma OrderIsDistinct(tree: T.Tree)
    requires tree.Indexed()
    ensures L.Distinct(tree.order)
  {
    forall i, j | 0 <= i < |tree.order| && 0 <= j < |tree.order| && i != j ensures L.Differ(tree.order, i, j) {
      assert T.At(tree.order, i).pos == i && T.At(tree.order, j).pos == j;
    }
  }

  lemma RepresentsShows(ix: O.Index, w: V.View, at: map<K.Node, T.Node>)
    requires ix.tree.Indexed() && Represents(ix, w, at)
    ensures A.Shows(ix, V.Values(w))
  {
    var s := V.Values(w);
    forall i {:trigger K.At(s, i)} {:trigger ix.K(i)} | 0 <= i < |s|
      ensures K.At(s, i) == T.At(ix.tree.order, i).value && ix.key(K.At(s, i)) == ix.K(i)
    {
      assert at[V.Nth(w.order, i)] == L.At(ix.tree.order, i) && V.Nth(w.order, i) in w.linked;
    }
  }

  // The node that stands for n is where n is.
  lemma SamePlace(ix: O.Index, w: V.View, at: map<K.Node, T.Node>, n: K.Node)
    requires ix.tree.Indexed() && Represents(ix, w, at) && n in w.order
    ensures n in w.linked && n in at && at[n] in ix.tree.nodes && at[n].pos == V.Find(w.order, n)
    ensures forall y | y in w.linked && y != n :: y in at && at[y] != at[n]
  {
    V.InOrder(w.order, V.Find(w.order, n));
    assert w.linked[n] == at[n].value;
    assert T.At(ix.tree.order, at[n].pos) == at[n];
    OrderIsDistinct(ix.tree);
    PlaceOf(w, at, ix.tree.order, n, at[n].pos);
  }

  // The old value of n is a value like any for the rest.
  lemma RelinkedBack(w: V.View, n: K.Node, v: int)
    requires V.WellFormed(w) && n in w.order
    ensures n in w.linked && V.WellFormed(V.Relinked(w, n, v)) && V.Without(V.Relinked(w, n, v), n) == V.Without(w, n)
    ensures V.Relinked(V.Relinked(w, n, v), n, w.linked[n]) == w
  {
    V.RelinkedIsWellFormed(w, n, v);
    V.InOrder(w.order, V.Find(w.order, n));
  }

  // The others have not changed.
  lemma ChangedOthers(ix: O.Index, unique: bool, w: V.View, at: map<K.Node, T.Node>, n: K.Node, v: int)
    requires Changed(ix, unique, w, at, n, v)
    ensures n in at && at[n] in ix.tree.nodes && at[n].pos == V.Find(w.order, n) && Stands(w, at, ix.tree.order)
    ensures forall y <- w.linked | y != n ::
      y in at && at[y] in ix.tree.nodes && at[y] != at[n] && at[y].value == w.linked[y]
  {
    var u := V.Relinked(w, n, v);
    RelinkedBack(w, n, v);
    SamePlace(ix, u, at, n);
    forall y <- w.linked | y != n
      ensures y in at && at[y] in ix.tree.nodes && at[y] != at[n] && at[y].value == w.linked[y]
    {
      assert u.linked[y] == w.linked[y];
    }
  }

  // What the tree tells of a node that has changed is what the cascade asks.
  lemma ChangedTells(ix: O.Index, unique: bool, w: V.View, at: map<K.Node, T.Node>, n: K.Node, v: int, to: int)
    requires Changed(ix, unique, w, at, n, v)
    ensures n in w.linked && n in at && at[n] in ix.tree.nodes && at[n].pos == V.Find(w.order, n)
    ensures if unique then ix.StrictBut(at[n]) else ix.SortedBut(at[n])
    ensures V.Clashes(A.Kind(ix, unique), w, n, to) <==> unique && ix.ClashBut(at[n], ix.key(to))
    ensures V.Good(A.Kind(ix, unique), V.Relinked(w, n, to)) <==>
      if unique then ix.FitsStrictly(at[n], ix.key(to)) else ix.Fits(at[n], ix.key(to))
  {
    var u := V.Relinked(w, n, v);
    RelinkedBack(w, n, v);
    V.RelinkedIsWellFormed(w, n, to);
    SamePlace(ix, u, at, n);
    RepresentsShows(ix, u, at);
    var p := at[n].pos;
    RestInOrder(ix, unique, w, at, n, v);
    ValuesRelinked(w, n, v, to);
    A.InPlaceFits(ix, V.Values(u), at[n], to);
    A.ClashIs(ix, V.Values(u), at[n], to);
    V.WithoutIsWellFormed(w, n);
    V.WithoutValues(u, n);
  }

  lemma ValuesRelinked(w: V.View, n: K.Node, v: int, to: int)
    requires V.WellFormed(w) && n in w.order
    requires V.WellFormed(V.Relinked(w, n, v)) && V.WellFormed(V.Relinked(w, n, to))
    ensures V.Values(V.Relinked(w, n, to)) == V.Values(V.Relinked(w, n, v))[V.Find(w.order, n) := to]
  {
    var s, t, p := V.Values(V.Relinked(w, n, v)), V.Values(V.Relinked(w, n, to)), V.Find(w.order, n);
    forall i | 0 <= i < |w.order| ensures t[i] == s[p := to][i] {
      if i != p { assert !V.Twice(w.order, i, p); }
      assert K.At(t, i) == V.Relinked(w, n, to).linked[V.Nth(w.order, i)];
      assert K.At(s, i) == V.Relinked(w, n, v).linked[V.Nth(w.order, i)];
    }
  }

  lemma RestInOrder(ix: O.Index, unique: bool, w: V.View, at: map<K.Node, T.Node>, n: K.Node, v: int)
    requires Changed(ix, unique, w, at, n, v) && n in at && at[n] in ix.tree.nodes
    requires at[n].pos == V.Find(w.order, n) && V.WellFormed(V.Relinked(w, n, v))
    requires A.Shows(ix, V.Values(V.Relinked(w, n, v)))
    ensures if unique then ix.StrictBut(at[n]) else ix.SortedBut(at[n])
  {
    var s, t, p := V.Values(w), V.Values(V.Relinked(w, n, v)), at[n].pos;
    forall i | 0 <= i < |s| && i != p ensures K.At(t, i) == K.At(s, i) && ix.key(K.At(s, i)) == ix.K(i) {
      assert !V.Twice(w.order, i, p);
    }
    forall i, j {:trigger ix.K(i), ix.K(j)} | 0 <= i < j < |s| && i != p && j != p
      ensures if unique then ix.lt(ix.K(i), ix.K(j)) else !ix.lt(ix.K(j), ix.K(i))
    {
      A.BeforeIsLess(ix, K.At(s, i), K.At(s, j));
      assert K.Before(A.Kind(ix, unique), K.At(s, i), K.At(s, j));
    }
  }

  /* What the new state is */

  // x, standing for n, has come to another place; the others are where they were among themselves.
  lemma MovedRepresents(ix: O.Index, w: V.View, at: map<K.Node, T.Node>, n: K.Node, v: int, o: seq<T.Node>)
    requires ix.tree.Indexed() && V.WellFormed(w) && n in w.order && n in at && Stands(w, at, o)
    requires at[n] in ix.tree.nodes && at[n].value == v && |o| == |ix.tree.order|
    requires TakenOut(ix.tree.order, at[n].pos) == TakenOut(o, V.Find(w.order, n))
    requires forall y <- w.linked | y != n :: y in at && at[y] in ix.tree.nodes && at[y].value == w.linked[y]
    ensures Represents(ix, MovedTo(w, n, v, at[n].pos), at)
  {
    var q, u := at[n].pos, V.Without(w, n);
    var r := MovedTo(w, n, v, q);
    V.WithoutIsWellFormed(w, n);
    V.WithIsWellFormed(u, n, v, q);
    WithoutStands(w, at, o, n);
    WithStands(u, at, TakenOut(o, V.Find(w.order, n)), n, at[n], v, q);
    assert T.At(ix.tree.order, q) == at[n];
    assert PutIn(TakenOut(ix.tree.order, q), q, at[n]) == ix.tree.order;
  }

  // Then the cascade makes the same of it.
  lemma MovedIsStep(ix: O.Index, unique: bool, w: V.View, at: map<K.Node, T.Node>, n: K.Node, v: int, q: int)
    requires StrictWeakOrder(ix.lt) && ix.tree.Valid() && V.Good(A.Kind(ix, unique), w) && n in w.order
    requires 0 <= q < |w.order| && Represents(ix, MovedTo(w, n, v, q), at)
    requires if unique then ix.StrictlySorted() else ix.Sorted()
    requires n in at && at[n] in ix.tree.nodes && at[n].value == v && at[n].pos == q
    requires if V.Good(A.Kind(ix, unique), V.Relinked(w, n, v)) then q == V.Find(w.order, n) else ix.BehindEquals(at[n])
    ensures var r := MovedTo(w, n, v, q);
      && Stated(ix, unique, r, at) && Moves(A.Kind(ix, unique), w, r, n, v, false)
      && (V.Good(A.Kind(ix, unique), V.Relinked(w, n, v)) ==> r == V.Relinked(w, n, v))
  {
    var k, r := A.Kind(ix, unique), MovedTo(w, n, v, q);
    RepresentsShows(ix, r, at);
    A.SortedFits(ix, V.Values(r));
    MovedToIsMove(k, w, n, v, q, false);
    V.RelinkedIsWellFormed(w, n, v);
    if K.Same(k, v, w.linked[n]) { V.SameKeyInPlace(k, w, n, v); }
    if ix.BehindEquals(at[n]) {
      A.BehindGoes(ix, unique, V.Values(r), at[n]);
      MovedValues(w, n, v, q);
    }
  }

  lemma DroppedIsStep(ix: O.Index, unique: bool, w: V.View, at: map<K.Node, T.Node>, n: K.Node, o: seq<T.Node>)
    requires StrictWeakOrder(ix.lt) && ix.tree.Valid() && V.Good(A.Kind(ix, unique), w) && n in w.order
    requires Stands(w, at, o) && ix.tree.order == TakenOut(o, V.Find(w.order, n))
    requires forall y <- w.linked | y != n :: y in at && at[y] in ix.tree.nodes && at[y].value == w.linked[y]
    ensures Stated(ix, unique, V.Without(w, n), at) && Drops(w, V.Without(w, n), n)
  {
    WithoutIsDrop(A.Kind(ix, unique), w, n);
    V.WithoutIsWellFormed(w, n);
    WithoutStands(w, at, o, n);
  }

  /* replace_ */

  // The overload for the kind of index.
  method ReplaceEither(ix: O.Index, unique: bool, x: T.Node, v: int, accept: bool) returns (ok: bool)
    requires StrictWeakOrder(ix.lt) && ix.tree.Valid() && x in ix.tree.nodes
    requires if unique then ix.StrictBut(x) else ix.SortedBut(x)
    modifies ix.tree, ix.tree.header, ix.tree.nodes
    ensures ix.tree.Valid() && ix.tree.nodes == old(ix.tree.nodes) && |ix.tree.order| == |old(ix.tree.order)|
    ensures ok <==> accept && !(unique && old(ix.ClashBut(x, ix.key(v))))
    ensures forall m <- ix.tree.nodes :: m.value == if m == x && ok then v else old(m.value)
    ensures ok ==> (if unique then ix.StrictlySorted() else ix.Sorted())
    ensures ok ==> TakenOut(ix.tree.order, x.pos) == old(TakenOut(ix.tree.order, x.pos))
    ensures ok ==>
      if old(if unique then ix.FitsStrictly(x, ix.key(v)) else ix.Fits(x, ix.key(v))) then x.pos == old(x.pos)
      else ix.BehindEquals(x)
    ensures !ok ==> ix.tree.order == old(ix.tree.order)
  {
    ghost var o := ix.tree.order;
    if unique {
      ok := ix.ReplaceUnique(x, v, accept);
      if ok { A.StrictIsBehind(ix, x); }
    } else {
      ix.Replace(x, v, accept);
      ok := accept;
    }
    assert T.At(o, old(x.pos)) == x && (ix.tree.order == o ==> T.At(ix.tree.order, old(x.pos)) == x);
  }

  // x, standing for n, gets the value v in the tree as n does in the view, or both stay as they are.
  method Replace(ix: O.Index, unique: bool, x: T.Node, v: int, accept: bool, ghost w: V.View, ghost at: map<K.Node,
      T.Node>, ghost n: K.Node)
      returns (ok: bool, ghost r: V.View)
    requires Stated(ix, unique, w, at) && n in w.order && n in at && at[n] == x
    modifies ix.tree, ix.tree.header, ix.tree.nodes
    ensures Stated(ix, unique, r, at)
    ensures ok <==> accept && !V.Clashes(A.Kind(ix, unique), w, n, v)
    ensures ok ==> Moves(A.Kind(ix, unique), w, r, n, v, false)
    ensures ok && V.Good(A.Kind(ix, unique), V.Relinked(w, n, v)) ==> r == V.Relinked(w, n, v)
    ensures !ok ==> r == w
  {
    ghost var o := ix.tree.order;
    SamePlace(ix, w, at, n);
    RelinkedBack(w, n, w.linked[n]);
    ChangedTells(ix, unique, w, at, n, x.value, v);
    ok := ReplaceEither(ix, unique, x, v, accept);
    r := w;
    if ok {
      MovedRepresents(ix, w, at, n, v, o);
      MovedIsStep(ix, unique, w, at, n, v, x.pos);
      r := MovedTo(w, n, v, x.pos);
    }
  }

  /* modify_, modify_rollback_ and check_rollback_ */

  // The modifier: the index knows nothing of the change of a value.
  method Change(ix: O.Index, unique: bool, x: T.Node, to: int, ghost w: V.View, ghost at: map<K.Node, T.Node>,
      ghost n: K.Node)
    requires Changed(ix, unique, w, at, n, x.value) && n in at && at[n] == x
    modifies x`value
    ensures Changed(ix, unique, w, at, n, to) && x.value == to
  {
    ChangedOthers(ix, unique, w, at, n, x.value);
    x.value := to;
    V.RelinkedIsWellFormed(w, n, to);
  }

  lemma ChangedIsStated(ix: O.Index, unique: bool, w: V.View, at: map<K.Node, T.Node>, n: K.Node, v: int)
    requires Changed(ix, unique, w, at, n, v)
    ensures V.Good(A.Kind(ix, unique), V.Relinked(w, n, v)) ==> Stated(ix, unique, V.Relinked(w, n, v), at)
    ensures n in w.linked && (v == w.linked[n] ==> Stated(ix, unique, w, at))
  {
    RelinkedBack(w, n, v);
    RelinkedBack(w, n, w.linked[n]);
  }

  method ModifyEither(ix: O.Index, unique: bool, x: T.Node, accept: bool) returns (ok: bool)
    requires StrictWeakOrder(ix.lt) && ix.tree.Valid() && x in ix.tree.nodes
    requires if unique then ix.StrictBut(x) else ix.SortedBut(x)
    modifies ix.tree, ix.tree.header, ix.tree.nodes
    ensures ix.tree.Valid() && ix.tree.nodes == if ok then old(ix.tree.nodes) else old(ix.tree.nodes) - {x}
    ensures ok <==> accept && !(unique && old(ix.ClashBut(x, ix.key(x.value))))
    ensures forall m <- old(ix.tree.nodes) :: m.value == old(m.value)
    ensures if unique then ix.StrictlySorted() else ix.Sorted()
    ensures ok ==> x in ix.tree.nodes && |ix.tree.order| == |old(ix.tree.order)|
    ensures ok ==> TakenOut(ix.tree.order, x.pos) == old(TakenOut(ix.tree.order, x.pos))
    ensures ok ==>
      if old(if unique then ix.FitsStrictly(x, ix.key(x.value)) else ix.Fits(x, ix.key(x.value)))
      then x.pos == old(x.pos) else ix.BehindEquals(x)
    ensures !ok ==> ix.tree.order == old(TakenOut(ix.tree.order, x.pos))
  {
    ghost var o := ix.tree.order;
    if unique {
      ok := ix.ModifyUnique(x, accept);
      if ok { A.StrictIsBehind(ix, x); }
    } else {
      ix.Modify(x, accept);
      ok := accept;
    }
    assert T.At(o, old(x.pos)) == x && (ix.tree.order == o ==> T.At(ix.tree.order, old(x.pos)) == x);
  }

  // x, whose value was changed, is placed by it, or taken out.
  method Modify(ix: O.Index, unique: bool, x: T.Node, accept: bool, ghost w: V.View, ghost at: map<K.Node, T.Node>,
      ghost n: K.Node)
      returns (ok: bool, ghost r: V.View)
    requires Changed(ix, unique, w, at, n, x.value) && n in at && at[n] == x
    modifies ix.tree, ix.tree.header, ix.tree.nodes
    ensures Stated(ix, unique, r, at) && x.value == old(x.value)
    ensures ok <==> accept && !V.Clashes(A.Kind(ix, unique), w, n, x.value)
    ensures ok ==> Moves(A.Kind(ix, unique), w, r, n, x.value, false)
    ensures ok && V.Good(A.Kind(ix, unique), V.Relinked(w, n, x.value)) ==> r == V.Relinked(w, n, x.value)
    ensures !ok ==> Drops(w, r, n)
  {
    ghost var o, v := ix.tree.order, x.value;
    ChangedOthers(ix, unique, w, at, n, v);
    ChangedTells(ix, unique, w, at, n, v, v);
    ok := ModifyEither(ix, unique, x, accept);
    if ok {
      MovedRepresents(ix, w, at, n, v, o);
      MovedIsStep(ix, unique, w, at, n, v, x.pos);
      r := MovedTo(w, n, v, x.pos);
    } else {
      DroppedIsStep(ix, unique, w, at, n, o);
      r := V.Without(w, n);
    }
  }

  // x, whose value was changed, is placed by it, or left where it is.
  method ModifyRollback(ix: O.Index, unique: bool, x: T.Node, accept: bool, ghost w: V.View, ghost at: map<K.Node,
      T.Node>, ghost n: K.Node)
      returns (ok: bool, ghost r: V.View)
    requires Changed(ix, unique, w, at, n, x.value) && n in at && at[n] == x
    modifies ix.tree, ix.tree.header, ix.tree.nodes
    ensures x.value == old(x.value) && (ok <==> accept && !V.Clashes(A.Kind(ix, unique), w, n, x.value))
    ensures ok ==> Stated(ix, unique, r, at) && Moves(A.Kind(ix, unique), w, r, n, x.value, false)
    ensures ok && V.Good(A.Kind(ix, unique), V.Relinked(w, n, x.value)) ==> r == V.Relinked(w, n, x.value)
    ensures !ok ==> r == w && Changed(ix, unique, w, at, n, x.value)
  {
    ghost var o, v := ix.tree.order, x.value;
    ChangedOthers(ix, unique, w, at, n, v);
    ChangedTells(ix, unique, w, at, n, v, v);
    ok := ReplaceEither(ix, unique, x, x.value, accept);
    r := w;
    if ok {
      MovedRepresents(ix, w, at, n, v, o);
      MovedIsStep(ix, unique, w, at, n, v, x.pos);
      r := MovedTo(w, n, v, x.pos);
    }
  }

  // Whether x fits where it is; then that is its place.
  method CheckRollback(ix: O.Index, unique: bool, x: T.Node, ghost w: V.View, ghost at: map<K.Node, T.Node>,
      ghost n: K.Node)
      returns (b: bool)
    requires Changed(ix, unique, w, at, n, x.value) && n in at && at[n] == x
    ensures n in w.linked && b == C.StaysIn(A.Kind(ix, unique), w, n, x.value, false)
    ensures b <==> V.Good(A.Kind(ix, unique), V.Relinked(w, n, x.value))
    ensures b ==> Stated(ix, unique, V.Relinked(w, n, x.value), at)
  {
    ChangedTells(ix, unique, w, at, n, x.value, x.value);
    V.RelinkedIsWellFormed(w, n, x.value);
    if K.Same(A.Kind(ix, unique), x.value, w.linked[n]) { V.SameKeyInPlace(A.Kind(ix, unique), w, n, x.value); }
    if unique {
      b := ix.InPlaceUnique(x.value, x);
    } else {
      b := ix.InPlace(x.value, x);
    }
  }

  /* extract_ and insert_ */

  // x, whatever its value, leaves.
  method Extract(ix: O.Index, unique: bool, x: T.Node, ghost w: V.View, ghost at: map<K.Node, T.Node>, ghost n: K.Node)
      returns (ghost r: V.View)
    requires Changed(ix, unique, w, at, n, x.value) && n in at && at[n] == x
    modifies ix.tree, ix.tree.header, ix.tree.nodes
    ensures Stated(ix, unique, r, at) && x.value == old(x.value) && Drops(w, r, n)
  {
    ghost var o, v := ix.tree.order, x.value;
    ChangedOthers(ix, unique, w, at, n, v);
    ix.tree.Extract(x);
    DroppedIsStep(ix, unique, w, at, n, o);
    r := V.Without(w, n);
  }

  // x, standing for n, is added, as close before position as it may be, if the index is hinted at.
  method Insert(ix: O.Index, unique: bool, hinted: bool, position: T.Node, x: T.Node, ghost w: V.View,
      ghost at: map<K.Node, T.Node>, ghost n: K.Node, ghost hint: K.Node?)
      returns (ok: bool, ghost r: V.View)
    requires Stated(ix, unique, w, at) && n !in w.linked && x !in ix.tree.nodes && x != ix.tree.header
    requires Hints(ix, w, at, hinted, position, hint)
    modifies ix.tree, ix.tree.header, ix.tree.nodes, x
    ensures x.value == old(x.value) && (ok <==> !K.Clash(A.Kind(ix, unique), V.Values(w), x.value))
    ensures ok ==> Stated(ix, unique, r, at[n := x]) && Adds(A.Kind(ix, unique), w, r, n, x.value, hint)
    ensures !ok ==> r == w && Stated(ix, unique, w, at)
  {
    ghost var o, v := ix.tree.order, x.value;
    NodesKnown(ix, w, at);
    ClashIsClash(ix, unique, w, at, v);
    ghost var lo, hi, i := PlaceFor(ix, unique, hinted, position, w, at, v, hint);
    ok := InsertEither(ix, unique, hinted, position, x, lo, hi);
    r := w;
    if ok {
      AddedIsStep(ix, unique, w, at, n, x, v, i, o, hint);
      r := V.With(w, n, v, i);
    }
  }

  // position is the place of the hint, which is a node of the index or stands for its end.
  ghost predicate Hints(ix: O.Index, w: V.View, at: map<K.Node, T.Node>, hinted: bool, position: T.Node, hint: K.Node?)
    reads ix.tree
  {
    && position in ix.tree.nodes + {ix.tree.header} && hinted == (hint != null)
    && (hint != null ==> if hint in w.order then hint in at && position == at[hint] else position == ix.tree.header)
  }

  // The bounds of the key of v, and the place between them.
  lemma PlaceFor(ix: O.Index, unique: bool, hinted: bool, position: T.Node, w: V.View, at: map<K.Node, T.Node>, v: int,
      hint: K.Node?)
      returns (lo: int, hi: int, i: int)
    requires Stated(ix, unique, w, at) && Hints(ix, w, at, hinted, position, hint)
    ensures ix.LowerAt(ix.key(v), lo) && ix.UpperAt(ix.key(v), hi) && 0 <= i <= |w.order|
    ensures i == if hinted && !unique then ix.Clamp(ix.Place(position), lo, hi) else hi
    ensures (unique && ix.Clash(ix.key(v))) ||
      K.GoesTo(A.Kind(ix, unique), V.Values(w), i, v, hinted, V.Spot(w.order, hint))
  {
    var k, s := ix.key(v), V.Values(w);
    ClashIsClash(ix, unique, w, at, v);
    RepresentsShows(ix, w, at);
    StrictIsSorted(ix);
    ix.BoundsUpward(k);
    lo := ix.Partition(a => !ix.lt(a, k), |ix.tree.order|);
    hi := ix.Partition(a => ix.lt(k, a), |ix.tree.order|);
    ix.BoundsCross(k, lo, hi);
    i := if hinted && !unique then ix.Clamp(ix.Place(position), lo, hi) else hi;
    if !unique && hinted {
      if hint in w.order { SamePlace(ix, w, at, hint); }
      A.ClampGoes(ix, s, v, ix.Place(position), lo, hi);
    } else if !unique || !ix.Clash(k) {
      A.UpperGoes(ix, unique, s, v, hi, V.Spot(w.order, hint));
    }
  }

  lemma StrictIsSorted(ix: O.Index)
    requires StrictWeakOrder(ix.lt) && ix.tree.Indexed()
    ensures ix.StrictlySorted() ==> ix.Sorted()
  {
    if ix.StrictlySorted() {
      forall i, j | 0 <= i < j < |ix.tree.order| ensures !ix.lt(ix.K(j), ix.K(i)) {
        K.NoLoop(ix.lt, ix.K(i), ix.K(j));
      }
    }
  }

  lemma NodesKnown(ix: O.Index, w: V.View, at: map<K.Node, T.Node>)
    requires ix.tree.Indexed() && Represents(ix, w, at)
    ensures forall y <- w.linked :: y in at && at[y] in ix.tree.nodes
  {
    assert forall y <- w.linked :: w.linked[y] == at[y].value;
  }

  lemma ClashIsClash(ix: O.Index, unique: bool, w: V.View, at: map<K.Node, T.Node>, v: int)
    requires Stated(ix, unique, w, at)
    ensures K.Clash(A.Kind(ix, unique), V.Values(w), v) <==> unique && ix.Clash(ix.key(v))
    ensures if unique then ix.StrictlySorted() else ix.Sorted()
  {
    var s := V.Values(w);
    RepresentsShows(ix, w, at);
    A.SortedFits(ix, s);
    forall i {:trigger K.At(s, i)} {:trigger ix.K(i)} | 0 <= i < |s|
      ensures K.Same(A.Kind(ix, true), v, K.At(s, i)) <==> !ix.lt(ix.K(i), ix.key(v)) && !ix.lt(ix.key(v), ix.K(i))
    {
      A.BeforeIsLess(ix, v, K.At(s, i));
    }
  }

  lemma AddedIsStep(ix: O.Index, unique: bool, w: V.View, at: map<K.Node, T.Node>, n: K.Node, x: T.Node, v: int, i: int,
      o: seq<T.Node>, hint: K.Node?)
    requires StrictWeakOrder(ix.lt) && ix.tree.Valid() && V.Good(A.Kind(ix, unique), w) && n !in w.linked
    requires K.GoesTo(A.Kind(ix, unique), V.Values(w), i, v, hint != null, V.Spot(w.order, hint))
    requires Stands(w, at, o) && 0 <= i <= |o| && ix.tree.order == PutIn(o, i, x) && x in ix.tree.nodes && x.value == v
    requires forall y <- w.linked :: y in at && at[y] in ix.tree.nodes && at[y].value == w.linked[y]
    requires if unique then ix.StrictlySorted() else ix.Sorted()
    ensures Stated(ix, unique, V.With(w, n, v, i), at[n := x])
    ensures Adds(A.Kind(ix, unique), w, V.With(w, n, v, i), n, v, hint)
  {
    var r := V.With(w, n, v, i);
    WithIsAdd(A.Kind(ix, unique), w, n, v, i, hint);
    NewStands(w, at, o, n, x);
    WithStands(w, at[n := x], o, n, x, v, i);
    RepresentsShows(ix, r, at[n := x]);
    A.SortedFits(ix, V.Values(r));
  }

  method InsertEither(ix: O.Index, unique: bool, hinted: bool, position: T.Node, x: T.Node, ghost lo: int,
      ghost hi: int)
      returns (ok: bool)
    requires StrictWeakOrder(ix.lt) && ix.tree.Valid() && (if unique then ix.StrictlySorted() else ix.Sorted())
    requires x !in ix.tree.nodes && x != ix.tree.header && position in ix.tree.nodes + {ix.tree.header}
    requires ix.LowerAt(ix.key(x.value), lo) && ix.UpperAt(ix.key(x.value), hi)
    modifies ix.tree, ix.tree.header, ix.tree.nodes, x
    ensures ix.tree.Valid() && (if unique then ix.StrictlySorted() else ix.Sorted())
    ensures ok <==> !(unique && old(ix.Clash(ix.key(x.value))))
    ensures x.value == old(x.value) && forall m <- old(ix.tree.nodes) :: m.value == old(m.value)
    ensures ok ==> ix.tree.nodes == old(ix.tree.nodes) + {x}
    ensures var i := if hinted && !unique then ix.Clamp(old(ix.Place(position)), lo, hi) else hi;
      ok ==> 0 <= i <= |old(ix.tree.order)| && ix.tree.order == PutIn(old(ix.tree.order), i, x)
    ensures !ok ==> ix.tree.nodes == old(ix.tree.nodes) && ix.tree.order == old(ix.tree.order)
  {
    ghost var k := ix.key(x.value);
    forall j | ix.UpperAt(k, j) ensures j == hi {
      ix.CutsAgree(a => ix.lt(k, a), j, hi);
    }
    ok := true;
    if unique {
      ghost var i;
      ok, i := ix.InsertUnique(x, position);
    } else if hinted {
      ix.InsertHinted(x, position, lo, hi);
    } else {
      ghost var i := ix.Insert(x);
    }
  }
}
