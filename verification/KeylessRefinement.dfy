/** Sequenced and random access indices do to their order what the cascade does to a view of it; they look at no
    value. */
module KeylessRefinement {

  import opened IndexStep
  import K = IndexKind
  import V = IndexView
  import C = Container
  import A = IndexAbstraction
  import Q = SequencedIndex
  import S = SeqIndexNode
  import R = RandomAccessIndex
  import N = RndIndexNode

  // Any view of the right nodes is one such an index may have, and a change of a value is no more than that.
  lemma KeylessIsGood(k: K.Kind, w: V.View)
    requires k.Sequenced? || k.RandomAccess?
    ensures V.Good(k, w) <==> V.WellFormed(w)
  {
    if V.WellFormed(w) { A.KeylessFits(k, V.Values(w), 0, 0); }
  }

  // Replacing and modifying leave the order alone; the view knows the new value.
  lemma KeylessMoves(k: K.Kind, w: V.View, n: K.Node, v: int)
    requires (k.Sequenced? || k.RandomAccess?) && V.WellFormed(w) && n in w.order
    ensures Moves(k, w, V.Relinked(w, n, v), n, v, false)
    ensures !V.Clashes(k, w, n, v) && C.StaysIn(k, w, n, v, false)
  {
    V.RelinkedIsWellFormed(w, n, v);
    V.InOrder(w.order, V.Find(w.order, n));
    KeylessIsGood(k, w);
    KeylessIsGood(k, V.Relinked(w, n, v));
    C.PlainStays(k, w, n, v);
    A.KeylessFits(k, V.Values(V.Relinked(w, n, v)), 0, v);
    StaysHere(k, w, n, v, false);
  }

  // A new node goes to the end, whatever the hint.
  lemma KeylessAdds(k: K.Kind, w: V.View, n: K.Node, v: int, hint: K.Node?)
    requires (k.Sequenced? || k.RandomAccess?) && V.WellFormed(w) && n !in w.linked
    ensures Adds(k, w, V.With(w, n, v, |w.order|), n, v, hint) && !K.Clash(k, V.Values(w), v)
    ensures V.WellFormed(V.With(w, n, v, |w.order|)) && n !in w.order
  {
    KeylessIsGood(k, w);
    WithIsAdd(k, w, n, v, |w.order|, hint);
    KeylessIsGood(k, V.With(w, n, v, |w.order|));
  }

  lemma KeylessDrops(k: K.Kind, w: V.View, n: K.Node)
    requires (k.Sequenced? || k.RandomAccess?) && V.WellFormed(w) && n in w.order
    ensures Drops(w, V.Without(w, n), n) && V.WellFormed(V.Without(w, n))
  {
    KeylessIsGood(k, w);
    WithoutIsDrop(k, w, n);
  }

  /* Sequenced indices */

  ghost predicate Sequence(ix: Q.Index, w: V.View, at: map<K.Node, S.Node>)
    reads ix, ix.nodes
  {
    ix.Valid() && V.WellFormed(w) && Stands(w, at, ix.list)
  }

  method InsertInSequence(ix: Q.Index, x: S.Node, ghost w: V.View, ghost at: map<K.Node, S.Node>, ghost n: K.Node,
      ghost v: int, ghost hint: K.Node?)
      returns (ghost r: V.View)
    requires Sequence(ix, w, at) && n !in w.linked && x !in ix.nodes
    modifies ix`nodes, ix`list, ix.nodes, x
    ensures Sequence(ix, r, at[n := x]) && Adds(K.Sequenced, w, r, n, v, hint)
  {
    ghost var o := ix.list;
    KeylessAdds(K.Sequenced, w, n, v, hint);
    NewStands(w, at, o, n, x);
    WithStands(w, at[n := x], o, n, x, v, |o|);
    ix.PushBack(x);
    assert PutIn(o, |o|, x) == o + [x];
    r := V.With(w, n, v, |w.order|);
  }

  method ExtractFromSequence(ix: Q.Index, x: S.Node, ghost w: V.View, ghost at: map<K.Node, S.Node>, ghost n: K.Node)
      returns (ghost r: V.View)
    requires Sequence(ix, w, at) && n in w.order && n in at && at[n] == x
    modifies ix`list, ix.nodes
    ensures Sequence(ix, r, at) && Drops(w, r, n)
  {
    ghost var o, i := ix.list, V.Find(w.order, n);
    KeylessDrops(K.Sequenced, w, n);
    WithoutStands(w, at, o, n);
    assert at[V.Nth(w.order, i)] == o[i];
    ix.Erase(x, i);
    assert ix.list == TakenOut(o, i);
    r := V.Without(w, n);
  }

  /* Random access indices */

  ghost predicate Vector(ix: R.Index, w: V.View, at: map<K.Node, N.Node>)
    reads ix, ix.ptrs, ix.ptrs[..]`up
  {
    ix.Valid() && V.WellFormed(w) && Stands(w, at, ix.Contents())
  }

  method InsertInVector(ix: R.Index, x: N.Node, ghost w: V.View, ghost at: map<K.Node, N.Node>, ghost n: K.Node,
      ghost v: int, ghost hint: K.Node?)
      returns (ghost r: V.View)
    requires Vector(ix, w, at) && n !in w.linked && x !in ix.All()
    modifies ix, ix.ptrs, ix.ptrs[..ix.size + 1]`up, x`up
    ensures Vector(ix, r, at[n := x]) && Adds(K.RandomAccess, w, r, n, v, hint)
  {
    ghost var o := ix.Contents();
    KeylessAdds(K.RandomAccess, w, n, v, hint);
    NewStands(w, at, o, n, x);
    WithStands(w, at[n := x], o, n, x, v, |o|);
    ix.Insert(x);
    assert ix.Contents() == PutIn(o, |o|, x);
    r := V.With(w, n, v, |w.order|);
  }

  method ExtractFromVector(ix: R.Index, x: N.Node, ghost w: V.View, ghost at: map<K.Node, N.Node>, ghost n: K.Node)
      returns (ghost r: V.View)
    requires Vector(ix, w, at) && n in w.order && n in at && at[n] == x
    modifies ix`size, ix.ptrs, ix.ptrs[..ix.size + 1]`up
    ensures Vector(ix, r, at) && Drops(w, r, n)
  {
    ghost var o, i := ix.Contents(), V.Find(w.order, n);
    KeylessDrops(K.RandomAccess, w, n);
    WithoutStands(w, at, o, n);
    assert at[V.Nth(w.order, i)] == o[i];
    ix.ContentsAreDistinct();
    ix.Erase(x);
    assert ix.Contents() == TakenOut(o, i);
    r := V.Without(w, n);
  }
}
