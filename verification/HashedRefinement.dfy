/** A hashed index on a chain does to its state what the cascade does to a view of it. */
module HashedRefinement {

  import opened Ordering
  import opened HashLayout
  import opened IndexStep
  import K = IndexKind
  import V = IndexView
  import C = Container
  import A = IndexAbstraction
  import H = HashedIndex
  import U = HashedUniqueIndex
  import S = HashUniqueNode
  import R = HashRehash
  import Z = HashResize
  import P = HashedIndexRehash
  import L = NodeList

  // The nodes of the chain but the header.
  ghost function Elements(s: Layout): (o: seq<Cell>)
    requires Sized(s)
    ensures |o| == Last(s) && forall i {:trigger L.At(o, i)} | 0 <= i < |o| :: L.At(o, i) == N(s, i)
  {
    s.nodes[..Last(s)]
  }

  // The chain has the order of w, and its nodes the values w has them placed by.
  ghost predicate Represents(ix: H.Index, w: V.View, at: map<K.Node, Cell>)
    reads ix.chain, ix.chain.s.nodes`value
  {
    && V.WellFormed(w) && Sized(ix.chain.s) && Stands(w, at, Elements(ix.chain.s))
    && (forall y {:trigger w.linked[y]} | y in w.linked ::
      y in at && at[y] in ix.chain.s.nodes && at[y].value == w.linked[y])
  }

  // An index, unique or not, whose state is w.
  ghost predicate Stated(ix: H.Index, unique: bool, w: V.View, at: map<K.Node, Cell>)
    reads ix.chain, ix.chain.s.nodes, ix.chain.buckets`prior
  {
    && ix.Valid() && (unique ==> S.Singles(ix.chain.s)) && V.Good(A.HashedKind(ix, unique), w)
    && Represents(ix, w, at)
  }

  // The place of node i is one for the key k.
  ghost predicate PlacedBy(ix: H.Index, unique: bool, i: int, k: int)
    requires |ix.buckets| > 1 && Shaped(ix.chain.s) && 0 <= i < Last(ix.chain.s)
    reads ix.chain, ix.chain.s.nodes`value
  {
    if unique then U.Stays(ix, i, k, ix.buckets[ix.Position(k)]) else ix.Stays(i, k, ix.buckets[ix.Position(k)])
  }

  // The place of n is one for the value of x.
  ghost predicate Placed(ix: H.Index, unique: bool, w: V.View, n: K.Node, x: Cell)
    requires |ix.buckets| > 1 && Shaped(ix.chain.s) && n in w.order && V.Find(w.order, n) < Last(ix.chain.s)
    reads ix.chain, ix.chain.s.nodes`value, x`value
  {
    PlacedBy(ix, unique, V.Find(w.order, n), ix.key(x.value))
  }

  // The same, but n has the value v by now.
  ghost predicate Changed(ix: H.Index, unique: bool, w: V.View, at: map<K.Node, Cell>, n: K.Node, v: int)
    reads ix.chain, ix.chain.s.nodes, ix.chain.buckets`prior
  {
    && ix.Wired() && (unique ==> S.Singles(ix.chain.s)) && V.Good(A.HashedKind(ix, unique), w)
    && n in w.order && n in w.linked && Represents(ix, V.Relinked(w, n, v), at)
    && ix.GroupedBut(V.Find(w.order, n)) && ix.HashedBut(V.Find(w.order, n))
    && PlacedBy(ix, unique, V.Find(w.order, n), ix.key(w.linked[n]))
  }

  lemma ElementsDistinct(s: Layout)
    requires Shaped(s)
    ensures L.Distinct(Elements(s))
  {
    forall i, j | 0 <= i < Last(s) && 0 <= j < Last(s) && i != j ensures L.Differ(Elements(s), i, j) {
      Apart(s, i, j);
      assert L.At(Elements(s), i) == N(s, i) && L.At(Elements(s), j) == N(s, j) && !Same(s, i, j);
    }
  }

  lemma RepresentsShows(ix: H.Index, w: V.View, at: map<K.Node, Cell>)
    requires Represents(ix, w, at)
    ensures A.ShowsHashed(ix, V.Values(w))
  {
    var s := V.Values(w);
    forall i {:trigger K.At(s, i)} {:trigger ix.Q(i)} | 0 <= i < |s|
      ensures K.At(s, i) == N(ix.chain.s, i).value && ix.key(K.At(s, i)) == ix.Q(i)
    {
      assert at[V.Nth(w.order, i)] == L.At(Elements(ix.chain.s), i) && V.Nth(w.order, i) in w.linked;
    }
  }

  // The others have not changed.
  lemma ChangedOthers(ix: H.Index, unique: bool, w: V.View, at: map<K.Node, Cell>, n: K.Node, v: int)
    requires Changed(ix, unique, w, at, n, v)
    ensures n in at && ix.chain.Inner(at[n], V.Find(w.order, n)) && at[n].value == v
    ensures Stands(w, at, Elements(ix.chain.s))
    ensures forall y <- w.linked | y != n ::
      y in at && at[y] in ix.chain.s.nodes && at[y] != at[n] && at[y].value == w.linked[y]
  {
    var u, p := V.Relinked(w, n, v), V.Find(w.order, n);
    assert u.linked[n] == at[n].value;
    assert at[V.Nth(w.order, p)] == L.At(Elements(ix.chain.s), p);
    ElementsDistinct(ix.chain.s);
    PlaceOf(u, at, Elements(ix.chain.s), n, p);
    forall y <- w.linked | y != n
      ensures y in at && at[y] in ix.chain.s.nodes && at[y] != at[n] && at[y].value == w.linked[y]
    {
      assert u.linked[y] == w.linked[y];
    }
  }

  // Any value with the old key is as good as the old one.
  lemma SameKeyPlaced(ix: H.Index, unique: bool, i: int, k: int, k': int)
    requires ix.Wired() && 0 <= i < Last(ix.chain.s) && ix.eq(k', k) && PlacedBy(ix, unique, i, k)
    ensures PlacedBy(ix, unique, i, k')
  {
    forall m {:trigger ix.Q(m)} | 0 <= m < Last(ix.chain.s) ensures ix.eq(k', ix.Q(m)) <==> ix.eq(k, ix.Q(m)) {
      ix.EqualTo(k', k, ix.Q(m));
    }
  }

  // What the chain tells of a node that has changed is what the cascade asks.
  lemma ChangedTells(ix: H.Index, unique: bool, w: V.View, at: map<K.Node, Cell>, n: K.Node, v: int, to: int)
    requires Changed(ix, unique, w, at, n, v)
    ensures V.Clashes(A.HashedKind(ix, unique), w, n, to) <==> unique && U.ClashBut(ix, V.Find(w.order, n), ix.key(to))
    ensures K.Same(A.HashedKind(ix, unique), to, w.linked[n]) ==>
      PlacedBy(ix, unique, V.Find(w.order, n), ix.key(to))
  {
    var u, i := V.Relinked(w, n, v), V.Find(w.order, n);
    V.RelinkedIsWellFormed(w, n, v);
    RepresentsShows(ix, u, at);
    A.HashedClashIs(ix, V.Values(u), i, to);
    V.WithoutIsWellFormed(w, n);
    V.WithoutValues(u, n);
    if ix.eq(ix.key(to), ix.key(w.linked[n])) { SameKeyPlaced(ix, unique, i, ix.key(w.linked[n]), ix.key(to)); }
  }

  // A valid index has its nodes placed by their keys.
  lemma ValidPlaced(ix: H.Index, unique: bool, i: int)
    requires ix.Valid() && (unique ==> S.Singles(ix.chain.s)) && 0 <= i < Last(ix.chain.s)
    ensures PlacedBy(ix, unique, i, ix.Q(i))
  {
    var s := ix.chain.s;
    assert ix.eq(ix.Q(i), ix.Q(i));
    if unique {
      U.UniqueIsUniqueBut(ix, i);
      U.StaysIsUnique(ix, i);
    } else {
      forall m {:trigger ix.Q(m)} | 0 <= m < Last(s) && m != i && ix.eq(ix.Q(i), ix.Q(m))
        ensures G(s, m) == G(s, i) && (!Large(G(s, i)) ==> i - 1 <= m <= i + 1)
      {
        Unfold(s, i);
        Unfold(s, m);
      }
    }
  }

  /* What the new state is */

  lemma MovedElements(ix: H.Index, x: Cell, j: int, s0: Layout, i: int)
    requires ix.chain.Valid() && Sized(s0) && 0 <= i < Last(s0) && ix.Moved(x, ix.chain.s, j, s0, i)
    requires x != ix.chain.end && N(s0, Last(s0)) == ix.chain.end
    ensures 0 <= j < Last(s0) && Elements(ix.chain.s) == PutIn(TakenOut(Elements(s0), i), j, x)
  {
    var t, u := ix.chain.s, ix.Without(s0, i);
    assert t.nodes[j] == x && t.nodes[|t.nodes| - 1] == ix.chain.end;
    assert u[|u| - 1] == ix.chain.end && u[..|u| - 1] == TakenOut(Elements(s0), i);
    assert t.nodes[..|t.nodes| - 1] == u[..j] + [x] + u[j..|u| - 1];
  }

  // n is where it was, or leads a group if it is displaced and has another key.
  ghost predicate Settles(ix: H.Index, unique: bool, w: V.View, n: K.Node, v: int, j: int, displaced: bool)
    requires Sized(ix.chain.s) && n in w.order && n in w.linked
    reads ix.chain
  {
    if K.Same(A.HashedKind(ix, unique), v, w.linked[n]) || !displaced then j == V.Find(w.order, n) else ix.Leads(j)
  }

  // x, standing for n, has come to place j; the others are where they were among themselves.
  lemma MovedIsStep(ix: H.Index, unique: bool, w: V.View, at: map<K.Node, Cell>, n: K.Node, v: int, j: int,
      o: seq<Cell>, displaced: bool)
    requires ix.Valid() && (unique ==> S.Singles(ix.chain.s)) && V.Good(A.HashedKind(ix, unique), w)
    requires n in w.order && n in w.linked && n in at && Stands(w, at, o)
    requires at[n] in ix.chain.s.nodes && at[n].value == v
    requires forall y <- w.linked | y != n :: y in at && at[y] in ix.chain.s.nodes && at[y].value == w.linked[y]
    requires 0 <= j < |o| && Elements(ix.chain.s) == PutIn(TakenOut(o, V.Find(w.order, n)), j, at[n])
    requires Settles(ix, unique, w, n, v, j, displaced)
    ensures var r := MovedTo(w, n, v, j);
      Stated(ix, unique, r, at) && Moves(A.HashedKind(ix, unique), w, r, n, v, displaced)
  {
    var p, u, r := V.Find(w.order, n), V.Without(w, n), MovedTo(w, n, v, j);
    V.WithoutIsWellFormed(w, n);
    V.WithIsWellFormed(u, n, v, j);
    WithoutStands(w, at, o, n);
    WithStands(u, at, TakenOut(o, p), n, at[n], v, j);
    RepresentsShows(ix, r, at);
    A.GroupedFits(ix, V.Values(r));
    V.RelinkedIsWellFormed(w, n, v);
    MovedToIsMove(A.HashedKind(ix, unique), w, n, v, j, displaced);
    if ix.Leads(j) {
      A.LeadsGoes(ix, unique, V.Values(r), j);
      MovedValues(w, n, v, j);
    }
  }

  lemma MovedChain(ix: H.Index, unique: bool, w: V.View, at: map<K.Node, Cell>, n: K.Node, v: int, j: int, s0: Layout,
      displaced: bool)
    requires ix.Valid() && (unique ==> S.Singles(ix.chain.s)) && V.Good(A.HashedKind(ix, unique), w)
    requires n in w.order && n in w.linked && n in at && at[n] != ix.chain.end && at[n].value == v
    requires Sized(s0) && N(s0, Last(s0)) == ix.chain.end && Stands(w, at, Elements(s0))
    requires ix.Moved(at[n], ix.chain.s, j, s0, V.Find(w.order, n))
    requires forall y <- w.linked | y != n ::
      y in at && at[y] in s0.nodes && at[y] != at[n] && at[y].value == w.linked[y]
    requires Settles(ix, unique, w, n, v, j, displaced)
    ensures 0 <= j < |w.order| && Stated(ix, unique, MovedTo(w, n, v, j), at)
    ensures Moves(A.HashedKind(ix, unique), w, MovedTo(w, n, v, j), n, v, displaced)
  {
    var x, i := at[n], V.Find(w.order, n);
    MovedElements(ix, x, j, s0, i);
    MovedHolds(ix, x, ix.chain.s, j, s0, i);
    MovedIsStep(ix, unique, w, at, n, v, j, Elements(s0), displaced);
  }

  lemma MovedHolds(ix: H.Index, x: Cell, t: Layout, j: int, s0: Layout, i: int)
    requires Sized(s0) && 0 <= i < Last(s0) && N(s0, i) == x && ix.Moved(x, t, j, s0, i)
    ensures forall c <- s0.nodes :: c in t.nodes
  {
    var u := ix.Without(s0, i);
    assert t.nodes[j] == x;
    forall c <- s0.nodes | c != x ensures c in t.nodes {
      var k :| 0 <= k < |s0.nodes| && s0.nodes[k] == c;
      var m := if k < i then k else k - 1;
      assert u[m] == c && t.nodes[if m < j then m else m + 1] == c;
    }
  }

  lemma DroppedIsStep(ix: H.Index, unique: bool, w: V.View, at: map<K.Node, Cell>, n: K.Node, o: seq<Cell>)
    requires ix.Valid() && (unique ==> S.Singles(ix.chain.s)) && V.Good(A.HashedKind(ix, unique), w)
    requires n in w.order && Stands(w, at, o) && Elements(ix.chain.s) == TakenOut(o, V.Find(w.order, n))
    requires forall y <- w.linked | y != n :: y in at && at[y] in ix.chain.s.nodes && at[y].value == w.linked[y]
    ensures Stated(ix, unique, V.Without(w, n), at) && Drops(w, V.Without(w, n), n)
  {
    WithoutIsDrop(A.HashedKind(ix, unique), w, n);
    V.WithoutIsWellFormed(w, n);
    WithoutStands(w, at, o, n);
  }

  /* replace_ */

  // The overload for the kind of index.
  method ReplaceEither(ix: H.Index, unique: bool, x: Cell, v: int, accept: bool, ghost i: int)
      returns (ok: bool, ghost j: int)
    requires ix.Valid() && (unique ==> S.Singles(ix.chain.s)) && ix.chain.Inner(x, i)
    modifies ix.chain`s, x`value, x`prior, x`next, ix.chain.s.nodes`prior, ix.chain.s.nodes`next, ix.chain.buckets`prior
    ensures ix.Valid() && (unique ==> S.Singles(ix.chain.s))
    ensures ok <==> accept && !(unique && old(U.ClashBut(ix, i, ix.key(v))))
    ensures ok ==> x.value == v && ix.Moved(x, ix.chain.s, j, old(ix.chain.s), i)
    ensures ok ==> if old(ix.eq(ix.key(v), ix.key(x.value))) then j == i else ix.Leads(j)
    ensures !ok ==> x.value == old(x.value) && ix.chain.s == old(ix.chain.s)
  {
    if unique {
      ok, j := U.Replace(ix, x, v, accept, i);
    } else {
      j := ix.Replace(x, v, accept, i);
      ok := accept;
    }
  }

  // x, standing for n, gets the value v in the chain as n does in the view, or both stay as they are.
  method Replace(ix: H.Index, unique: bool, x: Cell, v: int, accept: bool, ghost w: V.View, ghost at: map<K.Node, Cell>,
      ghost n: K.Node)
      returns (ok: bool, ghost r: V.View)
    requires Stated(ix, unique, w, at) && n in w.order && n in at && at[n] == x
    modifies ix.chain`s, x`value, x`prior, x`next, ix.chain.s.nodes`prior, ix.chain.s.nodes`next, ix.chain.buckets`prior
    ensures Stated(ix, unique, r, at)
    ensures ok <==> accept && !V.Clashes(A.HashedKind(ix, unique), w, n, v)
    ensures ok ==> Moves(A.HashedKind(ix, unique), w, r, n, v, true)
    ensures !ok ==> r == w
  {
    ghost var s0, i := ix.chain.s, V.Find(w.order, n);
    StatedTells(ix, unique, w, at, n, v);
    ghost var j;
    ok, j := ReplaceEither(ix, unique, x, v, accept, i);
    r := w;
    if ok {
      MovedChain(ix, unique, w, at, n, v, j, s0, true);
      r := MovedTo(w, n, v, j);
    }
  }

  lemma StatedTells(ix: H.Index, unique: bool, w: V.View, at: map<K.Node, Cell>, n: K.Node, to: int)
    requires Stated(ix, unique, w, at) && n in w.order
    ensures n in w.linked && n in at && ix.chain.Inner(at[n], V.Find(w.order, n)) && at[n].value == w.linked[n]
    ensures at[n] != ix.chain.end
    ensures forall y <- w.linked | y != n ::
      y in at && at[y] in ix.chain.s.nodes && at[y] != at[n] && at[y].value == w.linked[y]
    ensures V.Clashes(A.HashedKind(ix, unique), w, n, to) <==> unique && U.ClashBut(ix, V.Find(w.order, n), ix.key(to))
  {
    StatedIsChanged(ix, unique, w, at, n);
    ChangedOthers(ix, unique, w, at, n, w.linked[n]);
    ChangedTells(ix, unique, w, at, n, w.linked[n], to);
    assert Same(ix.chain.s, V.Find(w.order, n), Last(ix.chain.s)) <==> false;
  }

  // A valid index is one where n has the value it was placed by.
  lemma StatedIsChanged(ix: H.Index, unique: bool, w: V.View, at: map<K.Node, Cell>, n: K.Node)
    requires Stated(ix, unique, w, at) && n in w.order
    ensures n in w.linked && V.Relinked(w, n, w.linked[n]) == w && Changed(ix, unique, w, at, n, w.linked[n])
    ensures n in at && at[n].value == w.linked[n]
  {
    var i := V.Find(w.order, n);
    V.InOrder(w.order, i);
    assert at[V.Nth(w.order, i)] == L.At(Elements(ix.chain.s), i) && w.linked[n] == at[n].value;
    ValidPlaced(ix, unique, i);
  }

  /* modify_, modify_rollback_ and check_rollback_ */

  // The modifier: the index knows nothing of the change of a value.
  method Change(ix: H.Index, unique: bool, x: Cell, to: int, ghost w: V.View, ghost at: map<K.Node, Cell>,
      ghost n: K.Node)
    requires Changed(ix, unique, w, at, n, x.value) && n in at && at[n] == x
    modifies x`value
    ensures Changed(ix, unique, w, at, n, to) && x.value == to
  {
    ChangedOthers(ix, unique, w, at, n, x.value);
    Assign(ix, unique, x, to, V.Find(w.order, n), ix.key(w.linked[n]));
    V.RelinkedIsWellFormed(w, n, to);
  }

  method Assign(ix: H.Index, unique: bool, x: Cell, to: int, ghost i: int, ghost k: int)
    requires ix.Wired() && ix.chain.Inner(x, i) && ix.GroupedBut(i) && ix.HashedBut(i) && PlacedBy(ix, unique, i, k)
    modifies x`value
    ensures ix.Wired() && ix.GroupedBut(i) && ix.HashedBut(i) && PlacedBy(ix, unique, i, k) && x.value == to
  {
    ghost var s := ix.chain.s;
    x.value := to;
    forall m {:trigger ix.Q(m)} | 0 <= m < Last(s) && m != i ensures ix.Q(m) == old(ix.Q(m)) {
      assert Same(s, m, i) == (m == i);
    }
  }

  method ModifyEither(ix: H.Index, unique: bool, x: Cell, accept: bool, ghost i: int) returns (ok: bool, ghost j: int)
    requires ix.Wired() && ix.GroupedBut(i) && ix.HashedBut(i) && ix.chain.Inner(x, i)
    requires unique ==> S.Singles(ix.chain.s)
    modifies ix.chain`s, x`value, x`prior, x`next, ix.chain.s.nodes`prior, ix.chain.s.nodes`next, ix.chain.buckets`prior
    ensures ix.Valid() && (unique ==> S.Singles(ix.chain.s)) && x.value == old(x.value)
    ensures ok <==> accept && !(unique && old(U.ClashBut(ix, i, ix.key(x.value))))
    ensures ok ==> ix.Moved(x, ix.chain.s, j, old(ix.chain.s), i)
    ensures ok ==> if old(PlacedBy(ix, unique, i, ix.key(x.value))) then j == i else ix.Leads(j)
    ensures !ok ==> ix.chain.s.nodes == ix.Without(old(ix.chain.s), i)
  {
    if unique {
      U.StaysIsUnique(ix, i);
      ok, j := U.Modify(ix, x, accept, i);
    } else {
      j := ix.Modify(x, accept, i);
      ok := accept;
    }
  }

  // What there is to know of a node that has changed.
  lemma ReadyToPlace(ix: H.Index, unique: bool, w: V.View, at: map<K.Node, Cell>, n: K.Node, v: int)
    requires Changed(ix, unique, w, at, n, v)
    ensures n in at && ix.chain.Inner(at[n], V.Find(w.order, n)) && at[n].value == v && at[n] != ix.chain.end
    ensures Stands(w, at, Elements(ix.chain.s))
    ensures forall y <- w.linked | y != n ::
      y in at && at[y] in ix.chain.s.nodes && at[y] != at[n] && at[y].value == w.linked[y]
    ensures V.Clashes(A.HashedKind(ix, unique), w, n, v) <==> unique && U.ClashBut(ix, V.Find(w.order, n), ix.key(v))
    ensures K.Same(A.HashedKind(ix, unique), v, w.linked[n]) ==>
      PlacedBy(ix, unique, V.Find(w.order, n), ix.key(v))
  {
    ChangedOthers(ix, unique, w, at, n, v);
    ChangedTells(ix, unique, w, at, n, v, v);
    assert Same(ix.chain.s, V.Find(w.order, n), Last(ix.chain.s)) <==> false;
  }

  lemma DroppedChain(ix: H.Index, unique: bool, w: V.View, at: map<K.Node, Cell>, n: K.Node, s0: Layout)
    requires ix.Valid() && (unique ==> S.Singles(ix.chain.s)) && V.Good(A.HashedKind(ix, unique), w) && n in w.order
    requires n in at && Sized(s0) && N(s0, Last(s0)) == ix.chain.end && Stands(w, at, Elements(s0))
    requires ix.chain.s.nodes == ix.Without(s0, V.Find(w.order, n)) && N(s0, V.Find(w.order, n)) == at[n]
    requires forall y <- w.linked | y != n ::
      y in at && at[y] in s0.nodes && at[y] != at[n] && at[y].value == w.linked[y]
    ensures Stated(ix, unique, V.Without(w, n), at) && Drops(w, V.Without(w, n), n)
  {
    DroppedElements(ix, at[n], ix.chain.s, s0, V.Find(w.order, n));
    DroppedIsStep(ix, unique, w, at, n, Elements(s0));
  }

  lemma DroppedElements(ix: H.Index, x: Cell, t: Layout, s0: Layout, i: int)
    requires Sized(t) && Sized(s0) && 0 <= i < Last(s0) && N(s0, i) == x && t.nodes == ix.Without(s0, i)
    ensures Elements(t) == TakenOut(Elements(s0), i) && forall c <- s0.nodes | c != x :: c in t.nodes
  {
    forall c <- s0.nodes | c != x ensures c in t.nodes {
      var k :| 0 <= k < |s0.nodes| && s0.nodes[k] == c;
      assert t.nodes[if k < i then k else k - 1] == c;
    }
  }

  // What that means for the view.
  method ModifyChanged(ix: H.Index, unique: bool, x: Cell, accept: bool, ghost w: V.View, ghost at: map<K.Node, Cell>,
      ghost n: K.Node)
      returns (ok: bool, ghost j: int)
    requires Changed(ix, unique, w, at, n, x.value) && n in at && at[n] == x
    modifies ix.chain`s, x`value, x`prior, x`next, ix.chain.s.nodes`prior, ix.chain.s.nodes`next, ix.chain.buckets`prior
    ensures ix.Valid() && (unique ==> S.Singles(ix.chain.s)) && x.value == old(x.value)
    ensures ok <==> accept && !V.Clashes(A.HashedKind(ix, unique), w, n, x.value)
    ensures ok ==> ix.Moved(x, ix.chain.s, j, old(ix.chain.s), V.Find(w.order, n))
    ensures ok ==> Settles(ix, unique, w, n, x.value, j, !old(Placed(ix, unique, w, n, x)))
    ensures !ok ==> ix.chain.s.nodes == ix.Without(old(ix.chain.s), V.Find(w.order, n))
  {
    ReadyToPlace(ix, unique, w, at, n, x.value);
    ok, j := ModifyEither(ix, unique, x, accept, V.Find(w.order, n));
  }

  // x, whose value was changed, is placed by it, or taken out.
  method Modify(ix: H.Index, unique: bool, x: Cell, accept: bool, ghost w: V.View, ghost at: map<K.Node, Cell>,
      ghost n: K.Node)
      returns (ok: bool, ghost r: V.View)
    requires Changed(ix, unique, w, at, n, x.value) && n in at && at[n] == x
    modifies ix.chain`s, x`value, x`prior, x`next, ix.chain.s.nodes`prior, ix.chain.s.nodes`next, ix.chain.buckets`prior
    ensures Stated(ix, unique, r, at) && x.value == old(x.value)
    ensures ok <==> accept && !V.Clashes(A.HashedKind(ix, unique), w, n, x.value)
    ensures ok ==> Moves(A.HashedKind(ix, unique), w, r, n, x.value, !old(Placed(ix, unique, w, n, x)))
    ensures !ok ==> Drops(w, r, n)
  {
    ghost var s0, displaced := ix.chain.s, !Placed(ix, unique, w, n, x);
    ChangedApart(ix, unique, w, at, n, x.value);
    ghost var j;
    ok, j := ModifyChanged(ix, unique, x, accept, w, at, n);
    if ok {
      MovedChain(ix, unique, w, at, n, x.value, j, s0, displaced);
      r := MovedTo(w, n, x.value, j);
    } else {
      DroppedChain(ix, unique, w, at, n, s0);
      r := V.Without(w, n);
    }
  }

  method RollbackEither(ix: H.Index, unique: bool, x: Cell, accept: bool, ghost i: int, ghost k: int)
      returns (ok: bool, ghost j: int)
    requires ix.Wired() && ix.GroupedBut(i) && ix.HashedBut(i) && ix.chain.Inner(x, i)
    requires (unique ==> S.Singles(ix.chain.s)) && PlacedBy(ix, unique, i, k)
    modifies ix.chain`s, x`value, x`prior, x`next, ix.chain.s.nodes`prior, ix.chain.s.nodes`next, ix.chain.buckets`prior
    ensures x.value == old(x.value) && (ok <==> accept && !(unique && old(U.ClashBut(ix, i, ix.key(x.value)))))
    ensures ok ==> ix.Valid() && (unique ==> S.Singles(ix.chain.s)) && ix.Moved(x, ix.chain.s, j, old(ix.chain.s), i)
    ensures ok ==> if old(PlacedBy(ix, unique, i, ix.key(x.value))) then j == i else ix.Leads(j)
    ensures !ok ==> ix.Wired() && ix.chain.s == old(ix.chain.s)
    ensures !ok ==> ix.GroupedBut(i) && ix.HashedBut(i) && PlacedBy(ix, unique, i, k)
  {
    ok, j := RollbackAny(ix, unique, x, accept, i);
    assert !ok ==> forall m {:trigger ix.Q(m)} | 0 <= m < Last(ix.chain.s) :: ix.Q(m) == old(ix.Q(m));
  }

  method RollbackAny(ix: H.Index, unique: bool, x: Cell, accept: bool, ghost i: int) returns (ok: bool, ghost j: int)
    requires ix.Wired() && ix.GroupedBut(i) && ix.HashedBut(i) && ix.chain.Inner(x, i)
    requires unique ==> S.Singles(ix.chain.s)
    modifies ix.chain`s, x`value, x`prior, x`next, ix.chain.s.nodes`prior, ix.chain.s.nodes`next, ix.chain.buckets`prior
    ensures x.value == old(x.value) && (ok <==> accept && !(unique && old(U.ClashBut(ix, i, ix.key(x.value)))))
    ensures ok ==> ix.Valid() && (unique ==> S.Singles(ix.chain.s)) && ix.Moved(x, ix.chain.s, j, old(ix.chain.s), i)
    ensures ok ==> if old(PlacedBy(ix, unique, i, ix.key(x.value))) then j == i else ix.Leads(j)
    ensures !ok ==> ix.Wired() && ix.chain.s == old(ix.chain.s)
  {
    if unique {
      U.StaysIsUnique(ix, i);
      ok, j := U.ModifyRollback(ix, x, accept, i);
    } else {
      j := ix.ModifyRollback(x, accept, i);
      ok := accept;
    }
  }

  // What that means for the view.
  method RollbackChanged(ix: H.Index, unique: bool, x: Cell, accept: bool, ghost w: V.View, ghost at: map<K.Node, Cell>,
      ghost n: K.Node)
      returns (ok: bool, ghost j: int)
    requires Changed(ix, unique, w, at, n, x.value) && n in at && at[n] == x
    modifies ix.chain`s, x`value, x`prior, x`next, ix.chain.s.nodes`prior, ix.chain.s.nodes`next, ix.chain.buckets`prior
    ensures x.value == old(x.value) && (ok <==> accept && !V.Clashes(A.HashedKind(ix, unique), w, n, x.value))
    ensures ok ==> ix.Valid() && (unique ==> S.Singles(ix.chain.s))
    ensures ok ==> ix.Moved(x, ix.chain.s, j, old(ix.chain.s), V.Find(w.order, n))
    ensures ok ==> Settles(ix, unique, w, n, x.value, j, !old(Placed(ix, unique, w, n, x)))
    ensures !ok ==> Changed(ix, unique, w, at, n, x.value)
  {
    ReadyToPlace(ix, unique, w, at, n, x.value);
    ok, j := RollbackEither(ix, unique, x, accept, V.Find(w.order, n), ix.key(w.linked[n]));
  }

  // x, whose value was changed, is placed by it, or left where it is.
  method ModifyRollback(ix: H.Index, unique: bool, x: Cell, accept: bool, ghost w: V.View, ghost at: map<K.Node, Cell>,
      ghost n: K.Node)
      returns (ok: bool, ghost r: V.View)
    requires Changed(ix, unique, w, at, n, x.value) && n in at && at[n] == x
    modifies ix.chain`s, x`value, x`prior, x`next, ix.chain.s.nodes`prior, ix.chain.s.nodes`next, ix.chain.buckets`prior
    ensures x.value == old(x.value) && (ok <==> accept && !V.Clashes(A.HashedKind(ix, unique), w, n, x.value))
    ensures ok ==> Stated(ix, unique, r, at)
    ensures ok ==> Moves(A.HashedKind(ix, unique), w, r, n, x.value, !old(Placed(ix, unique, w, n, x)))
    ensures !ok ==> r == w && Changed(ix, unique, w, at, n, x.value)
  {
    ghost var s0, displaced := ix.chain.s, !Placed(ix, unique, w, n, x);
    ChangedApart(ix, unique, w, at, n, x.value);
    ghost var j;
    ok, j := RollbackChanged(ix, unique, x, accept, w, at, n);
    if !ok {
      return ok, w;
    }
    MovedChain(ix, unique, w, at, n, x.value, j, s0, displaced);
    r := MovedTo(w, n, x.value, j);
  }

  lemma ChangedApart(ix: H.Index, unique: bool, w: V.View, at: map<K.Node, Cell>, n: K.Node, v: int)
    requires Changed(ix, unique, w, at, n, v)
    ensures n in at && at[n] in ix.chain.s.nodes && at[n] != ix.chain.end && Stands(w, at, Elements(ix.chain.s))
    ensures forall y <- w.linked | y != n ::
      y in at && at[y] in ix.chain.s.nodes && at[y] != at[n] && at[y].value == w.linked[y]
  {
    ReadyToPlace(ix, unique, w, at, n, v);
  }

  // Whether x may stay; then that is its place.
  method CheckRollback(ix: H.Index, unique: bool, x: Cell, ghost w: V.View, ghost at: map<K.Node, Cell>,
      ghost n: K.Node)
      returns (b: bool)
    requires Changed(ix, unique, w, at, n, x.value) && n in at && at[n] == x
    modifies ix.chain`s
    ensures b <==> old(Placed(ix, unique, w, n, x))
    ensures b ==> Stated(ix, unique, V.Relinked(w, n, x.value), at)
    ensures b == C.StaysIn(A.HashedKind(ix, unique), w, n, x.value, !b)
    ensures !b ==> Changed(ix, unique, w, at, n, x.value)
  {
    V.RelinkedIsWellFormed(w, n, x.value);
    ghost var s0, i := ix.chain.s, V.Find(w.order, n);
    ReadyToPlace(ix, unique, w, at, n, x.value);
    b := StaysEither(ix, unique, x, i);
    if b {
      SettleView(ix, unique, w, at, n, x.value, s0);
    }
  }

  method StaysEither(ix: H.Index, unique: bool, x: Cell, ghost i: int) returns (b: bool)
    requires ix.Wired() && ix.GroupedBut(i) && ix.HashedBut(i) && ix.chain.Inner(x, i)
    requires unique ==> S.Singles(ix.chain.s)
    modifies ix.chain`s
    ensures b <==> old(PlacedBy(ix, unique, i, ix.key(x.value)))
    ensures b ==> ix.Valid() && (unique ==> S.Singles(ix.chain.s)) && ix.chain.s.nodes == old(ix.chain.s).nodes
    ensures !b ==> ix.chain.s == old(ix.chain.s)
  {
    if unique {
      b := U.KeepsPlace(ix, x, i);
      U.StaysIsUnique(ix, i);
    } else {
      b := StaysInGroup(ix, x, i);
    }
  }

  method StaysInGroup(ix: H.Index, x: Cell, ghost i: int) returns (b: bool)
    requires ix.Wired() && ix.GroupedBut(i) && ix.HashedBut(i) && ix.chain.Inner(x, i)
    modifies ix.chain`s
    ensures b <==> old(PlacedBy(ix, false, i, ix.key(x.value)))
    ensures b ==> ix.Valid() && ix.chain.s.nodes == old(ix.chain.s).nodes
    ensures !b ==> ix.chain.s == old(ix.chain.s)
  {
    ghost var s0 := ix.chain.s;
    b := ix.KeepsPlace(x, i);
    if b {
      ix.KeepPlace(x, i);
      assert s0.nodes[..i] + [x] + s0.nodes[i + 1..] == s0.nodes;
    }
  }

  lemma SettleView(ix: H.Index, unique: bool, w: V.View, at: map<K.Node, Cell>, n: K.Node, v: int, s0: Layout)
    requires ix.Valid() && (unique ==> S.Singles(ix.chain.s)) && V.Good(A.HashedKind(ix, unique), w) && n in w.order
    requires Sized(s0) && ix.chain.s.nodes == s0.nodes && n in at && Stands(w, at, Elements(s0))
    requires n in w.linked && at[n] in s0.nodes && at[n].value == v
    requires forall y <- w.linked | y != n :: y in at && at[y] in s0.nodes && at[y].value == w.linked[y]
    ensures Stated(ix, unique, V.Relinked(w, n, v), at)
  {
    var u := V.Relinked(w, n, v);
    V.RelinkedIsWellFormed(w, n, v);
    assert Elements(ix.chain.s) == Elements(s0) && Stands(u, at, Elements(s0));
    RepresentsShows(ix, u, at);
    A.GroupedFits(ix, V.Values(u));
  }

  /* extract_ and insert_ */

  // x, whatever its value, leaves.
  method Extract(ix: H.Index, unique: bool, x: Cell, ghost w: V.View, ghost at: map<K.Node, Cell>, ghost n: K.Node)
      returns (ghost r: V.View)
    requires Changed(ix, unique, w, at, n, x.value) && n in at && at[n] == x
    modifies ix.chain`s, ix.chain.s.nodes`prior, ix.chain.s.nodes`next, ix.chain.buckets`prior
    ensures Stated(ix, unique, r, at) && Drops(w, r, n)
  {
    ghost var s0, i := ix.chain.s, V.Find(w.order, n);
    ReadyToPlace(ix, unique, w, at, n, x.value);
    ExtractEither(ix, unique, x, i);
    DroppedChain(ix, unique, w, at, n, s0);
    r := V.Without(w, n);
  }

  method ExtractEither(ix: H.Index, unique: bool, x: Cell, ghost i: int)
    requires ix.Wired() && ix.GroupedBut(i) && ix.HashedBut(i) && ix.chain.Inner(x, i)
    requires unique ==> S.Singles(ix.chain.s)
    modifies ix.chain`s, ix.chain.s.nodes`prior, ix.chain.s.nodes`next, ix.chain.buckets`prior
    ensures ix.Valid() && (unique ==> S.Singles(ix.chain.s)) && ix.chain.s.nodes == ix.Without(old(ix.chain.s), i)
  {
    if unique {
      var _ := U.Erase(ix, x, i);
    } else {
      var _ := ix.Erase(x, i);
    }
  }

  // x, standing for n, is added, unless another element of a unique index has its key; a hint means nothing.
  method Insert(ix: H.Index, unique: bool, x: Cell, ghost w: V.View, ghost at: map<K.Node, Cell>, ghost n: K.Node,
      ghost hint: K.Node?)
      returns (ok: bool, ghost r: V.View)
    requires Stated(ix, unique, w, at) && n !in w.linked && x !in ix.chain.s.nodes && x !in ix.chain.buckets
    modifies ix.chain`s, x`prior, x`next, ix.chain.s.nodes`prior, ix.chain.s.nodes`next, ix.chain.buckets`prior
    ensures ok <==> !K.Clash(A.HashedKind(ix, unique), V.Values(w), x.value)
    ensures ok ==> Stated(ix, unique, r, at[n := x]) && Adds(A.HashedKind(ix, unique), w, r, n, x.value, hint)
    ensures !ok ==> r == w && Stated(ix, unique, w, at)
  {
    ghost var s0 := ix.chain.s;
    NodesKnown(ix, w, at);
    ClashIsEqual(ix, unique, w, at, x.value);
    PlacesFor(ix, unique, w, at, x.value, hint);
    ghost var i;
    ok, i := InsertEither(ix, unique, x);
    r := w;
    if ok {
      AddedChain(ix, unique, w, at, n, x, i, s0, hint);
      r := V.With(w, n, x.value, i);
    }
  }

  lemma NodesKnown(ix: H.Index, w: V.View, at: map<K.Node, Cell>)
    requires Represents(ix, w, at)
    ensures forall y <- w.linked :: y in at && at[y] in ix.chain.s.nodes && at[y].value == w.linked[y]
  {
    assert forall y <- w.linked :: w.linked[y] == at[y].value;
  }

  lemma ClashIsEqual(ix: H.Index, unique: bool, w: V.View, at: map<K.Node, Cell>, v: int)
    requires Stated(ix, unique, w, at)
    ensures K.Clash(A.HashedKind(ix, unique), V.Values(w), v) <==>
      unique && !ix.NoneEqual(ix.key(v), 0, Last(ix.chain.s))
  {
    var s := V.Values(w);
    RepresentsShows(ix, w, at);
    forall i {:trigger K.At(s, i)} {:trigger ix.Q(i)} | 0 <= i < |s|
      ensures K.Same(A.HashedKind(ix, true), v, K.At(s, i)) <==> ix.eq(ix.key(v), ix.Q(i))
    {
      assert ix.key(K.At(s, i)) == ix.Q(i);
    }
  }

  lemma PlacesFor(ix: H.Index, unique: bool, w: V.View, at: map<K.Node, Cell>, v: int, hint: K.Node?)
    requires Stated(ix, unique, w, at)
    ensures forall i | 0 <= i <= Last(ix.chain.s) && ix.NoneEqual(ix.key(v), 0, i) ::
      K.GoesTo(A.HashedKind(ix, unique), V.Values(w), i, v, hint != null, V.Spot(w.order, hint))
  {
    RepresentsShows(ix, w, at);
    forall i | 0 <= i <= Last(ix.chain.s) && ix.NoneEqual(ix.key(v), 0, i)
      ensures K.GoesTo(A.HashedKind(ix, unique), V.Values(w), i, v, hint != null, V.Spot(w.order, hint))
    {
      A.NoneEqualGoes(ix, unique, V.Values(w), v, i, hint != null, V.Spot(w.order, hint));
    }
  }

  method InsertEither(ix: H.Index, unique: bool, x: Cell) returns (ok: bool, ghost i: int)
    requires ix.Valid() && (unique ==> S.Singles(ix.chain.s)) && x !in ix.chain.s.nodes && x !in ix.chain.buckets
    modifies ix.chain`s, x`prior, x`next, ix.chain.s.nodes`prior, ix.chain.s.nodes`next, ix.chain.buckets`prior
    ensures ix.Valid() && (unique ==> S.Singles(ix.chain.s))
    ensures ok <==> !(unique && old(!ix.NoneEqual(ix.key(x.value), 0, Last(ix.chain.s))))
    ensures ok ==> 0 <= i < |old(ix.chain.s).nodes| && ix.chain.s.nodes == PutIn(old(ix.chain.s).nodes, i, x)
    ensures ok ==> old(ix.NoneEqual(ix.key(x.value), 0, i))
    ensures !ok ==> ix.chain.s == old(ix.chain.s)
  {
    if unique {
      var pos;
      ok, pos, i := U.Insert(ix, x);
    } else {
      ok := true;
      i := ix.Insert(x);
    }
  }

  lemma AddedChain(ix: H.Index, unique: bool, w: V.View, at: map<K.Node, Cell>, n: K.Node, x: Cell, i: int, s0: Layout,
      hint: K.Node?)
    requires ix.Valid() && (unique ==> S.Singles(ix.chain.s)) && V.Good(A.HashedKind(ix, unique), w)
    requires K.GoesTo(A.HashedKind(ix, unique), V.Values(w), i, x.value, hint != null, V.Spot(w.order, hint))
    requires n !in w.linked && Sized(s0) && Stands(w, at, Elements(s0))
    requires 0 <= i < |s0.nodes| && ix.chain.s.nodes == PutIn(s0.nodes, i, x)
    requires forall y <- w.linked :: y in at && at[y] in s0.nodes && at[y].value == w.linked[y]
    ensures 0 <= i <= |w.order| && Stated(ix, unique, V.With(w, n, x.value, i), at[n := x])
    ensures Adds(A.HashedKind(ix, unique), w, V.With(w, n, x.value, i), n, x.value, hint)
  {
    var o, r := Elements(s0), V.With(w, n, x.value, i);
    AddedElements(ix.chain.s, s0, x, i);
    WithIsAdd(A.HashedKind(ix, unique), w, n, x.value, i, hint);
    NewStands(w, at, o, n, x);
    WithStands(w, at[n := x], o, n, x, x.value, i);
    RepresentsShows(ix, r, at[n := x]);
    A.GroupedFits(ix, V.Values(r));
  }

  lemma AddedElements(t: Layout, s0: Layout, x: Cell, i: int)
    requires Sized(t) && Sized(s0) && 0 <= i < |s0.nodes| && t.nodes == PutIn(s0.nodes, i, x)
    ensures Elements(t) == PutIn(Elements(s0), i, x) && x in t.nodes && forall c <- s0.nodes :: c in t.nodes
  {
    assert t.nodes[i] == x;
    forall c <- s0.nodes ensures c in t.nodes {
      var k :| 0 <= k < |s0.nodes| && s0.nodes[k] == c;
      assert t.nodes[if k < i then k else k + 1] == c;
    }
  }

  /* Rehashing */

  // The nodes for those of the new order.
  ghost function Rehashed(w: V.View, s: Layout, t: Layout, homes: seq<Cell>, pos: seq<int>): (r: V.View)
    requires R.Arrived(s, t, homes, pos, 0) && |w.order| == Last(s)
    ensures |r.order| == Last(t) && r.linked == w.linked
    ensures forall p {:trigger V.Nth(r.order, p)} | 0 <= p < Last(t) ::
      V.Nth(r.order, p) == V.Nth(w.order, Z.Came(s, t, homes, pos, p))
  {
    V.View(seq(Last(t), p requires 0 <= p < Last(t) => V.Nth(w.order, Z.Came(s, t, homes, pos, p))), w.linked)
  }

  lemma RehashedStands(w: V.View, at: map<K.Node, Cell>, s: Layout, t: Layout, homes: seq<Cell>, pos: seq<int>)
    requires R.Arrived(s, t, homes, pos, 0) && V.WellFormed(w) && Stands(w, at, Elements(s))
    ensures V.WellFormed(Rehashed(w, s, t, homes, pos)) && Stands(Rehashed(w, s, t, homes, pos), at, Elements(t))
  {
    var r := Rehashed(w, s, t, homes, pos);
    forall p, q | 0 <= p < Last(t) && 0 <= q < Last(t) && p != q ensures !V.Twice(r.order, p, q) {
      var i, j := Z.Came(s, t, homes, pos, p), Z.Came(s, t, homes, pos, q);
      assert !V.Twice(w.order, i, j);
    }
    forall y | y in r.linked ensures y in r.order {
      var i := V.Find(w.order, y);
      Z.CameOnce(s, t, homes, pos, i);
      V.InOrder(r.order, pos[i]);
    }
    forall p | 0 <= p < Last(t)
      ensures V.Nth(r.order, p) in at && at[V.Nth(r.order, p)] == L.At(Elements(t), p)
    {
      var j := Z.Came(s, t, homes, pos, p);
      assert R.Stands(s, t, j, pos[j], homes[j]);
      assert at[V.Nth(w.order, j)] == L.At(Elements(s), j);
    }
  }

  // The index gets another array of buckets, and its order may be another; if the hash throws, it is as before.
  method Rehash(ix: H.Index, unique: bool, size: nat, ns: seq<Cell>, cpyEnd: Cell, ghost w: V.View,
      ghost at: map<K.Node, Cell>)
      returns (ok: bool, to: H.Index, ghost r: V.View)
    requires Stated(ix, unique, w, at) && P.Arrayed(ix) && R.Room(ix.chain.s, ix.chain.buckets, ns, cpyEnd)
    requires size == Last(ix.chain.s)
    modifies ix.chain`s, ix.chain`buckets, ix.chain.s.nodes`prior, ix.chain.s.nodes`next, ix.chain.buckets`prior
    modifies cpyEnd`prior, cpyEnd`next, ns`prior
    ensures Stated(to, unique, r, at) && P.Arrayed(to) && Keeps(A.HashedKind(ix, unique), w, r)
    ensures P.Taken(ix, to, if ok then ns else ix.buckets)
    ensures !ok ==> r == w && P.SamePointers(ix)
  {
    ghost var s, hs, homes, pos := ix.chain.s, P.AllHashes(ix), [], [];
    ValidIsGrouped(ix, w, at);
    ok, to, homes, pos := RehashChain(ix, unique, size, ns, cpyEnd, w, at);
    r := w;
    if ok {
      RehashedIsStep(to, unique, w, at, s, hs, ns, homes, pos);
      r := Rehashed(w, s, to.chain.s, homes, pos);
    }
  }

  // No value is touched.
  method RehashChain(ix: H.Index, unique: bool, size: nat, ns: seq<Cell>, cpyEnd: Cell, ghost w: V.View,
      ghost at: map<K.Node, Cell>)
      returns (ok: bool, to: H.Index, ghost homes: seq<Cell>, ghost pos: seq<int>)
    requires Stated(ix, unique, w, at) && P.Arrayed(ix) && R.Room(ix.chain.s, ix.chain.buckets, ns, cpyEnd)
    requires size == Last(ix.chain.s)
    modifies ix.chain`s, ix.chain`buckets, ix.chain.s.nodes`prior, ix.chain.s.nodes`next, ix.chain.buckets`prior
    modifies cpyEnd`prior, cpyEnd`next, ns`prior
    ensures to.Valid() && P.Arrayed(to) && (unique ==> S.Singles(to.chain.s))
    ensures P.Taken(ix, to, if ok then ns else ix.buckets)
    ensures ok ==> Z.Kept(old(ix.chain.s), ix.chain.s, old(P.AllHashes(ix)), ns, homes, pos)
    ensures forall y <- w.linked :: y in at && at[y].value == w.linked[y]
    ensures !ok ==> P.SamePointers(ix) && Represents(to, w, at)
  {
    NodesKnown(ix, w, at);
    ok, to, homes, pos := P.Rehash(ix, unique, size, ns, cpyEnd);
  }

  lemma RehashedIsStep(to: H.Index, unique: bool, w: V.View, at: map<K.Node, Cell>, s: Layout, hs: seq<nat>,
      ns: seq<Cell>, homes: seq<Cell>, pos: seq<int>)
    requires to.Valid() && (unique ==> S.Singles(to.chain.s)) && Z.Kept(s, to.chain.s, hs, ns, homes, pos)
    requires V.Good(A.HashedKind(to, unique), w) && Stands(w, at, Elements(s))
    requires Grouped(A.HashedKind(to, unique), w, s)
    requires forall y <- w.linked :: y in at && at[y].value == w.linked[y]
    ensures Stated(to, unique, Rehashed(w, s, to.chain.s, homes, pos), at)
    ensures Keeps(A.HashedKind(to, unique), w, Rehashed(w, s, to.chain.s, homes, pos))
  {
    RehashedIsStated(to, unique, w, at, s, homes, pos);
    RehashedIsKept(A.HashedKind(to, unique), w, s, to.chain.s, hs, ns, homes, pos);
  }

  // Equivalent elements are a group of the layout.
  ghost predicate Grouped(k: K.Kind, w: V.View, s: Layout) {
    Sized(s) && |w.order| == Last(s) && forall x, y {:trigger w.linked[x], w.linked[y]} |
      x in w.linked && y in w.linked && x in w.order && y in w.order && K.Same(k, w.linked[x], w.linked[y]) ::
      G(s, V.Find(w.order, x)) == G(s, V.Find(w.order, y))
  }

  lemma ValidIsGrouped(ix: H.Index, w: V.View, at: map<K.Node, Cell>)
    requires ix.Valid() && Represents(ix, w, at)
    ensures Grouped(A.HashedKind(ix, false), w, ix.chain.s) && Grouped(A.HashedKind(ix, true), w, ix.chain.s)
  {
    var s := ix.chain.s;
    forall x | x in w.linked && x in w.order
      ensures 0 <= V.Find(w.order, x) < Last(s) && ix.Q(V.Find(w.order, x)) == ix.key(w.linked[x])
    {
      var i := V.Find(w.order, x);
      assert at[V.Nth(w.order, i)] == L.At(Elements(s), i) && w.linked[x] == at[x].value;
    }
  }

  lemma RehashedIsKept(k: K.Kind, w: V.View, s: Layout, t: Layout, hs: seq<nat>, ns: seq<Cell>, homes: seq<Cell>,
      pos: seq<int>)
    requires k.Hashed? && V.WellFormed(w) && Grouped(k, w, s) && Z.Kept(s, t, hs, ns, homes, pos)
    requires V.WellFormed(Rehashed(w, s, t, homes, pos))
    ensures V.GroupsKept(k, w, Rehashed(w, s, t, homes, pos))
  {
    var r := Rehashed(w, s, t, homes, pos);
    forall y | y in w.linked ensures y in w.order && y in r.order && V.Find(r.order, y) == pos[V.Find(w.order, y)] {
      var i := V.Find(w.order, y);
      Z.CameOnce(s, t, homes, pos, i);
      V.FindIs(r.order, pos[i]);
    }
    forall x, y {:trigger V.Ahead(r.order, x, y)} |
      x in r.linked && y in r.linked && K.Same(k, r.linked[x], r.linked[y])
      ensures V.Ahead(r.order, x, y) <==> V.Ahead(w.order, x, y)
    {
      var i, j := V.Find(w.order, x), V.Find(w.order, y);
      assert w.linked[x] == r.linked[x] && w.linked[y] == r.linked[y];
      assert G(s, i) == G(s, j);
      assert pos[j] - pos[i] == j - i;
    }
  }

  lemma RehashedIsStated(to: H.Index, unique: bool, w: V.View, at: map<K.Node, Cell>, s: Layout, homes: seq<Cell>,
      pos: seq<int>)
    requires to.Valid() && (unique ==> S.Singles(to.chain.s)) && R.Arrived(s, to.chain.s, homes, pos, 0)
    requires V.Good(A.HashedKind(to, unique), w) && Stands(w, at, Elements(s))
    requires forall y <- w.linked :: y in at && at[y].value == w.linked[y]
    ensures Stated(to, unique, Rehashed(w, s, to.chain.s, homes, pos), at)
  {
    var r := Rehashed(w, s, to.chain.s, homes, pos);
    RehashedStands(w, at, s, to.chain.s, homes, pos);
    forall y <- r.linked ensures at[y] in to.chain.s.nodes {
      var p := V.Find(r.order, y);
      assert at[V.Nth(r.order, p)] == L.At(Elements(to.chain.s), p);
    }
    RepresentsShows(to, r, at);
    A.GroupedFits(to, V.Values(r));
  }
}
