/** The indices of the cascade are those of the tree and of the hash chain: what their states say of the values in
    order. */
module IndexAbstraction {

  import opened Ordering
  import K = IndexKind
  import T = OrdIndexNode
  import O = OrderedIndex
  import C = HashLayout
  import H = HashedIndex
  import U = HashedUniqueIndex
  import N = HashUniqueNode

  /* Ordered indices */

  function Kind(ix: O.Index, unique: bool): K.Kind {
    K.Ordered(ix.key, ix.lt, unique)
  }

  // s are the values in the order of the tree.
  ghost predicate Shows(ix: O.Index, s: seq<int>)
    requires ix.tree.Indexed()
    reads ix.tree, ix.tree.nodes`pos, ix.tree.nodes`value
  {
    && |s| == |ix.tree.order|
    && forall i {:trigger K.At(s, i)} {:trigger ix.K(i)} | 0 <= i < |s| ::
      K.At(s, i) == T.At(ix.tree.order, i).value && ix.key(K.At(s, i)) == ix.K(i)
  }

  lemma BeforeIsLess(ix: O.Index, a: int, b: int)
    requires StrictWeakOrder(ix.lt)
    ensures K.Before(Kind(ix, false), a, b) <==> !ix.lt(ix.key(b), ix.key(a))
    ensures K.Before(Kind(ix, true), a, b) <==> ix.lt(ix.key(a), ix.key(b))
    ensures K.Same(Kind(ix, true), a, b) <==> !ix.lt(ix.key(a), ix.key(b)) && !ix.lt(ix.key(b), ix.key(a))
  {
    if ix.lt(ix.key(a), ix.key(b)) { K.NoLoop(ix.lt, ix.key(a), ix.key(b)); }
  }

  // The index is in order, strictly if it is unique.
  lemma SortedFits(ix: O.Index, s: seq<int>)
    requires ix.tree.Indexed() && StrictWeakOrder(ix.lt) && Shows(ix, s)
    ensures ix.Sorted() <==> K.Fits(Kind(ix, false), s)
    ensures ix.StrictlySorted() <==> K.Fits(Kind(ix, true), s)
  {
    forall i, j {:trigger K.At(s, i), K.At(s, j)} {:trigger ix.K(i), ix.K(j)} | 0 <= i < j < |s|
      ensures K.Before(Kind(ix, false), K.At(s, i), K.At(s, j)) <==> !ix.lt(ix.K(j), ix.K(i))
      ensures K.Before(Kind(ix, true), K.At(s, i), K.At(s, j)) <==> ix.lt(ix.K(i), ix.K(j))
    {
      BeforeIsLess(ix, K.At(s, i), K.At(s, j));
    }
  }

  // x may take the value v in place just when the order would fit then.
  lemma InPlaceFits(ix: O.Index, s: seq<int>, x: T.Node, v: int)
    requires ix.tree.Indexed() && StrictWeakOrder(ix.lt) && Shows(ix, s) && x in ix.tree.nodes
    ensures 0 <= x.pos < |s|
    ensures ix.SortedBut(x) ==> (ix.Fits(x, ix.key(v)) <==> K.Fits(Kind(ix, false), s[x.pos := v]))
    ensures ix.StrictBut(x) ==> (ix.FitsStrictly(x, ix.key(v)) <==> K.Fits(Kind(ix, true), s[x.pos := v]))
  {
    var p := x.pos;
    var t := s[p := v];
    assert T.At(ix.tree.order, p) == x;
    forall i {:trigger K.At(t, i)} {:trigger K.At(s, i)} | 0 <= i < |s|
      ensures K.At(t, i) == if i == p then v else K.At(s, i)
    {
    }
    forall i, j {:trigger K.At(t, i), K.At(t, j)} | 0 <= i < j < |t|
      ensures K.Before(Kind(ix, false), K.At(t, i), K.At(t, j)) <==>
        !ix.lt(if j == p then ix.key(v) else ix.K(j), if i == p then ix.key(v) else ix.K(i))
      ensures K.Before(Kind(ix, true), K.At(t, i), K.At(t, j)) <==>
        ix.lt(if i == p then ix.key(v) else ix.K(i), if j == p then ix.key(v) else ix.K(j))
    {
      BeforeIsLess(ix, K.At(t, i), K.At(t, j));
    }
    if K.Fits(Kind(ix, false), t) {
      forall j {:trigger ix.K(j)} | 0 <= j < |s| && j != p
        ensures if j < p then !ix.lt(ix.key(v), ix.K(j)) else !ix.lt(ix.K(j), ix.key(v))
      {
        var a, b := K.At(t, if j < p then j else p), K.At(t, if j < p then p else j);
      }
    }
    if K.Fits(Kind(ix, true), t) {
      forall j {:trigger ix.K(j)} | 0 <= j < |s| && j != p
        ensures if j < p then ix.lt(ix.K(j), ix.key(v)) else ix.lt(ix.key(v), ix.K(j))
      {
        var a, b := K.At(t, if j < p then j else p), K.At(t, if j < p then p else j);
      }
    }
  }

  // The others clash with v as the cascade says they do.
  lemma ClashIs(ix: O.Index, s: seq<int>, x: T.Node, v: int)
    requires ix.tree.Indexed() && StrictWeakOrder(ix.lt) && Shows(ix, s) && x in ix.tree.nodes
    ensures 0 <= x.pos < |s| && (ix.ClashBut(x, ix.key(v)) <==> K.Clash(Kind(ix, true), K.Removed(s, x.pos), v))
  {
    var p := x.pos;
    var r := K.Removed(s, p);
    assert T.At(ix.tree.order, p) == x;
    forall i {:trigger K.At(r, i)} | 0 <= i < |r|
      ensures K.At(r, i) == K.At(s, if i < p then i else i + 1)
      ensures var m := if i < p then i else i + 1;
        K.Same(Kind(ix, true), v, K.At(r, i)) <==> !ix.lt(ix.K(m), ix.key(v)) && !ix.lt(ix.key(v), ix.K(m))
    {
      var m := if i < p then i else i + 1;
      assert K.At(r, i) == K.At(s, m);
      BeforeIsLess(ix, v, K.At(s, m));
    }
    if ix.ClashBut(x, ix.key(v)) {
      var m :| 0 <= m < |s| && m != p && !ix.lt(ix.K(m), ix.key(v)) && !ix.lt(ix.key(v), ix.K(m));
      assert K.Same(Kind(ix, true), v, K.At(r, if m < p then m else m - 1));
    }
  }

  // The upper bound is a place for v.
  lemma UpperBoundFits(ix: O.Index, s: seq<int>, v: int, i: int)
    requires ix.tree.Indexed() && StrictWeakOrder(ix.lt) && Shows(ix, s) && ix.UpperAt(ix.key(v), i)
    ensures K.FitsAt(Kind(ix, false), s, i, v)
    ensures !ix.Clash(ix.key(v)) ==> K.FitsAt(Kind(ix, true), s, i, v)
  {
    forall j {:trigger K.At(s, j)} | 0 <= j < |s|
      ensures if j < i then K.Before(Kind(ix, false), K.At(s, j), v) else K.Before(Kind(ix, false), v, K.At(s, j))
      ensures !ix.Clash(ix.key(v)) ==> if j < i then K.Before(Kind(ix, true), K.At(s, j), v)
        else K.Before(Kind(ix, true), v, K.At(s, j))
    {
      var k := ix.K(j);
      BeforeIsLess(ix, K.At(s, j), v);
      BeforeIsLess(ix, v, K.At(s, j));
      if ix.lt(ix.key(v), k) { K.NoLoop(ix.lt, ix.key(v), k); }
    }
  }

  // It is where the cascade puts v without a hint, and in a unique index also with one.
  lemma UpperGoes(ix: O.Index, unique: bool, s: seq<int>, v: int, i: int, hint: int)
    requires ix.tree.Indexed() && StrictWeakOrder(ix.lt) && Shows(ix, s) && ix.UpperAt(ix.key(v), i)
    requires unique ==> !ix.Clash(ix.key(v))
    ensures K.GoesTo(Kind(ix, unique), s, i, v, false, hint)
    ensures unique ==> K.GoesTo(Kind(ix, unique), s, i, v, true, hint)
  {
    UpperBoundFits(ix, s, v, i);
    forall j {:trigger K.At(s, j)} | 0 <= j < |s| ensures j < i <==> !ix.lt(ix.key(v), ix.key(K.At(s, j))) {
      assert ix.K(j) == ix.key(K.At(s, j));
    }
    if unique { K.UpperIsNearest(Kind(ix, true), s, i, v, hint); }
  }

  // The nearest place between the bounds is where the cascade puts v with a hint.
  lemma ClampGoes(ix: O.Index, s: seq<int>, v: int, hint: int, lo: int, hi: int)
    requires ix.tree.Indexed() && StrictWeakOrder(ix.lt) && Shows(ix, s) && lo <= hi
    requires ix.LowerAt(ix.key(v), lo) && ix.UpperAt(ix.key(v), hi)
    ensures K.GoesTo(Kind(ix, false), s, ix.Clamp(hint, lo, hi), v, true, hint)
  {
    var k, i := Kind(ix, false), ix.Clamp(hint, lo, hi);
    ix.GapBetween(ix.key(v), lo, i, hi);
    forall j {:trigger K.At(s, j)} {:trigger ix.K(j)} | 0 <= j < |s|
      ensures K.Before(k, K.At(s, j), v) <==> !ix.lt(ix.key(v), ix.K(j))
      ensures K.Before(k, v, K.At(s, j)) <==> !ix.lt(ix.K(j), ix.key(v))
    {
      BeforeIsLess(ix, K.At(s, j), v);
      BeforeIsLess(ix, v, K.At(s, j));
    }
    forall p {:trigger K.FitsAt(k, s, p, v)} | K.FitsAt(k, s, p, v) ensures lo <= p <= hi {
      var a := if 0 <= p < |s| then K.At(s, p) else v;
      var b := if 0 <= hi < |s| then K.At(s, hi) else v;
    }
  }

  // So is the place of a node behind its equals, among the others.
  lemma BehindGoes(ix: O.Index, unique: bool, s: seq<int>, x: T.Node)
    requires ix.tree.Indexed() && StrictWeakOrder(ix.lt) && Shows(ix, s) && x in ix.tree.nodes && ix.BehindEquals(x)
    ensures 0 <= x.pos < |s| && K.GoesTo(Kind(ix, unique), K.Removed(s, x.pos), x.pos, x.value, false, 0)
  {
    var p, r, v := x.pos, K.Removed(s, x.pos), x.value;
    assert T.At(ix.tree.order, p) == x;
    forall i {:trigger K.At(r, i)} | 0 <= i < |r| ensures i < p <==> !ix.lt(ix.key(v), ix.key(K.At(r, i))) {
      var j := if i < p then i else i + 1;
      assert K.At(r, i) == K.At(s, j) && ix.K(j) == ix.key(K.At(s, j));
    }
  }

  lemma StrictIsBehind(ix: O.Index, x: T.Node)
    requires ix.tree.Indexed() && StrictWeakOrder(ix.lt) && ix.StrictlySorted() && x in ix.tree.nodes
    ensures ix.BehindEquals(x)
  {
    assert T.At(ix.tree.order, x.pos) == x && ix.K(x.pos) == ix.key(x.value);
    forall j {:trigger ix.K(j)} | 0 <= j < x.pos ensures !ix.lt(ix.K(x.pos), ix.K(j)) {
      K.NoLoop(ix.lt, ix.K(j), ix.K(x.pos));
    }
  }

  /* Hashed indices */

  function HashedKind(ix: H.Index, unique: bool): K.Kind {
    K.Hashed(ix.key, ix.eq, unique)
  }

  ghost predicate ShowsHashed(ix: H.Index, s: seq<int>)
    requires C.Sized(ix.chain.s)
    reads ix.chain, ix.chain.s.nodes`value
  {
    && |s| == C.Last(ix.chain.s)
    && forall i {:trigger K.At(s, i)} {:trigger ix.Q(i)} | 0 <= i < |s| ::
      K.At(s, i) == C.N(ix.chain.s, i).value && ix.key(K.At(s, i)) == ix.Q(i)
  }

  // Equivalent keys stand together, and in a unique index there are none.
  lemma GroupedFits(ix: H.Index, s: seq<int>)
    requires ix.Valid() && ShowsHashed(ix, s)
    ensures K.Fits(HashedKind(ix, false), s)
    ensures N.Singles(ix.chain.s) ==> K.Fits(HashedKind(ix, true), s)
  {
    var t := ix.chain.s;
    forall i, j {:trigger K.At(s, i), K.At(s, j)} | 0 <= i < j < |s| && N.Singles(t) ensures !ix.eq(ix.Q(i), ix.Q(j)) {
      U.KeysApart(ix, -1, i, j);
    }
    forall i, j, l {:trigger K.At(s, i), K.At(s, j), K.At(s, l)} | 0 <= i < j < l < |s| && ix.eq(ix.Q(i), ix.Q(l))
      ensures ix.eq(ix.Q(i), ix.Q(j))
    {
      C.Unfold(t, i);
      C.Unfold(t, l);
      C.SameGroup(t, i, j);
    }
  }

  lemma HashedClashIs(ix: H.Index, s: seq<int>, i: int, v: int)
    requires C.Sized(ix.chain.s) && ShowsHashed(ix, s) && 0 <= i < |s|
    ensures U.ClashBut(ix, i, ix.key(v)) <==> K.Clash(HashedKind(ix, true), K.Removed(s, i), v)
  {
    var r := K.Removed(s, i);
    forall j {:trigger K.At(r, j)} | 0 <= j < |r|
      ensures K.Same(HashedKind(ix, true), v, K.At(r, j)) <==> ix.eq(ix.key(v), ix.Q(if j < i then j else j + 1))
    {
      assert K.At(r, j) == K.At(s, if j < i then j else j + 1);
    }
    if U.ClashBut(ix, i, ix.key(v)) {
      var m :| 0 <= m < |s| && m != i && ix.eq(ix.key(v), ix.Q(m));
      assert K.Same(HashedKind(ix, true), v, K.At(r, if m < i then m else m - 1));
    }
  }

  // A node that stays where it is, its key changed, fits there.
  lemma StaysFits(ix: H.Index, s: seq<int>, i: int)
    requires ix.Wired() && 0 <= i < C.Last(ix.chain.s) && ix.GroupedBut(i) && ix.HashedBut(i) && ShowsHashed(ix, s)
    requires ix.Stays(i, ix.Q(i), ix.buckets[ix.Position(ix.Q(i))])
    ensures K.Fits(HashedKind(ix, false), s)
  {
    ix.StaysEncodes(i, ix.buckets[ix.Position(ix.Q(i))]);
    var t :| ix.Encodes(t, i, ix.buckets[ix.Position(ix.Q(i))]);
    forall a, b, c {:trigger K.At(s, a), K.At(s, b), K.At(s, c)} | 0 <= a < b < c < |s| && ix.eq(ix.Q(a), ix.Q(c))
      ensures ix.eq(ix.Q(a), ix.Q(b))
    {
      C.Unfold(t, a);
      C.Unfold(t, c);
      C.SameGroup(t, a, b);
    }
  }

  // The first of a group is where the cascade puts it among the others.
  lemma LeadsGoes(ix: H.Index, unique: bool, s: seq<int>, j: int)
    requires ix.Valid() && ShowsHashed(ix, s) && ix.Leads(j)
    ensures K.GoesTo(HashedKind(ix, unique), K.Removed(s, j), j, K.At(s, j), false, 0)
  {
    var r := K.Removed(s, j);
    assert ix.eq(ix.Q(j), ix.Q(j));
    ix.FirstHasNone(ix.Q(j), j);
    forall i {:trigger K.At(r, i)} | 0 <= i < j ensures !K.Same(HashedKind(ix, unique), K.At(s, j), K.At(r, i)) {
      assert K.At(r, i) == K.At(s, i) && ix.key(K.At(s, i)) == ix.Q(i);
    }
  }

  // Any place with no equal key before it is where it puts a new value.
  lemma NoneEqualGoes(ix: H.Index, unique: bool, s: seq<int>, v: int, i: int, hinted: bool, hint: int)
    requires C.Sized(ix.chain.s) && ShowsHashed(ix, s) && 0 <= i <= |s| && ix.NoneEqual(ix.key(v), 0, i)
    ensures K.GoesTo(HashedKind(ix, unique), s, i, v, hinted, hint)
  {
    forall j {:trigger K.At(s, j)} | 0 <= j < i ensures !K.Same(HashedKind(ix, unique), v, K.At(s, j)) {
      assert ix.key(K.At(s, j)) == ix.Q(j);
    }
  }

  // Any order suits an index without keys.
  lemma KeylessFits(k: K.Kind, s: seq<int>, i: int, v: int)
    requires k.Sequenced? || k.RandomAccess?
    ensures K.Fits(k, s) && !K.Clash(k, s, v) && (0 <= i <= |s| ==> K.FitsAt(k, s, i, v))
  {
  }
}
