/** A hashed unique index: the chain of an index whose elements have no equivalent keys. */
module HashedUniqueIndex {

  import opened HashLayout
  import opened HashIndexNode
  import opened HashedIndex
  import opened HashUniqueNode
  import S = Spans

  ghost predicate Unique(ix: Index)
    reads ix.chain, ix.chain.s.nodes`prior, ix.chain.s.nodes`next, ix.chain.s.nodes`value, ix.chain.buckets`prior
  {
    ix.Valid() && Singles(ix.chain.s)
  }

  // The same but for the node at i, whose key may have changed.
  ghost predicate UniqueBut(ix: Index, i: int)
    reads ix.chain, ix.chain.s.nodes`prior, ix.chain.s.nodes`next, ix.chain.s.nodes`value, ix.chain.buckets`prior
  {
    ix.Wired() && ix.GroupedBut(i) && ix.HashedBut(i) && Singles(ix.chain.s)
  }

  // A node besides the one at i has a key equivalent to k.
  ghost predicate ClashBut(ix: Index, i: int, k: int)
    reads ix.chain, ix.chain.s.nodes`value
  {
    exists m {:trigger ix.Q(m)} :: 0 <= m < Last(ix.chain.s) && m != i && ix.eq(k, ix.Q(m))
  }

  // No two elements have equivalent keys.
  lemma KeysApart(ix: Index, i: int, a: int, b: int)
    requires Sized(ix.chain.s) && Singles(ix.chain.s) && ix.GroupedBut(i)
    requires 0 <= a < Last(ix.chain.s) && 0 <= b < Last(ix.chain.s) && a != i && b != i && a != b
    ensures !ix.eq(ix.Q(a), ix.Q(b))
  {
    assert Alone(ix.chain.s, a) && Alone(ix.chain.s, b);
  }

  // The node after a place of the bucket, or null after its last.
  ghost predicate At(ix: Index, y: Cell?, lo: int, j: int)
    requires Shaped(ix.chain.s) && 0 <= lo < Last(ix.chain.s)
    reads ix.chain
  {
    lo <= j <= K(ix.chain.s, lo).hi + 1 <= Last(ix.chain.s)
      && y == if j <= K(ix.chain.s, lo).hi then N(ix.chain.s, j) else null
  }

  // The node after x, which is at place j of the bucket that starts at lo.
  function Next(ix: Index, x: Cell, ghost lo: int, ghost j: int): (y: Cell?)
    requires ix.chain.Valid() && Singles(ix.chain.s) && 0 <= lo < Last(ix.chain.s) && K(ix.chain.s, lo).lo == lo
      && At(ix, x, lo, j)
    reads ix.chain, ix.chain.s.nodes`prior, ix.chain.s.nodes`next, ix.chain.buckets`prior
    ensures At(ix, y, lo, j + 1) && ix.chain.Inner(x, j) && K(ix.chain.s, j) == K(ix.chain.s, lo)
  {
    SameBucket(ix.chain.s, lo, j);
    AfterLocal(ix.chain, x, j)
  }

  // Where a new element with key k goes, its bucket, or the element with an equivalent key.
  method LinkPoint(ix: Index, k: int) returns (ok: bool, pos: Cell, ghost i: int)
    requires Unique(ix)
    ensures ok <==> ix.NoneEqual(k, 0, Last(ix.chain.s))
    ensures ok ==> pos == ix.buckets[ix.Position(k)]
    ensures !ok ==> ix.chain.Inner(pos, i) && ix.eq(k, ix.Q(i))
  {
    var buc := ix.Position(k);
    if ix.buckets[buc].prior == null {
      ix.chain.HomeIsUsed(ix.buckets[buc]);
      ix.NoneElsewhere(k, 0, 0);
      return true, ix.buckets[buc], 0;
    }
    ghost var lo := ix.BucketStart(buc);
    ok, pos, i := Search(ix, k, ix.buckets[buc], lo);
    if ok { ix.NoneElsewhere(k, lo, K(ix.chain.s, lo).hi + 1); }
  }

  // The loop over the bucket pos, which starts at lo.
  method Search(ix: Index, k: int, bucket: Cell, ghost lo: int) returns (ok: bool, pos: Cell, ghost i: int)
    requires Unique(ix) && 0 <= lo < Last(ix.chain.s) && K(ix.chain.s, lo).lo == lo && At(ix, bucket.prior, lo, lo)
    ensures ok ==> pos == bucket && ix.NoneEqual(k, lo, K(ix.chain.s, lo).hi + 1)
    ensures !ok ==> ix.chain.Inner(pos, i) && ix.eq(k, ix.Q(i))
  {
    var x := bucket.prior;
    pos, i := bucket, lo;
    while x != null
      invariant At(ix, x, lo, i)
      invariant ix.NoneEqual(k, lo, i)
      decreases K(ix.chain.s, lo).hi + 1 - i
    {
      var y := Next(ix, x, lo, i);
      if ix.eq(k, ix.key(x.value)) {
        assert ix.Q(i) == ix.key(x.value);
        return false, x, i;
      }
      x, i := y, i + 1;
    }
    ok := true;
  }

  // The node at i may keep its place with the key k.
  ghost predicate Stays(ix: Index, i: int, k: int, buc: Cell)
    requires Sized(ix.chain.s) && 0 <= i < Last(ix.chain.s)
    reads ix.chain, ix.chain.s.nodes`value
  {
    && B(ix.chain.s, i) == buc
    && forall m {:trigger ix.Q(m)} | 0 <= m < Last(ix.chain.s) && m != i && B(ix.chain.s, m) == buc ::
      !ix.eq(k, ix.Q(m))
  }

  ghost predicate NoClash(ix: Index, i: int, k: int, lo: int, j: int)
    reads ix.chain, ix.chain.s.nodes`value
  {
    forall m {:trigger ix.Q(m)} | lo <= m < j && Inside(ix.chain.s, m) && m != i :: !ix.eq(k, ix.Q(m))
  }

  // Tells whether x may keep its place with key k, whatever key it has.
  method InPlace(ix: Index, x: Cell, k: int, buc: nat, ghost i: int) returns (b: bool)
    requires ix.Wired() && Singles(ix.chain.s) && ix.chain.Inner(x, i) && buc < |ix.buckets| - 1
    ensures b <==> Stays(ix, i, k, ix.buckets[buc])
  {
    if ix.buckets[buc].prior == null {
      ix.chain.HomeIsUsed(ix.buckets[buc]);
      assert B(ix.chain.s, i) in ix.chain.s.home;
      return false;
    }
    ghost var lo := ix.BucketStart(buc);
    ghost var j;
    b, j := Scan(ix, x, k, ix.buckets[buc].prior, i, lo);
    ScanTells(ix, i, k, ix.buckets[buc], lo, b, j);
  }

  // What the scan of the bucket b that starts at lo, up to place j, tells.
  lemma ScanTells(ix: Index, i: int, k: int, b: Cell, lo: int, found: bool, j: int)
    requires Shaped(ix.chain.s) && 0 <= i < Last(ix.chain.s) && 0 <= lo < Last(ix.chain.s) && K(ix.chain.s, lo).lo == lo
    requires B(ix.chain.s, lo) == b && K(ix.chain.s, lo).hi < Last(ix.chain.s)
    requires forall m {:trigger B(ix.chain.s, m)} | Inside(ix.chain.s, m) && B(ix.chain.s, m) == b ::
      lo <= m <= K(ix.chain.s, lo).hi
    requires Scanned(ix, i, k, lo, found, j)
    ensures found <==> Stays(ix, i, k, b)
  {
    if found {
      SameBucket(ix.chain.s, lo, i);
    } else if lo <= j <= K(ix.chain.s, lo).hi {
      SameBucket(ix.chain.s, lo, j);
    }
  }

  ghost predicate Scanned(ix: Index, i: int, k: int, lo: int, found: bool, j: int)
    requires Shaped(ix.chain.s) && 0 <= i < Last(ix.chain.s) && 0 <= lo < Last(ix.chain.s)
    reads ix.chain, ix.chain.s.nodes`value
  {
    && (found ==> lo <= i <= K(ix.chain.s, lo).hi && NoClash(ix, i, k, lo, K(ix.chain.s, lo).hi + 1))
    && (!found && lo <= i <= K(ix.chain.s, lo).hi ==>
      lo <= j <= K(ix.chain.s, lo).hi < Last(ix.chain.s) && j != i && ix.eq(k, ix.Q(j)))
  }

  // The loop over the bucket that starts at lo with the node first; j is where it finds an equivalent key.
  method Scan(ix: Index, x: Cell, k: int, first: Cell, ghost i: int, ghost lo: int) returns (found: bool, ghost j: int)
    requires ix.Wired() && Singles(ix.chain.s) && ix.chain.Inner(x, i)
    requires 0 <= lo < Last(ix.chain.s) && K(ix.chain.s, lo).lo == lo && At(ix, first, lo, lo)
    ensures Scanned(ix, i, k, lo, found, j)
  {
    found, j := false, lo;
    var y: Cell? := first;
    while y != null
      invariant At(ix, y, lo, j)
      invariant (found <==> lo <= i < j) && NoClash(ix, i, k, lo, j)
      decreases K(ix.chain.s, lo).hi + 1 - j
    {
      var z := Next(ix, y, lo, j);
      assert Same(ix.chain.s, j, i) <==> j == i;
      if y == x {
        found := true;
      } else if ix.eq(k, ix.key(y.value)) {
        assert ix.Q(j) == ix.key(y.value);
        return false, j;
      }
      y, j := z, j + 1;
    }
  }

  // x may keep its place exactly when the chain, as it is, is that of a unique index with the new key of x.
  lemma StaysIsUnique(ix: Index, i: int)
    requires UniqueBut(ix, i) && 0 <= i < Last(ix.chain.s)
    ensures Stays(ix, i, ix.Q(i), ix.buckets[ix.Position(ix.Q(i))]) <==> Unique(ix)
    ensures Stays(ix, i, ix.Q(i), ix.buckets[ix.Position(ix.Q(i))]) ==> !ClashBut(ix, i, ix.Q(i))
  {
    var s := ix.chain.s;
    if Stays(ix, i, ix.Q(i), ix.buckets[ix.Position(ix.Q(i))]) {
      forall a, b {:trigger ix.Q(a), ix.Q(b)} | 0 <= a < Last(s) && 0 <= b < Last(s)
        ensures ix.eq(ix.Q(a), ix.Q(b)) <==> G(s, a) == G(s, b)
      {
        StaysApart(ix, i, a, b);
      }
    }
    if Unique(ix) {
      forall m {:trigger ix.Q(m)} | 0 <= m < Last(s) && m != i ensures !ix.eq(ix.Q(i), ix.Q(m)) {
        KeysApart(ix, -1, i, m);
      }
    }
  }

  lemma StaysApart(ix: Index, i: int, a: int, b: int)
    requires UniqueBut(ix, i) && 0 <= i < Last(ix.chain.s) && Stays(ix, i, ix.Q(i), ix.buckets[ix.Position(ix.Q(i))])
    requires 0 <= a < Last(ix.chain.s) && 0 <= b < Last(ix.chain.s)
    ensures ix.eq(ix.Q(a), ix.Q(b)) <==> G(ix.chain.s, a) == G(ix.chain.s, b)
    ensures a == i && b != i ==> !ix.eq(ix.Q(a), ix.Q(b))
  {
    assert Alone(ix.chain.s, a) && Alone(ix.chain.s, b);
    assert ix.eq(ix.Q(a), ix.Q(a));
    assert ix.eq(ix.Q(a), ix.Q(b)) <==> ix.eq(ix.Q(b), ix.Q(a));
  }

  /* Adding and taking out */

  // Links x, which has no equivalent in the chain, to its bucket.
  method PutNew(ix: Index, x: Cell) returns (ghost i: int)
    requires Unique(ix) && x !in ix.chain.s.nodes && x !in ix.chain.buckets
    requires ix.NoneEqual(ix.key(x.value), 0, Last(ix.chain.s))
    modifies ix.chain`s, x`prior, x`next, ix.chain.s.nodes`prior, ix.chain.s.nodes`next, ix.chain.buckets`prior
    ensures Unique(ix) && ix.chain.Inner(x, i) && ix.Leads(i)
    ensures 0 <= i < |old(ix.chain.s).nodes|
      && ix.chain.s.nodes == old(ix.chain.s).nodes[..i] + [x] + old(ix.chain.s).nodes[i..]
  {
    ghost var s0 := ix.chain.s;
    ghost var c := ix.buckets[ix.Position(ix.key(x.value))];
    ix.ValidIsArranged();
    ix.NoneEqualKey(ix.key(x.value));
    i := ix.InsertAlone(x);
    ix.AloneIsArranged(s0, x, i, c in s0.home);
    OpenedIsSingles(s0, x, i, c in s0.home, c);
    OpenedAt(s0, [x], i, false, c in s0.home, c, i);
    ix.ValidIsArranged();
  }

  // Adds x unless an element has an equivalent key; that element is told then.
  method Insert(ix: Index, x: Cell) returns (ok: bool, pos: Cell, ghost i: int)
    requires Unique(ix) && x !in ix.chain.s.nodes && x !in ix.chain.buckets
    modifies ix.chain`s, x`prior, x`next, ix.chain.s.nodes`prior, ix.chain.s.nodes`next, ix.chain.buckets`prior
    ensures Unique(ix) && (ok <==> old(ix.NoneEqual(ix.key(x.value), 0, Last(ix.chain.s))))
    ensures ok ==> ix.chain.Inner(x, i) && ix.Leads(i) && 0 <= i < |old(ix.chain.s).nodes|
    ensures ok ==> ix.chain.s.nodes == old(ix.chain.s).nodes[..i] + [x] + old(ix.chain.s).nodes[i..]
    ensures !ok ==> ix.chain.s == old(ix.chain.s) && ix.chain.Inner(pos, i) && ix.eq(ix.key(x.value), ix.Q(i))
  {
    ok, pos, i := LinkPoint(ix, ix.key(x.value));
    if ok {
      i := PutNew(ix, x);
    }
  }

  // Takes x out, whatever its key is by now.
  method Erase(ix: Index, x: Cell, ghost i: int) returns (undo: Undo)
    requires UniqueBut(ix, i) && ix.chain.Inner(x, i)
    modifies ix.chain`s, ix.chain.s.nodes`prior, ix.chain.s.nodes`next, ix.chain.buckets`prior
    ensures Unique(ix) && ix.chain.s == Dropped(old(ix.chain.s), i) && x !in ix.chain.s.nodes && x !in ix.chain.buckets
    ensures undo == Tracks(old(ix.chain.s), i) && ix.chain.Out(old(ix.chain.s), i)
  {
    ghost var s0 := ix.chain.s;
    ix.ValidIsArrangedBut(i);
    undo := EraseNode(ix, x, i);
    ix.DroppedIsArranged(s0, i);
    ix.ValidIsArranged();
  }

  method EraseNode(ix: Index, x: Cell, ghost i: int) returns (undo: Undo)
    requires ix.Wired() && Singles(ix.chain.s) && ix.chain.Inner(x, i)
    modifies ix.chain`s, ix.chain.s.nodes`prior, ix.chain.s.nodes`next, ix.chain.buckets`prior
    ensures ix.Wired() && Singles(ix.chain.s)
    ensures ix.chain.s == Dropped(old(ix.chain.s), i) && x !in ix.chain.s.nodes && x !in ix.chain.buckets
    ensures undo == Tracks(old(ix.chain.s), i) && ix.chain.Out(old(ix.chain.s), i)
  {
    ghost var s0 := ix.chain.s;
    undo := Unlink(ix.chain, x, i);
    ix.chain.TracksInside(s0, i);
    DroppedAt(s0, i, Last(ix.chain.s));
  }

  // With the node at i taken out, an equivalent of k is left just when another node had one.
  twostate lemma ErasedClash(ix: Index, new i: int, new k: int)
    requires Sized(old(ix.chain.s)) && 0 <= i < Last(old(ix.chain.s)) && ix.chain.s == Dropped(old(ix.chain.s), i)
    requires forall c <- old(ix.chain.s.nodes) :: c.value == old(c.value)
    ensures ix.NoneEqual(k, 0, Last(ix.chain.s)) <==> !old(ClashBut(ix, i, k))
  {
    var s0, t := old(ix.chain.s), ix.chain.s;
    forall j {:trigger ix.Q(j)} | 0 <= j < Last(t) ensures ix.Q(j) == old(ix.Q(S.Up(j, i, 1))) {
      DroppedAt(s0, i, j);
      assert N(s0, S.Up(j, i, 1)) in s0.nodes;
    }
    forall m {:trigger old(ix.Q(m))} | 0 <= m < Last(s0) && m != i ensures ix.Q(S.Before(m, i, 1)) == old(ix.Q(m)) {
      DroppedAt(s0, i, S.Before(m, i, 1));
      assert N(s0, m) in s0.nodes;
    }
  }

  method Drop(ix: Index, x: Cell, ghost i: int, ghost k: int) returns (undo: Undo)
    requires UniqueBut(ix, i) && ix.chain.Inner(x, i)
    modifies ix.chain`s, ix.chain.s.nodes`prior, ix.chain.s.nodes`next, ix.chain.buckets`prior
    ensures Unique(ix) && ix.chain.s == Dropped(old(ix.chain.s), i) && x !in ix.chain.s.nodes && x !in ix.chain.buckets
    ensures undo == Tracks(old(ix.chain.s), i) && ix.chain.Out(old(ix.chain.s), i)
    ensures ix.chain.s.nodes == ix.Without(old(ix.chain.s), i)
    ensures ix.NoneEqual(k, 0, Last(ix.chain.s)) <==> !old(ClashBut(ix, i, k))
  {
    undo := Erase(ix, x, i);
    ErasedClash(ix, i, k);
  }

  // x, taken out, is linked by the value v if no element has an equivalent key and the other indices
  // accept it; if not, the chain is brought back.
  method LinkOrRestore(ix: Index, x: Cell, v: int, accept: bool, undo: Undo, ghost s0: Layout, ghost i: int)
      returns (ok: bool, ghost j: int)
    requires Unique(ix) && x !in ix.chain.s.nodes && x !in ix.chain.buckets && Inside(s0, i)
    requires ix.chain.Out(s0, i) && undo == Tracks(s0, i) && ix.chain.s.nodes == ix.Without(s0, i)
    modifies ix.chain`s, x`value, x`prior, x`next, s0.nodes`prior, s0.nodes`next, ix.chain.buckets`prior
    ensures ok <==> accept && old(ix.NoneEqual(ix.key(v), 0, Last(ix.chain.s)))
    ensures ok ==> Unique(ix) && x.value == v && ix.Moved(x, ix.chain.s, j, s0, i) && ix.Leads(j)
    ensures !ok ==> ix.Wired() && ix.chain.s == s0 && x.value == old(x.value)
  {
    var pos;
    assert forall c <- ix.chain.s.nodes :: c in s0.nodes;
    ok, pos, j := LinkPoint(ix, ix.key(v));
    if ok && accept {
      j := PutValue(ix, x, v, s0, i);
    } else {
      ok := false;
      PutBack(ix, undo, s0, i);
    }
  }

  method PutBack(ix: Index, undo: Undo, ghost s0: Layout, ghost i: int)
    requires ix.Wired() && ix.chain.Out(s0, i) && undo == Tracks(s0, i) && ix.chain.s.nodes == ix.Without(s0, i)
    modifies ix.chain`s, s0.nodes`prior, s0.nodes`next, ix.chain.buckets`prior
    ensures ix.Wired() && ix.chain.s == s0
  {
    assert forall c <- ix.chain.s.nodes :: c in s0.nodes;
    ix.PutChainBack(undo, s0, i);
  }

  method PutValue(ix: Index, x: Cell, v: int, ghost s0: Layout, ghost i: int) returns (ghost j: int)
    requires Unique(ix) && x !in ix.chain.s.nodes && x !in ix.chain.buckets && 0 <= i < Last(s0) && Sized(s0)
    requires ix.chain.s == Dropped(s0, i) && ix.NoneEqual(ix.key(v), 0, Last(ix.chain.s))
    modifies ix.chain`s, x`value, x`prior, x`next, ix.chain.s.nodes`prior, ix.chain.s.nodes`next, ix.chain.buckets`prior
    ensures Unique(ix) && x.value == v && ix.Moved(x, ix.chain.s, j, s0, i) && ix.Leads(j)
  {
    x.value := v;
    j := PutNew(ix, x);
  }

  method Relink(ix: Index, x: Cell, v: int, accept: bool, ghost i: int) returns (ok: bool, ghost j: int)
    requires UniqueBut(ix, i) && ix.chain.Inner(x, i)
    modifies ix.chain`s, x`value, x`prior, x`next, ix.chain.s.nodes`prior, ix.chain.s.nodes`next, ix.chain.buckets`prior
    ensures ok <==> accept && !old(ClashBut(ix, i, ix.key(v)))
    ensures ok ==> Unique(ix) && x.value == v && ix.Moved(x, ix.chain.s, j, old(ix.chain.s), i) && ix.Leads(j)
    ensures !ok ==> ix.Wired() && ix.chain.s == old(ix.chain.s) && x.value == old(x.value)
  {
    ghost var s0 := ix.chain.s;
    var undo := Drop(ix, x, i, ix.key(v));
    ok, j := LinkOrRestore(ix, x, v, accept, undo, s0, i);
  }

  // replace_: x takes the value v exactly if no other element has an equivalent key and the other indices accept it;
  // if not, the chain and every pointer of it are as before.
  method Replace(ix: Index, x: Cell, v: int, accept: bool, ghost i: int) returns (ok: bool, ghost j: int)
    requires Unique(ix) && ix.chain.Inner(x, i)
    modifies ix.chain`s, x`value, x`prior, x`next, ix.chain.s.nodes`prior, ix.chain.s.nodes`next, ix.chain.buckets`prior
    ensures Unique(ix) && (ok <==> accept && !old(ClashBut(ix, i, ix.key(v))))
    ensures ok ==> x.value == v && ix.Moved(x, ix.chain.s, j, old(ix.chain.s), i)
    ensures ok ==> if old(ix.eq(ix.key(v), ix.key(x.value))) then j == i else ix.Leads(j)
    ensures !ok ==> ix.chain.s == old(ix.chain.s) && x.value == old(x.value)
  {
    ix.ValidIsArranged();
    if ix.eq(ix.key(v), ix.key(x.value)) {
      EquivalentHasNoClash(ix, i, ix.key(v));
      ok, j := accept, i;
      if accept {
        ix.ReplaceInPlace(x, v, i);
      }
    } else {
      ok, j := Relink(ix, x, v, accept, i);
      ix.ValidIsArranged();
    }
  }

  lemma EquivalentHasNoClash(ix: Index, i: int, k: int)
    requires Unique(ix) && 0 <= i < Last(ix.chain.s) && ix.eq(k, ix.Q(i))
    ensures !ClashBut(ix, i, k)
  {
    forall m {:trigger ix.Q(m)} | 0 <= m < Last(ix.chain.s) && m != i ensures !ix.eq(k, ix.Q(m)) {
      ix.EqualTo(k, ix.Q(i), ix.Q(m));
      KeysApart(ix, -1, i, m);
    }
  }

  // Whether the index, with the key x has now, is a unique one as it is.
  method KeepsPlace(ix: Index, x: Cell, ghost i: int) returns (b: bool)
    requires UniqueBut(ix, i) && ix.chain.Inner(x, i)
    ensures UniqueBut(ix, i) && ix.chain.Inner(x, i) && (b <==> Unique(ix))
    ensures b ==> !ClashBut(ix, i, ix.key(x.value)) && ix.Moved(x, ix.chain.s, i, ix.chain.s, i)
  {
    StaysIsUnique(ix, i);
    b := InPlace(ix, x, ix.key(x.value), ix.Position(ix.key(x.value)), i);
  }

  // modify_rollback_: x, whose value was changed, is placed by it under the same condition, and the chain unchanged if
  // not.
  method ModifyRollback(ix: Index, x: Cell, accept: bool, ghost i: int) returns (ok: bool, ghost j: int)
    requires UniqueBut(ix, i) && ix.chain.Inner(x, i)
    modifies ix.chain`s, x`value, x`prior, x`next, ix.chain.s.nodes`prior, ix.chain.s.nodes`next, ix.chain.buckets`prior
    ensures (ok <==> accept && !old(ClashBut(ix, i, ix.key(x.value)))) && x.value == old(x.value)
    ensures ok ==> Unique(ix) && ix.Moved(x, ix.chain.s, j, old(ix.chain.s), i)
    ensures ok ==> if old(Unique(ix)) then j == i else ix.Leads(j)
    ensures !ok ==> ix.Wired() && ix.chain.s == old(ix.chain.s)
  {
    var b := KeepsPlace(ix, x, i);
    if b {
      ok, j := accept, i;
    } else {
      ok, j := Relink(ix, x, x.value, accept, i);
    }
  }

  // modify_: x, whose value was changed, is placed by it, and taken out if another element has an
  // equivalent key or the other indices refuse.
  method Modify(ix: Index, x: Cell, accept: bool, ghost i: int) returns (ok: bool, ghost j: int)
    requires UniqueBut(ix, i) && ix.chain.Inner(x, i)
    modifies ix.chain`s, x`value, x`prior, x`next, ix.chain.s.nodes`prior, ix.chain.s.nodes`next, ix.chain.buckets`prior
    ensures Unique(ix) && (ok <==> accept && !old(ClashBut(ix, i, ix.key(x.value)))) && x.value == old(x.value)
    ensures ok ==> ix.Moved(x, ix.chain.s, j, old(ix.chain.s), i)
    ensures ok ==> if old(Unique(ix)) then j == i else ix.Leads(j)
    ensures !ok ==> ix.chain.s.nodes == ix.Without(old(ix.chain.s), i)
  {
    ghost var s0 := ix.chain.s;
    ok, j := PlaceOrDrop(ix, x, i);
    if ok && !accept {
      EraseMoved(ix, x, j, s0, i);
      ok := false;
    }
  }

  // x, which has moved from place i of s0, is taken out.
  method EraseMoved(ix: Index, x: Cell, ghost j: int, ghost s0: Layout, ghost i: int)
    requires Unique(ix) && 0 <= j < Last(ix.chain.s) && Inside(s0, i) && ix.Moved(x, ix.chain.s, j, s0, i)
    modifies ix.chain`s, x`prior, x`next, s0.nodes`prior, s0.nodes`next, ix.chain.buckets`prior
    ensures Unique(ix) && ix.chain.s.nodes == ix.Without(s0, i)
  {
    ix.MovedOut(x, ix.chain.s, j, s0, i);
    EraseAmong(ix, x, j, (set c <- s0.nodes) + {x});
  }

  // x is taken out of the nodes of cs.
  method EraseAmong(ix: Index, x: Cell, ghost j: int, ghost cs: set<Cell>)
    requires Unique(ix) && ix.chain.Inner(x, j) && forall c <- ix.chain.s.nodes :: c in cs
    modifies ix.chain`s, cs`prior, cs`next, ix.chain.buckets`prior
    ensures Unique(ix) && ix.chain.s == Dropped(old(ix.chain.s), j)
  {
    UniqueIsUniqueBut(ix, j);
    var _ := Erase(ix, x, j);
  }

  lemma UniqueIsUniqueBut(ix: Index, i: int)
    requires Unique(ix)
    ensures UniqueBut(ix, i)
  {
  }

  method PlaceOrDrop(ix: Index, x: Cell, ghost i: int) returns (ok: bool, ghost j: int)
    requires UniqueBut(ix, i) && ix.chain.Inner(x, i)
    modifies ix.chain`s, x`prior, x`next, ix.chain.s.nodes`prior, ix.chain.s.nodes`next, ix.chain.buckets`prior
    ensures Unique(ix) && (ok <==> !old(ClashBut(ix, i, ix.key(x.value))))
    ensures ok ==> 0 <= j < Last(ix.chain.s) && ix.Moved(x, ix.chain.s, j, old(ix.chain.s), i)
    ensures ok ==> if old(Unique(ix)) then j == i else ix.Leads(j)
    ensures !ok ==> ix.chain.s.nodes == ix.Without(old(ix.chain.s), i)
  {
    var b := KeepsPlace(ix, x, i);
    if b {
      ok, j := true, i;
    } else {
      ok, j := MoveOrDrop(ix, x, i);
    }
  }

  method MoveOrDrop(ix: Index, x: Cell, ghost i: int) returns (ok: bool, ghost j: int)
    requires UniqueBut(ix, i) && ix.chain.Inner(x, i)
    modifies ix.chain`s, x`prior, x`next, ix.chain.s.nodes`prior, ix.chain.s.nodes`next, ix.chain.buckets`prior
    ensures Unique(ix) && (ok <==> !old(ClashBut(ix, i, ix.key(x.value))))
    ensures ok ==> ix.Leads(j) && ix.Moved(x, ix.chain.s, j, old(ix.chain.s), i)
    ensures !ok ==> ix.chain.s.nodes == ix.Without(old(ix.chain.s), i)
  {
    ghost var s0 := ix.chain.s;
    var _ := Drop(ix, x, i, ix.key(x.value));
    ok, j := InsertAgain(ix, x, s0, i);
  }

  method InsertAgain(ix: Index, x: Cell, ghost s0: Layout, ghost i: int) returns (ok: bool, ghost j: int)
    requires Unique(ix) && x !in ix.chain.s.nodes && x !in ix.chain.buckets && Inside(s0, i)
    requires ix.chain.s.nodes == ix.Without(s0, i)
    modifies ix.chain`s, x`prior, x`next, ix.chain.s.nodes`prior, ix.chain.s.nodes`next, ix.chain.buckets`prior
    ensures Unique(ix) && (ok <==> old(ix.NoneEqual(ix.key(x.value), 0, Last(ix.chain.s))))
    ensures ok ==> ix.Leads(j) && ix.Moved(x, ix.chain.s, j, s0, i)
    ensures !ok ==> ix.chain.s.nodes == ix.Without(s0, i)
  {
    var pos;
    ok, pos, j := Insert(ix, x);
  }
}
