/** Rehashing a hashed index, unique or not, makes it one over the new array of buckets, or leaves it as it was. */
module HashedIndexRehash {

  import opened Ordering
  import opened HashLayout
  import opened HashIndexNode
  import opened HashedIndex
  import opened HashUniqueNode
  import R = HashRehash
  import Z = HashResize
  import Q = HashUniqueRehash
  import U = HashedUniqueIndex

  // The buckets of the chain are those of the array.
  ghost predicate Arrayed(ix: Index)
    reads ix.chain`buckets
  {
    R.Buckets(ix.buckets) && R.SetOf(ix.buckets, ix.chain.buckets)
  }

  lemma HeaderBucket(ix: Index)
    requires ix.Wired() && Arrayed(ix)
    ensures B(ix.chain.s, Last(ix.chain.s)) == ix.buckets[|ix.buckets| - 1]
  {
    assert HomeOk(ix.chain.s, ix.chain.buckets, Last(ix.chain.s));
  }

  // The hashes of the elements, in their order.
  ghost predicate Hashes(ix: Index, hs: seq<nat>)
    requires Sized(ix.chain.s)
    reads ix.chain, ix.chain.s.nodes`value
  {
    && |hs| == Last(ix.chain.s)
    && forall j {:trigger hs[j]} {:trigger ix.Q(j)} | 0 <= j < |hs| :: hs[j] == ix.hash(ix.Q(j))
  }

  // A valid index is ready to be rehashed.
  lemma ValidIsHashed(ix: Index, hs: seq<nat>)
    requires ix.Valid() && Arrayed(ix) && Hashes(ix, hs)
    ensures R.Bucketed(ix.chain.s, ix.buckets, hs) && Z.AlikeHashed(ix.chain.s, hs)
  {
    var s := ix.chain.s;
    HeaderBucket(ix);
    forall j | 0 <= j < Last(s) ensures R.Homed(s, ix.buckets, hs, j) {
      assert hs[j] == ix.hash(ix.Q(j));
    }
    forall i, j {:trigger hs[i], hs[j]} | 0 <= i < |hs| && 0 <= j < |hs| && G(s, i) == G(s, j)
      ensures hs[i] == hs[j]
    {
      assert ix.eq(ix.Q(i), ix.Q(j));
    }
  }

  // Nodes of different groups stay in different groups.
  lemma GroupsApart(s: Layout, t: Layout, hs: seq<nat>, ns: seq<Cell>, homes: seq<Cell>, pos: seq<int>, i: int, j: int)
    requires Z.Kept(s, t, hs, ns, homes, pos) && 0 <= i < |pos| && 0 <= j < |pos| && G(t, pos[i]) == G(t, pos[j])
    ensures G(s, i) == G(s, j)
  {
    assert R.Stands(s, t, i, pos[i], homes[i]) && R.Stands(s, t, j, pos[j], homes[j]);
    Unfold(s, i);
    Unfold(t, pos[j]);
    HeaderApart(s, i);
    var k := i + (pos[j] - pos[i]);
    SameGroup(s, i, k);
    assert pos[k] - pos[i] == k - i;
    Z.CameOnce(s, t, homes, pos, k);
    Z.CameOnce(s, t, homes, pos, j);
  }

  // The groups of s are those of the keys, and the hashes are hs.
  ghost predicate Known(ix: Index, s: Layout, hs: seq<nat>)
    reads s.nodes`value
  {
    && Sized(s) && |hs| == Last(s) && Equivalence(ix.eq) && Compatible(ix.eq, ix.hash)
    && (forall i, j {:trigger ix.Key(s, i), ix.Key(s, j)} | 0 <= i < |hs| && 0 <= j < |hs| ::
      ix.eq(ix.Key(s, i), ix.Key(s, j)) <==> G(s, i) == G(s, j))
    && (forall j {:trigger hs[j]} | 0 <= j < |hs| :: hs[j] == ix.hash(ix.Key(s, j)))
  }

  lemma ValidIsKnown(ix: Index, hs: seq<nat>)
    requires ix.Valid() && Hashes(ix, hs)
    ensures Known(ix, ix.chain.s, hs)
  {
    ix.ValidIsArranged();
    forall j {:trigger hs[j]} | 0 <= j < |hs| ensures hs[j] == ix.hash(ix.Key(ix.chain.s, j)) {
      assert ix.Key(ix.chain.s, j) == ix.Q(j);
    }
  }

  // The new layout is that of an index with the new buckets.
  lemma KeptIsArranged(ix: Index, s: Layout, t: Layout, hs: seq<nat>, homes: seq<Cell>, pos: seq<int>)
    requires |ix.buckets| > 1 && Z.Kept(s, t, hs, ix.buckets, homes, pos) && Known(ix, s, hs)
    ensures ix.Arranged(t)
  {
    forall p | 0 <= p < Last(t)
      ensures var j := Z.Came(s, t, homes, pos, p);
        ix.Key(t, p) == ix.Key(s, j) && B(t, p) == ix.buckets[ix.Position(ix.Key(t, p))]
    {
      var j := Z.Came(s, t, homes, pos, p);
      assert R.Stands(s, t, j, pos[j], homes[j]) && R.NewHome(hs, ix.buckets, homes, j);
      assert hs[j] == ix.hash(ix.Key(s, j));
    }
    forall p, q {:trigger ix.Key(t, p), ix.Key(t, q)} | 0 <= p < Last(t) && 0 <= q < Last(t)
      ensures ix.eq(ix.Key(t, p), ix.Key(t, q)) <==> G(t, p) == G(t, q)
    {
      var i, j := Z.Came(s, t, homes, pos, p), Z.Came(s, t, homes, pos, q);
      if G(t, p) == G(t, q) {
        GroupsApart(s, t, hs, ix.buckets, homes, pos, i, j);
      }
      assert ix.eq(ix.Key(s, i), ix.Key(s, j)) <==> G(s, i) == G(s, j);
    }
  }

  // The hashes of the first n elements.
  ghost function FirstHashes(ix: Index, n: int): (hs: seq<nat>)
    requires Sized(ix.chain.s) && 0 <= n <= Last(ix.chain.s)
    reads ix.chain, ix.chain.s.nodes`value
    ensures |hs| == n && forall j {:trigger hs[j]} | 0 <= j < n :: hs[j] == ix.hash(ix.Q(j))
    decreases n
  {
    if n == 0 then [] else FirstHashes(ix, n - 1) + [ix.hash(ix.Q(n - 1))]
  }

  ghost function AllHashes(ix: Index): (hs: seq<nat>)
    requires Sized(ix.chain.s)
    reads ix.chain, ix.chain.s.nodes`value
    ensures Hashes(ix, hs)
  {
    FirstHashes(ix, Last(ix.chain.s))
  }

  // to is ix with the array ns in the place of its own.
  ghost predicate Taken(ix: Index, to: Index, ns: seq<Cell>) {
    to.chain == ix.chain && to.buckets == ns && to.key == ix.key && to.eq == ix.eq && to.hash == ix.hash
  }

  lemma TakenIsValid(to: Index, s: Layout, hs: seq<nat>, homes: seq<Cell>, pos: seq<int>)
    requires Linked(to.chain.s, to.chain.buckets) && to.chain.buckets == (set b <- to.buckets) && |to.buckets| > 1
    requires Z.Kept(s, to.chain.s, hs, to.buckets, homes, pos) && Known(to, s, hs) && N(s, Last(s)) == to.chain.end
    ensures to.Valid() && Arrayed(to)
  {
    var ns := to.buckets;
    KeptIsArranged(to, s, to.chain.s, hs, homes, pos);
    forall m {:trigger ns[m]} | 0 <= m < |ns| - 1 ensures ns[m] in to.chain.buckets && ns[m] != ns[|ns| - 1] {
      assert R.OtherBuckets(ns, m, |ns| - 1);
    }
    to.ValidIsArranged();
  }

  // The chain has come to the layout t, and the new buckets take the place of the old.
  method TakeOver(ix: Index, ns: seq<Cell>, ghost s: Layout, ghost t: Layout, ghost hs: seq<nat>,
      ghost homes: seq<Cell>, ghost pos: seq<int>)
      returns (to: Index)
    requires Linked(t, set b <- ns) && |ns| > 1 && Z.Kept(s, t, hs, ns, homes, pos) && Known(ix, s, hs)
    requires N(s, Last(s)) == ix.chain.end
    modifies ix.chain`s, ix.chain`buckets
    ensures to.Valid() && Arrayed(to) && Taken(ix, to, ns) && ix.chain.s == t
  {
    Swap(ix.chain, t, set b <- ns);
    to := new Index.Over(ix.chain, ns, ix.key, ix.eq, ix.hash);
    KnownAlike(ix, to, s, hs);
    TakenIsValid(to, s, hs, homes, pos);
  }

  ghost method Swap(c: Chain, t: Layout, bs: set<Cell>)
    modifies c`s, c`buckets
    ensures c.s == t && c.buckets == bs
  {
    c.s, c.buckets := t, bs;
  }

  lemma KnownAlike(ix: Index, to: Index, s: Layout, hs: seq<nat>)
    requires Known(ix, s, hs) && Taken(ix, to, to.buckets)
    ensures Known(to, s, hs)
  {
    forall j | 0 <= j < |hs| ensures to.Key(s, j) == ix.Key(s, j) && hs[j] == to.hash(to.Key(s, j)) {
    }
  }

  // Single nodes in the buckets of their hashes keep what there is to keep.
  lemma SinglesAreKept(s: Layout, t: Layout, hs: seq<nat>, ns: seq<Cell>, homes: seq<Cell>, pos: seq<int>)
    requires Singles(s) && R.Rehashed(s, t, hs, ns, homes, pos)
    ensures Z.Kept(s, t, hs, ns, homes, pos)
  {
    forall i, j {:trigger pos[i], pos[j]} | 0 <= i < |pos| && 0 <= j < |pos| && G(s, i) == G(s, j) ensures i == j {
      assert Alone(s, i) && Alone(s, j);
    }
  }

  // The nodes pass, of a unique index one by one; if the hash throws, every pointer is as before.
  method PassUnique(ix: Index, ns: seq<Cell>, cpyEnd: Cell, size: nat, ghost hs: seq<nat>)
      returns (ok: bool, ghost t: Layout, ghost homes: seq<Cell>, ghost pos: seq<int>)
    requires ix.Valid() && Arrayed(ix) && R.Room(ix.chain.s, ix.chain.buckets, ns, cpyEnd) && Hashes(ix, hs)
    requires Singles(ix.chain.s) && size == Last(ix.chain.s)
    modifies ix.chain.s.nodes`prior, ix.chain.s.nodes`next, ix.chain.buckets`prior
    modifies cpyEnd`prior, cpyEnd`next, ns`prior
    ensures ok ==> Linked(t, set b <- ns) && Singles(t) && Z.Kept(ix.chain.s, t, hs, ns, homes, pos)
    ensures !ok ==> SamePointers(ix)
  {
    ghost var s := ix.chain.s;
    ValidIsHashed(ix, hs);
    Q.SinglesAreHashed(s, hs);
    ok, t, homes, pos := Q.UncheckedRehash(s, ix.chain.buckets, hs, ix.buckets, ns, v => ix.hash(ix.key(v)), size,
      ix.chain.end, cpyEnd);
    if ok {
      SinglesAreKept(s, t, hs, ns, homes, pos);
    } else {
      forall c <- s.nodes ensures c.prior == old(c.prior) && c.next == old(c.next) {
        var j :| Inside(s, j) && s.nodes[j] == c;
        assert N(s, j) == c;
      }
    }
  }

  // The groups of an index that is not unique pass.
  method PassNodes(ix: Index, ns: seq<Cell>, cpyEnd: Cell, ghost hs: seq<nat>)
      returns (ok: bool, ghost t: Layout, ghost homes: seq<Cell>, ghost pos: seq<int>)
    requires ix.Valid() && Arrayed(ix) && R.Room(ix.chain.s, ix.chain.buckets, ns, cpyEnd) && Hashes(ix, hs)
    modifies ix.chain.s.nodes`prior, ix.chain.s.nodes`next, ix.chain.buckets`prior
    modifies cpyEnd`prior, cpyEnd`next, ns`prior
    ensures ok ==> Linked(t, set b <- ns) && Z.Kept(ix.chain.s, t, hs, ns, homes, pos)
    ensures !ok ==> SamePointers(ix)
  {
    ghost var s := ix.chain.s;
    ValidIsHashed(ix, hs);
    ok, t, homes, pos :=
      Z.Rehash(s, ix.chain.buckets, hs, ix.buckets, ns, v => ix.hash(ix.key(v)), ix.chain.end, cpyEnd);
    forall c <- s.nodes | !ok ensures c.prior == old(c.prior) && c.next == old(c.next) {
      var j :| Inside(s, j) && s.nodes[j] == c;
      assert N(s, j) == c;
    }
  }

  twostate lemma KnownStill(ix: Index, new s: Layout, new hs: seq<nat>)
    requires old(allocated(s)) && old(Known(ix, s, hs)) && forall c <- s.nodes :: c.value == old(c.value)
    ensures Known(ix, s, hs)
  {
    forall j | 0 <= j < |hs| ensures ix.Key(s, j) == old(ix.Key(s, j)) {
      assert N(s, j) in s.nodes;
    }
  }

  twostate lemma StillWired(ix: Index)
    requires old(ix.Wired()) && SamePointers(ix)
    ensures ix.Wired()
  {
    var s := ix.chain.s;
    forall i | Inside(s, i) ensures PriorOk(s, i) && NextOk(s, i) && HomeOk(s, ix.chain.buckets, i) {
      assert old(PriorOk(s, i)) && old(NextOk(s, i)) && old(HomeOk(s, ix.chain.buckets, i)) && N(s, i) in s.nodes;
    }
    forall b | b in ix.chain.buckets ensures Spare(s, b) {
      assert old(Spare(s, b));
    }
  }

  twostate lemma StillKeyed(ix: Index)
    requires old(Sized(ix.chain.s)) && ix.chain.s == old(ix.chain.s) && |ix.buckets| > 1
    requires old(ix.GroupedBut(-1)) && old(ix.HashedBut(-1))
    requires forall c <- ix.chain.s.nodes | c in old(ix.chain.s.nodes) :: c.value == old(c.value)
    ensures ix.GroupedBut(-1) && ix.HashedBut(-1)
  {
    var s := ix.chain.s;
    forall j {:trigger ix.Q(j)} | 0 <= j < Last(s) ensures ix.Q(j) == old(ix.Q(j)) {
      assert N(s, j) in s.nodes;
    }
  }

  // The nodes pass, the index is still to be changed; if the hash throws, the index and every pointer are as before.
  method Pass(ix: Index, unique: bool, size: nat, ns: seq<Cell>, cpyEnd: Cell)
      returns (ok: bool, ghost t: Layout, ghost homes: seq<Cell>, ghost pos: seq<int>)
    requires ix.Valid() && Arrayed(ix) && R.Room(ix.chain.s, ix.chain.buckets, ns, cpyEnd)
    requires unique ==> Singles(ix.chain.s) && size == Last(ix.chain.s)
    modifies ix.chain.s.nodes`prior, ix.chain.s.nodes`next, ix.chain.buckets`prior
    modifies cpyEnd`prior, cpyEnd`next, ns`prior
    ensures Known(ix, ix.chain.s, old(AllHashes(ix))) && N(ix.chain.s, Last(ix.chain.s)) == ix.chain.end
    ensures ok ==> Linked(t, set b <- ns) && Z.Kept(ix.chain.s, t, old(AllHashes(ix)), ns, homes, pos)
    ensures ok && unique ==> Singles(t)
    ensures !ok ==> ix.Valid() && Arrayed(ix) && SamePointers(ix)
  {
    ghost var hs := AllHashes(ix);
    ValidIsKnown(ix, hs);
    if unique {
      ok, t, homes, pos := PassUnique(ix, ns, cpyEnd, size, hs);
    } else {
      ok, t, homes, pos := PassNodes(ix, ns, cpyEnd, hs);
    }
    KnownStill(ix, ix.chain.s, hs);
    if !ok {
      StillWired(ix);
      StillKeyed(ix);
    }
  }

  twostate predicate SamePointers(ix: Index)
    reads ix.chain, ix.chain.s.nodes`prior, ix.chain.s.nodes`next, ix.chain.buckets`prior
  {
    && ix.chain.s == old(ix.chain.s) && ix.chain.buckets == old(ix.chain.buckets)
    && (forall c <- ix.chain.s.nodes | c in old(ix.chain.s.nodes) :: c.prior == old(c.prior) && c.next == old(c.next))
    && (forall b <- ix.chain.buckets | b in old(ix.chain.buckets) :: b.prior == old(b.prior))
  }

  // Rehashes ix to the buckets ns; when the hash throws, the index and every pointer of it are as before.
  method Rehash(ix: Index, unique: bool, size: nat, ns: seq<Cell>, cpyEnd: Cell)
      returns (ok: bool, to: Index, ghost homes: seq<Cell>, ghost pos: seq<int>)
    requires ix.Valid() && Arrayed(ix) && R.Room(ix.chain.s, ix.chain.buckets, ns, cpyEnd)
    requires unique ==> U.Unique(ix) && size == Last(ix.chain.s)
    modifies ix.chain`s, ix.chain`buckets, ix.chain.s.nodes`prior, ix.chain.s.nodes`next, ix.chain.buckets`prior
    modifies cpyEnd`prior, cpyEnd`next, ns`prior
    ensures to.Valid() && Arrayed(to) && (unique ==> U.Unique(to))
    ensures Taken(ix, to, if ok then ns else ix.buckets)
    ensures ok ==> Z.Kept(old(ix.chain.s), ix.chain.s, old(AllHashes(ix)), ns, homes, pos)
    ensures forall j | 0 <= j < Last(to.chain.s) :: to.InBucket(j)
    ensures !ok ==> SamePointers(ix)
  {
    ghost var t;
    to := ix;
    ok, t, homes, pos := Pass(ix, unique, size, ns, cpyEnd);
    if ok {
      to := TakeOver(ix, ns, ix.chain.s, t, old(AllHashes(ix)), homes, pos);
    }
    to.AllInBuckets();
  }
}
