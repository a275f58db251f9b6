/** Loading a saved order. */
module IndexLoader {

  import opened NodeList
  import opened Ordering
  import opened IndexSaver

  // The list and how many pointers were read, or a pointer to no node of the list, or no more pointers.
  datatype Outcome = Loaded(list: seq<int>, next: nat) | Corrupt

  // Nothing comes after the end, or after a fault.
  lemma {:induction false} Stuck(less: Less, ar: seq<Pointer<int>>, k: nat, n: nat, list: seq<int>)
    requires k < n <= |ar| && (Read(less, ar, k, list).Ended? || Read(less, ar, k, list).Broken?)
    ensures Read(less, ar, n, list).Broken?
    decreases n
  {
    if k < n - 1 { Stuck(less, ar, k, n - 1, list); }
  }

  ghost predicate Going(l: Load) {
    l.Waiting? || l.Moving?
  }

  // No stretch of the stream is a saved order.
  ghost predicate NeverEnds(less: Less, ar: seq<Pointer<int>>, list: seq<int>) {
    forall n: nat {:trigger Read(less, ar, n, list)} | n <= |ar| :: !Read(less, ar, n, list).Ended?
  }

  lemma NoEnd(less: Less, ar: seq<Pointer<int>>, k: nat, list: seq<int>)
    requires k <= |ar| && Going(Read(less, ar, k, list))
    requires k < |ar| ==> Read(less, ar, k + 1, list).Broken?
    ensures NeverEnds(less, ar, list)
  {
    forall n: nat | n <= |ar| ensures !Read(less, ar, n, list).Ended? {
      if n > k + 1 { Stuck(less, ar, k + 1, n, list); }
      if n < k && !Going(Read(less, ar, n, list)) { Stuck(less, ar, n, k, list); }
    }
  }

  // One node of a chunk, to be moved behind prev, or to the front if it is prev itself; false if that cannot be.
  method LoadNode(less: Less, l: seq<int>, prev: int, node: int) returns (ok: bool, t: seq<int>)
    requires prev in l
    ensures Step(less, Moving(prev, l), To(node)) == if ok then Moving(node, t) else Broken
    ensures ok ==> node in t
  {
    if node !in l {
      return false, l;
    }
    var p := To(prev);
    if node == prev { p := Null; }
    if p.To? && less(node, p.node) {
      return false, l;
    }
    t := MoveAfter(l, Behind(l, less, p, node), node);
    ok := true;
    assert t[Slot(l, Behind(l, less, p, node), node)] == node;
  }

  // The chunks of the stream ar, each moved behind the node it starts with.
  method Load(less: Less, ar: seq<Pointer<int>>, list: seq<int>) returns (r: Outcome)
    ensures r.Loaded? ==> r.next <= |ar| && Read(less, ar, r.next, list) == Ended(r.list)
    ensures r.Corrupt? ==> NeverEnds(less, ar, list)
  {
    var l, k := list, 0;
    if |ar| == 0 {
      NoEnd(less, ar, 0, list);
      return Corrupt;
    }
    var prev := ar[0];
    k := 1;
    if prev.Null? {
      return Loaded(l, k);
    }
    if prev.node !in l {
      NoEnd(less, ar, k - 1, list);
      return Corrupt;
    }
    while prev.To?
      invariant 1 <= k <= |ar|
      invariant prev.To? ==> Read(less, ar, k, list) == Moving(prev.node, l) && prev.node in l
      invariant prev.Null? ==> Read(less, ar, k, list) == Ended(l)
      decreases |ar| - k
    {
      var done := false;
      while !done
        invariant 1 <= k <= |ar|
        invariant !done ==> prev.To? && Read(less, ar, k, list) == Moving(prev.node, l) && prev.node in l
        invariant done ==> Read(less, ar, k, list) == Waiting(l)
        decreases |ar| - k
      {
        if k == |ar| {
          NoEnd(less, ar, k, list);
          return Corrupt;
        }
        var node := ar[k];
        k := k + 1;
        if node.Null? {
          done := true;
        } else {
          var ok;
          ok, l := LoadNode(less, l, prev.node, node.node);
          if !ok {
            NoEnd(less, ar, k - 1, list);
            return Corrupt;
          }
          prev := node;
        }
      }
      if k == |ar| {
        NoEnd(less, ar, k, list);
        return Corrupt;
      }
      prev := ar[k];
      k := k + 1;
      if prev.To? && prev.node !in l {
        NoEnd(less, ar, k - 1, list);
        return Corrupt;
      }
    }
    return Loaded(l, k);
  }

  // Loading what was saved gives the order saved, and reads all of the stream: start is what the loading index has, and
  // target the range saved, all of the index or the elements of it that are equivalent to others.
  method SaveAndLoad(less: Less, base: seq<int>, whole: seq<int>, target: seq<int>, start: seq<int>)
      returns (r: Outcome, ar: Archive)
    requires StrictWeakOrder(less) && SameNodes(base, whole) && Within(target, base) && Ascending(less, target)
    requires Covers(less, whole, target) && Start(less, base, start)
    ensures r == Loaded(whole, |ar.pointers|)
    ensures Rising(PositionsOf(base, target)) ==> ar.pointers == [Null]
  {
    ar := new Archive(start, less);
    ghost var c := SaveIndex(base, whole, target, ar);
    r := Load(less, ar.pointers, start);
    if r.Loaded? && r.next < |ar.pointers| { Stuck(less, ar.pointers, r.next, |ar.pointers|, start); }
  }

  // An index without keys: any order is restored from any other, and one that was not changed takes one pointer.
  method SaveAndLoadSequence(base: seq<int>, target: seq<int>) returns (r: Outcome, ar: Archive)
    requires SameNodes(base, target)
    ensures r == Loaded(target, |ar.pointers|)
    ensures base == target ==> ar.pointers == [Null]
  {
    var less: Less := (x, y) => false;
    SequenceStarts(base, target, less);
    r, ar := SaveAndLoad(less, base, target, target, base);
    if base == target {
      forall i | 0 <= i < |base| ensures M.At(PositionsOf(base, base), i) == i { PosAt(base, i); }
    }
  }

  lemma SequenceStarts(base: seq<int>, target: seq<int>, less: Less)
    requires SameNodes(base, target) && forall x, y {:trigger less(x, y)} :: !less(x, y)
    ensures StrictWeakOrder(less) && Ascending(less, target) && Covers(less, target, target) && Start(less, base, base)
  {
    forall a, b | 0 <= a < b < |target| ensures Covered(less, target, target, a, b) {
      PosAt(target, a);
      PosAt(target, b);
    }
  }

  // The elements that stand beside an equivalent one.
  ghost predicate Beside(less: Less, whole: seq<int>, i: int)
    requires 0 <= i < |whole|
  {
    || (0 < i && !less(At(whole, i - 1), At(whole, i)))
    || (i + 1 < |whole| && !less(At(whole, i), At(whole, i + 1)))
  }

  // They are all a range has to have.
  lemma DuplicatesCover(less: Less, whole: seq<int>, places: seq<int>, target: seq<int>)
    requires StrictWeakOrder(less) && Distinct(whole) && Ascending(less, whole) && |target| == |places|
    requires forall j {:trigger places[j]} | 0 <= j < |places| ::
      0 <= places[j] < |whole| && At(target, j) == At(whole, places[j])
    requires forall j, k {:trigger places[j], places[k]} | 0 <= j < k < |places| :: places[j] < places[k]
    requires forall i {:trigger Beside(less, whole, i)} | 0 <= i < |whole| && Beside(less, whole, i) :: i in places
    ensures Within(target, whole) && Ascending(less, target) && Covers(less, whole, target)
  {
    forall i, j | 0 <= i < |target| && 0 <= j < |target| && i != j ensures Differ(target, i, j) {
      assert places[i] != places[j];
      Apart(whole, places[i], places[j]);
    }
    forall y | y in target ensures y in whole {
      var p := places[Pos(target, y)];
      assert At(whole, p) in whole;
    }
    forall x, y {:trigger Precedes(target, x, y)} | x in target && y in target && Precedes(target, x, y)
      ensures !less(y, x)
    {
      var p, q := places[Pos(target, x)], places[Pos(target, y)];
      TargetAscends(less, whole, p, q);
    }
    forall a, b | 0 <= a < b < |whole| ensures Covered(less, whole, target, a, b) {
      if Equivalent(less, At(whole, a), At(whole, b)) {
        TwinsBeside(less, whole, a, b);
        var j :| 0 <= j < |places| && places[j] == a;
        var k :| 0 <= k < |places| && places[k] == b;
        PosAt(target, j);
        PosAt(target, k);
      }
    }
  }

  lemma TwinsBeside(less: Less, whole: seq<int>, a: int, b: int)
    requires StrictWeakOrder(less) && Distinct(whole) && Ascending(less, whole) && 0 <= a < b < |whole|
    requires Equivalent(less, At(whole, a), At(whole, b))
    ensures Beside(less, whole, a) && Beside(less, whole, b)
  {
    var x, y, u, v := At(whole, a), At(whole, b), At(whole, a + 1), At(whole, b - 1);
    if a + 1 < b {
      TargetAscends(less, whole, a + 1, b);
      TargetAscends(less, whole, a, b - 1);
      NotBoth(less, x, y, u);
      NotBoth(less, v, x, y);
    }
  }

  // An ordered index: saving the elements beside equivalent ones is enough.
  method SaveAndLoadOrdered(less: Less, base: seq<int>, whole: seq<int>, ghost places: seq<int>, target: seq<int>,
      start: seq<int>)
      returns (r: Outcome, ar: Archive)
    requires StrictWeakOrder(less) && SameNodes(base, whole) && Ascending(less, whole) && Start(less, base, start)
      && |target| == |places|
    requires forall j {:trigger places[j]} | 0 <= j < |places| ::
      0 <= places[j] < |whole| && At(target, j) == At(whole, places[j])
    requires forall j, k {:trigger places[j], places[k]} | 0 <= j < k < |places| :: places[j] < places[k]
    requires forall i {:trigger Beside(less, whole, i)} | 0 <= i < |whole| && Beside(less, whole, i) :: i in places
    ensures r == Loaded(whole, |ar.pointers|)
  {
    DuplicatesCover(less, whole, places, target);
    forall y | y in target ensures y in base { assert y in whole; }
    r, ar := SaveAndLoad(less, base, whole, target, start);
  }
}
