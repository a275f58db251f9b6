/** Saving the order of an index as a stream of pointers, and loading it into an index that has another. */
module IndexSaver {

  import opened NodeList
  import opened Ordering
  import M = IndexMatcher
  import T = IndexStream

  // What the loader has made of a stream: it waits for a chunk, or for the next node of one, or it has ended.
  datatype Load =
    | Waiting(list: seq<int>)
    | Moving(prev: int, list: seq<int>)
    | Ended(list: seq<int>)
    | Broken

  // How many nodes the list starts with that are less than x: where its lower bound is.
  function Lower(list: seq<int>, less: Less, x: int): (i: nat)
    ensures i <= |list|
  {
    if list == [] || list[0] == x || !less(list[0], x) then 0 else 1 + Lower(list[1..], less, x)
  }

  // The node behind which x goes that is to go behind p: in an ordered index it does not leave the nodes equivalent to
  // it.
  function Behind(list: seq<int>, less: Less, p: Pointer<int>, x: int): (q: Pointer<int>)
    ensures q.To? ==> q == p || (q.node in list && q.node != x && less(q.node, x))
  {
    if p.To? && !less(p.node, x) then p
    else
      var i := Lower(list, less, x);
      LowerCuts(list, less, x);
      if i == 0 then Null else To(At(list, i - 1))
  }

  lemma {:induction false} LowerCuts(list: seq<int>, less: Less, x: int)
    ensures forall j {:trigger At(list, j)} | 0 <= j < Lower(list, less, x) :: less(At(list, j), x) && At(list, j) != x
    ensures Lower(list, less, x) < |list| ==>
      At(list, Lower(list, less, x)) == x || !less(At(list, Lower(list, less, x)), x)
  {
    if list != [] && list[0] != x && less(list[0], x) {
      LowerCuts(list[1..], less, x);
      forall j | 0 < j < Lower(list, less, x) ensures less(At(list, j), x) && At(list, j) != x {
        assert At(list, j) == At(list[1..], j - 1);
      }
      if Lower(list, less, x) < |list| {
        assert At(list, Lower(list, less, x)) == At(list[1..], Lower(list, less, x) - 1);
      }
    }
  }

  // The loader reads one pointer; the index rearranges, or finds that x is to go behind a greater node.
  function Step(less: Less, l: Load, p: Pointer<int>): Load {
    match l
    case Waiting(list) => if p.Null? then Ended(list) else if p.node in list then Moving(p.node, list) else Broken
    case Moving(prev, list) =>
      if p.Null? then Waiting(list)
      else if p.node !in list || prev !in list then Broken
      else Rearrange(less, list, if p.node == prev then Null else To(prev), p.node)
    case Ended(_) => Broken
    case Broken => Broken
  }

  function Rearrange(less: Less, list: seq<int>, p: Pointer<int>, x: int): Load
    requires x in list && (p.To? ==> p.node in list && p.node != x)
  {
    if p.To? && less(x, p.node) then Broken else Moving(x, MoveAfter(list, Behind(list, less, p, x), x))
  }

  // What the loader has made of the first k pointers, when it started with list.
  function Read(less: Less, ar: seq<Pointer<int>>, k: nat, list: seq<int>): Load
    requires k <= |ar|
  {
    if k == 0 then Waiting(list) else Step(less, Read(less, ar, k - 1, list), ar[k - 1])
  }

  lemma {:induction false} ReadPrefix(less: Less, ar: seq<Pointer<int>>, p: Pointer<int>, k: nat, list: seq<int>)
    requires k <= |ar|
    ensures Read(less, ar + [p], k, list) == Read(less, ar, k, list)
  {
    if k > 0 { ReadPrefix(less, ar, p, k - 1, list); }
  }

  ghost predicate Equivalent(less: Less, x: int, y: int) {
    !less(x, y) && !less(y, x)
  }

  // No node is less than an earlier one.
  ghost predicate Ascending(less: Less, list: seq<int>) {
    forall x, y {:trigger Precedes(list, x, y)} | x in list && y in list && Precedes(list, x, y) :: !less(y, x)
  }

  // The first i nodes of target and the marked ones, as far as they are equivalent, are in the same order in list.
  ghost predicate Sorted(less: Less, target: seq<int>, ordered: set<int>, list: seq<int>, i: int) {
    forall a, b {:trigger InOrder(less, target, list, a, b)} |
      Settled(target, ordered, i, a) && Settled(target, ordered, i, b) && a < b ::
      InOrder(less, target, list, a, b)
  }

  ghost predicate Settled(target: seq<int>, ordered: set<int>, i: int, a: int) {
    0 <= a < |target| && (a < i || At(target, a) in ordered)
  }

  ghost predicate InOrder(less: Less, target: seq<int>, list: seq<int>, a: int, b: int)
    requires 0 <= a < |target| && 0 <= b < |target|
  {
    && At(target, a) in list && At(target, b) in list
    && (Equivalent(less, At(target, a), At(target, b)) ==> Precedes(list, At(target, a), At(target, b)))
  }

  // A list of the nodes of whole, on its way to the order target has them in.
  ghost predicate Underway(less: Less, whole: seq<int>, target: seq<int>, ordered: set<int>, list: seq<int>, i: int) {
    && StrictWeakOrder(less) && SameNodes(list, whole) && Within(target, list) && Ascending(less, list)
    && Ascending(less, target)
    && Sorted(less, target, ordered, list, i)
  }

  lemma InTarget(target: seq<int>, list: seq<int>, i: int)
    requires Within(target, list) && 0 <= i < |target|
    ensures At(target, i) in list
  {
    assert target[i] in target;
  }

  // The nodes less than x are those the list starts with.
  lemma LowerSplits(less: Less, list: seq<int>, x: int, y: int)
    requires StrictWeakOrder(less) && Distinct(list) && Ascending(less, list) && y in list
    ensures Pos(list, y) < Lower(list, less, x) <==> less(y, x)
  {
    var i := Lower(list, less, x);
    LowerCuts(list, less, x);
    assert At(list, Pos(list, y)) == y;
    if Pos(list, y) >= i {
      PosAt(list, i);
      var z := At(list, i);
      assert Pos(list, y) == i || Precedes(list, z, y);
    }
  }

  // Which of the others are before x then.
  lemma PlaceOf(less: Less, list: seq<int>, p: Pointer<int>, x: int, y: int)
    requires StrictWeakOrder(less) && Distinct(list) && Ascending(less, list) && x in list && y in list && y != x
    requires p.To? ==> p.node in list && p.node != x && !less(x, p.node)
    ensures var q := Behind(list, less, p, x);
      && (q.To? ==> q.node in list && q.node != x)
      && SameNodes(MoveAfter(list, q, x), list)
      && (Precedes(MoveAfter(list, q, x), y, x) <==>
        if p.To? && !less(p.node, x) then Pos(list, y) <= Pos(list, p.node) else less(y, x))
      && (Precedes(MoveAfter(list, q, x), x, y) <==> !Precedes(MoveAfter(list, q, x), y, x))
  {
    assert !less(x, x);
    if p.To? && !less(p.node, x) {
      MoveAfterOrders(list, p, x, y, x);
    } else {
      LowerPlace(less, list, p, x, y);
    }
  }

  // The case of going in front of the nodes equivalent to x.
  lemma LowerPlace(less: Less, list: seq<int>, p: Pointer<int>, x: int, y: int)
    requires StrictWeakOrder(less) && Distinct(list) && Ascending(less, list) && x in list && y in list && y != x
    requires p.Null? || less(p.node, x)
    ensures var q := Behind(list, less, p, x);
      && (q.To? ==> q.node in list && q.node != x)
      && SameNodes(MoveAfter(list, q, x), list)
      && (Precedes(MoveAfter(list, q, x), y, x) <==> less(y, x))
      && (Precedes(MoveAfter(list, q, x), x, y) <==> !Precedes(MoveAfter(list, q, x), y, x))
  {
    var q, i := Behind(list, less, p, x), Lower(list, less, x);
    LowerSplits(less, list, x, y);
    if i > 0 { PosAt(list, i - 1); }
    MoveAfterOrders(list, q, x, y, x);
  }

  lemma RearrangeAscends(less: Less, list: seq<int>, p: Pointer<int>, x: int)
    requires StrictWeakOrder(less) && Distinct(list) && Ascending(less, list) && x in list
    requires p.To? ==> p.node in list && p.node != x && !less(x, p.node)
    ensures var q := Behind(list, less, p, x);
      && (q.To? ==> q.node in list && q.node != x)
      && SameNodes(MoveAfter(list, q, x), list) && Ascending(less, MoveAfter(list, q, x))
  {
    var q := Behind(list, less, p, x);
    var t := MoveAfter(list, q, x);
    MoveAfterKeeps(list, q, x);
    forall y, z {:trigger Precedes(t, y, z)} | y in t && z in t && Precedes(t, y, z) ensures !less(z, y) {
      if y != x && z != x {
        MoveAfterOrders(list, q, x, y, z);
        assert Precedes(list, y, z);
      } else if z == x {
        PlaceOf(less, list, p, x, y);
        AtOrBefore(less, list, p, x, y);
      } else {
        PlaceOf(less, list, p, x, z);
        AtOrBefore(less, list, p, x, z);
      }
    }
  }

  lemma AtOrBefore(less: Less, list: seq<int>, p: Pointer<int>, x: int, y: int)
    requires StrictWeakOrder(less) && Ascending(less, list) && x in list && y in list
    requires p.To? ==> p.node in list && !less(x, p.node)
    ensures p.To? && !less(p.node, x) && Pos(list, y) <= Pos(list, p.node) ==> !less(x, y)
    ensures p.To? && !less(p.node, x) && Pos(list, y) > Pos(list, p.node) ==> !less(y, x)
    ensures less(y, x) ==> !less(x, y)
  {
    if p.To? && !less(p.node, x) {
      if Pos(list, y) < Pos(list, p.node) { assert Precedes(list, y, p.node); }
      if Pos(list, y) > Pos(list, p.node) { assert Precedes(list, p.node, y); }
      if Pos(list, y) == Pos(list, p.node) { assert At(list, Pos(list, y)) == p.node; }
    }
  }

  // The node before node i of the target, or null.
  function Prev(target: seq<int>, i: int): Pointer<int>
    requires 0 <= i < |target|
  {
    if i == 0 then Null else To(At(target, i - 1))
  }

  // Moving node i behind the node before it settles it.
  lemma MoveSettles(less: Less, whole: seq<int>, target: seq<int>, ordered: set<int>, list: seq<int>, i: int)
    requires Underway(less, whole, target, ordered, list, i) && 0 <= i < |target|
    ensures At(target, i) in list && (i > 0 ==> At(target, i - 1) in list && At(target, i - 1) != At(target, i))
    ensures var r := Rearrange(less, list, Prev(target, i), At(target, i));
      r.Moving? && r.prev == At(target, i) && Underway(less, whole, target, ordered, r.list, i + 1)
  {
    var p, x := Prev(target, i), At(target, i);
    TargetPair(less, target, list, i);
    RearrangeAscends(less, list, p, x);
    var q := Behind(list, less, p, x);
    var t := MoveAfter(list, q, x);
    forall a, b | Settled(target, ordered, i + 1, a) && Settled(target, ordered, i + 1, b) && a < b
      ensures InOrder(less, target, t, a, b)
    {
      MovedPair(less, whole, target, ordered, list, i, a, b);
    }
  }

  lemma TargetPair(less: Less, target: seq<int>, list: seq<int>, i: int)
    requires Within(target, list) && Ascending(less, target) && 0 <= i < |target|
    ensures At(target, i) in list
    ensures i > 0 ==>
      At(target, i - 1) in list && At(target, i - 1) != At(target, i) && !less(At(target, i), At(target, i - 1))
  {
    InTarget(target, list, i);
    if i > 0 {
      InTarget(target, list, i - 1);
      Apart(target, i - 1, i);
      TargetAscends(less, target, i - 1, i);
    }
  }

  lemma TargetAscends(less: Less, target: seq<int>, a: int, b: int)
    requires Distinct(target) && Ascending(less, target) && 0 <= a < b < |target|
    ensures !less(At(target, b), At(target, a))
  {
    PosAt(target, a);
    PosAt(target, b);
    assert Precedes(target, At(target, a), At(target, b));
  }

  lemma MovedPair(less: Less, whole: seq<int>, target: seq<int>, ordered: set<int>, list: seq<int>, i: int, a: int,
      b: int)
    requires Underway(less, whole, target, ordered, list, i) && 0 <= i < |target|
    requires Settled(target, ordered, i + 1, a) && Settled(target, ordered, i + 1, b) && a < b
    requires At(target, i) in list
      && (i > 0 ==>
        At(target, i - 1) in list && At(target, i - 1) != At(target, i) && !less(At(target, i), At(target, i - 1)))
    ensures var q := Behind(list, less, Prev(target, i), At(target, i));
      && (q.To? ==> q.node in list && q.node != At(target, i))
      && InOrder(less, target, MoveAfter(list, q, At(target, i)), a, b)
  {
    var p, x := Prev(target, i), At(target, i);
    var q := Behind(list, less, p, x);
    InTarget(target, list, a);
    InTarget(target, list, b);
    Apart(target, a, b);
    Apart(target, i, if a == i then b else a);
    PlaceOf(less, list, p, x, At(target, if a == i then b else a));
    if a != i && b != i {
      Apart(target, a, i);
      Apart(target, b, i);
      assert InOrder(less, target, list, a, b);
      MoveAfterOrders(list, q, x, At(target, a), At(target, b));
    } else if b == i && Equivalent(less, At(target, a), x) {
      BeforeMoved(less, whole, target, ordered, list, i, a);
    } else if a == i && Equivalent(less, x, At(target, b)) {
      AfterMoved(less, whole, target, ordered, list, i, b);
    }
  }

  // An equivalent node before node i of the target is not behind the one before node i.
  lemma BeforeMoved(less: Less, whole: seq<int>, target: seq<int>, ordered: set<int>, list: seq<int>, i: int, a: int)
    requires Underway(less, whole, target, ordered, list, i) && 0 <= a < i < |target|
      && Equivalent(less, At(target, a), At(target, i))
    ensures At(target, a) in list && At(target, i - 1) in list && !less(At(target, i - 1), At(target, i))
    ensures Pos(list, At(target, a)) <= Pos(list, At(target, i - 1))
  {
    InTarget(target, list, a);
    InTarget(target, list, i - 1);
    TargetAscends(less, target, i - 1, i);
    if a < i - 1 {
      TargetAscends(less, target, a, i - 1);
      assert InOrder(less, target, list, a, i - 1);
    }
  }

  lemma AfterMoved(less: Less, whole: seq<int>, target: seq<int>, ordered: set<int>, list: seq<int>, i: int, b: int)
    requires Underway(less, whole, target, ordered, list, i) && 0 <= i < b < |target|
      && Settled(target, ordered, i + 1, b)
    requires Equivalent(less, At(target, i), At(target, b))
    ensures At(target, b) in list
    ensures i > 0 && !less(At(target, i - 1), At(target, i)) ==>
      At(target, i - 1) in list && Pos(list, At(target, b)) > Pos(list, At(target, i - 1))
  {
    InTarget(target, list, b);
    if i > 0 && !less(At(target, i - 1), At(target, i)) {
      InTarget(target, list, i - 1);
      TargetAscends(less, target, i - 1, i);
      assert InOrder(less, target, list, i - 1, b);
    }
  }

  // Equivalent nodes of whole are in target, in their order: the nodes that target leaves out are equivalent to none.
  ghost predicate Covered(less: Less, whole: seq<int>, target: seq<int>, a: int, b: int)
    requires 0 <= a < |whole| && 0 <= b < |whole|
  {
    Equivalent(less, At(whole, a), At(whole, b)) ==>
      At(whole, a) in target && At(whole, b) in target && Precedes(target, At(whole, a), At(whole, b))
  }

  ghost predicate Covers(less: Less, whole: seq<int>, target: seq<int>) {
    && Ascending(less, whole)
    && forall a, b {:trigger Covered(less, whole, target, a, b)} | 0 <= a < b < |whole| ::
      Covered(less, whole, target, a, b)
  }

  // When all are settled, no equivalent nodes are out of order, nor others.
  lemma AllInOrder(less: Less, whole: seq<int>, target: seq<int>, ordered: set<int>, list: seq<int>, a: int, b: int)
    requires Underway(less, whole, target, ordered, list, |target|) && Covers(less, whole, target)
      && 0 <= a < b < |whole|
    ensures At(whole, a) in list && At(whole, b) in list && Precedes(list, At(whole, a), At(whole, b))
  {
    var x, y := At(whole, a), At(whole, b);
    InTarget(whole, list, a);
    InTarget(whole, list, b);
    Apart(whole, a, b);
    TargetAscends(less, whole, a, b);
    assert At(list, Pos(list, x)) != At(list, Pos(list, y));
    var p := Precedes(list, y, x);
    if Equivalent(less, x, y) {
      assert Covered(less, whole, target, a, b);
      assert InOrder(less, target, list, Pos(target, x), Pos(target, y));
    }
  }

  // Then node i of whole stands no earlier than at i, and no later.
  lemma {:induction false} NotEarlier(less: Less, whole: seq<int>, target: seq<int>, ordered: set<int>, list: seq<int>,
      i: int)
    requires Underway(less, whole, target, ordered, list, |target|) && Covers(less, whole, target) && 0 <= i < |whole|
    ensures At(whole, i) in list && i <= Pos(list, At(whole, i))
    decreases i
  {
    InTarget(whole, list, i);
    if i > 0 {
      NotEarlier(less, whole, target, ordered, list, i - 1);
      AllInOrder(less, whole, target, ordered, list, i - 1, i);
    }
  }

  lemma {:induction false} NotLater(less: Less, whole: seq<int>, target: seq<int>, ordered: set<int>, list: seq<int>,
      i: int)
    requires Underway(less, whole, target, ordered, list, |target|) && Covers(less, whole, target) && 0 <= i < |whole|
    ensures At(whole, i) in list && Pos(list, At(whole, i)) <= i
    decreases |whole| - i
  {
    InTarget(whole, list, i);
    if i < |whole| - 1 {
      NotLater(less, whole, target, ordered, list, i + 1);
      AllInOrder(less, whole, target, ordered, list, i, i + 1);
    }
  }

  // When all are settled the list is the order saved.
  lemma AllSettled(less: Less, whole: seq<int>, target: seq<int>, ordered: set<int>, list: seq<int>)
    requires Underway(less, whole, target, ordered, list, |target|) && Covers(less, whole, target)
    ensures list == whole
  {
    forall i | 0 <= i < |whole| ensures list[i] == whole[i] {
      NotEarlier(less, whole, target, ordered, list, i);
      NotLater(less, whole, target, ordered, list, i);
    }
  }

  // A marked node is settled before its turn.
  lemma MarkedSettles(less: Less, target: seq<int>, ordered: set<int>, list: seq<int>, i: int)
    requires Sorted(less, target, ordered, list, i) && 0 <= i < |target| && At(target, i) in ordered
    ensures Sorted(less, target, ordered, list, i + 1)
  {
    forall a, b | Settled(target, ordered, i + 1, a) && Settled(target, ordered, i + 1, b) && a < b
      ensures InOrder(less, target, list, a, b)
    {
      assert Settled(target, ordered, i, a) && Settled(target, ordered, i, b);
    }
  }

  /* The saver */

  // What a loader has made of the stream when the saver is at node i.
  ghost predicate Halfway(less: Less, whole: seq<int>, target: seq<int>, ordered: set<int>, l: Load, i: int,
      lastSaved: int) {
    && 0 <= i <= |target| && lastSaved >= 1
    && (l.Waiting? || l.Moving?)
    && (lastSaved >= 3 ==> l.Waiting?)
    && (lastSaved < 3 ==> l.Moving? && i >= lastSaved && l.prev == At(target, i - lastSaved))
    && Underway(less, whole, target, ordered, l.list, i)
  }

  // The stream ends with the node before node i, or with node 0 for itself.
  ghost predicate InChunk(less: Less, whole: seq<int>, target: seq<int>, ordered: set<int>, l: Load, i: int) {
    && 0 <= i < |target| && l.Moving? && l.prev == At(target, Before(i))
    && Underway(less, whole, target, ordered, l.list, i)
  }

  function Before(i: int): int {
    if i == 0 then 0 else i - 1
  }

  lemma SavePrev(less: Less, whole: seq<int>, target: seq<int>, ordered: set<int>, l: Load, i: int, lastSaved: int)
    requires Halfway(less, whole, target, ordered, l, i, lastSaved) && lastSaved > 1 && i < |target|
    ensures InChunk(less, whole, target, ordered, Step(less, l, To(At(target, Before(i)))), i)
  {
    if lastSaved == 2 {
      SaveBetween(less, whole, target, ordered, l, i);
    } else {
      InTarget(target, l.list, Before(i));
    }
  }

  // A marked node between two displaced ones goes with them.
  lemma SaveBetween(less: Less, whole: seq<int>, target: seq<int>, ordered: set<int>, l: Load, i: int)
    requires 1 < i < |target| && l.Moving? && l.prev == At(target, i - 2)
      && Underway(less, whole, target, ordered, l.list, i)
    ensures InChunk(less, whole, target, ordered, Step(less, l, To(At(target, i - 1))), i)
  {
    Unsettle(less, target, ordered, l.list, i - 1);
    MoveSettles(less, whole, target, ordered, l.list, i - 1);
  }

  lemma Unsettle(less: Less, target: seq<int>, ordered: set<int>, list: seq<int>, i: int)
    requires Sorted(less, target, ordered, list, i + 1)
    ensures Sorted(less, target, ordered, list, i)
  {
    forall a, b | Settled(target, ordered, i, a) && Settled(target, ordered, i, b) && a < b
      ensures InOrder(less, target, list, a, b)
    {
      assert Settled(target, ordered, i + 1, a) && Settled(target, ordered, i + 1, b);
    }
  }

  lemma SaveNode(less: Less, whole: seq<int>, target: seq<int>, ordered: set<int>, l: Load, i: int)
    requires InChunk(less, whole, target, ordered, l, i)
    ensures Halfway(less, whole, target, ordered, Step(less, l, To(At(target, i))), i + 1, 1)
  {
    InTarget(target, l.list, i);
    InTarget(target, l.list, Before(i));
    if i > 0 { Apart(target, i - 1, i); }
    MoveSettles(less, whole, target, ordered, l.list, i);
  }

  lemma SaveMarked(less: Less, whole: seq<int>, target: seq<int>, ordered: set<int>, l: Load, i: int, lastSaved: int)
    requires Halfway(less, whole, target, ordered, l, i, lastSaved) && i < |target| && At(target, i) in ordered
    ensures Halfway(less, whole, target, ordered,
      if lastSaved == 2 then Step(less, l, Null) else l, i + 1, lastSaved + 1)
  {
    MarkedSettles(less, target, ordered, l.list, i);
  }

  lemma SaveEnd(less: Less, whole: seq<int>, target: seq<int>, ordered: set<int>, l: Load, lastSaved: int)
    requires Halfway(less, whole, target, ordered, l, |target|, lastSaved) && Covers(less, whole, target)
    ensures Step(less, if lastSaved <= 2 then Step(less, l, Null) else l, Null) == Ended(whole)
  {
    AllSettled(less, whole, target, ordered, l.list);
  }

  // An archive being written; load is what a loader that starts from base makes of it.
  class Archive {
    var pointers: seq<Pointer<int>>
    ghost const base: seq<int>
    ghost const less: Less
    ghost var load: Load

    constructor (ghost list: seq<int>, ghost lt: Less)
      ensures Valid() && base == list && less == lt && load == Waiting(list) && pointers == []
    {
      pointers := [];
      base, less := list, lt;
      load := Waiting(list);
    }

    ghost predicate Valid()
      reads this
    {
      Read(less, pointers, |pointers|, base) == load
    }

    method SaveNode(p: Pointer<int>)
      requires Valid()
      modifies this
      ensures Valid() && load == Step(less, old(load), p) && pointers == old(pointers) + [p]
    {
      ReadPrefix(less, pointers, p, |pointers|, base);
      pointers := pointers + [p];
      load := Step(less, load, p);
    }
  }

  // Writes node i, behind the node before it unless that was written last.
  method SaveDisplaced(ghost whole: seq<int>, target: seq<int>, ghost ordered: set<int>, ar: Archive, i: int,
      lastSaved: int)
    requires ar.Valid() && Halfway(ar.less, whole, target, ordered, ar.load, i, lastSaved) && i < |target|
    modifies ar
    ensures ar.Valid() && Halfway(ar.less, whole, target, ordered, ar.load, i + 1, 1)
    ensures ar.pointers ==
      old(ar.pointers) + ((if lastSaved > 1 then [T.Lead(target, i)] else []) + [To(At(target, i))])
  {
    if lastSaved > 1 {
      SavePrev(ar.less, whole, target, ordered, ar.load, i, lastSaved);
      ar.SaveNode(To(At(target, Before(i))));
    }
    SaveNode(ar.less, whole, target, ordered, ar.load, i);
    ar.SaveNode(To(At(target, i)));
  }

  // Writes a marked node, as far as there is something to write.
  method SaveOrdered(ghost whole: seq<int>, ghost target: seq<int>, ghost ordered: set<int>, ar: Archive, ghost i: int,
      lastSaved: int)
    requires ar.Valid() && Halfway(ar.less, whole, target, ordered, ar.load, i, lastSaved)
    requires i < |target| && At(target, i) in ordered
    modifies ar
    ensures ar.Valid() && Halfway(ar.less, whole, target, ordered, ar.load, i + 1, lastSaved + 1)
    ensures ar.pointers == old(ar.pointers) + if lastSaved == 2 then [Null] else []
  {
    SaveMarked(ar.less, whole, target, ordered, ar.load, i, lastSaved);
    if lastSaved == 2 {
      ar.SaveNode(Null);
    }
  }

  // What is written and what is pending make up the stream as far as node i.
  ghost predicate Streamed(target: seq<int>, ordered: set<int>, was: seq<Pointer<int>>, now: seq<Pointer<int>>, i: int,
      lastSaved: int)
  {
    && 0 <= i <= |target| && T.Back(target, ordered, i, lastSaved)
    && now + T.Pending(target, ordered, i, lastSaved) == was + T.Parts(target, ordered, i)
  }

  lemma StreamedMore(target: seq<int>, ordered: set<int>, was: seq<Pointer<int>>, now: seq<Pointer<int>>, i: int,
      lastSaved: int, more: seq<Pointer<int>>, next: int)
    requires Streamed(target, ordered, was, now, i, lastSaved) && i < |target| && T.Back(target, ordered, i + 1, next)
    requires T.Pending(target, ordered, i, lastSaved) + T.Part(target, ordered, i) ==
      more + T.Pending(target, ordered, i + 1, next)
    ensures Streamed(target, ordered, was, now + more, i + 1, next)
  {
    Regroup(was, T.Parts(target, ordered, i), T.Part(target, ordered, i), now, T.Pending(target, ordered, i, lastSaved),
      more, T.Pending(target, ordered, i + 1, next));
  }

  lemma StreamedTurn(target: seq<int>, ordered: set<int>, was: seq<Pointer<int>>, now: seq<Pointer<int>>, i: int,
      lastSaved: int)
    requires Streamed(target, ordered, was, now, i, lastSaved) && i < |target|
    ensures At(target, i) !in ordered ==> Streamed(target, ordered, was,
      now + ((if lastSaved > 1 then [T.Lead(target, i)] else []) + [To(At(target, i))]), i + 1, 1)
    ensures At(target, i) in ordered ==> Streamed(target, ordered, was,
      now + (if lastSaved == 2 then [Null] else []), i + 1, lastSaved + 1)
  {
    if At(target, i) !in ordered {
      T.WriteDisplaced(target, ordered, i, lastSaved);
      StreamedMore(target, ordered, was, now, i, lastSaved,
        (if lastSaved > 1 then [T.Lead(target, i)] else []) + [To(At(target, i))], 1);
    } else {
      T.WriteMarked(target, ordered, i, lastSaved);
      StreamedMore(target, ordered, was, now, i, lastSaved, if lastSaved == 2 then [Null] else [], lastSaved + 1);
    }
  }

  lemma Regroup(was: seq<Pointer<int>>, parts: seq<Pointer<int>>, part: seq<Pointer<int>>, now: seq<Pointer<int>>,
      pending: seq<Pointer<int>>, more: seq<Pointer<int>>, rest: seq<Pointer<int>>)
    requires now + pending == was + parts && pending + part == more + rest
    ensures now + more + rest == was + (parts + part)
  {
    assert now + more + rest == now + (more + rest);
    assert now + (pending + part) == now + pending + part;
    assert was + parts + part == was + (parts + part);
  }

  lemma StreamedAll(target: seq<int>, ordered: set<int>, was: seq<Pointer<int>>, now: seq<Pointer<int>>, lastSaved: int)
    requires Streamed(target, ordered, was, now, |target|, lastSaved)
    ensures (if lastSaved <= 2 then now + [Null] else now) + [Null] == was + T.Stream(target, ordered)
  {
    var parts := T.Parts(target, ordered, |target|);
    assert lastSaved > 2 ==> now + [] == now;
    assert was + parts + [Null] == was + (parts + [Null]);
  }

  // One turn of the loop: node i is written, if it is displaced, or else a chunk may end.
  method SaveTurn(ghost whole: seq<int>, target: seq<int>, ordered: set<int>, ar: Archive, i: int, lastSaved: int,
      ghost was: seq<Pointer<int>>)
      returns (next: int)
    requires ar.Valid() && Halfway(ar.less, whole, target, ordered, ar.load, i, lastSaved) && i < |target|
    requires Streamed(target, ordered, was, ar.pointers, i, lastSaved)
    modifies ar
    ensures ar.Valid() && Halfway(ar.less, whole, target, ordered, ar.load, i + 1, next)
    ensures Streamed(target, ordered, was, ar.pointers, i + 1, next)
  {
    StreamedTurn(target, ordered, was, ar.pointers, i, lastSaved);
    if At(target, i) !in ordered {
      SaveDisplaced(whole, target, ordered, ar, i, lastSaved);
      next := 1;
    } else {
      SaveOrdered(whole, target, ordered, ar, i, lastSaved);
      next := lastSaved + 1;
    }
  }

  // Closes the last chunk, and then the stream.
  method SaveLast(ghost whole: seq<int>, ghost target: seq<int>, ghost ordered: set<int>, ar: Archive, lastSaved: int,
      ghost was: seq<Pointer<int>>)
    requires ar.Valid() && Halfway(ar.less, whole, target, ordered, ar.load, |target|, lastSaved)
    requires Covers(ar.less, whole, target) && Streamed(target, ordered, was, ar.pointers, |target|, lastSaved)
    modifies ar
    ensures ar.Valid() && ar.load == Ended(whole) && ar.pointers == was + T.Stream(target, ordered)
  {
    SaveEnd(ar.less, whole, target, ordered, ar.load, lastSaved);
    StreamedAll(target, ordered, was, ar.pointers, lastSaved);
    if lastSaved <= 2 {
      ar.SaveNode(Null);
    }
    ar.SaveNode(Null);
  }

  // Writes the chunks of displaced nodes, those not in ordered, each behind the node before it, and then null.
  method Save(ghost whole: seq<int>, target: seq<int>, ordered: set<int>, ar: Archive)
    requires ar.Valid() && ar.load == Waiting(ar.base) && Underway(ar.less, whole, target, ordered, ar.base, 0)
    requires Covers(ar.less, whole, target)
    modifies ar
    ensures ar.Valid() && ar.load == Ended(whole)
    ensures ar.pointers == old(ar.pointers) + T.Stream(target, ordered)
  {
    var lastSaved, i := 3, 0;
    ghost var was := ar.pointers;
    while i < |target|
      invariant ar.Valid() && Halfway(ar.less, whole, target, ordered, ar.load, i, lastSaved)
      invariant Streamed(target, ordered, was, ar.pointers, i, lastSaved)
    {
      lastSaved := SaveTurn(whole, target, ordered, ar, i, lastSaved, was);
      i := i + 1;
    }
    SaveLast(whole, target, ordered, ar, lastSaved, was);
  }

  /* The index saved */

  // What an index to be loaded starts with: its elements in the order of their keys, if it has one, and equivalent
  // ones in the order they were inserted in, that of base. An index without keys starts with base itself.
  ghost predicate Start(less: Less, base: seq<int>, list: seq<int>) {
    && SameNodes(base, list) && Ascending(less, list)
    && forall x, y {:trigger Precedes(list, x, y)} |
      x in list && y in list && Equivalent(less, x, y) && x in base && y in base && Precedes(base, x, y) ::
      Precedes(list, x, y)
  }

  function Positions(base: seq<int>, target: seq<int>): (s: seq<int>)
    requires forall i {:trigger At(target, i)} | 0 <= i < |target| :: At(target, i) in base
    ensures |s| == |target| && forall i {:trigger M.At(s, i)} | 0 <= i < |s| :: M.At(s, i) == Pos(base, At(target, i))
  {
    seq(|target|, i requires 0 <= i < |target| => Pos(base, At(target, i)))
  }

  lemma PositionsDiffer(base: seq<int>, target: seq<int>, i: int, j: int)
    requires Within(target, base) && 0 <= i < |target| && 0 <= j < |target| && i != j
    ensures At(target, i) in base && At(target, j) in base && Pos(base, At(target, i)) != Pos(base, At(target, j))
  {
    InTarget(target, base, i);
    InTarget(target, base, j);
    Apart(target, i, j);
  }

  ghost predicate Rising(s: seq<int>) {
    forall i, j {:trigger M.At(s, i), M.At(s, j)} | 0 <= i < j < |s| :: M.At(s, i) < M.At(s, j)
  }

  // The nodes at the places c.
  ghost function Marked(target: seq<int>, c: seq<int>): set<int> {
    set i {:trigger At(target, i)} | 0 <= i < |target| && i in c :: At(target, i)
  }

  // Marks a longest subsequence of target that has the order of base, and saves the others. The range saved may leave
  // out elements of the index that are equivalent to none.
  method SaveIndex(base: seq<int>, ghost whole: seq<int>, target: seq<int>, ar: Archive) returns (ghost c: seq<int>)
    requires StrictWeakOrder(ar.less) && SameNodes(base, whole) && Within(target, base) && Ascending(ar.less, target)
    requires Covers(ar.less, whole, target) && Start(ar.less, base, ar.base)
    requires ar.Valid() && ar.load == Waiting(ar.base)
    modifies ar
    ensures ar.Valid() && ar.load == Ended(whole)
    ensures M.Increasing(PositionsOf(base, target), c)
    ensures forall d | M.Increasing(PositionsOf(base, target), d) :: |d| <= |c|
    ensures ar.pointers == old(ar.pointers) + T.Stream(target, Marked(target, c))
    ensures Rising(PositionsOf(base, target)) ==> ar.pointers == old(ar.pointers) + [Null]
  {
    var s := PositionsOf(base, target);
    Shorter(base, target);
    var m;
    m, c := M.Execute(s, |base|);
    var ordered := set i {:trigger At(target, i)} | 0 <= i < |target| && m.ordered[M.At(s, i)] :: At(target, i);
    forall i | 0 <= i < |target| && At(target, i) in ordered ensures i in c {
      var j :| 0 <= j < |target| && m.ordered[M.At(s, j)] && At(target, j) == At(target, i);
      if i != j { Apart(target, i, j); }
    }
    MarksOf(ar.less, base, whole, target, ar.base, ordered, s, c);
    assert ordered == Marked(target, c);
    Save(whole, target, ordered, ar);
    UnchangedIsMarked(target, s, c);
  }

  // If all of s increases, a longest subsequence is s itself.
  lemma UnchangedIsMarked(target: seq<int>, s: seq<int>, c: seq<int>)
    requires |s| == |target| && M.Increasing(s, c) && forall d | M.Increasing(s, d) :: |d| <= |c|
    ensures Rising(s) ==> T.Stream(target, Marked(target, c)) == [Null]
  {
    if Rising(s) {
      var d := seq(|s|, i => i);
      assert M.Increasing(s, d);
      forall i | 0 <= i < |target| ensures At(target, i) in Marked(target, c) {
        LowPlace(s, c, i);
        HighPlace(s, c, i);
        assert c[i] in c;
      }
      T.AllMarked(target, Marked(target, c));
    }
  }

  // The places of a subsequence leave room for those before them, and for those behind them.
  lemma {:induction false} LowPlace(s: seq<int>, c: seq<int>, a: int)
    requires M.Increasing(s, c) && 0 <= a < |c|
    ensures a <= M.At(c, a)
    decreases a
  {
    if a > 0 {
      LowPlace(s, c, a - 1);
      assert M.Rises(s, c, a);
    }
  }

  lemma {:induction false} HighPlace(s: seq<int>, c: seq<int>, a: int)
    requires M.Increasing(s, c) && 0 <= a < |c|
    ensures M.At(c, a) <= |s| - |c| + a
    decreases |c| - a
  {
    if a < |c| - 1 {
      HighPlace(s, c, a + 1);
      assert M.Rises(s, c, a + 1);
    }
  }

  lemma {:induction false} Shorter(base: seq<int>, target: seq<int>)
    requires Within(target, base)
    ensures |target| <= |base|
    decreases |target|
  {
    if target != [] {
      var x := At(target, 0);
      InTarget(target, base, 0);
      RemoveKeeps(base, x);
      var rest := target[1..];
      forall i, j | 0 <= i < |rest| && 0 <= j < |rest| && i != j ensures Differ(rest, i, j) {
        assert Differ(target, i + 1, j + 1);
      }
      forall y | y in rest ensures y in Remove(base, x) {
        var k :| 0 <= k < |rest| && rest[k] == y;
        assert y in target && Differ(target, 0, k + 1);
        assert y in base;
      }
      Shorter(Remove(base, x), rest);
    }
  }

  // The places the nodes of target have in base, as the matcher asks for them.
  function PositionsOf(base: seq<int>, target: seq<int>): (s: seq<int>)
    requires Within(target, base)
    ensures |s| == |target| && (forall i {:trigger M.At(s, i)} | 0 <= i < |s| :: 0 <= M.At(s, i) < |base|)
    ensures forall i, j {:trigger M.At(s, i), M.At(s, j)} | 0 <= i < j < |s| :: M.At(s, i) != M.At(s, j)
    ensures (forall i {:trigger At(target, i)} | 0 <= i < |target| :: At(target, i) in base)
      && s == Positions(base, target)
  {
    assert forall i {:trigger At(target, i)} | 0 <= i < |target| :: At(target, i) in base by {
      forall i | 0 <= i < |target| ensures At(target, i) in base { InTarget(target, base, i); }
    }
    var s := Positions(base, target);
    assert forall i, j {:trigger M.At(s, i), M.At(s, j)} | 0 <= i < j < |s| :: M.At(s, i) != M.At(s, j) by {
      forall i, j {:trigger M.At(s, i), M.At(s, j)} | 0 <= i < j < |s| ensures M.At(s, i) != M.At(s, j) {
        PositionsDiffer(base, target, i, j);
      }
    }
    s
  }

  // The marked nodes are settled from the start.
  lemma MarksOf(less: Less, base: seq<int>, whole: seq<int>, target: seq<int>, list: seq<int>,
      ordered: set<int>, s: seq<int>, c: seq<int>)
    requires StrictWeakOrder(less) && SameNodes(base, whole) && Within(target, base) && Ascending(less, target)
      && Start(less, base, list)
    requires s == PositionsOf(base, target) && M.Increasing(s, c)
    requires forall i {:trigger At(target, i)} | 0 <= i < |target| && At(target, i) in ordered :: i in c
    ensures Underway(less, whole, target, ordered, list, 0)
  {
    Transitive(list, base, whole);
    forall y | y in target ensures y in list { assert y in base; }
    forall a, b | Settled(target, ordered, 0, a) && Settled(target, ordered, 0, b) && a < b
      ensures InOrder(less, target, list, a, b)
    {
      M.MembersRise(s, c, a, b);
      InTarget(target, list, a);
      InTarget(target, list, b);
      PositionsDiffer(base, target, a, b);
      assert M.At(s, a) == Pos(base, At(target, a)) && M.At(s, b) == Pos(base, At(target, b));
      assert Precedes(base, At(target, a), At(target, b));
      var p := Precedes(list, At(target, a), At(target, b));
    }
  }

  lemma Transitive(list: seq<int>, base: seq<int>, target: seq<int>)
    requires SameNodes(base, list) && SameNodes(base, target)
    ensures SameNodes(list, target)
  {
    forall y | y in list ensures y in target { assert y in base; }
    forall y | y in target ensures y in list { assert y in base; }
  }
}
