/** What one index of a container keeps: an order of the nodes, and for each node the value its links were made for. */
module IndexKind {

  import opened Ordering

  class Node {
    var value: int

    constructor (v: int)
      ensures value == v
    {
      value := v;
    }
  }

  // The list of indices; rank is what key extraction and comparison amount to.
  datatype Kind =
    | Ordered(key: int -> int, lt: Less, unique: bool)
    | Hashed(key: int -> int, eq: Eq, unique: bool)
    | Sequenced
    | RandomAccess

  ghost predicate Lawful(k: Kind) {
    && (k.Ordered? ==> StrictWeakOrder(k.lt))
    && (k.Hashed? ==> Equivalence(k.eq))
  }

  function KeyOf(k: Kind, v: int): int
    requires k.Ordered? || k.Hashed?
  {
    k.key(v)
  }

  // The keys of a and b are equivalent.
  predicate Same(k: Kind, a: int, b: int) {
    match k
    case Ordered(_, lt, _) => !lt(KeyOf(k, a), KeyOf(k, b)) && !lt(KeyOf(k, b), KeyOf(k, a))
    case Hashed(_, eq, _) => eq(KeyOf(k, a), KeyOf(k, b))
    case _ => a == b
  }

  predicate Unique(k: Kind) {
    (k.Ordered? || k.Hashed?) && k.unique
  }

  function At(s: seq<int>, i: int): int
    requires 0 <= i < |s|
  {
    s[i]
  }

  // a may stand before b.
  predicate Before(k: Kind, a: int, b: int) {
    && (k.Ordered? ==> !k.lt(KeyOf(k, b), KeyOf(k, a)))
    && (Unique(k) ==> !Same(k, a, b))
  }

  // The values s are in an order the index may have: sorted, or with equivalent keys together; without equivalents if
  // unique.
  predicate Fits(k: Kind, s: seq<int>) {
    && (forall i, j {:trigger At(s, i), At(s, j)} | 0 <= i < j < |s| :: Before(k, At(s, i), At(s, j)))
    && (k.Hashed? ==> forall i, j, l {:trigger At(s, i), At(s, j), At(s, l)} | 0 <= i < j < l < |s| ::
      Same(k, At(s, i), At(s, l)) ==> Same(k, At(s, i), At(s, j)))
  }

  // Another element of a unique index has the key of v.
  ghost predicate Clash(k: Kind, s: seq<int>, v: int) {
    Unique(k) && exists i {:trigger At(s, i)} :: 0 <= i < |s| && Same(k, v, At(s, i))
  }

  ghost function Inserted(s: seq<int>, pos: int, v: int): seq<int>
    requires 0 <= pos <= |s|
  {
    s[..pos] + [v] + s[pos..]
  }

  ghost function Removed(s: seq<int>, pos: int): seq<int>
    requires 0 <= pos < |s|
  {
    s[..pos] + s[pos + 1..]
  }

  // v may stand at pos in s.
  ghost predicate FitsAt(k: Kind, s: seq<int>, pos: int, v: int) {
    && 0 <= pos <= |s|
    && (forall i {:trigger At(s, i)} | 0 <= i < pos :: Before(k, At(s, i), v))
    && (forall i {:trigger At(s, i)} | pos <= i < |s| :: Before(k, v, At(s, i)))
    && (k.Hashed? ==>
      && (forall i, j {:trigger At(s, i), At(s, j)} | 0 <= i < pos <= j < |s| && Same(k, At(s, i), At(s, j)) ::
        Same(k, At(s, i), v))
      && (forall i, j {:trigger At(s, i), At(s, j)} | 0 <= i < j < pos && Same(k, At(s, i), v) ::
        Same(k, At(s, i), At(s, j)))
      && (forall i, j {:trigger At(s, i), At(s, j)} | pos <= i < j < |s| && Same(k, v, At(s, j)) ::
        Same(k, v, At(s, i))))
  }

  lemma InsertedAt(s: seq<int>, pos: int, v: int, i: int)
    requires 0 <= pos <= |s| && 0 <= i <= |s|
    ensures At(Inserted(s, pos, v), i) == if i < pos then At(s, i) else if i == pos then v else At(s, i - 1)
  {
  }

  lemma InsertedFits(k: Kind, s: seq<int>, pos: int, v: int)
    requires Fits(k, s) && FitsAt(k, s, pos, v)
    ensures Fits(k, Inserted(s, pos, v))
  {
    var t := Inserted(s, pos, v);
    forall i, j | 0 <= i < j < |t| ensures Before(k, At(t, i), At(t, j)) {
      InsertedAt(s, pos, v, i);
      InsertedAt(s, pos, v, j);
    }
    if k.Hashed? {
      forall i, j, l | 0 <= i < j < l < |t| && Same(k, At(t, i), At(t, l)) ensures Same(k, At(t, i), At(t, j)) {
        InsertedAt(s, pos, v, i);
        InsertedAt(s, pos, v, j);
        InsertedAt(s, pos, v, l);
      }
    }
  }

  lemma RemovedFits(k: Kind, s: seq<int>, pos: int)
    requires Fits(k, s) && 0 <= pos < |s|
    ensures Fits(k, Removed(s, pos))
  {
    var t := Removed(s, pos);
    forall i | 0 <= i < |t| ensures At(t, i) == At(s, if i < pos then i else i + 1) {
    }
  }

  // The place pos is not behind any equivalent value.
  ghost predicate NoneSame(k: Kind, s: seq<int>, pos: int, v: int) {
    forall i {:trigger At(s, i)} | 0 <= i < pos && i < |s| :: !Same(k, v, At(s, i))
  }

  // Where an index puts v among the values s: at the end of a list or an array; in front of its equivalents in a hashed
  // index; and in an ordered one behind all that are not greater, or as near to a hint as v may stand.
  ghost predicate GoesTo(k: Kind, s: seq<int>, pos: int, v: int, hinted: bool, hint: int) {
    && 0 <= pos <= |s|
    && (k.Sequenced? || k.RandomAccess? ==> pos == |s|)
    && (k.Hashed? ==> NoneSame(k, s, pos, v))
    && (k.Ordered? && hinted ==> FitsAt(k, s, pos, v) && Nearest(k, s, pos, v, hint))
    && (k.Ordered? && !hinted ==>
      && (forall i {:trigger At(s, i)} | 0 <= i < pos :: !k.lt(KeyOf(k, v), KeyOf(k, At(s, i))))
      && (forall i {:trigger At(s, i)} | pos <= i < |s| :: k.lt(KeyOf(k, v), KeyOf(k, At(s, i)))))
  }

  // With a hint, which an ordered index comes as close to as it may.
  method SlotNear(k: Kind, s: seq<int>, v: int, hint: int) returns (ok: bool, pos: int)
    requires Lawful(k) && Fits(k, s) && 0 <= hint <= |s|
    ensures ok <==> !Clash(k, s, v)
    ensures ok ==> FitsAt(k, s, pos, v) && GoesTo(k, s, pos, v, true, hint)
    ensures !ok ==> 0 <= pos < |s| && Same(k, v, At(s, pos))
  {
    ok, pos := Slot(k, s, v);
    if k.Ordered? && ok {
      UpperIsNearest(k, s, pos, v, hint);
      if !k.unique && hint < pos {
        pos := LowerSlot(k, s, v, hint, pos);
      }
    }
  }

  // Up from hint, as long as the values are less than v.
  method LowerSlot(k: Kind, s: seq<int>, v: int, hint: int, upper: int) returns (pos: int)
    requires k.Ordered? && !k.unique && Lawful(k) && Fits(k, s) && 0 <= hint < upper && FitsAt(k, s, upper, v)
    ensures FitsAt(k, s, pos, v) && Nearest(k, s, pos, v, hint)
  {
    pos := hint;
    while pos < upper && k.lt(KeyOf(k, s[pos]), KeyOf(k, v))
      invariant hint <= pos <= upper
      invariant pos > hint ==> k.lt(KeyOf(k, At(s, pos - 1)), KeyOf(k, v))
    {
      assert At(s, pos) == s[pos];
      pos := pos + 1;
    }
    assert pos < upper ==> At(s, pos) == s[pos];
    forall i {:trigger At(s, i)} | pos <= i < |s| ensures Before(k, v, At(s, i)) {
      if pos < i < upper {
        assert Before(k, At(s, pos), At(s, i));
        NotBoth(k.lt, KeyOf(k, At(s, i)), KeyOf(k, At(s, pos)), KeyOf(k, v));
      }
    }
    forall p {:trigger FitsAt(k, s, p, v)} | FitsAt(k, s, p, v) && pos > hint ensures pos <= p {
      assert p < pos ==> Before(k, v, At(s, pos - 1));
    }
  }

  // No place is behind the one before the first greater value, and a unique index has no other.
  lemma UpperIsNearest(k: Kind, s: seq<int>, pos: int, v: int, hint: int)
    requires k.Ordered? && Lawful(k) && FitsAt(k, s, pos, v)
    requires pos < |s| ==> k.lt(KeyOf(k, v), KeyOf(k, At(s, pos)))
    ensures k.unique || hint >= pos ==> Nearest(k, s, pos, v, hint)
  {
    forall p {:trigger FitsAt(k, s, p, v)} | FitsAt(k, s, p, v) ensures p <= pos && (k.unique ==> p == pos) {
      var a := if 0 <= pos < |s| then At(s, pos) else v;
      var b := if 0 <= p < |s| then At(s, p) else v;
    }
  }

  // Of the places v may stand at, pos is the nearest to hint.
  ghost predicate Nearest(k: Kind, s: seq<int>, pos: int, v: int, hint: int) {
    forall p {:trigger FitsAt(k, s, p, v)} | FitsAt(k, s, p, v) :: p <= pos <= hint || hint <= pos <= p
  }

  // The place of v in s, or that of an element with its key in a unique index.
  method Slot(k: Kind, s: seq<int>, v: int) returns (ok: bool, pos: int)
    requires Lawful(k) && Fits(k, s)
    ensures ok <==> !Clash(k, s, v)
    ensures ok ==> FitsAt(k, s, pos, v) && GoesTo(k, s, pos, v, false, 0)
    ensures !ok ==> 0 <= pos < |s| && Same(k, v, At(s, pos))
  {
    match k
    case Ordered(_, _, _) => ok, pos := OrderedSlot(k, s, v);
    case Hashed(_, _, _) => ok, pos := HashedSlot(k, s, v);
    case Sequenced => ok, pos := true, |s|;
    case RandomAccess => ok, pos := true, |s|;
  }

  // Behind the elements that are not greater.
  method OrderedSlot(k: Kind, s: seq<int>, v: int) returns (ok: bool, pos: int)
    requires k.Ordered? && Lawful(k) && Fits(k, s)
    ensures ok <==> !Clash(k, s, v)
    ensures ok ==> FitsAt(k, s, pos, v) && GoesTo(k, s, pos, v, false, 0)
    ensures !ok ==> 0 <= pos < |s| && Same(k, v, At(s, pos))
  {
    ok, pos := true, 0;
    while pos < |s| && !k.lt(KeyOf(k, v), KeyOf(k, s[pos]))
      invariant 0 <= pos <= |s|
      invariant forall i {:trigger At(s, i)} | 0 <= i < pos :: !k.lt(KeyOf(k, v), KeyOf(k, At(s, i)))
    {
      assert At(s, pos) == s[pos];
      pos := pos + 1;
    }
    assert pos < |s| ==> At(s, pos) == s[pos];
    assert pos > 0 ==> At(s, pos - 1) == s[pos - 1];
    OrderedFits(k, s, pos, v);
    if k.unique && pos > 0 && !k.lt(KeyOf(k, s[pos - 1]), KeyOf(k, v)) {
      ok, pos := false, pos - 1;
    }
  }

  lemma OrderedFits(k: Kind, s: seq<int>, pos: int, v: int)
    requires k.Ordered? && Lawful(k) && Fits(k, s) && 0 <= pos <= |s|
    requires forall i {:trigger At(s, i)} | 0 <= i < pos :: !k.lt(KeyOf(k, v), KeyOf(k, At(s, i)))
    requires pos < |s| ==> k.lt(KeyOf(k, v), KeyOf(k, At(s, pos)))
    ensures var free := !k.unique || pos == 0 || k.lt(KeyOf(k, At(s, pos - 1)), KeyOf(k, v));
      (free ==> FitsAt(k, s, pos, v) && GoesTo(k, s, pos, v, false, 0)) && (free <==> !Clash(k, s, v))
  {
    var free := !k.unique || pos == 0 || k.lt(KeyOf(k, At(s, pos - 1)), KeyOf(k, v));
    forall i {:trigger At(s, i)} | pos <= i < |s|
      ensures k.lt(KeyOf(k, v), KeyOf(k, At(s, i))) && Before(k, v, At(s, i)) && !Same(k, v, At(s, i))
    {
      if i > pos {
        assert Before(k, At(s, pos), At(s, i));
        Squeeze(k, v, At(s, i), At(s, pos));
      }
      assert k.lt(KeyOf(k, v), KeyOf(k, At(s, i)));
      NotBack(k, v, At(s, i));
    }
    forall i {:trigger At(s, i)} | 0 <= i < pos && k.unique && free ensures k.lt(KeyOf(k, At(s, i)), KeyOf(k, v)) {
      if i < pos - 1 {
        assert Before(k, At(s, i), At(s, pos - 1));
        Chain(k, At(s, i), At(s, pos - 1), v);
      }
    }
  }

  lemma Squeeze(k: Kind, a: int, b: int, c: int)
    requires k.Ordered? && Lawful(k) && k.lt(KeyOf(k, a), KeyOf(k, c)) && !k.lt(KeyOf(k, b), KeyOf(k, c))
    ensures k.lt(KeyOf(k, a), KeyOf(k, b))
  {
  }

  lemma Chain(k: Kind, a: int, b: int, c: int)
    requires k.Ordered? && Lawful(k) && !k.lt(KeyOf(k, b), KeyOf(k, a)) && k.lt(KeyOf(k, b), KeyOf(k, c))
    ensures k.lt(KeyOf(k, a), KeyOf(k, c))
  {
    assert k.lt(KeyOf(k, b), KeyOf(k, a)) || k.lt(KeyOf(k, a), KeyOf(k, c));
  }

  lemma NoLoop(lt: Less, a: int, b: int)
    requires StrictWeakOrder(lt) && lt(a, b)
    ensures !lt(b, a)
  {
    assert lt(b, a) ==> lt(a, a);
  }

  lemma NotBack(k: Kind, a: int, b: int)
    requires k.Ordered? && Lawful(k) && k.lt(KeyOf(k, a), KeyOf(k, b))
    ensures !k.lt(KeyOf(k, b), KeyOf(k, a))
  {
    NoLoop(k.lt, KeyOf(k, a), KeyOf(k, b));
  }

  // In front of its equivalents, or at any place between others.
  method HashedSlot(k: Kind, s: seq<int>, v: int) returns (ok: bool, pos: int)
    requires k.Hashed? && Lawful(k) && Fits(k, s)
    ensures ok <==> !Clash(k, s, v)
    ensures ok ==> FitsAt(k, s, pos, v) && NoneSame(k, s, pos, v)
    ensures !ok ==> 0 <= pos < |s| && Same(k, v, At(s, pos))
  {
    ok, pos := true, 0;
    while pos < |s| && !k.eq(KeyOf(k, v), KeyOf(k, s[pos]))
      invariant 0 <= pos <= |s|
      invariant forall i {:trigger At(s, i)} | 0 <= i < pos :: !Same(k, v, At(s, i))
    {
      assert At(s, pos) == s[pos];
      pos := pos + 1;
    }
    if pos < |s| {
      assert At(s, pos) == s[pos];
      ok := !k.unique;
      if ok { FrontFits(k, s, pos, v); }
    } else {
      var front: int := *;
      ghost var all := pos;
      pos := if 0 < front < |s| && Same(k, s[front - 1], s[front]) then 0 else if 0 <= front <= |s| then front else 0;
      assert 0 < pos < |s| ==> !Same(k, At(s, pos - 1), At(s, pos));
      assert forall i {:trigger At(s, i)} | 0 <= i < all :: !Same(k, v, At(s, i));
      BoundaryFits(k, s, pos, v);
    }
  }

  lemma FrontFits(k: Kind, s: seq<int>, pos: int, v: int)
    requires k.Hashed? && !k.unique && Lawful(k) && Fits(k, s) && 0 <= pos < |s| && Same(k, v, At(s, pos))
    requires forall i {:trigger At(s, i)} | 0 <= i < pos :: !Same(k, v, At(s, i))
    ensures FitsAt(k, s, pos, v)
  {
    forall i, j {:trigger At(s, i), At(s, j)} | 0 <= i < pos <= j < |s| && Same(k, At(s, i), At(s, j))
      ensures Same(k, At(s, i), v)
    {
      assert Same(k, At(s, i), At(s, pos));
      Swap(k, v, At(s, pos));
      Join(k, At(s, i), At(s, pos), v);
    }
    forall i {:trigger At(s, i)} | 0 <= i < pos ensures !Same(k, At(s, i), v) {
      if Same(k, At(s, i), v) { Swap(k, At(s, i), v); }
    }
    forall i, j {:trigger At(s, i), At(s, j)} | pos <= i < j < |s| && Same(k, v, At(s, j))
      ensures Same(k, v, At(s, i))
    {
      Swap(k, v, At(s, pos));
      Join(k, At(s, pos), v, At(s, j));
      if pos < i { Join(k, v, At(s, pos), At(s, i)); }
    }
  }

  lemma Swap(k: Kind, a: int, b: int)
    requires k.Hashed? && Lawful(k) && Same(k, a, b)
    ensures Same(k, b, a)
  {
  }

  lemma Join(k: Kind, a: int, b: int, c: int)
    requires k.Hashed? && Lawful(k) && Same(k, a, b)
    ensures Same(k, b, c) ==> Same(k, a, c)
  {
  }

  lemma BoundaryFits(k: Kind, s: seq<int>, pos: int, v: int)
    requires k.Hashed? && Lawful(k) && Fits(k, s) && 0 <= pos <= |s|
    requires 0 < pos < |s| ==> !Same(k, At(s, pos - 1), At(s, pos))
    requires forall i {:trigger At(s, i)} | 0 <= i < |s| :: !Same(k, v, At(s, i))
    ensures FitsAt(k, s, pos, v) && !Clash(k, s, v)
  {
    forall i {:trigger At(s, i)} | 0 <= i < |s| ensures !Same(k, At(s, i), v) {
      if Same(k, At(s, i), v) { Swap(k, At(s, i), v); }
    }
    forall i, j {:trigger At(s, i), At(s, j)} | 0 <= i < pos <= j < |s| ensures !Same(k, At(s, i), At(s, j)) {
      if Same(k, At(s, i), At(s, j)) { Across(k, s, i, pos, j); }
    }
  }

  // Equivalents on both sides of pos make those beside it equivalent.
  lemma Across(k: Kind, s: seq<int>, i: int, pos: int, j: int)
    requires k.Hashed? && Lawful(k) && Fits(k, s) && 0 <= i < pos <= j < |s| && Same(k, At(s, i), At(s, j))
    ensures Same(k, At(s, pos - 1), At(s, pos))
  {
    if i < pos - 1 { Swap(k, At(s, i), At(s, pos - 1)); }
    assert Same(k, At(s, i), At(s, pos));
    if i < pos - 1 { Join(k, At(s, pos - 1), At(s, i), At(s, pos)); }
  }
}
