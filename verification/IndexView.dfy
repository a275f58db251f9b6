/** The state of one index of the cascade. */
module IndexView {

  import opened IndexKind
  import opened Ordering

  // The nodes in order, and the value of each that its place was chosen for.
  datatype View = View(order: seq<Node>, linked: map<Node, int>)

  function Nth(s: seq<Node>, i: int): Node
    requires 0 <= i < |s|
  {
    s[i]
  }

  ghost predicate Twice(s: seq<Node>, i: int, j: int)
    requires 0 <= i < |s| && 0 <= j < |s|
  {
    Nth(s, i) == Nth(s, j)
  }

  ghost predicate NoDuplicates(s: seq<Node>) {
    forall i, j {:trigger Twice(s, i, j)} | 0 <= i < |s| && 0 <= j < |s| && i != j :: !Twice(s, i, j)
  }

  predicate AllLinked(w: View) {
    forall i {:trigger Nth(w.order, i)} | 0 <= i < |w.order| :: Nth(w.order, i) in w.linked
  }

  ghost predicate WellFormed(w: View) {
    NoDuplicates(w.order) && AllLinked(w) && (forall x {:trigger x in w.linked} | x in w.linked :: x in w.order)
  }

  function Values(w: View): (s: seq<int>)
    requires AllLinked(w)
    ensures |s| == |w.order|
    ensures forall i {:trigger At(s, i)} | 0 <= i < |s| :: At(s, i) == w.linked[Nth(w.order, i)]
  {
    seq(|w.order|, i requires 0 <= i < |w.order| => w.linked[Nth(w.order, i)])
  }

  ghost predicate Good(k: Kind, w: View) {
    Lawful(k) && WellFormed(w) && Fits(k, Values(w))
  }

  function Find(s: seq<Node>, x: Node): (i: int)
    requires x in s
    ensures 0 <= i < |s| && Nth(s, i) == x
  {
    if s[0] == x then 0 else 1 + Find(s[1..], x)
  }

  function Without(w: View, x: Node): (r: View)
    requires x in w.order
  {
    View(w.order[..Find(w.order, x)] + w.order[Find(w.order, x) + 1..], w.linked - {x})
  }

  function With(w: View, x: Node, v: int, pos: int): View
    requires 0 <= pos <= |w.order|
  {
    View(w.order[..pos] + [x] + w.order[pos..], w.linked[x := v])
  }

  function Relinked(w: View, x: Node, v: int): View {
    View(w.order, w.linked[x := v])
  }

  lemma WithoutAt(w: View, x: Node, i: int)
    requires x in w.order && 0 <= i < |w.order| - 1
    ensures Nth(Without(w, x).order, i) == Nth(w.order, if i < Find(w.order, x) then i else i + 1)
  {
  }

  lemma WithAt(w: View, x: Node, v: int, pos: int, i: int)
    requires 0 <= pos <= |w.order| && 0 <= i <= |w.order|
    ensures Nth(With(w, x, v, pos).order, i) == if i < pos then Nth(w.order, i) else if i == pos then x
      else Nth(w.order, i - 1)
  {
  }

  lemma InOrder(s: seq<Node>, i: int)
    requires 0 <= i < |s|
    ensures Nth(s, i) in s
  {
  }

  lemma NotIn(s: seq<Node>, x: Node)
    requires forall i {:trigger Nth(s, i)} | 0 <= i < |s| :: Nth(s, i) != x
    ensures x !in s
  {
    if x in s { var i := Find(s, x); }
  }

  lemma WithoutIsWellFormed(w: View, x: Node)
    requires WellFormed(w) && x in w.order
    ensures WellFormed(Without(w, x)) && x !in Without(w, x).order && x !in Without(w, x).linked
    ensures Without(w, x).linked.Keys == w.linked.Keys - {x}
  {
    var r, p := Without(w, x), Find(w.order, x);
    forall i | 0 <= i < |r.order| ensures Nth(r.order, i) in r.linked && Nth(r.order, i) != x {
      WithoutAt(w, x, i);
      assert !Twice(w.order, if i < p then i else i + 1, p);
    }
    NotIn(r.order, x);
    forall i, j | 0 <= i < |r.order| && 0 <= j < |r.order| && i != j ensures !Twice(r.order, i, j) {
      WithoutAt(w, x, i);
      WithoutAt(w, x, j);
      assert !Twice(w.order, if i < p then i else i + 1, if j < p then j else j + 1);
    }
    forall y | y in r.linked ensures y in r.order {
      var i :| 0 <= i < |w.order| && w.order[i] == y;
      WithoutAt(w, x, if i < p then i else i - 1);
      InOrder(r.order, if i < p then i else i - 1);
    }
  }

  lemma WithoutIsGood(k: Kind, w: View, x: Node)
    requires Good(k, w) && x in w.order
    ensures Good(k, Without(w, x)) && x !in Without(w, x).order && x !in Without(w, x).linked
    ensures Without(w, x).linked.Keys == w.linked.Keys - {x}
  {
    WithoutIsWellFormed(w, x);
    WithoutValues(w, x);
    RemovedFits(k, Values(w), Find(w.order, x));
  }

  lemma WithoutValues(w: View, x: Node)
    requires WellFormed(w) && x in w.order && AllLinked(Without(w, x))
    ensures Values(Without(w, x)) == Removed(Values(w), Find(w.order, x))
  {
    var r, p := Without(w, x), Find(w.order, x);
    forall i | 0 <= i < |r.order| ensures Values(r)[i] == Removed(Values(w), p)[i] {
      WithoutAt(w, x, i);
      assert At(Values(r), i) == At(Values(w), if i < p then i else i + 1);
    }
  }

  lemma WithIsWellFormed(w: View, x: Node, v: int, pos: int)
    requires WellFormed(w) && x !in w.order && 0 <= pos <= |w.order|
    ensures WellFormed(With(w, x, v, pos))
  {
    var r := With(w, x, v, pos);
    forall i | 0 <= i < |r.order| ensures Nth(r.order, i) in r.linked {
      WithAt(w, x, v, pos, i);
    }
    forall i, j | 0 <= i < |r.order| && 0 <= j < |r.order| && i != j ensures !Twice(r.order, i, j) {
      WithAt(w, x, v, pos, i);
      WithAt(w, x, v, pos, j);
      if i != pos { InOrder(w.order, if i < pos then i else i - 1); }
      if j != pos { InOrder(w.order, if j < pos then j else j - 1); }
      if i != pos && j != pos { assert !Twice(w.order, if i < pos then i else i - 1, if j < pos then j else j - 1); }
    }
    forall y | y in r.linked ensures y in r.order {
      if y == x {
        WithAt(w, x, v, pos, pos);
        InOrder(r.order, pos);
      } else {
        var i :| 0 <= i < |w.order| && w.order[i] == y;
        WithAt(w, x, v, pos, if i < pos then i else i + 1);
        InOrder(r.order, if i < pos then i else i + 1);
      }
    }
  }

  lemma WithIsGood(k: Kind, w: View, x: Node, v: int, pos: int)
    requires Good(k, w) && x !in w.order && FitsAt(k, Values(w), pos, v)
    ensures Good(k, With(w, x, v, pos)) && With(w, x, v, pos).linked.Keys == w.linked.Keys + {x}
    ensures x in With(w, x, v, pos).order && Without(With(w, x, v, pos), x) == w
  {
    var r := With(w, x, v, pos);
    WithIsWellFormed(w, x, v, pos);
    WithValues(w, x, v, pos);
    InsertedFits(k, Values(w), pos, v);
    WithAt(w, x, v, pos, pos);
    InOrder(r.order, pos);
    Undone(w, x, v, pos);
  }

  lemma WithValues(w: View, x: Node, v: int, pos: int)
    requires WellFormed(w) && x !in w.order && 0 <= pos <= |w.order| && AllLinked(With(w, x, v, pos))
    ensures Values(With(w, x, v, pos)) == Inserted(Values(w), pos, v)
  {
    var r := With(w, x, v, pos);
    forall i | 0 <= i < |r.order| ensures Values(r)[i] == Inserted(Values(w), pos, v)[i] {
      WithAt(w, x, v, pos, i);
      if i != pos { InOrder(w.order, if i < pos then i else i - 1); }
      assert At(Values(r), i) == if i < pos then At(Values(w), i) else if i == pos then v else At(Values(w), i - 1);
    }
  }

  lemma Undone(w: View, x: Node, v: int, pos: int)
    requires WellFormed(w) && x !in w.order && 0 <= pos <= |w.order| && WellFormed(With(w, x, v, pos))
      && x in With(w, x, v, pos).order
    ensures Without(With(w, x, v, pos), x) == w
  {
    var r := With(w, x, v, pos);
    assert !Twice(r.order, Find(r.order, x), pos) || Find(r.order, x) == pos;
    WithAt(w, x, v, pos, pos);
    assert Without(r, x).order == w.order;
    assert x !in w.linked;
    assert Without(r, x).linked == w.linked;
  }

  // Taking x out and putting it back where it was changes nothing.
  lemma PutBack(w: View, x: Node)
    requires WellFormed(w) && x in w.order
    ensures With(Without(w, x), x, w.linked[x], Find(w.order, x)) == w
  {
    InOrder(w.order, Find(w.order, x));
    assert x in w.linked;
    PiecesPutBack(w.order, Find(w.order, x));
    EntryPutBack(w.linked, x);
  }

  lemma EntryPutBack(m: map<Node, int>, x: Node)
    requires x in m
    ensures (m - {x})[x := m[x]] == m
  {
  }

  lemma PiecesPutBack(o: seq<Node>, p: int)
    requires 0 <= p < |o|
    ensures var r := o[..p] + o[p + 1..]; r[..p] + [o[p]] + r[p..] == o
  {
    var r := o[..p] + o[p + 1..];
    assert r[..p] == o[..p] && r[p..] == o[p + 1..];
  }

  /* Another value in the same place */

  // x takes the value v where it stands.
  predicate InPlace(k: Kind, w: View, x: Node, v: int)
    requires AllLinked(Relinked(w, x, v))
  {
    Fits(k, Values(Relinked(w, x, v)))
  }

  lemma RelinkedIsWellFormed(w: View, x: Node, v: int)
    requires WellFormed(w) && x in w.order
    ensures WellFormed(Relinked(w, x, v)) && Relinked(w, x, v).linked.Keys == w.linked.Keys
    ensures Without(Relinked(w, x, v), x) == Without(w, x)
  {
    assert x in w.linked by { InOrder(w.order, Find(w.order, x)); }
    assert Without(Relinked(w, x, v), x).linked == Without(w, x).linked;
  }

  // The others of an index clash with v for x.
  ghost predicate Clashes(k: Kind, w: View, x: Node, v: int)
    requires WellFormed(w) && x in w.order
  {
    WithoutIsWellFormed(w, x);
    Clash(k, Values(Without(w, x)), v)
  }

  // Where v fits there is no clash.
  lemma InPlaceNoClash(k: Kind, w: View, x: Node, v: int)
    requires Lawful(k) && WellFormed(w) && x in w.order && Good(k, Relinked(w, x, v))
    ensures !Clashes(k, w, x, v)
  {
    var r, p := Relinked(w, x, v), Find(w.order, x);
    WithoutIsWellFormed(w, x);
    var s := Values(Without(w, x));
    forall i {:trigger At(s, i)} | 0 <= i < |s| && Unique(k) ensures !Same(k, v, At(s, i)) {
      var j := if i < p then i else i + 1;
      WithoutAt(w, x, i);
      assert !Twice(w.order, j, p);
      assert At(Values(r), j) == At(s, i) && At(Values(r), p) == v;
      if j < p {
        assert Before(k, At(Values(r), j), At(Values(r), p));
      } else {
        assert Before(k, At(Values(r), p), At(Values(r), j));
      }
      SameBothWays(k, v, At(s, i));
    }
  }

  lemma SameBothWays(k: Kind, a: int, b: int)
    requires Lawful(k)
    ensures Same(k, a, b) <==> Same(k, b, a)
  {
  }

  // A value with an equivalent key fits where its node stands.
  lemma SameKeyInPlace(k: Kind, w: View, x: Node, v: int)
    requires Good(k, w) && x in w.order && x in w.linked && Same(k, v, w.linked[x]) && (k.Ordered? || k.Hashed?)
    ensures Good(k, Relinked(w, x, v))
  {
    var r, p := Relinked(w, x, v), Find(w.order, x);
    RelinkedIsWellFormed(w, x, v);
    var s, t := Values(w), Values(r);
    forall i {:trigger At(t, i)} | 0 <= i < |t|
      ensures At(t, i) == At(s, i) || (At(t, i) == v && At(s, i) == w.linked[x])
    {
      assert At(s, i) == w.linked[Nth(w.order, i)];
    }
    forall i, j {:trigger At(t, i), At(t, j)} | 0 <= i < j < |t| ensures Before(k, At(t, i), At(t, j)) {
      Substitute(k, v, w.linked[x], At(s, i));
      Substitute(k, v, w.linked[x], At(s, j));
      Substitute(k, v, w.linked[x], v);
      assert Before(k, At(s, i), At(s, j));
    }
    if k.Hashed? {
      forall i, j, l {:trigger At(t, i), At(t, j), At(t, l)} | 0 <= i < j < l < |t| && Same(k, At(t, i), At(t, l))
        ensures Same(k, At(t, i), At(t, j))
      {
        Substitute(k, v, w.linked[x], At(s, i));
        Substitute(k, v, w.linked[x], At(s, j));
        Substitute(k, v, w.linked[x], At(s, l));
        Substitute(k, v, w.linked[x], v);
        assert Same(k, At(s, i), At(s, l)) ==> Same(k, At(s, i), At(s, j));
      }
    }
  }

  // Equivalent values compare alike with any other.
  lemma Substitute(k: Kind, a: int, b: int, c: int)
    requires Lawful(k) && (k.Ordered? || k.Hashed?) && Same(k, a, b)
    ensures Same(k, a, c) <==> Same(k, b, c)
    ensures Same(k, c, a) <==> Same(k, c, b)
    ensures Before(k, a, c) <==> Before(k, b, c)
    ensures Before(k, c, a) <==> Before(k, c, b)
    ensures Same(k, b, a)
  {
    if k.Ordered? {
      SubstituteLess(k.lt, KeyOf(k, a), KeyOf(k, b), KeyOf(k, c));
    } else {
      SubstituteEq(k.eq, KeyOf(k, a), KeyOf(k, b), KeyOf(k, c));
    }
  }

  lemma SubstituteLess(lt: (int, int) -> bool, a: int, b: int, c: int)
    requires StrictWeakOrder(lt) && !lt(a, b) && !lt(b, a)
    ensures (lt(a, c) <==> lt(b, c)) && (lt(c, a) <==> lt(c, b))
  {
    assert lt(a, c) ==> lt(a, b) || lt(b, c);
    assert lt(b, c) ==> lt(b, a) || lt(a, c);
    assert lt(c, a) ==> lt(c, b) || lt(b, a);
    assert lt(c, b) ==> lt(c, a) || lt(a, b);
  }

  lemma SubstituteEq(eq: Eq, a: int, b: int, c: int)
    requires Equivalence(eq) && eq(a, b)
    ensures (eq(a, c) <==> eq(b, c)) && (eq(c, a) <==> eq(c, b)) && eq(b, a)
  {
    assert eq(b, a);
    assert eq(a, c) <==> eq(c, a);
    assert eq(b, c) <==> eq(c, b);
  }

  /* Another node */

  // An element of a unique index has the key of v.
  ghost predicate Blocked(k: Kind, w: View, v: int) {
    Unique(k) && exists y {:trigger w.linked[y]} :: y in w.linked && Same(k, v, w.linked[y])
  }

  lemma BlockedIsClash(k: Kind, w: View, v: int)
    requires WellFormed(w)
    ensures Blocked(k, w, v) <==> Clash(k, Values(w), v)
  {
    if Blocked(k, w, v) {
      var y :| y in w.linked && Same(k, v, w.linked[y]);
      var i :| 0 <= i < |w.order| && w.order[i] == y;
      assert At(Values(w), i) == w.linked[Nth(w.order, i)];
    }
    if Clash(k, Values(w), v) {
      var i :| 0 <= i < |w.order| && Same(k, v, At(Values(w), i));
      assert Nth(w.order, i) in w.linked && At(Values(w), i) == w.linked[Nth(w.order, i)];
    }
  }

  // No element of a unique index is blocked by another.
  lemma ApartInUnique(k: Kind, w: View, i: int, j: int)
    requires Good(k, w) && Unique(k) && 0 <= i < |w.order| && 0 <= j < |w.order| && i != j
    ensures !Same(k, At(Values(w), i), At(Values(w), j))
  {
    if i < j {
      assert Before(k, At(Values(w), i), At(Values(w), j));
    } else {
      assert Before(k, At(Values(w), j), At(Values(w), i));
      SameBothWays(k, At(Values(w), i), At(Values(w), j));
    }
  }

  // The elements of w from place i on, in another view.
  ghost predicate Covers(w: View, i: int, r: View)
    requires AllLinked(w) && 0 <= i <= |w.order|
  {
    && (forall j {:trigger Nth(w.order, j)} | i <= j < |w.order| :: Nth(w.order, j) in r.linked)
    && (forall y {:trigger y in r.linked} | y in r.linked :: exists j {:trigger Nth(w.order, j)} ::
      i <= j < |w.order| && Nth(w.order, j) == y)
    && (forall y {:trigger r.linked[y]} | y in r.linked :: y in w.linked && r.linked[y] == w.linked[y])
  }

  // x stands before y.
  ghost predicate Ahead(s: seq<Node>, x: Node, y: Node) {
    x in s && y in s && Find(s, x) < Find(s, y)
  }

  // Equivalent elements are in the order they were in.
  ghost predicate GroupsKept(k: Kind, w: View, r: View) {
    forall x, y {:trigger Ahead(r.order, x, y)} |
      x in r.linked && y in r.linked && Same(k, r.linked[x], r.linked[y]) ::
      Ahead(r.order, x, y) <==> Ahead(w.order, x, y)
  }

  lemma FindIs(s: seq<Node>, i: int)
    requires NoDuplicates(s) && 0 <= i < |s|
    ensures Nth(s, i) in s && Find(s, Nth(s, i)) == i
  {
    InOrder(s, i);
    assert Find(s, Nth(s, i)) != i ==> !Twice(s, Find(s, Nth(s, i)), i);
  }

  // A new node in front of its equivalents leaves the others in their order.
  lemma WithAhead(w: View, x: Node, v: int, pos: int, y: Node)
    requires WellFormed(w) && x !in w.order && 0 <= pos <= |w.order| && WellFormed(With(w, x, v, pos))
    ensures var o := With(w, x, v, pos).order; x in o && Find(o, x) == pos
    ensures var o := With(w, x, v, pos).order;
      y in w.order ==> y in o && Find(o, y) == Find(w.order, y) + if Find(w.order, y) < pos then 0 else 1
  {
    var o := With(w, x, v, pos).order;
    WithAt(w, x, v, pos, pos);
    FindIs(o, pos);
    if y in w.order {
      var p := Find(w.order, y);
      WithAt(w, x, v, pos, if p < pos then p else p + 1);
      FindIs(o, if p < pos then p else p + 1);
    }
  }

  // Where the hint is, or the end.
  function Spot(o: seq<Node>, hint: Node?): (p: int)
    ensures 0 <= p <= |o|
  {
    if hint != null && hint in o then Find(o, hint) else |o|
  }

  // x stands among the others where an index with this hint, if there is one, puts it.
  ghost predicate Put(k: Kind, r: View, x: Node, hint: Node?)
    requires WellFormed(r) && x in r.order && x in r.linked
  {
    WithoutIsWellFormed(r, x);
    var u := Without(r, x);
    GoesTo(k, Values(u), Find(r.order, x), r.linked[x], hint != null, Spot(u.order, hint))
  }

  lemma WithIsPut(k: Kind, w: View, x: Node, v: int, pos: int, hint: Node?)
    requires WellFormed(w) && x !in w.order && GoesTo(k, Values(w), pos, v, hint != null, Spot(w.order, hint))
    ensures var r := With(w, x, v, pos); WellFormed(r) && x in r.order && x in r.linked && Put(k, r, x, hint)
  {
    WithIsWellFormed(w, x, v, pos);
    WithAhead(w, x, v, pos, x);
    Undone(w, x, v, pos);
  }

  // Rehashing links the nodes again, the last first, each in front of its equivalents.
  method Rehash(k: Kind, w: View) returns (r: View)
    requires Good(k, w) && k.Hashed?
    ensures Good(k, r) && r.linked == w.linked && GroupsKept(k, w, r)
  {
    r := View([], map[]);
    var i := |w.order|;
    while i > 0
      invariant 0 <= i <= |w.order| && Good(k, r) && Covers(w, i, r) && GroupsKept(k, w, r)
    {
      i := i - 1;
      var x := Nth(w.order, i);
      NotYet(k, w, i, r);
      var ok, pos := Slot(k, Values(r), w.linked[x]);
      WithIsGood(k, r, x, w.linked[x], pos);
      CoversMore(w, i, r, pos);
      GroupsKeptMore(k, w, i, r, pos);
      r := With(r, x, w.linked[x], pos);
    }
    forall y | y in w.linked ensures y in r.linked {
      var j :| 0 <= j < |w.order| && w.order[j] == y;
      assert Nth(w.order, j) == y;
    }
    assert r.linked == w.linked;
  }

  lemma NotYet(k: Kind, w: View, i: int, r: View)
    requires Good(k, w) && Good(k, r) && 0 <= i < |w.order| && Covers(w, i + 1, r)
    ensures Nth(w.order, i) !in r.order && !Clash(k, Values(r), w.linked[Nth(w.order, i)])
  {
    var x := Nth(w.order, i);
    if x in r.order {
      var p :| 0 <= p < |r.order| && r.order[p] == x;
      assert Nth(r.order, p) in r.linked;
      var j :| i + 1 <= j < |w.order| && Nth(w.order, j) == x;
      assert Twice(w.order, i, j);
    }
    if Clash(k, Values(r), w.linked[x]) {
      var p :| 0 <= p < |r.order| && Same(k, w.linked[x], At(Values(r), p));
      var y := Nth(r.order, p);
      assert y in r.linked;
      var j :| i + 1 <= j < |w.order| && Nth(w.order, j) == y;
      ApartInUnique(k, w, i, j);
    }
  }

  lemma GroupsKeptMore(k: Kind, w: View, i: int, r: View, pos: int)
    requires Good(k, w) && Good(k, r) && k.Hashed? && 0 <= i < |w.order| && Covers(w, i + 1, r) && GroupsKept(k, w, r)
    requires Nth(w.order, i) !in r.order && 0 <= pos <= |r.order|
    requires NoneSame(k, Values(r), pos, w.linked[Nth(w.order, i)])
    requires Good(k, With(r, Nth(w.order, i), w.linked[Nth(w.order, i)], pos))
    ensures GroupsKept(k, w, With(r, Nth(w.order, i), w.linked[Nth(w.order, i)], pos))
  {
    var x, v := Nth(w.order, i), w.linked[Nth(w.order, i)];
    var t := With(r, x, v, pos);
    FindIs(w.order, i);
    forall y | y in r.linked ensures y != x && Ahead(w.order, x, y) {
      var j :| i + 1 <= j < |w.order| && Nth(w.order, j) == y;
      FindIs(w.order, j);
    }
    forall y | y in r.linked && (Same(k, v, r.linked[y]) || Same(k, r.linked[y], v)) ensures Ahead(t.order, x, y) {
      var p := Find(r.order, y);
      WithAhead(r, x, v, pos, y);
      SameBothWays(k, v, r.linked[y]);
      assert At(Values(r), p) == r.linked[y];
    }
    forall y, z {:trigger Ahead(t.order, y, z)} | y in t.linked && z in t.linked && Same(k, t.linked[y], t.linked[z])
      ensures Ahead(t.order, y, z) <==> Ahead(w.order, y, z)
    {
      WithAhead(r, x, v, pos, y);
      WithAhead(r, x, v, pos, z);
      if y != x && z != x { assert Ahead(r.order, y, z) <==> Ahead(w.order, y, z); }
    }
  }

  lemma CoversMore(w: View, i: int, r: View, pos: int)
    requires AllLinked(w) && 0 <= i < |w.order| && Covers(w, i + 1, r) && 0 <= pos <= |r.order|
    ensures Covers(w, i, With(r, Nth(w.order, i), w.linked[Nth(w.order, i)], pos))
  {
    var x := Nth(w.order, i);
    var t := With(r, x, w.linked[x], pos);
    forall y | y in t.linked ensures exists j {:trigger Nth(w.order, j)} :: i <= j < |w.order| && Nth(w.order, j) == y {
      if y != x { assert y in r.linked; }
    }
  }
}
