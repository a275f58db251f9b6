/** What a step of the cascade is for a single index, and the nodes an index has for those of the container. */
module IndexStep {

  import opened IndexKind
  import opened IndexView
  import L = NodeList
  import C = Container

  /* Steps of one index */

  // displaced tells whether a hashed index finds n displaced.
  ghost predicate Moves(k: Kind, w: View, r: View, n: Node, v: int, displaced: bool) {
    C.Moved([k], [w], [r], 0, n, v, C.Displacing(C.NO_FAULTS, if displaced then 1 else 0))
  }

  ghost predicate Drops(w: View, r: View, n: Node) {
    C.Dropped([w], [r], 0, n)
  }

  ghost predicate Adds(k: Kind, w: View, r: View, n: Node, v: int, hint: Node?) {
    C.Added([k], [w], [r], 0, n, v, hint, {})
  }

  // The index may have been rehashed.
  ghost predicate Keeps(k: Kind, w: View, r: View) {
    C.Kept([k], [w], [r], 0, {0})
  }

  // n at place q, by the value v.
  ghost function MovedTo(w: View, n: Node, v: int, q: int): View
    requires n in w.order && 0 <= q < |w.order|
  {
    With(Without(w, n), n, v, q)
  }

  // q is the place of n where it has to stay, or where a new element goes.
  ghost predicate Keeping(k: Kind, w: View, n: Node, v: int, q: int, displaced: bool)
    requires WellFormed(w) && n in w.order && n in w.linked
  {
    WithoutIsWellFormed(w, n);
    RelinkedIsWellFormed(w, n, v);
    if C.StaysIn(k, w, n, v, displaced) then q == Find(w.order, n)
    else GoesTo(k, Values(Without(w, n)), q, v, false, 0)
  }

  lemma MovedToIsWellFormed(w: View, n: Node, v: int, q: int)
    requires WellFormed(w) && n in w.order && 0 <= q < |w.order|
    ensures var r := MovedTo(w, n, v, q);
      n in w.linked && WellFormed(r) && n in r.order && n in r.linked && Without(r, n) == Without(w, n)
    ensures q == Find(w.order, n) ==> MovedTo(w, n, v, q) == Relinked(w, n, v)
  {
    var u, r := Without(w, n), MovedTo(w, n, v, q);
    InOrder(w.order, Find(w.order, n));
    WithoutIsWellFormed(w, n);
    WithIsWellFormed(u, n, v, q);
    WithAt(u, n, v, q, q);
    InOrder(r.order, q);
    Undone(u, n, v, q);
    if q == Find(w.order, n) {
      RelinkedIsWellFormed(w, n, v);
      PutBack(Relinked(w, n, v), n);
    }
  }

  // Such a view is what the cascade makes of w if the index may have it.
  lemma MovedToIsMove(k: Kind, w: View, n: Node, v: int, q: int, displaced: bool)
    requires Good(k, w) && n in w.order && 0 <= q < |w.order|
    ensures n in w.linked && WellFormed(MovedTo(w, n, v, q))
    ensures q == Find(w.order, n) ==> MovedTo(w, n, v, q) == Relinked(w, n, v)
    ensures Fits(k, Values(MovedTo(w, n, v, q))) && Keeping(k, w, n, v, q, displaced) ==>
      Moves(k, w, MovedTo(w, n, v, q), n, v, displaced)
  {
    MovedToIsWellFormed(w, n, v, q);
    WithoutIsWellFormed(w, n);
    RelinkedIsWellFormed(w, n, v);
    var r := MovedTo(w, n, v, q);
    if Fits(k, Values(r)) && Keeping(k, w, n, v, q, displaced) {
      if !C.StaysIn(k, w, n, v, displaced) { WithIsPut(k, Without(w, n), n, v, q, null); }
      IsMove(k, w, r, n, v, displaced);
    }
  }

  lemma IsMove(k: Kind, w: View, r: View, n: Node, v: int, displaced: bool)
    requires Good(k, w) && Good(k, r) && n in w.order && n in w.linked && n in r.order && n in r.linked
    requires r.linked[n] == v && Without(r, n) == Without(w, n) && WellFormed(Relinked(w, n, v))
    requires if C.StaysIn(k, w, n, v, displaced) then r.order == w.order else Put(k, r, n, null)
    ensures Moves(k, w, r, n, v, displaced)
  {
    StaysHere(k, w, n, v, displaced);
    WithoutIsWellFormed(w, n);
    WithoutIsWellFormed(r, n);
    assert r.linked.Keys == Without(r, n).linked.Keys + {n};
    assert w.linked.Keys == Without(w, n).linked.Keys + {n};
    assert C.Holds([k], [r], 0, n);
  }

  // Without n, the values are those of the others.
  lemma MovedValues(w: View, n: Node, v: int, q: int)
    requires WellFormed(w) && n in w.order && 0 <= q < |w.order| && WellFormed(MovedTo(w, n, v, q))
    ensures WellFormed(Without(w, n))
    ensures Removed(Values(MovedTo(w, n, v, q)), q) == Values(Without(w, n))
  {
    var u := Without(w, n);
    WithoutIsWellFormed(w, n);
    WithValues(u, n, v, q);
    var s := Values(u);
    assert Inserted(s, q, v)[..q] == s[..q] && Inserted(s, q, v)[q + 1..] == s[q..];
  }

  // For a single index, the faults tell whether it finds n displaced, and no more.
  lemma StaysHere(k: Kind, w: View, n: Node, v: int, displaced: bool)
    requires Good(k, w) && n in w.order
    ensures n in w.linked && WellFormed(Relinked(w, n, v))
    ensures C.StaysAt([k], [w], 0, n, v, C.Displacing(C.NO_FAULTS, if displaced then 1 else 0)) <==>
      C.StaysIn(k, w, n, v, displaced)
  {
    InOrder(w.order, Find(w.order, n));
    RelinkedIsWellFormed(w, n, v);
    assert C.Holds([k], [w], 0, n);
  }

  // A view with n at place q is what the cascade makes of one without it.
  lemma WithIsAdd(k: Kind, w: View, n: Node, v: int, q: int, hint: Node?)
    requires Good(k, w) && n !in w.linked && GoesTo(k, Values(w), q, v, hint != null, Spot(w.order, hint))
    ensures n !in w.order && WellFormed(With(w, n, v, q))
    ensures Fits(k, Values(With(w, n, v, q))) ==> Adds(k, w, With(w, n, v, q), n, v, hint)
  {
    if n in w.order { InOrder(w.order, Find(w.order, n)); }
    WithIsWellFormed(w, n, v, q);
    WithIsPut(k, w, n, v, q, hint);
    WithAt(w, n, v, q, q);
    InOrder(With(w, n, v, q).order, q);
    Undone(w, n, v, q);
  }

  lemma WithoutIsDrop(k: Kind, w: View, n: Node)
    requires Good(k, w) && n in w.order
    ensures Good(k, Without(w, n)) && Drops(w, Without(w, n), n)
  {
    WithoutIsGood(k, w, n);
  }

  /* The nodes of an index */

  function TakenOut<T>(o: seq<T>, p: int): (r: seq<T>)
    requires 0 <= p < |o|
    ensures |r| == |o| - 1
  {
    o[..p] + o[p + 1..]
  }

  function PutIn<T>(o: seq<T>, q: int, x: T): (r: seq<T>)
    requires 0 <= q <= |o|
    ensures |r| == |o| + 1
  {
    o[..q] + [x] + o[q..]
  }

  // The index has its nodes o in the order of w; at tells which stands for which.
  ghost predicate Stands<T>(w: View, at: map<Node, T>, o: seq<T>) {
    && |w.order| == |o|
    && (forall i {:trigger Nth(w.order, i)} {:trigger L.At(o, i)} | 0 <= i < |o| ::
      Nth(w.order, i) in at && at[Nth(w.order, i)] == L.At(o, i))
  }

  lemma WithoutStands<T>(w: View, at: map<Node, T>, o: seq<T>, n: Node)
    requires n in w.order && Stands(w, at, o)
    ensures Stands(Without(w, n), at, TakenOut(o, Find(w.order, n)))
  {
    var p, r := Find(w.order, n), Without(w, n);
    forall i | 0 <= i < |o| - 1
      ensures Nth(r.order, i) in at && at[Nth(r.order, i)] == L.At(TakenOut(o, p), i)
    {
      WithoutAt(w, n, i);
      assert L.At(TakenOut(o, p), i) == L.At(o, if i < p then i else i + 1);
    }
  }

  lemma WithStands<T>(w: View, at: map<Node, T>, o: seq<T>, n: Node, x: T, v: int, q: int)
    requires Stands(w, at, o) && n in at && at[n] == x && 0 <= q <= |o|
    ensures Stands(With(w, n, v, q), at, PutIn(o, q, x))
  {
    var r := With(w, n, v, q);
    forall i | 0 <= i < |o| + 1
      ensures Nth(r.order, i) in at && at[Nth(r.order, i)] == L.At(PutIn(o, q, x), i)
    {
      WithAt(w, n, v, q, i);
      if i != q { assert L.At(PutIn(o, q, x), i) == L.At(o, if i < q then i else i - 1); }
    }
  }

  // A new name changes nothing for the others.
  lemma NewStands<T>(w: View, at: map<Node, T>, o: seq<T>, n: Node, x: T)
    requires Stands(w, at, o) && n !in w.order
    ensures Stands(w, at[n := x], o)
  {
    forall i | 0 <= i < |o| ensures Nth(w.order, i) in at[n := x] && at[n := x][Nth(w.order, i)] == L.At(o, i) {
      InOrder(w.order, i);
    }
  }

  // Of the nodes of an index, which are all different, x stands for n alone.
  lemma PlaceOf<T>(w: View, at: map<Node, T>, o: seq<T>, n: Node, p: int)
    requires WellFormed(w) && Stands(w, at, o) && n in w.order && n in at && L.Distinct(o)
    requires 0 <= p < |o| && o[p] == at[n]
    ensures p == Find(w.order, n)
    ensures forall y | y in w.linked && y != n :: y in at && at[y] != at[n]
  {
    var f := Find(w.order, n);
    assert at[n] == L.At(o, f);
    if f != p { L.Apart(o, f, p); }
    forall y | y in w.linked && y != n ensures y in at && at[y] != at[n] {
      var i := Find(w.order, y);
      assert at[Nth(w.order, i)] == L.At(o, i);
      L.Apart(o, i, f);
    }
  }
}
