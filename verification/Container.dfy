/** The cascade over the indices of a container: every operation works on index n and hands the rest to the indices
    after it. */
module Container {

  import opened IndexKind
  import opened IndexView

  // How a call ends: with an answer, or because user code threw.
  datatype Outcome = Done(ok: bool) | Threw

  // What the caller's functions do during a call: the indices whose test of the place of an element throws, or whose
  // hash does, those where a comparison throws in the search of another place, the hashed ones that find the element
  // displaced, and whether an assignment throws.
  datatype Faults = Faults(comparing: set<int>, placing: set<int>, displaced: set<int>, assigning: bool)

  const NO_FAULTS := Faults({}, {}, {}, false)

  // A list of indices and what each keeps.
  ghost predicate Matches(ks: seq<Kind>, vs: seq<View>, n: int) {
    0 <= n <= |ks| == |vs|
  }

  ghost predicate Holds(ks: seq<Kind>, vs: seq<View>, m: int, x: Node)
    requires Matches(ks, vs, m) && m < |ks|
  {
    Good(ks[m], vs[m]) && x in vs[m].order && x in vs[m].linked
  }

  // The indices from n on are good and hold x.
  ghost predicate AllHold(ks: seq<Kind>, vs: seq<View>, n: int, x: Node) {
    && Matches(ks, vs, n)
    && (forall m {:trigger Holds(ks, vs, m, x)} | n <= m < |ks| :: Holds(ks, vs, m, x))
  }

  // Those indices placed x by the value v.
  ghost predicate AllAs(ks: seq<Kind>, vs: seq<View>, n: int, x: Node, v: int)
    requires AllHold(ks, vs, n, x)
  {
    forall m {:trigger Holds(ks, vs, m, x)} | n <= m < |ks| && Holds(ks, vs, m, x) :: vs[m].linked[x] == v
  }

  // The others of index m clash with v.
  ghost predicate Refuses(ks: seq<Kind>, vs: seq<View>, m: int, x: Node, v: int) {
    Matches(ks, vs, m) && m < |ks| && Holds(ks, vs, m, x) && Clashes(ks[m], vs[m], x, v)
  }

  ghost predicate Refused(ks: seq<Kind>, vs: seq<View>, n: int, x: Node, v: int) {
    exists m {:trigger Refuses(ks, vs, m, x, v)} :: n <= m < |ks| && Refuses(ks, vs, m, x, v)
  }

  predicate Keyed(k: Kind) {
    k.Ordered? || k.Hashed?
  }

  // Whether x stays where it is with the value v: exactly if v fits there for an ordered index; a hashed index that
  // finds x displaced says no even then, but not when the key is equivalent to the one x was placed by.
  predicate StaysIn(k: Kind, w: View, x: Node, v: int, displaced: bool)
    requires x in w.linked && AllLinked(Relinked(w, x, v))
  {
    (Keyed(k) && Same(k, v, w.linked[x])) || (InPlace(k, w, x, v) && !(k.Hashed? && displaced))
  }

  // The same, with every hashed index among the first n to find the element displaced.
  function Displacing(f: Faults, n: nat): Faults {
    f.(displaced := First(n))
  }

  function First(n: nat): (s: set<int>)
    ensures forall m {:trigger m in s} :: m in s <==> 0 <= m < n
  {
    if n == 0 then {} else First(n - 1) + {n - 1}
  }

  ghost predicate StaysAt(ks: seq<Kind>, vs: seq<View>, m: int, x: Node, v: int, f: Faults) {
    Matches(ks, vs, m) && m < |ks| && Holds(ks, vs, m, x) && StaysIn(ks[m], vs[m], x, v, m in f.displaced)
  }

  // The test of a place calls the caller's functions: an ordered index compares with the neighbours, so an element that
  // is alone needs no comparison, and a hashed index hashes.
  predicate Asks(k: Kind, w: View) {
    k.Hashed? || (k.Ordered? && |w.order| > 1)
  }

  // Index m throws when x gets the value v; to search a place for it, there have to be others.
  ghost predicate Stumbles(ks: seq<Kind>, vs: seq<View>, m: int, x: Node, v: int, f: Faults) {
    && Matches(ks, vs, m) && m < |ks|
    && ((m in f.comparing && Asks(ks[m], vs[m])) || (m in f.placing && Searches(ks, vs, m, x, v, f)))
  }

  ghost predicate Searches(ks: seq<Kind>, vs: seq<View>, m: int, x: Node, v: int, f: Faults)
    requires Matches(ks, vs, m) && m < |ks|
  {
    Keyed(ks[m]) && |vs[m].order| > 1 && !StaysAt(ks, vs, m, x, v, f)
  }

  ghost predicate Stumble(ks: seq<Kind>, vs: seq<View>, n: int, x: Node, v: int, f: Faults) {
    exists m {:trigger Stumbles(ks, vs, m, x, v, f)} :: n <= m < |ks| && Stumbles(ks, vs, m, x, v, f)
  }

  // Some index from n on refuses v, and neither it nor one before it throws.
  ghost predicate RefusedFirst(ks: seq<Kind>, vs: seq<View>, n: int, x: Node, v: int, f: Faults) {
    exists m {:trigger Refuses(ks, vs, m, x, v)} ::
      n <= m < |ks| && Refuses(ks, vs, m, x, v) && Clear(ks, vs, n, m, x, v, f)
  }

  ghost predicate Clear(ks: seq<Kind>, vs: seq<View>, n: int, m: int, x: Node, v: int, f: Faults) {
    forall j {:trigger Stumbles(ks, vs, j, x, v, f)} | n <= j <= m :: !Stumbles(ks, vs, j, x, v, f)
  }

  // r is how a cascade over the indices from n on ends, by the state before it; last tells whether its end throws.
  ghost predicate Ends(ks: seq<Kind>, vs: seq<View>, n: int, x: Node, v: int, f: Faults, last: bool, r: Outcome) {
    && (r == Done(false) <==> RefusedFirst(ks, vs, n, x, v, f))
    && (r == Done(true) <==> !Refused(ks, vs, n, x, v) && !Stumble(ks, vs, n, x, v, f) && !last)
  }

  lemma EndsByStumble(ks: seq<Kind>, vs: seq<View>, n: int, x: Node, v: int, f: Faults, last: bool)
    requires Matches(ks, vs, n) && n < |ks| && Stumbles(ks, vs, n, x, v, f)
    ensures Ends(ks, vs, n, x, v, f, last, Threw)
  {
  }

  lemma EndsByRefusal(ks: seq<Kind>, vs: seq<View>, n: int, x: Node, v: int, f: Faults, last: bool)
    requires Matches(ks, vs, n) && n < |ks| && Refuses(ks, vs, n, x, v) && !Stumbles(ks, vs, n, x, v, f)
    ensures Ends(ks, vs, n, x, v, f, last, Done(false))
  {
    assert Clear(ks, vs, n, n, x, v, f);
  }

  lemma EndsAsRest(ks: seq<Kind>, vs: seq<View>, us: seq<View>, n: int, x: Node, v: int, f: Faults, last: bool,
      r: Outcome)
    requires AllHold(ks, vs, n, x) && n < |ks| && |us| == |vs| && us == vs[n := us[n]]
    requires !Refuses(ks, vs, n, x, v) && !Stumbles(ks, vs, n, x, v, f) && Ends(ks, us, n + 1, x, v, f, last, r)
    ensures Ends(ks, vs, n, x, v, f, last, r)
  {
    RestRefused(ks, vs, us, n, x, v);
    RestFirst(ks, vs, us, n, x, v, f);
    if m :| n <= m < |ks| && Stumbles(ks, vs, m, x, v, f) { SameAhead(ks, vs, us, n, x, v, f, m); }
    if m :| n + 1 <= m < |ks| && Stumbles(ks, us, m, x, v, f) { SameAhead(ks, vs, us, n, x, v, f, m); }
  }

  lemma SameAhead(ks: seq<Kind>, vs: seq<View>, us: seq<View>, n: int, x: Node, v: int, f: Faults, m: int)
    requires Matches(ks, vs, n) && n < |ks| && |us| == |vs| && us == vs[n := us[n]]
    ensures n < m ==> (Refuses(ks, us, m, x, v) <==> Refuses(ks, vs, m, x, v))
    ensures n < m ==> (Stumbles(ks, us, m, x, v, f) <==> Stumbles(ks, vs, m, x, v, f))
  {
  }

  lemma RestFirst(ks: seq<Kind>, vs: seq<View>, us: seq<View>, n: int, x: Node, v: int, f: Faults)
    requires Matches(ks, vs, n) && n < |ks| && |us| == |vs| && us == vs[n := us[n]]
    requires !Refuses(ks, vs, n, x, v) && !Stumbles(ks, vs, n, x, v, f)
    ensures RefusedFirst(ks, vs, n, x, v, f) <==> RefusedFirst(ks, us, n + 1, x, v, f)
  {
    if m :| n <= m < |ks| && Refuses(ks, vs, m, x, v) && Clear(ks, vs, n, m, x, v, f) {
      SameAhead(ks, vs, us, n, x, v, f, m);
      ClearAhead(ks, vs, us, n, x, v, f, m);
    }
    if m :| n + 1 <= m < |ks| && Refuses(ks, us, m, x, v) && Clear(ks, us, n + 1, m, x, v, f) {
      SameAhead(ks, vs, us, n, x, v, f, m);
      ClearAhead(ks, vs, us, n, x, v, f, m);
    }
  }

  lemma ClearAhead(ks: seq<Kind>, vs: seq<View>, us: seq<View>, n: int, x: Node, v: int, f: Faults, m: int)
    requires Matches(ks, vs, n) && n < |ks| && |us| == |vs| && us == vs[n := us[n]] && !Stumbles(ks, vs, n, x, v, f)
    ensures Clear(ks, vs, n, m, x, v, f) <==> Clear(ks, us, n + 1, m, x, v, f)
  {
    if Clear(ks, vs, n, m, x, v, f) {
      forall j | n + 1 <= j <= m ensures !Stumbles(ks, us, j, x, v, f) { SameAhead(ks, vs, us, n, x, v, f, j); }
    }
    if Clear(ks, us, n + 1, m, x, v, f) {
      forall j | n <= j <= m ensures !Stumbles(ks, vs, j, x, v, f) { SameAhead(ks, vs, us, n, x, v, f, j); }
    }
  }

  /* The test that follows a rollback */

  predicate Trips(ks: seq<Kind>, vs: seq<View>, m: int, f: Faults) {
    0 <= m < |ks| == |vs| && Asks(ks[m], vs[m]) && m in f.comparing
  }

  ghost predicate Trip(ks: seq<Kind>, vs: seq<View>, n: int, f: Faults) {
    exists m {:trigger Trips(ks, vs, m, f)} :: n <= m < |ks| && Trips(ks, vs, m, f)
  }

  // x has to leave its place in some index from n on, and neither that nor one before it throws.
  ghost predicate Misfit(ks: seq<Kind>, vs: seq<View>, n: int, x: Node, v: int, f: Faults) {
    exists m {:trigger StaysAt(ks, vs, m, x, v, f)} ::
      n <= m < |ks| && !StaysAt(ks, vs, m, x, v, f) && Untripped(ks, vs, n, m, f)
  }

  ghost predicate Untripped(ks: seq<Kind>, vs: seq<View>, n: int, m: int, f: Faults) {
    forall j {:trigger Trips(ks, vs, j, f)} | n <= j <= m :: !Trips(ks, vs, j, f)
  }

  ghost predicate AllStay(ks: seq<Kind>, vs: seq<View>, n: int, x: Node, v: int, f: Faults) {
    forall m {:trigger StaysAt(ks, vs, m, x, v, f)} | n <= m < |ks| :: StaysAt(ks, vs, m, x, v, f)
  }

  ghost predicate Tested(ks: seq<Kind>, vs: seq<View>, n: int, x: Node, v: int, f: Faults, r: Outcome) {
    && (r == Done(false) <==> Misfit(ks, vs, n, x, v, f))
    && (r == Done(true) <==> AllStay(ks, vs, n, x, v, f) && !Trip(ks, vs, n, f))
  }

  lemma TestedByRest(ks: seq<Kind>, vs: seq<View>, n: int, x: Node, v: int, f: Faults, r: Outcome)
    requires Matches(ks, vs, n) && n < |ks| && !Trips(ks, vs, n, f) && StaysAt(ks, vs, n, x, v, f)
      && Tested(ks, vs, n + 1, x, v, f, r)
    ensures Tested(ks, vs, n, x, v, f, r)
  {
    if m :| n <= m < |ks| && !StaysAt(ks, vs, m, x, v, f) && Untripped(ks, vs, n, m, f) {
      assert Untripped(ks, vs, n + 1, m, f);
    }
    if m :| n + 1 <= m < |ks| && !StaysAt(ks, vs, m, x, v, f) && Untripped(ks, vs, n + 1, m, f) {
      assert Untripped(ks, vs, n, m, f);
    }
  }

  lemma TestedHere(ks: seq<Kind>, vs: seq<View>, n: int, x: Node, v: int, f: Faults)
    requires Matches(ks, vs, n) && n < |ks|
    ensures Trips(ks, vs, n, f) ==> Tested(ks, vs, n, x, v, f, Threw)
    ensures !Trips(ks, vs, n, f) && !StaysAt(ks, vs, n, x, v, f) ==> Tested(ks, vs, n, x, v, f, Done(false))
  {
    if !Trips(ks, vs, n, f) { assert Untripped(ks, vs, n, n, f); }
  }

  lemma MisfitOrTrip(ks: seq<Kind>, vs: seq<View>, n: int, x: Node, v: int, f: Faults)
    requires Matches(ks, vs, n) && !AllStay(ks, vs, n, x, v, f) && !Trip(ks, vs, n, f)
    ensures Misfit(ks, vs, n, x, v, f)
  {
    var m :| n <= m < |ks| && !StaysAt(ks, vs, m, x, v, f);
    assert Untripped(ks, vs, n, m, f);
  }

  // The value x was placed by suits every index.
  lemma OldValueStays(ks: seq<Kind>, vs: seq<View>, n: int, x: Node, v: int, f: Faults)
    requires AllHold(ks, vs, n, x) && AllAs(ks, vs, n, x, v)
    ensures AllStay(ks, vs, n, x, v, f) && !Misfit(ks, vs, n, x, v, f)
  {
    forall m | n <= m < |ks| ensures StaysAt(ks, vs, m, x, v, f) {
      assert Holds(ks, vs, m, x);
      if Keyed(ks[m]) {
        SameAsItself(ks[m], v);
      } else {
        PlainStays(ks[m], vs[m], x, v);
      }
    }
  }

  // At index m, x has the value v, at its old place if it stays there and else where a new element goes, and the others
  // are as before.
  ghost predicate Moved(ks: seq<Kind>, vs: seq<View>, ws: seq<View>, m: int, x: Node, v: int, f: Faults)
    requires Matches(ks, vs, m) && Matches(ks, ws, m) && m < |ks|
  {
    && Holds(ks, ws, m, x) && x in vs[m].order && x in vs[m].linked && ws[m].linked[x] == v
    && Without(ws[m], x) == Without(vs[m], x) && ws[m].linked.Keys == vs[m].linked.Keys
    && (if StaysAt(ks, vs, m, x, v, f) then ws[m].order == vs[m].order else Put(ks[m], ws[m], x, null))
  }

  ghost predicate SameBefore(vs: seq<View>, ws: seq<View>, n: int)
    requires 0 <= n <= |vs| == |ws|
  {
    forall m {:trigger ws[m]} | 0 <= m < n :: ws[m] == vs[m]
  }

  ghost predicate AllMoved(ks: seq<Kind>, vs: seq<View>, ws: seq<View>, n: int, x: Node, v: int, f: Faults) {
    && Matches(ks, vs, n) && Matches(ks, ws, n) && SameBefore(vs, ws, n)
    && (forall m {:trigger Moved(ks, vs, ws, m, x, v, f)} | n <= m < |ks| :: Moved(ks, vs, ws, m, x, v, f))
  }

  ghost predicate Dropped(vs: seq<View>, ws: seq<View>, m: int, x: Node)
    requires 0 <= m < |vs| == |ws|
  {
    x in vs[m].order && ws[m] == Without(vs[m], x)
  }

  ghost predicate AllDropped(ks: seq<Kind>, vs: seq<View>, ws: seq<View>, n: int, x: Node) {
    && Matches(ks, vs, n) && Matches(ks, ws, n) && SameBefore(vs, ws, n)
    && (forall m {:trigger Dropped(vs, ws, m, x)} | n <= m < |ks| :: Dropped(vs, ws, m, x))
  }

  // x fits where it stands with v.
  ghost predicate FitsHere(ks: seq<Kind>, vs: seq<View>, m: int, x: Node, v: int)
    requires Matches(ks, vs, m) && m < |ks|
  {
    Good(ks[m], Relinked(vs[m], x, v))
  }

  ghost predicate AllFit(ks: seq<Kind>, vs: seq<View>, n: int, x: Node, v: int) {
    Matches(ks, vs, n) && forall m {:trigger FitsHere(ks, vs, m, x, v)} | n <= m < |ks| :: FitsHere(ks, vs, m, x, v)
  }

  // Index n may be changed before the rest is asked.
  lemma Rest(ks: seq<Kind>, vs: seq<View>, us: seq<View>, n: int, x: Node)
    requires AllHold(ks, vs, n, x) && n < |ks| && |us| == |vs| && us == vs[n := us[n]]
    ensures Holds(ks, vs, n, x) && AllHold(ks, us, n + 1, x)
  {
    assert Holds(ks, vs, n, x);
    forall m | n + 1 <= m < |ks| ensures Holds(ks, us, m, x) {
      assert Holds(ks, vs, m, x);
    }
  }

  lemma RestFit(ks: seq<Kind>, vs: seq<View>, n: int, x: Node, v: int)
    requires Matches(ks, vs, n) && n < |ks|
    ensures FitsHere(ks, vs, n, x, v) && AllFit(ks, vs, n + 1, x, v) ==> AllFit(ks, vs, n, x, v)
  {
  }

  lemma RestRefused(ks: seq<Kind>, vs: seq<View>, us: seq<View>, n: int, x: Node, v: int)
    requires AllHold(ks, vs, n, x) && n < |ks| && |us| == |vs| && us == vs[n := us[n]]
    ensures Refused(ks, vs, n, x, v) <==> Refuses(ks, vs, n, x, v) || Refused(ks, us, n + 1, x, v)
  {
    if m :| n + 1 <= m < |ks| && Refuses(ks, vs, m, x, v) { assert Refuses(ks, us, m, x, v); }
    if m :| n + 1 <= m < |ks| && Refuses(ks, us, m, x, v) { assert Refuses(ks, vs, m, x, v); }
  }

  // What the rest did to us, and ws at n, together.
  lemma RestMoved(ks: seq<Kind>, vs: seq<View>, us: seq<View>, us': seq<View>, ws: seq<View>, n: int, x: Node, v: int,
      f: Faults)
    requires Matches(ks, vs, n) && n < |ks| && |us| == |vs| && us == vs[n := us[n]]
    requires AllMoved(ks, us, us', n + 1, x, v, f) && |ws| == |vs| && ws == us'[n := ws[n]]
      && Moved(ks, vs, ws, n, x, v, f)
    ensures AllMoved(ks, vs, ws, n, x, v, f)
  {
    forall m | n <= m < |ks| ensures Moved(ks, vs, ws, m, x, v, f) {
      if m > n { assert Moved(ks, us, us', m, x, v, f); }
    }
    forall m {:trigger ws[m]} | 0 <= m < n ensures ws[m] == vs[m] {
      assert us'[m] == us[m];
    }
  }

  lemma RestDropped(ks: seq<Kind>, vs: seq<View>, us: seq<View>, us': seq<View>, ws: seq<View>, n: int, x: Node)
    requires Matches(ks, vs, n) && n < |ks| && |us| == |vs| && us == vs[n := us[n]]
    requires AllDropped(ks, us, us', n + 1, x) && |ws| == |vs| && ws == us'[n := ws[n]] && Dropped(vs, ws, n, x)
    ensures AllDropped(ks, vs, ws, n, x)
  {
    forall m | n <= m < |ks| ensures Dropped(vs, ws, m, x) {
      if m > n { assert Dropped(us, us', m, x); }
    }
    forall m {:trigger ws[m]} | 0 <= m < n ensures ws[m] == vs[m] {
      assert us'[m] == us[m];
    }
  }

  /* Insertion */

  ghost predicate AllGood(ks: seq<Kind>, vs: seq<View>, n: int) {
    Matches(ks, vs, n) && forall m {:trigger Good(ks[m], vs[m])} | n <= m < |ks| :: Good(ks[m], vs[m])
  }

  // The same elements; a full hashed index may have been rehashed, which keeps equivalent ones in their order.
  ghost predicate SameElements(k: Kind, w: View, r: View, full: bool) {
    r.linked == w.linked && if k.Hashed? && full then GroupsKept(k, w, r) else r == w
  }

  // Index m has x besides what it had, where it puts a new element.
  ghost predicate Added(ks: seq<Kind>, vs: seq<View>, ws: seq<View>, m: int, x: Node, v: int, hint: Node?,
      full: set<int>)
    requires Matches(ks, vs, m) && Matches(ks, ws, m) && m < |ks|
  {
    && Holds(ks, ws, m, x) && x !in vs[m].linked && ws[m].linked == vs[m].linked[x := v]
    && SameElements(ks[m], vs[m], Without(ws[m], x), m in full) && Put(ks[m], ws[m], x, hint)
  }

  ghost predicate AllAdded(ks: seq<Kind>, vs: seq<View>, ws: seq<View>, n: int, x: Node, v: int, hint: Node?,
      full: set<int>) {
    && Matches(ks, vs, n) && Matches(ks, ws, n) && SameBefore(vs, ws, n)
    && (forall m {:trigger Added(ks, vs, ws, m, x, v, hint, full)} | n <= m < |ks| ::
      Added(ks, vs, ws, m, x, v, hint, full))
  }

  // Index m has what it had.
  ghost predicate Kept(ks: seq<Kind>, vs: seq<View>, ws: seq<View>, m: int, full: set<int>)
    requires Matches(ks, vs, m) && Matches(ks, ws, m) && m < |ks|
  {
    Good(ks[m], ws[m]) && SameElements(ks[m], vs[m], ws[m], m in full)
  }

  ghost predicate AllKept(ks: seq<Kind>, vs: seq<View>, ws: seq<View>, n: int, full: set<int>) {
    && Matches(ks, vs, n) && Matches(ks, ws, n) && SameBefore(vs, ws, n)
    && (forall m {:trigger Kept(ks, vs, ws, m, full)} | n <= m < |ks| :: Kept(ks, vs, ws, m, full))
  }

  ghost predicate Blocks(ks: seq<Kind>, vs: seq<View>, m: int, v: int) {
    Matches(ks, vs, m) && m < |ks| && Blocked(ks[m], vs[m], v)
  }

  // Some unique index from n on has an element with the key of v.
  ghost predicate AnyBlocks(ks: seq<Kind>, vs: seq<View>, n: int, v: int) {
    exists m {:trigger Blocks(ks, vs, m, v)} :: n <= m < |ks| && Blocks(ks, vs, m, v)
  }

  // y is an element with the key of v in such an index.
  ghost predicate Culprit(ks: seq<Kind>, vs: seq<View>, n: int, v: int, y: Node) {
    exists m {:trigger Blocks(ks, vs, m, v)} ::
      n <= m < |ks| && Blocks(ks, vs, m, v) && y in vs[m].linked && Same(ks[m], v, vs[m].linked[y])
  }

  // The search of a place for a new element calls the caller's functions: an ordered index with elements compares, a
  // hashed one hashes; a random access index makes room.
  predicate AsksAnew(k: Kind, w: View) {
    k.Hashed? || k.RandomAccess? || (k.Ordered? && w.order != [])
  }

  // Index j throws in an insertion; |ks| in t stands for making the node.
  predicate Stops(ks: seq<Kind>, vs: seq<View>, j: int, t: set<int>) {
    j in t && (j == |ks| || (0 <= j < |ks| == |vs| && AsksAnew(ks[j], vs[j])))
  }

  // made is a node that no index knows, if there is one.
  ghost predicate IsNew(vs: seq<View>, made: Node?) {
    made != null ==> forall m {:trigger vs[m]} | 0 <= m < |vs| :: made !in vs[m].linked
  }

  // How an insertion of v into the indices from n on ends, where those in t throw when they ask.
  ghost predicate Inserts(ks: seq<Kind>, vs: seq<View>, n: int, v: int, t: set<int>, r: Outcome) {
    && (r == Done(false) <==> BlockedFirst(ks, vs, n, v, t))
    && (r == Done(true) <==> !AnyBlocks(ks, vs, n, v) && Quiet(ks, vs, t, n, |ks|))
  }

  ghost predicate Quiet(ks: seq<Kind>, vs: seq<View>, t: set<int>, n: int, m: int) {
    forall j {:trigger Stops(ks, vs, j, t)} | n <= j <= m :: !Stops(ks, vs, j, t)
  }

  ghost predicate BlockedFirst(ks: seq<Kind>, vs: seq<View>, n: int, v: int, t: set<int>) {
    exists m {:trigger Blocks(ks, vs, m, v)} :: n <= m < |ks| && Blocks(ks, vs, m, v) && Quiet(ks, vs, t, n, m)
  }

  lemma InsertsByRest(ks: seq<Kind>, vs: seq<View>, us: seq<View>, n: int, v: int, t: set<int>, r: Outcome)
    requires Matches(ks, vs, n) && n < |ks| && |us| == |vs| && us == vs[n := us[n]]
    requires !Blocks(ks, vs, n, v) && !Stops(ks, vs, n, t) && Inserts(ks, us, n + 1, v, t, r)
    ensures Inserts(ks, vs, n, v, t, r)
  {
    forall m | n < m <= |ks| ensures Quiet(ks, vs, t, n, m) <==> Quiet(ks, us, t, n + 1, m) {
      QuietAhead(ks, vs, us, n, t, m);
    }
    if m :| n <= m < |ks| && Blocks(ks, vs, m, v) { assert Blocks(ks, us, m, v); }
    if m :| n <= m < |ks| && Blocks(ks, vs, m, v) && Quiet(ks, vs, t, n, m) {
      assert Blocks(ks, us, m, v) && Quiet(ks, us, t, n + 1, m);
    }
    if m :| n + 1 <= m < |ks| && Blocks(ks, us, m, v) { assert Blocks(ks, vs, m, v); }
    if m :| n + 1 <= m < |ks| && Blocks(ks, us, m, v) && Quiet(ks, us, t, n + 1, m) {
      assert Blocks(ks, vs, m, v) && Quiet(ks, vs, t, n, m);
    }
  }

  lemma QuietAhead(ks: seq<Kind>, vs: seq<View>, us: seq<View>, n: int, t: set<int>, m: int)
    requires Matches(ks, vs, n) && n < |ks| && |us| == |vs| && us == vs[n := us[n]] && !Stops(ks, vs, n, t)
    ensures Quiet(ks, vs, t, n, m) <==> Quiet(ks, us, t, n + 1, m)
  {
    forall j | n < j ensures Stops(ks, vs, j, t) <==> Stops(ks, us, j, t) {
    }
  }

  lemma InsertsHere(ks: seq<Kind>, vs: seq<View>, n: int, v: int, t: set<int>)
    requires Matches(ks, vs, n)
    ensures Stops(ks, vs, n, t) ==> Inserts(ks, vs, n, v, t, Threw)
    ensures !Stops(ks, vs, n, t) && n < |ks| && Blocks(ks, vs, n, v) ==> Inserts(ks, vs, n, v, t, Done(false))
    ensures !Stops(ks, vs, n, t) && n == |ks| ==> Inserts(ks, vs, n, v, t, Done(true))
  {
    if !Stops(ks, vs, n, t) { assert Quiet(ks, vs, t, n, n); }
  }

  lemma RestAdded(ks: seq<Kind>, vs: seq<View>, us: seq<View>, us': seq<View>, ws: seq<View>, n: int, x: Node, v: int,
      hint: Node?, full: set<int>)
    requires Matches(ks, vs, n) && n < |ks| && |us| == |vs| && us == vs[n := us[n]]
    requires AllAdded(ks, us, us', n + 1, x, v, hint, full) && |ws| == |vs| && ws == us'[n := ws[n]]
    requires Added(ks, vs, ws, n, x, v, hint, full)
    ensures AllAdded(ks, vs, ws, n, x, v, hint, full)
  {
    forall m | n <= m < |ks| ensures Added(ks, vs, ws, m, x, v, hint, full) {
      if m > n { assert Added(ks, us, us', m, x, v, hint, full); }
    }
    forall m {:trigger ws[m]} | 0 <= m < n ensures ws[m] == vs[m] {
      assert us'[m] == us[m];
    }
  }

  lemma KeptAsIs(ks: seq<Kind>, vs: seq<View>, n: int, full: set<int>)
    requires AllGood(ks, vs, n)
    ensures AllKept(ks, vs, vs, n, full)
  {
    forall m | n <= m < |ks| ensures Kept(ks, vs, vs, m, full) {
      assert Good(ks[m], vs[m]);
    }
  }

  lemma RestKept(ks: seq<Kind>, vs: seq<View>, us: seq<View>, ws: seq<View>, n: int, full: set<int>)
    requires Matches(ks, vs, n) && n < |ks| && |us| == |vs| && us == vs[n := us[n]] && Kept(ks, vs, us, n, full)
    requires AllKept(ks, us, ws, n + 1, full)
    ensures AllKept(ks, vs, ws, n, full)
  {
    assert ws[n] == us[n];
    forall m | n <= m < |ks| ensures Kept(ks, vs, ws, m, full) {
      if m > n { assert Kept(ks, us, ws, m, full); }
    }
    forall m {:trigger ws[m]} | 0 <= m < n ensures ws[m] == vs[m] {
      assert us[m] == vs[m];
    }
  }

  lemma RestBlocks(ks: seq<Kind>, vs: seq<View>, us: seq<View>, n: int, v: int)
    requires Matches(ks, vs, n) && n < |ks| && |us| == |vs| && us == vs[n := us[n]]
    ensures AnyBlocks(ks, vs, n, v) <==> Blocks(ks, vs, n, v) || AnyBlocks(ks, us, n + 1, v)
    ensures forall y | Culprit(ks, us, n + 1, v, y) :: Culprit(ks, vs, n, v, y)
  {
    if m :| n + 1 <= m < |ks| && Blocks(ks, vs, m, v) { assert Blocks(ks, us, m, v); }
    if m :| n + 1 <= m < |ks| && Blocks(ks, us, m, v) { assert Blocks(ks, vs, m, v); }
    forall y | Culprit(ks, us, n + 1, v, y) ensures Culprit(ks, vs, n, v, y) {
      var m :| n + 1 <= m < |ks| && Blocks(ks, us, m, v) && y in us[m].linked && Same(ks[m], v, us[m].linked[y]);
      assert Blocks(ks, vs, m, v);
    }
  }

  class Container {
    const kinds: seq<Kind>
    var views: seq<View>
    var nodeCount: int

    constructor (ks: seq<Kind>)
      requires forall m {:trigger ks[m]} | 0 <= m < |ks| :: Lawful(ks[m])
      ensures kinds == ks && nodeCount == 0 && |views| == |ks|
      ensures forall m {:trigger views[m]} | 0 <= m < |ks| :: Good(ks[m], views[m]) && views[m].order == []
      ensures 0 < |ks| ==> Valid() && Content() == map[]
    {
      kinds, nodeCount := ks, 0;
      views := seq(|ks|, _ => View([], map[]));
      new;
      forall m | 0 <= m < |ks| ensures Good(ks[m], views[m]) {
        assert Lawful(ks[m]) && Fits(ks[m], Values(views[m]));
      }
    }

    // Whether v may stay where x is.
    method Stays(n: int, x: Node, v: int, f: Faults) returns (b: bool)
      requires Matches(kinds, views, n) && n < |kinds| && Holds(kinds, views, n, x)
      ensures b == StaysAt(kinds, views, n, x, v, f)
      ensures b ==> Good(kinds[n], Relinked(views[n], x, v)) && !Clashes(kinds[n], views[n], x, v)
      ensures !Keyed(kinds[n]) || Same(kinds[n], v, views[n].linked[x]) ==> b
    {
      var k, w := kinds[n], views[n];
      RelinkedIsWellFormed(w, x, v);
      b := StaysIn(k, w, x, v, n in f.displaced);
      if !Keyed(k) {
        PlainStays(k, w, x, v);
      } else if Same(k, v, w.linked[x]) {
        SameKeyInPlace(k, w, x, v);
      }
      if b { InPlaceNoClash(k, w, x, v); }
    }

    // The value x is placed by becomes v, without a move.
    method Keep(n: int, x: Node, v: int, ghost f: Faults)
      requires Matches(kinds, views, n) && n < |kinds| && Holds(kinds, views, n, x)
        && Good(kinds[n], Relinked(views[n], x, v)) && StaysAt(kinds, views, n, x, v, f)
      modifies this`views
      ensures |views| == |old(views)| && views == old(views)[n := views[n]]
        && Moved(kinds, old(views), views, n, x, v, f)
    {
      RelinkedIsWellFormed(views[n], x, v);
      views := views[n := Relinked(views[n], x, v)];
    }

    method Unlink(n: int, x: Node)
      requires Matches(kinds, views, n) && n < |kinds| && Holds(kinds, views, n, x)
      modifies this`views
      ensures |views| == |old(views)| && views == old(views)[n := Without(old(views)[n], x)]
      ensures Good(kinds[n], views[n]) && x !in views[n].order && Dropped(old(views), views, n, x)
    {
      WithoutIsGood(kinds[n], views[n], x);
      views := views[n := Without(views[n], x)];
    }

    // Puts x at place pos of index n.
    method Link(n: int, x: Node, v: int, pos: int, ghost f: Faults, ghost vs: seq<View>)
      requires Matches(kinds, views, n) && n < |kinds| && Good(kinds[n], views[n]) && x !in views[n].order
      requires FitsAt(kinds[n], Values(views[n]), pos, v) && GoesTo(kinds[n], Values(views[n]), pos, v, false, 0)
      requires |vs| == |views| && Holds(kinds, vs, n, x) && views[n] == Without(vs[n], x)
      requires !StaysAt(kinds, vs, n, x, v, f)
      modifies this`views
      ensures |views| == |old(views)| && views == old(views)[n := views[n]] && Moved(kinds, vs, views, n, x, v, f)
    {
      WithIsGood(kinds[n], views[n], x, v, pos);
      WithoutIsGood(kinds[n], vs[n], x);
      WithIsPut(kinds[n], views[n], x, v, pos, null);
      views := views[n := With(views[n], x, v, pos)];
    }

    // Puts x back at place pos of index n, where it was.
    method Restore(n: int, x: Node, v: int, pos: int, ghost vs: seq<View>)
      requires Matches(kinds, views, n) && n < |kinds| && |vs| == |views| && Holds(kinds, vs, n, x)
      requires views == vs[n := Without(vs[n], x)] && pos == Find(vs[n].order, x) && v == vs[n].linked[x]
      modifies this`views
      ensures views == vs
    {
      PutBack(vs[n], x);
      views := views[n := With(views[n], x, v, pos)];
    }

    // The cascade of replace_ from index n on, which assigns v at its end, and that of modify_rollback_, which does
    // not.
    method PlaceFrom(n: int, v: int, x: Node, assign: bool, f: Faults) returns (r: Outcome)
      requires AllHold(kinds, views, n, x) && (assign || x.value == v)
      modifies this`views, x`value
      ensures r == Done(true) ==> x.value == v && AllMoved(kinds, old(views), views, n, x, v, f)
      ensures r != Done(true) ==> x.value == old(x.value) && views == old(views)
      ensures Ends(kinds, old(views), n, x, v, f, assign && f.assigning, r)
      decreases |kinds| - n, 1
    {
      if n == |kinds| {
        if assign && f.assigning { return Threw; }
        if assign { x.value := v; }
        return Done(true);
      }
      Rest(kinds, views, views, n, x);
      if Asks(kinds[n], views[n]) && n in f.comparing {
        EndsByStumble(kinds, views, n, x, v, f, assign && f.assigning);
        return Threw;
      }
      var b := Stays(n, x, v, f);
      if b {
        r := PlaceHere(n, v, x, assign, f);
      } else {
        r := PlaceElsewhere(n, v, x, assign, f);
      }
    }

    method PlaceHere(n: int, v: int, x: Node, assign: bool, f: Faults) returns (r: Outcome)
      requires AllHold(kinds, views, n, x) && (assign || x.value == v) && n < |kinds| && Holds(kinds, views, n, x)
      requires Good(kinds[n], Relinked(views[n], x, v)) && !Clashes(kinds[n], views[n], x, v)
      requires StaysAt(kinds, views, n, x, v, f) && !Stumbles(kinds, views, n, x, v, f)
      modifies this`views, x`value
      ensures r == Done(true) ==> x.value == v && AllMoved(kinds, old(views), views, n, x, v, f)
      ensures r != Done(true) ==> x.value == old(x.value) && views == old(views)
      ensures Ends(kinds, old(views), n, x, v, f, assign && f.assigning, r)
      decreases |kinds| - n, 0
    {
      ghost var vs := views;
      Rest(kinds, vs, vs, n, x);
      r := PlaceFrom(n + 1, v, x, assign, f);
      EndsAsRest(kinds, vs, vs, n, x, v, f, assign && f.assigning, r);
      if r == Done(true) {
        ghost var us := views;
        assert us[n] == vs[n];
        Keep(n, x, v, f);
        RestMoved(kinds, vs, vs, us, views, n, x, v, f);
      }
    }

    method PlaceElsewhere(n: int, v: int, x: Node, assign: bool, f: Faults) returns (r: Outcome)
      requires AllHold(kinds, views, n, x) && (assign || x.value == v) && n < |kinds| && Holds(kinds, views, n, x)
      requires Keyed(kinds[n]) && !StaysAt(kinds, views, n, x, v, f) && (Asks(kinds[n], views[n]) ==> n !in f.comparing)
      modifies this`views, x`value
      ensures r == Done(true) ==> x.value == v && AllMoved(kinds, old(views), views, n, x, v, f)
      ensures r != Done(true) ==> x.value == old(x.value) && views == old(views)
      ensures Ends(kinds, old(views), n, x, v, f, assign && f.assigning, r)
      decreases |kinds| - n, 0
    {
      ghost var vs := views;
      var was, place := views[n].linked[x], Find(views[n].order, x);
      Unlink(n, x);
      ghost var us := views;
      var ok, pos := false, 0;
      if n in f.placing && |views[n].order| > 0 {
        EndsByStumble(kinds, vs, n, x, v, f, assign && f.assigning);
        r := Threw;
      } else {
        ok, pos := Slot(kinds[n], Values(views[n]), v);
        r := PlaceIfFree(n, v, x, assign, f, ok, vs);
      }
      if r == Done(true) {
        ghost var us' := views;
        assert us'[n] == us[n];
        Link(n, x, v, pos, f, vs);
        RestMoved(kinds, vs, us, us', views, n, x, v, f);
      } else {
        Restore(n, x, was, place, vs);
      }
    }

    // Index n, which has lost x, found a place for it or not.
    method PlaceIfFree(n: int, v: int, x: Node, assign: bool, f: Faults, ok: bool, ghost vs: seq<View>)
        returns (r: Outcome)
      requires AllHold(kinds, vs, n, x) && (assign || x.value == v) && n < |kinds| && Holds(kinds, vs, n, x)
      requires |views| == |vs| && views == vs[n := Without(vs[n], x)] && ok != Refuses(kinds, vs, n, x, v)
      requires !Stumbles(kinds, vs, n, x, v, f)
      modifies this`views, x`value
      ensures r == Done(true) ==> ok && x.value == v && AllMoved(kinds, old(views), views, n + 1, x, v, f)
      ensures r != Done(true) ==> x.value == old(x.value) && views == old(views)
      ensures Ends(kinds, vs, n, x, v, f, assign && f.assigning, r)
      decreases |kinds| - n - 1, 2
    {
      ghost var us := views;
      Rest(kinds, vs, us, n, x);
      if ok {
        r := PlaceFrom(n + 1, v, x, assign, f);
        EndsAsRest(kinds, vs, us, n, x, v, f, assign && f.assigning, r);
      } else {
        EndsByRefusal(kinds, vs, n, x, v, f, assign && f.assigning);
        r := Done(false);
      }
    }

    // Takes x out of the indices from n on.
    method ExtractFrom(n: int, x: Node)
      requires AllHold(kinds, views, n, x)
      modifies this`views
      ensures AllDropped(kinds, old(views), views, n, x)
      decreases |kinds| - n
    {
      if n < |kinds| {
        ghost var vs := views;
        Rest(kinds, vs, vs, n, x);
        Unlink(n, x);
        ghost var us := views;
        Rest(kinds, vs, us, n, x);
        ExtractFrom(n + 1, x);
        assert views[n] == us[n];
        RestDropped(kinds, vs, us, views, views, n, x);
      }
    }

    // The cascade of modify_ from index n on: x, whose value was changed, is placed by it or taken out of all of them.
    method ModifyFrom(n: int, x: Node, f: Faults) returns (r: Outcome)
      requires AllHold(kinds, views, n, x)
      modifies this`views
      ensures r == Done(true) ==> AllMoved(kinds, old(views), views, n, x, x.value, f)
      ensures r != Done(true) ==> AllDropped(kinds, old(views), views, n, x)
      ensures Ends(kinds, old(views), n, x, x.value, f, false, r)
      decreases |kinds| - n, 3
    {
      if n == |kinds| {
        return Done(true);
      }
      ghost var vs := views;
      Rest(kinds, vs, vs, n, x);
      if Asks(kinds[n], views[n]) && n in f.comparing {
        EndsByStumble(kinds, vs, n, x, x.value, f, false);
        ExtractFrom(n, x);
        return Threw;
      }
      var b := Stays(n, x, x.value, f);
      if b {
        Keep(n, x, x.value, f);
        r := ModifyRest(n, x, f, vs);
      } else {
        r := ModifyElsewhere(n, x, f);
      }
    }

    // Index n has placed x; the others follow, and if they fail x is taken out of n too.
    method ModifyRest(n: int, x: Node, f: Faults, ghost vs: seq<View>) returns (r: Outcome)
      requires AllHold(kinds, vs, n, x) && n < |kinds| && |views| == |vs| && views == vs[n := views[n]]
      requires Moved(kinds, vs, views, n, x, x.value, f) && !Refuses(kinds, vs, n, x, x.value)
        && !Stumbles(kinds, vs, n, x, x.value, f)
      modifies this`views
      ensures r == Done(true) ==> AllMoved(kinds, vs, views, n, x, x.value, f)
      ensures r != Done(true) ==> AllDropped(kinds, vs, views, n, x)
      ensures Ends(kinds, vs, n, x, x.value, f, false, r)
      decreases |kinds| - n, 0
    {
      ghost var us := views;
      Rest(kinds, vs, us, n, x);
      r := ModifyFrom(n + 1, x, f);
      EndsAsRest(kinds, vs, us, n, x, x.value, f, false, r);
      ghost var us' := views;
      assert us'[n] == us[n];
      if r == Done(true) {
        RestMoved(kinds, vs, us, us', views, n, x, x.value, f);
      } else {
        Unlink(n, x);
        RestDropped(kinds, vs, us, us', views, n, x);
      }
    }

    method ModifyElsewhere(n: int, x: Node, f: Faults) returns (r: Outcome)
      requires AllHold(kinds, views, n, x) && n < |kinds| && Holds(kinds, views, n, x)
      requires Keyed(kinds[n]) && !StaysAt(kinds, views, n, x, x.value, f)
      requires Asks(kinds[n], views[n]) ==> n !in f.comparing
      modifies this`views
      ensures r == Done(true) ==> AllMoved(kinds, old(views), views, n, x, x.value, f)
      ensures r != Done(true) ==> AllDropped(kinds, old(views), views, n, x)
      ensures Ends(kinds, old(views), n, x, x.value, f, false, r)
      decreases |kinds| - n, 2
    {
      ghost var vs := views;
      Unlink(n, x);
      if n in f.placing && |views[n].order| > 0 {
        EndsByStumble(kinds, vs, n, x, x.value, f, false);
        ExtractRest(n, x, vs);
        return Threw;
      }
      var ok, pos := Slot(kinds[n], Values(views[n]), x.value);
      r := ModifyIfFree(n, x, f, ok, pos, vs);
    }

    // Index n, which has lost x, found a place for it or not.
    method ModifyIfFree(n: int, x: Node, f: Faults, ok: bool, pos: int, ghost vs: seq<View>) returns (r: Outcome)
      requires AllHold(kinds, vs, n, x) && n < |kinds| && Holds(kinds, vs, n, x) && Good(kinds[n], vs[n])
      requires |views| == |vs| && views == vs[n := Without(vs[n], x)] && Good(kinds[n], views[n])
      requires !StaysAt(kinds, vs, n, x, x.value, f) && !Stumbles(kinds, vs, n, x, x.value, f)
      requires x !in views[n].order && ok != Refuses(kinds, vs, n, x, x.value)
      requires ok ==>
        FitsAt(kinds[n], Values(views[n]), pos, x.value) && GoesTo(kinds[n], Values(views[n]), pos, x.value, false, 0)
      modifies this`views
      ensures r == Done(true) ==> AllMoved(kinds, vs, views, n, x, x.value, f)
      ensures r != Done(true) ==> AllDropped(kinds, vs, views, n, x)
      ensures Ends(kinds, vs, n, x, x.value, f, false, r)
      decreases |kinds| - n, 1
    {
      if ok {
        Link(n, x, x.value, pos, f, vs);
        r := ModifyRest(n, x, f, vs);
      } else {
        EndsByRefusal(kinds, vs, n, x, x.value, f, false);
        ExtractRest(n, x, vs);
        r := Done(false);
      }
    }

    // Index n has lost x; the others lose it too.
    method ExtractRest(n: int, x: Node, ghost vs: seq<View>)
      requires AllHold(kinds, vs, n, x) && n < |kinds| && |views| == |vs| && views == vs[n := views[n]]
        && Dropped(vs, views, n, x)
      modifies this`views
      ensures AllDropped(kinds, vs, views, n, x)
    {
      ghost var us := views;
      Rest(kinds, vs, us, n, x);
      ExtractFrom(n + 1, x);
      assert views[n] == us[n];
      RestDropped(kinds, vs, us, views, views, n, x);
    }

    // The cascade of check_rollback_: whether x fits where it is.
    method CheckFrom(n: int, x: Node, f: Faults) returns (r: Outcome)
      requires AllHold(kinds, views, n, x)
      ensures r == Done(true) ==> AllFit(kinds, views, n, x, x.value)
      ensures Tested(kinds, views, n, x, x.value, f, r)
      decreases |kinds| - n
    {
      if n == |kinds| {
        return Done(true);
      }
      Rest(kinds, views, views, n, x);
      TestedHere(kinds, views, n, x, x.value, f);
      if Asks(kinds[n], views[n]) && n in f.comparing {
        return Threw;
      }
      var b := Stays(n, x, x.value, f);
      if b {
        r := CheckFrom(n + 1, x, f);
        TestedByRest(kinds, views, n, x, x.value, f, r);
        RestFit(kinds, views, n, x, x.value);
      } else {
        r := Done(false);
      }
    }

    // The cascade of insert_ from index n on: the node, if it is not made already, is by the last, unless an index
    // finds one with the key of v. The indices in t throw, and hashed ones in full are rehashed first.
    method InsertFrom(n: int, v: int, hint: Node?, made: Node?, t: set<int>, full: set<int>)
        returns (r: Outcome, y: Node?)
      requires AllGood(kinds, views, n) && IsNew(views, made)
      requires made != null ==> made.value == v && |kinds| !in t
      modifies this`views
      ensures r == Done(true) ==> y != null && y.value == v && (if made == null then fresh(y) else y == made)
      ensures r == Done(true) ==> AllAdded(kinds, old(views), views, n, y, v, hint, full)
      ensures r != Done(true) ==> AllKept(kinds, old(views), views, n, full)
      ensures r == Done(false) ==> y != null && Culprit(kinds, old(views), n, v, y)
      ensures Inserts(kinds, old(views), n, v, t, r)
      decreases |kinds| - n, 1
    {
      InsertsHere(kinds, views, n, v, t);
      if n == |kinds| {
        if made != null { return Done(true), made; }
        if n in t { return Threw, null; }
        y := new Node(v);
        return Done(true), y;
      }
      assert Good(kinds[n], views[n]);
      ghost var vs := views;
      if kinds[n].Hashed? && n in full {
        var w := Rehash(kinds[n], views[n]);
        views := views[n := w];
      }
      r, y := InsertHere(n, v, hint, made, t, full, vs);
    }

    method InsertHere(n: int, v: int, hint: Node?, made: Node?, t: set<int>, full: set<int>, ghost vs: seq<View>)
        returns (r: Outcome, y: Node?)
      requires AllGood(kinds, vs, n) && n < |kinds| && |views| == |vs| && views == vs[n := views[n]]
        && Kept(kinds, vs, views, n, full)
      requires IsNew(views, made) && (made != null ==> made.value == v && |kinds| !in t)
      modifies this`views
      ensures r == Done(true) ==> y != null && y.value == v && (if made == null then fresh(y) else y == made)
      ensures r == Done(true) ==> AllAdded(kinds, vs, views, n, y, v, hint, full)
      ensures r != Done(true) ==> AllKept(kinds, vs, views, n, full)
      ensures r == Done(false) ==> y != null && Culprit(kinds, vs, n, v, y)
      ensures Inserts(kinds, vs, n, v, t, r)
      decreases |kinds| - n, 0
    {
      ghost var us := views;
      RestGood(kinds, vs, us, n);
      InsertsHere(kinds, vs, n, v, t);
      if n in t && AsksAnew(kinds[n], views[n]) {
        assert AllKept(kinds, us, us, n + 1, full) by { KeptAsIs(kinds, us, n + 1, full); }
        RestKept(kinds, vs, us, views, n, full);
        return Threw, null;
      }
      BlockedIsClash(kinds[n], us[n], v);
      var ok, pos := false, 0;
      if hint == null {
        ok, pos := Slot(kinds[n], Values(views[n]), v);
      } else {
        ok, pos := SlotNear(kinds[n], Values(views[n]), v, Spot(views[n].order, hint));
      }
      if ok {
        RestBlocks(kinds, vs, us, n, v);
        r, y := InsertFrom(n + 1, v, hint, made, t, full);
        InsertsByRest(kinds, vs, us, n, v, t, r);
        if r == Done(true) {
          LinkNew(n, y, v, hint, pos, vs, us, full);
        } else {
          RestKept(kinds, vs, us, views, n, full);
        }
      } else {
        r, y := Done(false), Nth(views[n].order, pos);
        assert Blocks(kinds, vs, n, v) && vs[n].linked == us[n].linked;
        KeptAsIs(kinds, us, n + 1, full);
        RestKept(kinds, vs, us, views, n, full);
      }
    }

    // The new node gets its place in index n.
    method LinkNew(n: int, y: Node, v: int, ghost hint: Node?, pos: int, ghost vs: seq<View>, ghost us: seq<View>,
        ghost full: set<int>)
      requires Matches(kinds, vs, n) && n < |kinds| && |us| == |vs| && us == vs[n := us[n]]
        && Kept(kinds, vs, us, n, full)
      requires AllAdded(kinds, us, views, n + 1, y, v, hint, full) && y !in us[n].linked
      requires FitsAt(kinds[n], Values(us[n]), pos, v)
      requires GoesTo(kinds[n], Values(us[n]), pos, v, hint != null, Spot(us[n].order, hint))
      modifies this`views
      ensures AllAdded(kinds, vs, views, n, y, v, hint, full)
    {
      ghost var us' := views;
      assert us'[n] == us[n];
      if y in us[n].order { InOrder(us[n].order, Find(us[n].order, y)); }
      WithIsGood(kinds[n], views[n], y, v, pos);
      WithIsPut(kinds[n], views[n], y, v, pos, hint);
      views := views[n := With(views[n], y, v, pos)];
      RestAdded(kinds, vs, us, us', views, n, y, v, hint, full);
    }

    // The nodes of the container and their values.
    ghost function Content(): map<Node, int>
      requires |views| > 0
      reads this
    {
      views[0].linked
    }

    // All indices have the same nodes, with the values those have, and nodeCount tells how many.
    ghost predicate Valid()
      reads this, if |views| > 0 then Content().Keys else {}
    {
      && 0 < |kinds| == |views| && AllGood(kinds, views, 0) && Alike(views)
      && nodeCount == |Content()|
      && (forall x <- Content() :: x.value == Content()[x])
    }

    lemma ValidHolds(x: Node)
      requires 0 < |kinds| == |views| && AllGood(kinds, views, 0) && Alike(views) && x in Content()
      ensures AllHold(kinds, views, 0, x) && AllAs(kinds, views, 0, x, Content()[x])
    {
      forall m | 0 <= m < |kinds| ensures Holds(kinds, views, m, x) && views[m].linked[x] == Content()[x] {
        assert Good(kinds[m], views[m]) && views[m].linked == views[0].linked;
      }
    }

    // With a hint, ordered indices put the new element as close to it as they may.
    method Insert(v: int, hint: Node?, t: set<int>, full: set<int>) returns (r: Outcome, y: Node?)
      requires Valid()
      modifies this`views, this`nodeCount
      ensures Valid()
      ensures r == Done(true) ==>
        y != null && fresh(y) && Content() == old(Content())[y := v] && nodeCount == old(nodeCount) + 1
      ensures r == Done(true) ==> AllAdded(kinds, old(views), views, 0, y, v, hint, full)
      ensures r != Done(true) ==>
        Content() == old(Content()) && nodeCount == old(nodeCount) && AllKept(kinds, old(views), views, 0, full)
      ensures r == Done(false) ==> y != null && Culprit(kinds, old(views), 0, v, y)
      ensures Inserts(kinds, old(views), 0, v, t, r)
    {
      ghost var vs := views;
      r, y := InsertFrom(0, v, hint, null, t, full);
      if r == Done(true) {
        nodeCount := nodeCount + 1;
        AddedAlike(kinds, vs, views, y, v, hint, full);
      } else {
        KeptAlike(kinds, vs, views, full);
      }
    }

    // The node is made before any index is asked, and given up again if one refuses.
    method Emplace(v: int, hint: Node?, t: set<int>, full: set<int>) returns (r: Outcome, y: Node?)
      requires Valid()
      modifies this`views, this`nodeCount
      ensures Valid()
      ensures r == Done(true) ==>
        y != null && fresh(y) && Content() == old(Content())[y := v] && nodeCount == old(nodeCount) + 1
      ensures r == Done(true) ==> AllAdded(kinds, old(views), views, 0, y, v, hint, full)
      ensures r != Done(true) ==>
        Content() == old(Content()) && nodeCount == old(nodeCount) && AllKept(kinds, old(views), views, 0, full)
      ensures r == Done(false) ==> y != null && Culprit(kinds, old(views), 0, v, y)
      ensures if |kinds| in t then r == Threw && views == old(views) else Inserts(kinds, old(views), 0, v, t, r)
    {
      ghost var vs := views;
      if |kinds| in t {
        KeptAsIs(kinds, vs, 0, full);
        return Threw, null;
      }
      var made := new Node(v);
      assert IsNew(views, made);
      r, y := InsertFrom(0, v, hint, made, t, full);
      if r == Done(true) {
        nodeCount := nodeCount + 1;
        AddedAlike(kinds, vs, views, y, v, hint, full);
      } else {
        KeptAlike(kinds, vs, views, full);
      }
    }

    method Erase(x: Node)
      requires 0 < |kinds| == |views| && AllGood(kinds, views, 0) && Alike(views) && nodeCount == |Content()|
        && x in Content()
      requires forall y <- Content() | y != x :: y.value == Content()[y]
      modifies this`views, this`nodeCount
      ensures Valid() && Content() == old(Content()) - {x} && AllDropped(kinds, old(views), views, 0, x)
    {
      ghost var vs := views;
      ValidHolds(x);
      nodeCount := nodeCount - 1;
      ExtractFrom(0, x);
      DroppedAlike(kinds, vs, views, x);
    }

    // Either x has the value v in all indices, or nothing changed; an answer of false means another element has a key
    // of v. A hashed index keeps x where it is only if the key is equivalent.
    method Replace(v: int, x: Node, f: Faults) returns (r: Outcome)
      requires Valid() && x in Content()
      modifies this`views, x`value
      ensures Valid()
      ensures r == Done(true) ==>
        Content() == old(Content())[x := v] && AllMoved(kinds, old(views), views, 0, x, v, Displacing(f, |kinds|))
      ensures r != Done(true) ==> views == old(views) && x.value == old(x.value)
      ensures Ends(kinds, old(views), 0, x, v, Displacing(f, |kinds|), f.assigning, r)
    {
      ghost var vs := views;
      ValidHolds(x);
      r := PlaceFrom(0, v, x, true, Displacing(f, |kinds|));
      if r == Done(true) { MovedAlike(kinds, vs, views, x, v, Displacing(f, |kinds|)); }
    }

    // A modifier leaves the value to behind, and may throw; x is placed by its new value or erased.
    method Modify(x: Node, to: int, throws: bool, f: Faults) returns (r: Outcome)
      requires Valid() && x in Content()
      modifies this`views, this`nodeCount, x`value
      ensures Valid()
      ensures r == Done(true) ==>
        Content() == old(Content())[x := to] && AllMoved(kinds, old(views), views, 0, x, to, f)
      ensures r != Done(true) ==> Content() == old(Content()) - {x} && AllDropped(kinds, old(views), views, 0, x)
      ensures if throws then r == Threw else Ends(kinds, old(views), 0, x, to, f, false, r)
    {
      ghost var vs := views;
      ValidHolds(x);
      x.value := to;
      if throws {
        Erase(x);
        return Threw;
      }
      r := ModifyFrom(0, x, f);
      if r == Done(true) {
        MovedAlike(kinds, vs, views, x, to, f);
      } else {
        nodeCount := nodeCount - 1;
        DroppedAlike(kinds, vs, views, x);
      }
    }

    // With a rollback, which leaves the value back; g tells of the test that follows it. An answer of true means
    // x is placed by its new value. A failed modification changes nothing just when it was refused before
    // anything threw, the rollback brought the old value back and neither it nor the test threw; otherwise x is
    // erased, or keeps its place with another value. When an index threw, x is erased whatever the rollback did,
    // and told to be erased twice if that does not fit.
    method ModifyWithRollback(x: Node, to: int, throws: bool, f: Faults, back: int, backThrows: bool, g: Faults)
        returns (r: Outcome, twice: bool)
      requires Valid() && x in Content()
      modifies this`views, this`nodeCount, x`value
      ensures 0 < |kinds| == |views| && (!twice ==> Valid())
      ensures r == Done(true) <==>
        !throws && !Refused(kinds, old(views), 0, x, to) && !Stumble(kinds, old(views), 0, x, to, f)
      ensures r == Done(true) ==>
        Content() == old(Content())[x := to] && AllMoved(kinds, old(views), views, 0, x, to, f)
      ensures r != Done(true) ==>
        (views == old(views) <==> Undoes(kinds, old(views), x, to, throws, f, old(x.value), back, backThrows, g))
      ensures r != Done(true) && views == old(views) ==> r == Done(false) && x.value == old(x.value)
      ensures r == Done(false) <==> Answers(kinds, old(views), x, to, throws, f, back, backThrows, g)
      ensures x.value == (if throws || r == Done(true) || backThrows then to else back)
      ensures r != Done(true) && x in Content() ==>
        r == Done(false) && Content() == old(Content())[x := back] && SameOrders(old(views), views)
      ensures r != Done(true) && x !in Content() ==>
        Content() == old(Content()) - {x} && AllDropped(kinds, old(views), views, 0, x)
      ensures twice <==> ErasesTwice(kinds, old(views), x, to, throws, f, back, backThrows, g)
      ensures twice ==> r == Threw && x !in Content() && nodeCount == |Content()| - 1
    {
      ghost var vs := views;
      ValidHolds(x);
      x.value := to;
      if throws {
        Erase(x);
        return Threw, false;
      }
      r := PlaceFrom(0, to, x, false, f);
      twice := false;
      if r == Done(true) {
        MovedAlike(kinds, vs, views, x, to, f);
      } else if r == Threw {
        twice := RollBackThrown(x, back, backThrows, g, vs);
      } else {
        r := RollBack(x, back, backThrows, g, vs);
      }
    }

    // An index threw: what is thrown again behind the rollback is caught with what the rollback throws, and x erased.
    method RollBackThrown(x: Node, back: int, backThrows: bool, g: Faults, ghost vs: seq<View>) returns (twice: bool)
      requires 0 < |kinds| == |views| && AllGood(kinds, views, 0) && Alike(views) && nodeCount == |Content()|
        && x in Content()
      requires forall y <- Content() | y != x :: y.value == Content()[y]
      requires vs == views
      modifies this`views, this`nodeCount, x`value
      ensures 0 < |kinds| == |views| && Content() == old(Content()) - {x} && AllDropped(kinds, vs, views, 0, x)
      ensures twice <==> !backThrows && Misfit(kinds, vs, 0, x, back, g)
      ensures if twice then nodeCount == |Content()| - 1 else Valid()
      ensures x.value == if backThrows then old(x.value) else back
    {
      ValidHolds(x);
      var fits := Done(true);
      if !backThrows {
        x.value := back;
        fits := CheckFrom(0, x, g);
      }
      Erase(x);
      twice := fits == Done(false);
      if twice {
        nodeCount := nodeCount - 1;
      }
    }

    // An index refused: x keeps its places if what the rollback left fits there.
    method RollBack(x: Node, back: int, backThrows: bool, g: Faults, ghost vs: seq<View>) returns (r: Outcome)
      requires 0 < |kinds| == |views| && AllGood(kinds, views, 0) && Alike(views) && nodeCount == |Content()|
        && x in Content()
      requires forall y <- Content() | y != x :: y.value == Content()[y]
      requires vs == views
      modifies this`views, this`nodeCount, x`value
      ensures Valid() && r != Done(true)
      ensures r == Done(false) <==> !backThrows && (Misfit(kinds, vs, 0, x, back, g) || !Trip(kinds, vs, 0, g))
      ensures x.value == if backThrows then old(x.value) else back
      ensures x in Content() ==>
        r == Done(false) && Content() == old(Content())[x := back] && SameOrders(old(views), views)
      ensures x !in Content() ==> Content() == old(Content()) - {x} && AllDropped(kinds, old(views), views, 0, x)
      ensures views == old(views) <==> !backThrows && back == old(Content())[x] && !Trip(kinds, vs, 0, g)
    {
      ValidHolds(x);
      if backThrows {
        Erase(x);
        return Threw;
      }
      x.value := back;
      if back == Content()[x] { OldValueStays(kinds, views, 0, x, back, g); }
      r := CheckFrom(0, x, g);
      if !AllStay(kinds, vs, 0, x, back, g) && !Trip(kinds, vs, 0, g) { MisfitOrTrip(kinds, vs, 0, x, back, g); }
      if r == Done(true) {
        KeepAll(x);
        r := Done(false);
      } else {
        Erase(x);
      }
    }

    // x is placed by its value from now on, where it is.
    method KeepAll(x: Node)
      requires 0 < |kinds| == |views| && AllGood(kinds, views, 0) && Alike(views) && x in Content()
        && AllFit(kinds, views, 0, x, x.value)
      modifies this`views
      ensures |views| == |old(views)| && AllGood(kinds, views, 0) && Alike(views)
        && Content() == old(Content())[x := x.value]
      ensures SameOrders(old(views), views) && (old(Content())[x] == x.value ==> views == old(views))
    {
      ghost var vs := views;
      var v := x.value;
      var before := views;
      views := seq(|before|, m requires 0 <= m < |before| => Relinked(before[m], x, v));
      forall m | 0 <= m < |kinds|
        ensures Good(kinds[m], views[m]) && views[m].linked == vs[0].linked[x := v] && views[m].order == vs[m].order
      {
        assert FitsHere(kinds, vs, m, x, v) && vs[m].linked == vs[0].linked;
      }
      if vs[0].linked[x] == v {
        forall m | 0 <= m < |kinds| ensures views[m] == vs[m] {
          assert vs[m].linked == vs[0].linked;
          assert vs[m].linked[x := v] == vs[m].linked;
        }
      }
    }
  }

  function Identity(v: int): int {
    v
  }

  // One unique index by the natural order of the values.
  const BY_VALUE := [Ordered(Identity, (a: int, b: int) => a < b, true)]

  lemma ByValueIsLawful()
    ensures Lawful(BY_VALUE[0]) && Keyed(BY_VALUE[0]) && Unique(BY_VALUE[0])
    ensures forall a, b {:trigger Same(BY_VALUE[0], a, b)} :: Same(BY_VALUE[0], a, b) <==> a == b
  {
  }

  method OneElement() returns (c: Container, x: Node)
    ensures fresh(c) && fresh(x) && c.Valid() && c.kinds == BY_VALUE && c.Content() == map[x := 1] && c.nodeCount == 1
  {
    ByValueIsLawful();
    c := new Container(BY_VALUE);
    assert !AnyBlocks(BY_VALUE, c.views, 0, 1);
    assert Inserts(BY_VALUE, c.views, 0, 1, {}, Done(true));
    var r, y := c.Insert(1, null, {}, {});
    x := y;
  }

  method TwoElements() returns (c: Container, x: Node, y: Node)
    ensures fresh(c) && fresh(x) && fresh(y) && c.Valid() && c.kinds == BY_VALUE && x != y
      && c.Content() == map[x := 1, y := 3]
  {
    c, x := OneElement();
    ByValueIsLawful();
    ghost var vs := c.views;
    assert !AnyBlocks(BY_VALUE, vs, 0, 3);
    assert Inserts(BY_VALUE, vs, 0, 3, {}, Done(true));
    var r, z := c.Insert(3, null, {}, {});
    y := z;
  }

  const FIRST_THROWS := Faults({0}, {}, {}, false)

  // With two elements there is a comparison to throw, before anything is refused; the old value is taken back, and the
  // key of the other is not.
  lemma TwoStumble(vs: seq<View>, x: Node, y: Node)
    requires |vs| == 1 && Good(BY_VALUE[0], vs[0]) && x != y && vs[0].linked == map[x := 1, y := 3]
    ensures AllHold(BY_VALUE, vs, 0, x) && Stumble(BY_VALUE, vs, 0, x, 2, FIRST_THROWS)
    ensures !RefusedFirst(BY_VALUE, vs, 0, x, 2, FIRST_THROWS)
    ensures !Misfit(BY_VALUE, vs, 0, x, 1, NO_FAULTS) && Misfit(BY_VALUE, vs, 0, x, 3, NO_FAULTS)
  {
    TwoPlaces(vs[0], x, y);
    assert Holds(BY_VALUE, vs, 0, x);
    assert Stumbles(BY_VALUE, vs, 0, x, 2, FIRST_THROWS);
    OldValueStays(BY_VALUE, vs, 0, x, 1, NO_FAULTS);
    KeyOfAnother(vs[0], x, y);
    assert !StaysAt(BY_VALUE, vs, 0, x, 3, NO_FAULTS) && Untripped(BY_VALUE, vs, 0, 0, NO_FAULTS);
  }

  lemma TwoPlaces(w: View, x: Node, y: Node)
    requires WellFormed(w) && x in w.linked && y in w.linked && x != y
    ensures |w.order| > 1
  {
    var i :| 0 <= i < |w.order| && w.order[i] == x;
    var j :| 0 <= j < |w.order| && w.order[j] == y;
  }

  lemma KeyOfAnother(w: View, x: Node, y: Node)
    requires Good(BY_VALUE[0], w) && w.linked == map[x := 1, y := 3] && x != y && x in w.order
    ensures !StaysIn(BY_VALUE[0], w, x, 3, false)
  {
    ByValueIsLawful();
    WithoutIsWellFormed(w, x);
    var u := Without(w, x);
    assert y in u.linked && u.linked[y] == 3;
    assert Blocked(BY_VALUE[0], u, 3);
    BlockedIsClash(BY_VALUE[0], u, 3);
    RelinkedIsWellFormed(w, x, 3);
    if InPlace(BY_VALUE[0], w, x, 3) { InPlaceNoClash(BY_VALUE[0], w, x, 3); }
  }

  // When an index throws before any refuses, x is erased though the rollback does not throw; what it left only tells
  // whether once or twice.
  method ModifyThrown(c: Container, x: Node, to: int, f: Faults, back: int) returns (r: Outcome, twice: bool)
    requires c.Valid() && x in c.Content()
    requires Stumble(c.kinds, c.views, 0, x, to, f) && !RefusedFirst(c.kinds, c.views, 0, x, to, f)
    modifies c`views, c`nodeCount, x`value
    ensures r == Threw && |c.views| == |old(c.views)| > 0 && c.Content() == old(c.Content()) - {x} && x.value == back
    ensures twice <==> Misfit(c.kinds, old(c.views), 0, x, back, NO_FAULTS)
    ensures if twice then c.nodeCount == |c.Content()| - 1 else c.Valid()
  {
    r, twice := c.ModifyWithRollback(x, to, false, f, back, false, NO_FAULTS);
  }

  lemma OneLeft(x: Node, y: Node)
    requires x != y
    ensures map[x := 1, y := 3] - {x} == map[y := 3]
  {
  }

  // The first of two elements is modified to a value that fits beside the other; the comparison throws, the rollback
  // brings the old value back, and the element is erased all the same.
  method RolledBackAndErased() returns (c: Container, x: Node, y: Node, r: Outcome, twice: bool)
    ensures fresh(c) && c.Valid() && c.kinds == BY_VALUE && x.value == 1 && r == Threw && !twice
    ensures c.Content() == map[y := 3] && c.nodeCount == 1
  {
    c, x, y := TwoElements();
    assert Good(BY_VALUE[0], c.views[0]);
    TwoStumble(c.views, x, y);
    OneLeft(x, y);
    r, twice := ModifyThrown(c, x, 2, FIRST_THROWS, 1);
  }

  // The same, but the rollback leaves the key of the second.
  method ErasedTwice() returns (c: Container, x: Node, y: Node, r: Outcome, twice: bool)
    ensures c.kinds == BY_VALUE && |c.views| == 1 && r == Threw && twice
    ensures c.Content() == map[y := 3] && c.nodeCount == 0
  {
    c, x, y := TwoElements();
    assert Good(BY_VALUE[0], c.views[0]);
    TwoStumble(c.views, x, y);
    OneLeft(x, y);
    r, twice := ModifyThrown(c, x, 2, FIRST_THROWS, 3);
  }

  // A failed modification of x to the value to is undone; was is the value before it, and back what the rollback left.
  ghost predicate Undoes(ks: seq<Kind>, vs: seq<View>, x: Node, to: int, throws: bool, f: Faults, was: int, back: int,
      backThrows: bool, g: Faults)
  {
    !throws && RefusedFirst(ks, vs, 0, x, to, f) && !backThrows && back == was && !Trip(ks, vs, 0, g)
  }

  // The call answers false instead of throwing.
  ghost predicate Answers(ks: seq<Kind>, vs: seq<View>, x: Node, to: int, throws: bool, f: Faults, back: int,
      backThrows: bool, g: Faults)
  {
    && !throws && RefusedFirst(ks, vs, 0, x, to, f)
    && !backThrows && (Misfit(ks, vs, 0, x, back, g) || !Trip(ks, vs, 0, g))
  }

  // x is told to be erased twice.
  ghost predicate ErasesTwice(ks: seq<Kind>, vs: seq<View>, x: Node, to: int, throws: bool, f: Faults, back: int,
      backThrows: bool, g: Faults)
  {
    && !throws && Stumble(ks, vs, 0, x, to, f) && !RefusedFirst(ks, vs, 0, x, to, f)
    && !backThrows && Misfit(ks, vs, 0, x, back, g)
  }

  ghost predicate SameOrders(vs: seq<View>, ws: seq<View>) {
    |vs| == |ws| && forall m {:trigger ws[m]} | 0 <= m < |ws| :: ws[m].order == vs[m].order
  }

  ghost predicate Alike(vs: seq<View>)
    requires |vs| > 0
  {
    forall m {:trigger vs[m]} | 0 <= m < |vs| :: vs[m].linked == vs[0].linked
  }

  lemma AddedAlike(ks: seq<Kind>, vs: seq<View>, ws: seq<View>, x: Node, v: int, hint: Node?, full: set<int>)
    requires |vs| > 0 && Alike(vs) && AllAdded(ks, vs, ws, 0, x, v, hint, full)
    ensures AllGood(ks, ws, 0) && Alike(ws) && ws[0].linked == vs[0].linked[x := v] && x !in vs[0].linked
    ensures |ws[0].linked| == |vs[0].linked| + 1
  {
    forall m | 0 <= m < |ws| ensures Good(ks[m], ws[m]) && ws[m].linked == vs[0].linked[x := v] && x !in vs[m].linked {
      assert Added(ks, vs, ws, m, x, v, hint, full) && vs[m].linked == vs[0].linked;
    }
    assert ws[0].linked.Keys == vs[0].linked.Keys + {x};
  }

  lemma KeptAlike(ks: seq<Kind>, vs: seq<View>, ws: seq<View>, full: set<int>)
    requires |vs| > 0 && Alike(vs) && AllKept(ks, vs, ws, 0, full)
    ensures AllGood(ks, ws, 0) && Alike(ws) && ws[0].linked == vs[0].linked
  {
    forall m | 0 <= m < |ws| ensures Good(ks[m], ws[m]) && ws[m].linked == vs[0].linked {
      assert Kept(ks, vs, ws, m, full) && vs[m].linked == vs[0].linked;
    }
  }

  lemma DroppedAlike(ks: seq<Kind>, vs: seq<View>, ws: seq<View>, x: Node)
    requires |vs| > 0 && Alike(vs) && AllGood(ks, vs, 0) && AllDropped(ks, vs, ws, 0, x) && x in vs[0].linked
    ensures AllGood(ks, ws, 0) && Alike(ws) && ws[0].linked == vs[0].linked - {x}
      && |ws[0].linked| == |vs[0].linked| - 1
  {
    forall m | 0 <= m < |ws| ensures Good(ks[m], ws[m]) && ws[m].linked == vs[0].linked - {x} {
      assert Dropped(vs, ws, m, x) && vs[m].linked == vs[0].linked && Good(ks[m], vs[m]);
      WithoutIsGood(ks[m], vs[m], x);
    }
    assert ws[0].linked.Keys == vs[0].linked.Keys - {x};
  }

  lemma MovedAlike(ks: seq<Kind>, vs: seq<View>, ws: seq<View>, x: Node, v: int, f: Faults)
    requires |vs| > 0 && Alike(vs) && AllMoved(ks, vs, ws, 0, x, v, f) && x in vs[0].linked
    ensures AllGood(ks, ws, 0) && Alike(ws) && ws[0].linked == vs[0].linked[x := v] && |ws[0].linked| == |vs[0].linked|
  {
    forall m | 0 <= m < |ws| ensures Good(ks[m], ws[m]) && ws[m].linked == vs[0].linked[x := v] {
      assert Moved(ks, vs, ws, m, x, v, f) && vs[m].linked == vs[0].linked;
      MovedLinks(vs[m], ws[m], x, v);
    }
    assert ws[0].linked.Keys == vs[0].linked.Keys;
  }

  lemma MovedLinks(w: View, w': View, x: Node, v: int)
    requires x in w.order && x in w'.order && x in w'.linked && w'.linked[x] == v && Without(w', x) == Without(w, x)
    requires w'.linked.Keys == w.linked.Keys
    ensures w'.linked == w.linked[x := v]
  {
    forall y | y in w'.linked && y != x ensures y in w.linked && w'.linked[y] == w.linked[y] {
      assert y in Without(w', x).linked && Without(w', x).linked[y] == w'.linked[y]
        && Without(w, x).linked[y] == w.linked[y];
    }
  }

  lemma RestGood(ks: seq<Kind>, vs: seq<View>, us: seq<View>, n: int)
    requires AllGood(ks, vs, n) && n < |ks| && |us| == |vs| && us == vs[n := us[n]]
    ensures Good(ks[n], vs[n]) && AllGood(ks, us, n + 1)
  {
    assert Good(ks[n], vs[n]);
    forall m {:trigger Good(ks[m], us[m])} | n + 1 <= m < |ks| ensures Good(ks[m], us[m]) {
      assert Good(ks[m], vs[m]);
    }
  }

  lemma PlainStays(k: Kind, w: View, x: Node, v: int)
    requires Good(k, w) && x in w.order && (k.Sequenced? || k.RandomAccess?)
    ensures Good(k, Relinked(w, x, v)) && !Clashes(k, w, x, v)
  {
    RelinkedIsWellFormed(w, x, v);
  }

  lemma SameAsItself(k: Kind, v: int)
    requires Lawful(k)
    ensures Same(k, v, v)
  {
    if k.Ordered? { assert !k.lt(KeyOf(k, v), KeyOf(k, v)); }
    if k.Hashed? { assert k.eq(KeyOf(k, v), KeyOf(k, v)); }
  }
}
