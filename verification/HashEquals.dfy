/** Comparing hashed non-unique indices: two are equal when they hold the same elements equally often. */
module HashEquals {

  import opened Ordering
  import opened HashLayout
  import opened HashIndexNode
  import opened HashedIndex
  import S = Spans

  type Same = (int, int) -> bool

  /* How often an element occurs */

  function Count(s: seq<int>, v: int, same: Same): (n: nat)
    ensures n <= |s|
  {
    if s == [] then 0 else (if same(s[0], v) then 1 else 0) + Count(s[1..], v, same)
  }

  // Every element occurs equally often in s and t.
  ghost predicate SameCounts(s: seq<int>, t: seq<int>, same: Same) {
    forall v {:trigger Count(s, v, same)} {:trigger Count(t, v, same)} :: Count(s, v, same) == Count(t, v, same)
  }

  lemma Alike(same: Same, x: int, v: int, w: int)
    requires Equivalence(same) && same(v, w)
    ensures same(x, v) <==> same(x, w)
    ensures same(v, x) <==> same(w, x)
  {
    assert same(w, v);
  }

  lemma Reflexive(same: Same, v: int)
    requires Equivalence(same)
    ensures same(v, v)
  {
  }

  lemma {:induction false} CountAlike(s: seq<int>, v: int, w: int, same: Same)
    requires Equivalence(same) && same(v, w)
    ensures Count(s, v, same) == Count(s, w, same)
  {
    if s != [] {
      Alike(same, s[0], v, w);
      CountAlike(s[1..], v, w, same);
    }
  }

  lemma {:induction false} CountSum(s: seq<int>, t: seq<int>, v: int, same: Same)
    ensures Count(s + t, v, same) == Count(s, v, same) + Count(t, v, same)
  {
    if s == [] {
      assert s + t == t;
    } else {
      assert (s + t)[1..] == s[1..] + t;
      CountSum(s[1..], t, v, same);
    }
  }

  lemma {:induction false} CountNone(s: seq<int>, v: int, same: Same)
    requires forall i {:trigger s[i]} | 0 <= i < |s| :: !same(s[i], v)
    ensures Count(s, v, same) == 0
  {
    if s != [] {
      CountNone(s[1..], v, same);
    }
  }

  lemma {:induction false} CountSome(s: seq<int>, i: int, same: Same)
    requires Equivalence(same) && 0 <= i < |s|
    ensures Count(s, s[i], same) > 0
  {
    Reflexive(same, s[i]);
    if i > 0 {
      CountSome(s[1..], i - 1, same);
    }
  }

  // Elements that are the same one by one occur equally often.
  lemma {:induction false} CountPairs(s: seq<int>, t: seq<int>, v: int, same: Same)
    requires Equivalence(same) && |s| == |t| && forall i {:trigger s[i]} {:trigger t[i]} | 0 <= i < |s| ::
      same(s[i], t[i])
    ensures Count(s, v, same) == Count(t, v, same)
  {
    if s != [] {
      Alike(same, v, s[0], t[0]);
      CountPairs(s[1..], t[1..], v, same);
    }
  }

  // Without the elements that are the same as v.
  function Drop(s: seq<int>, v: int, same: Same): (t: seq<int>)
    ensures |t| + Count(s, v, same) == |s|
  {
    if s == [] then [] else (if same(s[0], v) then [] else [s[0]]) + Drop(s[1..], v, same)
  }

  lemma {:induction false} CountDropped(s: seq<int>, v: int, w: int, same: Same)
    requires Equivalence(same)
    ensures Count(Drop(s, v, same), w, same) == if same(v, w) then 0 else Count(s, w, same)
  {
    if s != [] {
      CountDropped(s[1..], v, w, same);
      var d := Drop(s[1..], v, same);
      if same(s[0], v) {
        Alike(same, w, s[0], v);
        assert Drop(s, v, same) == d;
      } else {
        assert ([s[0]] + d)[1..] == d;
        if same(v, w) { Alike(same, s[0], v, w); }
      }
    }
  }

  lemma {:induction false} DropFrom(s: seq<int>, v: int, x: int, same: Same)
    requires x in Drop(s, v, same)
    ensures x in s && !same(x, v)
  {
    if s != [] && x in Drop(s[1..], v, same) {
      DropFrom(s[1..], v, x, same);
    }
  }

  // It is enough to look at the elements of one of two sequences of the same length.
  lemma {:induction false} CountsDecide(s: seq<int>, t: seq<int>, same: Same)
    requires Equivalence(same) && |s| == |t|
    requires forall x {:trigger x in s} | x in s :: Count(s, x, same) == Count(t, x, same)
    ensures SameCounts(s, t, same)
    decreases |s|
  {
    if s != [] {
      var v := s[0];
      var d, e := Drop(s, v, same), Drop(t, v, same);
      CountSome(s, 0, same);
      assert v in s;
      forall x | x in d ensures Count(d, x, same) == Count(e, x, same) {
        DropFrom(s, v, x, same);
        CountDropped(s, v, x, same);
        CountDropped(t, v, x, same);
      }
      CountsDecide(d, e, same);
      forall w ensures Count(s, w, same) == Count(t, w, same) {
        CountDropped(s, v, w, same);
        CountDropped(t, v, w, same);
        assert Count(d, w, same) == Count(e, w, same);
        if same(v, w) {
          CountAlike(s, v, w, same);
          CountAlike(t, v, w, same);
        }
      }
    }
  }

  lemma {:induction false} CountsGiveLength(s: seq<int>, t: seq<int>, same: Same)
    requires Equivalence(same) && SameCounts(s, t, same)
    ensures |s| == |t|
    decreases |s|
  {
    if s == [] {
      if t != [] {
        CountSome(t, 0, same);
      }
    } else {
      var v := s[0];
      CountSome(s, 0, same);
      forall w ensures Count(Drop(s, v, same), w, same) == Count(Drop(t, v, same), w, same) {
        CountDropped(s, v, w, same);
        CountDropped(t, v, w, same);
        assert Count(s, w, same) == Count(t, w, same);
      }
      CountsGiveLength(Drop(s, v, same), Drop(t, v, same), same);
      assert Count(s, v, same) == Count(t, v, same);
    }
  }

  // What comes before the first place where s and t differ does not count.
  lemma CountsOfRest(s: seq<int>, t: seq<int>, i: int, same: Same)
    requires Equivalence(same) && |s| == |t| && 0 <= i <= |s|
    requires forall j {:trigger s[j]} {:trigger t[j]} | 0 <= j < i :: same(s[j], t[j])
    ensures SameCounts(s, t, same) <==> SameCounts(s[i..], t[i..], same)
  {
    forall v ensures Count(s, v, same) - Count(s[i..], v, same) == Count(t, v, same) - Count(t[i..], v, same) {
      assert s == s[..i] + s[i..] && t == t[..i] + t[i..];
      CountSum(s[..i], s[i..], v, same);
      CountSum(t[..i], t[i..], v, same);
      CountPairs(s[..i], t[..i], v, same);
    }
    if SameCounts(s, t, same) {
      forall v ensures Count(s[i..], v, same) == Count(t[i..], v, same) {
        assert Count(s, v, same) == Count(t, v, same);
      }
    }
    if SameCounts(s[i..], t[i..], same) {
      forall v ensures Count(s, v, same) == Count(t, v, same) {
        assert Count(s[i..], v, same) == Count(t[i..], v, same);
      }
    }
  }

  // Whether v occurs in s: what a linear search tells.
  predicate Occurs(s: seq<int>, v: int, same: Same)
    ensures Occurs(s, v, same) <==> Count(s, v, same) > 0
  {
    s != [] && (same(s[0], v) || Occurs(s[1..], v, same))
  }

  lemma {:induction false} Occurrence(s: seq<int>, v: int, same: Same) returns (i: int)
    requires Count(s, v, same) > 0
    ensures 0 <= i < |s| && same(s[i], v)
  {
    if same(s[0], v) {
      i := 0;
    } else {
      i := Occurrence(s[1..], v, same);
      i := i + 1;
    }
  }

  // Whether t is a permutation of s, element by element.
  method IsPermutation(s: seq<int>, t: seq<int>, same: Same) returns (r: bool)
    requires Equivalence(same) && |s| == |t|
    ensures r <==> SameCounts(s, t, same)
  {
    var i := 0;
    while i < |s|
      invariant 0 <= i <= |s| && forall j {:trigger s[j]} {:trigger t[j]} | 0 <= j < i :: same(s[j], t[j])
    {
      if !same(s[i], t[i]) {
        break;
      }
      i := i + 1;
    }
    CountsOfRest(s, t, i, same);
    if i < |s| {
      r := CountEach(s[i..], t[i..], same);
    } else {
      r := true;
      assert s[i..] == [] && t[i..] == [];
    }
  }

  // The loop over the elements of s that have not come before.
  method CountEach(s: seq<int>, t: seq<int>, same: Same) returns (r: bool)
    requires Equivalence(same) && |s| == |t|
    ensures r <==> SameCounts(s, t, same)
  {
    var scan := 0;
    while scan < |s|
      invariant 0 <= scan <= |s|
      invariant forall x {:trigger x in s[..scan]} | x in s[..scan] :: Count(s, x, same) == Count(t, x, same)
    {
      var v := s[scan];
      CountSome(s, scan, same);
      assert s == s[..scan] + s[scan..];
      CountSum(s[..scan], s[scan..], v, same);
      if Occurs(s[..scan], v, same) {
        var j := Occurrence(s[..scan], v, same);
        CountAlike(s, s[..scan][j], v, same);
        CountAlike(t, s[..scan][j], v, same);
        assert s[..scan][j] in s[..scan];
      } else {
        var matches := Count(t, v, same);
        if matches == 0 || matches != Count(s[scan..], v, same) {
          return false;
        }
      }
      assert s[..scan + 1] == s[..scan] + [v];
      scan := scan + 1;
    }
    assert s[..scan] == s;
    CountsDecide(s, t, same);
    return true;
  }

  /* Two indices */

  // The elements at the places from lo up to hi.
  ghost function Values(s: Layout, lo: int, hi: int): (r: seq<int>)
    requires 0 <= lo <= hi <= |s.nodes|
    reads s.nodes`value
    ensures |r| == hi - lo && forall j {:trigger r[j]} | 0 <= j < hi - lo :: r[j] == N(s, lo + j).value
    decreases hi
  {
    if lo == hi then [] else Values(s, lo, hi - 1) + [N(s, hi - 1).value]
  }

  ghost function Elements(ix: Index): seq<int>
    requires Sized(ix.chain.s)
    reads ix.chain, ix.chain.s.nodes`value
  {
    Values(ix.chain.s, 0, Last(ix.chain.s))
  }

  // Elements that are the same have equivalent keys.
  ghost predicate Refines(same: Same, ix: Index) {
    Equivalence(same) && forall v, w {:trigger same(v, w)} :: same(v, w) ==> ix.eq(ix.key(v), ix.key(w))
  }

  lemma Chained(eq: Eq, a: int, b: int, c: int)
    requires Equivalence(eq)
    ensures eq(a, b) && eq(b, c) ==> eq(a, c)
  {
  }

  lemma Turned(eq: Eq, a: int, b: int)
    requires Equivalence(eq)
    ensures eq(a, b) ==> eq(b, a)
  {
  }

  lemma ChainedBack(eq: Eq, a: int, b: int, c: int)
    requires Equivalence(eq)
    ensures eq(a, b) && eq(b, c) ==> eq(c, a)
  {
    Chained(eq, a, b, c);
    Turned(eq, a, c);
  }

  // An element occurs in the group of its key only.
  lemma CountInGroup(ix: Index, i: int, w: int, same: Same)
    requires ix.Valid() && Refines(same, ix) && 0 <= i < Last(ix.chain.s) && i == G(ix.chain.s, i).lo
    ensures 0 <= i <= G(ix.chain.s, i).hi < Last(ix.chain.s)
    ensures Count(Values(ix.chain.s, i, G(ix.chain.s, i).hi + 1), w, same) ==
      if ix.eq(ix.key(w), ix.Q(i)) then Count(Elements(ix), w, same) else 0
  {
    var s := ix.chain.s;
    Unfold(s, i);
    HeaderApart(s, i);
    var e := G(s, i).hi + 1;
    var a, b, c := Values(s, 0, i), Values(s, i, e), Values(s, e, Last(s));
    assert Elements(ix) == a + b + c;
    CountSum(a + b, c, w, same);
    CountSum(a, b, w, same);
    if ix.eq(ix.key(w), ix.Q(i)) {
      forall j | 0 <= j < |a| ensures !same(a[j], w) { OtherGroup(ix, i, j, w, same); }
      forall j | 0 <= j < |c| ensures !same(c[j], w) { OtherGroup(ix, i, e + j, w, same); }
      CountNone(a, w, same);
      CountNone(c, w, same);
    } else {
      forall j | 0 <= j < |b| ensures !same(b[j], w) { SameGroupOther(ix, i, i + j, w, same); }
      CountNone(b, w, same);
    }
  }

  lemma OtherGroup(ix: Index, i: int, j: int, w: int, same: Same)
    requires ix.Valid() && Refines(same, ix) && 0 <= i < Last(ix.chain.s) && 0 <= j < Last(ix.chain.s)
    requires !(G(ix.chain.s, i).lo <= j <= G(ix.chain.s, i).hi) && ix.eq(ix.key(w), ix.Q(i))
    ensures !same(N(ix.chain.s, j).value, w)
  {
    Unfold(ix.chain.s, j);
    var v := N(ix.chain.s, j).value;
    assert ix.Q(j) == ix.key(v);
    if same(v, w) {
      Chained(ix.eq, ix.key(v), ix.key(w), ix.Q(i));
    }
  }

  lemma SameGroupOther(ix: Index, i: int, j: int, w: int, same: Same)
    requires ix.Valid() && Refines(same, ix) && 0 <= i < Last(ix.chain.s)
      && G(ix.chain.s, i).lo <= j <= G(ix.chain.s, i).hi < Last(ix.chain.s)
    requires !ix.eq(ix.key(w), ix.Q(i)) && 0 <= j
    ensures !same(N(ix.chain.s, j).value, w)
  {
    SameGroup(ix.chain.s, i, j);
    var v := N(ix.chain.s, j).value;
    assert ix.Q(j) == ix.key(v) && ix.eq(ix.Q(i), ix.Q(j));
    if same(v, w) {
      ChainedBack(ix.eq, ix.Q(i), ix.key(v), ix.key(w));
    }
  }

  // The elements of the group of x, its first, up to last, the node after it.
  method GroupElements(ix: Index, x: Cell, last: Cell, ghost i: int) returns (vs: seq<int>)
    requires ix.Valid() && ix.chain.Inner(x, i) && i == G(ix.chain.s, i).lo
    requires 0 <= G(ix.chain.s, i).hi < Last(ix.chain.s) && last == N(ix.chain.s, G(ix.chain.s, i).hi + 1)
    ensures i <= G(ix.chain.s, i).hi && vs == Values(ix.chain.s, i, G(ix.chain.s, i).hi + 1)
  {
    ghost var s, j := ix.chain.s, i;
    Unfold(s, i);
    ghost var e := G(s, i).hi + 1;
    var it := x;
    vs := [];
    while it != last
      invariant i <= j <= e && it == N(s, j) && vs == Values(s, i, j)
      decreases e - j
    {
      vs := vs + [it.value];
      it := ix.chain.After(it, j);
      j := j + 1;
    }
    assert HashLayout.Same(s, j, e);
  }

  // vs holds the elements of all whose keys are equivalent to k.
  ghost predicate RangeOf(eq: Eq, key: int -> int, k: int, all: seq<int>, vs: seq<int>, same: Same) {
    forall w {:trigger Count(vs, w, same)} :: Count(vs, w, same) == if eq(key(w), k) then Count(all, w, same) else 0
  }

  // What the ranges of a key in two sequences say about the sequences.
  lemma RangesTell(eq: Eq, key: int -> int, k: int, va: seq<int>, vb: seq<int>, ga: seq<int>, gb: seq<int>, same: Same)
    requires Equivalence(same) && RangeOf(eq, key, k, va, ga, same) && RangeOf(eq, key, k, vb, gb, same)
    ensures SameCounts(va, vb, same) ==> SameCounts(ga, gb, same) && |ga| == |gb|
    ensures SameCounts(ga, gb, same) ==> forall x {:trigger x in ga} | x in ga ::
      Count(va, x, same) == Count(vb, x, same)
  {
    if SameCounts(va, vb, same) {
      forall w ensures Count(ga, w, same) == Count(gb, w, same) {
        assert Count(va, w, same) == Count(vb, w, same);
      }
      CountsGiveLength(ga, gb, same);
    }
    if SameCounts(ga, gb, same) {
      forall x | x in ga ensures Count(va, x, same) == Count(vb, x, same) {
        var j :| 0 <= j < |ga| && ga[j] == x;
        CountSome(ga, j, same);
        assert Count(ga, x, same) == Count(gb, x, same);
      }
    }
  }

  lemma GroupIsRange(ix: Index, i: int, k: int, same: Same)
    requires ix.Valid() && Refines(same, ix) && 0 <= i < Last(ix.chain.s) && i == G(ix.chain.s, i).lo
      && ix.eq(k, ix.Q(i))
    ensures 0 <= i <= G(ix.chain.s, i).hi < Last(ix.chain.s)
    ensures RangeOf(ix.eq, ix.key, k, Elements(ix), Values(ix.chain.s, i, G(ix.chain.s, i).hi + 1), same)
  {
    Unfold(ix.chain.s, i);
    HeaderApart(ix.chain.s, i);
    var vs := Values(ix.chain.s, i, G(ix.chain.s, i).hi + 1);
    forall w ensures Count(vs, w, same) == if ix.eq(ix.key(w), k) then Count(Elements(ix), w, same) else 0 {
      CountInGroup(ix, i, w, same);
      Turned(ix.eq, k, ix.Q(i));
      Chained(ix.eq, ix.key(w), k, ix.Q(i));
      Chained(ix.eq, ix.key(w), ix.Q(i), k);
    }
  }

  lemma NoGroupIsRange(ix: Index, k: int, same: Same)
    requires ix.Valid() && Refines(same, ix) && ix.NoneEqual(k, 0, Last(ix.chain.s))
    ensures RangeOf(ix.eq, ix.key, k, Elements(ix), [], same)
  {
    var e := Elements(ix);
    forall w ensures Count([], w, same) == if ix.eq(ix.key(w), k) then Count(e, w, same) else 0 {
      if ix.eq(ix.key(w), k) {
        forall j | 0 <= j < |e| ensures !same(e[j], w) {
          var u := e[j];
          assert ix.Q(j) == ix.key(u);
          if same(u, w) { ChainedBack(ix.eq, ix.key(u), ix.key(w), k); }
        }
        CountNone(e, w, same);
      }
    }
  }

  lemma SameRange(eq: Eq, key: int -> int, h: int, k: int, all: seq<int>, vs: seq<int>, same: Same)
    requires Equivalence(eq) && RangeOf(eq, key, h, all, vs, same) && eq(k, h)
    ensures RangeOf(eq, key, k, all, vs, same)
  {
    Turned(eq, k, h);
    forall w ensures eq(key(w), h) <==> eq(key(w), k) {
      Chained(eq, key(w), k, h);
      Chained(eq, key(w), h, k);
    }
  }

  // The elements with a key, none if there is no group of it.
  method EqualRange(ix: Index, k: int, ghost same: Same) returns (vs: seq<int>)
    requires ix.Valid() && Refines(same, ix)
    ensures ix.Valid() && RangeOf(ix.eq, ix.key, k, Elements(ix), vs, same)
  {
    ghost var m;
    var y;
    y, m := ix.FindGroup(k);
    if y == null {
      NoGroupIsRange(ix, k, same);
      vs := [];
    } else {
      var last;
      vs, last := Group(ix, y, m, Elements(ix), same);
      assert ix.Q(m) == ix.key(y.value);
      SameRange(ix.eq, ix.key, ix.key(y.value), k, Elements(ix), vs, same);
    }
  }

  // The elements of the group of x, its first, and the node after it.
  method Group(ix: Index, x: Cell, ghost i: int, ghost all: seq<int>, ghost same: Same)
      returns (vs: seq<int>, last: Cell)
    requires ix.Valid() && Refines(same, ix) && ix.chain.Inner(x, i) && i == G(ix.chain.s, i).lo && all == Elements(ix)
    ensures ix.Valid() && all == Elements(ix)
    ensures i <= G(ix.chain.s, i).hi < Last(ix.chain.s) && last == N(ix.chain.s, G(ix.chain.s, i).hi + 1)
    ensures |vs| == G(ix.chain.s, i).hi + 1 - i && forall j {:trigger vs[j]} | 0 <= j < |vs| ::
      i + j < |all| && vs[j] == all[i + j]
    ensures RangeOf(ix.eq, ix.key, ix.key(x.value), all, vs, same)
  {
    last := ix.EndOfRange(x, i);
    vs := GroupElements(ix, x, last, i);
    Reflexive(ix.eq, ix.key(x.value));
    assert ix.Q(i) == ix.key(x.value);
    GroupIsRange(ix, i, ix.key(x.value), same);
  }

  // Whether the elements of ga, all those of va with key k, occur in the index b as often as in va.
  method RangeEqual(b: Index, same: Same, k: int, ga: seq<int>, ghost va: seq<int>) returns (r: bool)
    requires b.Valid() && Refines(same, b) && RangeOf(b.eq, b.key, k, va, ga, same)
    ensures b.Valid()
    ensures !r ==> |ga| == 0 || !SameCounts(va, Elements(b), same)
    ensures r ==> forall x {:trigger x in ga} | x in ga :: Count(va, x, same) == Count(Elements(b), x, same)
  {
    var gb := EqualRange(b, k, same);
    RangesTell(b.eq, b.key, k, va, Elements(b), ga, gb, same);
    if gb == [] {
      return false;
    }
    if |ga| != |gb| {
      return false;
    }
    r := IsPermutation(ga, gb, same);
  }

  // The elements before place i of va occur equally often in vb.
  ghost predicate Checked(va: seq<int>, vb: seq<int>, i: int, same: Same) {
    forall j {:trigger va[j]} | 0 <= j < i && j < |va| :: Count(va, va[j], same) == Count(vb, va[j], same)
  }

  // Checks the group of it, at i; last is the node after it.
  method CheckGroup(a: Index, b: Index, same: Same, it: Cell, ghost i: int, ghost va: seq<int>, ghost vb: seq<int>)
      returns (r: bool, last: Cell)
    requires a.Valid() && b.Valid() && Refines(same, a) && Refines(same, b) && a.key == b.key && a.eq == b.eq
    requires a.chain.Inner(it, i) && i == G(a.chain.s, i).lo && va == Elements(a) && vb == Elements(b)
      && Checked(va, vb, i, same)
    ensures a.Valid() && b.Valid() && va == Elements(a) && vb == Elements(b)
    ensures i <= G(a.chain.s, i).hi < Last(a.chain.s) && last == N(a.chain.s, G(a.chain.s, i).hi + 1)
    ensures !r ==> !SameCounts(va, vb, same)
    ensures r ==> Checked(va, vb, G(a.chain.s, i).hi + 1, same)
  {
    var ga;
    ga, last := GroupBeside(a, b, it, i, va, vb, same);
    r := RangeEqualBeside(a, b, same, a.key(it.value), ga, va, vb);
    if r { CheckedFurther(va, vb, i, ga, same); }
  }

  // Neither step touches the index it does not read.
  method GroupBeside(a: Index, ghost b: Index, x: Cell, ghost i: int, ghost va: seq<int>, ghost vb: seq<int>,
      ghost same: Same)
      returns (vs: seq<int>, last: Cell)
    requires a.Valid() && b.Valid() && Refines(same, a) && a.chain.Inner(x, i) && i == G(a.chain.s, i).lo
    requires va == Elements(a) && vb == Elements(b)
    ensures a.Valid() && b.Valid() && va == Elements(a) && vb == Elements(b)
    ensures i <= G(a.chain.s, i).hi < Last(a.chain.s) && last == N(a.chain.s, G(a.chain.s, i).hi + 1)
    ensures |vs| == G(a.chain.s, i).hi + 1 - i && forall j {:trigger vs[j]} | 0 <= j < |vs| ::
      i + j < |va| && vs[j] == va[i + j]
    ensures RangeOf(a.eq, a.key, a.key(x.value), va, vs, same)
  {
    vs, last := Group(a, x, i, va, same);
  }

  method RangeEqualBeside(ghost a: Index, b: Index, same: Same, k: int, ga: seq<int>, ghost va: seq<int>,
      ghost vb: seq<int>)
      returns (r: bool)
    requires a.Valid() && b.Valid() && va == Elements(a) && vb == Elements(b)
    requires Refines(same, b) && RangeOf(b.eq, b.key, k, va, ga, same)
    ensures a.Valid() && b.Valid() && va == Elements(a) && vb == Elements(b)
    ensures !r ==> |ga| == 0 || !SameCounts(va, vb, same)
    ensures r ==> forall x {:trigger x in ga} | x in ga :: Count(va, x, same) == Count(vb, x, same)
  {
    r := RangeEqual(b, same, k, ga, va);
  }

  lemma CheckedFurther(va: seq<int>, vb: seq<int>, i: int, ga: seq<int>, same: Same)
    requires Checked(va, vb, i, same) && 0 <= i && i + |ga| <= |va| && forall j {:trigger ga[j]} | 0 <= j < |ga| ::
      ga[j] == va[i + j]
    requires forall x {:trigger x in ga} | x in ga :: Count(va, x, same) == Count(vb, x, same)
    ensures Checked(va, vb, i + |ga|, same)
  {
    forall j | 0 <= j < i + |ga| && j < |va| ensures Count(va, va[j], same) == Count(vb, va[j], same) {
      if j >= i { assert ga[j - i] == va[j] && ga[j - i] in ga; }
    }
  }

  // Two indices are equal when every element occurs equally often in them, whatever their buckets and their order.
  method Equals(a: Index, b: Index, same: Same, size: nat, size2: nat) returns (r: bool)
    requires a.Valid() && b.Valid() && Refines(same, a) && Refines(same, b) && a.key == b.key && a.eq == b.eq
    requires size == Last(a.chain.s) && size2 == Last(b.chain.s)
    ensures r <==> SameCounts(Elements(a), Elements(b), same)
  {
    ghost var va, vb := Elements(a), Elements(b);
    if size != size2 {
      if SameCounts(va, vb, same) { CountsGiveLength(va, vb, same); }
      return false;
    }
    r := CheckAll(a, b, same, va, vb);
    if r {
      AllChecked(va, vb, same);
    }
  }

  // Whether the elements of all groups of a occur equally often in b.
  method CheckAll(a: Index, b: Index, same: Same, ghost va: seq<int>, ghost vb: seq<int>) returns (r: bool)
    requires a.Valid() && b.Valid() && Refines(same, a) && Refines(same, b) && a.key == b.key && a.eq == b.eq
    requires va == Elements(a) && vb == Elements(b)
    ensures if r then Checked(va, vb, |va|, same) else !SameCounts(va, vb, same)
  {
    ghost var i := 0;
    FirstNode(a);
    var it := a.chain.end.next.prior;
    while it != a.chain.end
      invariant a.Valid() && b.Valid() && va == Elements(a) && vb == Elements(b)
      invariant 0 <= i <= Last(a.chain.s) && it == N(a.chain.s, i) && i == G(a.chain.s, i).lo
        && Checked(va, vb, i, same)
      decreases Last(a.chain.s) - i
    {
      var ok, last := CheckGroup(a, b, same, it, i, va, vb);
      if !ok {
        return false;
      }
      NextGroup(a.chain.s, i);
      i := G(a.chain.s, i).hi + 1;
      it := last;
    }
    assert HashLayout.Same(a.chain.s, i, Last(a.chain.s));
    return true;
  }

  lemma AllChecked(va: seq<int>, vb: seq<int>, same: Same)
    requires Equivalence(same) && |va| == |vb| && Checked(va, vb, |va|, same)
    ensures SameCounts(va, vb, same)
  {
    forall x | x in va ensures Count(va, x, same) == Count(vb, x, same) {
      var j :| 0 <= j < |va| && va[j] == x;
    }
    CountsDecide(va, vb, same);
  }

  lemma FirstNode(a: Index)
    requires a.Valid()
    ensures var s := a.chain.s; a.chain.end.next != null && a.chain.end.next.prior == N(s, 0) && G(s, 0).lo == 0
  {
    var s := a.chain.s;
    HeaderPlace(s);
    Pointers(s, a.chain.buckets, Last(s));
    Pointers(s, a.chain.buckets, 0);
    Unfold(s, Last(s));
    Unfold(s, 0);
  }

  lemma NextGroup(s: Layout, i: int)
    requires Shaped(s) && 0 <= i < Last(s) && 0 <= G(s, i).hi < Last(s)
    ensures G(s, G(s, i).hi + 1).lo == G(s, i).hi + 1
  {
    Unfold(s, i);
    Unfold(s, G(s, i).hi + 1);
    Apart(s, i, G(s, i).hi + 1);
  }
}
