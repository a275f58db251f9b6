/** Finding a longest subsequence of a sequence of positions that is increasing, by patience sorting. */
module IndexMatcher {

  function At(s: seq<int>, i: int): int
    requires 0 <= i < |s|
  {
    s[i]
  }

  // The entries as they came, the pile of each, which entry was on top of the pile before it
  // then, and which is on top of each pile now.
  datatype Piles = Piles(done: seq<int>, pile: seq<int>, below: seq<int>, top: seq<int>)

  ghost predicate Sized(p: Piles) {
    |p.pile| == |p.below| == |p.done| && |p.top| <= |p.done|
  }

  ghost predicate Topped(p: Piles, k: int)
    requires Sized(p) && 0 <= k < |p.top|
  {
    0 <= At(p.top, k) < |p.done| && At(p.pile, At(p.top, k)) == k
  }

  ghost function Top(p: Piles, k: int): int
    requires Sized(p) && 0 <= k < |p.top| && Topped(p, k)
  {
    At(p.done, At(p.top, k))
  }

  // Entry i lies on a pile whose top is no higher, and came after a smaller one on the pile before.
  ghost predicate Placed(p: Piles, i: int)
    requires Sized(p) && 0 <= i < |p.done|
  {
    && 0 <= At(p.pile, i) < |p.top| && Topped(p, At(p.pile, i)) && Top(p, At(p.pile, i)) <= At(p.done, i)
    && (At(p.pile, i) > 0 ==>
      (0 <= At(p.below, i) < i && At(p.pile, At(p.below, i)) == At(p.pile, i) - 1
        && At(p.done, At(p.below, i)) < At(p.done, i)))
  }

  // Of two entries the earlier and smaller one is on an earlier pile.
  ghost predicate Ascends(p: Piles, i: int, j: int)
    requires Sized(p) && 0 <= i < j < |p.done|
  {
    At(p.done, i) != At(p.done, j) && (At(p.done, i) < At(p.done, j) ==> At(p.pile, i) < At(p.pile, j))
  }

  ghost predicate Good(p: Piles) {
    && Sized(p)
    && (forall k {:trigger Topped(p, k)} | 0 <= k < |p.top| ::
      Topped(p, k) && (k > 0 ==> Topped(p, k - 1) && Top(p, k - 1) < Top(p, k)))
    && (forall i {:trigger Placed(p, i)} | 0 <= i < |p.done| :: Placed(p, i))
    && (forall i, j {:trigger Ascends(p, i, j)} | 0 <= i < j < |p.done| :: Ascends(p, i, j))
  }

  // n goes on pile k.
  ghost function Put(p: Piles, n: int, k: int): (r: Piles)
    requires Sized(p) && 0 <= k <= |p.top|
    ensures Sized(r)
  {
    Piles(p.done + [n], p.pile + [k], p.below + [if k > 0 then At(p.top, k - 1) else 0],
          if k == |p.top| then p.top + [|p.done|] else p.top[k := |p.done|])
  }

  // The first pile whose top is not smaller than n.
  ghost predicate First(p: Piles, n: int, k: int)
    requires Good(p)
  {
    && 0 <= k <= |p.top|
    && (forall j {:trigger Topped(p, j)} | 0 <= j < k && Topped(p, j) :: Top(p, j) < n)
    && (forall j {:trigger Topped(p, j)} | k <= j < |p.top| && Topped(p, j) :: Top(p, j) > n)
  }

  lemma PutAt(p: Piles, n: int, k: int, i: int)
    requires Sized(p) && 0 <= k <= |p.top| && 0 <= i <= |p.done|
    ensures var r := Put(p, n, k);
      && At(r.done, i) == (if i < |p.done| then At(p.done, i) else n)
      && At(r.pile, i) == (if i < |p.done| then At(p.pile, i) else k)
      && At(r.below, i) == (if i < |p.done| then At(p.below, i) else if k > 0 then At(p.top, k - 1) else 0)
  {
  }

  lemma PutTop(p: Piles, n: int, k: int, j: int)
    requires Good(p) && 0 <= k <= |p.top| && 0 <= j < |Put(p, n, k).top|
    ensures var r := Put(p, n, k);
      && At(r.top, j) == (if j == k then |p.done| else At(p.top, j)) && Topped(r, j)
      && (j != k ==> Topped(p, j) && Top(r, j) == Top(p, j)) && (j == k ==> Top(r, j) == n)
  {
    if j != k { assert Topped(p, j); }
  }

  lemma PutIsGood(p: Piles, n: int, k: int)
    requires Good(p) && First(p, n, k) && n !in p.done
    ensures Good(Put(p, n, k))
  {
    var r := Put(p, n, k);
    forall j | 0 <= j < |r.top| ensures Topped(r, j) && (j > 0 ==> Topped(r, j - 1) && Top(r, j - 1) < Top(r, j)) {
      PutTop(p, n, k, j);
      if j > 0 { PutTop(p, n, k, j - 1); }
    }
    forall i | 0 <= i < |r.done| ensures Placed(r, i) {
      PutPlaced(p, n, k, i);
    }
    forall i, j | 0 <= i < j < |r.done| ensures Ascends(r, i, j) {
      PutAscends(p, n, k, i, j);
    }
  }

  lemma PutPlaced(p: Piles, n: int, k: int, i: int)
    requires Good(p) && First(p, n, k) && 0 <= i <= |p.done|
    ensures Placed(Put(p, n, k), i)
  {
    var r := Put(p, n, k);
    PutAt(p, n, k, i);
    assert i < |p.done| ==> Placed(p, i);
    PutTop(p, n, k, At(r.pile, i));
    if i < |p.done| {
      if At(p.pile, i) > 0 { PutAt(p, n, k, At(p.below, i)); }
    } else if k > 0 {
      assert Topped(p, k - 1);
      PutAt(p, n, k, At(p.top, k - 1));
    }
  }

  lemma PutAscends(p: Piles, n: int, k: int, i: int, j: int)
    requires Good(p) && First(p, n, k) && n !in p.done && 0 <= i < j <= |p.done|
    ensures Ascends(Put(p, n, k), i, j)
  {
    PutAt(p, n, k, i);
    PutAt(p, n, k, j);
    if j < |p.done| {
      assert Ascends(p, i, j);
    } else {
      assert Placed(p, i) && p.done[i] in p.done;
      assert Topped(p, At(p.pile, i));
    }
  }

  lemma TopsIncrease(p: Piles, j: int, k: int)
    requires Good(p) && 0 <= j <= k < |p.top|
    ensures Topped(p, j) && Topped(p, k) && Top(p, j) <= Top(p, k)
    decreases k - j
  {
    assert Topped(p, k) && Topped(p, j);
    if j < k { TopsIncrease(p, j, k - 1); }
  }

  // A subsequence, as the places of its entries, that increases.
  ghost predicate Increasing(s: seq<int>, c: seq<int>) {
    && (forall a {:trigger At(c, a)} | 0 <= a < |c| :: 0 <= At(c, a) < |s|)
    && (forall a {:trigger Rises(s, c, a)} | 0 < a < |c| :: Rises(s, c, a))
  }

  ghost predicate Rises(s: seq<int>, c: seq<int>, a: int)
    requires 0 < a < |c|
  {
    && 0 <= At(c, a - 1) < At(c, a) < |s| && At(s, At(c, a - 1)) < At(s, At(c, a))
  }

  // Along it the piles rise.
  lemma {:induction false} Climbs(p: Piles, c: seq<int>, a: int)
    requires Good(p) && Increasing(p.done, c) && 0 <= a < |c|
    ensures 0 <= At(c, a) < |p.done| && a <= At(p.pile, At(c, a)) < |p.top|
    decreases a
  {
    assert Placed(p, At(c, a));
    if a > 0 {
      Climbs(p, c, a - 1);
      assert Rises(p.done, c, a);
      assert Ascends(p, At(c, a - 1), At(c, a));
    }
  }

  // No increasing subsequence has more entries than there are piles.
  lemma NoLonger(p: Piles, c: seq<int>)
    requires Good(p) && Increasing(p.done, c)
    ensures |c| <= |p.top|
  {
    if c != [] { Climbs(p, c, |c| - 1); }
  }

  // The entries from i down to the first pile, the first of them first.
  ghost function Chain(p: Piles, i: int): (c: seq<int>)
    requires Good(p) && 0 <= i < |p.done|
    ensures c != []
    decreases i
  {
    assert Placed(p, i);
    if At(p.pile, i) == 0 then [i] else Chain(p, At(p.below, i)) + [i]
  }

  ghost function Linked(p: Piles, i: int): set<int>
    requires Good(p) && 0 <= i < |p.done|
    decreases i
  {
    assert Placed(p, i);
    {At(p.done, i)} + if At(p.pile, i) == 0 then {} else Linked(p, At(p.below, i))
  }

  lemma {:induction false} ChainIncreases(p: Piles, i: int)
    requires Good(p) && 0 <= i < |p.done|
    ensures Increasing(p.done, Chain(p, i)) && |Chain(p, i)| == At(p.pile, i) + 1 && At(Chain(p, i), At(p.pile, i)) == i
    decreases i
  {
    assert Placed(p, i);
    if At(p.pile, i) > 0 {
      var d, c := Chain(p, At(p.below, i)), Chain(p, i);
      ChainIncreases(p, At(p.below, i));
      forall a {:trigger At(c, a)} | 0 <= a < |c| - 1 ensures At(c, a) == At(d, a) {
      }
      forall a | 0 < a < |c| ensures Rises(p.done, c, a) {
        assert a < |c| - 1 ==> Rises(p.done, d, a);
      }
    }
  }

  lemma {:induction false} ChainIsLinked(p: Piles, i: int, n: int)
    requires Good(p) && 0 <= i < |p.done| && Increasing(p.done, Chain(p, i))
    ensures n in Linked(p, i) <==> exists a {:trigger At(Chain(p, i), a)} ::
      0 <= a < |Chain(p, i)| && At(p.done, At(Chain(p, i), a)) == n
    decreases i
  {
    assert Placed(p, i);
    ChainIncreases(p, i);
    if At(p.pile, i) > 0 {
      var d, c := Chain(p, At(p.below, i)), Chain(p, i);
      ChainIncreases(p, At(p.below, i));
      ChainIsLinked(p, At(p.below, i), n);
      if a :| 0 <= a < |d| && At(p.done, At(d, a)) == n { assert At(c, a) == At(d, a); }
      if a :| 0 <= a < |c| && At(p.done, At(c, a)) == n { if a < |d| { assert At(c, a) == At(d, a); } }
    }
  }

  // What the arrays of the matcher hold of the piles.
  ghost predicate TopsHeld(p: Piles, tops: seq<int>, entries: seq<int>) {
    && Good(p) && |p.top| <= |tops| == |entries|
    && (forall k {:trigger Topped(p, k)} | 0 <= k < |p.top| && Topped(p, k) :: tops[k] == entries[k] == Top(p, k))
  }

  ghost predicate BelowHeld(p: Piles, previous: seq<int>) {
    && Good(p)
    && (forall i {:trigger At(p.done, i)} | 0 <= i < |p.done| :: 0 <= At(p.done, i) < |previous|)
    && (forall i {:trigger Placed(p, i)} | 0 <= i < |p.done| && At(p.pile, i) > 0 && Placed(p, i) ::
      previous[At(p.done, i)] == At(p.done, At(p.below, i)))
  }

  lemma PutTopsHeld(p: Piles, n: int, k: int, tops: seq<int>, entries: seq<int>)
    requires TopsHeld(p, tops, entries) && First(p, n, k) && n !in p.done && k < |tops|
    ensures TopsHeld(Put(p, n, k), tops[k := n], entries[k := n])
  {
    var r := Put(p, n, k);
    PutIsGood(p, n, k);
    forall j | 0 <= j < |r.top| && Topped(r, j) ensures tops[k := n][j] == entries[k := n][j] == Top(r, j) {
      PutTop(p, n, k, j);
    }
  }

  lemma PutBelowHeld(p: Piles, n: int, k: int, entries: seq<int>, previous: seq<int>)
    requires BelowHeld(p, previous) && First(p, n, k) && n !in p.done && 0 <= n < |previous|
    requires |p.top| <= |entries| && (k > 0 ==> Topped(p, k - 1) && entries[k - 1] == Top(p, k - 1))
    ensures BelowHeld(Put(p, n, k), if k > 0 then previous[n := entries[k - 1]] else previous)
  {
    var r := Put(p, n, k);
    PutIsGood(p, n, k);
    forall i | 0 <= i < |r.done| ensures 0 <= At(r.done, i) < |previous| {
      PutAt(p, n, k, i);
    }
    var after := if k > 0 then previous[n := entries[k - 1]] else previous;
    forall i | 0 <= i < |r.done| && At(r.pile, i) > 0 && Placed(r, i)
      ensures after[At(r.done, i)] == At(r.done, At(r.below, i))
    {
      PutAt(p, n, k, i);
      PutAt(p, n, k, At(r.below, i));
      if i < |p.done| { assert Placed(p, i) && p.done[i] in p.done; }
    }
  }

  class Matcher {
    const size: nat
    const previous: array<int>        // of an entry: the top of the pile before, when it was put on its own
    const ordered: array<bool>
    const pileTop: array<int>
    const pileTopEntry: array<int>
    var numPiles: nat
    ghost var p: Piles

    constructor (n: nat)
      ensures Valid() && size == n && p == Piles([], [], [], [])
      ensures fresh(previous) && fresh(ordered) && fresh(pileTop) && fresh(pileTopEntry)
    {
      size := n;
      previous, ordered, pileTop, pileTopEntry := new int[n], new bool[n], new int[n], new int[n];
      numPiles := 0;
      p := Piles([], [], [], []);
    }

    // The piles are kept, and there is room for them and for the entries.
    ghost predicate Valid()
      reads this, previous, pileTop, pileTopEntry
    {
      && previous.Length == ordered.Length == pileTop.Length == pileTopEntry.Length == size
      && previous != pileTop && previous != pileTopEntry && pileTop != pileTopEntry
      && |p.top| == numPiles && |p.done| <= size
      && TopsHeld(p, pileTop[..], pileTopEntry[..]) && BelowHeld(p, previous[..])
    }

    // A binary search for the first pile whose top is not smaller than n.
    method FirstPile(n: int) returns (k: nat)
      requires Valid() && n !in p.done
      ensures First(p, n, k)
    {
      var lo, hi: nat := 0, numPiles;
      while lo < hi
        invariant lo <= hi <= numPiles
        invariant forall j {:trigger Topped(p, j)} | 0 <= j < lo && Topped(p, j) :: Top(p, j) < n
        invariant forall j {:trigger Topped(p, j)} | hi <= j < numPiles && Topped(p, j) :: Top(p, j) > n
      {
        var mid := (lo + hi) / 2;
        assert Topped(p, mid);
        if pileTop[mid] < n {
          forall j {:trigger Topped(p, j)} | 0 <= j <= mid && Topped(p, j) ensures Top(p, j) < n {
            TopsIncrease(p, j, mid);
          }
          lo := mid + 1;
        } else {
          assert p.done[At(p.top, mid)] in p.done;
          forall j {:trigger Topped(p, j)} | mid <= j < numPiles && Topped(p, j) ensures Top(p, j) > n {
            TopsIncrease(p, mid, j);
          }
          hi := mid;
        }
      }
      k := lo;
    }

    // Puts entry n on the first pile it may go on.
    method AddNode(n: int)
      requires Valid() && 0 <= n < size && n !in p.done && |p.done| < size
      modifies `numPiles, `p, ordered, pileTop, pileTopEntry, previous
      ensures Valid() && p.done == old(p.done) + [n] && !ordered[n]
      ensures forall m | 0 <= m < size && m != n :: ordered[m] == old(ordered[m])
    {
      ordered[n] := false;
      var k := FirstPile(n);
      PutTopsHeld(p, n, k, pileTop[..], pileTopEntry[..]);
      if k > 0 { assert Topped(p, k - 1); }
      PutBelowHeld(p, n, k, pileTopEntry[..], previous[..]);
      p := Put(p, n, k);
      if k > 0 {
        previous[n] := pileTopEntry[k - 1];
      }
      pileTop[k], pileTopEntry[k] := n, n;
      if k == numPiles {
        numPiles := numPiles + 1;
      }
    }

    ghost predicate Marked(marks: set<int>)
      reads this, ordered
    {
      ordered.Length == size && forall n {:trigger ordered[n]} | 0 <= n < size && n in p.done ::
        ordered[n] <==> n in marks
    }

    // Marks the entries linked from ent on, the top of pile n - 1.
    method MarkLinked(ent: int, ghost last: int)
      requires Valid() && Marked({}) && 0 <= last < |p.done| && At(p.done, last) == ent
        && At(p.pile, last) == numPiles - 1
      modifies ordered
      ensures Marked(Linked(p, last))
    {
      var e, n := ent, numPiles;
      ghost var i, marks: set<int> := last, {};
      assert Placed(p, last) && Linked(p, last) == {} + Linked(p, last);
      while n > 0
        invariant 0 <= n <= numPiles
        invariant n > 0 ==> 0 <= i < |p.done| && At(p.pile, i) == n - 1 && e == At(p.done, i)
        invariant Linked(p, last) == marks + if n > 0 then Linked(p, i) else {}
        invariant Marked(marks)
      {
        n := n - 1;
        assert Placed(p, i);
        ordered[e] := true;
        marks := marks + {e};
        e := previous[e];
        if n > 0 { i := At(p.below, i); }
      }
    }

    // Marks the entries linked from the top of the last pile: they are a longest increasing subsequence.
    method Finish() returns (ghost c: seq<int>)
      requires Valid() && Marked({})
      modifies ordered
      ensures Increasing(p.done, c) && |c| == numPiles
      ensures forall d | Increasing(p.done, d) :: |d| <= |c|
      ensures Marked(Entries(p, c))
    {
      c := [];
      if numPiles > 0 {
        assert Topped(p, numPiles - 1);
        ghost var last := At(p.top, numPiles - 1);
        MarkLinked(pileTopEntry[numPiles - 1], last);
        c := Chain(p, last);
        ChainIncreases(p, last);
        LinkedIsEntries(p, last);
      }
      forall d | Increasing(p.done, d) ensures |d| <= |c| {
        NoLonger(p, d);
      }
    }
  }

  // Marks a longest subsequence of s that increases.
  method Execute(s: seq<int>, size: nat) returns (m: Matcher, ghost c: seq<int>)
    requires |s| <= size && (forall i {:trigger At(s, i)} | 0 <= i < |s| :: 0 <= At(s, i) < size)
    requires forall i, j {:trigger At(s, i), At(s, j)} | 0 <= i < j < |s| :: At(s, i) != At(s, j)
    ensures fresh(m) && m.size == size && m.ordered.Length == size
    ensures Increasing(s, c) && forall d | Increasing(s, d) :: |d| <= |c|
    ensures forall i {:trigger At(s, i)} | 0 <= i < |s| :: m.ordered[At(s, i)] <==> i in c
  {
    m := AddAll(s, size);
    c := Conclude(m, s);
  }

  method Conclude(m: Matcher, ghost s: seq<int>) returns (ghost c: seq<int>)
    requires m.Valid() && m.p.done == s && m.Marked({})
    requires forall i {:trigger At(s, i)} | 0 <= i < |s| :: 0 <= At(s, i) < m.size
    requires forall i, j {:trigger At(s, i), At(s, j)} | 0 <= i < j < |s| :: At(s, i) != At(s, j)
    modifies m.ordered
    ensures m.ordered.Length == m.size && Increasing(s, c) && forall d | Increasing(s, d) :: |d| <= |c|
    ensures forall i {:trigger At(s, i)} | 0 <= i < |s| :: m.ordered[At(s, i)] <==> i in c
  {
    c := m.Finish();
    MarksTell(m, s, c);
  }

  lemma MarksTell(m: Matcher, s: seq<int>, c: seq<int>)
    requires m.p.done == s && Increasing(s, c) && m.Marked(Entries(m.p, c))
    requires forall i {:trigger At(s, i)} | 0 <= i < |s| :: 0 <= At(s, i) < m.size
    requires forall i, j {:trigger At(s, i), At(s, j)} | 0 <= i < j < |s| :: At(s, i) != At(s, j)
    ensures forall i {:trigger At(s, i)} | 0 <= i < |s| :: m.ordered[At(s, i)] <==> i in c
  {
    forall i {:trigger At(s, i)} | 0 <= i < |s| ensures m.ordered[At(s, i)] <==> i in c {
      assert s[i] in s;
      InEntries(m.p, c, i);
    }
  }

  method AddAll(s: seq<int>, size: nat) returns (m: Matcher)
    requires |s| <= size && (forall i {:trigger At(s, i)} | 0 <= i < |s| :: 0 <= At(s, i) < size)
    requires forall i, j {:trigger At(s, i), At(s, j)} | 0 <= i < j < |s| :: At(s, i) != At(s, j)
    ensures m.Valid() && m.p.done == s && m.size == size && m.Marked({})
    ensures fresh(m) && fresh(m.previous) && fresh(m.ordered) && fresh(m.pileTop) && fresh(m.pileTopEntry)
  {
    m := new Matcher(size);
    var i := 0;
    while i < |s|
      invariant 0 <= i <= |s| && m.Valid() && m.p.done == s[..i] && m.size == size && m.Marked({})
      invariant fresh(m) && fresh(m.previous) && fresh(m.ordered) && fresh(m.pileTop) && fresh(m.pileTopEntry)
    {
      Fresh(s, i);
      m.AddNode(At(s, i));
      assert s[..i] + [At(s, i)] == s[..i + 1];
      i := i + 1;
    }
    assert s[..|s|] == s;
  }

  lemma InEntries(p: Piles, c: seq<int>, i: int)
    requires Increasing(p.done, c) && 0 <= i < |p.done|
    requires forall i, j {:trigger At(p.done, i), At(p.done, j)} | 0 <= i < j < |p.done| ::
      At(p.done, i) != At(p.done, j)
    ensures At(p.done, i) in Entries(p, c) <==> i in c
  {
    if i in c {
      var a :| 0 <= a < |c| && c[a] == i;
      assert At(c, a) == i;
    } else {
      forall a {:trigger At(c, a)} | 0 <= a < |c| ensures At(p.done, At(c, a)) != At(p.done, i) {
        assert c[a] in c;
        Differ(p.done, At(c, a), i);
      }
    }
  }

  lemma Differ(s: seq<int>, a: int, b: int)
    requires 0 <= a < |s| && 0 <= b < |s| && a != b
    requires forall i, j {:trigger At(s, i), At(s, j)} | 0 <= i < j < |s| :: At(s, i) != At(s, j)
    ensures At(s, a) != At(s, b)
  {
    if a < b { Unequal(s, a, b); } else { Unequal(s, b, a); }
  }

  // Along it the sequence rises.
  lemma {:induction false} Rising(s: seq<int>, c: seq<int>, x: int, y: int)
    requires Increasing(s, c) && 0 <= x <= y < |c|
    ensures At(c, x) <= At(c, y) && At(s, At(c, x)) <= At(s, At(c, y))
    ensures x < y ==> At(c, x) < At(c, y) && At(s, At(c, x)) < At(s, At(c, y))
    decreases y - x
  {
    if x < y {
      Rising(s, c, x, y - 1);
      assert Rises(s, c, y);
    }
  }

  lemma MembersRise(s: seq<int>, c: seq<int>, i: int, j: int)
    requires Increasing(s, c) && i in c && j in c && i < j
    ensures 0 <= i < j < |s| && At(s, i) < At(s, j)
  {
    var x :| 0 <= x < |c| && c[x] == i;
    var y :| 0 <= y < |c| && c[y] == j;
    assert At(c, x) == i && At(c, y) == j;
    if y < x { Rising(s, c, y, x); } else { Rising(s, c, x, y); }
  }

  lemma Fresh(s: seq<int>, i: int)
    requires 0 <= i < |s| && forall a, b {:trigger At(s, a), At(s, b)} | 0 <= a < b < |s| :: At(s, a) != At(s, b)
    ensures At(s, i) !in s[..i]
  {
    if At(s, i) in s[..i] {
      var a :| 0 <= a < i && s[..i][a] == At(s, i);
      Unequal(s, a, i);
    }
  }

  lemma Unequal(s: seq<int>, a: int, b: int)
    requires 0 <= a < b < |s| && forall a, b {:trigger At(s, a), At(s, b)} | 0 <= a < b < |s| :: At(s, a) != At(s, b)
    ensures s[a] != s[b]
  {
    assert At(s, a) != At(s, b);
  }

  ghost function Entries(p: Piles, c: seq<int>): set<int>
    requires Increasing(p.done, c)
  {
    set a {:trigger At(c, a)} | 0 <= a < |c| :: At(p.done, At(c, a))
  }

  lemma LinkedIsEntries(p: Piles, i: int)
    requires Good(p) && 0 <= i < |p.done| && Increasing(p.done, Chain(p, i))
    ensures Linked(p, i) == Entries(p, Chain(p, i))
  {
    forall n ensures n in Linked(p, i) <==> n in Entries(p, Chain(p, i)) {
      ChainIsLinked(p, i, n);
    }
  }
}
