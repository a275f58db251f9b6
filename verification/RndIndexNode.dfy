/** The array of node pointers of a random access index; each node knows its slot. */
module RndIndexNode {

  import opened Rotation

  class Node {
    var up: int

    constructor ()
    {
      up := -1;
    }
  }

  /* Sequences of nodes */

  ghost predicate Differ(s: seq<Node>, i: int, j: int)
    requires 0 <= i < |s| && 0 <= j < |s|
  {
    s[i] != s[j]
  }

  ghost predicate Distinct(s: seq<Node>) {
    forall i, j {:trigger Differ(s, i, j)} | 0 <= i < |s| && 0 <= j < |s| && i != j :: Differ(s, i, j)
  }

  // The slot whose node the rotation puts at slot x.
  function From(b: int, n: int, m: int, x: int): int
    requires 0 <= m <= n
  {
    if b <= x < b + n then b + Source(n, m, x - b) else x
  }

  // The slot to which the rotation moves the node at slot y.
  function To(b: int, n: int, m: int, y: int): int
    requires 0 <= m <= n
  {
    if b <= y < b + n then b + Back(n, m, y - b) else y
  }

  // t is s with the n slots from b on rotated to the left by m.
  ghost predicate RotatedAt(s: seq, t: seq, b: int, n: int, m: int, x: int)
    requires 0 <= b <= b + n <= |s| == |t| && 0 <= m <= n && 0 <= x < |s|
  {
    t[x] == s[From(b, n, m, x)]
  }

  ghost predicate Rotated(s: seq, t: seq, b: int, n: int, m: int)
    requires 0 <= b <= b + n <= |s| && 0 <= m <= n
  {
    |t| == |s| && forall x {:trigger RotatedAt(s, t, b, n, m, x)} | 0 <= x < |s| :: RotatedAt(s, t, b, n, m, x)
  }

  lemma RotatedIs(s: seq, t: seq, b: int, n: int, m: int)
    requires 0 <= b <= b + n <= |s| && 0 <= m <= n && Rotated(s, t, b, n, m)
    ensures t == s[..b] + s[b + m..b + n] + s[b..b + m] + s[b + n..]
  {
    forall x | 0 <= x < |s| ensures t[x] == (s[..b] + s[b + m..b + n] + s[b..b + m] + s[b + n..])[x] {
      assert RotatedAt(s, t, b, n, m, x);
    }
  }

  // t is s with the slots from first to last moved before pos.
  ghost predicate Moved(s: seq, t: seq, pos: int, first: int, last: int)
    requires 0 <= first <= last <= |s| && 0 <= pos <= |s| && (pos <= first || last <= pos)
  {
    if pos <= first then Rotated(s, t, pos, last - pos, first - pos)
      else Rotated(s, t, first, pos - first, last - first)
  }

  lemma MovedIs(s: seq, t: seq, pos: int, first: int, last: int)
    requires 0 <= first <= last <= |s| && 0 <= pos <= |s| && (pos <= first || last <= pos)
    requires Moved(s, t, pos, first, last)
    ensures t ==
            if pos <= first then s[..pos] + s[first..last] + s[pos..first] + s[last..]
            else s[..first] + s[last..pos] + s[first..last] + s[pos..]
  {
    if pos <= first {
      RotatedIs(s, t, pos, last - pos, first - pos);
    } else {
      RotatedIs(s, t, first, pos - first, last - first);
    }
  }

  lemma NotMoved(s: seq<Node>, pos: int, first: int, last: int)
    requires 0 <= first <= last <= |s| && (pos == first || pos == last)
    ensures Moved(s, s, pos, first, last)
  {
    var b, n, m := if pos <= first then pos else first, if pos <= first then last - pos else pos - first,
      if pos <= first then first - pos else last - first;
    forall x | 0 <= x < |s| ensures RotatedAt(s, s, b, n, m, x) {
    }
  }

  lemma MovedHasSame(s: seq<Node>, t: seq<Node>, pos: int, first: int, last: int)
    requires 0 <= first <= last <= |s| && 0 <= pos <= |s| && (pos <= first || last <= pos)
    requires Moved(s, t, pos, first, last)
    ensures forall x {:trigger x in t} | x in t :: x in s
  {
    var b, n, m := if pos <= first then pos else first, if pos <= first then last - pos else pos - first,
      if pos <= first then first - pos else last - first;
    forall i | 0 <= i < |t| ensures t[i] in s {
      assert RotatedAt(s, t, b, n, m, i);
    }
  }

  // What lies behind the slots that are moved stays where it is.
  lemma MovedInFront(s: seq, t: seq, len: int, pos: int, first: int, last: int)
    requires 0 <= first <= last <= len < |s| && 0 <= pos <= len && (pos <= first || last <= pos)
    requires Moved(s, t, pos, first, last)
    ensures Moved(s[..len], t[..len], pos, first, last) && t[len] == s[len]
  {
    var b, n, m := if pos <= first then pos else first, if pos <= first then last - pos else pos - first,
      if pos <= first then first - pos else last - first;
    assert RotatedAt(s, t, b, n, m, len);
    forall x | 0 <= x < len ensures RotatedAt(s[..len], t[..len], b, n, m, x) {
      assert RotatedAt(s, t, b, n, m, x);
    }
  }

  /* The slots */

  // The node in slot i knows it.
  ghost predicate Knows(ptrs: array<Node>, i: int)
    requires 0 <= i < ptrs.Length
    reads ptrs, ptrs[i..i + 1]`up
  {
    ptrs[i].up == i
  }

  // The nodes in the first len slots know them.
  ghost predicate Sound(ptrs: array<Node>, len: nat)
    requires len <= ptrs.Length
    reads ptrs, ptrs[..len]`up
  {
    forall i {:trigger Knows(ptrs, i)} | 0 <= i < len :: Knows(ptrs, i)
  }

  lemma SoundIsDistinct(ptrs: array<Node>, len: nat)
    requires len <= ptrs.Length && Sound(ptrs, len)
    ensures Distinct(ptrs[..len])
  {
    forall i, j | 0 <= i < len && 0 <= j < len && i != j
      ensures Differ(ptrs[..len], i, j)
    {
      assert Knows(ptrs, i) && Knows(ptrs, j);
    }
  }

  method Put(ptrs: array<Node>, x: int, n: Node)
    requires 0 <= x < ptrs.Length
    modifies ptrs, n`up
    ensures ptrs[..] == old(ptrs[..])[x := n] && n.up == x
  {
    ptrs[x] := n;
    n.up := x;
  }

  method Swap(ptrs: array<Node>, ghost len: nat, i: int, j: int)
    requires len <= ptrs.Length && Sound(ptrs, len) && 0 <= i < len && 0 <= j < len
    modifies ptrs, ptrs[..len]`up
    ensures Sound(ptrs, len) && ptrs[..] == old(ptrs[..][i := ptrs[j]][j := ptrs[i]])
  {
    ghost var s := ptrs[..len];
    SoundIsDistinct(ptrs, len);
    var x, y := ptrs[i], ptrs[j];
    Put(ptrs, i, y);
    Put(ptrs, j, x);
    forall k | 0 <= k < len ensures Knows(ptrs, k) {
      assert old(Knows(ptrs, k));
      assert k == i || Differ(s, i, k);
      assert k == j || Differ(s, j, k);
      assert i == j || Differ(s, i, j);
    }
  }

  // The nodes in the first len slots go to those of another array.
  method Transfer(ptrs: array<Node>, ghost len: nat, n: nat, to: array<Node>)
    requires n == len <= ptrs.Length && len <= to.Length && to != ptrs && Sound(ptrs, len)
    modifies to, ptrs[..len]`up
    ensures to[..len] == ptrs[..len] && Sound(to, len)
  {
    for i := 0 to n
      invariant forall j {:trigger to[j]} | 0 <= j < i :: to[j] == ptrs[j]
      invariant Sound(ptrs, len)
    {
      assert Knows(ptrs, i);
      to[i] := ptrs[i];
      to[i].up := i;
      forall j | 0 <= j < len ensures Knows(ptrs, j) {
        assert old(Knows(ptrs, j));
      }
    }
    forall j | 0 <= j < len ensures Knows(to, j) {
      assert Knows(ptrs, j);
    }
  }

  /* Rotation by cycles */

  // The slot x has its final node: it is on an earlier cycle or among the places v of this one.
  ghost predicate Served(b: int, n: int, p: int, i: int, v: set<int>, x: int) {
    b <= x < b + n && 0 < p && ((x - b) % p < i || x - b in v)
  }

  // What slot x holds, and what slot the node that was in slot y knows, when some slots have been served.
  ghost predicate SlotOk(ptrs: array<Node>, s: seq<Node>, b: int, n: int, m: int, i: int, v: set<int>, x: int)
    requires 0 <= x < |s| <= ptrs.Length && 0 <= b <= b + n <= |s| && 0 <= m <= n
    reads ptrs
  {
    ptrs[x] == s[if Served(b, n, Gcd(n, m), i, v, x) then From(b, n, m, x) else x]
  }

  ghost predicate NodeOk(s: seq<Node>, b: int, n: int, m: int, i: int, v: set<int>, y: int)
    requires 0 <= y < |s| && 0 <= b <= b + n <= |s| && 0 <= m <= n
    reads s`up
  {
    s[y].up == if Served(b, n, Gcd(n, m), i, v, To(b, n, m, y)) then To(b, n, m, y) else y
  }

  ghost predicate Turned(ptrs: array<Node>, s: seq<Node>, b: int, n: int, m: int, i: int, v: set<int>)
    requires |s| <= ptrs.Length && 0 <= b <= b + n <= |s| && 0 <= m <= n
    reads ptrs, s`up
  {
    && (forall x {:trigger SlotOk(ptrs, s, b, n, m, i, v, x)} | 0 <= x < |s| :: SlotOk(ptrs, s, b, n, m, i, v, x))
    && (forall y {:trigger NodeOk(s, b, n, m, i, v, y)} | 0 <= y < |s| :: NodeOk(s, b, n, m, i, v, y))
  }

  // One half of a turn of the inner loop: place j gets the node of place k.
  method Serve(ptrs: array<Node>, node: Node, ghost s: seq<Node>, b: int, n: int, ghost m: int, ghost i: int,
      ghost v: set<int>, j: int)
    requires |s| <= ptrs.Length && 0 <= b <= b + n <= |s| && 0 <= m <= n && Distinct(s)
    requires Turned(ptrs, s, b, n, m, i, v) && 0 < Gcd(n, m)
    requires 0 <= j < n && node == s[b + Source(n, m, j)] && j !in v
    modifies ptrs, s`up
    ensures Turned(ptrs, s, b, n, m, i, v + {j})
  {
    var k := b + Source(n, m, j);
    Put(ptrs, b + j, node);
    var w := v + {j};
    forall x | 0 <= x < |s| ensures SlotOk(ptrs, s, b, n, m, i, w, x) {
      assert old(SlotOk(ptrs, s, b, n, m, i, v, x));
    }
    forall y | 0 <= y < |s| ensures NodeOk(s, b, n, m, i, w, y) {
      assert old(NodeOk(s, b, n, m, i, v, y));
      assert y == k || Differ(s, k, y);
    }
  }

  // A finished cycle counts as one of the earlier ones.
  lemma CycleIsServed(ptrs: array<Node>, s: seq<Node>, b: int, n: int, m: int, i: int, v: set<int>)
    requires |s| <= ptrs.Length && 0 <= b <= b + n <= |s| && 0 <= m <= n && 0 <= i < Gcd(n, m)
    requires Turned(ptrs, s, b, n, m, i, v)
    requires forall x {:trigger x in v} | 0 <= x < n :: x in v <==> x % Gcd(n, m) == i
    ensures Turned(ptrs, s, b, n, m, i + 1, {})
  {
    var h := i + 1;
    forall x ensures Served(b, n, Gcd(n, m), i, v, x) <==> Served(b, n, Gcd(n, m), h, {}, x) {
    }
    forall x | 0 <= x < |s| ensures SlotOk(ptrs, s, b, n, m, h, {}, x) {
      assert SlotOk(ptrs, s, b, n, m, i, v, x);
    }
    forall y | 0 <= y < |s| ensures NodeOk(s, b, n, m, h, {}, y) {
      assert NodeOk(s, b, n, m, i, v, y);
    }
  }

  // The node still to be moved to place j of a walk is where it was.
  lemma SourceIsUntouched(ptrs: array<Node>, s: seq<Node>, b: int, n: int, m: int, i: int, v: set<int>, j: int)
    requires |s| <= ptrs.Length && 0 <= b <= b + n <= |s| && 0 <= m <= n
    requires Turned(ptrs, s, b, n, m, i, v) && Walking(n, m, i, v, j) && (Source(n, m, j) != i || v == {})
    ensures ptrs[b + Source(n, m, j)] == s[b + Source(n, m, j)]
  {
    var k := Source(n, m, j);
    assert SlotOk(ptrs, s, b, n, m, i, v, b + k);
    SourceKeepsResidue(n, m, j);
    if k != i {
      WalkGoesOn(n, m, i, v, j);
    }
  }

  // One turn of the outer loop: the cycle that starts at begin[i].
  method Cycle(ptrs: array<Node>, ghost s: seq<Node>, b: int, n: int, m: int, i: int)
    requires |s| <= ptrs.Length && 0 <= b <= b + n <= |s| && 0 <= m <= n && Distinct(s)
    requires 0 <= i < Gcd(n, m) && Turned(ptrs, s, b, n, m, i, {})
    modifies ptrs, s`up
    ensures Turned(ptrs, s, b, n, m, i + 1, {})
  {
    ghost var v: set<int> := {};
    WalkStarts(n, m, i);
    SourceKeepsResidue(n, m, i);
    assert SlotOk(ptrs, s, b, n, m, i, v, b + i);
    var tmp := ptrs[b + i];
    var j := i;
    while true
      invariant Turned(ptrs, s, b, n, m, i, v) && Walking(n, m, i, v, j)
      decreases n - |v|
    {
      var k := Source(n, m, j);
      WalkIsShort(n, v + {j});
      if k == i {
        Serve(ptrs, tmp, s, b, n, m, i, v, j);
        WalkEnds(n, m, i, v, j);
        v := v + {j};
        break;
      }
      SourceIsUntouched(ptrs, s, b, n, m, i, v, j);
      WalkGoesOn(n, m, i, v, j);
      Serve(ptrs, ptrs[b + k], s, b, n, m, i, v, j);
      v := v + {j};
      j := Source(n, m, k);
      if j == i {
        Serve(ptrs, tmp, s, b, n, m, i, v, k);
        WalkEnds(n, m, i, v, k);
        v := v + {k};
        break;
      }
      SourceIsUntouched(ptrs, s, b, n, m, i, v, k);
      WalkGoesOn(n, m, i, v, k);
      Serve(ptrs, ptrs[b + j], s, b, n, m, i, v, k);
      v := v + {k};
    }
    CycleIsServed(ptrs, s, b, n, m, i, v);
  }

  // When every cycle has been served the slots are rotated.
  lemma TurnIsComplete(ptrs: array<Node>, s: seq<Node>, b: int, n: int, m: int)
    requires |s| <= ptrs.Length && 0 <= b <= b + n <= |s| && 0 <= m <= n
    requires Turned(ptrs, s, b, n, m, Gcd(n, m), {})
    ensures Rotated(s, ptrs[..|s|], b, n, m) && Sound(ptrs, |s|)
  {
    var p := Gcd(n, m);
    forall x | 0 <= x < |s| ensures RotatedAt(s, ptrs[..|s|], b, n, m, x) && Knows(ptrs, x) {
      assert SlotOk(ptrs, s, b, n, m, p, {}, x);
      assert To(b, n, m, From(b, n, m, x)) == x;
      assert NodeOk(s, b, n, m, p, {}, From(b, n, m, x));
    }
  }

  method RelocateRange(ptrs: array<Node>, ghost len: nat, pos: int, first: int, last: int)
    requires len <= ptrs.Length && Sound(ptrs, len)
    requires 0 <= first <= last <= len && 0 <= pos <= len && (pos < first || last <= pos)
    modifies ptrs, ptrs[..len]`up
    ensures Sound(ptrs, len) && Moved(old(ptrs[..len]), ptrs[..len], pos, first, last)
  {
    var begin, middle, end;
    if pos < first {
      begin, middle, end := pos, first, last;
    } else {
      begin, middle, end := first, last, pos;
    }
    var n, m := end - begin, middle - begin;
    ghost var s := ptrs[..len];
    SoundIsDistinct(ptrs, len);
    var p := Gcd(n, m);
    TurnStarts(ptrs, s, begin, n, m);
    for i := 0 to p
      invariant Turned(ptrs, s, begin, n, m, i, {})
    {
      Cycle(ptrs, s, begin, n, m, i);
    }
    TurnIsComplete(ptrs, s, begin, n, m);
  }

  lemma TurnStarts(ptrs: array<Node>, s: seq<Node>, b: int, n: int, m: int)
    requires |s| <= ptrs.Length && 0 <= b <= b + n <= |s| && 0 <= m <= n
    requires s == ptrs[..|s|] && Sound(ptrs, |s|)
    ensures Turned(ptrs, s, b, n, m, 0, {})
  {
    forall x | 0 <= x < |s| ensures SlotOk(ptrs, s, b, n, m, 0, {}, x) && NodeOk(s, b, n, m, 0, {}, x) {
      assert Knows(ptrs, x);
    }
  }

  /* Shifts by one slot */

  // The slots from lo to hi hold the nodes that were d slots further up.
  ghost predicate SlotShifted(ptrs: array<Node>, s: seq<Node>, lo: int, hi: int, d: int, x: int)
    requires 0 <= x < |s| <= ptrs.Length && 0 <= lo && 0 <= lo + d && hi + d <= |s|
    reads ptrs
  {
    ptrs[x] == s[if lo <= x < hi then x + d else x]
  }

  ghost predicate NodeShifted(s: seq<Node>, lo: int, hi: int, d: int, y: int)
    requires 0 <= y < |s|
    reads s`up
  {
    s[y].up == if lo <= y - d < hi then y - d else y
  }

  ghost predicate Shifted(ptrs: array<Node>, s: seq<Node>, lo: int, hi: int, d: int)
    reads ptrs, s`up
  {
    && |s| <= ptrs.Length && 0 <= lo && 0 <= lo + d && hi + d <= |s|
    && (forall x {:trigger SlotShifted(ptrs, s, lo, hi, d, x)} | 0 <= x < |s| :: SlotShifted(ptrs, s, lo, hi, d, x))
    && (forall y {:trigger NodeShifted(s, lo, hi, d, y)} | 0 <= y < |s| :: NodeShifted(s, lo, hi, d, y))
  }

  lemma ShiftStarts(ptrs: array<Node>, s: seq<Node>, lo: int, d: int)
    requires |s| <= ptrs.Length && s == ptrs[..|s|] && Sound(ptrs, |s|) && 0 <= lo && 0 <= lo + d <= |s|
    ensures Shifted(ptrs, s, lo, lo, d)
  {
    forall x | 0 <= x < |s| ensures SlotShifted(ptrs, s, lo, lo, d, x) && NodeShifted(s, lo, lo, d, x) {
      assert Knows(ptrs, x);
    }
  }

  // Slot x, just above or just below the shifted ones, gets its node.
  method ShiftOne(ptrs: array<Node>, ghost s: seq<Node>, ghost lo: int, ghost hi: int, d: int, x: int)
    requires Shifted(ptrs, s, lo, hi, d) && Distinct(s)
    requires lo <= hi && ((d == 1 && x == hi) || (d == -1 && x == lo - 1))
    requires 0 <= x < |s| && 0 <= x + d < |s|
    modifies ptrs, s`up
    ensures Shifted(ptrs, s, if d == 1 then lo else lo - 1, if d == 1 then hi + 1 else hi, d)
  {
    ghost var l, h := if d == 1 then lo else lo - 1, if d == 1 then hi + 1 else hi;
    assert SlotShifted(ptrs, s, lo, hi, d, x + d);
    Put(ptrs, x, ptrs[x + d]);
    forall z | 0 <= z < |s| ensures SlotShifted(ptrs, s, l, h, d, z) {
      assert old(SlotShifted(ptrs, s, lo, hi, d, z));
    }
    forall y | 0 <= y < |s| ensures NodeShifted(s, l, h, d, y) {
      assert old(NodeShifted(s, lo, hi, d, y));
      assert y == x + d || Differ(s, x + d, y);
    }
  }

  // The nodes from x + 1 to pend go down one slot.
  method Extract(ptrs: array<Node>, ghost s: seq<Node>, x: int, pend: int)
    requires |s| <= ptrs.Length && s == ptrs[..|s|] && Sound(ptrs, |s|) && 0 <= x < pend <= |s|
    modifies ptrs, ptrs[..|s|]`up
    ensures Shifted(ptrs, s, x, pend - 1, 1)
  {
    SoundIsDistinct(ptrs, |s|);
    ShiftStarts(ptrs, s, x, 1);
    var y := x;
    while y != pend - 1
      invariant x <= y <= pend - 1 && Shifted(ptrs, s, x, y, 1)
    {
      ShiftOne(ptrs, s, x, y, 1, y);
      y := y + 1;
    }
  }

  // The node at x goes before pos.
  method Relocate(ptrs: array<Node>, ghost len: nat, pos: int, x: int)
    requires len <= ptrs.Length && Sound(ptrs, len) && 0 <= x < len && 0 <= pos <= len
    modifies ptrs, ptrs[..len]`up
    ensures Sound(ptrs, len) && Moved(old(ptrs[..len]), ptrs[..len], pos, x, x + 1)
  {
    ghost var s := ptrs[..len];
    SoundIsDistinct(ptrs, len);
    var n := ptrs[x];
    if x < pos {
      Extract(ptrs, s, x, pos);
      PutMoved(ptrs, s, x, pos - 1, 1, n, pos - 1, pos, x);
    } else {
      ShiftStarts(ptrs, s, x + 1, -1);
      var y := x;
      while y != pos
        invariant pos <= y <= x && Shifted(ptrs, s, y + 1, x + 1, -1)
      {
        ShiftOne(ptrs, s, y + 1, x + 1, -1, y);
        y := y - 1;
      }
      PutMoved(ptrs, s, y + 1, x + 1, -1, n, pos, pos, x);
    }
  }

  // The node the shift has overwritten goes to the slot it has freed.
  method PutMoved(ptrs: array<Node>, ghost s: seq<Node>, ghost lo: int, ghost hi: int, ghost d: int, n: Node, to: int,
      ghost pos: int, ghost x: int)
    requires Shifted(ptrs, s, lo, hi, d) && Distinct(s) && 0 <= x < |s| && n == s[x] && 0 <= pos <= |s|
    requires (
      || (d == 1 && lo == x < pos && hi == to == pos - 1)
      || (d == -1 && lo == pos + 1 && to == pos && hi == x + 1 && pos <= x)
    )
    modifies ptrs, s`up
    ensures Moved(s, ptrs[..|s|], pos, x, x + 1) && Sound(ptrs, |s|)
  {
    Put(ptrs, to, n);
    ghost var b, m := if d == 1 then x else pos, if d == 1 then 1 else x - pos;
    ghost var n := if d == 1 then pos - x else x + 1 - pos;
    forall z | 0 <= z < |s|
      ensures RotatedAt(s, ptrs[..|s|], b, n, m, z) && Knows(ptrs, z)
    {
      assert old(SlotShifted(ptrs, s, lo, hi, d, z));
      var y := From(b, n, m, z);
      assert old(NodeShifted(s, lo, hi, d, y));
      assert y == x || Differ(s, x, y);
    }
  }

  /* Reversal */

  // The slot whose node slot x has when the outer d pairs of the slots from b to e have been swapped.
  function Mirror(b: int, e: int, d: int, x: int): (y: int) {
    if b <= x < b + d || e - d <= x < e then b + (e - 1) - x else x
  }

  ghost function Reversed(s: seq<Node>): (r: seq<Node>)
    ensures |r| == |s|
  {
    seq(|s|, i requires 0 <= i < |s| => s[|s| - 1 - i])
  }

  ghost predicate SlotMirrored(ptrs: array<Node>, s: seq<Node>, e: int, d: int, x: int)
    requires 0 <= x < |s| <= ptrs.Length && 0 <= d <= e - d && e <= |s|
    reads ptrs
  {
    ptrs[x] == s[Mirror(0, e, d, x)]
  }

  ghost predicate NodeMirrored(s: seq<Node>, e: int, d: int, x: int)
    requires 0 <= x < |s|
    reads s`up
  {
    s[x].up == Mirror(0, e, d, x)
  }

  ghost predicate Mirrored(ptrs: array<Node>, s: seq<Node>, e: int, d: int)
    reads ptrs, s`up
  {
    && |s| <= ptrs.Length && 0 <= d <= e - d && e <= |s|
    && (forall x {:trigger SlotMirrored(ptrs, s, e, d, x)} | 0 <= x < |s| :: SlotMirrored(ptrs, s, e, d, x))
    && (forall x {:trigger NodeMirrored(s, e, d, x)} | 0 <= x < |s| :: NodeMirrored(s, e, d, x))
  }

  method SwapEnds(ptrs: array<Node>, ghost s: seq<Node>, e: int, d: int)
    requires Mirrored(ptrs, s, e, d) && d < e / 2 && Distinct(s)
    modifies ptrs, s`up
    ensures Mirrored(ptrs, s, e, d + 1)
  {
    var low, high := d, e - 1 - d;
    assert SlotMirrored(ptrs, s, e, d, low) && SlotMirrored(ptrs, s, e, d, high);
    var l, h := ptrs[low], ptrs[high];
    assert Differ(s, low, high);
    Put(ptrs, low, h);
    Put(ptrs, high, l);
    ghost var f := d + 1;
    forall x | 0 <= x < |s| ensures SlotMirrored(ptrs, s, e, f, x) && NodeMirrored(s, e, f, x) {
      assert old(SlotMirrored(ptrs, s, e, d, x)) && old(NodeMirrored(s, e, d, x));
      assert x == low || Differ(s, x, low);
      assert x == high || Differ(s, x, high);
    }
  }

  method Reverse(ptrs: array<Node>, ghost len: nat, e: nat)
    requires e <= len <= ptrs.Length && Sound(ptrs, len)
    modifies ptrs, ptrs[..len]`up
    ensures Sound(ptrs, len) && ptrs[..len] == Reversed(old(ptrs[..e])) + old(ptrs[e..len])
  {
    ghost var s := ptrs[..len];
    SoundIsDistinct(ptrs, len);
    forall x | 0 <= x < len ensures SlotMirrored(ptrs, s, e, 0, x) && NodeMirrored(s, e, 0, x) {
      assert Knows(ptrs, x);
    }
    var d := e / 2;
    for i := 0 to d
      invariant Mirrored(ptrs, s, e, i)
    {
      SwapEnds(ptrs, s, e, i);
    }
    forall x | 0 <= x < len ensures ptrs[x] == s[Mirror(0, e, e, x)] && Knows(ptrs, x) {
      assert SlotMirrored(ptrs, s, e, d, x);
      assert NodeMirrored(s, e, d, Mirror(0, e, d, x));
    }
  }
}
