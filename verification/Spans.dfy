/** Partitions of 0..n into intervals, kept as the interval of each index: the groups, and the buckets, of a chain. */
module Spans {

  datatype Span = Span(lo: int, hi: int)

  ghost function At(s: seq<Span>, i: int): Span
    requires 0 <= i < |s|
  {
    s[i]
  }

  ghost predicate Covers(s: seq<Span>, i: int)
    requires 0 <= i < |s|
  {
    && 0 <= At(s, i).lo <= i <= At(s, i).hi < |s|
    && (forall j {:trigger At(s, j)} | At(s, i).lo <= j <= At(s, i).hi :: At(s, j) == At(s, i))
  }

  ghost predicate Partition(s: seq<Span>) {
    forall i {:trigger Covers(s, i)} | 0 <= i < |s| :: Covers(s, i)
  }

  /* Putting w new indices at i */

  function Up(j: int, i: int, w: int): int {
    if j >= i then j + w else j
  }

  // The old index of an index outside the new ones.
  function Before(j: int, i: int, w: int): int {
    if j >= i + w then j - w else j
  }

  // The interval e afterwards; join says that the interval at i takes the new indices in.
  function Moved(e: Span, i: int, w: int, join: bool): Span {
    Span(if e.lo > i || (e.lo == i && !join) then e.lo + w else e.lo, Up(e.hi, i, w))
  }

  function Opened(s: seq<Span>, i: int, w: int, join: bool): (t: seq<Span>)
    requires 0 <= i < |s| && w > 0
    ensures |t| == |s| + w
  {
    seq(|s| + w, j requires 0 <= j < |s| + w =>
      if i <= j < i + w then (if join then Moved(s[i], i, w, true) else Span(i, i + w - 1))
      else Moved(s[Before(j, i, w)], i, w, join))
  }

  lemma OpenedAt(s: seq<Span>, i: int, w: int, join: bool, j: int)
    requires 0 <= i < |s| && w > 0 && 0 <= j < |s| + w
    ensures At(Opened(s, i, w, join), j) ==
      if !(i <= j < i + w) then Moved(At(s, Before(j, i, w)), i, w, join)
      else if join then Moved(At(s, i), i, w, true) else Span(i, i + w - 1)
  {
  }

  // A place in no interval may be opened where an interval starts.
  lemma OpenedIsPartition(s: seq<Span>, i: int, w: int, join: bool)
    requires Partition(s) && 0 <= i < |s| && w > 0 && (join || At(s, i).lo == i)
    ensures Partition(Opened(s, i, w, join))
  {
    var t := Opened(s, i, w, join);
    forall j | 0 <= j < |t| ensures Covers(t, j) {
      OpenedAt(s, i, w, join, j);
      assert Covers(s, i);
      if !(i <= j < i + w) { assert Covers(s, Before(j, i, w)); }
      forall k | At(t, j).lo <= k <= At(t, j).hi ensures At(t, k) == At(t, j) {
        OpenedAt(s, i, w, join, k);
        if !(i <= k < i + w) { assert Covers(s, Before(k, i, w)); }
      }
    }
  }

  /* Taking out the w indices from i on */

  function Closed(e: Span, i: int, w: int): Span {
    Span(if e.lo >= i + w then e.lo - w else if e.lo > i then i else e.lo,
         if e.hi >= i + w then e.hi - w else if e.hi >= i then i - 1 else e.hi)
  }

  function Dropped(s: seq<Span>, i: int, w: int): (t: seq<Span>)
    requires 0 <= i <= i + w <= |s|
    ensures |t| == |s| - w
  {
    seq(|s| - w, j requires 0 <= j < |s| - w => Closed(s[Up(j, i, w)], i, w))
  }

  lemma DroppedAt(s: seq<Span>, i: int, w: int, j: int)
    requires 0 <= i < i + w <= |s| && 0 <= j < |s| - w
    ensures At(Dropped(s, i, w), j) == Closed(At(s, Up(j, i, w)), i, w)
  {
  }

  lemma DroppedIsPartition(s: seq<Span>, i: int, w: int)
    requires Partition(s) && 0 <= i < i + w <= |s|
    ensures Partition(Dropped(s, i, w))
  {
    var t := Dropped(s, i, w);
    forall j | 0 <= j < |t| ensures Covers(t, j) {
      DroppedAt(s, i, w, j);
      assert Covers(s, Up(j, i, w));
      forall k | At(t, j).lo <= k <= At(t, j).hi ensures At(t, k) == At(t, j) {
        DroppedAt(s, i, w, k);
        assert Covers(s, Up(k, i, w));
      }
    }
  }
}
