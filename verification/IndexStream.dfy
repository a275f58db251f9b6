/** The stream of pointers that tells a loader how to restore an order, when some of its nodes are marked as standing
    right already. */
module IndexStream {

  import opened NodeList

  // Node i is not marked.
  predicate Displaced(target: seq<int>, ordered: set<int>, i: int) {
    0 <= i < |target| && At(target, i) !in ordered
  }

  // Node i is marked and stands between two displaced ones.
  predicate Joins(target: seq<int>, ordered: set<int>, i: int) {
    && 0 <= i < |target| && At(target, i) in ordered
    && Displaced(target, ordered, i - 1) && Displaced(target, ordered, i + 1)
  }

  // Node i is one of those to be moved.
  predicate Carried(target: seq<int>, ordered: set<int>, i: int) {
    Displaced(target, ordered, i) || Joins(target, ordered, i)
  }

  // The node a run from i on goes behind; the first node of all is written for itself.
  function Lead(target: seq<int>, i: int): Pointer<int>
    requires 0 <= i < |target|
  {
    To(At(target, if i == 0 then 0 else i - 1))
  }

  // What comes before node i if it is the first of a run.
  function Opening(target: seq<int>, ordered: set<int>, i: int): seq<Pointer<int>>
    requires 0 <= i < |target|
  {
    if Carried(target, ordered, i - 1) then [] else [Lead(target, i)]
  }

  // What comes before node i if a run ends there.
  function Closing(target: seq<int>, ordered: set<int>, i: int): seq<Pointer<int>> {
    if Carried(target, ordered, i) then [] else [Null]
  }

  // What is written for node i.
  function Part(target: seq<int>, ordered: set<int>, i: int): seq<Pointer<int>>
    requires 0 <= i < |target|
  {
    if Carried(target, ordered, i)
    then Opening(target, ordered, i) + [To(At(target, i))] + Closing(target, ordered, i + 1) else []
  }

  function Parts(target: seq<int>, ordered: set<int>, i: int): seq<Pointer<int>>
    requires 0 <= i <= |target|
  {
    if i == 0 then [] else Parts(target, ordered, i - 1) + Part(target, ordered, i - 1)
  }

  function Stream(target: seq<int>, ordered: set<int>): seq<Pointer<int>> {
    Parts(target, ordered, |target|) + [Null]
  }

  /* What it consists of */

  // The nodes from a to b, in their order.
  function Pointers(target: seq<int>, a: int, b: int): (r: seq<Pointer<int>>)
    requires 0 <= a <= b <= |target|
    ensures |r| == b - a && forall i {:trigger r[i]} | 0 <= i < b - a :: r[i] == To(target[a + i])
    decreases b - a
  {
    if a == b then [] else Pointers(target, a, b - 1) + [To(target[b - 1])]
  }

  // The nodes from a to b are carried, and those around them are not.
  ghost predicate Run(target: seq<int>, ordered: set<int>, a: int, b: int) {
    && 0 <= a < b <= |target| && !Carried(target, ordered, a - 1) && !Carried(target, ordered, b)
    && forall i {:trigger Carried(target, ordered, i)} | a <= i < b :: Carried(target, ordered, i)
  }

  // A run is written once, behind the node before it, and closed by null.
  lemma RunIsWritten(target: seq<int>, ordered: set<int>, a: int, b: int)
    requires Run(target, ordered, a, b)
    ensures Parts(target, ordered, b) ==
      Parts(target, ordered, a) + [Lead(target, a)] + Pointers(target, a, b) + [Null]
  {
    RunUpto(target, ordered, a, b, b - 1);
  }

  lemma {:induction false} RunUpto(target: seq<int>, ordered: set<int>, a: int, b: int, i: int)
    requires Run(target, ordered, a, b) && a <= i < b
    ensures Parts(target, ordered, i + 1) == Parts(target, ordered, a) + [Lead(target, a)]
      + Pointers(target, a, i + 1) + (if i + 1 == b then [Null] else [])
    decreases i
  {
    var x, e := Parts(target, ordered, a) + [Lead(target, a)], if i + 1 == b then [Null] else [];
    PartInRun(target, ordered, a, b, i);
    if a < i {
      RunUpto(target, ordered, a, b, i - 1);
      Append(Parts(target, ordered, i), Part(target, ordered, i), x, Pointers(target, a, i), To(target[i]), e);
    } else {
      AppendFirst(Parts(target, ordered, a), Lead(target, a), To(target[a]), Pointers(target, a, a), e);
    }
  }

  lemma PartInRun(target: seq<int>, ordered: set<int>, a: int, b: int, i: int)
    requires Run(target, ordered, a, b) && a <= i < b
    ensures Part(target, ordered, i) ==
      (if i == a then [Lead(target, a)] else []) + [To(target[i])] + (if i + 1 == b then [Null] else [])
  {
    assert Carried(target, ordered, i);
    assert a < i ==> Carried(target, ordered, i - 1);
    assert i + 1 < b ==> Carried(target, ordered, i + 1);
  }

  lemma Append(s: seq<Pointer<int>>, t: seq<Pointer<int>>, x: seq<Pointer<int>>, y: seq<Pointer<int>>, p: Pointer<int>,
      e: seq<Pointer<int>>)
    requires s == x + y + [] && t == [] + [p] + e
    ensures s + t == x + (y + [p]) + e
  {
  }

  lemma AppendFirst(x: seq<Pointer<int>>, l: Pointer<int>, p: Pointer<int>, y: seq<Pointer<int>>, e: seq<Pointer<int>>)
    requires y == []
    ensures x + ([l] + [p] + e) == x + [l] + (y + [p]) + e
  {
  }

  // Nothing is written for nodes that are not carried.
  lemma {:induction false} NothingBetween(target: seq<int>, ordered: set<int>, a: int, b: int)
    requires 0 <= a <= b <= |target|
    requires forall i {:trigger Carried(target, ordered, i)} | a <= i < b :: !Carried(target, ordered, i)
    ensures Parts(target, ordered, b) == Parts(target, ordered, a)
    decreases b
  {
    if a < b {
      NothingBetween(target, ordered, a, b - 1);
      NothingFor(target, ordered, b - 1);
    }
  }

  lemma NothingFor(target: seq<int>, ordered: set<int>, i: int)
    requires 0 <= i < |target| && !Carried(target, ordered, i)
    ensures Parts(target, ordered, i + 1) == Parts(target, ordered, i)
  {
    var x := Parts(target, ordered, i);
    assert x + [] == x;
  }

  // Of an order that was not changed, the end is all there is to write.
  lemma AllMarked(target: seq<int>, ordered: set<int>)
    requires forall i {:trigger At(target, i)} | 0 <= i < |target| :: At(target, i) in ordered
    ensures Stream(target, ordered) == [Null]
  {
    NothingBetween(target, ordered, 0, |target|);
  }

  /* How long it is */

  function Count(p: int -> bool, n: nat): nat {
    if n == 0 then 0 else Count(p, n - 1) + if p(n - 1) then 1 else 0
  }

  // How often p begins to hold.
  function Runs(p: int -> bool, n: nat): nat {
    if n == 0 then 0 else Runs(p, n - 1) + if p(n - 1) && !p(n - 2) then 1 else 0
  }

  // Two pointers for each run besides its nodes, and the end.
  lemma StreamLength(target: seq<int>, ordered: set<int>)
    ensures var c := i => Carried(target, ordered, i);
      |Stream(target, ordered)| == Count(c, |target|) + 2 * Runs(c, |target|) + 1
  {
    PartsLength(target, ordered, i => Carried(target, ordered, i), |target|);
  }

  lemma {:induction false} PartsLength(target: seq<int>, ordered: set<int>, c: int -> bool, n: nat)
    requires n <= |target| && forall i {:trigger c(i)} :: c(i) == Carried(target, ordered, i)
    ensures |Parts(target, ordered, n)| ==
      Count(c, n) + 2 * Runs(c, n) - if c(n - 1) && c(n) then 1 else 0
    decreases n
  {
    if n > 0 {
      PartsLength(target, ordered, c, n - 1);
      var d, e := c(n - 2), c(n);
    }
  }

  // Each marked node that joins two runs makes the stream one pointer shorter than without joining.
  lemma JoiningSaves(target: seq<int>, ordered: set<int>)
    ensures var d, j := i => Displaced(target, ordered, i), i => Joins(target, ordered, i);
      |Stream(target, ordered)| + Count(j, |target|) == Count(d, |target|) + 2 * Runs(d, |target|) + 1
  {
    var c, d, j := i => Carried(target, ordered, i), i => Displaced(target, ordered, i),
      i => Joins(target, ordered, i);
    StreamLength(target, ordered);
    JoinedRuns(target, ordered, c, d, j, |target|);
    var x, y := j(|target|), j(|target| - 1);
  }

  lemma {:induction false} JoinedRuns(target: seq<int>, ordered: set<int>, c: int -> bool, d: int -> bool,
      j: int -> bool, n: nat)
    requires n <= |target| && forall i {:trigger c(i)} :: c(i) == Carried(target, ordered, i)
    requires forall i {:trigger d(i)} :: d(i) == Displaced(target, ordered, i)
    requires forall i {:trigger j(i)} :: j(i) == Joins(target, ordered, i)
    ensures Count(c, n) == Count(d, n) + Count(j, n)
    ensures Runs(d, n) == Runs(c, n) + Count(j, n) - if j(n - 1) then 1 else 0
    decreases n
  {
    if n > 0 {
      JoinedRuns(target, ordered, c, d, j, n - 1);
      var x, y := c(n - 2) && d(n - 2), j(n - 2);
    }
  }

  /* Writing it */

  // The last displaced node before node i is s nodes back, or further if s is 3 or more.
  ghost predicate Back(target: seq<int>, ordered: set<int>, i: int, s: int) {
    && s >= 1
    && (Displaced(target, ordered, i - 1) <==> s == 1)
    && (s > 1 ==> (Displaced(target, ordered, i - 2) <==> s == 2))
  }

  // What belongs to the first i nodes and is not written yet then.
  function Pending(target: seq<int>, ordered: set<int>, i: int, s: int): seq<Pointer<int>> {
    if s == 1 then (if Carried(target, ordered, i) then [] else [Null])
    else if s == 2 then (if Displaced(target, ordered, i) && i > 0 then [To(At(target, i - 1))] else [Null])
    else []
  }

  lemma WriteDisplaced(target: seq<int>, ordered: set<int>, i: int, s: int)
    requires Back(target, ordered, i, s) && Displaced(target, ordered, i)
    ensures Back(target, ordered, i + 1, 1)
    ensures Pending(target, ordered, i, s) + Part(target, ordered, i) ==
      (if s > 1 then [Lead(target, i)] else []) + [To(At(target, i))] + Pending(target, ordered, i + 1, 1)
  {
  }

  lemma WriteMarked(target: seq<int>, ordered: set<int>, i: int, s: int)
    requires Back(target, ordered, i, s) && 0 <= i < |target| && At(target, i) in ordered
    ensures Back(target, ordered, i + 1, s + 1)
    ensures Pending(target, ordered, i, s) + Part(target, ordered, i) ==
      (if s == 2 then [Null] else []) + Pending(target, ordered, i + 1, s + 1)
  {
  }
}
