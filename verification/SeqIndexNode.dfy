/**
 * Circular doubly linked lists of nodes. A world is all the lists at hand, each starting with its
 * header; while nodes are on their way from one list to another they are an open chain, the last of the world.
 */
module SeqIndexNode {

  class Node {
    const value: int
    var prior: Node
    var next: Node

    constructor (v: int)
      ensures value == v && prior == this && next == this
    {
      value := v;
      prior, next := this, this;
    }
  }

  type World = seq<seq<Node>>

  ghost predicate Place(w: World, k: int, i: int) {
    0 <= k < |w| && 0 <= i < |w[k]|
  }

  ghost predicate Known(w: World, nodes: set<Node>, k: int, i: int)
    requires Place(w, k, i)
  {
    w[k][i] in nodes
  }

  // Different places hold different nodes.
  ghost predicate Apart(w: World, k: int, i: int, l: int, j: int)
    requires Place(w, k, i) && Place(w, l, j)
  {
    (k, i) != (l, j) ==> w[k][i] != w[l][j]
  }

  function Succ(n: int, i: int): int {
    if i + 1 == n then 0 else i + 1
  }

  function Pred(n: int, i: int): int {
    if i == 0 then n - 1 else i - 1
  }

  // The node at a place and the one after it point at each other.
  ghost predicate EdgeOk(w: World, nodes: set<Node>, k: int, i: int)
    requires Place(w, k, i) && Known(w, nodes, k, i) && Known(w, nodes, k, Succ(|w[k]|, i))
    reads nodes
  {
    && w[k][i].next == w[k][Succ(|w[k]|, i)]
    && w[k][Succ(|w[k]|, i)].prior == w[k][i]
  }

  ghost predicate Proper(w: World, nodes: set<Node>) {
    && (forall k, i {:trigger Known(w, nodes, k, i)} | Place(w, k, i) :: Known(w, nodes, k, i))
    && (forall k, i, l, j {:trigger Apart(w, k, i, l, j)} | Place(w, k, i) && Place(w, l, j) :: Apart(w, k, i, l, j))
  }

  // The lists of w are linked; the last one is only a chain when it is open.
  ghost predicate Linked(w: World, nodes: set<Node>, open: bool)
    reads nodes
  {
    && Proper(w, nodes)
    && (forall k, i {:trigger EdgeOk(w, nodes, k, i)} | Place(w, k, i) && (open && k == |w| - 1 ==> i < |w[k]| - 1) ::
      EdgeOk(w, nodes, k, i))
  }

  /* Cutting out */

  function Without<T>(r: seq<T>, i: int, j: int): (s: seq<T>)
    requires 0 <= i <= j <= |r|
    ensures |s| == |r| - (j - i)
  {
    r[..i] + r[j..]
  }

  ghost function CutWorld(w: World, c: int, i: int, j: int): (v: World)
    requires 0 <= c < |w| && 0 < i < j <= |w[c]|
    ensures |v| == |w| + 1
  {
    w[c := Without(w[c], i, j)] + [w[c][i..j]]
  }

  // Where the node at a place of the cut world was.
  function CutRing(n: int, c: int, k: int): int {
    if k == n then c else k
  }

  function CutIndex(n: int, c: int, i: int, j: int, k: int, m: int): int {
    if k == n then i + m else if k == c && i <= m then m + (j - i) else m
  }

  lemma CutAt(w: World, c: int, i: int, j: int, k: int, m: int)
    requires 0 <= c < |w| && 0 < i < j <= |w[c]| && Place(CutWorld(w, c, i, j), k, m)
    ensures Place(w, CutRing(|w|, c, k), CutIndex(|w|, c, i, j, k, m))
    ensures CutWorld(w, c, i, j)[k][m] == w[CutRing(|w|, c, k)][CutIndex(|w|, c, i, j, k, m)]
    ensures |CutWorld(w, c, i, j)[k]| == if k == |w| then j - i else if k == c then |w[c]| - (j - i) else |w[k]|
  {
  }

  // The nodes from x up to y are taken out of ring c, where they are those from i up to j.
  method Cut(ghost w: World, ghost nodes: set<Node>, ghost c: int, ghost i: int, ghost j: int, x: Node, y: Node)
    requires Linked(w, nodes, false) && 0 <= c < |w| && 0 < i < j <= |w[c]|
    requires x == w[c][i] && y == w[c][if j == |w[c]| then 0 else j]
    modifies nodes
    ensures Linked(CutWorld(w, c, i, j), nodes, true)
  {
    ghost var v := CutWorld(w, c, i, j);
    ghost var q := if j == |w[c]| then 0 else j;
    assert Known(w, nodes, c, i) && Known(w, nodes, c, q) && Known(w, nodes, c, i - 1) && Known(w, nodes, c, j - 1);
    assert EdgeOk(w, nodes, c, i - 1) && EdgeOk(w, nodes, c, j - 1);
    x.prior.next := y;
    y.prior := x.prior;
    forall k, m | Place(v, k, m) ensures Known(v, nodes, k, m) {
      CutAt(w, c, i, j, k, m);
      assert Known(w, nodes, CutRing(|w|, c, k), CutIndex(|w|, c, i, j, k, m));
    }
    forall k, m, l, p | Place(v, k, m) && Place(v, l, p) ensures Apart(v, k, m, l, p) {
      CutAt(w, c, i, j, k, m);
      CutAt(w, c, i, j, l, p);
      assert Apart(w, CutRing(|w|, c, k), CutIndex(|w|, c, i, j, k, m), CutRing(|w|, c, l),
        CutIndex(|w|, c, i, j, l, p));
    }
    forall k, m | Place(v, k, m) && (k == |v| - 1 ==> m < |v[k]| - 1) ensures EdgeOk(v, nodes, k, m) {
      CutAt(w, c, i, j, k, m);
      CutAt(w, c, i, j, k, Succ(|v[k]|, m));
      var a, b := CutRing(|w|, c, k), CutIndex(|w|, c, i, j, k, m);
      assert old(EdgeOk(w, nodes, a, b));
      assert Apart(w, a, b, c, i - 1) && Apart(w, a, Succ(|w[a]|, b), c, q);
    }
  }

  /* Pasting in */

  function Put<T>(r: seq<T>, k: int, m: seq<T>): (s: seq<T>)
    requires 0 <= k <= |r|
    ensures |s| == |r| + |m|
  {
    r[..k] + m + r[k..]
  }

  // The index before which a chain goes that goes before the node at index k: the end, when that is the header.
  function Gap(n: int, k: int): int {
    if k == 0 then n else k
  }

  ghost function PasteWorld(w: World, d: int, k: int): (v: World)
    requires 0 <= d < |w| - 1 && 0 <= k < |w[d]|
    ensures |v| == |w| - 1
  {
    w[..|w| - 1][d := Put(w[d], Gap(|w[d]|, k), w[|w| - 1])]
  }

  // Where the node at a place of the pasted world was: len is the length of the chain, g the gap, n the last ring.
  function PasteRing(n: int, d: int, g: int, len: int, k: int, m: int): int {
    if k == d && g <= m < g + len then n else k
  }

  function PasteIndex(d: int, g: int, len: int, k: int, m: int): int {
    if k != d || m < g then m else if m < g + len then m - g else m - len
  }

  lemma PasteAt(w: World, d: int, k: int, a: int, m: int)
    requires 0 <= d < |w| - 1 && 0 <= k < |w[d]| && Place(PasteWorld(w, d, k), a, m)
    ensures var n := |w| - 1; var g, len := Gap(|w[d]|, k), |w[n]|;
      && Place(w, PasteRing(n, d, g, len, a, m), PasteIndex(d, g, len, a, m))
      && PasteWorld(w, d, k)[a][m] == w[PasteRing(n, d, g, len, a, m)][PasteIndex(d, g, len, a, m)]
      && |PasteWorld(w, d, k)[a]| == if a == d then |w[d]| + len else |w[a]|
  {
  }

  // The chain from x to z goes before position, the node at index k of ring d.
  method Paste(ghost w: World, ghost nodes: set<Node>, ghost d: int, ghost k: int, position: Node, x: Node, z: Node)
    requires |w| > 0 && Linked(w, nodes, true) && 0 <= d < |w| - 1 && 0 <= k < |w[d]| && position == w[d][k]
    requires |w[|w| - 1]| > 0 && x == w[|w| - 1][0] && z == w[|w| - 1][|w[|w| - 1]| - 1]
    modifies nodes
    ensures Linked(PasteWorld(w, d, k), nodes, false)
  {
    ghost var v := PasteWorld(w, d, k);
    ghost var n := |w| - 1;
    ghost var g, len := Gap(|w[d]|, k), |w[n]|;
    assert Known(w, nodes, d, k) && Known(w, nodes, d, g - 1) && Known(w, nodes, n, 0) && Known(w, nodes, n, len - 1);
    assert EdgeOk(w, nodes, d, g - 1);
    assert Apart(w, d, k, n, 0) && Apart(w, d, k, n, len - 1) && Apart(w, d, g - 1, n, 0)
      && Apart(w, d, g - 1, n, len - 1);
    x.prior := position.prior;
    z.next := position;
    x.prior.next := x;
    z.next.prior := z;
    forall a, m | Place(v, a, m) ensures Known(v, nodes, a, m) {
      PasteAt(w, d, k, a, m);
      assert Known(w, nodes, PasteRing(n, d, g, len, a, m), PasteIndex(d, g, len, a, m));
    }
    forall a, m, b, p | Place(v, a, m) && Place(v, b, p) ensures Apart(v, a, m, b, p) {
      PasteAt(w, d, k, a, m);
      PasteAt(w, d, k, b, p);
      assert Apart(w, PasteRing(n, d, g, len, a, m), PasteIndex(d, g, len, a, m), PasteRing(n, d, g, len, b, p),
        PasteIndex(d, g, len, b, p));
    }
    forall a, m | Place(v, a, m) ensures EdgeOk(v, nodes, a, m) {
      PasteAt(w, d, k, a, m);
      PasteAt(w, d, k, a, Succ(|v[a]|, m));
      var b, p := PasteRing(n, d, g, len, a, m), PasteIndex(d, g, len, a, m);
      var q := Succ(|w[b]|, p);
      if b != n || p != len - 1 { assert old(EdgeOk(w, nodes, b, p)); }
      assert Apart(w, b, p, d, g - 1) && Apart(w, b, p, n, len - 1);
      assert Apart(w, b, q, d, k) && Apart(w, b, q, n, 0);
    }
  }

  /* Relinking */

  // Index in its ring of the node at index k of ring d, when those from i to j of ring c are out.
  function Left(c: int, i: int, j: int, d: int, k: int): int {
    if d == c && j <= k then k - (j - i) else k
  }

  // The nodes from i to j of ring c go before the node at index k of ring d, which is not one of them.
  ghost function RelinkWorld(w: World, c: int, i: int, j: int, d: int, k: int): (v: World)
    requires 0 <= c < |w| && 0 < i <= j <= |w[c]| && Place(w, d, k) && (d == c ==> k < i || j <= k)
    ensures |v| == |w|
  {
    if i == j then w else PasteWorld(CutWorld(w, c, i, j), d, Left(c, i, j, d, k))
  }

  lemma RelinkWorldIs(w: World, c: int, i: int, j: int, d: int, k: int)
    requires 0 <= c < |w| && 0 < i <= j <= |w[c]| && Place(w, d, k) && (d == c ==> k < i || j <= k)
    ensures c != d ==>
      RelinkWorld(w, c, i, j, d, k) == w[c := Without(w[c], i, j)][d := Put(w[d], Gap(|w[d]|, k), w[c][i..j])]
    ensures c == d ==>
      RelinkWorld(w, c, i, j, d, k) ==
      w[c := Put(Without(w[c], i, j), Gap(|w[c]| - (j - i), Left(c, i, j, c, k)), w[c][i..j])]
  {
    if i == j {
      assert Without(w[c], i, j) == w[c] && w[c][i..j] == [];
      assert Put(w[d], Gap(|w[d]|, k), []) == w[d];
    } else {
      var u := CutWorld(w, c, i, j);
      assert u[..|w|] == w[c := Without(w[c], i, j)];
      assert u[d] == if c == d then Without(w[c], i, j) else w[d];
    }
  }

  method RelinkRange(ghost w: World, ghost nodes: set<Node>, ghost c: int, ghost i: int, ghost j: int, ghost d: int,
      ghost k: int, position: Node, x: Node, y: Node)
    requires Linked(w, nodes, false) && 0 <= c < |w| && 0 < i <= j <= |w[c]|
    requires Place(w, d, k) && (d == c ==> k < i || j <= k) && position == w[d][k]
    requires x == w[c][if i == |w[c]| then 0 else i] && y == w[c][if j == |w[c]| then 0 else j]
    modifies nodes
    ensures Linked(RelinkWorld(w, c, i, j, d, k), nodes, false)
  {
    assert Apart(w, c, if i == |w[c]| then 0 else i, c, if j == |w[c]| then 0 else j);
    if x != y {
      assert EdgeOk(w, nodes, c, j - 1);
      var z := y.prior;
      Cut(w, nodes, c, i, j, x, y);
      Paste(CutWorld(w, c, i, j), nodes, d, Left(c, i, j, d, k), position, x, z);
    }
  }

  method Relink(ghost w: World, ghost nodes: set<Node>, ghost c: int, ghost i: int, ghost d: int, ghost k: int,
      position: Node, x: Node)
    requires Linked(w, nodes, false) && 0 <= c < |w| && 0 < i < |w[c]| && x == w[c][i]
    requires Place(w, d, k) && (d, k) != (c, i) && position == w[d][k]
    modifies nodes
    ensures Linked(RelinkWorld(w, c, i, i + 1, d, k), nodes, false)
  {
    assert EdgeOk(w, nodes, c, i);
    Cut(w, nodes, c, i, i + 1, x, x.next);
    Paste(CutWorld(w, c, i, i + 1), nodes, d, Left(c, i, i + 1, d, k), position, x, x);
  }

  // A node that is in no list goes to the end of list d.
  method Link(ghost w: World, ghost nodes: set<Node>, ghost d: int, x: Node, header: Node)
    requires Linked(w, nodes, false) && 0 <= d < |w| && |w[d]| > 0 && header == w[d][0] && x !in nodes
    modifies nodes, x
    ensures Linked(w[d := w[d] + [x]], nodes + {x}, false)
  {
    ghost var u := w + [[x]];
    forall k, i | Place(u, k, i) ensures Known(u, nodes + {x}, k, i) {
      assert k < |w| ==> Known(w, nodes, k, i);
    }
    forall k, i, l, j | Place(u, k, i) && Place(u, l, j) ensures Apart(u, k, i, l, j) {
      assert k < |w| && l < |w| ==> Apart(w, k, i, l, j);
      assert k < |w| ==> Known(w, nodes, k, i);
      assert l < |w| ==> Known(w, nodes, l, j);
    }
    forall k, i | Place(u, k, i) && (k == |u| - 1 ==> i < |u[k]| - 1) ensures EdgeOk(u, nodes + {x}, k, i) {
      assert EdgeOk(w, nodes, k, i);
    }
    Paste(u, nodes + {x}, d, 0, header, x, x);
    assert u[..|w|] == w && Put(w[d], |w[d]|, [x]) == w[d] + [x];
  }

  // A node leaves its list.
  method Unlink(ghost w: World, ghost nodes: set<Node>, ghost c: int, ghost i: int, x: Node)
    requires Linked(w, nodes, false) && 0 <= c < |w| && 0 < i < |w[c]| && x == w[c][i]
    modifies nodes
    ensures Linked(w[c := Without(w[c], i, i + 1)], nodes, false)
  {
    assert EdgeOk(w, nodes, c, i);
    Cut(w, nodes, c, i, i + 1, x, x.next);
    ghost var u, v := CutWorld(w, c, i, i + 1), w[c := Without(w[c], i, i + 1)];
    assert forall k {:trigger v[k]} | 0 <= k < |v| :: v[k] == u[k];
    forall k, m | Place(v, k, m) ensures Known(v, nodes, k, m) {
      assert Known(u, nodes, k, m);
    }
    forall k, m, l, p | Place(v, k, m) && Place(v, l, p) ensures Apart(v, k, m, l, p) {
      assert Apart(u, k, m, l, p);
    }
    forall k, m | Place(v, k, m) ensures EdgeOk(v, nodes, k, m) {
      assert EdgeOk(u, nodes, k, m);
    }
  }

  /* Swapping */

  ghost function SwapWorld(w: World, a: int, b: int): (v: World)
    requires 0 <= a < |w| && 0 <= b < |w| && |w[a]| > 0 && |w[b]| > 0
    ensures |v| == |w|
  {
    w[a := [w[a][0]] + w[b][1..]][b := [w[b][0]] + w[a][1..]]
  }

  function SwapRing(a: int, b: int, k: int, m: int): int {
    if m == 0 then k else if k == a then b else if k == b then a else k
  }

  lemma SwapAt(w: World, a: int, b: int, k: int, m: int)
    requires 0 <= a < |w| && 0 <= b < |w| && a != b && |w[a]| > 0 && |w[b]| > 0 && Place(SwapWorld(w, a, b), k, m)
    ensures Place(w, SwapRing(a, b, k, m), m) && SwapWorld(w, a, b)[k][m] == w[SwapRing(a, b, k, m)][m]
    ensures |SwapWorld(w, a, b)[k]| == |w[if k == a then b else if k == b then a else k]|
  {
  }

  lemma SwapIsProper(w: World, nodes: set<Node>, a: int, b: int)
    requires Proper(w, nodes) && 0 <= a < |w| && 0 <= b < |w| && a != b && |w[a]| > 0 && |w[b]| > 0
    ensures Proper(SwapWorld(w, a, b), nodes)
  {
    var v := SwapWorld(w, a, b);
    forall k, i | Place(v, k, i) ensures Known(v, nodes, k, i) {
      SwapAt(w, a, b, k, i);
      assert Known(w, nodes, SwapRing(a, b, k, i), i);
    }
    forall k, i, l, j | Place(v, k, i) && Place(v, l, j) ensures Apart(v, k, i, l, j) {
      SwapAt(w, a, b, k, i);
      SwapAt(w, a, b, l, j);
      assert Apart(w, SwapRing(a, b, k, i), i, SwapRing(a, b, l, j), j);
    }
  }

  // An edge of the swapped lists that does not touch the headers was there before.
  lemma SwapEdge(w: World, a: int, b: int, k: int, i: int)
    requires 0 <= a < |w| && 0 <= b < |w| && a != b && |w[a]| > 0 && |w[b]| > 0 && Place(SwapWorld(w, a, b), k, i)
    ensures var v := SwapWorld(w, a, b); var s := Succ(|v[k]|, i); var c := if k == a then b else if k == b then a
      else k;
      && |v[k]| == |w[c]|
      && v[k][i] == (if i == 0 then w[k][0] else w[c][i])
      && v[k][s] == (if s == 0 then w[k][0] else w[c][s])
  {
  }

  // The list of y goes to the header x, which has none.
  method SwapInto(ghost w: World, ghost nodes: set<Node>, ghost a: int, ghost b: int, x: Node, y: Node)
    requires Linked(w, nodes, false) && 0 <= a < |w| && 0 <= b < |w| && a != b && |w[a]| == 1 && |w[b]| > 1
    requires x == w[a][0] && y == w[b][0]
    modifies nodes
    ensures Linked(SwapWorld(w, a, b), nodes, false)
  {
    ghost var v, m := SwapWorld(w, a, b), |w[b]|;
    assert EdgeOk(w, nodes, b, 0) && EdgeOk(w, nodes, b, m - 1);
    assert Known(w, nodes, a, 0) && Known(w, nodes, b, 0) && Known(w, nodes, b, m - 1) && Known(w, nodes, b, 1);
    assert Apart(w, a, 0, b, 0) && Apart(w, b, 0, b, 1) && Apart(w, b, 0, b, m - 1);
    assert Apart(w, a, 0, b, 1) && Apart(w, a, 0, b, m - 1);
    x.next := y.next;
    x.prior := y.prior;
    y.prior := y;
    y.next := y;
    x.prior.next := x;
    x.next.prior := x;
    SwapIsProper(w, nodes, a, b);
    forall k, i | Place(v, k, i)
      ensures Known(v, nodes, k, i) && Known(v, nodes, k, Succ(|v[k]|, i)) && EdgeOk(v, nodes, k, i)
    {
      assert Known(v, nodes, k, i) && Known(v, nodes, k, Succ(|v[k]|, i));
      SwapEdge(w, a, b, k, i);
      var c := if k == a then b else if k == b then a else k;
      var s := Succ(|w[c]|, i);
      assert old(EdgeOk(w, nodes, c, i));
      assert Apart(w, c, i, a, 0) && Apart(w, c, i, b, 0) && Apart(w, c, i, b, m - 1);
      assert Apart(w, c, s, a, 0) && Apart(w, c, s, b, 0) && Apart(w, c, s, b, 1);
    }
  }

  // The headers x of list a and y of list b exchange their lists.
  method Swap(ghost w: World, ghost nodes: set<Node>, ghost a: int, ghost b: int, x: Node, y: Node)
    requires Linked(w, nodes, false) && 0 <= a < |w| && 0 <= b < |w| && a != b && |w[a]| > 0 && |w[b]| > 0
    requires x == w[a][0] && y == w[b][0]
    modifies nodes
    ensures Linked(SwapWorld(w, a, b), nodes, false)
  {
    assert EdgeOk(w, nodes, a, 0) && EdgeOk(w, nodes, b, 0);
    assert Apart(w, a, 0, a, Succ(|w[a]|, 0)) && Apart(w, b, 0, b, Succ(|w[b]|, 0));
    if x.next != x {
      if y.next != y {
        SwapBoth(w, nodes, a, b, x, y);
      } else {
        SwapInto(w, nodes, b, a, y, x);
        assert SwapWorld(w, a, b) == SwapWorld(w, b, a);
      }
    } else if y.next != y {
      SwapInto(w, nodes, a, b, x, y);
    } else {
      assert [w[a][0]] + w[b][1..] == w[a] && [w[b][0]] + w[a][1..] == w[b];
      assert SwapWorld(w, a, b) == w;
    }
  }

  method SwapBoth(ghost w: World, ghost nodes: set<Node>, ghost a: int, ghost b: int, x: Node, y: Node)
    requires Linked(w, nodes, false) && 0 <= a < |w| && 0 <= b < |w| && a != b && |w[a]| > 1 && |w[b]| > 1
    requires x == w[a][0] && y == w[b][0]
    modifies nodes
    ensures Linked(SwapWorld(w, a, b), nodes, false)
  {
    ghost var v, n, m := SwapWorld(w, a, b), |w[a]|, |w[b]|;
    assert EdgeOk(w, nodes, a, 0) && EdgeOk(w, nodes, a, n - 1) && EdgeOk(w, nodes, b, 0) && EdgeOk(w, nodes, b, m - 1);
    assert Known(w, nodes, a, 0) && Known(w, nodes, a, n - 1) && Known(w, nodes, a, 1);
    assert Known(w, nodes, b, 0) && Known(w, nodes, b, m - 1) && Known(w, nodes, b, 1);
    assert Apart(w, a, 0, b, 0) && Apart(w, a, 0, a, 1) && Apart(w, b, 0, b, 1);
    assert Apart(w, a, 0, a, n - 1) && Apart(w, a, 0, b, 1) && Apart(w, a, 0, b, m - 1);
    assert Apart(w, b, 0, b, m - 1) && Apart(w, b, 0, a, 1) && Apart(w, b, 0, a, n - 1);
    x.next, y.next := y.next, x.next;
    x.prior, y.prior := y.prior, x.prior;
    x.prior.next := x;
    x.next.prior := x;
    y.prior.next := y;
    y.next.prior := y;
    SwapIsProper(w, nodes, a, b);
    forall k, i | Place(v, k, i)
      ensures Known(v, nodes, k, i) && Known(v, nodes, k, Succ(|v[k]|, i)) && EdgeOk(v, nodes, k, i)
    {
      assert Known(v, nodes, k, i) && Known(v, nodes, k, Succ(|v[k]|, i));
      SwapEdge(w, a, b, k, i);
      var c := if k == a then b else if k == b then a else k;
      var s := Succ(|w[c]|, i);
      assert old(EdgeOk(w, nodes, c, i));
      assert Apart(w, c, i, a, 0) && Apart(w, c, i, b, 0) && Apart(w, c, i, a, n - 1) && Apart(w, c, i, b, m - 1);
      assert Apart(w, c, s, a, 0) && Apart(w, c, s, b, 0) && Apart(w, c, s, a, 1) && Apart(w, c, s, b, 1);
      assert Apart(w, a, n - 1, b, m - 1) && Apart(w, a, 1, b, 1);
    }
  }

  /* Reversing */

  // The list with its header first and the others in opposite order.
  ghost function Reversed(r: seq<Node>): (s: seq<Node>)
    ensures |s| == |r|
  {
    seq(|r|, i requires 0 <= i < |r| => r[if i == 0 then 0 else |r| - i])
  }

  // The node at a place has its pointers exchanged when it is one of the first p.
  ghost predicate NodeOk(w: World, nodes: set<Node>, c: int, p: int, i: int)
    requires Place(w, c, i)
    reads nodes
  {
    var before, after := w[c][Pred(|w[c]|, i)], w[c][Succ(|w[c]|, i)];
    && Known(w, nodes, c, i)
    && w[c][i].next == (if i < p then before else after)
    && w[c][i].prior == (if i < p then after else before)
  }

  // The first p nodes of list c have been turned, and nothing else.
  ghost predicate Turned(w: World, nodes: set<Node>, c: int, p: int)
    requires 0 <= c < |w|
    reads nodes
  {
    && Proper(w, nodes)
    && (forall k, i {:trigger EdgeOk(w, nodes, k, i)} | Place(w, k, i) && k != c :: EdgeOk(w, nodes, k, i))
    && (forall i {:trigger NodeOk(w, nodes, c, p, i)} | 0 <= i < |w[c]| :: NodeOk(w, nodes, c, p, i))
  }

  method Turn(ghost w: World, ghost nodes: set<Node>, ghost c: int, ghost p: int, x: Node)
    requires 0 <= c < |w| && 0 <= p < |w[c]| && x == w[c][p] && Turned(w, nodes, c, p)
    modifies nodes
    ensures Turned(w, nodes, c, p + 1)
  {
    assert NodeOk(w, nodes, c, p, p);
    x.prior, x.next := x.next, x.prior;
    forall k, i | Place(w, k, i) && k != c ensures EdgeOk(w, nodes, k, i) {
      assert old(EdgeOk(w, nodes, k, i));
      assert Apart(w, k, i, c, p) && Apart(w, k, Succ(|w[k]|, i), c, p);
    }
    ghost var q := p + 1;
    forall i | 0 <= i < |w[c]| ensures NodeOk(w, nodes, c, q, i) {
      assert old(NodeOk(w, nodes, c, p, i)) && Apart(w, c, i, c, p);
    }
  }

  lemma ReversedAt(w: World, c: int, k: int, m: int)
    requires 0 <= c < |w| && Place(w[c := Reversed(w[c])], k, m)
    ensures Place(w, k, if k == c && m > 0 then |w[c]| - m else m)
    ensures w[c := Reversed(w[c])][k][m] == w[k][if k == c && m > 0 then |w[c]| - m else m]
    ensures |w[c := Reversed(w[c])][k]| == |w[k]|
  {
  }

  lemma TurnedIsReversed(w: World, nodes: set<Node>, c: int)
    requires 0 <= c < |w| && Turned(w, nodes, c, |w[c]|)
    ensures Linked(w[c := Reversed(w[c])], nodes, false)
  {
    var v, n := w[c := Reversed(w[c])], |w[c]|;
    forall k, i | Place(v, k, i) ensures Known(v, nodes, k, i) {
      ReversedAt(w, c, k, i);
      assert Known(w, nodes, k, if k == c && i > 0 then n - i else i);
    }
    forall k, i, l, j | Place(v, k, i) && Place(v, l, j) ensures Apart(v, k, i, l, j) {
      ReversedAt(w, c, k, i);
      ReversedAt(w, c, l, j);
      assert Apart(w, k, if k == c && i > 0 then n - i else i, l, if l == c && j > 0 then n - j else j);
    }
    forall k, i | Place(v, k, i) ensures EdgeOk(v, nodes, k, i) {
      ReversedAt(w, c, k, i);
      ReversedAt(w, c, k, Succ(|v[k]|, i));
      if k == c {
        assert NodeOk(w, nodes, c, n, if i > 0 then n - i else i);
        assert NodeOk(w, nodes, c, n, if Succ(n, i) > 0 then n - Succ(n, i) else 0);
      } else {
        assert EdgeOk(w, nodes, k, i);
      }
    }
  }

  method Reverse(ghost w: World, ghost nodes: set<Node>, ghost c: int, header: Node)
    requires Linked(w, nodes, false) && 0 <= c < |w| && |w[c]| > 0 && header == w[c][0]
    modifies nodes
    ensures Linked(w[c := Reversed(w[c])], nodes, false)
  {
    ghost var n := |w[c]|;
    forall i | 0 <= i < n ensures NodeOk(w, nodes, c, 0, i) {
      assert EdgeOk(w, nodes, c, i) && EdgeOk(w, nodes, c, Pred(n, i));
    }
    var x := header;
    ghost var p := 0;
    while true
      invariant 0 <= p < n && x == w[c][p] && Turned(w, nodes, c, p)
      decreases n - p
    {
      assert NodeOk(w, nodes, c, p, p);
      var y := x.next;
      Turn(w, nodes, c, p, x);
      p := p + 1;
      x := y;
      assert Apart(w, c, 0, c, Succ(n, p - 1));
      if x == header {
        break;
      }
    }
    TurnedIsReversed(w, nodes, c);
  }
}
