/** The red-black tree of an ordered index, its nodes linked in place. Ghost fields give every node its place in the
    order and the interval its subtree covers, so that each step is checked node by node. */
module OrdIndexNode {

  import opened Powers

  datatype Color = Red | Black

  datatype Side = ToLeft | ToRight {
    function Opp(): Side {
      if this == ToLeft then ToRight else ToLeft
    }
  }

  class Node {
    var value: int
    var color: Color
    var parent: Node?
    var left: Node?
    var right: Node?
    var size: int
    ghost var pos: int
    ghost var lo: int
    ghost var hi: int
    ghost var bh: int

    constructor (v: int)
      ensures value == v
    {
      value := v;
    }
  }

  function Child(n: Node, s: Side): Node?
    reads n`left, n`right
  {
    if s == ToLeft then n.left else n.right
  }

  function Weight(c: Color): int {
    if c == Black then 1 else 0
  }

  ghost function BH(n: Node?): int
    reads n
  {
    if n == null then 0 else n.bh
  }

  predicate IsBlack(n: Node?)
    reads n
  {
    n == null || n.color == Black
  }

  function SizeOf(n: Node?): int
    reads n
  {
    if n == null then 0 else n.size
  }

  // Binary trees with coloured nodes, as values: what the pointers stand for.
  datatype Shape = Nil | Fork(left: Shape, node: Node, color: Color, right: Shape)

  ghost function Inorder(t: Shape): seq<Node> {
    match t
    case Nil => []
    case Fork(l, n, _, r) => Inorder(l) + [n] + Inorder(r)
  }

  // The number of black nodes on the leftmost path.
  ghost function BlackHeight(t: Shape): nat {
    match t
    case Nil => 0
    case Fork(l, _, c, _) => BlackHeight(l) + Weight(c)
  }

  ghost function RootColor(t: Shape): Color {
    if t == Nil then Black else t.color
  }

  // All paths down have the same number of black nodes and no red node has a red child.
  ghost predicate RedBlack(t: Shape) {
    match t
    case Nil => true
    case Fork(l, _, c, r) =>
      && RedBlack(l) && RedBlack(r) && BlackHeight(l) == BlackHeight(r)
      && (c == Red ==> RootColor(l) == Black && RootColor(r) == Black)
  }

  ghost function Height(t: Shape): nat {
    match t
    case Nil => 0
    case Fork(l, _, _, r) => 1 + if Height(l) < Height(r) then Height(r) else Height(l)
  }

  // A red-black tree of n nodes is at most 2 * log2(n + 1) high.
  lemma {:induction false} RedBlackIsShallow(t: Shape)
    requires RedBlack(t)
    ensures Height(t) <= 2 * BlackHeight(t) + if RootColor(t) == Red then 1 else 0
    ensures Pow2(BlackHeight(t)) <= |Inorder(t)| + 1
  {
    match t
    case Nil =>
    case Fork(l, _, _, r) =>
      RedBlackIsShallow(l);
      RedBlackIsShallow(r);
  }

  // Indexing as a function, so that only deliberate mentions instantiate what is known of an order.
  ghost function At(s: seq<Node>, i: int): Node
    requires 0 <= i < |s|
  {
    s[i]
  }

  lemma SplitAround(s: seq<Node>, lo: int, p: int, hi: int)
    requires 0 <= lo <= p < hi <= |s|
    ensures s[lo..hi] == s[lo..p] + [s[p]] + s[p + 1..hi]
  {
  }

  class Tree {
    const header: Node
    ghost var nodes: set<Node>
    ghost var order: seq<Node>

    // The empty tree: the header is red, has no root, and is its own leftmost and rightmost node.
    constructor (h: Node)
      modifies h
      ensures Valid() && header == h && nodes == {} && order == []
    {
      header := h;
      nodes, order := {}, [];
      new;
      h.color := Red;
      h.parent := null;
      h.left := h;
      h.right := h;
    }

    // nodes and order agree; pos is the place of a node in the order.
    ghost predicate Indexed()
      reads this, nodes`pos
    {
      && header !in nodes
      && (forall n <- nodes :: 0 <= n.pos < |order| && At(order, n.pos) == n)
      && (forall i {:trigger At(order, i)} | 0 <= i < |order| :: At(order, i) in nodes && At(order, i).pos == i)
    }

    ghost predicate LeftOk(n: Node)
      reads this, nodes`parent, nodes`lo, nodes`hi, n`left, n`lo, n`pos
    {
      && (n.left == null ==> n.lo == n.pos)
      && (n.left != null ==> n.left in nodes && n.left.parent == n && n.left.lo == n.lo && n.left.hi == n.pos)
    }

    ghost predicate RightOk(n: Node)
      reads this, nodes`parent, nodes`lo, nodes`hi, n`right, n`hi, n`pos
    {
      && (n.right == null ==> n.hi == n.pos + 1)
      && (n.right != null ==> n.right in nodes && n.right.parent == n && n.right.lo == n.pos + 1 && n.right.hi == n.hi)
    }

    ghost predicate UpOk(n: Node)
      reads this, header`parent, nodes`left, nodes`right, n`parent, n`lo, n`hi
    {
      && (n.parent == header ==> header.parent == n && n.lo == 0 && n.hi == |order|)
      && (n.parent != header ==> n.parent != null && n.parent in nodes && (n.parent.left == n || n.parent.right == n))
    }

    ghost predicate Spans()
      reads this, nodes`pos, nodes`lo, nodes`hi
    {
      Indexed() && forall n <- nodes :: 0 <= n.lo <= n.pos < n.hi <= |order|
    }

    ghost predicate Rooted()
      reads this, header`parent, nodes`parent
    {
      && (header.parent == null ==> order == [])
      && (header.parent != null ==> header.parent in nodes && header.parent.parent == header)
    }

    ghost predicate AllLeft()
      reads this, nodes`parent, nodes`lo, nodes`hi, nodes`left, nodes`pos
    {
      forall n {:trigger LeftOk(n)} :: n in nodes ==> LeftOk(n)
    }

    ghost predicate AllRight()
      reads this, nodes`parent, nodes`lo, nodes`hi, nodes`right, nodes`pos
    {
      forall n {:trigger RightOk(n)} :: n in nodes ==> RightOk(n)
    }

    ghost predicate AllUp()
      reads this, header`parent, nodes`left, nodes`right, nodes`parent, nodes`lo, nodes`hi
    {
      forall n {:trigger UpOk(n)} :: n in nodes ==> UpOk(n)
    }

    ghost predicate Shape()
      reads this, header`parent, nodes`left, nodes`right, nodes`parent, nodes`lo, nodes`hi, nodes`pos
    {
      && Spans()
      && Rooted()
      && AllLeft()
      && AllRight()
      && AllUp()
    }

    ghost predicate Sized()
      reads this, nodes`size, nodes`lo, nodes`hi
    {
      forall n <- nodes :: n.size == n.hi - n.lo
    }

    lemma OnlyParentPoints(x: Node)
      requires Shape() && x in nodes
      ensures forall n <- nodes | n.left == x :: n == x.parent && n.right != x && header.parent != x
      ensures forall n <- nodes | n.right == x :: n == x.parent && n.left != x && header.parent != x
    {
      forall n <- nodes | n.left == x || n.right == x
        ensures n == x.parent && (n.left != x || n.right != x) && header.parent != x
      {
        assert LeftOk(n) && RightOk(n);
      }
    }

    // The pointer state after a rotation of x towards side s; y is the child that rises.
    twostate predicate Rotated(x: Node, new y: Node, new s: Side)
      reads this, header`parent, nodes`left, nodes`right, nodes`parent, x`left, x`right, x`parent, y`left, y`right,
        y`parent
    {
      && nodes == old(nodes) && order == old(order)
      && x in nodes && y in nodes && old(Child(x, s.Opp())) == y
      && Child(x, s) == old(Child(x, s)) && Child(x, s.Opp()) == old(Child(y, s)) && x.parent == y
      && Child(y, s) == x && Child(y, s.Opp()) == old(Child(y, s.Opp())) && y.parent == old(x.parent)
      && (forall n <- nodes | n != x && n != y ::
          && n.left == (if old(n.left) == x then y else old(n.left))
          && n.right == (if old(n.right) == x then y else old(n.right))
          && n.parent == (if n == old(Child(y, s)) then x else old(n.parent)))
      && header.parent == (if old(header.parent) == x then y else old(header.parent))
    }

    // The spans and sizes that go with a rotation.
    twostate predicate Respanned(x: Node, new y: Node, new s: Side)
      reads this, nodes, x, y, x.left, x.right
    {
      && nodes == old(nodes)
      && (forall n <- nodes :: n.pos == old(n.pos))
      && (forall n <- nodes | n != x && n != y :: n.lo == old(n.lo) && n.hi == old(n.hi) && n.size == old(n.size))
      && y.lo == old(x.lo) && y.hi == old(x.hi)
      && x.lo == (if s == ToLeft then old(x.lo) else y.pos + 1)
      && x.hi == (if s == ToLeft then y.pos else old(x.hi))
      && y.size == old(x.size) && x.size == SizeOf(x.left) + SizeOf(x.right) + 1
    }

    twostate lemma RotatedKeepsLeft(x: Node, new y: Node, new s: Side)
      requires old(Shape()) && Rotated(x, y, s) && Respanned(x, y, s)
      ensures AllLeft()
    {
      assert old(LeftOk(x)) && old(RightOk(x)) && old(UpOk(x));
      assert old(LeftOk(y)) && old(RightOk(y)) && old(UpOk(y));
      forall n <- nodes ensures LeftOk(n) {
        assert old(LeftOk(n));
      }
    }

    twostate lemma RotatedKeepsRight(x: Node, new y: Node, new s: Side)
      requires old(Shape()) && Rotated(x, y, s) && Respanned(x, y, s)
      ensures AllRight()
    {
      assert old(LeftOk(x)) && old(RightOk(x)) && old(UpOk(x));
      assert old(LeftOk(y)) && old(RightOk(y)) && old(UpOk(y));
      forall n <- nodes ensures RightOk(n) {
        assert old(RightOk(n));
      }
    }

    twostate lemma RotatedKeepsUp(x: Node, new y: Node, new s: Side)
      requires old(Shape()) && Rotated(x, y, s) && Respanned(x, y, s)
      ensures AllUp()
    {
      assert old(LeftOk(x)) && old(RightOk(x)) && old(UpOk(x));
      assert old(LeftOk(y)) && old(RightOk(y)) && old(UpOk(y));
      forall n <- nodes ensures UpOk(n) {
        assert old(UpOk(n));
      }
    }

    twostate lemma RotatedKeepsRooted(x: Node, new y: Node, new s: Side)
      requires old(Shape()) && Rotated(x, y, s) && Respanned(x, y, s)
      ensures Spans() && Rooted()
    {
      assert old(LeftOk(x)) && old(RightOk(x)) && old(UpOk(x));
      assert old(LeftOk(y)) && old(RightOk(y)) && old(UpOk(y));
    }

    twostate lemma RotatedKeepsSizes(x: Node, new y: Node, new s: Side)
      requires old(Sized()) && LeftOk(x) && RightOk(x) && Respanned(x, y, s)
      requires x in nodes && y in nodes && x.left != x && x.left != y && x.right != x && x.right != y
      ensures Sized()
    {
    }

    // Makes the link that led down to x, or the root pointer, lead to y.
    method ReplaceChild(x: Node, y: Node?)
      requires x in nodes && header !in nodes
      requires x == header.parent || (x.parent != null && x.parent in nodes)
      modifies header`parent, nodes`left, nodes`right
      ensures header.parent == if x == old(header.parent) then y else old(header.parent)
      ensures forall n <- nodes :: n.left == if x != old(header.parent) && n == x.parent && old(n.left) == x then y
        else old(n.left)
      ensures forall n <- nodes :: n.right == if x != old(header.parent) && n == x.parent && old(n.left) != x then y
        else old(n.right)
    {
      if x == header.parent {
        header.parent := y;
      } else if x == x.parent.left {
        x.parent.left := y;
      } else {
        x.parent.right := y;
      }
    }

    method SetParent(c: Node?, p: Node?)
      requires c != null ==> c in nodes
      modifies nodes`parent
      ensures forall n <- nodes :: n.parent == if n == c then p else old(n.parent)
    {
      if c != null {
        c.parent := p;
      }
    }

    method RelinkLeft(x: Node)
      requires Shape() && x in nodes && x.right != null
      modifies header`parent, nodes`parent, nodes`left, nodes`right
      ensures Rotated(x, old(x.right), ToLeft)
    {
      var y := x.right;
      assert LeftOk(x) && RightOk(x) && UpOk(x) && LeftOk(y) && RightOk(y);
      OnlyParentPoints(x);
      x.right := y.left;
      SetParent(y.left, x);
      y.parent := x.parent;
      ReplaceChild(x, y);
      y.left := x;
      x.parent := y;
    }

    method RelinkRight(x: Node)
      requires Shape() && x in nodes && x.left != null
      modifies header`parent, nodes`parent, nodes`left, nodes`right
      ensures Rotated(x, old(x.left), ToRight)
    {
      var y := x.left;
      assert LeftOk(x) && RightOk(x) && UpOk(x) && LeftOk(y) && RightOk(y);
      OnlyParentPoints(x);
      x.left := y.right;
      SetParent(y.right, x);
      y.parent := x.parent;
      ReplaceChild(x, y);
      y.right := x;
      x.parent := y;
    }

    method Resize(x: Node, y: Node, ghost s: Side)
      requires x in nodes && y in nodes && x != y && y != x.left && y != x.right && x.left != x && x.right != x
      modifies nodes`lo, nodes`hi, nodes`size
      ensures Respanned(x, y, s)
    {
      y.size := x.size;
      x.size := SizeOf(x.left) + SizeOf(x.right) + 1;
      y.lo, y.hi := x.lo, x.hi;
      if s == ToLeft { x.hi := y.pos; } else { x.lo := y.pos + 1; }
    }

    method RotateLeft(x: Node)
      requires Shape() && x in nodes && x.right != null
      modifies header`parent, nodes`parent, nodes`left, nodes`right, nodes`lo, nodes`hi, nodes`size
      ensures Rotated(x, old(x.right), ToLeft) && Respanned(x, old(x.right), ToLeft)
      ensures Shape() && (old(Sized()) ==> Sized())
    {
      var y := x.right;
      assert LeftOk(x) && RightOk(x) && LeftOk(y);
      RelinkLeft(x);
      Resize(x, y, ToLeft);
      RotatedKeepsLeft(x, y, ToLeft);
      RotatedKeepsRight(x, y, ToLeft);
      RotatedKeepsUp(x, y, ToLeft);
      RotatedKeepsRooted(x, y, ToLeft);
      assert LeftOk(x) && RightOk(x);
      if old(Sized()) { RotatedKeepsSizes(x, y, ToLeft); }
    }

    method RotateRight(x: Node)
      requires Shape() && x in nodes && x.left != null
      modifies header`parent, nodes`parent, nodes`left, nodes`right, nodes`lo, nodes`hi, nodes`size
      ensures Rotated(x, old(x.left), ToRight) && Respanned(x, old(x.left), ToRight)
      ensures Shape() && (old(Sized()) ==> Sized())
    {
      var y := x.left;
      assert LeftOk(x) && RightOk(x) && RightOk(y);
      RelinkRight(x);
      Resize(x, y, ToRight);
      RotatedKeepsLeft(x, y, ToRight);
      RotatedKeepsRight(x, y, ToRight);
      RotatedKeepsUp(x, y, ToRight);
      RotatedKeepsRooted(x, y, ToRight);
      assert LeftOk(x) && RightOk(x);
      if old(Sized()) { RotatedKeepsSizes(x, y, ToRight); }
    }

    method Rotate(x: Node, s: Side)
      requires Shape() && x in nodes && Child(x, s.Opp()) != null
      modifies header`parent, nodes`parent, nodes`left, nodes`right, nodes`lo, nodes`hi, nodes`size
      ensures Rotated(x, old(Child(x, s.Opp())), s) && Respanned(x, old(Child(x, s.Opp())), s)
      ensures Shape() && (old(Sized()) ==> Sized())
    {
      if s == ToLeft { RotateLeft(x); } else { RotateRight(x); }
    }

    // Colours.

    ghost predicate ChildrenInside(n: Node)
      reads this, n`left, n`right
    {
      (n.left != null ==> n.left in nodes) && (n.right != null ==> n.right in nodes)
    }

    ghost predicate BlackOk(n: Node)
      requires n in nodes
      reads this, nodes`color, nodes`bh, nodes`left, nodes`right
    {
      && ChildrenInside(n)
      && 0 <= n.bh
      && n.bh == (if n.left == null then 0 else n.left.bh) + Weight(n.color)
      && n.bh == (if n.right == null then 0 else n.right.bh) + Weight(n.color)
    }

    // Black heights agree everywhere but perhaps at x.
    ghost predicate AllBlack(x: Node?)
      reads this, nodes`color, nodes`bh, nodes`left, nodes`right
    {
      forall n {:trigger BlackOk(n)} :: n in nodes && n != x ==> BlackOk(n)
    }

    // n respects the red rule, the link from n to x being disregarded.
    ghost predicate RedOk(n: Node, x: Node?)
      requires n in nodes
      reads this, nodes`color, nodes`left, nodes`right
    {
      && ChildrenInside(n)
      && (n.color == Red && n.left != null && n.left != x ==> n.left.color == Black)
      && (n.color == Red && n.right != null && n.right != x ==> n.right.color == Black)
    }

    ghost predicate AllRed(x: Node?)
      reads this, nodes`color, nodes`left, nodes`right
    {
      forall n {:trigger RedOk(n, x)} :: n in nodes ==> RedOk(n, x)
    }

    // Only colours and black heights differ from the old state.
    twostate predicate SameLinks()
      reads this, nodes`left, nodes`right
    {
      nodes == old(nodes) && forall n <- nodes :: n.left == old(n.left) && n.right == old(n.right)
    }

    twostate predicate PushedUp(p: Node, new u: Node, new g: Node)
      reads this, nodes`left, nodes`right, nodes`color, nodes`bh
    {
      && SameLinks()
      && (forall n <- nodes :: n.color == if n == p || n == u then Black else if n == g then Red else old(n.color))
      && (forall n <- nodes :: n.bh == if n == p || n == u then old(n.bh) + 1 else old(n.bh))
    }

    twostate lemma PushedUpKeepsBlack(p: Node, new u: Node, new g: Node)
      requires PushedUp(p, u, g) && p in nodes && u in nodes && g in nodes && p != u
      requires old(p.color) == Red && old(u.color) == Red && old(g.color) == Black
      requires (old(g.left) == p && old(g.right) == u) || (old(g.left) == u && old(g.right) == p)
      requires forall n <- nodes | n != g :: n.left != p && n.right != p && n.left != u && n.right != u
      requires old(AllBlack(null))
      ensures AllBlack(null)
    {
      assert old(BlackOk(g));
      forall n <- nodes ensures BlackOk(n) {
        assert old(BlackOk(n));
      }
    }

    twostate lemma PushedUpKeepsRed(p: Node, new u: Node, new g: Node, new x: Node)
      requires PushedUp(p, u, g) && p in nodes && u in nodes && g in nodes && x in nodes && p != u
      requires old(x.color) == Red
      requires forall n <- nodes | n != p :: n.left != x && n.right != x
      requires (old(g.left) == p && old(g.right) == u) || (old(g.left) == u && old(g.right) == p)
      requires old(AllRed(x))
      ensures AllRed(g)
    {
      forall n <- nodes ensures RedOk(n, g) {
        assert old(RedOk(n, x));
      }
    }

    // Recolours grandparent, parent and uncle of x, all inside the tree.
    method PushUp(p: Node, u: Node, g: Node, ghost x: Node)
      requires Shape() && p in nodes && u in nodes && g in nodes && p != u && x in nodes
      requires p.parent == g && u.parent == g && p.color == Red && u.color == Red && g.color == Black
      requires x.parent == p && x.color == Red
      requires AllBlack(null) && AllRed(x)
      modifies nodes`color, nodes`bh
      ensures AllBlack(null) && AllRed(g) && g.color == Red
      ensures forall n <- nodes | n != g && old(n.color) == Black :: n.color == Black
    {
      assert UpOk(p) && UpOk(u) && UpOk(x);
      OnlyParentPoints(p);
      OnlyParentPoints(u);
      OnlyParentPoints(x);
      p.color := Black;
      u.color := Black;
      g.color := Red;
      p.bh, u.bh := p.bh + 1, u.bh + 1;
      PushedUpKeepsBlack(p, u, g);
      PushedUpKeepsRed(p, u, g, x);
    }

    // x and y exchange colours (and black heights) while y rises above x.
    twostate predicate ColorsExchanged(x: Node, new y: Node)
      reads this, nodes`color, nodes`bh
    {
      && nodes == old(nodes) && x in nodes && y in nodes
      && (forall n <- nodes :: n.color == if n == x then old(y.color) else if n == y then old(x.color)
        else old(n.color))
      && (forall n <- nodes :: n.bh == if n == x then old(y.bh) else if n == y then old(x.bh) else old(n.bh))
    }

    twostate lemma ExchangeKeepsBlack(x: Node, new y: Node, new s: Side, new e: Node?)
      requires old(Shape()) && Rotated(x, y, s) && ColorsExchanged(x, y) && x != y && e != x && e != y
      requires (e == null || e in old(nodes)) && old(y.color) == Red && old(AllBlack(e))
      ensures AllBlack(e)
    {
      assert old(BlackOk(x)) && old(BlackOk(y));
      assert old(LeftOk(x)) && old(RightOk(x)) && old(LeftOk(y)) && old(RightOk(y));
      forall n <- nodes | n != e ensures BlackOk(n) {
        assert old(BlackOk(n)) && old(LeftOk(n)) && old(RightOk(n));
      }
    }

    twostate lemma InnerRotationKeepsRed(x: Node, new y: Node, new s: Side)
      requires old(Shape()) && Rotated(x, y, s) && ColorsExchanged(x, y) && x != y
      requires old(x.color) == Red && old(y.color) == Red && old(AllRed(y))
      requires old(x.parent) in nodes && old(x.parent.color) == Black
      ensures AllRed(x)
    {
      assert old(RedOk(x, y)) && old(RedOk(y, y));
      assert old(LeftOk(x)) && old(RightOk(x)) && old(LeftOk(y)) && old(RightOk(y));
      forall n <- nodes ensures RedOk(n, x) {
        assert old(RedOk(n, y)) && old(LeftOk(n)) && old(RightOk(n));
      }
    }

    // A black node sinks below its red child; links into e are not looked at.
    twostate lemma RisingKeepsRed(x: Node, new y: Node, new s: Side, new e: Node?)
      requires old(Shape()) && Rotated(x, y, s) && ColorsExchanged(x, y) && x != y
      requires (e == null || e in old(nodes)) && old(AllRed(e))
      requires old(x.color) == Black && old(y.color) == Red
      requires old(Child(x, s)) == e || old(IsBlack(Child(x, s)))
      requires old(Child(y, s)) == null || old(Child(y, s)) != e
      ensures AllRed(e)
    {
      assert old(RedOk(x, e)) && old(RedOk(y, e));
      assert old(LeftOk(x)) && old(RightOk(x)) && old(LeftOk(y)) && old(RightOk(y));
      forall n <- nodes ensures RedOk(n, e) {
        assert old(RedOk(n, e)) && old(LeftOk(n)) && old(RightOk(n));
      }
    }

    method RotateInner(x: Node, s: Side)
      requires Shape() && AllBlack(null) && x in nodes && Child(x, s.Opp()) != null
      requires x.color == Red && Child(x, s.Opp()).color == Red && AllRed(Child(x, s.Opp()))
      requires x.parent in nodes && x.parent.color == Black
      modifies header`parent, nodes`parent, nodes`left, nodes`right, nodes`lo, nodes`hi, nodes`size
      ensures Rotated(x, old(Child(x, s.Opp())), s) && Respanned(x, old(Child(x, s.Opp())), s)
      ensures Shape() && (old(Sized()) ==> Sized())
      ensures AllBlack(null) && AllRed(x)
    {
      var y := Child(x, s.Opp());
      assert LeftOk(x) && RightOk(x) && BlackOk(x);
      Rotate(x, s);
      ExchangeKeepsBlack(x, y, s, null);
      InnerRotationKeepsRed(x, y, s);
    }

    method ExchangeColors(x: Node, y: Node)
      requires x in nodes && y in nodes && x != y
      modifies nodes`color, nodes`bh
      ensures ColorsExchanged(x, y)
    {
      x.color, y.color := y.color, x.color;
      x.bh, y.bh := y.bh, x.bh;
    }

    // y, the child of x on side s.Opp(), takes the colour and the place of x.
    method RotateExchanging(x: Node, y: Node, s: Side)
      requires Shape() && Sized() && x in nodes && Child(x, s.Opp()) == y
      modifies header`parent, nodes`parent, nodes`left, nodes`right, nodes`lo, nodes`hi, nodes`size, nodes`color,
        nodes`bh
      ensures Shape() && Sized() && Rotated(x, y, s) && Respanned(x, y, s) && ColorsExchanged(x, y) && x != y
    {
      assert LeftOk(x) && RightOk(x);
      ExchangeColors(x, y);
      Rotate(x, s);
    }

    // The grandparent g, black, exchanges colours with its red child y and sinks towards s.
    method RotateOuter(g: Node, y: Node, s: Side)
      requires Shape() && Sized() && AllBlack(null) && g in nodes && y in nodes && Child(y, s.Opp()) != null
      requires Child(g, s.Opp()) == y && IsBlack(Child(g, s))
      requires g.color == Black && y.color == Red && AllRed(Child(y, s.Opp()))
      modifies header`parent, nodes`parent, nodes`left, nodes`right, nodes`lo, nodes`hi, nodes`size, nodes`color,
        nodes`bh
      ensures Rotated(g, y, s) && ColorsExchanged(g, y) && g != y
      ensures Shape() && Sized()
      ensures AllBlack(null) && AllRed(null)
    {
      ghost var z := Child(y, s.Opp());
      assert LeftOk(y) && RightOk(y);
      RotateExchanging(g, y, s);
      ExchangeKeepsBlack(g, y, s, null);
      RisingKeepsRed(g, y, s, z);
      RedMended(z);
    }

    // What the insertion fix-up keeps: only the red rule is broken, between x and its parent.
    ghost predicate Unbalanced(x: Node)
      reads this, header`parent, nodes
    {
      && Shape() && Sized() && AllBlack(null) && AllRed(x)
      && x in nodes && x.color == Red
      && header.parent != null && (header.parent.color == Black || header.parent == x)
    }

    lemma RedWeaken(x: Node)
      requires AllRed(null)
      ensures AllRed(x)
    {
      forall n <- nodes ensures RedOk(n, x) { assert RedOk(n, null); }
    }

    lemma RedMended(x: Node)
      requires Shape() && x in nodes && AllRed(x)
      requires x == header.parent || (x.parent != null && x.parent.color == Black)
      ensures AllRed(null)
    {
      OnlyParentPoints(x);
      forall n <- nodes ensures RedOk(n, null) { assert RedOk(n, x); }
    }

    twostate lemma RisingKeepsRoot(x: Node, new y: Node, new s: Side)
      requires old(Shape()) && Rotated(x, y, s) && ColorsExchanged(x, y) && x != y
      requires old(header.parent) != null && old(header.parent.color) == Black
      ensures header.parent != null && header.parent.color == Black
    {
      assert old(LeftOk(x)) && old(RightOk(x)) && old(UpOk(y));
      if old(header.parent) != x {
        assert header.parent == old(header.parent) && header.parent != y;
      }
    }

    // The uncle of x is black: one or two rotations end the fix-up.
    method RotateAbove(x: Node, p: Node, g: Node, s: Side) returns (next: Node)
      requires Unbalanced(x) && x.parent == p && p.parent == g && p in nodes && g in nodes
      requires p.color == Red && g.color == Black && header.parent.color == Black
      requires Child(g, s) == p && IsBlack(Child(g, s.Opp()))
      modifies header`parent, nodes`parent, nodes`left, nodes`right, nodes`lo, nodes`hi, nodes`size, nodes`color,
        nodes`bh
      ensures Unbalanced(next)
      ensures next.parent != null && next.parent.color == Black
    {
      assert UpOk(x) && LeftOk(p) && RightOk(p) && LeftOk(g) && RightOk(g);
      next := x;
      var top := p;
      if x == Child(p, s.Opp()) {
        next, top := p, x;
        RotateInner(p, s);
      }
      assert LeftOk(top) && RightOk(top);
      RotateLast(next, g, top, s.Opp());
    }

    // The last rotation, above x.
    method RotateLast(x: Node, g: Node, y: Node, s: Side)
      requires Shape() && Sized() && AllBlack(null) && AllRed(x) && g in nodes && y in nodes && x in nodes
      requires Child(y, s.Opp()) == x && x.color == Red && x.parent == y
      requires Child(g, s.Opp()) == y && IsBlack(Child(g, s)) && g.color == Black && y.color == Red
      requires header.parent != null && header.parent.color == Black
      modifies header`parent, nodes`parent, nodes`left, nodes`right, nodes`lo, nodes`hi, nodes`size, nodes`color,
        nodes`bh
      ensures Unbalanced(x)
      ensures x.parent != null && x.parent.color == Black
    {
      assert LeftOk(y) && RightOk(y) && LeftOk(g) && RightOk(g);
      label L:
      RotateOuter(g, y, s);
      RisingKeepsRoot@L(g, y, s);
      RedWeaken(x);
    }

    // One turn of the insertion fix-up.
    method RebalanceStep(x: Node) returns (next: Node)
      requires Unbalanced(x) && x != header.parent && x.parent != null && x.parent.color == Red
      modifies header`parent, nodes`parent, nodes`left, nodes`right, nodes`lo, nodes`hi, nodes`size, nodes`color,
        nodes`bh
      ensures Unbalanced(next)
      ensures next.hi - next.lo > old(x.hi - x.lo) || (next.parent != null && next.parent.color == Black)
    {
      var p := x.parent;
      assert UpOk(x) && UpOk(p) && LeftOk(p) && RightOk(p) && RedOk(p.parent, x);
      var g := p.parent;
      assert LeftOk(g) && RightOk(g);
      var s := if p == g.left then ToLeft else ToRight;
      var u := Child(g, s.Opp());
      if u != null && u.color == Red {
        PushUp(p, u, g, x);
        next := g;
      } else {
        next := RotateAbove(x, p, g, s);
      }
    }

    method BlackenRoot()
      requires Shape() && header.parent != null && AllBlack(null) && AllRedBut(header.parent)
      modifies nodes`color, nodes`bh
      ensures AllBlack(null) && AllRed(null) && header.parent.color == Black
    {
      var r := header.parent;
      forall n <- nodes ensures n.left != r && n.right != r { assert LeftOk(n) && RightOk(n); }
      assert LeftOk(r) && RightOk(r);
      if r.color == Red {
        r.bh := r.bh + 1;
      }
      r.color := Black;
      forall n <- nodes ensures BlackOk(n) { assert old(BlackOk(n)); }
      forall n <- nodes ensures RedOk(n, null) { if n != r { assert old(RedOk(n, r)); } }
    }

    // x is a leaf just linked, its colour not yet set.
    ghost predicate FreshLeaf(x: Node)
      reads this, header`parent, nodes`left, nodes`right, nodes`parent, nodes`lo, nodes`hi, nodes`pos, nodes`color,
        nodes`bh
    {
      && Shape() && x in nodes && x.left == null && x.right == null && x.bh == 0
      && AllBlack(x) && AllRed(x)
      && header.parent != null && (header.parent.color == Black || header.parent == x)
    }

    method Redden(x: Node)
      requires FreshLeaf(x) && Sized()
      modifies x`color
      ensures Unbalanced(x)
    {
      x.color := Red;
      forall n <- nodes ensures BlackOk(n) { if n != x { assert old(BlackOk(n)); } }
      forall n <- nodes ensures RedOk(n, x) { assert old(RedOk(n, x)); }
    }

    method Rebalance(x0: Node)
      requires FreshLeaf(x0) && Sized()
      modifies header`parent, nodes`parent, nodes`left, nodes`right, nodes`lo, nodes`hi, nodes`size, nodes`color,
        nodes`bh
      ensures Shape() && Sized() && AllBlack(null) && AllRed(null)
      ensures header.parent != null && header.parent.color == Black
    {
      Redden(x0);
      var x := RebalanceFrom(x0);
      RedMended(x);
      RedWeaken(header.parent);
      BlackenRoot();
    }

    // The loop of the insertion fix-up.
    method RebalanceFrom(x0: Node) returns (x: Node)
      requires Unbalanced(x0)
      modifies header`parent, nodes`parent, nodes`left, nodes`right, nodes`lo, nodes`hi, nodes`size, nodes`color,
        nodes`bh
      ensures Unbalanced(x) && (x == header.parent || (x.parent != null && x.parent.color == Black))
    {
      x := x0;
      assert UpOk(x);
      while x != header.parent && x.parent.color == Red
        invariant Unbalanced(x) && x.parent != null
        decreases if x.parent.color == Red then |order| + 1 - x.hi + x.lo else 0
      {
        x := RebalanceStep(x);
        assert UpOk(x);
      }
    }

    // Spans nest: they are the intervals of the subtrees.

    ghost predicate Covers(n: Node, m: Node)
      reads n`lo, n`hi, m`pos
    {
      n.lo <= m.pos < n.hi
    }

    lemma CoveredSpan(n: Node, m: Node)
      requires Shape() && n in nodes && m in nodes && Covers(n, m)
      ensures n.lo <= m.lo && m.hi <= n.hi
      decreases n.hi - n.lo
    {
      assert LeftOk(n) && RightOk(n);
      if m.pos < n.pos {
        CoveredSpan(n.left, m);
      } else if m.pos > n.pos {
        CoveredSpan(n.right, m);
      }
    }

    lemma CoversParent(n: Node, c: Node)
      requires Shape() && n in nodes && c in nodes && Covers(n, c) && n != c
      ensures c.parent in nodes && Covers(n, c.parent)
      decreases n.hi - n.lo
    {
      assert LeftOk(n) && RightOk(n);
      if c.pos < n.pos {
        if n.left != c { CoversParent(n.left, c); }
      } else {
        if n.right != c { CoversParent(n.right, c); }
      }
    }

    lemma StrictlyAbove(n: Node, c: Node)
      requires Shape() && n in nodes && c in nodes && c.parent in nodes
      ensures Covers(n, c) && n != c <==> Covers(n, c.parent)
    {
      if Covers(n, c) && n != c {
        CoversParent(n, c);
      }
      if Covers(n, c.parent) {
        CoveredSpan(n, c.parent);
        assert UpOk(c) && LeftOk(c.parent) && RightOk(c.parent);
      }
    }

    lemma NothingAboveRoot(n: Node)
      requires Shape() && n in nodes && header.parent != null && Covers(n, header.parent)
      ensures n == header.parent
    {
      var r := header.parent;
      assert UpOk(r) && LeftOk(r) && RightOk(r);
      CoveredSpan(n, r);
      if n.pos < r.pos {
        CoveredSpan(r.left, n);
      } else if n.pos > r.pos {
        CoveredSpan(r.right, n);
      }
    }

    // The sizes do not count x yet.
    ghost predicate SizedBefore(x: Node)
      reads this, nodes`size, nodes`lo, nodes`hi, x`pos
    {
      forall n <- nodes | n != x :: n.size == n.hi - n.lo - if Covers(n, x) then 1 else 0
    }

    // Adds d to the size of every proper ancestor of x.
    lemma AboveParent(c: Node)
      requires Shape() && c in nodes && c != header.parent
      ensures c.parent in nodes && c.parent.hi - c.parent.lo > c.hi - c.lo && |order| >= c.parent.hi - c.parent.lo
      ensures forall n <- nodes :: Covers(n, c) && n != c <==> Covers(n, c.parent)
    {
      assert UpOk(c);
      assert LeftOk(c.parent) && RightOk(c.parent);
      forall n <- nodes ensures Covers(n, c) && n != c <==> Covers(n, c.parent) {
        StrictlyAbove(n, c);
      }
    }

    // n is above x, up to c.
    ghost predicate Between(n: Node, x: Node, c: Node)
      reads n`lo, n`hi, x`pos, c`pos
    {
      Covers(n, x) && n != x && !(Covers(n, c) && n != c)
    }

    // What the climb from x has to know at c.
    ghost predicate Climbed(x: Node, c: Node)
      reads this, nodes`lo, nodes`hi, nodes`pos
    {
      c in nodes && x in nodes && Covers(c, x) && forall n <- nodes :: Covers(n, c) ==> Covers(n, x)
    }

    lemma ClimbOn(x: Node, c: Node)
      requires Shape() && Climbed(x, c) && c != header.parent
      ensures c.parent in nodes && Climbed(x, c.parent) && c.parent.hi - c.parent.lo > c.hi - c.lo
        && |order| >= c.parent.hi - c.parent.lo
      ensures forall n <- nodes :: Between(n, x, c.parent) <==> Between(n, x, c) || n == c.parent
      ensures !Between(c.parent, x, c)
    {
      AboveParent(c);
      assert UpOk(c);
      assert LeftOk(c.parent) && RightOk(c.parent);
    }

    method AddToAncestors(x: Node, d: int)
      requires Shape() && x in nodes
      modifies nodes`size
      ensures forall n <- nodes :: n.size == old(n.size) + if Covers(n, x) && n != x then d else 0
    {
      var c: Node := x;
      while c != header.parent
        invariant Shape() && Climbed(x, c)
        invariant forall n <- nodes :: n.size == old(n.size) + if Between(n, x, c) then d else 0
        decreases |order| - c.hi + c.lo
      {
        ClimbOn(x, c);
        c := c.parent;
        c.size := c.size + d;
      }
      RootIsTop();
    }

    lemma RootIsTop()
      requires Shape() && header.parent != null
      ensures forall n <- nodes :: Covers(n, header.parent) ==> n == header.parent
    {
      forall n <- nodes | Covers(n, header.parent) ensures n == header.parent {
        NothingAboveRoot(n);
      }
    }

    ghost predicate Ends()
      reads this, header`left, header`right
    {
      if order == [] then header.left == header && header.right == header
      else header.left == order[0] && header.right == order[|order| - 1]
    }

    ghost predicate Balanced()
      reads this, header`parent, nodes`color, nodes`bh, nodes`left, nodes`right
    {
      && AllBlack(null) && AllRed(null)
      && (header.parent != null ==> header.parent in nodes && header.parent.color == Black)
    }

    ghost predicate Valid()
      reads this, header, nodes
    {
      Shape() && Sized() && Balanced() && Ends() && header.color == Red
    }

    // Where a new node may hang: a free child slot, or the header of an empty tree.
    ghost predicate Slot(q: Node, s: Side)
      reads this, q
    {
      if q == header then s == ToLeft && order == []
      else q in nodes && Child(q, s) == null
    }

    ghost function SlotIndex(q: Node, s: Side): int
      reads this, q`pos
    {
      if q == header then 0 else if s == ToLeft then q.pos else q.pos + 1
    }

    // The spans after x was added at index i as a leaf on side s of its parent.
    twostate predicate Widened(x: Node, new s: Side, new i: int)
      reads this, nodes`pos, nodes`lo, nodes`hi
    {
      && nodes == old(nodes) + {x} && x !in old(nodes) && 0 <= i <= |old(order)|
      && order == old(order[..i]) + [x] + old(order[i..])
      && x.pos == i && x.lo == i && x.hi == i + 1
      && (forall n <- old(nodes) ::
          && n.pos == old(n.pos) + (if old(n.pos) >= i then 1 else 0)
          && n.lo == old(n.lo) + (if old(n.lo) > i || (s == ToRight && old(n.lo) == i) then 1 else 0)
          && n.hi == old(n.hi) + (if old(n.hi) > i || (s == ToRight && old(n.hi) == i) then 1 else 0))
    }

    twostate predicate Hung(x: Node, new q: Node, new s: Side)
      reads this, header`parent, nodes`left, nodes`right, nodes`parent
    {
      && nodes == old(nodes) + {x} && x !in old(nodes)
      && x.parent == q && x.left == null && x.right == null
      && (forall n <- old(nodes) ::
          && n.parent == old(n.parent)
          && n.left == (if n == q && s == ToLeft then x else old(n.left))
          && n.right == (if n == q && s == ToRight then x else old(n.right)))
      && header.parent == (if q == header then x else old(header.parent))
    }

    twostate lemma HungKeepsIndexed(x: Node, new s: Side, new i: int)
      requires old(Shape()) && x != header && Widened(x, s, i)
      ensures Spans()
    {
      forall k | 0 <= k < |order| ensures At(order, k) in nodes && At(order, k).pos == k {
        if k < i { assert order[k] == At(old(order), k); }
        if k > i { assert order[k] == At(old(order), k - 1); }
      }
    }

    twostate lemma HungKeepsLeft(x: Node, new q: Node, new s: Side, new i: int)
      requires old(Shape()) && q in old(nodes) + {header} && old(Slot(q, s)) && i == old(SlotIndex(q, s)) && x != header
      requires Widened(x, s, i) && Hung(x, q, s)
      ensures AllLeft()
    {
      forall n <- nodes ensures LeftOk(n) {
        if n != x { assert old(LeftOk(n)); }
      }
    }

    twostate lemma HungKeepsRight(x: Node, new q: Node, new s: Side, new i: int)
      requires old(Shape()) && q in old(nodes) + {header} && old(Slot(q, s)) && i == old(SlotIndex(q, s)) && x != header
      requires Widened(x, s, i) && Hung(x, q, s)
      ensures AllRight()
    {
      forall n <- nodes ensures RightOk(n) {
        if n != x { assert old(RightOk(n)); }
      }
    }

    twostate lemma HungKeepsUp(x: Node, new q: Node, new s: Side, new i: int)
      requires old(Shape()) && q in old(nodes) + {header} && old(Slot(q, s)) && i == old(SlotIndex(q, s)) && x != header
      requires Widened(x, s, i) && Hung(x, q, s)
      ensures AllUp() && Rooted()
    {
      if q in old(nodes) { assert old(LeftOk(q)) && old(RightOk(q)); }
      forall n <- nodes ensures UpOk(n) {
        if n != x { assert old(UpOk(n)); }
      }
    }

    // Everything of Widened but the sizes, on the ghost side.
    ghost method Widen(x: Node, s: Side, i: int)
      requires Indexed() && x !in nodes && x != header && 0 <= i <= |order|
      modifies this, nodes`pos, nodes`lo, nodes`hi, x`pos, x`lo, x`hi
      ensures Widened(x, s, i)
    {
      forall n <- nodes { n.pos := n.pos + if n.pos >= i then 1 else 0; }
      forall n <- nodes { n.lo := n.lo + if n.lo > i || (s == ToRight && n.lo == i) then 1 else 0; }
      forall n <- nodes { n.hi := n.hi + if n.hi > i || (s == ToRight && n.hi == i) then 1 else 0; }
      x.pos, x.lo, x.hi := i, i, i + 1;
      order := order[..i] + [x] + order[i..];
      nodes := nodes + {x};
    }

    method Hang(x: Node, s: Side, q: Node)
      requires Shape() && Ends() && x !in nodes && x != header
      requires q in nodes + {header} && Slot(q, s)
      modifies header, nodes`left, nodes`right, x`parent, x`left, x`right
      ensures x.parent == q && x.left == null && x.right == null
      ensures forall n <- nodes ::
        && n.left == (if n == q && s == ToLeft then x else old(n.left))
        && n.right == (if n == q && s == ToRight then x else old(n.right))
      ensures header.parent == (if q == header then x else old(header.parent))
      ensures header.left == (if SlotIndex(q, s) == 0 then x else old(header.left))
      ensures header.right == (if SlotIndex(q, s) == |order| then x else old(header.right))
      ensures header.color == old(header.color)
    {
      assert order != [] ==> At(order, 0).pos == 0 && At(order, |order| - 1).pos == |order| - 1;
      if s == ToLeft {
        q.left := x;
        if q == header {
          header.parent := x;
          header.right := x;
        } else if q == header.left {
          header.left := x;
        }
      } else {
        q.right := x;
        if q == header.right {
          header.right := x;
        }
      }
      x.parent := q;
      x.left := null;
      x.right := null;
    }

    twostate lemma HungKeepsColors(x: Node, new q: Node, new s: Side)
      requires header !in old(nodes) && q in old(nodes) + {header} && old(Slot(q, s)) && old(AllBlack(null))
        && old(AllRed(null))
      requires Hung(x, q, s) && x.bh == 0 && x.size == 1
      requires forall n <- old(nodes) :: n.color == old(n.color) && n.bh == old(n.bh)
      ensures AllBlack(x)
      ensures AllRed(x)
    {
      forall n <- nodes | n != x ensures BlackOk(n) { assert old(BlackOk(n)); }
      forall n <- nodes ensures RedOk(n, x) {
        if n != x { assert old(RedOk(n, null)); }
      }
    }

    twostate lemma WidenedSizes(x: Node, new s: Side, new i: int)
      requires old(Spans()) && old(Sized()) && Widened(x, s, i)
      requires forall n <- old(nodes) :: n.size == old(n.size)
      ensures SizedBefore(x)
    {
    }

    twostate lemma WidenedKeepsEnds(x: Node, new q: Node, new s: Side)
      requires old(Indexed()) && old(Ends())
      requires Widened(x, s, x.pos)
      requires header.left == (if x.pos == 0 then x else old(header.left))
      requires header.right == (if x.pos == |old(order)| then x else old(header.right))
      ensures Ends()
    {
    }

    // x becomes a leaf; its colour, its size and the sizes above it are still to be set.
    method Attach(x: Node, s: Side, q: Node)
      requires Shape() && Ends() && x !in nodes && x != header
      requires q in nodes + {header} && Slot(q, s)
      modifies this, header, nodes`left, nodes`right, nodes`pos, nodes`lo, nodes`hi, x
      ensures Hung(x, q, s) && Widened(x, s, old(SlotIndex(q, s))) && x.bh == 0 && x.size == 1
      ensures header.left == (if x.pos == 0 then x else old(header.left))
      ensures header.right == (if x.pos == |old(order)| then x else old(header.right))
      ensures header.color == old(header.color) && x.value == old(x.value)
    {
      ghost var i := SlotIndex(q, s);
      assert q != header ==> LeftOk(q) && RightOk(q);
      HangLeaf(x, s, q);
      Widen(x, s, i);
    }

    method HangLeaf(x: Node, s: Side, q: Node)
      requires Shape() && Ends() && x !in nodes && x != header
      requires q in nodes + {header} && Slot(q, s)
      modifies header, nodes`left, nodes`right, x`parent, x`left, x`right, x`size, x`bh
      ensures x.parent == q && x.left == null && x.right == null && x.size == 1 && x.bh == 0
      ensures forall n <- nodes ::
        && n.left == (if n == q && s == ToLeft then x else old(n.left))
        && n.right == (if n == q && s == ToRight then x else old(n.right))
      ensures header.parent == (if q == header then x else old(header.parent))
      ensures header.left == (if SlotIndex(q, s) == 0 then x else old(header.left))
      ensures header.right == (if SlotIndex(q, s) == |order| then x else old(header.right))
      ensures header.color == old(header.color)
    {
      Hang(x, s, q);
      x.size := 1;
      x.bh := 0;
    }

    twostate lemma AttachedKeepsShape(x: Node, new q: Node, new s: Side)
      requires old(Shape()) && q in old(nodes) + {header} && old(Slot(q, s)) && x != header
      requires Widened(x, s, old(SlotIndex(q, s))) && Hung(x, q, s)
      ensures Shape()
    {
      ghost var i := old(SlotIndex(q, s));
      HungKeepsIndexed(x, s, i);
      HungKeepsLeft(x, q, s, i);
      HungKeepsRight(x, q, s, i);
      HungKeepsUp(x, q, s, i);
    }

    method Grow(x: Node, s: Side, q: Node)
      requires Valid() && x !in nodes && x != header
      requires q in nodes + {header} && Slot(q, s)
      modifies this, header, nodes`left, nodes`right, nodes`pos, nodes`lo, nodes`hi, x
      ensures Shape() && Ends() && Widened(x, s, old(SlotIndex(q, s))) && Hung(x, q, s) && x.bh == 0 && x.size == 1
      ensures header.color == old(header.color) && x.value == old(x.value)
    {
      Attach(x, s, q);
      AttachedKeepsShape(x, q, s);
      WidenedKeepsEnds(x, q, s);
    }

    // All of Link but the sizes and the fix-up.
    method Place(x: Node, s: Side, q: Node)
      requires Valid() && x !in nodes && x != header
      requires q in nodes + {header} && Slot(q, s)
      modifies this, header, nodes`left, nodes`right, nodes`pos, nodes`lo, nodes`hi, x
      ensures nodes == old(nodes) + {x} && FreshLeaf(x) && SizedBefore(x) && x.size == 1 && x.hi - x.lo == 1 && Ends()
      ensures order == old(order[..SlotIndex(q, s)]) + [x] + old(order[SlotIndex(q, s)..])
      ensures header.color == old(header.color) && x.value == old(x.value)
    {
      ghost var i := SlotIndex(q, s);
      assert q != header ==> LeftOk(q) && RightOk(q);
      Grow(x, s, q);
      HungKeepsColors(x, q, s);
      WidenedSizes(x, s, i);
    }

    method AddSizes(x: Node)
      requires FreshLeaf(x) && SizedBefore(x) && x.size == 1 && x.hi - x.lo == 1
      modifies nodes`size
      ensures FreshLeaf(x) && Sized()
    {
      AddToAncestors(x, 1);
    }

    method Link(x: Node, s: Side, q: Node)
      requires Valid() && x !in nodes && x != header
      requires q in nodes + {header} && Slot(q, s)
      modifies this, header, nodes, x
      ensures Valid() && nodes == old(nodes) + {x}
      ensures order == old(order[..SlotIndex(q, s)]) + [x] + old(order[SlotIndex(q, s)..])
      ensures forall n <- nodes :: n.value == old(n.value)
    {
      Place(x, s, q);
      AddSizes(x);
      Rebalance(x);
    }

    // Extraction. The subtree at x, on side s of p, is one black node short.

    ghost predicate Short(p: Node, s: Side)
      requires p in nodes
      reads this, nodes`color, nodes`bh, nodes`left, nodes`right
    {
      && ChildrenInside(p)
      && 0 <= p.bh
      && p.bh == (if Child(p, s) == null then 0 else Child(p, s).bh) + 1 + Weight(p.color)
      && p.bh == (if Child(p, s.Opp()) == null then 0 else Child(p, s.Opp()).bh) + Weight(p.color)
    }

    // The red rule may be broken by links into and out of x.
    ghost predicate AllRedBut(x: Node?)
      reads this, nodes`color, nodes`left, nodes`right
    {
      forall n {:trigger RedOk(n, x)} :: n in nodes && n != x ==> RedOk(n, x)
    }

    lemma BlackExempt(x: Node?)
      requires Shape() && AllRedBut(x) && IsBlack(x)
      ensures AllRed(x)
    {
      forall n <- nodes ensures RedOk(n, x) {
        assert LeftOk(n) && RightOk(n);
        if n != x { assert RedOk(n, x); }
      }
    }

    // The red sibling w of the short side: w rises above p, which turns red.
    twostate lemma SiblingRisenColors(p: Node, new w: Node, new s: Side)
      requires old(Shape()) && Rotated(p, w, s) && ColorsExchanged(p, w) && p != w
      requires old(w.color) == Red && old(AllBlack(p)) && old(p.color) == Black && old(Short(p, s))
      ensures AllBlack(p) && Short(p, s)
    {
      assert old(BlackOk(w));
      assert old(LeftOk(p)) && old(RightOk(p)) && old(LeftOk(w)) && old(RightOk(w));
      forall n <- nodes | n != p ensures BlackOk(n) {
        assert old(BlackOk(n)) && old(LeftOk(n)) && old(RightOk(n));
      }
    }

    method RaiseRedSibling(p: Node, w: Node, s: Side)
      requires Shape() && Sized() && p in nodes && Child(p, s.Opp()) == w
      requires p.color == Black && w.color == Red
      requires AllBlack(p) && Short(p, s) && AllRed(Child(p, s))
      modifies header`parent, nodes`parent, nodes`left, nodes`right, nodes`lo, nodes`hi, nodes`size, nodes`color,
        nodes`bh
      ensures Shape() && Sized() && Rotated(p, w, s) && Respanned(p, w, s) && ColorsExchanged(p, w)
      ensures AllBlack(p) && Short(p, s) && AllRed(Child(p, s))
    {
      ghost var x := Child(p, s);
      assert LeftOk(p) && RightOk(p) && LeftOk(w) && RightOk(w);
      RotateExchanging(p, w, s);
      SiblingRisenColors(p, w, s);
      RisingKeepsRed(p, w, s, x);
    }

    twostate lemma InnerRisenShort(w: Node, new c: Node, new s: Side, new p: Node)
      requires old(Shape()) && Rotated(w, c, s.Opp()) && ColorsExchanged(w, c) && w != c
      requires p in old(nodes) && p != w && p != c && old(Child(p, s.Opp())) == w && old(Short(p, s))
      ensures Short(p, s) && Child(p, s.Opp()) == c
    {
      assert old(LeftOk(p)) && old(RightOk(p)) && old(LeftOk(w)) && old(RightOk(w));
    }

    // The near child c of the black sibling w is red and the far one black: c rises above w.
    method RaiseInner(p: Node, w: Node, c: Node, s: Side)
      requires Shape() && Sized() && p in nodes && w in nodes && c in nodes
      requires Child(p, s.Opp()) == w && Child(w, s) == c && w.color == Black && c.color == Red
      requires IsBlack(Child(w, s.Opp()))
      requires AllBlack(p) && Short(p, s) && AllRed(Child(p, s))
      modifies header`parent, nodes`parent, nodes`left, nodes`right, nodes`lo, nodes`hi, nodes`size, nodes`color,
        nodes`bh
      ensures Shape() && Sized() && Rotated(w, c, s.Opp()) && ColorsExchanged(w, c)
      ensures AllBlack(p) && Short(p, s) && AllRed(Child(p, s)) && Child(p, s.Opp()) == c
    {
      ghost var x := Child(p, s);
      assert LeftOk(p) && RightOk(p) && LeftOk(w) && RightOk(w) && LeftOk(c) && RightOk(c);
      RotateExchanging(w, c, s.Opp());
      ExchangeKeepsBlack(w, c, s.Opp(), p);
      InnerRisenShort(w, c, s, p);
      RisingKeepsRed(w, c, s.Opp(), x);
    }

    twostate lemma FarRisenColors(p: Node, new w: Node, new s: Side)
      requires old(Shape()) && Rotated(p, w, s) && ColorsExchanged(p, w) && p != w
      requires old(w.color) == Black && old(AllBlack(p)) && old(Short(p, s))
      ensures AllBlack(w) && Short(w, s.Opp())
    {
      assert old(BlackOk(w));
      assert old(LeftOk(p)) && old(RightOk(p)) && old(LeftOk(w)) && old(RightOk(w));
      forall n <- nodes | n != w ensures BlackOk(n) {
        if n != p { assert old(BlackOk(n)) && old(LeftOk(n)) && old(RightOk(n)); }
      }
    }

    twostate lemma FarRisenRed(p: Node, new w: Node, new s: Side)
      requires old(Shape()) && Rotated(p, w, s) && ColorsExchanged(p, w) && p != w
      requires old(w.color) == Black && old(AllRed(null))
      ensures AllRed(Child(w, s.Opp()))
    {
      var r := Child(w, s.Opp());
      assert old(LeftOk(p)) && old(RightOk(p)) && old(LeftOk(w)) && old(RightOk(w));
      forall n <- nodes ensures RedOk(n, r) {
        assert old(RedOk(n, null)) && old(LeftOk(n)) && old(RightOk(n));
      }
    }

    // The red node r, where a black one is missing, turns black.
    method Darken(p: Node, r: Node, s: Side)
      requires Shape() && p in nodes && r in nodes && Child(p, s) == r && r.color == Red
      requires AllBlack(p) && Short(p, s) && AllRedBut(r)
      modifies nodes`color, nodes`bh
      ensures AllBlack(null) && AllRed(null)
      ensures forall n <- nodes :: n.color == if n == r then Black else old(n.color)
    {
      OnlyParentPoints(r);
      assert LeftOk(p) && RightOk(p) && BlackOk(r);
      r.color := Black;
      r.bh := r.bh + 1;
      forall n <- nodes ensures BlackOk(n) { if n != p { assert old(BlackOk(n)); } }
      forall n <- nodes ensures RedOk(n, null) { if n != r { assert old(RedOk(n, r)); } }
    }

    twostate predicate Demoted(p: Node, new w: Node)
      reads this, nodes`left, nodes`right, nodes`color, nodes`bh
    {
      && SameLinks()
      && (forall n <- nodes :: n.color == if n == w then Red else old(n.color))
      && (forall n <- nodes :: n.bh == if n == p || n == w then old(n.bh) - 1 else old(n.bh))
    }

    twostate lemma DemotedColors(p: Node, new w: Node, new s: Side, new q: Node?)
      requires p in nodes && w in nodes && p != w && Demoted(p, w)
      requires old(Child(p, s.Opp())) == w && old(w.color) == Black && old(AllBlack(p)) && old(Short(p, s))
      requires forall n <- nodes | n.left == p || n.right == p :: n == q
      requires forall n <- nodes | n.left == w || n.right == w :: n == p
      requires q != w
      ensures AllBlack(q)
    {
      assert old(BlackOk(w));
      if old(w.left) != null { assert old(BlackOk(w.left)); }
      forall n <- nodes | n != q ensures BlackOk(n) { if n != p { assert old(BlackOk(n)); } }
    }

    twostate lemma DemotedShort(p: Node, new w: Node, new q: Node, new t: Side)
      requires p in nodes && w in nodes && p != w && q in nodes && q != p && q != w && Demoted(p, w)
      requires old(AllBlack(p)) && old(Child(q, t)) == p && old(Child(q, t.Opp())) != p && old(Child(q, t.Opp())) != w
      ensures Short(q, t)
    {
      assert old(BlackOk(q));
    }

    twostate lemma DemotedRed(p: Node, new w: Node, new x: Node?)
      requires p in nodes && w in nodes && p != w && Demoted(p, w)
      requires old(IsBlack(w.left)) && old(IsBlack(w.right))
      requires x == null || x in old(nodes)
      requires forall n <- nodes | n.left == w || n.right == w :: n == p
      requires x == null || forall n <- nodes | n.left == x || n.right == x :: n == p
      requires old(AllRed(x))
      ensures AllRedBut(p)
    {
      forall n <- nodes | n != p ensures RedOk(n, p) { assert old(RedOk(n, x)); }
    }

    method TurnRed(w: Node, ghost p: Node)
      requires w in nodes && p in nodes && w != p
      modifies nodes`color, nodes`bh
      ensures Demoted(p, w)
    {
      w.color := Red;
      w.bh := w.bh - 1;
      p.bh := p.bh - 1;
    }

    // Both children of the black sibling w are black: w turns red and p is short in turn.
    method Demote(p: Node, w: Node, s: Side)
      requires Shape() && p in nodes && w in nodes && Child(p, s.Opp()) == w && w.color == Black
      requires IsBlack(w.left) && IsBlack(w.right)
      requires AllBlack(p) && Short(p, s) && AllRed(Child(p, s))
      modifies nodes`color, nodes`bh
      ensures p.parent == header ==> AllBlack(null)
      ensures p.parent in nodes ==>
        AllBlack(p.parent) && (if p.parent.left == p then Short(p.parent, ToLeft) else Short(p.parent, ToRight))
      ensures AllRedBut(p)
      ensures forall n <- nodes :: n.color == if n == w then Red else old(n.color)
    {
      ghost var x, q := Child(p, s), p.parent;
      assert LeftOk(p) && RightOk(p) && UpOk(p);
      OnlyParentPoints(w);
      OnlyParentPoints(p);
      if x != null { OnlyParentPoints(x); }
      assert q in nodes ==> LeftOk(q) && RightOk(q);
      TurnRed(w, p);
      DemotedRed(p, w, x);
      DemotedColors(p, w, s, q);
      if q in nodes {
        DemotedShort(p, w, q, if q.left == p then ToLeft else ToRight);
      }
    }

    // x, which may be null, hangs below p and its subtree lacks one black node;
    // p is the header when x is the root, and nothing is lacking then.
    ghost predicate Missing(x: Node?, p: Node)
      reads this, header`parent, nodes
    {
      && Shape() && Sized() && AllRedBut(x) && (x == null || x in nodes)
      && (header.parent != null ==> header.parent == x || header.parent.color == Black)
      && (p == header ==> header.parent == x && AllBlack(null))
      && (p != header ==> p in nodes && AllBlack(p))
      && (p != header ==> (p.left == x && Short(p, ToLeft)) || (p.right == x && Short(p, ToRight)))
    }

    method RotateFar(p: Node, w: Node, s: Side)
      requires Shape() && Sized() && p in nodes && Child(p, s.Opp()) == w && w.color == Black
      requires AllBlack(p) && Short(p, s) && AllRed(null)
      requires header.parent != null && header.parent.color == Black
      modifies header`parent, nodes`parent, nodes`left, nodes`right, nodes`lo, nodes`hi, nodes`size, nodes`color,
        nodes`bh
      ensures Shape() && Sized() && w in nodes && AllBlack(w) && Short(w, s.Opp()) && AllRed(Child(w, s.Opp()))
      ensures header.parent != null && header.parent.color == Black
      ensures Child(w, s.Opp()) == old(Child(w, s.Opp()))
      ensures forall n <- nodes | n != p && n != w :: n.color == old(n.color)
    {
      RotateExchanging(p, w, s);
      FarRisenColors(p, w, s);
      FarRisenRed(p, w, s);
      RisingKeepsRoot(p, w, s);
    }

    lemma RedFull(x: Node?)
      requires AllRed(x) && IsBlack(x)
      ensures AllRed(null)
    {
      forall n <- nodes ensures RedOk(n, null) { assert RedOk(n, x); }
    }

    lemma Family(p: Node, w: Node)
      requires Shape() && p in nodes && (w == p.left || w == p.right)
      ensures w in nodes && w != p && (w.left != null ==> w.left in nodes && w.left != w && w.left != p)
      ensures w.right != null ==> w.right in nodes && w.right != w && w.right != p
    {
      assert LeftOk(p) && RightOk(p) && LeftOk(w) && RightOk(w);
    }

    // The far child of the black sibling w is red.
    method RaiseFar(p: Node, w: Node, s: Side)
      requires Shape() && Sized() && p in nodes && Child(p, s.Opp()) == w && w.color == Black
      requires Child(w, s.Opp()) != null && Child(w, s.Opp()).color == Red
      requires AllBlack(p) && Short(p, s) && AllRed(null)
      requires header.parent != null && header.parent.color == Black
      modifies header`parent, nodes`parent, nodes`left, nodes`right, nodes`lo, nodes`hi, nodes`size, nodes`color,
        nodes`bh
      ensures Shape() && Sized() && AllBlack(null) && AllRed(null)
      ensures header.parent != null && header.parent.color == Black
    {
      var r := Child(w, s.Opp());
      Family(p, w);
      RotateFar(p, w, s);
      Darken(w, r, s.Opp());
    }

    method FixBlackSibling(x: Node?, p: Node, w: Node, s: Side) returns (done: bool)
      requires Shape() && Sized() && p in nodes && Child(p, s) == x && Child(p, s.Opp()) == w && w.color == Black
      requires AllBlack(p) && Short(p, s) && AllRed(x) && IsBlack(x)
      requires header.parent != null && header.parent.color == Black
      modifies header`parent, nodes`parent, nodes`left, nodes`right, nodes`lo, nodes`hi, nodes`size, nodes`color,
        nodes`bh
      ensures done ==> Shape() && Sized() && AllBlack(null) && AllRed(null)
      ensures done ==> header.parent != null && header.parent.color == Black
      ensures !done ==> p.parent == old(p.parent) && p.parent != null && p.color == old(p.color) && Missing(p, p.parent)
      ensures !done ==> header.parent == old(header.parent) && forall n <- nodes ::
        n.lo == old(n.lo) && n.hi == old(n.hi)
    {
      assert LeftOk(p) && RightOk(p) && LeftOk(w) && RightOk(w) && UpOk(p);
      if IsBlack(w.left) && IsBlack(w.right) {
        assert UpOk(w);
        Demote(p, w, s);
        done := false;
      } else {
        RaiseNephew(x, p, w, s);
        done := true;
      }
    }

    // A child of the black sibling w is red.
    method RaiseNephew(x: Node?, p: Node, w: Node, s: Side)
      requires Shape() && Sized() && p in nodes && Child(p, s) == x && Child(p, s.Opp()) == w && w.color == Black
      requires !IsBlack(w.left) || !IsBlack(w.right)
      requires AllBlack(p) && Short(p, s) && AllRed(x) && IsBlack(x)
      requires header.parent != null && header.parent.color == Black
      modifies header`parent, nodes`parent, nodes`left, nodes`right, nodes`lo, nodes`hi, nodes`size, nodes`color,
        nodes`bh
      ensures Shape() && Sized() && AllBlack(null) && AllRed(null)
      ensures header.parent != null && header.parent.color == Black
    {
      RedFull(x);
      if IsBlack(Child(w, s.Opp())) {
        var v := Child(w, s);
        RaiseNear(x, p, w, v, s);
        RaiseFar(p, v, s);
      } else {
        RaiseFar(p, w, s);
      }
    }

    // The near child v of w is red and the far one black: v takes the place of w.
    method RaiseNear(x: Node?, p: Node, w: Node, v: Node, s: Side)
      requires Shape() && Sized() && p in nodes && Child(p, s) == x && Child(p, s.Opp()) == w && w.color == Black
      requires Child(w, s) == v && v.color == Red && IsBlack(Child(w, s.Opp()))
      requires AllBlack(p) && Short(p, s) && AllRed(x) && IsBlack(x)
      requires header.parent != null && header.parent.color == Black
      modifies header`parent, nodes`parent, nodes`left, nodes`right, nodes`lo, nodes`hi, nodes`size, nodes`color,
        nodes`bh
      ensures Shape() && Sized() && Child(p, s.Opp()) == v && v.color == Black
      ensures Child(v, s.Opp()) != null && Child(v, s.Opp()).color == Red
      ensures AllBlack(p) && Short(p, s) && AllRed(null)
      ensures header.parent != null && header.parent.color == Black
    {
      assert LeftOk(p) && RightOk(p) && LeftOk(w) && RightOk(w);
      RaiseInner(p, w, v, s);
      RisingKeepsRoot(w, v, s.Opp());
      RedFull(Child(p, s));
    }

    ghost function Room(p: Node): int
      reads this, p`lo, p`hi
    {
      if p == header then 0 else |order| + 1 - p.hi + p.lo
    }

    // Makes the sibling of the short side black; p is red if that took a rotation.
    method SettleSibling(x: Node?, p: Node, s: Side)
      requires Shape() && Sized() && p in nodes && Child(p, s) == x && (x == null || x in nodes)
      requires AllBlack(p) && Short(p, s) && AllRed(x) && IsBlack(x)
      requires header.parent != null && header.parent.color == Black
      modifies header`parent, nodes`parent, nodes`left, nodes`right, nodes`lo, nodes`hi, nodes`size, nodes`color,
        nodes`bh
      ensures Shape() && Sized() && Child(p, s) == x && Child(p, s.Opp()) != null && Child(p, s.Opp()).color == Black
      ensures AllBlack(p) && Short(p, s) && AllRed(x) && IsBlack(x)
      ensures header.parent != null && header.parent.color == Black
      ensures if p.parent == old(p.parent) then p.hi - p.lo == old(p.hi - p.lo)
        else p.color == Red && p.parent in nodes && p.parent.hi - p.parent.lo == old(p.hi - p.lo)
    {
      assert LeftOk(p) && RightOk(p) && RedOk(p, x);
      var w := Child(p, s.Opp());
      assert x != null ==> BlackOk(x);
      if w.color == Red {
        assert LeftOk(w) && RightOk(w) && RedOk(w, x) && BlackOk(w) && UpOk(p);
        label L:
        RaiseRedSibling(p, w, s);
        RisingKeepsRoot@L(p, w, s);
      }
    }

    // One turn of the extraction fix-up.
    method FixTurn(x: Node?, p: Node) returns (done: bool)
      requires Missing(x, p) && x != header.parent && IsBlack(x)
      modifies header`parent, nodes`parent, nodes`left, nodes`right, nodes`lo, nodes`hi, nodes`size, nodes`color,
        nodes`bh
      ensures done ==> Shape() && Sized() && AllBlack(null) && AllRed(null)
      ensures done ==> header.parent != null && header.parent.color == Black
      ensures !done ==> p.parent != null && Missing(p, p.parent)
      ensures !done ==> 0 <= Room(p.parent) <= old(Room(p)) && (Room(p.parent) < old(Room(p)) || p.color == Red)
    {
      BlackExempt(x);
      assert LeftOk(p) && RightOk(p) && UpOk(p);
      var s := if x == p.left then ToLeft else ToRight;
      SettleSibling(x, p, s);
      assert UpOk(p);
      assert p.parent in nodes ==> LeftOk(p.parent) && RightOk(p.parent);
      done := FixBlackSibling(x, p, Child(p, s.Opp()), s);
    }

    // x is the root or red.
    method FinishFix(x: Node?, p: Node)
      requires Missing(x, p) && (x == header.parent || !IsBlack(x))
      modifies nodes`color, nodes`bh
      ensures Shape() && Sized() && AllBlack(null) && AllRed(null)
      ensures header.parent != null ==> header.parent.color == Black
    {
      if x != null {
        assert p != header ==> LeftOk(p) && RightOk(p);
        if x == header.parent {
          BlackenRoot();
        } else {
          Darken(p, x, if p.left == x then ToLeft else ToRight);
        }
      }
    }

    method FixMissing(x0: Node?, p0: Node)
      requires Missing(x0, p0)
      modifies header`parent, nodes`parent, nodes`left, nodes`right, nodes`lo, nodes`hi, nodes`size, nodes`color,
        nodes`bh
      ensures Shape() && Sized() && AllBlack(null) && AllRed(null)
      ensures header.parent != null ==> header.parent.color == Black
    {
      var x: Node?, p: Node := x0, p0;
      while x != header.parent && (x == null || x.color == Black)
        invariant Missing(x, p) && 0 <= Room(p)
        decreases Room(p), IsBlack(x)
      {
        var done := FixTurn(x, p);
        if done {
          return;
        }
        x, p := p, p.parent;
      }
      FinishFix(x, p);
    }

    // y is the node that leaves its place in the tree when z is extracted: z itself
    // when it has a free child slot, otherwise its successor.
    ghost predicate Leaver(z: Node, y: Node)
      reads this, nodes`left, nodes`right, nodes`pos
    {
      && z in nodes && y in nodes
      && (y == z ==> z.left == null || z.right == null)
      && (y != z ==> z.left != null && z.right != null && y.left == null && y.pos == z.pos + 1)
    }

    ghost function OnlyChild(y: Node): Node?
      reads y`left, y`right
    {
      if y.left == null then y.right else y.left
    }

    // The pointers after z was unlinked, with y in its place if it is not z itself.
    twostate predicate Unlinked(z: Node, new y: Node)
      reads this, header`parent, nodes`left, nodes`right, nodes`parent, y`left, y`right, y`parent
    {
      && y in old(nodes) && nodes <= old(nodes)
      && var x := old(OnlyChild(y));
      && (forall n <- nodes | n != y && n != z ::
          && n.left ==
            (if old(n.left) == z then (if y == z then x else y) else if old(n.left) == y then x else old(n.left))
          && n.right == (if old(n.right) == z then (if y == z then x else y) else old(n.right))
          && n.parent == (if n == x && (y == z || old(y.parent) != z) then old(y.parent)
            else if old(n.parent) == z then y else old(n.parent)))
      && (y != z ==>
        y.left == old(z.left) && y.parent == old(z.parent) && y.right == if old(z.right) == y then x else old(z.right))
      && header.parent == (if old(header.parent) == z then (if y == z then x else y) else old(header.parent))
    }

    twostate predicate Narrowed(z: Node, new y: Node)
      reads this, nodes`pos, nodes`lo, nodes`hi
    {
      var i := old(z.pos);
      && nodes == old(nodes) - {z} && 0 <= i < |old(order)|
      && order == old(order[..i]) + old(order[i + 1..])
      && (forall n <- nodes ::
          && n.pos == old(n.pos) - (if old(n.pos) > i then 1 else 0)
          && n.lo ==
            (if n == y then old(z.lo) else old(n.lo) - if old(n.lo) > (if y == z then i else i + 1) then 1 else 0)
          && n.hi == (if n == y then old(z.hi) - 1 else old(n.hi) - if old(n.hi) > i then 1 else 0))
    }

    twostate lemma NarrowedKeepsIndexed(z: Node, new y: Node)
      requires y in old(nodes) && old(Indexed()) && z in old(nodes) && Narrowed(z, y)
      ensures Indexed()
    {
      var i := old(z.pos);
      forall k | 0 <= k < |order| ensures At(order, k) in nodes && At(order, k).pos == k {
        if k < i { assert order[k] == At(old(order), k); }
        if k >= i { assert order[k] == At(old(order), k + 1); }
      }
    }

    twostate lemma NarrowedKeepsSpans(z: Node, new y: Node)
      requires y in old(nodes) && old(Shape()) && old(Leaver(z, y)) && Narrowed(z, y)
      ensures Spans()
    {
      NarrowedKeepsIndexed(z, y);
      assert old(LeftOk(z)) && old(RightOk(z)) && old(RightOk(y));
    }

    twostate lemma UnlinkedKeepsLeft(z: Node, new y: Node)
      requires y in old(nodes) && old(Shape()) && old(Leaver(z, y)) && Narrowed(z, y) && Unlinked(z, y)
      ensures AllLeft()
    {
      assert old(LeftOk(z)) && old(RightOk(z)) && old(LeftOk(y)) && old(RightOk(y)) && old(UpOk(y));
      forall n <- nodes ensures LeftOk(n) {
        assert old(LeftOk(n));
      }
    }

    twostate lemma UnlinkedKeepsRight(z: Node, new y: Node)
      requires y in old(nodes) && old(Shape()) && old(Leaver(z, y)) && Narrowed(z, y) && Unlinked(z, y)
      ensures AllRight()
    {
      assert old(LeftOk(z)) && old(RightOk(z)) && old(LeftOk(y)) && old(RightOk(y)) && old(UpOk(y));
      forall n <- nodes ensures RightOk(n) {
        assert old(RightOk(n));
      }
    }

    twostate lemma SplicedKeepsUp(z: Node)
      requires old(Shape()) && old(Leaver(z, z)) && Narrowed(z, z) && Unlinked(z, z)
      ensures AllUp()
    {
      assert old(LeftOk(z)) && old(RightOk(z)) && old(UpOk(z));
      forall n <- nodes ensures UpOk(n) {
        assert old(UpOk(n));
      }
    }

    twostate lemma ReplacedKeepsUp(z: Node, new y: Node)
      requires y in old(nodes) && y != z && old(Shape()) && old(Leaver(z, y)) && Narrowed(z, y) && Unlinked(z, y)
      ensures AllUp()
    {
      assert old(LeftOk(z)) && old(RightOk(z)) && old(LeftOk(y)) && old(RightOk(y)) && old(UpOk(y)) && old(UpOk(z));
      if old(y.parent) in old(nodes) { assert old(LeftOk(y.parent)) && old(RightOk(y.parent)); }
      forall n <- nodes ensures UpOk(n) {
        assert old(UpOk(n));
      }
    }

    twostate lemma UnlinkedKeepsRooted(z: Node, new y: Node)
      requires y in old(nodes) && old(Shape()) && old(Leaver(z, y)) && Narrowed(z, y) && Unlinked(z, y)
      ensures Rooted()
    {
      assert old(LeftOk(z)) && old(RightOk(z)) && old(UpOk(z)) && old(LeftOk(y)) && old(RightOk(y)) && old(UpOk(y));
    }

    twostate lemma UnlinkedKeepsShape(z: Node, new y: Node)
      requires y in old(nodes) && old(Shape()) && old(Leaver(z, y)) && Narrowed(z, y) && Unlinked(z, y)
      ensures Shape()
    {
      NarrowedKeepsSpans(z, y);
      UnlinkedKeepsLeft(z, y);
      UnlinkedKeepsRight(z, y);
      UnlinkedKeepsRooted(z, y);
      if y == z { SplicedKeepsUp(z); } else { ReplacedKeepsUp(z, y); }
    }

    // Sizes. The nodes above the leaver lose one; the leaver then takes the size of z.

    lemma EndingAfter(z: Node, n: Node)
      requires Shape() && z in nodes && n in nodes && z.right != null
      ensures n.hi != z.pos + 1
    {
      assert RightOk(z);
      if Covers(n, z) {
        CoveredSpan(n, z);
      }
    }

    // The sizes once the leaver was discounted, y having the size due in the place of z.
    ghost predicate Discounted(z: Node, y: Node)
      requires z in nodes && y in nodes
      reads this, nodes`size, nodes`lo, nodes`hi, nodes`pos
    {
      && (forall n <- nodes | n != y && n != z :: n.size == n.hi - n.lo - if Covers(n, y) then 1 else 0)
      && (y != z ==> y.size == z.hi - z.lo - 1 && forall n <- nodes :: n.hi != z.pos + 1)
    }

    twostate lemma NarrowedKeepsSizes(z: Node, new y: Node)
      requires y in old(nodes) && z in old(nodes) && Narrowed(z, y)
      requires old(Leaver(z, y)) && old(Spans()) && old(Discounted(z, y))
      requires forall n <- nodes :: n.size == old(n.size)
      ensures Sized()
    {
    }

    method Discount(z: Node, y: Node)
      requires Shape() && Sized() && Leaver(z, y)
      modifies nodes`size
      ensures Discounted(z, y)
    {
      assert RightOk(z);
      AddToAncestors(y, -1);
      if y != z {
        y.size := z.size;
        forall n <- nodes ensures n.hi != z.pos + 1 {
          EndingAfter(z, n);
        }
      }
    }

    // Colours: y takes the colour of z, so the tree lacks a node of the colour y had.
    twostate predicate Inherited(z: Node, new y: Node)
      reads this, nodes`color, nodes`bh
    {
      && y in old(nodes) && z in old(nodes) && nodes <= old(nodes)
      && (forall n <- nodes :: n.color == if n == y then old(z.color) else old(n.color))
      && (forall n <- nodes :: n.bh == if n == y then old(z.bh) else old(n.bh))
    }

    // The node below which the leaver is missing.
    ghost function HoleParent(z: Node, y: Node): Node?
      reads y`parent
    {
      if y != z && y.parent == z then y else y.parent
    }

    twostate lemma UnlinkedRedLeaves(z: Node, new y: Node)
      requires y in old(nodes) && old(Shape()) && old(Leaver(z, y)) && Unlinked(z, y) && Inherited(z, y)
      requires nodes == old(nodes) - {z}
      requires old(AllBlack(null)) && old(y.color) == Red
      ensures AllBlack(null)
    {
      assert old(LeftOk(z)) && old(RightOk(z)) && old(LeftOk(y)) && old(RightOk(y)) && old(UpOk(y));
      assert old(BlackOk(z)) && old(BlackOk(y));
      forall n <- nodes ensures BlackOk(n) {
        assert old(BlackOk(n)) && old(LeftOk(n)) && old(RightOk(n));
      }
    }

    twostate lemma UnlinkedRedLeavesRed(z: Node, new y: Node)
      requires y in old(nodes) && old(Shape()) && old(Leaver(z, y)) && Unlinked(z, y) && Inherited(z, y)
      requires nodes == old(nodes) - {z}
      requires old(AllRed(null)) && old(y.color) == Red
      ensures AllRed(null)
    {
      assert old(LeftOk(z)) && old(RightOk(z)) && old(LeftOk(y)) && old(RightOk(y)) && old(UpOk(y));
      assert old(RedOk(z, null)) && old(RedOk(y, null));
      forall n <- nodes ensures RedOk(n, null) {
        assert old(RedOk(n, null)) && old(LeftOk(n)) && old(RightOk(n));
      }
    }

    twostate lemma UnlinkedBlackLeaves(z: Node, new y: Node)
      requires y in old(nodes) && old(Shape()) && old(Leaver(z, y)) && Unlinked(z, y) && Inherited(z, y)
      requires nodes == old(nodes) - {z}
      requires old(AllBlack(null)) && old(y.color) == Black && old(HoleParent(z, y)) in nodes
      ensures AllBlack(old(HoleParent(z, y)))
    {
      var p := old(HoleParent(z, y));
      assert old(LeftOk(z)) && old(RightOk(z)) && old(LeftOk(y)) && old(RightOk(y)) && old(UpOk(y));
      assert old(BlackOk(z)) && old(BlackOk(y));
      forall n <- nodes | n != p ensures BlackOk(n) {
        assert old(BlackOk(n)) && old(LeftOk(n)) && old(RightOk(n));
      }
    }

    twostate lemma UnlinkedBlackLeavesRed(z: Node, new y: Node)
      requires y in old(nodes) && old(Shape()) && old(Leaver(z, y)) && Unlinked(z, y) && Inherited(z, y)
      requires nodes == old(nodes) - {z}
      requires old(AllRed(null))
      ensures AllRed(old(OnlyChild(y)))
    {
      var x := old(OnlyChild(y));
      assert old(LeftOk(z)) && old(RightOk(z)) && old(LeftOk(y)) && old(RightOk(y)) && old(UpOk(y));
      assert old(RedOk(z, null)) && old(RedOk(y, null));
      forall n <- nodes ensures RedOk(n, x) {
        assert old(RedOk(n, null)) && old(LeftOk(n)) && old(RightOk(n));
      }
    }

    twostate lemma UnlinkedShort(z: Node, new y: Node)
      requires y in old(nodes) && old(Shape()) && old(Leaver(z, y)) && Unlinked(z, y) && Inherited(z, y)
      requires nodes == old(nodes) - {z}
      requires old(AllBlack(null)) && old(y.color) == Black && old(HoleParent(z, y)) in nodes
      ensures var p, x := old(HoleParent(z, y)), old(OnlyChild(y));
        (p.left == x && Short(p, ToLeft)) || (p.right == x && Short(p, ToRight))
    {
      var p, x := old(HoleParent(z, y)), old(OnlyChild(y));
      assert old(LeftOk(z)) && old(RightOk(z)) && old(LeftOk(y)) && old(RightOk(y)) && old(UpOk(y));
      assert old(BlackOk(z)) && old(BlackOk(y)) && old(BlackOk(p)) && old(LeftOk(p)) && old(RightOk(p));
      if y != z && old(y.parent) == z { assert Short(p, ToRight); }
      else if old(p.left) == y { assert p.left == x && Short(p, ToLeft); }
      else { assert p.right == x && Short(p, ToRight); }
    }

    ghost method Narrow(z: Node, y: Node)
      requires Indexed() && z in nodes && y in nodes
      modifies this, nodes`pos, nodes`lo, nodes`hi
      ensures Narrowed(z, y)
    {
      var i, lo, hi := z.pos, z.lo, z.hi;
      forall n <- nodes - {z} { n.pos := n.pos - if n.pos > i then 1 else 0; }
      forall n <- nodes - {z} {
        n.lo := if n == y then lo else n.lo - if n.lo > (if y == z then i else i + 1) then 1 else 0;
      }
      forall n <- nodes - {z} { n.hi := if n == y then hi - 1 else n.hi - if n.hi > i then 1 else 0; }
      order := order[..i] + order[i + 1..];
      nodes := nodes - {z};
    }

    // z has at most one child: it is linked in the place of z.
    method RelinkSpliced(z: Node)
      requires Shape() && Leaver(z, z)
      modifies header`parent, nodes`parent, nodes`left, nodes`right
      ensures Unlinked(z, z)
      ensures z.parent == old(z.parent) && z.left == old(z.left) && z.right == old(z.right)
    {
      assert LeftOk(z) && RightOk(z) && UpOk(z);
      OnlyParentPoints(z);
      var x := if z.left == null then z.right else z.left;
      SetParent(x, z.parent);
      ReplaceChild(z, x);
    }

    lemma ChildrenOf(z: Node)
      requires Shape() && z in nodes
      ensures forall n <- nodes :: n.parent == z <==> n == z.left || n == z.right
    {
      assert LeftOk(z) && RightOk(z);
      forall n <- nodes ensures n.parent == z <==> n == z.left || n == z.right {
        assert UpOk(n);
      }
    }

    // y, below the right child of z, leaves its place to its child and adopts that right child.
    method LeavePlace(z: Node, y: Node)
      requires {z, y} <= nodes && z.right in nodes && y.parent in nodes && y.parent != y && y != z.right
      requires y.right != null ==> y.right in nodes && y.right != z.right
      modifies nodes`parent, nodes`left, y`right
      ensures forall n <- nodes :: n.parent == if n == z.right then y else if n == old(y.right) then y.parent
        else old(n.parent)
      ensures forall n <- nodes :: n.left == if n == y.parent then old(y.right) else old(n.left)
      ensures y.right == z.right
    {
      var x := y.right;
      SetParent(x, y.parent);
      y.parent.left := x;
      y.right := z.right;
      z.right.parent := y;
    }

    // y, the successor of z, adopts the children of z.
    method Adopt(z: Node, y: Node)
      requires Shape() && Leaver(z, y) && y != z
      modifies nodes`parent, nodes`left, nodes`right
      ensures y.parent == old(y.parent) && y.left == old(z.left)
        && y.right == if y == old(z.right) then old(y.right) else old(z.right)
      ensures forall n <- nodes | n != y ::
        n.parent == (if n == old(y.right) && y != old(z.right) then old(y.parent) else if old(n.parent) == z then y
          else old(n.parent))
      ensures forall n <- nodes | n != y :: n.left == (if old(n.left) == y then old(y.right) else old(n.left))
      ensures forall n <- nodes | n != y :: n.right == old(n.right)
    {
      assert LeftOk(z) && RightOk(z) && LeftOk(y) && RightOk(y) && UpOk(y);
      OnlyParentPoints(y);
      ChildrenOf(z);
      assert y.parent in nodes && LeftOk(y.parent) && RightOk(y.parent);
      z.left.parent := y;
      y.left := z.left;
      if y != z.right {
        LeavePlace(z, y);
      }
    }

    method RelinkReplaced(z: Node, y: Node)
      requires Shape() && Leaver(z, y) && y != z
      modifies header`parent, nodes`parent, nodes`left, nodes`right
      ensures Unlinked(z, y)
    {
      assert LeftOk(z) && RightOk(z) && UpOk(z) && LeftOk(y) && RightOk(y) && UpOk(y);
      OnlyParentPoints(z);
      assert y.parent in nodes && LeftOk(y.parent) && RightOk(y.parent);
      Adopt(z, y);
      ReplaceChild(z, y);
      y.parent := z.parent;
    }

    method Minimum(x: Node) returns (m: Node)
      requires Shape() && x in nodes
      ensures m in nodes && m.left == null && m.pos == x.lo
    {
      m := x;
      assert LeftOk(m);
      while m.left != null
        invariant m in nodes && m.lo == x.lo && LeftOk(m)
        decreases m.hi - m.lo
      {
        m := m.left;
        assert LeftOk(m);
      }
    }

    method Maximum(x: Node) returns (m: Node)
      requires Shape() && x in nodes
      ensures m in nodes && m.right == null && m.pos == x.hi - 1
    {
      m := x;
      assert RightOk(m);
      while m.right != null
        invariant m in nodes && m.hi == x.hi && RightOk(m)
        decreases m.hi - m.lo
      {
        m := m.right;
        assert RightOk(m);
      }
    }

    // The node that physically leaves its place, see Leaver.
    method FindLeaver(z: Node) returns (y: Node)
      requires Shape() && z in nodes
      ensures Leaver(z, y)
    {
      y := z;
      assert RightOk(z);
      if z.left != null && z.right != null {
        y := Minimum(z.right);
      }
    }

    twostate lemma UnlinkedKeepsTree(z: Node, new y: Node)
      requires y in old(nodes) && old(Shape()) && old(Leaver(z, y)) && old(Discounted(z, y))
      requires Narrowed(z, y) && Unlinked(z, y) && forall n <- nodes :: n.size == old(n.size)
      ensures Shape() && Sized()
    {
      UnlinkedKeepsShape(z, y);
      NarrowedKeepsSizes(z, y);
    }

    // z, with a free child slot, is unlinked.
    method Splice(z: Node)
      requires Shape() && Leaver(z, z) && Discounted(z, z)
      modifies this, header`parent, nodes`parent, nodes`left, nodes`right, nodes`pos, nodes`lo, nodes`hi
      ensures Unlinked(z, z) && Narrowed(z, z) && Shape() && Sized()
      ensures z.parent == old(z.parent) && z.left == old(z.left) && z.right == old(z.right)
    {
      RelinkSpliced(z);
      Narrow(z, z);
      UnlinkedKeepsTree(z, z);
    }

    method PassColor(z: Node, y: Node)
      requires z in nodes && y in nodes && z != y
      modifies nodes`color, nodes`bh
      ensures forall n <- nodes :: n.color == if n == y then old(z.color) else if n == z then old(y.color)
        else old(n.color)
      ensures forall n <- nodes :: n.bh == if n == y then old(z.bh) else old(n.bh)
    {
      y.color, z.color := z.color, y.color;
      y.bh := z.bh;
    }

    // z is unlinked, its successor y taking its place.
    method Replace(z: Node, y: Node)
      requires Shape() && Leaver(z, y) && y != z && Discounted(z, y)
      modifies this, header`parent, nodes`parent, nodes`left, nodes`right, nodes`pos, nodes`lo, nodes`hi, nodes`color,
        nodes`bh
      ensures Unlinked(z, y) && Narrowed(z, y) && Inherited(z, y) && Shape() && Sized()
      ensures z.color == old(y.color)
    {
      TakePlace(z, y);
      Narrow(z, y);
      UnlinkedKeepsTree(z, y);
    }

    method TakePlace(z: Node, y: Node)
      requires Shape() && Leaver(z, y) && y != z
      modifies header`parent, nodes`parent, nodes`left, nodes`right, nodes`color, nodes`bh
      ensures Unlinked(z, y)
      ensures forall n <- nodes :: n.color == if n == y then old(z.color) else if n == z then old(y.color)
        else old(n.color)
      ensures forall n <- nodes :: n.bh == if n == y then old(z.bh) else old(n.bh)
    {
      RelinkReplaced(z, y);
      PassColor(z, y);
    }

    // Where the ends of the order lie next to z, which has a free child slot.
    ghost predicate Neighbours(z: Node, i: int, o: seq<Node>)
      reads z`left, z`right, z`parent
    {
      && 0 <= i < |o| && o[i] == z
      && (o[0] == z ==> i == 0) && (o[|o| - 1] == z ==> i == |o| - 1)
      && (i == 0 ==> z.left == null && (z.right == null ==> z.parent == if |o| == 1 then header else o[1]))
      && (i == |o| - 1 ==> z.right == null && (z.left == null ==> z.parent == if |o| == 1 then header else o[|o| - 2]))
    }

    lemma NeighboursOf(z: Node)
      requires Shape() && z in nodes
      ensures Neighbours(z, z.pos, order)
    {
      assert LeftOk(z) && RightOk(z) && UpOk(z);
      if z.parent != header {
        assert LeftOk(z.parent) && RightOk(z.parent);
      }
      if 1 < |order| {
        assert At(order, 1).pos == 1 && At(order, |order| - 2).pos == |order| - 2;
        if z.parent == header {
          assert At(order, 0) in nodes && At(order, |order| - 1) in nodes;
        }
      }
      assert At(order, 0).pos == 0 && At(order, |order| - 1).pos == |order| - 1;
    }

    // The header pointers to the first and last node leave z, which was at index i of o.
    method MoveEnds(z: Node, ghost i: int, ghost o: seq<Node>)
      requires Shape() && z !in nodes && Neighbours(z, i, o) && order == o[..i] + o[i + 1..]
      requires z.right != null ==> z.right in nodes && z.right.lo == i
      requires z.left != null ==> z.left in nodes && z.left.hi == i
      requires header.left == o[0] && header.right == o[|o| - 1]
      modifies header`left, header`right
      ensures Ends()
    {
      if header.left == z {
        if z.right == null {
          header.left := z.parent;
        } else {
          var m := Minimum(z.right);
          header.left := m;
        }
      }
      if header.right == z {
        if z.left == null {
          header.right := z.parent;
        } else {
          var m := Maximum(z.left);
          header.right := m;
        }
      }
    }

    // The tree is balanced, or lacks a black node below p.
    ghost predicate Cut(c: Color, x: Node?, p: Node)
      reads this, header`parent, nodes
    {
      && Shape() && Sized()
      && (c == Red ==> AllBlack(null) && AllRed(null) && (header.parent != null ==> header.parent.color == Black))
      && (c == Black ==> Missing(x, p))
    }

    twostate lemma UnlinkedCut(z: Node, new y: Node)
      requires y in old(nodes) && old(Shape()) && old(Leaver(z, y)) && Unlinked(z, y) && Inherited(z, y)
      requires nodes == old(nodes) - {z} && Shape() && Sized()
      requires old(Balanced()) && z.color == old(y.color) && old(HoleParent(z, y)) != null
      ensures Cut(z.color, old(OnlyChild(y)), old(HoleParent(z, y)))
    {
      var x, p := old(OnlyChild(y)), old(HoleParent(z, y));
      assert old(LeftOk(z)) && old(RightOk(z)) && old(LeftOk(y)) && old(RightOk(y)) && old(UpOk(y)) && old(UpOk(z));
      if z.color == Red {
        UnlinkedRedLeaves(z, y);
        UnlinkedRedLeavesRed(z, y);
      } else {
        UnlinkedBlackLeavesRed(z, y);
        RedButExempt(x);
        if p == header {
          UnlinkedRootLeaves(z, y);
        } else {
          UnlinkedBlackLeaves(z, y);
          UnlinkedShort(z, y);
        }
      }
    }

    lemma RedButExempt(x: Node?)
      requires AllRed(x)
      ensures AllRedBut(x)
    {
    }

    twostate lemma UnlinkedRootLeaves(z: Node, new y: Node)
      requires y in old(nodes) && old(Shape()) && old(Leaver(z, y)) && Unlinked(z, y) && Inherited(z, y)
      requires nodes == old(nodes) - {z} && old(AllBlack(null)) && old(HoleParent(z, y)) == header
      ensures AllBlack(null)
    {
      assert old(LeftOk(z)) && old(RightOk(z)) && old(LeftOk(y)) && old(RightOk(y)) && old(UpOk(y));
      forall n <- nodes ensures BlackOk(n) {
        assert old(BlackOk(n)) && old(LeftOk(n)) && old(RightOk(n));
      }
    }

    method SpliceOut(z: Node) returns (x: Node?, p: Node)
      requires Shape() && Leaver(z, z) && Discounted(z, z) && Balanced()
      modifies this, header`parent, nodes`parent, nodes`left, nodes`right, nodes`pos, nodes`lo, nodes`hi
      ensures Narrowed(z, z) && Cut(z.color, x, p)
      ensures z.parent == old(z.parent) && z.left == old(z.left) && z.right == old(z.right)
    {
      assert UpOk(z);
      p := z.parent;
      x := if z.left == null then z.right else z.left;
      Splice(z);
      UnlinkedCut(z, z);
    }

    method ReplaceOut(z: Node, y: Node) returns (x: Node?, p: Node)
      requires Shape() && Leaver(z, y) && y != z && Discounted(z, y) && Balanced()
      modifies this, header`parent, nodes`parent, nodes`left, nodes`right, nodes`pos, nodes`lo, nodes`hi, nodes`color,
        nodes`bh
      ensures Narrowed(z, y) && Cut(z.color, x, p)
    {
      assert UpOk(y);
      p := if y.parent == z then y else y.parent;
      x := y.right;
      Replace(z, y);
      UnlinkedCut(z, y);
    }

    method ExtractSpliced(z: Node) returns (x: Node?, p: Node)
      requires Shape() && Leaver(z, z) && Discounted(z, z) && Balanced() && Ends()
      modifies this, header`parent, header`left, header`right, nodes`parent, nodes`left, nodes`right, nodes`pos,
        nodes`lo, nodes`hi
      ensures nodes == old(nodes) - {z} && order == old(order[..z.pos]) + old(order[z.pos + 1..])
      ensures Cut(z.color, x, p) && Ends()
    {
      ghost var i, o := z.pos, order;
      x, p := SpliceBetween(z);
      MoveEnds(z, i, o);
    }

    method SpliceBetween(z: Node) returns (x: Node?, p: Node)
      requires Shape() && Leaver(z, z) && Discounted(z, z) && Balanced()
      modifies this, header`parent, nodes`parent, nodes`left, nodes`right, nodes`pos, nodes`lo, nodes`hi
      ensures nodes == old(nodes) - {z} && order == old(order[..z.pos]) + old(order[z.pos + 1..]) && Cut(z.color, x, p)
      ensures Neighbours(z, old(z.pos), old(order))
      ensures z.right != null ==> z.right in nodes && z.right.lo == old(z.pos)
      ensures z.left != null ==> z.left in nodes && z.left.hi == old(z.pos)
    {
      NeighboursOf(z);
      x, p := SpliceOut(z);
      NarrowedChildren(z);
    }

    // The children of z keep their places.
    twostate lemma NarrowedChildren(z: Node)
      requires old(Shape()) && old(Leaver(z, z)) && Narrowed(z, z) && z.left == old(z.left) && z.right == old(z.right)
      ensures z.right != null ==> z.right in nodes && z.right.lo == old(z.pos)
      ensures z.left != null ==> z.left in nodes && z.left.hi == old(z.pos)
    {
      assert old(LeftOk(z)) && old(RightOk(z));
    }

    method ExtractReplaced(z: Node, y: Node) returns (x: Node?, p: Node)
      requires Shape() && Leaver(z, y) && y != z && Discounted(z, y) && Balanced() && Ends()
      modifies this, header`parent, nodes`parent, nodes`left, nodes`right, nodes`pos, nodes`lo, nodes`hi, nodes`color,
        nodes`bh
      ensures nodes == old(nodes) - {z} && order == old(order[..z.pos]) + old(order[z.pos + 1..])
      ensures Cut(z.color, x, p) && Ends()
    {
      assert LeftOk(z) && RightOk(z);
      x, p := ReplaceOut(z, y);
    }

    // Extraction but for the fix-up.
    method Detach(z: Node) returns (x: Node?, p: Node)
      requires Shape() && Sized() && Balanced() && Ends() && z in nodes
      modifies this, header`parent, header`left, header`right, nodes`parent, nodes`left, nodes`right, nodes`pos,
        nodes`lo, nodes`hi, nodes`size, nodes`color, nodes`bh
      ensures nodes == old(nodes) - {z} && order == old(order[..z.pos]) + old(order[z.pos + 1..])
      ensures Cut(z.color, x, p) && Ends()
    {
      var y := FindLeaver(z);
      Discount(z, y);
      if y == z {
        x, p := ExtractSpliced(z);
      } else {
        x, p := ExtractReplaced(z, y);
      }
    }

    method Extract(z: Node)
      requires Valid() && z in nodes
      modifies this, header`parent, header`left, header`right, nodes`parent, nodes`left, nodes`right, nodes`pos,
        nodes`lo, nodes`hi, nodes`size, nodes`color, nodes`bh
      ensures Valid() && nodes == old(nodes) - {z}
      ensures order == old(order[..z.pos]) + old(order[z.pos + 1..])
    {
      var x, p := Detach(z);
      if z.color != Red {
        FixMissing(x, p);
      }
    }

    // Traversal.

    lemma NotCovering(n: Node)
      requires Shape() && n in nodes && n.parent in nodes
      ensures n == n.parent.right ==> n.hi == n.parent.hi && n.lo == n.parent.pos + 1
      ensures n == n.parent.left ==> n.lo == n.parent.lo && n.hi == n.parent.pos
      ensures n == n.parent.left <==> n != n.parent.right
    {
      assert UpOk(n) && LeftOk(n.parent) && RightOk(n.parent);
    }

    // The node after x in the order; the header after the last one.
    method Increment(x0: Node) returns (x: Node)
      requires Valid() && x0 in nodes
      ensures x == if x0.pos + 1 < |order| then order[x0.pos + 1] else header
    {
      x := x0;
      assert RightOk(x) && UpOk(x);
      if x.right != null {
        x := Minimum(x.right);
        assert At(order, x.pos) == x;
      } else {
        var y := x.parent;
        while x == y.right
          invariant (x in nodes && x.hi == x0.pos + 1 && y == x.parent && y != null)
            || (x == header && y == header.parent && y == order[|order| - 1] && x0 == y)
          invariant x == header ==> y in nodes && y.right == null
          decreases if x == header then 0 else 1 + |order| - (x.hi - x.lo)
        {
          if x != header {
            assert UpOk(x);
            if y != header { NotCovering(x); assert UpOk(y); }
          }
          x := y;
          y := y.parent;
        }
        if x != header {
          assert UpOk(x) && RightOk(x);
          if y != header { NotCovering(x); assert At(order, y.pos) == y; }
        }
        if x.right != y {
          x := y;
        }
      }
    }

    // The test by which decrement tells the header from the root holds of the header only.
    lemma NotLikeHeader(x: Node)
      requires Shape() && Balanced() && x in nodes
      ensures x.parent != null && !(x.color == Red && x.parent.parent == x)
    {
      assert UpOk(x);
      if x.parent != header {
        NotCovering(x);
        assert UpOk(x.parent) && LeftOk(x) && RightOk(x);
      }
    }

    // The node before x in the order; the last one before the header.
    method Decrement(x0: Node) returns (x: Node)
      requires Valid() && order != []
      requires x0 == header || (x0 in nodes && x0.pos != 0)
      ensures x == if x0 == header then order[|order| - 1] else order[x0.pos - 1]
    {
      x := x0;
      assert header.parent != null;
      if x != header { NotLikeHeader(x); }
      if x.color == Red && x.parent.parent == x {
        x := x.right;
      } else if x.left != null {
        assert LeftOk(x);
        x := Maximum(x.left);
        assert At(order, x.pos) == x;
      } else {
        var y := x.parent;
        assert LeftOk(x) && UpOk(x);
        while x == y.left
          invariant x in nodes && x.lo == x0.pos && y == x.parent && y != null
          decreases |order| - (x.hi - x.lo)
        {
          assert UpOk(x);
          NotCovering(x);
          assert UpOk(y);
          x := y;
          y := y.parent;
        }
        assert UpOk(x);
        NotCovering(x);
        assert At(order, y.pos) == y;
        x := y;
      }
    }

    lemma FreeBefore(b: Node, n: Node)
      requires Shape() && order != [] && (n == header || (n in nodes && n.pos != 0 && n.left != null))
      requires b == if n == header then order[|order| - 1] else order[n.pos - 1]
      ensures b in nodes && b.right == null && b.pos == if n == header then |order| - 1 else n.pos - 1
    {
      assert n != header ==> LeftOk(n);
      assert b == At(order, if n == header then |order| - 1 else n.pos - 1);
      assert RightOk(b);
      if n != header && b.right != null {
        CoveredSpan(b.right, n);
      }
    }

    // Of two neighbours in the order, one hangs in the free slot of the other.
    lemma OnlyOneFree(b: Node, n: Node)
      requires Shape() && b in nodes && n in nodes && n.pos == b.pos + 1 && b.right != null
      ensures n.left == null
    {
      assert RightOk(b) && LeftOk(n);
      CoveredSpan(b.right, n);
    }

    lemma FreeEnds()
      requires Shape() && Ends() && order != []
      ensures {header.left, header.right} <= nodes
      ensures header.left.left == null && header.left.pos == 0
      ensures header.right.right == null && header.right.pos == |order| - 1
    {
      assert At(order, 0) == header.left && At(order, |order| - 1) == header.right;
      assert LeftOk(header.left) && RightOk(header.right);
    }

    lemma EmptyEnds()
      requires Indexed() && Ends() && (header.left == null || header.left == header)
      ensures order == []
    {
      assert order != [] ==> header.left == At(order, 0);
    }

    // Puts x back just before position, a node of the tree or the header.
    method Restore(x: Node, position: Node)
      requires Valid() && x !in nodes && x != header && position in nodes + {header}
      modifies this, header, nodes, x
      ensures Valid() && nodes == old(nodes) + {x}
      ensures var i := if position == header then |old(order)| else old(position.pos);
        0 <= i <= |old(order)| && order == old(order[..i]) + [x] + old(order[i..])
      ensures forall n <- nodes :: n.value == old(n.value)
    {
      if position.left == null || position.left == header {
        assert position in nodes ==> LeftOk(position);
        if position == header { EmptyEnds(); }
        Link(x, ToLeft, position);
      } else {
        assert position in nodes ==> LeftOk(position);
        var before := Decrement(position);
        FreeBefore(before, position);
        Link(x, ToRight, before);
      }
    }

    // Order statistics.

    method Nth(n0: int) returns (x: Node)
      requires Shape() && Sized() && 0 <= n0
      ensures x == if n0 < |order| then order[n0] else header
    {
      var top := header.parent;
      assert top != null ==> UpOk(top);
      if top == null || n0 >= top.size {
        return header;
      }
      var n := n0;
      while true
        invariant top in nodes && top.lo + n == n0 && n0 < top.hi && 0 <= n
        decreases top.hi - top.lo
      {
        assert LeftOk(top) && RightOk(top);
        var s := SizeOf(top.left);
        if n == s {
          assert At(order, top.pos) == top;
          return top;
        }
        if n < s {
          top := top.left;
        } else {
          top := top.right;
          n := n - (s + 1);
        }
      }
    }

    // nth and rank are inverse to each other.
    method NthOfRank(x0: Node) returns (x: Node)
      requires Shape() && Sized() && x0 in nodes + {header}
      ensures x == x0
    {
      var s := Rank(x0);
      assert x0 != header ==> At(order, x0.pos) == x0;
      x := Nth(s);
    }

    method RankOfNth(n: int) returns (s: int)
      requires Shape() && Sized() && 0 <= n
      ensures s == if n < |order| then n else |order|
    {
      var x := Nth(n);
      assert n < |order| ==> At(order, n) == x;
      s := Rank(x);
    }

    method Rank(x0: Node) returns (s: int)
      requires Shape() && Sized() && x0 in nodes + {header}
      ensures s == if x0 == header then |order| else x0.pos
    {
      var top := header.parent;
      assert top != null ==> UpOk(top);
      if top == null {
        return 0;
      }
      if x0 == header {
        return top.size;
      }
      var x := x0;
      s := SizeOf(x.left);
      assert LeftOk(x);
      while x != top
        invariant x in nodes && x.lo + s == x0.pos
        decreases |order| - (x.hi - x.lo)
      {
        assert UpOk(x);
        var z := x.parent;
        NotCovering(x);
        assert LeftOk(z);
        if x == z.right {
          s := s + SizeOf(z.left) + 1;
        }
        x := z;
      }
    }

    // The tree that hangs from n, as a value.
    ghost function Below(n: Node?): Shape
      requires this.Shape() && (n != null ==> n in nodes)
      reads this, header, nodes
      decreases if n == null then 0 else n.hi - n.lo
    {
      if n == null then Nil
      else
        assert LeftOk(n) && RightOk(n);
        Fork(Below(n.left), n, n.color, Below(n.right))
    }

    lemma {:induction false} BelowOrder(n: Node?)
      requires this.Shape() && (n != null ==> n in nodes)
      ensures n == null ==> Inorder(Below(n)) == []
      ensures n != null ==> Inorder(Below(n)) == order[n.lo..n.hi]
      decreases if n == null then 0 else n.hi - n.lo
    {
      if n != null {
        assert LeftOk(n) && RightOk(n);
        BelowOrder(n.left);
        BelowOrder(n.right);
        assert order[n.pos] == At(order, n.pos) == n;
        SplitAround(order, n.lo, n.pos, n.hi);
      }
    }

    lemma {:induction false} BelowRedBlack(n: Node?)
      requires this.Shape() && AllBlack(null) && AllRed(null) && (n != null ==> n in nodes)
      ensures RedBlack(Below(n)) && BlackHeight(Below(n)) == (if n == null then 0 else n.bh)
      decreases if n == null then 0 else n.hi - n.lo
    {
      if n != null {
        assert LeftOk(n) && RightOk(n) && BlackOk(n) && RedOk(n, null);
        BelowRedBlack(n.left);
        BelowRedBlack(n.right);
      }
    }

    // What Valid amounts to, in terms of trees as values.
    lemma ValidMeaning()
      requires Valid()
      ensures Inorder(Below(header.parent)) == order
      ensures RedBlack(Below(header.parent)) && RootColor(Below(header.parent)) == Black
      ensures forall n <- nodes :: n.size == |Inorder(Below(n))|
      ensures Pow2((Height(Below(header.parent)) + 1) / 2) <= |order| + 1
    {
      BelowOrder(header.parent);
      BelowRedBlack(header.parent);
      if header.parent != null {
        assert UpOk(header.parent);
        assert order[0..|order|] == order;
      }
      forall n <- nodes ensures n.size == |Inorder(Below(n))| {
        BelowOrder(n);
      }
      RedBlackIsShallow(Below(header.parent));
      Pow2Monotonic((Height(Below(header.parent)) + 1) / 2, BlackHeight(Below(header.parent)));
    }
  }
}
