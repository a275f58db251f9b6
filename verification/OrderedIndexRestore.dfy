/** Saving an ordered non-unique index and loading it into another: the tree does what the loader of lists asks for. */
module OrderedIndexRestore {

  import opened OrdIndexNode
  import opened Ordering
  import opened OrderedIndex
  import opened OrderedIndexLoad
  import L = NodeList
  import Loader = IndexLoader
  import Saver = IndexSaver

  /* Nodes by number */

  ghost predicate Named(table: seq<Node>, o: seq<Node>) {
    L.Distinct(table) && L.Distinct(o) && forall i {:trigger o[i]} | 0 <= i < |o| :: o[i] in table
  }

  // The number of a node, its place in the table.
  function Num(table: seq<Node>, n: Node): (i: int)
    requires n in table
    ensures 0 <= i < |table| && L.At(table, i) == n
  {
    L.Pos(table, n)
  }

  // The numbers the nodes of o have in the table.
  function Names(table: seq<Node>, o: seq<Node>): (r: seq<int>)
    requires Named(table, o)
    ensures |r| == |o| && forall i {:trigger L.At(r, i)} | 0 <= i < |r| :: L.At(r, i) == Num(table, L.At(o, i))
  {
    seq(|o|, i requires 0 <= i < |o| => Num(table, o[i]))
  }

  lemma NameOf(table: seq<Node>, o: seq<Node>, n: Node)
    requires Named(table, o) && n in o
    ensures n in table && Num(table, n) in Names(table, o) && L.Pos(Names(table, o), Num(table, n)) == L.Pos(o, n)
    ensures L.Distinct(Names(table, o))
  {
    var r := Names(table, o);
    NamesDistinct(table, o);
    assert L.At(o, L.Pos(o, n)) == n && o[L.Pos(o, n)] in table;
    assert L.At(r, L.Pos(o, n)) == Num(table, n);
    L.PosAt(r, L.Pos(o, n));
  }

  lemma NamesDistinct(table: seq<Node>, o: seq<Node>)
    requires Named(table, o)
    ensures L.Distinct(Names(table, o))
  {
    var r := Names(table, o);
    forall i, j | 0 <= i < |r| && 0 <= j < |r| && i != j ensures L.Differ(r, i, j) {
      L.Apart(o, i, j);
      assert L.At(r, i) == Num(table, L.At(o, i)) && L.At(r, j) == Num(table, L.At(o, j));
      assert o[i] in table && o[j] in table;
      SamePlace(table, o[i], o[j]);
    }
  }

  lemma SamePlace(table: seq<Node>, a: Node, b: Node)
    requires a in table && b in table
    ensures Num(table, a) == Num(table, b) <==> a == b
  {
  }

  ghost function NamePointer(table: seq<Node>, p: L.Pointer<Node>): L.Pointer<int>
    requires p.To? ==> p.node in table
  {
    if p.Null? then L.Null else L.To(Num(table, p.node))
  }

  // Moving a node moves its number.
  lemma NamesMove(table: seq<Node>, o: seq<Node>, q: L.Pointer<Node>, x: Node)
    requires Named(table, o) && x in o && (q.To? ==> q.node in o && q.node != x)
    ensures Named(table, L.MoveAfter(o, q, x)) && x in table && (q.To? ==> q.node in table)
    ensures var r, p, y := Names(table, o), NamePointer(table, q), Num(table, x);
      && y in r && (p.To? ==> p.node in r && p.node != y)
      && L.MoveAfter(r, p, y) == Names(table, L.MoveAfter(o, q, x))
  {
    var t := L.MoveAfter(o, q, x);
    L.MoveAfterKeeps(o, q, x);
    forall i {:trigger t[i]} | 0 <= i < |t| ensures t[i] in table {
      assert t[i] in t && t[i] in o;
      NameOf(table, o, t[i]);
    }
    NameOf(table, o, x);
    if q.To? {
      NameOf(table, o, q.node);
      SamePlace(table, q.node, x);
    }
    var r, p, y := Names(table, o), NamePointer(table, q), Num(table, x);
    var u := L.MoveAfter(r, p, y);
    forall i | 0 <= i < |u| ensures u[i] == Names(table, t)[i] {
      MovedName(table, o, q, x, i);
      assert L.At(Names(table, t), i) == Num(table, L.At(t, i));
    }
  }

  lemma MovedName(table: seq<Node>, o: seq<Node>, q: L.Pointer<Node>, x: Node, i: int)
    requires Named(table, o) && x in o && (q.To? ==> q.node in o && q.node != x) && 0 <= i < |o|
    requires x in table && (q.To? ==> q.node in table)
    requires var r, p, y := Names(table, o), NamePointer(table, q), Num(table, x);
      && y in r && (p.To? ==> p.node in r && p.node != y)
    requires L.Pos(Names(table, o), Num(table, x)) == L.Pos(o, x)
    requires q.To? ==> L.Pos(Names(table, o), Num(table, q.node)) == L.Pos(o, q.node)
    requires L.MoveAfter(o, q, x)[i] in table
    ensures L.MoveAfter(Names(table, o), NamePointer(table, q), Num(table, x))[i] == Num(table, L.MoveAfter(o, q, x)[i])
  {
    var r, p, y := Names(table, o), NamePointer(table, q), Num(table, x);
    var e := L.Slot(o, q, x);
    L.InsertAt(L.Remove(o, x), e, x, i);
    L.InsertAt(L.Remove(r, y), e, y, i);
    if i != e {
      var j := if i < e then i else i - 1;
      L.RemoveAt(o, x, j);
      L.RemoveAt(r, y, j);
    }
  }

  /* Keys by number */

  function KeyAt(ks: seq<int>, a: int): int {
    if 0 <= a < |ks| then ks[a] else 0
  }

  predicate Below(lt: Less, ks: seq<int>, a: int, b: int) {
    lt(KeyAt(ks, a), KeyAt(ks, b))
  }

  // The comparison of the index, for the numbers of its nodes.
  function NameLess(lt: Less, ks: seq<int>): Less {
    (a, b) => Below(lt, ks, a, b)
  }

  lemma NameLessIsOrder(lt: Less, ks: seq<int>)
    requires StrictWeakOrder(lt)
    ensures StrictWeakOrder(NameLess(lt, ks))
  {
  }

  // The nodes of the index are those of the table, and have the keys ks.
  ghost predicate Keyed(ix: Index, table: seq<Node>, ks: seq<int>)
    reads ix.tree, ix.tree.nodes`pos, ix.tree.nodes`value
  {
    && ix.tree.Indexed() && Named(table, ix.tree.order) && |ks| == |table|
    && (forall i {:trigger table[i]} | 0 <= i < |table| :: table[i] in ix.tree.nodes && table[i] in ix.tree.order)
    && (forall n <- ix.tree.nodes :: n in table && n in ix.tree.order && ks[Num(table, n)] == ix.Key(n))
  }

  ghost function List(ix: Index, table: seq<Node>, ks: seq<int>): (r: seq<int>)
    requires Keyed(ix, table, ks)
    reads ix.tree, ix.tree.nodes`pos, ix.tree.nodes`value
    ensures |r| == |ix.tree.order|
  {
    Names(table, ix.tree.order)
  }

  // The place d for number y when it is to go behind p.
  ghost predicate PlaceFor(lt: Less, ks: seq<int>, list: seq<int>, p: L.Pointer<int>, y: int, d: int) {
    && 0 <= d <= |list|
    && if p.Null? || Below(lt, ks, p.node, y)
       then forall j {:trigger L.At(list, j)} | 0 <= j < |list| :: j < d <==> Below(lt, ks, L.At(list, j), y)
       else d > 0 && L.At(list, d - 1) == p.node
  }

  // The node before it is the one y follows in the list.
  lemma BehindIs(lt: Less, ks: seq<int>, list: seq<int>, p: L.Pointer<int>, y: int, d: int)
    requires StrictWeakOrder(lt) && PlaceFor(lt, ks, list, p, y, d)
    ensures Saver.Behind(list, NameLess(lt, ks), p, y) == if d == 0 then L.Null else L.To(L.At(list, d - 1))
  {
    if p.Null? || Below(lt, ks, p.node, y) {
      var less := NameLess(lt, ks);
      var i := Saver.Lower(list, less, y);
      Saver.LowerCuts(list, less, y);
      assert !Below(lt, ks, y, y);
      if i < |list| { var a := L.At(list, i); }
      if d < |list| { var b := L.At(list, d); }
    }
  }

  ghost function Number(table: seq<Node>, n: Node?): L.Pointer<int>
    requires n != null ==> n in table
  {
    if n == null then L.Null else L.To(Num(table, n))
  }

  twostate lemma BelowNodes(ix: Index, new table: seq<Node>, new ks: seq<int>, new a: Node, new b: Node)
    requires old(allocated(table)) && old(Keyed(ix, table, ks)) && a in old(ix.tree.nodes) && b in old(ix.tree.nodes)
    ensures a in table && b in table
    ensures Below(ix.lt, ks, Num(table, a), Num(table, b)) <==> old(ix.lt(ix.Key(a), ix.Key(b)))
  {
    assert KeyAt(ks, Num(table, a)) == old(ix.Key(a)) && KeyAt(ks, Num(table, b)) == old(ix.Key(b));
  }

  // The place the tree finds is that of the list.
  twostate lemma PlaceIsFor(ix: Index, new table: seq<Node>, new ks: seq<int>, new position: Node?, new x: Node,
      new d: int)
    requires old(allocated(table)) && old(Keyed(ix, table, ks)) && x in old(ix.tree.nodes)
    requires (position != null ==> position in old(ix.tree.nodes)) && old(PlaceBehind(ix, position, x, d))
    requires 0 <= d <= |old(ix.tree.order)|
    ensures PlaceFor(ix.lt, ks, old(List(ix, table, ks)), Number(table, position), Num(table, x), d)
  {
    var list, o := old(List(ix, table, ks)), old(ix.tree.order);
    var p, y := Number(table, position), Num(table, x);
    if position != null {
      BelowNodes(ix, table, ks, position, x);
    }
    if position == null || old(ix.lt(ix.Key(position), ix.Key(x))) {
      forall j {:trigger L.At(list, j)} | 0 <= j < |list|
        ensures j < d <==> Below(ix.lt, ks, L.At(list, j), y)
      {
        assert At(o, j) in old(ix.tree.nodes) && L.At(list, j) == Num(table, L.At(o, j));
        BelowNodes(ix, table, ks, At(o, j), x);
        var k := old(ix.K(j));
      }
    } else {
      assert At(o, old(position.pos)) == position && L.At(o, d - 1) == position;
      assert L.At(list, d - 1) == Num(table, L.At(o, d - 1));
    }
  }

  /* Loading into the tree */

  // The tree moves x as the list moves its number, or refuses as it does.
  method RearrangeTree(ix: Index, ghost table: seq<Node>, ghost ks: seq<int>, position: Node?, x: Node)
      returns (ok: bool)
    requires StrictWeakOrder(ix.lt) && ix.tree.Valid() && ix.Sorted() && Keyed(ix, table, ks) && x in ix.tree.nodes
    requires position != null ==> position in ix.tree.nodes && position != x
    modifies ix.tree, ix.tree.header, ix.tree.nodes
    ensures ix.tree.Valid() && ix.Sorted() && Keyed(ix, table, ks) && ix.tree.nodes == old(ix.tree.nodes)
    ensures Follows(ix.lt, ks, table, old(List(ix, table, ks)), position, x, ok, List(ix, table, ks))
  {
    ghost var o := ix.tree.order;
    ghost var d;
    NameOf(table, o, x);
    if position != null {
      NameOf(table, o, position);
      SamePlace(table, x, position);
    }
    ok, d := Rearrange(ix, position, x);
    RearrangedList(ix, table, ks, position, x, ok, d);
  }

  // What the loader of lists makes of list, when the number of x is to go behind that of position.
  ghost predicate Follows(lt: Less, ks: seq<int>, table: seq<Node>, list: seq<int>, position: Node?, x: Node, ok: bool,
      to: seq<int>) {
    && x in table && (position != null ==> position in table)
    && var p, y := Number(table, position), Num(table, x);
      && y in list && (p.To? ==> p.node in list && p.node != y)
      && Saver.Rearrange(NameLess(lt, ks), list, p, y) == if ok then Saver.Moving(y, to) else Saver.Broken
  }

  twostate lemma RearrangedList(ix: Index, new table: seq<Node>, new ks: seq<int>, new position: Node?, new x: Node,
      new ok: bool, new d: int)
    requires old(allocated(table)) && StrictWeakOrder(ix.lt) && old(Keyed(ix, table, ks)) && x in old(ix.tree.nodes)
      && ix.tree.Indexed()
    requires position != null ==> position in old(ix.tree.nodes) && position != x
    requires ix.tree.nodes == old(ix.tree.nodes) && forall n <- ix.tree.nodes :: n.value == old(n.value)
    requires ok <==> position == null || !old(ix.lt(ix.Key(x), ix.Key(position)))
    requires !ok ==> ix.tree.order == old(ix.tree.order)
    requires ok ==> old(PlaceBehind(ix, position, x, d)) && MovedBehind(old(ix.tree.order), ix.tree.order, x, d)
    ensures Keyed(ix, table, ks)
    ensures Follows(ix.lt, ks, table, old(List(ix, table, ks)), position, x, ok, List(ix, table, ks))
  {
    var list, o := old(List(ix, table, ks)), old(ix.tree.order);
    if position != null {
      BelowNodes(ix, table, ks, position, x);
      BelowNodes(ix, table, ks, x, position);
    }
    KeyedStill(ix, table, ks, x, ok, d);
    if ok { PlaceIsFor(ix, table, ks, position, x, d); }
    ListFollows(ix.lt, ks, table, o, ix.tree.order, position, x, ok, d);
  }

  twostate lemma KeyedStill(ix: Index, new table: seq<Node>, new ks: seq<int>, new x: Node, new ok: bool, new d: int)
    requires old(allocated(table)) && old(Keyed(ix, table, ks)) && x in old(ix.tree.nodes) && ix.tree.Indexed()
    requires ix.tree.nodes == old(ix.tree.nodes) && forall n <- ix.tree.nodes :: n.value == old(n.value)
    requires if ok then MovedBehind(old(ix.tree.order), ix.tree.order, x, d) else ix.tree.order == old(ix.tree.order)
    ensures Keyed(ix, table, ks)
  {
    var o := old(ix.tree.order);
    if ok {
      L.MoveAfterKeeps(o, Before(o, d), x);
      NamesMove(table, o, Before(o, d), x);
    }
  }

  // What the list becomes, on values.
  lemma ListFollows(lt: Less, ks: seq<int>, table: seq<Node>, o: seq<Node>, s: seq<Node>, position: Node?, x: Node,
      ok: bool, d: int)
    requires StrictWeakOrder(lt) && Named(table, o) && Named(table, s) && x in o && x in table
    requires position != null ==> position in o && position in table && position != x
    requires ok <==> position == null || !Below(lt, ks, Num(table, x), Num(table, position))
    requires ok ==>
      PlaceFor(lt, ks, Names(table, o), Number(table, position), Num(table, x), d) && MovedBehind(o, s, x, d)
    ensures Follows(lt, ks, table, Names(table, o), position, x, ok, Names(table, s))
  {
    NameOf(table, o, x);
    if position != null {
      NameOf(table, o, position);
      SamePlace(table, x, position);
    }
    if ok {
      var list := Names(table, o);
      BehindIs(lt, ks, list, Number(table, position), Num(table, x), d);
      NamesMove(table, o, Before(o, d), x);
      assert d > 0 ==> L.At(list, d - 1) == Num(table, L.At(o, d - 1));
      assert Saver.Behind(list, NameLess(lt, ks), Number(table, position), Num(table, x)) ==
        NamePointer(table, Before(o, d));
    }
  }

  lemma NumbersListed(ix: Index, table: seq<Node>, ks: seq<int>, a: int)
    requires Keyed(ix, table, ks)
    ensures a in List(ix, table, ks) <==> 0 <= a < |table|
    ensures 0 <= a < |table| ==> table[a] in ix.tree.nodes && Num(table, table[a]) == a
  {
    if 0 <= a < |table| {
      L.PosAt(table, a);
      NameOf(table, ix.tree.order, table[a]);
    }
    var list := List(ix, table, ks);
    if a in list {
      var j :| 0 <= j < |list| && list[j] == a;
      assert L.At(list, j) == Num(table, L.At(ix.tree.order, j));
    }
  }

  // One node of a chunk, to go behind prev, or to the front if it is prev itself; false if that cannot be.
  method LoadNode(ix: Index, table: seq<Node>, ghost ks: seq<int>, prev: int, node: int) returns (ok: bool)
    requires StrictWeakOrder(ix.lt) && ix.tree.Valid() && ix.Sorted() && Keyed(ix, table, ks) && 0 <= prev < |table|
    modifies ix.tree, ix.tree.header, ix.tree.nodes
    ensures ix.tree.Valid() && ix.Sorted() && Keyed(ix, table, ks) && ix.tree.nodes == old(ix.tree.nodes)
    ensures ok ==> 0 <= node < |table|
    ensures Saver.Step(NameLess(ix.lt, ks), Saver.Moving(prev, old(List(ix, table, ks))), L.To(node)) ==
      if ok then Saver.Moving(node, List(ix, table, ks)) else Saver.Broken
  {
    NumbersListed(ix, table, ks, prev);
    NumbersListed(ix, table, ks, node);
    if !(0 <= node < |table|) {
      return false;
    }
    var position: Node? := table[prev];
    if node == prev { position := null; }
    ok := RearrangeTree(ix, table, ks, position, table[node]);
  }

  ghost predicate Loading(ix: Index, table: seq<Node>, ks: seq<int>)
    reads ix.tree, ix.tree.header, ix.tree.nodes
  {
    StrictWeakOrder(ix.lt) && ix.tree.Valid() && ix.Sorted() && Keyed(ix, table, ks)
  }

  // Where the loader of lists is after k pointers.
  ghost predicate AtLoad(ix: Index, table: seq<Node>, ks: seq<int>, ar: seq<L.Pointer<int>>, k: int, start: seq<int>,
      l: Saver.Load) {
    0 <= k <= |ar| && Saver.Read(NameLess(ix.lt, ks), ar, k, start) == l
  }

  datatype Turn = Placed | ChunkEnded | Failed

  // Where the loading of a chunk is: behind its node prev, at its end, or given up.
  ghost predicate InChunk(ix: Index, table: seq<Node>, ks: seq<int>, ar: seq<L.Pointer<int>>, turn: Turn, prev: int,
      k: int, start: seq<int>)
    reads ix.tree, ix.tree.header, ix.tree.nodes
  {
    && Loading(ix, table, ks)
    && match turn
       case Placed =>
         0 <= prev < |table| && AtLoad(ix, table, ks, ar, k, start, Saver.Moving(prev, List(ix, table, ks)))
       case ChunkEnded => AtLoad(ix, table, ks, ar, k, start, Saver.Waiting(List(ix, table, ks)))
       case Failed => Loader.NeverEnds(NameLess(ix.lt, ks), ar, start)
  }

  // The next pointer of a chunk.
  method LoadNext(ix: Index, table: seq<Node>, ghost ks: seq<int>, ar: seq<L.Pointer<int>>, k: nat, prev: int,
      ghost start: seq<int>)
      returns (turn: Turn, next: int)
    requires InChunk(ix, table, ks, ar, Placed, prev, k, start)
    modifies ix.tree, ix.tree.header, ix.tree.nodes
    ensures ix.tree.nodes == old(ix.tree.nodes) && (!turn.Failed? ==> k < |ar|)
    ensures InChunk(ix, table, ks, ar, turn, next, k + 1, start)
  {
    next := prev;
    if k == |ar| {
      Loader.NoEnd(NameLess(ix.lt, ks), ar, k, start);
      return Failed, next;
    }
    var node := ar[k];
    if node.Null? {
      return ChunkEnded, next;
    }
    var ok := LoadNode(ix, table, ks, prev, node.node);
    if !ok {
      Loader.NoEnd(NameLess(ix.lt, ks), ar, k, start);
      return Failed, next;
    }
    turn, next := Placed, node.node;
  }

  // The nodes of a chunk behind the first, up to a null pointer.
  method LoadChunk(ix: Index, table: seq<Node>, ghost ks: seq<int>, ar: seq<L.Pointer<int>>, k0: nat, first: int,
      ghost start: seq<int>)
      returns (ok: bool, k: nat)
    requires k0 <= |ar| && InChunk(ix, table, ks, ar, Placed, first, k0, start)
    modifies ix.tree, ix.tree.header, ix.tree.nodes
    ensures ix.tree.nodes == old(ix.tree.nodes) && (ok ==> k0 < k <= |ar|)
    ensures InChunk(ix, table, ks, ar, if ok then ChunkEnded else Failed, first, k, start)
  {
    var turn, prev := Placed, first;
    k := k0;
    while turn.Placed?
      invariant k0 <= k && (!turn.Failed? ==> k <= |ar|) && (turn.ChunkEnded? ==> k0 < k)
      invariant ix.tree.nodes == old(ix.tree.nodes) && InChunk(ix, table, ks, ar, turn, prev, k, start)
      decreases if turn.Placed? then 1 + |ar| - k else 0
    {
      turn, prev := LoadNext(ix, table, ks, ar, k, prev, start);
      k := k + 1;
    }
    ok := turn.ChunkEnded?;
  }

  // Where the loading is: between two chunks, at the end of the stream, or given up.
  ghost predicate BetweenChunks(ix: Index, table: seq<Node>, ks: seq<int>, ar: seq<L.Pointer<int>>, turn: Turn, k: int,
      start: seq<int>)
    reads ix.tree, ix.tree.header, ix.tree.nodes
  {
    && Loading(ix, table, ks)
    && match turn
       case Placed => AtLoad(ix, table, ks, ar, k, start, Saver.Waiting(List(ix, table, ks)))
       case ChunkEnded => AtLoad(ix, table, ks, ar, k, start, Saver.Ended(List(ix, table, ks)))
       case Failed => Loader.NeverEnds(NameLess(ix.lt, ks), ar, start)
  }

  // The next chunk, or the end.
  method LoadTurn(ix: Index, table: seq<Node>, ghost ks: seq<int>, ar: seq<L.Pointer<int>>, k: nat,
      ghost start: seq<int>)
      returns (turn: Turn, next: nat)
    requires BetweenChunks(ix, table, ks, ar, Placed, k, start)
    modifies ix.tree, ix.tree.header, ix.tree.nodes
    ensures ix.tree.nodes == old(ix.tree.nodes) && (turn.Placed? ==> k < next <= |ar|)
    ensures BetweenChunks(ix, table, ks, ar, turn, next, start)
  {
    if k == |ar| {
      Loader.NoEnd(NameLess(ix.lt, ks), ar, k, start);
      return Failed, k;
    }
    var prev := ar[k];
    if prev.Null? {
      return ChunkEnded, k + 1;
    }
    NumbersListed(ix, table, ks, prev.node);
    if !(0 <= prev.node < |table|) {
      Loader.NoEnd(NameLess(ix.lt, ks), ar, k, start);
      return Failed, k;
    }
    var ok;
    ok, next := LoadChunk(ix, table, ks, ar, k + 1, prev.node, start);
    turn := if ok then Placed else Failed;
  }

  // Reads the order of the tree from the stream ar, up to its end.
  method Load(ix: Index, table: seq<Node>, ghost ks: seq<int>, ar: seq<L.Pointer<int>>) returns (ok: bool, next: nat)
    requires Loading(ix, table, ks)
    modifies ix.tree, ix.tree.header, ix.tree.nodes
    ensures Loading(ix, table, ks) && ix.tree.nodes == old(ix.tree.nodes)
    ensures ok ==> AtLoad(ix, table, ks, ar, next, old(List(ix, table, ks)), Saver.Ended(List(ix, table, ks)))
    ensures !ok ==> Loader.NeverEnds(NameLess(ix.lt, ks), ar, old(List(ix, table, ks)))
  {
    ghost var start := List(ix, table, ks);
    var turn := Placed;
    next := 0;
    while turn.Placed?
      invariant ix.tree.nodes == old(ix.tree.nodes) && (turn.Placed? ==> next <= |ar|)
      invariant BetweenChunks(ix, table, ks, ar, turn, next, start)
      decreases if turn.Placed? then 1 + |ar| - next else 0
    {
      turn, next := LoadTurn(ix, table, ks, ar, next, start);
    }
    ok := turn.ChunkEnded?;
  }

  /* The whole way */

  lemma KeysInOrder(ix: Index, table: seq<Node>, ks: seq<int>, os: seq<int>)
    requires Loading(ix, table, ks) && KeysOf(ix, os)
    ensures InOrder(ix.lt, os) && Saver.Ascending(NameLess(ix.lt, ks), List(ix, table, ks))
      && L.Distinct(List(ix, table, ks))
    ensures forall i {:trigger Loader.Beside(NameLess(ix.lt, ks), List(ix, table, ks), i)} | 0 <= i < |os| ::
      Loader.Beside(NameLess(ix.lt, ks), List(ix, table, ks), i) <==> Duplicate(ix.lt, os, i)
  {
    var less, list := NameLess(ix.lt, ks), List(ix, table, ks);
    NamesDistinct(table, ix.tree.order);
    forall i {:trigger L.At(list, i)} | 0 <= i < |list| ensures KeyAt(ks, L.At(list, i)) == os[i] {
      assert At(ix.tree.order, i) in ix.tree.nodes && L.At(list, i) == Num(table, L.At(ix.tree.order, i));
      assert ix.K(i) == os[i];
    }
    forall i, j {:trigger os[i], os[j]} | 0 <= i < j < |os| ensures !ix.lt(os[j], os[i]) {
      assert ix.K(i) == os[i] && ix.K(j) == os[j];
    }
    forall x, y {:trigger L.Precedes(list, x, y)} | x in list && y in list && L.Precedes(list, x, y)
      ensures !less(y, x)
    {
      assert L.At(list, L.Pos(list, x)) == x && L.At(list, L.Pos(list, y)) == y;
    }
  }

  // The keys of the nodes of a list.
  ghost function ListKeys(ks: seq<int>, list: seq<int>): (os: seq<int>)
    ensures |os| == |list| && forall i {:trigger os[i]} | 0 <= i < |os| :: os[i] == KeyAt(ks, L.At(list, i))
  {
    seq(|list|, i requires 0 <= i < |list| => KeyAt(ks, L.At(list, i)))
  }

  lemma ListKeysInOrder(ix: Index, table: seq<Node>, ks: seq<int>)
    requires Keyed(ix, table, ks)
    ensures KeysOf(ix, ListKeys(ks, List(ix, table, ks)))
  {
    var os := ListKeys(ks, List(ix, table, ks));
    forall i {:trigger ix.K(i)} {:trigger os[i]} | 0 <= i < |os| ensures ix.K(i) == os[i] {
      assert At(ix.tree.order, i) in ix.tree.nodes;
      assert L.At(List(ix, table, ks), i) == Num(table, L.At(ix.tree.order, i));
    }
  }

  // The numbers the saver starts from: those of the nodes in the order of the table.
  function Base(n: nat): (b: seq<int>)
    ensures |b| == n && forall i {:trigger L.At(b, i)} | 0 <= i < n :: L.At(b, i) == i
  {
    seq(n, i => i)
  }

  // The nodes of the index are numbered.
  lemma BaseIsList(ix: Index, table: seq<Node>, ks: seq<int>)
    requires Loading(ix, table, ks)
    ensures L.SameNodes(Base(|table|), List(ix, table, ks))
  {
    var b, list := Base(|table|), List(ix, table, ks);
    NamesDistinct(table, ix.tree.order);
    forall i, j | 0 <= i < |b| && 0 <= j < |b| && i != j ensures L.Differ(b, i, j) {
      assert L.At(b, i) == i && L.At(b, j) == j;
    }
    forall y | y in b ensures y in list {
      var i :| 0 <= i < |b| && b[i] == y;
      assert L.At(b, i) == i;
      NumbersListed(ix, table, ks, y);
    }
    forall y | y in list ensures y in b {
      NumbersListed(ix, table, ks, y);
      assert L.At(b, y) == y;
    }
    Saver.Shorter(b, list);
    Saver.Shorter(list, b);
  }

  lemma DuplicatesNamed(ix: Index, table: seq<Node>, ks: seq<int>, d: seq<Node>, places: seq<int>)
    requires Keyed(ix, table, ks) && NodesAt(ix, d, places)
    requires forall j, k {:trigger places[j], places[k]} | 0 <= j < k < |places| :: places[j] < places[k]
    ensures Named(table, d)
    ensures forall j {:trigger places[j]} | 0 <= j < |places| ::
      0 <= places[j] < |List(ix, table, ks)| && L.At(Names(table, d), j) == L.At(List(ix, table, ks), places[j])
  {
    var o := ix.tree.order;
    assert L.Distinct(o);
    forall i {:trigger d[i]} | 0 <= i < |d| ensures d[i] in table {
      var n := d[i];
      assert n == o[places[i]];
    }
    forall i, j | 0 <= i < |d| && 0 <= j < |d| && i != j ensures L.Differ(d, i, j) {
      var a, b := d[i], d[j];
      assert places[i] != places[j];
      L.Apart(o, places[i], places[j]);
    }
    forall j {:trigger places[j]} | 0 <= j < |places|
      ensures 0 <= places[j] < |List(ix, table, ks)| && L.At(Names(table, d), j) == L.At(List(ix, table, ks), places[j])
    {
      var n := d[j];
      assert L.At(List(ix, table, ks), places[j]) == Num(table, L.At(o, places[j]));
      assert L.At(Names(table, d), j) == Num(table, L.At(d, j));
    }
  }

  // Writes the order of the elements that are equivalent to others; start is the order a loading index has them in.
  method Save(ix: Index, table: seq<Node>, ks: seq<int>, ghost start: seq<int>) returns (ar: Saver.Archive)
    requires Loading(ix, table, ks) && Saver.Start(NameLess(ix.lt, ks), Base(|table|), start)
    ensures Saver.Read(NameLess(ix.lt, ks), ar.pointers, |ar.pointers|, start) == Saver.Ended(List(ix, table, ks))
    ensures fresh(ar)
  {
    ghost var os, less := ListKeys(ks, List(ix, table, ks)), NameLess(ix.lt, ks);
    ListKeysInOrder(ix, table, ks);
    KeysInOrder(ix, table, ks, os);
    BaseIsList(ix, table, ks);
    NameLessIsOrder(ix.lt, ks);
    ghost var whole := List(ix, table, ks);
    var target;
    ghost var places;
    target, places := DuplicateNames(ix, table, ks, os);
    ar := SaveNames(Base(|table|), less, whole, target, start);
  }

  method DuplicateNames(ix: Index, table: seq<Node>, ghost ks: seq<int>, ghost os: seq<int>)
      returns (target: seq<int>, ghost places: seq<int>)
    requires Loading(ix, table, ks) && KeysOf(ix, os) && InOrder(ix.lt, os)
    ensures L.Within(target, List(ix, table, ks)) && Saver.Ascending(NameLess(ix.lt, ks), target)
    ensures Saver.Covers(NameLess(ix.lt, ks), List(ix, table, ks), target)
  {
    var d;
    d, places := Duplicates(ix, os);
    DuplicatesNamed(ix, table, ks, d, places);
    KeysInOrder(ix, table, ks, os);
    NameLessIsOrder(ix.lt, ks);
    target := Names(table, d);
    Loader.DuplicatesCover(NameLess(ix.lt, ks), List(ix, table, ks), places, target);
  }

  method SaveNames(base: seq<int>, ghost less: Less, ghost whole: seq<int>, target: seq<int>, ghost start: seq<int>)
      returns (ar: Saver.Archive)
    requires StrictWeakOrder(less) && L.SameNodes(base, whole) && L.Within(target, whole)
      && Saver.Ascending(less, target)
    requires Saver.Covers(less, whole, target) && Saver.Start(less, base, start)
    ensures fresh(ar) && Saver.Read(less, ar.pointers, |ar.pointers|, start) == Saver.Ended(whole)
  {
    forall y | y in target ensures y in base { assert y in whole; }
    ar := new Saver.Archive(start, less);
    ghost var c := Saver.SaveIndex(base, whole, target, ar);
  }

  // The tree that loads what another with the same elements has saved gets its order; the stream is read to its end.
  method SaveAndLoad(ix: Index, table: seq<Node>, to: Index, copies: seq<Node>, ks: seq<int>)
      returns (ok: bool, next: nat, ar: Saver.Archive)
    requires Loading(ix, table, ks) && Loading(to, copies, ks) && to.lt == ix.lt
    requires Saver.Start(NameLess(ix.lt, ks), Base(|table|), List(to, copies, ks))
    requires to.tree != ix.tree && to.tree.header != ix.tree.header && to.tree.header !in ix.tree.nodes
    requires ix.tree.header !in to.tree.nodes && to.tree.nodes !! ix.tree.nodes
    modifies to.tree, to.tree.header, to.tree.nodes
    ensures Loading(to, copies, ks) && to.tree.nodes == old(to.tree.nodes)
    ensures ok && next == |ar.pointers| && List(to, copies, ks) == old(List(ix, table, ks))
  {
    ghost var start, whole, less := List(to, copies, ks), List(ix, table, ks), NameLess(ix.lt, ks);
    ar := Save(ix, table, ks, start);
    ghost var pointers := ar.pointers;
    ok, next := Load(to, copies, ks, ar.pointers);
    if next < |pointers| { Loader.Stuck(less, pointers, next, |pointers|, start); }
  }
}
