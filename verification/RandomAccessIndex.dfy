/** A random access index: an array of node pointers with the header in the slot after the last one. */
module RandomAccessIndex {

  import opened RndIndexNode

  // What becomes of an element to be inserted: the other indices let it in, refuse it, or throw.
  datatype Call = Admits(node: Node) | Refuses | Throws

  // The nodes let in by the first k calls.
  function Admitted(calls: seq<Call>, k: int): (xs: seq<Node>)
    requires 0 <= k <= |calls|
  {
    if k == 0 then []
    else Admitted(calls, k - 1) + if calls[k - 1].Admits? then [calls[k - 1].node] else []
  }

  // How many calls there are before the one that throws, if one does.
  function Stop(calls: seq<Call>): (k: int)
    ensures 0 <= k <= |calls| && (k < |calls| ==> calls[k].Throws?)
    ensures forall i | 0 <= i < k :: !calls[i].Throws?
  {
    if calls == [] || calls[0].Throws? then 0 else 1 + Stop(calls[1..])
  }

  lemma {:induction false} AdmittedFirst(calls: seq<Call>, j: int, k: int)
    requires 0 <= j <= k <= |calls|
    ensures |Admitted(calls, j)| <= |Admitted(calls, k)|
    ensures Admitted(calls, k)[..|Admitted(calls, j)|] == Admitted(calls, j)
    decreases k
  {
    if j < k { AdmittedFirst(calls, j, k - 1); }
  }

  // Different nodes, none of which is in s.
  ghost predicate AllNew(s: seq<Node>, xs: seq<Node>) {
    Distinct(xs) && forall i {:trigger xs[i]} | 0 <= i < |xs| :: xs[i] !in s
  }

  class Index {
    var ptrs: array<Node>
    var size: nat

    ghost predicate Valid()
      reads this, ptrs, ptrs[..]`up
    {
      size < ptrs.Length && Sound(ptrs, size + 1)
    }

    // The nodes and the header.
    ghost function All(): (s: seq<Node>)
      requires Valid()
      reads this, ptrs, ptrs[..]`up
    {
      ptrs[..size + 1]
    }

    ghost function Contents(): (s: seq<Node>)
      requires Valid()
      reads this, ptrs, ptrs[..]`up
    {
      All()[..size]
    }

    ghost function Header(): Node
      requires Valid()
      reads this, ptrs, ptrs[..]`up
    {
      All()[size]
    }

    constructor (header: Node)
      modifies header`up
      ensures Valid() && Contents() == [] && Header() == header && fresh(ptrs)
    {
      size := 0;
      ptrs := new Node[1](_ => header);
      new;
      header.up := 0;
    }

    lemma ContentsAreDistinct()
      requires Valid()
      ensures Distinct(Contents() + [Header()])
      ensures forall i {:trigger Contents()[i]} | 0 <= i < size :: Contents()[i].up == i
      ensures Header().up == size
    {
      SoundIsDistinct(ptrs, size + 1);
      assert Contents() + [Header()] == ptrs[..size + 1];
      forall i | 0 <= i <= size ensures ptrs[i].up == i {
        assert Knows(ptrs, i);
      }
    }

    // A node of the index or the header: what an iterator points to.
    ghost predicate Element(x: Node)
      requires Valid()
      reads this, ptrs, ptrs[..]`up
    {
      x in All()
    }

    ghost function Slot(x: Node): (i: nat)
      requires Valid() && Element(x)
      reads this, ptrs, ptrs[..]`up
      ensures i == x.up <= size && ptrs[i] == x
      ensures i == size <==> x == Header()
    {
      SlotOf(x);
      x.up
    }

    lemma SlotOf(x: Node)
      requires Valid() && Element(x)
      ensures 0 <= x.up <= size && ptrs[x.up] == x && (x.up == size <==> x == Header())
    {
      ContentsAreDistinct();
    }

    // Moves everything to an array with room for c nodes and the header.
    method SetCapacity(c: nat)
      requires Valid() && size <= c
      modifies this`ptrs, ptrs[..size + 1]`up
      ensures Valid() && Contents() == old(Contents()) && Header() == old(Header())
      ensures fresh(ptrs) && ptrs.Length == c + 1
    {
      var header := ptrs[size];
      var spc := new Node[c + 1](_ => header);
      Transfer(ptrs, size + 1, size + 1, spc);
      ptrs := spc;
    }
  
    // Makes room for one more node when there is none.
    method RoomForOne()
      requires Valid()
      modifies this`ptrs, ptrs[..size + 1]`up
      ensures Valid() && Contents() == old(Contents()) && Header() == old(Header())
      ensures size + 1 < ptrs.Length && (ptrs == old(ptrs) || fresh(ptrs))
    {
      var capacity := ptrs.Length - 1;
      if size == capacity {
        SetCapacity(if capacity <= 10 then 15 else capacity + capacity / 2);
      }
    }

    method PushBack(x: Node)
      requires Valid() && size + 1 < ptrs.Length && x !in Contents() && x != Header()
      modifies this`size, ptrs, ptrs[..size + 1]`up, x`up
      ensures Valid() && Contents() == old(Contents()) + [x] && Header() == old(Header())
    {
      ContentsAreDistinct();
      ghost var s := ptrs[..size];
      var header := ptrs[size];
      Put(ptrs, size + 1, header);
      Put(ptrs, size, x);
      size := size + 1;
      forall i | 0 <= i <= size ensures Knows(ptrs, i) {
        if i < size - 1 {
          assert s[i] == old(Contents()[i]) && s[i] in s;
          assert Differ(old(Contents() + [Header()]), i, size - 1);
        }
      }
    }

    // Takes x out; the header goes down with the nodes after x.
    method Erase(x: Node)
      requires Valid() && Element(x) && x != Header()
      modifies this`size, ptrs, ptrs[..size + 1]`up
      ensures Valid() && Header() == old(Header())
      ensures Contents() == old(Contents()[..Slot(x)] + Contents()[Slot(x) + 1..])
    {
      ContentsAreDistinct();
      ghost var s := ptrs[..size + 1];
      ghost var u := x.up;
      Extract(ptrs, s, x.up, size + 1);
      ShiftedDown(u, s);
      size := size - 1;
    }

    lemma ShiftedDown(u: int, s: seq<Node>)
      requires size < ptrs.Length && |s| == size + 1 && 0 <= u < size
      requires Shifted(ptrs, s, u, size, 1)
      ensures Sound(ptrs, size) && ptrs[..size] == s[..u] + s[u + 1..]
    {
      forall i | 0 <= i < size ensures Knows(ptrs, i) && ptrs[i] == (s[..u] + s[u + 1..])[i] {
        assert SlotShifted(ptrs, s, u, size, 1, i);
        assert NodeShifted(s, u, size, 1, if u <= i then i + 1 else i);
      }
    }

    method PopBack()
      requires Valid() && size > 0
      modifies this`size, ptrs, ptrs[..size + 1]`up
      ensures Valid() && Header() == old(Header())
      ensures size == old(size) - 1 && Contents() == old(Contents())[..size]
    {
      ContentsAreDistinct();
      Erase(ptrs[size - 1]);
    }

    method Relocate(position: Node, x: Node)
      requires Valid() && Element(position) && Element(x) && x != Header()
      modifies ptrs, ptrs[..size + 1]`up
      ensures Valid() && Header() == old(Header())
      ensures Moved(old(Contents()), Contents(), old(Slot(position)), old(Slot(x)), old(Slot(x)) + 1)
    {
      SlotOf(position);
      SlotOf(x);
      ghost var s, p, f := All(), position.up, x.up;
      if position != x {
        RndIndexNode.Relocate(ptrs, size + 1, position.up, x.up);
      } else {
        NotMoved(s, p, f, f + 1);
      }
      MovedInFront(s, All(), size, p, f, f + 1);
    }

    method RelocateRange(position: Node, first: Node, last: Node)
      requires Valid() && Element(position) && Element(first) && Element(last)
      requires Slot(first) <= Slot(last) && (Slot(position) < Slot(first) || Slot(last) <= Slot(position))
      modifies ptrs, ptrs[..size + 1]`up
      ensures Valid() && Header() == old(Header())
      ensures Moved(old(Contents()), Contents(), old(Slot(position)), old(Slot(first)), old(Slot(last)))
    {
      SlotOf(position);
      SlotOf(first);
      SlotOf(last);
      ghost var s, p, f, l := All(), position.up, first.up, last.up;
      if position != last {
        RndIndexNode.RelocateRange(ptrs, size + 1, position.up, first.up, last.up);
      } else {
        NotMoved(s, p, f, l);
      }
      MovedInFront(s, All(), size, p, f, l);
    }

    // Takes out the last n nodes.
    method PopBackTimes(n: nat)
      requires Valid() && n <= size
      modifies this`size, ptrs, ptrs[..size + 1]`up
      ensures Valid() && Header() == old(Header())
      ensures size == old(size) - n && Contents() == old(Contents())[..size]
    {
      ghost var s, h, nodes := Contents(), Header(), All();
      var m := n;
      while m != 0
        invariant 0 <= m <= n && Valid() && ptrs == old(ptrs)
        invariant size == old(size) - n + m && Header() == h && Contents() == s[..size]
        invariant forall x {:trigger x in All()} | x in All() :: x in nodes
      {
        ghost var t := Contents();
        assert ptrs[..size + 1] == All();
        PopBack();
        assert All() == t[..size] + [h];
        m := m - 1;
      }
    }

    // All slots hold nodes of s.
    ghost predicate Drawn(s: seq<Node>)
      reads this, ptrs
    {
      size < ptrs.Length && forall k {:trigger ptrs[k]} | 0 <= k <= size :: ptrs[k] in s
    }

    method RelocateToEnd(first: Node, last: Node)
      requires Valid() && Element(first) && Element(last) && Slot(first) <= Slot(last)
      modifies ptrs, ptrs[..size + 1]`up
      ensures Valid() && Header() == old(Header()) && Drawn(old(All()))
      ensures Contents() ==
        old(Contents()[..Slot(first)] + Contents()[Slot(last)..] + Contents()[Slot(first)..Slot(last)])
    {
      SlotOf(first);
      SlotOf(last);
      ghost var s, h, f, l := Contents(), Header(), first.up, last.up;
      ghost var nodes := All();
      assert nodes == s + [h];
      RelocateRange(ptrs[size], first, last);
      MovedHasSame(s, Contents(), size, f, l);
      MovedIs(s, Contents(), size, f, l);
      forall k {:trigger ptrs[k]} | 0 <= k <= size ensures ptrs[k] in nodes {
        assert k < size ==> Contents()[k] == ptrs[k] && Contents()[k] in Contents();
        assert k == size ==> ptrs[k] == h;
      }
    }

    // Erases the range from first to last: moves it to the end and pops it.
    method EraseRange(first: Node, last: Node)
      requires Valid() && Element(first) && Element(last) && Slot(first) <= Slot(last)
      modifies this`size, ptrs, ptrs[..size + 1]`up
      ensures Valid() && Header() == old(Header())
      ensures Contents() == old(Contents()[..Slot(first)] + Contents()[Slot(last)..])
    {
      SlotOf(first);
      SlotOf(last);
      var n := last.up - first.up;
      ghost var s, f, l := Contents(), first.up, last.up;
      RelocateToEnd(first, last);
      PopBackTimes(n);
      assert (s[..f] + s[l..] + s[f..l])[..size] == s[..f] + s[l..];
    }

    // Lets a new node in at the end.
    method Insert(x: Node)
      requires Valid() && x !in All()
      modifies this, ptrs, ptrs[..size + 1]`up, x`up
      ensures Valid() && (ptrs == old(ptrs) || fresh(ptrs)) && size == old(size) + 1
      ensures All() == old(All()[..size]) + [x] + [old(All()[size])]
    {
      RoomForOne();
      assert All() == Contents() + [Header()];
      PushBack(x);
      assert All() == Contents() + [Header()];
    }

    // The next node of xs is new to the index that has got the ones before it.
    lemma AdmittedIsNew(s: seq<Node>, h: Node, calls: seq<Call>, k: int)
      requires 0 <= k < |calls| && calls[k].Admits? && AllNew(s + [h], Admitted(calls, |calls|))
      ensures calls[k].node !in s + Admitted(calls, k) + [h] && calls[k].node in Admitted(calls, |calls|)
    {
      AdmittedFirst(calls, k + 1, |calls|);
      var xs, n := Admitted(calls, |calls|), |Admitted(calls, k)|;
      assert xs[n] == calls[k].node;
      forall i | 0 <= i < n ensures Admitted(calls, k)[i] != calls[k].node {
        assert Differ(xs, i, n) && xs[i] == Admitted(calls, k)[i];
      }
    }

    // Lets x in; all are nodes that may get another slot.
    method InsertAmong(x: Node, ghost all: seq<Node>)
      requires Valid() && x !in All() && x in all && Drawn(all)
      modifies this, ptrs, all`up
      ensures Valid() && (ptrs == old(ptrs) || fresh(ptrs)) && size == old(size) + 1
      ensures All() == old(All()[..size]) + [x] + [old(All()[size])] && Drawn(all)
    {
      ghost var s := All();
      Insert(x);
      forall k {:trigger ptrs[k]} | 0 <= k <= size ensures ptrs[k] in all {
        assert ptrs[k] == All()[k] && (k < size - 1 ==> s[k] == old(ptrs[k]));
      }
    }

    // The call of number k.
    method InsertOne(calls: seq<Call>, k: nat, ghost s: seq<Node>, ghost h: Node, ghost all: seq<Node>)
        returns (one: nat)
      requires k < |calls| && Valid() && AllNew(s + [h], Admitted(calls, |calls|))
      requires All() == s + Admitted(calls, k) + [h] && size == |s| + |Admitted(calls, k)|
      requires Drawn(all) && forall n <- Admitted(calls, |calls|) :: n in all
      modifies this, ptrs, all`up
      ensures Valid() && (ptrs == old(ptrs) || fresh(ptrs)) && Drawn(all)
      ensures All() == s + Admitted(calls, k + 1) + [h] && size == |s| + |Admitted(calls, k + 1)|
      ensures |Admitted(calls, k + 1)| == |Admitted(calls, k)| + one
    {
      one := 0;
      if calls[k].Admits? {
        AdmittedIsNew(s, h, calls, k);
        InsertAmong(calls[k].node, all);
        one := 1;
      }
    }

    // Puts the nodes of xs at the end, growing as needed; those that are refused do not come, and none does after an
    // exception.
    method InsertEach(calls: seq<Call>, ghost all: seq<Node>) returns (count: nat, threw: bool)
      requires Valid() && AllNew(All(), Admitted(calls, |calls|))
      requires Drawn(all) && forall n <- Admitted(calls, |calls|) :: n in all
      modifies this, ptrs, all`up
      ensures Valid() && (ptrs == old(ptrs) || fresh(ptrs)) && Drawn(all)
      ensures threw <==> Stop(calls) < |calls|
      ensures count == |Admitted(calls, Stop(calls))| && size == old(size) + count
      ensures All() == old(All()[..size]) + Admitted(calls, Stop(calls)) + [old(All()[size])]
    {
      ghost var s, h := Contents(), Header();
      assert All() == s + [h];
      assert s + [] + [h] == s + [h];
      count, threw := InsertFrom(calls, s, h, all);
    }

    method InsertFrom(calls: seq<Call>, ghost s: seq<Node>, ghost h: Node, ghost all: seq<Node>)
        returns (count: nat, threw: bool)
      requires Valid() && AllNew(s + [h], Admitted(calls, |calls|)) && All() == s + [] + [h] && size == |s|
      requires Drawn(all) && forall n <- Admitted(calls, |calls|) :: n in all
      modifies this, ptrs, all`up
      ensures Valid() && (ptrs == old(ptrs) || fresh(ptrs)) && Drawn(all)
      ensures (threw <==> Stop(calls) < |calls|) && count == |Admitted(calls, Stop(calls))| && size == |s| + count
      ensures All() == s + Admitted(calls, Stop(calls)) + [h]
    {
      var k := 0;
      count := 0;
      while k < |calls| && !calls[k].Throws?
        invariant 0 <= k <= Stop(calls) && Valid() && (ptrs == old(ptrs) || fresh(ptrs)) && Drawn(all)
        invariant count == |Admitted(calls, k)| && size == |s| + count && All() == s + Admitted(calls, k) + [h]
      {
        var one := InsertOne(calls, k, s, h, all);
        count, k := count + one, k + 1;
      }
      threw := k < |calls|;
    }

    // Moves the last k nodes before position.
    method RelocateTail(position: Node, k: nat)
      requires Valid() && k <= size && Element(position) && (Slot(position) < size - k || position == Header())
      modifies ptrs, ptrs[..size + 1]`up
      ensures Valid() && Header() == old(Header())
      ensures position == Header() ==> Contents() == old(Contents())
      ensures position != Header() ==>
        Contents() == old(Contents()[..Slot(position)] + Contents()[size - k..] + Contents()[Slot(position)..size - k])
    {
      SlotOf(position);
      SlotAt(ptrs[size - k], size - k);
      SlotAt(ptrs[size], size);
      ghost var t, p := Contents(), position.up;
      RelocateRange(position, ptrs[size - k], ptrs[size]);
      TailMoved(t, Contents(), p, k);
    }

    lemma TailMoved(t: seq<Node>, u: seq<Node>, p: int, k: nat)
      requires k <= |t| && (0 <= p < |t| - k || p == |t|) && Moved(t, u, p, |t| - k, |t|)
      ensures u == if p == |t| then t else t[..p] + t[|t| - k..] + t[p..|t| - k]
    {
      MovedIs(t, u, p, |t| - k, |t|);
      assert t[|t|..] == [] && t[|t| - k..|t|] == t[|t| - k..];
      assert t[..|t| - k] + t[|t| - k..] == t;
    }

    // Inserts elements before position: those that the other indices let in, up to the last one or an exception, which
    // is thrown on when they are in place.
    method InsertAll(position: Node, calls: seq<Call>) returns (threw: bool)
      requires Valid() && Element(position) && AllNew(All(), Admitted(calls, |calls|))
      modifies this, ptrs, ptrs[..size + 1]`up, Admitted(calls, |calls|)`up
      ensures Valid() && Header() == old(Header()) && (threw <==> Stop(calls) < |calls|)
      ensures Contents() ==
        old(Contents()[..Slot(position)] + Admitted(calls, Stop(calls)) + Contents()[Slot(position)..])
    {
      SlotOf(position);
      ghost var s, p, h, xs := Contents(), position.up, Header(), Admitted(calls, Stop(calls));
      ghost var all := ptrs[..size + 1] + Admitted(calls, |calls|);
      assert All() == s + [h];
      var count;
      count, threw := InsertEach(calls, all);
      AfterInsertion(s, xs, h, position, p);
      RelocateAmong(position, count, all);
    }

    method RelocateAmong(position: Node, k: nat, ghost all: seq<Node>)
      requires Valid() && k <= size && Element(position) && (Slot(position) < size - k || position == Header())
      requires Drawn(all)
      modifies ptrs, all`up
      ensures Valid() && Header() == old(Header())
      ensures position == Header() ==> Contents() == old(Contents())
      ensures position != Header() ==>
        Contents() == old(Contents()[..Slot(position)] + Contents()[size - k..] + Contents()[Slot(position)..size - k])
    {
      RelocateTail(position, k);
    }

    // Where position stands, and what is where, when xs has been let in at the end.
    lemma AfterInsertion(s: seq<Node>, xs: seq<Node>, h: Node, position: Node, p: int)
      requires Valid() && All() == s + xs + [h] && 0 <= p <= |s| && position == (s + [h])[p] && size == |s| + |xs|
      ensures Contents() == s + xs && Header() == h && Contents()[size - |xs|..] == xs
      ensures Element(position) && (p < |s| ==> Slot(position) == p) && (p == |s| ==> position == h)
      ensures p < |s| ==> position != h && Contents()[..p] == s[..p] && Contents()[p..size - |xs|] == s[p..]
    {
      SlotAt(position, if p < |s| then p else size);
    }

    lemma SlotAt(x: Node, i: nat)
      requires Valid() && i <= size && All()[i] == x
      ensures Element(x) && Slot(x) == i && x.up == i
    {
      assert Knows(ptrs, i);
    }

    method Reverse()
      requires Valid()
      modifies ptrs, ptrs[..size + 1]`up
      ensures Valid() && Header() == old(Header()) && Contents() == Reversed(old(Contents()))
    {
      ghost var s := All();
      RndIndexNode.Reverse(ptrs, size + 1, size);
      assert s[..size] == old(ptrs[..size]) && old(ptrs[size..size + 1]) == [s[size]];
    }
  
    // now has the nodes of s, the first i of them as in first, and the header where it was.
    ghost predicate Arranged(s: seq<Node>, now: seq<Node>, first: seq<Node>, i: int) {
      && |s| == |now| == |first| + 1 && 0 <= i <= |first|
      && now[|first|] == s[|first|] && Distinct(first)
      && (forall k {:trigger first[k]} | 0 <= k < |first| :: first[k] in now)
      && (forall k {:trigger now[k]} | 0 <= k < |now| :: now[k] in s)
      && (forall k {:trigger now[k]} | 0 <= k < i :: now[k] == first[k])
    }

    lemma ArrangedByOne(s: seq<Node>, now: seq<Node>, first: seq<Node>, i: int, p: int)
      requires Arranged(s, now, first, i) && i < |first| && 0 <= p < |first| && now[p] == first[i]
      ensures Arranged(s, now[i := now[p]][p := now[i]], first, i + 1)
    {
      SwappedHasSame(now, i, p);
      forall k | 0 <= k < i ensures first[k] != first[i] {
        assert Differ(first, k, i);
      }
    }

    lemma SwappedHasSame(s: seq<Node>, i: int, j: int)
      requires 0 <= i < |s| && 0 <= j < |s|
      ensures forall x {:trigger x in s} | x in s :: x in s[i := s[j]][j := s[i]]
    {
      var t := s[i := s[j]][j := s[i]];
      forall k | 0 <= k < |s| ensures s[k] in t {
        assert t[if k == i then j else if k == j then i else k] == s[k];
      }
    }

    // Puts the nodes in the order given, which lists all of them.
    method Rearrange(first: seq<Node>)
      requires Valid() && |first| == size && Distinct(first)
      requires forall i {:trigger first[i]} | 0 <= i < |first| :: first[i] in Contents()
      modifies ptrs, ptrs[..size + 1]`up
      ensures Valid() && Header() == old(Header()) && Contents() == first
    {
      ghost var s := All();
      assert s == ptrs[..size + 1];
      ContentsAreDistinct();
      for i := 0 to size
        invariant Valid() && ptrs == old(ptrs) && Arranged(s, All(), first, i)
        invariant forall k {:trigger first[k]} | 0 <= k < size :: first[k] != s[size]
      {
        SlotOf(first[i]);
        var p := first[i].up;
        ghost var now := All();
        ArrangedByOne(s, now, first, i, p);
        Swap(ptrs, size + 1, i, p);
        assert All() == now[i := now[p]][p := now[i]];
      }
    }
  }
}
