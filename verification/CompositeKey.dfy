/** Composite keys: several keys of a value compared one after the other, in full or against the first of them. */
module CompositeKey {

  import opened Ordering
  import OrderedIndex
  import OrdIndexNode

  type KeyFromValue = int -> int
  type Equal = (int, int) -> bool
  type Hash = int -> bv64

  function Min(m: nat, n: nat): nat {
    if m < n then m else n
  }

  /* Comparison */

  function CompareKeyKey(c0: seq<KeyFromValue>, v0: int, c1: seq<KeyFromValue>, v1: int, comp: seq<Less>): bool
    requires Min(|c0|, |c1|) <= |comp|
  {
    if c0 == [] || c1 == [] then false
    else if comp[0](c0[0](v0), c1[0](v1)) then true
    else if comp[0](c1[0](v1), c0[0](v0)) then false
    else CompareKeyKey(c0[1..], v0, c1[1..], v1, comp[1..])
  }

  function CompareKeyTuple(c: seq<KeyFromValue>, v: int, t: seq<int>, comp: seq<Less>): bool
    requires Min(|c|, |t|) <= |comp|
  {
    if c == [] || t == [] then false
    else if comp[0](c[0](v), t[0]) then true
    else if comp[0](t[0], c[0](v)) then false
    else CompareKeyTuple(c[1..], v, t[1..], comp[1..])
  }

  function CompareTupleKey(t: seq<int>, c: seq<KeyFromValue>, v: int, comp: seq<Less>): bool
    requires Min(|c|, |t|) <= |comp|
  {
    if c == [] || t == [] then false
    else if comp[0](t[0], c[0](v)) then true
    else if comp[0](c[0](v), t[0]) then false
    else CompareTupleKey(t[1..], c[1..], v, comp[1..])
  }

  // The keys of a value.
  function Keys(c: seq<KeyFromValue>, v: int): (t: seq<int>)
    ensures |t| == |c| && forall i {:trigger t[i]} | 0 <= i < |c| :: t[i] == c[i](v)
  {
    if c == [] then [] else [c[0](v)] + Keys(c[1..], v)
  }

  ghost predicate Alike(comp: seq<Less>, s: seq<int>, t: seq<int>, i: int)
    requires 0 <= i < |s| && i < |t| && i < |comp|
  {
    !comp[i](s[i], t[i]) && !comp[i](t[i], s[i])
  }

  // The keys before place n are equivalent.
  ghost predicate AlikeUpto(comp: seq<Less>, s: seq<int>, t: seq<int>, n: int) {
    0 <= n && n <= |s| && n <= |t| && n <= |comp| && forall i {:trigger Alike(comp, s, t, i)} | 0 <= i < n ::
      Alike(comp, s, t, i)
  }

  ghost predicate LessAt(comp: seq<Less>, s: seq<int>, t: seq<int>, i: int) {
    0 <= i < |s| && i < |t| && i < |comp| && AlikeUpto(comp, s, t, i) && comp[i](s[i], t[i])
  }

  // What the comparison says: the first keys that are not equivalent are in order.
  ghost predicate Lexical(comp: seq<Less>, s: seq<int>, t: seq<int>) {
    exists i {:trigger LessAt(comp, s, t, i)} :: LessAt(comp, s, t, i)
  }

  ghost predicate Orders(comp: seq<Less>) {
    forall i {:trigger comp[i]} | 0 <= i < |comp| :: StrictWeakOrder(comp[i])
  }

  lemma LexicalStep(comp: seq<Less>, s: seq<int>, t: seq<int>)
    requires |s| > 0 && |t| > 0 && |comp| > 0
    ensures Lexical(comp, s, t) <==> comp[0](s[0], t[0]) || (!comp[0](t[0], s[0]) && Lexical(comp[1..], s[1..], t[1..]))
  {
    if i :| LessAt(comp, s, t, i) {
      if i > 0 {
        assert Alike(comp, s, t, 0);
        forall j | 0 <= j < i - 1 ensures Alike(comp[1..], s[1..], t[1..], j) {
          assert Alike(comp, s, t, j + 1);
        }
        assert LessAt(comp[1..], s[1..], t[1..], i - 1);
      }
    }
    if comp[0](s[0], t[0]) {
      assert LessAt(comp, s, t, 0);
    } else if !comp[0](t[0], s[0]) {
      if j :| LessAt(comp[1..], s[1..], t[1..], j) {
        forall i | 0 <= i < j + 1 ensures Alike(comp, s, t, i) {
          if i > 0 { assert Alike(comp[1..], s[1..], t[1..], i - 1); }
        }
        assert LessAt(comp, s, t, j + 1);
      }
    }
  }

  // All three comparisons are the lexical one, the tuples standing for their keys.
  lemma {:induction false} CompareIsLexical(c0: seq<KeyFromValue>, v0: int, c1: seq<KeyFromValue>, v1: int,
      comp: seq<Less>)
    requires Min(|c0|, |c1|) <= |comp|
    ensures CompareKeyKey(c0, v0, c1, v1, comp) <==> Lexical(comp, Keys(c0, v0), Keys(c1, v1))
    decreases |c0|
  {
    if c0 != [] && c1 != [] {
      CompareIsLexical(c0[1..], v0, c1[1..], v1, comp[1..]);
      LexicalStep(comp, Keys(c0, v0), Keys(c1, v1));
    }
  }

  lemma {:induction false} TupleIsLexical(c: seq<KeyFromValue>, v: int, t: seq<int>, comp: seq<Less>)
    requires Min(|c|, |t|) <= |comp|
    ensures CompareKeyTuple(c, v, t, comp) <==> Lexical(comp, Keys(c, v), t)
    ensures CompareTupleKey(t, c, v, comp) <==> Lexical(comp, t, Keys(c, v))
    decreases |c|
  {
    if c != [] && t != [] {
      TupleIsLexical(c[1..], v, t[1..], comp[1..]);
      LexicalStep(comp, Keys(c, v), t);
      LexicalStep(comp, t, Keys(c, v));
    }
  }

  /* The order */

  lemma {:induction false} Asymmetric(comp: seq<Less>, s: seq<int>, t: seq<int>)
    requires Orders(comp) && Lexical(comp, s, t)
    ensures !Lexical(comp, t, s)
    decreases |s|
  {
    var i :| LessAt(comp, s, t, i);
    LexicalStep(comp, s, t);
    LexicalStep(comp, t, s);
    HeadOrder(comp, s[0], t[0], s[0]);
    if !comp[0](s[0], t[0]) {
      Asymmetric(comp[1..], s[1..], t[1..]);
    }
  }

  lemma HeadOrder(comp: seq<Less>, x: int, y: int, z: int)
    requires Orders(comp) && |comp| > 0
    ensures !comp[0](x, x)
    ensures comp[0](x, y) && comp[0](y, z) ==> comp[0](x, z)
    ensures comp[0](x, z) ==> comp[0](x, y) || comp[0](y, z)
    ensures Orders(comp[1..])
  {
    assert StrictWeakOrder(comp[0]);
  }

  // What is not after something is as low against anything, even against its first keys only.
  lemma {:induction false} Monotone(comp: seq<Less>, s: seq<int>, u: seq<int>, t: seq<int>)
    requires Orders(comp) && |t| <= |s| == |u| <= |comp| && !Lexical(comp, u, s)
    ensures Lexical(comp, u, t) ==> Lexical(comp, s, t)
    ensures Lexical(comp, t, s) ==> Lexical(comp, t, u)
    decreases |t|
  {
    if t != [] {
      var x, y, z := s[0], u[0], t[0];
      LexicalStep(comp, u, s);
      LexicalStep(comp, u, t);
      LexicalStep(comp, s, t);
      LexicalStep(comp, t, s);
      LexicalStep(comp, t, u);
      HeadOrder(comp, y, x, z);
      HeadOrder(comp, x, y, z);
      HeadOrder(comp, z, x, y);
      HeadOrder(comp, z, y, x);
      HeadOrder(comp, y, z, x);
      HeadOrder(comp, x, z, y);
      if !comp[0](x, y) {
        Monotone(comp[1..], s[1..], u[1..], t[1..]);
      }
    }
  }

  // Comparing values by their keys is a strict weak order when comparing each key is.
  lemma CompositeIsOrder(c: seq<KeyFromValue>, comp: seq<Less>, lt: Less)
    requires Orders(comp) && |c| <= |comp| && forall v, w {:trigger lt(v, w)} ::
      lt(v, w) <==> CompareKeyKey(c, v, c, w, comp)
    ensures StrictWeakOrder(lt)
  {
    forall v ensures !lt(v, v) {
      CompareIsLexical(c, v, c, v, comp);
      if Lexical(comp, Keys(c, v), Keys(c, v)) { Asymmetric(comp, Keys(c, v), Keys(c, v)); }
    }
    forall v, w, x {:trigger lt(v, w), lt(w, x)}
      ensures (lt(v, w) && lt(w, x) ==> lt(v, x)) && (lt(v, x) ==> lt(v, w) || lt(w, x))
    {
      Order3(c, comp, v, w, x);
    }
  }

  lemma Order3(c: seq<KeyFromValue>, comp: seq<Less>, v: int, w: int, x: int)
    requires Orders(comp) && |c| <= |comp|
    ensures CompareKeyKey(c, v, c, w, comp) && CompareKeyKey(c, w, c, x, comp) ==> CompareKeyKey(c, v, c, x, comp)
    ensures CompareKeyKey(c, v, c, x, comp) ==> CompareKeyKey(c, v, c, w, comp) || CompareKeyKey(c, w, c, x, comp)
  {
    var s, t, u := Keys(c, v), Keys(c, w), Keys(c, x);
    CompareIsLexical(c, v, c, w, comp);
    CompareIsLexical(c, w, c, x, comp);
    CompareIsLexical(c, v, c, x, comp);
    if Lexical(comp, s, t) {
      Asymmetric(comp, s, t);
      Monotone(comp, s, t, u);
    } else {
      Monotone(comp, t, s, u);
    }
  }

  /* Lookup by the first keys */

  // The first keys of v are equivalent to those of the tuple.
  ghost predicate Leading(c: seq<KeyFromValue>, v: int, t: seq<int>, comp: seq<Less>) {
    AlikeUpto(comp, Keys(c, v), t, Min(|c|, |t|))
  }

  // A tuple is neither less nor greater than the values whose first keys are equivalent to it.
  lemma {:induction false} LeadingIsNeither(c: seq<KeyFromValue>, v: int, t: seq<int>, comp: seq<Less>)
    requires Orders(comp) && Min(|c|, |t|) <= |comp|
    ensures Leading(c, v, t, comp) <==> !CompareKeyTuple(c, v, t, comp) && !CompareTupleKey(t, c, v, comp)
    decreases |c|
  {
    if c != [] && t != [] {
      var s := Keys(c, v);
      HeadOrder(comp, s[0], t[0], s[0]);
      LeadingIsNeither(c[1..], v, t[1..], comp[1..]);
      LeadingStep(comp, s, t, Min(|c|, |t|));
    }
  }

  lemma LeadingStep(comp: seq<Less>, s: seq<int>, t: seq<int>, n: int)
    requires |s| > 0 && |t| > 0 && |comp| > 0 && n > 0
    ensures AlikeUpto(comp, s, t, n) <==>
      !comp[0](s[0], t[0]) && !comp[0](t[0], s[0]) && AlikeUpto(comp[1..], s[1..], t[1..], n - 1)
  {
    if AlikeUpto(comp, s, t, n) {
      assert Alike(comp, s, t, 0);
      forall i | 0 <= i < n - 1 ensures Alike(comp[1..], s[1..], t[1..], i) {
        assert Alike(comp, s, t, i + 1);
      }
    }
    if !comp[0](s[0], t[0]) && !comp[0](t[0], s[0]) && AlikeUpto(comp[1..], s[1..], t[1..], n - 1) {
      forall i | 0 <= i < n ensures Alike(comp, s, t, i) {
        if i > 0 { assert Alike(comp[1..], s[1..], t[1..], i - 1); }
      }
    }
  }

  lemma TupleMonotone(c: seq<KeyFromValue>, comp: seq<Less>, v: int, w: int, t: seq<int>)
    requires Orders(comp) && |t| <= |c| <= |comp| && !CompareKeyKey(c, w, c, v, comp)
    ensures CompareKeyTuple(c, w, t, comp) ==> CompareKeyTuple(c, v, t, comp)
    ensures CompareTupleKey(t, c, v, comp) ==> CompareTupleKey(t, c, w, comp)
  {
    CompareIsLexical(c, w, c, v, comp);
    TupleIsLexical(c, v, t, comp);
    TupleIsLexical(c, w, t, comp);
    Monotone(comp, Keys(c, v), Keys(c, w), t);
  }

  // An ordered index over a composite key.
  ghost predicate Indexes(ix: OrderedIndex.Index, c: seq<KeyFromValue>, comp: seq<Less>) {
    && Orders(comp) && |c| <= |comp|
    && (forall v {:trigger ix.key(v)} :: ix.key(v) == v)
    && (forall v, w {:trigger ix.lt(v, w)} :: ix.lt(v, w) <==> CompareKeyKey(c, v, c, w, comp))
  }

  lemma TupleCuts(ix: OrderedIndex.Index, c: seq<KeyFromValue>, comp: seq<Less>, t: seq<int>)
    requires Indexes(ix, c, comp) && |t| <= |c| && ix.tree.Indexed() && ix.Sorted()
    ensures ix.Upward(a => !CompareKeyTuple(c, a, t, comp))
    ensures ix.Upward(a => !(b => !CompareTupleKey(t, c, b, comp))(a))
  {
    forall i, j {:trigger ix.K(i), ix.K(j)} | 0 <= i <= j < |ix.tree.order|
      ensures CompareKeyTuple(c, ix.K(j), t, comp) ==> CompareKeyTuple(c, ix.K(i), t, comp)
      ensures CompareTupleKey(t, c, ix.K(i), comp) ==> CompareTupleKey(t, c, ix.K(j), comp)
    {
      if i < j {
        assert !ix.lt(ix.K(j), ix.K(i));
        TupleMonotone(c, comp, ix.K(i), ix.K(j), t);
      }
    }
  }

  // The elements from r to r', those at the places from i to j, are the ones whose first keys are equivalent to the
  // tuple.
  method EqualRange(ix: OrderedIndex.Index, c: seq<KeyFromValue>, comp: seq<Less>, t: seq<int>)
      returns (r: OrdIndexNode.Node, r': OrdIndexNode.Node, ghost i: int, ghost j: int)
    requires Indexes(ix, c, comp) && |t| <= |c| && ix.tree.Valid() && ix.Sorted()
    ensures 0 <= i <= j <= |ix.tree.order| && r == ix.NodeAt(i) && r' == ix.NodeAt(j)
    ensures forall m {:trigger ix.K(m)} | 0 <= m < |ix.tree.order| :: i <= m < j <==> Leading(c, ix.K(m), t, comp)
  {
    TupleCuts(ix, c, comp, t);
    r, r', i, j := ix.Range(a => !CompareKeyTuple(c, a, t, comp), b => !CompareTupleKey(t, c, b, comp));
    forall m {:trigger ix.K(m)} | 0 <= m < |ix.tree.order| ensures i <= m < j <==> Leading(c, ix.K(m), t, comp) {
      LeadingIsNeither(c, ix.K(m), t, comp);
    }
    if j < i { j := i; }
  }

  /* Equality and hashing */

  function EqualKeyKey(c0: seq<KeyFromValue>, v0: int, c1: seq<KeyFromValue>, v1: int, eq: seq<Equal>): bool
    requires Min(|c0|, |c1|) <= |eq|
  {
    if c0 == [] || c1 == [] then true
    else eq[0](c0[0](v0), c1[0](v1)) && EqualKeyKey(c0[1..], v0, c1[1..], v1, eq[1..])
  }

  function EqualKeyTuple(c: seq<KeyFromValue>, v: int, t: seq<int>, eq: seq<Equal>): bool
    requires Min(|c|, |t|) <= |eq|
  {
    if c == [] || t == [] then true
    else eq[0](c[0](v), t[0]) && EqualKeyTuple(c[1..], v, t[1..], eq[1..])
  }

  function EqualTupleKey(t: seq<int>, c: seq<KeyFromValue>, v: int, eq: seq<Equal>): bool
    requires Min(|c|, |t|) <= |eq|
  {
    if c == [] || t == [] then true
    else eq[0](t[0], c[0](v)) && EqualTupleKey(t[1..], c[1..], v, eq[1..])
  }

  // Two composite keys are equal just when each key is equal to the other's at its place, as far as both have any.
  lemma {:induction false} EqualKeyByKey(c0: seq<KeyFromValue>, v0: int, c1: seq<KeyFromValue>, v1: int, eq: seq<Equal>)
    requires Min(|c0|, |c1|) <= |eq|
    ensures EqualKeyKey(c0, v0, c1, v1, eq) <==>
      forall i {:trigger eq[i]} | 0 <= i < Min(|c0|, |c1|) :: eq[i](Keys(c0, v0)[i], Keys(c1, v1)[i])
    decreases |c0|
  {
    if c0 != [] && c1 != [] {
      var d0, d1, e := c0[1..], c1[1..], eq[1..];
      EqualKeyByKey(d0, v0, d1, v1, e);
      forall i {:trigger e[i]} | 0 <= i < Min(|d0|, |d1|)
        ensures e[i](Keys(d0, v0)[i], Keys(d1, v1)[i]) <==> eq[i + 1](Keys(c0, v0)[i + 1], Keys(c1, v1)[i + 1])
      {
      }
      assert forall i {:trigger eq[i]} | 0 < i < Min(|c0|, |c1|) :: eq[i] == e[i - 1];
    }
  }

  // The same with a tuple on either side.
  lemma {:induction false} TupleEqualKeyByKey(c: seq<KeyFromValue>, v: int, t: seq<int>, eq: seq<Equal>)
    requires Min(|c|, |t|) <= |eq|
    ensures EqualKeyTuple(c, v, t, eq) <==>
      forall i {:trigger eq[i]} | 0 <= i < Min(|c|, |t|) :: eq[i](Keys(c, v)[i], t[i])
    ensures EqualTupleKey(t, c, v, eq) <==>
      forall i {:trigger eq[i]} | 0 <= i < Min(|c|, |t|) :: eq[i](t[i], Keys(c, v)[i])
    decreases |c|
  {
    if c != [] && t != [] {
      var d, u, e := c[1..], t[1..], eq[1..];
      TupleEqualKeyByKey(d, v, u, e);
      assert forall i {:trigger e[i]} | 0 <= i < Min(|d|, |u|) ::
        e[i] == eq[i + 1] && Keys(d, v)[i] == Keys(c, v)[i + 1] && u[i] == t[i + 1];
      assert forall i {:trigger eq[i]} | 0 < i < Min(|c|, |t|) :: eq[i] == e[i - 1];
    }
  }

  ghost predicate Equivalences(eq: seq<Equal>) {
    forall i {:trigger eq[i]} | 0 <= i < |eq| :: Equivalence(eq[i])
  }

  // Composite equality is an equivalence of values if that of each key is.
  lemma EqualIsEquivalence(c: seq<KeyFromValue>, eq: seq<Equal>)
    requires |c| <= |eq| && Equivalences(eq)
    ensures Equivalence((v, w) => EqualKeyKey(c, v, c, w, eq))
  {
    forall v ensures EqualKeyKey(c, v, c, v, eq) {
      EqualAsKeys(c, eq, v, v, v);
    }
    forall v, w ensures EqualKeyKey(c, v, c, w, eq) ==> EqualKeyKey(c, w, c, v, eq) {
      EqualAsKeys(c, eq, v, w, v);
    }
    forall u, v, w
      ensures EqualKeyKey(c, u, c, v, eq) && EqualKeyKey(c, v, c, w, eq) ==> EqualKeyKey(c, u, c, w, eq)
    {
      EqualAsKeys(c, eq, u, v, w);
    }
  }

  lemma EqualAsKeys(c: seq<KeyFromValue>, eq: seq<Equal>, u: int, v: int, w: int)
    requires |c| <= |eq| && Equivalences(eq)
    ensures EqualKeyKey(c, u, c, u, eq) && (EqualKeyKey(c, u, c, v, eq) ==> EqualKeyKey(c, v, c, u, eq))
    ensures EqualKeyKey(c, u, c, v, eq) && EqualKeyKey(c, v, c, w, eq) ==> EqualKeyKey(c, u, c, w, eq)
  {
    EqualKeyByKey(c, u, c, u, eq);
    EqualKeyByKey(c, u, c, v, eq);
    EqualKeyByKey(c, v, c, u, eq);
    EqualKeyByKey(c, v, c, w, eq);
    EqualKeyByKey(c, u, c, w, eq);
    var p, q, r := Keys(c, u), Keys(c, v), Keys(c, w);
    forall i {:trigger eq[i]} | 0 <= i < |c|
      ensures eq[i](p[i], p[i]) && (eq[i](p[i], q[i]) ==> eq[i](q[i], p[i]))
      ensures eq[i](p[i], q[i]) && eq[i](q[i], r[i]) ==> eq[i](p[i], r[i])
    {
      assert Equivalence(eq[i]);
    }
  }

  // A tuple with all keys is equal, from either side, to the values of one class.
  lemma TupleOfClass(c: seq<KeyFromValue>, eq: seq<Equal>, t: seq<int>, v: int, w: int)
    requires |t| <= |c| <= |eq| && Equivalences(eq)
    ensures EqualTupleKey(t, c, v, eq) <==> EqualKeyTuple(c, v, t, eq)
    ensures |t| == |c| && EqualKeyTuple(c, v, t, eq) ==>
      (EqualKeyTuple(c, w, t, eq) <==> EqualKeyKey(c, v, c, w, eq))
  {
    TupleEqualKeyByKey(c, v, t, eq);
    TupleEqualKeyByKey(c, w, t, eq);
    EqualKeyByKey(c, v, c, w, eq);
    var p, q := Keys(c, v), Keys(c, w);
    forall i {:trigger eq[i]} | 0 <= i < |t|
      ensures eq[i](t[i], p[i]) <==> eq[i](p[i], t[i])
      ensures eq[i](p[i], t[i]) ==> (eq[i](q[i], t[i]) <==> eq[i](p[i], q[i]))
    {
      SubstituteEqual(eq[i], p[i], t[i], q[i]);
    }
  }

  lemma SubstituteEqual(eq: Equal, a: int, b: int, c: int)
    requires Equivalence(eq)
    ensures (eq(b, a) <==> eq(a, b)) && (eq(a, b) ==> (eq(c, b) <==> eq(a, c)))
  {
    assert eq(c, b) ==> eq(b, c);
    assert eq(a, c) ==> eq(c, a);
    assert eq(a, b) ==> eq(b, a);
  }

  // One more hash is combined with the others, in 64 bits.
  function Combine(carry: bv64, h: bv64): bv64 {
    carry ^ (h + 0x9e3779b9 + (carry << 6) + (carry >> 2))
  }

  // The hash combined last, from the carry before it and the result.
  function Uncombine(carry: bv64, r: bv64): bv64 {
    (r ^ carry) - 0x9e3779b9 - (carry << 6) - (carry >> 2)
  }

  // The two last bits of the carry, from the others, the hash combined and the result.
  function LowBits(r: bv64, h: bv64, high: bv64): bv64 {
    (r ^ (h + 0x9e3779b9 + high)) & 3
  }

  // The result tells hashes apart, whatever was before, and also carries that differ in their last two bits only.
  lemma CombineTells(carry: bv64, carry': bv64, h: bv64, h': bv64)
    ensures Combine(carry, h) == Combine(carry, h') <==> h == h'
    ensures carry >> 2 == carry' >> 2 && Combine(carry, h) == Combine(carry', h) ==> carry == carry'
  {
    CombineUndone(carry, h);
    CombineUndone(carry, h');
    CombineTellsCarry(carry, carry', h);
  }

  lemma CombineUndone(carry: bv64, h: bv64)
    ensures Uncombine(carry, carry ^ (h + 0x9e3779b9 + (carry << 6) + (carry >> 2))) == h
  {
  }

  lemma CombineTellsCarry(carry: bv64, carry': bv64, h: bv64)
    ensures carry >> 2 == carry' >> 2 && Combine(carry, h) == Combine(carry', h) ==> carry == carry'
  {
    LowBitsOf(carry, h);
    LowBitsOf(carry', h);
  }

  lemma LowBitsOf(carry: bv64, h: bv64)
    ensures LowBits(carry ^ (h + 0x9e3779b9 + (carry << 6) + (carry >> 2)), h, carry >> 2) == carry & 3
  {
  }

  function HashKey(c: seq<KeyFromValue>, v: int, h: seq<Hash>, carry: bv64): bv64
    requires |c| <= |h|
  {
    if c == [] then carry else HashKey(c[1..], v, h[1..], Combine(carry, h[0](c[0](v))))
  }

  function HashTuple(t: seq<int>, h: seq<Hash>, carry: bv64): bv64
    requires |t| <= |h|
  {
    if t == [] then carry else HashTuple(t[1..], h[1..], Combine(carry, h[0](t[0])))
  }

  // Of two values whose keys but the last hash alike, the hashes are the same just when those of the last keys are.
  lemma {:induction false} LastKeyTells(c: seq<KeyFromValue>, v: int, w: int, h: seq<Hash>, carry: bv64)
    requires 0 < |c| <= |h|
    requires forall i {:trigger h[i]} | 0 <= i < |c| - 1 :: h[i](c[i](v)) == h[i](c[i](w))
    ensures HashKey(c, v, h, carry) == HashKey(c, w, h, carry) <==>
      h[|c| - 1](c[|c| - 1](v)) == h[|c| - 1](c[|c| - 1](w))
    decreases |c|
  {
    var a, b := h[0](c[0](v)), h[0](c[0](w));
    if |c| == 1 {
      CombineTells(carry, carry, a, b);
    } else {
      assert forall i {:trigger h[1..][i]} | 0 <= i < |c[1..]| :: h[1..][i] == h[i + 1] && c[1..][i] == c[i + 1];
      LastKeyTells(c[1..], v, w, h[1..], Combine(carry, a));
    }
  }

  // Keys that are equal hash alike.
  ghost predicate Compatible(eq: seq<Equal>, h: seq<Hash>) {
    forall i, x, y {:trigger eq[i](x, y), h[i](x)} | 0 <= i < |eq| && i < |h| :: eq[i](x, y) ==> h[i](x) == h[i](y)
  }

  lemma HeadCompatible(eq: seq<Equal>, h: seq<Hash>, x: int, y: int)
    requires Compatible(eq, h) && |eq| > 0 && |h| > 0
    ensures eq[0](x, y) ==> h[0](x) == h[0](y)
    ensures Compatible(eq[1..], h[1..])
  {
    var a, b := eq[0](x, y), h[0](x);
    forall i, z, w {:trigger eq[1..][i](z, w), h[1..][i](z)} | 0 <= i < |eq[1..]| && i < |h[1..]|
      ensures eq[1..][i](z, w) ==> h[1..][i](z) == h[1..][i](w)
    {
      var d, e := eq[i + 1](z, w), h[i + 1](z);
    }
  }

  // A value is equal to another, or to a tuple, just when it is equal to the tuple of the other's keys.
  lemma {:induction false} EqualByKeys(c: seq<KeyFromValue>, v: int, c1: seq<KeyFromValue>, w: int, eq: seq<Equal>)
    requires Min(|c|, |c1|) <= |eq|
    ensures EqualKeyKey(c, v, c1, w, eq) <==> EqualKeyTuple(c, v, Keys(c1, w), eq)
    decreases |c|
  {
    if c != [] && c1 != [] {
      EqualByKeys(c[1..], v, c1[1..], w, eq[1..]);
    }
  }

  // A tuple equal to a value finds its hash.
  lemma {:induction false} EqualHashesAlike(c: seq<KeyFromValue>, v: int, t: seq<int>, eq: seq<Equal>, h: seq<Hash>,
      carry: bv64)
    requires |t| == |c| <= |eq| && |c| <= |h| && Compatible(eq, h) && EqualKeyTuple(c, v, t, eq)
    ensures HashKey(c, v, h, carry) == HashTuple(t, h, carry)
    decreases |c|
  {
    if c != [] {
      HeadCompatible(eq, h, c[0](v), t[0]);
      EqualHashesAlike(c[1..], v, t[1..], eq[1..], h[1..], Combine(carry, h[0](c[0](v))));
    }
  }

  lemma {:induction false} HashByKeys(c: seq<KeyFromValue>, v: int, h: seq<Hash>, carry: bv64)
    requires |c| <= |h|
    ensures HashKey(c, v, h, carry) == HashTuple(Keys(c, v), h, carry)
    decreases |c|
  {
    if c != [] {
      HashByKeys(c[1..], v, h[1..], Combine(carry, h[0](c[0](v))));
    }
  }

  // So equal values have equal hashes.
  lemma EqualValuesHashAlike(c: seq<KeyFromValue>, v: int, w: int, eq: seq<Equal>, h: seq<Hash>)
    requires |c| <= |eq| && |c| <= |h| && Compatible(eq, h) && EqualKeyKey(c, v, c, w, eq)
    ensures HashKey(c, v, h, 0) == HashKey(c, w, h, 0)
  {
    EqualByKeys(c, v, c, w, eq);
    EqualHashesAlike(c, v, Keys(c, w), eq, h, 0);
    HashByKeys(c, w, h, 0);
  }
}
