/** The wire lists the gate tests run every gate on: all r-combinations
    (CombinationGenerator), all r-permutations (PermutationGenerator) of the
    wires 0..n-1, and all non-empty subsets of them for multi-qubit gates
    (crateAllWires). */
module CreateAllWires {
  import opened Types

  predicate Increasing(s: seq<nat>)
  {
    forall i, j :: 0 <= i < j < |s| ==> s[i] < s[j]
  }

  lemma DistinctConcat<T>(a: seq<T>, b: seq<T>)
    requires Distinct(a) && Distinct(b)
    requires forall x :: x in a ==> x !in b
    ensures Distinct(a + b)
  {
    var s := a + b;
    forall i, j | 0 <= i < j < |s| ensures s[i] != s[j] {
      if j < |a| {
        assert s[i] == a[i] && s[j] == a[j];
      } else if i >= |a| {
        assert s[i] == b[i - |a|] && s[j] == b[j - |a|];
      } else {
        assert s[i] in a && s[j] in b;
      }
    }
  }

  // ---------------------------------------------------------------------
  // CombinationGenerator
  // ---------------------------------------------------------------------

  /** The lists comb(n, r) appends when the positions r.. of the buffer hold
      tail: r == 0 emits the buffer; n < r emits nothing; otherwise position
      r - 1 is set to n - 1 and the combinations using n - 1 come first, then
      those without it. */
  function Combs(n: nat, r: nat, tail: seq<nat>): seq<seq<nat>>
    decreases n
  {
    if r == 0 then [tail]
    else if n < r then []
    else Combs(n - 1, r - 1, [n - 1] + tail) + Combs(n - 1, r, tail)
  }

  function Binomial(n: nat, r: nat): nat
  {
    if r == 0 then 1
    else if n == 0 then 0
    else Binomial(n - 1, r - 1) + Binomial(n - 1, r)
  }

  lemma {:induction false} BinomialZero(n: nat, r: nat)
    requires n < r
    ensures Binomial(n, r) == 0
  {
    if n > 0 {
      BinomialZero(n - 1, r - 1);
      BinomialZero(n - 1, r);
    }
  }

  /** comb emits C(n, r) lists: one for r == 0, none for n < r. */
  lemma {:induction false} CombsCount(n: nat, r: nat, tail: seq<nat>)
    ensures |Combs(n, r, tail)| == Binomial(n, r)
    decreases n
  {
    if r == 0 {
    } else if n < r {
      BinomialZero(n, r);
    } else {
      CombsCount(n - 1, r - 1, [n - 1] + tail);
      CombsCount(n - 1, r, tail);
    }
  }

  /** Every list comb emits is an increasing list of r wires below n
      followed by the positions it was given. */
  lemma {:induction false} CombsShape(n: nat, r: nat, tail: seq<nat>, l: seq<nat>)
    requires l in Combs(n, r, tail)
    ensures |l| == r + |tail| && l[r..] == tail
    ensures Increasing(l[..r]) && forall x :: x in l[..r] ==> x < n
    decreases n
  {
    if r == 0 {
    } else if n < r {
    } else if l in Combs(n - 1, r - 1, [n - 1] + tail) {
      CombsShape(n - 1, r - 1, [n - 1] + tail, l);
      var front := l[..r - 1];
      assert l[..r] == front + [n - 1];
      assert l[r..] == l[r - 1..][1..];
      forall i | 0 <= i < r - 1 ensures front[i] < n - 1 {
        assert front[i] in front;
      }
    } else {
      CombsShape(n - 1, r, tail, l);
    }
  }

  /** No list is emitted twice. */
  lemma {:induction false} CombsDistinct(n: nat, r: nat, tail: seq<nat>)
    ensures Distinct(Combs(n, r, tail))
    decreases n
  {
    if r > 0 && n >= r {
      CombsDistinct(n - 1, r - 1, [n - 1] + tail);
      CombsDistinct(n - 1, r, tail);
      CombsSeparated(n, r, tail);
      DistinctHalves(Combs(n - 1, r - 1, [n - 1] + tail), Combs(n - 1, r, tail), r - 1, n - 1);
    }
  }

  /** The lists using n - 1 hold it at position r - 1; the others hold a
      smaller wire there. */
  lemma {:induction false} CombsSeparated(n: nat, r: nat, tail: seq<nat>)
    requires 0 < r <= n
    ensures AllHoldAt(Combs(n - 1, r - 1, [n - 1] + tail), r - 1, n - 1)
    ensures AllBelowAt(Combs(n - 1, r, tail), r - 1, n - 1)
  {
    CombsPlaceFront(n - 1, r - 1, n - 1, tail);
    CombsLastBelow(n - 1, r, tail);
  }

  /** The lists using n - 1 end their first r entries with it... */
  lemma {:induction false} CombsPlaceFront(n: nat, r: nat, v: nat, tail: seq<nat>)
    ensures AllHoldAt(Combs(n, r, [v] + tail), r, v)
  {
    forall x | x in Combs(n, r, [v] + tail) ensures |x| > r && x[r] == v {
      CombsShape(n, r, [v] + tail, x);
      assert x[r] == x[r..][0];
    }
  }

  /** ...the others stay below it. */
  lemma {:induction false} CombsLastBelow(n: nat, r: nat, tail: seq<nat>)
    requires 0 < r
    ensures AllBelowAt(Combs(n, r, tail), r - 1, n)
  {
    forall y | y in Combs(n, r, tail) ensures |y| > r - 1 && y[r - 1] < n {
      CombsShape(n, r, tail, y);
      assert y[r - 1] == y[..r][r - 1] && y[..r][r - 1] in y[..r];
    }
  }

  /** Two lists of distinct lists, separated by the value at position i,
      concatenate to a list of distinct lists. */
  lemma DistinctHalves(a: seq<seq<nat>>, b: seq<seq<nat>>, i: nat, v: nat)
    requires Distinct(a) && Distinct(b)
    requires AllHoldAt(a, i, v) && AllBelowAt(b, i, v)
    ensures Distinct(a + b)
  {
    SeparatedAt(a, b, i, v);
    DistinctConcat(a, b);
  }

  /** Every list has v at position i. */
  predicate AllHoldAt(a: seq<seq<nat>>, i: nat, v: nat)
  {
    forall x :: x in a ==> |x| > i && x[i] == v
  }

  /** Every list has less than v at position i. */
  predicate AllBelowAt(b: seq<seq<nat>>, i: nat, v: nat)
  {
    forall y :: y in b ==> |y| > i && y[i] < v
  }

  /** Lists holding v at position i share none with lists holding less
      there. */
  lemma SeparatedAt(a: seq<seq<nat>>, b: seq<seq<nat>>, i: nat, v: nat)
    requires AllHoldAt(a, i, v) && AllBelowAt(b, i, v)
    ensures forall x :: x in a ==> x !in b
  {
  }

  lemma SliceStep<T>(s: seq<T>, i: nat)
    requires 0 < i <= |s|
    ensures s[i..] == s[i - 1..][1..]
  {
  }

  lemma AppendAssoc<T>(a: seq<T>, b: seq<T>, c: seq<T>)
    ensures a + b + c == a + (b + c)
  {
  }

  /** CombinationGenerator: the buffer v_ and the emitted lists
      all_perms_. */
  class CombinationGenerator {
    var v: array<nat>
    var allPerms: seq<seq<nat>>

    constructor (n: nat, r: nat)
      ensures allPerms == Combs(n, r, [])
    {
      v := new nat[r];
      allPerms := [];
      new;
      Comb(n, r);
    }

    method Comb(n: nat, r: nat)
      requires r <= v.Length
      modifies this`allPerms, v
      ensures allPerms == old(allPerms) + Combs(n, r, old(v[r..]))
      ensures v[r..] == old(v[r..])
      decreases n
    {
      if r == 0 {
        allPerms := allPerms + [v[..]];
        return;
      }
      if n < r {
        return;
      }
      ghost var tail, done := v[r..], allPerms;
      v[r - 1] := n - 1;
      assert v[r - 1..] == [n - 1] + tail;
      Comb(n - 1, r - 1);
      assert v[r..] == v[r - 1..][1..] == tail;
      Comb(n - 1, r);
      AppendAssoc(done, Combs(n - 1, r - 1, [n - 1] + tail), Combs(n - 1, r, tail));
    }
  }

  // ---------------------------------------------------------------------
  // PermutationGenerator
  // ---------------------------------------------------------------------

  /** The first n - 1 available elements after swapping entry i with entry
      n - 1: the pool without pool[i]. */
  function SwapOut(pool: seq<nat>, i: nat): (r: seq<nat>)
    requires i < |pool|
    ensures |r| == |pool| - 1
  {
    pool[i := pool[|pool| - 1]][..|pool| - 1]
  }

  lemma SwapOutFacts(pool: seq<nat>, i: nat)
    requires i < |pool| && Distinct(pool)
    ensures Distinct(SwapOut(pool, i)) && pool[i] !in SwapOut(pool, i)
    ensures forall x :: x in SwapOut(pool, i) ==> x in pool
  {
    var s := SwapOut(pool, i);
    var m := |pool| - 1;
    assert forall j :: 0 <= j < m ==> s[j] == if j == i then pool[m] else pool[j];
  }

  /** The lists perm(n, r) appends when the available elements are pool and
      the positions r.. of the buffer hold tail: r == 0 emits the buffer;
      otherwise, for each i in turn, position r - 1 takes pool[i] and the
      rest is chosen from the pool without it. */
  function Perms(pool: seq<nat>, r: nat, tail: seq<nat>): seq<seq<nat>>
    decreases r, 1
  {
    if r == 0 then [tail] else PermsUpTo(pool, r, tail, |pool|)
  }

  /** The lists the first k iterations of perm's loop append. */
  function PermsUpTo(pool: seq<nat>, r: nat, tail: seq<nat>, k: nat): seq<seq<nat>>
    requires 0 < r && k <= |pool|
    decreases r, 0, k
  {
    if k == 0 then []
    else PermsUpTo(pool, r, tail, k - 1) + Perms(SwapOut(pool, k - 1), r - 1, [pool[k - 1]] + tail)
  }

  /** n (n - 1) ... (n - r + 1), which is 0 when r > n. */
  function Falling(n: nat, r: nat): nat
  {
    if r == 0 then 1 else if n == 0 then 0 else n * Falling(n - 1, r - 1)
  }

  /** perm emits n! / (n - r)! lists. */
  lemma {:induction false} PermsCount(pool: seq<nat>, r: nat, tail: seq<nat>)
    ensures |Perms(pool, r, tail)| == Falling(|pool|, r)
    decreases r, 1
  {
    if r > 0 && |pool| > 0 {
      PermsUpToCount(pool, r, tail, |pool|);
    }
  }

  lemma {:induction false} PermsUpToCount(pool: seq<nat>, r: nat, tail: seq<nat>, k: nat)
    requires 0 < r && 0 < |pool| && k <= |pool|
    ensures |PermsUpTo(pool, r, tail, k)| == k * Falling(|pool| - 1, r - 1)
    decreases r, 0, k
  {
    if k > 0 {
      var f := Falling(|pool| - 1, r - 1);
      PermsUpToCount(pool, r, tail, k - 1);
      PermsCount(SwapOut(pool, k - 1), r - 1, [pool[k - 1]] + tail);
      MulSucc(k - 1, f);
    }
  }

  lemma MulSucc(j: nat, f: nat)
    ensures j * f + f == (j + 1) * f
  {
  }

  /** With pairwise distinct available elements, every list perm emits is r
      pairwise distinct available elements followed by the positions it was
      given. */
  lemma {:induction false} PermsShape(pool: seq<nat>, r: nat, tail: seq<nat>, l: seq<nat>)
    requires Distinct(pool) && l in Perms(pool, r, tail)
    ensures |l| == r + |tail| && l[r..] == tail
    ensures Distinct(l[..r]) && forall x :: x in l[..r] ==> x in pool
    decreases r, 1
  {
    if r > 0 {
      PermsUpToShape(pool, r, tail, |pool|, l);
    }
  }

  lemma {:induction false} PermsUpToShape(pool: seq<nat>, r: nat, tail: seq<nat>, k: nat, l: seq<nat>)
    requires Distinct(pool) && 0 < r && k <= |pool| && l in PermsUpTo(pool, r, tail, k)
    ensures |l| == r + |tail| && l[r..] == tail && l[r - 1] in pool[..k]
    ensures Distinct(l[..r]) && forall x :: x in l[..r] ==> x in pool
    decreases r, 0, k
  {
    if l in PermsUpTo(pool, r, tail, k - 1) {
      PermsUpToShape(pool, r, tail, k - 1, l);
      assert pool[..k - 1] == pool[..k][..k - 1];
    } else {
      var i := k - 1;
      var rest := SwapOut(pool, i);
      SwapOutFacts(pool, i);
      PermsShape(rest, r - 1, [pool[i]] + tail, l);
      var front := l[..r - 1];
      assert l[..r] == front + [pool[i]];
      SliceStep(l, r);
      assert pool[i] == pool[..k][i];
      forall x | x in front ensures x in pool && x != pool[i] {
        assert x in rest;
      }
    }
  }

  /** No list is emitted twice. */
  lemma {:induction false} PermsDistinct(pool: seq<nat>, r: nat, tail: seq<nat>)
    requires Distinct(pool)
    ensures Distinct(Perms(pool, r, tail))
    decreases r, 1
  {
    if r > 0 {
      PermsUpToDistinct(pool, r, tail, |pool|);
    }
  }

  lemma {:induction false} PermsUpToDistinct(pool: seq<nat>, r: nat, tail: seq<nat>, k: nat)
    requires Distinct(pool) && 0 < r && k <= |pool|
    ensures Distinct(PermsUpTo(pool, r, tail, k))
    decreases r, 0, k
  {
    if k > 0 {
      var i := k - 1;
      var a, b := PermsUpTo(pool, r, tail, i), Perms(SwapOut(pool, i), r - 1, [pool[i]] + tail);
      PermsUpToDistinct(pool, r, tail, i);
      SwapOutFacts(pool, i);
      PermsDistinct(SwapOut(pool, i), r - 1, [pool[i]] + tail);
      PermsBlocksDisjoint(pool, r, tail, i, a, b);
      DistinctConcat(a, b);
    }
  }

  /** Lists from earlier iterations put an earlier available element at
      position r - 1 than iteration i does. */
  lemma {:induction false} PermsBlocksDisjoint(pool: seq<nat>, r: nat, tail: seq<nat>, i: nat, a: seq<seq<nat>>, b: seq<seq<nat>>)
    requires Distinct(pool) && 0 < r && i < |pool|
    requires a == PermsUpTo(pool, r, tail, i) && b == Perms(SwapOut(pool, i), r - 1, [pool[i]] + tail)
    ensures forall x :: x in a ==> x !in b
  {
    SwapOutFacts(pool, i);
    forall x | x in a ensures |x| >= r && x[r - 1] in pool[..i] {
      PermsUpToShape(pool, r, tail, i, x);
    }
    forall y | y in b ensures |y| >= r && y[r - 1] == pool[i] {
      PermsShape(SwapOut(pool, i), r - 1, [pool[i]] + tail, y);
    }
    assert pool[i] !in pool[..i];
  }

  /** PermutationGenerator: the emitted lists all_perms_, the pool
      available_elts_ and the buffer v. */
  class PermutationGenerator {
    var allPerms: seq<seq<nat>>
    var availableElts: array<nat>
    var v: array<nat>

    constructor (n: nat, r: nat)
      ensures allPerms == Perms(Iota(n), r, [])
    {
      v := new nat[r];
      var pool := new nat[n];
      for i := 0 to n
        invariant forall j :: 0 <= j < i ==> pool[j] == j
      {
        pool[i] := i;
      }
      assert pool[..] == Iota(n);
      availableElts := pool;
      allPerms := [];
      new;
      assert availableElts[..n] == Iota(n) && v[r..] == [];
      Perm(n, r);
    }

    method Perm(n: nat, r: nat)
      requires n <= availableElts.Length && r <= v.Length && availableElts != v
      modifies this`allPerms, v, availableElts
      ensures allPerms == old(allPerms) + Perms(old(availableElts[..n]), r, old(v[r..]))
      ensures availableElts[..] == old(availableElts[..])
      ensures v[r..] == old(v[r..])
      decreases r
    {
      if r == 0 {
        allPerms := allPerms + [v[..]];
        return;
      }
      ghost var pool := availableElts[..n];
      ghost var tail := v[r..];
      for i := 0 to n
        invariant allPerms == old(allPerms) + PermsUpTo(pool, r, tail, i)
        invariant availableElts[..] == old(availableElts[..])
        invariant v[r..] == tail
      {
        PermStep(n, r, i, pool, tail);
      }
    }

    /** One iteration of perm's loop: choose available_elts_[i] for position
        r - 1, recurse on the other n - 1, and undo the swap. */
    method PermStep(n: nat, r: nat, i: nat, ghost pool: seq<nat>, ghost tail: seq<nat>)
      requires 0 < r <= v.Length && i < n <= availableElts.Length && availableElts != v
      requires pool == availableElts[..n] && tail == v[r..]
      modifies this`allPerms, v, availableElts
      ensures allPerms == old(allPerms) + Perms(SwapOut(pool, i), r - 1, [pool[i]] + tail)
      ensures availableElts[..] == old(availableElts[..])
      ensures v[r..] == tail
      decreases r, 0
    {
      v[r - 1] := availableElts[i];
      assert v[r - 1..] == [pool[i]] + tail;
      availableElts[n - 1], availableElts[i] := availableElts[i], availableElts[n - 1];
      assert availableElts[..n - 1] == SwapOut(pool, i);
      Perm(n - 1, r - 1);
      availableElts[n - 1], availableElts[i] := availableElts[i], availableElts[n - 1];
      assert availableElts[..] == old(availableElts[..]);
      assert v[r..] == v[r - 1..][1..];
    }
  }

  // ---------------------------------------------------------------------
  // crateAllWires
  // ---------------------------------------------------------------------

  /** The two ways the test helper picks wire lists for a gate: every
      non-empty subset for a multi-qubit gate, otherwise lists of the gate's
      fixed number of wires (looked up in the gate table). */
  datatype GateWires = MultiQubit | FixedWires(nWires: nat)

  /** Bit i of k is set: ((k >> i) & 1) == 1. */
  predicate BitSet(k: nat, i: nat)
  {
    (k / Pow2(i)) % 2 == 1
  }

  /** The wires i < m whose bit is set in k, in increasing order: the list
      the inner loop of crateAllWires builds for the mask k. */
  function SetBits(k: nat, m: nat): seq<nat>
  {
    if m == 0 then []
    else if BitSet(k, m - 1) then SetBits(k, m - 1) + [m - 1]
    else SetBits(k, m - 1)
  }

  /** The sum of 2^x over the wires x of a list: the mask it stands for. */
  function Weight(l: seq<nat>): nat
  {
    if l == [] then 0 else Weight(l[..|l| - 1]) + Pow2(l[|l| - 1])
  }

  /** Every mask 1 .. 2^n - 1, in increasing order, as its list of set
      wires. */
  function MultiQubitWires(n: nat): (r: seq<seq<nat>>)
    ensures |r| == Pow2(n) - 1
  {
    seq(Pow2(n) - 1, j requires 0 <= j => SetBits(j + 1, n))
  }

  /** What crateAllWires returns: the subsets for a multi-qubit gate, else
      the permutations when order matters and the combinations when it does
      not. */
  function AllWires(n: nat, gate: GateWires, order: bool): seq<seq<nat>>
  {
    match gate
    case MultiQubit => MultiQubitWires(n)
    case FixedWires(r) => if order then Perms(Iota(n), r, []) else Combs(n, r, [])
  }

  /** Shifting right by one more bit halves the quotient, and the remainder
      modulo 2p adds the next bit. */
  lemma ModStep(k: nat, p: nat)
    requires p > 0
    ensures k % (2 * p) == k % p + ((k / p) % 2) * p
    ensures (k / p) / 2 == k / (2 * p)
  {
    var q, r := k / p, k % p;
    var h, b := q / 2, q % 2;
    assert k == p * q + r;
    assert q == 2 * h + b;
    assert p * q == (2 * p) * h + b * p by {
      assert p * (2 * h + b) == p * (2 * h) + p * b;
    }
    assert b * p + r < 2 * p by {
      assert b <= 1;
      assert b * p <= p;
    }
    DivModUnique(k, 2 * p, h, b * p + r);
  }

  /** k modulo 2^(i+1) adds bit i of k to k modulo 2^i. */
  lemma {:induction false} ModPow2Step(k: nat, i: nat)
    ensures k % Pow2(i + 1) == k % Pow2(i) + if BitSet(k, i) then Pow2(i) else 0
  {
    var p := Pow2(i);
    assert Pow2(i + 1) == 2 * p;
    ModStep(k, p);
    if BitSet(k, i) {
      assert ((k / p) % 2) * p == p;
    } else {
      assert ((k / p) % 2) * p == 0;
    }
  }

  lemma {:induction false} ShiftStep(k: nat, i: nat)
    ensures (k / Pow2(i)) / 2 == k / Pow2(i + 1)
  {
    ModStep(k, Pow2(i));
  }

  /** The list for a mask is increasing and holds exactly the set bits below
      m. */
  lemma {:induction false} SetBitsShape(k: nat, m: nat)
    ensures Increasing(SetBits(k, m))
    ensures forall x: nat :: x in SetBits(k, m) <==> x < m && BitSet(k, x)
  {
    if m > 0 {
      SetBitsShape(k, m - 1);
      var s := SetBits(k, m - 1);
      if BitSet(k, m - 1) {
        var t := s + [m - 1];
        forall i, j | 0 <= i < j < |t| ensures t[i] < t[j] {
          if j == |s| {
            assert t[i] == s[i] && s[i] in s;
          }
        }
      }
    }
  }

  lemma {:induction false} WeightSnoc(l: seq<nat>, x: nat)
    ensures Weight(l + [x]) == Weight(l) + Pow2(x)
  {
    assert (l + [x])[..|l|] == l;
  }

  /** The bits of k below m, added up from the bottom. */
  function LowBits(k: nat, m: nat): nat
  {
    if m == 0 then 0
    else LowBits(k, m - 1) + if BitSet(k, m - 1) then Pow2(m - 1) else 0
  }

  /** Adding up the bits below m gives k modulo 2^m. */
  lemma {:induction false} LowBitsMod(k: nat, m: nat)
    ensures LowBits(k, m) == k % Pow2(m)
  {
    if m > 0 {
      LowBitsMod(k, m - 1);
      ModPow2Step(k, m - 1);
    } else {
      DivModUnique(k, 1, k, 0);
    }
  }

  /** Reading the list back as a mask gives the bits of k below m: no bit
      is lost or invented. */
  lemma {:induction false} SetBitsWeight(k: nat, m: nat)
    ensures Weight(SetBits(k, m)) == LowBits(k, m)
  {
    if m > 0 {
      SetBitsWeight(k, m - 1);
      if BitSet(k, m - 1) {
        WeightSnoc(SetBits(k, m - 1), m - 1);
      }
    }
  }

  /** Masks below 2^m are their own list's weight, so distinct masks give
      distinct lists and a non-zero mask a non-empty list. */
  lemma {:induction false} SetBitsMask(k: nat, m: nat)
    requires k < Pow2(m)
    ensures Weight(SetBits(k, m)) == k
  {
    SetBitsWeight(k, m);
    LowBitsMod(k, m);
    DivModUnique(k, Pow2(m), 0, k);
  }

  /** The multi-qubit branch returns 2^n - 1 distinct lists, each a
      non-empty increasing list of wires below n. */
  lemma {:induction false} MultiQubitWiresFacts(n: nat)
    ensures |MultiQubitWires(n)| == Pow2(n) - 1
    ensures Distinct(MultiQubitWires(n))
    ensures forall l :: l in MultiQubitWires(n) ==>
              l != [] && Increasing(l) && forall x :: x in l ==> x < n
  {
    var w := MultiQubitWires(n);
    forall i, j | 0 <= i < j < |w| ensures w[i] != w[j] {
      MasksDiffer(i + 1, j + 1, n);
    }
    forall l | l in w ensures l != [] && Increasing(l) && forall x :: x in l ==> x < n {
      var j :| 0 <= j < |w| && w[j] == l;
      MaskWires(j + 1, n);
    }
  }

  /** Distinct masks below 2^n give distinct lists. */
  lemma {:induction false} MasksDiffer(i: nat, j: nat, n: nat)
    requires i != j && i < Pow2(n) && j < Pow2(n)
    ensures SetBits(i, n) != SetBits(j, n)
  {
    SetBitsMask(i, n);
    SetBitsMask(j, n);
  }

  /** A non-zero mask below 2^n gives a non-empty increasing list of wires
      below n. */
  lemma {:induction false} MaskWires(k: nat, n: nat)
    requires 0 < k < Pow2(n)
    ensures SetBits(k, n) != [] && Increasing(SetBits(k, n))
    ensures forall x :: x in SetBits(k, n) ==> x < n
  {
    SetBitsMask(k, n);
    SetBitsShape(k, n);
  }

  /** The combinations branch returns C(n, r) distinct increasing lists of r
      wires below n. */
  lemma {:induction false} CombinationsOfWires(n: nat, r: nat)
    ensures |Combs(n, r, [])| == Binomial(n, r) && Distinct(Combs(n, r, []))
    ensures forall l :: l in Combs(n, r, []) ==>
              |l| == r && Increasing(l) && forall x :: x in l ==> x < n
  {
    CombsCount(n, r, []);
    CombsDistinct(n, r, []);
    forall l | l in Combs(n, r, []) ensures |l| == r && Increasing(l) && forall x :: x in l ==> x < n {
      CombsShape(n, r, [], l);
      assert l[..r] == l;
    }
  }

  /** The permutations branch returns n! / (n - r)! distinct lists of r
      pairwise distinct wires below n. */
  lemma {:induction false} PermutationsOfWires(n: nat, r: nat)
    ensures |Perms(Iota(n), r, [])| == Falling(n, r) && Distinct(Perms(Iota(n), r, []))
    ensures forall l :: l in Perms(Iota(n), r, []) ==>
              |l| == r && Distinct(l) && forall x :: x in l ==> x < n
  {
    var pool := Iota(n);
    assert Distinct(pool);
    PermsCount(pool, r, []);
    PermsDistinct(pool, r, []);
    forall l | l in Perms(pool, r, []) ensures |l| == r && Distinct(l) && forall x :: x in l ==> x < n {
      PermsShape(pool, r, [], l);
      assert l[..r] == l;
    }
  }

  /** Whatever the gate, every list crateAllWires returns names distinct
      wires below n, and no list comes twice. */
  lemma {:induction false} AllWiresFacts(n: nat, gate: GateWires, order: bool)
    ensures Distinct(AllWires(n, gate, order))
    ensures forall l :: l in AllWires(n, gate, order) ==>
              Distinct(l) && forall x :: x in l ==> x < n
  {
    match gate
    case MultiQubit =>
      MultiQubitWiresFacts(n);
    case FixedWires(r) =>
      if order {
        PermutationsOfWires(n, r);
      } else {
        CombinationsOfWires(n, r);
      }
  }

  /** The multi-qubit branch: for k = 1 .. (1U << n) - 1 collect the wires
      i < n with ((k >> i) & 1) == 1. The shift 1U << n is on a 32-bit
      unsigned value, defined only for n < 32. */
  method MultiQubitLoop(n: nat) returns (res: seq<seq<nat>>)
    requires n < 32
    ensures res == MultiQubitWires(n)
  {
    var bound := Pow2(n);
    res := [];
    var k := 1;
    while k < bound
      invariant 1 <= k <= bound
      invariant res == MultiQubitWires(n)[..k - 1]
    {
      var wires := [];
      var shifted := k;
      for i := 0 to n
        invariant shifted == k / Pow2(i)
        invariant wires == SetBits(k, i)
      {
        if shifted % 2 == 1 {
          wires := wires + [i];
        }
        ShiftStep(k, i);
        shifted := shifted / 2;
      }
      res := res + [wires];
      k := k + 1;
    }
  }

  /** crateAllWires: the gate's wire count (or its being multi-qubit) is
      given rather than looked up in the gate tables. */
  method CrateAllWires(n: nat, gate: GateWires, order: bool) returns (res: seq<seq<nat>>)
    requires gate.MultiQubit? ==> n < 32
    ensures res == AllWires(n, gate, order)
  {
    if gate.MultiQubit? {
      res := MultiQubitLoop(n);
      return;
    }
    if order {
      var g := new PermutationGenerator(n, gate.nWires);
      res := g.allPerms;
    } else {
      var g := new CombinationGenerator(n, gate.nWires);
      res := g.allPerms;
    }
  }
}
