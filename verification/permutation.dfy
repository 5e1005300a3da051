/** The lane-permutation compiler of the AVX kernels: a permutation is a
    fixed-length sequence of lane indices (output lane i reads input lane
    perm[i]); it is classified as acting within every 128-bit sub-block or
    across them, and packed into the immediate byte or index vector that the
    hardware permute instruction takes. */
module Permutation {
  import opened Types

  // ---------------------------------------------------------------------
  // Sorting (Internal::bubble_sort)
  // ---------------------------------------------------------------------

  predicate Sorted(s: seq<int>)
  {
    forall i, j :: 0 <= i < j < |s| ==> s[i] <= s[j]
  }

  /** Neighbouring entries in order is enough for the whole sequence to be
      in order. */
  lemma {:induction false} AdjacentSorted(s: seq<int>)
    requires forall k :: 0 <= k < |s| - 1 ==> s[k] <= s[k + 1]
    ensures Sorted(s)
  {
    if |s| >= 2 {
      var t := s[..|s| - 1];
      AdjacentSorted(t);
      forall i, j | 0 <= i < j < |s| ensures s[i] <= s[j] {
        if j < |s| - 1 {
          assert t[i] <= t[j];
        } else if i < |s| - 2 {
          assert t[i] <= t[|s| - 2];
        }
      }
    }
  }

  /** Two sorted sequences holding the same elements are equal: sorting has
      only one possible outcome. */
  lemma {:induction false} SortedUnique(s: seq<int>, t: seq<int>)
    requires Sorted(s) && Sorted(t) && multiset(s) == multiset(t)
    ensures s == t
  {
    if |s| == 0 {
      assert |multiset(t)| == 0;
    } else {
      assert |t| == |multiset(t)| == |multiset(s)| > 0;
      assert s[0] in multiset(t) && t[0] in multiset(s);
      assert s[0] == t[0];
      assert s == [s[0]] + s[1..];
      assert t == [t[0]] + t[1..];
      calc {
        multiset(s[1..]);
        multiset(s) - multiset{s[0]};
        multiset(t) - multiset{t[0]};
        multiset(t[1..]);
      }
      SortedUnique(s[1..], t[1..]);
    }
  }

  /** The entries from position m on are in order. */
  ghost predicate SortedFrom(a: array<int>, m: int)
    reads a
  {
    forall i, j :: 0 <= m <= i < j < a.Length ==> a[i] <= a[j]
  }

  /** No entry before position m exceeds an entry from position m on. */
  ghost predicate PartedAt(a: array<int>, m: int)
    reads a
  {
    forall i, j :: 0 <= i < m <= j < a.Length ==> a[i] <= a[j]
  }

  /** Exchange a[i] and a[i + 1], both before the ordered tail from m. */
  method SwapNeighbours(a: array<int>, i: nat, ghost m: nat)
    requires i + 1 < m <= a.Length
    requires SortedFrom(a, m) && PartedAt(a, m)
    modifies a
    ensures a[i] == old(a[i + 1]) && a[i + 1] == old(a[i])
    ensures forall k :: 0 <= k < a.Length && k != i && k != i + 1 ==> a[k] == old(a[k])
    ensures multiset(a[..]) == old(multiset(a[..]))
    ensures SortedFrom(a, m) && PartedAt(a, m)
  {
    a[i], a[i + 1] := a[i + 1], a[i];
  }

  /** What one pass of Internal::bubble_sort knows after comparing the
      pairs before position idx: the ordered tail from m is untouched, a[idx]
      is the largest entry so far, a[m - 1] is final once the pass reaches it,
      and if nothing was swapped the pairs seen so far are in order. */
  ghost predicate PassInvariant(a: array<int>, idx: nat, m: nat, swapped: bool)
    reads a
  {
    && idx < a.Length && m <= a.Length
    && SortedFrom(a, m) && PartedAt(a, m)
    && (forall k :: 0 <= k < idx ==> a[k] <= a[idx])
    && (0 < m <= idx + 1 ==> forall k :: 0 <= k < m - 1 ==> a[k] <= a[m - 1])
    && (m == 0 ==> !swapped)
    && (!swapped ==> forall k :: 0 <= k < idx ==> a[k] <= a[k + 1])
  }

  /** The body of the inner loop: compare a[idx] with a[idx + 1] and swap
      them when they are out of order. */
  method BubbleStep(a: array<int>, idx: nat, ghost m: nat, swapped: bool) returns (swapped': bool)
    requires idx + 1 < a.Length
    requires PassInvariant(a, idx, m, swapped)
    modifies a
    ensures PassInvariant(a, idx + 1, m, swapped')
    ensures multiset(a[..]) == old(multiset(a[..]))
    ensures swapped ==> swapped'
  {
    swapped' := swapped;
    if m <= idx + 1 {
      TailInOrder(a, m, idx);
    }
    if a[idx] > a[idx + 1] {
      SwapNeighbours(a, idx, m);
      swapped' := true;
    }
  }

  /** One pass of Internal::bubble_sort's do-while body: swap every
      neighbouring pair that is out of order. If the entries from `m` on were
      already the largest ones in order, afterwards the entries from `m - 1`
      on are. */
  method BubblePass(a: array<int>, ghost m: nat) returns (swapped: bool)
    requires m <= a.Length
    requires SortedFrom(a, m) && PartedAt(a, m)
    modifies a
    ensures multiset(a[..]) == old(multiset(a[..]))
    ensures var m' := if m > 0 then m - 1 else 0;
            SortedFrom(a, m') && PartedAt(a, m')
    ensures m == 0 ==> !swapped
    ensures !swapped ==> forall k :: 0 <= k < a.Length - 1 ==> a[k] <= a[k + 1]
  {
    var n := a.Length;
    swapped := false;
    if n == 0 {
      return;
    }
    var idx := 0;
    while idx < n - 1
      invariant 0 <= idx <= n - 1
      invariant multiset(a[..]) == old(multiset(a[..]))
      invariant PassInvariant(a, idx, m, swapped)
    {
      swapped := BubbleStep(a, idx, m, swapped);
      idx := idx + 1;
    }
    if m > 0 {
      ExtendSortedTail(a, m);
    }
  }

  /** A neighbouring pair that reaches into the ordered tail is in order. */
  lemma TailInOrder(a: array<int>, m: nat, i: nat)
    requires m <= i + 1 < a.Length
    requires SortedFrom(a, m) && PartedAt(a, m)
    ensures a[i] <= a[i + 1]
  {
  }

  /** When a[m - 1] is the largest of a[..m], the ordered tail grows by one. */
  lemma ExtendSortedTail(a: array<int>, m: nat)
    requires 0 < m <= a.Length
    requires SortedFrom(a, m) && PartedAt(a, m)
    requires forall k :: 0 <= k < m - 1 ==> a[k] <= a[m - 1]
    ensures SortedFrom(a, m - 1) && PartedAt(a, m - 1)
  {
  }

  /** Internal::bubble_sort: passes of neighbour swaps until a pass swaps
      nothing. The do-while is entered with `swapped` true; the ghost `done`
      counts the largest entries already fixed at the end, which bounds the
      number of passes. */
  method BubbleSort(a: array<int>)
    modifies a
    ensures Sorted(a[..])
    ensures multiset(a[..]) == old(multiset(a[..]))
  {
    var swapped := true;
    ghost var done := 0;
    while swapped
      invariant 0 <= done <= a.Length
      invariant multiset(a[..]) == old(multiset(a[..]))
      invariant SortedFrom(a, a.Length - done) && PartedAt(a, a.Length - done)
      invariant !swapped ==> forall k :: 0 <= k < a.Length - 1 ==> a[k] <= a[k + 1]
      decreases a.Length - done, if swapped then 1 else 0
    {
      swapped := BubblePass(a, a.Length - done);
      done := if done < a.Length then done + 1 else done;
    }
    AdjacentSorted(a[..]);
  }

  // ---------------------------------------------------------------------
  // Classification (isWithinLane)
  // ---------------------------------------------------------------------

  /** The permutation sizes the classifier is used with: a whole number of
      128-bit sub-blocks. */
  predicate LaneAligned(p: Precision, size: nat)
  {
    size > 0 && size % LanesPer128(p) == 0
  }

  /** Every entry fits the uint8_t the source stores it in. */
  predicate ByteEntries(perm: seq<nat>)
  {
    forall i :: 0 <= i < |perm| ==> perm[i] < 256
  }

  /** Every entry names a lane of the register. */
  predicate LaneIndices(perm: seq<nat>)
  {
    forall i :: 0 <= i < |perm| ==> perm[i] < |perm|
  }

  /** A permutation acts within 128-bit lanes when its first sub-block of L
      entries is a rearrangement of 0..L-1 and every later sub-block repeats
      it, shifted by the sub-block's offset. */
  predicate WithinLane(p: Precision, perm: seq<nat>)
    requires LaneAligned(p, |perm|)
  {
    var L := LanesPer128(p);
    && multiset(perm[..L]) == multiset(Iota(L))
    && RepeatsUpTo(perm, L, |perm|)
  }

  /** Each of the first m entries equals the entry in the same slot of the
      first sub-block of L entries, plus its sub-block's offset. */
  predicate RepeatsUpTo(perm: seq<nat>, L: nat, m: nat)
    requires 0 < L <= |perm| && m <= |perm|
  {
    forall i, j :: 0 <= i < m && 0 <= j < L && i % L == j ==> perm[i] == perm[j] + (i - j)
  }

  lemma RepeatsExtend(perm: seq<nat>, L: nat, m: nat)
    requires 0 < L <= |perm| && m < |perm|
    requires RepeatsUpTo(perm, L, m)
    requires perm[m] == perm[m % L] + (m - m % L)
    ensures RepeatsUpTo(perm, L, m + 1)
  {
  }

  lemma RepeatsBroken(perm: seq<nat>, L: nat, m: nat)
    requires 0 < L <= |perm| && m < |perm|
    requires perm[m] != perm[m % L] + (m - m % L)
    ensures !RepeatsUpTo(perm, L, |perm|)
  {
  }

  /** Arithmetic on sub-block offsets, for the two sub-block widths. */
  lemma BlockOffset(k: int, idx: int, n: int, L: nat)
    requires L == 2 || L == 4
    requires 0 <= k < n && k % L == 0 && n % L == 0 && 0 <= idx < L
    ensures (k + idx) % L == idx && k + L <= n && (k + L) % L == 0
  {
    if L == 2 {
    } else {
    }
  }

  lemma IotaSorted(n: nat)
    ensures Sorted(Iota(n))
  {
  }

  /** The first half of isWithinLane's check (the block around its
      bubble_sort call): sort a copy of the lane and compare it with
      0..L-1. */
  method SortedLaneIsIota(lane: array<int>) returns (b: bool)
    ensures b == (multiset(lane[..]) == multiset(Iota(lane.Length)))
  {
    var L := lane.Length;
    var lane2 := new int[L];
    for i := 0 to L
      invariant forall j :: 0 <= j < i ==> lane2[j] == lane[j]
    {
      lane2[i] := lane[i];
    }
    assert lane2[..] == lane[..];
    BubbleSort(lane2);
    for i := 0 to L
      invariant forall j :: 0 <= j < i ==> lane2[j] == j
    {
      if lane2[i] != i {
        if multiset(lane[..]) == multiset(Iota(L)) {
          IotaSorted(L);
          SortedUnique(lane2[..], Iota(L));
        }
        return false;
      }
    }
    assert lane2[..] == Iota(L);
    return true;
  }

  /** The inner loop of isWithinLane's second check: the sub-block at
      offset k equals the first sub-block (held in `lane`) shifted by k. */
  method MatchesLaneAt(perm: seq<nat>, lane: array<int>, k: nat) returns (b: bool)
    requires lane.Length == 2 || lane.Length == 4
    requires |perm| % lane.Length == 0 && lane.Length <= |perm|
    requires lane[..] == perm[..lane.Length]
    requires k < |perm| && k % lane.Length == 0 && RepeatsUpTo(perm, lane.Length, k)
    ensures k + lane.Length <= |perm|
    ensures b ==> RepeatsUpTo(perm, lane.Length, k + lane.Length)
    ensures !b ==> !RepeatsUpTo(perm, lane.Length, |perm|)
  {
    var L := lane.Length;
    BlockOffset(k, 0, |perm|, L);
    for idx := 0 to L
      invariant RepeatsUpTo(perm, L, k + idx)
    {
      BlockOffset(k, idx, |perm|, L);
      assert lane[idx] == perm[idx];
      if lane[idx] + k != perm[idx + k] {
        RepeatsBroken(perm, L, idx + k);
        return false;
      }
      RepeatsExtend(perm, L, idx + k);
    }
    return true;
  }

  /** The second half of isWithinLane's check: every sub-block of L entries
      equals the first one shifted by the sub-block's offset k. */
  method RepeatsLane(perm: seq<nat>, lane: array<int>) returns (b: bool)
    requires lane.Length == 2 || lane.Length == 4
    requires |perm| % lane.Length == 0 && lane.Length <= |perm|
    requires lane[..] == perm[..lane.Length]
    ensures b == RepeatsUpTo(perm, lane.Length, |perm|)
  {
    var L := lane.Length;
    var k := 0;
    while k < |perm|
      invariant 0 <= k <= |perm| && k % L == 0
      invariant RepeatsUpTo(perm, L, k)
    {
      b := MatchesLaneAt(perm, lane, k);
      if !b {
        return false;
      }
      BlockOffset(k, 0, |perm|, L);
      k := k + L;
    }
    return true;
  }

  /** isWithinLane: copy the first sub-block into `lane`, then run both
      checks, returning false at the first mismatch. */
  method IsWithinLane(p: Precision, perm: seq<nat>) returns (b: bool)
    requires LaneAligned(p, |perm|)
    ensures b == WithinLane(p, perm)
  {
    var L := LanesPer128(p);
    var lane := new int[L];
    for i := 0 to L
      invariant forall j :: 0 <= j < i ==> lane[j] == perm[j]
    {
      lane[i] := perm[i];
    }
    assert lane[..] == perm[..L];
    b := SortedLaneIsIota(lane);
    if !b {
      return false;
    }
    b := RepeatsLane(perm, lane);
  }

  /** Entries of the first sub-block of a within-lane permutation are lane
      offsets below L. */
  lemma FirstLaneBelow(p: Precision, perm: seq<nat>, t: nat)
    requires LaneAligned(p, |perm|) && WithinLane(p, perm)
    requires t < LanesPer128(p)
    ensures perm[t] < LanesPer128(p)
  {
    var L := LanesPer128(p);
    assert perm[t] == perm[..L][t];
    assert perm[t] in multiset(Iota(L));
  }

  // ---------------------------------------------------------------------
  // Immediate encodings (getPermutation2x, getPermutation4x)
  // ---------------------------------------------------------------------

  /** Bit j of an immediate byte. */
  function Bit(imm: bv8, j: nat): (r: nat)
    requires j < 8
    ensures r < 2
  {
    if (imm >> j) & 1 == 1 then 1 else 0
  }

  /** The 2-bit field i (bits 2i and 2i+1) of an immediate byte. */
  function Field2(imm: bv8, i: nat): (r: nat)
    requires i < 4
    ensures r < 4
  {
    ((imm >> (2 * i)) & 3) as nat
  }

  /** getPermutation2x: b = perm[1] << 1 | perm[0] in 8 bits, replicated into
      the four 2-bit fields of the immediate (8-bit truncation throughout). */
  function GetPermutation2x(perm: seq<nat>): (r: bv8)
    requires |perm| >= 2 && perm[0] < 256 && perm[1] < 256
    ensures perm[0] < 2 && perm[1] < 2 ==>
      forall i :: 0 <= i < 4 ==> Field2(r, i) == 2 * perm[1] + perm[0]
  {
    var b := ((perm[1] as bv8) << 1) | (perm[0] as bv8);
    (b << 6) | (b << 4) | (b << 2) | b
  }

  /** When the two entries are 0 or 1, bit j of the immediate is entry j mod 2:
      every pair of lanes gets the same selector. */
  lemma GetPermutation2xBits(perm: seq<nat>, j: nat)
    requires |perm| >= 2 && perm[0] < 2 && perm[1] < 2
    requires j < 8
    ensures Bit(GetPermutation2x(perm), j) == perm[j % 2]
  {
    var r := GetPermutation2x(perm);
    var b0, b1 := perm[0] as bv8, perm[1] as bv8;
    assert r == (b1 << 7) | (b0 << 6) | (b1 << 5) | (b0 << 4) | (b1 << 3) | (b0 << 2) | (b1 << 1) | b0;
    if perm[0] == 0 {
      if perm[1] == 0 { assert r == 0; } else { assert r == 0xAA; }
    } else {
      if perm[1] == 0 { assert r == 0x55; } else { assert r == 0xFF; }
    }
  }

  /** The closed form of getPermutation4x: entry i shifted into bits 2i and
      2i+1, all in 8 bits (an entry of 4 or more spills into the next field,
      exactly as the source's OR does). */
  function Pack4(perm: seq<nat>): bv8
    requires |perm| >= 4 && forall i :: 0 <= i < 4 ==> perm[i] < 256
  {
    ((perm[3] as bv8) << 6) | ((perm[2] as bv8) << 4) | ((perm[1] as bv8) << 2) | (perm[0] as bv8)
  }

  /** Entries below 4 can be read back field by field. */
  lemma Pack4Fields(perm: seq<nat>, i: nat)
    requires |perm| >= 4 && forall k :: 0 <= k < 4 ==> perm[k] < 4
    requires i < 4
    ensures Field2(Pack4(perm), i) == perm[i]
  {
    var r := Pack4(perm);
    var f0, f1, f2, f3 := perm[0] as bv8, perm[1] as bv8, perm[2] as bv8, perm[3] as bv8;
    assert f0 < 4 && f1 < 4 && f2 < 4 && f3 < 4;
    if i == 0 {
      assert (r >> 0) & 3 == f0;
    } else if i == 1 {
      assert (r >> 2) & 3 == f1;
    } else if i == 2 {
      assert (r >> 4) & 3 == f2;
    } else {
      assert (r >> 6) & 3 == f3;
    }
  }

  /** getPermutation4x: from entry 3 down to entry 0, shift the byte left by
      two and OR the entry in. */
  method GetPermutation4x(perm: seq<nat>) returns (res: bv8)
    requires |perm| >= 4 && forall i :: 0 <= i < 4 ==> perm[i] < 256
    ensures res == Pack4(perm)
  {
    res := 0;
    var idx := 3;
    while idx >= 0
      invariant -1 <= idx <= 3
      invariant idx == 3 ==> res == 0
      invariant idx == 2 ==> res == perm[3] as bv8
      invariant idx == 1 ==> res == ((perm[3] as bv8) << 2) | (perm[2] as bv8)
      invariant idx == 0 ==> res == ((perm[3] as bv8) << 4) | ((perm[2] as bv8) << 2) | (perm[1] as bv8)
      invariant idx == -1 ==> res == Pack4(perm)
    {
      res := res << 2;
      res := res | (perm[idx] as bv8);
      idx := idx - 1;
    }
  }

  // ---------------------------------------------------------------------
  // compilePermutation
  // ---------------------------------------------------------------------

  /** The (precision, packed size) pairs CompiledPermutation is specialised
      for: 256-bit (AVX2) and 512-bit (AVX-512) registers. */
  predicate SupportedShape(p: Precision, size: nat)
  {
    size * SizeOf(p) == 32 || size * SizeOf(p) == 64
  }

  /** An immediate byte, or an index vector for a variable permute. */
  datatype Encoding = Imm8(imm: bv8) | IndexVector(indices: seq<nat>)

  datatype CompiledPermutation = CompiledPermutation(withinLane: bool, encoding: Encoding)

  /** compilePermutation: within-lane float permutations become the
      getPermutation4x immediate, within-lane double ones the getPermutation2x
      immediate; across lanes a 256-bit double permutation still fits the
      getPermutation4x immediate of a 4x64 permute, and every other shape keeps
      the permutation itself as the index vector. */
  function CompilePermutation(p: Precision, perm: seq<nat>): (r: CompiledPermutation)
    requires SupportedShape(p, |perm|) && ByteEntries(perm)
    ensures LaneAligned(p, |perm|) && r.withinLane == WithinLane(p, perm)
    ensures r.encoding.IndexVector? <==> !WithinLane(p, perm) && !(p == Double && |perm| == 4)
  {
    var within := WithinLane(p, perm);
    if within then
      match p
      case Float => CompiledPermutation(within, Imm8(Pack4(perm)))
      case Double => CompiledPermutation(within, Imm8(GetPermutation2x(perm)))
    else if |perm| * SizeOf(p) == 32 && p == Double then
      CompiledPermutation(within, Imm8(Pack4(perm)))
    else
      CompiledPermutation(within, IndexVector(perm))
  }

  /** The source lane that output lane j reads under the in-lane permute the
      kernels issue for a within-lane immediate: vpermilps takes the 2-bit
      field (j mod 4) inside each 4-lane block, vpermilpd takes bit j inside
      each pair of lanes. */
  function InLaneSource(p: Precision, imm: bv8, j: nat): nat
  {
    match p
    case Float => (j / 4) * 4 + Field2(imm, j % 4)
    case Double => (j / 2) * 2 + Bit(imm, j % 8)
  }

  /** Which source lane each of the `size` output lanes reads when a compiled
      permutation is applied: through the in-lane permute for a within-lane
      immediate, through the 4x64 permute (2-bit field j selects any lane) for
      a cross-lane immediate, and lane by lane for an index vector. */
  function Selects(p: Precision, c: CompiledPermutation, size: nat): (r: seq<nat>)
  {
    match c.encoding
    case IndexVector(ix) => ix
    case Imm8(imm) =>
      if c.withinLane then seq(size, j requires 0 <= j => InLaneSource(p, imm, j))
      else seq(size, j requires 0 <= j => Field2(imm, j % 4))
  }

  /** Compiling loses nothing: the instruction the compiled form drives
      reads, for every output lane, exactly the lane the permutation names. */
  lemma {:induction false} CompileRoundTrip(p: Precision, perm: seq<nat>)
    requires SupportedShape(p, |perm|) && LaneIndices(perm)
    ensures Selects(p, CompilePermutation(p, perm), |perm|) == perm
  {
    var c := CompilePermutation(p, perm);
    var sel := Selects(p, c, |perm|);
    if c.withinLane {
      forall j | 0 <= j < |perm| ensures sel[j] == perm[j] {
        InLaneRoundTrip(p, perm, j);
      }
    } else if c.encoding.Imm8? {
      forall j | 0 <= j < |perm| ensures sel[j] == perm[j] {
        Pack4Fields(perm, j);
      }
    }
  }

  /** One output lane of a within-lane permutation compiled to an immediate. */
  lemma InLaneRoundTrip(p: Precision, perm: seq<nat>, j: nat)
    requires SupportedShape(p, |perm|) && LaneIndices(perm)
    requires WithinLane(p, perm) && j < |perm|
    ensures InLaneSource(p, CompilePermutation(p, perm).encoding.imm, j) == perm[j]
  {
    var L := LanesPer128(p);
    assert j % L < L;
    assert perm[j] == perm[j % L] + (j - j % L);
    match p
    case Float =>
      forall t | 0 <= t < 4 ensures perm[t] < 4 { FirstLaneBelow(p, perm, t); }
      Pack4Fields(perm, j % 4);
    case Double =>
      FirstLaneBelow(p, perm, 0);
      FirstLaneBelow(p, perm, 1);
      GetPermutation2xBits(perm, j % 8);
      assert j % 8 % 2 == j % 2;
  }

  // ---------------------------------------------------------------------
  // Builders (identity, flip, swapRealImag)
  // ---------------------------------------------------------------------

  /** A bijection of the register's lanes: every entry names a lane and no
      lane is named twice. */
  predicate IsPermutation(perm: seq<nat>)
  {
    && LaneIndices(perm)
    && forall i, j :: 0 <= i < j < |perm| ==> perm[i] != perm[j]
  }

  /** identity<packed_size>(): output lane i reads lane i. */
  function Identity(size: nat): (r: seq<nat>)
    ensures |r| == size && IsPermutation(r)
  {
    Iota(size)
  }

  lemma IdentityWithinLane(p: Precision, size: nat)
    requires LaneAligned(p, size)
    ensures WithinLane(p, Identity(size))
  {
    var L := LanesPer128(p);
    assert Identity(size)[..L] == Iota(L);
  }

  /** Packed sizes the builders are instantiated for: 4, 8 or 16 lanes, that
      is 2, 4 or 8 complex numbers. */
  predicate PackedSize(size: nat)
  {
    size == 4 || size == 8 || size == 16
  }

  lemma {:induction false} Pow2Grows(w: nat)
    ensures w >= 1 ==> Pow2(w) >= 2
    ensures w >= 2 ==> Pow2(w) >= 4
    ensures w >= 3 ==> Pow2(w) >= 8
  {
    if w >= 1 {
      Pow2Grows(w - 1);
    }
  }

  /** The reverse wires flip<rev_wire> accepts in a packed size: the wire's
      bit must lie inside the register's complex-number index. */
  lemma Pow2Bound(w: nat, size: nat)
    requires PackedSize(size) && Pow2(w) < size / 2
    ensures w < 3 && (size == 4 ==> w == 0) && (size == 8 ==> w < 2)
  {
    Pow2Grows(w);
  }

  /** k XOR (1 << w) for the wires a packed register holds: bit w of k
      toggled. */
  function ToggleBit(k: nat, w: nat): (r: nat)
    requires w < 3
  {
    var b := if w == 0 then 1 else if w == 1 then 2 else 4;
    if (k / b) % 2 == 0 then k + b else k - b
  }

  /** Toggling keeps a number below 2^m when the bit is below m, and toggling
      twice is the identity. */
  lemma ToggleBitFacts(k: nat, w: nat, m: nat)
    requires w < m <= 3 && k < Pow2(m)
    ensures ToggleBit(k, w) < Pow2(m) && ToggleBit(ToggleBit(k, w), w) == k
  {
    assert Pow2(1) == 2 && Pow2(2) == 4 && Pow2(3) == 8;
  }

  /** The lane output lane i of flip reads: the complex number i / 2 with
      bit rev_wire toggled, same real or imaginary part. */
  function FlipLane(i: nat, w: nat): nat
    requires w < 3
  {
    2 * ToggleBit(i / 2, w) + i % 2
  }

  lemma FlipLaneFacts(i: nat, w: nat, size: nat)
    requires PackedSize(size) && Pow2(w) < size / 2 && i < size
    ensures w < 3 && FlipLane(i, w) < size && FlipLane(FlipLane(i, w), w) == i
  {
    Pow2Bound(w, size);
    var m := if size == 4 then 1 else if size == 8 then 2 else 3;
    assert Pow2(1) == 2 && Pow2(2) == 4 && Pow2(3) == 8;
    assert size == 2 * Pow2(m);
    var t := ToggleBit(i / 2, w);
    ToggleBitFacts(i / 2, w, m);
    HalfOf(t, i % 2);
  }

  lemma HalfOf(t: nat, r: nat)
    requires r < 2
    ensures (2 * t + r) / 2 == t && (2 * t + r) % 2 == r
  {
  }

  /** flip<rev_wire>(perm): compose perm with the exchange of the complex
      numbers whose index differs in bit rev_wire. */
  function Flip(perm: seq<nat>, w: nat): (r: seq<nat>)
    requires PackedSize(|perm|) && Pow2(w) < |perm| / 2
    ensures |r| == |perm|
  {
    Pow2Bound(w, |perm|);
    seq(|perm|, i requires 0 <= i < |perm| =>
      FlipLaneFacts(i, w, |perm|);
      perm[FlipLane(i, w)])
  }

  /** Applying the same flip twice restores the permutation. */
  lemma {:induction false} FlipInvolution(perm: seq<nat>, w: nat)
    requires PackedSize(|perm|) && Pow2(w) < |perm| / 2
    ensures Flip(Flip(perm, w), w) == perm
  {
    var f := Flip(perm, w);
    forall i | 0 <= i < |perm| ensures Flip(f, w)[i] == perm[i] {
      FlipLaneFacts(i, w, |perm|);
    }
  }

  /** A flipped permutation is still a permutation of the lanes. */
  lemma {:induction false} FlipPermutation(perm: seq<nat>, w: nat)
    requires PackedSize(|perm|) && Pow2(w) < |perm| / 2
    requires IsPermutation(perm)
    ensures IsPermutation(Flip(perm, w))
  {
    var f := Flip(perm, w);
    forall i, j | 0 <= i < j < |f| ensures f[i] != f[j] {
      FlipEntriesDiffer(perm, w, i, j);
    }
  }

  /** Two different output lanes of a flip read two different input lanes. */
  lemma FlipEntriesDiffer(perm: seq<nat>, w: nat, i: nat, j: nat)
    requires PackedSize(|perm|) && Pow2(w) < |perm| / 2
    requires IsPermutation(perm) && i < j < |perm|
    ensures Flip(perm, w)[i] != Flip(perm, w)[j]
  {
    FlipLaneFacts(i, w, |perm|);
    FlipLaneFacts(j, w, |perm|);
    var a, b := FlipLane(i, w), FlipLane(j, w);
    assert a != b;
    if a < b { assert perm[a] != perm[b]; } else { assert perm[b] != perm[a]; }
  }

  /** swapRealImag(perm): every output lane reads the other half of its
      complex number. */
  function SwapRealImag(perm: seq<nat>): (r: seq<nat>)
    requires |perm| % 2 == 0
    ensures |r| == |perm|
  {
    seq(|perm|, i requires 0 <= i < |perm| =>
      if i % 2 == 0 then perm[i + 1] else perm[i - 1])
  }

  lemma {:induction false} SwapRealImagInvolution(perm: seq<nat>)
    requires |perm| % 2 == 0
    ensures SwapRealImag(SwapRealImag(perm)) == perm
  {
    var s := SwapRealImag(perm);
    forall i | 0 <= i < |perm| ensures SwapRealImag(s)[i] == perm[i] {
      if i % 2 == 0 {
        assert (i + 1) % 2 == 1;
      } else {
        assert (i - 1) % 2 == 0;
      }
    }
  }

  lemma {:induction false} SwapRealImagPermutation(perm: seq<nat>)
    requires |perm| % 2 == 0 && IsPermutation(perm)
    ensures IsPermutation(SwapRealImag(perm))
  {
    var s := SwapRealImag(perm);
    forall i, j | 0 <= i < j < |s| ensures s[i] != s[j] {
      var a := if i % 2 == 0 then i + 1 else i - 1;
      var b := if j % 2 == 0 then j + 1 else j - 1;
      assert s[i] == perm[a] && s[j] == perm[b];
      assert a != b;
      if a < b { assert perm[a] != perm[b]; } else { assert perm[b] != perm[a]; }
    }
  }

  /** Lane-aligned sizes are even: a sub-block holds whole complex numbers. */
  lemma LaneAlignedEven(p: Precision, size: nat)
    requires LaneAligned(p, size)
    ensures size % 2 == 0
  {
    match p
    case Float =>
      assert LanesPer128(p) == 4;
      var q := size / 4;
      assert size == 4 * q;
      DivModUnique(size, 2, 2 * q, 0);
    case Double =>
  }

  /** Swapping real and imaginary parts never moves data across a 128-bit
      sub-block, so a within-lane permutation stays within-lane. */
  lemma {:induction false} SwapRealImagWithinLane(p: Precision, perm: seq<nat>)
    requires LaneAligned(p, |perm|) && WithinLane(p, perm)
    ensures |perm| % 2 == 0 && WithinLane(p, SwapRealImag(perm))
  {
    LaneAlignedEven(p, |perm|);
    var s := SwapRealImag(perm);
    SwapFirstLane(p, perm);
    match p
    case Float =>
      forall i, j | 0 <= i < |s| && 0 <= j < 4 && i % 4 == j
        ensures s[i] == s[j] + (i - j)
      {
        SwapLaneStep4(perm, i);
      }
    case Double =>
      forall i, j | 0 <= i < |s| && 0 <= j < 2 && i % 2 == j
        ensures s[i] == s[j] + (i - j)
      {
        SwapLaneStep2(perm, i);
      }
  }

  /** The first sub-block of a swapped permutation is a rearrangement of the
      first sub-block of the original. */
  lemma SwapFirstLane(p: Precision, perm: seq<nat>)
    requires LaneAligned(p, |perm|) && |perm| % 2 == 0
    ensures multiset(SwapRealImag(perm)[..LanesPer128(p)]) == multiset(perm[..LanesPer128(p)])
  {
    var s := SwapRealImag(perm);
    PairMultiset(perm[0], perm[1]);
    match p
    case Float =>
      assert s[..4] == [perm[1], perm[0]] + [perm[3], perm[2]];
      assert perm[..4] == [perm[0], perm[1]] + [perm[2], perm[3]];
      PairMultiset(perm[2], perm[3]);
    case Double =>
      assert s[..2] == [perm[1], perm[0]];
      assert perm[..2] == [perm[0], perm[1]];
  }

  lemma PairMultiset(x: nat, y: nat)
    ensures multiset([x, y]) == multiset([y, x])
  {
  }

  /** Within a 4-lane sub-block the real/imaginary parity of a lane is that
      of its offset, and its partner lies in the same sub-block. */
  lemma LaneParity4(i: nat)
    ensures (i % 4) % 2 == i % 2
    ensures i % 2 == 0 ==> (i + 1) % 4 == i % 4 + 1
    ensures i % 2 == 1 ==> (i - 1) % 4 == i % 4 - 1
  {
    var q, j := i / 4, i % 4;
    if j == 0 {
      DivModUnique(i, 2, 2 * q, 0);
      DivModUnique(i + 1, 4, q, 1);
    } else if j == 1 {
      DivModUnique(i, 2, 2 * q, 1);
      DivModUnique(i - 1, 4, q, 0);
    } else if j == 2 {
      DivModUnique(i, 2, 2 * q + 1, 0);
      DivModUnique(i + 1, 4, q, 3);
    } else {
      DivModUnique(i, 2, 2 * q + 1, 1);
      DivModUnique(i - 1, 4, q, 2);
    }
  }

  /** The sub-block repetition of perm carries over lane by lane (4-lane
      sub-blocks). */
  lemma SwapLaneStep4(perm: seq<nat>, i: nat)
    requires 4 <= |perm| && |perm| % 2 == 0
    requires RepeatsUpTo(perm, 4, |perm|)
    requires i < |perm|
    ensures SwapRealImag(perm)[i] == SwapRealImag(perm)[i % 4] + (i - i % 4)
  {
    var j := i % 4;
    LaneParity4(i);
    var a := if i % 2 == 0 then i + 1 else i - 1;
    var b := if i % 2 == 0 then j + 1 else j - 1;
    assert a % 4 == b;
    assert SwapRealImag(perm)[i] == perm[a];
    assert SwapRealImag(perm)[j] == perm[b];
    assert perm[a] == perm[b] + (a - b);
  }

  /** The same for 2-lane sub-blocks, where a sub-block is one complex
      number. */
  lemma SwapLaneStep2(perm: seq<nat>, i: nat)
    requires 2 <= |perm| && |perm| % 2 == 0
    requires RepeatsUpTo(perm, 2, |perm|)
    requires i < |perm|
    ensures SwapRealImag(perm)[i] == SwapRealImag(perm)[i % 2] + (i - i % 2)
  {
    var j := i % 2;
    var a := if j == 0 then i + 1 else i - 1;
    var b := if j == 0 then 1 else 0;
    assert a % 2 == b;
    assert SwapRealImag(perm)[i] == perm[a];
    assert SwapRealImag(perm)[j] == perm[b];
    assert perm[a] == perm[b] + (a - b);
  }

  // ---------------------------------------------------------------------
  // The builders as the source computes them: one complex number (two
  // lanes) per iteration.
  // ---------------------------------------------------------------------

  /** identity<packed_size>(): res[i] = i for every lane. */
  method ComputeIdentity(size: nat) returns (res: seq<nat>)
    ensures res == Identity(size)
  {
    var a := new nat[size];
    for i := 0 to size
      invariant forall t :: 0 <= t < i ==> a[t] == t
    {
      a[i] := i;
    }
    res := a[..];
  }

  /** flip<packed_size>(perm, rev_wire): for each complex number k, copy
      both lanes of complex number k ^ (1 << rev_wire). */
  method ComputeFlip(perm: seq<nat>, w: nat) returns (res: seq<nat>)
    requires PackedSize(|perm|) && Pow2(w) < |perm| / 2
    ensures res == Flip(perm, w)
  {
    Pow2Bound(w, |perm|);
    var a := new nat[|perm|];
    for k := 0 to |perm| / 2
      invariant forall t :: 0 <= t < 2 * k ==> a[t] == Flip(perm, w)[t]
    {
      FlipPair(perm, w, k);
      a[2 * k] := perm[2 * ToggleBit(k, w)];
      a[2 * k + 1] := perm[2 * ToggleBit(k, w) + 1];
    }
    res := a[..];
  }

  /** The two lanes of complex number k in flip, stated on k. */
  lemma FlipPair(perm: seq<nat>, w: nat, k: nat)
    requires PackedSize(|perm|) && Pow2(w) < |perm| / 2 && k < |perm| / 2
    ensures w < 3 && 2 * ToggleBit(k, w) + 1 < |perm|
    ensures Flip(perm, w)[2 * k] == perm[2 * ToggleBit(k, w)]
    ensures Flip(perm, w)[2 * k + 1] == perm[2 * ToggleBit(k, w) + 1]
  {
    Pow2Bound(w, |perm|);
    PairIndex(k);
    FlipLaneFacts(2 * k + 1, w, |perm|);
  }

  lemma PairIndex(k: nat)
    ensures (2 * k) / 2 == k && (2 * k) % 2 == 0
    ensures (2 * k + 1) / 2 == k && (2 * k + 1) % 2 == 1
  {
  }

  /** swapRealImag<packed_size>(perm): for each complex number k, exchange
      its two lanes. */
  method ComputeSwapRealImag(perm: seq<nat>) returns (res: seq<nat>)
    requires |perm| % 2 == 0
    ensures res == SwapRealImag(perm)
  {
    var a := new nat[|perm|];
    for k := 0 to |perm| / 2
      invariant forall t :: 0 <= t < 2 * k ==> a[t] == SwapRealImag(perm)[t]
    {
      PairIndex(k);
      a[2 * k] := perm[2 * k + 1];
      a[2 * k + 1] := perm[2 * k];
    }
    res := a[..];
  }
}
