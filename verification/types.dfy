/** Floating-point precisions the AVX kernels are instantiated for, and the
    constants each precision fixes. */
module Types {

  /** `float` (4 bytes) or `double` (8 bytes). */
  datatype Precision = Float | Double

  /** sizeof(PrecisionT) in bytes. */
  function SizeOf(p: Precision): (r: nat)
  {
    match p
    case Float => 4
    case Double => 8
  }

  /** Number of lanes in one 128-bit sub-block: 16 / sizeof(PrecisionT). */
  function LanesPer128(p: Precision): (r: nat)
    ensures r * SizeOf(p) == 16
  {
    match p
    case Float => 4
    case Double => 2
  }

  /** Number of reverse wires whose bit lies inside one 512-bit register
      (8 complex floats, 4 complex doubles): below it a wire is "internal". */
  function InternalWires(p: Precision): (r: nat)
    ensures Pow2(r) * 2 * SizeOf(p) == 64
  {
    match p
    case Float => 3
    case Double => 2
  }

  function Pow2(k: nat): (r: nat)
    ensures r >= 1
  {
    if k == 0 then 1 else 2 * Pow2(k - 1)
  }

  /** No element occurs twice. */
  predicate Distinct<T(==)>(s: seq<T>)
  {
    forall i, j :: 0 <= i < j < |s| ==> s[i] != s[j]
  }

  function Min(a: nat, b: nat): nat { if a <= b then a else b }
  function Max(a: nat, b: nat): nat { if a <= b then b else a }

  /** [0, 1, ..., n-1]. */
  function Iota(n: nat): (r: seq<nat>)
    ensures |r| == n
    ensures forall i :: 0 <= i < n ==> r[i] == i
  {
    seq(n, i => i)
  }

  lemma MulMono(d: nat, a: nat, b: nat)
    requires a < b
    ensures d * a + d <= d * b
  {
    var c := b - a - 1;
    assert d * b == d * a + d + d * c;
  }

  /** Quotient and remainder are the only pair with k == d q + r, r < d. */
  lemma DivModUnique(k: nat, d: nat, q: nat, r: nat)
    requires d > 0 && r < d && k == d * q + r
    ensures k / d == q && k % d == r
  {
    var q', r' := k / d, k % d;
    assert k == d * q' + r';
    if q' > q {
      MulMono(d, q, q');
    } else if q' < q {
      MulMono(d, q', q);
    }
  }
}
