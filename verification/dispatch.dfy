/** Kernel-variant selection of the AVX-512 gate implementations.  Each gate
    computes reverse wires from the wires it is given, falls back to the
    scalar LM kernel when a 512-bit register is wider than the whole state
    vector, and otherwise picks an internal (the wire's bit lies inside one
    register) or external (the bit selects between registers) variant.  The
    kernels themselves are not part of this model; the choice is. */
module KernelDispatch {
  import opened Types

  /** size_t arithmetic wraps modulo 2^64. */
  const SizeTModulus: nat := 0x1_0000_0000_0000_0000

  /** The kernel a gate application is routed to.  Arguments are the reverse
      wires the source passes, as template or run-time arguments. */
  datatype Kernel =
    | LM                                          // GateImplementationsLM fallback
    | Internal(rev: nat)                          // applyInternal<rev>
    | External(rev: nat)                          // applyExternal(rev)
    | InternalInternal(rev0: nat, rev1: nat)
    | InternalExternal(rev0: nat, rev1: nat)
    | ExternalExternal(rev0: nat, rev1: nat)
    | Unreachable                                 // PL_UNREACHABLE

  /** num_qubits - wire - 1 computed in size_t. */
  function ReverseWire(n: nat, wire: nat): (r: nat)
    requires n < SizeTModulus && wire < SizeTModulus
    ensures r < SizeTModulus
    ensures wire < n ==> r < n && r + wire + 1 == n
  {
    (n - wire - 1) % SizeTModulus
  }

  /** On valid wires, reversing twice gives the wire back. */
  lemma ReverseWireInvolution(n: nat, wire: nat)
    requires wire < n < SizeTModulus
    ensures ReverseWire(n, ReverseWire(n, wire)) == wire
  {
  }

  /** A wire is internal, for a state of n qubits, when its reverse wire is
      below the number of wires a register holds: the last InternalWires(p)
      wires. */
  predicate IsInternalWire(p: Precision, n: nat, wire: nat)
  {
    wire + InternalWires(p) >= n
  }

  // ---------------------------------------------------------------------
  // Single-qubit gates
  // ---------------------------------------------------------------------

  /** The single-qubit gates of the kernel.  All of them share one decision:
      applySingleQubitOp, PauliX, PauliY, PauliZ, Hadamard, RX and RZ test
      num_qubits against internal_wires_v; S writes the same bound as the
      literal 3 (float) or 2 (double). */
  datatype SingleQubitGate = SingleQubitOp | PauliX | PauliY | PauliZ | S | Hadamard | RX | RZ

  /** The fallback bound each gate tests num_qubits against. */
  function FallbackBound(g: SingleQubitGate, p: Precision): (b: nat)
    ensures b == InternalWires(p)
  {
    match g
    case S => (match p case Float => 3 case Double => 2)
    case _ => InternalWires(p)
  }

  /** The switch on rev_wire: one applyInternal<k> per wire a register
      holds (0..2 for float, 0..1 for double), applyExternal otherwise. */
  function SwitchRevWire(p: Precision, rev: nat): Kernel
  {
    match p
    case Float =>
      if rev == 0 then Internal(0)
      else if rev == 1 then Internal(1)
      else if rev == 2 then Internal(2)
      else External(rev)
    case Double =>
      if rev == 0 then Internal(0)
      else if rev == 1 then Internal(1)
      else External(rev)
  }

  /** The kernel a single-qubit gate calls: an internal kernel is only
      instantiated at a reverse wire the register holds, and the external
      kernel only gets a reverse wire beyond it. */
  function SingleQubitKernel(g: SingleQubitGate, p: Precision, n: nat, wire: nat): (k: Kernel)
    requires n < SizeTModulus && wire < SizeTModulus
    ensures k.LM? || k.Internal? || k.External?
    ensures k.Internal? ==> k.rev < InternalWires(p)
    ensures k.External? ==> k.rev >= InternalWires(p)
  {
    if n < FallbackBound(g, p) then LM
    else SwitchRevWire(p, ReverseWire(n, wire))
  }

  /** A single-qubit gate falls back exactly when the register holds more
      wires than the state; otherwise an internal wire gets the internal
      kernel instantiated at its reverse wire (a valid template argument) and
      any other wire the external kernel, and the unreachable branch is
      never taken. */
  lemma SingleQubitDispatch(g: SingleQubitGate, p: Precision, n: nat, wire: nat)
    requires wire < n < SizeTModulus
    ensures var k := SingleQubitKernel(g, p, n, wire);
      && (k.LM? <==> n < InternalWires(p))
      && (!k.LM? ==> (k.Internal? <==> IsInternalWire(p, n, wire)))
      && (k.Internal? ==> k.rev < InternalWires(p) && k.rev == n - wire - 1)
      && (k.External? ==> k.rev == n - wire - 1)
      && (k.LM? || k.Internal? || k.External?)
  {
  }

  /** Distinct wires of one state never share an internal kernel instance. */
  lemma SingleQubitDistinct(g: SingleQubitGate, p: Precision, n: nat, w0: nat, w1: nat)
    requires w0 < n && w1 < n < SizeTModulus && w0 != w1 && n >= InternalWires(p)
    ensures SingleQubitKernel(g, p, n, w0) != SingleQubitKernel(g, p, n, w1)
  {
  }

  /** The Rot angles applyRot builds its matrix from: (-omega, -theta, -phi)
      for the inverse, (phi, theta, omega) otherwise. */
  datatype RotAngles = RotAngles(phi: real, theta: real, omega: real)

  function RotParameters(inverse: bool, a: RotAngles): (r: RotAngles)
    ensures !inverse ==> r == a
    ensures inverse ==> r.phi + a.omega == 0.0 && r.theta + a.theta == 0.0 && r.omega + a.phi == 0.0
  {
    if inverse then RotAngles(-a.omega, -a.theta, -a.phi) else a
  }

  /** Inverting the angles twice restores them. */
  lemma RotParametersInvolution(a: RotAngles)
    ensures RotParameters(true, RotParameters(true, a)) == a
  {
  }

  /** applyRot: the angles it passes, the kernel applySingleQubitOp then
      picks, and the inverse flag it passes (always false: the inverse is
      already folded into the angles). */
  datatype RotCall = RotCall(angles: RotAngles, kernel: Kernel, inverse: bool)

  function RotDispatch(p: Precision, n: nat, wire: nat, inverse: bool, a: RotAngles): (c: RotCall)
    requires n < SizeTModulus && wire < SizeTModulus
    ensures c.angles == RotParameters(inverse, a)
    ensures !c.inverse && c.kernel == SingleQubitKernel(SingleQubitOp, p, n, wire)
  {
    RotCall(RotParameters(inverse, a), SingleQubitKernel(SingleQubitOp, p, n, wire), false)
  }

  /** The Rot dispatch falls back, or picks internal or external, exactly as
      every other single-qubit gate does. */
  lemma RotDispatchLikeSingleQubit(p: Precision, n: nat, wire: nat, inverse: bool, a: RotAngles, g: SingleQubitGate)
    requires wire < n < SizeTModulus
    ensures RotDispatch(p, n, wire, inverse, a).kernel == SingleQubitKernel(g, p, n, wire)
  {
  }

  // ---------------------------------------------------------------------
  // Two-qubit gates
  // ---------------------------------------------------------------------

  /** CZ and IsingZZ: rev_wire0 comes from wires[1], rev_wire1 (the control)
      from wires[0]; both below the bound selects internal-internal, else the
      smaller below it selects internal-external, else external-external. */
  function TwoQubitKernel(p: Precision, n: nat, wires: seq<nat>): (k: Kernel)
    requires |wires| == 2 && n < SizeTModulus && wires[0] < SizeTModulus && wires[1] < SizeTModulus
    ensures k.LM? || k.InternalInternal? || k.InternalExternal? || k.ExternalExternal?
    ensures k.InternalInternal? ==> k.rev0 < InternalWires(p) && k.rev1 < InternalWires(p)
    ensures k.InternalExternal? ==> Min(k.rev0, k.rev1) < InternalWires(p) <= Max(k.rev0, k.rev1)
    ensures k.ExternalExternal? ==> InternalWires(p) <= k.rev0 && InternalWires(p) <= k.rev1
  {
    if n < InternalWires(p) then LM
    else
      var r0 := ReverseWire(n, wires[1]);
      var r1 := ReverseWire(n, wires[0]);
      var t := match p case Float => 3 case Double => 2;
      if r0 < t && r1 < t then InternalInternal(r0, r1)
      else if Min(r0, r1) < t then InternalExternal(r0, r1)
      else ExternalExternal(r0, r1)
  }

  /** The two-qubit decision table, stated on the wires themselves: exactly
      one variant, chosen by how many of the two wires are internal, always
      with the reverse wires of wires[1] and wires[0] in that order. */
  lemma TwoQubitDispatch(p: Precision, n: nat, w0: nat, w1: nat)
    requires w0 < n && w1 < n < SizeTModulus
    ensures var k := TwoQubitKernel(p, n, [w0, w1]);
      var i0, i1 := IsInternalWire(p, n, w1), IsInternalWire(p, n, w0);
      && (k.LM? <==> n < InternalWires(p))
      && (!k.LM? ==>
           && (k.InternalInternal? <==> i0 && i1)
           && (k.InternalExternal? <==> i0 != i1)
           && (k.ExternalExternal? <==> !i0 && !i1)
           && k.rev0 == n - w1 - 1 && k.rev1 == n - w0 - 1)
  {
  }

  /** The min ^ max key float SWAP switches on. */
  function SwapKey(lo: nat, hi: nat): (r: nat)
    requires lo < 4 && hi < 4
    ensures r < 4
  {
    ((lo as bv8) ^ (hi as bv8)) as nat
  }

  /** On internal float wires lo <= hi the key is 0 exactly when the wires
      coincide, and it tells the three distinct pairs apart: 1 for (0, 1),
      2 for (0, 2), 3 for (1, 2). */
  lemma SwapKeyPairs(lo: nat, hi: nat)
    requires lo <= hi < 3
    ensures SwapKey(lo, hi) == 0 <==> lo == hi
    ensures SwapKey(lo, hi) == 1 <==> lo == 0 && hi == 1
    ensures SwapKey(lo, hi) == 2 <==> lo == 0 && hi == 2
    ensures SwapKey(lo, hi) == 3 <==> lo == 1 && hi == 2
  {
    if lo == 0 {
      if hi == 0 { assert SwapKey(0, 0) == 0; }
      else if hi == 1 { assert SwapKey(0, 1) == 1; }
      else { assert SwapKey(0, 2) == 2; }
    } else if lo == 1 {
      if hi == 1 { assert SwapKey(1, 1) == 0; }
      else { assert SwapKey(1, 2) == 3; }
    } else {
      assert SwapKey(2, 2) == 0;
    }
  }

  /** applySWAP.  Float: internal-internal is instantiated at the pair the
      min ^ max key names, internal-external at the template argument min
      with max at run time.  Double: internal-internal is always <0, 1>. */
  function SwapKernel(p: Precision, n: nat, wires: seq<nat>): (k: Kernel)
    requires |wires| == 2 && n < SizeTModulus && wires[0] < SizeTModulus && wires[1] < SizeTModulus
    ensures !k.Internal? && !k.External?
    ensures k.InternalInternal? ==> k.rev0 < k.rev1 < InternalWires(p)
    ensures k.InternalExternal? ==> k.rev0 < InternalWires(p) <= k.rev1
    ensures k.ExternalExternal? ==> InternalWires(p) <= k.rev0 && InternalWires(p) <= k.rev1
  {
    match p
    case Float =>
      if n < 3 then LM
      else
        var r0 := ReverseWire(n, wires[1]);
        var r1 := ReverseWire(n, wires[0]);
        var lo, hi := Min(r0, r1), Max(r0, r1);
        if r0 < 3 && r1 < 3 then
          var key := SwapKey(lo, hi);
          if key == 1 then InternalInternal(0, 1)
          else if key == 2 then InternalInternal(0, 2)
          else if key == 3 then InternalInternal(1, 2)
          else Unreachable
        else if lo < 3 then
          if lo == 0 then InternalExternal(0, hi)
          else if lo == 1 then InternalExternal(1, hi)
          else if lo == 2 then InternalExternal(2, hi)
          else Unreachable
        else ExternalExternal(r0, r1)
    case Double =>
      if n < 2 then LM
      else
        var r0 := ReverseWire(n, wires[1]);
        var r1 := ReverseWire(n, wires[0]);
        var lo, hi := Min(r0, r1), Max(r0, r1);
        if r0 < 2 && r1 < 2 then InternalInternal(0, 1)
        else if lo < 2 then
          if lo == 0 then InternalExternal(0, hi) else InternalExternal(1, hi)
        else ExternalExternal(r0, r1)
  }

  /** SWAP reaches PL_UNREACHABLE exactly when both wires are the same
      internal float wire: for distinct wires it never does. */
  lemma SwapUnreachableIff(p: Precision, n: nat, w0: nat, w1: nat)
    requires w0 < n && w1 < n < SizeTModulus
    ensures SwapKernel(p, n, [w0, w1]).Unreachable? <==>
      p == Float && n >= 3 && w0 == w1 && IsInternalWire(p, n, w0)
  {
    if p == Float && n >= 3 {
      var r0, r1 := n - w1 - 1, n - w0 - 1;
      if r0 < 3 && r1 < 3 {
        SwapKeyPairs(Min(r0, r1), Max(r0, r1));
      }
    }
  }

  /** For distinct wires SWAP follows the same decision table as the other
      two-qubit gates, and every kernel it picks works on the pair of reverse
      wires: internal-internal on (min, max) instantiated as template
      arguments, internal-external on min as template argument and max at run
      time, external-external on (rev_wire0, rev_wire1). Equal wires are
      covered by SwapKernel's contract and by SwapUnreachableIff, which says
      exactly when they reach PL_UNREACHABLE. */
  lemma SwapDispatch(p: Precision, n: nat, w0: nat, w1: nat)
    requires w0 < n && w1 < n < SizeTModulus && w0 != w1
    ensures var k := SwapKernel(p, n, [w0, w1]);
      var r0, r1 := n - w1 - 1, n - w0 - 1;
      var i0, i1 := IsInternalWire(p, n, w1), IsInternalWire(p, n, w0);
      && (k.LM? <==> n < InternalWires(p))
      && (!k.LM? ==>
           && (k.InternalInternal? <==> i0 && i1)
           && (k.InternalExternal? <==> i0 != i1)
           && (k.ExternalExternal? <==> !i0 && !i1))
      && (k.InternalInternal? || k.InternalExternal? ==> k.rev0 == Min(r0, r1) && k.rev1 == Max(r0, r1))
      && (k.ExternalExternal? ==> k.rev0 == r0 && k.rev1 == r1)
  {
    if p == Float && n >= 3 {
      var r0, r1 := n - w1 - 1, n - w0 - 1;
      if r0 < 3 && r1 < 3 {
        SwapKeyPairs(Min(r0, r1), Max(r0, r1));
      }
    }
  }
}
