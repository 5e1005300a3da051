# pennylane-lightning kernel helpers, modelled in Dafny

This project models four pieces of the C++ core of the PennyLane Lightning
state-vector simulator and proves properties of each.

- **Lane permutations of the AVX kernels** (`permutation.dfy`, module
  `Permutation`).
  - A permutation of the lanes of a SIMD register is a sequence of lane
    indices: output lane `i` reads input lane `perm[i]`.
  - The model covers the constexpr bubble sort.
  - It covers the classifier that decides whether a permutation stays within
    every 128-bit sub-block (`isWithinLane`).
  - It covers packing into the immediate byte of an in-lane permute
    (`getPermutation2x`, `getPermutation4x`) and `compilePermutation`, which
    picks the encoding.
  - It covers the builders `identity`, `flip` and `swapRealImag`.
  - The compiled form is decoded the way the permute instruction reads it, and
    decoding is proved to give back the permutation.
- **Kernel dispatch of `GateImplementationsAVX512`** (`dispatch.dfy`, module
  `KernelDispatch`).
  - For the single-qubit gates, `Rot`, `CZ`, `IsingZZ` and `SWAP`, the model
    covers how the reverse wires are computed.
  - It covers when the scalar LM kernel is used as the fallback.
  - It covers which internal or external kernel variant is chosen, and which
    reverse wires it receives as template and run-time arguments.
  - `size_t` subtraction wraps modulo 2^64, as in the source.
- **The LRU cache** (`cache.dfy`, module `Cache`).
  - `LRU_cache` is a class with a capacity, a recency queue (front = most
    recent) and a map of stored values.
  - Each method is proved against a function on the cache's state.
  - The invariant "queue and map agree, size within capacity" is proved to be
    kept.
- **The test-wire generators** (`wires.dfy`, module `CreateAllWires`).
  - `CombinationGenerator` and `PermutationGenerator` are classes with their
    buffers as arrays. Their recursive methods are proved to append exactly a
    recursively defined list of wire lists.
  - That list is proved to have the binomial or falling-factorial count, to
    contain no repeats, and to have the right shape.
  - `crateAllWires` is a method whose multi-qubit branch is a pair of loops
    over bit masks.

`types.dfy` (module `Types`) holds the two precisions, their sizes, the number
of lanes per 128-bit sub-block and `Pow2`.

## Model

| member | source | states |
|---|---|---|
| Types.LanesPer128 | pennylane_lightning/src/gates/cpu_kernels/avx_common/Permutation.hpp:148 | lanes per 128-bit sub-block times sizeof(PrecisionT) is 16 bytes |
| Permutation.BubbleSort | pennylane_lightning/src/gates/cpu_kernels/avx_common/Permutation.hpp:43-59 | after the passes the array is sorted ascending and holds the same multiset of values |
| Permutation.SortedUnique | pennylane_lightning/src/gates/cpu_kernels/avx_common/Permutation.hpp:156-164 | two sorted sequences with the same multiset are equal, so comparing the sorted lane with 0..L-1 decides whether the lane is a rearrangement of 0..L-1 |
| Permutation.IsWithinLane | pennylane_lightning/src/gates/cpu_kernels/avx_common/Permutation.hpp:146-174 | returns true exactly when the first sub-block is a rearrangement of 0..L-1 and every later sub-block repeats it shifted by its offset |
| Permutation.GetPermutation2x | pennylane_lightning/src/gates/cpu_kernels/avx_common/Permutation.hpp:177-183 | computed in 8-bit arithmetic; for entries 0 or 1 the selector 2 perm[1] + perm[0] fills all four 2-bit fields of the immediate (bit by bit in GetPermutation2xBits) |
| Permutation.GetPermutation2xBits | pennylane_lightning/src/gates/cpu_kernels/avx_common/Permutation.hpp:177-183 | for a two-lane pattern, bit j of the immediate is perm[j mod 2]: the pattern is repeated over all four lane pairs |
| Permutation.Pack4Fields | pennylane_lightning/src/gates/cpu_kernels/avx_common/Permutation.hpp:184-193 | the 2-bit field i of the packed byte is perm[i] for each of the four entries |
| Permutation.GetPermutation4x | pennylane_lightning/src/gates/cpu_kernels/avx_common/Permutation.hpp:184-193 | the shift-and-or loop from index 3 down to 0 yields the packed byte Pack4 |
| Permutation.CompilePermutation | pennylane_lightning/src/gates/cpu_kernels/avx_common/Permutation.hpp:225-264 | the within_lane flag is exactly the classifier's answer; an index vector is produced exactly for cross-lane permutations other than the 256-bit double case, which uses the 4x immediate |
| Permutation.CompileRoundTrip | pennylane_lightning/src/gates/cpu_kernels/avx_common/Permutation.hpp:225-264 | decoding the compiled permutation as the permute instruction reads it gives back, for every output lane, the lane the permutation names |
| Permutation.InLaneRoundTrip | pennylane_lightning/src/gates/cpu_kernels/avx_common/Permutation.hpp:229-241 | for a within-lane permutation the in-lane immediate selects perm[j] for every output lane j |
| Permutation.Identity | pennylane_lightning/src/gates/cpu_kernels/avx_common/Permutation.hpp:266-275 | identity has packed_size entries and is a bijection of the lanes |
| Permutation.IdentityWithinLane | pennylane_lightning/src/gates/cpu_kernels/avx_common/Permutation.hpp:266-275 | identity acts within 128-bit lanes for either precision |
| Permutation.ComputeIdentity | pennylane_lightning/src/gates/cpu_kernels/avx_common/Permutation.hpp:266-275 | the fill loop produces the identity permutation |
| Permutation.Flip | pennylane_lightning/src/gates/cpu_kernels/avx_common/Permutation.hpp:277-289 | the reference definition of flip, of the same length as perm; what it promises is stated by FlipInvolution and FlipPermutation, and ComputeFlip is proved equal to it |
| Permutation.ComputeFlip | pennylane_lightning/src/gates/cpu_kernels/avx_common/Permutation.hpp:277-289 | the loop over complex numbers copies both lanes of number k ^ (1 << rev_wire), which is the specification Flip |
| Permutation.FlipInvolution | pennylane_lightning/src/gates/cpu_kernels/avx_common/Permutation.hpp:277-289 | flipping the same wire twice restores the permutation |
| Permutation.FlipPermutation | pennylane_lightning/src/gates/cpu_kernels/avx_common/Permutation.hpp:277-289 | flip maps a bijection of the lanes to a bijection |
| Permutation.SwapRealImag | pennylane_lightning/src/gates/cpu_kernels/avx_common/Permutation.hpp:290-302 | the reference definition of swapRealImag, of the same length as perm; what it promises is stated by SwapRealImagInvolution, SwapRealImagPermutation and SwapRealImagWithinLane |
| Permutation.ComputeSwapRealImag | pennylane_lightning/src/gates/cpu_kernels/avx_common/Permutation.hpp:290-302 | the loop exchanges the two lanes of every complex number, which is the specification SwapRealImag |
| Permutation.SwapRealImagInvolution | pennylane_lightning/src/gates/cpu_kernels/avx_common/Permutation.hpp:290-302 | swapping real and imaginary parts twice restores the permutation |
| Permutation.SwapRealImagPermutation | pennylane_lightning/src/gates/cpu_kernels/avx_common/Permutation.hpp:290-302 | swapRealImag maps a bijection of the lanes to a bijection |
| Permutation.SwapRealImagWithinLane | pennylane_lightning/src/gates/cpu_kernels/avx_common/Permutation.hpp:290-302 | swapRealImag of a within-lane permutation is still within-lane, so it still compiles to an immediate |
| KernelDispatch.ReverseWire | pennylane_lightning/src/gates/cpu_kernels/GateImplementationsAVX512.hpp:77 | num_qubits - wire - 1 in size_t; for a valid wire it is below num_qubits and adds up with the wire to num_qubits - 1 |
| KernelDispatch.ReverseWireInvolution | pennylane_lightning/src/gates/cpu_kernels/GateImplementationsAVX512.hpp:77 | reversing a valid wire twice gives the wire back |
| KernelDispatch.FallbackBound | pennylane_lightning/src/gates/cpu_kernels/GateImplementationsAVX512.hpp:282-337 | the literal bound applyS tests (3 for float, 2 for double) equals InternalWires, the model's value of internal_wires_v, which the other single-qubit gates test; the equality follows from that value, see Left out |
| KernelDispatch.SingleQubitKernel | pennylane_lightning/src/gates/cpu_kernels/GateImplementationsAVX512.hpp:73-124 | the kernel applySingleQubitOp, applyS and the other single-qubit gates call: LM, an internal kernel only at a reverse wire the register holds, or the external kernel only beyond it; the full decision table is SingleQubitDispatch |
| KernelDispatch.SingleQubitDispatch | pennylane_lightning/src/gates/cpu_kernels/GateImplementationsAVX512.hpp:73-124 | LM fallback exactly when num_qubits < internal wires; otherwise the internal kernel exactly for an internal wire, at its reverse wire, and the external kernel for any other wire |
| KernelDispatch.SingleQubitDistinct | pennylane_lightning/src/gates/cpu_kernels/GateImplementationsAVX512.hpp:73-124 | two distinct wires of one state never get the same kernel call |
| KernelDispatch.RotParameters | pennylane_lightning/src/gates/cpu_kernels/GateImplementationsAVX512.hpp:508-519 | the angles are passed unchanged, or as (-omega, -theta, -phi) for the inverse |
| KernelDispatch.RotParametersInvolution | pennylane_lightning/src/gates/cpu_kernels/GateImplementationsAVX512.hpp:508-519 | inverting the Rot angles twice restores them |
| KernelDispatch.RotDispatch | pennylane_lightning/src/gates/cpu_kernels/GateImplementationsAVX512.hpp:508-519 | applyRot passes the angles given by RotParameters, calls applySingleQubitOp with the inverse flag false, and gets its kernel choice |
| KernelDispatch.RotDispatchLikeSingleQubit | pennylane_lightning/src/gates/cpu_kernels/GateImplementationsAVX512.hpp:508-519 | Rot chooses the same kernel as every other single-qubit gate on the same wire |
| KernelDispatch.TwoQubitKernel | pennylane_lightning/src/gates/cpu_kernels/GateImplementationsAVX512.hpp:522-567 | the kernel applyCZ and applyIsingZZ (lines 660-706) call: internal-internal only on two internal reverse wires, internal-external only on one of each, external-external only on two external ones; the decision on the wires themselves is TwoQubitDispatch |
| KernelDispatch.TwoQubitDispatch | pennylane_lightning/src/gates/cpu_kernels/GateImplementationsAVX512.hpp:522-567 | for CZ and IsingZZ: LM exactly below the bound; otherwise internal-internal, internal-external or external-external by how many wires are internal, with the reverse wires of wires[1] and wires[0] in that order |
| KernelDispatch.SwapKernel | pennylane_lightning/src/gates/cpu_kernels/GateImplementationsAVX512.hpp:569-658 | the kernel applySWAP calls: never a single-wire kernel; internal-internal only at template arguments lo < hi both internal, internal-external only with an internal template argument and an external run-time one; SwapUnreachableIff and SwapDispatch state the decision |
| KernelDispatch.SwapKeyPairs | pennylane_lightning/src/gates/cpu_kernels/GateImplementationsAVX512.hpp:589-605 | on internal float reverse wires min <= max, the key min ^ max is 0 exactly for equal wires and 1, 2, 3 exactly for the pairs (0,1), (0,2), (1,2) |
| KernelDispatch.SwapUnreachableIff | pennylane_lightning/src/gates/cpu_kernels/GateImplementationsAVX512.hpp:569-658 | SWAP reaches PL_UNREACHABLE exactly when both wires are the same internal float wire, never for distinct wires |
| KernelDispatch.SwapDispatch | pennylane_lightning/src/gates/cpu_kernels/GateImplementationsAVX512.hpp:569-658 | for distinct wires SWAP follows the two-qubit decision table; internal variants get (min, max) reverse wires, external-external (rev_wire0, rev_wire1) |
| Cache.LruCache.constructor | pennylane_lightning/src/util/Cache.hpp:89 | a new cache has the given capacity (0 by default), an empty queue and no stored values |
| Cache.LruCache.CheckCache | pennylane_lightning/src/util/Cache.hpp:98-101 | finds a value exactly when the key is stored, and returns the stored value |
| Cache.LruCache.Insert | pennylane_lightning/src/util/Cache.hpp:109-122 | the new state is InsertSpec of the old one, and the cache invariant is kept |
| Cache.InsertKeepsCoherent | pennylane_lightning/src/util/Cache.hpp:109-122 | insert keeps queue and map in agreement and within capacity; capacity 0 ignores the insert; otherwise the key is stored with its value at the front |
| Cache.InsertEvictsBack | pennylane_lightning/src/util/Cache.hpp:113-117 | a new key is added without eviction while there is room; in a full cache exactly the key at the back is evicted, and all other values stay |
| Cache.InsertAsWritten | pennylane_lightning/src/util/Cache.hpp:109-122 | insert exactly as written, with no contract of its own: DuplicateInsertOverflows shows it breaking the capacity bound, and InsertSpec is the corrected insert the class uses |
| Cache.DuplicateInsertOverflows | pennylane_lightning/src/util/Cache.hpp:109-122 | insert as written, capacity 2, keys 1, 1, 2, 3, 4: three values end up stored |
| Cache.LruCache.SetCacheSize | pennylane_lightning/src/util/Cache.hpp:129-136 | the new state is Resize of the old one, and the cache invariant is kept |
| Cache.LruCache.EvictBack | pennylane_lightning/src/util/Cache.hpp:132-134 | erases the value of the back key and pops it, keeping queue and map paired |
| Cache.ResizeKeepsMostRecent | pennylane_lightning/src/util/Cache.hpp:129-136 | resizing to n keeps exactly the n most recently used keys in their order, with unchanged values, within the new capacity |
| Cache.LruCache.Renew | pennylane_lightning/src/util/Cache.hpp:143-145 | the key moves to the front and the other keys keep their order |
| Cache.RenewRearranges | pennylane_lightning/src/util/Cache.hpp:143-145 | renew keeps the invariant, stores nothing new, puts the key first and only rearranges the queue |
| Cache.LruCache.Get | pennylane_lightning/src/util/Cache.hpp:153-156 | returns the stored value and renews the key |
| Cache.LruCache.Size | pennylane_lightning/src/util/Cache.hpp:184 | the occupancy is the queue length and never exceeds the capacity |
| Cache.LruCache.Capacity | pennylane_lightning/src/util/Cache.hpp:190 | returns the capacity cache_size_, which is at least the number of stored values |
| CreateAllWires.CombinationGenerator.Comb | pennylane_lightning/src/tests/CreateAllWires.hpp:22-35 | appends exactly Combs(n, r, tail) for the buffer's tail, and leaves that tail unchanged |
| CreateAllWires.CombinationGenerator.constructor | pennylane_lightning/src/tests/CreateAllWires.hpp:37-40 | all_perms_ is Combs(n, r, []) |
| CreateAllWires.Combs | pennylane_lightning/src/tests/CreateAllWires.hpp:22-35 | the reference definition of what comb appends; CombsCount, CombsShape and CombsDistinct state its properties and CombinationGenerator.Comb is proved to append it |
| CreateAllWires.CombsCount | pennylane_lightning/src/tests/CreateAllWires.hpp:22-35 | comb emits C(n, r) lists (Pascal's rule) |
| CreateAllWires.CombsShape | pennylane_lightning/src/tests/CreateAllWires.hpp:22-35 | each emitted list has r chosen wires, strictly increasing and below n, followed by the tail |
| CreateAllWires.CombsDistinct | pennylane_lightning/src/tests/CreateAllWires.hpp:22-35 | no list is emitted twice |
| CreateAllWires.PermutationGenerator.Perm | pennylane_lightning/src/tests/CreateAllWires.hpp:55-66 | appends exactly Perms of the first n available elements, and restores the pool and the buffer's tail |
| CreateAllWires.PermutationGenerator.PermStep | pennylane_lightning/src/tests/CreateAllWires.hpp:60-65 | one loop iteration appends the arrangements starting from pool[i], chosen from the pool without it, and undoes its swap |
| CreateAllWires.PermutationGenerator.constructor | pennylane_lightning/src/tests/CreateAllWires.hpp:68-75 | all_perms_ is Perms(0..n-1, r, []) |
| CreateAllWires.Perms | pennylane_lightning/src/tests/CreateAllWires.hpp:55-66 | the reference definition of what perm appends; PermsCount, PermsShape and PermsDistinct state its properties and PermutationGenerator.Perm is proved to append it |
| CreateAllWires.PermsCount | pennylane_lightning/src/tests/CreateAllWires.hpp:55-66 | perm emits n (n-1) ... (n-r+1) lists |
| CreateAllWires.PermsShape | pennylane_lightning/src/tests/CreateAllWires.hpp:55-66 | each emitted list has r distinct wires from the pool, followed by the tail |
| CreateAllWires.PermsDistinct | pennylane_lightning/src/tests/CreateAllWires.hpp:55-66 | no list is emitted twice |
| CreateAllWires.SetBitsShape | pennylane_lightning/src/tests/CreateAllWires.hpp:104-108 | the inner loop collects, in increasing order, exactly the wires whose bit is set in the mask |
| CreateAllWires.SetBitsMask | pennylane_lightning/src/tests/CreateAllWires.hpp:100-108 | the wire list of a mask below 2^n encodes that mask, so different masks give different lists |
| CreateAllWires.MultiQubitWires | pennylane_lightning/src/tests/CreateAllWires.hpp:95-112 | the reference definition of the multi-qubit branch: one list per mask 1 .. 2^n - 1, so 2^n - 1 lists; MultiQubitWiresFacts states the rest |
| CreateAllWires.MultiQubitWiresFacts | pennylane_lightning/src/tests/CreateAllWires.hpp:95-112 | 2^n - 1 lists, all different, each a non-empty increasing list of wires below n |
| CreateAllWires.MultiQubitLoop | pennylane_lightning/src/tests/CreateAllWires.hpp:95-112 | the nested loops produce MultiQubitWires(n) |
| CreateAllWires.CombinationsOfWires | pennylane_lightning/src/tests/CreateAllWires.hpp:118 | C(n, r) different increasing lists of r wires below n |
| CreateAllWires.PermutationsOfWires | pennylane_lightning/src/tests/CreateAllWires.hpp:116 | n!/(n-r)! different lists of r distinct wires below n |
| CreateAllWires.AllWiresFacts | pennylane_lightning/src/tests/CreateAllWires.hpp:92-119 | whatever the gate, the lists are all different and each is a list of distinct wires below n |
| CreateAllWires.AllWires | pennylane_lightning/src/tests/CreateAllWires.hpp:92-119 | the reference definition of what crateAllWires returns; AllWiresFacts states its properties and CrateAllWires is proved to return it |
| CreateAllWires.CrateAllWires | pennylane_lightning/src/tests/CreateAllWires.hpp:92-119 | returns AllWires(n, gate, order): the subsets for a multi-qubit gate, else permutations or combinations depending on order |

## Left out

- Kernel bodies are not modelled. This covers the SIMD intrinsics, the
  `ApplySingleQubitOp`, `ApplyCZ` and similar kernel classes, the scalar
  `GateImplementationsLM` fallback and the `permute` functions. The model
  stops at which kernel is called with which reverse wires.
- The `inverse` flag, the angle and the matrix that the gates pass on to the
  kernels and to the LM fallback are not part of `Kernel`. Only Rot's
  argument handling is modelled (`RotDispatch`).
- `getRot`, the matrix arithmetic and floating point are not modelled. Rot
  angles are `real`, and only their sign and order are modelled.
- `getPermutation8x256i`, `getPermutation8x512i` and `getPermutation16x512i`
  are modelled as the `IndexVector` encoding, which holds the permutation
  itself. The `__m256i`/`__m512i` register layout is not modelled.
- `uint8_t` permutation entries are `nat`. `GetPermutation2x`,
  `GetPermutation4x` and `CompilePermutation` require entries below 256, the
  range of `uint8_t`. The round-trip lemmas also require entries that name a
  lane, since only those can be read back from the encoding.
- The template parameters and `static_assert`s of `CompiledPermutation` become
  `requires`: a supported (precision, packed size) shape and a lane-aligned
  size.
- Permutation.Flip: requires `1 << rev_wire` to name a complex number in the
  register. Outside that range the source indexes past the array.
- Permutation.BubbleSort: models the iterator range as an `array<int>`, and
  the `uint32_t` lane copy as `int`.
- Cache.LruCache.Insert: models the corrected insert, which renews a key that
  is already stored. The source as written is `Cache.InsertAsWritten`; see
  Findings.
- `key_ring_` and `hash_function` are not modelled. Renew finds the key in the
  queue instead of through a stored iterator, which gives the same resulting
  order.
- `get_key`, `begin`, `end`, `clear` and the destructor are not modelled.
  They are iterator plumbing and cleanup that no caller in the model needs.
- `check_cache` returns an `Option` instead of a map iterator. `get` takes the
  key instead of that iterator.
- Cache.LruCache.Renew: requires the key to be stored. In the source,
  `key_ring_[key]` on an absent key splices a default iterator, which is
  undefined behaviour.
- `Util::lookup(gate_wires, …)` and the `multi_qubit_gates` membership test
  are not modelled. They become the `GateWires` parameter of `CrateAllWires`.
  The gate tables (`GateOperation`, `Constant`) are not part of this model.
- CreateAllWires.MultiQubitLoop: requires n < 32, because `1U << n_qubits` is
  a 32-bit shift that is undefined for larger n.
- `reserve` and `popcount` are allocation hints with no effect on the result.
- The `WiresGenerator` base class and its `all_perms()` accessor are not
  modelled. The model reads the `allPerms` field instead.
- KernelDispatch.FallbackBound: the definition of `internal_wires_v` is not
  part of this model. `Types.InternalWires` gives it the values 3 (float) and 2
  (double). These match applyS's literal bounds and the internal `switch`
  cases (0-2 for float, 0-1 for double) of every single-qubit gate. The
  equality FallbackBound states holds because of that choice.
- PauliX, PauliY, PauliZ, Hadamard, RX and RZ make the same decision as
  `applySingleQubitOp`. They are covered through the `SingleQubitGate`
  parameter rather than one function each.
- `assert(wires.size() == …)` in the kernels becomes a `requires` on the
  length of `wires`.

## Findings

| source | as written | input that shows it | evidently intended | confidence | as-written member | corrected member |
|---|---|---|---|---|---|---|
| pennylane_lightning/src/util/Cache.hpp:109-122 | insert pushes a key that is already stored onto the queue a second time, without removing the first copy; a later eviction pops a key whose value is already erased, so nothing is freed | capacity 2, insert keys 1, 1, 2, 3, 4: three values stay stored | a stored key is renewed and its value replaced, so at most capacity values are ever stored | high, not executed | Cache.DuplicateInsertOverflows | Cache.InsertKeepsCoherent |
