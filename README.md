# EnsafedUnsafe address arithmetic, modelled in Dafny

EnsafedUnsafe wraps .NET's `System.Runtime.CompilerServices.Unsafe` for unmanaged
types. This project models its address-arithmetic and overlap layer:

- byte and element offsets between references and pointers;
- the address order (`AreSame`, greater, less, `Geq`, `Leq`);
- shifting a reference by elements or bytes (`Add`, `Subtract`);
- reinterpretation (`As`, `AsByteRef`, `AsReadOnly`) and the null sentinel;
- the region tests `Overlaps` and `Contains`, with the two's-complement trick;
- `OffsetOf`, the one member that validates its arguments and throws;
- the debug-time alignment heuristic `IsMaybeAligned` / `CheckAligned`.

Both 32-bit and 64-bit processes are covered by a `Width` parameter (`W32`, `W64`).
An address is an integer in `[0, 2^w)`. An `IntPtr` is a signed `w`-bit value.
Every unchecked C# cast is an explicit reduction modulo `2^w` or `2^32`. C# integer
division is modelled as truncation toward zero. An exception is a `Failure` value.
The element type `T` is a phantom type parameter of `Ref<T>` (a `ref T`) and
`InRef<T>` (an `in T`), and `sizeof(T)` is a positive `Size` argument.

Modules, in dependency order:

- `Platform` — widths, the casts, truncating division and their arithmetic lemmas.
- `Failures` — the exceptions as values (`OutOfRange`, `Overflow`, `Misaligned`).
- `Alignment` — `UnsignedSizeOf`, `IsMaybeAligned`, `CheckAligned`.
- `Addresses` — the `ref T` and pointer members of `UnsafeUnmanaged.Wrapper.cs` and the pointer `ByteOffset` of `UnsafeUnmanaged.Extra.cs`.
- `ReadOnlyAddresses` — the `in T` members of `UnsafeUnmanaged.ReadOnly.cs` and the read-only null sentinel.
- `Overlap` — `Overlaps` (three overloads) and `Contains`.
- `FieldOffset` — `OffsetOf`, and the corrected range check described under Findings.

The main results:

- `Overlaps` is the half-open interval intersection test for regions that do not run past the top of the address space (`Overlap.OverlapsIffIntersect`).
- In general `Overlaps` holds exactly when the two regions, taken around the address space, share a byte (`Overlap.OverlapsIffSharedAddress`). It is symmetric.
- `OffsetOf` finds exactly the members inside the enclosing value and rejects every other reference.
- Shifting and measuring are mutually inverse.
- The repository's own test vectors hold, for an arbitrary base address.

Behaviour of the code worth knowing, each proved:

- Exact antisymmetry `ByteOffset(a, b) == -ByteOffset(b, a)` fails for one offset: `-2^(w-1)`, the least signed native integer, negates onto itself. `Addresses.ByteOffsetAntisymmetric` proves the negation modulo `2^w`, exactness for every other offset, and that exception.
- `IsMaybeAligned` looks only at the low 32 bits of the address, and asks only whether they are a multiple of 8 or of `sizeof(T)`, not of the type's alignment: adding any multiple of `2^32` to the address never changes the verdict (`Alignment.MaybeAlignedIgnoresHighBits`), and a 16-byte type passes at address 8 (`Alignment.MaybeAlignedAcceptsMultiplesOfEight`).
- The heuristic has false negatives: a 12-byte struct of three `int`s at address 4 is 4-aligned but rejected (`Alignment.MaybeAlignedMissesNonPowerOfTwoSize`).
- The two element-count `Overlaps` overloads compute byte counts differently: a `uint` product versus an `int`/`long` product. They agree only while the byte counts fit 32 bits (`Overlap.OverlapsOverloadsAgree`, `Overlap.OverlapsOverloadsDiverge`).

## Model

| member | source | states |
|---|---|---|
| Platform.ToUnsigned | src/UnsafeUnmanaged.Extra.cs:84-90 | the unchecked `(uint)`/`(ulong)` cast gives the unique unsigned value with the same representation |
| Platform.ToSigned | src/UnsafeUnmanaged.Extra.cs:52 | the unchecked `(int)`/`new IntPtr` gives the unique signed value with the same representation |
| Platform.WrapInt32 | src/UnsafeUnmanaged.Wrapper.cs:37 | the unchecked `(int)` narrowing keeps the low 32 bits and is the identity on `int` values |
| Platform.TruncDiv | src/UnsafeUnmanaged.Wrapper.cs:37 | C# division by a positive size truncates toward zero: the product lies between the dividend and zero, less than one size away |
| Platform.TruncDivMultiple | src/UnsafeUnmanaged.Wrapper.cs:37 | a whole number of elements divided by the element size gives that number back |
| Alignment.UnsignedSizeOf | src/UnsafeUnmanaged.Extra.cs:203-206 | the `uint` cast of a positive size loses nothing |
| Alignment.IsMaybeAligned | src/UnsafeUnmanaged.Extra.cs:188-201 | accepts every multiple of 8, and every multiple of a size that divides 2^32 |
| Alignment.CheckAligned | src/UnsafeUnmanaged.Extra.cs:9-14 | fails exactly when the heuristic rejects the address, carrying that address |
| Alignment.MaybeAlignedIgnoresHighBits | src/UnsafeUnmanaged.Extra.cs:189-191 | only the low 32 bits of the address decide the verdict, also on 64-bit |
| Alignment.MaybeAlignedMissesNonPowerOfTwoSize | src/UnsafeUnmanaged.Extra.cs:189-191 | a 4-aligned 12-byte value at address 4 is rejected |
| Alignment.MaybeAlignedAcceptsMultiplesOfEight | src/UnsafeUnmanaged.Extra.cs:189-191 | a 16-byte type at address 8 is accepted though 8 is not a multiple of 16 |
| Addresses.AsByteRef | src/UnsafeUnmanaged.Wrapper.cs:11-14 | the `ref byte` view has the same address |
| Addresses.As | src/UnsafeUnmanaged.Wrapper.cs:111-115 | reinterpretation keeps the address |
| Addresses.AsRef | src/UnsafeUnmanaged.Wrapper.cs:106-109 | dropping read-only keeps the address |
| Addresses.NullRef | src/UnsafeUnmanaged.Extra.cs:163-166 | the sentinel references address zero |
| Addresses.IsNullRef | src/UnsafeUnmanaged.Extra.cs:168-171 | holds exactly for the sentinel of the type |
| Addresses.NullRefIsNull | src/UnsafeUnmanaged.Extra.cs:163-171 | the sentinel is null and every non-zero address is not |
| Addresses.RawByteOffset | src/UnsafeUnmanaged.Extra.cs:46-52 | the `void*`/`byte*` offset is a signed `w`-bit value with the representation of `target - origin` |
| Addresses.ByteOffset | src/UnsafeUnmanaged.Wrapper.cs:154-157 | the `ref T` offset is a signed `w`-bit value with the representation of `target - origin` |
| Addresses.PointerByteOffset | src/UnsafeUnmanaged.Wrapper.cs:16-23 | succeeds exactly when both pointers pass the alignment check, fails naming the first that does not, and otherwise gives the byte offset |
| Addresses.ElementsIn | src/UnsafeUnmanaged.Wrapper.cs:31 | the byte offset divided by the size, rounded toward zero and narrowed to `int`, is the truncated quotient, exactly on 32-bit and whenever it fits an `int`, and its low 32 bits otherwise |
| Addresses.ElementOffset | src/UnsafeUnmanaged.Wrapper.cs:34-37 | the element offset is the truncated quotient of the byte offset by the size, as above |
| Addresses.PointerElementOffset | src/UnsafeUnmanaged.Wrapper.cs:25-32 | succeeds exactly when both pointers pass the alignment check, and is then the element offset of the two addresses |
| Addresses.AreSame | src/UnsafeUnmanaged.Wrapper.cs:159-162 | holds exactly for equal references |
| Addresses.IsAddressGreaterThan | src/UnsafeUnmanaged.Wrapper.cs:164-167 | greater-than is unsigned `>` on the addresses |
| Addresses.IsAddressLessThan | src/UnsafeUnmanaged.Wrapper.cs:169-172 | less-than is the converse of greater-than |
| Addresses.IsAddressGeq | src/UnsafeUnmanaged.Wrapper.cs:39-42 | same-or-greater is the order `>=` on addresses |
| Addresses.IsAddressLeq | src/UnsafeUnmanaged.Wrapper.cs:44-47 | same-or-less is the order `<=` on addresses |
| Addresses.Add | src/UnsafeUnmanaged.Wrapper.cs:117-120 | the result address is `source + n * size` modulo 2^w |
| Addresses.AddPointer | src/UnsafeUnmanaged.Wrapper.cs:122-125 | the result pointer is `source + n * size` modulo 2^w |
| Addresses.AddNative | src/UnsafeUnmanaged.Wrapper.cs:127-130 | the `IntPtr` overload moves by `n * size` modulo 2^w |
| Addresses.AddByteOffset | src/UnsafeUnmanaged.Wrapper.cs:132-136 | the result address is `source + byteOffset` modulo 2^w |
| Addresses.Subtract | src/UnsafeUnmanaged.Wrapper.cs:138-141 | the result address is `source - n * size` modulo 2^w |
| Addresses.SubtractNative | src/UnsafeUnmanaged.Wrapper.cs:143-146 | the `IntPtr` overload moves by `-n * size` modulo 2^w |
| Addresses.SubtractByteOffset | src/UnsafeUnmanaged.Wrapper.cs:148-152 | the result address is `source - byteOffset` modulo 2^w |
| Addresses.ByteOffsetExact | src/UnsafeUnmanaged.Extra.cs:51-52 | when the difference fits an `IntPtr`, the offset is exactly `target - origin` |
| Addresses.ByteOffsetAntisymmetric | src/UnsafeUnmanaged.Wrapper.cs:154-157 | swapping the arguments negates the offset modulo 2^w, and exactly unless it is the least `IntPtr`, which maps to itself |
| Addresses.ByteOffsetOfAddByteOffset | src/UnsafeUnmanaged.Wrapper.cs:132-136 | measuring a byte shift gives the shift back |
| Addresses.AddByteOffsetOfByteOffset | src/UnsafeUnmanaged.Wrapper.cs:132-136 | shifting by the measured offset reaches the target |
| Addresses.SubtractUndoesAdd | src/UnsafeUnmanaged.Wrapper.cs:117-141 | `Subtract(Add(r, n), n) == r` for every reference and count |
| Addresses.AddUndoesSubtract | src/UnsafeUnmanaged.Wrapper.cs:117-141 | `Add(Subtract(r, n), n) == r` for every reference and count |
| Addresses.ByteOffsetOfAdd | src/UnsafeUnmanaged.Wrapper.cs:117-120 | `ByteOffset(r, Add(r, n)) == n * size` when that distance fits an `IntPtr` |
| Addresses.ElementOffsetOfAdd | src/UnsafeUnmanaged.Wrapper.cs:34-37 | `ElementOffset(r, Add(r, n)) == n` under the same condition |
| Addresses.AddOverloadsAgree | src/UnsafeUnmanaged.Wrapper.cs:117-130 | the `int`, `IntPtr` and `void*` overloads of `Add` reach the same address |
| Addresses.AddressOrderReflexive | src/UnsafeUnmanaged.Wrapper.cs:39-47 | `AreSame`, `Geq` and `Leq` are reflexive |
| Addresses.GeqIsConverseOfLeq | src/UnsafeUnmanaged.Wrapper.cs:39-47 | `Geq(a, b) == Leq(b, a)` |
| Addresses.GeqAndLeqIffSame | src/UnsafeUnmanaged.Wrapper.cs:159-172 | `Geq(a, b) && Leq(a, b)` holds exactly when `AreSame(a, b)` |
| Addresses.AddressTrichotomy | src/UnsafeUnmanaged.Wrapper.cs:159-172 | exactly one of less, same and greater holds |
| Addresses.RawByteOffsetVectors | test/UnsafeUnmanaged.ExtraTest.cs:21-33 | the `void*` offsets of the tests on both widths, and the full 64-bit difference |
| Addresses.PointerOffsetVectors | test/UnsafeUnmanaged.Wrappert.cs:16-28 | the `double*` byte and element offsets of the tests |
| Addresses.ElementOffsetVectors | test/UnsafeUnmanaged.Wrappert.cs:29-34 | elements 10 and 20 of an `int` array are 10 and -10 apart, at any base address |
| Addresses.AddressOrderVectors | test/UnsafeUnmanaged.Wrappert.cs:35-48 | the `Geq`/`Leq` verdicts of the tests on elements 0 and 1 |
| ReadOnlyAddresses.AsReadOnly | src/UnsafeUnmanaged.ReadOnly.cs:51-55 | the read-only reinterpretation keeps the address |
| ReadOnlyAddresses.AsByteRefReadOnly | src/UnsafeUnmanaged.ReadOnly.cs:8-11 | the read-only `byte` view keeps the address |
| ReadOnlyAddresses.NullRefReadOnly | src/UnsafeUnmanaged.Extra.cs:178-181 | the read-only sentinel references address zero |
| ReadOnlyAddresses.IsNullRefReadOnly | src/UnsafeUnmanaged.Extra.cs:183-186 | holds exactly for the read-only sentinel |
| ReadOnlyAddresses.NullRefReadOnlyIsNull | src/UnsafeUnmanaged.Extra.cs:178-186 | the read-only sentinel is null and every non-zero address is not |
| ReadOnlyAddresses.ByteOffsetReadOnly | src/UnsafeUnmanaged.ReadOnly.cs:89-92 | a signed `w`-bit value with the representation of `target - origin` |
| ReadOnlyAddresses.ElementOffsetReadOnly | src/UnsafeUnmanaged.ReadOnly.cs:13-16 | the same truncating quotient as the mutable `ElementOffset` on the same addresses |
| ReadOnlyAddresses.AreSameReadOnly | src/UnsafeUnmanaged.ReadOnly.cs:94-97 | holds exactly for equal references |
| ReadOnlyAddresses.IsAddressGreaterThanReadOnly | src/UnsafeUnmanaged.ReadOnly.cs:99-102 | unsigned `>` on the addresses |
| ReadOnlyAddresses.IsAddressLessThanReadOnly | src/UnsafeUnmanaged.ReadOnly.cs:104-107 | the converse of greater-than |
| ReadOnlyAddresses.IsAddressGeqReadOnly | src/UnsafeUnmanaged.ReadOnly.cs:18-21 | same-or-greater is `>=` on addresses |
| ReadOnlyAddresses.IsAddressLeqReadOnly | src/UnsafeUnmanaged.ReadOnly.cs:23-26 | same-or-less is `<=` on addresses |
| ReadOnlyAddresses.AddReadOnly | src/UnsafeUnmanaged.ReadOnly.cs:57-60 | moves by `n * size` modulo 2^w |
| ReadOnlyAddresses.AddReadOnlyNative | src/UnsafeUnmanaged.ReadOnly.cs:62-65 | the `IntPtr` overload moves by `n * size` modulo 2^w |
| ReadOnlyAddresses.AddByteOffsetReadOnly | src/UnsafeUnmanaged.ReadOnly.cs:67-71 | moves by the byte offset modulo 2^w |
| ReadOnlyAddresses.SubtractReadOnly | src/UnsafeUnmanaged.ReadOnly.cs:73-76 | moves by `-n * size` modulo 2^w |
| ReadOnlyAddresses.SubtractReadOnlyReadOnly | src/UnsafeUnmanaged.ReadOnly.cs:78-81 | the `IntPtr` overload moves by `-n * size` modulo 2^w |
| ReadOnlyAddresses.SubtractByteOffsetReadOnly | src/UnsafeUnmanaged.ReadOnly.cs:83-87 | moves by minus the byte offset modulo 2^w |
| ReadOnlyAddresses.ReadOnlyQueriesAgree | src/UnsafeUnmanaged.ReadOnly.cs:89-107 | the read-only offset and order queries equal the mutable ones on the same addresses |
| ReadOnlyAddresses.SubtractReadOnlyUndoesAddReadOnly | src/UnsafeUnmanaged.ReadOnly.cs:57-81 | subtracting after adding the same count restores the reference, for both overloads |
| ReadOnlyAddresses.AsReadOnlyKeepsOffset | src/UnsafeUnmanaged.Extra.cs:59-61 | measuring a member viewed as the outer type gives the offset of the member's own address |
| ReadOnlyAddresses.ReadOnlyVectors | test/UnsafeUnmanaged.ReadOnlyt.cs:16-35 | the element offsets and `Geq`/`Leq` verdicts of the read-only tests |
| Overlap.Overlaps | src/UnsafeUnmanaged.Extra.cs:74-92 | an empty region never overlaps |
| Overlap.ElementByteCount | src/UnsafeUnmanaged.Extra.cs:102-103 | the `uint` byte count is exact while the count is non-negative and the product is below 2^32 |
| Overlap.OverlapsElements | src/UnsafeUnmanaged.Extra.cs:97-104 | a zero element count never overlaps |
| Overlap.OverlapsWithOffset | src/UnsafeUnmanaged.Extra.cs:109-149 | zero counts give `(false, 0)`; no overlap gives offset 0; an overlap gives the element offset |
| Overlap.Contains | src/UnsafeUnmanaged.Extra.cs:151-154 | an empty region contains nothing |
| Overlap.OverlapsCircular | src/UnsafeUnmanaged.Extra.cs:80-91 | the two unsigned comparisons say that the target starts inside the origin region, or the origin inside the target region |
| Overlap.OverlapsSymmetric | src/UnsafeUnmanaged.Extra.cs:74-92 | swapping the two regions keeps the verdict |
| Overlap.OverlapsIffSharedAddress | src/UnsafeUnmanaged.Extra.cs:74-92 | overlap holds exactly when some address lies in both regions, wrapping ones included |
| Overlap.OverlapsIffIntersect | src/UnsafeUnmanaged.Extra.cs:74-92 | for regions that do not wrap, overlap is the half-open interval intersection, i.e. the negation of "after or before" |
| Overlap.OverlapsElementsIsByteOverlap | src/UnsafeUnmanaged.Extra.cs:97-104 | the `uint` overload tests regions of `count * size` bytes while those fit 32 bits |
| Overlap.OverlapsWithOffsetIsByteOverlap | src/UnsafeUnmanaged.Extra.cs:119-148 | the `out` overload's verdict is the byte-level test of regions of `count * size` bytes |
| Overlap.OverlapsOverloadsAgree | src/UnsafeUnmanaged.Extra.cs:97-149 | the two element-count overloads give the same verdict while byte counts fit 32 bits |
| Overlap.OverlapsOverloadsDiverge | src/UnsafeUnmanaged.Extra.cs:101-138 | on 64-bit, 2^30 `int`s overlap per the `out` overload but not per the `uint` overload |
| Overlap.OverlapsWithOffsetIffIntersect | src/UnsafeUnmanaged.Extra.cs:110-149 | for non-wrapping element regions, `(true, element offset)` exactly when the intervals intersect, else `(false, 0)` |
| Overlap.ContainsIsOverlapsOfOne | src/UnsafeUnmanaged.Extra.cs:151-154 | `Contains(s, n, o) == Overlaps(s, n, o, 1)` |
| Overlap.ContainsElement | src/UnsafeUnmanaged.Extra.cs:151-154 | the element k places from the start is contained exactly when `0 <= k < n` |
| Overlap.OverlapsArrayVectors | test/UnsafeUnmanaged.ExtraTest.cs:55-86 | the six verdicts and offsets of the tests, for second regions of 2 and 8 elements, at any base address |
| FieldOffset.OffsetOf | src/UnsafeUnmanaged.Extra.cs:54-71 | succeeds exactly when the signed offset is in `[0, sizeof(TOuter))` and returns it; on 32-bit every failure is out-of-range |
| FieldOffset.OffsetOfChecked | src/UnsafeUnmanaged.Extra.cs:63-69 | the same success condition and value, and every failure is out-of-range |
| FieldOffset.OffsetOfFindsMembers | src/UnsafeUnmanaged.Extra.cs:55-71 | for a non-wrapping outer value, succeeds exactly for addresses inside it, with their distance from its start |
| FieldOffset.OffsetOfRejectsForeignMembers | src/UnsafeUnmanaged.Extra.cs:63-66 | a reference outside the outer value fails |
| FieldOffset.OffsetOfCheckedAgrees | src/UnsafeUnmanaged.Extra.cs:63-70 | the corrected check equals the code except where the code overflows, where it reports out-of-range |
| FieldOffset.OffsetOfFarMemberOverflows | src/UnsafeUnmanaged.Extra.cs:63-70 | on 64-bit, a reference 2^32 bytes past an 8-byte value overflows instead of reporting out-of-range |
| FieldOffset.OffsetOfVectors | test/UnsafeUnmanaged.ExtraTest.cs:35-52 | `bar` at 0, `baz` at 4, and all four cross-value calls fail |

## Left out

- `MoveBlock` and `MoveBlockUnaligned`: all four overloads only throw `NotImplementedException`; there is no copying logic to model.
- `Read`, `ReadUnaligned`, `Write`, `WriteUnaligned`, `Copy`, `CopyReadOnly`, `CopyBlockReadOnly`, `CopyBlockUnalignedReadOnly`, `ReadUnalignedReadOnly`: one-line forwards to the runtime's loads and stores, with no logic of their own. Memory contents are not modelled.
- `AsPointer`, `AsRef(T*)` and `Unsafe.SizeOf`: a reference is its address and `sizeof(T)` is a parameter. Layout, the garbage collector and pinning are not modelled.
- `CheckAligned` build switch: the `[Conditional("DEBUG")]` attribute removes the check from release builds. The model is the DEBUG build. In a release build `PointerByteOffset` and `PointerElementOffset` always succeed.
- The `SafelyUnsafe`/`EnsafedUnsafe` namespace split between the files: name resolution is not modelled. All three files form one set of modules.
- Concurrency: the library holds no state.
- Platform width: chosen by the `Width` parameter, not detected at run time.
- Alignment.IsMaybeAligned: the contract states only the accepting directions; the exact verdict is given by the body together with the two example lemmas.

## Findings

| source | as written | input that shows it | evidently intended | confidence | as-written member | corrected member |
|---|---|---|---|---|---|---|
| src/UnsafeUnmanaged.Extra.cs:63-69 | the range check compares only the low 32 bits of the offset (`(uint)diff`), then `diff.ToInt32()` narrows with a check on 64-bit | 64-bit process, an 8-byte outer value at address 0, a member reference at address 2^32: the low 32 bits are 0, which passes the check, and `ToInt32` throws `OverflowException` | a reference that is not a member is always reported with `ArgumentOutOfRangeException` | not executed | FieldOffset.OffsetOfFarMemberOverflows | FieldOffset.OffsetOfChecked |
