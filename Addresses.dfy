/** Address arithmetic on references and pointers: byte and element offsets,
    address order, shifting by elements, reinterpretation and the null sentinel.

    A `ref T` is its address; the element type T is a phantom type parameter and
    `sizeof(T)` is passed explicitly as a `Size`.  Pointers (`void*`, `byte*`, `T*`)
    are plain addresses.  Every address lies in [0, 2^w).
 */
module Addresses {
  import opened Platform
  import opened Failures
  import opened Alignment

  /** A `ref T`. */
  datatype Ref<T> = Ref(addr: int)

  /** An `in T` / `ref readonly T`. */
  datatype InRef<T> = InRef(addr: int)

  /** d is the byte offset from origin to target as an `IntPtr`: the signed w-bit
      value whose representation is that of `target - origin`. */
  predicate IsByteOffset(w: Width, origin: int, target: int, d: int) {
    IsSigned(w, d) && Congruent(w, d, target - origin)
  }

  // ---------------------------------------------------------------------
  // Reinterpretation: the address never changes, only the element type

  /** `AsByteRef<T>(ref T)` */
  function AsByteRef<T>(source: Ref<T>): (r: Ref<Byte>)
    ensures r.addr == source.addr
  {
    Ref(source.addr)
  }

  /** `As<TFrom, TTo>(ref TFrom)` */
  function As<TFrom, TTo>(source: Ref<TFrom>): (r: Ref<TTo>)
    ensures r.addr == source.addr
  {
    Ref(source.addr)
  }

  /** `AsRef<T>(in T)`: drops the read-only restriction. */
  function AsRef<T>(source: InRef<T>): (r: Ref<T>)
    ensures r.addr == source.addr
  {
    Ref(source.addr)
  }

  // ---------------------------------------------------------------------
  // The null sentinel

  /** `NullRef<T>()`: a reference to address zero. */
  function NullRef<T>(): (r: Ref<T>)
    ensures r.addr == 0
  {
    Ref(0)
  }

  /** `IsNullRef<T>(ref T)`: the reference is the sentinel of its type. */
  predicate IsNullRef<T>(source: Ref<T>)
    ensures IsNullRef(source) <==> source == NullRef<T>()
  {
    source.addr == 0
  }

  // ---------------------------------------------------------------------
  // Offsets

  /** `ByteOffset(byte* origin, byte* target)` and its `void*` overload: on 32-bit
      the pointer difference truncated to `int`, on 64-bit the 64-bit difference. */
  function RawByteOffset(w: Width, origin: int, target: int): (d: int)
    requires IsUnsigned(w, origin) && IsUnsigned(w, target)
    ensures IsByteOffset(w, origin, target, d)
  {
    if w == W32 then ToSigned(W32, target - origin) else ToSigned(W64, target - origin)
  }

  /** `ByteOffset<T>(ref T origin, ref T target)`, i.e. `Unsafe.ByteOffset`. */
  function ByteOffset<T>(w: Width, origin: Ref<T>, target: Ref<T>): (d: int)
    requires IsUnsigned(w, origin.addr) && IsUnsigned(w, target.addr)
    ensures IsByteOffset(w, origin.addr, target.addr, d)
  {
    RawByteOffset(w, origin.addr, target.addr)
  }

  /** `ByteOffset<T>(T* origin, T* target)`: both pointers pass `CheckAligned<T>` first
      (a DEBUG build throws on the first one that does not), then the offset is taken. */
  function PointerByteOffset(w: Width, size: Size, origin: int, target: int): (r: Result<int>)
    requires IsUnsigned(w, origin) && IsUnsigned(w, target)
    ensures r.Success? <==> IsMaybeAligned(size, origin) && IsMaybeAligned(size, target)
    ensures r.Failure? ==> r.error == Misaligned(if IsMaybeAligned(size, origin) then target else origin)
    ensures r.Success? ==> IsByteOffset(w, origin, target, r.value)
  {
    match CheckAligned(size, origin)
    case Fail(e) => Failure(e)
    case Pass =>
      match CheckAligned(size, target)
      case Fail(e) => Failure(e)
      case Pass => Success(ByteOffset(w, Ref<Byte>.Ref(origin), Ref(target)))
  }

  /** A byte offset as a count of elements: the quotient by the element size, rounded
      toward zero, then narrowed without a check to a signed 32-bit value. */
  function ElementsIn(w: Width, size: Size, byteOffset: int): (q: Int32)
    requires IsSigned(w, byteOffset)
    ensures Congruent(W32, q, TruncDiv(byteOffset, size))
    ensures w == W32 || IsSigned(W32, TruncDiv(byteOffset, size)) ==> q == TruncDiv(byteOffset, size)
  {
    TruncDivStaysInt32(byteOffset, size);
    WrapInt32(TruncDiv(byteOffset, size))
  }

  /** `ElementOffset<T>(ref T origin, ref T target)` */
  function ElementOffset<T>(w: Width, size: Size, origin: Ref<T>, target: Ref<T>): (q: Int32)
    requires IsUnsigned(w, origin.addr) && IsUnsigned(w, target.addr)
    ensures Congruent(W32, q, TruncDiv(ByteOffset(w, origin, target), size))
    ensures w == W32 || IsSigned(W32, TruncDiv(ByteOffset(w, origin, target), size)) ==>
            q == TruncDiv(ByteOffset(w, origin, target), size)
  {
    ElementsIn(w, size, ByteOffset(w, origin, target))
  }

  /** `ElementOffset<T>(T* origin, T* target)`: the alignment checks, then the
      truncated quotient of the pointer byte offset. */
  function PointerElementOffset(w: Width, size: Size, origin: int, target: int): (r: Result<Int32>)
    requires IsUnsigned(w, origin) && IsUnsigned(w, target)
    ensures r.Success? <==> IsMaybeAligned(size, origin) && IsMaybeAligned(size, target)
    ensures r.Success? ==> r.value == ElementOffset(w, size, Ref<Byte>.Ref(origin), Ref(target))
  {
    match CheckAligned(size, origin)
    case Fail(e) => Failure(e)
    case Pass =>
      match CheckAligned(size, target)
      case Fail(e) => Failure(e)
      case Pass =>
        match PointerByteOffset(w, size, origin, target)
        case Failure(e) => Failure(e)
        case Success(d) => Success(ElementsIn(w, size, d))
  }

  // ---------------------------------------------------------------------
  // Address order (unsigned comparison of the addresses)

  /** `AreSame<T>(ref T, ref T)` */
  predicate AreSame<T>(left: Ref<T>, right: Ref<T>)
    ensures AreSame(left, right) <==> left == right
  {
    left.addr == right.addr
  }

  /** `IsAddressGreaterThan<T>(ref T, ref T)` */
  predicate IsAddressGreaterThan<T>(left: Ref<T>, right: Ref<T>)
    ensures IsAddressGreaterThan(left, right) <==> left.addr > right.addr
  {
    left.addr > right.addr
  }

  /** `IsAddressLessThan<T>(ref T, ref T)`: the converse of greater-than. */
  predicate IsAddressLessThan<T>(left: Ref<T>, right: Ref<T>)
    ensures IsAddressLessThan(left, right) <==> IsAddressGreaterThan(right, left)
  {
    left.addr < right.addr
  }

  /** `IsAddressGeq<T>(ref T, ref T)` */
  predicate IsAddressGeq<T>(left: Ref<T>, right: Ref<T>)
    ensures IsAddressGeq(left, right) <==> left.addr >= right.addr
  {
    AreSame(left, right) || IsAddressGreaterThan(left, right)
  }

  /** `IsAddressLeq<T>(ref T, ref T)` */
  predicate IsAddressLeq<T>(left: Ref<T>, right: Ref<T>)
    ensures IsAddressLeq(left, right) <==> left.addr <= right.addr
  {
    AreSame(left, right) || IsAddressLessThan(left, right)
  }

  // ---------------------------------------------------------------------
  // Shifting

  /** The address delta bytes away, wrapping around the address space. */
  function Shift(w: Width, address: int, delta: int): (a: int)
    ensures IsUnsigned(w, a) && Congruent(w, a, address + delta)
  {
    ToUnsigned(w, address + delta)
  }

  /** `Add<T>(ref T, int elementOffset)` */
  function Add<T>(w: Width, size: Size, source: Ref<T>, elementOffset: Int32): (r: Ref<T>)
    ensures IsUnsigned(w, r.addr) && Congruent(w, r.addr, source.addr + elementOffset * size)
  {
    Ref(Shift(w, source.addr, elementOffset * size))
  }

  /** `Add<T>(void*, int elementOffset)` */
  function AddPointer(w: Width, size: Size, source: int, elementOffset: Int32): (p: int)
    ensures IsUnsigned(w, p) && Congruent(w, p, source + elementOffset * size)
  {
    Shift(w, source, elementOffset * size)
  }

  /** `Add<T>(ref T, IntPtr elementOffset)` */
  function AddNative<T>(w: Width, size: Size, source: Ref<T>, elementOffset: int): (r: Ref<T>)
    requires IsSigned(w, elementOffset)
    ensures IsUnsigned(w, r.addr) && Congruent(w, r.addr, source.addr + elementOffset * size)
  {
    Ref(Shift(w, source.addr, elementOffset * size))
  }

  /** `AddByteOffset<T>(ref T, IntPtr byteOffset)` (obsolete in the source) */
  function AddByteOffset<T>(w: Width, source: Ref<T>, byteOffset: int): (r: Ref<T>)
    requires IsSigned(w, byteOffset)
    ensures IsUnsigned(w, r.addr) && Congruent(w, r.addr, source.addr + byteOffset)
  {
    Ref(Shift(w, source.addr, byteOffset))
  }

  /** `Subtract<T>(ref T, int elementOffset)` */
  function Subtract<T>(w: Width, size: Size, source: Ref<T>, elementOffset: Int32): (r: Ref<T>)
    ensures IsUnsigned(w, r.addr) && Congruent(w, r.addr, source.addr - elementOffset * size)
  {
    Ref(Shift(w, source.addr, -(elementOffset * size)))
  }

  /** `Subtract<T>(ref T, IntPtr elementOffset)` */
  function SubtractNative<T>(w: Width, size: Size, source: Ref<T>, elementOffset: int): (r: Ref<T>)
    requires IsSigned(w, elementOffset)
    ensures IsUnsigned(w, r.addr) && Congruent(w, r.addr, source.addr - elementOffset * size)
  {
    Ref(Shift(w, source.addr, -(elementOffset * size)))
  }

  /** `SubtractByteOffset<T>(ref T, IntPtr byteOffset)` (obsolete in the source) */
  function SubtractByteOffset<T>(w: Width, source: Ref<T>, byteOffset: int): (r: Ref<T>)
    requires IsSigned(w, byteOffset)
    ensures IsUnsigned(w, r.addr) && Congruent(w, r.addr, source.addr - byteOffset)
  {
    Ref(Shift(w, source.addr, -byteOffset))
  }

  // ---------------------------------------------------------------------
  // Properties of the offsets

  /** When the difference fits an `IntPtr`, the byte offset is exactly that difference. */
  lemma ByteOffsetExact(w: Width, origin: int, target: int)
    requires IsUnsigned(w, origin) && IsUnsigned(w, target) && IsSigned(w, target - origin)
    ensures RawByteOffset(w, origin, target) == target - origin
  {
    SignedUnique(w, RawByteOffset(w, origin, target), target - origin);
  }

  /** Swapping origin and target negates the offset modulo 2^w, and exactly unless the
      offset is the least `IntPtr`, whose negation wraps onto itself. */
  lemma ByteOffsetAntisymmetric(w: Width, a: int, b: int)
    requires IsUnsigned(w, a) && IsUnsigned(w, b)
    ensures Congruent(w, RawByteOffset(w, a, b) + RawByteOffset(w, b, a), 0)
    ensures RawByteOffset(w, a, b) != -Half(w) ==>
              RawByteOffset(w, b, a) == -RawByteOffset(w, a, b)
    ensures RawByteOffset(w, a, b) == -Half(w) ==> RawByteOffset(w, b, a) == -Half(w)
  {
    var d, e := RawByteOffset(w, a, b), RawByteOffset(w, b, a);
    CongruentNeg(w, d, b - a);
    assert -(b - a) == a - b;
    CongruentTrans(w, e, a - b, -d);
    CongruentAdd(w, e, -d, d);
    SignedNegation(w, d, e);
  }

  /** The signed value whose representation is that of -d: -d itself, except that the
      least signed value negates onto itself. */
  lemma SignedNegation(w: Width, d: int, e: int)
    requires IsSigned(w, d) && IsSigned(w, e) && Congruent(w, e, -d)
    ensures d != -Half(w) ==> e == -d
    ensures d == -Half(w) ==> e == d
  {
    if d != -Half(w) {
      SignedUnique(w, e, -d);
    } else {
      CongruentAdd(w, -d, -d, -Modulus(w));
      assert -d - Modulus(w) == d;
      CongruentTrans(w, e, -d, d);
      SignedUnique(w, e, d);
    }
  }

  /** Adding an offset to a reference and measuring it back gives the offset. */
  lemma ByteOffsetOfAddByteOffset<T>(w: Width, source: Ref<T>, byteOffset: int)
    requires IsUnsigned(w, source.addr) && IsSigned(w, byteOffset)
    ensures ByteOffset(w, source, AddByteOffset(w, source, byteOffset)) == byteOffset
  {
    var target := AddByteOffset(w, source, byteOffset);
    var d := ByteOffset(w, source, target);
    CongruentAdd(w, target.addr, source.addr + byteOffset, -source.addr);
    CongruentTrans(w, d, target.addr - source.addr, byteOffset);
    SignedUnique(w, d, byteOffset);
  }

  /** Moving a reference by its offset to a target reaches the target. */
  lemma AddByteOffsetOfByteOffset<T>(w: Width, source: Ref<T>, target: Ref<T>)
    requires IsUnsigned(w, source.addr) && IsUnsigned(w, target.addr)
    ensures AddByteOffset(w, source, ByteOffset(w, source, target)) == target
  {
    var d := ByteOffset(w, source, target);
    var r := AddByteOffset(w, source, d);
    CongruentAdd(w, d, target.addr - source.addr, source.addr);
    CongruentTrans(w, r.addr, source.addr + d, target.addr);
    UnsignedUnique(w, r.addr, target.addr);
  }

  /** `Subtract` undoes `Add`. */
  lemma SubtractUndoesAdd<T>(w: Width, size: Size, source: Ref<T>, n: Int32)
    requires IsUnsigned(w, source.addr)
    ensures Subtract(w, size, Add(w, size, source, n), n) == source
  {
    var y := n * size;
    var added := Add(w, size, source, n);
    var r := Subtract(w, size, added, n);
    CongruentAdd(w, added.addr, source.addr + y, -y);
    CongruentTrans(w, r.addr, added.addr - y, source.addr);
    UnsignedUnique(w, r.addr, source.addr);
  }

  /** `Add` undoes `Subtract`. */
  lemma AddUndoesSubtract<T>(w: Width, size: Size, source: Ref<T>, n: Int32)
    requires IsUnsigned(w, source.addr)
    ensures Add(w, size, Subtract(w, size, source, n), n) == source
  {
    var y := n * size;
    var subtracted := Subtract(w, size, source, n);
    var r := Add(w, size, subtracted, n);
    CongruentAdd(w, subtracted.addr, source.addr - y, y);
    CongruentTrans(w, r.addr, subtracted.addr + y, source.addr);
    UnsignedUnique(w, r.addr, source.addr);
  }

  /** `Add` moves a reference by `n * sizeof(T)` bytes: measured when the distance fits an `IntPtr`. */
  lemma ByteOffsetOfAdd<T>(w: Width, size: Size, source: Ref<T>, n: Int32)
    requires IsUnsigned(w, source.addr) && IsSigned(w, n * size)
    ensures ByteOffset(w, source, Add(w, size, source, n)) == n * size
  {
    ShiftThenMeasure(w, source.addr, n * size);
  }

  /** Measuring a shift by a signed distance gives the distance back. */
  lemma ShiftThenMeasure(w: Width, address: int, y: int)
    requires IsUnsigned(w, address) && IsSigned(w, y)
    ensures RawByteOffset(w, address, Shift(w, address, y)) == y
  {
    var target := Shift(w, address, y);
    var d := RawByteOffset(w, address, target);
    CongruentAdd(w, target, address + y, -address);
    CongruentTrans(w, d, target - address, y);
    SignedUnique(w, d, y);
  }

  /** ... and by n elements. */
  lemma ElementOffsetOfAdd<T>(w: Width, size: Size, source: Ref<T>, n: Int32)
    requires IsUnsigned(w, source.addr) && IsSigned(w, n * size)
    ensures ElementOffset(w, size, source, Add(w, size, source, n)) == n
  {
    ByteOffsetOfAdd(w, size, source, n);
    TruncDivMultiple(n, size);
  }

  /** The `int`, `IntPtr` and `void*` overloads of `Add` agree. */
  lemma AddOverloadsAgree<T>(w: Width, size: Size, source: Ref<T>, n: Int32)
    ensures IsSigned(w, n)
    ensures AddNative(w, size, source, n) == Add(w, size, source, n)
    ensures AddPointer(w, size, source.addr, n) == Add(w, size, source, n).addr
  {
  }

  // ---------------------------------------------------------------------
  // Properties of the order

  lemma AddressOrderReflexive<T>(x: Ref<T>)
    ensures AreSame(x, x) && IsAddressGeq(x, x) && IsAddressLeq(x, x)
  {
  }

  lemma GeqIsConverseOfLeq<T>(a: Ref<T>, b: Ref<T>)
    ensures IsAddressGeq(a, b) == IsAddressLeq(b, a)
  {
  }

  lemma GeqAndLeqIffSame<T>(a: Ref<T>, b: Ref<T>)
    ensures IsAddressGeq(a, b) && IsAddressLeq(a, b) <==> AreSame(a, b)
  {
  }

  /** Exactly one of less, same, greater holds. */
  lemma AddressTrichotomy<T>(a: Ref<T>, b: Ref<T>)
    ensures IsAddressLessThan(a, b) || AreSame(a, b) || IsAddressGreaterThan(a, b)
    ensures !(IsAddressLessThan(a, b) && AreSame(a, b))
    ensures !(IsAddressLessThan(a, b) && IsAddressGreaterThan(a, b))
    ensures !(AreSame(a, b) && IsAddressGreaterThan(a, b))
  {
  }

  lemma NullRefIsNull<T>(r: Ref<T>)
    ensures IsNullRef(NullRef<T>())
    ensures r.addr != 0 ==> !IsNullRef(r)
  {
  }

  // ---------------------------------------------------------------------
  // The repository's own vectors

  /** The `void*` byte offsets on both widths, and the full 64-bit difference. */
  lemma RawByteOffsetVectors(w: Width)
    ensures RawByteOffset(w, 0xFFFFFFF, 0xFFFFFFF) == 0
    ensures RawByteOffset(w, 0xFFFFFFF, 0x1FFFFFFF) == 0x10000000
    ensures RawByteOffset(W64, 0xFFFFFFFF, 0xFFFFFFFF) == 0
    ensures RawByteOffset(W64, 0xFFFFFFFF, 0x1FFFFFFFF) == 0x100000000
  {
  }

  /** `double*` offsets: bytes, then elements. */
  lemma PointerOffsetVectors(w: Width)
    ensures PointerByteOffset(w, 8, 0xFFE0, 0x1FFF0) == Success(0x10010)
    ensures PointerByteOffset(w, 8, 0x1FFE0, 0xFFF0) == Success(-0x10000 + 16)
    ensures PointerElementOffset(w, 8, 0xFFF0 * 8, 0x1FFF0 * 8) == Success(0x10000)
    ensures PointerElementOffset(w, 8, 0x1FFF0 * 8, 0xFFF0 * 8) == Success(-0x10000)
  {
  }

  /** Elements 10 and 20 of an `int` array at any base address. */
  lemma ElementOffsetVectors(w: Width, base: int)
    requires 0 <= base && base + 400 <= Modulus(w)
    ensures ElementOffset(w, 4, Ref<int>.Ref(base + 40), Ref(base + 80)) == 10
    ensures ElementOffset(w, 4, Ref<int>.Ref(base + 80), Ref(base + 40)) == -10
  {
    ByteOffsetExact(w, base + 40, base + 80);
    ByteOffsetExact(w, base + 80, base + 40);
  }

  /** `IsAddressGeq` and `IsAddressLeq` on elements 0 and 1 of an `int` array. */
  lemma AddressOrderVectors(base: int)
    ensures IsAddressGeq(Ref<int>.Ref(base + 4), Ref(base)) && IsAddressGeq(Ref<int>.Ref(base), Ref(base))
    ensures !IsAddressGeq(Ref<int>.Ref(base), Ref(base + 4))
    ensures !IsAddressLeq(Ref<int>.Ref(base + 4), Ref(base)) && IsAddressLeq(Ref<int>.Ref(base), Ref(base))
    ensures IsAddressLeq(Ref<int>.Ref(base), Ref(base + 4))
  {
  }
}
