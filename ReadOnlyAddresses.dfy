/** The read-only (`in T` / `ref readonly T`) forms of the address operations.
    Each one converts its arguments with `AsRef`, applies the mutable operation,
    and hands the result back as a read-only reference.
 */
module ReadOnlyAddresses {
  import opened Platform
  import opened Addresses

  /** The implicit conversion of a `ref T` to a `ref readonly T`. */
  function ReadOnly<T>(r: Ref<T>): (i: InRef<T>)
    ensures i.addr == r.addr
  {
    InRef(r.addr)
  }

  // ---------------------------------------------------------------------
  // Reinterpretation

  /** `AsReadOnly<TFrom, TTo>(in TFrom)` */
  function AsReadOnly<TFrom, TTo>(source: InRef<TFrom>): (r: InRef<TTo>)
    ensures r.addr == source.addr
  {
    ReadOnly(As<TFrom, TTo>(AsRef(source)))
  }

  /** `AsByteRefReadOnly<T>(in T)` */
  function AsByteRefReadOnly<T>(source: InRef<T>): (r: InRef<Byte>)
    ensures r.addr == source.addr
  {
    AsReadOnly<T, Byte>(source)
  }

  // ---------------------------------------------------------------------
  // The null sentinel

  /** `NullRefReadOnly<T>()` */
  function NullRefReadOnly<T>(): (r: InRef<T>)
    ensures r.addr == 0
  {
    ReadOnly(NullRef<T>())
  }

  /** `IsNullRefReadOnly<T>(in T)` */
  predicate IsNullRefReadOnly<T>(source: InRef<T>)
    ensures IsNullRefReadOnly(source) <==> source == NullRefReadOnly<T>()
  {
    IsNullRef(AsRef(source))
  }

  // ---------------------------------------------------------------------
  // Offsets

  /** `ByteOffsetReadOnly<T>(in T origin, in T target)` */
  function ByteOffsetReadOnly<T>(w: Width, origin: InRef<T>, target: InRef<T>): (d: int)
    requires IsUnsigned(w, origin.addr) && IsUnsigned(w, target.addr)
    ensures IsByteOffset(w, origin.addr, target.addr, d)
  {
    ByteOffset(w, AsRef(origin), AsRef(target))
  }

  /** `ElementOffsetReadOnly<T>(in T origin, in T target)`: the same truncating
      quotient as the mutable `ElementOffset`. */
  function ElementOffsetReadOnly<T>(w: Width, size: Size, origin: InRef<T>, target: InRef<T>): (q: Int32)
    requires IsUnsigned(w, origin.addr) && IsUnsigned(w, target.addr)
    ensures q == ElementOffset(w, size, AsRef(origin), AsRef(target))
    ensures w == W32 || IsSigned(W32, TruncDiv(ByteOffsetReadOnly(w, origin, target), size)) ==>
            q == TruncDiv(ByteOffsetReadOnly(w, origin, target), size)
  {
    ElementsIn(w, size, ByteOffsetReadOnly(w, origin, target))
  }

  // ---------------------------------------------------------------------
  // Address order

  /** `AreSameReadOnly<T>(in T, in T)` */
  predicate AreSameReadOnly<T>(left: InRef<T>, right: InRef<T>)
    ensures AreSameReadOnly(left, right) <==> left == right
  {
    AreSame(AsRef(left), AsRef(right))
  }

  /** `IsAddressGreaterThanReadOnly<T>(in T, in T)` */
  predicate IsAddressGreaterThanReadOnly<T>(left: InRef<T>, right: InRef<T>)
    ensures IsAddressGreaterThanReadOnly(left, right) <==> left.addr > right.addr
  {
    IsAddressGreaterThan(AsRef(left), AsRef(right))
  }

  /** `IsAddressLessThanReadOnly<T>(in T, in T)` */
  predicate IsAddressLessThanReadOnly<T>(left: InRef<T>, right: InRef<T>)
    ensures IsAddressLessThanReadOnly(left, right) <==> IsAddressGreaterThanReadOnly(right, left)
  {
    IsAddressLessThan(AsRef(left), AsRef(right))
  }

  /** `IsAddressGeqReadOnly<T>(in T, in T)` */
  predicate IsAddressGeqReadOnly<T>(left: InRef<T>, right: InRef<T>)
    ensures IsAddressGeqReadOnly(left, right) <==> left.addr >= right.addr
  {
    AreSameReadOnly(left, right) || IsAddressGreaterThanReadOnly(left, right)
  }

  /** `IsAddressLeqReadOnly<T>(in T, in T)` */
  predicate IsAddressLeqReadOnly<T>(left: InRef<T>, right: InRef<T>)
    ensures IsAddressLeqReadOnly(left, right) <==> left.addr <= right.addr
  {
    AreSameReadOnly(left, right) || IsAddressLessThanReadOnly(left, right)
  }

  // ---------------------------------------------------------------------
  // Shifting

  /** `AddReadOnly<T>(in T, int elementOffset)` */
  function AddReadOnly<T>(w: Width, size: Size, source: InRef<T>, elementOffset: Int32): (r: InRef<T>)
    ensures IsUnsigned(w, r.addr) && Congruent(w, r.addr, source.addr + elementOffset * size)
  {
    ReadOnly(Add(w, size, AsRef(source), elementOffset))
  }

  /** `AddReadOnly<T>(in T, IntPtr elementOffset)` */
  function AddReadOnlyNative<T>(w: Width, size: Size, source: InRef<T>, elementOffset: int): (r: InRef<T>)
    requires IsSigned(w, elementOffset)
    ensures IsUnsigned(w, r.addr) && Congruent(w, r.addr, source.addr + elementOffset * size)
  {
    ReadOnly(AddNative(w, size, AsRef(source), elementOffset))
  }

  /** `AddByteOffsetReadOnly<T>(in T, IntPtr byteOffset)` (obsolete in the source) */
  function AddByteOffsetReadOnly<T>(w: Width, source: InRef<T>, byteOffset: int): (r: InRef<T>)
    requires IsSigned(w, byteOffset)
    ensures IsUnsigned(w, r.addr) && Congruent(w, r.addr, source.addr + byteOffset)
  {
    ReadOnly(AddByteOffset(w, AsRef(source), byteOffset))
  }

  /** `SubtractReadOnly<T>(in T, int elementOffset)` */
  function SubtractReadOnly<T>(w: Width, size: Size, source: InRef<T>, elementOffset: Int32): (r: InRef<T>)
    ensures IsUnsigned(w, r.addr) && Congruent(w, r.addr, source.addr - elementOffset * size)
  {
    ReadOnly(Subtract(w, size, AsRef(source), elementOffset))
  }

  /** `SubtractReadOnlyReadOnly<T>(in T, IntPtr elementOffset)`: the `IntPtr` overload,
      under the name the source gives it. */
  function SubtractReadOnlyReadOnly<T>(w: Width, size: Size, source: InRef<T>, elementOffset: int): (r: InRef<T>)
    requires IsSigned(w, elementOffset)
    ensures IsUnsigned(w, r.addr) && Congruent(w, r.addr, source.addr - elementOffset * size)
  {
    ReadOnly(SubtractNative(w, size, AsRef(source), elementOffset))
  }

  /** `SubtractByteOffsetReadOnly<T>(in T, IntPtr byteOffset)` (obsolete in the source) */
  function SubtractByteOffsetReadOnly<T>(w: Width, source: InRef<T>, byteOffset: int): (r: InRef<T>)
    requires IsSigned(w, byteOffset)
    ensures IsUnsigned(w, r.addr) && Congruent(w, r.addr, source.addr - byteOffset)
  {
    ReadOnly(SubtractByteOffset(w, AsRef(source), byteOffset))
  }

  // ---------------------------------------------------------------------
  // Properties

  /** The read-only queries agree with their mutable counterparts on the same addresses. */
  lemma ReadOnlyQueriesAgree<T>(w: Width, left: InRef<T>, right: InRef<T>)
    requires IsUnsigned(w, left.addr) && IsUnsigned(w, right.addr)
    ensures ByteOffsetReadOnly(w, left, right) == ByteOffset(w, Ref<T>.Ref(left.addr), Ref(right.addr))
    ensures AreSameReadOnly(left, right) == AreSame(Ref<T>.Ref(left.addr), Ref(right.addr))
    ensures IsAddressGreaterThanReadOnly(left, right) == IsAddressGreaterThan(Ref<T>.Ref(left.addr), Ref(right.addr))
    ensures IsAddressLessThanReadOnly(left, right) == IsAddressLessThan(Ref<T>.Ref(left.addr), Ref(right.addr))
  {
  }

  /** `SubtractReadOnly` undoes `AddReadOnly`, and the `IntPtr` overloads likewise. */
  lemma SubtractReadOnlyUndoesAddReadOnly<T>(w: Width, size: Size, source: InRef<T>, n: Int32)
    requires IsUnsigned(w, source.addr)
    ensures SubtractReadOnly(w, size, AddReadOnly(w, size, source, n), n) == source
    ensures IsSigned(w, n) &&
            SubtractReadOnlyReadOnly(w, size, AddReadOnlyNative(w, size, source, n), n) == source
  {
    SubtractUndoesAdd(w, size, AsRef(source), n);
  }

  /** `AsReadOnly` keeps the address, so a member reached through it can be measured
      from its enclosing value. */
  lemma AsReadOnlyKeepsOffset<TFrom, TTo>(w: Width, outer: InRef<TTo>, member: InRef<TFrom>)
    requires IsUnsigned(w, outer.addr) && IsUnsigned(w, member.addr)
    ensures ByteOffsetReadOnly(w, outer, AsReadOnly<TFrom, TTo>(member)) == RawByteOffset(w, outer.addr, member.addr)
  {
  }

  lemma NullRefReadOnlyIsNull<T>(r: InRef<T>)
    ensures IsNullRefReadOnly(NullRefReadOnly<T>())
    ensures r.addr != 0 ==> !IsNullRefReadOnly(r)
  {
  }

  // ---------------------------------------------------------------------
  // The repository's own vectors

  /** Elements 0, 1, 10 and 20 of an `int` array at any base address. */
  lemma ReadOnlyVectors(w: Width, base: int)
    requires 0 <= base && base + 400 <= Modulus(w)
    ensures ElementOffsetReadOnly(w, 4, InRef<int>.InRef(base + 40), InRef(base + 80)) == 10
    ensures ElementOffsetReadOnly(w, 4, InRef<int>.InRef(base + 80), InRef(base + 40)) == -10
    ensures IsAddressGeqReadOnly(InRef<int>.InRef(base + 4), InRef(base))
    ensures IsAddressGeqReadOnly(InRef<int>.InRef(base), InRef(base))
    ensures !IsAddressGeqReadOnly(InRef<int>.InRef(base), InRef(base + 4))
    ensures !IsAddressLeqReadOnly(InRef<int>.InRef(base + 4), InRef(base))
    ensures IsAddressLeqReadOnly(InRef<int>.InRef(base), InRef(base))
    ensures IsAddressLeqReadOnly(InRef<int>.InRef(base), InRef(base + 4))
  {
    ElementOffsetVectors(w, base);
  }
}
