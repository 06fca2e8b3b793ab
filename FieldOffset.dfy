/** `OffsetOf`: the byte offset of a member within its enclosing value, the one
    operation that validates its arguments and reports a catchable error. */
module FieldOffset {
  import opened Platform
  import opened Failures
  import opened Alignment
  import opened Addresses
  import opened ReadOnlyAddresses

  /** `OffsetOf<TOuter, TInner>(in TOuter outer, in TInner member)`, as written: the member
      reference is viewed as a `TOuter`, its byte offset from `outer` is taken, the low
      32 bits of it, read as unsigned, are compared with `sizeof(TOuter)`, and the offset
      is returned through `IntPtr.ToInt32`, which is a checked narrowing on 64-bit. */
  function OffsetOf<TOuter, TInner>(w: Width, outerSize: Size, outer: InRef<TOuter>, member: InRef<TInner>)
    : (r: Result<Int32>)
    requires IsUnsigned(w, outer.addr) && IsUnsigned(w, member.addr)
    ensures r.Success? <==> 0 <= RawByteOffset(w, outer.addr, member.addr) < outerSize
    ensures r.Success? ==> r.value == RawByteOffset(w, outer.addr, member.addr)
    ensures w == W32 && r.Failure? ==> r.error == OutOfRange
  {
    var mid := AsReadOnly<TInner, TOuter>(member);
    var diff := ByteOffsetReadOnly(w, outer, mid);
    if ToUnsigned(W32, diff) >= UnsignedSizeOf(outerSize) then Failure(OutOfRange)
    else if w == W64 && !IsSigned(W32, diff) then Failure(Overflow)
    else Success(diff)
  }

  /** The evidently intended check: the whole native-width offset, as an unsigned value,
      against the size, so that every foreign member is reported as out of range. */
  function OffsetOfChecked<TOuter, TInner>(w: Width, outerSize: Size, outer: InRef<TOuter>, member: InRef<TInner>)
    : (r: Result<Int32>)
    requires IsUnsigned(w, outer.addr) && IsUnsigned(w, member.addr)
    ensures r.Success? <==> 0 <= RawByteOffset(w, outer.addr, member.addr) < outerSize
    ensures r.Success? ==> r.value == RawByteOffset(w, outer.addr, member.addr)
    ensures r.Failure? ==> r.error == OutOfRange
  {
    var mid := AsReadOnly<TInner, TOuter>(member);
    var diff := ByteOffsetReadOnly(w, outer, mid);
    if ToUnsigned(w, diff) >= UnsignedSizeOf(outerSize) then Failure(OutOfRange)
    else Success(diff)
  }

  // ---------------------------------------------------------------------
  // Properties

  /** For an enclosing value that does not run past the top of the address space, the
      offset is found exactly for addresses inside it, and is the distance from its start. */
  lemma OffsetOfFindsMembers<TOuter, TInner>(w: Width, outerSize: Size, outer: InRef<TOuter>, member: InRef<TInner>)
    requires IsUnsigned(w, outer.addr) && IsUnsigned(w, member.addr)
    requires outer.addr + outerSize <= Modulus(w)
    ensures OffsetOf(w, outerSize, outer, member).Success? <==>
            outer.addr <= member.addr < outer.addr + outerSize
    ensures OffsetOf(w, outerSize, outer, member).Success? ==>
            OffsetOf(w, outerSize, outer, member).value == member.addr - outer.addr
  {
    ByteOffsetWithin(w, outerSize, outer.addr, member.addr);
  }

  /** The signed offset from o to t lies in [0, size) exactly when t lies in the
      non-wrapping region of size bytes at o, and is then their distance. */
  lemma ByteOffsetWithin(w: Width, size: Size, o: int, t: int)
    requires IsUnsigned(w, o) && IsUnsigned(w, t) && o + size <= Modulus(w)
    ensures 0 <= RawByteOffset(w, o, t) < size <==> o <= t < o + size
    ensures o <= t < o + size ==> RawByteOffset(w, o, t) == t - o
  {
    SignedOfSmall(w, t - o, RawByteOffset(w, o, t));
  }

  /** A member reference from another value is rejected. */
  lemma OffsetOfRejectsForeignMembers<TOuter, TInner>(w: Width, outerSize: Size, outer: InRef<TOuter>,
                                                      member: InRef<TInner>)
    requires IsUnsigned(w, outer.addr) && IsUnsigned(w, member.addr)
    requires outer.addr + outerSize <= Modulus(w)
    requires member.addr < outer.addr || outer.addr + outerSize <= member.addr
    ensures OffsetOf(w, outerSize, outer, member).Failure?
  {
    OffsetOfFindsMembers(w, outerSize, outer, member);
  }

  /** The intended check and the code agree everywhere except where the code throws
      `OverflowException`. */
  lemma OffsetOfCheckedAgrees<TOuter, TInner>(w: Width, outerSize: Size, outer: InRef<TOuter>, member: InRef<TInner>)
    requires IsUnsigned(w, outer.addr) && IsUnsigned(w, member.addr)
    ensures OffsetOf(w, outerSize, outer, member) != Failure(Overflow) ==>
            OffsetOfChecked(w, outerSize, outer, member) == OffsetOf(w, outerSize, outer, member)
    ensures OffsetOf(w, outerSize, outer, member) == Failure(Overflow) ==>
            OffsetOfChecked(w, outerSize, outer, member) == Failure(OutOfRange)
  {
  }

  /** On 64-bit, a reference 2^32 bytes past the start of an 8-byte value passes the
      32-bit range check and then makes `ToInt32` throw `OverflowException`, not
      `ArgumentOutOfRangeException`; the intended check reports it as out of range. */
  lemma OffsetOfFarMemberOverflows()
    ensures OffsetOf(W64, 8, InRef<int>.InRef(0), InRef<int>.InRef(0x1_0000_0000)) == Failure(Overflow)
    ensures OffsetOfChecked(W64, 8, InRef<int>.InRef(0), InRef<int>.InRef(0x1_0000_0000)) == Failure(OutOfRange)
  {
  }

  // ---------------------------------------------------------------------
  // The repository's own vectors

  /** The 8-byte test struct `Foo`, two `int` fields `bar` and `baz`. */
  datatype Foo = Foo(bar: int, baz: int)

  /** Two `Foo` values at distinct places f and f2: `bar` is at offset 0 and `baz` at
      offset 4 of its own value, and neither belongs to the other value. */
  lemma OffsetOfVectors(w: Width, f: int, f2: int)
    requires 0 <= f && f + 8 <= Modulus(w) && 0 <= f2 && f2 + 8 <= Modulus(w)
    requires f + 8 <= f2 || f2 + 8 <= f
    ensures OffsetOf(w, 8, InRef<Foo>.InRef(f), InRef<int>.InRef(f)) == Success(0)
    ensures OffsetOf(w, 8, InRef<Foo>.InRef(f), InRef<int>.InRef(f + 4)) == Success(4)
    ensures OffsetOf(w, 8, InRef<Foo>.InRef(f2), InRef<int>.InRef(f)).Failure?
    ensures OffsetOf(w, 8, InRef<Foo>.InRef(f2), InRef<int>.InRef(f + 4)).Failure?
    ensures OffsetOf(w, 8, InRef<Foo>.InRef(f), InRef<int>.InRef(f2)).Failure?
    ensures OffsetOf(w, 8, InRef<Foo>.InRef(f), InRef<int>.InRef(f2 + 4)).Failure?
  {
    OffsetOfFindsMembers(w, 8, InRef<Foo>.InRef(f), InRef<int>.InRef(f));
    OffsetOfFindsMembers(w, 8, InRef<Foo>.InRef(f), InRef<int>.InRef(f + 4));
    OffsetOfRejectsForeignMembers(w, 8, InRef<Foo>.InRef(f2), InRef<int>.InRef(f));
    OffsetOfRejectsForeignMembers(w, 8, InRef<Foo>.InRef(f2), InRef<int>.InRef(f + 4));
    OffsetOfRejectsForeignMembers(w, 8, InRef<Foo>.InRef(f), InRef<int>.InRef(f2));
    OffsetOfRejectsForeignMembers(w, 8, InRef<Foo>.InRef(f), InRef<int>.InRef(f2 + 4));
  }
}
