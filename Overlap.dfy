/** Region overlap and containment (`Overlaps`, `Contains`).

    The tests use the two's-complement trick: with d the signed byte offset from
    origin to target, the target starts inside the origin region when `unsigned(d)`
    is below the origin length, and the origin starts inside the target region when
    `unsigned(d)` is above `2^w - targetLength`.
 */
module Overlap {
  import opened Platform
  import opened Alignment
  import opened Addresses

  /** Byte address a is one of the len bytes from start, counting on past the top of
      the address space back to zero. */
  predicate InCircularRegion(w: Width, a: int, start: int, len: int) {
    ToUnsigned(w, a - start) < len
  }

  /** Byte address a lies in the half-open interval [start, start + len). */
  predicate InRegion(a: int, start: int, len: int) {
    start <= a < start + len
  }

  /** The two half-open intervals share a byte. */
  ghost predicate RegionsIntersect(origin: int, originLength: int, target: int, targetLength: int) {
    exists a :: InRegion(a, origin, originLength) && InRegion(a, target, targetLength)
  }

  /** The two regions, taken around the address space, share a byte address. */
  ghost predicate CircularRegionsIntersect(w: Width, origin: int, originLength: int, target: int, targetLength: int) {
    exists a :: IsUnsigned(w, a) && InCircularRegion(w, a, origin, originLength) &&
                InCircularRegion(w, a, target, targetLength)
  }

  // ---------------------------------------------------------------------
  // The operations

  /** `Overlaps(void* origin, UIntPtr originByteCount, void* target, UIntPtr targetByteCount)` */
  function Overlaps(w: Width, origin: int, originByteCount: int, target: int, targetByteCount: int): (b: bool)
    requires IsUnsigned(w, origin) && IsUnsigned(w, target)
    requires IsUnsigned(w, originByteCount) && IsUnsigned(w, targetByteCount)
    ensures originByteCount == 0 || targetByteCount == 0 ==> !b
  {
    if originByteCount == 0 || targetByteCount == 0 then false
    else
      var byteOffset := RawByteOffset(w, origin, target);
      if w == W32 then
        // the unsigned offset is below the origin length, or above 2^32 minus the target length
        ToUnsigned(W32, byteOffset) < originByteCount ||
        ToUnsigned(W32, byteOffset) > ToUnsigned(W32, -targetByteCount)
      else
        // the same test at 64 bits, the target length negated as a signed value
        ToUnsigned(W64, byteOffset) < originByteCount ||
        ToUnsigned(W64, byteOffset) > ToUnsigned(W64, -ToSigned(W64, targetByteCount))
  }

  /** The element count times the element size as an unsigned 32-bit product, exact only
      while the count is non-negative and the byte size is below 2^32. */
  function ElementByteCount(size: Size, elementCount: Int32): (n: int)
    ensures IsUnsigned(W32, n)
    ensures 0 <= elementCount && elementCount * size < 0x1_0000_0000 ==> n == elementCount * size
    ensures elementCount == 0 ==> n == 0
  {
    ToUnsigned(W32, ToUnsigned(W32, elementCount) * UnsignedSizeOf(size))
  }

  /** `Overlaps<T>(ref T source, int elementCount, ref T other, int otherElementCount)` */
  function OverlapsElements<T>(w: Width, size: Size, source: Ref<T>, elementCount: Int32,
                               other: Ref<T>, otherElementCount: Int32): (b: bool)
    requires IsUnsigned(w, source.addr) && IsUnsigned(w, other.addr)
    ensures elementCount == 0 || otherElementCount == 0 ==> !b
  {
    Overlaps(w, source.addr, ElementByteCount(size, elementCount),
             other.addr, ElementByteCount(size, otherElementCount))
  }

  /** `Overlaps<T>(ref T source, int elementCount, ref T other, int otherElementCount,
      out int elementOffset)`: the `out` parameter is the second component. */
  function OverlapsWithOffset<T>(w: Width, size: Size, source: Ref<T>, elementCount: Int32,
                                 other: Ref<T>, otherElementCount: Int32): (r: (bool, Int32))
    requires IsUnsigned(w, source.addr) && IsUnsigned(w, other.addr)
    ensures elementCount == 0 || otherElementCount == 0 ==> r == (false, 0)
    ensures !r.0 ==> r.1 == 0
    ensures r.0 ==> r.1 == ElementOffset(w, size, source, other)
  {
    if elementCount == 0 || otherElementCount == 0 then (false, 0)
    else
      var byteOffset := ByteOffset(w, source, other);
      if w == W32 then
        // 32-bit: signed 32-bit byte counts read as unsigned; truncating quotient
        if ToUnsigned(W32, byteOffset) < ToUnsigned(W32, ToSigned(W32, elementCount * size)) ||
           ToUnsigned(W32, byteOffset) > ToUnsigned(W32, -ToSigned(W32, otherElementCount * size))
        then
          TruncDivStaysInt32(byteOffset, size);
          (true, TruncDiv(byteOffset, size))
        else (false, 0)
      else
        // 64-bit: signed 64-bit byte counts read as unsigned; quotient narrowed to 32 bits
        if ToUnsigned(W64, byteOffset) < ToUnsigned(W64, elementCount * size) ||
           ToUnsigned(W64, byteOffset) > ToUnsigned(W64, -(otherElementCount * size))
        then (true, WrapInt32(TruncDiv(byteOffset, size)))
        else (false, 0)
  }

  /** `Contains<T>(ref T source, int elementCount, ref T other)`: the one element at
      `other` shares a byte with the region. */
  function Contains<T>(w: Width, size: Size, source: Ref<T>, elementCount: Int32, other: Ref<T>): (b: bool)
    requires IsUnsigned(w, source.addr) && IsUnsigned(w, other.addr)
    ensures elementCount == 0 ==> !b
  {
    OverlapsElements(w, size, source, elementCount, other, 1)
  }

  // ---------------------------------------------------------------------
  // What the byte-level test decides

  /** The two's-complement comparisons are circular membership tests: the target
      starts inside the origin region, or the origin starts inside the target region. */
  lemma OverlapsCircular(w: Width, origin: int, originByteCount: int, target: int, targetByteCount: int)
    requires IsUnsigned(w, origin) && IsUnsigned(w, target)
    requires IsUnsigned(w, originByteCount) && IsUnsigned(w, targetByteCount)
    ensures Overlaps(w, origin, originByteCount, target, targetByteCount) <==>
              originByteCount != 0 && targetByteCount != 0 &&
              (InCircularRegion(w, target, origin, originByteCount) ||
               InCircularRegion(w, origin, target, targetByteCount))
  {
    if originByteCount != 0 && targetByteCount != 0 {
      ByteVerdict(w, origin, originByteCount, target, targetByteCount);
      var u := ToUnsigned(w, RawByteOffset(w, origin, target));
      UnsignedUnique(w, u, ToUnsigned(w, target - origin));
      // the threshold 2^w - targetByteCount, and the distance back from target to origin
      ToUnsignedExact(w, targetByteCount);
      UnsignedNeg(w, targetByteCount);
      UnsignedNeg(w, target - origin);
      assert -(target - origin) == origin - target;
      CircularVerdict(Modulus(w), u, ToUnsigned(w, origin - target), ToUnsigned(w, -targetByteCount),
                      originByteCount, targetByteCount);
    }
  }

  /** The arithmetic behind the test: with v the distance back, `u > 2^w - tl` says `v < tl`. */
  lemma CircularVerdict(m: int, u: int, v: int, threshold: int, ol: int, tl: int)
    requires 0 <= u < m && 0 < ol && 0 < tl < m && threshold == m - tl
    requires v == if u == 0 then 0 else m - u
    ensures (u < ol || u > threshold) <==> (u < ol || v < tl)
  {
  }

  /** Overlap is symmetric in the two regions. */
  lemma OverlapsSymmetric(w: Width, origin: int, originByteCount: int, target: int, targetByteCount: int)
    requires IsUnsigned(w, origin) && IsUnsigned(w, target)
    requires IsUnsigned(w, originByteCount) && IsUnsigned(w, targetByteCount)
    ensures Overlaps(w, origin, originByteCount, target, targetByteCount) ==
            Overlaps(w, target, targetByteCount, origin, originByteCount)
  {
    OverlapsCircular(w, origin, originByteCount, target, targetByteCount);
    OverlapsCircular(w, target, targetByteCount, origin, originByteCount);
  }

  /** In general, also for regions that run past the top of the address space:
      the regions overlap exactly when they share a byte address. */
  lemma OverlapsIffSharedAddress(w: Width, origin: int, originByteCount: int, target: int, targetByteCount: int)
    requires IsUnsigned(w, origin) && IsUnsigned(w, target)
    requires IsUnsigned(w, originByteCount) && IsUnsigned(w, targetByteCount)
    ensures Overlaps(w, origin, originByteCount, target, targetByteCount) <==>
            CircularRegionsIntersect(w, origin, originByteCount, target, targetByteCount)
  {
    OverlapsCircular(w, origin, originByteCount, target, targetByteCount);
    if Overlaps(w, origin, originByteCount, target, targetByteCount) {
      assert ToUnsigned(w, 0) == 0;
      if InCircularRegion(w, target, origin, originByteCount) {
        assert InCircularRegion(w, target, target, targetByteCount);
      } else {
        assert InCircularRegion(w, origin, origin, originByteCount);
      }
    }
    if CircularRegionsIntersect(w, origin, originByteCount, target, targetByteCount) {
      var a :| IsUnsigned(w, a) && InCircularRegion(w, a, origin, originByteCount) &&
               InCircularRegion(w, a, target, targetByteCount);
      SharedAddressStartsInside(w, a, origin, originByteCount, target, targetByteCount);
    }
  }

  /** If both regions hold byte a, then one of them starts inside the other: measured
      from a, the one that begins further back contains the start of the other. */
  lemma SharedAddressStartsInside(w: Width, a: int, origin: int, originByteCount: int,
                                  target: int, targetByteCount: int)
    requires InCircularRegion(w, a, origin, originByteCount) && InCircularRegion(w, a, target, targetByteCount)
    ensures InCircularRegion(w, target, origin, originByteCount) || InCircularRegion(w, origin, target, targetByteCount)
  {
    var x, y := a - origin, a - target;
    assert x - y == target - origin && y - x == origin - target;
    UnsignedDiff(w, x, y);
    UnsignedDiff(w, y, x);
  }

  /** For regions that do not run past the top of the address space, the test is the
      intersection of the half-open intervals: they are disjoint exactly when the target
      lies entirely after or entirely before the origin. */
  lemma OverlapsIffIntersect(w: Width, origin: int, originByteCount: int, target: int, targetByteCount: int)
    requires IsUnsigned(w, origin) && IsUnsigned(w, target)
    requires IsUnsigned(w, originByteCount) && IsUnsigned(w, targetByteCount)
    requires origin + originByteCount <= Modulus(w) && target + targetByteCount <= Modulus(w)
    ensures Overlaps(w, origin, originByteCount, target, targetByteCount) <==>
            RegionsIntersect(origin, originByteCount, target, targetByteCount)
    ensures Overlaps(w, origin, originByteCount, target, targetByteCount) <==>
            originByteCount != 0 && targetByteCount != 0 &&
            !(target >= origin + originByteCount || target + targetByteCount <= origin)
  {
    OverlapsCircular(w, origin, originByteCount, target, targetByteCount);
    CircularIsLinear(w, target, origin, originByteCount);
    CircularIsLinear(w, origin, target, targetByteCount);
    if originByteCount != 0 && targetByteCount != 0 {
      // a shared byte is where the later of the two regions starts
      if target >= origin && target < origin + originByteCount {
        assert InRegion(target, origin, originByteCount) && InRegion(target, target, targetByteCount);
      } else if origin >= target && origin < target + targetByteCount {
        assert InRegion(origin, origin, originByteCount) && InRegion(origin, target, targetByteCount);
      }
    }
  }

  /** Inside one non-wrapping region, circular membership is interval membership. */
  lemma CircularIsLinear(w: Width, a: int, start: int, len: int)
    requires IsUnsigned(w, a) && IsUnsigned(w, start) && 0 <= len && start + len <= Modulus(w)
    ensures InCircularRegion(w, a, start, len) <==> InRegion(a, start, len)
  {
    UnsignedOfSmall(w, a - start, ToUnsigned(w, a - start));
  }

  // ---------------------------------------------------------------------
  // The element-count overloads

  /** While counts are non-negative and byte sizes stay below 2^32, the `uint`-product
      overload tests the regions of `count * sizeof(T)` bytes. */
  lemma OverlapsElementsIsByteOverlap<T>(w: Width, size: Size, source: Ref<T>, elementCount: Int32,
                                         other: Ref<T>, otherElementCount: Int32)
    requires IsUnsigned(w, source.addr) && IsUnsigned(w, other.addr)
    requires 0 <= elementCount && elementCount * size < 0x1_0000_0000
    requires 0 <= otherElementCount && otherElementCount * size < 0x1_0000_0000
    ensures OverlapsElements(w, size, source, elementCount, other, otherElementCount) ==
            Overlaps(w, source.addr, elementCount * size, other.addr, otherElementCount * size)
  {
  }

  /** For positive counts whose byte sizes fit the address width, the `out` overload's
      verdict is the byte-level test of the regions of `count * sizeof(T)` bytes. */
  lemma OverlapsWithOffsetIsByteOverlap<T>(w: Width, size: Size, source: Ref<T>, elementCount: Int32,
                                           other: Ref<T>, otherElementCount: Int32)
    requires IsUnsigned(w, source.addr) && IsUnsigned(w, other.addr)
    requires 0 < elementCount && elementCount * size < Modulus(w)
    requires 0 < otherElementCount && otherElementCount * size < Modulus(w)
    ensures OverlapsWithOffset(w, size, source, elementCount, other, otherElementCount).0 ==
            Overlaps(w, source.addr, elementCount * size, other.addr, otherElementCount * size)
  {
    var n, m := elementCount * size, otherElementCount * size;
    MulMonotone(1, elementCount, size);
    MulMonotone(1, otherElementCount, size);
    OffsetVerdict(w, size, source, elementCount, other, otherElementCount);
    ByteVerdict(w, source.addr, n, other.addr, m);
  }

  /** The `out` overload's verdict, written with the unsigned offset and threshold. */
  lemma OffsetVerdict<T>(w: Width, size: Size, source: Ref<T>, elementCount: Int32,
                         other: Ref<T>, otherElementCount: Int32)
    requires IsUnsigned(w, source.addr) && IsUnsigned(w, other.addr)
    requires 0 < elementCount * size < Modulus(w) && 0 < otherElementCount * size < Modulus(w)
    ensures OverlapsWithOffset(w, size, source, elementCount, other, otherElementCount).0 ==
            var u := ToUnsigned(w, RawByteOffset(w, source.addr, other.addr));
            u < elementCount * size || u > ToUnsigned(w, -(otherElementCount * size))
  {
    var n, m := elementCount * size, otherElementCount * size;
    var u := ToUnsigned(w, RawByteOffset(w, source.addr, other.addr));
    assert u == ToUnsigned(w, ByteOffset(w, source, other));
    NegatedSignedCount(w, m);
    if w == W32 {
      // the 32-bit `int` product, read back as `uint`
      ToUnsignedOfCongruent(W32, ToSigned(W32, n), n);
    } else {
      ToUnsignedExact(W64, n);
    }
  }

  /** The byte-level verdict, written with the unsigned offset and threshold. */
  lemma ByteVerdict(w: Width, origin: int, originByteCount: int, target: int, targetByteCount: int)
    requires IsUnsigned(w, origin) && IsUnsigned(w, target)
    requires 0 < originByteCount < Modulus(w) && 0 < targetByteCount < Modulus(w)
    ensures Overlaps(w, origin, originByteCount, target, targetByteCount) ==
            var u := ToUnsigned(w, RawByteOffset(w, origin, target));
            u < originByteCount || u > ToUnsigned(w, -targetByteCount)
  {
    NegatedSignedCount(w, targetByteCount);
  }

  /** Negating a count taken as signed gives the same unsigned value as negating it. */
  lemma NegatedSignedCount(w: Width, m: int)
    ensures ToUnsigned(w, -ToSigned(w, m)) == ToUnsigned(w, -m)
  {
    CongruentNeg(w, ToSigned(w, m), m);
    UnsignedUnique(w, ToUnsigned(w, -ToSigned(w, m)), ToUnsigned(w, -m));
  }

  /** The two element-count overloads agree for non-negative counts whose byte sizes
      fit in 32 bits. */
  lemma OverlapsOverloadsAgree<T>(w: Width, size: Size, source: Ref<T>, elementCount: Int32,
                                  other: Ref<T>, otherElementCount: Int32)
    requires IsUnsigned(w, source.addr) && IsUnsigned(w, other.addr)
    requires 0 <= elementCount && elementCount * size < 0x1_0000_0000
    requires 0 <= otherElementCount && otherElementCount * size < 0x1_0000_0000
    ensures OverlapsElements(w, size, source, elementCount, other, otherElementCount) ==
            OverlapsWithOffset(w, size, source, elementCount, other, otherElementCount).0
  {
    OverlapsElementsIsByteOverlap(w, size, source, elementCount, other, otherElementCount);
    if elementCount != 0 && otherElementCount != 0 {
      OverlapsWithOffsetIsByteOverlap(w, size, source, elementCount, other, otherElementCount);
    }
  }

  /** Outside that range they differ: on 64-bit, 2^30 `int`s make 2^32 bytes, which the
      `uint` product turns into an empty region. */
  lemma OverlapsOverloadsDiverge()
    ensures !OverlapsElements(W64, 4, Ref<int>.Ref(0), 0x4000_0000, Ref(0), 1)
    ensures OverlapsWithOffset(W64, 4, Ref<int>.Ref(0), 0x4000_0000, Ref(0), 1) == (true, 0)
  {
  }

  /** The `out` overload on element regions that do not run past the top of the
      address space: the verdict is the interval intersection, and the offset is the
      element offset from source to other. */
  lemma OverlapsWithOffsetIffIntersect<T>(w: Width, size: Size, source: Ref<T>, elementCount: Int32,
                                          other: Ref<T>, otherElementCount: Int32)
    requires IsUnsigned(w, source.addr) && IsUnsigned(w, other.addr)
    requires 0 < elementCount && elementCount * size < Modulus(w)
    requires 0 < otherElementCount && otherElementCount * size < Modulus(w)
    requires source.addr + elementCount * size <= Modulus(w)
    requires other.addr + otherElementCount * size <= Modulus(w)
    ensures OverlapsWithOffset(w, size, source, elementCount, other, otherElementCount) ==
            if RegionsIntersect(source.addr, elementCount * size, other.addr, otherElementCount * size)
            then (true, ElementOffset(w, size, source, other)) else (false, 0)
    ensures OverlapsWithOffset(w, size, source, elementCount, other, otherElementCount).0 <==>
            source.addr < other.addr + otherElementCount * size && other.addr < source.addr + elementCount * size
  {
    OverlapsWithOffsetIsByteOverlap(w, size, source, elementCount, other, otherElementCount);
    MulMonotone(1, elementCount, size);
    MulMonotone(1, otherElementCount, size);
    OverlapsIffIntersect(w, source.addr, elementCount * size, other.addr, otherElementCount * size);
  }

  // ---------------------------------------------------------------------
  // Containment

  /** `Contains` is `Overlaps` with a one-element second region. */
  lemma ContainsIsOverlapsOfOne<T>(w: Width, size: Size, source: Ref<T>, elementCount: Int32, other: Ref<T>)
    requires IsUnsigned(w, source.addr) && IsUnsigned(w, other.addr)
    ensures Contains(w, size, source, elementCount, other) == OverlapsElements(w, size, source, elementCount, other, 1)
  {
  }

  /** For a within-bounds element k places from the start of a region of n elements,
      `Contains` holds exactly when 0 <= k < n. */
  lemma ContainsElement<T>(w: Width, size: Size, source: Ref<T>, elementCount: Int32, k: Int32)
    requires IsUnsigned(w, source.addr)
    requires 0 <= elementCount && elementCount * size < 0x1_0000_0000
    requires source.addr + elementCount * size <= Modulus(w)
    requires 0 <= source.addr + k * size && source.addr + k * size + size <= Modulus(w)
    ensures Contains(w, size, source, elementCount, Add(w, size, source, k)) <==> 0 <= k < elementCount
  {
    var a := source.addr + k * size;
    var other := Add(w, size, source, k);
    UnsignedUnique(w, other.addr, a);
    OverlapsElementsIsByteOverlap(w, size, source, elementCount, other, 1);
    OverlapsIffIntersect(w, source.addr, elementCount * size, a, size);
    ScaledRange(k, elementCount, size);
  }

  /** Element k of n starts within the n * size bytes, or ends after byte 0, exactly when 0 <= k < n. */
  lemma ScaledRange(k: int, n: int, size: int)
    requires 0 <= n && 0 < size
    ensures (n != 0 && -size < k * size < n * size) <==> 0 <= k < n
  {
    if 0 <= k < n {
      MulMonotone(0, k, size);
      MulMonotone(k + 1, n, size);
      assert (k + 1) * size == k * size + size;
    } else if k < 0 {
      MulMonotone(k + 1, 0, size);
      assert (k + 1) * size == k * size + size;
    } else {
      MulMonotone(n, k, size);
    }
  }

  // ---------------------------------------------------------------------
  // The repository's own vectors

  /** A 10-element `int` array at any base address: elements [0,2) vs [2,..), [1,2) vs
      [2,..) and [2,2) vs [1,..), with a second region of 2 or of 8 elements. */
  lemma OverlapsArrayVectors(w: Width, base: int, otherCount: Int32)
    requires 0 <= base && base + 40 <= Modulus(w)
    requires otherCount == 2 || otherCount == 8
    ensures !OverlapsElements(w, 4, Ref<int>.Ref(base), 2, Ref(base + 8), otherCount)
    ensures OverlapsWithOffset(w, 4, Ref<int>.Ref(base), 2, Ref(base + 8), otherCount) == (false, 0)
    ensures OverlapsElements(w, 4, Ref<int>.Ref(base + 4), 2, Ref(base + 8), otherCount)
    ensures OverlapsWithOffset(w, 4, Ref<int>.Ref(base + 4), 2, Ref(base + 8), otherCount) == (true, 1)
    ensures OverlapsElements(w, 4, Ref<int>.Ref(base + 8), 2, Ref(base + 4), otherCount)
    ensures OverlapsWithOffset(w, 4, Ref<int>.Ref(base + 8), 2, Ref(base + 4), otherCount) == (true, -1)
  {
    var a0, a1, a2 := Ref<int>.Ref(base), Ref<int>.Ref(base + 4), Ref<int>.Ref(base + 8);
    OverlapsOverloadsAgree(w, 4, a0, 2, a2, otherCount);
    OverlapsOverloadsAgree(w, 4, a1, 2, a2, otherCount);
    OverlapsOverloadsAgree(w, 4, a2, 2, a1, otherCount);
    OverlapsWithOffsetIffIntersect(w, 4, a0, 2, a2, otherCount);
    OverlapsWithOffsetIffIntersect(w, 4, a1, 2, a2, otherCount);
    OverlapsWithOffsetIffIntersect(w, 4, a2, 2, a1, otherCount);
    ByteOffsetExact(w, base + 4, base + 8);
    ByteOffsetExact(w, base + 8, base + 4);
  }
}
