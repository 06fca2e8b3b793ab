/** The debug-time alignment heuristic (`IsMaybeAligned`, `CheckAligned`). */
module Alignment {
  import opened Platform
  import opened Failures

  /** `sizeof(double)`: the first candidate modulus of the heuristic */
  const DOUBLE_SIZE := 8

  /** `UnsignedSizeOf<T>()`: the size as a `uint`; the cast of a positive `int` loses nothing. */
  function UnsignedSizeOf(size: Size): (u: int)
    ensures IsUnsigned(W32, u) && u == size
  {
    ToUnsigned(W32, size)
  }

  /** `IsMaybeAligned<T>(p)`: the address, cast to `uint` (its low 32 bits), is a multiple
      of 8 or of `sizeof(T)`.  The `IntPtr` and `ref byte` overloads pass the same address. */
  function IsMaybeAligned(size: Size, address: int): (b: bool)
    ensures address % DOUBLE_SIZE == 0 ==> b
    ensures 0x1_0000_0000 % size == 0 && address % size == 0 ==> b
  {
    LowBitsKeepDivisor(address, DOUBLE_SIZE);
    LowBitsKeepDivisor(address, size);
    var low := ToUnsigned(W32, address);
    low % DOUBLE_SIZE == 0 || low % UnsignedSizeOf(size) == 0
  }

  /** `CheckAligned<T>(p)` as compiled in a DEBUG build: throws
      `DataMisalignedException` exactly when the heuristic rejects the address. */
  function CheckAligned(size: Size, address: int): (r: Outcome)
    ensures r == Pass <==> IsMaybeAligned(size, address)
    ensures r.Fail? ==> r.error == Misaligned(address)
  {
    if !IsMaybeAligned(size, address) then Fail(Misaligned(address)) else Pass
  }

  // ---------------------------------------------------------------------
  // Properties of the heuristic

  /** Only the low 32 bits of the address matter, also on 64-bit. */
  lemma MaybeAlignedIgnoresHighBits(size: Size, address: int, k: int)
    ensures IsMaybeAligned(size, address + k * 0x1_0000_0000) == IsMaybeAligned(size, address)
  {
    LowBitsShift(address, k);
  }

  /** The heuristic can reject a genuinely aligned address: a 12-byte struct of three
      `int`s is 4-aligned, yet address 4 is a multiple of neither 8 nor 12. */
  lemma MaybeAlignedMissesNonPowerOfTwoSize()
    ensures 4 % 4 == 0 && !IsMaybeAligned(12, 4)
  {
  }

  /** The heuristic can accept an address that is not aligned to the size: any
      multiple of 8 passes for a 16-byte type. */
  lemma MaybeAlignedAcceptsMultiplesOfEight()
    ensures 8 % 16 != 0 && IsMaybeAligned(16, 8)
  {
  }

  // ---------------------------------------------------------------------
  // Arithmetic helpers

  /** Reducing modulo 2^32 keeps the remainder by any divisor of 2^32. */
  lemma LowBitsKeepDivisor(address: int, s: int)
    requires s > 0
    ensures 0x1_0000_0000 % s == 0 ==> (address % 0x1_0000_0000) % s == address % s
  {
    if 0x1_0000_0000 % s != 0 { return; }
    var q, low := address / 0x1_0000_0000, address % 0x1_0000_0000;
    var k := 0x1_0000_0000 / s;
    assert 0x1_0000_0000 == k * s;
    var lq, lr := low / s, low % s;
    assert low == lq * s + lr;
    assert address == q * (k * s) + low;
    assert q * (k * s) == (q * k) * s;
    assert address == (q * k + lq) * s + lr;
    DivModUnique(address, q * k + lq, lr, s);
  }

  lemma LowBitsShift(address: int, k: int)
    ensures (address + k * 0x1_0000_0000) % 0x1_0000_0000 == address % 0x1_0000_0000
  {
    var q, r := address / 0x1_0000_0000, address % 0x1_0000_0000;
    assert address + k * 0x1_0000_0000 == (q + k) * 0x1_0000_0000 + r;
    DivModUnique(address + k * 0x1_0000_0000, q + k, r, 0x1_0000_0000);
  }
}
