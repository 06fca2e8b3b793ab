/** Native integer widths and the C# integer conversions the library relies on.

    An address, a `UIntPtr` or a `ulong`/`uint` is an unsigned value of the
    platform width; an `IntPtr` is a signed one.  All conversions between them
    are unchecked two's-complement reinterpretations, written here as explicit
    reductions modulo 2^w.
 */
module Platform {

  /** The platform's native address width (`IntPtr.Size` is 4 or 8). */
  datatype Width = W32 | W64

  /** 2^w */
  function Modulus(w: Width): int {
    if w == W32 then 0x1_0000_0000 else 0x1_0000_0000_0000_0000
  }

  /** 2^(w-1): the least value a signed `IntPtr` cannot hold */
  function Half(w: Width): int {
    if w == W32 then 0x8000_0000 else 0x8000_0000_0000_0000
  }

  /** x fits a native unsigned integer (an address, a `UIntPtr`) */
  predicate IsUnsigned(w: Width, x: int) {
    0 <= x < Modulus(w)
  }

  /** x fits a native signed integer (an `IntPtr`) */
  predicate IsSigned(w: Width, x: int) {
    -Half(w) <= x < Half(w)
  }

  /** a and b have the same w-bit two's-complement representation */
  predicate Congruent(w: Width, a: int, b: int) {
    a % Modulus(w) == b % Modulus(w)
  }

  /** Unchecked cast to the unsigned type of width w: `(uint)x`, `(ulong)x`. */
  function ToUnsigned(w: Width, x: int): (u: int)
    ensures IsUnsigned(w, u) && Congruent(w, u, x)
  {
    x % Modulus(w)
  }

  /** Unchecked cast to the signed type of width w: `(int)x`, `(long)x`, `new IntPtr(x)`. */
  function ToSigned(w: Width, x: int): (s: int)
    ensures IsSigned(w, s) && Congruent(w, s, x)
  {
    var u := x % Modulus(w);
    if u < Half(w) then u else u - Modulus(w)
  }

  /** C# `int` */
  type Int32 = x: int | -0x8000_0000 <= x < 0x8000_0000

  /** `Unsafe.SizeOf<T>()` of an unmanaged type: a positive `int` */
  type Size = s: int | 1 <= s < 0x8000_0000 witness 1

  /** C# `byte`, used only as the element type of a `ref byte` */
  newtype Byte = b: int | 0 <= b < 0x100

  /** Unchecked `(int)x` of a wider integer: keeps the low 32 bits. */
  function WrapInt32(x: int): (r: Int32)
    ensures Congruent(W32, r, x)
    ensures -0x8000_0000 <= x < 0x8000_0000 ==> r == x
  {
    ToSignedExact(W32, x);
    ToSigned(W32, x)
  }

  /** C# integer division `a / b` for a positive divisor: truncates toward zero. */
  function TruncDiv(a: int, b: int): (q: int)
    requires b > 0
    ensures 0 <= a ==> 0 <= q * b <= a < q * b + b
    ensures a < 0 ==> q * b - b < a <= q * b <= 0
  {
    if a >= 0 then
      DivFacts(a, b);
      a / b
    else
      DivFacts(-a, b);
      -((-a) / b)
  }

  /** Euclidean division of a non-negative number, stated with the product on the right. */
  lemma DivFacts(a: int, b: int)
    requires a >= 0 && b > 0
    ensures 0 <= (a / b) * b <= a < (a / b) * b + b
  {
    assert a == b * (a / b) + a % b;
  }

  // ---------------------------------------------------------------------
  // Facts about the casts

  lemma ToUnsignedExact(w: Width, x: int)
    requires IsUnsigned(w, x)
    ensures ToUnsigned(w, x) == x
  {
  }

  lemma ToSignedExact(w: Width, x: int)
    ensures IsSigned(w, x) ==> ToSigned(w, x) == x
  {
  }

  /** A signed value is determined by its representation. */
  lemma SignedUnique(w: Width, a: int, b: int)
    requires IsSigned(w, a) && IsSigned(w, b) && Congruent(w, a, b)
    ensures a == b
  {
  }

  /** An unsigned value is determined by its representation. */
  lemma UnsignedUnique(w: Width, a: int, b: int)
    requires IsUnsigned(w, a) && IsUnsigned(w, b) && Congruent(w, a, b)
    ensures a == b
  {
  }

  /** Representations add: congruence is preserved by adding the same amount. */
  lemma CongruentAdd(w: Width, a: int, b: int, c: int)
    requires Congruent(w, a, b)
    ensures Congruent(w, a + c, b + c)
  {
  }

  lemma CongruentTrans(w: Width, a: int, b: int, c: int)
    requires Congruent(w, a, b) && Congruent(w, b, c)
    ensures Congruent(w, a, c)
  {
  }

  /** Representations negate. */
  lemma CongruentNeg(w: Width, a: int, b: int)
    requires Congruent(w, a, b)
    ensures Congruent(w, -a, -b)
  {
    NegMod(a, Modulus(w));
    NegMod(b, Modulus(w));
  }

  /** The Euclidean remainder of a negation. */
  lemma NegMod(a: int, m: int)
    requires m > 0
    ensures (-a) % m == if a % m == 0 then 0 else m - a % m
  {
    var q, r := a / m, a % m;
    assert a == q * m + r;
    if r == 0 {
      assert -a == (-q) * m + 0;
      DivModUnique(-a, -q, 0, m);
    } else {
      assert -a == (-q - 1) * m + (m - r);
      DivModUnique(-a, -q - 1, m - r, m);
    }
  }

  /** Euclidean division is unique. */
  lemma DivModUnique(a: int, q: int, r: int, s: int)
    requires s > 0 && a == q * s + r && 0 <= r < s
    ensures a % s == r && a / s == q
  {
    var q', r' := a / s, a % s;
    assert a == q' * s + r';
    if q' < q {
      MulMonotone(q' + 1, q, s);
    } else if q' > q {
      MulMonotone(q + 1, q', s);
    }
  }

  /** The signed representation of a value less than 2^w away from zero. */
  lemma SignedOfSmall(w: Width, x: int, d: int)
    requires IsSigned(w, d) && Congruent(w, d, x) && -Modulus(w) <= x < Modulus(w)
    ensures d == if x >= Half(w) then x - Modulus(w) else if x < -Half(w) then x + Modulus(w) else x
  {
    if x >= Half(w) {
      CongruentAdd(w, x, x, -Modulus(w));
      SignedUnique(w, d, x - Modulus(w));
    } else if x < -Half(w) {
      CongruentAdd(w, x, x, Modulus(w));
      SignedUnique(w, d, x + Modulus(w));
    } else {
      SignedUnique(w, d, x);
    }
  }

  /** The unsigned representation of a value less than 2^w away from zero. */
  lemma UnsignedOfSmall(w: Width, x: int, u: int)
    requires IsUnsigned(w, u) && Congruent(w, u, x) && -Modulus(w) <= x < Modulus(w)
    ensures u == if x < 0 then x + Modulus(w) else x
  {
    if x < 0 {
      CongruentAdd(w, x, x, Modulus(w));
      UnsignedUnique(w, u, x + Modulus(w));
    } else {
      UnsignedUnique(w, u, x);
    }
  }

  /** The unsigned representation of a difference, from the representations of its terms. */
  lemma UnsignedDiff(w: Width, x: int, y: int)
    ensures ToUnsigned(w, x - y) ==
              if ToUnsigned(w, x) >= ToUnsigned(w, y) then ToUnsigned(w, x) - ToUnsigned(w, y)
              else ToUnsigned(w, x) - ToUnsigned(w, y) + Modulus(w)
  {
    var u, v := ToUnsigned(w, x), ToUnsigned(w, y);
    CongruentNeg(w, y, v);
    CongruentAdd(w, x, u, -y);
    CongruentAdd(w, -y, -v, u);
    CongruentTrans(w, x - y, u - y, u - v);
    CongruentTrans(w, ToUnsigned(w, x - y), x - y, u - v);
    UnsignedOfSmall(w, u - v, ToUnsigned(w, x - y));
  }

  /** The unsigned representation of a negation (two's-complement negation). */
  lemma UnsignedNeg(w: Width, x: int)
    ensures ToUnsigned(w, -x) == if ToUnsigned(w, x) == 0 then 0 else Modulus(w) - ToUnsigned(w, x)
  {
    UnsignedDiff(w, 0, x);
  }

  /** The unsigned cast of anything with the representation of an unsigned value is that value. */
  lemma ToUnsignedOfCongruent(w: Width, x: int, y: int)
    requires Congruent(w, x, y) && IsUnsigned(w, y)
    ensures ToUnsigned(w, x) == y
  {
    UnsignedUnique(w, ToUnsigned(w, x), y);
  }

  /** Dividing a whole number of elements by the element size gives that number back. */
  lemma {:induction false} TruncDivMultiple(k: int, b: int)
    requires b > 0
    ensures TruncDiv(k * b, b) == k
  {
    var q := TruncDiv(k * b, b);
    if q < k {
      MulMonotone(q + 1, k, b);
    } else if q > k {
      MulMonotone(k + 1, q, b);
    }
  }

  lemma MulMonotone(x: int, y: int, b: int)
    requires x <= y && b > 0
    ensures x * b <= y * b
  {
  }

  /** `(int)byteOffset / size` on 32-bit: the quotient of an `int` is again an `int`. */
  lemma TruncDivStaysInt32(a: int, b: int)
    requires b > 0
    ensures -0x8000_0000 <= a < 0x8000_0000 ==> -0x8000_0000 <= TruncDiv(a, b) < 0x8000_0000
  {
    var q := TruncDiv(a, b);
    if q > 0 {
      MulMonotone(1, b, q);
    } else if q < 0 {
      MulMonotone(1, b, -q);
    }
  }
}
