/** Machine words as mathematical integers: bytes, fixed-width bounds, the bitwise
    operators the sources use, and little-endian encoding. */
module Words {
  type byte = x: int | 0 <= x < 256
  type i32 = x: int | -0x8000_0000 <= x < 0x8000_0000
  type u32 = x: int | 0 <= x < 0x1_0000_0000
  type u64 = x: int | 0 <= x < 0x1_0000_0000_0000_0000

  const TWO_32: int := 0x1_0000_0000
  const TWO_63: int := 0x8000_0000_0000_0000
  const TWO_64: int := 0x1_0000_0000_0000_0000

  datatype Option<+T> = None | Some(value: T)

  function Min(a: int, b: int): int { if a <= b then a else b }

  function Wrap64(x: int): u64 { x % TWO_64 }

  function Pow2(k: nat): (p: nat)
    ensures p >= 1
  {
    if k == 0 then 1 else 2 * Pow2(k - 1)
  }

  lemma Pow2Byte(k: nat, p: nat)
    requires Pow2(k) == p
    ensures Pow2(k + 8) == 256 * p
  {
    assert Pow2(k + 2) == 2 * Pow2(k + 1) == 4 * Pow2(k);
    assert Pow2(k + 4) == 2 * Pow2(k + 3) == 4 * Pow2(k + 2);
    assert Pow2(k + 6) == 2 * Pow2(k + 5) == 4 * Pow2(k + 4);
    assert Pow2(k + 8) == 2 * Pow2(k + 7) == 4 * Pow2(k + 6);
  }

  lemma Pow2Widths()
    ensures Pow2(8) == 256 && Pow2(32) == TWO_32
  {
    Pow2Byte(0, 1);
    Pow2Byte(8, 256);
    Pow2Byte(16, 0x1_0000);
    Pow2Byte(24, 0x100_0000);
  }

  lemma Pow2Width64()
    ensures Pow2(64) == TWO_64
  {
    Pow2Widths();
    Pow2Byte(32, TWO_32);
    Pow2Byte(40, 0x100_0000_0000);
    Pow2Byte(48, 0x1_0000_0000_0000);
    Pow2Byte(56, 0x100_0000_0000_0000);
  }

  lemma MulMonotone(a: nat, b: nat, x: nat)
    requires a <= b
    ensures a * x <= b * x
  {
    assert b * x == a * x + (b - a) * x;
  }

  lemma Assoc<T>(a: seq<T>, b: seq<T>, c: seq<T>)
    ensures (a + b) + c == a + (b + c)
  {
  }

  lemma ConcatParts<T>(a: seq<T>, b: seq<T>)
    ensures (a + b)[..|a|] == a && (a + b)[|a|..] == b
  {
  }

  lemma SliceOfSlice<T>(s: seq<T>, a: nat, b: nat, c: nat, d: nat)
    requires c <= d && a + d <= b <= |s|
    ensures s[a..b][c..d] == s[a + c..a + d]
  {
    var l, r := s[a..b][c..d], s[a + c..a + d];
    assert |l| == |r|;
    assert forall i :: 0 <= i < |l| ==> l[i] == r[i];
  }

  // ----- exclusive or -----

  function Xor(a: nat, b: nat): nat
    decreases a + b
  {
    if a == 0 && b == 0 then 0
    else 2 * Xor(a / 2, b / 2) + (if a % 2 == b % 2 then 0 else 1)
  }

  /** One binary digit at a time. */
  lemma XorStep(a: nat, b: nat)
    ensures Xor(a, b) / 2 == Xor(a / 2, b / 2)
    ensures Xor(a, b) % 2 == if a % 2 == b % 2 then 0 else 1
  {
  }

  lemma {:induction false} XorBound(a: nat, b: nat, k: nat)
    requires a < Pow2(k) && b < Pow2(k)
    ensures Xor(a, b) < Pow2(k)
    decreases k
  {
    if k > 0 { XorBound(a / 2, b / 2, k - 1); }
  }

  lemma {:induction false} XorSymmetric(a: nat, b: nat)
    ensures Xor(a, b) == Xor(b, a)
    decreases a + b
  {
    if a + b > 0 {
      hide Xor;
      XorStep(a, b);
      XorStep(b, a);
      XorSymmetric(a / 2, b / 2);
    }
  }

  lemma {:induction false} XorCancel(a: nat, b: nat)
    ensures Xor(Xor(a, b), b) == a
    decreases a + b
  {
    hide Xor;
    if a + b > 0 {
      var x := Xor(a, b);
      XorStep(a, b);
      XorStep(x, b);
      XorCancel(a / 2, b / 2);
    } else {
      XorOfZeros();
    }
  }

  lemma XorOfZeros()
    ensures Xor(0, 0) == 0
  {
  }

  lemma {:induction false} XorZero(a: nat, b: nat)
    ensures Xor(a, b) == 0 <==> a == b
    decreases a + b
  {
    hide Xor;
    if a + b > 0 {
      XorStep(a, b);
      XorZero(a / 2, b / 2);
    } else {
      XorOfZeros();
    }
  }

  /** A narrow right operand changes only the low bits. */
  lemma {:induction false} XorLow(hi: nat, lo: nat, b: nat, k: nat)
    requires lo < Pow2(k) && b < Pow2(k)
    ensures Xor(hi * Pow2(k) + lo, b) == hi * Pow2(k) + Xor(lo, b)
    decreases k
  {
    if k == 0 {
      XorRightZero(hi);
    } else {
      hide Xor;
      var x := hi * Pow2(k) + lo;
      HalveShifted(hi, lo, k);
      XorStep(x, b);
      XorStep(lo, b);
      XorLow(hi, lo / 2, b / 2, k - 1);
      HalveShifted(hi, Xor(lo, b), k);
    }
  }

  lemma HalveShifted(hi: nat, lo: nat, k: nat)
    requires k > 0
    ensures (hi * Pow2(k) + lo) / 2 == hi * Pow2(k - 1) + lo / 2
    ensures (hi * Pow2(k) + lo) % 2 == lo % 2
  {
    var h := hi * Pow2(k - 1);
    assert hi * Pow2(k) == 2 * h;
  }

  lemma {:induction false} XorRightZero(a: nat)
    ensures Xor(a, 0) == a
  {
    if a > 0 { XorRightZero(a / 2); }
  }

  function XorByte(a: byte, b: byte): byte {
    XorBound8(a, b);
    Xor(a, b)
  }

  lemma XorBound8(a: byte, b: byte)
    ensures Xor(a, b) < 256
  {
    Pow2Widths();
    XorBound(a, b, 8);
  }

  lemma XorByteZero(a: byte, b: byte)
    ensures XorByte(a, b) == 0 <==> a == b
  {
    XorZero(a, b);
  }

  lemma XorByteSymmetric(a: byte, b: byte)
    ensures XorByte(a, b) == XorByte(b, a)
  {
    XorSymmetric(a, b);
  }

  /** `a ^ x == b` exactly when `x == b ^ a`. */
  lemma XorByteSolve(a: byte, x: byte, b: byte)
    ensures XorByte(a, x) == b <==> x == XorByte(b, a)
  {
    XorSymmetric(a, x);
    XorCancel(x, a);
    XorCancel(b, a);
  }

  function XorWord(a: u64, b: u64): u64 {
    XorBound64(a, b);
    Xor(a, b)
  }

  lemma XorBound64(a: u64, b: u64)
    ensures Xor(a, b) < TWO_64
  {
    Pow2Width64();
    XorBound(a, b, 64);
  }

  // ----- inclusive or -----

  function Or(a: nat, b: nat): nat
    decreases a + b
  {
    if a == 0 && b == 0 then 0
    else 2 * Or(a / 2, b / 2) + (if a % 2 == 0 && b % 2 == 0 then 0 else 1)
  }

  lemma {:induction false} OrBound(a: nat, b: nat, k: nat)
    requires a < Pow2(k) && b < Pow2(k)
    ensures Or(a, b) < Pow2(k)
    decreases k
  {
    if k > 0 { OrBound(a / 2, b / 2, k - 1); }
  }

  lemma OrBound64(a: u64, b: u64)
    ensures Or(a, b) < TWO_64
  {
    Pow2Width64();
    OrBound(a, b, 64);
  }

  /** When the left operand is shifted past the right one, `|` is a sum. */
  lemma {:induction false} OrDisjoint(hi: nat, lo: nat, k: nat)
    requires lo < Pow2(k)
    ensures Or(hi * Pow2(k), lo) == hi * Pow2(k) + lo
    decreases k
  {
    if k == 0 {
      OrRightZero(hi);
    } else {
      hide Or;
      HalveShifted(hi, 0, k);
      OrStep(hi * Pow2(k), lo);
      OrDisjoint(hi, lo / 2, k - 1);
      HalveShifted(hi, lo, k);
    }
  }

  lemma OrStep(a: nat, b: nat)
    ensures Or(a, b) / 2 == Or(a / 2, b / 2)
    ensures Or(a, b) % 2 == if a % 2 == 0 && b % 2 == 0 then 0 else 1
  {
  }

  lemma {:induction false} OrRightZero(a: nat)
    ensures Or(a, 0) == a
  {
    if a > 0 { OrRightZero(a / 2); }
  }

  // ----- little-endian bytes -----

  function LittleEndian(v: nat, n: nat): (s: seq<byte>)
    ensures |s| == n
  {
    if n == 0 then [] else [v % 256] + LittleEndian(v / 256, n - 1)
  }

  function FromLittleEndian(s: seq<byte>): nat {
    if s == [] then 0 else s[0] + 256 * FromLittleEndian(s[1..])
  }

  lemma {:induction false} LittleEndianRoundTrip(v: nat, n: nat)
    requires v < Pow2(8 * n)
    ensures FromLittleEndian(LittleEndian(v, n)) == v
    decreases n
  {
    if n > 0 {
      Pow2Byte(8 * (n - 1), Pow2(8 * (n - 1)));
      LittleEndianRoundTrip(v / 256, n - 1);
      assert LittleEndian(v, n)[1..] == LittleEndian(v / 256, n - 1);
    }
  }

  lemma {:induction false} DecodeBound(s: seq<byte>)
    ensures FromLittleEndian(s) < Pow2(8 * |s|)
  {
    if s != [] {
      DecodeBound(s[1..]);
      Pow2Byte(8 * |s| - 8, Pow2(8 * |s| - 8));
    }
  }

  lemma LittleEndianRoundTrip32(v: u32)
    ensures FromLittleEndian(LittleEndian(v, 4)) == v
  {
    Pow2Widths();
    LittleEndianRoundTrip(v, 4);
  }

  /** `i32::from_le_bytes` and C's unsigned-to-int conversion: two's complement. */
  function Signed32(u: u32): (s: i32)
    ensures (u - s) % TWO_32 == 0
  {
    if u < 0x8000_0000 then u else u - TWO_32
  }
}
