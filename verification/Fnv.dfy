/** FNV-1a, 64-bit (section 2 of draft-eastlake-fnv): the index builder hashes a whole
    byte string, the C reader hashes a buffer up to its first NUL. */
module Fnv {
  import opened Words

  const OFFSET_BASIS: u64 := 0xcbf29ce484222325
  const PRIME: u64 := 0x100000001b3
  const PRIME_INVERSE: u64 := 0xce965057aff6957b  // PRIME * PRIME_INVERSE == 1 modulo 2^64

  function Step(h: u64, b: byte): u64 {
    Wrap64(XorWord(h, b) * PRIME)
  }

  function Hash(s: seq<byte>): u64 {
    if s == [] then OFFSET_BASIS else Step(Hash(s[..|s| - 1]), s[|s| - 1])
  }

  // ----- the C string convention -----

  /** The bytes before the first NUL. */
  function CString(s: seq<byte>): (t: seq<byte>)
    ensures 0 !in t && |t| <= |s| && t == s[..|t|]
    ensures |t| < |s| ==> s[|t|] == 0
    ensures 0 in s ==> |t| < |s|
  {
    if s == [] || s[0] == 0 then [] else [s[0]] + CString(s[1..])
  }

  lemma CStringUnique(s: seq<byte>, k: nat)
    requires k < |s| && s[k] == 0 && 0 !in s[..k]
    ensures CString(s) == s[..k]
  {
  }

  method HashCString(s: seq<byte>) returns (h: u64)
    requires 0 in s
    ensures h == Hash(CString(s))
  {
    h := OFFSET_BASIS;
    var i := 0;
    while s[i] != 0
      invariant 0 <= i < |s| && 0 !in s[..i] && 0 in s[i..]
      invariant h == Hash(s[..i])
      decreases |s| - i
    {
      assert s[..i + 1][..i] == s[..i];
      h := XorWord(h, s[i]);
      h := Wrap64(h * PRIME);
      i := i + 1;
    }
    CStringUnique(s, i);
  }

  method HashBytes(s: seq<byte>) returns (h: u64)
    ensures h == Hash(s)
  {
    h := OFFSET_BASIS;
    for i := 0 to |s|
      invariant h == Hash(s[..i])
    {
      assert s[..i + 1][..i] == s[..i];
      h := XorWord(h, s[i]);
      h := (h * PRIME) % TWO_64;
    }
    assert s[..|s|] == s;
  }

  /** Reader and builder agree on every NUL-free name, whatever follows its terminator. */
  lemma ReaderAgreesWithBuilder(name: seq<byte>, junk: seq<byte>)
    requires 0 !in name
    ensures Hash(CString(name + [0] + junk)) == Hash(name)
  {
    var s := name + [0] + junk;
    assert s[..|name|] == name;
    CStringUnique(s, |name|);
  }

  // ----- agreement with the published algorithm -----

  /** A byte is zero-extended: it reaches the low eight bits of the state alone. */
  lemma StepTouchesLowByte(h: u64, b: byte)
    ensures Step(h, b) == Wrap64((h - h % 256 + XorByte(h % 256, b)) * PRIME)
  {
    hide Xor;
    Pow2Widths();
    XorLow(h / 256, h % 256, b, 8);
  }

  /** The published test vector for the one-byte string "a". */
  lemma KnownVector()
    ensures Hash([0x61]) == 0xaf63dc4c8601ec8c
  {
    hide XorByte, XorWord, Step, Hash;
    HashOne(0x61);
    StepTouchesLowByte(OFFSET_BASIS, 0x61);
    XorOfVector();
  }

  lemma HashOne(b: byte)
    ensures Hash([b]) == Step(OFFSET_BASIS, b)
  {
    hide Step;
    assert [b][..0] == [];
  }

  lemma XorOfVector()
    ensures XorByte(0x25, 0x61) == 0x44
  {
    assert Xor(1, 3) == 2 * Xor(0, 1) == 2;
    assert Xor(4, 12) == 2 * Xor(2, 6) == 4 * Xor(1, 3);
    assert Xor(18, 48) == 2 * Xor(9, 24) == 4 * Xor(4, 12) + 2;
    assert Xor(37, 97) == 2 * Xor(18, 48);
  }

  // ----- one step loses nothing -----

  function Unstep(h: u64, b: byte): u64 {
    XorWord(Wrap64(h * PRIME_INVERSE), b)
  }

  lemma MultiplyThenInvert(x: u64)
    ensures Wrap64(Wrap64(x * PRIME) * PRIME_INVERSE) == x
    ensures Wrap64(Wrap64(x * PRIME_INVERSE) * PRIME) == x
  {
    InverseModulo(x, 0x100000001b3, 0xce965057aff6957b);
    InverseModulo(x, 0xce965057aff6957b, 0x100000001b3);
  }

  lemma InverseModulo(x: u64, p: int, q: int)
    requires p * q == 1 + 887285111055 * TWO_64
    ensures Wrap64(Wrap64(x * p) * q) == x
  {
    var t := x * p / TWO_64;
    assert Wrap64(x * p) == x * p - t * TWO_64;
    calc {
      Wrap64(x * p) * q;
      (x * p - t * TWO_64) * q;
      x * (p * q) - t * q * TWO_64;
      x + (x * 887285111055 - t * q) * TWO_64;
    }
    WrapMultiple(x, x * 887285111055 - t * q);
  }

  lemma WrapMultiple(x: u64, k: int)
    ensures Wrap64(x + k * TWO_64) == x
  {
  }

  /** For a fixed byte the step is a bijection of the 64-bit states. */
  lemma StepBijective(h: u64, b: byte)
    ensures Unstep(Step(h, b), b) == h
    ensures Step(Unstep(h, b), b) == h
  {
    MultiplyThenInvert(XorWord(h, b));
    MultiplyThenInvert(h);
    XorCancel(h, b);
    XorCancel(Wrap64(h * PRIME_INVERSE), b);
  }

  /** For a fixed state the step is injective in the byte. */
  lemma StepInjectiveInByte(h: u64, a: byte, b: byte)
    requires Step(h, a) == Step(h, b)
    ensures a == b
  {
    MultiplyThenInvert(XorWord(h, a));
    MultiplyThenInvert(XorWord(h, b));
    XorSymmetric(h, a);
    XorSymmetric(h, b);
    XorCancel(a, h);
    XorCancel(b, h);
  }

  lemma HashSnoc(s: seq<byte>, b: byte)
    ensures Hash(s + [b]) == Step(Hash(s), b)
  {
    assert (s + [b])[..|s|] == s;
  }

  lemma {:induction false} SuffixKeepsHashesApart(p: seq<byte>, q: seq<byte>, suffix: seq<byte>)
    ensures Hash(p) == Hash(q) <==> Hash(p + suffix) == Hash(q + suffix)
    decreases |suffix|
  {
    if suffix == [] {
      assert p + suffix == p && q + suffix == q;
    } else {
      var n := |suffix| - 1;
      var init, last := suffix[..n], suffix[n];
      SuffixKeepsHashesApart(p, q, init);
      assert suffix == init + [last];
      Assoc(p, init, [last]);
      Assoc(q, init, [last]);
      HashSnoc(p + init, last);
      HashSnoc(q + init, last);
      StepBijective(Hash(p + init), last);
      StepBijective(Hash(q + init), last);
    }
  }

  /** Names that differ in exactly one byte never collide. */
  lemma OneByteChangeNeverCollides(p: seq<byte>, a: byte, b: byte, suffix: seq<byte>)
    requires a != b
    ensures Hash(p + [a] + suffix) != Hash(p + [b] + suffix)
  {
    HashSnoc(p, a);
    HashSnoc(p, b);
    if Hash(p + [a]) == Hash(p + [b]) { StepInjectiveInByte(Hash(p), a, b); }
    SuffixKeepsHashesApart(p + [a], p + [b], suffix);
  }
}
