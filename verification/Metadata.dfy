/** main.rs: recovering XOR-encrypted global-metadata.dat by known plaintext. */
module Metadata {
  import opened Words

  const MAGIC: seq<byte> := [0xAF, 0x1B, 0xB1, 0xFA]  // 0xFAB11BAF, little-endian
  const ZERO_KEY: seq<byte> := [0, 0, 0, 0]
  type KeyLength = n: nat | n >= 16 witness 16
  const ROLLING_LENGTHS: seq<KeyLength> := [16, 32, 64, 128, 256]

  datatype Scheme =
    | SingleByte(k: byte)
    | FourByte(key: seq<byte>)
    | EightByte(key: seq<byte>)
    | Rolling(length: nat)
    | PositionDependent(key: seq<byte>)
    | MaskedPosition(key: seq<byte>)
    | HeaderOnly(length: nat, key: seq<byte>)

  type Attempt = Option<(Scheme, seq<byte>)>

  predicate HasMagic(d: seq<byte>) { |d| >= 4 && d[..4] == MAGIC }

  predicate ValidVersion(d: seq<byte>) {
    |d| >= 8 && var v := Version(d[4..8]); 0 < v < 200
  }

  function Version(b: seq<byte>): i32
    requires |b| == 4
  {
    Signed32(Le32(b[0], b[1], b[2], b[3]))
  }

  function Le32(b0: int, b1: int, b2: int, b3: int): int {
    b0 + 0x100 * b1 + 0x1_0000 * b2 + 0x100_0000 * b3
  }

  /** The magic is the number 0xFAB11BAF, little-endian. */
  lemma HasMagicIff(d: seq<byte>)
    ensures HasMagic(d) <==> |d| >= 4 && Le32(d[0], d[1], d[2], d[3]) == 0xFAB11BAF
  {
    if |d| >= 4 { assert d[..4] == [d[0], d[1], d[2], d[3]]; }
  }

  /** A valid version is one of 1 to 199, little-endian, in bytes 4 to 7. */
  lemma ValidVersionIff(d: seq<byte>)
    ensures ValidVersion(d) <==> |d| >= 8 && 0 < d[4] < 200 && d[5] == d[6] == d[7] == 0
  {
    if |d| >= 8 { VersionBytes(d[4..8]); }
  }

  // ----- the three ways a buffer is rewritten -----

  function XorCycle(d: seq<byte>, key: seq<byte>): (out: seq<byte>)
    requires key != []
    ensures |out| == |d| && forall i {:trigger out[i]} :: 0 <= i < |d| ==> out[i] == XorByte(d[i], key[i % |key|])
  {
    seq(|d|, i requires 0 <= i < |d| => XorByte(d[i], key[i % |key|]))
  }

  function XorPosition(d: seq<byte>, key: seq<byte>): (out: seq<byte>)
    requires |key| == 4
    ensures |out| == |d|
    ensures forall i {:trigger out[i]} :: 0 <= i < |d| ==> out[i] == XorByte(d[i], XorByte(key[i % 4], i % 256))
  {
    seq(|d|, i requires 0 <= i < |d| => XorByte(d[i], XorByte(key[i % 4], i % 256)))
  }

  function XorHeader(d: seq<byte>, key: seq<byte>, n: nat): (out: seq<byte>)
    requires key != [] && n <= |d|
    ensures |out| == |d|
  {
    XorCycle(d[..n], key) + d[n..]
  }

  // ----- the seven stages -----

  function Key4(d: seq<byte>): (key: seq<byte>)
    requires |d| >= 16
    ensures |key| == 4 && forall i {:trigger key[i]} :: 0 <= i < 4 ==> key[i] == XorByte(MAGIC[i], d[i])
  {
    [XorByte(MAGIC[0], d[0]), XorByte(MAGIC[1], d[1]), XorByte(MAGIC[2], d[2]), XorByte(MAGIC[3], d[3])]
  }

  predicate AllEqual(key: seq<byte>)
    requires |key| == 4
  {
    key[0] == key[1] == key[2] == key[3]
  }

  /** The known plaintext reaches four bytes; beyond it the ciphertext itself is the key. */
  function LongKey(d: seq<byte>, n: nat): (key: seq<byte>)
    requires |d| >= 16 && 4 <= n <= |d|
    ensures |key| == n && key[..4] == Key4(d) && key[4..] == d[4..n]
  {
    Key4(d) + d[4..n]
  }

  function SingleByteStage(d: seq<byte>): Attempt
    requires |d| >= 16
  {
    var key := Key4(d);
    var test := XorCycle(d, key[..1]);
    if key[0] != 0 && AllEqual(key) && ValidVersion(test) then Some((SingleByte(key[0]), test)) else None
  }

  function FourByteStage(d: seq<byte>): Attempt
    requires |d| >= 16
  {
    var key := Key4(d);
    var test := XorCycle(d, key);
    if key != ZERO_KEY && !AllEqual(key) && ValidVersion(test) then Some((FourByte(key), test)) else None
  }

  function EightByteStage(d: seq<byte>): Attempt
    requires |d| >= 16
  {
    var key := LongKey(d, 8);
    var test := XorCycle(d, key);
    if key[..4] == ZERO_KEY then None
    else if !(0 < Version(test[4..8]) < 200) then None
    else if ValidVersion(test) then Some((EightByte(key), test))
    else None
  }

  function RollingStage(d: seq<byte>, lengths: seq<KeyLength>): Attempt
    requires |d| >= 16
  {
    if lengths == [] then None
    else
      var n := lengths[0];
      if |d| < 2 * n then RollingStage(d, lengths[1..])
      else
        var key := LongKey(d, n);
        var test := XorCycle(d[..8], key);
        if key[..4] != ZERO_KEY && HasMagic(test) && ValidVersion(test) then Some((Rolling(n), XorCycle(d, key)))
        else RollingStage(d, lengths[1..])
  }

  function PositionStage(d: seq<byte>): Attempt
    requires |d| >= 16
  {
    var test := XorPosition(d, Key4(d));
    if HasMagic(test) && ValidVersion(test) then Some((PositionDependent(Key4(d)), test)) else None
  }

  /** `(i & 0xFF) as u8` and `i as u8` are the same byte, so this repeats the stage before. */
  function MaskedStage(d: seq<byte>): Attempt
    requires |d| >= 16
  {
    var test := XorPosition(d, Key4(d));
    if HasMagic(test) && ValidVersion(test) then Some((MaskedPosition(Key4(d)), test)) else None
  }

  function HeaderStage(d: seq<byte>): Attempt
    requires |d| >= 16
  {
    var n := Min(256, |d|);
    var test := XorHeader(d, Key4(d), n);
    if HasMagic(test) && ValidVersion(test) then Some((HeaderOnly(n, Key4(d)), test)) else None
  }

  function OrElse(a: Attempt, b: Attempt): Attempt { if a.Some? then a else b }

  function Cascade(d: seq<byte>): Attempt {
    if |d| < 16 then None
    else
      OrElse(SingleByteStage(d),
      OrElse(FourByteStage(d),
      OrElse(EightByteStage(d),
      OrElse(RollingStage(d, ROLLING_LENGTHS),
      OrElse(PositionStage(d),
      OrElse(MaskedStage(d),
      HeaderStage(d)))))))
  }

  // ----- the cascade is one scheme -----

  lemma VersionBytes(b: seq<byte>)
    requires |b| == 4
    ensures 0 < Version(b) < 200 <==> 0 < b[0] < 200 && b[1] == b[2] == b[3] == 0
  {
  }

  /** A key that copies the ciphertext blanks the version field. */
  lemma LongKeyNeverValid(d: seq<byte>, n: nat, e: seq<byte>)
    requires |d| >= 16 && 8 <= n <= |d| && 8 <= |e| <= |d| && e == d[..|e|]
    ensures Version(XorCycle(e, LongKey(d, n))[4..8]) == 0
  {
    hide XorByte;
    hide XorCycle;
    var key := LongKey(d, n);
    var test := XorCycle(e, key);
    forall i | 4 <= i < 8 ensures test[i] == 0 {
      SmallMod(i, n);
      assert key[i] == key[4..][i - 4] == d[4..n][i - 4] == d[i];
      assert e[i] == d[i];
      XorByteZero(d[i], d[i]);
    }
    assert test[4] == test[5] == test[6] == test[7] == 0;
  }

  lemma SmallMod(i: nat, n: nat)
    requires i < n
    ensures i % n == i
  {
  }

  lemma {:induction false} RollingNeverFires(d: seq<byte>, lengths: seq<KeyLength>)
    requires |d| >= 16
    ensures RollingStage(d, lengths) == None
  {
    hide XorByte;
    if lengths != [] {
      var n := lengths[0];
      if |d| >= 2 * n { LongKeyNeverValid(d, n, d[..8]); }
      RollingNeverFires(d, lengths[1..]);
    }
  }

  /** Stages three to six are dead for every buffer. */
  lemma MiddleStagesNeverFire(d: seq<byte>)
    requires |d| >= 16
    ensures EightByteStage(d) == None && RollingStage(d, ROLLING_LENGTHS) == None
    ensures PositionStage(d) == None && MaskedStage(d) == None
  {
    hide XorByte;
    LongKeyNeverValid(d, 8, d);
    RollingNeverFires(d, ROLLING_LENGTHS);
    var test := XorPosition(d, Key4(d));
    assert test[1] == XorByte(d[1], XorByte(XorByte(0x1B, d[1]), 1));
    XorByteSolve(d[1], XorByte(XorByte(0x1B, d[1]), 1), 0x1B);
    XorOneDiffers(XorByte(0x1B, d[1]));
    assert test[..4][1] == test[1];
  }

  lemma XorOneDiffers(x: byte)
    ensures XorByte(x, 1) != x
  {
    XorByteSolve(x, 1, x);
    XorByteZero(x, x);
  }

  function Label(d: seq<byte>): Scheme
    requires |d| >= 16
  {
    var key := Key4(d);
    if key == ZERO_KEY then HeaderOnly(Min(256, |d|), key)
    else if AllEqual(key) then SingleByte(key[0])
    else FourByte(key)
  }

  lemma PrefixDecidesVersion(a: seq<byte>, b: seq<byte>)
    requires |a| >= 8 && |b| >= 8 && a[..8] == b[..8]
    ensures ValidVersion(a) == ValidVersion(b)
  {
    assert a[4..8] == a[..8][4..8] && b[4..8] == b[..8][4..8];
  }

  lemma SingleByteIsFourByte(d: seq<byte>)
    requires |d| >= 16 && AllEqual(Key4(d))
    ensures XorCycle(d, Key4(d)[..1]) == XorCycle(d, Key4(d))
  {
    hide XorByte;
    var key := Key4(d);
    forall i | 0 <= i < |d| ensures key[..1][i % 1] == key[i % 4] {
      assert i % 4 == 0 || i % 4 == 1 || i % 4 == 2 || i % 4 == 3;
    }
  }

  lemma HeaderPrefix(d: seq<byte>)
    requires |d| >= 16
    ensures var n := Min(256, |d|);
            XorHeader(d, Key4(d), n)[..8] == XorCycle(d, Key4(d))[..8]
  {
    hide XorByte;
  }

  lemma DecryptedHasMagic(d: seq<byte>)
    requires |d| >= 16
    ensures XorCycle(d, Key4(d))[..4] == MAGIC
  {
    hide XorByte, XorCycle, Key4;
    var key, out := Key4(d), XorCycle(d, Key4(d));
    forall i | 0 <= i < 4 ensures out[i] == MAGIC[i] {
      SmallMod(i, 4);
      XorByteSolve(d[i], key[i], MAGIC[i]);
    }
    assert out[..4] == [out[0], out[1], out[2], out[3]];
  }

  lemma KeyZeroIffMagic(d: seq<byte>)
    requires |d| >= 16
    ensures Key4(d) == ZERO_KEY <==> HasMagic(d)
  {
    hide XorByte, Key4;
    var key := Key4(d);
    XorByteZero(MAGIC[0], d[0]);
    XorByteZero(MAGIC[1], d[1]);
    XorByteZero(MAGIC[2], d[2]);
    XorByteZero(MAGIC[3], d[3]);
    assert key[0] == XorByte(MAGIC[0], d[0]) && key[1] == XorByte(MAGIC[1], d[1]);
    assert key[2] == XorByte(MAGIC[2], d[2]) && key[3] == XorByte(MAGIC[3], d[3]);
    assert key == [key[0], key[1], key[2], key[3]];
    assert d[..4] == [d[0], d[1], d[2], d[3]];
  }

  lemma ZeroKeyChangesNothing(d: seq<byte>)
    ensures XorCycle(d, ZERO_KEY) == d
  {
    hide XorByte, XorCycle;
    var out := XorCycle(d, ZERO_KEY);
    forall i | 0 <= i < |d| ensures out[i] == d[i] {
      assert ZERO_KEY[i % 4] == 0;
      XorByteZero(d[i], d[i]);
      XorByteSolve(d[i], 0, d[i]);
    }
  }

  /** The seven stages amount to one 4-periodic XOR: for every buffer of at least 16 bytes
      they succeed exactly when that XOR leaves a version in 1..199. */
  lemma CascadeIsFourPeriodic(d: seq<byte>)
    requires |d| >= 16
    ensures var out := XorCycle(d, Key4(d));
            Cascade(d) == if ValidVersion(out) then Some((Label(d), out)) else None
  {
    hide XorByte, XorCycle, XorHeader, Key4, Version;
    hide EightByteStage, RollingStage, PositionStage, MaskedStage;
    MiddleStagesNeverFire(d);
    HeaderStageIs(d);
    if AllEqual(Key4(d)) { SingleByteIsFourByte(d); }
  }

  lemma HeaderStageIs(d: seq<byte>)
    requires |d| >= 16
    ensures HeaderStage(d).Some? <==> ValidVersion(XorCycle(d, Key4(d)))
    ensures Key4(d) == ZERO_KEY ==> XorHeader(d, Key4(d), Min(256, |d|)) == XorCycle(d, Key4(d))
  {
    hide XorByte, XorCycle, XorHeader, Key4, Version;
    HeaderPrefix(d);
    DecryptedHasMagic(d);
    ZeroKeyHeader(d);
    var head, out := XorHeader(d, Key4(d), Min(256, |d|)), XorCycle(d, Key4(d));
    PrefixDecidesVersion(head, out);
    assert head[..4] == head[..8][..4] == out[..8][..4] == out[..4];
  }

  lemma ZeroKeyHeader(d: seq<byte>)
    requires |d| >= 16
    ensures XorHeader(d, ZERO_KEY, Min(256, |d|)) == XorCycle(d, ZERO_KEY)
  {
    hide XorByte, XorCycle;
    var n := Min(256, |d|);
    ZeroKeyChangesNothing(d);
    ZeroKeyChangesNothing(d[..n]);
    assert d[..n] + d[n..] == d;
  }

  /** Behind the caller's guard the last stage is dead as well: it fires only where one of
      the first two does, so no other label is ever reported. */
  lemma OnlyTheFirstTwoStagesFire(d: seq<byte>)
    requires |d| >= 16 && !HasMagic(d)
    ensures SingleByteStage(d) == None && FourByteStage(d) == None ==> HeaderStage(d) == None
    ensures Cascade(d).Some? ==> Cascade(d).value.0.SingleByte? || Cascade(d).value.0.FourByte?
  {
    hide XorByte, XorCycle, Key4, ValidVersion, HasMagic, Cascade;
    hide SingleByteStage, FourByteStage, HeaderStage;
    KeyZeroIffMagic(d);
    HeaderStageIs(d);
    CascadeIsFourPeriodic(d);
    FirstTwoStages(d);
  }

  lemma FirstTwoStages(d: seq<byte>)
    requires |d| >= 16 && Key4(d) != ZERO_KEY
    ensures SingleByteStage(d).Some? || FourByteStage(d).Some? <==> ValidVersion(XorCycle(d, Key4(d)))
  {
    hide XorByte, XorCycle, Key4, ValidVersion;
    if AllEqual(Key4(d)) { SingleByteIsFourByte(d); }
  }

  // ----- exact round trip -----

  function XorStream(m: seq<byte>, s: seq<byte>): (d: seq<byte>)
    requires |m| == |s|
    ensures |d| == |m| && forall i {:trigger d[i]} :: 0 <= i < |m| ==> d[i] == XorByte(m[i], s[i])
  {
    seq(|m|, i requires 0 <= i < |m| => XorByte(m[i], s[i]))
  }

  predicate FourPeriodic(s: seq<byte>) { forall i :: 0 <= i < |s| ==> s[i] == s[i % 4] }

  predicate ValidMetadata(m: seq<byte>) { HasMagic(m) && ValidVersion(m) }

  /** `run` decrypts only what does not start with the magic. */
  function Open(d: seq<byte>): Option<seq<byte>> {
    if HasMagic(d) then Some(d)
    else match Cascade(d) case None => None case Some(a) => Some(a.1)
  }

  lemma StreamKey(m: seq<byte>, s: seq<byte>)
    requires |m| == |s| >= 16 && HasMagic(m)
    ensures Key4(XorStream(m, s)) == s[..4]
  {
    hide XorByte;
    var d := XorStream(m, s);
    forall i | 0 <= i < 4 ensures XorByte(MAGIC[i], d[i]) == s[i] {
      assert m[i] == m[..4][i];
      XorByteSolve(MAGIC[i], s[i], d[i]);
      XorByteSymmetric(MAGIC[i], d[i]);
    }
  }

  lemma StreamUndone(m: seq<byte>, s: seq<byte>)
    requires |m| == |s| >= 16 && HasMagic(m)
    ensures XorCycle(XorStream(m, s), Key4(XorStream(m, s))) == m <==> FourPeriodic(s)
  {
    hide XorByte;
    var d := XorStream(m, s);
    StreamKey(m, s);
    var out := XorCycle(d, Key4(d));
    forall i | 0 <= i < |m| ensures out[i] == m[i] <==> s[i] == s[i % 4] {
      assert Key4(d)[i % 4] == s[i % 4];
      XorByteSolve(m[i], s[i], d[i]);
      XorByteSolve(d[i], s[i % 4], m[i]);
      XorByteSymmetric(m[i], d[i]);
    }
    if FourPeriodic(s) { assert out == m; }
    if out == m { forall i | 0 <= i < |s| ensures s[i] == s[i % 4] { assert out[i] == m[i]; } }
  }

  lemma StreamIdentity(m: seq<byte>, s: seq<byte>)
    requires |m| == |s|
    ensures XorStream(m, s) == m <==> forall i :: 0 <= i < |s| ==> s[i] == 0
  {
    hide XorByte;
    forall i | 0 <= i < |m| ensures XorByte(m[i], s[i]) == m[i] <==> s[i] == 0 {
      XorByteSolve(m[i], s[i], m[i]);
      XorByteZero(m[i], m[i]);
    }
    if XorStream(m, s) == m {
      forall i | 0 <= i < |s| ensures s[i] == 0 { assert XorStream(m, s)[i] == m[i]; }
    }
  }

  lemma StreamKeepsMagicIff(m: seq<byte>, s: seq<byte>)
    requires |m| == |s| >= 4 && HasMagic(m)
    ensures HasMagic(XorStream(m, s)) <==> s[..4] == ZERO_KEY
  {
    var d := XorStream(m, s);
    assert d[..4] == XorStream(m[..4], s[..4]);
    StreamIdentity(m[..4], s[..4]);
  }

  /** Valid metadata under any keystream is recovered exactly when the keystream repeats
      every four bytes and there is something to undo only in files of 16 bytes or more. */
  lemma RecoveredIffFourPeriodic(m: seq<byte>, s: seq<byte>)
    requires ValidMetadata(m) && |m| == |s|
    ensures Open(XorStream(m, s)) == Some(m) <==> FourPeriodic(s) && (|m| >= 16 || s[..4] == ZERO_KEY)
  {
    hide XorByte;
    var d := XorStream(m, s);
    StreamKeepsMagicIff(m, s);
    if s[..4] == ZERO_KEY {
      StreamIdentity(m, s);
      assert forall i :: 0 <= i < 4 ==> s[i] == s[..4][i] == 0;
      if FourPeriodic(s) {
        forall i | 0 <= i < |s| ensures s[i] == 0 { assert s[i % 4] == 0; }
      } else if forall i :: 0 <= i < |s| ==> s[i] == 0 {
        forall i | 0 <= i < |s| ensures s[i] == s[i % 4] { assert s[i % 4] == 0; }
      }
    } else if |m| >= 16 {
      CascadeIsFourPeriodic(d);
      StreamUndone(m, s);
    }
  }

  /** The single-byte label is reported exactly for a repeated byte. */
  lemma RecoveredLabel(m: seq<byte>, s: seq<byte>)
    requires ValidMetadata(m) && |m| == |s| >= 16
    requires FourPeriodic(s) && s[..4] != ZERO_KEY
    ensures Cascade(XorStream(m, s)) == Some((if AllEqual(s[..4]) then SingleByte(s[0]) else FourByte(s[..4]), m))
  {
    hide XorByte;
    CascadeIsFourPeriodic(XorStream(m, s));
    StreamUndone(m, s);
    StreamKey(m, s);
  }

  lemma FourPeriodicAt(s: seq<byte>, q: nat, r: nat)
    requires FourPeriodic(s) && r < 4 && 4 * q + r < |s|
    ensures s[4 * q + r] == s[r]
  {
    var i := 4 * q + r;
    assert i % 4 == r;
    assert s[i] == s[i % 4];
  }

  // ----- the schemes that only the labels promise -----

  /** Metadata under an eight-byte key opens exactly when the key is a four-byte key twice,
      and, below 16 bytes, the zero key. */
  lemma EightByteKeyOpensIff(m: seq<byte>, key: seq<byte>)
    requires ValidMetadata(m) && |key| == 8
    ensures Open(XorCycle(m, key)) == Some(m) <==> key[..4] == key[4..] && (|m| >= 16 || key[..4] == ZERO_KEY)
  {
    hide XorByte, Open, ValidMetadata, FourPeriodic;
    ValidIsLong(m);
    var s := KeyStream(key, |m|);
    assert XorCycle(m, key) == XorStream(m, s);
    RecoveredIffFourPeriodic(m, s);
    KeyStreamPeriodicIff(key, |m|);
  }

  function KeyStream(key: seq<byte>, n: nat): (s: seq<byte>)
    requires |key| == 8
    ensures |s| == n && forall i {:trigger s[i]} :: 0 <= i < n ==> s[i] == key[i % 8]
  {
    seq<byte>(n, i requires 0 <= i < n => key[i % 8])
  }

  lemma KeyStreamPeriodicIff(key: seq<byte>, n: nat)
    requires |key| == 8 <= n
    ensures FourPeriodic(KeyStream(key, n)) <==> key[..4] == key[4..]
    ensures KeyStream(key, n)[..4] == key[..4]
  {
    var s := KeyStream(key, n);
    assert s[..4] == key[..4];
    if key[..4] == key[4..] {
      forall i | 0 <= i < n ensures s[i] == s[i % 4] { RepeatedKey(key, i); }
    } else if FourPeriodic(s) {
      forall i | 0 <= i < 4 ensures key[i] == key[i + 4] { FourPeriodicAt(s, 1, i); }
    }
  }

  lemma RepeatedKey(key: seq<byte>, i: nat)
    requires |key| == 8 && key[..4] == key[4..]
    ensures key[i % 8] == key[i % 4]
  {
    forall r | 0 <= r < 4 ensures key[r] == key[r + 4] { assert key[..4][r] == key[4..][r]; }
    assert i % 4 == if i % 8 < 4 then i % 8 else i % 8 - 4;
  }

  lemma ValidIsLong(m: seq<byte>)
    requires ValidMetadata(m)
    ensures |m| >= 8
  {
  }

  /** Metadata under a position-dependent key never opens. */
  lemma PositionKeyNeverOpens(m: seq<byte>, key: seq<byte>)
    requires ValidMetadata(m) && |key| == 4
    ensures Open(XorPosition(m, key)) != Some(m)
  {
    hide XorByte, Open, ValidMetadata;
    var s := seq(|m|, i requires 0 <= i < |m| => XorByte(key[i % 4], i % 256));
    assert XorPosition(m, key) == XorStream(m, s);
    RecoveredIffFourPeriodic(m, s);
    if FourPeriodic(s) {
      ValidIsLong(m);
      FourPeriodicAt(s, 1, 0);
      XorByteSolve(key[0], 4, XorByte(key[0], 0));
      XorByteSolve(key[0], 0, XorByte(key[0], 0));
    }
  }

  /** A header key as a stream: four-periodic over the first 256 bytes, zero after them. */
  function HeaderStream(key: seq<byte>, n: nat): (s: seq<byte>)
    requires |key| == 4
    ensures |s| == n && forall i {:trigger s[i]} :: 0 <= i < n ==> s[i] == if i < 256 then key[i % 4] else 0
  {
    seq<byte>(n, i requires 0 <= i < n => if i < 256 then key[i % 4] else 0)
  }

  lemma HeaderIsStream(m: seq<byte>, key: seq<byte>)
    requires |key| == 4
    ensures XorHeader(m, key, Min(256, |m|)) == XorStream(m, HeaderStream(key, |m|))
  {
    hide XorByte;
    var n := Min(256, |m|);
    var head, s := XorHeader(m, key, n), HeaderStream(key, |m|);
    forall i | 0 <= i < |m| ensures head[i] == XorByte(m[i], s[i]) {
      XorByteZero(m[i], m[i]);
      XorByteSolve(m[i], 0, m[i]);
    }
  }

  /** The key bytes whose turn comes again after the header must be zero. */
  predicate HeaderKeyHarmless(key: seq<byte>, n: nat)
    requires |key| == 4
  {
    forall i :: 0 <= i < 4 && 256 + i < n ==> key[i] == 0
  }

  lemma HeaderStreamPeriodicIff(key: seq<byte>, n: nat)
    requires |key| == 4
    ensures FourPeriodic(HeaderStream(key, n)) <==> HeaderKeyHarmless(key, n)
  {
    hide HeaderStream, HeaderKeyHarmless;
    if HeaderKeyHarmless(key, n) {
      forall i | 0 <= i < n ensures HeaderStream(key, n)[i] == HeaderStream(key, n)[i % 4] {
        HarmlessRepeats(key, n, i);
      }
    }
    if FourPeriodic(HeaderStream(key, n)) { PeriodicIsHarmless(key, n); }
  }

  lemma PeriodicIsHarmless(key: seq<byte>, n: nat)
    requires |key| == 4 && FourPeriodic(HeaderStream(key, n))
    ensures HeaderKeyHarmless(key, n)
  {
    hide FourPeriodic, HeaderStream;
    forall i | 0 <= i < 4 && 256 + i < n ensures key[i] == 0 {
      FourPeriodicAt(HeaderStream(key, n), 64, i);
      SmallMod(i, 4);
    }
  }

  lemma HarmlessRepeats(key: seq<byte>, n: nat, i: nat)
    requires |key| == 4 && HeaderKeyHarmless(key, n) && i < n
    ensures HeaderStream(key, n)[i] == HeaderStream(key, n)[i % 4]
  {
    hide HeaderStream;
    var r := i % 4;
    SmallMod(r, 4);
    assert 0 <= r < 4 && r <= i;
    if i >= 256 {
      assert (i - 256) % 4 == r && 256 + r <= i;
    }
  }

  /** Metadata whose first 256 bytes alone are encrypted opens exactly when every key byte
      that the four-byte XOR would apply again past the header is zero: always from 16 up to
      256 bytes, only under the zero key from 260 bytes on and below 16 bytes. */
  lemma HeaderKeyOpensIff(m: seq<byte>, key: seq<byte>)
    requires ValidMetadata(m) && |key| == 4
    ensures Open(XorHeader(m, key, Min(256, |m|))) == Some(m) <==>
            (forall i :: 0 <= i < 4 && 256 + i < |m| ==> key[i] == 0) && (|m| >= 16 || key == ZERO_KEY)
  {
    hide XorByte, Open, ValidMetadata, XorHeader, XorStream, HeaderStream, FourPeriodic;
    HeaderIsStream(m, key);
    RecoveredIffFourPeriodic(m, HeaderStream(key, |m|));
    HeaderStreamPeriodicIff(key, |m|);
    ValidIsLong(m);
    HeaderStreamStart(key, |m|);
  }

  lemma HeaderStreamStart(key: seq<byte>, n: nat)
    requires |key| == 4 <= n
    ensures HeaderStream(key, n)[..4] == key
  {
  }

  // ----- in place -----

  class MetadataFile {
    var data: array<byte>

    constructor (bytes: seq<byte>)
      ensures fresh(data) && data[..] == bytes
    {
      data := new byte[|bytes|](i requires 0 <= i < |bytes| => bytes[i]);
    }

    static method Clone(a: array<byte>) returns (b: array<byte>)
      ensures fresh(b) && b[..] == a[..]
    {
      b := new byte[a.Length](i requires 0 <= i < a.Length reads a => a[i]);
    }

    static method XorInPlace(test: array<byte>, key: seq<byte>)
      requires key != []
      modifies test
      ensures test[..] == XorCycle(old(test[..]), key)
    {
      for i := 0 to test.Length
        invariant forall j :: 0 <= j < i ==> test[j] == XorByte(old(test[j]), key[j % |key|])
        invariant forall j :: i <= j < test.Length ==> test[j] == old(test[j])
      {
        test[i] := XorByte(test[i], key[i % |key|]);
      }
    }

    static method XorPositionInPlace(test: array<byte>, key: seq<byte>)
      requires |key| == 4
      modifies test
      ensures test[..] == XorPosition(old(test[..]), key)
    {
      for i := 0 to test.Length
        invariant forall j :: 0 <= j < i ==> test[j] == XorByte(old(test[j]), XorByte(key[j % 4], j % 256))
        invariant forall j :: i <= j < test.Length ==> test[j] == old(test[j])
      {
        test[i] := XorByte(test[i], XorByte(key[i % 4], i % 256));
      }
    }

    static method XorHeaderInPlace(test: array<byte>, key: seq<byte>, n: nat)
      requires |key| == 4 && n <= test.Length
      modifies test
      ensures test[..] == XorHeader(old(test[..]), key, n)
    {
      for i := 0 to n
        invariant forall j :: 0 <= j < i ==> test[j] == XorByte(old(test[j]), key[j % 4])
        invariant forall j :: i <= j < test.Length ==> test[j] == old(test[j])
      {
        test[i] := XorByte(test[i], key[i % 4]);
      }
    }

    method TrySingleByte() returns (r: Option<Scheme>)
      requires data.Length >= 16
      modifies this
      ensures Result(SingleByteStage(old(data[..])), r)
    {
      var key := Key4(data[..]);
      if key[0] == 0 || !AllEqual(key) { return None; }
      var test := Clone(data);
      XorInPlace(test, key[..1]);
      if !ValidVersion(test[..]) { return None; }
      data := test;
      r := Some(SingleByte(key[0]));
    }

    method TryFourByte() returns (r: Option<Scheme>)
      requires data.Length >= 16
      modifies this
      ensures Result(FourByteStage(old(data[..])), r)
    {
      var key := Key4(data[..]);
      if key == ZERO_KEY || AllEqual(key) { return None; }
      var test := Clone(data);
      XorInPlace(test, key);
      if !ValidVersion(test[..]) { return None; }
      data := test;
      r := Some(FourByte(key));
    }

    method TryEightByte() returns (r: Option<Scheme>)
      requires data.Length >= 16
      modifies this
      ensures Result(EightByteStage(old(data[..])), r)
    {
      var key := LongKey(data[..], 8);
      if key[..4] == ZERO_KEY { return None; }
      if !(0 < Version(XorCycle(data[..], key)[4..8]) < 200) { return None; }
      var test := Clone(data);
      XorInPlace(test, key);
      if !ValidVersion(test[..]) { return None; }
      data := test;
      r := Some(EightByte(key));
    }

    /** The rolling keys: an eight-byte trial, then the buffer itself is rewritten. */
    method TryRolling() returns (r: Option<Scheme>)
      requires data.Length >= 16
      modifies this, data
      ensures Result(RollingStage(old(data[..]), ROLLING_LENGTHS), r)
    {
      ghost var d := data[..];
      for k := 0 to |ROLLING_LENGTHS|
        invariant data == old(data) && data[..] == d
        invariant RollingStage(d, ROLLING_LENGTHS[k..]) == RollingStage(d, ROLLING_LENGTHS)
      {
        var n := ROLLING_LENGTHS[k];
        assert ROLLING_LENGTHS[k..][1..] == ROLLING_LENGTHS[k + 1..];
        if data.Length < n * 2 { continue; }
        var key := LongKey(data[..], n);
        if key[..4] == ZERO_KEY { continue; }
        var test := XorCycle(data[..8], key);
        assert data[..8] == d[..8];
        if HasMagic(test) && ValidVersion(test) {
          XorInPlace(data, key);
          return Some(Rolling(n));
        }
      }
      r := None;
    }

    method TryPosition(masked: bool) returns (r: Option<Scheme>)
      requires data.Length >= 16
      modifies this
      ensures Result(if masked then MaskedStage(old(data[..])) else PositionStage(old(data[..])), r)
    {
      var key := Key4(data[..]);
      var test := Clone(data);
      XorPositionInPlace(test, key);
      if !(HasMagic(test[..]) && ValidVersion(test[..])) { return None; }
      data := test;
      r := Some(if masked then MaskedPosition(key) else PositionDependent(key));
    }

    method TryHeader() returns (r: Option<Scheme>)
      requires data.Length >= 16
      modifies this
      ensures Result(HeaderStage(old(data[..])), r)
    {
      var key := Key4(data[..]);
      var headerSize := Min(256, data.Length);
      var test := Clone(data);
      XorHeaderInPlace(test, key, headerSize);
      if !(HasMagic(test[..]) && ValidVersion(test[..])) { return None; }
      data := test;
      r := Some(HeaderOnly(headerSize, key));
    }

    /** A stage's report and the buffer it leaves; on failure the buffer is untouched. */
    twostate predicate Result(new a: Attempt, new r: Option<Scheme>)
      reads this, data
    {
      match a
      case None => r.None? && data == old(data) && data[..] == old(data[..])
      case Some(found) => r == Some(found.0) && data[..] == found.1
    }

    method TryDecryptMetadata() returns (r: Option<Scheme>)
      modifies this, data
      ensures Result(Cascade(old(data[..])), r)
      ensures old(data.Length) >= 16 ==>
                var d := old(data[..]);
                var out := XorCycle(d, Key4(d));
                if ValidVersion(out) then r == Some(Label(d)) && data[..] == out
                else r.None? && data[..] == d
    {
      hide SingleByteStage, FourByteStage, EightByteStage, RollingStage, PositionStage, MaskedStage, HeaderStage;
      hide XorCycle, ValidVersion, Label;
      if data.Length < 16 { return None; }
      CascadeIsFourPeriodic(data[..]);
      r := TrySingleByte();
      if r.Some? { return; }
      r := TryFourByte();
      if r.Some? { return; }
      r := TryEightByte();
      if r.Some? { return; }
      r := TryRolling();
      if r.Some? { return; }
      r := TryPosition(false);
      if r.Some? { return; }
      r := TryPosition(true);
      if r.Some? { return; }
      r := TryHeader();
    }
  }
}
