/** Hexadecimal text: what `%llx` prints and what both parsers read. */
module HexText {
  import opened Words

  function HexDigit(c: char): int {
    if '0' <= c <= '9' then c as int - '0' as int
    else if 'a' <= c <= 'f' then c as int - 'a' as int + 10
    else if 'A' <= c <= 'F' then c as int - 'A' as int + 10
    else -1
  }

  const LOWER: string := "0123456789abcdef"
  const UPPER: string := "0123456789ABCDEF"

  /** Digits of either case, and nothing else, have a value: their place in the alphabet. */
  lemma HexDigitIs(c: char, d: nat)
    requires d < 16
    ensures HexDigit(LOWER[d]) == d && HexDigit(UPPER[d]) == d
    ensures HexDigit(c) >= 0 <==> c in LOWER || c in UPPER
  {
    AlphabetAt(d);
    if c in LOWER || c in UPPER {
      var v :| 0 <= v < 16 && (LOWER[v] == c || UPPER[v] == c);
      AlphabetAt(v);
    }
    if HexDigit(c) >= 0 {
      AlphabetAt(HexDigit(c));
      assert LOWER[HexDigit(c)] == c || UPPER[HexDigit(c)] == c;
    }
  }

  lemma AlphabetAt(d: nat)
    requires d < 16
    ensures LOWER[d] as int == (if d < 10 then 48 + d else 87 + d)
    ensures UPPER[d] as int == (if d < 10 then 48 + d else 55 + d)
  {
    assert d == 0 || d == 1 || d == 2 || d == 3 || d == 4 || d == 5 || d == 6 || d == 7
        || d == 8 || d == 9 || d == 10 || d == 11 || d == 12 || d == 13 || d == 14 || d == 15;
  }

  predicate AllHex(s: string) { forall c :: c in s ==> HexDigit(c) >= 0 }

  function HexValue(s: string): nat
    requires AllHex(s)
  {
    if s == "" then 0 else 16 * HexValue(s[..|s| - 1]) + HexDigit(s[|s| - 1])
  }

  function DigitChar(d: nat): (c: char)
    requires d < 16
    ensures HexDigit(c) == d && c == LOWER[d] && c < 128 as char && c != 'x' && c != 'X' && c > ' '
  {
    AlphabetAt(d);
    if d < 10 then ('0' as int + d) as char else ('a' as int + d - 10) as char
  }

  /** `%llx` */
  function HexDigits(v: nat): (s: string)
    ensures s != ""
  {
    if v < 16 then [DigitChar(v)] else HexDigits(v / 16) + [DigitChar(v % 16)]
  }

  /** Printed digits are lower-case, without leading zeros, clean ASCII, and read back as
      the number. */
  lemma {:induction false} HexDigitsRoundTrip(v: nat)
    ensures (forall c :: c in HexDigits(v) ==> c in LOWER) && (HexDigits(v)[0] == '0' ==> v == 0)
    ensures AllHex(HexDigits(v)) && HexValue(HexDigits(v)) == v
    ensures forall c :: c in HexDigits(v) ==> ' ' < c < 128 as char && c != 'x' && c != 'X'
  {
    if v >= 16 {
      HexDigitsRoundTrip(v / 16);
      var s := HexDigits(v);
      assert s[..|s| - 1] == HexDigits(v / 16);
    } else {
      assert HexDigits(v)[..0] == "";
    }
  }

  lemma OneDigit(d: nat)
    requires d < 16
    ensures HexDigits(d) == [LOWER[d]]
  {
  }

  lemma HexDigitsStep(v: nat, d: nat)
    requires v > 0 && d < 16
    ensures HexDigits(16 * v + d) == HexDigits(v) + [LOWER[d]]
  {
    hide HexDigit;
    var u := 16 * v + d;
    assert u / 16 == v && u % 16 == d;
    assert HexDigits(u) == HexDigits(u / 16) + [DigitChar(u % 16)];
  }

  /** Four bits to a digit. */
  lemma {:induction false} HexDigitsLength(v: nat, n: nat)
    requires n >= 1 && v < Pow2(4 * n)
    ensures |HexDigits(v)| <= n
    decreases n
  {
    var k := 4 * (n - 1);
    assert Pow2(k + 2) == 2 * Pow2(k + 1) == 4 * Pow2(k);
    assert Pow2(k + 4) == 2 * Pow2(k + 3) == 4 * Pow2(k + 2);
    if v >= 16 {
      assert Pow2(0) == 1;
      HexDigitsLength(v / 16, n - 1);
    }
  }
}
