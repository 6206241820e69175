/** The parts of `str` that the page-map parser relies on: UTF-8 validation, Unicode
    white space, trimming, fields and `u64::from_str_radix(_, 16)`. */
module Utf8Text {
  import opened Words
  import opened HexText

  // ----- std::str::from_utf8 -----

  predicate Tail(b: byte) { 0x80 <= b < 0xC0 }

  /** The scalar value at the front of `b` and its length in bytes. */
  function DecodeOne(b: seq<byte>): (r: Option<(char, nat)>)
    requires b != []
    ensures r.Some? ==> 1 <= r.value.1 <= |b|
  {
    var x := b[0];
    if x < 0x80 then Some((x as char, 1))
    else if 0xC2 <= x < 0xE0 && |b| >= 2 && Tail(b[1]) then
      Some((((x - 0xC0) as int * 64 + (b[1] - 0x80)) as char, 2))
    else if 0xE0 <= x < 0xF0 && |b| >= 3 && Tail(b[1]) && Tail(b[2])
            && (x == 0xE0 ==> b[1] >= 0xA0) && (x == 0xED ==> b[1] < 0xA0) then
      Some((((x - 0xE0) as int * 4096 + (b[1] - 0x80) as int * 64 + (b[2] - 0x80)) as char, 3))
    else if 0xF0 <= x < 0xF5 && |b| >= 4 && Tail(b[1]) && Tail(b[2]) && Tail(b[3])
            && (x == 0xF0 ==> b[1] >= 0x90) && (x == 0xF4 ==> b[1] < 0x90) then
      var high := (x - 0xF0) as int * 262144 + (b[1] - 0x80) as int * 4096;
      Some(((high + (b[2] - 0x80) as int * 64 + (b[3] - 0x80)) as char, 4))
    else None
  }

  function FromUtf8(b: seq<byte>): Option<string>
    decreases |b|
  {
    if b == [] then Some("")
    else
      match DecodeOne(b)
      case None => None
      case Some((c, n)) =>
        match FromUtf8(b[n..]) case None => None case Some(s) => Some([c] + s)
  }

  predicate IsAscii(s: string) { forall c :: c in s ==> c < 128 as char }

  function Ascii(s: string): (b: seq<byte>)
    requires IsAscii(s)
    ensures |b| == |s| && forall i {:trigger b[i]} :: 0 <= i < |s| ==> b[i] == s[i] as int
  {
    assert forall i :: 0 <= i < |s| ==> s[i] in s;
    seq<byte>(|s|, i requires 0 <= i < |s| => s[i] as int % 256)
  }

  lemma {:induction false} AsciiIsUtf8(s: string)
    requires IsAscii(s)
    ensures FromUtf8(Ascii(s)) == Some(s)
  {
    if s != "" {
      assert s[0] in s;
      assert IsAscii(s[1..]) by { forall c | c in s[1..] ensures c < 128 as char { assert c in s; } }
      AsciiIsUtf8(s[1..]);
      var b := Ascii(s);
      assert b[1..] == Ascii(s[1..]);
      assert DecodeOne(b) == Some((s[0], 1));
      assert s == [s[0]] + s[1..];
    }
  }

  // ----- UTF-8 as it is written (section 3 of RFC 3629) -----

  function EncodeOne(c: char): (b: seq<byte>)
    ensures 1 <= |b| <= 4
  {
    var u := c as int;
    if u < 0x80 then [u]
    else if u < 0x800 then [0xC0 + u / 64, 0x80 + u % 64]
    else if u < 0x1_0000 then [0xE0 + u / 64 / 64, 0x80 + u / 64 % 64, 0x80 + u % 64]
    else [0xF0 + u / 64 / 64 / 64, 0x80 + u / 64 / 64 % 64, 0x80 + u / 64 % 64, 0x80 + u % 64]
  }

  function Encode(s: string): seq<byte> {
    if s == "" then [] else EncodeOne(s[0]) + Encode(s[1..])
  }

  lemma DecodeEncoded(c: char, rest: seq<byte>)
    ensures DecodeOne(EncodeOne(c) + rest) == Some((c, |EncodeOne(c)|))
  {
    var b := EncodeOne(c) + rest;
    if c as int < 0x80 {
    } else if c as int < 0x800 {
      assert b[0] == EncodeOne(c)[0] && b[1] == EncodeOne(c)[1];
    } else if c as int < 0x1_0000 {
      ThreeBytes(c, b);
    } else {
      FourBytes(c, b);
    }
  }

  lemma ThreeBytes(c: char, b: seq<byte>)
    requires 0x800 <= c as int < 0x1_0000 && EncodeOne(c) <= b
    ensures DecodeOne(b) == Some((c, 3))
  {
    var u := c as int;
    Digits64(u);
    Digits64(u / 64);
    assert b[0] == EncodeOne(c)[0] && b[1] == EncodeOne(c)[1] && b[2] == EncodeOne(c)[2];
  }

  lemma FourBytes(c: char, b: seq<byte>)
    requires 0x1_0000 <= c as int && EncodeOne(c) <= b
    ensures DecodeOne(b) == Some((c, 4))
  {
    var u := c as int;
    Digits64(u);
    Digits64(u / 64);
    Digits64(u / 64 / 64);
    assert b[0] == EncodeOne(c)[0] && b[1] == EncodeOne(c)[1];
    assert b[2] == EncodeOne(c)[2] && b[3] == EncodeOne(c)[3];
    DecodeFour(u / 64 / 64 / 64, u / 64 / 64 % 64, u / 64 % 64, u % 64, c, b);
  }

  lemma Digits64(u: nat)
    ensures u == u / 64 * 64 + u % 64 && u % 64 < 64
  {
  }

  lemma DecodeFour(w: nat, x: nat, y: nat, z: nat, c: char, b: seq<byte>)
    requires x < 64 && y < 64 && z < 64 && 0x1_0000 <= c as int == w * 262144 + x * 4096 + y * 64 + z
    requires |b| >= 4 && b[0] == 0xF0 + w && b[1] == 0x80 + x && b[2] == 0x80 + y && b[3] == 0x80 + z
    ensures DecodeOne(b) == Some((c, 4))
  {
  }

  lemma EncodeDecoded(b: seq<byte>)
    requires b != [] && DecodeOne(b).Some?
    ensures b[..DecodeOne(b).value.1] == EncodeOne(DecodeOne(b).value.0)
  {
    var (c, n) := DecodeOne(b).value;
    if n == 2 {
      SixBits(b[0] - 0xC0, b[1] - 0x80);
    } else if n == 3 {
      EncodeThree(b, c);
    } else if n == 4 {
      EncodeFour(b, c);
    }
  }

  lemma SixBits(high: nat, low: nat)
    requires low < 64
    ensures (high * 64 + low) / 64 == high && (high * 64 + low) % 64 == low
  {
  }

  lemma EncodeThree(b: seq<byte>, c: char)
    requires b != [] && DecodeOne(b) == Some((c, 3))
    ensures b[..3] == EncodeOne(c)
  {
    var x: nat, y: nat, z: nat := b[0] - 0xE0, b[1] - 0x80, b[2] - 0x80;
    assert c as int == (x * 64 + y) * 64 + z;
    SixBits(x * 64 + y, z);
    SixBits(x, y);
  }

  lemma EncodeFour(b: seq<byte>, c: char)
    requires b != [] && DecodeOne(b) == Some((c, 4))
    ensures b[..4] == EncodeOne(c)
  {
    var w: nat, x: nat, y: nat, z: nat := b[0] - 0xF0, b[1] - 0x80, b[2] - 0x80, b[3] - 0x80;
    assert c as int == ((w * 64 + x) * 64 + y) * 64 + z;
    SixBits((w * 64 + x) * 64 + y, z);
    SixBits(w * 64 + x, y);
    SixBits(w, x);
  }

  /** The validator accepts exactly the encodings, and gives back what was encoded. */
  lemma {:induction false} Utf8Iff(b: seq<byte>, s: string)
    ensures FromUtf8(b) == Some(s) <==> b == Encode(s)
    decreases |s|
  {
    hide DecodeOne, EncodeOne;
    if b == Encode(s) && s != "" {
      DecodeEncoded(s[0], Encode(s[1..]));
      ConcatParts(EncodeOne(s[0]), Encode(s[1..]));
      Utf8Iff(Encode(s[1..]), s[1..]);
      assert s == [s[0]] + s[1..];
    }
    if FromUtf8(b) == Some(s) && b != [] {
      EncodeDecoded(b);
      var (c, n) := DecodeOne(b).value;
      var tail := FromUtf8(b[n..]).value;
      assert s == [c] + tail && s[1..] == tail;
      Utf8Iff(b[n..], tail);
      assert b == b[..n] + b[n..];
    }
  }

  // ----- white space -----

  /** The Unicode White_Space property. */
  predicate White(c: char) {
    var u := c as int;
    || 9 <= u <= 13 || u == 0x20 || u == 0x85 || u == 0xA0 || u == 0x1680
    || 0x2000 <= u <= 0x200A || u == 0x2028 || u == 0x2029 || u == 0x202F || u == 0x205F || u == 0x3000
  }

  /** The 25 characters of that property. */
  const WHITE: string :=
    "\t\n\U{0B}\U{0C}\r \U{85}\U{A0}\U{1680}" +
    "\U{2000}\U{2001}\U{2002}\U{2003}\U{2004}\U{2005}\U{2006}\U{2007}\U{2008}\U{2009}\U{200A}" +
    "\U{2028}\U{2029}\U{202F}\U{205F}\U{3000}"

  lemma WhiteIs(c: char)
    ensures White(c) <==> c in WHITE
  {
    var a := "\t\n\U{0B}\U{0C}\r \U{85}\U{A0}\U{1680}";
    var b := "\U{2000}\U{2001}\U{2002}\U{2003}\U{2004}\U{2005}\U{2006}\U{2007}\U{2008}\U{2009}\U{200A}";
    var d := "\U{2028}\U{2029}\U{202F}\U{205F}\U{3000}";
    assert c in WHITE <==> c in a || c in b || c in d;
  }

  function TrimStart(s: string): string {
    if s != "" && White(s[0]) then TrimStart(s[1..]) else s
  }

  function TrimEnd(s: string): string {
    if s != "" && White(s[|s| - 1]) then TrimEnd(s[..|s| - 1]) else s
  }

  function Trim(s: string): string { TrimEnd(TrimStart(s)) }

  function FieldEnd(s: string): (n: nat)
    ensures n <= |s|
  {
    if s == "" || White(s[0]) then 0 else 1 + FieldEnd(s[1..])
  }

  /** `split_whitespace`: the maximal runs of non-white characters. */
  function Fields(s: string): seq<string>
    decreases |s|
  {
    if s == "" then []
    else if White(s[0]) then Fields(s[1..])
    else [s[..FieldEnd(s)]] + Fields(s[FieldEnd(s)..])
  }

  lemma {:induction false} FieldEndIs(s: string, n: nat)
    requires n <= |s| && (forall i :: 0 <= i < n ==> !White(s[i])) && (n < |s| ==> White(s[n]))
    ensures FieldEnd(s) == n
  {
    if n > 0 { FieldEndIs(s[1..], n - 1); }
  }

  lemma SpaceIsWhite()
    ensures White(' ')
  {
  }

  lemma CleanEnds(s: string)
    requires s != "" && !White(s[0]) && !White(s[|s| - 1])
    ensures Trim(s) == s
  {
  }

  lemma OneField(a: string, rest: string)
    requires a != "" && (forall c :: c in a ==> !White(c)) && (rest != "" ==> White(rest[0]))
    ensures Fields(a + rest) == [a] + Fields(rest)
  {
    hide White;
    var s := a + rest;
    assert forall i :: 0 <= i < |a| ==> s[i] in a;
    FieldEndIs(s, |a|);
    ConcatParts(a, rest);
  }

  /** Two clean words and one space: nothing to trim, two fields. */
  lemma TwoFields(a: string, b: string)
    requires a != "" && b != ""
    requires forall c :: c in a || c in b ==> !White(c)
    ensures Trim(a + " " + b) == a + " " + b && Fields(a + " " + b) == [a, b]
  {
    SpaceIsWhite();
    hide White;
    hide Trim, FieldEnd;
    var s := a + " " + b;
    assert s[0] == a[0] && a[0] in a && s[|s| - 1] == b[|b| - 1] && b[|b| - 1] in b;
    CleanEnds(s);
    Assoc(a, " ", b);
    OneField(a, " " + b);
    assert (" " + b)[1..] == b;
    OneField(b, "");
    assert b + "" == b;
  }

  // ----- what trimming and splitting mean -----

  predicate AllWhite(s: string) { forall i :: 0 <= i < |s| ==> White(s[i]) }

  predicate Word(s: string) { s != "" && forall i :: 0 <= i < |s| ==> !White(s[i]) }

  lemma {:induction false} TrimStartIs(w: string, r: string)
    requires AllWhite(w) && (r != "" ==> !White(r[0]))
    ensures TrimStart(w + r) == r
  {
    hide White;
    if w == "" {
      assert w + r == r;
    } else {
      assert (w + r)[1..] == w[1..] + r;
      TrimStartIs(w[1..], r);
    }
  }

  lemma {:induction false} TrimEndIs(r: string, w: string)
    requires AllWhite(w) && (r != "" ==> !White(r[|r| - 1]))
    ensures TrimEnd(r + w) == r
    decreases |w|
  {
    hide White;
    if w == "" {
      assert r + w == r;
    } else {
      assert (r + w)[..|r + w| - 1] == r + w[..|w| - 1];
      TrimEndIs(r, w[..|w| - 1]);
    }
  }

  /** Trimming takes the white ends and nothing else. */
  lemma TrimIs(before: string, s: string, after: string)
    requires AllWhite(before) && AllWhite(after)
    requires s == "" || (!White(s[0]) && !White(s[|s| - 1]))
    ensures Trim(before + s + after) == s
  {
    hide White, TrimStart, TrimEnd;
    if s == "" {
      AllWhiteConcat(before, after);
      assert before + s + after == (before + after) + "" && "" + "" == "";
      TrimStartIs(before + after, "");
      TrimEndIs("", "");
    } else {
      assert before + s + after == before + (s + after);
      TrimStartIs(before, s + after);
      TrimEndIs(s, after);
    }
  }

  lemma AllWhiteConcat(a: string, b: string)
    requires AllWhite(a) && AllWhite(b)
    ensures AllWhite(a + b)
  {
    hide White;
  }

  /** White space between two texts separates their fields. */
  lemma {:induction false} FieldsConcat(a: string, w: string, b: string)
    requires w != "" && AllWhite(w)
    ensures Fields(a + w + b) == Fields(a) + Fields(b)
    decreases |a|
  {
    hide White, FieldEnd;
    var s := a + w + b;
    if a == "" {
      LeadingWhite(w, b);
      assert s == w + b;
    } else if White(a[0]) {
      assert s[1..] == a[1..] + w + b;
      FieldsConcat(a[1..], w, b);
    } else {
      var n := FieldEnd(a);
      FirstField(a);
      assert s[..n] == a[..n] && s[n..] == a[n..] + w + b;
      if n < |a| { assert s[n] == a[n]; } else { assert s[n] == w[0]; }
      FieldEndIs(s, n);
      FieldsConcat(a[n..], w, b);
    }
  }

  lemma {:induction false} FirstField(s: string)
    requires s != "" && !White(s[0])
    ensures 0 < FieldEnd(s) && forall i :: 0 <= i < FieldEnd(s) ==> !White(s[i])
    ensures FieldEnd(s) < |s| ==> White(s[FieldEnd(s)])
  {
    hide White;
    if |s| > 1 && !White(s[1]) { FirstField(s[1..]); }
  }

  lemma {:induction false} LeadingWhite(w: string, b: string)
    requires AllWhite(w)
    ensures Fields(w + b) == Fields(b)
  {
    hide White, FieldEnd;
    if w == "" {
      assert w + b == b;
    } else {
      assert (w + b)[1..] == w[1..] + b;
      LeadingWhite(w[1..], b);
    }
  }

  /** A word is its only field, and white space has none. */
  lemma FieldsOf(a: string)
    ensures Word(a) ==> Fields(a) == [a]
    ensures AllWhite(a) ==> Fields(a) == []
  {
    hide White, Fields;
    assert a + "" == a;
    FieldsOfNothing();
    if Word(a) {
      forall c | c in a ensures !White(c) {
        var i :| 0 <= i < |a| && a[i] == c;
      }
      OneField(a, "");
    }
    if AllWhite(a) { LeadingWhite(a, ""); }
  }

  lemma FieldsOfNothing()
    ensures Fields("") == []
  {
  }

  /** Trimming takes no field away, and leaves the first character that is not white in front. */
  lemma TrimKeepsFields(w: string, r: string)
    requires AllWhite(w) && r != "" && !White(r[0])
    ensures Trim(w + r) != "" && Trim(w + r)[0] == r[0]
    ensures Fields(Trim(w + r)) == Fields(w + r)
  {
    hide White, Fields, TrimStart, TrimEnd;
    TrimStartIs(w, r);
    LeadingWhite(w, r);
    var tail := TrimmedTail(r);
    var s := TrimEnd(r);
    if tail == "" {
      assert s + tail == s;
    } else {
      FieldsConcat(s, tail, "");
      assert s + tail + "" == r && Fields("") == [] by { FieldsOfNothing(); }
      assert Fields(s) + [] == Fields(s);
    }
  }

  lemma {:induction false} TrimmedTail(r: string) returns (tail: string)
    requires r != "" && !White(r[0])
    ensures AllWhite(tail) && r == TrimEnd(r) + tail && TrimEnd(r) != "" && TrimEnd(r)[0] == r[0]
    decreases |r|
  {
    hide White;
    if White(r[|r| - 1]) {
      var last := r[|r| - 1..];
      var init := TrimmedTail(r[..|r| - 1]);
      tail := init + last;
      assert r == r[..|r| - 1] + last;
    } else {
      tail := "";
    }
  }

  // ----- numbers -----

  /** `trim_start_matches(prefix)`: the prefix may be repeated. */
  function TrimPrefix(s: string, prefix: string): string
    requires prefix != ""
    decreases |s|
  {
    if prefix <= s then TrimPrefix(s[|prefix|..], prefix) else s
  }

  /** `u64::from_str_radix(s, 16).ok()`: one leading plus is allowed. */
  function FromRadix16(s: string): Option<u64> {
    var digits := if |s| > 1 && s[0] == '+' then s[1..] else s;
    if digits == "" || !AllHex(digits) || HexValue(digits) >= TWO_64 then None else Some(HexValue(digits))
  }

  function ParseHex(s: string): Option<u64> {
    var t := TrimPrefix(TrimPrefix(Trim(s), "0x"), "0X");
    if t == "" then None else FromRadix16(t)
  }

  /** What `0x%llx` prints reads back as the number. */
  lemma PrintedHexParses(v: u64)
    ensures ParseHex("0x" + HexDigits(v)) == Some(v)
    ensures forall c :: c in "0x" + HexDigits(v) ==> !White(c) && ' ' < c < 128 as char
  {
    hide AllHex, HexValue, HexDigits, Trim, TrimPrefix;
    var d := HexDigits(v);
    HexDigitsRoundTrip(v);
    var s := "0x" + d;
    assert s[0] in s && s[|s| - 1] in d;
    CleanEnds(s);
    assert s[2..] == d && "0x" <= s;
    assert forall i :: 0 <= i < |d| ==> d[i] in d;
    TrimmedOnce(d);
    NoPlus(d);
  }

  lemma TrimmedOnce(d: string)
    requires 'x' !in d && 'X' !in d
    ensures TrimPrefix("0x" + d, "0x") == d && TrimPrefix(d, "0X") == d
  {
    var s := "0x" + d;
    NotPrefixed(d, 'x');
    NotPrefixed(d, 'X');
    assert "0x" == ['0', 'x'] && "0X" == ['0', 'X'];
    assert s[2..] == d && "0x" <= s;
  }

  lemma NotPrefixed(d: string, c: char)
    requires c !in d
    ensures !(['0', c] <= d) && TrimPrefix(d, ['0', c]) == d
  {
    assert |d| > 1 ==> d[1] in d;
  }

  lemma NoPlus(d: string)
    requires AllHex(d) && d != ""
    ensures d[0] != '+'
  {
    assert d[0] in d;
  }

  // ----- exactly what the parser reads -----

  function Copies(p: string, k: nat): (s: string)
    ensures |s| == k * |p|
  {
    if k == 0 then "" else MulStep(k, |p|); p + Copies(p, k - 1)
  }

  lemma MulStep(k: nat, n: nat)
    requires k > 0
    ensures k * n == n + (k - 1) * n
  {
  }

  lemma {:induction false} TrimPrefixIs(p: string, k: nat, r: string)
    requires p != "" && !(p <= r)
    ensures TrimPrefix(Copies(p, k) + r, p) == r
  {
    if k == 0 {
      assert Copies(p, k) + r == r;
    } else {
      var s := Copies(p, k) + r;
      assert s[|p|..] == Copies(p, k - 1) + r && p <= s;
      TrimPrefixIs(p, k - 1, r);
    }
  }

  lemma {:induction false} TrimmedPrefix(s: string, p: string) returns (k: nat)
    requires p != ""
    ensures s == Copies(p, k) + TrimPrefix(s, p)
    decreases |s|
  {
    if p <= s {
      var rest := TrimmedPrefix(s[|p|..], p);
      k := rest + 1;
      assert s == p + s[|p|..];
      Assoc(p, Copies(p, rest), TrimPrefix(s, p));
    } else {
      k := 0;
      assert Copies(p, k) + s == s;
    }
  }

  /** Any number of "0x", then of "0X", a plus sign at will, and hexadecimal digits. */
  predicate Numeral(s: string, m: nat, n: nat, plus: string, d: string) {
    && s == Copies("0x", m) + (Copies("0X", n) + (plus + d))
    && (plus == "" || plus == "+") && d != "" && AllHex(d)
  }

  /** A numeral reads as the value of its digits, if that fits in 64 bits. */
  lemma NumeralParses(s: string, m: nat, n: nat, plus: string, d: string)
    requires Numeral(s, m, n, plus, d)
    ensures ParseHex(s) == if HexValue(d) < TWO_64 then Some(HexValue(d)) else None
  {
    hide AllHex, HexValue, Trim, TrimPrefix, FromRadix16, Copies, White;
    var t := plus + d;
    HexIsNotWhite(d);
    NotPrefix(plus, d);
    SecondPrefix(n, t);
    assert t[0] == if plus == "" then d[0] else '+';
    NumeralHasNoEnds(s, m, n, t);
    TrimPrefixIs("0x", m, Copies("0X", n) + t);
    TrimPrefixIs("0X", n, t);
    PlusIsTaken(plus, d);
  }

  lemma SecondPrefix(n: nat, t: string)
    requires !("0x" <= t)
    ensures !("0x" <= Copies("0X", n) + t)
  {
    var u := Copies("0X", n) + t;
    if n > 0 { assert u[1] == 'X'; } else { assert u == t; }
  }

  lemma PlusIsTaken(plus: string, d: string)
    requires (plus == "" || plus == "+") && d != "" && AllHex(d)
    ensures FromRadix16(plus + d) == if HexValue(d) < TWO_64 then Some(HexValue(d)) else None
  {
    hide AllHex, HexValue;
    HexIsNotWhite(d);
    var t := plus + d;
    if plus == "+" { assert t[1..] == d; } else { assert t == d; }
  }

  lemma NotPrefix(plus: string, d: string)
    requires (plus == "" || plus == "+") && d != "" && AllHex(d)
    ensures !("0x" <= plus + d) && !("0X" <= plus + d)
  {
    assert HexDigit('x') < 0 && HexDigit('X') < 0;
    NotPrefixed(plus + d, 'x');
    NotPrefixed(plus + d, 'X');
    assert "0x" == ['0', 'x'] && "0X" == ['0', 'X'];
  }

  lemma HexIsNotWhite(d: string)
    requires AllHex(d) && d != ""
    ensures d[0] != '+' && !White(d[0]) && !White(d[|d| - 1])
  {
    assert d[0] in d && d[|d| - 1] in d;
  }

  lemma NumeralHasNoEnds(s: string, m: nat, n: nat, t: string)
    requires s == Copies("0x", m) + (Copies("0X", n) + t) && t != ""
    requires t[0] == '+' || !White(t[0])
    requires !White(t[|t| - 1])
    ensures Trim(s) == s
  {
    assert s[|s| - 1] == t[|t| - 1];
    FrontOf("0X", n, t);
    FrontOf("0x", m, Copies("0X", n) + t);
    CleanEnds(s);
  }

  lemma FrontOf(p: string, k: nat, r: string)
    requires p != "" && r != ""
    ensures (Copies(p, k) + r)[0] == if k > 0 then p[0] else r[0]
  {
  }

  /** Only numerals read as numbers, white space around them aside. */
  lemma OnlyNumeralsParse(s: string)
    requires ParseHex(s).Some?
    ensures exists m, n, plus, d :: Numeral(Trim(s), m, n, plus, d)
  {
    hide AllHex, HexValue, Trim, TrimPrefix, Copies;
    var s0 := Trim(s);
    var s1 := TrimPrefix(s0, "0x");
    var t := TrimPrefix(s1, "0X");
    var m := TrimmedPrefix(s0, "0x");
    var n := TrimmedPrefix(s1, "0X");
    if |t| > 1 && t[0] == '+' {
      assert t == "+" + t[1..];
      assert Numeral(s0, m, n, "+", t[1..]);
    } else {
      assert t == "" + t;
      assert Numeral(s0, m, n, "", t);
    }
  }
}
