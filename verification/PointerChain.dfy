/** lxgr_dump.c: resolving a pointer chain such as "B>10>8" by repeated reads. */
module PointerChain {
  import opened Words
  import opened Process
  import opened HexText

  const BUFFER: int := 256

  // ----- strtok_r(.., ">", ..) -----

  function TokenEnd(s: string): (n: nat)
    ensures n <= |s| && '>' !in s[..n] && (n < |s| ==> s[n] == '>')
  {
    if s == "" || s[0] == '>' then 0
    else
      var n := TokenEnd(s[1..]);
      assert s[..1 + n] == [s[0]] + s[1..][..n];
      1 + n
  }

  /** One call: the next token, if any, and what the save pointer is left at. */
  function StrTok(s: string): (r: (Option<string>, string))
    ensures r.0.Some? ==> r.0.value != "" && |r.1| < |s|
    ensures r.0.None? ==> r.1 == ""
  {
    if s == "" then (None, "")
    else if s[0] == '>' then StrTok(s[1..])
    else
      var n := TokenEnd(s);
      (Some(s[..n]), if n < |s| then s[n + 1..] else "")
  }

  function Tokens(s: string): seq<string>
    decreases |s|
  {
    var (tok, rest) := StrTok(s);
    if tok.None? then [] else [tok.value] + Tokens(rest)
  }

  /** A token in hand and those still in the buffer. */
  function Pending(tok: Option<string>, rest: string): seq<string> {
    if tok.None? then [] else [tok.value] + Tokens(rest)
  }

  lemma TokensAre(s: string)
    ensures Tokens(s) == Pending(StrTok(s).0, StrTok(s).1)
    ensures StrTok(s).0.Some? ==> Tokens(s)[1..] == Tokens(StrTok(s).1)
  {
  }

  lemma {:induction false} TokenEndAppend(s: string, t: string)
    requires s != "" && s[0] != '>'
    ensures TokenEnd(s + ">" + t) == TokenEnd(s)
  {
    if |s| == 1 {
      assert (s + ">" + t)[1..] == ">" + t;
    } else {
      assert (s + ">" + t)[1..] == s[1..] + ">" + t;
      if s[1] != '>' { TokenEndAppend(s[1..], t); }
    }
  }

  lemma TokensSkip(s: string)
    requires s != "" && s[0] == '>'
    ensures Tokens(s) == Tokens(s[1..])
  {
    assert StrTok(s) == StrTok(s[1..]);
  }

  lemma TokensCons(s: string)
    requires s != "" && s[0] != '>'
    ensures var n := TokenEnd(s);
            Tokens(s) == [s[..n]] + Tokens(if n < |s| then s[n + 1..] else "")
  {
  }

  lemma {:induction false} TokensConcat(s: string, t: string)
    ensures Tokens(s + ">" + t) == Tokens(s) + Tokens(t)
    decreases |s|
  {
    hide StrTok, Tokens, TokenEnd;
    var whole := s + ">" + t;
    NoTokens();
    if s == "" {
      assert whole[0] == '>' && whole[1..] == t;
      TokensSkip(whole);
    } else if s[0] == '>' {
      assert whole[1..] == s[1..] + ">" + t;
      TokensSkip(whole);
      TokensSkip(s);
      TokensConcat(s[1..], t);
    } else {
      var n := TokenEnd(s);
      TokenEndAppend(s, t);
      TokensCons(whole);
      TokensCons(s);
      assert whole[..n] == s[..n];
      if n < |s| {
        assert whole[n + 1..] == s[n + 1..] + ">" + t;
        TokensConcat(s[n + 1..], t);
      } else {
        assert whole[n + 1..] == t;
      }
    }
  }

  // ----- strtoull(.., 16) as parse_hex uses it -----

  predicate Space(c: char) { c in " \t\n\r" || c == 11 as char || c == 12 as char }

  /** `isspace` in the C locale. */
  lemma SpaceIs(c: char)
    ensures Space(c) <==> 9 <= c as int <= 13 || c as int == 32
  {
    var spaces := " \t\n\r";
    assert spaces[0] as int == 32 && spaces[1] as int == 9 && spaces[2] as int == 10 && spaces[3] as int == 13;
  }

  function SkipSpace(s: string): string {
    if s != "" && Space(s[0]) then SkipSpace(s[1..]) else s
  }

  /** The digits behind space and sign: a 0x prefix counts only before a digit. */
  function Digits(u: string): string {
    if |u| > 2 && u[0] == '0' && u[1] in "xX" && HexDigit(u[2]) >= 0 then u[2..] else u
  }

  /** Leading space, one sign and a 0x prefix are allowed, a negative number wraps, and an
      overflow or a stray character is refused. */
  function ParseHex(s: string): Option<u64> {
    var t := SkipSpace(s);
    var signed := t != "" && (t[0] == '+' || t[0] == '-');
    var u := if signed then t[1..] else t;
    var digits := Digits(u);
    if digits == "" || !AllHex(digits) || HexValue(digits) >= TWO_64 then None
    else Some(if signed && t[0] == '-' then Wrap64(0 - HexValue(digits) as int) else HexValue(digits))
  }

  /** White space, one sign at will, one prefix at will, and hexadecimal digits. */
  predicate Numeral(s: string, w: string, sign: string, prefix: string, d: string) {
    && s == w + (sign + (prefix + d)) && (forall i :: 0 <= i < |w| ==> Space(w[i]))
    && sign in {"", "+", "-"} && prefix in {"", "0x", "0X"} && d != "" && AllHex(d)
  }

  /** A numeral reads as the value of its digits, negated in 64 bits behind a minus; more than
      64 bits are refused. */
  lemma NumeralParses(s: string, w: string, sign: string, prefix: string, d: string)
    requires Numeral(s, w, sign, prefix, d)
    ensures ParseHex(s) ==
            if HexValue(d) >= TWO_64 then None
            else if sign == "-" && HexValue(d) > 0 then Some(TWO_64 - HexValue(d))
            else Some(HexValue(d))
  {
    hide AllHex, HexValue, Space, SkipSpace;
    var u := prefix + d;
    var t := sign + u;
    FirstDigits(d);
    SignIsNotSpace();
    assert u[0] == if prefix == "" then d[0] else '0';
    assert t[0] == if sign == "" then u[0] else sign[0];
    SkipSpaceIs(w, t);
    if sign == "" { assert t == u; } else { assert t[1..] == u; }
    PrefixIsTaken(prefix, d);
  }

  lemma PrefixIsTaken(prefix: string, d: string)
    requires prefix in {"", "0x", "0X"} && d != "" && AllHex(d)
    ensures Digits(prefix + d) == d
  {
    hide AllHex;
    FirstDigits(d);
    var u := prefix + d;
    if prefix == "" { assert u == d; } else { assert u[2..] == d && u[1] == prefix[1] && u[2] == d[0]; }
  }

  lemma SignIsNotSpace()
    ensures !Space('+') && !Space('-')
  {
  }

  lemma FirstDigits(d: string)
    requires d != "" && AllHex(d)
    ensures HexDigit(d[0]) >= 0 && d[0] != '+' && d[0] != '-' && !Space(d[0]) && !Space('0')
    ensures |d| > 1 ==> d[1] !in "xX"
  {
    assert d[0] in d;
    if |d| > 1 { assert d[1] in d; }
  }

  lemma {:induction false} SkipSpaceIs(w: string, t: string)
    requires (forall i :: 0 <= i < |w| ==> Space(w[i])) && (t == "" || !Space(t[0]))
    ensures SkipSpace(w + t) == t
  {
    hide Space;
    if w == "" {
      assert w + t == t;
    } else {
      assert (w + t)[1..] == w[1..] + t;
      SkipSpaceIs(w[1..], t);
    }
  }

  lemma {:induction false} SkippedSpace(s: string) returns (w: string)
    ensures s == w + SkipSpace(s) && forall i :: 0 <= i < |w| ==> Space(w[i])
  {
    hide Space;
    if s != "" && Space(s[0]) {
      var rest := SkippedSpace(s[1..]);
      w := [s[0]] + rest;
    } else {
      w := "";
    }
  }

  /** Nothing else is a number. */
  lemma OnlyNumeralsParse(s: string)
    requires ParseHex(s).Some?
    ensures exists w, sign, prefix, d :: Numeral(s, w, sign, prefix, d)
  {
    hide AllHex, HexValue, Space, SkipSpace, Digits;
    var w := SkippedSpace(s);
    var t := SkipSpace(s);
    var signed := t != "" && (t[0] == '+' || t[0] == '-');
    var u := if signed then t[1..] else t;
    var sign := if signed then t[..1] else "";
    assert t == sign + u;
    assert signed ==> sign == "+" || sign == "-";
    var prefix := TakenPrefix(u);
    assert Numeral(s, w, sign, prefix, Digits(u));
  }

  lemma TakenPrefix(u: string) returns (prefix: string)
    ensures u == prefix + Digits(u) && prefix in {"", "0x", "0X"}
  {
    prefix := if Digits(u) == u then "" else u[..2];
    assert Digits(u) != u ==> prefix == "0x" || prefix == "0X";
  }

  // ----- the chain -----

  /** Every token after the first is added to the pointer and dereferenced. */
  function Deref(mem: Memory, cur: u64, toks: seq<string>, q: Script): (u64, Script)
    decreases |toks|
  {
    if toks == [] then (cur, q)
    else
      match ParseHex(toks[0])
      case None => (0, q)
      case Some(off) =>
        if cur == 0 then (0, q)
        else
          var va := Wrap64(cur + off);
          var (r, q1) := ReadRun(mem, va, 8, q);
          if r != 8 then (0, q1) else Deref(mem, Pointer(mem, va), toks[1..], q1)
  }

  function Pointer(mem: Memory, va: int): u64 {
    var s := Bytes(mem, va, 8);
    PointerBound(s);
    FromLittleEndian(s)
  }

  lemma PointerBound(s: seq<byte>)
    requires |s| == 8
    ensures FromLittleEndian(s) < TWO_64
  {
    DecodeBound(s);
    Pow2Width64();
  }

  function Start(base: u64, tok: string): Option<u64> {
    if tok == "B" || tok == "b" then Some(base) else ParseHex(tok)
  }

  /** `lxgr_resolve_chain`: the address, or 0 for every kind of failure. */
  function Resolve(mem: Memory, base: u64, spec: string, q: Script): (u64, Script) {
    var toks := Tokens(spec);
    if |spec| >= BUFFER || toks == [] then (0, q)
    else
      match Start(base, toks[0])
      case None => (0, q)
      case Some(cur) => Deref(mem, cur, toks[1..], q)
  }

  method ResolveChain(k: Kernel, base: u64, spec: Option<string>) returns (cur: u64)
    modifies k
    ensures spec.None? ==> cur == 0 && k.replies == old(k.replies)
    ensures spec.Some? ==> (cur, k.replies) == Resolve(k.mem, base, spec.value, old(k.replies))
  {
    hide ReadRun, Bytes, ParseHex, FromLittleEndian, StrTok;
    cur := 0;
    NoTokens();
    if spec.Some? { TokensAre(spec.value); }
    if spec.None? || spec.value == "" || |spec.value| >= BUFFER { return; }
    var (tok, save) := StrTok(spec.value);
    if tok.None? { return; }
    var start := Start(base, tok.value);
    if start.None? { return; }
    cur := start.value;
    var buf := new byte[8];
    TokensAre(save);
    var next := StrTok(save);
    tok, save := next.0, next.1;
    while tok.Some?
      invariant tok.Some? || tok.None?
      invariant Resolve(k.mem, base, spec.value, old(k.replies)) ==
                Deref(k.mem, cur, Pending(tok, save), k.replies)
      decreases tok.Some?, |save|
    {
      var off := ParseHex(tok.value);
      if off.None? { return 0; }
      if cur == 0 { return 0; }
      var va := Wrap64(cur + off.value);
      var r := k.Read(va, buf, 8);
      if r != 8 { return 0; }
      assert buf[..8] == Bytes(k.mem, va, 8);
      cur := Pointer(k.mem, va);
      TokensAre(save);
      assert ([tok.value] + Tokens(save))[1..] == Tokens(save);
      next := StrTok(save);
      tok, save := next.0, next.1;
    }
  }

  lemma {:induction false} DerefConcat(mem: Memory, cur: u64, a: seq<string>, b: seq<string>, q: Script)
    ensures var (v, q1) := Deref(mem, cur, a, q);
            Deref(mem, cur, a + b, q) == Deref(mem, v, b, q1)
    decreases |a|
  {
    hide ReadRun, Pointer, ParseHex;
    if a == [] {
      assert a + b == b;
    } else {
      assert (a + b)[1..] == a[1..] + b;
      var off := ParseHex(a[0]);
      if off.Some? && cur != 0 {
        var va := Wrap64(cur + off.value);
        DerefConcat(mem, Pointer(mem, va), a[1..], b, ReadRun(mem, va, 8, q).1);
      }
    }
  }

  /** Resolving "s>t" is resolving "s" and then "B>t" from the result: for every base,
      memory and kernel, and for every way either half can fail. */
  lemma ResolveIsCompositional(mem: Memory, base: u64, s: string, t: string, q: Script)
    requires |s| + 1 + |t| < BUFFER && Tokens(s) != []
    ensures var (v, q1) := Resolve(mem, base, s, q);
            Resolve(mem, base, s + ">" + t, q) == Resolve(mem, v, "B>" + t, q1)
  {
    hide ReadRun, Pointer, ParseHex, Deref, Tokens, StrTok;
    TokensConcat(s, t);
    TokensOfB(t);
    var toks := Tokens(s);
    assert (toks + Tokens(t))[1..] == toks[1..] + Tokens(t);
    NullStops(mem, Tokens(t), q);
    match Start(base, toks[0]) {
      case None =>
      case Some(cur) => DerefConcat(mem, cur, toks[1..], Tokens(t), q);
    }
    if s == "" { NoTokens(); }
  }

  lemma NoTokens()
    ensures Tokens("") == []
  {
  }

  lemma TokensOfB(t: string)
    ensures Tokens("B>" + t) == ["B"] + Tokens(t)
  {
    TokensConcat("B", t);
    assert "B" + ">" + t == "B>" + t;
    assert TokenEnd("B") == 1;
    assert "B"[..1] == "B";
    assert StrTok("B") == (Some("B"), "");
    NoTokens();
  }

  /** A null pointer ends the chain without another read. */
  lemma NullStops(mem: Memory, toks: seq<string>, q: Script)
    ensures Deref(mem, 0, toks, q) == (0, q)
  {
  }

  /** The last offset is dereferenced like the others: a non-zero answer is a pointer read
      from memory at the address that the rest of the chain reaches plus that offset. */
  lemma LastOffsetIsDereferenced(mem: Memory, cur: u64, toks: seq<string>, last: string, q: Script)
    requires Deref(mem, cur, toks + [last], q).0 != 0
    ensures var (p, q1) := Deref(mem, cur, toks, q);
            && p != 0 && ParseHex(last).Some?
            && var va := Wrap64(p + ParseHex(last).value);
            && ReadablePrefix(mem, va, 8) == 8
            && Deref(mem, cur, toks + [last], q).0 == FromLittleEndian(Bytes(mem, va, 8))
  {
    hide ReadRun, ParseHex, Bytes, FromLittleEndian, ReadablePrefix;
    DerefConcat(mem, cur, toks, [last], q);
    var (p, q1) := Deref(mem, cur, toks, q);
    assert [last][1..] == [];
    if ParseHex(last).Some? { ReadCountsAPrefix(mem, Wrap64(p + ParseHex(last).value), 8, q1); }
  }

  /** One more offset: 0 unless the rest of the chain gives an address, the offset is a number
      and all eight bytes behind their sum can be read; then the pointer that stands there. */
  lemma OneMoreOffset(mem: Memory, cur: u64, toks: seq<string>, last: string, q: Script)
    ensures var (p, q1) := Deref(mem, cur, toks, q);
            Deref(mem, cur, toks + [last], q) ==
            if p == 0 || ParseHex(last).None? then (0, q1)
            else
              var va := Wrap64(p + ParseHex(last).value);
              var (r, q2) := ReadRun(mem, va, 8, q1);
              if r == 8 then (FromLittleEndian(Bytes(mem, va, 8)), q2) else (0, q2)
  {
    hide ReadRun, ParseHex, Bytes, FromLittleEndian;
    DerefConcat(mem, cur, toks, [last], q);
    NullStops(mem, [last], q);
    NullStops(mem, [], q);
    assert [last][1..] == [];
  }

  /** The walk that a chain stands for, over memory alone. */
  function Walk(mem: Memory, cur: u64, offsets: seq<u64>): u64
    decreases |offsets|
  {
    if offsets == [] then cur
    else
      var va := Wrap64(cur + offsets[0]);
      if cur == 0 || ReadablePrefix(mem, va, 8) < 8 then 0 else Walk(mem, Pointer(mem, va), offsets[1..])
  }

  /** "B" or "b" and the offsets, each as the tools print numbers. */
  function ChainText(b: char, offsets: seq<u64>): string {
    if offsets == [] then [b]
    else ChainText(b, offsets[..|offsets| - 1]) + ">" + ("0x" + HexDigits(offsets[|offsets| - 1]))
  }

  function PrintedOffsets(offsets: seq<u64>): (toks: seq<string>)
    ensures |toks| == |offsets|
  {
    seq(|offsets|, i requires 0 <= i < |offsets| => "0x" + HexDigits(offsets[i]))
  }

  lemma {:induction false} ChainTokens(b: char, offsets: seq<u64>)
    requires b != '>'
    ensures Tokens(ChainText(b, offsets)) == [[b]] + PrintedOffsets(offsets)
    decreases |offsets|
  {
    hide HexDigits, Tokens;
    if offsets == [] {
      WholeToken([b]);
      assert PrintedOffsets(offsets) == [];
    } else {
      var n := |offsets| - 1;
      var last := "0x" + HexDigits(offsets[n]);
      ChainTokens(b, offsets[..n]);
      TokensConcat(ChainText(b, offsets[..n]), last);
      PrintedIsToken(offsets[n]);
      WholeToken(last);
      assert PrintedOffsets(offsets) == PrintedOffsets(offsets[..n]) + [last];
    }
  }

  lemma {:induction false} DerefWalks(mem: Memory, cur: u64, offsets: seq<u64>, q: Script)
    requires Generous(q, 8) && |q| >= 4 * |offsets|
    ensures Deref(mem, cur, PrintedOffsets(offsets), q).0 == Walk(mem, cur, offsets)
    decreases |offsets|
  {
    hide ReadRun, Pointer, ParseHex, HexDigits, Generous, ReadablePrefix;
    if offsets != [] {
      PrintedAddressParses(offsets[0]);
      assert PrintedOffsets(offsets)[1..] == PrintedOffsets(offsets[1..]);
      if cur != 0 {
        var va := Wrap64(cur + offsets[0]);
        GenerousRead(mem, va, 8, q, 8);
        if ReadRun(mem, va, 8, q).0 == 8 {
          DerefWalks(mem, Pointer(mem, va), offsets[1..], ReadRun(mem, va, 8, q).1);
        }
      }
    }
  }

  /** What a chain is for: from the base, with either case of the letter, under a kernel that
      delivers what it can, the text resolves to the walk over process memory. */
  lemma ChainWalks(mem: Memory, base: u64, b: char, offsets: seq<u64>, q: Script)
    requires (b == 'B' || b == 'b') && |ChainText(b, offsets)| < 256
    requires Generous(q, 8) && |q| >= 4 * |offsets|
    ensures Resolve(mem, base, ChainText(b, offsets), q).0 == Walk(mem, base, offsets)
  {
    hide Deref, Walk, Tokens, ChainText, PrintedOffsets, Generous, ParseHex;
    ChainTokens(b, offsets);
    var toks := Tokens(ChainText(b, offsets));
    assert toks == [[b]] + PrintedOffsets(offsets) && toks[0] == [b] && toks[1..] == PrintedOffsets(offsets);
    assert [b] == "B" || [b] == "b";
    DerefWalks(mem, base, offsets, q);
  }

  /** A text of 256 characters or more does not fit the buffer and is refused unread, as is
      one without a token. */
  lemma RefusedUnread(mem: Memory, base: u64, spec: string, q: Script)
    requires |spec| >= 256 || forall c :: c in spec ==> c == '>'
    ensures Resolve(mem, base, spec, q) == (0, q)
  {
    if forall c :: c in spec ==> c == '>' { OnlySeparators(spec); }
  }

  lemma {:induction false} OnlySeparators(s: string)
    requires forall c :: c in s ==> c == '>'
    ensures Tokens(s) == []
  {
    if s != "" {
      assert s[0] in s;
      TokensSkip(s);
      assert forall c :: c in s[1..] ==> c in s;
      OnlySeparators(s[1..]);
    }
  }

  /** The documented form "B+0x10>..." is refused, with either case of the letter: a 'B'
      followed by '+' is neither the base nor a number. */
  lemma BasePlusOffsetRefused(mem: Memory, base: u64, b: char, rest: string, q: Script)
    requires b == 'B' || b == 'b'
    ensures Resolve(mem, base, [b] + "+" + rest, q) == (0, q)
  {
    var spec := [b] + "+" + rest;
    var n := TokenEnd(spec);
    assert spec[1..][0] == '+';
    assert n >= 2 && spec[..n][0] == b && spec[..n][1] == '+';
    PlusIsNotHex(spec[..n]);
    TokensAre(spec);
    hide StrTok, Tokens, ParseHex, TokenEnd;
  }

  lemma PlusIsNotHex(tok: string)
    requires |tok| >= 2 && (tok[0] == 'B' || tok[0] == 'b') && tok[1] == '+'
    ensures ParseHex(tok) == None && tok != "B" && tok != "b"
  {
    assert '+' in tok && HexDigit('+') < 0;
    assert SkipSpace(tok) == tok;
  }

  /** An address as the tools print it, with or without the prefix, reads back as itself. */
  lemma PrintedAddressParses(v: u64)
    ensures ParseHex(HexDigits(v)) == Some(v) && ParseHex("0x" + HexDigits(v)) == Some(v)
  {
    HexDigitsRoundTrip(v);
    PlainDigitsParse(HexDigits(v));
    PrefixedDigitsParse(HexDigits(v));
  }

  lemma PlainDigitsParse(d: string)
    requires d != "" && AllHex(d) && HexValue(d) < TWO_64 && 'x' !in d && 'X' !in d
    ensures ParseHex(d) == Some(HexValue(d))
  {
    hide HexValue;
    assert d[0] in d && (|d| > 1 ==> d[1] in d);
    assert HexDigit('+') < 0 && HexDigit('-') < 0;
    assert SkipSpace(d) == d;
  }

  lemma PrefixedDigitsParse(d: string)
    requires d != "" && AllHex(d) && HexValue(d) < TWO_64
    ensures ParseHex("0x" + d) == Some(HexValue(d))
  {
    hide HexValue, AllHex;
    var s := "0x" + d;
    assert s[2..] == d && s[0] == '0' && s[1] == 'x' && s[2] == d[0];
    assert HexDigit(d[0]) >= 0 by { FirstIsHex(d); }
    assert SkipSpace(s) == s;
  }

  lemma FirstIsHex(d: string)
    requires d != "" && AllHex(d)
    ensures HexDigit(d[0]) >= 0
  {
    assert d[0] in d;
  }

  /** A lone literal address resolves to itself, without touching the process. */
  lemma LiteralResolves(mem: Memory, base: u64, v: u64, q: Script)
    ensures Resolve(mem, base, "0x" + HexDigits(v), q) == (v, q)
  {
    hide HexDigits, ParseHex, HexValue, AllHex, Tokens, Deref;
    PrintedAddressParses(v);
    Pow2Width64();
    HexDigitsLength(v, 16);
    var s := "0x" + HexDigits(v);
    PrintedIsToken(v);
    WholeToken(s);
    NoOffsets(mem, v, q);
    var toks := [s];
    assert s[0] == '0' && toks[1..] == [];
  }

  lemma PrintedIsToken(v: u64)
    ensures '>' !in "0x" + HexDigits(v)
  {
    hide HexDigits, HexValue;
    HexDigitsRoundTrip(v);
    assert HexDigit('>') < 0;
  }

  lemma NoOffsets(mem: Memory, cur: u64, q: Script)
    ensures Deref(mem, cur, [], q) == (cur, q)
  {
  }

  lemma WholeToken(s: string)
    requires s != "" && '>' !in s
    ensures Tokens(s) == [s]
  {
    assert s[0] in s;
    var n := TokenEnd(s);
    assert forall i :: 0 <= i < |s| ==> s[i] in s;
    TokensCons(s);
    assert s[..|s|] == s;
    NoTokens();
  }
}
