/** The physical page map: `lxgr_pamap_range` prints it, pamap.rs loads and searches it. */
module PhysMap {
  import opened Words
  import opened HexText
  import opened Utf8Text
  import opened Sorting
  import opened Pagemap

  const NEWLINE: byte := 10

  // ----- printing (lxgr_dump.c) -----

  /** The pages that a range touches; all the sums are 64-bit. */
  function RangePages(ps: PageSize, va: u64, size: u64): seq<nat> {
    Range(va / 4096, Wrap64(Wrap64(va + size) + ps - 1) / 4096)
  }

  /** On any page size: the 4 KiB units from that of the first byte to the last one that
      starts before the end, rounded up to a page. */
  lemma RangePagesOf(ps: PageSize, va: u64, size: u64, i: nat)
    ensures i in RangePages(ps, va, size) <==>
            va / 4096 <= i && (i + 1) * 4096 <= Wrap64(va + size + ps - 1)
  {
    hide Range;
    var end := Wrap64(Wrap64(va + size) + ps - 1);
    WrapSum(va + size, ps - 1);
    RangeIff(va / 4096, end / 4096, i);
    UnitBelow(i, end);
    hide Wrap64;
  }

  lemma UnitBelow(i: nat, end: nat)
    ensures i < end / 4096 <==> (i + 1) * 4096 <= end
  {
  }

  lemma WrapSum(a: int, b: int)
    ensures Wrap64(Wrap64(a) + b) == Wrap64(a + b)
  {
  }

  /** Page `i` has a byte of one of the ranges. A range ends at the 64-bit sum of its start
      and size, and one that ends in the last page of the address space has no pages. */
  predicate Touched(ranges: seq<AddressRange>, i: nat) {
    exists r :: r in ranges && Touches(r, i)
  }

  predicate Touches(r: AddressRange, i: nat) {
    var end := Wrap64(r.0 + r.1);
    end + 4095 < TWO_64 && r.0 / 4096 <= i && i * 4096 < end
  }

  lemma RangePagesIff(r: AddressRange, i: nat)
    ensures i in RangePages(PAGE, r.0, r.1) <==> Touches(r, i)
  {
    hide Range;
    var end := Wrap64(r.0 + r.1);
    RangeIff(r.0 / 4096, Wrap64(end + 4095) / 4096, i);
    if end + 4095 >= TWO_64 { assert Wrap64(end + 4095) / 4096 == 0; }
  }

  /** Which pages are printed: exactly those with a byte of some range. */
  lemma {:induction false} AllPagesIff(ranges: seq<AddressRange>, i: nat)
    ensures i in AllPages(PAGE, ranges) <==> Touched(ranges, i)
  {
    hide RangePages, Touches;
    if ranges != [] {
      assert ranges == [ranges[0]] + ranges[1..];
      RangePagesIff(ranges[0], i);
      AllPagesIff(ranges[1..], i);
    }
  }

  /** Every address of a range that stays below the last page lies in a page it touches, and
      a page that is touched has such an address. */
  lemma TouchedByAddress(r: AddressRange, i: nat)
    requires r.0 + r.1 + 4095 < TWO_64 && r.1 > 0
    ensures Touches(r, i) <==> exists va :: r.0 <= va < r.0 + r.1 && va / 4096 == i
  {
    if Touches(r, i) {
      var va := if r.0 / 4096 == i then r.0 else i * 4096;
      assert va / 4096 == i;
    }
    forall va | r.0 <= va < r.0 + r.1 && va / 4096 == i ensures Touches(r, i) { }
  }

  function Frame(ps: PageSize, pm: Entries, i: nat): nat
    requires i in pm
  {
    Compose(Pfn(pm[i]), i * 4096 % ps)
  }

  /** What is printed for a 4 KiB unit: the query's answer for it, if the unit's entry were the
      entry of its page. (On 4 KiB pages it is.) */
  lemma FrameIsQueryOfUnit(k: nat, pm: Entries, i: nat)
    requires 0 < k && PAGE * k < TWO_63 && i in pm && Present(pm[i]) && i * 4096 < TWO_64
    ensures Frame(PAGE * k, pm, i) == VaToPa(PAGE * k, Some(map[i / k := pm[i]]), i * 4096)
  {
    hide Compose;
    UnitOfPage(k, i);
  }

  lemma UnitOfPage(k: nat, i: nat)
    requires 0 < k
    ensures i * 4096 / (PAGE * k) == i / k
  {
    var q, r := i / k, i % k;
    assert i == q * k + r;
    var ps := PAGE * k;
    assert i * 4096 == q * ps + r * 4096;
    MulMonotone(r + 1, k, 4096);
    QuotientIs(i * 4096, ps, q, r * 4096);
  }

  lemma QuotientIs(x: nat, d: nat, q: nat, r: nat)
    requires x == q * d + r && r < d
    ensures x / d == q
  {
    var p := x / d;
    assert x == p * d + x % d;
    if p > q { MulMonotone(q + 1, p, d); }
    if p < q { MulMonotone(p + 1, q, d); }
  }

  function LineText(ps: PageSize, pm: Entries, i: nat): string
    requires i in pm
  {
    if Present(pm[i]) then "0x" + HexDigits(i * 4096) + " " + "0x" + HexDigits(Frame(ps, pm, i))
    else "0x" + HexDigits(i * 4096) + " -"
  }

  predicate Clean(s: string) { forall c :: c in s ==> ' ' <= c < 128 as char }

  lemma CleanConcat(a: string, b: string)
    requires Clean(a) && Clean(b)
    ensures Clean(a + b)
  {
  }

  lemma LineIsClean(ps: PageSize, pm: Entries, i: nat)
    requires i in pm
    ensures Clean(LineText(ps, pm, i)) && IsAscii(LineText(ps, pm, i))
  {
    var a := "0x" + HexDigits(i * 4096);
    HexDigitsRoundTrip(i * 4096);
    if Present(pm[i]) { HexDigitsRoundTrip(Frame(ps, pm, i)); }
    hide HexDigits, Compose;
    CleanConcat("0x", HexDigits(i * 4096));
    if Present(pm[i]) {
      CleanConcat("0x", HexDigits(Frame(ps, pm, i)));
      CleanConcat(a, " ");
      CleanConcat(a + " ", "0x" + HexDigits(Frame(ps, pm, i)));
      Assoc(a + " ", "0x", HexDigits(Frame(ps, pm, i)));
    } else {
      CleanConcat(a, " -");
    }
  }

  /** One page: a line if its entry could be read, else nothing. */
  function PageLine(ps: PageSize, pm: Entries, i: nat): seq<byte> {
    if i !in pm then []
    else
      LineIsClean(ps, pm, i);
      Ascii(LineText(ps, pm, i)) + [NEWLINE]
  }

  function Print(ps: PageSize, pm: Entries, pages: seq<nat>): seq<byte> {
    if pages == [] then [] else PageLine(ps, pm, pages[0]) + Print(ps, pm, pages[1..])
  }

  lemma {:induction false} PrintConcat(ps: PageSize, pm: Entries, a: seq<nat>, b: seq<nat>)
    ensures Print(ps, pm, a + b) == Print(ps, pm, a) + Print(ps, pm, b)
  {
    hide PageLine;
    if a == [] {
      assert a + b == b;
    } else {
      assert (a + b)[1..] == a[1..] + b;
      PrintConcat(ps, pm, a[1..], b);
    }
  }

  const HEADER: string := "# VA PA"

  function HeaderLine(): seq<byte> {
    Ascii(HEADER) + [NEWLINE]
  }

  type AddressRange = (u64, u64)

  /** The text of a printed line, of either kind. */
  lemma LinesAsPrinted()
    ensures LineText(PAGE, map[1 := TWO_63 + 0xab], 1) == "0x1000 0xab000"
    ensures LineText(PAGE, map[1 := 0xab], 1) == "0x1000 -"
    ensures |HeaderLine()| == 8 && HeaderLine()[..7] == Ascii("# VA PA") && HeaderLine()[7] == 10
  {
    hide Or, HexDigits;
    OrRightZero(0xab000);
    assert Frame(PAGE, map[1 := TWO_63 + 0xab], 1) == 0xab000;
    OneDigit(0x1);
    OneDigit(0xa);
    ThreeZeros(0x1, "1");
    HexDigitsStep(0xa, 0xb);
    ThreeZeros(0xab, "ab");
  }

  lemma ThreeZeros(v: nat, text: string)
    requires v > 0 && HexDigits(v) == text
    ensures HexDigits(v * 4096) == text + "000"
  {
    hide HexDigits;
    HexDigitsStep(v, 0);
    HexDigitsStep(v * 16, 0);
    HexDigitsStep(v * 256, 0);
  }

  function AllPages(ps: PageSize, ranges: seq<AddressRange>): seq<nat> {
    if ranges == [] then [] else RangePages(ps, ranges[0].0, ranges[0].1) + AllPages(ps, ranges[1..])
  }

  /** The whole file that the dumper writes; without a pagemap it is the header alone. */
  function MapFile(ps: PageSize, pm: Option<Entries>, ranges: seq<AddressRange>): seq<byte> {
    HeaderLine() + if pm.None? then [] else Print(ps, pm.value, AllPages(ps, ranges))
  }

  class TextFile {
    var text: seq<byte>

    constructor ()
      ensures text == []
    {
      text := [];
    }

    method PamapRange(ps: PageSize, pm: Option<Entries>, va: u64, size: u64) returns (r: int)
      modifies this
      ensures r == (if pm.None? then -1 else 0)
      ensures text == old(text) + if pm.None? then [] else Print(ps, pm.value, RangePages(ps, va, size))
    {
      if pm.None? { return -1; }
      var end := Wrap64(va + size);
      var i, epg := va / 4096, Wrap64(end + ps - 1) / 4096;
      ghost var all, start := RangePages(ps, va, size), text;
      ghost var k := 0;
      while i < epg
        invariant 0 <= k <= |all| && i == va / 4096 + k && (i < epg <==> k < |all|)
        invariant text == start + Print(ps, pm.value, all[..k])
      {
        hide PageLine, Print;
        assert all[..k + 1] == all[..k] + [all[k]] && all[k] == i;
        PrintConcat(ps, pm.value, all[..k], [i]);
        PrintOne(ps, pm.value, i);
        Assoc(start, Print(ps, pm.value, all[..k]), PageLine(ps, pm.value, i));
        text := text + PageLine(ps, pm.value, i);
        i, k := i + 1, k + 1;
      }
      assert all[..k] == all;
      r := 0;
    }

    /** The page-map part of `dump_lib`: the header, then every segment's range. */
    method WriteMap(ps: PageSize, pm: Option<Entries>, ranges: seq<AddressRange>)
      modifies this
      ensures text == MapFile(ps, pm, ranges)
    {
      text := HeaderLine();
      assert ranges[..0] == [] && HeaderLine() + [] == HeaderLine();
      MapFileEmpty(ps, pm);
      for k := 0 to |ranges|
        invariant text == MapFile(ps, pm, ranges[..k])
      {
        hide Print, PageLine, MapFile, RangePages, HeaderLine;
        assert ranges[..k + 1] == ranges[..k] + [ranges[k]];
        MapFileSnoc(ps, pm, ranges[..k], ranges[k]);
        var r := PamapRange(ps, pm, ranges[k].0, ranges[k].1);
      }
      assert ranges[..|ranges|] == ranges;
    }
  }

  lemma MapFileEmpty(ps: PageSize, pm: Option<Entries>)
    ensures MapFile(ps, pm, []) == HeaderLine()
  {
    if pm.Some? { assert Print(ps, pm.value, []) == [] && AllPages(ps, []) == []; }
    assert HeaderLine() + [] == HeaderLine();
  }

  lemma MapFileSnoc(ps: PageSize, pm: Option<Entries>, ranges: seq<AddressRange>, r: AddressRange)
    ensures MapFile(ps, pm, ranges + [r]) ==
            MapFile(ps, pm, ranges) + if pm.None? then [] else Print(ps, pm.value, RangePages(ps, r.0, r.1))
  {
    hide Print, PageLine, RangePages, HeaderLine;
    if pm.Some? {
      AllPagesSnoc(ps, ranges, r);
      PrintConcat(ps, pm.value, AllPages(ps, ranges), RangePages(ps, r.0, r.1));
      Assoc(HeaderLine(), Print(ps, pm.value, AllPages(ps, ranges)), Print(ps, pm.value, RangePages(ps, r.0, r.1)));
    } else {
      assert MapFile(ps, pm, ranges) + [] == MapFile(ps, pm, ranges);
    }
  }

  lemma PrintOne(ps: PageSize, pm: Entries, i: nat)
    ensures Print(ps, pm, [i]) == PageLine(ps, pm, i)
  {
    assert Print(ps, pm, [i]) == PageLine(ps, pm, i) + Print(ps, pm, []);
  }

  lemma {:induction false} AllPagesSnoc(ps: PageSize, ranges: seq<AddressRange>, r: AddressRange)
    ensures AllPages(ps, ranges + [r]) == AllPages(ps, ranges) + RangePages(ps, r.0, r.1)
  {
    hide RangePages;
    if ranges == [] {
      assert [r][1..] == [];
      assert AllPages(ps, []) == [];
    } else {
      assert (ranges + [r])[1..] == ranges[1..] + [r];
      AllPagesSnoc(ps, ranges[1..], r);
    }
  }

  // ----- loading (pamap.rs) -----

  /** `data.split(|&b| b == b'\n')`: always at least one piece. */
  function Split(data: seq<byte>): (lines: seq<seq<byte>>)
    ensures lines != []
  {
    if data == [] then [[]]
    else
      var rest := Split(data[1..]);
      if data[0] == NEWLINE then [[]] + rest else [[data[0]] + rest[0]] + rest[1..]
  }

  datatype LineResult = Skip | Bad | Entry(va: u64, pa: u64)

  function ReadLine(line: seq<byte>): LineResult {
    match FromUtf8(line)
    case None => Skip
    case Some(decoded) =>
      var s := Trim(decoded);
      if s == "" || s[0] == '#' then Skip
      else
        var fields := Fields(s);
        var va := if |fields| > 0 then ParseHex(fields[0]) else None;
        var pa := if |fields| > 1 then ParseHex(fields[1]) else None;
        if va.None? || pa.None? then Bad else Entry(va.value, pa.value)
  }

  /** Lines that are skipped: whatever is not UTF-8, white space alone, and every text whose
      first character that is not white is '#'. */
  lemma SkippedLines(line: seq<byte>, w: string, rest: string)
    ensures (forall s: string :: line != Encode(s)) ==> ReadLine(line) == Skip
    ensures AllWhite(w) ==> ReadLine(Encode(w)) == Skip && ReadLine(Encode(w + "#" + rest)) == Skip
  {
    hide White, Fields, Trim, FromUtf8, ParseHex, Encode;
    if FromUtf8(line).Some? { Utf8Iff(line, FromUtf8(line).value); }
    if AllWhite(w) {
      Utf8Iff(Encode(w), w);
      TrimIs(w, "", "");
      assert w + "" + "" == w;
      Utf8Iff(Encode(w + "#" + rest), w + "#" + rest);
      HashIsNotWhite();
      TrimKeepsFields(w, "#" + rest);
      assert w + "#" + rest == w + ("#" + rest);
    }
  }

  lemma HashIsNotWhite()
    ensures !White('#')
  {
  }

  /** Every other line has a first word. Alone it makes the line bad; followed by a second one
      the two are an address and a frame, or the line is bad. What follows them is ignored. */
  lemma WordLines(w: string, a: string, x: string, b: string, tail: string)
    requires AllWhite(w) && AllWhite(x) && Word(a) && a[0] != '#'
    ensures ReadLine(Encode(w + a + x)) == Bad
    ensures x != "" && Word(b) && (tail != "" ==> White(tail[0])) ==>
              ReadLine(Encode(w + a + x + b + tail)) ==
              if ParseHex(a).None? || ParseHex(b).None? then Bad else Entry(ParseHex(a).value, ParseHex(b).value)
  {
    hide White, Fields, ReadLine, ParseHex, Encode;
    OneWordIn(w, a, x);
    ReadWords(w, a, x);
    if x != "" && Word(b) && (tail != "" ==> White(tail[0])) {
      TwoWordsIn(w, a, x, b, tail);
      ReadWords(w, a, x + b + tail);
      assert w + a + (x + b + tail) == w + a + x + b + tail;
    }
  }

  /** The fields of a line that starts with a word, not with '#'. */
  lemma ReadWords(w: string, a: string, after: string)
    requires AllWhite(w) && Word(a) && a[0] != '#'
    ensures var fields := Fields(w + a + after);
            var va := if |fields| > 0 then ParseHex(fields[0]) else None;
            var pa := if |fields| > 1 then ParseHex(fields[1]) else None;
            ReadLine(Encode(w + a + after)) == if va.None? || pa.None? then Bad else Entry(va.value, pa.value)
  {
    hide White, Fields, Trim, FromUtf8, ParseHex, Encode;
    var s := w + a + after;
    Utf8Iff(Encode(s), s);
    TrimKeepsFields(w, a + after);
    assert s == w + (a + after);
  }

  lemma OneWordIn(w: string, a: string, x: string)
    requires AllWhite(w) && AllWhite(x) && Word(a)
    ensures Fields(w + a + x) == [a]
  {
    hide White, Fields;
    FieldsOf(a);
    LeadingWhite(w, a + x);
    assert w + a + x == w + (a + x);
    if x == "" {
      assert a + x == a;
    } else {
      FieldsConcat(a, x, "");
      FieldsOfNothing();
      assert a + x + "" == a + x;
    }
  }

  lemma TwoWordsIn(w: string, a: string, x: string, b: string, tail: string)
    requires AllWhite(w) && AllWhite(x) && x != "" && Word(a) && Word(b) && (tail != "" ==> White(tail[0]))
    ensures var fields := Fields(w + a + x + b + tail); |fields| >= 2 && fields[0] == a && fields[1] == b
  {
    hide White, Fields;
    FieldsOf(a);
    assert w + a + x + b + tail == w + (a + x + (b + tail));
    LeadingWhite(w, a + x + (b + tail));
    FieldsConcat(a, x, b + tail);
    WordFirst(b, tail);
  }

  lemma WordFirst(b: string, tail: string)
    requires Word(b) && (tail != "" ==> White(tail[0]))
    ensures Fields(b + tail) == [b] + Fields(tail)
  {
    hide White, Fields;
    forall c | c in b ensures !White(c) {
      var i :| 0 <= i < |b| && b[i] == c;
    }
    OneField(b, tail);
  }

  /** The entries of the lines in order; a bad line ends the load. */
  function ReadLines(lines: seq<seq<byte>>): Option<seq<Row>> {
    if lines == [] then Some([])
    else
      match ReadLine(lines[0])
      case Skip => ReadLines(lines[1..])
      case Bad => None
      case Entry(va, pa) => Prepend([(va, pa)], ReadLines(lines[1..]))
  }

  function Prepend(front: seq<Row>, rest: Option<seq<Row>>): Option<seq<Row>> {
    match rest case None => None case Some(rows) => Some(front + rows)
  }

  datatype Map = Map(entries: seq<Row>, base: u64)

  ghost predicate IsLoaded(m: Map, rows: seq<Row>, base: u64) {
    IsSortOf(m.entries, rows) && m.base == base
  }

  method Load(data: Option<seq<byte>>, base: u64) returns (r: Option<Map>)
    ensures base == 0 || data.None? ==> r.None?
    ensures base != 0 && data.Some? ==>
              match ReadLines(Split(data.value))
              case None => r.None?
              case Some(rows) => if rows == [] then r.None? else r.Some? && IsLoaded(r.value, rows, base)
  {
    if base == 0 || data.None? { return None; }
    var lines := Split(data.value);
    var entries: seq<Row> := [];
    assert lines[0..] == lines;
    PrependNothing(ReadLines(lines));
    for k := 0 to |lines|
      invariant ReadLines(lines) == Prepend(entries, ReadLines(lines[k..]))
    {
      hide ReadLine;
      assert lines[k..][1..] == lines[k + 1..];
      match ReadLine(lines[k]) {
        case Skip =>
        case Bad => return None;
        case Entry(va, pa) =>
          PrependTwice(entries, [(va, pa)], ReadLines(lines[k + 1..]));
          entries := entries + [(va, pa)];
      }
    }
    assert lines[|lines|..] == [] && entries + [] == entries;
    if entries == [] { return None; }
    r := Some(Map(SortByKey(entries), base));
  }

  lemma PrependNothing(rest: Option<seq<Row>>)
    ensures Prepend([], rest) == rest
  {
    if rest.Some? { assert [] + rest.value == rest.value; }
  }

  lemma PrependTwice(a: seq<Row>, b: seq<Row>, rest: Option<seq<Row>>)
    ensures Prepend(a, Prepend(b, rest)) == Prepend(a + b, rest)
  {
    if rest.Some? { Assoc(a, b, rest.value); }
  }

  /** Acceptance: a file loads exactly when no line is bad and some line is an entry, and its
      rows are those of the lines. */
  lemma {:induction false} AcceptedIff(lines: seq<seq<byte>>)
    ensures ReadLines(lines).Some? <==> forall l :: l in lines ==> ReadLine(l) != Bad
    ensures ReadLines(lines).Some? ==>
              && (ReadLines(lines).value != [] <==> exists l :: l in lines && ReadLine(l).Entry?)
              && forall va: u64, pa: u64 ::
                   (va, pa) in ReadLines(lines).value <==> exists l :: l in lines && ReadLine(l) == Entry(va, pa)
  {
    hide ReadLine;
    if lines != [] {
      AcceptedIff(lines[1..]);
      assert lines == [lines[0]] + lines[1..];
    }
  }

  // ----- searching (pamap.rs) -----

  /** `binary_search_by_key`: some position of the key, if there is one. */
  method BinarySearchByKey(entries: seq<Row>, key: nat) returns (r: Option<nat>)
    requires SortedByKey(entries)
    ensures match r
            case None => forall i :: 0 <= i < |entries| ==> entries[i].0 != key
            case Some(i) => i < |entries| && entries[i].0 == key
  {
    var lo, hi := 0, |entries|;
    while lo < hi
      invariant 0 <= lo <= hi <= |entries|
      invariant forall i :: 0 <= i < lo ==> entries[i].0 < key
      invariant forall i :: hi <= i < |entries| ==> entries[i].0 > key
    {
      var mid := (lo + hi) / 2;
      if entries[mid].0 < key {
        lo := mid + 1;
      } else if entries[mid].0 > key {
        hi := mid;
      } else {
        return Some(mid);
      }
    }
    r := None;
  }

  /** What `pa_from_rva` may answer: the frame of any entry for the page, or none. */
  ghost predicate IsPaOf(m: Map, rva: u64, r: Option<nat>) {
    var va := Wrap64(m.base + rva);
    match r
    case None => forall e :: e in m.entries ==> e.0 != va - va % 4096
    case Some(pa) => exists e :: e in m.entries && e.0 == va - va % 4096 && pa == Or(e.1, va % 4096)
  }

  method PaFromRva(m: Map, rva: u64) returns (r: Option<nat>)
    requires SortedByKey(m.entries)
    ensures IsPaOf(m, rva, r)
  {
    var va := Wrap64(m.base + rva);
    var off := va % 4096;
    var idx := BinarySearchByKey(m.entries, va - off);
    if idx.None? { return None; }
    r := Some(Or(m.entries[idx.value].1, off));
  }

  // ----- the printed map, loaded -----

  lemma {:induction false} SplitLine(line: seq<byte>, rest: seq<byte>)
    requires NEWLINE !in line
    ensures Split(line + [NEWLINE] + rest) == [line] + Split(rest)
  {
    var data := line + [NEWLINE] + rest;
    if line == [] {
      assert data[1..] == rest;
    } else {
      assert data[1..] == line[1..] + [NEWLINE] + rest;
      SplitLine(line[1..], rest);
      assert line == [line[0]] + line[1..];
      assert data[0] == line[0] && line[0] in line;
    }
  }

  /** What follows the last newline is a line as well, even if it is empty. */
  lemma {:induction false} SplitLast(line: seq<byte>)
    requires NEWLINE !in line
    ensures Split(line) == [line]
  {
    if line != [] {
      assert line[0] in line;
      SplitLast(line[1..]);
      assert line == [line[0]] + line[1..];
    }
  }

  lemma AsciiHasNoNewline(s: string)
    requires IsAscii(s) && Clean(s)
    ensures NEWLINE !in Ascii(s)
  {
    forall i | 0 <= i < |s| ensures Ascii(s)[i] != NEWLINE { assert s[i] in s; }
  }

  lemma FrameFits(ps: PageSize, pm: Entries, i: nat)
    requires i in pm
    ensures Frame(ps, pm, i) < TWO_64
  {
    hide Or;
    OrBound64(Wrap64(Pfn(pm[i]) * 4096), i * 4096 % ps);
  }

  /** Two printed words on a line read back as two numbers. */
  lemma ReadTwoWords(v: u64, w: string)
    requires w != "" && forall c :: c in w ==> !White(c) && ' ' < c < 128 as char
    ensures var s := "0x" + HexDigits(v) + " " + w;
            && IsAscii(s)
            && ReadLine(Ascii(s)) == if ParseHex(w).None? then Bad else Entry(v, ParseHex(w).value)
  {
    PrintedHexParses(v);
    hide HexDigits, ParseHex, Trim, Fields, White, FromUtf8;
    var a := "0x" + HexDigits(v);
    var s := a + " " + w;
    TwoFields(a, w);
    CleanConcat(a, " ");
    CleanConcat(a + " ", w);
    AsciiIsUtf8(s);
    assert s[0] == '0';
  }

  /** A printed line reads back as its page and frame; the "-" of an absent page is bad. */
  lemma ReadPrintedLine(ps: PageSize, pm: Entries, i: nat)
    requires i in pm && i < 0x10_0000_0000_0000
    ensures IsAscii(LineText(ps, pm, i)) && NEWLINE !in Ascii(LineText(ps, pm, i))
    ensures ReadLine(Ascii(LineText(ps, pm, i))) ==
            if Present(pm[i]) then FrameFits(ps, pm, i); Entry(i * 4096, Frame(ps, pm, i)) else Bad
  {
    LineIsClean(ps, pm, i);
    AsciiHasNoNewline(LineText(ps, pm, i));
    FrameFits(ps, pm, i);
    DashIsNotHex();
    if Present(pm[i]) { PrintedHexParses(Frame(ps, pm, i)); }
    hide HexDigits, Compose, ParseHex, White, ReadLine;
    var a := "0x" + HexDigits(i * 4096);
    if Present(pm[i]) {
      ReadTwoWords(i * 4096, "0x" + HexDigits(Frame(ps, pm, i)));
      Assoc(a + " ", "0x", HexDigits(Frame(ps, pm, i)));
    } else {
      ReadTwoWords(i * 4096, "-");
      assert a + " " + "-" == a + " -";
    }
  }

  lemma DashIsNotHex()
    ensures ParseHex("-") == None && !White('-')
  {
    assert Trim("-") == "-";
    NotPrefixed("-", 'x');
    NotPrefixed("-", 'X');
    assert "0x" == ['0', 'x'] && "0X" == ['0', 'X'];
    assert '-' in "-" && HexDigit('-') < 0;
  }

  lemma HeaderIsSkipped()
    ensures NEWLINE !in Ascii(HEADER) && ReadLine(Ascii(HEADER)) == Skip
    ensures ReadLine([]) == Skip
  {
    AsciiHasNoNewline(HEADER);
    AsciiIsUtf8(HEADER);
    assert HEADER[0] == '#';
    CleanEnds(HEADER);
    assert FromUtf8([]) == Some("") && Trim("") == "";
  }

  /** The rows of the pages that print as present. */
  function PageRows(ps: PageSize, pm: Entries, pages: seq<nat>): seq<Row> {
    if pages == [] then []
    else if pages[0] in pm then [(pages[0] * 4096, Frame(ps, pm, pages[0]))] + PageRows(ps, pm, pages[1..])
    else PageRows(ps, pm, pages[1..])
  }

  predicate PagesFit52(pages: seq<nat>) { forall i :: i in pages ==> i < 0x10_0000_0000_0000 }

  predicate NoAbsent(pm: Entries, pages: seq<nat>) {
    forall i :: i in pages && i in pm ==> Present(pm[i])
  }

  lemma {:induction false} ReadPrinted(ps: PageSize, pm: Entries, pages: seq<nat>)
    requires PagesFit52(pages)
    ensures ReadLines(Split(Print(ps, pm, pages))) ==
            if NoAbsent(pm, pages) then Some(PageRows(ps, pm, pages)) else None
  {
    hide ReadLine, LineText, Frame, Present;
    if pages == [] {
      HeaderIsSkipped();
      var blank: seq<seq<byte>> := [[]];
      assert Split([]) == blank && blank[1..] == [];
      assert ReadLines([]) == Some([]);
    } else {
      var i, rest := pages[0], pages[1..];
      assert pages == [i] + rest && i in pages;
      assert forall j :: j in rest ==> j in pages;
      ReadPrinted(ps, pm, rest);
      if i !in pm {
        assert Print(ps, pm, pages) == Print(ps, pm, rest);
      } else {
        LineIsClean(ps, pm, i);
        ReadPrintedLine(ps, pm, i);
        var line := Ascii(LineText(ps, pm, i));
        SplitLine(line, Print(ps, pm, rest));
        var lines := [line] + Split(Print(ps, pm, rest));
        assert lines[1..] == Split(Print(ps, pm, rest));
      }
    }
  }

  lemma {:induction false} PageRowsAre(ps: PageSize, pm: Entries, pages: seq<nat>, e: Row)
    ensures e in PageRows(ps, pm, pages) <==> exists i :: i in pages && i in pm && e == (i * 4096, Frame(ps, pm, i))
  {
    hide Frame;
    if pages != [] {
      assert pages == [pages[0]] + pages[1..];
      PageRowsAre(ps, pm, pages[1..], e);
    }
  }

  lemma {:induction false} AllPagesFit(ps: PageSize, ranges: seq<AddressRange>, i: nat)
    requires i in AllPages(ps, ranges)
    ensures i < 0x10_0000_0000_0000
  {
    if i !in RangePages(ps, ranges[0].0, ranges[0].1) { AllPagesFit(ps, ranges[1..], i); }
  }

  lemma ReadMapFile(ps: PageSize, pm: Option<Entries>, ranges: seq<AddressRange>)
    ensures ReadLines(Split(MapFile(ps, pm, ranges))) ==
            if pm.None? then Some([])
            else if NoAbsent(pm.value, AllPages(ps, ranges)) then Some(PageRows(ps, pm.value, AllPages(ps, ranges)))
            else None
  {
    hide ReadLine, Print, PageRows, NoAbsent;
    var body: seq<byte> := if pm.None? then [] else Print(ps, pm.value, AllPages(ps, ranges));
    HeaderIsSkipped();
    SplitLine(Ascii(HEADER), body);
    var lines := Split(MapFile(ps, pm, ranges));
    assert lines == [Ascii(HEADER)] + Split(body);
    assert lines[1..] == Split(body);
    if pm.Some? {
      forall i | i in AllPages(ps, ranges) ensures i < 0x10_0000_0000_0000 { AllPagesFit(ps, ranges, i); }
      ReadPrinted(ps, pm.value, AllPages(ps, ranges));
    } else {
      ReadPrinted(ps, map[], []);
      assert Print(ps, map[], []) == [] by { PrintNothing(ps); }
      PageRowsNone(ps);
    }
  }

  lemma PrintNothing(ps: PageSize)
    ensures Print(ps, map[], []) == []
  {
  }

  lemma PageRowsNone(ps: PageSize)
    ensures NoAbsent(map[], []) && PageRows(ps, map[], []) == []
  {
  }

  /** A printed map loads exactly when at least one page was read and every page that was
      read is present. */
  lemma PrintedMapLoadsIff(ps: PageSize, pm: Entries, ranges: seq<AddressRange>)
    ensures var rows := ReadLines(Split(MapFile(ps, Some(pm), ranges)));
            rows.Some? && rows.value != [] <==>
            (exists i :: i in AllPages(ps, ranges) && i in pm) && NoAbsent(pm, AllPages(ps, ranges))
  {
    hide Frame, MapFile, ReadLines, AllPages;
    ReadMapFile(ps, Some(pm), ranges);
    var pages := AllPages(ps, ranges);
    if NoAbsent(pm, pages) {
      var rows := PageRows(ps, pm, pages);
      if rows != [] {
        PageRowsAre(ps, pm, pages, rows[0]);
      } else {
        forall i | i in pages && i in pm ensures false {
          PageRowsAre(ps, pm, pages, (i * 4096, Frame(ps, pm, i)));
        }
      }
    }
  }

  /** Whatever ranges were printed, and however the entries came to be sorted, a loaded map
      answers every RVA with the printed frame of the page of `base + rva`, joined with the
      offset, and with nothing when that page was not printed. */
  lemma LoadedMapAnswers(ps: PageSize, pm: Entries, ranges: seq<AddressRange>, rows: seq<Row>,
                                            m: Map, rva: u64, r: Option<nat>)
    requires ReadLines(Split(MapFile(ps, Some(pm), ranges))) == Some(rows)
    requires IsSortOf(m.entries, rows) && IsPaOf(m, rva, r)
    ensures var va := Wrap64(m.base + rva);
            r == if va / 4096 in AllPages(ps, ranges) && va / 4096 in pm
                 then Some(Or(Frame(ps, pm, va / 4096), va % 4096)) else None
  {
    hide MapFile, ReadLines, AllPages, Compose, Or, Frame;
    ReadMapFile(ps, Some(pm), ranges);
    SortKeepsRows(m.entries, rows);
    var pages := AllPages(ps, ranges);
    var va := Wrap64(m.base + rva);
    var i := va / 4096;
    assert va - va % 4096 == i * 4096;
    if i in pages && i in pm {
      PageRowsAre(ps, pm, pages, (i * 4096, Frame(ps, pm, i)));
      assert (i * 4096, Frame(ps, pm, i)) in m.entries;
    }
    if r.Some? {
      var e :| e in m.entries && e.0 == i * 4096 && r.value == Or(e.1, va % 4096);
      PageRowsAre(ps, pm, pages, e);
      assert e == (i * 4096, Frame(ps, pm, i));
    }
  }

  /** The round trip on 4 KiB pages: a loaded map answers with exactly the direct translation
      of `base + rva` when a printed range touches that page and its entry could be read, and
      with nothing otherwise; so it answers for every readable address of every range. */
  lemma LoadedMapTranslates(pm: Entries, ranges: seq<AddressRange>, rows: seq<Row>, m: Map, rva: u64, r: Option<nat>)
    requires ReadLines(Split(MapFile(PAGE, Some(pm), ranges))) == Some(rows)
    requires IsSortOf(m.entries, rows) && IsPaOf(m, rva, r)
    ensures var va := Wrap64(m.base + rva);
            && r == (if Touched(ranges, va / 4096) && va / 4096 in pm then Some(VaToPa(PAGE, Some(pm), va)) else None)
            && forall g :: g in ranges && g.0 <= va < g.0 + g.1 && g.0 + g.1 + 4095 < TWO_64 && va / 4096 in pm ==>
                 r == Some(VaToPa(PAGE, Some(pm), va))
  {
    hide MapFile, ReadLines, AllPages, IsPaOf, Or, Frame, VaToPa;
    LoadedMapAnswers(PAGE, pm, ranges, rows, m, rva, r);
    var va := Wrap64(m.base + rva);
    AllPagesIff(ranges, va / 4096);
    if Touched(ranges, va / 4096) && va / 4096 in pm {
      PrintedPagesArePresent(PAGE, pm, ranges, rows, va / 4096);
      FrameTranslates(pm, va);
    }
  }

  /** Which ranges give a map that loads, on 4 KiB pages: some page they touch was read, and
      every page they touch that was read is present. */
  lemma MapOfRangesLoadsIff(pm: Entries, ranges: seq<AddressRange>)
    ensures var rows := ReadLines(Split(MapFile(PAGE, Some(pm), ranges)));
            rows.Some? && rows.value != [] <==>
            && (exists i :: i in pm && Touched(ranges, i))
            && (forall i :: i in pm && Touched(ranges, i) ==> Present(pm[i]))
  {
    hide MapFile, ReadLines, AllPages, Touched;
    PrintedMapLoadsIff(PAGE, pm, ranges);
    forall i | i in pm ensures i in AllPages(PAGE, ranges) <==> Touched(ranges, i) { AllPagesIff(ranges, i); }
  }

  lemma PrintedPagesArePresent(ps: PageSize, pm: Entries, ranges: seq<AddressRange>, rows: seq<Row>, i: nat)
    requires ReadLines(Split(MapFile(ps, Some(pm), ranges))) == Some(rows)
    requires i in AllPages(ps, ranges) && i in pm
    ensures Present(pm[i])
  {
    hide MapFile, ReadLines, AllPages, PageRows;
    ReadMapFile(ps, Some(pm), ranges);
  }

  lemma FrameTranslates(pm: Entries, va: u64)
    requires va / 4096 in pm && Present(pm[va / 4096])
    ensures Or(Frame(PAGE, pm, va / 4096), va % 4096) == VaToPa(PAGE, Some(pm), va)
  {
    var i := va / 4096;
    assert i * 4096 % PAGE == 0;
    OrRightZero(Wrap64(Pfn(pm[i]) * 4096));
    hide Or;
  }

  // ----- other page sizes -----

  /** Every printed range is one of the process's mappings. */
  predicate RangesOf(ranges: seq<AddressRange>, lines: seq<MapsLine>) {
    forall r :: r in ranges ==> r.0 + r.1 < TWO_64 && Mapping(r.0, r.0 + r.1) in lines
  }

  /** Whatever a map printed and loaded with pages of `ps` bytes answers for `va`, the direct
      query answers too. */
  ghost predicate Agrees(ps: PageSize, pm: Entries, ranges: seq<AddressRange>, va: u64) {
    forall rows: seq<Row>, m: Map, r: Option<nat> ::
      ReadLines(Split(MapFile(ps, Some(pm), ranges))) == Some(rows) && IsLoaded(m, rows, va) && IsPaOf(m, 0, r)
      ==> r.None? || r.value == VaToPa(ps, Some(pm), va)
  }

  /** The printer's shifts are fixed at 12 as well: among the page sizes 4 KiB, 8 KiB, ... the
      loaded map agrees with the query on every snapshot exactly for 4 KiB pages. */
  lemma RoundTripOnlyOn4K(j: nat)
    requires PAGE * Pow2(j) <= 0x20_0000_0000
    ensures (forall pm: Entries, lines: seq<MapsLine>, ranges: seq<AddressRange>, va: u64 ::
               Plausible(PAGE * Pow2(j), pm, lines) && RangesOf(ranges, lines) ==>
                 Agrees(PAGE * Pow2(j), pm, ranges, va))
            <==> j == 0
  {
    hide Plausible, RangesOf, Agrees;
    var ps := PAGE * Pow2(j);
    if j == 0 {
      forall pm: Entries, ranges: seq<AddressRange>, va: u64 ensures Agrees(ps, pm, ranges, va) {
        AgreesOn4K(pm, ranges, va);
      }
    } else {
      assert Pow2(j) == 2 * Pow2(j - 1);
      PrinterMisleads(ps, Pow2(j));
    }
  }

  lemma AgreesOn4K(pm: Entries, ranges: seq<AddressRange>, va: u64)
    ensures Agrees(PAGE, pm, ranges, va)
  {
    hide MapFile, ReadLines, IsPaOf, VaToPa, AllPages;
    forall rows: seq<Row>, m: Map, r: Option<nat>
      | ReadLines(Split(MapFile(PAGE, Some(pm), ranges))) == Some(rows) && IsLoaded(m, rows, va) && IsPaOf(m, 0, r)
      ensures r.None? || r.value == VaToPa(PAGE, Some(pm), va)
    {
      LoadedMapTranslates(pm, ranges, rows, m, 0, r);
    }
  }

  /** Entries a to b - 1 present with frame 1. */
  function Fill(a: nat, b: nat): (pm: Entries)
    ensures forall i {:trigger i in pm} :: i in pm <==> a <= i < b
    ensures forall i {:trigger pm[i]} :: a <= i < b ==> pm[i] == TWO_63 + 1
    decreases b
  {
    if a < b then Fill(a, b - 1)[b - 1 := TWO_63 + 1] else map[]
  }

  function Snapshot(n: nat): Entries { Fill(n, if n == 0 then 0 else 3 * n - 1)[1 := 0] }

  lemma SnapshotIs(n: nat)
    requires n >= 2
    ensures forall i {:trigger i in Snapshot(n)} :: i in Snapshot(n) <==> i == 1 || n <= i < 3 * n - 1
    ensures Snapshot(n)[1] == 0
    ensures forall i {:trigger Snapshot(n)[i]} :: n <= i < 3 * n - 1 ==> Snapshot(n)[i] == TWO_63 + 1
  {
    hide Fill;
  }

  /** With n 4 KiB units to a page: page 1 is mapped but absent, pages n to 3n - 2 are present.
      Printing page 1 reads their entries, so the loaded map has an answer for it. */
  lemma PrinterMisleads(ps: PageSize, n: nat)
    requires ps == 4096 * n && n >= 2 && ps <= 0x20_0000_0000
    ensures exists pm: Entries, lines: seq<MapsLine>, ranges: seq<AddressRange>, va: u64 ::
              Plausible(ps, pm, lines) && RangesOf(ranges, lines) && !Agrees(ps, pm, ranges, va)
  {
    hide Plausible, RangesOf, Agrees;
    var pm := Snapshot(n);
    var ranges: seq<AddressRange> := [(ps, ps)];
    FarEnd(ps, n);
    var far: u64, end: u64 := n * ps, (3 * n - 1) * ps;
    var lines := [Mapping(ps, 2 * ps), Mapping(far, end)];
    SnapshotIsPlausible(ps, n, pm, lines);
    assert RangesOf(ranges, lines) by { OneRange(ps, ranges, lines); }
    PagesOfRange(ps, n, ranges);
    AbsentPageAnswered(ps, n, pm, ranges);
  }

  lemma FarEnd(ps: nat, n: nat)
    requires ps == 4096 * n && n >= 2 && ps <= 0x20_0000_0000
    ensures 0 <= n * ps <= (3 * n - 1) * ps < TWO_64
  {
    MulMonotone(n, 3 * n - 1, ps);
    MulMonotone(3 * n - 1, 0x600_0000 - 1, ps);
  }

  lemma OneRange(ps: nat, ranges: seq<AddressRange>, lines: seq<MapsLine>)
    requires ps < TWO_63 && ranges == [(ps, ps)] && lines != [] && lines[0] == Mapping(ps, 2 * ps)
    ensures RangesOf(ranges, lines)
  {
  }

  lemma SnapshotIsPlausible(ps: nat, n: nat, pm: Entries, lines: seq<MapsLine>)
    requires ps > 0 && n >= 2 && 2 * ps < TWO_64 && 0 <= n * ps <= (3 * n - 1) * ps < TWO_64
    requires pm == Snapshot(n)
    requires lines == [Mapping(ps, 2 * ps), Mapping(n * ps, (3 * n - 1) * ps)]
    ensures Plausible(ps, pm, lines)
  {
    SnapshotIs(n);
    hide Snapshot;
    Multiples(ps, n);
    MultipleMod(3 * n - 1, ps);
    forall l | l in lines && l.Mapping? ensures l.start % ps == 0 && l.end % ps == 0 {
      assert l == lines[0] || l == lines[1];
    }
    forall i | i in pm && Present(pm[i])
      ensures exists l :: l in lines && l.Mapping? && l.start <= i * ps < l.end
    {
      assert n <= i < 3 * n - 1;
      MulMonotone(n, i, ps);
      MulMonotone(i + 1, 3 * n - 1, ps);
      assert (i + 1) * ps == i * ps + ps;
      assert lines[1] in lines && lines[1].start <= i * ps < lines[1].end;
    }
  }

  lemma PagesOfRange(ps: PageSize, n: nat, ranges: seq<AddressRange>)
    requires ps == 4096 * n && n >= 2 && ps <= 0x20_0000_0000 && ranges == [(ps, ps)]
    ensures AllPages(ps, ranges) == Range(n, 3 * n - 1)
    ensures n in AllPages(ps, ranges)
    ensures forall i :: i in AllPages(ps, ranges) ==> n <= i < 3 * n - 1
  {
    hide Range, RangePages;
    OneRangePages(ps, ranges);
    UnitsOfPageOne(ps, n);
    RangePagesOfPageOne(ps, n);
    var pages := Range(n, 3 * n - 1);
    forall i: nat ensures i in pages <==> n <= i < 3 * n - 1 { RangeIff(n, 3 * n - 1, i); }
  }

  lemma OneRangePages(ps: PageSize, ranges: seq<AddressRange>)
    requires |ranges| == 1
    ensures AllPages(ps, ranges) == RangePages(ps, ranges[0].0, ranges[0].1)
  {
    hide RangePages;
    assert ranges[1..] == [] && AllPages(ps, []) == [];
  }

  lemma RangePagesOfPageOne(ps: PageSize, n: nat)
    requires ps == 4096 * n && n >= 2 && ps <= 0x20_0000_0000
    ensures RangePages(ps, ps, ps) == Range(n, 3 * n - 1)
  {
    hide Range;
    UnitsOfPageOne(ps, n);
  }

  lemma AbsentPageAnswered(ps: PageSize, n: nat, pm: Entries, ranges: seq<AddressRange>)
    requires ps == 4096 * n && n >= 2 && ps <= 0x20_0000_0000 && pm == Snapshot(n)
    requires n in AllPages(ps, ranges) && forall i :: i in AllPages(ps, ranges) ==> n <= i < 3 * n - 1
    ensures !Agrees(ps, pm, ranges, ps)
  {
    hide AllPages, MapFile, ReadLines, IsPaOf, IsLoaded, VaToPa, Frame, Or, PageRows, Snapshot, NoAbsent;
    SnapshotIs(n);
    PageOneIsAbsent(ps, n, pm);
    FrameOne(ps, n, pm);
    AllPresent(n, pm, AllPages(ps, ranges));
    ReadMapFile(ps, Some(pm), ranges);
    var rows := PageRows(ps, pm, AllPages(ps, ranges));
    var m, r := SomeLoad(rows, ps);
    PrintedAnswer(ps, n, pm, ranges, rows, m, r);
  }

  /** Some load of the rows, and its answer for the base itself. */
  lemma SomeLoad(rows: seq<Row>, base: u64) returns (m: Map, r: Option<nat>)
    ensures IsLoaded(m, rows, base) && IsPaOf(m, 0, r)
  {
    hide IsPaOf;
    m := Map(SortByKey(rows), base);
    r := SomeAnswer(m, 0);
  }

  lemma PrintedAnswer(ps: PageSize, n: nat, pm: Entries, ranges: seq<AddressRange>, rows: seq<Row>,
                      m: Map, r: Option<nat>)
    requires ps == 4096 * n && n in pm && n in AllPages(ps, ranges)
    requires ReadLines(Split(MapFile(ps, Some(pm), ranges))) == Some(rows)
    requires IsLoaded(m, rows, ps) && IsPaOf(m, 0, r)
    ensures r == Some(Or(Frame(ps, pm, n), ps % 4096))
  {
    hide AllPages, MapFile, ReadLines, IsPaOf, Frame, Or, IsSortOf;
    LoadedMapAnswers(ps, pm, ranges, rows, m, 0, r);
  }

  lemma AllPresent(n: nat, pm: Entries, pages: seq<nat>)
    requires n >= 2 && pm == Snapshot(n) && forall i :: i in pages ==> n <= i < 3 * n - 1
    ensures NoAbsent(pm, pages)
  {
    hide Snapshot;
    SnapshotIs(n);
  }

  /** Every loaded map has an answer for every RVA. */
  lemma SomeAnswer(m: Map, rva: u64) returns (r: Option<nat>)
    ensures IsPaOf(m, rva, r)
  {
    var va := Wrap64(m.base + rva);
    if e :| e in m.entries && e.0 == va - va % 4096 {
      r := Some(Or(e.1, va % 4096));
    } else {
      r := None;
    }
  }

  lemma FrameOne(ps: PageSize, n: nat, pm: Entries)
    requires ps == 4096 * n && n in pm && pm[n] == TWO_63 + 1
    ensures Or(Frame(ps, pm, n), ps % 4096) == 4096
  {
    hide Or;
    SelfMod(ps);
    OrRightZero(4096);
    assert Pfn(pm[n]) == 1 && n * 4096 % ps == 0;
  }
}
