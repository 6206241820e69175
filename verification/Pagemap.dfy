/** lxgr_dump.c: physical addresses from one snapshot of /proc/<pid>/pagemap. The page size
    is asked of the system, but page numbers are shifted by 12 throughout. */
module Pagemap {
  import opened Words

  /** The entries that an eight-byte read returns in full, by page number. */
  type Entries = map<nat, u64>

  const PFN_LIMIT: int := 0x80_0000_0000_0000  // 55 bits
  const FRAME_LIMIT: nat := 0x10_0000_0000_0000  // 52 bits: what an address has room for
  const MAX_PAGES: int := 0x40_0000  // 2^22
  const PAGE: nat := 4096

  /** What `sysconf(_SC_PAGESIZE)`, or the fallback, can give. */
  type PageSize = x: int | 0 < x < TWO_63 witness 4096

  predicate Present(ent: u64) { ent >= TWO_63 }

  function Pfn(ent: u64): nat { ent % PFN_LIMIT }

  /** `(n << 12) | low` in 64 bits. */
  function Compose(n: nat, low: nat): nat { Or(Wrap64(n * 4096), low) }

  lemma ComposeIsSum(n: nat, low: nat)
    requires low < 4096
    ensures Compose(n, low) == (n % FRAME_LIMIT) * 4096 + low
  {
    ShiftWraps(n);
    assert Pow2(4) == 16;
    Pow2Byte(4, 16);
    OrDisjoint(n % FRAME_LIMIT, low, 12);
  }

  lemma ShiftWraps(n: nat)
    ensures Wrap64(n * 4096) == (n % FRAME_LIMIT) * 4096
  {
  }

  /** Bit 63 of an entry says present, and its low 55 bits are the frame number. */
  lemma EntryBits(ent: u64)
    ensures Present(ent) <==> ent / Pow2(63) % 2 == 1
    ensures Pfn(ent) == ent % Pow2(55)
    ensures FRAME_LIMIT == Pow2(52)
  {
    Pow2Width64();
    assert Pow2(64) == 2 * Pow2(63);
    Pow2Widths();
    Pow2Byte(32, TWO_32);
    Pow2Byte(40, 0x100_0000_0000);
    Pow2Steps(48);
    Pow2Steps(52);
  }

  lemma Pow2Steps(k: nat)
    ensures Pow2(k + 3) == 8 * Pow2(k) && Pow2(k + 4) == 16 * Pow2(k)
  {
    assert Pow2(k + 2) == 2 * Pow2(k + 1) == 4 * Pow2(k);
    assert Pow2(k + 4) == 2 * Pow2(k + 3) == 4 * Pow2(k + 2);
  }

  // ----- virtual to physical -----

  function VaToPa(ps: nat, pm: Option<Entries>, va: u64): nat
    requires ps > 0
  {
    if pm.None? || va / ps !in pm.value || !Present(pm.value[va / ps]) then 0
    else Compose(Pfn(pm.value[va / ps]), va % ps)
  }

  /** PA = frame number times 4096 plus the offset in the page, frame numbers taken to the
      52 bits an address has room for. */
  lemma TranslationIsFramePlusOffset(pm: Entries, va: u64)
    requires va / 4096 in pm && Present(pm[va / 4096])
    ensures VaToPa(PAGE, Some(pm), va) == Pfn(pm[va / 4096]) % FRAME_LIMIT * 4096 + va % 4096 < TWO_64
  {
    ComposeIsSum(Pfn(pm[va / 4096]), va % 4096);
  }

  /** On pages of 2^j units of 4 KiB the entry is that of the whole page, and a frame number
      that is a multiple of 2^j is joined with the whole offset in the page. */
  lemma LargePageTranslation(j: nat, pm: Entries, va: u64, n: nat)
    requires va / (PAGE * Pow2(j)) in pm
    requires var ent := pm[va / (PAGE * Pow2(j))]; Present(ent) && Pfn(ent) == n * Pow2(j) < FRAME_LIMIT
    ensures VaToPa(PAGE * Pow2(j), Some(pm), va) == Pfn(pm[va / (PAGE * Pow2(j))]) * 4096 + va % (PAGE * Pow2(j))
  {
    hide Or, Pow2;
    var ps := PAGE * Pow2(j);
    OrAligned(n, j, va % ps);
  }

  lemma OrAligned(n: nat, j: nat, low: nat)
    requires low < PAGE * Pow2(j)
    ensures Or(n * Pow2(j) * 4096, low) == n * Pow2(j) * 4096 + low
  {
    hide Or;
    Pow2Shift(j);
    OrDisjoint(n, low, j + 12);
    assert n * Pow2(j) * 4096 == n * (PAGE * Pow2(j));
  }

  lemma Pow2Shift(j: nat)
    ensures Pow2(j + 12) == PAGE * Pow2(j)
  {
    Pow2Byte(j, Pow2(j));
    Pow2Steps(j + 8);
  }

  /** 0 is answered for a page that is absent or could not be read, and for byte 0 of a
      frame whose low 52 bits are zero; for nothing else. */
  lemma VaToPaIsZeroIff(pm: Option<Entries>, va: u64)
    ensures VaToPa(PAGE, pm, va) == 0 <==>
            || pm.None? || va / 4096 !in pm.value || !Present(pm.value[va / 4096])
            || (Pfn(pm.value[va / 4096]) % FRAME_LIMIT == 0 && va % 4096 == 0)
  {
    hide Compose;
    if pm.Some? && va / 4096 in pm.value && Present(pm.value[va / 4096]) {
      ComposeIsSum(Pfn(pm.value[va / 4096]), va % 4096);
    }
  }

  // ----- physical to virtual -----

  /** A line of /proc/<pid>/maps, as far as `sscanf` gets with it. */
  datatype MapsLine = Mapping(start: u64, end: u64) | Other

  function Range(a: nat, b: nat): (s: seq<nat>)
    ensures |s| == (if a < b then b - a else 0)
    ensures forall k {:trigger s[k]} :: 0 <= k < |s| ==> s[k] == a + k
    decreases b - a
  {
    if a < b then [a] + Range(a + 1, b) else []
  }

  lemma RangeIff(a: nat, b: nat, i: nat)
    ensures i in Range(a, b) <==> a <= i < b
  {
    if a <= i < b { assert Range(a, b)[i - a] == i; }
  }

  function LinePages(ps: nat, line: MapsLine): seq<nat> {
    if line.Other? || line.end <= line.start then []
    else Range(FirstPage(line), EndPage(ps, line))
  }

  function FirstPage(line: MapsLine): nat
    requires line.Mapping?
  {
    line.start / 4096
  }

  function EndPage(ps: nat, line: MapsLine): nat
    requires line.Mapping?
  {
    Wrap64(line.end + ps - 1) / 4096
  }

  /** The pages of a maps file in the order the scan meets them. */
  function Pages(ps: nat, lines: seq<MapsLine>): seq<nat> {
    if lines == [] then [] else LinePages(ps, lines[0]) + Pages(ps, lines[1..])
  }

  /** The order of the pages: mappings in file order, */
  lemma {:induction false} PagesConcat(ps: nat, a: seq<MapsLine>, b: seq<MapsLine>)
    ensures Pages(ps, a + b) == Pages(ps, a) + Pages(ps, b)
  {
    hide LinePages;
    if a == [] {
      assert a + b == b;
    } else {
      assert (a + b)[1..] == a[1..] + b;
      PagesConcat(ps, a[1..], b);
    }
  }

  /** and inside a mapping one page after the other, from that of its first byte to that of
      its last. A mapping that ends in the last page of the address space has none. */
  lemma MappingPages(start: u64, end: u64)
    ensures var pages := Pages(PAGE, [Mapping(start, end)]);
            if start < end && end + 4095 < TWO_64
            then |pages| == (end + 4095) / 4096 - start / 4096 &&
                 forall k :: 0 <= k < |pages| ==> pages[k] == start / 4096 + k
            else pages == []
  {
    hide Range;
    var line := Mapping(start, end);
    assert [line][1..] == [] && Pages(PAGE, []) == [];
    assert Pages(PAGE, [line]) == LinePages(PAGE, line);
    if end + 4095 >= TWO_64 { assert Wrap64(end + 4095) / 4096 == 0; }
  }

  /** Which pages the scan looks at: those with a byte of some mapping. */
  lemma {:induction false} PagesIff(lines: seq<MapsLine>, i: nat)
    ensures i in Pages(PAGE, lines) <==>
            exists l :: l in lines && l.Mapping? && l.start < l.end && l.end + 4095 < TWO_64
                     && l.start / 4096 <= i && i * 4096 < l.end
  {
    if lines != [] {
      hide Pages, LinePages;
      var l := lines[0];
      assert lines == [l] + lines[1..];
      PagesConcat(PAGE, [l], lines[1..]);
      PagesIff(lines[1..], i);
      LineHas(l, i);
    }
  }

  lemma LineHas(l: MapsLine, i: nat)
    ensures i in Pages(PAGE, [l]) <==>
            l.Mapping? && l.start < l.end && l.end + 4095 < TWO_64 && l.start / 4096 <= i && i * 4096 < l.end
  {
    if l.Mapping? {
      MappingPages(l.start, l.end);
      hide Pages;
      var pages := Pages(PAGE, [l]);
      if l.start < l.end && l.end + 4095 < TWO_64 && l.start / 4096 <= i && i * 4096 < l.end {
        assert pages[i - l.start / 4096] == i;
      }
    } else {
      assert [l][1..] == [];
    }
  }

  /** How many pages the scan looks at for these lines. */
  function PageCount(lines: seq<MapsLine>): nat {
    if lines == [] then 0
    else
      var l := lines[0];
      PageCount(lines[1..]) +
      if l.Mapping? && l.start < l.end && l.end + 4095 < TWO_64 then (l.end + 4095) / 4096 - l.start / 4096 else 0
  }

  lemma {:induction false} PageCountIs(lines: seq<MapsLine>)
    ensures |Pages(PAGE, lines)| == PageCount(lines)
  {
    if lines != [] {
      hide Pages;
      var l := lines[0];
      assert lines == [l] + lines[1..];
      PagesConcat(PAGE, [l], lines[1..]);
      PageCountIs(lines[1..]);
      if l.Mapping? { MappingPages(l.start, l.end); } else { NoPagesOf(l); }
    } else {
      NoPages(PAGE, map[], [], 0, 0);
    }
  }

  lemma NoPagesOf(l: MapsLine)
    requires l.Other?
    ensures Pages(PAGE, [l]) == []
  {
    assert [l][1..] == [];
  }

  /** Where the page of a mapped address stands in the order of the scan. */
  lemma PlaceOf(lines: seq<MapsLine>, k: nat, va: u64)
    requires k < |lines| && lines[k].Mapping?
    requires lines[k].start <= va < lines[k].end && lines[k].end + 4095 < TWO_64
    ensures var at := PageCount(lines[..k]) + va / 4096 - lines[k].start / 4096;
            at < |Pages(PAGE, lines)| && Pages(PAGE, lines)[at] == va / 4096
  {
    hide Pages;
    var l := lines[k];
    assert lines == lines[..k] + ([l] + lines[k + 1..]);
    PagesConcat(PAGE, lines[..k], [l] + lines[k + 1..]);
    PagesConcat(PAGE, [l], lines[k + 1..]);
    PageCountIs(lines[..k]);
    MappingPages(l.start, l.end);
  }

  predicate Match(pm: Entries, i: nat, want: nat) {
    i in pm && Present(pm[i]) && Pfn(pm[i]) == want
  }

  /** The first match among the first `budget` pages. */
  function Scan(pm: Entries, pages: seq<nat>, want: nat, budget: nat): Option<nat> {
    if pages == [] || budget == 0 then None
    else if Match(pm, pages[0], want) then Some(pages[0])
    else Scan(pm, pages[1..], want, budget - 1)
  }

  function WantedPfn(pa: u64): nat { pa / 4096 % PFN_LIMIT }

  function PaToVa(ps: nat, pm: Option<Entries>, lines: Option<seq<MapsLine>>, pa: u64): nat
    requires ps > 0
  {
    if pm.None? || lines.None? then 0
    else
      match Scan(pm.value, Pages(ps, lines.value), WantedPfn(pa), MAX_PAGES)
      case None => 0
      case Some(i) => Compose(i, pa % ps)
  }

  lemma ScanStep(pm: Entries, i: nat, epg: nat, after: seq<nat>, want: nat, budget: nat)
    requires i < epg && budget > 0
    ensures Scan(pm, Range(i, epg) + after, want, budget) ==
            if Match(pm, i, want) then Some(i) else Scan(pm, Range(i + 1, epg) + after, want, budget - 1)
  {
    hide Match;
    assert Range(i, epg) + after == [i] + (Range(i + 1, epg) + after);
  }

  lemma PagesStep(ps: nat, ls: seq<MapsLine>, k: nat)
    requires k < |ls|
    ensures Pages(ps, ls[k..]) == LinePages(ps, ls[k]) + Pages(ps, ls[k + 1..])
  {
    assert ls[k..][1..] == ls[k + 1..];
  }

  lemma NoPages(ps: nat, pm: Entries, after: seq<nat>, want: nat, budget: nat)
    ensures [] + after == after
    ensures Scan(pm, Pages(ps, []), want, budget) == None
  {
  }

  lemma EmptyRange(i: nat, epg: nat, after: seq<nat>)
    requires i >= epg
    ensures Range(i, epg) + after == after
  {
  }

  method ScanForVa(ps: nat, pm: Option<Entries>, lines: Option<seq<MapsLine>>, pa: u64) returns (found: nat)
    requires ps > 0
    ensures found == PaToVa(ps, pm, lines, pa)
  {
    hide Scan, Match, Compose, Pages, Range, FirstPage, EndPage;
    if pm.None? || lines.None? { return 0; }
    var want := WantedPfn(pa);
    var scanned := 0;
    var ls := lines.value;
    ghost var goal := Scan(pm.value, Pages(ps, ls), want, MAX_PAGES);
    assert ls[0..] == ls;
    for k := 0 to |ls|
      invariant 0 <= scanned < MAX_PAGES
      invariant goal == Scan(pm.value, Pages(ps, ls[k..]), want, MAX_PAGES - scanned)
    {
      PagesStep(ps, ls, k);
      ghost var after := Pages(ps, ls[k + 1..]);
      NoPages(ps, pm.value, after, want, 0);
      var line := ls[k];
      if line.Other? || line.end <= line.start { continue; }
      var i := FirstPage(line);
      var epg := EndPage(ps, line);
      while i < epg
        invariant 0 <= scanned < MAX_PAGES
        invariant goal == Scan(pm.value, Range(i, epg) + after, want, MAX_PAGES - scanned)
      {
        ScanStep(pm.value, i, epg, after, want, MAX_PAGES - scanned);
        if Match(pm.value, i, want) { return Compose(i, pa % ps); }
        scanned := scanned + 1;
        if scanned >= MAX_PAGES {
          BudgetSpent(pm.value, Range(i + 1, epg) + after, want);
          return 0;
        }
        i := i + 1;
      }
      EmptyRange(i, epg, after);
    }
    NoPages(ps, pm.value, [], want, MAX_PAGES - scanned);
    assert ls[|ls|..] == [];
    found := 0;
  }

  lemma BudgetSpent(pm: Entries, pages: seq<nat>, want: nat)
    ensures Scan(pm, pages, want, 0) == None
  {
  }

  // ----- the scan inverts the query -----

  lemma {:induction false} ScanFindsFirst(pm: Entries, pages: seq<nat>, want: nat, budget: nat)
    ensures match Scan(pm, pages, want, budget)
            case None => forall k :: 0 <= k < |pages| && k < budget ==> !Match(pm, pages[k], want)
            case Some(i) => exists k :: 0 <= k < |pages| && IsFirstMatch(pm, pages, want, budget, k) && pages[k] == i
  {
    if pages != [] && budget > 0 {
      if Match(pm, pages[0], want) {
        assert IsFirstMatch(pm, pages, want, budget, 0);
      } else {
        ScanFindsFirst(pm, pages[1..], want, budget - 1);
        match Scan(pm, pages[1..], want, budget - 1) {
          case None =>
            forall k | 0 <= k < |pages| && k < budget ensures !Match(pm, pages[k], want) {
              if k > 0 { assert pages[k] == pages[1..][k - 1]; }
            }
          case Some(i) =>
            var k :| 0 <= k < |pages| - 1 && IsFirstMatch(pm, pages[1..], want, budget - 1, k) && pages[1..][k] == i;
            forall j | 0 <= j < k + 1 ensures !Match(pm, pages[j], want) {
              if j > 0 { assert pages[j] == pages[1..][j - 1]; }
            }
            assert IsFirstMatch(pm, pages, want, budget, k + 1);
        }
      }
    }
  }

  predicate IsFirstMatch(pm: Entries, pages: seq<nat>, want: nat, budget: nat, k: nat)
    requires k < |pages|
  {
    k < budget && Match(pm, pages[k], want) && forall j :: 0 <= j < k ==> !Match(pm, pages[j], want)
  }

  predicate FirstMatchIsPage(pm: Entries, pages: seq<nat>, want: nat, i: nat) {
    exists k :: 0 <= k < |pages| && IsFirstMatch(pm, pages, want, MAX_PAGES, k) && pages[k] == i
  }

  lemma OneFirstMatch(pm: Entries, pages: seq<nat>, want: nat, i: nat, j: nat)
    requires FirstMatchIsPage(pm, pages, want, i) && FirstMatchIsPage(pm, pages, want, j)
    ensures i == j
  {
    hide Match;
    var k :| 0 <= k < |pages| && IsFirstMatch(pm, pages, want, MAX_PAGES, k) && pages[k] == i;
    var l :| 0 <= l < |pages| && IsFirstMatch(pm, pages, want, MAX_PAGES, l) && pages[l] == j;
  }

  lemma {:induction false} PagesFit(ps: nat, lines: seq<MapsLine>, k: nat)
    requires k < |Pages(ps, lines)|
    ensures Pages(ps, lines)[k] < FRAME_LIMIT
  {
    var n := |LinePages(ps, lines[0])|;
    if k >= n { PagesFit(ps, lines[1..], k - n); }
  }

  /** On 4 KiB pages a non-zero answer translates back to the address asked for, and it is
      the first match in maps order among the first 2^22 pages. */
  lemma PaToVaInverts(pm: Entries, lines: seq<MapsLine>, pa: u64)
    ensures var va := PaToVa(PAGE, Some(pm), Some(lines), pa);
            va != 0 ==>
              && va < TWO_64
              && VaToPa(PAGE, Some(pm), va) == pa
              && var pages := Pages(PAGE, lines);
              exists k :: 0 <= k < |pages| && IsFirstMatch(pm, pages, pa / 4096, 0x40_0000, k)
                          && va == pages[k] * 4096 + pa % 4096
  {
    hide Compose, Scan, Pages, Match, VaToPa;
    var pages := Pages(PAGE, lines);
    ScanFindsFirst(pm, pages, WantedPfn(pa), MAX_PAGES);
    var hit := Scan(pm, pages, WantedPfn(pa), MAX_PAGES);
    if hit.Some? {
      var k :| 0 <= k < |pages| && IsFirstMatch(pm, pages, WantedPfn(pa), MAX_PAGES, k) && pages[k] == hit.value;
      PagesFit(PAGE, lines, k);
      ComposeIsSum(pages[k], pa % 4096);
      MatchTranslates(pm, pages[k], pa);
    }
  }

  lemma MatchTranslates(pm: Entries, i: nat, pa: u64)
    requires i < FRAME_LIMIT && Match(pm, i, WantedPfn(pa))
    ensures VaToPa(PAGE, Some(pm), i * 4096 + pa % 4096) == pa && WantedPfn(pa) == pa / 4096
  {
    hide Compose;
    ComposeIsSum(pa / 4096, pa % 4096);
  }

  /** A match is a page whose translation is the address asked for and whose frame number
      an address has room for. */
  lemma MatchIffTranslates(pm: Entries, i: nat, pa: u64)
    requires i < FRAME_LIMIT && i in pm && Present(pm[i])
    ensures Match(pm, i, WantedPfn(pa)) <==>
            Pfn(pm[i]) < FRAME_LIMIT && VaToPa(PAGE, Some(pm), i * 4096 + pa % 4096) == pa
  {
    hide Or;
    ComposeIsSum(Pfn(pm[i]), pa % 4096);
  }

  /** Bounded completeness: the scan answers 0 exactly when none of the first 2^22 pages
      matches, or the first match is byte 0 of page 0. */
  lemma PaToVaMissesIff(pm: Entries, lines: seq<MapsLine>, pa: u64)
    ensures var pages := Pages(PAGE, lines);
            PaToVa(PAGE, Some(pm), Some(lines), pa) == 0 <==>
            || (forall k :: 0 <= k < |pages| && k < 0x40_0000 ==> !Match(pm, pages[k], WantedPfn(pa)))
            || (pa % 4096 == 0 && FirstMatchIsPage(pm, pages, WantedPfn(pa), 0))
  {
    hide Compose, Scan, Pages, Match;
    var pages, want := Pages(PAGE, lines), WantedPfn(pa);
    ScanFindsFirst(pm, pages, want, MAX_PAGES);
    var hit := Scan(pm, pages, want, MAX_PAGES);
    if hit.Some? {
      var k :| 0 <= k < |pages| && IsFirstMatch(pm, pages, want, MAX_PAGES, k) && pages[k] == hit.value;
      PagesFit(PAGE, lines, k);
      ComposeIsSum(pages[k], pa % 4096);
      assert FirstMatchIsPage(pm, pages, want, pages[k]);
      if FirstMatchIsPage(pm, pages, want, 0) { OneFirstMatch(pm, pages, want, pages[k], 0); }
    }
  }

  /** What the scan does with the translation of a page among the first 2^22: a non-zero
      answer translates back. If the frame fits in 52 bits the answer is zero only for byte 0
      of page 0 as the first match; if it does not fit, the page itself never matches. */
  lemma TranslatedIsFound(pm: Entries, lines: seq<MapsLine>, va: u64, k: nat)
    requires k < |Pages(PAGE, lines)| && k < 0x40_0000 && Pages(PAGE, lines)[k] == va / 4096
    requires va / 4096 in pm && Present(pm[va / 4096])
    ensures var pa := VaToPa(PAGE, Some(pm), va);
            && pa < TWO_64
            && var back := PaToVa(PAGE, Some(pm), Some(lines), pa);
            && (back != 0 ==> back < TWO_64 && VaToPa(PAGE, Some(pm), back) == pa)
            && (if Pfn(pm[va / 4096]) < FRAME_LIMIT
                then back == 0 <==> pa % 4096 == 0 && FirstMatchIsPage(pm, Pages(PAGE, lines), WantedPfn(pa), 0)
                else !Match(pm, va / 4096, WantedPfn(pa)))
  {
    hide Compose, Pages, PaToVa;
    var i := va / 4096;
    ComposeIsSum(Pfn(pm[i]), va % 4096);
    var pa := VaToPa(PAGE, Some(pm), va);
    assert pa % 4096 == va % 4096 && i * 4096 + pa % 4096 == va;
    MatchIffTranslates(pm, i, pa);
    PaToVaMissesIff(pm, lines, pa);
    PaToVaInverts(pm, lines, pa);
  }

  /** The inverse over addresses: the translation of an address of the k-th mapping, with at
      most 2^22 pages up to its own, is answered with an address of a mapped page that
      translates back. (That address is 0 only for byte 0 of a mapped page 0.) */
  lemma MappedAddressIsFound(pm: Entries, lines: seq<MapsLine>, k: nat, va: u64)
    requires k < |lines| && lines[k].Mapping?
    requires lines[k].start <= va < lines[k].end && lines[k].end + 4095 < TWO_64
    requires PageCount(lines[..k]) + va / 4096 - lines[k].start / 4096 < 0x40_0000
    requires va / 4096 in pm && Present(pm[va / 4096]) && Pfn(pm[va / 4096]) < FRAME_LIMIT
    ensures var pa := VaToPa(PAGE, Some(pm), va);
            && pa < TWO_64
            && var back := PaToVa(PAGE, Some(pm), Some(lines), pa);
            && back < TWO_64
            && VaToPa(PAGE, Some(pm), back) == pa
            && (exists l :: l in lines && l.Mapping? && l.start < l.end
                         && l.start / 4096 <= back / 4096 && back / 4096 * 4096 < l.end)
  {
    hide Pages, PaToVa, VaToPa, Match, Compose;
    PlaceOf(lines, k, va);
    var pages := Pages(PAGE, lines);
    TranslatedIsFound(pm, lines, va, PageCount(lines[..k]) + va / 4096 - lines[k].start / 4096);
    var pa := VaToPa(PAGE, Some(pm), va);
    var back := PaToVa(PAGE, Some(pm), Some(lines), pa);
    PaToVaInverts(pm, lines, pa);
    if back == 0 {
      var j :| 0 <= j < |pages| && IsFirstMatch(pm, pages, WantedPfn(pa), MAX_PAGES, j) && pages[j] == 0;
      MatchTranslates(pm, 0, pa);
    }
    PagesIff(lines, back / 4096);
  }

  /** Both exceptions happen: a frame of 53 bits translates to an address that the scan does
      not find, and so does byte 0 of a mapped page 0. */
  lemma SomeTranslationsAreLost()
    ensures exists pm: Entries :: Lost(pm, [Mapping(4096, 8192)], 4096)
    ensures exists pm: Entries :: Lost(pm, [Mapping(0, 4096)], 0)
  {
    WideFrameIsLost();
    PageZeroIsLost();
  }

  lemma WideFrameIsLost()
    ensures Lost(map[1 := TWO_63 + FRAME_LIMIT + 7], [Mapping(4096, 8192)], 4096)
  {
    hide PaToVa, VaToPa;
    OnlyPage(4096, 8192, 1);
    LonePage(map[1 := TWO_63 + FRAME_LIMIT + 7], [Mapping(4096, 8192)], 1, 7);
  }

  lemma PageZeroIsLost()
    ensures Lost(map[0 := TWO_63 + 7], [Mapping(0, 4096)], 0)
  {
    hide PaToVa, VaToPa;
    OnlyPage(0, 4096, 0);
    LonePage(map[0 := TWO_63 + 7], [Mapping(0, 4096)], 0, 7);
  }

  /** A snapshot of one page: its translation, and what the scan answers for it. */
  lemma LonePage(pm: Entries, lines: seq<MapsLine>, i: nat, frame: nat)
    requires i <= 1 && frame < 4096 && pm.Keys == {i} && Present(pm[i]) && Pages(PAGE, lines) == [i]
    requires Pfn(pm[i]) % FRAME_LIMIT == frame
    ensures VaToPa(PAGE, Some(pm), i * 4096) == frame * 4096
    ensures PaToVa(PAGE, Some(pm), Some(lines), frame * 4096) == if Pfn(pm[i]) == frame then i * 4096 else 0
  {
    hide Compose, Pages, Scan;
    TranslationIsFramePlusOffset(pm, i * 4096);
    ComposeIsSum(i, 0);
    ScanOne(pm, i, WantedPfn(frame * 4096));
  }

  lemma ScanOne(pm: Entries, i: nat, want: nat)
    ensures Scan(pm, [i], want, MAX_PAGES) == if Match(pm, i, want) then Some(i) else None
  {
    assert [i][1..] == [];
  }

  lemma OnlyPage(start: u64, end: u64, i: nat)
    requires start == i * 4096 && end == start + 4096 && i <= 1
    ensures Pages(PAGE, [Mapping(start, end)]) == [i]
  {
    var lines := [Mapping(start, end)];
    assert lines[1..] == [];
    assert Wrap64(end + PAGE - 1) / 4096 == i + 1;
  }

  /** `va` translates to a non-zero address that the scan answers with 0. */
  predicate Lost(pm: Entries, lines: seq<MapsLine>, va: u64) {
    var pa := VaToPa(PAGE, Some(pm), va);
    0 < pa < TWO_64 && PaToVa(PAGE, Some(pm), Some(lines), pa) == 0
  }

  // ----- other page sizes -----

  /** A snapshot that a kernel with pages of `ps` bytes can give: ranges of whole pages, and
      present entries only for mapped ones. */
  predicate Plausible(ps: nat, pm: Entries, lines: seq<MapsLine>)
    requires ps > 0
  {
    && (forall l :: l in lines && l.Mapping? ==> l.start % ps == 0 && l.end % ps == 0)
    && (forall i :: i in pm && Present(pm[i]) ==>
          exists l :: l in lines && l.Mapping? && l.start <= i * ps < l.end)
  }

  /** The shifts are fixed at 12: among the page sizes 4 KiB, 8 KiB, 16 KiB, ... the scan
      inverts the query on every snapshot exactly for 4 KiB pages. (The bound leaves an
      address space of more pages than one page holds 4 KiB units.) */
  lemma InverseOnlyOn4K(j: nat)
    requires PAGE * Pow2(j) <= 0x20_0000_0000
    ensures (forall pm: Entries, lines: seq<MapsLine>, pa: u64 ::
               Plausible(PAGE * Pow2(j), pm, lines) ==> InvertsAt(PAGE * Pow2(j), pm, lines, pa))
            <==> j == 0
  {
    hide PaToVa, VaToPa, Plausible;
    var ps := PAGE * Pow2(j);
    if j == 0 {
      forall pm: Entries, lines: seq<MapsLine>, pa: u64 ensures InvertsAt(ps, pm, lines, pa) {
        PaToVaInverts(pm, lines, pa);
      }
    } else {
      assert Pow2(j) == 2 * Pow2(j - 1);
      ScanMisleads(ps, Pow2(j));
    }
  }

  /** With n 4 KiB units to a page: pages 1 and n are mapped, n is present with frame n and 1
      is not. The scan reads entry n for the first unit of page 1 and answers the start of
      page 1, which the query looks up in entry 1. */
  lemma ScanMisleads(ps: nat, n: nat)
    requires ps == 4096 * n && n >= 2 && ps <= 0x20_0000_0000
    ensures exists pm: Entries, lines: seq<MapsLine>, pa: u64 ::
              Plausible(ps, pm, lines) && !InvertsAt(ps, pm, lines, pa)
  {
    hide PaToVa, VaToPa, Plausible;
    FarPage(ps, n);
    var pm: Entries := map[1 := 0, n := TWO_63 + n];
    var far: u64 := n * ps;
    var lines := [Mapping(ps, 2 * ps), Mapping(far, far + ps)];
    LinesArePlausible(ps, n, far, pm, lines);
    ScanAnswersPageOne(ps, n, pm, lines);
    PageOneIsAbsent(ps, n, pm);
    assert !InvertsAt(ps, pm, lines, ps);
  }

  lemma ScanAnswersPageOne(ps: nat, n: nat, pm: Entries, lines: seq<MapsLine>)
    requires ps == 4096 * n && n >= 2 && ps <= 0x20_0000_0000
    requires pm == map[1 := 0, n := TWO_63 + n]
    requires |lines| == 2 && lines[0] == Mapping(ps, 2 * ps)
    ensures PaToVa(ps, Some(pm), Some(lines), ps) == ps
  {
    hide Scan, Pages, Or;
    FirstUnit(ps, n, lines);
    SelfMod(ps);
    FrameOfPageOne(ps, n);
    FirstPageHits(pm, Pages(ps, lines), WantedPfn(ps));
    ComposeOfPageOne(ps, n);
  }

  lemma FrameOfPageOne(ps: nat, n: nat)
    requires ps == 4096 * n && 2 <= n <= 0x200_0000
    ensures Present(TWO_63 + n) && Pfn(TWO_63 + n) == n == WantedPfn(ps)
  {
  }

  lemma ComposeOfPageOne(ps: nat, n: nat)
    requires ps == 4096 * n && n <= 0x200_0000
    ensures Compose(n, 0) == ps
  {
    hide Or;
    OrRightZero(ps);
  }

  lemma PageOneIsAbsent(ps: nat, n: nat, pm: Entries)
    requires ps == 4096 * n && n >= 2 && ps <= 0x20_0000_0000
    requires 1 in pm && pm[1] == 0
    ensures VaToPa(ps, Some(pm), ps) == 0
  {
    hide Compose;
    SelfMod(ps);
  }

  lemma FarPage(ps: nat, n: nat)
    requires ps == 4096 * n && ps <= 0x20_0000_0000
    ensures 0 <= n * ps && n * ps + ps < TWO_64
  {
    assert n <= 0x200_0000;
    MulMonotone(n, 0x200_0000, ps);
  }

  lemma LinesArePlausible(ps: nat, n: nat, far: u64, pm: Entries, lines: seq<MapsLine>)
    requires ps > 0 && far == n * ps && far + ps < TWO_64 && 2 * ps < TWO_64
    requires pm == map[1 := 0, n := TWO_63 + n]
    requires lines == [Mapping(ps, 2 * ps), Mapping(far, far + ps)]
    ensures Plausible(ps, pm, lines)
  {
    Multiples(ps, n);
    assert lines[1] in lines && lines[1].Mapping? && lines[1].start <= n * ps < lines[1].end;
    forall l | l in lines && l.Mapping? ensures l.start % ps == 0 && l.end % ps == 0 {
      assert l == lines[0] || l == lines[1];
    }
  }

  lemma Multiples(ps: nat, n: nat)
    requires ps > 0
    ensures ps % ps == 0 && (2 * ps) % ps == 0 && (n * ps) % ps == 0 && (n * ps + ps) % ps == 0
  {
    MultipleMod(1, ps);
    MultipleMod(2, ps);
    MultipleMod(n, ps);
    MultipleMod(n + 1, ps);
    assert (n + 1) * ps == n * ps + ps;
  }

  lemma MultipleMod(k: nat, ps: nat)
    requires ps > 0
    ensures (k * ps) % ps == 0
  {
    var q, r := k * ps / ps, k * ps % ps;
    assert (k - q) * ps == r;
    if k > q { MulMonotone(1, k - q, ps); }
    if k < q { MulMonotone(1, q - k, ps); }
  }

  /** The first and the last 4 KiB unit of the range [ps, 2 * ps), rounded up as the code does. */
  lemma UnitsOfPageOne(ps: nat, n: nat)
    requires ps == 4096 * n && 2 <= n <= 0x200_0000
    ensures ps / 4096 == n && Wrap64(Wrap64(2 * ps) + ps - 1) / 4096 == 3 * n - 1
    ensures Wrap64(2 * ps + ps - 1) / 4096 == 3 * n - 1
  {
    assert 2 * ps + ps - 1 == 4096 * (3 * n - 1) + 4095;
  }

  lemma FirstUnit(ps: nat, n: nat, lines: seq<MapsLine>)
    requires ps == 4096 * n && n >= 2 && ps <= 0x20_0000_0000
    requires |lines| == 2 && lines[0] == Mapping(ps, 2 * ps)
    ensures Pages(ps, lines) != [] && Pages(ps, lines)[0] == n
  {
    hide Range;
    UnitsOfPageOne(ps, n);
    assert LinePages(ps, lines[0]) == Range(n, 3 * n - 1);
    assert Pages(ps, lines) == Range(n, 3 * n - 1) + Pages(ps, lines[1..]);
  }

  lemma FirstPageHits(pm: Entries, pages: seq<nat>, want: nat)
    requires pages != [] && Match(pm, pages[0], want)
    ensures Scan(pm, pages, want, MAX_PAGES) == Some(pages[0])
  {
  }

  lemma SelfMod(ps: nat)
    requires ps > 0
    ensures ps % ps == 0 && ps / ps == 1
  {
  }

  predicate InvertsAt(ps: nat, pm: Entries, lines: seq<MapsLine>, pa: u64)
    requires ps > 0
  {
    var va := PaToVa(ps, Some(pm), Some(lines), pa);
    va != 0 ==> va < TWO_64 && VaToPa(ps, Some(pm), va) == pa
  }
}
