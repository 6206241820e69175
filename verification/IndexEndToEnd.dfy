/** The whole index path: build, emit, map, decode and search agree with the naive scan. */
module IndexEndToEnd {
  import opened Words
  import opened Sorting
  import opened IndexReader
  import Fnv
  import B = IndexBuilder

  lemma PeekSlice(file: seq<byte>, at: nat, s: seq<byte>)
    requires at + |s| <= |file| && file[at..at + |s|] == s
    ensures Peek(file, at, |s|) == Some(FromLittleEndian(s))
  {
    hide MappedBytes;
    MappedCovers(file);
    var n := |s|;
    forall i | 0 <= i < n ensures file[at + i] == s[i] { assert file[at..at + n][i] == s[i]; }
    assert Window(file, at, n) == s;
  }

  /** `col` stands in `file` at `at`. */
  predicate At(file: seq<byte>, at: nat, col: seq<byte>) {
    at + |col| <= |file| && file[at..at + |col|] == col
  }

  lemma ColumnDecodes(file: seq<byte>, at: nat, values: seq<nat>, width: nat, i: nat, from: nat)
    requires At(file, at, B.Column(values, width))
    requires i < |values| && from == width * i && values[i] < Pow2(8 * width)
    ensures Peek(file, at + from, width) == Some(values[i])
  {
    LittleEndianRoundTrip(values[i], width);
    B.ColumnAt(values, width, i, from);
    hide Peek, LittleEndian, FromLittleEndian, B.Column, Pow2;
    PeekInside(file, at, B.Column(values, width), from, LittleEndian(values[i], width));
  }

  lemma PeekInside(file: seq<byte>, at: nat, col: seq<byte>, from: nat, s: seq<byte>)
    requires At(file, at, col) && from + |s| <= |col| && col[from..from + |s|] == s
    ensures Peek(file, at + from, |s|) == Some(FromLittleEndian(s))
  {
    hide Peek, FromLittleEndian;
    SliceOfSlice(file, at, at + |col|, from, from + |s|);
    PeekSlice(file, at + from, s);
  }

  predicate BlockAt(file: seq<byte>, at: nat, rows: seq<Row>) {
    at + 12 * |rows| <= |file| && file[at..at + 12 * |rows|] == B.Block(rows)
  }

  lemma BlockDecodes(b: Blob, rows: seq<Row>, i: nat)
    requires BlockAt(b.file, b.hashAt, rows) && b.rvaAt == b.hashAt + 8 * |rows|
    requires i < |rows| && B.InRange(rows)
    ensures HashAt(b, i) == Some(rows[i].0) && RvaAt(b, i) == Some(rows[i].1)
  {
    hide Peek, B.Column, B.Keys, B.Values, At, BlockAt, B.InRange;
    RowInRange(rows, i);
    BlockColumns(b.file, b.hashAt, rows);
    KeyDecodes(b.file, b.hashAt, rows, i);
    ValueDecodes(b.file, b.rvaAt, rows, i);
  }

  lemma RowInRange(rows: seq<Row>, i: nat)
    requires i < |rows| && B.InRange(rows)
    ensures rows[i].0 < TWO_64 && rows[i].1 < TWO_32
  {
    assert rows[i] in rows;
  }

  lemma KeyDecodes(file: seq<byte>, at: nat, rows: seq<Row>, i: nat)
    requires At(file, at, B.Column(B.Keys(rows), 8)) && i < |rows| && rows[i].0 < TWO_64
    ensures Peek(file, at + 8 * i, 8) == Some(rows[i].0)
  {
    hide Peek, B.Column, At;
    Pow2Width64();
    ColumnDecodes(file, at, B.Keys(rows), 8, i, 8 * i);
  }

  lemma ValueDecodes(file: seq<byte>, at: nat, rows: seq<Row>, i: nat)
    requires At(file, at, B.Column(B.Values(rows), 4)) && i < |rows| && rows[i].1 < TWO_32
    ensures Peek(file, at + 4 * i, 4) == Some(rows[i].1)
  {
    hide Peek, B.Column, At;
    Pow2Widths();
    ColumnDecodes(file, at, B.Values(rows), 4, i, 4 * i);
  }

  lemma BlockColumns(file: seq<byte>, at: nat, rows: seq<Row>)
    requires BlockAt(file, at, rows)
    ensures At(file, at, B.Column(B.Keys(rows), 8))
    ensures At(file, at + 8 * |rows|, B.Column(B.Values(rows), 4))
  {
    hide B.Column;
    var n := |rows|;
    SliceOfSlice(file, at, at + 12 * n, 0, 8 * n);
    SliceOfSlice(file, at, at + 12 * n, 8 * n, 12 * n);
    ConcatParts(B.Column(B.Keys(rows), 8), B.Column(B.Values(rows), 4));
  }

  /** What a search of a decoded block answers, in terms of the entries alone. */
  function Expected(entries: seq<B.Entry>, h: u64): nat {
    match B.FirstMatch(entries, h) case None => 0 case Some(v) => v
  }

  /** Nothing for a zero offset, else `base` plus the offset in 64 bits. */
  function AtBase(v: nat, base: u64): nat { if v == 0 then 0 else (base + v) % TWO_64 }

  lemma BlockAnswers(b: Blob, rows: seq<Row>, entries: seq<B.Entry>, h: u64)
    requires BlockAt(b.file, b.hashAt, rows) && b.rvaAt == b.hashAt + 8 * |rows|
    requires b.n == |rows| <= 0x4000_0000 && B.IsIndexOf(rows, entries)
    ensures Lookup(b, h) == Answer(Expected(entries, h))
  {
    hide HashAt, RvaAt, BlockAt;
    forall i | 0 <= i < |rows|
      ensures HashAt(b, i) == Some(rows[i].0) && RvaAt(b, i) == Some(rows[i].1)
    {
      BlockDecodes(b, rows, i);
    }
    BinarySearchRefinesLinear(b, h);
    match B.FirstMatch(entries, h) {
      case Some(v) =>
        assert (h, v) in rows;
        var k :| 0 <= k < |rows| && rows[k] == (h, v);
        LinearHit(b, h, 0, k);
      case None =>
        forall j | 0 <= j < b.n ensures HashAt(b, j) != Some(h) {
          assert rows[j] in rows;
          var v: u32 := rows[j].1;
          assert (rows[j].0, v) in rows;
        }
        LinearMiss(b, h, 0);
    }
  }

  lemma HeaderRoundTrip(ms: seq<Row>, fs: seq<Row>)
    requires |ms| < TWO_32 && |fs| < TWO_32
    ensures ParseHeader(Some(B.IndexFile(ms, fs))) == Counts(|ms|, |fs|)
    ensures BlockAt(B.IndexFile(ms, fs), 12, ms)
    ensures BlockAt(B.IndexFile(ms, fs), 12 + 12 * |ms|, fs)
  {
    hide Peek, B.Block;
    var m, f := LittleEndian(|ms|, 4), LittleEndian(|fs|, 4);
    LittleEndianRoundTrip32(|ms|);
    LittleEndianRoundTrip32(|fs|);
    FileParts(B.MAGIC, m, f, B.Block(ms), B.Block(fs));
    PeekSlice(B.IndexFile(ms, fs), 4, m);
    PeekSlice(B.IndexFile(ms, fs), 8, f);
  }

  lemma FileParts(a: seq<byte>, m: seq<byte>, f: seq<byte>, x: seq<byte>, y: seq<byte>)
    requires |a| == 4 && |m| == 4 && |f| == 4
    ensures var s := a + (m + f) + x + y;
            && s[..4] == a && s[4..8] == m && s[8..12] == f
            && s[12..12 + |x|] == x && s[12 + |x|..12 + |x| + |y|] == y
  {
  }

  /** For all entry lists: when both tables have rows, a lookup in the emitted file is the
      naive scan of the entries, rebased; when either table is empty every lookup in the
      file, of either kind, answers 0. */
  lemma LookupInEmittedFile(kind: Kind, methods: seq<B.Entry>, fields: seq<B.Entry>,
                            ms: seq<Row>, fs: seq<Row>, base: u64, h: u64)
    requires B.IsIndexOf(ms, methods) && B.IsIndexOf(fs, fields)
    requires |ms| <= 0x4000_0000 && |fs| <= 0x4000_0000
    ensures FreshAnswer(kind, Some(B.IndexFile(ms, fs)), base, h) ==
            Answer(if ms == [] || fs == [] then 0
                   else AtBase(Expected(if kind == Method then methods else fields, h), base))
  {
    hide Lookup, B.IndexFile, B.IsIndexOf, BlockAt, ParseHeader;
    HeaderRoundTrip(ms, fs);
    if ms != [] && fs != [] {
      var file := B.IndexFile(ms, fs);
      var b := if kind == Method then LoadBlock(file, 12, |ms|) else LoadBlock(file, 12 + 12 * |ms|, |fs|);
      if kind == Method {
        BlockAnswers(b, ms, methods, h);
      } else {
        BlockAnswers(b, fs, fields, h);
      }
    }
  }

  /** A name that the builder accepted resolves to `base` plus the low half of its
      address, unless an earlier usable name of the same list has the same hash. */
  lemma AcceptedNameResolves(kind: Kind, methods: seq<B.Entry>, fields: seq<B.Entry>,
                             ms: seq<Row>, fs: seq<Row>, base: u64, k: nat, junk: seq<byte>)
    requires B.IsIndexOf(ms, methods) && B.IsIndexOf(fs, fields)
    requires 0 < |ms| <= 0x4000_0000 && 0 < |fs| <= 0x4000_0000
    requires var es := if kind == Method then methods else fields;
             && k < |es| && es[k].name != [] && es[k].addr > 0 && 0 !in es[k].name
             && forall j :: 0 <= j < k && es[j].name != [] && es[j].addr > 0 ==>
                  Fnv.Hash(es[j].name) != Fnv.Hash(es[k].name)
    ensures var e := if kind == Method then methods[k] else fields[k];
            FreshAnswer(kind, Some(B.IndexFile(ms, fs)), base, Fnv.Hash(Fnv.CString(e.name + [0] + junk))) ==
            Answer(AtBase(e.addr % TWO_32, base))
  {
    var es := if kind == Method then methods else fields;
    Fnv.ReaderAgreesWithBuilder(es[k].name, junk);
    LookupInEmittedFile(kind, methods, fields, ms, fs, base, Fnv.Hash(es[k].name));
    B.FirstMatchFindsName(es, k);
  }

  // ----- the size at which `lo + hi` overflows -----

  ghost predicate ValidTable(rows: seq<Row>) { StrictlySorted(rows) && B.InRange(rows) }

  /** The methods block of the file that holds `rows` in both tables, as the reader loads it. */
  function Loaded(rows: seq<Row>): Blob
    requires |rows| < TWO_32
  {
    LoadBlock(B.IndexFile(rows, rows), 12, |rows|)
  }

  /** Row i holds hash i. */
  function Ramp(n: nat): (rows: seq<Row>)
    ensures |rows| == n && forall i {:trigger rows[i]} :: 0 <= i < n ==> rows[i] == (i, 0)
  {
    seq(n, i requires 0 <= i < n => (i, 0))
  }

  lemma RampIsValid(n: nat)
    requires n <= INT_MAX
    ensures ValidTable(Ramp(n))
  {
    hide Ramp;
  }

  lemma RampHashes(n: nat, i: nat)
    requires i < n <= INT_MAX
    ensures HashAt(Loaded(Ramp(n)), i) == Some(i)
  {
    hide HashAt, RvaAt, B.IndexFile, BlockAt, ParseHeader, Ramp, ValidTable;
    RampIsValid(n);
    HeaderRoundTrip(Ramp(n), Ramp(n));
    TableInRange(Ramp(n));
    BlockDecodes(Loaded(Ramp(n)), Ramp(n), i);
  }

  lemma TableInRange(rows: seq<Row>)
    requires ValidTable(rows)
    ensures B.InRange(rows)
  {
  }

  lemma RampOverflows(n: int)
    requires 0x4000_0000 < n <= INT_MAX
    ensures ValidTable(Ramp(n)) && Lookup(Loaded(Ramp(n)), n) == SignedOverflow
  {
    hide HashAt, B.IndexFile, Ramp, ValidTable, Search;
    RampIsValid(n);
    var b := Loaded(Ramp(n));
    forall i | 0 <= i < n ensures HashAt(b, i) == Some(i) { RampHashes(n, i); }
    RightwardSearchOverflows(b, n, 0, n - 1);
  }

  /** A search of an emitted table of `n` rows is free of signed overflow for every table and
      every hash exactly when `n` is at most 2^30. */
  lemma OverflowThreshold(n: int)
    requires 0 < n <= INT_MAX
    ensures (forall rows: seq<Row>, h: u64 :: |rows| == n && ValidTable(rows) ==>
               Lookup(Loaded(rows), h) != SignedOverflow)
            <==> n <= 0x4000_0000
  {
    hide Lookup, ValidTable, Ramp, B.IndexFile;
    if n <= 0x4000_0000 {
      forall rows: seq<Row>, h: u64 | |rows| == n && ValidTable(rows)
        ensures Lookup(Loaded(rows), h) != SignedOverflow
      {
        NoOverflowUpTo2To30(Loaded(rows), h);
      }
    } else {
      RampOverflows(n);
    }
  }
}
