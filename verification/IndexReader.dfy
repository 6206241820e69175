/** lxgr_il2cpp.c: mapping an index file, decoding its header and searching a block.
    A mapping is readable up to the end of its last page (zeros past the end of the
    file); a read beyond that is a bus error. `int` arithmetic must not overflow. */
module IndexReader {
  import opened Words
  import Fnv
  import B = IndexBuilder

  const INT_MAX: int := 0x7fff_ffff
  const INT_MIN: int := -0x8000_0000

  type PageSize = n: nat | 16 <= n witness 4096

  const PAGE: PageSize  // the system's page size, whatever it is

  /** What running a search comes to. */
  datatype Probe = Answer(v: nat) | BusError | SignedOverflow

  /** `struct index_blob`: two arrays inside one mapping, and a signed count. */
  datatype Blob = Blob(file: seq<byte>, hashAt: nat, rvaAt: nat, n: i32)

  const NULL_BLOB := Blob([], 0, 0, 0)

  /** The file's length, rounded up to whole pages. */
  function MappedBytes(file: seq<byte>): nat { (|file| + PAGE - 1) / PAGE * PAGE }

  lemma MappedCovers(file: seq<byte>)
    ensures MappedBytes(file) >= |file|
    ensures file != [] ==> MappedBytes(file) >= PAGE
    ensures MappedBytes(file) < |file| + PAGE
  {
    var n := |file| + PAGE - 1;
    assert n / PAGE * PAGE == n - n % PAGE;
    if file != [] { MulMonotone(1, n / PAGE, PAGE); }
  }

  function Window(file: seq<byte>, at: nat, n: nat): (s: seq<byte>)
    ensures |s| == n
    ensures forall i :: 0 <= i < n ==> s[i] == if at + i < |file| then file[at + i] else 0
  {
    seq(n, i requires 0 <= i < n => if at + i < |file| then file[at + i] else 0)
  }

  function Peek(file: seq<byte>, at: nat, n: nat): Option<nat> {
    if at + n > MappedBytes(file) then None else Some(FromLittleEndian(Window(file, at, n)))
  }

  function HashAt(b: Blob, i: nat): Option<nat> { Peek(b.file, b.hashAt + 8 * i, 8) }

  function RvaAt(b: Blob, i: nat): Option<nat> { Peek(b.file, b.rvaAt + 4 * i, 4) }

  function Read(v: Option<nat>): Probe { if v.Some? then Answer(v.value) else BusError }

  /** The loop of `lookup` from the bounds `lo`, `hi`. */
  function Search(b: Blob, h: u64, lo: nat, hi: int): Probe
    requires hi <= INT_MAX
    decreases hi - lo + 1
  {
    if lo > hi then Answer(0)
    else if lo + hi > INT_MAX then SignedOverflow
    else
      var mid := (lo + hi) / 2;
      match HashAt(b, mid)
      case None => BusError
      case Some(k) =>
        if k < h then Search(b, h, mid + 1, hi)
        else if k > h then Search(b, h, lo, mid - 1)
        else Read(RvaAt(b, mid))
  }

  function Lookup(b: Blob, h: u64): Probe {
    if b.n == INT_MIN then SignedOverflow else Search(b, h, 0, b.n - 1)
  }

  method LookupName(b: Blob, name: seq<byte>) returns (p: Probe)
    requires 0 in name
    ensures p == Lookup(b, Fnv.Hash(Fnv.CString(name)))
  {
    hide HashAt, RvaAt;
    var h := Fnv.HashCString(name);
    if b.n == INT_MIN { return SignedOverflow; }
    var lo, hi := 0, b.n - 1;
    while lo <= hi
      invariant 0 <= lo && hi <= INT_MAX
      invariant Search(b, h, lo, hi) == Search(b, h, 0, b.n - 1)
      decreases hi - lo + 1
    {
      if lo + hi > INT_MAX { return SignedOverflow; }
      var mid := (lo + hi) / 2;
      var k := HashAt(b, mid);
      if k.None? { return BusError; }
      if k.value < h {
        lo := mid + 1;
      } else if k.value > h {
        hi := mid - 1;
      } else {
        return Read(RvaAt(b, mid));
      }
    }
    p := Answer(0);
  }

  // ----- binary search against the linear scan -----

  predicate Readable(b: Blob) {
    forall i :: 0 <= i < b.n ==> HashAt(b, i).Some? && RvaAt(b, i).Some?
  }

  predicate Ascending(b: Blob)
    requires Readable(b)
  {
    forall i, j :: 0 <= i < j < b.n ==> HashAt(b, i).value < HashAt(b, j).value
  }

  /** The first slot at or after `i` holding `h`, read front to back. */
  function Linear(b: Blob, h: u64, i: nat): Probe
    decreases b.n - i
  {
    if i >= b.n then Answer(0)
    else if HashAt(b, i) == Some(h) then Read(RvaAt(b, i))
    else Linear(b, h, i + 1)
  }

  lemma {:induction false} LinearHit(b: Blob, h: u64, i: nat, k: nat)
    requires i <= k < b.n && HashAt(b, k) == Some(h)
    requires forall j :: i <= j < k ==> HashAt(b, j) != Some(h)
    ensures Linear(b, h, i) == Read(RvaAt(b, k))
    decreases k - i
  {
    if i < k { LinearHit(b, h, i + 1, k); }
  }

  lemma {:induction false} LinearMiss(b: Blob, h: u64, i: nat)
    requires forall j :: i <= j < b.n ==> HashAt(b, j) != Some(h)
    ensures Linear(b, h, i) == Answer(0)
    decreases b.n - i
  {
    if i < b.n { LinearMiss(b, h, i + 1); }
  }

  /** One probe rules out every slot on the wrong side of `mid`. */
  lemma ProbeExcludes(b: Blob, h: u64, mid: nat, j: nat)
    requires mid < b.n && j < b.n && Readable(b) && Ascending(b)
    ensures HashAt(b, mid).value < h && j <= mid ==> HashAt(b, j) != Some(h)
    ensures HashAt(b, mid).value > h && mid <= j ==> HashAt(b, j) != Some(h)
    ensures HashAt(b, mid).value == h && j < mid ==> HashAt(b, j) != Some(h)
  {
    hide HashAt, RvaAt;
  }

  lemma {:induction false} SearchWithin(b: Blob, h: u64, lo: nat, hi: int)
    requires hi < b.n <= 0x4000_0000 && Readable(b) && Ascending(b)
    requires forall j :: 0 <= j < b.n && HashAt(b, j) == Some(h) ==> lo <= j <= hi
    ensures Search(b, h, lo, hi) == Linear(b, h, 0)
    decreases hi - lo + 1
  {
    hide HashAt, RvaAt, Ascending;
    if lo > hi {
      LinearMiss(b, h, 0);
    } else {
      var mid := (lo + hi) / 2;
      forall j | 0 <= j < b.n { ProbeExcludes(b, h, mid, j); }
      var k := HashAt(b, mid).value;
      if k < h {
        SearchWithin(b, h, mid + 1, hi);
      } else if k > h {
        SearchWithin(b, h, lo, mid - 1);
      } else {
        LinearHit(b, h, 0, mid);
      }
    }
  }

  /** On an ascending table of at most 2^30 rows the binary search is the linear scan; it
      reads inside the table and its sums stay in range. */
  lemma BinarySearchRefinesLinear(b: Blob, h: u64)
    requires 0 <= b.n <= 0x4000_0000 && Readable(b) && Ascending(b)
    ensures Lookup(b, h) == Linear(b, h, 0)
    ensures Lookup(b, h).Answer?
  {
    SearchWithin(b, h, 0, b.n - 1);
    LinearAnswers(b, h, 0);
  }

  lemma {:induction false} LinearAnswers(b: Blob, h: u64, i: nat)
    requires Readable(b)
    ensures Linear(b, h, i).Answer?
    decreases b.n - i
  {
    if i < b.n { LinearAnswers(b, h, i + 1); }
  }

  lemma {:induction false} ReadableNeverFaults(b: Blob, h: u64, lo: nat, hi: int)
    requires hi < b.n && Readable(b)
    ensures Search(b, h, lo, hi) != BusError
    decreases hi - lo + 1
  {
    hide HashAt, RvaAt;
    if lo <= hi {
      var mid := (lo + hi) / 2;
      ReadableNeverFaults(b, h, mid + 1, hi);
      ReadableNeverFaults(b, h, lo, mid - 1);
    }
  }

  /** A readable table of at most 2^30 rows, ascending or not, always gets an answer. */
  lemma ReadableAnswers(b: Blob, h: u64)
    requires INT_MIN < b.n <= 0x4000_0000 && Readable(b)
    ensures Lookup(b, h).Answer?
  {
    ReadableNeverFaults(b, h, 0, b.n - 1);
    NoOverflowBelow(b, h, 0, b.n - 1);
  }

  /** Counts from 2^31 on are negative as an `int`: nothing is ever found, except that for 2^31
      itself `n - 1` overflows. */
  lemma NegativeCount(file: seq<byte>, at: nat, count: u32, h: u64)
    requires count >= 0x8000_0000
    ensures Lookup(LoadBlock(file, at, count), h) == if count == 0x8000_0000 then SignedOverflow else Answer(0)
  {
  }

  // ----- the size at which `lo + hi` overflows -----

  lemma {:induction false} NoOverflowBelow(b: Blob, h: u64, lo: nat, hi: int)
    requires hi < 0x4000_0000
    ensures Search(b, h, lo, hi) != SignedOverflow
    decreases hi - lo + 1
  {
    if lo <= hi {
      var mid := (lo + hi) / 2;
      NoOverflowBelow(b, h, mid + 1, hi);
      NoOverflowBelow(b, h, lo, mid - 1);
    }
  }

  /** Up to 2^30 rows no table at all, ascending or not, makes `lo + hi` overflow. */
  lemma NoOverflowUpTo2To30(b: Blob, h: u64)
    requires 0 <= b.n <= 0x4000_0000
    ensures Lookup(b, h) != SignedOverflow
  {
    NoOverflowBelow(b, h, 0, b.n - 1);
  }

  lemma {:induction false} RightwardSearchOverflows(b: Blob, h: u64, lo: nat, hi: int)
    requires 0x4000_0000 <= hi <= INT_MAX && lo <= hi
    requires forall i :: 0 <= i <= hi ==> HashAt(b, i).Some? && HashAt(b, i).value < h
    ensures Search(b, h, lo, hi) == SignedOverflow
    decreases hi - lo
  {
    if lo + hi <= INT_MAX { RightwardSearchOverflows(b, h, (lo + hi) / 2 + 1, hi); }
  }

  // ----- loading -----

  /** `(int)count` of a 32-bit count. */
  function LoadBlock(file: seq<byte>, at: nat, count: u32): Blob {
    if count > 0 then Blob(file, at, at + 8 * count, Signed32(count)) else NULL_BLOB
  }

  /** The counts are never compared with the size of the file: a block is readable exactly
      when it has no rows, as an `int`, or ends inside the last mapped page. */
  lemma BlockReadableIff(file: seq<byte>, at: nat, count: u32)
    ensures Readable(LoadBlock(file, at, count)) <==> Signed32(count) <= 0 || at + 12 * count <= MappedBytes(file)
  {
    hide MappedBytes;
    var b := LoadBlock(file, at, count);
    if b.n > 0 && Readable(b) { assert RvaAt(b, b.n - 1).Some?; }
  }

  /** A block that the file holds in full is readable. */
  lemma CoveredBlockAnswers(file: seq<byte>, at: nat, count: u32, h: u64)
    requires at + 12 * count <= |file| && count <= 0x4000_0000
    ensures Lookup(LoadBlock(file, at, count), h).Answer?
  {
    MappedCovers(file);
    BlockReadableIff(file, at, count);
    ReadableAnswers(LoadBlock(file, at, count), h);
  }

  /** The header, once open, fstat and mmap have all succeeded. */
  datatype Header = Refused | Counts(nm: u32, nf: u32)

  function ParseHeader(content: Option<seq<byte>>): Header {
    if content.None? || |content.value| < 8 then Refused
    else
      var file := content.value;
      if file[..4] != B.MAGIC then Refused
      else
        PeekBound32(file, 4);
        PeekBound32(file, 8);
        Counts(Peek(file, 4, 4).value, Peek(file, 8, 4).value)
  }

  /** A file is accepted from eight bytes on, with "LX2I" in front; the counts are the two
      little-endian words behind that, zero-filled past the end. */
  lemma HeaderAcceptedIff(content: Option<seq<byte>>)
    ensures ParseHeader(content).Counts? <==>
            content.Some? && |content.value| >= 8 && forall i :: 0 <= i < 4 ==> content.value[i] == "LX2I"[i] as int
    ensures ParseHeader(content).Counts? ==>
              ParseHeader(content) == Counts(FromLittleEndian(Window(content.value, 4, 4)),
                                             FromLittleEndian(Window(content.value, 8, 4)))
  {
    if content.Some? && |content.value| >= 8 {
      var file := content.value;
      assert file[..4] == [file[0], file[1], file[2], file[3]];
      assert "LX2I"[0] as int == 0x4c && "LX2I"[1] as int == 0x58;
      assert "LX2I"[2] as int == 0x32 && "LX2I"[3] as int == 0x49;
      MappedCovers(file);
      PeekBound32(file, 4);
      PeekBound32(file, 8);
    }
  }

  lemma PeekBound32(file: seq<byte>, at: nat)
    requires at + 4 <= PAGE && |file| > 0
    ensures Peek(file, at, 4).Some? && Peek(file, at, 4).value < TWO_32
  {
    hide MappedBytes;
    MappedCovers(file);
    Pow2Widths();
    DecodeBound(Window(file, at, 4));
  }

  /** A load into empty statics: both blocks, or failure. */
  function FreshLoad(content: Option<seq<byte>>): Option<(Blob, Blob)> {
    match ParseHeader(content)
    case Refused => None
    case Counts(nm, nf) =>
      if nm == 0 || nf == 0 then None
      else Some((LoadBlock(content.value, 12, nm), LoadBlock(content.value, 12 + 12 * nm, nf)))
  }

  /** The loader never notices a missing tail: a block whose middle row lies past the mapping
      faults whatever is asked for. */
  lemma MissingMiddleFaults(b: Blob, h: u64)
    requires 0 < b.n && b.hashAt + 8 * ((b.n - 1) / 2) + 8 > MappedBytes(b.file)
    ensures Lookup(b, h) == BusError
  {
    hide MappedBytes;
  }

  const TRUNCATED: seq<byte> := B.MAGIC + [0xff, 0xff, 0xff, 0x7f] + [1, 0, 0, 0]

  /** A file that is cut off behind its header: it loads, and every lookup of a method faults,
      on any page size up to 8 GiB. */
  lemma TruncatedFileFaults(base: u64, h: u64)
    requires PAGE <= 0x2_0000_0000
    ensures FreshLoad(Some(TRUNCATED)).Some?
    ensures FreshAnswer(Method, Some(TRUNCATED), base, h) == BusError
  {
    hide Lookup, Peek, MappedBytes;
    TruncatedCounts();
    OnePage();
    MissingMiddleFaults(LoadBlock(TRUNCATED, 12, INT_MAX), h);
  }

  lemma OnePage()
    ensures MappedBytes(TRUNCATED) == PAGE
  {
    var n := 12 + PAGE - 1;
    var q := n / PAGE;
    assert q * PAGE == n - n % PAGE;
    if q >= 2 { MulMonotone(2, q, PAGE); }
  }

  lemma TruncatedCounts()
    ensures Peek(TRUNCATED, 4, 4) == Some(INT_MAX) && Peek(TRUNCATED, 8, 4) == Some(1)
  {
    OnePage();
    hide MappedBytes;
    assert Window(TRUNCATED, 4, 4) == [0xff, 0xff, 0xff, 0x7f] && Window(TRUNCATED, 8, 4) == [1, 0, 0, 0];
    assert FromLittleEndian([0xff, 0xff, 0xff, 0x7f]) == INT_MAX && FromLittleEndian([1, 0, 0, 0]) == 1;
  }

  datatype Kind = Method | Field

  function Pick(kind: Kind, blocks: (Blob, Blob)): Blob {
    if kind == Method then blocks.0 else blocks.1
  }

  /** `r ? base + r : 0` in 64 bits. */
  function Rebase(p: Probe, base: u64): Probe {
    if p.Answer? && p.v != 0 then Answer(Wrap64(base + p.v)) else p
  }

  /** The answer of `lxgr_il2cpp_method_file` / `lxgr_il2cpp_field_file` with nothing cached. */
  function FreshAnswer(kind: Kind, content: Option<seq<byte>>, base: u64, h: u64): Probe {
    match FreshLoad(content)
    case None => Answer(0)
    case Some(blocks) => Rebase(Lookup(Pick(kind, blocks), h), base)
  }
}
