/** il2cpp_index.py: from (name, address) entries to the rows and bytes of the index file. */
module IndexBuilder {
  import opened Words
  import opened Sorting
  import Fnv

  datatype Entry = Entry(name: seq<byte>, addr: int)

  predicate Usable(e: Entry) { e.name != [] && e.addr > 0 }

  /** The naive scan the index stands for: the low 32 bits of the address of the first
      usable entry whose name hashes to `h`. */
  function FirstMatch(entries: seq<Entry>, h: u64): Option<u32> {
    if entries == [] then None
    else
      var n := |entries| - 1;
      var earlier := FirstMatch(entries[..n], h);
      if earlier.Some? then earlier
      else if Usable(entries[n]) && Fnv.Hash(entries[n].name) == h then Some(entries[n].addr % TWO_32)
      else None
  }

  ghost predicate InRange(rows: seq<Row>) {
    forall r :: r in rows ==> r.0 < TWO_64 && r.1 < TWO_32
  }

  ghost predicate Represents(rows: seq<Row>, entries: seq<Entry>) {
    InRange(rows) && forall h: u64, v: u32 :: (h, v) in rows <==> FirstMatch(entries, h) == Some(v)
  }

  /** The table that `build` returns: strictly ascending, and one row for every hash that
      the naive scan finds. */
  ghost predicate IsIndexOf(rows: seq<Row>, entries: seq<Entry>) {
    StrictlySorted(rows) && Represents(rows, entries)
  }

  method Build(entries: seq<Entry>) returns (rows: seq<Row>)
    ensures IsIndexOf(rows, entries)
  {
    var seen: set<u64> := {};
    rows := [];
    for i := 0 to |entries|
      invariant forall h: u64 :: h in seen <==> FirstMatch(entries[..i], h).Some?
      invariant forall k :: 0 <= k < |rows| ==> rows[k].0 in seen
      invariant DistinctKeys(rows) && Represents(rows, entries[..i])
    {
      var e := entries[i];
      assert entries[..i + 1][..i] == entries[..i];
      if !Usable(e) { continue; }
      var h := Fnv.HashBytes(e.name);
      if h in seen { continue; }
      seen := seen + {h};
      rows := rows + [(h, e.addr % TWO_32)];
    }
    assert entries[..|entries|] == entries;
    var unsorted := rows;
    rows := SortByKey(rows);
    SortKeepsRows(rows, unsorted);
    DistinctSortsStrictly(rows, unsorted);
  }

  /** The entries determine the table: any two tables for the same entries are equal. */
  lemma IndexUnique(a: seq<Row>, b: seq<Row>, entries: seq<Entry>)
    requires IsIndexOf(a, entries) && IsIndexOf(b, entries)
    ensures a == b
  {
    forall r | r in a ensures r in b { assert (r.0, r.1) in b; }
    forall r | r in b ensures r in a { assert (r.0, r.1) in a; }
    SameRows(a, b);
  }

  lemma {:induction false} SameRows(a: seq<Row>, b: seq<Row>)
    requires StrictlySorted(a) && StrictlySorted(b)
    requires forall r :: r in a <==> r in b
    ensures a == b
  {
    if b != [] { assert b[0] in b; }
    if a != [] {
      assert a[0] in b;
      assert b[0] in a;
      assert a[0] == b[0];
      forall r ensures r in a[1..] <==> r in b[1..] {
        if r in a[1..] { assert r in a && r.0 > a[0].0; assert r in b; }
        if r in b[1..] { assert r in b && r.0 > b[0].0; assert r in a; }
      }
      SameRows(a[1..], b[1..]);
    }
  }

  /** An entry with a name and a positive address is found, and with its own address unless an
      earlier one of that kind has its hash. */
  lemma {:induction false} FirstMatchFindsName(entries: seq<Entry>, k: nat)
    requires k < |entries| && entries[k].name != [] && entries[k].addr > 0
    ensures FirstMatch(entries, Fnv.Hash(entries[k].name)).Some?
    ensures (forall j :: 0 <= j < k && entries[j].name != [] && entries[j].addr > 0 ==>
                           Fnv.Hash(entries[j].name) != Fnv.Hash(entries[k].name)) ==>
              FirstMatch(entries, Fnv.Hash(entries[k].name)) == Some(entries[k].addr % TWO_32)
    decreases |entries|
  {
    var n := |entries| - 1;
    if k < n {
      FirstMatchFindsName(entries[..n], k);
    } else if FirstMatch(entries[..n], Fnv.Hash(entries[k].name)).Some? {
      FirstMatchHasEntry(entries[..n], Fnv.Hash(entries[k].name));
    }
  }

  /** A hit comes from an entry with a name, a positive address and that hash. */
  lemma {:induction false} FirstMatchHasEntry(entries: seq<Entry>, h: u64)
    requires FirstMatch(entries, h).Some?
    ensures exists j :: 0 <= j < |entries| && entries[j].name != [] && entries[j].addr > 0
                     && Fnv.Hash(entries[j].name) == h
                     && FirstMatch(entries, h) == Some(entries[j].addr % TWO_32)
  {
    var n := |entries| - 1;
    if FirstMatch(entries[..n], h).Some? {
      FirstMatchHasEntry(entries[..n], h);
      var j :| 0 <= j < n && entries[..n][j].name != [] && entries[..n][j].addr > 0
               && Fnv.Hash(entries[..n][j].name) == h && FirstMatch(entries, h) == Some(entries[..n][j].addr % TWO_32);
      assert entries[j] == entries[..n][j];
    } else {
      assert Usable(entries[n]);
    }
  }

  // ----- the binary file -----

  const MAGIC: seq<byte> := [0x4c, 0x58, 0x32, 0x49]  // "LX2I"

  function Column(values: seq<nat>, width: nat): (s: seq<byte>)
    ensures |s| == width * |values|
  {
    if values == [] then []
    else
      var n := |values| - 1;
      assert width * |values| == width * n + width;
      Column(values[..n], width) + LittleEndian(values[n], width)
  }

  lemma ColumnSnoc(values: seq<nat>, width: nat, i: nat)
    requires i < |values|
    ensures Column(values[..i + 1], width) == Column(values[..i], width) + LittleEndian(values[i], width)
  {
    assert values[..i + 1][..i] == values[..i];
  }

  lemma {:induction false} ColumnPrefix(values: seq<nat>, width: nat, i: nat)
    requires i <= |values|
    ensures Column(values[..i], width) <= Column(values, width)
    decreases |values| - i
  {
    if i == |values| {
      assert values[..i] == values;
    } else {
      ColumnSnoc(values, width, i);
      ColumnPrefix(values, width, i + 1);
    }
  }

  /** Entry `i` stands at offset `from`, which is `width * i`. */
  lemma ColumnAt(values: seq<nat>, width: nat, i: nat, from: nat)
    requires i < |values| && from == width * i
    ensures from + width <= |Column(values, width)|
    ensures Column(values, width)[from..from + width] == LittleEndian(values[i], width)
  {
    ColumnSnoc(values, width, i);
    ColumnPrefix(values, width, i + 1);
    var before := Column(values[..i], width);
    assert |before| == from;
    assert before + LittleEndian(values[i], width) <= Column(values, width);
  }

  function Keys(rows: seq<Row>): (ks: seq<nat>)
    ensures |ks| == |rows| && forall i :: 0 <= i < |rows| ==> ks[i] == rows[i].0
  {
    seq(|rows|, i requires 0 <= i < |rows| => rows[i].0)
  }

  function Values(rows: seq<Row>): (vs: seq<nat>)
    ensures |vs| == |rows| && forall i :: 0 <= i < |rows| ==> vs[i] == rows[i].1
  {
    seq(|rows|, i requires 0 <= i < |rows| => rows[i].1)
  }

  function Block(rows: seq<Row>): (s: seq<byte>)
    ensures |s| == 12 * |rows|
  {
    Column(Keys(rows), 8) + Column(Values(rows), 4)
  }

  function IndexFile(methods: seq<Row>, fields: seq<Row>): seq<byte> {
    MAGIC + (LittleEndian(|methods|, 4) + LittleEndian(|fields|, 4)) + Block(methods) + Block(fields)
  }

  class BinaryFile {
    var bytes: seq<byte>

    constructor ()
      ensures bytes == []
    {
      bytes := [];
    }

    method Write(s: seq<byte>)
      modifies this
      ensures bytes == old(bytes) + s
    {
      bytes := bytes + s;
    }

    method EmitBin(rows: seq<Row>)
      modifies this
      ensures bytes == old(bytes) + Block(rows)
    {
      ghost var start, ks, vs := bytes, Keys(rows), Values(rows);
      for i := 0 to |rows|
        invariant bytes == start + Column(ks[..i], 8)
      {
        ColumnSnoc(ks, 8, i);
        Assoc(start, Column(ks[..i], 8), LittleEndian(ks[i], 8));
        Write(LittleEndian(rows[i].0, 8));
      }
      assert ks[..|rows|] == ks;
      ghost var middle := bytes;
      for i := 0 to |rows|
        invariant bytes == middle + Column(vs[..i], 4)
      {
        ColumnSnoc(vs, 4, i);
        Assoc(middle, Column(vs[..i], 4), LittleEndian(vs[i], 4));
        Write(LittleEndian(rows[i].1, 4));
      }
      assert vs[..|rows|] == vs;
      Assoc(start, Column(ks, 8), Column(vs, 4));
    }

    /** `struct.pack("<II", ...)` refuses a count of 2^32 or more; the file then holds
        the magic alone. */
    method WriteIndex(methods: seq<Row>, fields: seq<Row>) returns (ok: bool)
      modifies this
      ensures ok <==> |methods| < TWO_32 && |fields| < TWO_32
      ensures bytes == if ok then IndexFile(methods, fields) else MAGIC
    {
      hide Block, LittleEndian;
      bytes := [];  // opened for writing: truncated
      Write(MAGIC);
      if |methods| >= TWO_32 || |fields| >= TWO_32 { return false; }
      Write(LittleEndian(|methods|, 4) + LittleEndian(|fields|, 4));
      EmitBin(methods);
      EmitBin(fields);
      ok := true;
    }
  }
}
