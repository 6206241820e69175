/** main.c: rebuilding a mapped library's file image from its segments. */
module LibDump {
  import opened Words
  import opened Process
  import PhysMap
  import Pagemap
  import S = Sorting

  const MAX_SEGS: nat := 512

  /** A line of /proc/<pid>/maps: whether it contains the library's name, and what the
      four-field `sscanf` makes of it. */
  datatype MapsLine = MapsLine(named: bool, fields: Option<Fields>)
  datatype Fields = Fields(start: u64, end: u64, readable: bool, off: u64)

  datatype Seg = Seg(start: u64, end: u64, off: u64)

  function Size(s: Seg): (n: u64)
    ensures n == if s.start <= s.end then s.end - s.start else TWO_64 - (s.start - s.end)
  {
    Wrap64(s.end - s.start)
  }

  predicate Wanted(line: MapsLine) {
    line.named && line.fields.Some? && line.fields.value.readable
  }

  /** The wanted segments in maps order, at most `room` of them. */
  function Segments(lines: seq<MapsLine>, room: nat): (segs: seq<Seg>)
    ensures |segs| <= room
  {
    if lines == [] || room == 0 then []
    else if Wanted(lines[0]) then
      var f := lines[0].fields.value;
      [Seg(f.start, f.end, f.off)] + Segments(lines[1..], room - 1)
    else Segments(lines[1..], room)
  }

  function SegOf(line: MapsLine): Seg
    requires line.fields.Some?
  {
    Seg(line.fields.value.start, line.fields.value.end, line.fields.value.off)
  }

  /** Only readable lines that parse and carry the name become segments, with their own
      fields, and all of them do while there is room. */
  lemma {:induction false} SegmentsAreWanted(lines: seq<MapsLine>, room: nat, f: Fields)
    ensures Seg(f.start, f.end, f.off) in Segments(lines, room) ==>
              exists l :: l in lines && l.named && l.fields.Some? && l.fields.value.readable
                       && SegOf(l) == Seg(f.start, f.end, f.off)
    ensures |Segments(lines, room)| < room && f.readable && MapsLine(true, Some(f)) in lines ==>
              Seg(f.start, f.end, f.off) in Segments(lines, room)
  {
    if lines != [] && room > 0 {
      assert lines == [lines[0]] + lines[1..];
      SegmentsAreWanted(lines[1..], if Wanted(lines[0]) then room - 1 else room, f);
    }
  }

  function CountWanted(lines: seq<MapsLine>): nat {
    if lines == [] then 0 else (if Wanted(lines[0]) then 1 else 0) + CountWanted(lines[1..])
  }

  /** Line `i` is one of the first `room` readable lines with the name. */
  predicate Kept(lines: seq<MapsLine>, room: nat, i: nat) {
    && i < |lines| && lines[i].named && lines[i].fields.Some? && lines[i].fields.value.readable
    && CountWanted(lines[..i]) < room
  }

  /** The kept lines are the segments, in maps order. */
  lemma {:induction false} KeptIsSegment(lines: seq<MapsLine>, room: nat, i: nat)
    requires Kept(lines, room, i)
    ensures var k := CountWanted(lines[..i]);
            k < |Segments(lines, room)| && Segments(lines, room)[k] == SegOf(lines[i])
  {
    if i > 0 {
      assert lines[..i][1..] == lines[1..][..i - 1];
      KeptIsSegment(lines[1..], if Wanted(lines[0]) then room - 1 else room, i - 1);
    }
  }

  lemma {:induction false} SegmentIsKept(lines: seq<MapsLine>, room: nat, k: nat) returns (i: nat)
    requires k < |Segments(lines, room)|
    ensures Kept(lines, room, i) && CountWanted(lines[..i]) == k
    decreases |lines|
  {
    if Wanted(lines[0]) && k == 0 {
      i := 0;
    } else {
      var w := if Wanted(lines[0]) then 1 else 0;
      var j := SegmentIsKept(lines[1..], room - w, k - w);
      i := j + 1;
      assert lines[..i][1..] == lines[1..][..j];
    }
  }

  lemma KeptInOrder(lines: seq<MapsLine>, room: nat, i: nat, j: nat)
    requires Kept(lines, room, i) && Kept(lines, room, j)
    ensures i < j <==> CountWanted(lines[..i]) < CountWanted(lines[..j])
  {
    if i < j { CountGrows(lines, i, j); }
    if j < i { CountGrows(lines, j, i); }
  }

  lemma {:induction false} CountGrows(lines: seq<MapsLine>, i: nat, j: nat)
    requires i < j <= |lines| && Wanted(lines[i])
    ensures CountWanted(lines[..i]) < CountWanted(lines[..j])
    decreases j
  {
    assert lines[..j] == lines[..j - 1] + [lines[j - 1]];
    CountSnoc(lines[..j - 1], lines[j - 1]);
    if i < j - 1 { CountGrows(lines, i, j - 1); }
  }

  lemma {:induction false} CountSnoc(lines: seq<MapsLine>, l: MapsLine)
    ensures CountWanted(lines + [l]) == CountWanted(lines) + if Wanted(l) then 1 else 0
  {
    if lines == [] {
      assert [l][1..] == [];
    } else {
      assert (lines + [l])[1..] == lines[1..] + [l];
      CountSnoc(lines[1..], l);
    }
  }

  function Max(a: int, b: int): int { if a >= b then a else b }

  /** The running maximum of `off + size`, in 64 bits. */
  function Total(segs: seq<Seg>): u64 {
    if segs == [] then 0
    else
      var s := segs[|segs| - 1];
      Max(Total(segs[..|segs| - 1]), Wrap64(s.off + Size(s)))
  }

  // ----- the dumps, one after another -----

  /** The images that the segment dumps leave, up to the first failure. */
  function Images(mem: Memory, segs: seq<Seg>, q: Script): (seq<seq<byte>>, Script) {
    if segs == [] then ([], q)
    else
      var s := segs[0];
      var (image, q1) := DumpRun(mem, s.start, Size(s), s.off, q);
      if |image| < Size(s) then ([image], q1)
      else
        var (rest, q2) := Images(mem, segs[1..], q1);
        ([image] + rest, q2)
  }

  predicate Complete(segs: seq<Seg>, images: seq<seq<byte>>) {
    |images| == |segs| && forall i :: 0 <= i < |segs| ==> |images[i]| == Size(segs[i])
  }

  function Paste(file: seq<byte>, segs: seq<Seg>, images: seq<seq<byte>>): seq<byte>
    requires |images| <= |segs|
    decreases |images|
  {
    if images == [] then file else Paste(Overlay(file, segs[0].off, images[0]), segs[1..], images[1..])
  }

  lemma {:induction false} ImagesFit(mem: Memory, segs: seq<Seg>, q: Script)
    ensures |Images(mem, segs, q).0| <= |segs|
  {
    hide DumpRun;
    if segs != [] {
      var s := segs[0];
      ImagesFit(mem, segs[1..], DumpRun(mem, s.start, Size(s), s.off, q).1);
    }
  }

  method DumpSegments(k: Kernel, segs: array<Seg>, n: nat, out: OutFile) returns (ok: bool)
    requires n <= segs.Length
    modifies k, out
    ensures var (images, rest) := Images(k.mem, segs[..n], old(k.replies));
            && |images| <= n
            && k.replies == rest
            && out.bytes == Paste(old(out.bytes), segs[..n], images)
            && (ok <==> Complete(segs[..n], images))
  {
    hide DumpRun, Overlay;
    ghost var all := segs[..n];
    ghost var start, q0 := out.bytes, k.replies;
    ghost var done: seq<seq<byte>> := [];
    ImagesFit(k.mem, all, k.replies);
    PrependImagesNone(Images(k.mem, all, q0));
    assert all[0..] == all;
    for i := 0 to n
      invariant segs[..n] == all && |done| == i
      invariant Images(k.mem, all, q0) == PrependImages(done, Images(k.mem, all[i..], k.replies))
      invariant out.bytes == Paste(start, all, done)
      invariant forall j :: 0 <= j < i ==> |done[j]| == Size(all[j])
    {
      var s := segs[i];
      assert all[i..][0] == s && all[i..][1..] == all[i + 1..];
      ghost var (image, q1) := DumpRun(k.mem, s.start, Size(s), s.off, k.replies);
      ghost var rest := Images(k.mem, all[i + 1..], q1);
      PasteSnoc(start, all, done, image);
      var w := k.DumpRange(s.start, Size(s), out, s.off);
      if w < 0 {
        assert Images(k.mem, all, q0).0[i] == image;
        return false;
      }
      PrependImagesTwice(done, image, rest);
      done := done + [image];
    }
    assert all[n..] == [];
    assert done + [] == done;
    ok := true;
  }

  ghost function PrependImages(s: seq<seq<byte>>, r: (seq<seq<byte>>, Script)): (seq<seq<byte>>, Script) {
    (s + r.0, r.1)
  }

  lemma PrependImagesNone(r: (seq<seq<byte>>, Script))
    ensures PrependImages([], r) == r
  {
    assert [] + r.0 == r.0;
  }

  lemma PrependImagesTwice(s: seq<seq<byte>>, image: seq<byte>, r: (seq<seq<byte>>, Script))
    ensures PrependImages(s, PrependImages([image], r)) == PrependImages(s + [image], r)
  {
    Assoc(s, [image], r.0);
  }

  lemma {:induction false} PasteSnoc(file: seq<byte>, segs: seq<Seg>, images: seq<seq<byte>>, image: seq<byte>)
    requires |images| < |segs|
    ensures Paste(file, segs, images + [image]) == Overlay(Paste(file, segs, images), segs[|images|].off, image)
    decreases |images|
  {
    hide Overlay;
    if images == [] {
      assert [image][1..] == [];
    } else {
      assert (images + [image])[1..] == images[1..] + [image];
      PasteSnoc(Overlay(file, segs[0].off, images[0]), segs[1..], images[1..], image);
    }
  }

  // ----- dump_lib -----

  /** The loop over /proc/<pid>/maps: at most 512 segments, and the running total. */
  method Collect(ls: seq<MapsLine>, segs: array<Seg>) returns (nsegs: nat, total: u64)
    requires segs.Length == MAX_SEGS
    modifies segs
    ensures nsegs <= MAX_SEGS && segs[..nsegs] == Segments(ls, MAX_SEGS)
    ensures total == Total(segs[..nsegs])
  {
    hide Wanted, Size, Total, Segments;
    nsegs, total := 0, 0;
    ghost var goal := Segments(ls, MAX_SEGS);
    assert ls[0..] == ls && segs[..0] == [] && [] + goal == goal;
    TotalNone();
    for i := 0 to |ls|
      invariant nsegs <= MAX_SEGS
      invariant goal == segs[..nsegs] + Segments(ls[i..], MAX_SEGS - nsegs)
      invariant total == Total(segs[..nsegs])
    {
      var line := ls[i];
      SegmentsStep(ls, i, segs[..nsegs], MAX_SEGS - nsegs);
      if !Wanted(line) { continue; }
      if nsegs >= MAX_SEGS {
        NoRoom(segs[..nsegs], ls[i..]);
        return;
      }
      WantedHasFields(line);
      var s := SegOf(line);
      TotalSnoc(segs[..nsegs], s);
      Append(segs, nsegs, s);
      total := Max(total, Wrap64(s.off + Size(s)));
      nsegs := nsegs + 1;
    }
    assert ls[|ls|..] == [];
    NoLines(segs[..nsegs], MAX_SEGS - nsegs);
  }

  method Append(segs: array<Seg>, n: nat, s: Seg)
    requires n < segs.Length
    modifies segs
    ensures segs[..n + 1] == old(segs[..n]) + [s]
  {
    segs[n] := s;
  }

  lemma TotalNone()
    ensures Total([]) == 0
  {
  }

  lemma WantedHasFields(line: MapsLine)
    requires Wanted(line)
    ensures line.fields.Some?
  {
  }

  lemma TotalSnoc(segs: seq<Seg>, s: Seg)
    ensures Total(segs + [s]) == Max(Total(segs), Wrap64(s.off + Size(s)))
  {
    assert (segs + [s])[..|segs|] == segs;
  }

  /** One line: skipped, or appended while there is room. */
  lemma SegmentsStep(ls: seq<MapsLine>, i: nat, before: seq<Seg>, room: nat)
    requires i < |ls|
    ensures !Wanted(ls[i]) ==> Segments(ls[i..], room) == Segments(ls[i + 1..], room)
    ensures Wanted(ls[i]) && room > 0 ==>
              before + Segments(ls[i..], room) == before + [SegOf(ls[i])] + Segments(ls[i + 1..], room - 1)
  {
    assert ls[i..][1..] == ls[i + 1..];
    if Wanted(ls[i]) && room > 0 { Assoc(before, [SegOf(ls[i])], Segments(ls[i + 1..], room - 1)); }
  }

  lemma NoRoom(segs: seq<Seg>, rest: seq<MapsLine>)
    ensures segs + Segments(rest, 0) == segs
  {
  }

  lemma NoLines(segs: seq<Seg>, room: nat)
    ensures segs + Segments([], room) == segs
  {
  }

  /** The script after opening and truncating the output file. */
  function AfterOpen(q: Script): Script { Pop(Pop(q).1).1 }

  /** When `dump_lib` reports success. */
  ghost predicate Succeeds(mem: Memory, segs: seq<Seg>, pamap: bool, q: Script) {
    && segs != []
    && Pop(q).0.Count? && Pop(Pop(q).1).0.Count? && Total(segs) < OFFSET_LIMIT
    && var (images, rest) := Images(mem, segs, AfterOpen(q));
    && Complete(segs, images)
    && (pamap ==> Pop(rest).0.Count?)
  }

  /** `dump_lib`: 0 on success, 1 on any failure. */
  method DumpLib(k: Kernel, lines: Option<seq<MapsLine>>, out: OutFile,
                 pamap: bool, ps: Pagemap.PageSize, pm: Option<Pagemap.Entries>, pf: PhysMap.TextFile)
    returns (code: int)
    modifies k, out, pf
    ensures code == 0 || code == 1
    ensures code == 0 <==>
            lines.Some? && Succeeds(k.mem, Segments(lines.value, MAX_SEGS), pamap, old(k.replies))
    ensures code == 0 ==> IsLibraryOf(k.mem, Segments(lines.value, MAX_SEGS), AfterOpen(old(k.replies)), out.bytes)
    ensures code == 0 && Forward(lines.value) ==>
              var segs := Segments(lines.value, MAX_SEGS);
              Rebuilds(lines.value, Images(k.mem, segs, AfterOpen(old(k.replies))).0, out.bytes)
    ensures code == 0 && pamap ==> pf.text == PhysMap.MapFile(ps, pm, Ranges(Segments(lines.value, MAX_SEGS)))
  {
    hide PhysMap.MapFile, Overlay, Images, Complete, Total, Segments, Forward, Rebuilds;
    if lines.None? { return 1; }
    var segs := new Seg[MAX_SEGS](_ => Seg(0, 0, 0));
    var nsegs, total := Collect(lines.value, segs);
    if nsegs == 0 { return 1; }
    var openReply := k.Next();
    if !openReply.Count? { return 1; }
    out.bytes := [];
    var truncateReply := k.Next();
    if !truncateReply.Count? || total >= OFFSET_LIMIT { return 1; }
    out.bytes := Zeros(total);
    var ok := DumpSegments(k, segs, nsegs, out);
    if !ok { return 1; }
    if pamap {
      var pamapReply := k.Next();
      if !pamapReply.Count? { return 1; }
      pf.WriteMap(ps, pm, Ranges(segs[..nsegs]));
    }
    if Forward(lines.value) { LibraryOfLines(k.mem, lines.value, AfterOpen(old(k.replies)), out.bytes); }
    code := 0;
  }

  function Ranges(segs: seq<Seg>): seq<PhysMap.AddressRange> {
    seq(|segs|, i requires 0 <= i < |segs| => (segs[i].start, Size(segs[i])))
  }

  /** A file produced by successful dumps of all segments into `Total` zero bytes. */
  ghost predicate IsLibraryOf(mem: Memory, segs: seq<Seg>, q: Script, file: seq<byte>) {
    var images := Images(mem, segs, q).0;
    && Complete(segs, images)
    && Total(segs) < OFFSET_LIMIT
    && file == Paste(Zeros(Total(segs)), segs, images)
  }

  function Zeros(n: nat): (s: seq<byte>)
    ensures |s| == n && forall i {:trigger s[i]} :: 0 <= i < n ==> s[i] == 0
  {
    seq<byte>(n, _ => 0)
  }

  // ----- what the finished file is -----

  predicate Covers(s: Seg, o: int) { s.off <= o < s.off + Size(s) }

  /** A completed dump fits below the largest file offset. */
  lemma {:induction false} CompleteDumpFits(mem: Memory, va: int, size: nat, off: nat, q: Script)
    requires size > 0 && |DumpRun(mem, va, size, off, q).0| == size
    ensures off + size < OFFSET_LIMIT
    decreases size
  {
    hide ReadRun, ChunkImage;
    var n := Min(size, CHUNK);
    var (image, q1) := ChunkRun(mem, va, n, off, q);
    DumpStep(mem, va, size, off, q);
    if size > n {
      CompleteDumpFits(mem, va + n, size - n, off + n, q1);
    }
  }

  lemma {:induction false} ImagesAre(mem: Memory, segs: seq<Seg>, q: Script, i: nat)
    requires Complete(segs, Images(mem, segs, q).0) && i < |segs|
    ensures Size(segs[i]) > 0 ==> segs[i].off + Size(segs[i]) < OFFSET_LIMIT
    ensures IsImage(mem, segs[i].start, Images(mem, segs, q).0[i])
    decreases |segs|
  {
    hide DumpRun, IsImage, Size;
    var s := segs[0];
    var (image, q1) := DumpRun(mem, s.start, Size(s), s.off, q);
    if i == 0 {
      DumpIsImage(mem, s.start, Size(s), s.off, q);
      if Size(s) > 0 { CompleteDumpFits(mem, s.start, Size(s), s.off, q); }
    } else {
      var images, rest := Images(mem, segs, q).0, Images(mem, segs[1..], q1).0;
      assert images == [image] + rest;
      forall j | 0 <= j < |segs| - 1 ensures |rest[j]| == Size(segs[1..][j]) {
        assert images[j + 1] == rest[j] && segs[j + 1] == segs[1..][j];
      }
      ImagesAre(mem, segs[1..], q1, i - 1);
      assert images[i] == rest[i - 1] && segs[i] == segs[1..][i - 1];
    }
  }

  lemma {:induction false} TotalBounds(segs: seq<Seg>, i: nat)
    requires i < |segs|
    ensures Wrap64(segs[i].off + Size(segs[i])) <= Total(segs)
    decreases |segs|
  {
    if i < |segs| - 1 { TotalBounds(segs[..|segs| - 1], i); }
  }

  lemma {:induction false} TotalReached(segs: seq<Seg>)
    requires segs != []
    ensures exists i :: 0 <= i < |segs| && Wrap64(segs[i].off + Size(segs[i])) == Total(segs)
  {
    hide Size, Total, Wrap64;
    var init, last := segs[..|segs| - 1], segs[|segs| - 1];
    assert segs == init + [last];
    TotalSnoc(init, last);
    if init == [] { TotalNone(); }
    if Total(init) <= Wrap64(last.off + Size(last)) {
      assert segs[|segs| - 1] == last;
    } else {
      TotalReached(init);
      var i :| 0 <= i < |init| && Wrap64(init[i].off + Size(init[i])) == Total(init);
      assert segs[i] == init[i];
    }
  }

  /** Every non-empty segment ends inside a file of `n` bytes. */
  predicate Inside(segs: seq<Seg>, n: nat) {
    forall i :: 0 <= i < |segs| && Size(segs[i]) > 0 ==> segs[i].off + Size(segs[i]) <= n
  }

  lemma TailFits(segs: seq<Seg>, images: seq<seq<byte>>, n: nat)
    requires segs != [] && Complete(segs, images) && Inside(segs, n)
    ensures Complete(segs[1..], images[1..]) && Inside(segs[1..], n)
  {
    hide Size;
    assert forall i :: 0 <= i < |segs| - 1 ==> segs[1..][i] == segs[i + 1] && images[1..][i] == images[i + 1];
  }

  /** The first paste stays inside the file and changes what the first segment covers. */
  lemma PasteHead(file: seq<byte>, s: Seg, image: seq<byte>)
    requires |image| == Size(s) && (Size(s) > 0 ==> s.off + Size(s) <= |file|)
    ensures |Overlay(file, s.off, image)| == |file|
    ensures forall o: nat :: o < |file| ==>
              Overlay(file, s.off, image)[o] == if Covers(s, o) then image[o - s.off] else file[o]
  {
    hide Size;
  }

  lemma {:induction false} PasteLength(file: seq<byte>, segs: seq<Seg>, images: seq<seq<byte>>)
    requires Complete(segs, images) && Inside(segs, |file|)
    ensures |Paste(file, segs, images)| == |file|
    decreases |segs|
  {
    hide Overlay, Inside, Complete, Size;
    if segs == [] {
      NothingToPaste(file, segs, images);
    } else {
      HeadFits(segs, images, |file|);
      PasteHead(file, segs[0], images[0]);
      TailFits(segs, images, |file|);
      PasteLength(Overlay(file, segs[0].off, images[0]), segs[1..], images[1..]);
    }
  }

  lemma NothingToPaste(file: seq<byte>, segs: seq<Seg>, images: seq<seq<byte>>)
    requires segs == [] && Complete(segs, images)
    ensures images == [] && Paste(file, segs, images) == file
  {
  }

  lemma HeadFits(segs: seq<Seg>, images: seq<seq<byte>>, n: nat)
    requires segs != [] && Complete(segs, images) && Inside(segs, n)
    ensures |images| == |segs| && |images[0]| == Size(segs[0])
    ensures Size(segs[0]) > 0 ==> segs[0].off + Size(segs[0]) <= n
  {
  }

  /** What the finished file holds at `o`: the image of the last segment that covers it, or
      what was there before. */
  function LastWriter(segs: seq<Seg>, o: int): (i: int)
    ensures i == -1 || LastCover(segs, o, i)
    ensures i == -1 ==> forall j :: 0 <= j < |segs| ==> !Covers(segs[j], o)
  {
    if segs == [] then -1
    else
      var i := LastWriter(segs[1..], o);
      assert forall j :: 0 <= j < |segs| - 1 ==> segs[1..][j] == segs[j + 1];
      if i >= 0 then i + 1 else if Covers(segs[0], o) then 0 else -1
  }

  lemma LastCoverUnique(segs: seq<Seg>, o: int, i: int)
    requires LastCover(segs, o, i)
    ensures LastWriter(segs, o) == i
  {
    hide Covers;
    var k := LastWriter(segs, o);
    assert k >= 0;
    assert !(k < i) && !(i < k);
  }

  lemma {:induction false} PasteWriter(file: seq<byte>, segs: seq<Seg>, images: seq<seq<byte>>, o: nat)
    requires Complete(segs, images) && o < |file| && Inside(segs, |file|)
    ensures |Paste(file, segs, images)| == |file| && |images| == |segs|
    ensures var i := LastWriter(segs, o);
            if i < 0 then Paste(file, segs, images)[o] == file[o]
            else 0 <= o - segs[i].off < |images[i]| && Paste(file, segs, images)[o] == images[i][o - segs[i].off]
    decreases |segs|
  {
    hide Overlay, Inside, Complete, Size;
    PasteLength(file, segs, images);
    if segs == [] {
      NothingToPaste(file, segs, images);
    } else {
      HeadFits(segs, images, |file|);
      var file1, rest := Overlay(file, segs[0].off, images[0]), segs[1..];
      PasteHead(file, segs[0], images[0]);
      TailFits(segs, images, |file|);
      PasteWriter(file1, rest, images[1..], o);
    }
  }

  /** Pasting inside the file keeps its length and lets the last image win. */
  lemma PasteAt(file: seq<byte>, segs: seq<Seg>, images: seq<seq<byte>>, o: nat)
    requires Complete(segs, images) && o < |file| && Inside(segs, |file|)
    ensures |Paste(file, segs, images)| == |file|
    ensures (forall i :: 0 <= i < |segs| ==> !Covers(segs[i], o)) ==> Paste(file, segs, images)[o] == file[o]
    ensures forall i :: LastCover(segs, o, i) ==> Paste(file, segs, images)[o] == images[i][o - segs[i].off]
  {
    hide Paste, Inside, Covers, LastWriter, Size;
    PasteWriter(file, segs, images, o);
    if forall j :: 0 <= j < |segs| ==> !Covers(segs[j], o) { NoWriter(segs, o); }
    forall i | LastCover(segs, o, i) ensures LastWriter(segs, o) == i { LastCoverUnique(segs, o, i); }
  }

  lemma NoWriter(segs: seq<Seg>, o: int)
    requires forall j :: 0 <= j < |segs| ==> !Covers(segs[j], o)
    ensures LastWriter(segs, o) == -1
  {
    hide Covers;
  }

  /** Segment `i` is the last one that covers offset `o`. */
  predicate LastCover(segs: seq<Seg>, o: int, i: int) {
    && 0 <= i < |segs| && Covers(segs[i], o)
    && forall j :: i < j < |segs| ==> !Covers(segs[j], o)
  }

  /** The library image: as long as the furthest segment end, every byte from the last
      segment that covers it and zero where none does; each segment's bytes are a faithful
      dump of process memory. */
  lemma LibraryImage(mem: Memory, segs: seq<Seg>, q: Script, file: seq<byte>)
    requires segs != [] && IsLibraryOf(mem, segs, q, file)
    ensures forall i :: 0 <= i < |segs| ==> segs[i].off + Size(segs[i]) <= |file|
    ensures exists i :: 0 <= i < |segs| && |file| == segs[i].off + Size(segs[i])
    ensures var images := Images(mem, segs, q).0;
            && Complete(segs, images)
            && (forall i :: 0 <= i < |segs| ==> IsImage(mem, segs[i].start, images[i]))
            && forall o: nat :: o < |file| ==>
                 && ((forall i :: 0 <= i < |segs| ==> !Covers(segs[i], o)) ==> file[o] == 0)
                 && (forall i :: LastCover(segs, o, i) ==> file[o] == images[i][o - segs[i].off])
  {
    hide IsImage, Paste, Images, Size, Total, Inside;
    LibraryEnds(mem, segs, q, file);
    forall i | 0 <= i < |segs| ensures IsImage(mem, segs[i].start, Images(mem, segs, q).0[i]) {
      ImagesAre(mem, segs, q, i);
    }
    PasteLength(Zeros(Total(segs)), segs, Images(mem, segs, q).0);
    forall o: nat | o < |file|
      ensures (forall i :: 0 <= i < |segs| ==> !Covers(segs[i], o)) ==> file[o] == 0
      ensures forall i :: LastCover(segs, o, i) ==> file[o] == Images(mem, segs, q).0[i][o - segs[i].off]
    {
      PasteAt(Zeros(Total(segs)), segs, Images(mem, segs, q).0, o);
    }
  }

  /** The furthest segment end, in unbounded arithmetic, is the length of the file. */
  lemma LibraryEnds(mem: Memory, segs: seq<Seg>, q: Script, file: seq<byte>)
    requires segs != [] && IsLibraryOf(mem, segs, q, file)
    ensures |Images(mem, segs, q).0| == |segs| && |file| == Total(segs) && Inside(segs, Total(segs))
    ensures forall i :: 0 <= i < |segs| ==> segs[i].off + Size(segs[i]) <= |file|
    ensures exists i :: 0 <= i < |segs| && |file| == segs[i].off + Size(segs[i])
  {
    hide IsImage, Paste, Images, Size, Total;
    forall i | 0 <= i < |segs|
      ensures segs[i].off + Size(segs[i]) < TWO_64
      ensures segs[i].off + Size(segs[i]) <= Total(segs)
    {
      ImagesAre(mem, segs, q, i);
      TotalBounds(segs, i);
    }
    TotalReached(segs);
    PasteLength(Zeros(Total(segs)), segs, Images(mem, segs, q).0);
  }

  // ----- the finished file over the lines of the maps file -----

  predicate LineCovers(l: MapsLine, o: int) {
    l.fields.Some? && var f := l.fields.value; f.off <= o < f.off + (f.end - f.start)
  }

  /** Line `i` is the last kept one that covers offset `o`. */
  ghost predicate LastLine(lines: seq<MapsLine>, o: int, i: nat) {
    && Kept(lines, 512, i) && LineCovers(lines[i], o)
    && forall j: nat :: i < j && Kept(lines, 512, j) ==> !LineCovers(lines[j], o)
  }

  /** `end` does not come before `start`. */
  predicate Forward(lines: seq<MapsLine>) {
    forall l :: l in lines && l.fields.Some? ==> l.fields.value.start <= l.fields.value.end
  }

  /** `images[k]` is what the dump of the k-th kept line left. */
  ghost predicate Rebuilds(lines: seq<MapsLine>, images: seq<seq<byte>>, file: seq<byte>) {
    && (forall i: nat :: Kept(lines, 512, i) ==>
          var f, k := lines[i].fields.value, CountWanted(lines[..i]);
          f.off + (f.end - f.start) <= |file| && k < |images| && |images[k]| == f.end - f.start)
    && (exists i: nat :: Kept(lines, 512, i) &&
          var f := lines[i].fields.value; |file| == f.off + (f.end - f.start))
    && (forall o: nat :: o < |file| && (forall i: nat :: Kept(lines, 512, i) ==> !LineCovers(lines[i], o)) ==>
          file[o] == 0)
    && (forall o: nat, i: nat :: o < |file| && LastLine(lines, o, i) ==>
          file[o] == images[CountWanted(lines[..i])][o - lines[i].fields.value.off])
  }

  /** The library image over the fields of the maps lines: as long as the furthest
      `off + (end - start)` of the first 512 readable lines with the name, every byte from the
      last of them that covers it, zero where none does. */
  lemma LibraryOfLines(mem: Memory, lines: seq<MapsLine>, q: Script, file: seq<byte>)
    requires Forward(lines) && Segments(lines, MAX_SEGS) != []
    requires IsLibraryOf(mem, Segments(lines, MAX_SEGS), q, file)
    ensures Rebuilds(lines, Images(mem, Segments(lines, MAX_SEGS), q).0, file)
  {
    hide Images, IsLibraryOf, Segments, CountWanted, Forward, LineCovers;
    var images := Images(mem, Segments(lines, MAX_SEGS), q).0;
    forall i: nat | Kept(lines, 512, i)
      ensures var f, k := lines[i].fields.value, CountWanted(lines[..i]);
              f.off + (f.end - f.start) <= |file| && k < |images| && |images[k]| == f.end - f.start
    {
      KeptLineFits(mem, lines, q, file, i);
    }
    var furthest := FurthestLine(mem, lines, q, file);
    forall o: nat | o < |file| && forall i: nat :: Kept(lines, 512, i) ==> !LineCovers(lines[i], o)
      ensures file[o] == 0
    {
      UncoveredIsZero(mem, lines, q, file, o);
    }
    forall o: nat, i: nat | o < |file| && LastLine(lines, o, i)
      ensures var f, k := lines[i].fields.value, CountWanted(lines[..i]);
              0 <= k < |images| && 0 <= o - f.off < |images[k]| && file[o] == images[k][o - f.off]
    {
      CoveredByLastLine(mem, lines, q, file, o, i);
    }
  }

  lemma KeptLineFits(mem: Memory, lines: seq<MapsLine>, q: Script, file: seq<byte>, i: nat)
    requires Forward(lines) && IsLibraryOf(mem, Segments(lines, MAX_SEGS), q, file) && Kept(lines, 512, i)
    ensures var images := Images(mem, Segments(lines, MAX_SEGS), q).0;
            var f, k := lines[i].fields.value, CountWanted(lines[..i]);
            f.off + (f.end - f.start) <= |file| && k < |images| && |images[k]| == f.end - f.start
  {
    hide Images, IsLibraryOf, Segments, CountWanted, Forward;
    var segs := Segments(lines, MAX_SEGS);
    KeptFields(lines, segs, i);
    LibraryImage(mem, segs, q, file);
  }

  lemma FurthestLine(mem: Memory, lines: seq<MapsLine>, q: Script, file: seq<byte>) returns (i: nat)
    requires Forward(lines) && Segments(lines, MAX_SEGS) != []
    requires IsLibraryOf(mem, Segments(lines, MAX_SEGS), q, file)
    ensures Kept(lines, 512, i)
    ensures var f := lines[i].fields.value; |file| == f.off + (f.end - f.start)
  {
    hide Images, IsLibraryOf, Segments, CountWanted, Forward;
    var segs := Segments(lines, MAX_SEGS);
    LibraryEnds(mem, segs, q, file);
    var k :| 0 <= k < |segs| && |file| == segs[k].off + Size(segs[k]);
    i := SegmentIsKept(lines, MAX_SEGS, k);
    KeptFields(lines, segs, i);
  }

  lemma UncoveredIsZero(mem: Memory, lines: seq<MapsLine>, q: Script, file: seq<byte>, o: nat)
    requires Forward(lines) && Segments(lines, MAX_SEGS) != []
    requires IsLibraryOf(mem, Segments(lines, MAX_SEGS), q, file)
    requires o < |file| && forall i: nat :: Kept(lines, 512, i) ==> !LineCovers(lines[i], o)
    ensures file[o] == 0
  {
    hide Images, IsLibraryOf, Segments, CountWanted, Forward, Covers, LineCovers;
    var segs := Segments(lines, MAX_SEGS);
    forall k | 0 <= k < |segs| ensures !Covers(segs[k], o) {
      var i := SegmentIsKept(lines, MAX_SEGS, k);
      KeptFields(lines, segs, i);
    }
    LibraryImage(mem, segs, q, file);
  }

  lemma CoveredByLastLine(mem: Memory, lines: seq<MapsLine>, q: Script, file: seq<byte>, o: nat, i: nat)
    requires Forward(lines) && IsLibraryOf(mem, Segments(lines, MAX_SEGS), q, file)
    requires o < |file| && LastLine(lines, o, i)
    ensures var images := Images(mem, Segments(lines, MAX_SEGS), q).0;
            var f, k := lines[i].fields.value, CountWanted(lines[..i]);
            0 <= k < |images| && 0 <= o - f.off < |images[k]| && file[o] == images[k][o - f.off]
  {
    hide Images, IsLibraryOf, Segments, CountWanted, Forward;
    var segs := Segments(lines, MAX_SEGS);
    KeptLineFits(mem, lines, q, file, i);
    KeptFields(lines, segs, i);
    LastLineCovers(lines, segs, o, i);
    LibraryImage(mem, segs, q, file);
  }

  /** The segment of a kept line, over the line's fields. */
  lemma KeptFields(lines: seq<MapsLine>, segs: seq<Seg>, i: nat)
    requires Forward(lines) && segs == Segments(lines, MAX_SEGS) && Kept(lines, MAX_SEGS, i)
    ensures var f, k := lines[i].fields.value, CountWanted(lines[..i]);
            && k < |segs| && segs[k] == Seg(f.start, f.end, f.off) && Size(segs[k]) == f.end - f.start
            && forall o: int :: Covers(segs[k], o) <==> LineCovers(lines[i], o)
  {
    hide Segments, CountWanted;
    KeptIsSegment(lines, MAX_SEGS, i);
    assert lines[i] in lines;
  }

  lemma LastLineCovers(lines: seq<MapsLine>, segs: seq<Seg>, o: int, i: nat)
    requires Forward(lines) && segs == Segments(lines, MAX_SEGS) && LastLine(lines, o, i)
    ensures LastCover(segs, o, CountWanted(lines[..i]))
  {
    hide Segments, CountWanted, Covers, LineCovers, Forward;
    var n := CountWanted(lines[..i]);
    KeptFields(lines, segs, i);
    forall k | n < k < |segs| ensures !Covers(segs[k], o) {
      var j := SegmentIsKept(lines, MAX_SEGS, k);
      KeptFields(lines, segs, j);
      KeptInOrder(lines, MAX_SEGS, i, j);
    }
  }

  /** Under a kernel that always delivers what it can, every byte of the finished file is the
      byte of the process that the last covering line maps there, or zero behind a hole. */
  lemma RebuiltLibrary(mem: Memory, lines: seq<MapsLine>, q: Script, file: seq<byte>, o: nat, i: nat)
    requires Forward(lines) && IsLibraryOf(mem, Segments(lines, MAX_SEGS), q, file)
    requires Generous(q, CHUNK) && |q| >= 5 * SumOfSizes(Segments(lines, MAX_SEGS))
    requires o < |file| && LastLine(lines, o, i)
    ensures var f := lines[i].fields.value;
            && 0 <= o - f.off < f.end - f.start
            && file[o] == if BehindHole(mem, f.start, f.end - f.start, o - f.off) then 0
                          else Byte(mem, f.start + (o - f.off))
  {
    hide Images, IsLibraryOf, Segments, CountWanted, Forward, Generous, BehindHole, Byte, SumOfSizes;
    var segs := Segments(lines, MAX_SEGS);
    KeptFields(lines, segs, i);
    CoveredByLastLine(mem, lines, q, file, o, i);
    ExactImages(mem, segs, q, file, CountWanted(lines[..i]));
    var f := lines[i].fields.value;
    ExactImageAt(mem, f.start, f.end - f.start, o - f.off);
  }

  lemma ExactImages(mem: Memory, segs: seq<Seg>, q: Script, file: seq<byte>, k: nat)
    requires IsLibraryOf(mem, segs, q, file) && k < |segs|
    requires Generous(q, CHUNK) && |q| >= 5 * SumOfSizes(segs)
    ensures var images := Images(mem, segs, q).0;
            k < |images| && images[k] == ExactImage(mem, segs[k].start, Size(segs[k]))
  {
    hide Images, IsLibraryOf, Generous, ExactImage, SumOfSizes, Size;
    SegmentsFit(mem, segs, q, file);
    GenerousLibrary(mem, segs, q);
  }

  /** The page map written beside the library, once loaded, answers every readable address of
      every kept line with its direct translation. */
  lemma DumpedMapTranslates(lines: seq<MapsLine>, pm: Pagemap.Entries, rows: seq<S.Row>, m: PhysMap.Map, rva: u64,
                            r: Option<nat>, i: nat)
    requires PhysMap.ReadLines(PhysMap.Split(
               PhysMap.MapFile(4096, Some(pm), Ranges(Segments(lines, MAX_SEGS))))) == Some(rows)
    requires S.IsSortOf(m.entries, rows) && PhysMap.IsPaOf(m, rva, r)
    requires Forward(lines) && Kept(lines, 512, i) && lines[i].fields.value.end + 4095 < TWO_64
    ensures var va := Wrap64(m.base + rva);
            lines[i].fields.value.start <= va < lines[i].fields.value.end && va / 4096 in pm ==>
              r == Some(Pagemap.VaToPa(4096, Some(pm), va))
  {
    hide PhysMap.MapFile, PhysMap.ReadLines, PhysMap.IsPaOf, PhysMap.Touched, Pagemap.VaToPa;
    hide Segments, CountWanted, Forward;
    var segs := Segments(lines, MAX_SEGS);
    KeptFields(lines, segs, i);
    var k := CountWanted(lines[..i]);
    assert Ranges(segs)[k] in Ranges(segs);
    PhysMap.LoadedMapTranslates(pm, Ranges(segs), rows, m, rva, r);
  }

  lemma SegmentsFit(mem: Memory, segs: seq<Seg>, q: Script, file: seq<byte>)
    requires segs != [] && IsLibraryOf(mem, segs, q, file)
    ensures forall i :: 0 <= i < |segs| ==> segs[i].off + Size(segs[i]) < OFFSET_LIMIT
  {
    hide Images, Paste, Total, Size;
    LibraryEnds(mem, segs, q, file);
  }

  function SumOfSizes(segs: seq<Seg>): nat {
    if segs == [] then 0 else Size(segs[0]) + SumOfSizes(segs[1..])
  }

  /** Under a kernel that always delivers what it can, every segment is dumped in full and
      its image is memory, blank from the first hole of each chunk on. */
  lemma {:induction false} GenerousLibrary(mem: Memory, segs: seq<Seg>, q: Script)
    requires Generous(q, CHUNK) && |q| >= 5 * SumOfSizes(segs)
    requires forall i :: 0 <= i < |segs| ==> segs[i].off + Size(segs[i]) < OFFSET_LIMIT
    ensures var (images, rest) := Images(mem, segs, q);
            && Complete(segs, images) && Generous(rest, CHUNK)
            && |rest| >= |q| - 5 * SumOfSizes(segs)
            && forall i :: 0 <= i < |segs| ==> images[i] == ExactImage(mem, segs[i].start, Size(segs[i]))
    decreases |segs|
  {
    hide DumpRun, ExactImage, Generous, Size;
    if segs != [] {
      var s, tail := segs[0], segs[1..];
      GenerousDump(mem, s.start, Size(s), s.off, q);
      var (image, q1) := DumpRun(mem, s.start, Size(s), s.off, q);
      assert forall i :: 0 <= i < |tail| ==> tail[i] == segs[i + 1];
      GenerousLibrary(mem, tail, q1);
      var rest := Images(mem, tail, q1).0;
      assert Images(mem, segs, q).0 == [image] + rest;
      forall i | 0 <= i < |segs|
        ensures ([image] + rest)[i] == ExactImage(mem, segs[i].start, Size(segs[i]))
        ensures |([image] + rest)[i]| == Size(segs[i])
      {
        if i > 0 { assert ([image] + rest)[i] == rest[i - 1] && segs[i] == tail[i - 1]; }
      }
    }
  }
}
