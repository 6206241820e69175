/** lxgr_dump.c: reading another process through two unreliable system calls and writing
    what was read to a file. A script of replies stands for the kernel: every theorem
    holds for every script. */
module Process {
  import opened Words

  const CHUNK: int := 65536

  /** The readable bytes of the target process. */
  type Memory = map<u64, byte>

  /** How the kernel answers one system call; a count is cut to what is possible. */
  datatype Reply = Count(n: nat) | Interrupted | Error

  type Script = seq<Reply>

  predicate Readable(mem: Memory, va: int) { Wrap64(va) in mem }

  function Byte(mem: Memory, va: int): byte {
    if Wrap64(va) in mem then mem[Wrap64(va)] else 0
  }

  function Bytes(mem: Memory, va: int, n: nat): (s: seq<byte>)
    ensures |s| == n && forall j {:trigger s[j]} :: 0 <= j < n ==> s[j] == Byte(mem, va + j)
  {
    seq<byte>(n, j requires 0 <= j < n => Byte(mem, va + j))
  }

  lemma BytesSplit(mem: Memory, va: int, a: nat, b: nat)
    ensures Bytes(mem, va, a + b) == Bytes(mem, va, a) + Bytes(mem, va + a, b)
  {
    hide Byte;
  }

  /** How many of the `n` bytes at `va` can be read before the first hole. */
  function ReadablePrefix(mem: Memory, va: int, n: nat): (k: nat)
    ensures k <= n
    ensures forall a :: va <= a < va + k ==> Readable(mem, a)
    ensures k < n ==> !Readable(mem, va + k)
    decreases n
  {
    if n == 0 || !Readable(mem, va) then 0 else 1 + ReadablePrefix(mem, va + 1, n - 1)
  }

  function Delivered(mem: Memory, va: int, n: nat, reply: Reply): (k: nat)
    ensures k <= n
  {
    if reply.Count? then Min(reply.n, ReadablePrefix(mem, va, n)) else 0
  }

  // ----- lxgr_read -----

  /** One of the two retry loops, from `done` bytes on. */
  function Drain(mem: Memory, va: int, size: nat, done: nat, q: Script): (r: (nat, Script))
    requires done <= size
    ensures done <= r.0 <= size && |r.1| <= |q|
    decreases |q|
  {
    if done == size || q == [] then (done, q)
    else if q[0].Interrupted? then Drain(mem, va, size, done, q[1..])
    else
      var n := Delivered(mem, va + done, size - done, q[0]);
      if n > 0 then Drain(mem, va, size, done + n, q[1..]) else (done, q[1..])
  }

  function Pop(q: Script): (Reply, Script) {
    if q == [] then (Error, []) else (q[0], q[1..])
  }

  function ReadResult(size: nat, done: nat): int {
    if done == size || done > 0 then done else -1
  }

  /** `process_vm_readv`, then `/proc/<pid>/mem` for what is missing. */
  function ReadRun(mem: Memory, va: int, size: nat, q: Script): (int, Script) {
    var (done, q1) := Drain(mem, va, size, 0, q);
    if done == size then (done, q1)
    else
      var (openReply, q2) := Pop(q1);
      if !openReply.Count? then (ReadResult(size, done), q2)
      else
        var (done2, q3) := Drain(mem, va, size, done, q2);
        (ReadResult(size, done2), q3)
  }

  lemma {:induction false} DrainReadable(mem: Memory, va: int, size: nat, done: nat, q: Script)
    requires done <= size
    ensures forall a :: va + done <= a < va + Drain(mem, va, size, done, q).0 ==> Readable(mem, a)
    decreases |q|
  {
    if done < size && q != [] {
      if q[0].Interrupted? {
        DrainReadable(mem, va, size, done, q[1..]);
      } else {
        var n := Delivered(mem, va + done, size - done, q[0]);
        if n > 0 { DrainReadable(mem, va, size, done + n, q[1..]); }
      }
    }
  }

  /** However the two sources split a read, its count marks a readable prefix, and it is 0
      for an empty request only. */
  lemma ReadCountsAPrefix(mem: Memory, va: int, size: nat, q: Script)
    ensures var r := ReadRun(mem, va, size, q).0;
            && -1 <= r <= ReadablePrefix(mem, va, size)
            && (r == 0 <==> size == 0)
  {
    var (done, q1) := Drain(mem, va, size, 0, q);
    DrainReadable(mem, va, size, 0, q);
    DrainReadable(mem, va, size, done, Pop(q1).1);
    var k := ReadablePrefix(mem, va, size);
    assert k < size ==> !Readable(mem, va + k);
  }

  /** When the first source gives out after `a` bytes, the second one goes on from there:
      together they deliver everything before the first hole. */
  lemma FallbackResumes(mem: Memory, va: int, size: nat, a: nat, openCount: nat, rest: Script)
    requires 0 < a < size && a <= ReadablePrefix(mem, va, size)
    ensures ReadRun(mem, va, size, [Count(a), Error, Count(openCount), Count(size), Error] + rest).0 ==
            ReadablePrefix(mem, va, size)
  {
    var q: Script := [Count(a), Error, Count(openCount), Count(size), Error] + rest;
    var k := ReadablePrefix(mem, va, size);
    PrefixSplit(mem, va, size, a);
    PrefixSplit(mem, va, size, k);
    hide ReadablePrefix;
    assert q[1..][0] == Error && q[2..][0] == Count(openCount) && q[3..][0] == Count(size) && q[4..][0] == Error;
    assert q[1..][1..] == q[2..] && q[2..][1..] == q[3..] && q[3..][1..] == q[4..];
    assert Delivered(mem, va, size, q[0]) == a;
    assert Drain(mem, va, size, a, q[1..]) == (a, q[2..]);
    assert Drain(mem, va, size, 0, q) == (a, q[2..]);
    assert Delivered(mem, va + a, size - a, q[3]) == k - a;
    if k < size { assert Drain(mem, va, size, k, q[4..]).0 == k; }
  }

  // ----- interruptions -----

  /** The script without its interruptions. */
  function Calm(q: Script): (c: Script)
    ensures |c| <= |q| && Interrupted !in c
  {
    if q == [] then [] else if q[0].Interrupted? then Calm(q[1..]) else [q[0]] + Calm(q[1..])
  }

  lemma {:induction false} DrainIsPatient(mem: Memory, va: int, size: nat, done: nat, q: Script)
    requires done <= size
    ensures var (n, rest) := Drain(mem, va, size, done, q);
            Drain(mem, va, size, done, Calm(q)) == (n, Calm(rest))
    decreases |q|
  {
    hide Delivered;
    if done < size && q != [] {
      if q[0].Interrupted? {
        DrainIsPatient(mem, va, size, done, q[1..]);
      } else {
        assert Calm(q)[1..] == Calm(q[1..]);
        var n := Delivered(mem, va + done, size - done, q[0]);
        if n > 0 { DrainIsPatient(mem, va, size, done + n, q[1..]); }
      }
    }
  }

  /** An interrupted read call is made again, in either source and wherever the interruption
      falls: the count is that of the calm script, and so is what is left of the script. Only
      the `open` between the sources is not repeated. */
  lemma InterruptionsAreInvisible(mem: Memory, va: int, size: nat, q: Script)
    requires var (done, q1) := Drain(mem, va, size, 0, q);
             done == size || q1 == [] || !q1[0].Interrupted?
    ensures var (r, rest) := ReadRun(mem, va, size, q);
            ReadRun(mem, va, size, Calm(q)) == (r, Calm(rest))
  {
    hide Drain;
    var (done, q1) := Drain(mem, va, size, 0, q);
    DrainIsPatient(mem, va, size, 0, q);
    CalmPop(q1);
    DrainIsPatient(mem, va, size, done, Pop(q1).1);
  }

  lemma CalmPop(q: Script)
    ensures q == [] || !q[0].Interrupted? ==> Pop(Calm(q)) == (Pop(q).0, Calm(Pop(q).1))
  {
    if q != [] && !q[0].Interrupted? { assert Calm(q)[1..] == Calm(q[1..]); }
  }

  /** Interruptions before a read change nothing at all. */
  lemma {:induction false} InterruptedFirst(mem: Memory, va: int, size: nat, k: nat, q: Script)
    requires size > 0
    ensures ReadRun(mem, va, size, Repeat(Interrupted, k) + q) == ReadRun(mem, va, size, q)
  {
    if k == 0 {
      assert Repeat(Interrupted, k) + q == q;
    } else {
      InterruptedFirst(mem, va, size, k - 1, q);
      var all := Repeat(Interrupted, k) + q;
      assert all[1..] == Repeat(Interrupted, k - 1) + q && all[0] == Interrupted;
    }
  }

  function Repeat(r: Reply, k: nat): (q: Script)
    ensures |q| == k && forall i :: 0 <= i < k ==> q[i] == r
  {
    seq(k, _ => r)
  }

  /** A first source that delivers everything is the only one that is asked. */
  lemma FullFirstRead(mem: Memory, va: int, size: nat, n: nat, rest: Script)
    requires 0 < size <= n && ReadablePrefix(mem, va, size) == size
    ensures ReadRun(mem, va, size, [Count(n)] + rest) == (size, rest)
  {
    var q: Script := [Count(n)] + rest;
    assert q[1..] == rest && Delivered(mem, va, size, q[0]) == size;
    DrainDone(mem, va, size, rest);
    assert Drain(mem, va, size, 0, q) == Drain(mem, va, size, size, rest);
  }

  /** When the second source cannot be opened, the read stands at what the first delivered;
      with nothing delivered it fails. */
  lemma SecondSourceMissing(mem: Memory, va: int, size: nat, a: nat, openReply: Reply, rest: Script)
    requires a < size && a <= ReadablePrefix(mem, va, size) && !openReply.Count?
    ensures a > 0 ==> ReadRun(mem, va, size, [Count(a), Error, openReply] + rest) == (a, rest)
    ensures ReadRun(mem, va, size, [Error, openReply] + rest) == (-1, rest)
  {
    var none: Script := [Error, openReply] + rest;
    assert none[1..] == [openReply] + rest && none[1..][1..] == rest;
    if a > 0 {
      var some: Script := [Count(a), Error, openReply] + rest;
      assert some[1..] == none;
      assert Delivered(mem, va, size, some[0]) == a;
      assert Drain(mem, va, size, a, none) == (a, none[1..]);
    }
  }

  // ----- a kernel that always delivers what it can -----

  /** Every call is granted `limit` bytes or more. */
  predicate Generous(q: Script, limit: nat) { forall i :: 0 <= i < |q| ==> q[i].Count? && q[i].n >= limit }

  lemma {:induction false} PrefixSplit(mem: Memory, va: int, n: nat, k: nat)
    requires k <= ReadablePrefix(mem, va, n)
    ensures ReadablePrefix(mem, va + k, n - k) == ReadablePrefix(mem, va, n) - k
    decreases k
  {
    if k > 0 { PrefixSplit(mem, va + 1, n - 1, k - 1); }
  }

  /** One call of a retry loop takes everything up to the hole; the next one ends the loop. */
  lemma GenerousStep(mem: Memory, va: int, size: nat, done: nat, q: Script, limit: nat)
    requires done < size <= limit && Generous(q, limit) && q != []
    ensures var p := ReadablePrefix(mem, va + done, size - done);
            Drain(mem, va, size, done, q) == if p > 0 then Drain(mem, va, size, done + p, q[1..]) else (done, q[1..])
    ensures Generous(q[1..], limit)
  {
    assert q[0].Count? && q[0].n >= limit;
  }

  /** Then a read stops exactly at the first hole, after at most four calls. */
  lemma GenerousRead(mem: Memory, va: int, size: nat, q: Script, limit: nat)
    requires 0 < size <= limit && Generous(q, limit) && |q| >= 4
    ensures var k := ReadablePrefix(mem, va, size);
            var (r, q') := ReadRun(mem, va, size, q);
            && r == (if k == 0 then -1 else k)
            && Generous(q', limit) && |q'| >= |q| - 4
  {
    hide Drain, Generous;
    var k := ReadablePrefix(mem, va, size);
    PrefixSplit(mem, va, size, k);
    GenerousStep(mem, va, size, 0, q, limit);
    var q1 := if k > 0 then q[1..] else q;  // where the first loop ends
    if 0 < k < size { GenerousStep(mem, va, size, k, q1, limit); }
    DrainDone(mem, va, size, q[1..]);
    if k < size {
      var q2 := q1[1..];
      GenerousTail(q2, limit);
      GenerousStep(mem, va, size, k, q2[1..], limit);
    }
  }

  /** The same with interruptions anywhere but at the `open`. */
  lemma PatientRead(mem: Memory, va: int, size: nat, q: Script, limit: nat)
    requires 0 < size <= limit && Generous(Calm(q), limit) && |Calm(q)| >= 4
    requires var (done, q1) := Drain(mem, va, size, 0, q);
             done == size || q1 == [] || !q1[0].Interrupted?
    ensures var k := ReadablePrefix(mem, va, size);
            ReadRun(mem, va, size, q).0 == if k == 0 then -1 else k
  {
    hide Drain, Generous, ReadRun, Calm;
    InterruptionsAreInvisible(mem, va, size, q);
    GenerousRead(mem, va, size, Calm(q), limit);
  }

  lemma GenerousTail(q: Script, limit: nat)
    requires Generous(q, limit) && q != []
    ensures q[0].Count? && Generous(q[1..], limit)
  {
  }

  lemma DrainDone(mem: Memory, va: int, size: nat, q: Script)
    ensures Drain(mem, va, size, size, q) == (size, q)
  {
  }

  // ----- lxgr_dump_range -----

  const OFFSET_LIMIT: int := TWO_63  // off_t is signed

  /** A chunk as it is written: the bytes that were read, then zeros. */
  function ChunkImage(mem: Memory, va: int, size: nat, got: nat): (s: seq<byte>)
    requires got <= size
    ensures |s| == size
  {
    Bytes(mem, va, got) + seq(size - got, _ => 0)
  }

  /** How much of an `n`-byte write at `pos` reaches the file. */
  function Written(pos: nat, n: nat, reply: Reply): nat {
    if reply.Count? && pos + n < OFFSET_LIMIT then Min(reply.n, n) else 0
  }

  function Max0(x: int): nat { if x < 0 then 0 else x }

  /** One chunk of `n` bytes: what of it reaches the file at `off`. */
  function ChunkRun(mem: Memory, va: int, n: nat, off: nat, q: Script): (r: (seq<byte>, Script))
    ensures |r.0| <= n
  {
    var (got, q1) := ReadRun(mem, va, n, q);
    ReadCountsAPrefix(mem, va, n, q);
    var (reply, q2) := Pop(q1);
    (ChunkImage(mem, va, n, Max0(got))[..Written(off, n, reply)], q2)
  }

  /** The bytes that end up in the file at `off`, and the rest of the script. */
  function DumpRun(mem: Memory, va: int, size: nat, off: nat, q: Script): (r: (seq<byte>, Script))
    ensures |r.0| <= size
    decreases size
  {
    if size == 0 then ([], q)
    else
      var n := Min(size, CHUNK);
      var (image, q1) := ChunkRun(mem, va, n, off, q);
      if |image| < n then (image, q1)
      else
        var (rest, q2) := DumpRun(mem, va + n, size - n, off + n, q1);
        (image + rest, q2)
  }

  ghost function Prepend(s: seq<byte>, r: (seq<byte>, Script)): (seq<byte>, Script) { (s + r.0, r.1) }

  /** A run of bytes of one chunk: memory up to some readable point, zeros after it. */
  predicate PrefixThenZeros(mem: Memory, va: int, s: seq<byte>) {
    exists g :: 0 <= g <= |s| && GoodUpTo(mem, va, s, g)
  }

  predicate GoodUpTo(mem: Memory, va: int, s: seq<byte>, g: int) {
    && (forall j {:trigger s[j]} :: 0 <= j < g && j < |s| ==> Readable(mem, va + j) && s[j] == Byte(mem, va + j))
    && (forall j :: 0 <= g <= j < |s| ==> s[j] == 0)
  }

  ghost predicate IsImage(mem: Memory, va: int, s: seq<byte>)
    decreases |s|
  {
    if |s| <= CHUNK then PrefixThenZeros(mem, va, s)
    else PrefixThenZeros(mem, va, s[..CHUNK]) && IsImage(mem, va + CHUNK, s[CHUNK..])
  }

  lemma ChunkIsGood(mem: Memory, va: int, n: nat, off: nat, q: Script)
    ensures PrefixThenZeros(mem, va, ChunkRun(mem, va, n, off, q).0)
  {
    hide ReadRun, Byte, Readable;
    ReadCountsAPrefix(mem, va, n, q);
    var s := ChunkRun(mem, va, n, off, q).0;
    var g := Min(Max0(ReadRun(mem, va, n, q).0), |s|);
    assert GoodUpTo(mem, va, s, g);
  }

  lemma DumpStep(mem: Memory, va: int, size: nat, off: nat, q: Script)
    requires size > 0
    ensures var n := Min(size, CHUNK);
            var (image, q1) := ChunkRun(mem, va, n, off, q);
            DumpRun(mem, va, size, off, q) ==
            if |image| < n then (image, q1)
            else Prepend(image, DumpRun(mem, va + n, size - n, off + n, q1))
  {
    hide ChunkRun;
  }

  /** A write is not repeated: one that is interrupted, fails or falls short ends the dump with
      what it wrote. */
  lemma ShortWriteEnds(mem: Memory, va: int, size: nat, off: nat, w: Reply, rest: Script)
    requires 0 < size && off + size < OFFSET_LIMIT
    requires var n := Min(size, 65536);
             ReadablePrefix(mem, va, n) == n && (w.Count? ==> w.n < n)
    ensures var n := Min(size, 65536);
            DumpRun(mem, va, size, off, [Count(n), w] + rest) == (Bytes(mem, va, if w.Count? then w.n else 0), rest)
  {
    hide ReadRun, ReadablePrefix, Byte;
    var n := Min(size, 65536);
    var q: Script := [Count(n), w] + rest;
    assert q == [Count(n)] + ([w] + rest) && ([w] + rest)[1..] == rest;
    FullFirstRead(mem, va, n, n, [w] + rest);
    DumpStep(mem, va, size, off, q);
    var k := if w.Count? then w.n else 0;
    assert ChunkImage(mem, va, n, n)[..k] == Bytes(mem, va, k);
  }

  lemma EmptyDump(mem: Memory, va: int, off: nat, q: Script)
    ensures DumpRun(mem, va, 0, off, q) == ([], q) && ExactImage(mem, va, 0) == []
  {
  }

  lemma ImageStep(mem: Memory, va: int, image: seq<byte>, rest: seq<byte>)
    requires |image| == CHUNK && PrefixThenZeros(mem, va, image) && IsImage(mem, va + CHUNK, rest)
    ensures IsImage(mem, va, image + rest)
  {
    hide PrefixThenZeros;
    ConcatParts(image, rest);
    if rest == [] { assert image + rest == image; }
  }

  /** For every size and every behaviour of the kernel, what a dump leaves in the file is,
      chunk by chunk, a prefix of process memory followed by zeros. */
  lemma {:induction false} DumpIsImage(mem: Memory, va: int, size: nat, off: nat, q: Script)
    ensures IsImage(mem, va, DumpRun(mem, va, size, off, q).0)
    decreases size
  {
    hide ChunkRun, PrefixThenZeros, DumpRun, IsImage;
    if size == 0 {
      EmptyDump(mem, va, off, q);
      ShortImage(mem, va, []);
    } else {
      var n := Min(size, CHUNK);
      var (image, q1) := ChunkRun(mem, va, n, off, q);
      ChunkIsGood(mem, va, n, off, q);
      ShortImage(mem, va, image);
      DumpStep(mem, va, size, off, q);
      DumpIsImage(mem, va + n, size - n, off + n, q1);
      var rest := DumpRun(mem, va + n, size - n, off + n, q1).0;
      if n == CHUNK {
        if |image| == n { ImageStep(mem, va, image, rest); }
      } else {
        assert image + [] == image;
        EmptyDump(mem, va + n, off + n, q1);
      }
    }
  }

  lemma ShortImage(mem: Memory, va: int, s: seq<byte>)
    requires s == [] || (|s| <= CHUNK && PrefixThenZeros(mem, va, s))
    ensures IsImage(mem, va, s)
  {
    if s == [] { assert GoodUpTo(mem, va, s, 0); }
  }

  // ----- how good the image is -----

  /** The image under a generous kernel: every chunk is blank from its first hole on. */
  function ExactImage(mem: Memory, va: int, size: nat): (s: seq<byte>)
    ensures |s| == size
    decreases size
  {
    if size == 0 then []
    else
      var n := Min(size, CHUNK);
      ChunkImage(mem, va, n, ReadablePrefix(mem, va, n)) + ExactImage(mem, va + n, size - n)
  }

  lemma ExactStep(mem: Memory, va: int, size: nat)
    requires size > 0
    ensures var n := Min(size, CHUNK);
            ExactImage(mem, va, size) ==
            ChunkImage(mem, va, n, ReadablePrefix(mem, va, n)) + ExactImage(mem, va + n, size - n)
  {
    hide ChunkImage, ReadablePrefix;
  }

  lemma {:induction false} GenerousDump(mem: Memory, va: int, size: nat, off: nat, q: Script)
    requires Generous(q, CHUNK) && |q| >= 5 * size && off + size < OFFSET_LIMIT
    ensures DumpRun(mem, va, size, off, q).0 == ExactImage(mem, va, size)
    ensures Generous(DumpRun(mem, va, size, off, q).1, CHUNK)
    ensures |DumpRun(mem, va, size, off, q).1| >= |q| - 5 * size
    decreases size
  {
    hide ChunkRun, ChunkImage, ReadablePrefix, Generous, DumpRun, ExactImage;
    if size == 0 {
      EmptyDump(mem, va, off, q);
    } else {
      var n := Min(size, CHUNK);
      ExactStep(mem, va, size);
      DumpStep(mem, va, size, off, q);
      GenerousChunk(mem, va, n, off, q);
      GenerousDump(mem, va + n, size - n, off + n, ChunkRun(mem, va, n, off, q).1);
    }
  }

  lemma GenerousChunk(mem: Memory, va: int, n: nat, off: nat, q: Script)
    requires 0 < n <= CHUNK && Generous(q, CHUNK) && |q| >= 5 && off + n < OFFSET_LIMIT
    ensures var (image, rest) := ChunkRun(mem, va, n, off, q);
            && image == ChunkImage(mem, va, n, ReadablePrefix(mem, va, n))
            && Generous(rest, CHUNK) && |rest| >= |q| - 5
  {
    hide ReadRun, Generous, ReadablePrefix;
    GenerousRead(mem, va, n, q, CHUNK);
    GenerousWrite(off, n, ReadRun(mem, va, n, q).1);
  }

  lemma GenerousWrite(pos: nat, n: nat, q: Script)
    requires Generous(q, CHUNK) && q != [] && n <= CHUNK && pos + n < OFFSET_LIMIT
    ensures Written(pos, n, q[0]) == n && Generous(q[1..], CHUNK)
  {
    assert q[0].Count? && q[0].n >= CHUNK;
  }

  /** Byte `j` of the range, readable or not, comes after a hole of its own 64 KiB chunk. */
  predicate BehindHole(mem: Memory, va: int, size: nat, j: nat) {
    j < size && exists a :: va + j - j % 65536 <= a < va + j && !Readable(mem, a)
  }

  lemma {:induction false} ExactImageAt(mem: Memory, va: int, size: nat, j: nat)
    requires j < size
    ensures ExactImage(mem, va, size)[j] == if BehindHole(mem, va, size, j) then 0 else Byte(mem, va + j)
    decreases size
  {
    hide Readable, ReadablePrefix, ChunkImage, Bytes, Byte, BehindHole;
    var n := Min(size, CHUNK);
    if j < n {
      ChunkImageAt(mem, va, size, j);
    } else {
      ExactImageAt(mem, va + n, size - n, j - n);
      BehindHoleShift(mem, va, size, j);
    }
  }

  lemma ChunkImageAt(mem: Memory, va: int, size: nat, j: nat)
    requires j < size && j < CHUNK
    ensures var n := Min(size, CHUNK);
            ChunkImage(mem, va, n, ReadablePrefix(mem, va, n))[j] ==
            if BehindHole(mem, va, size, j) then 0 else Byte(mem, va + j)
  {
    hide Byte, Readable, ReadablePrefix;
    var n := Min(size, CHUNK);
    var k := ReadablePrefix(mem, va, n);
    assert j - j % CHUNK == 0;
    if k < j { assert !Readable(mem, va + k); }
    if k <= j { UnreadableIsZero(mem, va + k); }
  }

  lemma BehindHoleShift(mem: Memory, va: int, size: nat, j: nat)
    requires CHUNK <= j < size
    ensures BehindHole(mem, va, size, j) <==> BehindHole(mem, va + CHUNK, size - CHUNK, j - CHUNK)
  {
    hide Readable;
    assert j % CHUNK == (j - CHUNK) % CHUNK;
  }

  lemma UnreadableIsZero(mem: Memory, a: int)
    requires !Readable(mem, a)
    ensures Byte(mem, a) == 0
  {
  }

  /** "Unreadable pages become zero" and the rest is memory: even with a generous kernel
      this holds exactly when no readable non-zero byte lies behind a hole of its chunk. */
  lemma FaithfulImageIff(mem: Memory, va: int, size: nat)
    ensures ExactImage(mem, va, size) == Bytes(mem, va, size) <==>
            forall j :: 0 <= j < size && BehindHole(mem, va, size, j) ==> Byte(mem, va + j) == 0
  {
    hide Byte, BehindHole, ExactImage;
    forall j | 0 <= j < size
      ensures ExactImage(mem, va, size)[j] == if BehindHole(mem, va, size, j) then 0 else Byte(mem, va + j)
    {
      ExactImageAt(mem, va, size, j);
    }
    var e, b := ExactImage(mem, va, size), Bytes(mem, va, size);
    if e == b {
      forall j | 0 <= j < size && BehindHole(mem, va, size, j) ensures Byte(mem, va + j) == 0 {
        assert e[j] == b[j];
      }
    }
  }

  /** The loss happens: a readable byte behind a hole is blanked even by a generous kernel. */
  lemma ReadableByteLost()
    ensures exists mem: Memory, va: int, size: nat, j: nat ::
              j < size && Readable(mem, va + j) && Byte(mem, va + j) != 0 && ExactImage(mem, va, size)[j] == 0
  {
    var mem: Memory := map[1 := 7];
    assert !Readable(mem, 0) && BehindHole(mem, 0, 2, 1);
    ExactImageAt(mem, 0, 2, 1);
    assert Readable(mem, 0 + 1) && ExactImage(mem, 0, 2)[1] == 0;
  }

  // ----- files -----

  function Overlay(file: seq<byte>, pos: nat, data: seq<byte>): (out: seq<byte>)
    ensures data == [] ==> out == file
    ensures data != [] ==> |out| == if pos + |data| > |file| then pos + |data| else |file|
    ensures data != [] ==>
              forall i {:trigger out[i]} :: 0 <= i < |out| ==> out[i] == OverlayByte(file, pos, data, i)
  {
    if data == [] then file
    else
      seq(if pos + |data| > |file| then pos + |data| else |file|,
          i requires 0 <= i => OverlayByte(file, pos, data, i))
  }

  function OverlayByte(file: seq<byte>, pos: nat, data: seq<byte>, i: nat): byte {
    if pos <= i < pos + |data| then data[i - pos] else if i < |file| then file[i] else 0
  }

  lemma OverlayTwice(file: seq<byte>, pos: nat, a: seq<byte>, b: seq<byte>)
    ensures Overlay(Overlay(file, pos, a), pos + |a|, b) == Overlay(file, pos, a + b)
  {
    if a == [] {
      assert a + b == b;
    } else if b == [] {
      assert a + b == a;
    } else {
      hide OverlayByte;
      var once, twice := Overlay(file, pos, a + b), Overlay(Overlay(file, pos, a), pos + |a|, b);
      assert |once| == |twice|;
      forall i | 0 <= i < |once| ensures once[i] == twice[i] {
        OverlayByteTwice(file, Overlay(file, pos, a), pos, a, b, i);
      }
    }
  }

  lemma OverlayByteTwice(file: seq<byte>, file1: seq<byte>, pos: nat, a: seq<byte>, b: seq<byte>, i: nat)
    requires |file1| == if pos + |a| > |file| then pos + |a| else |file|
    requires i < |file1| ==> file1[i] == OverlayByte(file, pos, a, i)
    ensures OverlayByte(file1, pos + |a|, b, i) == OverlayByte(file, pos, a + b, i)
  {
  }

  lemma ArrayParts(a: array<byte>, i: nat, n: nat)
    requires i + n <= a.Length
    ensures a[..i + n] == a[..i] + a[i..i + n]
  {
  }

  lemma NothingFromInterrupt(mem: Memory)
    ensures forall va: int, n: nat :: Delivered(mem, va, n, Interrupted) == 0
  {
  }

  class OutFile {
    var bytes: seq<byte>

    constructor ()
      ensures bytes == []
    {
      bytes := [];
    }
  }

  // ----- the system calls and the two functions above them -----

  class Kernel {
    const mem: Memory
    var replies: Script
    ghost var obtained: nat  // bytes handed over so far

    constructor (mem: Memory, replies: Script)
      ensures this.mem == mem && this.replies == replies
    {
      this.mem, this.replies := mem, replies;
      obtained := 0;
    }

    method Next() returns (r: Reply)
      modifies this
      ensures (r, replies) == Pop(old(replies)) && obtained == old(obtained)
    {
      if replies == [] { return Error; }
      r := replies[0];
      replies := replies[1..];
    }

    /** Either read call: the bytes it counts are right; past them, within the space it
        was given, the buffer is whatever the kernel left there. */
    method ReadCall(va: int, dst: array<byte>, at: nat, n: nat) returns (got: nat, again: bool)
      requires at + n <= dst.Length
      modifies this, dst
      ensures var (r, rest) := Pop(old(replies));
              replies == rest && got == Delivered(mem, va, n, r) && again == r.Interrupted?
      ensures dst[..at] == old(dst[..at]) && dst[at + n..] == old(dst[at + n..])
      ensures dst[at..at + got] == Bytes(mem, va, got)
      ensures obtained == old(obtained) + got
    {
      var r := Next();
      got := Delivered(mem, va, n, r);
      again := r.Interrupted?;
      for j := 0 to got
        invariant dst[..at] == old(dst[..at]) && dst[at + n..] == old(dst[at + n..])
        invariant replies == Pop(old(replies)).1 && obtained == old(obtained)
        invariant dst[at..at + j] == Bytes(mem, va, j)
      {
        dst[at + j] := Byte(mem, va + j);
      }
      obtained := obtained + got;
    }

    method PWrite(out: OutFile, pos: nat, data: seq<byte>) returns (w: int)
      requires data != []
      modifies this, out
      ensures var (r, rest) := Pop(old(replies));
              && replies == rest
              && out.bytes == Overlay(old(out.bytes), pos, data[..Written(pos, |data|, r)])
              && (w == |data| <==> Written(pos, |data|, r) == |data|)
      ensures obtained == old(obtained)
    {
      var r := Next();
      var n := Written(pos, |data|, r);
      out.bytes := Overlay(out.bytes, pos, data[..n]);
      w := if n == 0 then -1 else n;
    }

    method Read(va: int, out: array<byte>, size: nat) returns (r: int)
      requires size <= out.Length
      modifies this, out
      ensures (r, replies) == ReadRun(mem, va, size, old(replies))
      ensures out[..Max0(r)] == Bytes(mem, va, Max0(r))
      ensures out[size..] == old(out[size..])
      ensures obtained == old(obtained) + Max0(r)
      ensures r == -1 <==> size > 0 && obtained == old(obtained)
    {
      var done := DrainInto(va, out, size, 0);
      if done == size { return done; }
      var openReply := Next();
      if !openReply.Count? { return if done > 0 then done else -1; }
      done := DrainInto(va, out, size, done);
      r := if done > 0 then done else -1;
    }

    method DrainInto(va: int, out: array<byte>, size: nat, start: nat) returns (done: nat)
      requires start <= size <= out.Length
      requires out[..start] == Bytes(mem, va, start)
      modifies this, out
      ensures (done, replies) == Drain(mem, va, size, start, old(replies))
      ensures start <= done <= size && out[..done] == Bytes(mem, va, done)
      ensures out[size..] == old(out[size..])
      ensures obtained == old(obtained) + (done - start)
    {
      hide ReadablePrefix, Bytes, Delivered;
      NothingFromInterrupt(mem);
      done := start;
      while done < size
        invariant start <= done <= size
        invariant Drain(mem, va, size, done, replies) == Drain(mem, va, size, start, old(replies))
        invariant out[..done] == Bytes(mem, va, done)
        invariant out[size..] == old(out[size..])
        invariant obtained == old(obtained) + (done - start)
        decreases |replies|, size - done
      {
        if replies == [] { break; }
        var n, again := ReadCall(va + done, out, done, size - done);
        BytesSplit(mem, va, done, n);
        ArrayParts(out, done, n);
        if n > 0 {
          done := done + n;
          continue;
        }
        if again { continue; }
        break;
      }
    }

    /** The body of the dump loop: read a chunk, blank what is missing, write it. */
    method CopyChunk(va: int, buf: array<byte>, chunk: nat, out: OutFile, pos: nat) returns (w: int)
      requires 0 < chunk <= buf.Length
      modifies this, buf, out
      ensures var (image, rest) := ChunkRun(mem, va, chunk, pos, old(replies));
              && replies == rest
              && out.bytes == Overlay(old(out.bytes), pos, image)
              && (w == chunk <==> |image| == chunk)
    {
      hide ReadRun, Overlay, Bytes;
      ReadCountsAPrefix(mem, va, chunk, replies);
      var got := Read(va, buf, chunk);
      var g := Max0(got);
      for j := g to chunk
        invariant buf[..g] == Bytes(mem, va, g)
        invariant forall i :: g <= i < j ==> buf[i] == 0
        invariant replies == ReadRun(mem, va, chunk, old(replies)).1 && out.bytes == old(out.bytes)
      {
        buf[j] := 0;
      }
      assert buf[..chunk] == ChunkImage(mem, va, chunk, g);
      w := PWrite(out, pos, buf[..chunk]);
    }

    /** `lxgr_dump_range`: -1, or `size` when every write was complete. */
    method DumpRange(va: int, size: nat, out: OutFile, fileOff: nat) returns (total: int)
      modifies this, out
      ensures var (image, rest) := DumpRun(mem, va, size, fileOff, old(replies));
              && replies == rest
              && out.bytes == Overlay(old(out.bytes), fileOff, image)
              && total == (if |image| == size then size else -1)
    {
      hide ChunkRun, Overlay;
      var buf := new byte[CHUNK];
      var done := 0;
      ghost var written: seq<byte> := [];
      ghost var whole := DumpRun(mem, va, size, fileOff, replies);
      total := 0;
      assert [] + whole.0 == whole.0;
      while done < size
        invariant done <= size && |written| == done && total == done
        invariant out.bytes == Overlay(old(out.bytes), fileOff, written)
        invariant whole == Prepend(written, DumpRun(mem, va + done, size - done, fileOff + done, replies))
      {
        var chunk := Min(size - done, CHUNK);
        ghost var (image, rest) := ChunkRun(mem, va + done, chunk, fileOff + done, replies);
        OverlayTwice(old(out.bytes), fileOff, written, image);
        var w := CopyChunk(va + done, buf, chunk, out, fileOff + done);
        if w != chunk { return -1; }
        Assoc(written, image, DumpRun(mem, va + done + chunk, size - done - chunk, fileOff + done + chunk, rest).0);
        written := written + image;
        done := done + chunk;
        total := total + chunk;
      }
    }
  }
}
