/** The one-entry cache of lxgr_il2cpp.c: three statics, kept between calls. The cache
    remembers the caller's path buffer itself, not a copy of its text. */
module IndexCache {
  import opened Words
  import opened IndexReader
  import Fnv

  type Files = map<string, seq<byte>>

  function Content(files: Files, path: string): Option<seq<byte>> {
    if path in files then Some(files[path]) else None
  }

  // ----- the statics as a value -----

  /** `cached` is the present text of the remembered buffer. */
  datatype Statics = Statics(sm: Blob, sf: Blob, cached: Option<string>)

  const INITIAL := Statics(NULL_BLOB, NULL_BLOB, None)

  /** `ensure_loaded`: the statics it leaves and the blocks it hands out, if any. */
  function Ensure(files: Files, st: Statics, path: string): (Statics, Option<(Blob, Blob)>) {
    if st.cached == Some(path) then (st, Some((st.sm, st.sf)))
    else
      match ParseHeader(Content(files, path))
      case Refused => (st, None)
      case Counts(nm, nf) =>
        var st1 := st.(sm := LoadBlock(files[path], 12, nm));
        if nm == 0 then (st1, None)
        else
          var st2 := st1.(sf := LoadBlock(files[path], 12 + 12 * nm, nf));
          if nf == 0 then (st2, None) else (st2.(cached := Some(path)), Some((st2.sm, st2.sf)))
  }

  function LookupIn(kind: Kind, blocks: Option<(Blob, Blob)>, base: u64, h: u64): Probe {
    if blocks.None? then Answer(0) else Rebase(Lookup(Pick(kind, blocks.value), h), base)
  }

  // ----- the statics as the program keeps them -----

  /** A caller's `char *` path. */
  class PathBuffer {
    var text: string

    constructor (text: string)
      ensures this.text == text
    {
      this.text := text;
    }
  }

  class Cache {
    const files: Files
    var sm: Blob
    var sf: Blob
    var cached: PathBuffer?

    constructor (files: Files)
      ensures this.files == files && View() == INITIAL
    {
      this.files := files;
      sm, sf, cached := NULL_BLOB, NULL_BLOB, null;
    }

    function View(): Statics
      reads this, cached
    {
      Statics(sm, sf, if cached == null then None else Some(cached.text))
    }

    method EnsureLoaded(path: PathBuffer) returns (r: Option<(Blob, Blob)>)
      modifies this
      ensures (View(), r) == Ensure(files, old(View()), path.text)
      ensures cached == if r.None? || (old(cached) != null && old(cached.text) == path.text) then old(cached) else path
    {
      if cached != null && cached.text == path.text { return Some((sm, sf)); }
      var header := ParseHeader(Content(files, path.text));
      if header.Refused? { return None; }
      sm := LoadBlock(files[path.text], 12, header.nm);
      if header.nm == 0 { return None; }
      sf := LoadBlock(files[path.text], 12 + 12 * header.nm, header.nf);
      if header.nf == 0 { return None; }
      cached := path;
      return Some((sm, sf));
    }

    /** `lxgr_il2cpp_method_file` and `lxgr_il2cpp_field_file`. A coherent cache answers as a
        fresh load would, and stays coherent unless a name is cached and the file is poison. */
    method LookupFile(kind: Kind, path: PathBuffer?, base: u64, name: Option<seq<byte>>) returns (p: Probe)
      requires name.Some? ==> 0 in name.value
      modifies this
      ensures path == null || name.None? ==> p == Answer(0) && View() == old(View())
      ensures path != null && name.Some? ==>
                && View() == Ensure(files, old(View()), path.text).0
                && p == LookupIn(kind, Ensure(files, old(View()), path.text).1, base,
                                 Fnv.Hash(Fnv.CString(name.value)))
      ensures old(Coherent(files, View())) && path != null && name.Some? ==>
                && p == FreshAnswer(kind, Content(files, path.text), base, Fnv.Hash(Fnv.CString(name.value)))
                && (Coherent(files, View()) <==> old(View()).cached.None? || !Poison(files, path.text))
    {
      if path == null || name.None? { return Answer(0); }
      ghost var before := View();
      var blocks := EnsureLoaded(path);
      if Coherent(files, before) { EnsureKeepsCoherent(files, before, path.text); }
      if blocks.None? { return Answer(0); }
      var r := LookupName(Pick(kind, blocks.value), name.value);
      p := Rebase(r, base);
    }
  }

  // ----- coherence over whole runs -----

  ghost predicate Coherent(files: Files, st: Statics) {
    st.cached.Some? ==> FreshLoad(Content(files, st.cached.value)) == Some((st.sm, st.sf))
  }

  predicate Loadable(files: Files, path: string) { FreshLoad(Content(files, path)).Some? }

  /** A file whose header is accepted but one of whose counts is zero. */
  predicate Poison(files: Files, path: string) {
    var header := ParseHeader(Content(files, path));
    header.Counts? && (header.nm == 0 || header.nf == 0)
  }

  /** No loadable file lives beside a poisonous one. */
  predicate Healthy(files: Files) {
    forall p, q :: p in files && q in files ==> !(Loadable(files, p) && Poison(files, q))
  }

  /** A load from a coherent cache hands out what a fresh load would; it breaks the coherence
      exactly when a name is cached and the path asked for is poison. */
  lemma EnsureKeepsCoherent(files: Files, st: Statics, path: string)
    requires Coherent(files, st)
    ensures Ensure(files, st, path).1 == FreshLoad(Content(files, path))
    ensures Coherent(files, Ensure(files, st, path).0) <==> st.cached.None? || !Poison(files, path)
  {
    LoadedIsNotNull(files, if st.cached.Some? then st.cached.value else path);
  }

  /** One load in terms of the file alone: the name cached is answered from the statics unread; a
      file that is refused changes nothing; one that loads replaces all three statics. */
  lemma EnsureIs(files: Files, st: Statics, path: string)
    ensures st.cached == Some(path) ==> Ensure(files, st, path) == (st, Some((st.sm, st.sf)))
    ensures st.cached != Some(path) && ParseHeader(Content(files, path)).Refused? ==>
              Ensure(files, st, path) == (st, None)
    ensures st.cached != Some(path) && Loadable(files, path) ==>
              var blocks := FreshLoad(Content(files, path)).value;
              Ensure(files, st, path) == (Statics(blocks.0, blocks.1, Some(path)), Some(blocks))
  {
  }

  /** A load never hands out an empty block. */
  lemma LoadedIsNotNull(files: Files, path: string)
    ensures var r := FreshLoad(Content(files, path));
            r.Some? ==> r.value.0 != NULL_BLOB && r.value.1 != NULL_BLOB
  {
    var header := ParseHeader(Content(files, path));
    if header.Counts? {
      SignedNonzero(header.nm);
      SignedNonzero(header.nf);
    }
  }

  /** What a failed load of `q` does to a cache that holds `p`: the old name stays, with
      `q`'s blocks under it. */
  lemma PoisonedCache(files: Files, p: string, q: string)
    requires Loadable(files, p) && Poison(files, q)
    ensures var st := Ensure(files, Ensure(files, INITIAL, p).0, q).0;
            && st.cached == Some(p)
            && Ensure(files, st, p).1 == Some((st.sm, st.sf))
            && Some((st.sm, st.sf)) != FreshLoad(Content(files, p))
            && (ParseHeader(Content(files, q)).nm == 0 ==> forall h: u64, base: u64 ::
                  LookupIn(Method, Some((st.sm, st.sf)), base, h) == Answer(0))
            && (ParseHeader(Content(files, q)).nm > 0 ==>
                  st.sm == LoadBlock(files[q], 12, ParseHeader(Content(files, q)).nm) && st.sf == NULL_BLOB)
  {
    SignedNonzero(ParseHeader(Content(files, p)).nm);
    SignedNonzero(ParseHeader(Content(files, p)).nf);
  }

  lemma SignedNonzero(u: u32)
    ensures Signed32(u) == 0 <==> u == 0
  {
  }

  // ----- whole runs -----

  type Buffer = nat

  /** The caller writes `text` into `buffer` and passes the buffer. */
  datatype Call = Call(buffer: Buffer, text: string)

  /** The statics, with `cached` as the remembered buffer, and the present text of every
      buffer used so far. `named` records the text that was loaded under `cached`. */
  datatype World = World(sm: Blob, sf: Blob, cached: Option<Buffer>, named: string, texts: map<Buffer, string>) {
    function View(): Statics {
      Statics(sm, sf, if cached.Some? && cached.value in texts then Some(texts[cached.value]) else None)
    }
  }

  const START := World(NULL_BLOB, NULL_BLOB, None, "", map[])

  /** The remembered buffer reads as the text asked for. */
  predicate Hit(w: World, c: Call) {
    w.(texts := w.texts[c.buffer := c.text]).View().cached == Some(c.text)
  }

  function Step(files: Files, w: World, c: Call): (World, Option<(Blob, Blob)>) {
    var w1 := w.(texts := w.texts[c.buffer := c.text]);
    var (st, r) := Ensure(files, w1.View(), c.text);
    var remembered := r.Some? && !Hit(w, c);
    (w1.(sm := st.sm, sf := st.sf,
         cached := if remembered then Some(c.buffer) else w.cached,
         named := if remembered then c.text else w.named), r)
  }

  function Run(files: Files, run: seq<Call>): World {
    if run == [] then START else Step(files, Run(files, run[..|run| - 1]), run[|run| - 1]).0
  }

  /** What the last call of `run + [c]` hands out. */
  function LastLoad(files: Files, run: seq<Call>, c: Call): Option<(Blob, Blob)> {
    Step(files, Run(files, run), c).1
  }

  /** The statics of a world are what `Ensure` left; the remembered buffer's text is read
      afresh. */
  lemma StepView(files: Files, w: World, c: Call)
    ensures var w1 := w.(texts := w.texts[c.buffer := c.text]);
            (Step(files, w, c).0.View(), Step(files, w, c).1) == Ensure(files, w1.View(), c.text)
  {
  }

  /** The blocks belong to the text that was loaded, and every buffer has a text. */
  ghost predicate Sound(files: Files, w: World) {
    w.cached.Some? ==> w.cached.value in w.texts && FreshLoad(Content(files, w.named)) == Some((w.sm, w.sf))
  }

  /** One call from a sound world: what it hands out, and exactly when it leaves a sound one. */
  lemma StepKeepsSound(files: Files, w: World, c: Call)
    requires Sound(files, w)
    ensures Step(files, w, c).1 == FreshLoad(Content(files, if Hit(w, c) then w.named else c.text))
    ensures Sound(files, Step(files, w, c).0) <==> w.cached.None? || Hit(w, c) || !Poison(files, c.text)
  {
    hide Peek;
    LoadedIsNotNull(files, w.named);
  }

  /** A run leaves its cache fouled when a load failed halfway and none has succeeded since. */
  predicate Fouled(files: Files, run: seq<Call>) {
    run != [] &&
    var init, c := run[..|run| - 1], run[|run| - 1];
    if Hit(Run(files, init), c) then Fouled(files, init)
    else !Loadable(files, c.text) && (Poison(files, c.text) || Fouled(files, init))
  }

  /** What the statics hold: the blocks of the text that was loaded, or, once fouled, an
      empty block on one side at least. */
  ghost predicate Holds(files: Files, w: World, fouled: bool) {
    if fouled then w.cached.Some? ==> w.cached.value in w.texts && (w.sm == NULL_BLOB || w.sf == NULL_BLOB)
    else Sound(files, w)
  }

  lemma StepHolds(files: Files, w: World, fouled: bool, c: Call)
    requires Holds(files, w, fouled)
    ensures Holds(files, Step(files, w, c).0,
                  if Hit(w, c) then fouled else !Loadable(files, c.text) && (Poison(files, c.text) || fouled))
    ensures Step(files, w, c).1 == FreshLoad(Content(files, c.text)) <==>
            !Hit(w, c) || (!fouled && FreshLoad(Content(files, w.named)) == FreshLoad(Content(files, c.text)))
  {
    hide Peek;
    LoadedIsNotNull(files, c.text);
  }

  lemma {:induction false} RunHolds(files: Files, run: seq<Call>)
    ensures Holds(files, Run(files, run), Fouled(files, run))
  {
    hide Step, Hit, Loadable, Poison;
    if run != [] {
      RunHolds(files, run[..|run| - 1]);
      StepHolds(files, Run(files, run[..|run| - 1]), Fouled(files, run[..|run| - 1]), run[|run| - 1]);
    }
  }

  /** For all files and every run: a load is stale exactly when the remembered buffer reads
      as the text asked for and either the cache is fouled or what was loaded under that
      buffer differs. */
  lemma LoadIsFreshIff(files: Files, run: seq<Call>, c: Call)
    ensures var w := Run(files, run);
            LastLoad(files, run, c) == FreshLoad(Content(files, c.text)) <==>
            !Hit(w, c) ||
            (!Fouled(files, run) && FreshLoad(Content(files, w.named)) == FreshLoad(Content(files, c.text)))
  {
    RunHolds(files, run);
    StepHolds(files, Run(files, run), Fouled(files, run), c);
  }

  /** What a call does to the caller-visible part: its buffer gets its text, and it is
      remembered, under that text, or the memory stays. */
  lemma StepTexts(files: Files, w: World, c: Call)
    ensures var w' := Step(files, w, c).0;
            && w'.texts == w.texts[c.buffer := c.text]
            && ((w'.cached == w.cached && w'.named == w.named) || (w'.cached == Some(c.buffer) && w'.named == c.text))
  {
    hide Ensure;
  }

  /** Each buffer keeps one text. */
  predicate OneText(run: seq<Call>) {
    forall i, j :: 0 <= i < |run| && 0 <= j < |run| && run[i].buffer == run[j].buffer ==> run[i].text == run[j].text
  }

  /** In a run in which each buffer keeps one text, the world's texts are those of the run
      and the remembered buffer still reads as what was loaded. */
  lemma {:induction false} TextsAreOfRun(files: Files, run: seq<Call>)
    requires OneText(run)
    ensures var w := Run(files, run);
            && (forall b :: b in w.texts ==> Call(b, w.texts[b]) in run)
            && (w.cached.Some? ==> w.cached.value in w.texts && w.texts[w.cached.value] == w.named)
  {
    hide Step;
    if run != [] {
      var init, c := run[..|run| - 1], run[|run| - 1];
      TextsAreOfRun(files, init);
      StepTexts(files, Run(files, init), c);
      var w0 := Run(files, init);
      if c.buffer in w0.texts {
        var i :| 0 <= i < |init| && init[i] == Call(c.buffer, w0.texts[c.buffer]);
        assert run[i] == init[i];
      }
      assert forall x :: x in init ==> x in run;
      assert c in run;
    }
  }

  lemma OneTextHit(files: Files, run: seq<Call>, c: Call)
    requires OneText(run + [c]) && Hit(Run(files, run), c)
    ensures Run(files, run).named == c.text
  {
    var w := Run(files, run);
    assert forall i :: 0 <= i < |run| ==> (run + [c])[i] == run[i];
    TextsAreOfRun(files, run);
    var b := w.cached.value;
    if b == c.buffer {
      var i :| 0 <= i < |run| && run[i] == Call(b, w.texts[b]);
      assert (run + [c])[|run|] == c;
    }
  }

  /** While each buffer keeps one text, only a fouled cache hands out stale blocks. */
  lemma OneTextLoadIsFreshIff(files: Files, run: seq<Call>, c: Call)
    requires OneText(run + [c])
    ensures LastLoad(files, run, c) == FreshLoad(Content(files, c.text)) <==>
            !Hit(Run(files, run), c) || !Fouled(files, run)
  {
    LoadIsFreshIff(files, run, c);
    if Hit(Run(files, run), c) { OneTextHit(files, run, c); }
  }

  lemma {:induction false} HarmlessRunIsNotFouled(files: Files, run: seq<Call>)
    requires forall x :: x in run ==> !Poison(files, x.text)
    ensures !Fouled(files, run)
  {
    hide Hit, Run, Poison;
    if run != [] { HarmlessRunIsNotFouled(files, run[..|run| - 1]); }
  }

  /** A run that keeps one text in each buffer and names no file with a zero count, whatever
      else the file system holds: the next load hands out what a fresh load would. */
  lemma HarmlessRunIsFresh(files: Files, run: seq<Call>, c: Call)
    requires OneText(run + [c])
    requires forall x :: x in run ==> !Poison(files, x.text)
    ensures LastLoad(files, run, c) == FreshLoad(Content(files, c.text))
  {
    OneTextLoadIsFreshIff(files, run, c);
    HarmlessRunIsNotFouled(files, run);
  }

  /** While each buffer keeps one text: every load of every run hands out what a fresh load
      would, exactly when no loadable file lives beside a poisonous one. */
  lemma CacheCoherentIffHealthy(files: Files)
    ensures (forall run: seq<Call>, c: Call :: OneText(run + [c]) ==>
               LastLoad(files, run, c) == FreshLoad(Content(files, c.text)))
            <==> Healthy(files)
  {
    hide FreshLoad, Run, Step;
    if Healthy(files) {
      forall run: seq<Call>, c: Call | OneText(run + [c])
        ensures LastLoad(files, run, c) == FreshLoad(Content(files, c.text))
      {
        if x :| x in run && Poison(files, x.text) {
          NothingRemembered(files, run);
          NothingIsFresh(files, Run(files, run), c);
        } else {
          HarmlessRunIsFresh(files, run, c);
        }
      }
    } else {
      var p, q :| p in files && q in files && Loadable(files, p) && Poison(files, q);
      PoisonedRun(files, p, q);
    }
  }

  lemma PoisonedRun(files: Files, p: string, q: string)
    requires Loadable(files, p) && Poison(files, q)
    ensures OneText([Call(0, p), Call(1, q)] + [Call(0, p)])
    ensures LastLoad(files, [Call(0, p), Call(1, q)], Call(0, p)) != FreshLoad(Content(files, p))
  {
    var run := [Call(0, p), Call(1, q)];
    TwoCalls(files, run[0], run[1]);
    PoisonedCache(files, p, q);
    var w0 := Step(files, START, run[0]).0;
    var w := Step(files, w0, run[1]).0;
    StepView(files, START, run[0]);
    StepView(files, w0, run[1]);
    StepView(files, w, Call(0, p));
    hide Ensure, FreshLoad, ParseHeader;
    assert w0.(texts := w0.texts[1 := q]).View() == w0.View();
    assert w.(texts := w.texts[0 := p]).View() == w.View();
  }

  lemma TwoCalls(files: Files, c: Call, d: Call)
    ensures Run(files, [c]) == Step(files, START, c).0
    ensures Run(files, [c, d]) == Step(files, Step(files, START, c).0, d).0
  {
    hide Step;
    assert [c][..0] == [] && [c, d][..1] == [c];
    assert Run(files, []) == START;
  }

  /** With no promise about the buffers: every load of every run is fresh exactly when no
      file loads at all. */
  lemma CacheCoherentIffNothingLoads(files: Files)
    ensures (forall run: seq<Call>, c: Call ::
               LastLoad(files, run, c) == FreshLoad(Content(files, c.text)))
            <==> (forall p :: p in files ==> !Loadable(files, p))
  {
    hide FreshLoad, Step, Run;
    if forall p :: p in files ==> !Loadable(files, p) {
      forall run: seq<Call>, c: Call ensures LastLoad(files, run, c) == FreshLoad(Content(files, c.text)) {
        NothingRemembered(files, run);
        NothingIsFresh(files, Run(files, run), c);
      }
    } else {
      var p :| p in files && Loadable(files, p);
      var other := MissingName(files.Keys);
      OverwrittenHits(files, p, other);
      MissingIsNotLoadable(files, other);
    }
  }

  lemma NothingIsFresh(files: Files, w: World, c: Call)
    requires w.cached == None && (c.text in files ==> !Loadable(files, c.text))
    ensures Step(files, w, c).1 == FreshLoad(Content(files, c.text)) == None
  {
  }

  lemma MissingIsNotLoadable(files: Files, path: string)
    requires path !in files
    ensures !Loadable(files, path)
  {
  }

  lemma OverwrittenHits(files: Files, p: string, other: string)
    requires Loadable(files, p)
    ensures LastLoad(files, [Call(0, p)], Call(0, other)) == FreshLoad(Content(files, p))
  {
    TwoCalls(files, Call(0, p), Call(0, p));
    var w := Step(files, START, Call(0, p)).0;
    assert w.cached == Some(0) && Hit(w, Call(0, other));
  }

  lemma {:induction false} NothingRemembered(files: Files, run: seq<Call>)
    requires forall p :: p in files ==> !Loadable(files, p)
    ensures Run(files, run).cached == None
  {
    if run != [] {
      hide Step;
      NothingRemembered(files, run[..|run| - 1]);
      NothingStays(files, Run(files, run[..|run| - 1]), run[|run| - 1]);
    }
  }

  lemma NothingStays(files: Files, w: World, c: Call)
    requires w.cached == None && (c.text in files ==> !Loadable(files, c.text))
    ensures Step(files, w, c).0.cached == None
  {
  }

  /** Some path is not among finitely many: one longer than all of them. */
  lemma MissingName(names: set<string>) returns (s: string)
    ensures s !in names
  {
    var n := LengthBound(names);
    s := seq(n, _ => 'x');
  }

  lemma {:induction false} LengthBound(names: set<string>) returns (n: nat)
    ensures forall s :: s in names ==> |s| < n
  {
    if names == {} {
      n := 0;
    } else {
      var s :| s in names;
      var m := LengthBound(names - {s});
      n := if |s| < m then m else |s| + 1;
      forall t | t in names ensures |t| < n { assert t == s || t in names - {s}; }
    }
  }

  /** The cache keeps the caller's buffer: if the caller reuses the buffer of a loaded
      path for another text, the next load of that text gets the old file's blocks. */
  method ReuseBuffer(files: Files, p: string, other: string) returns (r: Option<(Blob, Blob)>)
    requires Loadable(files, p)
    ensures r == FreshLoad(Content(files, p))
  {
    var cache := new Cache(files);
    var path := new PathBuffer(p);
    var first := cache.EnsureLoaded(path);
    path.text := other;
    r := cache.EnsureLoaded(path);
  }
}
