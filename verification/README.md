# A verified model of the memory dumper and its companion tools

The repository dumps the memory of a running process, maps its pages to physical
addresses, resolves names through a prebuilt index and opens (possibly encrypted)
metadata files. This project models its core in Dafny 4.11 and proves what those parts
are for. `dafny verify dfyconfig.toml` checks everything.

| file | models |
|---|---|
| `Words.dfy` | bytes, 32- and 64-bit words, `^` and `\|` on words, little-endian bytes |
| `Fnv.dfy` | the FNV-1a hash (section 2 of draft-eastlake-fnv) of the index builder and the reader |
| `Sorting.dfy` | sorting rows by key |
| `IndexBuilder.dfy` | `il2cpp_index.py`: entries to rows to the bytes of the index file |
| `IndexReader.dfy` | `lxgr_il2cpp.c`: mapping a file, decoding its header, binary search |
| `IndexEndToEnd.dfy` | the builder and the reader together |
| `IndexCache.dfy` | the one-entry cache in the reader's statics, over whole runs |
| `Metadata.dfy` | `main.rs`: the seven-stage XOR decryption |
| `UnityVersion.dfy` | `main.rs`: the skipping scan for a version string |
| `Process.dfy` | `lxgr_dump.c`: two-source reads and range dumps over an unreliable kernel |
| `LibDump.dfy` | `main.c`: rebuilding a library image from its segments |
| `PointerChain.dfy` | `lxgr_dump.c`: pointer chains |
| `Pagemap.dfy` | `lxgr_dump.c`: virtual to physical and back |
| `HexText.dfy`, `Utf8Text.dfy` | hexadecimal text, and the parts of `str` the page-map parser uses |
| `PhysMap.dfy` | printing the page map, and `pamap.rs` loading and searching it |

## How the system is modelled

- Words are integers with explicit bounds; every 64-bit sum that can wrap is written with
  `Wrap64`, and `int` overflow in the C binary search is an outcome of its own.
- The kernel is a script of replies, one per system call: a count, an interruption or an
  error. A count is cut down to what memory allows. A theorem "for every script" holds for
  every split, retry, short write and failure. A script is finite, so a run meets finitely
  many interruptions; a call after its end fails.
- `/proc` files are given values: a pagemap is a map from page number to entry (a page
  outside it is a short read), a maps file is a list of parsed lines.
- The page size is a parameter of the page-map functions; the round trips are stated for
  4 KiB pages, and a lemma shows that they fail for each larger size. The index reader maps
  whole pages of a size that is fixed but unknown, from 16 bytes up. `x & (ps - 1)` is taken
  as `x % ps`, page sizes being powers of two.
- A run of the index cache is a list of calls; in each, the caller writes a path into one of
  its buffers and passes the buffer, and the remembered path is whatever that buffer holds now.
- Code that updates state in place is imperative here: `MetadataFile`, `BinaryFile`,
  `Cache`, `Kernel`, `OutFile` and `TextFile` are classes whose methods are proved against
  functions on values, and the theorems are about those functions.
- `sort_unstable_by_key` may order equal keys in any way, and `binary_search_by_key` may
  return any of them, so the page-map theorems hold for every sorted permutation of the
  loaded entries and every matching position.

## Main results

- **Metadata.** The seven stages amount to one XOR with a four-byte period; stages three to
  six never succeed on any buffer (`CascadeIsFourPeriodic`, `MiddleStagesNeverFire`).
  Encrypted metadata is recovered exactly when the keystream repeats every four bytes
  (`RecoveredIffFourPeriodic`).
- **Index.** A lookup in the emitted file is the naive scan of the entries, or 0 throughout
  when either table is empty (`LookupInEmittedFile`). For all files and every run, a load
  through the cache equals a fresh load exactly when the remembered buffer does not read as the
  path asked for, or no failed load has fouled the blocks and the same would load
  (`LoadIsFreshIff`). So a run that keeps one text in each path buffer and names no file with a
  zero count is coherent, whatever other files there are (`HarmlessRunIsFresh`); all runs are,
  with one text in each buffer exactly when no loadable file lives beside one with a zero count
  (`CacheCoherentIffHealthy`), and with no such promise exactly when no file loads at all
  (`CacheCoherentIffNothingLoads`).
  `(lo + hi) / 2` is safe exactly up to 2^30 rows (`OverflowThreshold`); up to there a block
  that the file holds in full always gives an answer (`CoveredBlockAnswers`).
- **Page map.** Print, parse, sort and search give back the direct translation of every
  readable address of the printed ranges, and nothing where no range touches the page
  (`LoadedMapTranslates`, `DumpedMapTranslates`); a printed map loads exactly when some page
  was read and none that was read is absent (`PrintedMapLoadsIff`, `MapOfRangesLoadsIff`). The
  reverse scan inverts the query (`PaToVaInverts`, `PaToVaMissesIff`) and finds the translation
  of every mapped address in its budget (`MappedAddressIsFound`). Both hold on 4 KiB pages and on no larger page
  size (`RoundTripOnlyOn4K`, `InverseOnlyOn4K`).
- **Images.** Interrupted reads are invisible (`InterruptionsAreInvisible`). A dump is, chunk
  by chunk, memory up to some point and zeros after it (`DumpIsImage`); a library file has the
  length of its furthest segment and every byte comes from the last segment that covers it
  (`LibraryImage`, over the maps lines `LibraryOfLines`, under a generous kernel
  `RebuiltLibrary`).
- **Chains.** Resolving "s>t" is resolving "s" and then "B>t" from its result
  (`ResolveIsCompositional`); a chain of printed offsets is a walk over memory (`ChainWalks`).
- **Versions.** The scan answers the greatest candidate it keeps, and its skips lose no
  version that stands alone, except in the last twelve bytes (`IsolatedVersionFound`).

## Where the code and its own description differ

The model follows the code.

- The feature list and the labels name eight-byte, rolling, position-dependent and
  header-only schemes (il2cpp-dumper-rs/README.md:143). Their stages never recover anything
  and their labels are never reported: `MiddleStagesNeverFire`, `OnlyTheFirstTwoStagesFire`.
  What becomes of files under such keys: `EightByteKeyOpensIff`, `PositionKeyNeverOpens`,
  `HeaderKeyOpensIff`.
- "Unreadable pages become zero" (lxgr_dump.h:41-43): so do readable bytes behind a hole of
  the same 64 KiB chunk. `FaithfulImageIff` gives the exact condition, `ReadableByteLost` a case.
- "B+0x10>0x8>0x20" (README:34-35, lxgr_dump.h:35-38) is refused, in either case, and
  the last offset is dereferenced like the others: `BasePlusOffsetRefused`,
  `LastOffsetIsDereferenced`.
- A "-" line for an absent page (README:23-24) makes the loader give up on the whole map:
  `PrintedMapLoadsIff`.
- The page size is asked of the system, but page numbers are shifted by 12:
  `InverseOnlyOn4K`, `RoundTripOnlyOn4K`.
- A failed load overwrites the cached blocks and leaves the cached name, and the cache keeps
  the caller's path buffer rather than its text: `PoisonedCache`, `ReuseBuffer`,
  `LoadIsFreshIff`.
- The counts of an index file are never compared with its size, so that a file which lacks
  its tail loads and then faults: `BlockReadableIff`, `TruncatedFileFaults`.

## Model

| member | source | states |
|---|---|---|
| Fnv.HashCString | lxgr_il2cpp.c:15-23 | the C loop hashes exactly the bytes before the first NUL |
| Fnv.HashBytes | il2cpp_index.py:22-27 | the Python loop hashes the whole byte string |
| Fnv.ReaderAgreesWithBuilder | lxgr_il2cpp.c:15-23 | reader and builder give a NUL-free name the same hash, whatever follows its terminator |
| Fnv.StepTouchesLowByte | lxgr_il2cpp.c:19-20 | the byte is zero-extended: the exclusive or changes only the low eight bits before the multiplication |
| Fnv.KnownVector | il2cpp_index.py:22-27 | the published FNV-1a test vector for "a" |
| Fnv.StepBijective | il2cpp_index.py:25-26 | for a fixed byte the hash step is a bijection of 64-bit states, with an explicit inverse |
| Fnv.StepInjectiveInByte | lxgr_il2cpp.c:19-20 | for a fixed state the hash step is injective in the byte |
| Fnv.OneByteChangeNeverCollides | lxgr_il2cpp.c:15-23 | two names that differ in exactly one byte never have the same hash |
| IndexBuilder.Build | il2cpp_index.py:30-42 | the rows are strictly ascending and hold exactly what the naive first-match scan finds for each hash |
| IndexBuilder.IndexUnique | il2cpp_index.py:30-42 | the entries determine the table: two tables with that property are equal |
| IndexBuilder.FirstMatchFindsName | il2cpp_index.py:33-40 | every entry with a name and a positive address is found by the scan, with its own address unless an earlier one has its hash |
| IndexBuilder.FirstMatchHasEntry | il2cpp_index.py:33-40 | a hit is the low half of the address of an entry with a name, a positive address and that hash |
| IndexBuilder.BinaryFile.EmitBin | il2cpp_index.py:60-64 | a block is all the hashes and then all the addresses, little-endian |
| IndexBuilder.BinaryFile.WriteIndex | il2cpp_index.py:86-90 | the file is magic, two counts and two blocks; a count of 2^32 is refused after the magic |
| IndexReader.LookupName | lxgr_il2cpp.c:26-42 | the loop refines the search, with bus errors and signed overflow as outcomes |
| IndexReader.BinarySearchRefinesLinear | lxgr_il2cpp.c:26-42 | on an ascending readable table of at most 2^30 rows the binary search answers as the front-to-back scan, inside the table and without overflow |
| IndexReader.NoOverflowUpTo2To30 | lxgr_il2cpp.c:30-32 | up to 2^30 rows no table, ascending or not, makes `lo + hi` overflow |
| IndexReader.NegativeCount | lxgr_il2cpp.c:26-32 | a count of more than 2^31 finds nothing, and 2^31 itself overflows |
| IndexReader.HeaderAcceptedIff | lxgr_il2cpp.c:111-132 | a file is accepted if and only if it has eight bytes and starts with "LX2I"; the counts are the two words behind that, zero-filled past the end |
| IndexReader.ReadableAnswers | lxgr_il2cpp.c:26-42 | a search of any readable table of at most 2^30 rows, ascending or not, ends with an answer |
| IndexReader.BlockReadableIff | lxgr_il2cpp.c:83-96 | whatever count the file claims: all rows of a loaded block are readable if and only if it has none, as an `int`, or it ends inside the last mapped page |
| IndexReader.CoveredBlockAnswers | lxgr_il2cpp.c:83-96 | a block that the file holds in full, of at most 2^30 rows, gives an answer for every hash |
| IndexReader.TruncatedFileFaults | lxgr_il2cpp.c:124-138 | a file cut off behind its header loads, and every method lookup in it is a bus error, on page sizes up to 8 GiB |
| IndexEndToEnd.HeaderRoundTrip | lxgr_il2cpp.c:124-138 | the emitted header decodes to the two counts and the blocks stand where the reader looks |
| IndexEndToEnd.BlockDecodes | lxgr_il2cpp.c:83-90 | row i of an emitted block reads back as its hash and address |
| IndexEndToEnd.LookupInEmittedFile | lxgr_il2cpp.c:146-164 | for all entry lists: a lookup is the naive scan plus base when both tables have rows, and 0 for every name of both kinds otherwise |
| IndexEndToEnd.AcceptedNameResolves | lxgr_il2cpp.c:146-164 | a name without NUL that came with a positive address resolves to base plus the low half of that address, unless an earlier such entry collides |
| IndexEndToEnd.OverflowThreshold | lxgr_il2cpp.c:30-32 | no emitted ascending table of n rows and no hash makes `lo + hi` overflow if and only if n is at most 2^30 |
| IndexCache.Cache.EnsureLoaded | lxgr_il2cpp.c:98-144 | one load as a state change of the three statics, the partial overwrite on failure included |
| IndexCache.Cache.LookupFile | lxgr_il2cpp.c:146-164 | null arguments, the new statics and the answer; a coherent cache answers as a fresh load, and stays coherent unless a name is cached and the file asked for has a zero count |
| IndexCache.EnsureIs | lxgr_il2cpp.c:98-144 | the cached name is answered from the statics unread, a refused file changes nothing, and one that loads replaces all three statics |
| IndexCache.EnsureKeepsCoherent | lxgr_il2cpp.c:98-144 | a load from a coherent cache hands out what a fresh load would, and leaves the cache incoherent if and only if a name is cached and the path asked for has a zero count |
| IndexCache.StepKeepsSound | lxgr_il2cpp.c:98-144 | one call hands out a fresh load of the text asked for or, on a hit, of the text once loaded; it leaves the blocks of another text under the remembered name if and only if a name is cached, the call misses and the file asked for has a zero count |
| IndexCache.LoadIsFreshIff | lxgr_il2cpp.c:98-144 | for all files and every run: a load is stale if and only if the remembered buffer now reads as the path asked for and either a failed load has overwritten the blocks since or what was loaded under it differs |
| IndexCache.OneTextLoadIsFreshIff | lxgr_il2cpp.c:98-144 | in a run in which each buffer keeps one text, a load is stale if and only if it hits a cache whose blocks a failed load has overwritten since |
| IndexCache.HarmlessRunIsFresh | lxgr_il2cpp.c:98-144 | after any run in which each buffer keeps one text and no path has a file with a zero count, whatever other files exist, the next load equals a fresh load |
| IndexCache.CacheCoherentIffHealthy | lxgr_il2cpp.c:98-144 | while each buffer keeps one text: every load of every run equals a fresh load if and only if no loadable file lives beside one with a zero count |
| IndexCache.CacheCoherentIffNothingLoads | lxgr_il2cpp.c:98-144 | with buffers rewritten at will: every load of every run equals a fresh load if and only if no file loads |
| IndexCache.PoisonedCache | lxgr_il2cpp.c:134-138 | after loading p and failing on q the cache still names p but answers from what q left there |
| IndexCache.ReuseBuffer | lxgr_il2cpp.c:104-107 | a caller that reuses the path buffer for another text gets the old file's blocks |
| Metadata.VersionBytes | il2cpp-dumper-rs/src/main.rs:178-182 | the version is in 1..199 exactly when its low byte is and the other three are zero |
| Metadata.ValidVersionIff | il2cpp-dumper-rs/src/main.rs:178-182 | a buffer has a valid version if and only if it has eight bytes, byte 4 is in 1..199 and bytes 5 to 7 are zero |
| Metadata.HasMagicIff | il2cpp-dumper-rs/src/main.rs:977-978 | the first four bytes, little-endian, are 0xFAB11BAF |
| Metadata.MiddleStagesNeverFire | il2cpp-dumper-rs/src/main.rs:212-263 | the eight-byte, rolling, position-dependent and masked stages fail on every buffer |
| Metadata.CascadeIsFourPeriodic | il2cpp-dumper-rs/src/main.rs:184-279 | for every buffer of 16 bytes or more the cascade succeeds exactly when the four-byte XOR leaves a valid version, with that XOR as the result |
| Metadata.OnlyTheFirstTwoStagesFire | il2cpp-dumper-rs/src/main.rs:265-276 | on a buffer without the magic, all that the caller passes on, the header stage never fires after the first two failed, and only the single-byte and four-byte labels are reported |
| Metadata.RecoveredIffFourPeriodic | il2cpp-dumper-rs/src/main.rs:977-1001 | valid metadata under any keystream is recovered if and only if the keystream repeats every four bytes (and, below 16 bytes, leaves the magic alone) |
| Metadata.RecoveredLabel | il2cpp-dumper-rs/src/main.rs:191-210 | the single-byte label is reported exactly when the four key bytes are equal |
| Metadata.EightByteKeyOpensIff | il2cpp-dumper-rs/src/main.rs:212-227 | an eight-byte key is recovered if and only if it is a four-byte key twice and, below 16 bytes, zero |
| Metadata.PositionKeyNeverOpens | il2cpp-dumper-rs/src/main.rs:241-263 | position-dependent encryption of valid metadata of any length is never recovered |
| Metadata.HeaderKeyOpensIff | il2cpp-dumper-rs/src/main.rs:265-276 | header-only encryption is recovered if and only if each key byte whose turn comes again past byte 255 is zero and, below 16 bytes, the key is zero: always from 16 up to 256 bytes, from 260 bytes on only under the zero key |
| Metadata.MetadataFile.XorInPlace | il2cpp-dumper-rs/src/main.rs:204 | the in-place loop leaves every byte XORed with its key byte |
| Metadata.MetadataFile.TryDecryptMetadata | il2cpp-dumper-rs/src/main.rs:184-279 | the stages in order; on success the buffer is the four-byte XOR of the old one, on failure it is untouched |
| UnityVersion.DetectUnityVersion | il2cpp-dumper-rs/src/main.rs:281-313 | the answer is the greatest, in the lexicographic order, of the accepted candidates at visited starts, or none if there are none |
| UnityVersion.CompareIsOrder | il2cpp-dumper-rs/src/main.rs:301 | the comparison of strings is that order: a prefix, or smaller at the first difference |
| UnityVersion.HeadIs | il2cpp-dumper-rs/src/main.rs:285-293 | over byte codes: which bytes a run consists of, and that a head is "20", two digits, a dot and a digit with more than twelve bytes left |
| UnityVersion.AcceptedIff | il2cpp-dumper-rs/src/main.rs:294-300 | the filters accept exactly 8 to 20 bytes with two dots, a letter of "fbap" and a digit at the end |
| UnityVersion.UnreachedIsVisited | il2cpp-dumper-rs/src/main.rs:307-310 | a start is skipped only if an earlier head reaches it through version characters |
| UnityVersion.VisitedIff | il2cpp-dumper-rs/src/main.rs:307-310 | a start is visited if and only if it is not strictly inside the candidate of an earlier visited head |
| UnityVersion.WellFormedAccepted | il2cpp-dumper-rs/src/main.rs:294-300 | every string of the version grammar, 8 to 20 bytes long, passes the filters |
| UnityVersion.WellFormedIsVersion | il2cpp-dumper-rs/src/main.rs:285-300 | every such string also has the shape of a head and runs over version characters only |
| UnityVersion.IsolatedVersionFound | il2cpp-dumper-rs/src/main.rs:281-313 | any string the scan takes for a version, standing between other bytes, is kept if and only if more than twelve bytes remain from its start, and then the answer is at least as great |
| Process.ReadCountsAPrefix | lxgr_dump.c:28-66 | however two sources split a read, the count marks a readable prefix, and it is 0 only for an empty request |
| Process.InterruptionsAreInvisible | lxgr_dump.c:34-66 | for every script: interrupted read calls, in either source and anywhere, change neither the count nor what else is consumed; only the open is not repeated |
| Process.InterruptedFirst | lxgr_dump.c:41-42 | any number of interruptions before a read change nothing at all |
| Process.FullFirstRead | lxgr_dump.c:45-46 | a first source that delivers everything is the only one asked |
| Process.SecondSourceMissing | lxgr_dump.c:51-53 | if the second source cannot be opened the read stands at what the first delivered, and fails if that is nothing |
| Process.FallbackResumes | lxgr_dump.c:45-63 | when the first source gives out after some bytes the second goes on from there, up to the first hole |
| Process.GenerousRead | lxgr_dump.c:28-66 | for a read of any size, under a kernel that always delivers what it can of that many bytes, the read stops exactly at the first hole within four calls |
| Process.PatientRead | lxgr_dump.c:28-66 | the same with interruptions anywhere but at the open |
| Process.Kernel.Read | lxgr_dump.c:28-66 | the counted bytes equal memory, nothing past the request is touched, and -1 means exactly that no byte was obtained |
| Process.DumpIsImage | lxgr_dump.c:181-218 | for every size and every behaviour of the kernel, each chunk of what was written is a prefix of memory followed by zeros |
| Process.GenerousDump | lxgr_dump.c:193-215 | under a generous kernel the whole size is written and the image is exact |
| Process.ShortWriteEnds | lxgr_dump.c:207-211 | a write that is interrupted, fails or falls short is not repeated and ends the dump with what it wrote |
| Process.ExactImageAt | lxgr_dump.c:199-205 | byte j of that image is memory unless a hole of its 65536-byte chunk precedes it, in which case it is zero |
| Process.FaithfulImageIff | lxgr_dump.c:199-205 | the image equals memory with zeros for holes if and only if no non-zero readable byte lies behind a hole of its chunk |
| Process.ReadableByteLost | lxgr_dump.c:199-205 | there is a memory in which a readable non-zero byte is blanked even by a generous kernel |
| Process.OverlayTwice | lxgr_dump.c:207-214 | two consecutive writes are one write of the concatenation |
| Process.Kernel.DumpRange | lxgr_dump.c:181-218 | the file changes exactly by the image at the offset; the result is the size if every write was complete and -1 otherwise |
| LibDump.Collect | main.c:58-81 | the kept segments are the first 512 wanted ones in maps order, with the running maximum of their ends |
| LibDump.SegmentsAreWanted | main.c:62-76 | only readable, parsed lines with the name become segments, with their own fields, and all of them do while there is room |
| LibDump.KeptIsSegment | main.c:58-81 | the first lines of that kind are the segments in maps order, as many as there is room for |
| LibDump.SegmentIsKept | main.c:58-81 | and every segment is one of them |
| LibDump.DumpSegments | main.c:100-114 | the file becomes the successive pastes of the segment images, up to the first failure |
| LibDump.DumpLib | main.c:48-134 | 0 exactly when every step succeeds; then the file is the library image over the fields of the first 512 wanted lines and, if asked for, the page map is the printed one |
| LibDump.PasteAt | main.c:101-114 | pasting keeps the length, the last covering image wins, and uncovered bytes stay |
| LibDump.LibraryEnds | main.c:77-79 | when all dumps succeed the 64-bit running maximum is the true maximum of `off + size` |
| LibDump.LibraryImage | main.c:58-114 | a finished file is exactly as long as the furthest segment end, empty segments included; each byte is from the last covering segment's dump, or zero |
| LibDump.GenerousLibrary | main.c:100-114 | under a generous kernel every segment is dumped in full with its exact image |
| LibDump.LibraryOfLines | main.c:58-114 | over the raw fields of the first 512 wanted lines, none with end before start: the length is the greatest off + (end - start); each byte is from the dump of the last line with off <= o < off + (end - start), or zero |
| LibDump.RebuiltLibrary | main.c:58-114 | under a generous kernel that byte is the process byte at start + (o - off), or zero behind a hole of its chunk |
| LibDump.DumpedMapTranslates | main.c:118-132 | the page map written beside the library, once loaded, answers every readable address of every such line with its direct translation |
| PointerChain.TokensConcat | lxgr_dump.c:157-169 | the tokens of "s>t" are those of s and then those of t |
| PointerChain.ResolveChain | lxgr_dump.c:146-179 | the tokenising loop refines the fold over the tokens, with every failure and every reply consumed |
| PointerChain.ResolveIsCompositional | lxgr_dump.c:146-179 | resolving "s>t" equals resolving "B>t" from the result of "s", in all failure and null cases |
| PointerChain.ChainWalks | lxgr_dump.c:146-179 | "B" or "b" and printed offsets, under a generous kernel, resolve to the walk over process memory: add, read eight bytes, repeat |
| PointerChain.OneMoreOffset | lxgr_dump.c:169-178 | one more offset gives the pointer at the sum exactly when there is an address, the offset is a number and eight bytes are read, and else 0 |
| PointerChain.RefusedUnread | lxgr_dump.c:148-160 | 256 characters or more, or no token, give 0 without a read |
| PointerChain.LastOffsetIsDereferenced | lxgr_dump.c:169-178 | a non-zero answer is a pointer read at the address of the rest of the chain plus the last offset |
| PointerChain.BasePlusOffsetRefused | lxgr_dump.c:162-167 | a first token that starts with "B+" or "b+" always resolves to 0 without a read |
| PointerChain.NumeralParses | lxgr_dump.c:133-144 | white space, one sign, one 0x and digits of either case read as their value, negated in 64 bits behind a minus; more than 64 bits are refused |
| PointerChain.OnlyNumeralsParse | lxgr_dump.c:133-144 | and nothing else reads as a number |
| PointerChain.PrintedAddressParses | lxgr_dump.c:133-144 | an address as printed, with or without 0x, parses to itself |
| PointerChain.LiteralResolves | lxgr_dump.c:157-168 | a lone literal address resolves to itself without a read |
| Pagemap.EntryBits | lxgr_dump.c:18-19 | bit 63 of an entry says present, the low 55 bits are the frame |
| Pagemap.TranslationIsFramePlusOffset | lxgr_dump.c:81-84 | a present page translates to frame times 4096 plus the offset in the page |
| Pagemap.VaToPaIsZeroIff | lxgr_dump.c:73-84 | the query answers 0 exactly without a pagemap, for an unread or absent page, and for byte 0 of a frame that is zero in 52 bits |
| Pagemap.LargePageTranslation | lxgr_dump.c:78-84 | on larger pages the entry is that of the whole page; an aligned frame number is joined with the whole offset |
| Pagemap.PagesIff | lxgr_dump.c:111-117 | the scan looks at exactly the pages with a byte of some mapping that ends below the last page |
| Pagemap.MappingPages | lxgr_dump.c:113-117 | inside a mapping the pages come one after the other, from that of its first byte to that of its last |
| Pagemap.PagesConcat | lxgr_dump.c:109-125 | the mappings come in file order |
| Pagemap.PlaceOf | lxgr_dump.c:109-125 | the page of a mapped address stands behind the pages of the earlier mappings and of the lower addresses of its own |
| Pagemap.ScanForVa | lxgr_dump.c:87-131 | the two nested loops refine the first match among the first 2^22 pages in maps order |
| Pagemap.PaToVaInverts | lxgr_dump.c:87-131 | a non-zero answer translates back to the address asked for and is the first match in maps order |
| Pagemap.PaToVaMissesIff | lxgr_dump.c:106-126 | the answer is 0 if and only if no page among the first 2^22 matches or the first match is byte 0 of page 0 |
| Pagemap.MappedAddressIsFound | lxgr_dump.c:68-131 | the translation of any address of a mapping, with fewer than 2^22 pages before its own and a frame of 52 bits, is answered with an address of a mapped page that translates back |
| Pagemap.TranslatedIsFound | lxgr_dump.c:68-131 | for any present page among the first 2^22: a non-zero answer for its translation translates back; with a frame of 52 bits the answer is 0 only for byte 0 of page 0 as first match; a wider frame never matches |
| Pagemap.SomeTranslationsAreLost | lxgr_dump.c:81-131 | both exceptions occur: a 53-bit frame, and byte 0 of a mapped page 0, translate to addresses that the scan misses |
| Pagemap.MatchIffTranslates | lxgr_dump.c:118-119 | a present page matches exactly when it translates onto the address asked for and its frame fits in 52 bits |
| Pagemap.InverseOnlyOn4K | lxgr_dump.c:87-131 | among the page sizes 4096, 8192, ... the scan inverts the query on every page-aligned snapshot if and only if the size is 4096 |
| HexText.HexDigitIs | lxgr_dump.c:139 | digits of either case have the value of their place in the alphabet, other characters none |
| HexText.HexDigitsRoundTrip | lxgr_dump.c:242-245 | printed digits are lower-case, without leading zeros, clean ASCII, and read back as the number |
| Utf8Text.PrintedHexParses | il2cpp-dumper-rs/src/pamap.rs:71-77 | the parser reads what `0x%llx` prints, for every 64-bit number |
| Utf8Text.AsciiIsUtf8 | il2cpp-dumper-rs/src/pamap.rs:32-35 | ASCII bytes decode to their own characters |
| Utf8Text.Utf8Iff | il2cpp-dumper-rs/src/pamap.rs:32-35 | the validator accepts exactly the encodings of RFC 3629 and gives back what was encoded |
| Utf8Text.TrimIs | il2cpp-dumper-rs/src/pamap.rs:33 | trimming takes the white ends and nothing else |
| Utf8Text.FieldsConcat | il2cpp-dumper-rs/src/pamap.rs:39-41 | white space separates the fields before it from those behind it |
| Utf8Text.FieldsOf | il2cpp-dumper-rs/src/pamap.rs:39-41 | a word is its only field, and white space has none |
| Utf8Text.WhiteIs | il2cpp-dumper-rs/src/pamap.rs:33 | white space is the 25 characters of the Unicode property |
| Utf8Text.NumeralParses | il2cpp-dumper-rs/src/pamap.rs:71-77 | any number of "0x", then of "0X", a plus at will and digits read as their value below 2^64 |
| Utf8Text.OnlyNumeralsParse | il2cpp-dumper-rs/src/pamap.rs:71-77 | and nothing else reads as a number |
| PhysMap.TextFile.PamapRange | lxgr_dump.c:220-250 | the loop appends one line per readable page of the range, or returns -1 |
| PhysMap.AllPagesIff | lxgr_dump.c:229-233 | on 4 KiB pages exactly the pages with a byte of some range are printed |
| PhysMap.TouchedByAddress | lxgr_dump.c:229-233 | a range has a byte in a page if and only if some address va <= a < va + size lies in it |
| PhysMap.RangePagesOf | lxgr_dump.c:229-233 | on any page size: the units from that of the first byte to the end rounded up, sums taken in 64 bits |
| PhysMap.FrameIsQueryOfUnit | lxgr_dump.c:239-241 | the printed frame of a unit is what the query would answer if the entry of the unit were that of its page |
| PhysMap.LinesAsPrinted | lxgr_dump.c:242-245 | the text of a present line, of an absent line and of the header |
| PhysMap.TextFile.WriteMap | main.c:118-132 | the file is the header and the lines of every range in order |
| PhysMap.Load | il2cpp-dumper-rs/src/pamap.rs:25-53 | nothing for base 0, an unreadable file, a bad line or no entry; else the entries, sorted by address |
| PhysMap.AcceptedIff | il2cpp-dumper-rs/src/pamap.rs:31-46 | a file has entries to load exactly when no line is bad and some line is an entry, and its rows are those of the lines |
| PhysMap.SkippedLines | il2cpp-dumper-rs/src/pamap.rs:32-38 | what is not UTF-8, white space alone, and every text whose first other character is '#' is skipped |
| PhysMap.WordLines | il2cpp-dumper-rs/src/pamap.rs:39-42 | every other line has a word: alone it is bad; with a second one it is an entry if both are numbers and bad if not, whatever follows |
| PhysMap.ReadPrintedLine | lxgr_dump.c:239-246 | a printed line reads back as its page and frame; the line of an absent page is bad |
| PhysMap.PrintedMapLoadsIff | il2cpp-dumper-rs/src/pamap.rs:25-53 | a printed map loads if and only if some page was read and every page that was read is present |
| PhysMap.MapOfRangesLoadsIff | il2cpp-dumper-rs/src/pamap.rs:25-53 | on 4 KiB pages: if and only if some page with a byte of a range was read, and each such page that was read is present |
| PhysMap.BinarySearchByKey | il2cpp-dumper-rs/src/pamap.rs:66 | some position of the key, or none if the key is absent |
| PhysMap.PaFromRva | il2cpp-dumper-rs/src/pamap.rs:62-68 | the frame of an entry for the page of base + rva, joined with the offset, or none if there is no such entry |
| PhysMap.LoadedMapAnswers | il2cpp-dumper-rs/src/pamap.rs:62-68 | for every page size and all printed ranges, a loaded map answers with the printed frame of the page of base + rva, joined with the offset, and with none elsewhere |
| PhysMap.LoadedMapTranslates | il2cpp-dumper-rs/src/pamap.rs:62-68 | on 4 KiB pages the answer is the direct translation of base + rva for every readable address of every printed range, and none where no range touches its page |
| PhysMap.RoundTripOnlyOn4K | lxgr_dump.c:220-250 | among the page sizes 4096, 8192, ... a loaded map agrees with the query on every page-aligned snapshot if and only if the size is 4096 |

## Left out

- The command lines, prompts, progress output and error texts of all three programs.
- `init_elf`, `init_pe`, `init_macho`, `init_nso`, `init_wasm` and the output generators of the Rust program: parsers and printers around the parts modelled here.
- `emit_header` and the compiled-in lookup: their round trip goes through a C compiler.
- JSON input and UTF-8 encoding in the index builder: it starts from byte-string names and integer addresses.
- Text parsing of `/proc/<pid>/maps`: lines come parsed, so over-long lines that `fgets` splits are not modelled.
- Memory that changes while it is read, and index files that change after they were mapped.
- Failures of `malloc`, `fprintf`, `fclose` and `close`.
- Process.Kernel.Read: a buffer of more than 2^63 bytes, whose count would not fit in `long`, is not modelled.
- Metadata.MetadataFile.TryDecryptMetadata: reports the scheme and its key as a value, not as the formatted text of the label.
- PhysMap.Load: the sort is one stable sort; that the original may order equal keys otherwise is covered by stating PhysMap.LoadedMapTranslates for every sorted permutation.
- Pagemap.InverseOnlyOn4K: page sizes above 128 GiB are left out, for which no aligned snapshot of the kind its proof needs fits in 64 bits.
- PhysMap.RoundTripOnlyOn4K: takes the same bound on the page size.
