# Verified model of pwndbg's decoding and bracketing algorithms

This project models the parts of pwndbg that turn untrusted bytes and debugger
answers into structured values, and proves what they promise. Code that works
by expressions and recursion is modelled by functions; code that updates
variables, dictionaries or objects is modelled by methods and classes of the
same shape, each proved equal to a specification function, and the properties
are proved about that function for every input. Failures (exceptions, error
returns, unreadable memory) are ordinary results.

| files | what they model |
|---|---|
| `GoDecode`, `GoDecodeProofs`, `GoUnfold`, `GoShapes` | the recursive decoder of Go runtime types with its cache of placeholders, the type graph it is compared with, and what each decoded object says |
| `GoKnot`, `GoKnotTrees`, `GoKnotEnds`, `GoKnotLoops`, `GoKnotExact`, `GoNesting`, `GoRuntimeTypes` | replacing the placeholders in place: when it ends, what it leaves, when the result is memory's graph |
| `GoFresh`, `GoPaths`, `GoMemoryPaths` | when that ends, as a condition on the types in memory alone |
| `GoTypeExamples` | Go types on which the conditions of those theorems hold or fail |
| `GoDecoder` | decoder and replacement as a class with a dictionary and a store of objects |
| `GoTypeText`, `GoTypeNotation`, `GoTypeRoundTrip` | printer and recursive-descent parser of Go type notation, and the notation as a relation of texts and types |
| `Layout` | the struct layouts of `compute_offsets` and `CStruct` |
| `MachoTrie`, `MachoTrieProofs`, `MachoTrieLookup` | ULEB128 and the Mach-O prefix trie over raw memory, its listing and its lookup |
| `PyBits`, `Lookup8`, `Lookup8Hash`, `Lookup8Overflow` | the 64-bit hash written with unbounded integers, and inputs on which that shows |
| `ElfOverlay`, `ElfMap`, `ElfOffsets`, `ElfLaw`, `ElfPages` | the memory map of an ELF module; `ElfLaw` says what it is in terms of the headers alone, `ElfPages` has the page objects and the loops |
| `SharedCache`, `SharedCacheLaw` | splitting the Darwin shared cache by its image table, and every page that results |
| `Bundle`, `BundleOrder` | the dependency closure, its order and its depth limit |
| `Hexdump`, `HexdumpRuns`, `HexdumpItems` | lines, groups and run skipping; what the markers of skipped lines refer to; everything a dump yields |
| `Options`, `PyInt`, `OneGadget`, `OneGadgetText` | Python's integer literals; dereference expressions, and what any text is parsed to |
| `RemoteFile`, `RemoteRuns` | reading files over vFile packets, and why a run ends as it does |
| `Shellcode`, `ShellcodeOutcomes` | running injected code and restoring the inferior, and how a call ends |

## Where the code and its description differ

- A recursive Go type stored in two places of one object graph, such as
  `type T struct { a []T; b []T }`, makes `decode_runtime_type` recurse without
  end: the shared object is entered again after its cycle was closed
  (`GoTypeExamples.SharedRecursionNeverEnds`). Where no function or interface
  mentions types, the call ends if and only if one simple path at most leads from
  the type to each type with a cycle behind it (`GoMemoryPaths.PlainEndsExactly`).
  In general, storing every object that holds a placeholder in one place is
  enough, and necessary if every placeholder stands for an object it is stored in;
  `GoTypeExamples.SharedWithoutCycleEnds` stores such an object twice and ends
  (`GoRuntimeTypes.KnotTying`).
- What is kept of a struct field that is a map with an unsupported value, and
  whose key leads back to the map, depends on which type is decoded first
  (`GoTypeExamples.KeyLeadsBack`).
- A type that is first met as an argument of a function type keeps placeholders,
  because the decoded argument is dropped from the result
  (`GoTypeExamples.PlaceholderLeftByFunction`); `GoRuntimeTypes.DecodedGraphIsMemory`
  says exactly to which depths the result then is the type in memory.
- `_lookup8` adds the length to an unreduced word when the length is a multiple
  of 24. The state then differs from the published algorithm's exactly when that
  sum overflows (`Lookup8Hash.WholeBlocksAgreeExactly`), and for every level some
  24 bytes give another hash (`Lookup8Overflow.SomeHashDiffers`).
- Once one page of a program header keeps its execute flag, the later pages of
  that header get it too. `ElfOverlay.OverlayExecutable` says for every list of
  headers which pages end executable, and `ElfOverlay.ExecuteCarriesOver` has two
  headers that make a page executable which is in no executable header.
- A page that ends exactly where the shared cache starts does not overlap it, yet
  fails the assertion about partial overlaps (`SharedCache.DisjointPageFails`).
- The hexdump counter is described as reset after a run; after a run of exactly
  two it is not, so a later "skipped" line counts copies of the line below it
  only (`HexdumpRuns.SecondRunSkipsItsFirst`). Every marker stands between two
  equal lines if and only if no run of exactly two is followed by another two
  equal neighbours (`HexdumpRuns.MarkersBetweenExactly`).
- Code that fills its page to the last byte is refused, although it fits
  (`Shellcode.NoSpaceExactly`).
- `CStruct` and `compute_offsets` disagree on the size of a struct without bytes
  (`Layout.SizesAgreeExactly`).

## Model

An object is open if a placeholder is stored inside it; a holder is an object
that holds one directly.

| member | source | states |
|---|---|---|
| GoDecode.Decode | pwndbg/aglib/godbg.py:571-763 | decoding ends on every finite type graph, and a call never removes or changes an earlier cache entry or object |
| GoDecodeProofs.DecodeInv | pwndbg/aglib/godbg.py:571-763 | every call keeps the invariant: unfinished addresses are exactly those on the call stack, each entered once, and a returned placeholder names one of them |
| GoUnfold.DecoderSettles | pwndbg/aglib/godbg.py:544-549 | after the outermost call no cache entry is a placeholder, and each address was computed at most once |
| GoUnfold.DecodeFaithful | pwndbg/aglib/godbg.py:571-763 | if nothing stored inside the type fails to decode, except in fields of structs, the graph read through placeholders unfolds to every depth as memory does, with the bare names of those fields |
| GoUnfold.FailingIsNone | pwndbg/aglib/godbg.py:668-763 | an invalid or unsupported type, a type wrapped around one, and a map with such a key, or with such a value and a key that does not lead back to the map, decode to None |
| GoShapes.EveryEntryDescribed | pwndbg/aglib/godbg.py:571-763 | every type decoded from scratch is nothing, for a reason memory gives, or an object that says what memory says: a struct has memory's size and alignment, its fields are memory's names and offsets permuted into order of offset, equal offsets in memory's order, and each component belongs to the field in its place |
| GoShapes.OrderByOffset | pwndbg/aglib/godbg.py:752 | the field sort is a permutation that never decreases in offset and keeps the order of equal ones |
| GoTypeExamples.ChannelKeptByName | pwndbg/aglib/godbg.py:741-756 | a struct with a channel, a map to channels and a pointer to itself keeps the names of the first two and the cycle of the third |
| GoTypeExamples.KeyLeadsBack | pwndbg/aglib/godbg.py:703-712 | a map whose key leads back to it and whose value is a channel is kept by name or as a placeholder for nothing, depending on what is decoded first |
| GoDecoder.Decoder.Inner | pwndbg/aglib/godbg.py:571-630 | the decoder with its mutable dictionary returns and stores what the specification says |
| GoDecoder.Decoder.ComputeType | pwndbg/aglib/godbg.py:632-763 | likewise for one type by kind, with every early return |
| GoKnot.RemoveFixes | pwndbg/aglib/godbg.py:552-568 | if every open object is stored once, replacement ends and rewrites exactly the open objects inside, leaving all others alone |
| GoKnotExact.EndsWithinStore | pwndbg/aglib/godbg.py:552-568 | on any decoded graph, some recursion depth suffices if and only if one level for every object does, every depth that suffices gives the same result, and any other runs out of depth and raises nothing else |
| GoKnotExact.EndsConditions | pwndbg/aglib/godbg.py:552-568 | on any decoded graph, one place for every open object is enough to end, and one place for every object with a placeholder that closes a cycle is necessary |
| GoKnotExact.EndsExactlyOnOnePath | pwndbg/aglib/godbg.py:552-568 | if every placeholder inside stands for an object it is stored in, some recursion depth suffices if and only if every open object is stored in one place |
| GoKnotTrees.RunShowsGraph | pwndbg/aglib/godbg.py:552-568 | after any traversal that ended, the plain graph equals the one read through placeholders to exactly the depths that show no placeholder, and to every depth if no reachable holder was missed |
| GoKnotTrees.ReplacedExactlyWhenComplete | pwndbg/aglib/godbg.py:552-568 | if open objects are stored once and the traversal ended, no placeholder stays reachable, and the plain graph equals the one read through placeholders, if and only if no reachable holder was missed |
| GoNesting.DecodePlain | pwndbg/aglib/godbg.py:571-763 | without functions and interfaces that mention types, everything a call allocates is stored inside what it returns and every placeholder inside its own target |
| GoRuntimeTypes.KnotTying | pwndbg/aglib/godbg.py:544-568 | for every decodable type, with functions and interfaces: the whole call ends if open objects are stored once, and only then if placeholders stand for objects they are stored in; in general it ends exactly within one level per decoded object, and never when an object with a cycle-closing placeholder is stored twice; the only exception is the recursion limit |
| GoRuntimeTypes.PlainKnotTying | pwndbg/aglib/godbg.py:544-568 | where no function or interface mentions types, it ends if and only if every open object is stored once |
| GoRuntimeTypes.DecodedGraphIsMemory | pwndbg/aglib/godbg.py:544-763 | whenever the whole call ends, its result unfolds as memory does to exactly the depths that show no placeholder; every depth is one if no reachable holder was missed, and only then if open objects are stored once |
| GoRuntimeTypes.KnotTiedIsMemory | pwndbg/aglib/godbg.py:544-568 | for every decodable type, if no reachable holder was missed and the call ends, no placeholder is left and the cyclic result unfolds to every depth exactly as memory does |
| GoRuntimeTypes.PlainKnotTiedIsMemory | pwndbg/aglib/godbg.py:544-568 | where no function or interface mentions types, none is missed, so the same holds whenever the call ends |
| GoFresh.DecodeFresh | pwndbg/aglib/godbg.py:571-763 | no two cache entries share an object, and a map's pointer holds the map object made just before it |
| GoPaths.OnePathIsUnique | pwndbg/aglib/godbg.py:552-568 | open objects are stored in one place if and only if one path leads to each |
| GoMemoryPaths.PlainEndsExactly | pwndbg/aglib/godbg.py:544-763 | where no function or interface mentions types, the whole call ends if and only if in memory one simple path at most leads from the type to each type with a cycle behind it |
| GoMemoryPaths.PlainDecodesMemory | pwndbg/aglib/godbg.py:544-763 | for such a type it ends, within one level per decoded object, without placeholders, and the result unfolds to every depth exactly as memory does |
| GoTypeExamples.SharedRecursionNeverEnds | pwndbg/aglib/godbg.py:552-568 | a struct with two slices of itself raises the recursion error at every depth |
| GoTypeExamples.SharedWithoutCycleEnds | pwndbg/aglib/godbg.py:552-568 | a type whose open object is stored twice and whose traversal ends: its placeholder stands for an object it is not stored in |
| GoTypeExamples.PlaceholderLeftByFunction | pwndbg/aglib/godbg.py:635-667 | a type met first as a function's argument keeps a reachable placeholder |
| GoDecoder.Decoder.RemoveBackrefs | pwndbg/aglib/godbg.py:552-568 | replacement by assignment to attributes has the specified result and store, also when it raises half way |
| GoDecoder.Decoder.DecodeRuntimeType | pwndbg/aglib/godbg.py:523-549 | the two stages together, with and without keeping placeholders, errors included |
| GoTypeText.ParseStructLoop | pwndbg/aglib/godbg.py:1443-1476 | the struct parser's loop, with its separators and errors, computes the specified parse |
| GoTypeNotation.ParsesExactly | pwndbg/aglib/godbg.py:1356-1515 | a text is parsed as a type if and only if the whole of it denotes that type, in a relation written apart from the parser: numbers in any spelling of `int`, one or more semicolons between fields, and nothing behind |
| GoTypeRoundTrip.ReadBack | pwndbg/aglib/godbg.py:1493-1506 | a printed type followed by nothing or a closing character is parsed back, leaving that rest |
| GoTypeRoundTrip.PrintThenParse | pwndbg/aglib/godbg.py:1509-1515 | printing and parsing gives the type back, metadata, alignment and struct name included, if and only if it is well-formed: printable and with nothing the notation does not show |
| GoTypeRoundTrip.PrintableReadsBack | pwndbg/aglib/godbg.py:517-520 | a printable type with placeholders comes back with each placeholder as the runtime type of its size and address |
| GoTypeRoundTrip.ParsedIsWellFormed | pwndbg/aglib/godbg.py:1363-1506 | the parser accepts no text as a type that is not well-formed |
| GoTypeRoundTrip.ParseThenPrint | pwndbg/aglib/godbg.py:1509-1515 | on every accepted text, printing the parse and parsing again changes nothing |
| GoTypeRoundTrip.PrintedText | pwndbg/aglib/godbg.py:517-520 | what is printed: sizes, counts and offsets in decimal, addresses in hexadecimal, no field of unknown type |
| Layout.ComputeOffsets | pwndbg/aglib/godbg.py:101-119 | the loop over `cur` and `max_align` returns the specified offsets and size |
| Layout.AlignLeast | pwndbg/aglib/godbg.py:96-98 | rounding up gives the least multiple that is not below the offset |
| Layout.LayoutExists | pwndbg/aglib/godbg.py:101-119 | the offsets are aligned, in order and apart |
| Layout.LeastLayout | pwndbg/aglib/godbg.py:101-119 | no such layout puts any field lower or ends earlier |
| Layout.LeastSize | pwndbg/aglib/godbg.py:117-119 | the size is the least multiple of the largest alignment that any layout could have |
| Layout.ArrayAlignedExactly | pwndbg/aglib/godbg.py:101-119 | fields are aligned in every array element if and only if every alignment divides the size |
| Layout.PowersOfTwoAligned | pwndbg/aglib/godbg.py:101-119 | power-of-two alignments keep fields aligned in arrays |
| Layout.MixedAlignmentsMisaligned | pwndbg/aglib/godbg.py:117-119 | alignments 2 and 3 do not |
| Layout.CStruct.constructor | pwndbg/aglib/dynamic.py:746-782 | the constructor's loop stores the specified offsets, size and alignment |
| Layout.PadIsAlign | pwndbg/aglib/dynamic.py:758-760 | padding by the remainder is rounding up |
| Layout.OffsetsAgree | pwndbg/aglib/dynamic.py:746-770 | both algorithms give a field the same offset, unless a later field takes its name |
| Layout.SizesAgreeExactly | pwndbg/aglib/dynamic.py:772-782 | they give the same size if and only if some field has one |
| MachoTrie.Uleb128 | pwndbg/aglib/macho.py:15-32 | the shifting loop computes the specified number and length |
| MachoTrie.EncodeIsUleb | pwndbg/aglib/macho.py:15-32 | the encoder of section 7.6 of DWARF 5 produces an encoding of its number |
| MachoTrie.UlebDecodes | pwndbg/aglib/macho.py:15-32 | decoding inverts every encoding, padded ones included |
| MachoTrie.UlebExact | pwndbg/aglib/macho.py:15-32 | decoding succeeds on nothing else |
| MachoTrie.StringExactly | pwndbg/aglib/memory.py:136-154 | a string is the readable bytes before its first zero within 4096 bytes, and empty without one |
| MachoTrie.WalkCursor | pwndbg/aglib/macho.py:43-93 | the generator with its cursor yields the specified entries and ends as specified |
| MachoTrie.WalkChildren | pwndbg/aglib/macho.py:76-93 | likewise for the loop over the children |
| MachoTrieProofs.WalkIsPreorder | pwndbg/aglib/macho.py:43-93 | memory that encodes a tree at an offset is listed in preorder with accumulated names |
| MachoTrieProofs.TrieDecodes | pwndbg/aglib/macho.py:95-112 | a well-formed trie lists exactly its tree, and lookup finds the first node of a name or nothing |
| MachoTrieProofs.NodeRefines | pwndbg/aglib/macho.py:95-106 | pruning by the name loses no entry of that name and adds none, at any node and in any memory |
| MachoTrieProofs.LookupIsFirstEntry | pwndbg/aglib/macho.py:95-112 | lookup is the first entry of the full enumeration with that name, for any memory, overlapping or empty labels included |
| MachoTrieLookup.LookupIsSearch | pwndbg/aglib/macho.py:95-106 | in any memory, damaged tries included, the first entry the selecting generator yields, or its end, is that of a search that strips labels off the name and never reads what other labels lead to |
| Lookup8.Mix64 | pwndbg/aglib/macho.py:260-327 | the assignments in their order compute the specified mixing |
| Lookup8.MixIsWordMix | pwndbg/aglib/macho.py:260-327 | on words, unbounded integers reduced late give 64-bit word arithmetic |
| Lookup8.MixIsReversible | pwndbg/aglib/macho.py:260-327 | mixing is a bijection on word triples with an explicit inverse |
| Lookup8.UnreducedMix | pwndbg/aglib/macho.py:199-200 | with an unreduced third word the result is the word result if and only if it did not overflow |
| Lookup8Overflow.UnreducedReturns | pwndbg/aglib/macho.py:260-327 | the third word of one mixing, as a number |
| Lookup8Hash.Hash | pwndbg/aglib/macho.py:170-257 | the destructive loop ends, starts from the level twice and the golden ratio, and for lengths not divisible by 24 is the published blockwise fold |
| Lookup8Hash.ReferenceAdds | pwndbg/aglib/macho.py:204-255 | each turn of the fold adds three little-endian words, and the last one the words of what is left, with the length in the byte left free |
| Lookup8Hash.ReferenceAfterBlocks | pwndbg/aglib/macho.py:186-200 | for whole blocks the fold ends in one mixing with the length added to the third word |
| Lookup8Hash.WholeBlocksAgreeExactly | pwndbg/aglib/macho.py:199-200 | for whole blocks the final state is the published one if and only if adding the length does not overflow |
| Lookup8Overflow.EveryStateReached | pwndbg/aglib/macho.py:209-255 | from every level, some 24 bytes bring the state to any three words |
| Lookup8Overflow.SomeHashDiffers | pwndbg/aglib/macho.py:196-203 | for every level, some 24 bytes overflow the third word, and the word returned, a given number, is not the published one, which is 0 |
| ElfOverlay.CoversIsRounded | pwndbg/aglib/elf.py:430-442 | a header's pages are those between its start rounded down and its end rounded up |
| ElfOverlay.OverlayFromEffect | pwndbg/aglib/elf.py:444-464 | one header writes exactly its pages; a kept execute flag carries on to its later pages, and nothing else sets it |
| ElfOverlay.OverlaySingle | pwndbg/aglib/elf.py:429-464 | page starts stay distinct and aligned; there are pages if and only if some header has memory |
| ElfOverlay.OverlayEffect | pwndbg/aglib/elf.py:429-464 | the pages are exactly those of some header; read and write flags are the last such header's, execute is never lost |
| ElfOverlay.OverlayExecutable | pwndbg/aglib/elf.py:444-464 | a page ends executable if and only if the last header on it is executable, or one of that header's pages up to this one was executable before |
| ElfOverlay.ExecuteCarriesOver | pwndbg/aglib/elf.py:444-464 | two headers whose second page is in no executable header and ends executable |
| ElfOffsets.OverlayOffsets | pwndbg/aglib/elf.py:435-464 | a page has the file offset its first header gives it |
| ElfMap.SortKeeps | pwndbg/aglib/elf.py:473 | sorting permutes, and orders pages with distinct starts |
| ElfMap.MergeKeeps | pwndbg/aglib/elf.py:474-480 | merging keeps which addresses are mapped and their write flag, and leaves no contiguous neighbours with the same |
| ElfMap.MergedEffect | pwndbg/aglib/elf.py:466-480 | after rebasing, sorting and merging, each address has the write flag of the last header describing it |
| ElfMap.FilledIsSorted | pwndbg/aglib/elf.py:482-497 | sorting pages and gaps together puts every gap in its place |
| ElfMap.FilledTiles | pwndbg/aglib/elf.py:482-497 | the filled map tiles from first start to last end, keeping every page |
| ElfMap.MapEffect | pwndbg/aglib/elf.py:414-497 | the map exists if and only if a header has memory; it tiles, described addresses keep their write flag, others are in pages without flags |
| ElfMap.NoAccessExactlyInGaps | pwndbg/aglib/elf.py:482-490 | if every header grants something, pages without flags are exactly where no header is |
| ElfOffsets.MapOffsets | pwndbg/aglib/elf.py:482-490 | every final page begins at a described page with its file offset, or is a gap that repeats the offset behind it |
| ElfLaw.MapIsRight | pwndbg/aglib/elf.py:414-497 | the whole map from the headers alone, with the flag bits written out: it exists if and only if a header has memory; its pages tile; each is a gap without flags or begins at a page of the headers with exactly its flags, execute included, and file offset; each described address has the write bit of the last header on it; neighbours without a gap differ in that bit |
| ElfPages.OverlayPages | pwndbg/aglib/elf.py:444-464 | the page loop on objects, appending and rewriting, has the specified values |
| ElfPages.MergePages | pwndbg/aglib/elf.py:474-480 | growing a page and removing the next from the list, while iterating over a copy, has the specified values |
| ElfPages.MapInner | pwndbg/aglib/elf.py:414-497 | all loops together give the specified map, every page under the file's name |
| SharedCache.BisectSplits | pwndbg/aglib/vmmap.py:91 | on a sorted table the bisection separates bases up to the address from those above |
| SharedCache.SplitPage | pwndbg/aglib/vmmap.py:91-129 | the loop over `one_past_index` and `curr_base` appends the specified pieces |
| SharedCache.RefineMemoryMap | pwndbg/aglib/vmmap.py:53-131 | the whole refinement has the specified pages or the first failure |
| SharedCache.PageTiled | pwndbg/aglib/vmmap.py:91-129 | the pieces of a page tile it in order, with its flags, cache offsets, and the name of the last image at or below each address |
| SharedCache.MapRefines | pwndbg/aglib/vmmap.py:53-131 | refinement keeps mapped addresses and flags everywhere, and pages outside the cache entirely |
| SharedCache.PageFails | pwndbg/aglib/vmmap.py:75-89 | exactly which pages fail the assertion, and which fail for an image name that is not ASCII |
| SharedCache.DisjointPageFails | pwndbg/aglib/vmmap.py:76-89 | a page apart from the cache fails if and only if it ends at the cache's start |
| SharedCache.MapFails | pwndbg/aglib/vmmap.py:75-89 | with readable names the map is refined if and only if every page is outside or inside |
| SharedCacheLaw.PageIs | pwndbg/aglib/vmmap.py:75-129 | on a sorted table, exactly what becomes of a page: kept, refused for its place or for a name, or cut at the bases of the images that begin inside it, each piece with its start, end, flags, offset and name |
| SharedCacheLaw.MapIs | pwndbg/aglib/vmmap.py:53-131 | without a cache nothing changes; with one, each page is replaced where it stands, and the first one refused decides |
| SharedCache.SortKeeps | pwndbg/aglib/macho.py:626-630 | the image sort is a stable sorted permutation |
| SharedCache.TableSorted | pwndbg/aglib/macho.py:611-632 | the table is a permutation of the images, sorted if and only if a set flag tells the truth |
| SharedCache.DyldSharedCache.ImagesSorted | pwndbg/aglib/macho.py:611-632 | the cached property answers the same table every time |
| Bundle.Walker.IterDepsRecursive | nix/bundle/bundle.py:113-132 | the generator sharing one visited set yields and fails as specified |
| Bundle.VisitExplores | nix/bundle/bundle.py:113-132 | a call that ends visits its node and closes the visited set, yielding each new node once |
| Bundle.YieldsClosure | nix/bundle/bundle.py:113-132 | without the depth error, each node reachable from the root but the root is yielded exactly once, and nothing else |
| BundleOrder.YieldsInOrder | nix/bundle/bundle.py:123-132 | with or without the error, nodes are yielded in depth-first order: each is the first missing dependency of the latest node that misses one; without it no listing in that order is longer |
| BundleOrder.DepthErrorExactly | nix/bundle/bundle.py:120-121 | the depth error is raised if and only if some depth-first listing has a node twenty levels below the root that has a dependency |
| Bundle.SmallGraphsNeverRaise | nix/bundle/bundle.py:120-121 | the depth error is never raised when at most 20 nodes are reachable |
| Hexdump.Generate | pwndbg/hexdump.py:86-151 | the loop with its counter yields the specified strings, or fails |
| Hexdump.ShowFaithful | pwndbg/hexdump.py:127-151 | both halves of a line show its bytes, flipped groups included, at its true offset and address |
| Hexdump.HighlightsFirst | pwndbg/hexdump.py:133-140 | in flipped groups the highlighted byte is the first in memory, at their end |
| Hexdump.RestExpands | pwndbg/hexdump.py:107-125 | whatever the counter holds, the rest of the output stands for exactly the lines not yet shown |
| Hexdump.Lossless | pwndbg/hexdump.py:86-151 | reading markers as copies of the line below gives back all lines at their offsets, hence the data |
| Hexdump.FailsExactly | pwndbg/hexdump.py:133-149 | for positive widths a dump fails if and only if groups do not divide lines, before yielding anything |
| HexdumpRuns.MarkersBetweenExactly | pwndbg/hexdump.py:93-125 | for all data, every marker stands between two lines with the text it counts if and only if no run of exactly two equal lines is followed, anywhere, by two equal neighbours |
| HexdumpRuns.SecondRunSkipsItsFirst | pwndbg/hexdump.py:107-125 | on two lines twice each, the marker does not |
| HexdumpItems.DumpIs | pwndbg/hexdump.py:88-151 | everything a dump yields: one item without lines for no data; else the data cut into lines, each with its offset, address, groups and highlighting; all of them without skipping, and with it, run by run, exactly those the counter lets through, with their markers |
| PyInt.SignedHexRead | pwndbg/aglib/onegadget.py:118 | a printed signed displacement is read back by `int` in base 0 |
| OneGadget.OperationsMean | pwndbg/aglib/onegadget.py:94-111 | addition adds and dereferencing reads memory, for every expression and state |
| OneGadget.ReadBack | pwndbg/aglib/onegadget.py:196-229 | printed text is parsed if and only if no sum has two non-zero displacements, and then has the same value in every state |
| OneGadget.PositiveReadsBack | pwndbg/aglib/onegadget.py:196-229 | expressions whose nested objects are dereferenced always survive printing and parsing |
| OneGadget.OperationsStayPositive | pwndbg/aglib/onegadget.py:94-111 | addition and dereferencing build only such expressions |
| OneGadget.TwoDisplacementsRefused | pwndbg/aglib/onegadget.py:222-229 | a displacement inside and one outside an object that is not dereferenced are refused |
| OneGadgetText.PrintedText | pwndbg/aglib/onegadget.py:114-120 | what is printed: brackets and a signed hexadecimal displacement, none if it is zero |
| OneGadgetText.NumberText | pwndbg/aglib/onegadget.py:197-202 | any integer literal is parsed as its number, nothing and an exclamation mark as 0 |
| OneGadgetText.BracketText | pwndbg/aglib/onegadget.py:205-214 | text in brackets with text behind the last one: the expression inside dereferenced, moved by the number behind, and an error if either is something else |
| OneGadgetText.OpenText | pwndbg/aglib/onegadget.py:205-206 | a bracket that is not closed is an error |
| OneGadgetText.NameText | pwndbg/aglib/onegadget.py:216-226 | other text without signs is a name, or what it is defined as |
| OneGadgetText.SumText | pwndbg/aglib/onegadget.py:216-228 | with one sign, a name moved by the number behind it, or an error if that is none |
| OneGadgetText.TwoSignsText | pwndbg/aglib/onegadget.py:223-229 | with two, an error |
| OneGadgetText.Shapes | pwndbg/aglib/onegadget.py:196-229 | every text has one of these shapes |
| RemoteFile.GdbMemtoxInverse | pwndbg/aglib/file.py:258-272 | the loop advancing over escapes computes the specified bytes or fails |
| RemoteFile.EscapeRoundTrip | pwndbg/aglib/file.py:258-272 | unescaping undoes escaping, whichever other bytes the sender reserves |
| RemoteFile.UnescapeFails | pwndbg/aglib/file.py:264-266 | data is refused if and only if it ends with an odd number of braces |
| RemoteFile.ReplyRead | pwndbg/aglib/file.py:275-292 | a well-formed reply is read as the count and bytes sent |
| RemoteFile.Remote.VfilePread | pwndbg/aglib/file.py:275-292 | one read request with all error replies |
| RemoteFile.Remote.VfileReadfile | pwndbg/aglib/file.py:208-230 | the generator with its finally clause sends and yields what is specified |
| RemoteFile.ClosedOnce | pwndbg/aglib/file.py:217-230 | against any stub and any consumer an opened file is closed exactly once, last; one not opened never |
| RemoteFile.LoopReadsAll | pwndbg/aglib/file.py:222-227 | against a stub that serves the file to this run of reads, whatever it does otherwise, the loop yields the rest of the file or as many of its chunks as the consumer wants |
| RemoteFile.ServerHonest | pwndbg/aglib/file.py:275-292 | a stub that tracks what is open, and sends at most so many bytes at once, serves each of its files to whoever opened it, after any history |
| RemoteFile.ServerRefuses | pwndbg/aglib/file.py:275-292 | the same stub refuses reads and closes while nothing is open |
| RemoteFile.WholeFile | pwndbg/aglib/file.py:208-230 | every consumer gets a prefix of the file in chunks that are never empty nor too long; one that reads to the end gets the whole file |
| RemoteFile.ServerReads | pwndbg/aglib/file.py:208-230 | against that stub every file is read as it is and closed, and a missing one raises its error number |
| RemoteRuns.RunExplained | pwndbg/aglib/file.py:208-230 | for every stub and consumer of an opened file: each read is asked where the one before ended, the chunks are the data of the answers that are not empty, in order, and the ending is that of a refused close or follows from the last answer |
| RemoteRuns.EndingExactly | pwndbg/aglib/file.py:217-230 | unless the close is refused, the ending is an error if and only if the last read was answered by it, normal if and only if it was answered with count 0, and early if and only if the consumer got all it wanted |
| RemoteRuns.NotOpened | pwndbg/aglib/file.py:216-230 | a file that is not opened raises the error of the answer and is not closed |
| RemoteRuns.OpenedRead | pwndbg/aglib/file.py:233-250 | the descriptor, in decimal from a stub with the known bug and in hexadecimal from others |
| RemoteRuns.RefusedRead | pwndbg/aglib/file.py:173-183 | status -1 with a number is that error, in the same notation |
| RemoteRuns.OtherStatus | pwndbg/aglib/file.py:178-181 | any other status with a number is not understood |
| RemoteRuns.Agreed | pwndbg/aglib/file.py:174-178 | no reply is not supported, and a status without a number no error |
| RemoteRuns.OtherLetter | pwndbg/aglib/file.py:178 | nor is a reply that does not begin with F |
| RemoteRuns.CountedRead | pwndbg/aglib/file.py:287-292 | a read's count as it is and its bytes unescaped, whether they agree or not |
| RemoteRuns.UncountedRead | pwndbg/aglib/file.py:287-290 | a read reply without attachment or without a number is an error |
| RemoteRuns.FlipIsXor | pwndbg/aglib/file.py:264-266 | an escaped byte has bit 0x20 flipped |
| Shellcode.CodeEffect | pwndbg/aglib/shellcode.py:80-91 | the code window gets its bytes back; all else, and the ending, stay as the body left them |
| Shellcode.NoSpaceExactly | pwndbg/aglib/shellcode.py:72-82 | code is refused for space if and only if it leaves no byte of its page free, and then nothing changed |
| Shellcode.RegistersPutBack | pwndbg/aglib/shellcode.py:94-121 | the exit undoes the jump and every change to preserved registers, and nothing else |
| Shellcode.ShellcodeRestoresExactly | pwndbg/aglib/shellcode.py:141-171 | for every machine, code, run and caller, and every ending: no trace is left if and only if the code was refused, or code and caller together changed only the code window and preserved registers |
| Shellcode.ShellcodeRestores | pwndbg/aglib/shellcode.py:141-171 | it is enough that the code keeps to these on the machine it starts from, and the caller on the one it is given |
| Shellcode.TraceOfCode | pwndbg/aglib/shellcode.py:141-171 | on a machine that executes its memory one byte of code leaves no trace and another one does |
| Shellcode.StackRestoresExactly | pwndbg/commands/hijack_fd.py:117-138 | with the stack window saved, the same if and only if they changed only the two windows, overlapping or not, and preserved registers, or nothing was run |
| Shellcode.StackRestores | pwndbg/commands/hijack_fd.py:117-138 | it is enough that code and caller keep to these in turn |
| ShellcodeOutcomes.ExecRefusals | pwndbg/aglib/shellcode.py:63-109 | which calls are refused with which error, in which order, leaving the machine as it was |
| ShellcodeOutcomes.ExecOutcome | pwndbg/aglib/shellcode.py:141-171 | any other call runs the code on the one machine with it injected; the caller gets its turn if and only if the code ended normally at its own end; the ending and the machine left are the code's, or the caller's, with code window and registers put back |
| ShellcodeOutcomes.StackRefusals | pwndbg/commands/hijack_fd.py:123-128 | the same with the stack to be saved first |
| ShellcodeOutcomes.StackOutcome | pwndbg/commands/hijack_fd.py:117-138 | with the stack saved, the caller gets its turn if and only if, besides, the stack pointer is not below the saved window, and both windows are put back |
| Shellcode.Inferior.ExecShellcode | pwndbg/aglib/shellcode.py:141-171 | entering, running and leaving the two contexts has the specified effect |
| Shellcode.Inferior.ExecShellcodeWithStack | pwndbg/commands/hijack_fd.py:117-138 | likewise with the stack saved around it |

## Left out

- Go: reading a type's header from memory (what an address says is given; a non-empty interface outside any module, whose methods are not decoded, is described as a basic type), what decoding puts into `meta`, channels beyond being unsupported, the C-level recursion limit beyond a depth parameter, and Go map contents.
- GoUnfold.DecodeFaithful: says nothing about a field that is a map with a failing value and a key that leads back to the map; what is kept of it depends on the order of decoding.
- GoMemoryPaths.PlainEndsExactly: is about types whose functions and interfaces mention no types and whose parts all decode; for the others the exact condition is the one on the decoded objects.
- PyInt: digits and white space outside ASCII, which Python's `int` accepts.
- OneGadget: evaluation through debugger expressions, colours, and the in-place `deref_` and `ref`, which nothing calls; addresses are not reduced, since memory is any function of them.
- Lookup8Hash.WholeBlocksAgreeExactly: compares the whole final state; on which overflowing inputs the one returned word coincides is not decided, only that on some it differs.
- MachoTrie: the typed wrapper around lookup, and recursion deeper than a given depth, which ends as an error.
- ElfMap.MapEffect: says nothing about execute flags after merging, because only the write flag is compared when pages are merged; a merged page has those of the page it begins with (`ElfLaw.MapIsRight`).
- ElfPages: reading program headers, and `ptrsize`.
- SharedCache: reading the cache header and image records from memory; the bisection and sort of Python's library are modelled as usual.
- Bundle: finding the dependencies of one binary, which are given.
- Hexdump: colours, separators and the hexadecimal digits themselves (a line is its cells), and the windbg-style branch.
- Layout: the dictionaries of types and converters, and that `CStruct` shares its dictionaries between instances.
- RemoteFile: the text of packets, names in the file system, and caching; a generator asked for chunks is a bounded consumer.
- RemoteFile.CheckResponse: non-ASCII text is a number error even where it is UTF-8 digits.
- Shellcode: the debugger's breakpoints and event suspension; running the code is any step of the machine, and writes by the debugger fail only on unmapped memory.
- Objective-C types, context history and the other decoders of these files.
