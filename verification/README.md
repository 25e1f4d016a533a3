# eld: the rewrite-and-index layer, verified

This project models, in Dafny, the part of the eld linker that edits, merges, drops or indexes bytes and must still
point every reference at the right place. The algorithms are small, stateful and loop-heavy; each is modelled in the
form the C++ has (classes with fields that methods update, arrays written in place, loops) and proved against a
specification that does not follow its code: a plain sum, a linear scan, a path, a reader that takes the output apart.

Run `dafny verify dfyconfig.toml` to verify everything.

## What is proved

**RISC-V relaxation** (`RelaxEdits`, `RelaxPlan`, `Compaction`, `RegionFragmentEx`). The plan keeps its edits by
relocation, with a sorted, prefix-summed cache that is rebuilt lazily. In every state the class can reach, a shift
query, cached or not, is the plain sum over the active edits. The commit leaves exactly the surviving bytes of the
patched buffer, moves every reference to the byte it referred to, and leaves the pending view of every moved reference
unchanged; a relocation gets the type, addend and target data its active edit names, and nothing else of it changes.
What the code needs or does not do is stated with its exact condition:

- the sort leaves ties unordered, so the forward walk is defined for every order it may pick exactly when no empty
  edit shares an offset with a deletion (`WalkableIffTieFree`);
- for the same reason the cached overlap test finds every overlap exactly when no empty edit shares its offset with a
  deletion of two bytes or more (`MissesNothingIff`, with `MaskMissesOverlap`), and has the uncached answers exactly
  when every empty edit sits at the deletion of a single byte (`PathsAgreeIff`, with `StrayEmptyTells`);
- a symbol's committed size is its number of surviving bytes exactly when every deletion in it starts below the size
  left by the deletions before it (`SymbolSizeExact`, with `ShrinkMissesSecondCall`, where the second call of a
  16-byte function is missed);
- every offset inside a deletion is mapped before the deletion's start (`InsideRunsBackwards`), so the map keeps the
  order of offsets exactly when no offset is inside one (`OrderedIffNoneInside`, with `FifthRunsBackwards`).

**Dynamic hash tables** (`SysVHash`, `GnuHash`, `GnuHashSizing`). The loader's lookup over the emitted words is
written as a reader, from the format's own arithmetic, and refines a linear scan of the symbol table: it ends, finds
what is there and nothing else (`LinkGnuHash` goes from the unsorted symbols to the windows and back). For the GNU
table a symbol at index 0 is never found, because 0 marks an empty bucket (`LookupMissesIndexZero`); so all defined
symbols are found exactly when some symbol is not hashed and takes that index (`AllFoundIff`).

**String and constant merging** (`MergePieces`, `MergeStrings`, `MergeConstants`, `MergeAlignments`). Split,
deduplicate, lay out, emit, redirect: what is read through a redirected reference is what the input section held. For
constants the table keeps an irredundant set of entries that serves everything added so far, also when an entry of
stronger alignment retires a weaker copy. This is proved for alignments that are powers of two, as ELF has them. With
others it can fail: adding entries with 4, 6 and 12 leaves the first unserved (`PromotionNeedsPowers`). Everything
stays served, whatever is added, when of any three alignments what the outer two have in common divides the middle one
(`RunServes`), and three entries show that nothing less will do (`ThreeServedIff`). Emission packs the kept entries,
so a redirected reference keeps its address modulo its own alignment exactly when the bytes dropped before the entry
it now points into are a multiple of it (`ResidueKept`, with `ResidueLost`, a section whose second entry loses its
residue).

**Garbage collection** (`Reachability`, `GarbageCollection`). Marking computes exactly the sections reached along
paths all of whose nodes pass the filter, whatever order entries and edges are taken in; stripping ignores exactly the
unmarked ones of the kinds that may be collected, and puts temporarily overwritten kinds back. For references out of
bitcode the lists the queue builds lead to what the references lead to exactly when all that an unlisted bitcode entry
refers to is reached along the lists anyway (`ListsSuffice`); a bitcode entry that neither native sections nor traced
bitcode refer to has no list, and what only it refers to is missed (`BitcodeEntryUntraced`).

**Exception frames** (`EhFrame`, `EhFrameSection`, `EhFrameHdr`). Reading fails exactly when the walk over the length
words comes to where no record can be (`FailsIff`), and accepts an end marker. It groups the live frame descriptions
under the CIE they name and fails exactly when some description names no earlier CIE (`CreateCieAndFdeFragments`). The
emitted section, given to the linker's own record reader, comes apart into exactly the CIEs that have descriptions,
each followed by those; every live description leads, in the output, to the image of the very CIE it led to in the
input (`LeadsToItsCie`), and a reference is redirected to the byte it found there. Layout and emission start from
different offsets when the fragment is padded: a CIE is then written over the place of its first description exactly
if there is padding, up to the size of both, so that a reader at the CIE steps into the middle of that description
(`PaddingMisleads`), and the CIE comes out whole exactly if its last bytes are that description's first
(`CieSurvivesIff`).

The header's table is sorted and has the first description of every function, whose address is decoded from the
output, and leads from the header to the description; an address is decoded right exactly when it fits what the reader
takes its field for (`FdePcReadsBack`). The table is sorted as unsigned words although its encoding announces signed
ones. For functions within 2 GiB of the header, beyond which the linker warns, a binary search over signed words gives
the right description for every address exactly when all functions are on one side of it (`SignedSearchIff`);
otherwise an address above all functions is sent to one below the header (`BothSidesMislead`). A reader of unsigned
words is right for all functions within 4 GiB above the header (`UnsignedSearch`).

**Version tables, `.dynstr`** (`VersionRecords`, `VersionNeeds`, `VersionDefs`, `DynStr`). Following the links in the
bytes of an emitted version table recovers the list it was made from, and every name reads back after later additions;
the 32-bit links lead on exactly when the distances fit them (`LinksLead`). Version numbers are 16-bit: they tell the
versions apart, and from the reserved ones, exactly up to 65534 named nodes, and up to 32766 where the top bit marks a
hidden symbol (`NumbersApartIff`).

**`INSERT`** (`InsertOrder`, `InsertBlocks`). Output sections moved by `INSERT` stand next to their anchor in the
order they were asked for, over any run of additions and applications in which no section is asked for twice and none
asked for is an anchor. Any other script keeps every section too (`RunKeepsSections`), but blocks can be broken up
(`ChainedAnchorsPart`), and it is stated exactly when. One insertion parts two neighbours it does not move exactly if
its goal, the section it is put next to, is the first of them for `AFTER` and the second for `BEFORE`
(`KeptBehindIff`). It leaves every section in one stretch with those put next to it exactly if its goal is the end of
its own anchor's block, it goes through no other block, and a section with others put next to it does not move away
from them (`BlocksKeptIff`); a call whose insertions meet this in turn leaves all blocks whole (`RunKeepsBlocks`).

`Words`, `Sums`, `Buffers`, `Sorting` and `Wrappers` hold what the others share: little-endian words, prefix sums,
output buffers, the stable sort, an option type, lists without repetition and lists with elements left out.

## Model

| member | source | states |
|---|---|---|
| RelaxEdits.ShiftSplit | lib/Fragment/RelaxPlan.cpp:75-84 | the sum of deleted bytes does not depend on the order the plan's map is walked in |
| RelaxEdits.ListedShift | lib/Fragment/RelaxPlan.cpp:52-84 | any listing of the active edits has the same sum as the map |
| RelaxEdits.SortedPrefixShift | lib/Fragment/RelaxPlan.cpp:86-92 | in a sorted listing the bytes deleted below an offset are those of a prefix |
| RelaxEdits.ChainIff | lib/Fragment/RelaxPlan.cpp:59-62 | a sorted listing of disjoint edits can be walked forward iff no deletion precedes another edit at its offset |
| RelaxEdits.TieFreeChain | lib/Fragment/RegionFragmentEx.cpp:139-150 | without ties between empty and deleting edits every sorted listing can be walked |
| RelaxEdits.TieBreaksWalk | lib/Fragment/RelaxPlan.cpp:59-62 | with such a tie some sorted order puts the deletion first, and the walk would step backwards |
| RelaxEdits.WalkableIffTieFree | lib/Fragment/RegionFragmentEx.cpp:139-150 | every order the sort may choose can be walked iff the plan is tie-free |
| RelaxPlan.LowerBound | lib/Fragment/RelaxPlan.cpp:86-88 | splits a sorted listing at an offset |
| RelaxPlan.PrefixSums | lib/Fragment/RelaxPlan.cpp:64-71 | the prefix sums are the bytes deleted before each edit, and the total is all of them |
| RelaxPlan.RelaxPlan.constructor | include/eld/Fragment/RelaxPlan.h:73-77 | an empty plan whose cache is not valid yet |
| RelaxPlan.RelaxPlan.AddEdit | lib/Fragment/RelaxPlan.cpp:13-32 | files the edit under its relocation, replacing one there, and keeps the total right |
| RelaxPlan.RelaxPlan.RemoveEdit | lib/Fragment/RelaxPlan.cpp:34-42 | removes the relocation's edit, if there is one, and keeps the total right |
| RelaxPlan.RelaxPlan.Clear | lib/Fragment/RelaxPlan.cpp:44-50 | leaves an empty plan with a valid cache |
| RelaxPlan.RelaxPlan.CollectActive | lib/Fragment/RelaxPlan.cpp:53-57 | lists every active edit once |
| RelaxPlan.RelaxPlan.RebuildDerived | lib/Fragment/RelaxPlan.cpp:52-73 | the cache holds the active edits by offset with the bytes deleted before each |
| RelaxPlan.RelaxPlan.ShiftAt | lib/Fragment/RelaxPlan.cpp:75-93 | with or without a valid cache, the plain sum of active deletions below the offset |
| RelaxPlan.MeetsWhen | lib/Fragment/RelaxPlan.cpp:99-106 | two ranges that are not empty overlap iff they share an offset, an empty one overlaps another iff it lies strictly inside it |
| RelaxPlan.AdditionSeparated | lib/Fragment/RelaxPlan.cpp:15-23 | one more edit leaves disjoint edits disjoint iff the scan finds no overlap with it |
| RelaxPlan.RelaxPlan.WouldOverlap | lib/Fragment/RelaxPlan.cpp:97-117 | without a valid cache the full scan's answer; with one, the two-neighbour test at the lower bound of the cached order, which is the full scan's answer when every empty edit sits at a one-byte deletion |
| RelaxPlan.NeighboursDecide | lib/Fragment/RelaxPlan.cpp:109-116 | for disjoint edits none of which masks another the two neighbours decide what the full scan decides, but for empty edits at the start |
| RelaxPlan.MaskMissesOverlap | lib/Fragment/RelaxPlan.cpp:109-116 | with an empty edit at the offset of a deletion of two bytes or more, some order the sort may leave misses that deletion's second byte |
| RelaxPlan.MissesNothingIff | lib/Fragment/RelaxPlan.cpp:97-117 | for disjoint edits the cached test misses no overlap, in any order the sort may leave, iff no empty edit is so placed |
| RelaxPlan.StrayEmptyTells | lib/Fragment/RelaxPlan.cpp:97-117 | an empty edit at no one-byte deletion gives the two paths different answers for some order and query |
| RelaxPlan.PathsAgreeIff | lib/Fragment/RelaxPlan.cpp:97-117 | for disjoint edits both paths answer every query alike, in any order the sort may leave, iff every empty edit sits at a one-byte deletion |
| RelaxPlan.RelaxPlan.FindAndUpdate | lib/Fragment/RelaxPlan.cpp:119-125 | an edit changed through find leaves the plan valid, with the cache dropped |
| RelaxPlan.RelaxPlan.EditsInOrder | lib/Fragment/RelaxPlan.cpp:127-131 | every active edit once, by offset |
| Compaction.MappedOffset | include/eld/Fragment/RegionFragmentEx.h:88-92 | an offset not inside a deletion is mapped to the number of offsets below it that survive |
| Compaction.MappedSize | lib/Fragment/RegionFragmentEx.cpp:31 | the size less all deletions is the number of surviving bytes |
| Compaction.SurvivorFound | lib/Fragment/RegionFragmentEx.cpp:139-151 | every surviving byte is found at its mapped offset |
| Compaction.EveryByteSurvived | lib/Fragment/RegionFragmentEx.cpp:139-151 | every byte of the compacted buffer is a survivor, at its mapped offset |
| Compaction.OffsetMapOrdered | lib/Fragment/RegionFragmentEx.cpp:108-116 | the map is monotone off the insides of deletions and injective on survivors |
| Compaction.InsideRunsBackwards | include/eld/Fragment/RegionFragmentEx.h:88-92 | every offset inside a deletion is mapped before the deletion's start |
| Compaction.OrderedIffNoneInside | include/eld/Fragment/RegionFragmentEx.h:88-92 | the map keeps the order of all offsets iff none is inside a deletion |
| Compaction.FifthRunsBackwards | include/eld/Fragment/RegionFragmentEx.h:88-92 | four bytes deleted at 4: offset 4 stays and offset 5 goes to 1 |
| Compaction.ShrunkVersusIdeal | lib/Fragment/RegionFragmentEx.cpp:122-131 | the running size is never below the size with all deletions taken off, and equal iff each is noticed |
| Compaction.SymbolSizeExact | lib/Fragment/RegionFragmentEx.cpp:118-131 | a symbol's committed size is its number of surviving bytes iff every deletion in it starts below the running size |
| Compaction.ShrinkMissesSecondCall | lib/Fragment/RegionFragmentEx.cpp:122-131 | two calls shortened in one 16-byte symbol: its size ends at 10, though 4 bytes survive |
| RegionFragmentEx.PatchedByte | lib/Fragment/RegionFragmentEx.cpp:94-104 | where no two rewrites meet, each byte is its rewrite's or the original, in any order of application |
| RegionFragmentEx.AllGapsSurvive | lib/Fragment/RegionFragmentEx.cpp:139-150 | the stretches the walk copies are exactly the surviving bytes |
| RegionFragmentEx.MoveDown | lib/Fragment/RegionFragmentEx.cpp:145-146 | one move of a stretch to lower addresses, over bytes already copied |
| RegionFragmentEx.Compact | lib/Fragment/RegionFragmentEx.cpp:139-150 | one forward walk puts the stretches between the edits end to end, in place |
| RegionFragmentEx.RegionFragmentEx.Size | lib/Fragment/RegionFragmentEx.cpp:31 | the pending size is the number of bytes that will survive |
| RegionFragmentEx.RegionFragmentEx.MapOffset | include/eld/Fragment/RegionFragmentEx.h:88-92 | the pending view of an offset |
| RegionFragmentEx.RegionFragmentEx.RecordDelete | lib/Fragment/RegionFragmentEx.cpp:56-60 | records a deletion |
| RegionFragmentEx.RegionFragmentEx.RecordRewrite | lib/Fragment/RegionFragmentEx.cpp:77-84 | records a rewrite that deletes nothing |
| RegionFragmentEx.RegionFragmentEx.AttachDecision | lib/Fragment/RegionFragmentEx.cpp:62-75 | completes a recorded edit and leaves its deletion as it is |
| RegionFragmentEx.RegionFragmentEx.DropEdit | lib/Fragment/RegionFragmentEx.cpp:86-88 | abandons the relocation's edit |
| RegionFragmentEx.RegionFragmentEx.PatchInstructions | lib/Fragment/RegionFragmentEx.cpp:94-104 | the buffer with all replacement instructions written, and each relocation's target data updated |
| RegionFragmentEx.RegionFragmentEx.MoveRelocations | lib/Fragment/RegionFragmentEx.cpp:108-116 | every relocation below the size moves down by the bytes deleted below it, and no other moves |
| RegionFragmentEx.RegionFragmentEx.ShrinkSymbol | lib/Fragment/RegionFragmentEx.cpp:121-131 | the running size after all edits |
| RegionFragmentEx.RegionFragmentEx.MoveSymbols | lib/Fragment/RegionFragmentEx.cpp:118-137 | every symbol up to the size moves; all but section symbols shrink |
| RegionFragmentEx.RegionFragmentEx.RetypeRelocations | lib/Fragment/RegionFragmentEx.cpp:153-160 | every edited relocation gets its new type and addend |
| RegionFragmentEx.RegionFragmentEx.CompactData | lib/Fragment/RegionFragmentEx.cpp:139-151 | the buffer holds exactly the surviving bytes, and the size is their number |
| RegionFragmentEx.RegionFragmentEx.CommitRelaxEdits | lib/Fragment/RegionFragmentEx.cpp:89-164 | the patched bytes that survive and no others; every reference moved; every relocation with an active edit has the new type, addend and target data the edit names and its own otherwise, one with an inactive edit keeps all; nothing pending |
| RegionFragmentEx.ViewKept | lib/Fragment/FragmentRef.cpp:211-215 | the pending view of every reference the commit moves is its committed offset; of one beyond the fragment iff nothing is deleted |
| RegionFragmentEx.ReferenceFollowsByte | lib/Fragment/RegionFragmentEx.cpp:106-116 | a reference to a surviving byte still reads that byte of the patched buffer |
| SysVHash.SysVHashFragment.Size | lib/Fragment/SysVHashFragment.cpp:35-40 | the bytes of the words emission writes |
| SysVHash.SysVHashFragment.Emit | lib/Fragment/SysVHashFragment.cpp:42-68 | from zeroed words, every bucket leads to the last symbol of its class and every chain entry to the one before |
| SysVHash.LastIsGreatest | lib/Fragment/SysVHashFragment.cpp:62-64 | what a bucket leads to is the greatest index of its class |
| SysVHash.WalkDescends | lib/Fragment/SysVHashFragment.cpp:53-66 | every chain strictly descends and ends |
| SysVHash.WalkVisitsClass | lib/Fragment/SysVHashFragment.cpp:53-66 | the walk from a bucket visits exactly the indices above 0 whose name hashes there |
| SysVHash.FindIsLast | lib/Fragment/SysVHashFragment.cpp:53-66 | following a chain finds the greatest index with the name |
| SysVHash.LookupRefinesScan | lib/Fragment/SysVHashFragment.cpp:42-68 | the loader's lookup is the linear scan: the last symbol above 0 of that name, or none |
| GnuHashSizing.NBucketsBounds | lib/Fragment/GNUHashFragment.cpp:37-51 | at least one bucket and no more than symbols, for any number of symbols |
| GnuHashSizing.NBucketsLoad | lib/Fragment/GNUHashFragment.cpp:37-52 | the number of buckets is 1 or one of the listed primes; up to 2^18 symbols there are at most 8 symbols for 3 buckets, and above 2^17 always 131071 buckets |
| GnuHashSizing.MaskWordsBounds | lib/Fragment/GNUHashFragment.cpp:53-70 | a power of two that gives each symbol at least 8 bits |
| GnuHashSizing.BitAndBelow | lib/Fragment/GNUHashFragment.cpp:118 | masking with the number of filter words less one stays below that number |
| GnuHashSizing.BitAndIsRemainder | lib/Fragment/GNUHashFragment.cpp:118 | masking with a power of two less one takes the remainder by that power |
| GnuHash.ShiftRightDivides | lib/Fragment/GNUHashFragment.cpp:120 | the shift divides by the power of two |
| GnuHash.MaskPosIsModulo | lib/Fragment/GNUHashFragment.cpp:115-121 | with the number of filter words the section is sized with, the masked word number is the hash's bits above the bit number modulo that number |
| GnuHash.EmitterSets | lib/Fragment/GNUHashFragment.cpp:115-121 | a symbol sets, in the word so picked, the bit of its hash and the bit of its hash divided by 2^shift2, each modulo the word's 32 or 64 bits, and no other |
| GnuHash.SelectPicks | lib/Fragment/GNUHashFragment.cpp:162-165 | the partition takes the shared and undefined symbols, or all others, in their order, each as often as it occurs |
| GnuHash.SelectSplits | lib/Fragment/GNUHashFragment.cpp:158-160 | partition loses and adds no symbol |
| GnuHash.SortInfos | lib/Fragment/GNUHashFragment.cpp:174-178 | sorting by bucket permutes the hashed symbols |
| GnuHash.GNUHashFragment.SortSymbols | lib/Fragment/GNUHashFragment.cpp:155-193 | undefined and shared symbols first in their order, then the hashed ones by bucket, each knowing its index |
| GnuHash.GNUHashFragment.AssignIndices | lib/Fragment/GNUHashFragment.cpp:180-192 | every hashed symbol's index is its position in the symbol table |
| GnuHash.GNUHashFragment.Size | lib/Fragment/GNUHashFragment.cpp:72-85 | header, filter, buckets and values, and the sizes they are emitted with |
| GnuHash.GNUHashFragment.WriteBloomFilter | lib/Fragment/GNUHashFragment.cpp:108-124 | a bit of a filter word is set iff some hashed symbol has its own bit or its shifted bit there |
| GnuHash.GNUHashFragment.WriteSymbol | lib/Fragment/GNUHashFragment.cpp:133-146 | one more symbol: its value, and, where a bucket starts, that bucket and the end of the chain before |
| GnuHash.GNUHashFragment.WriteChains | lib/Fragment/GNUHashFragment.cpp:133-149 | every bucket holds the index of its first symbol, and values are odd at the last symbol of each bucket but the last |
| GnuHash.GNUHashFragment.WriteHashTable | lib/Fragment/GNUHashFragment.cpp:126-150 | every bucket holds the first of its symbols' indices, or 0 |
| GnuHash.GNUHashFragment.Emit | lib/Fragment/GNUHashFragment.cpp:87-107 | header, filter and table for the sorted symbols |
| GnuHash.FilterAccepts | lib/Fragment/GNUHashFragment.cpp:108-124 | the loader's test, both bits of the hash in word (h / C) mod n, rejects no hashed symbol |
| GnuHash.ChainFindComplete | lib/Fragment/GNUHashFragment.cpp:136-149 | a bucket's chain is searched up to its end and no further |
| GnuHash.LookupSound | lib/Fragment/GNUHashFragment.cpp:99-150 | what the lookup finds has the name looked up |
| GnuHash.LookupComplete | lib/Fragment/GNUHashFragment.cpp:99-150 | a hashed name is found unless its symbol is at index 0 |
| GnuHash.LookupRefinesScan | lib/Fragment/GNUHashFragment.cpp:99-150 | with a symbol before the hashed ones, lookup finds a name iff a hashed symbol has it |
| GnuHash.LookupFindsDefined | lib/Fragment/GNUHashFragment.cpp:155-193 | after sorting and emitting, with a symbol that is not hashed in front, a name is found iff a defined symbol has it |
| GnuHash.LookupMissesIndexZero | lib/Fragment/GNUHashFragment.cpp:139-140 | a bucket whose first symbol has index 0 reads as empty |
| GnuHash.AllFoundIff | lib/Fragment/GNUHashFragment.cpp:139-193 | after sorting and emitting, all defined symbols are found iff some symbol is not hashed |
| GnuHash.LinkGnuHash | lib/Fragment/GNUHashFragment.cpp:85-198 | from the unsorted symbols to the emitted windows and back: with some symbol shared or undefined, a name is found iff some other symbol has it |
| MergePieces.TilesOrdered | lib/Fragment/MergeStringFragment.cpp:41-59 | pieces cut from a section follow each other |
| MergePieces.CoveredOnce | lib/Fragment/MergeStringFragment.cpp:71-76 | the piece around an offset is unique |
| MergePieces.Size | lib/Fragment/MergeStringFragment.cpp:64-69 | the bytes of the kept pieces |
| MergePieces.AssignOutputOffsets | lib/Fragment/MergeStringFragment.cpp:109-118 | kept pieces lie one behind the other from the fragment's offset |
| MergePieces.KeptFirst | lib/Fragment/MergeDataFragment.cpp:112-122 | the first kept piece is at the start |
| MergePieces.KeptLast | lib/Fragment/MergeDataFragment.cpp:70-86 | the last kept piece ends where the size says |
| MergePieces.KeptFollow | lib/Fragment/MergeDataFragment.cpp:112-122 | each kept piece is where the kept one before it ends |
| MergePieces.Emit | lib/Fragment/MergeDataFragment.cpp:70-86 | every kept piece is written where layout put it, and nothing outside the fragment |
| MergePieces.EmitAll | lib/Fragment/MergeStringFragment.cpp:78-93 | fragments in separate windows do not disturb each other |
| MergePieces.LayOutAll | lib/Fragment/MergeStringFragment.cpp:104-118 | layout of several fragments |
| MergePieces.LayOutAndEmit | lib/Fragment/MergeStringFragment.cpp:78-118 | after layout and emission every kept piece has its place behind its fragment's start, and the output holds it there |
| MergePieces.PaddingAligns | lib/Fragment/Fragment.cpp:100-112 | the padding in front of a fragment brings it to an address of its alignment |
| MergePieces.PaddingLeast | lib/Fragment/Fragment.cpp:100-112 | no smaller padding would do |
| MergePieces.PlaceInOrder | lib/Fragment/MergeDataFragment.cpp:112-122 | fragments placed one behind the other by their sizes, each at the first address of its alignment behind the one before; the size is where the last one ends |
| MergeStrings.MergeStringFragment.ReadStrings | lib/Fragment/MergeStringFragment.cpp:35-62 | splits the contents into strings that put together are the contents; fails iff they do not end in NUL |
| MergeStrings.MergeStringFragment.FindString | lib/Fragment/MergeStringFragment.cpp:71-76 | the binary search returns the string around the offset |
| MergeStrings.StringTable.GetMergedString | include/eld/Object/OutputSectionEntry.h:203-211 | the kept string of the same bytes, unless that is the string itself |
| MergeStrings.StringTable.AddString | include/eld/Object/OutputSectionEntry.h:213-216 | the first string of its bytes stays the kept one |
| MergeStrings.StringTable.MergeString | lib/Fragment/MergeStringFragment.cpp:21-33 | a string is excluded iff one of its bytes was there; every string is served by a kept one of its bytes |
| MergeStrings.StringTable.MergeStringsOf | lib/Object/ObjectBuilder.cpp:213-224 | the same for all strings of a section |
| MergeStrings.GetOutputOffset | lib/Fragment/FragmentRef.cpp:148-182 | from the returned offset up to the NUL the output holds what the input held |
| MergeStrings.MergeAll | lib/Object/ObjectLinker.cpp:845-858 | merges the fragments of an output section in order |
| MergeStrings.LinkStrings | lib/Object/ObjectLinker.cpp:838-894 | after merging, layout and emission every reference meets what GetOutputOffset asks for |
| Words.RemainderIsModulo | lib/Fragment/MergeDataFragment.cpp:128-135 | the remainder used for offsets and alignments is the source's |
| Words.FourBytes | lib/Readers/EhFrameSection.cpp:39-66 | four bytes as a word, the first being the least |
| Words.EightBytes | lib/Fragment/EhFrameHdrFragment.cpp:195-202 | eight bytes as two such words, the first being the lower |
| MergeConstants.GcdOfPowers | lib/Fragment/MergeDataFragment.cpp:128-135 | the common alignment of powers of two is the weaker one |
| MergeConstants.CompatibleThrough | lib/Fragment/MergeDataFragment.cpp:128-135 | compatibility passes through an entry that is not the weakest |
| MergeConstants.OfferedServes | include/eld/Object/OutputSectionEntry.h:232-253 | whichever compatible entry comes first, it is strong enough for an entry that is served |
| MergeConstants.Offered | include/eld/Object/OutputSectionEntry.h:232-242 | the first listed entry that is kept, compatible and not the one asked about, or none |
| MergeConstants.AdditionKeeps | lib/Fragment/MergeDataFragment.cpp:32-37 | an entry nothing is compatible with joins the kept ones |
| MergeConstants.PromotionKeeps | lib/Fragment/MergeDataFragment.cpp:32-37 | a stronger entry that retires a weaker copy serves all that copy served |
| MergeConstants.AddingKeeps | lib/Fragment/MergeDataFragment.cpp:21-38 | whichever of the three cases an added entry falls in, the kept entries serve everything added and none is redundant |
| MergeConstants.AddedWhen | lib/Fragment/MergeDataFragment.cpp:21-38 | an entry is merged away iff a kept one serves it; otherwise it is kept in place of the compatible kept ones of its bytes |
| MergeConstants.ThirdRetiresServer | lib/Fragment/MergeDataFragment.cpp:32-37 | with alignments 4, 6 and 12 the second entry replaces the first, the third the second, and the third does not serve the first |
| MergeConstants.PromotionNeedsPowers | lib/Fragment/MergeDataFragment.cpp:21-38 | three additions to an empty table after which the first entry is served by no kept one |
| MergeAlignments.CompatibleUp | lib/Fragment/MergeDataFragment.cpp:128-135 | compatibility passes up through an entry whose alignment is divided by what the other two have in common |
| MergeAlignments.AddingServes | lib/Fragment/MergeDataFragment.cpp:21-38 | for alignments of which any three are so, one addition leaves everything added served |
| MergeAlignments.RunServes | lib/Fragment/MergeDataFragment.cpp:21-38 | for such alignments everything is served after any additions in any order |
| MergeAlignments.ChainBridges | lib/Fragment/MergeDataFragment.cpp:128-135 | alignments that divide one another, as powers of two do, are such |
| MergeAlignments.ThreeServedIff | lib/Fragment/MergeDataFragment.cpp:21-38 | for any three growing alignments there are offsets at which the three entries all stay served iff what the outer two have in common divides the middle one |
| MergeConstants.ConstantTable.FindConstant | include/eld/Object/OutputSectionEntry.h:232-242 | the first kept compatible entry of the same bytes in the order they were added |
| MergeConstants.ConstantTable.GetMergedConstant | include/eld/Object/OutputSectionEntry.h:244-253 | that entry unless it is too weak; in a table that serves everything, an entry that can stand in, and for an added one iff it was excluded |
| MergeConstants.ConstantTable.KeepConstant | lib/Fragment/MergeDataFragment.cpp:32-37 | the entry is kept and listed, and the first compatible weaker copy is retired |
| MergeConstants.ConstantTable.DropConstant | lib/Fragment/MergeDataFragment.cpp:24-30 | the entry is excluded; the kept and listed ones do not change |
| MergeConstants.ConstantTable.GetOrAddMergedConstant | lib/Fragment/MergeDataFragment.cpp:21-38 | which entry is kept, excluded, listed and returned, for any alignments; with powers of two a table that serves everything without redundancy stays one |
| MergeConstants.ConstantTable.MergeConstantsOf | lib/Object/ObjectBuilder.cpp:226-240 | the same for all entries of a section |
| MergeConstants.MergeDataFragment.ReadConstants | lib/Fragment/MergeDataFragment.cpp:40-61 | splits the contents into entries; fails iff they are not a whole number of them |
| MergeConstants.MergeDataFragment.GetConstantAtOffset | lib/Fragment/MergeDataFragment.cpp:88-96 | the entry around the offset, or none past the end |
| MergeConstants.GetOutputOffset | lib/Fragment/FragmentRef.cpp:183-210 | the same byte of the entry that stands for the referenced one; once emitted, the output holds from there to the end of the entry what the input held |
| MergeConstants.MergeAll | lib/Object/ObjectLinker.cpp:896-919 | merges the fragments of an output section in order |
| MergeConstants.LinkConstants | lib/Object/ObjectLinker.cpp:896-919 | after merging, layout and emission every reference meets what GetOutputOffset asks for, and every kept entry lies behind an aligned start of its fragment |
| MergeConstants.ResidueKept | lib/Fragment/FragmentRef.cpp:198-209 | a redirected reference keeps its address modulo its own alignment iff the bytes dropped before the entry standing for it are a multiple of it |
| MergeConstants.EmittedAligned | lib/Fragment/MergeDataFragment.cpp:112-122 | when the alignment divides the entry size every kept entry of a laid-out fragment has an aligned address |
| MergeConstants.ResidueLost | lib/Fragment/MergeDataFragment.cpp:112-122 | a section of alignment 8 whose first 4-byte entry merges away: the reference to offset 4 goes to address 8 |
| Reachability.ClosedIsReached | lib/GarbageCollection/GarbageCollection.cpp:630-706 | a closed set of reached nodes is the set of nodes on paths from the starts |
| Reachability.SameReached | lib/GarbageCollection/GarbageCollection.cpp:630-706 | only edges out of reached nodes matter |
| GarbageCollection.Collector.FindReferenced | lib/GarbageCollection/GarbageCollection.cpp:630-706 | marks exactly what is reached through passing sections; live is the entries and all a marked section refers to |
| GarbageCollection.Collector.Mark | lib/GarbageCollection/GarbageCollection.cpp:643-704 | the worklist of one entry ends, with everything found from it marked |
| GarbageCollection.Collector.QueueUnmarked | lib/GarbageCollection/GarbageCollection.cpp:698-703 | queues and makes live exactly the targets not marked |
| GarbageCollection.Marked | lib/GarbageCollection/GarbageCollection.cpp:662-703 | one step keeps: marked is reached, its targets are marked or queued, queued is live |
| GarbageCollection.Collector.IgnoreUnmarked | lib/GarbageCollection/GarbageCollection.cpp:721-774 | ignores exactly the processable unmarked sections and saves the kinds to be restored |
| GarbageCollection.KeepSymbols | lib/GarbageCollection/GarbageCollection.cpp:776-807 | a symbol is kept iff a present section refers to it and is allocated or live, or the symbol is local |
| GarbageCollection.Restore | lib/GarbageCollection/GarbageCollection.cpp:809-810 | the saved kinds are back |
| GarbageCollection.Collector.StripSections | lib/GarbageCollection/GarbageCollection.cpp:708-811 | with only common sections to collect all others keep their kinds; symbols go by what was unmarked |
| GarbageCollection.MayProcessWhen | lib/GarbageCollection/GarbageCollection.cpp:56-108 | an excluded section is never collected; a target's choice decides; otherwise the six kinds are, and string sections if allocated |
| GarbageCollection.PassesWhen | lib/GarbageCollection/GarbageCollection.cpp:650-659 | marking goes through bitcode, ignored entries and what may be collected |
| GarbageCollection.ScannedIff | lib/GarbageCollection/GarbageCollection.cpp:715-727 | stripping looks at the sections of object files that are not the linker's own, other than the one of common symbols, without bitcode |
| GarbageCollection.Collector.Run | lib/GarbageCollection/GarbageCollection.cpp:210-247 | in terms of kinds and flags: which unreached sections become ignored, and that every other section keeps its kind; nothing a marked section refers to is ignored; a symbol stays ignored iff no section left over keeps it |
| GarbageCollection.SectionReachedListMap.FindReachedBitcode | lib/GarbageCollection/GarbageCollection.cpp:146-198 | the queue ends; exactly the bitcode reached from it has a list, holding its references |
| GarbageCollection.SectionReachedListMap.TraceOne | lib/GarbageCollection/GarbageCollection.cpp:152-196 | one section's list, and its bitcode targets without one queued |
| GarbageCollection.ListsSuffice | lib/GarbageCollection/GarbageCollection.cpp:146-198 | marking along the lists reaches exactly what the references lead to iff all that an unlisted bitcode entry refers to is reached along the lists anyway |
| GarbageCollection.ListedIffEntriesListed | lib/GarbageCollection/GarbageCollection.cpp:146-198 | all bitcode that marking should reach has a list iff every bitcode entry has |
| GarbageCollection.BitcodeEntryUntraced | lib/GarbageCollection/GarbageCollection.cpp:463-472 | a bitcode entry without a list: what it refers to is not reached |
| EhFrame.RecordSize | lib/Readers/EhFrameSection.cpp:39-66 | a record read lies within the data |
| EhFrame.RecordLengths | lib/Readers/EhFrameSection.cpp:39-100 | every record is as long as its length word says; the last one ends the data or is empty, and no other is |
| EhFrame.EndMarkerReads | lib/Readers/EhFrameSection.cpp:95-97 | behind whole records an empty one is read and ends the section, whatever follows |
| EhFrame.FailsIff | lib/Readers/EhFrameSection.cpp:39-66 | reading fails iff stepping over the length words comes to one to three bytes, to the length 0xFFFFFFFF, or to a length beyond the data |
| EhFrame.Split | lib/Readers/EhFrameSection.cpp:68-101 | the record walk: all records up to the end, or to an empty one, or failure |
| EhFrame.RecordsAppend | lib/Readers/EhFrameSection.cpp:85-99 | two stretches of records read one behind the other |
| EhFrame.RecordsFollow | lib/Readers/EhFrameSection.cpp:85-99 | the records of a section lie one behind the other |
| EhFrame.SetGroupOffset | lib/Fragment/EhFrameFragment.cpp:53-62 | the CIE and behind it its descriptions; a CIE without any stays unassigned |
| EhFrame.EmitRecord | lib/Fragment/EhFrameFragment.cpp:64-72 | the record with its length word rewritten |
| EhFrame.EmitFde | lib/Fragment/EhFrameFragment.cpp:31-38 | the description at its output offset |
| EhFrame.EmitNext | lib/Fragment/EhFrameFragment.cpp:73-79 | with the distance back to the CIE |
| EhFrame.EmitGroup | lib/Fragment/EhFrameFragment.cpp:64-81 | writes the CIE and its descriptions, each leading back to where the CIE was written, and nothing outside |
| EhFrame.EhFrameFragment.SectionWritten | lib/Fragment/EhFrameFragment.cpp:111-124 | without padding the records written are the whole section's bytes |
| EhFrame.EhFrameFragment.Size | lib/Fragment/EhFrameFragment.cpp:89-96 | the bytes emission fills |
| EhFrame.EhFrameFragment.SetOffset | lib/Fragment/EhFrameFragment.cpp:98-109 | every CIE with descriptions behind those before it, from the unpadded offset |
| EhFrame.EhFrameFragment.Emit | lib/Fragment/EhFrameFragment.cpp:111-124 | every CIE behind the padding, as much of it as its first description does not overwrite; every description whole where it was laid out, leading back to where its CIE was written; nothing outside; without padding the section's bytes at its offset, filling its size |
| EhFrame.EmittedSectionReads | lib/Fragment/EhFrameFragment.cpp:98-124 | the reader finds exactly the CIEs that have descriptions, each followed by those, and the end |
| EhFrame.FdeInSection | lib/Fragment/EhFrameFragment.cpp:64-81 | each description leads back to its CIE's start, and behind its two first words is the input |
| EhFrame.CieInSection | lib/Fragment/EhFrameFragment.cpp:64-72 | each CIE stands at its start, the input's bytes behind its length word, and still reads as a CIE |
| EhFrame.FindPiece | lib/Fragment/FragmentRef.cpp:136-140 | the piece around the offset, or the end |
| EhFrame.GetOutputOffset | lib/Fragment/FragmentRef.cpp:130-147 | a reference moves with its piece; nowhere without an output offset; with the last piece past the end |
| EhFrame.PieceUnique | lib/Fragment/FragmentRef.cpp:136-140 | one piece only is around an offset |
| EhFrame.ReferenceKept | lib/Fragment/FragmentRef.cpp:130-147 | wherever GetOutputOffset sends a reference behind a description's first two words, the emitted output holds the input's byte, padded or not |
| EhFrame.CieReferenceKept | lib/Fragment/FragmentRef.cpp:130-147 | the same for a reference into a CIE, behind its length word, without padding |
| EhFrame.NowhereIffNotLaidOut | lib/Fragment/FragmentRef.cpp:145-146 | a reference goes nowhere iff its piece was not laid out |
| EhFrame.LeadsBehindPadding | lib/Fragment/EhFrameFragment.cpp:73-79 | padded or not, an emitted description leads back, in 32 bits, to where its CIE was written |
| EhFrame.PaddingMisleads | lib/Fragment/EhFrameFragment.cpp:98-124 | a CIE is written over the place of its first description iff there is padding, but less than both their sizes; if its length word is left, a reader that starts at the CIE steps as many bytes into the description as there is padding |
| EhFrame.CieSurvivesIff | lib/Fragment/EhFrameFragment.cpp:98-124 | with padding up to the CIE's and the first description's size a CIE comes out whole iff its last bytes are that description's first |
| EhFrameSection.AddPieces | lib/Readers/EhFrameSection.cpp:90 | one new piece for every record, in order, without an output offset |
| EhFrameSection.PiecesOfRecords | lib/Readers/EhFrameSection.cpp:85-99 | the pieces lie one behind the other inside the section, at different offsets, and only the last may be an end marker |
| EhFrameSection.ReadPiece | lib/Readers/EhFrameSection.cpp:121-149 | one piece more: a CIE opens a group, a live description joins the group of the CIE it names, a dead one joins none; fails iff a description names no CIE read so far |
| EhFrameSection.CreateCieAndFdeFragments | lib/Readers/EhFrameSection.cpp:113-152 | one group for every CIE before the end marker, in order, with exactly the live descriptions that name it, in order; fails iff some description, live or not, names no earlier CIE |
| EhFrameSection.CiesPicked | lib/Readers/EhFrameSection.cpp:121-127 | the CIEs are the records with 0 behind their length, in order, each once |
| EhFrameSection.FdesPicked | lib/Readers/EhFrameSection.cpp:129-149 | what is put under a CIE are the live records whose second word leads back to it, in order, each once |
| EhFrameSection.GroupedValid | lib/Readers/EhFrameSection.cpp:113-152 | no piece is in two groups or twice in one, so the groups can be laid out and emitted |
| EhFrameSection.ReadFrames | lib/Readers/EhFrameSection.cpp:68-152 | from the section's bytes to a fragment; none iff its records do not fill it or some description names no earlier CIE |
| EhFrameSection.KeptIffLive | lib/Readers/EhFrameSection.cpp:139-149 | a description is in some group iff it is live |
| EhFrameSection.LeadsToItsCie | lib/Fragment/EhFrameFragment.cpp:64-81 | in the unpadded output every live description leads to the image of the very CIE it named in the input, and keeps its bytes, as that CIE does |
| EhFrameHdr.AddressFields | lib/Fragment/EhFrameHdrFragment.cpp:183-208 | for each of the encodings, the number read from the field's bytes |
| EhFrameHdr.AddressPlaces | lib/Fragment/EhFrameHdrFragment.cpp:212-227 | absolute, or relative to the field's own address, in 64 bits |
| EhFrameHdr.FdePcReadsBack | lib/Fragment/EhFrameHdrFragment.cpp:183-227 | a function's address is read back from its field iff the number the field should hold fits what the reader takes it for |
| EhFrameHdr.Unique | lib/Fragment/EhFrameHdrFragment.cpp:173-178 | drops neighbours of equal address, in one pass |
| EhFrameHdr.UniqueOfSorted | lib/Fragment/EhFrameHdrFragment.cpp:173-178 | what is left of a sorted list strictly increases |
| EhFrameHdr.SortedUniqueIsTable | lib/Fragment/EhFrameHdrFragment.cpp:165-178 | every address once, with the first description that has it |
| EhFrameHdr.GetFdeData | lib/Fragment/EhFrameHdrFragment.cpp:137-181 | the table for the descriptions found in the output, no longer than their number |
| EhFrameHdr.TableOfSites | lib/Fragment/EhFrameHdrFragment.cpp:137-181 | every entry says how far a function is whose address is in some description's field, and leads from the header to where that description lies in memory; every description's function has an entry |
| EhFrameHdr.Search | lib/Fragment/EhFrameHdrFragment.cpp:103-109 | an unwinder's binary search on the words as it reads them, signed as the encoding announces or unsigned, whatever their order |
| EhFrameHdr.OrderFinds | lib/Fragment/EhFrameHdrFragment.cpp:165-181 | a reader that sees the functions' distances in order gets for every address the first description of the last function at or below it, and none iff all are above |
| EhFrameHdr.SignedSearchIff | lib/Fragment/EhFrameHdrFragment.cpp:97-135 | for functions within 2 GiB of the header, a reader of signed words gets the right description for every address iff all functions are on one side of the header |
| EhFrameHdr.BothSidesMislead | lib/Fragment/EhFrameHdrFragment.cpp:103-109 | with functions on both sides an address above all of them is answered wrongly |
| EhFrameHdr.UnsignedSearch | lib/Fragment/EhFrameHdrFragment.cpp:165-181 | a reader of unsigned words gets the right description for every address if all functions are within 4 GiB above the header |
| EhFrameHdr.FindFde | lib/Fragment/EhFrameHdrFragment.cpp:97-135 | the signed search; right for every address unless functions are on both sides of the header or more than 2 GiB from it; right means led from the header to the description |
| EhFrameHdr.SortedForSigned | lib/Fragment/EhFrameHdrFragment.cpp:103-109 | for signed words the table is sorted iff all functions are on one side of the header |
| EhFrameHdr.SidesMisordered | lib/Fragment/EhFrameHdrFragment.cpp:103-109 | a function below the header comes behind one above it |
| EhFrameHdr.EhFrameHdrFragment.Emit | lib/Fragment/EhFrameHdrFragment.cpp:97-135 | encodings, pointer, count and the table of the descriptions in the output, within the size |
| EhFrameHdr.EncodingsRead | lib/Fragment/EhFrameHdrFragment.cpp:102-112 | the first four bytes: version 1, the pointer relative to its place and signed, the count unsigned, the table relative to the header and signed, or none of the two |
| EhFrameHdr.HdrReadsBack | lib/Fragment/EhFrameHdrFragment.cpp:97-133 | the bytes of the emitted header are the version and the encodings, the pointer, the count and every entry |
| EhFrameHdr.UnwinderFinds | lib/Fragment/EhFrameHdrFragment.cpp:97-135 | an unwinder that takes the emitted bytes as they announce themselves is led to the first description of the last function at or below the address |
| InsertOrder.TakenOut | lib/Object/SectionMap.cpp:587-588 | taking out a section that is no anchor |
| InsertOrder.PutAfter | lib/Object/SectionMap.cpp:589-598 | putting a section behind those already put after its anchor |
| InsertOrder.PutBefore | lib/Object/SectionMap.cpp:589-598 | putting a section before its anchor, behind those put there earlier |
| InsertOrder.MovedArranged | lib/Object/SectionMap.cpp:568-600 | one move: the section leaves its place, joins the anchor's block, and all else keeps its order |
| InsertOrder.SectionMap.MoveOutputSection | lib/Object/SectionMap.cpp:568-600 | moves a section next to an anchor iff both exist |
| InsertOrder.NextConsistent | lib/Core/LinkerScript.cpp:300-318 | one applied insertion keeps the arrangement, and neither adds nor loses a section |
| InsertOrder.AfterBase | lib/Core/LinkerScript.cpp:300-320 | after a call the base has lost exactly the applied sections |
| InsertOrder.AfterBlocks | lib/Core/LinkerScript.cpp:300-320 | after a call the anchor's block has gained the applied sections, in order, behind earlier ones |
| InsertOrder.AppliedPicked | lib/Core/LinkerScript.cpp:300-318 | what is carried out are the insertions at the anchor whose section exists, if the anchor does, in the order they were asked for |
| InsertOrder.KeptPicked | lib/Core/LinkerScript.cpp:300-320 | all other insertions stay pending, in order |
| InsertOrder.LeftPicked | lib/Core/LinkerScript.cpp:300-320 | in any script, an insertion stays pending, in order, iff it is for another anchor, its section does not exist, or what it would go next to does not |
| InsertOrder.RunKeepsSections | lib/Core/LinkerScript.cpp:288-322 | whatever is asked for, a call neither adds, loses nor doubles a section |
| InsertOrder.RunArranged | lib/Core/LinkerScript.cpp:288-322 | carrying insertions out one by one gives the arrangement in blocks, and leaves those whose section or anchor is missing |
| InsertOrder.ChainedAnchorsPart | lib/Core/LinkerScript.cpp:294-317 | a script in which an inserted section is an anchor, and a later insertion parts it from the section inserted after it |
| InsertBlocks.InfixErased | lib/Object/SectionMap.cpp:587-588 | taking a section out leaves the rest of any stretch a stretch |
| InsertBlocks.InfixInserted | lib/Object/SectionMap.cpp:589-598 | a stretch stays one iff the section is not put between two of its members |
| InsertBlocks.HeadStays | lib/Object/SectionMap.cpp:568-600 | a section with a neighbour in a stretch keeps it iff the move changes nothing |
| InsertBlocks.KeptBehindIff | lib/Core/LinkerScript.cpp:294-317 | in any script, an insertion leaves two neighbours it does not move together iff its goal is not the first of them for AFTER, or the second for BEFORE |
| InsertBlocks.OwnBlockKept | lib/Core/LinkerScript.cpp:294-317 | the anchor's block grows in one stretch iff the goal is the anchor for BEFORE, and the last section put after it for AFTER |
| InsertBlocks.OtherBlockKept | lib/Core/LinkerScript.cpp:294-317 | any other section's block stays in one stretch iff the insertion does not go through it |
| InsertBlocks.BlocksKeptIff | lib/Core/LinkerScript.cpp:294-317 | in any script, one insertion leaves every section in one stretch with those put next to it iff the goal is the end of the anchor's block, no other block is gone through, and a section with others put next to it does not leave them |
| InsertBlocks.RunKeepsBlocks | lib/Core/LinkerScript.cpp:288-322 | a call each of whose insertions meets that condition in its turn leaves all blocks whole |
| InsertOrder.LinkerScript.AddPendingOutputSectionInsertion | lib/Core/LinkerScript.cpp:280-286 | any insertion becomes the last pending one; a script stays orderly unless the section was asked for before or is an anchor, or the anchor was asked for |
| InsertOrder.LinkerScript.AppendOutputSection | lib/Object/SectionMap.cpp:181-183 | a new section comes last and keeps the arrangement |
| InsertOrder.LinkerScript.ApplyPendingForAnchor | lib/Core/LinkerScript.cpp:288-322 | from any state, the pending insertions at the anchor are carried out in order where they can be, the rest stays pending, in order; true iff any was; an orderly script stays arranged in blocks |
| InsertOrder.LinkerScript.ApplyOne | lib/Core/LinkerScript.cpp:301-318 | one insertion is carried out iff its section and what it goes next to exist, and the tail follows |
| DynStr.StaysStored | lib/Fragment/DynStrFragment.cpp:15-23 | what is stored stays stored as the table grows |
| DynStr.ReadsBack | lib/Fragment/DynStrFragment.cpp:15-23 | a name reads back exactly iff it has no NUL inside |
| DynStr.DynStrFragment.constructor | lib/Fragment/DynStrFragment.cpp:12-13 | offset 0 is the empty name |
| DynStr.DynStrFragment.AddString | lib/Fragment/DynStrFragment.cpp:15-23 | each name once; offsets handed out before stay |
| DynStr.DynStrFragment.GetStringOffset | lib/Fragment/DynStrFragment.cpp:25-31 | the offset of a name that was added |
| VersionRecords.FollowReads | lib/Fragment/GNUVerNeedFragment.cpp:80-105 | following links that lead from each item to the next reads exactly the items |
| VersionRecords.NameFound | include/eld/Fragment/GNUVerNeedFragment.h:53-62 | in a string table below 4 GiB a 32-bit offset recorded for a name is where it is stored |
| VersionNeeds.Size | lib/Fragment/GNUVerNeedFragment.cpp:60-67 | the bytes of the two parts of the table |
| VersionNeeds.EmitAuxs | lib/Fragment/GNUVerNeedFragment.cpp:93-101 | the bytes of one library's versions linked on, the last link taken back |
| VersionNeeds.NeedReadBack | lib/Fragment/GNUVerNeedFragment.cpp:85-91 | the fields of a library's record read back from its bytes |
| VersionNeeds.AuxReadBack | lib/Fragment/GNUVerNeedFragment.cpp:94-98 | the fields of a version's record read back from its bytes |
| VersionNeeds.Emit | lib/Fragment/GNUVerNeedFragment.cpp:80-105 | the bytes of the table of a list, filling the section |
| VersionNeeds.AuxsReadBack | lib/Fragment/GNUVerNeedFragment.cpp:93-101 | following the version links recovers the versions |
| VersionNeeds.LinksLead | lib/Fragment/GNUVerNeedFragment.cpp:89-90 | the stored distances lead to the versions iff they fit 32 bits |
| VersionNeeds.NeedsReadBack | lib/Fragment/GNUVerNeedFragment.cpp:80-105 | a reader that takes only records of version 1 and versions without flags recovers the list by following the links |
| VersionNeeds.NeedsStayNamed | lib/Fragment/GNUVerNeedFragment.cpp:37-46 | every name still reads back after later additions to the string table |
| VersionNeeds.UsedPicked | lib/Fragment/GNUVerNeedFragment.cpp:37-39 | the uses listed are those with a number other than 0, in order, each as often as it occurs |
| VersionNeeds.NeededPicked | lib/Fragment/GNUVerNeedFragment.cpp:54-55 | the libraries listed are those with such a use, in order |
| VersionNeeds.ComputeVersionNeeds | lib/Fragment/GNUVerNeedFragment.cpp:28-58 | exactly the libraries with a version in use, in order, with their names and versions |
| VersionNeeds.EmitVersionNeeds | lib/Fragment/GNUVerNeedFragment.cpp:28-105 | from libraries to the section's bytes and back to the list, if the distances fit; no section iff no version is needed |
| VersionDefs.Size | lib/Fragment/GNUVerDefFragment.cpp:79-85 | the bytes of the two parts of the table |
| VersionDefs.EmitAuxs | lib/Fragment/GNUVerDefFragment.cpp:117-127 | the bytes of a version's own name, then its dependencies |
| VersionDefs.Emit | lib/Fragment/GNUVerDefFragment.cpp:96-130 | the bytes of the table of a list, filling the section |
| VersionDefs.DefReadBack | lib/Fragment/GNUVerDefFragment.cpp:106-115 | the fields of a version's record read back from its bytes |
| VersionDefs.NamesReadBack | lib/Fragment/GNUVerDefFragment.cpp:117-127 | following the name links recovers the names |
| VersionDefs.LinksLead | lib/Fragment/GNUVerDefFragment.cpp:110-111 | the stored distances lead to the names iff they fit 32 bits |
| VersionDefs.DefsReadBack | lib/Fragment/GNUVerDefFragment.cpp:96-130 | a reader that takes only records of version 1, with the base flag exactly on number 1 and no other flag, recovers the list by following the links |
| VersionDefs.DefsStayNamed | lib/Fragment/GNUVerDefFragment.cpp:50-73 | every name still reads back after later additions to the string table |
| VersionDefs.NamedPicked | lib/Fragment/GNUVerDefFragment.cpp:58-61 | the nodes listed are those with a name, in order, each as often as it occurs |
| VersionDefs.ComputeVersionDefs | lib/Fragment/GNUVerDefFragment.cpp:32-77 | the base version is 1, named nodes count on from 2 in 16 bits, anonymous ones are skipped |
| VersionDefs.NumbersApartIff | lib/Fragment/GNUVerDefFragment.cpp:57-74 | the 16-bit numbers are distinct and not reserved iff there are at most 65534 named nodes, and without their top bit iff at most 32766 |
| VersionDefs.EmitVersionDefs | lib/Fragment/GNUVerDefFragment.cpp:32-130 | from version script to the section's bytes and back to the list, if the distances fit |

## Left out

- RelaxPlan.RelaxPlan.ShiftAt: sums are unbounded; the 32-bit sums of the source wrap only when more than 4 GiB are deleted.
- RelaxPlan.RelaxPlan.FindAndUpdate: the pointer find returns is modelled as one update before the next call; a caller that keeps it across a rebuild and then writes through it is not covered.
- RegionFragmentEx.RegionFragmentEx.CommitRelaxEdits: asks that deletions are disjoint, in bounds and tie-free, as the debug assertion in addEdit and the walk's subtraction demand; the fragment is below 4 GiB, and a relocation's type, addend and target data are one record.
- RegionFragmentEx.RegionFragmentEx.Size: the size is unbounded below, where the source's would wrap for a plan that deletes more than there is.
- GnuHash.GNUHashFragment.WriteBloomFilter: a filter word is a set of bits; the table's parts are arrays of words, not bytes, as the typed pointers of the source see them.
- GnuHash.LookupRefinesScan: hash functions are arbitrary functions to 32-bit words, and the names compared are those without version.
- MergeStrings.GetOutputOffset: one output section, without the global merging of strings that are not allocated; past the section's end it returns the output section's size.
- MergeConstants.ConstantTable.GetOrAddMergedConstant: that the table stays irredundant and answers every query with an entry that serves is promised for alignments that are powers of two, as ELF has them; for others `MergeAlignments` says when everything added stays served, not that the first compatible entry is one that serves.
- MergePieces.AssignOutputOffsets: offsets are unbounded; the source's are 32-bit.
- GarbageCollection.Collector.Run: the map of references and the entries are inputs; how relocations and linker-script symbols make them is not part of this model. A section is listed in one file only.
- GarbageCollection.SectionReachedListMap.FindReachedBitcode: which section a bitcode reference leads to is an input; the lists of reached symbols it builds on the way are not modelled.
- EhFrame.EhFrameFragment.Emit: asks that every record has at least 8 bytes, the two words it rewrites.
- EhFrame.ReferenceKept: in the emitted section only.
- EhFrameSection.ReadFrames: which descriptions are live is an input; the relocations that say so are not part of this model. The map of CIEs by contents is looked up but never filled in the source, so no CIE is shared, and it is not modelled.
- EhFrameHdr.GetFdeData: how a CIE says its addresses are encoded is an input; reading it from the augmentation string is not part of this model. An encoding the source does not read gives address 0 here too, without the diagnostic.
- EhFrameHdr.EhFrameHdrFragment.Emit: the diagnostic for an address more than 2 GiB away.
- InsertOrder.LinkerScript.ApplyPendingForAnchor: section names are unique; new sections come at the end (placing an orphan section inside a block can split it).
- VersionNeeds.Emit: little-endian targets only, as in the source; a table whose link distances do not fit 32 bits is emitted but not read back.
- VersionNeeds.EmitVersionNeeds: asks for no emission of an empty table, which in the source would write in front of it.
- Tracing, verbose messages, map files, timers and threads; branch islands, target backends, symbol resolution; build-ID, GOT, PLT and timing fragments, which only copy.
