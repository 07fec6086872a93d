# A verified model of the LZSS compressor

This project models the `lzss` package, an LZSS codec with bit-packed back-references and a
static dictionary, and the suffix-array index below it, and proves what the package is for:
whatever is compressed can be had back, after every run of the incremental compressor; the
index finds what an exhaustive search would find; and the in-place suffix sorting that builds
the index is correct.

The model keeps the form of the program. The suffix sorting works in place on windows of
arrays; the compressor, its bit writer and its memo of references are objects whose methods
update fields; loops stay loops. Each method is proved against a specification, and the
theorems are about the specifications.

## What is proved

- **Suffix sorting.** `Sais.Sort` leaves the suffix array of its text in `sa`: every position
  once, by strictly increasing suffix, on every text of fewer than 2^31 symbols over every
  alphabet, with the recursion working inside the array of the level above and every value
  written fitting into 32 bits. On the way: induced sorting never runs out of a
  bucket and never writes where it has already read (`ScanL`, `ScanS`); the short codes of
  LMS-substrings decide their equality (`Fingerprints`); naming and sorting the reduced text
  sorts the LMS suffixes (`Naming`, `Notes`); spreading them out overwrites nothing that is
  still needed (`Expansion`); cached symbol counts are right whenever they are used, although
  deeper levels may reuse their memory (`Frequencies`, `Sais`).
- **Lookup.** `Lookup.LookupLongest` finds the longest match in a window of positions, and
  none exactly when there is none.
- **References.** The reference chosen at a position saves the most among all references that
  exist, and the memo of three never changes the choice (`BackRefs`).
- **Compression.** The emitted phrases stand for the data, and decoding them gives the data
  (`Greedy`, `Phrases`). Which phrases are emitted is settled in terms of the references that
  exist: a reference comes out exactly when one saves something and waiting a byte or two for
  another does not pay, and it is one that saves the most (`Choices`).
- **Format.** The fields of every phrase are given in numbers, and the bit streams that parse
  are exactly those that phrases print to, up to fewer than eight bits (`Phrases.ParseExact`).
- **Reach.** Dynamic references have 21 address bits, while data and dictionary may have 2^22
  bytes each. All data of length `n >= 1`, with all dictionaries that have length `m` as the
  caller passes them, are recovered if and only if `m + n <= 2^21 - 1`
  (`CallerReach.CallerReachExact`). With `m` the length of the dictionary after the reserved
  bytes have been appended where needed, it is `m + n <= 2^21 + 1` (`Reach.ReachExact`).
- **Runs.** Every run of Write, Revert, ConsiderBypassing and Reset in which no Write exceeds
  the input size can be carried through, and decompressing the output gives the input, within
  reach or in bypass mode (`Machine.RunDecompresses`). A Write followed by a Revert cannot be told from nothing by any
  run that calls Write or Reset before it calls Revert again, although the padding of the last
  byte may differ until then (`Machine.UndoneForGood`). In every mode it gives back the input,
  and in bypass mode what a new compressor given that input would hold (`Machine.BypassRevert`).
- **A failed Write.** It leaves bits in the bit writer that Reset does not remove. If the last
  byte had no padding before the failed Write, every Write after a Reset does what a new
  compressor would do; if it had, none does: the output differs for all data
  (`Recovery.ResetRecovers`). Such an output is rejected if one of the bits is set, and
  otherwise decompresses to the data only if their first byte other than 0 is 0xFF shifted
  by the number of bits (`Recovery.OnlyByChance`), which does happen (`Recovery.LuckyExample`).
- **Sizes.** With `n` bytes written, `r` of them reserved, the output has at most
  `3 + n + ceil(29 r / 8)` bytes; the announced size is the size of the output; an accepted
  stream grows at most by the factor 1024/15.
- **Listing.** `CompressedStreamInfo` tiles both streams without gaps, and the decompressor
  accepts a stream if and only if it has a listing in which every reference either starts in
  the output or is a dynamic one that stays inside the dictionary; then the contents of the
  listing are the output (`StreamInfo.InfoAgrees`).

## Files

| file | content |
|---|---|
| `Suffixes.dfy`, `LmsTypes.dfy` | order of suffixes; S- and L-types, LMS positions, the orders that induced sorting sorts by |
| `Buckets.dfy`, `ScanL.dfy`, `ScanS.dfy` | bucket boundaries; the two scans on an abstract array |
| `Slices.dfy`, `Frequencies.dfy`, `Seeds.dfy`, `Cells.dfy`, `Induce.dfy` | windows of arrays; symbol counts; placing LMS positions; signs of cells; the four scans in place |
| `Naming.dfy`, `Fingerprints.dfy`, `Notes.dfy`, `Expansion.dfy`, `Reduce.dfy`, `Sais.dfy` | the reduction to a shorter text, its passes in place, the recursion |
| `Lookup.dfy` | the index |
| `Bits.dfy`, `Phrases.dfy` | bit streams; phrases, their encoding and their meaning |
| `BackRefs.dfy`, `Greedy.dfy`, `Choices.dfy`, `Sizes.dfy` | finding references; the compression loop; what it picks; a bound on its output |
| `Reach.dfy`, `CallerReach.dfy` | how far references reach |
| `Decompressor.dfy`, `StreamInfo.dfy` | the decompressor; the listing of a stream |
| `Sessions.dfy`, `Machine.dfy`, `Recovery.dfy`, `Compressors.dfy` | what has been written and must be shown; the compressor as a state machine; what a failed Write leaves behind; the compressor object |
| `Examples.dfy` | outputs of small inputs, byte for byte |
| `Options.dfy` | a value or none |

Conventions: a text is a sequence of integers below `textMax`, so that one proof serves both
`sais_8_32` and `sais_32`; the flag `packed` selects the byte version, which records short
LMS-substrings as packed codes. In the ghost array `A` of a scan, -1 marks an empty index and
`at` is its inverse. A `Slice` is a window of an array of 32-bit cells; methods that write take
the set `keep` of windows that must not change. Positions in `rk` rank the LMS positions: all 0 when their
substrings are to be sorted, their order as suffixes when the suffixes are. Errors are `None`,
a null object or a false flag.

## Model

| member | source | states |
|---|---|---|
| `Suffixes.SuffixArrayUnique` | lzss/internal/suffixarray/sais.go:128-142 | a text has only one suffix array, so `IsSuffixArray` determines the result of the sorting |
| `LmsTypes.TypeStep` | lzss/internal/suffixarray/sais.go:300-331 | the backward scan's `c1` and `isTypeS` decide which positions are of type S and which start an LMS-substring |
| `LmsTypes.LLessSound` | lzss/internal/suffixarray/sais.go:795-854 | with sound ranks, the order that the left-to-right scan sorts by implies the order of suffixes |
| `LmsTypes.LLessComplete` | lzss/internal/suffixarray/sais.go:795-854 | with complete ranks, every smaller suffix is smaller in that order |
| `LmsTypes.SLessSound` | lzss/internal/suffixarray/sais.go:856-899 | the same for the order of the right-to-left scan |
| `LmsTypes.SLessComplete` | lzss/internal/suffixarray/sais.go:856-899 | the same for the order of the right-to-left scan, the other way round |
| `LmsTypes.SameKeyIsSubEq` | lzss/internal/suffixarray/sais.go:447-509 | positions that the substring scans do not tell apart start equal LMS-substrings |
| `LmsTypes.SubEqIsSameKey` | lzss/internal/suffixarray/sais.go:447-509 | equal LMS-substrings are not told apart by the substring scans |
| `Buckets.RoomLeft` | lzss/internal/suffixarray/sais.go:795-899 | a bucket half that lacks one of its positions has a free index |
| `Buckets.Hole` | lzss/internal/suffixarray/sais.go:856-899 | an empty index in a half betrays a position of that half that is not placed |
| `ScanL.Step` | lzss/internal/suffixarray/sais.go:812-853 | placing the L-type left neighbour keeps everything sorted and lands inside its bucket, right of the scan |
| `ScanL.Begin` | lzss/internal/suffixarray/sais.go:795-811 | starting from seeds in rank order, the scan's invariant holds after the last position is placed |
| `ScanL.AllPlaced` | lzss/internal/suffixarray/sais.go:795-854 | after the scan every L-position is in place |
| `ScanS.Step` | lzss/internal/suffixarray/sais.go:862-898 | placing the S-type left neighbour keeps everything sorted and lands inside its bucket, left of the scan |
| `ScanS.AllPlaced` | lzss/internal/suffixarray/sais.go:856-899 | after both scans every position is in place |
| `ScanS.DenseNext` | lzss/internal/suffixarray/sais.go:856-899 | the final scan never meets an index that has not been written, so stale seeds do no harm |
| `ScanS.Sorts` | lzss/internal/suffixarray/sais.go:795-899 | given sorted LMS suffixes, the two scans leave the suffix array |
| `Frequencies.BucketWidth` | lzss/internal/suffixarray/sais.go:233-257 | a bucket is as wide as its symbol is frequent |
| `Frequencies.FreqOf` | lzss/internal/suffixarray/sais.go:213-229 | returns the symbol counts, cached ones only if they are right |
| `Frequencies.BucketMin` | lzss/internal/suffixarray/sais.go:233-242 | leaves the start of every bucket |
| `Frequencies.BucketMax` | lzss/internal/suffixarray/sais.go:248-257 | leaves the end of every bucket |
| `Seeds.PlaceLms` | lzss/internal/suffixarray/sais.go:280-344 | counts the LMS positions and leaves them, except the first of several, at the right ends of their buckets, ready for the left-to-right scan |
| `Induce.InduceSubL` | lzss/internal/suffixarray/sais.go:357-433 | carries the left-to-right scan on LMS-substrings through in place, clearing and negating cells as the next pass needs |
| `Induce.InduceSubS` | lzss/internal/suffixarray/sais.go:447-509 | carries the right-to-left scan through and leaves the sorted LMS positions packed at the top and zeros below |
| `Induce.InduceL` | lzss/internal/suffixarray/sais.go:795-854 | carries the left-to-right scan on suffixes through in place |
| `Induce.InduceS` | lzss/internal/suffixarray/sais.go:856-899 | leaves the suffix array |
| `Naming.PackedIsSorted` | lzss/internal/suffixarray/sais.go:447-509 | what the substring scans pack is a list of all LMS positions sorted by LMS-substring |
| `Naming.NameOrder` | lzss/internal/suffixarray/sais.go:593-627 | names respect the order of LMS-substrings, and two names are equal exactly when the substrings are |
| `Naming.ReductionOrder` | lzss/internal/suffixarray/sais.go:629-651 | the order of suffixes of the renamed text is the order of the LMS suffixes |
| `Fingerprints.PackInjective` | lzss/internal/suffixarray/sais.go:531-581 | packed bytes determine the substring and its length |
| `Fingerprints.CodeKinds` | lzss/internal/suffixarray/sais.go:531-581 | packed codes are never taken for lengths |
| `Fingerprints.CodeFaithful` | lzss/internal/suffixarray/sais.go:600-622 | equal codes, with equal texts where codes are lengths, mean equal LMS-substrings, and conversely |
| `Notes.LmsHalf` | lzss/internal/suffixarray/sais.go:655-717 | there are fewer than half as many LMS positions as symbols |
| `Notes.CellOf` | lzss/internal/suffixarray/sais.go:576-577 | cell `j/2` is below the list at the top, and no two LMS positions share one |
| `Notes.ReducedRenames` | lzss/internal/suffixarray/sais.go:593-649 | the names in text order are a faithful renaming over symbols below `maxID` |
| `Notes.UnmapSorts` | lzss/internal/suffixarray/sais.go:727-751 | the suffix array of the reduced text, mapped back, lists the LMS positions by suffix |
| `Notes.DistinctSorts` | lzss/internal/suffixarray/sais.go:182-195 | when all names differ, the list sorted by substrings is sorted by suffixes |
| `Reduce.Lengths` | lzss/internal/suffixarray/sais.go:531-581 | leaves the code of each LMS-substring in its cell and the list at the top |
| `Reduce.SameText` | lzss/internal/suffixarray/sais.go:605-618 | tells whether two stretches of text agree |
| `Reduce.AssignIds` | lzss/internal/suffixarray/sais.go:593-627 | replaces the codes by names and returns the largest |
| `Reduce.MapNames` | lzss/internal/suffixarray/sais.go:640-649 | packs all names, counted from 0, in text order at the top |
| `Reduce.Unmap` | lzss/internal/suffixarray/sais.go:727-751 | turns the suffix array of the reduced text into LMS positions |
| `Reduce.CopyDown` | lzss/internal/suffixarray/sais.go:187-195 | copies the list to the bottom although the two regions are in the same array |
| `Expansion.RoomBelow` | lzss/internal/suffixarray/sais.go:757-787 | the read index stays behind the write index: the suffixes still to come fit below the next one's place |
| `Expansion.ExpandDone` | lzss/internal/suffixarray/sais.go:757-787 | in the end the LMS suffixes are where the left-to-right scan expects them |
| `Reduce.Expand` | lzss/internal/suffixarray/sais.go:757-787 | spreads the sorted LMS suffixes from the bottom to the right ends of their buckets, zeros elsewhere |
| `Sais.ChooseTmp` | lzss/internal/suffixarray/sais.go:655-713 | the scratch space of the subproblem has room for its alphabet and overlaps nothing that is needed; there is at most one allocation in the whole recursion |
| `Sais.Rejoin` | lzss/internal/suffixarray/sais.go:201-229 | after the recursion the cached counts are right or marked as lost |
| `Sais.Recurse` | lzss/internal/suffixarray/sais.go:655-717 | sorts the reduced text, which sits at the top of the array, into its bottom |
| `Sais.SortLms` | lzss/internal/suffixarray/sais.go:176-196 | sorts the LMS suffixes into the bottom of the array |
| `Sais.Sort` | lzss/internal/suffixarray/sais.go:143-203 | leaves the suffix array, changes nothing else but the scratch space, and marks that |
| `Lookup.LongestUnique` | lzss/internal/suffixarray/suffixarray.go:57-59 | the longest match with the smallest suffix is unique |
| `Lookup.New` | lzss/internal/suffixarray/suffixarray.go:32-45 | the index holds the suffix array of its data |
| `Lookup.LookupInitial` | lzss/internal/suffixarray/suffixarray.go:144-152 | the block of suffixes that start with the pattern, or none |
| `Lookup.LookupFiltered` | lzss/internal/suffixarray/suffixarray.go:121-142 | the first occurrence in the window, and a left bound that loses none of them |
| `Lookup.LookupLongest` | lzss/internal/suffixarray/suffixarray.go:59-117 | the longest match in the window between the given lengths, and -1 exactly when the shortest does not occur there |
| `Bits.UnpackPacked` | lzss/compress.go:127-129 | the bytes written hold the bits and zeros as padding |
| `Bits.PutBit` | lzss/compress.go:98-100 | a bit waits in the bit writer or completes a byte |
| `Bits.ShiftedBits` | lzss/compress.go:94-100 | shifting out the padding and writing the rest gives the bits in use of the last byte |
| `Phrases.ReadPrinted` | lzss/backref.go:61-86 | a phrase that fits is read as it was written |
| `Phrases.ParsePrinted` | lzss/backref.go:61-86 | parsing undoes printing for every sequence of phrases, up to fewer than eight bits of padding |
| `Phrases.PrintRead` | lzss/backref.go:61-86 | a phrase that was read fits, and printing it gives the bits read |
| `Phrases.LiteralFormat` | lzss/backref.go:14-19 | a literal is any byte but 0xFE and 0xFF, in 8 bits |
| `Phrases.ShortFormat` | lzss/backref.go:32-68 | a short reference has 30 bits: 0xFE, 8 bits of length less one, 14 of distance less one; distances reach to 16384, lengths to 256 |
| `Phrases.DynamicFormat` | lzss/backref.go:37-68 | a dynamic reference has 37 bits: 0xFF, 8 bits of length less one, 21 of distance less one; distances reach to 2097152 |
| `Phrases.ParseExact` | lzss/decompress.go:44-81 | the bit streams that parse are exactly those that fitting phrases print to, up to fewer than eight bits; one that breaks off inside a reference does not |
| `Phrases.DecodeIsReplay` | lzss/decompress.go:44-81 | decoding is parsing followed by replaying |
| `Phrases.CopyRepeats` | lzss/decompress.go:52-57 | an overlapping copy reproduces a text that repeats itself at that distance |
| `BackRefs.FindBackRef` | lzss/compress.go:435-470 | finds what an exhaustive search over window and dictionary finds |
| `BackRefs.FindRefSound` | lzss/compress.go:435-470 | what is found is a reference for the data at the position |
| `BackRefs.FindRefComplete` | lzss/compress.go:435-470 | no reference of the kind that is long enough is longer |
| `BackRefs.WindowWins` | lzss/compress.go:460-467 | of matches equally long in the data and in the dictionary, the one in the data is taken |
| `BackRefs.BestIsRef` | lzss/compress.go:146-173 | the best reference is a reference |
| `BackRefs.BestMaximises` | lzss/compress.go:146-173 | no reference of either kind, in the window or in the dictionary, saves more |
| `BackRefs.BestNone` | lzss/compress.go:154-169 | for an encodable byte nothing is found exactly when no reference saves anything |
| `BackRefs.BestReserved` | lzss/compress.go:221-225 | for a reserved byte there is always a reference |
| `BackRefs.CircularBuffer.Push` | lzss/compress.go:274-278 | the memo keeps holding best references under their positions |
| `BackRefs.CircularBuffer.Best` | lzss/compress.go:280-287 | what is found in the memo is the best reference at that position |
| `BackRefs.BestBackref` | lzss/compress.go:146-173 | the best reference and its savings, from the memo or from the index |
| `Greedy.StepCovers` | lzss/compress.go:176-257 | every round emits phrases for at least one byte and for none beyond the end |
| `Greedy.EmitCovers` | lzss/compress.go:138-260 | all phrases together stand for the data from the start index on |
| `Greedy.ReplayCovers` | lzss/decompress.go:44-81 | replaying phrases that stand for data gives the data |
| `Greedy.RoundTrip` | lzss/compress.go:138-260 | within reach, decoding the emitted bits and any padding, starting from what came before, gives the data |
| `Greedy.CountRun` | lzss/compress.go:177-183 | the longest run of equal bytes, up to 256 |
| `Greedy.WriteRun` | lzss/compress.go:184-218 | emits the phrases for a run and moves behind it |
| `Greedy.WriteNext` | lzss/compress.go:220-257 | emits the phrases of one round away from runs and moves behind them |
| `Greedy.WritePhrases` | lzss/compress.go:138-260 | the loop emits exactly the phrases that the theorems are about |
| `Greedy.EmitUnfold` | lzss/compress.go:176-257 | the phrases are those of one round followed by those from behind them |
| `Choices.GainOfBest` | lzss/compress.go:146-173 | the reference found saves as much as any that exists |
| `Choices.StepPicks` | lzss/compress.go:220-256 | for an encodable byte outside long runs: a literal if no reference saves anything; otherwise one or two literals if a reference that far on saves more than they cost besides; otherwise a reference that saves the most |
| `Choices.ReferenceIff` | lzss/compress.go:220-256 | a reference is emitted if and only if one saves something and none of those further on is better |
| `Choices.ReservedPicks` | lzss/compress.go:221-225 | for a reserved byte a reference that saves the most is emitted |
| `Choices.RunPicks` | lzss/compress.go:175-218 | 160 or more equal bytes end in a short reference of distance 1 for all of them, or all but the first |
| `Sizes.EmitCost` | lzss/compress.go:176-257 | at most eight bits a byte, and 29 more per reserved byte |
| `Decompressor.AugmentDict` | lzss/compress.go:70-88 | the dictionary itself if both reserved bytes occur in it, otherwise two bytes longer, ending in 0xFE and 0xFF |
| `Decompressor.AugmentedComplete` | lzss/compress.go:69-88 | the result has both reserved bytes, starts with the dictionary, needs no further augmenting, and is longer exactly when a reserved byte was missing |
| `Decompressor.AcceptedHeader` | lzss/decompress.go:20-31 | only data that start with 0, 1 and a flag of 0 or 1 are accepted; with flag 1 the rest is the result |
| `Decompressor.CopyBack` | lzss/decompress.go:72-74 | the byte-wise loop is the overlapping copy |
| `Decompressor.Decompress` | lzss/decompress.go:17-84 | computes what the theorems call the decompressed data, on every byte string, errors included; another version is refused, and a bypassed stream gives what follows the header |
| `Decompressor.GrowthBound` | lzss/decompress.go:44-84 | an accepted stream's output is at most 1024/15 times what follows the header |
| `Sessions.AllCover` | lzss/compress.go:91-129 | the phrases of all Writes together stand for all that was written |
| `Sessions.ShownDecompresses` | lzss/decompress.go:17-84 | whatever the padding, within reach the output decompresses to all that was written |
| `Sessions.WorstCase` | lzss/compress.go:347-351 | the output has at most `3 + n + ceil(29 r / 8)` bytes |
| `Reach.ParseCutOff` | lzss/backref.go:37-40 | out of reach, parsing gives the phrases with their distances modulo 2^14 or 2^21 |
| `Reach.ShownReplays` | lzss/decompress.go:17-84 | with any dictionary, in or out of reach, the decompressed data do not depend on the padding |
| `Reach.FarNotRecovered` | lzss/backref.go:37-40 | beyond the bound there are data that are never recovered, however they are written |
| `Reach.ReachExact` | lzss/backref.go:9-12 | for every length of data and of a dictionary with both reserved bytes: all are recovered if and only if the lengths sum to at most 2^21 + 1 |
| `CallerReach.LastPhrase` | lzss/compress.go:460-469 | for these data the last reference goes to the reserved byte with the smaller suffix, although the appended one is nearer |
| `CallerReach.NearNotRecovered` | lzss/compress.go:37-38 | beyond the bound there are a caller's dictionary and data that are not recovered |
| `CallerReach.CallerReachExact` | lzss/backref.go:9-12 | for every length of data and of the dictionary a caller passes: all are recovered if and only if the lengths sum to at most 2^21 - 1 |
| `Machine.WriteOn` | lzss/compress.go:93-127 | pulling back the last byte and writing on gives the longer stream, and cutting it off again the shorter one |
| `Machine.WriteAgrees` | lzss/compress.go:91-129 | a Write that does not fail shows one chunk more and can be undone |
| `Machine.ConsiderAgrees` | lzss/compress.go:347-367 | bypassing keeps what was written, and happens exactly when the stream is longer than the data and a header |
| `Machine.ConsiderRemembers` | lzss/compress.go:350-355 | when compression is bypassed, the length remembered is the one that the bypassed output had before the last Write |
| `Machine.RevertAgrees` | lzss/compress.go:322-345 | Revert goes back to the chunks before the last Write, in bypass mode by compressing them anew |
| `Machine.ResetAgrees` | lzss/compress.go:289-304 | Reset shows an empty stream |
| `Machine.RunAgrees` | lzss/compress.go:91-367 | every run in which no Write exceeds the input size never gets stuck and keeps the agreement of fields and chunks |
| `Machine.AgreesDecompresses` | lzss/decompress.go:17-84 | in every such state, bypassed or within reach, decompressing the output gives the input |
| `Machine.RunDecompresses` | lzss/compress.go:91-367 | every run in which no Write exceeds the input size never gets stuck, and decompressing the output gives the input |
| `Machine.WriteRevert` | lzss/compress.go:322-345 | outside bypass mode Write and Revert restore all but the padding and what is remembered for Revert |
| `Machine.RevertLeaves` | lzss/compress.go:329-339 | Revert leaves the chunks that were there before the last Write, in both modes |
| `Machine.RevertInput` | lzss/compress.go:322-345 | after a Write, with or without ConsiderBypassing, Revert gives back the input before it |
| `Machine.BypassRevert` | lzss/compress.go:332-339 | in bypass mode a Write and a Revert leave what a new compressor given the earlier input holds after considering to bypass |
| `Machine.NothingToRevert` | lzss/compress.go:324-345 | outside bypass mode a second Revert does nothing; after Reset a Revert is accepted and changes no data |
| `Machine.RevertSameOutput` | lzss/compress.go:340-344 | after Write and Revert the output decompresses to the same as before, with any dictionary |
| `Machine.WriteIgnoresPadding` | lzss/compress.go:93-127 | a Write gives the same state whatever the padding |
| `Machine.UndoneForGood` | lzss/compress.go:322-345 | every run that calls Write or Reset before Revert ends in the same state as if Write and Revert had not happened; with ConsiderBypassing alone the states differ in padding at most |
| `Machine.SizeAnnounced` | lzss/compress.go:375-425 | the counted bits, rounded up, and the header are the size of the output |
| `Machine.NeverBypassed` | lzss/compress.go:347-351 | without reserved bytes compression is never bypassed |
| `Recovery.FailedWrite` | lzss/compress.go:93-105 | a failed Write leaves the input, and moves the bits in use of the last byte to the bit writer if the byte has padding; then Revert would cut beyond the end of the output |
| `Recovery.OutputsDiffer` | lzss/compress.go:289-304 | with bits left over, the output after Reset differs from that of a new compressor for all data |
| `Recovery.ResetRecovers` | lzss/compress.go:90-105 | after a failed Write and Reset, all data give what a new compressor gives if the last byte had no padding, and none do otherwise |
| `Recovery.ResetExample` | lzss/compress.go:90-105 | one reserved byte and a Write that is too long spoil a new compressor |
| `Recovery.OnesRejected` | lzss/decompress.go:20-25 | if a bit left over is set, every output after Reset is rejected |
| `Recovery.OnlyByChance` | lzss/decompress.go:44-81 | with bits left over, data are had back after Reset only if the bits are 0 and the first byte other than 0 is 0xFF shifted by their number |
| `Recovery.LuckyExample` | lzss/compress.go:90-105 | a run with a failed Write and Reset after which a certain dictionary, as data, is had back all the same |
| `Compressors.Compressor.PutBits` | lzss/compress.go:98-100 | the bit writer passes on whole bytes and keeps the rest |
| `Compressors.Compressor.Align` | lzss/compress.go:127 | fills up the byte that has been started and tells how many bits that took |
| `Compressors.Compressor.PutPhrases` | lzss/backref.go:63-68 | writes phrases, through partly filled bytes, as the bits they print to |
| `Compressors.Compressor.PullBack` | lzss/compress.go:93-100 | takes the bits in use of the last byte back into the bit writer |
| `Compressors.Compressor.AppendInput` | lzss/compress.go:472-479 | refuses what exceeds the input size and changes nothing then |
| `Compressors.Compressor.Write` | lzss/compress.go:91-129 | makes the step of the state machine, fails exactly when the input gets too long, and keeps the object valid when it does not |
| `Compressors.Compressor.Encode` | lzss/compress.go:113-128 | compresses the chunk written last behind the bits waiting, and fills up the last byte |
| `Compressors.Compressor.Reset` | lzss/compress.go:289-304 | makes the step of the state machine, and a valid object if the bit writer is empty |
| `Compressors.Compressor.ConsiderBypassing` | lzss/compress.go:347-367 | makes the step of the state machine and keeps the object valid |
| `Compressors.Compressor.Revert` | lzss/compress.go:322-345 | makes the step of the state machine, is refused exactly when nothing is remembered, cuts the input to the length remembered, and keeps the object valid |
| `Compressors.Compressor.Compress` | lzss/compress.go:374-379 | within reach, decompressing the result gives the data |
| `Compressors.Compressor.CompressedSize256k` | lzss/compress.go:381-407 | the size that Compress would reach, or that of the bypassed stream in bypass mode |
| `Compressors.CountBits` | lzss/compress.go:409-425 | the counter ends at the cost of the phrases |
| `Compressors.Compressor.Decompresses` | lzss/compress.go:369-372 | for every valid object, bypassed or within reach, decompressing its output gives all chunks written |
| `Compressors.FindReserved` | lzss/compress.go:47-59 | finds a place of each reserved byte in the dictionary: up to where both have occurred first, the last of each |
| `Compressors.NewCompressor` | lzss/compress.go:37-67 | gives a valid new compressor, or none exactly when the dictionary is too long |
| `Examples.TwiceCompressed` | lzss/compress.go:375-379 | the output for eight bytes written twice: eight literals and a short reference |
| `Examples.RunCompressed` | lzss/compress.go:184-218 | the output for two hundred zeros |
| `Examples.BypassExample` | lzss/compress.go:322-367 | the outputs of a run that bypasses, writes and reverts |
| `StreamInfo.EmitLiteralIfNecessary` | lzss/decompress.go:141-155 | lists the pending literals, after which the listing covers all that was read |
| `StreamInfo.CompressedStreamInfo` | lzss/decompress.go:97-206 | none where the header is bad, the stream breaks off or a reference points before the dictionary; otherwise entries that tile both streams, stand for their bits and hold what is copied |
| `StreamInfo.InfoAgrees` | lzss/decompress.go:97-206 | the decompressor accepts a stream exactly when its listing exists and has only proper references, and then the listing holds the output |
| `StreamInfo.ListedNotAccepted` | lzss/decompress.go:175-184 | a short reference into the dictionary is listed but not accepted |

## Left out

- `bitio`, `bytes.Buffer` and `sort.Search` internals: bit and byte sequences and a binary search stand for them; writing to a buffer never fails.
- Header fields beyond the two bytes of version and the flag byte, and the number of bytes that reading the header reports.
- `ToCSV`, texts of error messages, buffer growth and stack allocation.
- The type byte of a listing entry: an entry has a kind of reference or none instead of 0xFF, 0xFE or 0.
- Panics: the model gives `None` where `CompressedStreamInfo` panics on a version it does not know or on a reference before the dictionary; where the compressor would panic after a failed Write (Revert, when the output was cut) the model has a precondition.
- Contents of a listing are copies of the buffer, not slices that share memory with it, and Revert in bypass mode passes a copy of the input buffer to Write.
- The `writer` interface: the compression loop returns its phrases, which the bit writer prints and the bit counter counts, instead of calling a writer as it goes.
- A second proof for `sais_32`: texts are sequences of integers, and the flag `packed` selects what only the byte version does. The suffix array of the index is a sequence after it has been built.
- The branch for equal ends of a block in `LookupLongest` (lzss/internal/suffixarray/suffixarray.go:70-79): a block that was found is never empty.
- The length checks and reslicing that panic on wrong arguments inside the suffix sorting: they are preconditions, which the callers meet.
- A second Revert directly after a Revert in bypass mode: the documentation forbids it, and nothing is claimed beyond the step of the state machine.
- Recovery.OnlyByChance: says when data cannot be had back after a failed Write and a Reset, not exactly when they can, because that depends on how the whole shifted stream happens to read with the dictionary; `LuckyExample` shows that both occur.
- `CompressedSize256k` in bypass mode announces the size of the bypassed stream, while Compress leaves bypass mode; the model follows the code.
- The README of the package gives other values for a delimiter and for the version than the code; the model follows the code.
- Compression ratios, performance and the tests.
