# Binary diff and patch: a verified model

A model of the `binarydist` package: a differ that describes a new file by control
triples over an old file, a patcher that interprets them, and everything between the two.

- **Suffix sorting.** `Qsufsort` sorts the suffixes of the old file by doubling, on two integer
  arrays that are overwritten in place. `Ranking.Ranks` is the invariant that holds after every
  renumbering, also in the middle of a pass: slots are grouped, a group is numbered by its last
  slot, a smaller number means a smaller suffix, and suffixes with the same number share `h`
  bytes. The listing `P` of suffixes by slot is ghost, because finished slots of `I` hold negative
  run lengths. The result is the suffix array: a permutation of all positions whose suffixes
  are strictly increasing.
- **Search.** `Find` is the binary search; on a suffix array its match is a longest one, and
  `IsMatch` says which, so that the files alone determine it.
- **The scan.** `Plan` says what `diff` is meant to compute, without its running score, its
  running maxima or its buffers: the scan stops at the first position that satisfies `Stops`,
  extensions are the smallest lengths of largest gain, the overlap is cut where most bytes
  agree, and `Triples` lists the triples that follow. `ScanLaws` characterises each of these over the
  files, by conditions that nothing else satisfies. `Scan.dfy` and `Diff.dfy` prove the loops of
  `diff` against it; `Laws.dfy` and `ScanLaws.dfy` prove what the plan achieves.
- **Patch.** `Interp` is a pure interpreter of triples, with 64-bit arithmetic; `Patch.dfy`
  proves the loop that fills the new file in place against it. `Rebuilds` and `FailsAt` say without
  an interpreter which file, or which error, three streams stand for.
- **The container.** Sign-magnitude integers, the 32-byte header that is written, then written
  again after seeking back, and the growable buffer with a cursor.

The two ends meet in `Diffing.RoundTrip`: patching the old file with the output of the differ gives
the new file, for all files. bzip2 is a pair of functions, `Z` to compress and `U` for what the
reader delivers, with `U(Z(s)) == s` as the only hypothesis; `Diffing.StoredRoundTrip` gives a pair
that satisfies it. The differ itself fails only where the compressed blocks get too long, and
`Diffing.DiffSucceeds` says when that cannot happen.

The long functions of the source are divided: each of their loops is a method of its own, with
the source's variables as parameters and results, and the enclosing function calls them in order.
Ghost parameters (`text`, `P`, `start`) carry what the proofs need and do not influence the code.
Proofs that combine many definitions begin with `hide *` and take what they need from small
lemmas, each of which unfolds one definition.

The comment at binarydist/encoding.go:5-6 says that only two methods of the codec are written and
the rest panic; the code also has `PutUint64`, which is what is modelled. The encoding has one
integer that does not survive it: -2^63 is written as a negative zero and read as 0. The exact
condition is proved both ways, and no triple of the differ holds that integer.

## Model

| member | source | states |
|---|---|---|
| Lex.Lcp | binarydist/diff.go:153-158 | the common prefix length: all bytes before it agree, and the bytes at it differ when both strings go on |
| Lex.LessAtLcp | binarydist/diff.go:173 | the recursive lexicographic order is decided at the first difference |
| Lex.LessTotal | binarydist/diff.go:173 | the order is irreflexive, and of two different strings exactly one is smaller |
| Lex.LessTransitive | binarydist/diff.go:173 | the order is transitive |
| Lex.LcpBetween | binarydist/diff.go:160-178 | in sorted order, a string between two others shares with each at least what they share |
| Ranking.SuffixLessIsLess | binarydist/diff.go:93-151 | comparing suffixes in place is comparing them as byte strings |
| Ranking.ShareIsPrefix | binarydist/diff.go:126-145 | two suffixes share h bytes if and only if their first h bytes are the same string |
| Ranking.LessAfterShared | binarydist/diff.go:12-91 | suffixes that share h bytes compare like the suffixes h bytes further on |
| Ranking.Doubling | binarydist/diff.go:126-145 | under the invariant, numbers h bytes further on order two suffixes that share h bytes, and equal numbers mean 2h shared bytes |
| Ranking.Carve | binarydist/diff.go:29-31 | giving the first suffixes of a group their own number keeps the whole invariant, whoever still reads the old numbers |
| Ranking.CarveRefines | binarydist/diff.go:29-31 | numbering the head of a group never gives two suffixes the same number that had different ones |
| Window.SwapInWindow | binarydist/diff.go:10 | exchanging two suffixes of the part being split keeps it a part that may be split |
| Window.SmallerKeysPrecede | binarydist/diff.go:16-28 | slots with smaller keys hold suffixes smaller than all later ones of the group, also those outside the part |
| Window.EqualKeysAlike | binarydist/diff.go:16-28 | slots with equal keys hold suffixes that pairwise share 2h bytes |
| Window.EqualKeysCoarser | binarydist/diff.go:12-91 | keys read equal from numbers already refined were equal before the refinement |
| Tally.CountSwap | binarydist/diff.go:42-51 | exchanging suffixes does not change how many keys lie below, at or above the pivot |
| Partition.BandsRoom | binarydist/diff.go:53-75 | a misplaced suffix always finds a free slot in the part where it belongs, so no exchange leaves the range |
| Partition.BandsDone | binarydist/diff.go:68-75 | once the first two parts are full, everything behind them lies above the pivot |
| Splitting.Swap | binarydist/diff.go:10 | exchanges two entries and nothing else, and keeps the part a window |
| Splitting.SelectLeast | binarydist/diff.go:17-28 | the first j slots get the least key, all later slots of the part have larger keys, only the part is rearranged |
| Splitting.Renumber | binarydist/diff.go:81-86 | exactly the suffixes of the slots get the number of the last slot; a lone suffix is overwritten with -1 |
| Splitting.GroupClosed | binarydist/diff.go:29-34 | numbering a group keeps the invariant, settles its slots and only refines the numbers |
| Splitting.SelectionRound | binarydist/diff.go:16-35 | one round settles the next group, whose keys were all equal, and leaves the rest of the part a window, although keys are read from numbers just changed |
| Splitting.SelectionSplit | binarydist/diff.go:15-37 | the case below 16 suffixes: the whole part ends settled, suffixes in one new group had equal keys at the start, nothing outside changes |
| Splitting.CountKeys | binarydist/diff.go:42-49 | the two counters are the numbers of keys below and at the pivot |
| Splitting.FillBelow | binarydist/diff.go:53-66 | the first loop of the partition fills exactly the slots for keys below the pivot |
| Splitting.FillAt | binarydist/diff.go:68-75 | the second loop fills exactly the slots for keys equal to the pivot |
| Splitting.PartitionWindow | binarydist/diff.go:39-75 | three bands below, at and above the key of the middle slot, the middle band not empty |
| Splitting.Split | binarydist/diff.go:12-91 | terminates; afterwards the part is in the order of the keys before the split, only suffixes with equal keys share a group, its groups are whole and share 2h bytes, I marks exactly its singletons, the invariant holds, and nothing outside has changed |
| Splitting.StaysInWindow | binarydist/diff.go:12-91 | a split only permutes the suffixes of its part |
| Splitting.OrderedByKey | binarydist/diff.go:12-91 | the slots end up in the order of the keys before the split, if the new groups do not mix different keys |
| Splitting.GroupsByKey | binarydist/diff.go:12-91 | of two slots in different new groups, the earlier one had no larger key before the split |
| SuffixSort.CountBuckets | binarydist/diff.go:99-106 | after counting, summing and shifting, bucket c holds the number of smaller bytes |
| SuffixSort.Distribute | binarydist/diff.go:108-111 | every slot but the first holds the suffix that belongs there, and every bucket its last slot |
| SuffixSort.MarkSingletons | binarydist/diff.go:119-123 | exactly the last slots of the one-suffix buckets of bytes 1 to 255 become -1, and these hold singletons |
| Buckets.BucketedRanks | binarydist/diff.go:99-118 | buckets numbered by their last slot satisfy the invariant with one shared byte |
| SuffixSort.SortByFirstByte | binarydist/diff.go:94-124 | the state before the first pass |
| SuffixSort.PassSkip | binarydist/diff.go:129-131 | a negative entry is the exact length of a run of finished slots and may be skipped as a whole |
| SuffixSort.PassMark | binarydist/diff.go:133-135 | recording the length of a merged run keeps all run lengths exact |
| SuffixSort.PassGroup | binarydist/diff.go:136 | an unfinished slot starts a whole group that ends at its number, and all its slots are listed |
| SuffixSort.PassSplit | binarydist/diff.go:137-139 | splitting the group moves the pass behind it |
| SuffixSort.PassEnd | binarydist/diff.go:126-145 | after a pass all groups share 2h bytes |
| SuffixSort.Pass | binarydist/diff.go:127-144 | a pass with step h leads from the state for h to the state for 2h; if nothing was left to sort, one run over all slots remains |
| SuffixSort.NothingPending | binarydist/diff.go:126 | once h exceeds the length, no group is left to sort, so the loop ends |
| SuffixSort.AllSorted | binarydist/diff.go:126-149 | a single run means that the numbers are the inverse of the suffix array |
| SuffixSort.Invert | binarydist/diff.go:147-149 | inverting the numbers rebuilds the listing in I |
| SuffixSort.Qsufsort | binarydist/diff.go:93-151 | terminates with the suffix array: a permutation of 0..n with strictly increasing suffixes |
| Search.MatchLen | binarydist/diff.go:153-158 | the loop returns the common prefix length |
| Search.FindIsLongest | binarydist/diff.go:160-178 | no position of the old file matches longer than the one found; which of several is found is stated by FindIsMatch |
| Search.FindIsMatch | binarydist/diff.go:160-178 | of several longest matches the search returns the smallest suffix that is not smaller than the new file at the scan position, and the largest of all if there is none |
| Search.MatchUnique | binarydist/diff.go:160-178 | that rule fixes position and length |
| Search.FindNothing | binarydist/diff.go:160-178 | for the empty string, which the differ never looks for, the search ends at slot 1, or at slot 0 of an empty file |
| Search.EmptySuffixFirst | binarydist/diff.go:113 | slot 0 holds the empty suffix |
| Search.SuffixArrayUnique | binarydist/diff.go:93-151 | a text has only one suffix array |
| Plan.FirstMaxIs | binarydist/diff.go:263-266 | a maximum kept under strict improvement is the smallest argument of the largest value |
| Plan.NextStopIsFirst | binarydist/diff.go:236-253 | no position before the next stop is a stop |
| ScanLaws.BestIsLongest | binarydist/diff.go:237 | the match at a scan position is attained there and longest over all positions |
| ScanLaws.BestIs | binarydist/diff.go:237 | the two files alone fix position and length of the match at a scan position |
| ScanLaws.MatchesIsCount | binarydist/diff.go:239-244 | the score of a window counts exactly the agreeing byte pairs that both files have |
| ScanLaws.MatchesBeforeIs | binarydist/diff.go:271-275 | counting backward from two positions is counting forward to them |
| ScanLaws.StopsIff | binarydist/diff.go:246-248 | the scan ends at a position if and only if its match is not empty and agrees wholly at the old alignment, or is at least 9 longer than what agrees there |
| ScanLaws.AdvanceFromFiles | binarydist/diff.go:231-253 | the scan goes on behind the last match to the first position that ends it, with the match there, or to the end with the match of the last search |
| ScanLaws.BestDropsByOne | binarydist/diff.go:236-253 | one position further on the match is at most one byte shorter |
| ScanLaws.NoMatchNoByte | binarydist/diff.go:250-252 | after a match of length 0 the old file has no such byte, so nothing is subtracted from the score |
| Scanning.ScoringStep | binarydist/diff.go:239-252 | the score stays the number of agreeing bytes of its window when the scan moves on |
| Scanning.ScanAhead | binarydist/diff.go:234-253 | the loop stops at the plan's next stop, with the match found there and a score between 0 and its length that equals a fresh count |
| Scanning.ExtendForward | binarydist/diff.go:256-267 | the running maximum is the plan's forward extension, the best of all lengths the files allow |
| Scanning.ExtendBackward | binarydist/diff.go:269-281 | the running maximum is the plan's backward extension, the best of all lengths the files allow |
| Scanning.CutOverlap | binarydist/diff.go:283-299 | the running maximum is the plan's cut of the overlap, the first that keeps most agreeing bytes |
| ScanLaws.ExtensionsAreBest | binarydist/diff.go:256-281 | a length is the forward extension if and only if it is the shortest with the largest gain (twice the agreeing bytes minus the length) of all that stay before the stop and inside the old file; the same backward, over all that stay behind the last triple and inside the old file, and 0 at the end of the new file |
| ScanLaws.CutIsBest | binarydist/diff.go:283-303 | a length is the cut if and only if no cut of the overlap keeps more agreeing bytes and no earlier one as many; without an overlap it is 0 |
| ScanLaws.TripleFromFiles | binarydist/diff.go:256-337 | lengths with these properties, which speak of the files only, determine the triple and the next cursor |
| ScanLaws.TripleShape | binarydist/diff.go:283-313 | the add part does not reach past the stop, and bytes are copied only where the extensions do not overlap |
| ScanLaws.HalfOfDiffIsZero | binarydist/diff.go:256-307 | where nothing is cut, at least half of the diff bytes of a triple are zero |
| ScanLaws.JobDetermined | binarydist/diff.go:211-213 | the two files determine the plan |
| ScanLaws.TriplePays | binarydist/diff.go:246-255 | before the end a triple is written if and only if the match is at least 9 longer than the score |
| ScanLaws.TriplesFromFiles | binarydist/diff.go:231-339 | the triples are those of the stops that pay, in order, and that of the end of the new file |
| ScanLaws.TripleCount | binarydist/diff.go:231-339 | a new file of m bytes takes between 1 and m/9 + 1 triples, an empty one none |
| ScanLaws.BlocksCover | binarydist/diff.go:305-313 | add and copy lengths sum to the length of the new file and to the lengths of the two blocks |
| ScanLaws.IdenticalFiles | binarydist/diff.go:231-337 | a non-empty file against itself gives the one triple (n, 0, -n), n zero deltas and nothing to copy |
| Laws.AddedDeltas | binarydist/patch.go:73-77 | adding the old bytes modulo 256 to the deltas gives the new bytes |
| Laws.TripleInRange | binarydist/diff.go:305-337 | a triple stays inside both files, its lengths are not negative, and it leads to the next cursor |
| Laws.ReplayStep | binarydist/patch.go:53-97 | the interpreter, at the differ's last positions in both files, executes the next triple and is at the differ's next positions |
| Laws.Simulation | binarydist/patch.go:53-97 | from any cursor the planned streams rebuild the new file, no check fails, and all three are read to their end |
| Interp.StepIff | binarydist/patch.go:61-96 | a triple is executed exactly if its lengths are not negative, its bytes are there and the new file has room |
| Interp.WrapIs | binarydist/patch.go:62-97 | 64-bit arithmetic gives the one int64 that differs by a multiple of 2^64 |
| Interp.AddedAt | binarydist/patch.go:73-77 | each diff byte is increased by the old byte modulo 256 where the old file has one, and stays as it is outside the old file |
| Interp.FillsUnique | binarydist/patch.go:54 | at most one number of triples fills the new file |
| Interp.RunFinishes | binarydist/patch.go:53-97 | streams that suffice give a full new file and leave what was not needed |
| Interp.RunSucceedsIff | binarydist/patch.go:53-97 | the interpreter succeeds exactly on streams that suffice, whatever the old file |
| Interp.RunFailsIff | binarydist/patch.go:54-92 | the interpreter fails with an error if and only if a first triple is missing or does not fit and demands that error: read error, corrupt, or a slice bound out of range |
| Interp.RunMeaning | binarydist/doc.go:18-20 | in a finished output the j-th triple has added its diff bytes, modulo 256, to the old bytes at the sum of all earlier moves, unchanged where the old file has none, and copied its extra bytes behind them |
| Interp.RebuildsUnique | binarydist/doc.go:18-20 | the bytes written by all triples are the whole new file, so streams describe at most one |
| Interp.RunRebuilds | binarydist/patch.go:53-97 | the interpreter returns a file if and only if the streams describe it |
| Encoding.DecodeEncode | binarydist/encoding.go:17-51 | decoding an encoded integer gives it back if and only if it is not -2^63, which reads as 0 |
| Encoding.EncodeSignMagnitude | binarydist/encoding.go:33-51 | the top bit of the eight bytes is set exactly for negative integers, and the other 63 bits are the magnitude, little-endian |
| Encoding.DecodeSignMagnitude | binarydist/encoding.go:17-31 | the integer read is the little-endian number of the low 63 bits, negated if the top bit is set |
| Encoding.EightBytes | binarydist/encoding.go:18-25 | the weight of each of eight little-endian bytes |
| Encoding.EncodeDecode | binarydist/encoding.go:17-51 | encoding a decoded integer gives the bytes back if and only if they are not the negative zero |
| Encoding.EncodeInjective | binarydist/encoding.go:33-51 | only 0 and -2^63 can be confused after decoding |
| Encoding.Low63Is | binarydist/encoding.go:18-25 | the shifted bytes are the little-endian number without the sign bit |
| Encoding.PutUint64 | binarydist/encoding.go:33-51 | the eight array bytes are the encoding, sign in the top bit and magnitude in the others; the rest of the slice is unchanged |
| Container.DecodeEncodeTriples | binarydist/diff.go:315-333 | reading the control block gives the written triples back |
| Container.EncodeTriplesAt | binarydist/diff.go:315-333 | triple j is written at byte 24 * j as add, copy and seek, eight bytes each |
| Container.DecodeTriplesAt | binarydist/patch.go:55-59 | triple j is read from byte 24 * j as add, copy and seek, and there are as many as whole groups of 24 bytes |
| Container.DecodeEncodeHeader | binarydist/doc.go:21-26 | reading a written header gives it back |
| Container.LayoutFormat | binarydist/doc.go:6-17 | the bytes of the file: the characters BSDIFF40, the lengths of the first two blocks and of the new file at 8, 16 and 24, and the three blocks from 32 on |
| Container.ParseLayout | binarydist/patch.go:17-44 | taking a laid-out file apart gives its size and its three blocks back |
| Container.LayoutParse | binarydist/patch.go:17-44 | whatever can be taken apart is a header with the block lengths, followed by the three blocks; laying the blocks out again gives the same bytes if and only if no length in the header is spelled as a negative zero |
| SeekBuffer.OverlayAt | binarydist/seek.go:12-21 | a write changes exactly the bytes it covers |
| SeekBuffer.OverlayConcat | binarydist/seek.go:12-21 | two consecutive writes are one write of the concatenation, so it does not matter how the compressor divides its output |
| SeekBuffer.Buffer.Write | binarydist/seek.go:12-21 | overwrites at the cursor, appends what does not fit, and moves the cursor; what would grow the buffer to 2^63 bytes is reported instead of appended |
| SeekBuffer.Buffer.Seek | binarydist/seek.go:23-43 | the new position or the error of each case; the cursor moves only on success |
| Patching.ReadFull | binarydist/patch.go:67-70 | fills the slice from the stream, or reports that the stream is too short |
| Patching.AddOld | binarydist/patch.go:73-77 | adds old bytes in place modulo 256 where the old file has them and changes no other byte |
| Patching.Apply | binarydist/patch.go:51-97 | the in-place loop returns what the interpreter returns; it succeeds if and only if the streams suffice, with the one file they describe, and otherwise gives the error of the first triple that is missing or does not fit |
| Patching.Patch | binarydist/patch.go:16-109 | for every byte string: the error of each header check and block read, and behind them the result that the three decompressed streams demand |
| Patching.ResultMeans | binarydist/patch.go:53-97 | the interpreter's result in terms of the streams alone |
| Patching.HeaderFields | binarydist/patch.go:17-27 | the header fields are the integers at bytes 8, 16 and 24, and the magic is BSDIFF40 |
| Diffing.AppendDeltas | binarydist/diff.go:305-307 | the diff bytes of a triple are appended behind the earlier ones |
| Diffing.AppendPiece | binarydist/diff.go:308-310 | the extra bytes of a triple are appended behind the earlier ones |
| Diffing.Measure | binarydist/diff.go:256-303 | extending, cutting and subtracting give the plan's triple and the plan's next cursor |
| Diffing.Emit | binarydist/diff.go:305-337 | control, diff and extra streams stay prefixes of the planned ones |
| Diffing.WriteStreams | binarydist/diff.go:231-339 | terminates inside all bounds with the planned control, diff and extra streams |
| Diffing.HeaderRewritten | binarydist/diff.go:397-405 | writing the header again over the first one leaves the blocks behind it |
| Diffing.WriteFile | binarydist/diff.go:217-407 | for blocks of any length: the patch file byte by byte, or exactly when a position of 2^31 or more, or a buffer of 2^63 bytes, is reported |
| Diffing.FileOfFormat | binarydist/diff.go:217-407 | when there is a patch file, when which error, and its magic, three integers and three blocks at their places |
| Diffing.TriplesEncodable | binarydist/diff.go:315-333 | no planned triple holds -2^63 |
| Diffing.ControlSize | binarydist/diff.go:315-333 | the control block is at most 24 * (m/9 + 1) bytes |
| Diffing.RoundTrip | binarydist/patch.go:16-109 | if diffing succeeds, patching the old file with the result gives the new file, for all files, every compressor and any decompressor that inverts it |
| Diffing.DiffSucceeds | binarydist/diff.go:182-407 | diffing cannot fail for a new file below 512 MiB if the compressor adds at most 1 % and 600 bytes |
| Diffing.StoredRoundTrip | binarydist/diff.go:182-407 | with the identity for compressor and decompressor, diffing a new file below 512 MiB succeeds and patching gives it back |
| Diffing.Diff | binarydist/diff.go:182-407 | the patch is the format applied to the compressed planned streams over the suffix array of the old file, its failures are exact, and patching with it gives the new file for any decompressor that inverts the compressor |

## Left out

- bzip2 itself: foreign code; only `U(Z(s)) == s` is used, and `U` is any function of the bytes.
- Readers and writers, short reads and write errors around `Diff` and `Patch`: files are byte sequences.
- Diffing.Diff: the lengths of the two files are assumed below 2^63, as those of Go slices are. Compressed blocks may have any length.
- Diffing.WriteFile: each compressed block is one write; how the compressor divides it does not matter by SeekBuffer.OverlayConcat.
- Patching.ReadFull: a failed read leaves the new file unchanged in the model; the source may have filled part of it, but discards it.
- Patching.Patch: `make` with a header size that exceeds the memory is not modelled; a slice bound out of range is the outcome `Panic`.
- SeekBuffer.Buffer.Write: requires the cursor inside the buffer, because the source panics otherwise; the differ never moves it further. Memory is not modelled: `append` panics at 2^63 bytes (`Overflow`, then `TooLong`) and not before.
- Integers of the differ are unbounded; none of them exceeds four times the length of a file by more than a constant.
- The 16- and 32-bit methods of the codec, which only panic.
- The rest of the repository: request handlers, caches, constants and time formatting over services that are not part of this model.
