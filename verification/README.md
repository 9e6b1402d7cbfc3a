# Model of the data structures and transcoders of the NLS shim

This project models the algorithmic core of a Win32 National Language Support shim over a
subset of ICU, and proves what its documentation promises of it.

* **Edit logs** (`EditSpans`, `EditRecords`, `EditIterator`, `EditMerge`, `EditCuts`, `Edits`,
  `EditExamples`).
  A log of text changes in 16-bit units. Its meaning is a list of spans: unchanged text, or the
  replacement of some units by others. `EditSpans` defines prefix sums, index mappings and
  images on such lists; `EditRecords` the encoding of records in units and the spans they stand
  for, one by one or with adjacent changes merged; `EditIterator` is the iterator that goes both
  ways and searches from any state; `Edits` is the log itself. A merge is specified by two
  things: the unchanged positions of the result are those that both logs leave unchanged, with
  the composed image (`EditMerge`), and the result can be cut in two exactly where both logs
  can, insertions before deletions (`EditCuts`). Together these determine all of its spans.
* **BMP sets** (`InversionLists`, `BitTables`, `UnicodeText`, `BmpSet`). Bit tables over an
  inversion list, lookups, and spans over UTF-16 and UTF-8 text. The definitions that they are
  compared with are plain: parity in the list, code points of UTF-16 text with unpaired
  surrogates, a naive decoder of UTF-8 by the table in section 4 of RFC 3629.
* **Byte tries** (`TrieNodes`, `TrieBytes`, `BytesTrie`, `TrieNextBytes`, `TrieUniqueValue`,
  `TrieEntries`, `TrieIterator`, `TrieWriting`, `TrieFormat`, `TrieSerializing`, `TrieBuilder`,
  `TrieElements`, `TrieOfList`, `TrieBuild`, `TrieExamples`). `TrieNodes` has tries as trees
  that map byte strings to values; `TrieBytes` says what it means that bytes at a position
  encode a tree, and `TrieFormat` says so of compact integers in plain numbers. The walker, the
  queries and the iterator are proved against the tree. The writers are proved to produce bytes
  that encode trees (`TrieSerializing`), and the builder to
  make, of whatever strings were added, bytes that encode the tree that stores just these
  (`TrieOfList`, `TrieBuild`).
* **Code pages** (`Utf`, `CodePages`, `StrictUtf8`, `CodePage`). The UTF-8 and UTF-16 codecs,
  conversions as functions, which input is refused on demand, and the two API functions that
  write into a buffer of limited capacity.
* **Canonical iteration** (`Permutations`, `CanonicalIterator`), **filtered normalization**
  (`FilteredNormalizer`) and **language priority lists** (`AcceptLanguage`,
  `LocalePriorityList`, `AcceptPrinting`). The syntax of a language list is stated
  as a grammar, and every list of fields, with any tags, weights and spaces, is read as just
  that list.

`Common` and `ErrorCodes` hold what these share.

Where the code and its documentation disagree, the model follows the code:

* After `findIndex` the direction of an edit iterator depends on its history, so whether a
  following `next` delivers the span that was found again, or the one after it, does too; the
  contract of `FindIndex` says when, and `EditExamples` has a log with both outcomes.
  `icu/common/unicode/edits.h:240` says that the state before a search does not matter.
* `addReplace` counts a change also when the length difference does not fit and the change is
  rejected.
* Two branches of `mergeAndAppend` that record a pending change are never taken with one: a
  change is pending only within a change of one of the logs.
* `hasUniqueValue` of a trie can be wrong if a branch has more than five edges, and only then:
  `RightIfAndOnlyIfNarrow` says so of tries, and `WrongForWide` finds the bytes.
* `next` of a trie with a whole string never matches bytes from 0x80 on where characters are
  signed; the model has signed characters.
* Whether an iterator can be made of a trie that has stopped depends on where it stopped: within
  a linear-match node of which some bytes were matched, construction fails.
* A string that is too long for the pool of a trie builder leaves an element that is not set.
* Refusing invalid characters does not refuse overlong forms, surrogates, or sequences for
  numbers above U+10FFFF, which become U+FFFD; an overlong U+0000 ends terminated input.
  `StrictUtf8` says for every byte string whether it is accepted.

## Model

| member | source | states |
|---|---|---|
| `EditSpans.HoldsUnique` | icu/common/edits.cpp:654-739 | a text index lies in at most one span of a log, on either side |
| `EditSpans.HoldsIsSpanAt` | icu/common/edits.cpp:654-739 | the span that holds an index is the one a scan from the first span on finds |
| `EditSpans.MapIndexRoundTrip` | icu/common/edits.cpp:741-777 | inside unchanged text the two index mappings are inverse to each other and agree with the correspondence of text units |
| `EditSpans.MapIndexWithin` | icu/common/edits.cpp:741-777 | an index inside a span maps into the range of that span on the other side |
| `EditSpans.MapIndexMonotone` | icu/common/edits.cpp:741-777 | both index mappings are monotone over all indexes, also those outside of the text |
| `EditSpans.MapIndexOfStart` | icu/common/edits.cpp:741-777 | the start of a span maps to its start on the other side |
| `EditSpans.MapIndexInsideChange` | icu/common/unicode/edits.h:282-290 | an index inside a change, behind its start, maps to the end of the change on the other side, for want of a finer correspondence |
| `EditSpans.MapIndexInsideUnchanged` | icu/common/edits.cpp:741-777 | an index in unchanged text keeps its distance from the start of its span |
| `EditSpans.MapIndexEncloses` | icu/common/unicode/edits.h:282-290 | for every interval that meets a change, on either side, the images of its ends enclose the whole change on the other side |
| `EditSpans.ReplacementAt` | icu/common/unicode/edits.h:369-382 | the replacement index of a change is where its text stands in the concatenated replacement texts |
| `EditSpans.ChangesAppend` | icu/common/edits.cpp:142-165 | a change that is appended makes the number of changes one more, unchanged text leaves it |
| `EditSpans.ImageInRange` | icu/common/edits.cpp:741-777 | unchanged text corresponds to positions of the new text |
| `EditRecords.ReadLengthInvertsTrail` | icu/common/edits.cpp:175-208 | every length from 0 to 2^31-1 survives its encoding in a 6-bit field and 0, 1 or 2 trail units |
| `EditRecords.LengthsOf` | icu/common/edits.cpp:406-423 | both lengths of a long record are read back from the units of the log, behind its head unit |
| `EditRecords.UnitsOf` | icu/common/edits.cpp:449-543 | the unit at a record boundary tells the kind and the fields of the record that begins there |
| `EditRecords.CoarseMergesFine` | icu/common/edits.cpp:449-543 | the coarse spans are the fine ones with adjacent changes merged |
| `EditMerge.CoarseDescribes` | icu/common/unicode/edits.h:40-66 | among coarse spans, changes and unchanged text alternate, and they turn the same texts into each other as the fine ones |
| `EditExamples.FoldedCoarsely` | icu/common/unicode/edits.h:50-66 | the documented example: three changes, two of them adjacent and merged |
| `EditRecords.SpansBefore` | icu/common/edits.cpp:449-543 | the spans before a boundary do not depend on what follows it |
| `EditRecords.SumsAtBoundary` | icu/common/edits.cpp:425-439 | the source, destination and replacement indexes at a span boundary are prefix sums of the spans |
| `EditRecords.RunSpan` | icu/common/edits.cpp:462-543 | a run of joined records is exactly one span, with the lengths added |
| `EditRecords.EqualSteps` | icu/common/edits.cpp:670-736 | skipping n changes of a packed record moves the indexes by n times its lengths |
| `EditRecords.ExtendShortSpans` | icu/common/edits.cpp:165-174 | extending a packed record adds one more change of the same lengths |
| `EditRecords.ExtendUnchangedSpans` | icu/common/edits.cpp:121-133 | extending an unchanged record lengthens the last span |
| `EditIterator.StepsBack` | icu/common/edits.cpp:676-701 | skipping back divides by a length that is not zero, and lands on the change that holds the index |
| `EditIterator.StepsOn` | icu/common/edits.cpp:716-733 | skipping forward divides by a length that is not zero, and lands on the change that holds the index |
| `EditIterator.Iterator.Next` | icu/common/edits.cpp:449-543 | delivers the next span of the log (the next change, if only changes are wanted), from every state, and false exactly at the end |
| `EditIterator.Iterator.Previous` | icu/common/edits.cpp:545-652 | delivers the span before, from every state, and false exactly at the start |
| `EditIterator.Iterator.ReadLengthHere` | icu/common/edits.cpp:406-423 | reads a length and leaves the unit index behind its trail units |
| `EditIterator.Iterator.FindIndex` | icu/common/edits.cpp:654-739 | lands on the span that a scan from the start finds, whatever the state before; tells which direction the iterator is left in |
| `EditExamples.FromStart` | icu/common/edits.cpp:654-739 | in a log of three spans, an iterator from the start that has found source index 1 goes on with the span after it |
| `EditExamples.FromEnd` | icu/common/edits.cpp:654-739 | and one from the last span that has found the same index delivers its span again |
| `EditIterator.Iterator.DestinationIndexFromSourceIndex` | icu/common/edits.cpp:741-758 | is the index mapping of the list of spans, independent of the state of the iterator |
| `EditIterator.Iterator.SourceIndexFromDestinationIndex` | icu/common/edits.cpp:760-777 | is the inverse index mapping of the list of spans, independent of the state of the iterator |
| `EditMerge.MergedDescribes` | icu/common/edits.cpp:254-398 | if one log turns text a into b and another b into c, then their composition turns a into c, and the length differences add up |
| `EditMerge.Flush` | icu/common/edits.cpp:330-336 | recording the pending change keeps the images of all positions |
| `EditMerge.RecordUnchanged` | icu/common/edits.cpp:330-342 | recording text that both logs leave unchanged maps it one to one |
| `EditMerge.PendAbChange` | icu/common/edits.cpp:381-392 | a change of the first log is never unchanged all the way |
| `EditMerge.PendBcChange` | icu/common/edits.cpp:343-352 | neither is text that the second log changes |
| `EditMerge.SpansNormal` | icu/common/edits.cpp:114-140 | a log keeps unchanged text in maximal pieces |
| `EditMerge.PushAllCopies` | icu/common/edits.cpp:254-398 | appending all spans of a log to an empty log copies it |
| `EditCuts.CutsInsertion` | icu/common/edits.cpp:275-298 | an insertion of the second log outside of changes of the first one is recorded on its own, before deletions at the same position; nothing is pending then |
| `EditCuts.CutsDeletion` | icu/common/edits.cpp:301-315 | a deletion of the first log outside of changes of the second one is recorded on its own, after insertions at the same position |
| `EditCuts.CutsAccumulate` | icu/common/edits.cpp:381-392 | a change is accumulated only up to positions where one of the logs cannot be cut |
| `EditCuts.CutsChange` | icu/common/edits.cpp:343-380 | a change is recorded exactly up to the next position where both logs can be cut |
| `EditCuts.CutsUnchanged` | icu/common/edits.cpp:330-342 | unchanged text allows for cuts at each of its positions |
| `EditCuts.CutsAtEnd` | icu/common/edits.cpp:393-398 | in the end the joint cuts of both logs are exactly the cuts of the result |
| `EditCuts.AlikeIsEqual` | icu/common/edits.cpp:254-398 | two logs with the same unchanged positions and the same cuts have the same spans |
| `EditCuts.MergeIsDetermined` | icu/common/edits.cpp:254-398 | what is proved of a merge into an empty log determines every span of the result |
| `EditCuts.InsertionBeforeDeletion` | icu/common/edits.cpp:275-315 | m units deleted by the first log and n inserted there by the second one: the result is the insertion, and then the deletion, not one replacement |
| `Edits.Edits.Reset` | icu/common/edits.cpp:109-112 | empties the log and its counters |
| `Edits.Edits.GrowArray` | icu/common/edits.cpp:216-245 | keeps the log when the array grows, or fails at the maximum size |
| `Edits.Edits.AddUnchanged` | icu/common/edits.cpp:114-140 | appends unchanged text, merged with unchanged text before it, for any length; rejects negative lengths |
| `Edits.Edits.AddReplace` | icu/common/edits.cpp:142-208 | appends one replacement, counts it, and adds the length difference; rejects negative lengths, and differences that do not fit |
| `Edits.Edits.HasChanges` | icu/common/unicode/edits.h:177-177 | without an error, whatever was recorded or merged, tells whether some span of the log is a change |
| `Edits.Edits.NumberOfChanges` | icu/common/unicode/edits.h:183-183 | without an error, is the number of spans that are changes |
| `Edits.Edits.LengthDelta` | icu/common/unicode/edits.h:172-172 | without an error, is the length of the new text minus that of the old one |
| `Edits.Edits.GetCoarseIterator` | icu/common/edits.cpp:400-404 | iterates over the spans with adjacent changes merged |
| `Edits.Edits.GetFineIterator` | icu/common/edits.cpp:400-404 | iterates over the recorded spans one by one |
| `Edits.Edits.MergeEnd` | icu/common/edits.cpp:393-398 | when both logs have come to their ends, their lengths in the middle agree and no change is pending, so the last branch records nothing |
| `Edits.Edits.NothingPending` | icu/common/edits.cpp:330-336 | no change is pending where both logs go on with unchanged text, so the first branch records nothing |
| `Edits.Edits.MergeAndAppend` | icu/common/edits.cpp:254-398 | appends the composition of two logs: same images, same cuts, lengths added, identity logs neutral, and the changes of the result counted; reports the mismatch exactly if the lengths in the middle differ |
| `InversionLists.RankIs` | icu/common/bmpset.cpp:257-283 | the position between two entries of an inversion list is the rank of the code point |
| `InversionLists.RangeMembers` | icu/common/bmpset.cpp:121-222 | a pair of entries delimits a range of members |
| `BitTables.PairValue` | icu/common/bmpset.cpp:285-320 | two bits of a word, shifted down, are 0, 1 or the mark of a mixed block |
| `BitTables.Set32x64Bits` | icu/common/bmpset.cpp:70-119 | sets exactly the bits of a range in a vertical 32 by 64 table |
| `BmpSets.BMPSet.constructor` | icu/common/bmpset.cpp:29-52 | never indexes outside of the list, and sets up tables that agree with it |
| `BmpSets.BMPSet.InitStarts` | icu/common/bmpset.cpp:33-46 | the 4k starts are the positions of their code points in the list |
| `BmpSets.BMPSet.InitLatin1` | icu/common/bmpset.cpp:121-150 | the Latin-1 table is membership |
| `BmpSets.BMPSet.InitBits` | icu/common/bmpset.cpp:121-222 | the tables below U+0800 and the block tables agree with the list: all, none or mixed |
| `BmpSets.BMPSet.OverrideIllegal` | icu/common/bmpset.cpp:229-255 | the entries for ill-formed byte sequences hold the membership of U+FFFD |
| `BmpSets.BMPSet.FindCodePoint` | icu/common/bmpset.cpp:257-283 | binary search between two positions finds the rank of a code point |
| `BmpSets.BMPSet.Contains` | icu/common/bmpset.cpp:285-320 | is membership in the inversion list, for every integer |
| `BmpSets.BMPSet.Span` | icu/common/bmpset.cpp:322-409 | ends the longest prefix whose code points all satisfy the condition, unpaired surrogates being code points |
| `BmpSets.BMPSet.SpanBack` | icu/common/bmpset.cpp:411-503 | begins the longest suffix whose code points all satisfy the condition |
| `BmpSets.BMPSet.Trim` | icu/common/bmpset.cpp:535-577 | the text before the limit can be decoded without looking beyond its end, and the limit loses nothing that a naive decoder accepts |
| `BmpSets.BMPSet.DecodeNonAscii` | icu/common/bmpset.cpp:605-660 | each step goes on or stops like a naive decoder that takes every byte of an ill-formed sequence for U+FFFD |
| `BmpSets.BMPSet.SpanUTF8` | icu/common/bmpset.cpp:509-665 | returns the same boundary as the naive decoder, for every byte string |
| `UnicodeText.SegmentationsCoincide` | icu/common/bmpset.cpp:322-503 | forward and backward segmentation of UTF-16 text visit the same boundaries |
| `UnicodeText.SpansUnique` | icu/common/bmpset.cpp:322-503 | there is only one longest prefix and one longest suffix |
| `UnicodeText.PairsInOrder` | icu/common/unicode/utf16.h:112-113 | the surrogate pairs in their order are the code points from U+10000 on, each pair followed by that of the next code point |
| `UnicodeText.PairOfCodePoint` | icu/common/unicode/utf16.h:112-113 | each code point beyond U+FFFF is that of exactly one pair |
| `UnicodeText.IllFormedRun` | icu/common/bmpset.cpp:509-665 | bytes that are part of no well-formed sequence count as U+FFFD each |
| `Utf.SpanOfScalars` | icu/common/bmpset.cpp:509-665 | in the UTF-8 text of any list of scalar values, the naive decoder stops exactly where the first one begins that does not satisfy the condition |
| `UnicodeText.TrimmedReads` | icu/common/bmpset.cpp:535-577 | no sequence before a trimmed limit is read beyond the end of the text |
| `TrieNodes.StepSubIsLookUp` | icu/common/bytestrie.cpp:80-148 | binary search and linear tail of a branch agree with a search among all edges |
| `TrieNodes.StepIsLookUp` | icu/common/bytestrie.cpp:182-206 | one step leaves exactly the strings that begin with the byte |
| `TrieNodes.WalkIsLookUp` | icu/common/bytestrie.cpp:182-206 | after a prefix, what remains is what follows it in the trie |
| `TrieNodes.ReportIsRight` | icu/common/bytestrie.cpp:68-77 | the four results tell apart whether the string so far is a key and whether it is a proper prefix of one |
| `TrieNodes.WalkReports` | icu/common/bytestrie.cpp:80-206 | fed one byte at a time: no match iff no key has that prefix, a final value iff it is a key without longer ones, an intermediate value iff it is a key and a proper prefix of another, no value otherwise |
| `BytesTries.BytesTrie.BranchNext` | icu/common/bytestrie.cpp:80-148 | follows the edge of a byte, or stops |
| `BytesTries.BytesTrie.NextImpl` | icu/common/bytestrie.cpp:150-180 | one step from a node |
| `BytesTries.BytesTrie.Next` | icu/common/bytestrie.cpp:182-206 | one step of the walk, with its report, for every integer: negative ones count from 0x100 down, and what is no byte then matches nothing; tells whether the walk stops within a linear-match node |
| `BytesTries.BytesTrie.NextString` | icu/common/bytestrie.cpp:208-313 | ends in the state and with the result of walking the string, counted or terminated; bytes from 0x80 on never match; tells whether the walk stops within the linear-match node where it started |
| `BytesTries.BytesTrie.GetValue` | icu/common/unicode/bytestrie.h:246-251 | the value of the string so far |
| `BytesTries.BytesTrie.Current` | icu/common/bytestrie.cpp:68-77 | the report of the current state |
| `BytesTries.WalkCharsAgrees` | icu/common/bytestrie.cpp:182-313 | feeding a string at once agrees with feeding it byte by byte if and only if it is ASCII or does not match anyway |
| `BytesTries.WalkCharsAlwaysAgrees` | icu/common/bytestrie.cpp:182-313 | from every state of every trie the two agree if and only if the string is ASCII |
| `TrieExamples.CharsAreNotBytes` | icu/common/bytestrie.cpp:182-313 | the bytes 10 80 21: the string 80 has a value byte by byte, and no match at once |
| `TrieEntries.EntriesAreDue` | icu/common/bytestrieiterator.cpp:101-170 | the entries are the keys with their values; a limit cuts off longer keys and delivers each prefix once |
| `TrieEntries.EntriesAscend` | icu/common/bytestrieiterator.cpp:101-170 | the entries are in strictly ascending byte order |
| `TrieEntries.AscendingDistinct` | icu/common/bytestrieiterator.cpp:101-170 | so each string is delivered once |
| `TrieEntries.Contents` | icu/common/bytestrieiterator.cpp:101-170 | both of these, from every state of a trie, with and without a limit |
| `TrieIterators.Iterator.constructor` | icu/common/bytestrieiterator.cpp:25-45 | is going to deliver all entries of a trie |
| `TrieIterators.Iterator.FromTrie` | icu/common/bytestrieiterator.cpp:47-76 | is going to deliver all entries from the current state; fails exactly if the walk stopped within a linear-match node of which some bytes were matched before |
| `TrieExamples.StoppedTriesDiffer` | icu/common/bytestrieiterator.cpp:47-76 | the bytes 11 01 02 21: making an iterator fails after the bytes 01 03, and does not after the byte 03 |
| `TrieIterators.Iterator.Reset` | icu/common/bytestrieiterator.cpp:83-97 | is going to deliver the same entries again, from any state |
| `TrieIterators.Iterator.HasNext` | icu/common/bytestrieiterator.cpp:99-99 | tells whether entries are left |
| `TrieIterators.Iterator.Next` | icu/common/bytestrieiterator.cpp:101-170 | delivers the next entry and leaves the others; the stack describes exactly the subtrees that are not yet visited |
| `TrieIterators.Iterator.BranchNext` | icu/common/bytestrieiterator.cpp:184-212 | takes the first edge of a branch and saves the others |
| `TrieIterators.LimitFits` | icu/common/bytestrieiterator.cpp:184-212 | with a limit of up to 0x10000 bytes all string lengths fit into the lower 16 bits of a stack entry |
| `TrieIterators.ShortKeysFit` | icu/common/bytestrieiterator.cpp:184-212 | without a limit they do if no key is longer than that |
| `TrieNextBytes.GetNextBytes` | icu/common/bytestrie.cpp:387-433 | collects the bytes that may follow and returns how many there are |
| `TrieNextBytes.NextBytesAreSteps` | icu/common/unicode/bytestrie.h:270-277 | these are, in ascending order, exactly the bytes with which a step does not stop |
| `TrieUniqueValue.FindUniqueValue` | icu/common/bytestrie.cpp:352-385 | is the modelled search, with the unique value passed in and out |
| `TrieUniqueValue.FindUniqueValueFromBranch` | icu/common/bytestrie.cpp:315-350 | passes over the last edge of each less-than half, and forgets a value that it finds first there |
| `TrieUniqueValue.HasUniqueValue` | icu/common/unicode/bytestrie.h:253-266 | searches from behind the rest of a linear-match node |
| `TrieUniqueValue.NegativeIsRight` | icu/common/unicode/bytestrie.h:253-266 | if the search finds different values, then there are different values |
| `TrieUniqueValue.RightIfAndOnlyIfNarrow` | icu/common/unicode/bytestrie.h:253-266 | the documented answer is given for all values of a trie of a shape if and only if no branch has more than five edges |
| `TrieBytes.EncodedIsLaid` | icu/common/bytestrie.cpp:315-350 | serialized branches are halved down to lists of up to five edges, as the previous row needs |
| `TrieExamples.WrongForWide` | icu/common/unicode/bytestrie.h:253-266 | for every shape with a wider branch there are bytes for which the answer is wrong: those of a trie of that shape with two values |
| `TrieExamples.TwoValuesAreCalledUnique` | icu/common/unicode/bytestrie.h:253-266 | one such case: the bytes 05 03 06 03 21 04 21 05 21 00 21 01 21 02 23 are said to have the unique value 0, and the string 02 has the value 1 |
| `TrieWriting.ValueRoundTrip` | icu/common/bytestriebuilder.cpp:427-460 | every 32-bit value, final or not, is read back, and the reader ends after it |
| `TrieWriting.DeltaRoundTrip` | icu/common/bytestriebuilder.cpp:471-510 | every non-negative 32-bit delta is read back |
| `TrieFormat.ValueIsRead` | icu/common/bytestrie.cpp:32-46 | in plain numbers: what the bytes of a value stand for and how many they are, for each lead byte |
| `TrieFormat.DeltaIsRead` | icu/common/bytestrie.cpp:49-66 | in plain numbers: where a delta leads, for each lead byte |
| `TrieFormat.NodeIsRead` | icu/common/unicode/bytestrie.h:500-517 | in plain numbers: the kind of a node, and its number of edges or its matched bytes, for each lead byte |
| `TrieFormat.ValueIsShortest` | icu/common/bytestriebuilder.cpp:428-460 | a value is written with 1 byte up to 0x40, 2 up to 0x1aff, 3 up to 0x11ffff, 4 up to 0xffffff, else 5, and no fewer bytes are read as it |
| `TrieFormat.DeltaIsShortest` | icu/common/bytestriebuilder.cpp:484-509 | a delta is written with 1 byte up to 0xbf, 2 up to 0x2fff, 3 up to 0xdffff, 4 up to 0xffffff, else 5, and no fewer bytes are read as it |
| `TrieFormat.LeadsRise` | icu/common/bytestriebuilder.cpp:428-460 | the lead byte of a value rises with it |
| `TrieFormat.DeltaLeadsRise` | icu/common/bytestriebuilder.cpp:484-509 | and so does that of a delta |
| `TrieWriting.DeltaLands` | icu/common/bytestriebuilder.cpp:471-481 | a delta leads to the place counted from the end, whatever is written before it |
| `TrieWriting.EncodesWithin` | icu/common/bytestriebuilder.cpp:375-420 | a node stays encoded when something is written before it |
| `TrieWriting.JumpEdgeBefore` | icu/common/bytestriebuilder.cpp:427-460 | a value that is not final, written between a key and the other edges, is a jump to a node written earlier |
| `TrieWriting.SplitBefore` | icu/common/bytestriebuilder.cpp:471-481 | a comparison byte and a delta before the greater-or-equal edges make a binary search |
| `TrieBuilders.BytesTrieBuilder.EnsureCapacity` | icu/common/bytestriebuilder.cpp:375-400 | the buffer grows, and what is written stays at its end |
| `TrieBuilders.BytesTrieBuilder.Write` | icu/common/bytestriebuilder.cpp:402-410 | writes one byte before all others |
| `TrieBuilders.BytesTrieBuilder.WriteBytes` | icu/common/bytestriebuilder.cpp:412-420 | writes bytes before all others |
| `TrieBuilders.BytesTrieBuilder.WriteValueAndFinal` | icu/common/bytestriebuilder.cpp:427-460 | makes a final-value node, or a value node of the node before which it is written |
| `TrieBuilders.BytesTrieBuilder.WriteDeltaTo` | icu/common/bytestriebuilder.cpp:471-481 | writes a jump that lands its target's distance from the end, whatever is prepended later |
| `TrieBuilders.BytesTrieBuilder.InternalEncodeDelta` | icu/common/bytestriebuilder.cpp:483-510 | the bytes of a delta |
| `TrieBuilders.BytesTrieBuilder.WriteLinearMatch` | icu/common/bytestriebuilder.cpp:358-364 | makes a linear-match node that leads to the node before which it is written |
| `TrieElements.Element.GetString` | icu/common/bytestriebuilder.cpp:42-53 | reads a string from the pool, with a length of 1 or 2 bytes |
| `TrieElements.StoresMore` | icu/common/bytestriebuilder.cpp:90-111 | a string stays in the pool when others are added |
| `TrieElements.Elements.Add` | icu/common/bytestriebuilder.cpp:147-178 | adds a string and keeps all others; fails after building, or for more than 0xffff bytes, which leaves an element that is not set |
| `TrieElements.Elements.SetTo` | icu/common/bytestriebuilder.cpp:90-111 | puts a string into the pool, where it can be read back |
| `TrieElements.CompareIsOrder` | icu/common/bytestriebuilder.cpp:113-127 | the comparison of strings is the byte order in which a trie is iterated |
| `TrieElements.SortElements` | icu/common/bytestriebuilder.cpp:232-235 | orders the elements by their strings and keeps all of them |
| `TrieElements.FindDuplicate` | icu/common/bytestriebuilder.cpp:240-248 | comparing neighbors finds out whether a string was added twice |
| `TrieSerializing.SerializeRoundTrip` | icu/common/stringtriebuilder.cpp:84-202 | a trie has bytes that encode it if and only if its values are 32-bit integers and its branches are halved as the reader expects; what the builder writes for it are such bytes |
| `TrieSerializing.EncodesOnce` | icu/common/unicode/bytestrie.h:463-510 | bytes at a position encode one trie only |
| `TrieOfLists.TreeOfList` | icu/common/stringtriebuilder.cpp:84-202 | the nodes that the builder chooses for a sorted list store all strings of the list with their values and nothing else, and the bytes encode them |
| `TrieOfLists.SkipSplits` | icu/common/bytestriebuilder.cpp:306-329 | skipping n of the units of a range leaves two ranges whose numbers of units add up, and which share no unit |
| `TrieBuilding.StringTrieBuilder.GetLimitOfLinearMatch` | icu/common/bytestriebuilder.cpp:295-304 | finds where the first and the last string of a range differ next, without reading beyond the end of either |
| `TrieBuilding.StringTrieBuilder.CountElementUnits` | icu/common/bytestriebuilder.cpp:306-318 | counts the different bytes with which a range goes on |
| `TrieBuilding.StringTrieBuilder.SkipElementsBySomeUnits` | icu/common/bytestriebuilder.cpp:320-329 | skips some of them, and never leaves the range though it does not check its limit |
| `TrieBuilding.StringTrieBuilder.WriteNode` | icu/common/stringtriebuilder.cpp:83-130 | writes the node for a range of strings: a value, linear-match nodes in chunks of 16 from their end, or a branch |
| `TrieBuilding.StringTrieBuilder.WriteBranchSubNode` | icu/common/stringtriebuilder.cpp:132-202 | writes the edges of a branch: the less-than halves, a list, and then the comparison bytes with jumps |
| `TrieBuilding.StringTrieBuilder.WriteEdgeList` | icu/common/stringtriebuilder.cpp:153-194 | writes up to five edges: the nodes to jump to in reverse order, the last node, and the pairs of a byte and a value |
| `TrieBuilding.Builder.Add` | icu/common/bytestriebuilder.cpp:147-178 | adds a string, unless the trie is built already |
| `TrieBuilding.Builder.BuildBytes` | icu/common/bytestriebuilder.cpp:218-270 | fails exactly if nothing was added or a string was added twice; otherwise the bytes encode a trie that maps exactly the added strings to their values |
| `TrieBuilding.BuiltIsFound` | icu/common/bytestriebuilder.cpp:192-206 | walking a built trie finds the value of each added string, and no match exactly where no added string goes on |
| `Utf.DecodeUtf8` | src/Utf.h:17-62 | the scalar at a position of UTF-8 text and where the next one begins, U+FFFD for malformed input |
| `Utf.DecodeUtf16` | src/Utf.h:94-111 | the code point at a position, unpaired surrogates being code points |
| `Utf.Utf16Form` | src/Utf.h:66-91 | the UTF-16 form of every number is read back wherever it stands, U+FFFD for numbers beyond; only a lead surrogate is not, exactly before a trail surrogate |
| `Utf.Utf8RoundTrip` | src/Utf.h:115-151 | every scalar is read back from its UTF-8 form, surrogates included, whatever is around it |
| `Utf.Utf8KeepsOrder` | src/Utf.h:115-151 | two numbers compare like the first byte in which their UTF-8 forms differ, and there is one |
| `Utf.IncompleteEnds` | src/Utf.h:17-62 | malformed input is replaced up to the byte that is no tail byte, which is read on its own |
| `Utf.Utf16RoundTrip` | src/Utf.h:66-111 | every code point of UTF-16 text is written back as it was |
| `Utf.WellFormedIsShortest` | src/Utf.h:17-62 | a well-formed sequence of section 4 of RFC 3629 is the shortest form of its code point |
| `Utf.ShortestIsWellFormed` | src/Utf.h:17-62 | and shortest forms that are no surrogates are the well-formed sequences |
| `CodePages.Load` | src/CodePageTable.cpp:12-42 | each unit belongs to the first byte that claims it |
| `CodePages.WideRoundTrip` | src/CodePage.cpp:92-274 | UTF-16 to UTF-8 and back is the identity on all sequences of units, with or without refusing invalid characters |
| `CodePages.BytesRoundTrip` | src/CodePage.cpp:92-274 | UTF-8 to UTF-16 and back is the identity exactly on shortest forms without split surrogate pairs, which includes section 4 of RFC 3629 |
| `CodePages.ConvertedIsGeneralized` | src/CodePage.cpp:212-274 | all that is converted from UTF-16 consists of such forms |
| `CodePages.AnsiRoundTrip` | src/CodePage.cpp:92-274 | windows-1252 to UTF-16 and back is the identity if and only if the table is injective |
| `CodePages.SizingContract` | src/CodePage.cpp:125-142 | a capacity of at least the size that was asked for succeeds with that size, a smaller one fails for lack of room |
| `CodePages.WideSize` | src/CodePage.cpp:92-142 | never more units than bytes |
| `CodePages.BytesSize` | src/CodePage.cpp:212-274 | never more bytes than three times the units |
| `CodePages.TerminatedIsWhole` | src/CodePage.cpp:99-141 | terminated input is converted like as many bytes with a count if and only if nothing before its end is taken for U+0000, such as C0 80, and the byte 0 is U+0000; in every code page, refusing invalid characters or not |
| `CodePages.ShortestHasNoNul` | src/CodePage.cpp:99-141 | shortest forms are never taken for an earlier U+0000 |
| `CodePages.AnsiHasNoNul` | src/CodePage.cpp:99-141 | neither are single bytes, if only the byte 0 is U+0000 |
| `CodePages.TerminatedUnits` | src/CodePage.cpp:99-141 | what is made of terminated bytes ends with its only unit 0 |
| `CodePages.TerminatedBytesAreWhole` | src/CodePage.cpp:207-272 | terminated units are converted like as many units with a count |
| `CodePages.TerminatedBytes` | src/CodePage.cpp:207-272 | and what is made of them ends with its only byte 0 |
| `CodePages.WrittenAsItsByte` | src/CodePageTable.cpp:30-36 | a unit has a byte if and only if some byte stands for it, and is written as the lowest one |
| `CodePages.DefaultOrRefused` | src/CodePage.cpp:229-244 | the default byte is used exactly if the same call would be refused on demand, and does not matter otherwise |
| `StrictUtf8.RefusedSequences` | src/CodePage.cpp:107-119 | exactly the incomplete sequences are refused on demand, and forms of U+FFFD other than EF BF BD |
| `StrictUtf8.WellFormedSequences` | src/Utf.h:17-62 | the sequences of section 4 of RFC 3629 are the complete ones that are neither too long for their value, nor surrogates, nor too large |
| `StrictUtf8.StrictAccepts` | src/CodePage.cpp:107-119 | for every byte string: refusing invalid characters accepts it if and only if all sequences are complete, and agrees with section 4 of RFC 3629 if and only if no accepted one is forbidden there |
| `StrictUtf8.ForbiddenIsAccepted` | src/CodePage.cpp:107-119 | C0 80, ED A0 80 and F4 90 80 80 are converted without an error |
| `CodePageConversion.CountInput` | src/CodePage.cpp:73-90 | without a count, all elements up to the first 0 count, and that one |
| `CodePageConversion.TerminatorCounts` | src/CodePage.cpp:73-90 | the same of the number of elements that the conversions are defined with |
| `CodePageConversion.WideUpToTerminator` | src/CodePage.cpp:73-141 | a call without a count converts like one with the count up to and including the terminator, exactly if nothing before that is taken for U+0000; the result ends with its only unit 0 |
| `CodePageConversion.BytesUpToTerminator` | src/CodePage.cpp:188-272 | a call without a count converts like one with the count up to and including the terminator; the result is not empty and ends with its only byte 0 |
| `CodePageConversion.WrittenWithoutByte` | src/CodePage.cpp:210-244 | a unit without a byte is written as the byte that is passed, or as a question mark if that is 0 or missing |
| `CodePageConversion.MultiByteToWideChar` | src/CodePage.cpp:36-143 | the count, the error and the units that are written are those of the conversion; nothing is written at or beyond the capacity; without a count, at least 1 is returned, and what is written ends with its only unit 0 |
| `CodePageConversion.WideCharToMultiByte` | src/CodePage.cpp:145-275 | the same for bytes; the default character is reported exactly if it was needed |
| `Permutations.Permute` | icu/common/caniter.cpp:266-347 | adds the permutations to the result; from depth 0 fails exactly for more than nine code points |
| `Permutations.PermutedAreReorderings` | icu/common/caniter.cpp:266-347 | these are exactly the reorderings in which, with skipZeros, every character of combining class 0 still follows all that preceded it |
| `Permutations.PermutedAreAll` | icu/common/caniter.cpp:266-347 | without skipZeros these are all rearrangements of the characters |
| `CanonicalIterators.NumberOfDigits` | icu/common/caniter.cpp:133-163 | every number below the product of the piece counts is that of a combination |
| `CanonicalIterators.DigitsOfNumber` | icu/common/caniter.cpp:133-163 | and of no other one |
| `CanonicalIterators.NumbersAreLexicographic` | icu/common/caniter.cpp:133-163 | combinations are numbered in lexicographic order |
| `CanonicalIterators.CombinedJoins` | icu/common/caniter.cpp:144-149 | a combination has the chosen pieces in their order, each where those before it end, and nothing else |
| `CanonicalIterators.JoinsOnce` | icu/common/caniter.cpp:144-149 | there is only one such string |
| `CanonicalIterators.CanonicalIterator.EveryChoice` | icu/common/caniter.cpp:133-163 | each choice of pieces has a number, and the combination with that number joins just them |
| `CanonicalIterators.CanonicalIterator.Reset` | icu/common/caniter.cpp:122-127 | starts again with the first combination |
| `CanonicalIterators.CanonicalIterator.Next` | icu/common/caniter.cpp:133-163 | the n-th call returns the n-th combination, which joins the current choice of pieces in their order; after the last one it stays done |
| `FilteredNormalizers.FilteredConcat` | icu/common/filterednormalizer2.cpp:59-88 | texts that no run of filtered characters connects are normalized separately |
| `FilteredNormalizers.NormalizedIsKept` | icu/common/filterednormalizer2.cpp:223-245 | if each run is normalized, then nothing changes |
| `FilteredNormalizers.FilteredAppend` | icu/common/filterednormalizer2.cpp:150-201 | the end of the first text and the start of the second one make up one run |
| `FilteredNormalizers.FilteredNormalizer2.NormalizeFrom` | icu/common/filterednormalizer2.cpp:59-88 | appends the text with each longest run normalized, whichever span condition is tried first |
| `FilteredNormalizers.FilteredNormalizer2.AppendSecond` | icu/common/filterednormalizer2.cpp:150-201 | is the normalized whole, if the first text is normalized and the second one is or becomes so |
| `FilteredNormalizers.FilteredNormalizer2.IsNormalized` | icu/common/filterednormalizer2.cpp:223-245 | each run is normalized, and then normalizing changes nothing |
| `FilteredNormalizers.FilteredNormalizer2.QuickCheck` | icu/common/filterednormalizer2.cpp:272-297 | no if some run fails, maybe if some run is undecided, otherwise yes |
| `FilteredNormalizers.FilteredNormalizer2.CheckOfRun` | icu/common/filterednormalizer2.cpp:272-297 | a text of one run is checked by the base normalizer, and a text outside of the set passes |
| `FilteredNormalizers.FilteredNormalizer2.CheckOfBoth` | icu/common/filterednormalizer2.cpp:272-297 | two texts that no run connects are checked separately, and the worse result counts |
| `FilteredNormalizers.FilteredNormalizer2.CheckDecides` | icu/common/filterednormalizer2.cpp:272-297 | if the base normalizer decides rightly, then yes means that normalizing changes nothing, and no means that some run is not normalized |
| `FilteredNormalizers.FilteredNormalizer2.SpanQuickCheckYes` | icu/common/filterednormalizer2.cpp:299-323 | ends where the base normalizer stops in the first run that does not pass as a whole; all runs up to there pass, and the whole text is passed exactly if each run is |
| `AcceptLanguage.RoundedOnce` | icu/common/localeprioritylist.cpp:75-94 | a quality value has one rounded weight |
| `AcceptLanguage.FurtherDigit` | icu/common/localeprioritylist.cpp:83-92 | digits after the fourth fraction digit do not change it |
| `AcceptLanguage.MentionIsRead` | icu/common/localeprioritylist.cpp:122-152 | reading a field from its start finds the parts that its grammar describes |
| `AcceptLanguage.MentionOnce` | icu/common/localeprioritylist.cpp:122-152 | a field mentions one locale with one weight |
| `AcceptPrinting.DigitsInOrder` | icu/common/localeprioritylist.cpp:75-94 | the ten digits have the values 0 to 9 |
| `AcceptPrinting.DecimalIsWeight` | icu/common/localeprioritylist.cpp:75-94 | every decimal number from 0 to 1, with any number of digits, is read as its thousandths, rounded half up, and as no other weight |
| `AcceptPrinting.FieldIsWritten` | icu/common/localeprioritylist.cpp:122-152 | every tag with every weight, and any spaces between the parts, is read as a mention with just that weight |
| `AcceptPrinting.WrittenIsRead` | icu/common/localeprioritylist.cpp:113-158 | every list of fields, written with commas between them, is read as what the fields mention, in their order |
| `AcceptPrinting.TwoWeights` | icu/common/localeprioritylist.cpp:113-158 | "en;q=0.8,de;q=0.3", for example |
| `LocalePriorityLists.NextDigit` | icu/common/localeprioritylist.cpp:82-92 | one more digit keeps the weight rounded |
| `LocalePriorityLists.ParseWeight` | icu/common/localeprioritylist.cpp:75-94 | the weight is floor(1000 q + 1/2), for any number of fraction digits; rejected above 1000 |
| `LocalePriorityLists.ParseMention` | icu/common/localeprioritylist.cpp:127-149 | accepts exactly the well-formed fields |
| `LocalePriorityLists.LocalePriorityList.Add` | icu/common/localeprioritylist.cpp:182-230 | replaces an earlier item of the same locale; the count of the map stays the length of the list without removed items |
| `LocalePriorityLists.AppendedIsConsistent` | icu/common/localeprioritylist.cpp:194-228 | the items that are left come from the last mentions of their locales |
| `LocalePriorityLists.RemovedIsConsistent` | icu/common/localeprioritylist.cpp:203-209 | a mention of weight 0 removes the item |
| `LocalePriorityLists.LocalePriorityList.Sort` | icu/common/localeprioritylist.cpp:232-238 | by descending weight and then by index, with the same items |
| `LocalePriorityLists.LocalePriorityList.Build` | icu/common/localeprioritylist.cpp:113-158 | fails exactly if a field is not well-formed; otherwise lists the locales that are last mentioned with a weight above 0, by descending weight and then by last mention |
| `LocalePriorityLists.ListedOnce` | icu/common/localeprioritylist.cpp:182-230 | such a list has each locale at most once, with the weight of its last mention |
| `LocalePriorityLists.ListedIfWanted` | icu/common/localeprioritylist.cpp:203-209 | and has a locale exactly if its last mention is not of weight 0 |
| `LocalePriorityLists.Iterator.Next` | icu/common/localeprioritylist.h:63-71 | delivers the next locale that is left |
| `LocalePriorityLists.Iterator.HasNext` | icu/common/localeprioritylist.h:61-61 | tells whether locales are left |

## Left out

- Texts, lists and buffers whose lengths do not fit into 32 bits: sums of lengths are assumed to fit where the code adds them without a check.
- Failing memory allocation, copying, moving and destruction of objects, reference counting, mutexes and static initialization.
- `Edits::Iterator` works on a snapshot of the units of its log; an iterator over a log that is changed meanwhile is not modelled.
- Edits.Edits.MergeAndAppend: when the log cannot be extended any more in the middle of a merge, only the error is stated, not which part was appended.
- Copies of a `BMPSet`, and `spanBackUTF8`, which needs a decoder that is not part of this model.
- TrieBuilding.Builder.BuildBytes: the fast option only; the small option, which shares equal nodes through a hash table and places them anew, is not modelled. The buffer is a new one for each build; handing it over to a trie is not modelled. An element that is not set, after a string that was too long, must not be built from: the source would read an offset that was never set.
- TrieBuilding.StringTrieBuilder.WriteNode: the elements are a snapshot of the sorted array, which the source does not change while it writes; lengths and offsets are not wrapped at 32 bits.
- `getState64`, `resetToState64`, `saveState` and `resetToState` of a trie.
- TrieIterators.Iterator.constructor: branches must not be deeper than 0xffff bytes below the limit, because a stack entry has 16 bits for a string length; a trie builder accepts no longer strings.
- The contents of the windows-1252 table: a table is any one that can be loaded, and what needs it to be injective, or without surrogates, says so.
- A null pointer for the output of a sizing query is an output that is not written to.
- Locales, and which tags are not valid for them, are a function that makes a locale of a tag; the hash table of locales is a map.
- TrieElements.SortElements: `uprv_sortArray` is not part of this model; an insertion sort with the same comparison stands for it, here and for language priority lists.
- FilteredNormalizers.FilteredNormalizer2.AppendSecond: the base normalizer is any that keeps the laws of `Normalizer.Lawful` and does not fail; texts are sequences of code points, so no surrogate pair comes about where two texts meet; sets contain no strings.
- `normalizeUTF8`, `isNormalizedUTF8` and the single-character queries of `FilteredNormalizer2`: the same alternation of spans over bytes, and single expressions.
- Permutations.Permute: source strings are sequences of code points; an unpaired surrogate that becomes part of a pair when a character between is removed is not modelled.
- `getEquivalents`, `getEquivalents2`, `extract` and the segmentation of `CanonicalIterator`: they depend on normalization data; the pieces are given.
- Aliasing checks of functions that take a source and a destination string.
- Data loading, collation, case mapping, date formatting and locale resource data.
