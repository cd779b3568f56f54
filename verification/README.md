# Material Open WebUI: verified models of its self-contained cores

Material Open WebUI is a desktop rewrite of Open WebUI. Several parts of its code
carry algorithms that stand on their own, and this project models them in Dafny and
proves what they are for. One module models one component, and the proofs about
whole runs stand in a module of their own.

- **QR symbols** (`Bitwise`, `Gf256`, `ReedSolomon`, `Codewords`, `QrTables`,
  `QrFraming`, `QrBlocks`, `QrWalk`, `QrMatrix`, `QrPlacement`, `QrMasks`, `QrFormat`,
  `QrPenalty`, `QrCapacity`, `QrCode`, `QrDecode`, `QrPatterns`,
  `QrPictures`, `QrStandard`, `QrRoundTrip`):
  arithmetic in GF(256), the Reed-Solomon shift register, framing, interleaving,
  placement, masking, format information and mask choice, and the decoder that
  undoes them, for versions 1 to 10 and all eight masks.
- **Append-only history** (`Text`, `Canonical`, `History`, `HistoryRuns`,
  `HistoryLabels`, `HistoryDates`): canonical content, redaction, the hash chain, restoring,
  labelling, verifying and pruning, over every run.
- **Scheduled settings** (`Calendar`, `Schedule`, `Precedence`, `Validation`):
  windows that cross midnight, the calendar under them, and which rule sets what.
- **Model catalogue** (`Catalog`, `Ndjson`): the crawl over an arbitrary link graph,
  and the line parser of streamed answers.
- **Task registry** (`Tasks`, `LocalTasks`): a Redis hash and item sets updated by
  several processes in atomic steps, and the dictionaries of one process.
- **Toy locks** (`Locks`, `LockRuns`): attempts and waits, openings, and the ladder's
  rolling hour.
- **Codecs** (`Base32`, `Csv`, `Jpeg`): Base32 over an overflowing accumulator, CSV
  writing and reading, and the walk over JPEG segments.

Components whose code updates objects or buffers in place are classes and methods
with loops, proved equal to specification functions; the laws are lemmas about
those functions. Digests, clocks, time zones, upper-casing, trimming, JSON parsing
and the network are parameters, so that what is proved holds for whichever is used.
`dafny verify dfyconfig.toml` checks the whole project.

## What the proofs found

- `rsEncode` reads the list of `rsGenerator` from the wrong end. What it computes is
  the remainder by the divisor it does read (`ReedSolomon.RemainderLaw`); the law of
  the standard holds for every data block only when there is a single parity byte,
  and every version has at least ten (`Codewords.StandardLaw`). Of blocks that differ in
  the last byte alone at most one keeps it (`Codewords.OneLastByteAtMost`), so symbols of
  every version break it (`QrStandard.EveryVersionBreaksLaw`).
- After the cap has dropped an entry, `verify` refuses an undamaged log, until a prune
  that removes something (`HistoryRuns.RunVerifiesIffWhole`, `HistoryRuns.OneTooMany`). The
  links that are left stay whole all the while (`HistoryRuns.RunSound`).
- A label cleared with an empty text can come back after a prune
  (`HistoryLabels.ClearedLabelComesBack`), and does unless an empty label after the last
  one with a text is kept (`HistoryLabels.LabelSurvivesIff`); a label in force survives
  every prune that keeps labels (`HistoryLabels.LabelInForceSurvives`).
- Restoring a value with a text that had been cut cuts it again, and the note then
  says how long the last note was (`Canonical.RedactTwice`); the value comes back exactly
  when no text is changed by that (`HistoryRuns.RestoreBringsBack`), and of texts longer
  than 8192 characters only those of 8227 are not (`HistoryRuns.LongTextIsLost`).
- A rule from 08:00 to 08:00 is in force all day and still scores as limited to part of
  the day (`Precedence.ScoreAsDocumented`).
- `resolve` only validates a document whose schema number is one that validation
  refuses, so an unvalidated rule with an unreadable time reaches evaluation
  (`Precedence.ResolveUnreadable`, `Validation.ResolveValidated`).
- A save between counting a task set and deleting it loses the new task from its item
  (`Tasks.LostMember`), and a stop that looks a task up before its save leaves it in its
  item's set though it is no longer listed (`Tasks.StopBeforeSave`); `Tasks.MappedIffNoEarlyLook`
  says exactly when. A task that finishes before its save stays listed
  (`Tasks.FinishedStaysListed`). Tasks created without an item stay in the list of that
  absent item for ever (`LocalTasks.NamelessNeverLeave`).
- The CSV heading is not escaped, lines are cut before cells are read, and empty lines are
  dropped: a line feed in a quoted cell breaks its record in two (`Csv.BreakInCell`), and
  `Csv.TableRoundTrip` says exactly which tables come back.
- Fill bytes before markers hide the size of a JPEG (`Jpeg.FoundIffNoFill`).

## Model

| member | source | states |
|---|---|---|
| `Gf256.InitTables` | app/js/core/qr.js:15-26 | the filled tables hold the powers of 2 in GF(256) modulo 0x11d, wrapped to 512 entries, and the logarithm of every nonzero byte |
| `Gf256.NextPower` | app/js/core/qr.js:22-23 | shift and conditional exclusive-or multiply by 2 in the field |
| `Gf256.EveryByteIsAPower` | app/js/core/qr.js:17-26 | 2 generates the field: every nonzero byte is one of its first 255 powers, so the tables miss none |
| `Gf256.GfMulIsProduct` | app/js/core/qr.js:28-31 | looking up exponents and logarithms multiplies polynomials modulo 0x11d, zero included |
| `Gf256.ProductCommutes` | app/js/core/qr.js:28-31 | that product commutes |
| `Gf256.ProductAssociates` | app/js/core/qr.js:28-31 | and associates |
| `ReedSolomon.MultiplyByLinear` | app/js/core/qr.js:36-40 | the inner loop multiplies a polynomial, lowest degree first, by x + c |
| `ReedSolomon.RsGenerator` | app/js/core/qr.js:33-44 | the list is the product of the factors x + α^i, lowest degree first |
| `Codewords.GeneratorIsRootProduct` | app/js/core/qr.js:33-44 | read lowest degree first, the list takes at each x the value of the product of (x + α^i) |
| `Codewords.GeneratorRoots` | app/js/core/qr.js:33-44 | its roots are exactly the first n powers of α |
| `ReedSolomon.TurnInPlace` | app/js/core/qr.js:50-53 | one turn of the register in place is one step of long division |
| `ReedSolomon.RsEncode` | app/js/core/qr.js:46-56 | the loop leaves in the register the parity of the data |
| `ReedSolomon.RemainderLaw` | app/js/core/qr.js:46-56 | for any list and any data, data·x^n is quotient times the monic divisor with lower coefficients gen[1..n], plus the register |
| `Codewords.RemainderUnique` | app/js/core/qr.js:46-56 | no other quotient and remainder do that, so the law determines the parity |
| `Codewords.CodewordValue` | app/js/core/qr.js:46-56 | at every x, data followed by parity takes the value of quotient times divisor |
| `Codewords.SingleByteFails` | app/js/core/qr.js:38-53 | for each parity length from 2 to 254 the block of one byte 1, the shortest there is, violates the law of ISO/IEC 18004:2015, section 7.5 |
| `Codewords.KeepsLawIff` | app/js/core/qr.js:46-56 | a block and its parity keep the law if and only if the quotient vanishes at every root of the generator that the divisor read misses |
| `Codewords.OneLastByteAtMost` | app/js/core/qr.js:46-56 | for each parity length from 2 to 254, of all blocks that differ in their last byte alone at most one keeps the law |
| `Codewords.StandardLaw` | app/js/core/qr.js:33-56 | codewords vanish at the roots of the generator for all data if and only if there is one parity byte |
| `Codewords.StandardLawAtLength` | app/js/core/qr.js:33-56 | the same behind any beginning of a block, so for blocks of every length |
| `QrStandard.LastCodewordDiffers` | app/js/core/qr.js:128-145 | two byte strings that fill a version and differ in the low half of the last byte alone have data codewords that differ in the last one alone |
| `QrStandard.LongestBreakLaw` | app/js/core/qr.js:128-171 | of two such byte strings, at most one has a last data block that keeps the law |
| `QrStandard.EveryVersionBreaksLaw` | app/js/core/qr.js:405-425 | every version has a byte string, for which no smaller version is enough, one of whose blocks breaks the law |
| `QrTables.ChooseVersion` | app/js/core/qr.js:119-126 | the smallest version that fits, and a refusal exactly beyond 213 bytes |
| `QrTables.CountFits` | app/js/core/qr.js:120-134 | a count that fits the version fits its 8- or 16-bit field |
| `QrTables.RowsAddUp` | app/js/core/qr.js:61-72 | in every row the blocks and their parity make up the total |
| `QrTables.TotalIsStandard` | app/js/core/qr.js:61-72 | the totals are what the cells outside the function patterns hold, as the standard counts them |
| `QrTables.RowsAreStandard` | app/js/core/qr.js:61-72 | each version holds the bytes and has the number of blocks that ISO/IEC 18004:2015, tables 7 and 9, give for level M, and a block of the second group holds one byte more |
| `QrTables.CentresInSteps` | app/js/core/qr.js:74-85 | alignment centres run from 6 to the size less 7, and the third stands half-way |
| `QrFraming.Bits.Push` | app/js/core/qr.js:102-104 | appends the given number of bits of the value, highest first, and changes nothing else |
| `QrFraming.Bits.ToBytes` | app/js/core/qr.js:108-114 | packs the bits eight to a byte, highest first, the last filled with zeros |
| `QrFraming.BuildData` | app/js/core/qr.js:128-145 | mode, count, bytes, terminator, alignment and alternating pads fill the capacity exactly |
| `QrFraming.PadsTakeTurns` | app/js/core/qr.js:139-145 | behind the framed bytes 0xec and 0x11 take turns, 0xec first |
| `QrFraming.ReadBits` | app/js/core/qr.js:534-542 | reads the number spelt by the next n bits, zeros past the end, and advances by n |
| `QrFraming.ParseData` | app/js/core/qr.js:532-552 | mode, count and bytes as laid out, or the mode that is not byte mode |
| `QrFraming.FramingRoundTrip` | app/js/core/qr.js:128-145 | parsing the framed data returns the bytes, for every byte string that fits and any continuation of the data |
| `QrBlocks.FlatOfSplit` | app/js/core/qr.js:147-158 | the blocks put end to end are the data |
| `QrBlocks.Interleave` | app/js/core/qr.js:163-166 | round by round, the i-th byte of every block that has one |
| `QrBlocks.RoundsAt` | app/js/core/qr.js:164-166 | where each byte of each block lands in the interleaved stream |
| `QrBlocks.Deal` | app/js/core/qr.js:522-529 | the decoder's loop deals the stream back into blocks of the given lengths |
| `QrBlocks.DealtOfInterleaved` | app/js/core/qr.js:163-166 | dealing undoes interleaving for any block lengths, whatever follows in the stream |
| `QrBlocks.InterleavedLength` | app/js/core/qr.js:163-166 | interleaving keeps the number of bytes |
| `QrWalk.WalkVisitsOnce` | app/js/core/qr.js:256-269 | for every odd size from 7 on, the walk visits each cell outside column 6 exactly once and no other |
| `QrWalk.KeptDistinct` | app/js/core/qr.js:260-261 | skipping any set of cells leaves a walk without repeats |
| `QrWalk.KeptMembers` | app/js/core/qr.js:260-261 | and exactly the cells that are not skipped |
| `QrMatrix.Matrix.constructor` | app/js/core/qr.js:175-177 | a new matrix has every module unset |
| `QrMatrix.PlaceFinder` | app/js/core/qr.js:179-192 | exactly the writes of a finder pattern and its separator, clipped to the matrix |
| `QrMatrix.PlaceAlignment` | app/js/core/qr.js:206-218 | exactly the writes of the alignment patterns but those in the finder corners |
| `QrMatrix.PlaceFunctionPatterns` | app/js/core/qr.js:194-221 | all function patterns in order, the dark module last |
| `QrMatrix.FunctionCell` | app/js/core/qr.js:235-249 | decides whether a cell is a function cell |
| `QrMatrix.FunctionWritesStay` | app/js/core/qr.js:194-249 | no function pattern is drawn on a data cell |
| `QrPatterns.PatternsDrawn` | app/js/core/qr.js:179-221 | over any grid, every cell ends up as the pattern uppermost there shows it, and all others as they were |
| `QrPatterns.FindersWhole` | app/js/core/qr.js:194-221 | the three finder patterns and separators are whole: nothing else is drawn over them |
| `QrPatterns.FunctionCellsCovered` | app/js/core/qr.js:194-249 | every function cell is drawn on or reserved for format information |
| `QrPatterns.SymbolSet` | app/js/core/qr.js:405-425 | no module of a finished symbol is left unset |
| `QrPictures.SymbolShowsPattern` | app/js/core/qr.js:405-425 | data, mask and format information leave every function pattern of a finished symbol as it was drawn |
| `QrPictures.FindersLook` | app/js/core/qr.js:179-197 | in every finished symbol the three finder patterns and separators look as they are drawn out in the model, cell by cell |
| `QrPictures.RingsLook` | app/js/core/qr.js:205-218 | and so do the alignment patterns, at every pair of centres but the finder corners |
| `QrPictures.TimingLooks` | app/js/core/qr.js:199-203 | row 6 and column 6 alternate between the finder patterns, even where an alignment pattern lies over them |
| `QrPictures.DarkModule` | app/js/core/qr.js:220-221 | the module beside the lower finder pattern is dark in every finished symbol |
| `QrPlacement.ReserveFormat` | app/js/core/qr.js:224-233 | unset format cells become light, all others stay |
| `QrPlacement.PlaceData` | app/js/core/qr.js:251-270 | bit k of the codewords is written to the k-th data cell of the walk, zeros past the end |
| `QrPlacement.DataCellsAre` | app/js/core/qr.js:235-270 | the data cells are distinct and are exactly the cells that are not function cells |
| `QrPlacement.LaidReads` | app/js/core/qr.js:251-270 | afterwards every data cell holds its bit and no other cell has changed |
| `QrPlacement.ApplyMask` | app/js/core/qr.js:283-293 | a new matrix with the data cells that meet the condition flipped; the old one is kept |
| `QrPlacement.MaskTwice` | app/js/core/qr.js:272-293 | masking twice restores what is dark, and never touches a function module |
| `QrMasks.MasksTurn` | app/js/core/qr.js:272-281 | over any grid, which data cells each mask but the fifth turns over: those whose row and column are both even or both odd, even rows, every third column, every third diagonal, those whose row times column divides by six or leaves less than three, and those where equal parity and row times column not one more than a multiple of three go together |
| `QrMasks.MaskFourTurns` | app/js/core/qr.js:277 | the fifth mask turns over blocks of two rows by three columns like the fields of a chessboard |
| `QrMasks.MaskZeroAlternates` | app/js/core/qr.js:273 | of any two neighbouring data cells the first mask turns over exactly one |
| `QrMasks.SymbolMasked` | app/js/core/qr.js:283-327 | a data cell of a finished symbol is dark exactly when its bit is set and the mask named by the format information leaves the cell, or it is clear and the mask turns the cell over |
| `QrFormat.ComputeFormatBits` | app/js/core/qr.js:298-303 | ten steps of the remainder register, then the scrambling |
| `QrFormat.FormatIsCodeword` | app/js/core/qr.js:298-303 | combined with 0x5412, the fifteen bits are the mask index over a BCH remainder: a multiple of the generator polynomial 0x537 |
| `QrFormat.PlaceFormat` | app/js/core/qr.js:305-327 | both copies and the dark module, each bit at its cell |
| `QrFormat.FormatWritesStay` | app/js/core/qr.js:305-327 | format information never lands on a data cell |
| `QrFormat.ReadFormat` | app/js/core/qr.js:330-343 | the level and mask spelt by the near copy |
| `QrFormat.FormatRoundTrip` | app/js/core/qr.js:298-343 | on any matrix, what is placed is read back as level M and the mask |
| `QrFormat.FormatReads` | app/js/core/qr.js:340-343 | whatever the level, the mask and the ten check bits are, the level and the mask are read |
| `QrPatterns.FormatCopiesAgree` | app/js/core/qr.js:305-327 | in a finished symbol both copies show all fifteen bits |
| `QrPenalty.ScoreRuns` | app/js/core/qr.js:352-361 | the loop charges length − 2 for every maximal run of five or more, defined without the loop |
| `QrPenalty.ScorePatterns` | app/js/core/qr.js:374-387 | forty for every position where the finder-like pattern stands |
| `QrPenalty.PatternLooks` | app/js/core/qr.js:375-383 | the finder-like pattern is the eleven modules drawn out in the model |
| `QrPenalty.FitsIsQuotient` | app/js/core/qr.js:393-396 | the balance rule charges ten for each full five per cent away from one half |
| `QrPenalty.BalanceCharged` | app/js/core/qr.js:389-396 | the rule charges ten times the number of whole twentieths that the share of dark modules is away from one half |
| `QrPenalty.ComputePenalty` | app/js/core/qr.js:345-399 | the sum of the four rules over rows and columns |
| `QrCapacity.CodewordsFit` | app/js/core/qr.js:61-72 | in each version there is a data cell for every bit of every codeword |
| `QrCode.SplitBlocks` | app/js/core/qr.js:147-158 | the slices are the blocks of the version, in order |
| `QrCode.BuildCodewords` | app/js/core/qr.js:128-171 | data interleaved, then the parity of each block interleaved |
| `QrRoundTrip.CodewordsLength` | app/js/core/qr.js:128-171 | the codewords fill the version exactly |
| `QrCode.Encode` | app/js/core/qr.js:405-425 | the smallest version, and the first of the masks with the smallest penalty; nothing to encode and too long are refused exactly |
| `QrDecode.LaidIsRead` | app/js/core/qr.js:251-270 | for every odd size from 7 on and any cells to skip, reading along the walk returns the bits laid along it |
| `QrDecode.ReadWalk` | app/js/core/qr.js:497-510 | the bits of the data cells in walk order |
| `QrDecode.GroupBytes` | app/js/core/qr.js:512-517 | whole bytes, the remaining bits dropped |
| `QrDecode.StreamLongEnough` | app/js/core/qr.js:512-529 | dealing out never runs past the end of the stream |
| `QrDecode.Decode` | app/js/core/qr.js:481-553 | decodes any square matrix, or refuses its size, level or mode |
| `QrRoundTrip.StreamCarriesCodewords` | app/js/core/qr.js:405-517 | the decoder's stream begins with the codewords, parity included |
| `QrRoundTrip.SymbolRoundTrip` | app/js/core/qr.js:405-553 | decoding the symbol returns the bytes, for every byte string that fits, every version and every mask |
| `QrRoundTrip.EncodeThenDecode` | app/js/core/qr.js:405-553 | encoding and then decoding returns the bytes, from 1 to 213 of them |
| `Text.AtMostTransitive` | app/js/core/history.js:58 | the order strings are sorted and compared by is transitive |
| `Text.DecimalSpells` | app/js/core/history.js:197 | a number as text spells that number in digits, without a zero in front |
| `Canonical.StableIffAlike` | app/js/core/history.js:51-76 | two values have one canonical form if and only if they are equal up to the order of keys, at any depth |
| `Canonical.RedactCleans` | app/js/core/history.js:89-113 | no forbidden field keeps its value and nothing is nested deeper than nine levels |
| `Canonical.SecretsBlanked` | app/js/core/history.js:96-102 | at every depth exactly the six fields that are never recorded are blanked, whatever they hold |
| `Canonical.TextCut` | app/js/core/history.js:104-111 | a text is cut after 8192 characters, and how many were cut stands behind them |
| `Canonical.RedactAgain` | app/js/core/history.js:89-113 | a redacted value is left as it is if and only if every text in it outside forbidden fields, at any depth, is short or ends in the note that says 35 were cut |
| `Canonical.RedactText` | app/js/core/history.js:104-111 | the same for a text alone, at every depth where texts are looked at |
| `Canonical.RedactTwice` | app/js/core/history.js:104-111 | a cut text cut again keeps its first part, and the new note says how long the first note was |
| `Canonical.RedactedSettled` | app/js/core/history.js:89-113 | what redaction makes of any value needs no further cut if and only if every text it looks at is short or exactly 35 characters too long |
| `Canonical.RedactIdempotentIff` | app/js/core/history.js:89-113 | so redacting twice is redacting once exactly for those values |
| `History.LabelFor` | app/js/core/history.js:206-213 | the label said last, by the entry or about it |
| `History.Verify` | app/js/core/history.js:224-246 | accepts exactly the chains from nothing, else names the first broken entry and why |
| `History.CollectLabelled` | app/js/core/history.js:346-352 | the numbers that labels protect |
| `History.Rebuild` | app/js/core/history.js:360-367 | the kept entries chained anew |
| `History.PruneLog` | app/js/core/history.js:344-382 | filter, rebuild and marker, or the unchanged log, or a refusal without a date |
| `HistoryRuns.SameEndSameHistory` | app/js/core/history.js:51-84 | two intact logs with the same last hash have the same content in every entry, or exhibit a collision of the digest |
| `HistoryRuns.LastHashDetermines` | app/js/core/history.js:224-246 | with an injective digest, equal last hashes and equal contents are the same thing |
| `HistoryRuns.ContentTells` | app/js/core/history.js:51-84 | two entries have one canonical content if and only if they agree in every field, the values up to the order of keys |
| `HistoryRuns.ChangeShows` | app/js/core/history.js:51-84 | so an intact log that differs in any field of any entry ends in another hash, or exhibits a collision |
| `HistoryRuns.RecordKeeps` | app/js/core/history.js:127-161 | the old entries are an exact prefix, less at most one dropped, every drop is counted, and links, numbers and redaction hold |
| `HistoryRuns.RecordSays` | app/js/core/history.js:127-142 | what is recorded is what was asked for, redacted, under the next number and behind the last hash, the label cut at 120 characters |
| `HistoryRuns.RestoreBringsBack` | app/js/core/history.js:171-183 | restoring appends the redacted earlier value, which is that value itself if and only if none of its texts is cut again, says which entry it restores, and leaves the old entry in place |
| `HistoryRuns.RestoreAfterRecord` | app/js/core/history.js:127-183 | recording any value and restoring it gives back what was recorded if and only if every text that is looked at was short or exactly 35 characters too long |
| `HistoryRuns.LongTextIsLost` | app/js/core/history.js:127-183 | in a new log, a text of more than 8192 characters that is recorded comes back as recorded if and only if it has 8227 |
| `HistoryRuns.PruneKeeps` | app/js/core/history.js:344-382 | a prune that removes something gives a log that passes verification, and removed and left add up |
| `HistoryRuns.PruneLeaves` | app/js/core/history.js:344-382 | it leaves the survivors chained anew and one entry behind them that says up to which day, how many entries there were and how many are left |
| `HistoryDates.SurvivesIff` | app/js/core/history.js:346-355 | by the calendar: an entry survives a prune up to a day if and only if it was recorded on that day or later, or labels are kept and one protects it |
| `HistoryDates.NothingToPrune` | app/js/core/history.js:353-357 | a prune up to a day that no entry is older than removes nothing and changes nothing |
| `HistoryRuns.RunSound` | app/js/core/history.js:127-203 | in every reachable log the links hold, numbers increase strictly, the cap holds and nothing forbidden is recorded |
| `HistoryRuns.RunAccounts` | app/js/core/history.js:143-160 | every entry ever appended is present, truncated or pruned |
| `HistoryRuns.RunVerifiesIffWhole` | app/js/core/history.js:224-246 | a reachable log passes verification if and only if the cap has dropped nothing since the last prune that removed something |
| `HistoryRuns.VerifiesUpToCap` | app/js/core/history.js:143-160 | without prunes, a log passes verification if and only if no more entries were ever appended than the cap allows |
| `HistoryRuns.OneTooMany` | app/js/core/history.js:143-160 | so every run of more records than that gives a log verification refuses |
| `HistoryLabels.LabelTakesEffect` | app/js/core/history.js:192-213 | a label is in force at once, and every other entry that is still in the log has the label it had, even when the cap drops one |
| `HistoryLabels.LabelSays` | app/js/core/history.js:192-203 | a label entry records the label its entry carries and the new one |
| `HistoryLabels.PruneKeepsLabelled` | app/js/core/history.js:346-355 | a prune that keeps labels keeps every labelled entry and every entry a label names |
| `HistoryLabels.PruneKeepsLabels` | app/js/core/history.js:344-382 | if no label text is empty, every surviving entry has the same label before and after |
| `HistoryLabels.LabelInForceSurvives` | app/js/core/history.js:344-382 | whatever the texts are, a label in force is the same before and after |
| `HistoryLabels.LabelSurvivesIff` | app/js/core/history.js:344-382 | a survivor has the same label before and after if and only if it had a label in force, or every entry that labels it is followed by an empty label for it that the prune keeps |
| `HistoryLabels.RunLabelsAgree` | app/js/core/history.js:192-203 | in every run that writes label entries by labelling, what such an entry says is the label it carries, as the last law asks |
| `HistoryLabels.ClearedLabelComesBack` | app/js/core/history.js:344-382 | record, label, label with an empty text, prune: the label was cleared and is in force again, for every text and date |
| `Calendar.LeapYears` | app/js/core/schedule.js:116-126 | a year is a leap year if and only if four divides it and, if a hundred does, four hundred does |
| `Calendar.MonthLengths` | app/js/core/schedule.js:116-126 | January to December have their days |
| `Calendar.YearLength` | app/js/core/schedule.js:116-126 | the day numbers of the years are as far apart as the years are long |
| `Calendar.DayNumbersInOrder` | app/js/core/schedule.js:116-126 | day numbers are in calendar order |
| `Calendar.FromDay` | app/js/core/schedule.js:117-124 | the date of a day number is a valid date with that number |
| `Calendar.DayRoundTrip` | app/js/core/schedule.js:117-124 | going to the day number and back returns the date |
| `Calendar.ShiftBackIsPredecessor` | app/js/core/schedule.js:116-126 | shifting by −1 is the calendar's own predecessor, over months, years and leap days |
| `Calendar.EpochIsThursday` | app/js/core/schedule.js:117-124 | day 0 is 1970-01-01, a Thursday |
| `Calendar.WeekdayGoesOn` | app/js/core/schedule.js:123 | from each day to the next, over months, years and leap days, the weekday goes on by one, which with the Thursday determines every weekday |
| `Calendar.IsoOrder` | app/js/core/schedule.js:343-346 | through the year 9999 the order of date texts is calendar order |
| `Schedule.ParseTimeReads` | app/js/core/schedule.js:128-135 | a text reads as a time exactly when it is one of that time's writings, HH:MM or H:MM |
| `Schedule.WindowDay` | app/js/core/schedule.js:299-332 | a window of (end − start) mod 1440 minutes from day d, or all of d, holds a reading exactly when the branches pick d |
| `Schedule.WindowDayUnique` | app/js/core/schedule.js:299-332 | at most one day's window holds a reading |
| `Schedule.EvaluateMeans` | app/js/core/schedule.js:286-349 | active if and only if some day the rule covers has a window in force, and that day is the one returned |
| `Schedule.OutsideMeans` | app/js/core/schedule.js:310-332 | outside the window if and only if no day's window holds the reading |
| `Schedule.VerdictMeans` | app/js/core/schedule.js:334-349 | the other verdicts say what is wrong with the day the window began on: its weekday, else that it is too early, else that it is too late |
| `Schedule.VerdictOnRule` | app/js/core/schedule.js:286-292 | a disabled rule is not looked at, and of an enabled one the first time that cannot be read is named |
| `Schedule.CoversByCalendar` | app/js/core/schedule.js:334-346 | date limits that are real dates hold a day exactly when the calendar does |
| `Schedule.MorningBelongsToYesterday` | app/js/core/schedule.js:326-346 | the morning half of a window is decided by the weekday and date it began on alone |
| `Precedence.ScoreAsDocumented` | app/js/core/schedule.js:47-64 | the score is the documented one if and only if the rule is not an all-day rule written otherwise than 00:00 to 00:00 |
| `Precedence.NoDaysScoreAsAll` | app/js/core/schedule.js:58-64 | a rule without weekdays scores as one for all of them |
| `Precedence.AllDayCountsAsPart` | app/js/core/schedule.js:58-64 | 08:00 to 08:00 is all day and scores one more than 00:00 to 00:00 |
| `Precedence.OrderedSorts` | app/js/core/schedule.js:368-372 | sorting puts the same rules in strict order of precedence |
| `Precedence.Resolve` | app/js/core/schedule.js:358-395 | every setting comes from the rule in force of the highest precedence that changes it, no other setting appears, and a time that cannot be read is reported at the first rule that has one |
| `Precedence.ThrowsOnUnreadableTime` | app/js/core/schedule.js:286-292 | evaluating a rule fails if and only if it is enabled and one of its times cannot be read |
| `Precedence.NoSuchHour` | app/js/core/schedule.js:128-135 | an enabled rule that starts at 25:00 is such a rule |
| `Precedence.ResolveUnreadable` | app/js/core/schedule.js:358-366 | a document that says it has the current schema is not validated, and with such a rule resolving it fails there |
| `Precedence.WinnerUnique` | app/js/core/schedule.js:368-381 | there is at most one such rule |
| `Validation.SortedDays` | app/js/core/schedule.js:184-186 | the same weekdays, each once, ascending |
| `Validation.AcceptedIsOffered` | app/js/core/schedule.js:158-231 | field by field, an accepted rule is the offer: the identifier trimmed, the name or else the identifier cut at 80 characters, 00:00 for a time left out, all seven days for days left out |
| `Validation.RefusedForFirst` | app/js/core/schedule.js:158-219 | an offer is accepted if and only if it meets eleven conditions on what was offered, and refused for the first that it does not meet |
| `Validation.ValidationSettles` | app/js/core/schedule.js:151-232 | an accepted rule is accepted again unchanged |
| `Validation.Validate` | app/js/core/schedule.js:234-266 | each refusal of a document has its cause, and an accepted schedule has sound rules with distinct identifiers, one for each offer |
| `Validation.ResolveValidated` | app/js/core/schedule.js:234-395 | a validated schedule always resolves, only to settings a schedule may change, and every setting has the value an enabled offer gives it, whose identifier is named as the cause |
| `Catalog.ReachableIsLeast` | app/js/core/ollama.js:339-380 | the reachable addresses are the least set closed under links |
| `Catalog.PushLinks` | app/js/core/ollama.js:376-379 | the links not yet seen are appended in their order on the page |
| `Catalog.Crawl` | app/js/core/ollama.js:316-410 | on any link graph it ends, fetches no address twice and at most 40; it succeeds if and only if everything reachable loads, is at most 40 pages and the first names a model; each page but the first is fetched for the first link to it, over the pages in the order they were fetched, and in the order of those links; on success exactly the reachable pages were fetched, the names are theirs, and complete means pagination markup was seen |
| `Ndjson.PiecesJoin` | app/js/core/ollama.js:149-151 | the pieces joined with line breaks are the text, and none holds a break |
| `Ndjson.PiecesUnique` | app/js/core/ollama.js:149-151 | no other pieces do that |
| `Ndjson.PiecesExtend` | app/js/core/ollama.js:147-151 | more text changes only the last piece |
| `Ndjson.Read` | app/js/core/ollama.js:140-178 | a stream read to its end yields the messages of the pieces of the whole text, wherever the chunks are cut; an aborted one those of the finished lines so far |
| `Ndjson.WrittenIsRead` | app/js/core/ollama.js:140-178 | messages written one to a line are read back in order |
| `Tasks.Redis.SaveTask` | backend/open_webui/tasks.py:47-52 | the task is mapped to its item and is in the item's set |
| `Tasks.Redis.CleanupTask` | backend/open_webui/tasks.py:55-65 | undisturbed, the task is gone from hash and set and nothing else changes |
| `Tasks.Redis.StopTask` | backend/open_webui/tasks.py:147-161 | undisturbed, the task is gone together with its place in its own item's set |
| `Tasks.ListedUntilDropped` | backend/open_webui/tasks.py:47-69 | in every interleaving that saves each task once, a task is listed if and only if it was saved and no clean-up has dropped it since |
| `Tasks.FinishedStaysListed` | backend/open_webui/tasks.py:109-120 | a clean-up that comes before the save leaves a finished task listed with nothing left to drop it |
| `Tasks.MappedThroughout` | backend/open_webui/tasks.py:47-161 | with stops at any time, throughout a run the tasks in an item's set are mapped to that item if and only if no drop takes a task from the hash while it is in the set of another item than the one the drop removes it from |
| `Tasks.MemberUntilCleared` | backend/open_webui/tasks.py:47-65 | in every interleaving a listed task with an item is in the set of that item if and only if the set has not been deleted since the save |
| `Tasks.MappedIffNoEarlyLook` | backend/open_webui/tasks.py:47-161 | read off the schedule: that fails exactly when a stop that looked a task up before its save drops it after, with the task still listed and its item's set not deleted since |
| `Tasks.RunIsSafe` | backend/open_webui/tasks.py:47-161 | so in every interleaving where each task is saved once and stopped only after that, a task in an item's set is mapped to that item |
| `Tasks.GoneForGood` | backend/open_webui/tasks.py:55-65 | a saved task that is no longer listed never is again, and if stops come after saves it is in no set |
| `Tasks.ExactThroughout` | backend/open_webui/tasks.py:61-63 | in runs where stops come after saves, the sets are exactly what the hash says throughout if and only if no deletion finds members |
| `Tasks.UndisturbedIsExact` | backend/open_webui/tasks.py:47-65 | if no save falls between a count and its deletion, each set is exactly the tasks mapped to its item |
| `Tasks.LostMember` | backend/open_webui/tasks.py:61-63 | a run that loses a task from its item's set |
| `Tasks.StopBeforeSave` | backend/open_webui/tasks.py:147-161 | a stop that looks a task up before its save leaves it unmapped in its item's set, with nothing left to remove it |
| `LocalTasks.Process.CreateTask` | backend/open_webui/tasks.py:102-122 | the task is in the table and last in its item's list |
| `LocalTasks.Process.CleanupTask` | backend/open_webui/tasks.py:86-99 | the task is out of the table, and out of its item's list if the item is named |
| `LocalTasks.CleanupUndoesCreate` | backend/open_webui/tasks.py:86-122 | cleaning up restores both tables if and only if the item is named |
| `LocalTasks.CleanupTakesOne` | backend/open_webui/tasks.py:96-99 | cleaning up takes that task alone off its item's list, the others keep their order, and every other list is as it was |
| `LocalTasks.NamelessNeverLeave` | backend/open_webui/tasks.py:94-99 | over any run the list of an unnamed item holds every task ever created for it |
| `Locks.Store.Create` | app/js/core/locks.js:78-100 | each refusal exactly when its cause holds, else a closed lock with its own credential |
| `Locks.Store.TryUnlock` | app/js/core/locks.js:107-173 | refused while waiting, else graded; only the lock, opening and attempts of this id change |
| `Locks.Store.LadderBudget` | app/js/core/locks.js:197-205 | the uses before the cutoff are dropped from the front |
| `Locks.Store.SpendLadder` | app/js/core/locks.js:207-212 | a use is recorded if there is room |
| `LockRuns.RunElsewhere` | app/js/core/locks.js:62-234 | no run of operations on other locks changes a lock, its attempts or whether it is locked |
| `LockRuns.OpenIffOpened` | app/js/core/locks.js:62-190 | after any run a lock is open if and only if its last right answer outside a wait came after its last creation, closing and removal, its duration from then still lasts, and the application was not closed since if it lasts until then |
| `LockRuns.OnlyRightAnswerOpens` | app/js/core/locks.js:62-190 | over any run, a locked lock is found open only if it was answered rightly outside a wait meanwhile, or removed |
| `LockRuns.RestartRelocks` | app/js/core/locks.js:70-71 | after any run, closing the application closes exactly the locks that are to stay open until then |
| `LockRuns.AttemptsAreFailures` | app/js/core/locks.js:107-156 | in every run the attempt record is the failures since the last opening or the start of the application, and the wait of the last one |
| `LockRuns.TryAfterRun` | app/js/core/locks.js:107-156 | after any run a try is refused exactly while that wait lasts; else the first two failures in a row impose no wait, the next five 2, 4, 8, 16 and 32 seconds, and every later one 60 |
| `LockRuns.WaitsDouble` | app/js/core/locks.js:141-144 | from the third failure on each wait is the smaller of twice the one before and 60 seconds |
| `LockRuns.FailureWaits` | app/js/core/locks.js:138-145 | a failure makes the lock wait that long from the time of the failure |
| `LockRuns.SecondsRoundUp` | app/js/core/locks.js:114 | the seconds announced are the milliseconds left, rounded up |
| `LockRuns.OnlyGradedTriesCount` | app/js/core/locks.js:221-228 | while the application runs, clearing waits, refused tries and all other operations leave the count of failures alone |
| `LockRuns.LadderBudgetHolds` | app/js/core/locks.js:194-212 | with a clock that never goes back, no closed hour holds more than three uses of the ladder |
| `LockRuns.GrantedIffRoom` | app/js/core/locks.js:194-212 | a use is granted exactly when fewer than three were in the hour up to now |
| `Base32.PushKeepsLow` | app/js/core/totp.js:24-39 | overflow of the 32-bit accumulator never reaches the bits that are still to be used |
| `Base32.Encode` | app/js/core/totp.js:34-48 | the symbols spell the number of the bytes, filled with zero bits to a whole symbol (RFC 4648, section 6) |
| `Base32.EncodingUnique` | app/js/core/totp.js:34-48 | only one list of symbols does that |
| `Base32.Decode` | app/js/core/totp.js:14-32 | the bytes spell the number of the symbols in the alphabet, less the bits left over |
| `Base32.DecodingUndoesEncoding` | app/js/core/totp.js:14-48 | decoding an encoding gives the bytes back |
| `Base32.RoundTrip` | app/js/core/totp.js:14-48 | every byte sequence comes back |
| `Base32.CounterBlockSpells` | app/js/core/totp.js:89-90 | the two words spell the counter modulo 2^64, and itself below that |
| `Csv.ParseLine` | app/js/core/convert.js:501-521 | the cells of a line, by a definition on its text |
| `Csv.EscapedCell` | app/js/core/convert.js:483-491 | an escaped cell is read back whole, whatever it holds |
| `Csv.EscapedOnlyIfNeeded` | app/js/core/convert.js:490 | and is written as it is if and only if it holds no quote, comma or line end |
| `Csv.RowRoundTrip` | app/js/core/convert.js:483-521 | every non-empty row is read back from its escaped cells |
| `Csv.FirstCellIs` | app/js/core/convert.js:501-521 | a name is read as the first cell of an unescaped line if and only if it holds no comma and no quote |
| `Csv.HeadingRoundTrip` | app/js/core/convert.js:493-500 | over rows that can be read back, a table comes back if and only if no key is empty or holds a comma, a quote or a line feed, and the last does not end in a return |
| `Csv.TableRoundTrip` | app/js/core/convert.js:476-528 | a written table is read back, name by name and cell by cell, if and only if it has no rows, or its keys are as above, no cell holds a line feed and no row is a single empty cell |
| `Csv.EmptyNameLosesTable` | app/js/core/convert.js:496-500 | one empty name, one row: the row is read as the heading and no record is left |
| `Csv.BreakInName` | app/js/core/convert.js:493-500 | a line feed in a name reads back one record more |
| `Csv.BreakInCell` | app/js/core/convert.js:490-500 | and so does one in a cell, though it is quoted |
| `Csv.OneCell` | app/js/core/convert.js:483-528 | a single cell, with returns, commas or quotes, comes back if and only if it is not empty and holds no line feed |
| `Csv.CrlfReadsAlike` | app/js/core/convert.js:496-500 | a file whose lines end in a return and a line feed is read like the one whose lines end in a line feed |
| `Csv.NoNamesLoseRecords` | app/js/core/convert.js:476-500 | records without any name are written as empty lines and none is read back |
| `Csv.MissingIsNumbered` | app/js/core/convert.js:522-528 | a name left out is numbered by its place, and a cell left out is empty |
| `Jpeg.ReadDimensions` | app/js/core/logo.js:181-210 | the walk ends, reads only inside the file, and returns what the segment chain leads to |
| `Jpeg.PartSkipped` | app/js/core/logo.js:190-207 | a well-formed segment is stepped over whole, whatever its payload holds |
| `Jpeg.FileSize` | app/js/core/logo.js:181-210 | after any well-formed segments without fill bytes the size found is that of the first frame (ITU-T T.81, section B.2.2) |
| `Jpeg.FoundIsFrame` | app/js/core/logo.js:195-205 | a size that is found always stands behind a start-of-frame marker |
| `Jpeg.FillResumes` | app/js/core/logo.js:190-207 | in a file of any length, wherever fill bytes stand before a marker from 0xC0 on, the walk goes on behind a length of at least 0xC000: the marker and the byte after it for one fill byte, 0xFF00 plus the marker for two, 0xFFFF for more |
| `Jpeg.FoundIffNoFill` | app/js/core/logo.js:181-210 | in a file under 48 KB with any number of fill bytes before any of its markers from 0xC0 on, the size of the frame is found if and only if there is no fill byte |

## Left out

- Encode: starts from the bytes of the text; TextEncoder and TextDecoder are not part of this model, nor is the rendering of a symbol as SVG.
- Decode: conformance to ISO/IEC 18004 beyond the laws above; the code places no version information in versions 7 to 10, and neither does the model.
- ComputePenalty: takes the exact quotient for the balance of dark and light where the code divides floating-point numbers.
- InitTables: the bitwise operators are defined on non-negative integers, on which the 32-bit ones agree.
- Verify: the digest is any function of the canonical content; JSON.stringify, UTF-8 and SHA-256 are not part of this model, and numbers in values are integers.
- PruneLog: the clock that supplies a missing time is left to the caller; numbers start again at 1 after a prune that removes every entry, as in the code.
- RunAccounts: a log counts as truncated what the cap drops; reading, filtering, comparing and exporting the history are left out as easy.
- Evaluate: works on a wall-clock reading in the years 1000 to 9999; time zones and daylight saving come from Intl and are not part of this model.
- Resolve: takes the reading instead of an instant; the sentence that describes a rule is left out.
- Validate: takes values of the right types; the refusals of values that are not lists or objects are left out.
- Crawl: pages, link resolution and their failures are parameters, the names are a set rather than a sorted list, and the revision, the timing and the cached result are left out.
- Read: takes decoded text; trimming and JSON.parse are parameters, and a failing connection is left out.
- RunIsSafe: a Redis pipeline is one atomic step, as it is on a single server; publishing the stop command and cancelling the task are left out.
- CreateTask: the asyncio task is a handle; stop_item_tasks, which iterates a list while it changes, is left out.
- TryUnlock: is atomic and reads the clock once; the one-time code is computed by a parameter, and HMAC is not part of this model.
- LadderBudgetHolds: for a clock that never goes back, and the uses granted since the application was last started, which forgets the earlier ones.
- Decode of Base32: toUpperCase is a parameter; only the round trip asks that it leave the alphabet alone.
- TableRoundTrip: cells are texts, and a record is the list of entries Object.fromEntries is given; the conversion of other JSON values to text, and of JSON to rows, is left out. The text is read as decoded: the decoder strips a leading U+FEFF, so a table whose first key begins with it loses that character in a file.
- FoundIffNoFill: fill bytes stand before markers from 0xC0 on, in files of less than 48 KB; `FillResumes` says where the walk goes on in longer ones.
- After: identifiers of tasks are fresh, so a run saves each task once.
- ReadDimensions: the JPEG branch only; PNG, GIF, BMP and WebP read fixed offsets, and cropping is a clamp of three numbers.
- User interface, windows, storage and network code throughout the repository.
