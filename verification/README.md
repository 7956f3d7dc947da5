# Verified models of a COBOL-to-C compiler

rust-cobol translates COBOL programs to C. This project models the parts of the compiler where the
translation is hardest to get right, and proves what they do for every input:

- **Control flow.** Paragraphs fall through in source order and are left by GO TO. The generated C
  has one function per paragraph, one merged function per section, local and global label
  numberings, and a two-level dispatcher. `ParagraphLabels` builds the label maps as the generator
  does, `ParagraphFlow` says in which order COBOL runs the paragraphs, and `Dispatch` is the emitted
  program as a small-step machine. `DispatchRefinement` shows by stuttering simulation
  (`Stuttering`) that the machine runs exactly the bodies of a simpler emitted run, in both
  directions; `RunAgreement` compares two runs step by step; `SourceOrder` says exactly when the
  emitted program runs the paragraphs in source order.
- **INSPECT series.** `InspectScan` is the meaning: regions cut by markers, and the one greedy list
  of cells a left-to-right scan visits. `InspectSeries` and `InspectTally` are the emitted loops over
  byte arrays, flags and counters, proved to compute it. `InspectRegions` says what a list of markers
  cuts out and `InspectPhrases` what each kind of phrase takes, leaves and counts, of the bytes alone.
- **Fixed-point decimals.** `FixedPoint` has the laws of truncation and rescaling, `DecimalAssign`
  the multi-stage assignment in 64-bit arithmetic, `DecimalAdd` ADD GIVING with its 128-bit sum and
  size-error test.
- **Records.** `DataItems` is the item tree, `StorageLayout` the storage offsets and RENAMES,
  `TableAddress` the access paths into nested tables, `DynamicLength` the emitted length of records
  with OCCURS DEPENDING ON.
- **Front end.** `SourceReader` splits a source into lines, `LineIndex` turns offsets into lines and
  columns, `ContentSegments` merges continuation lines, `OffsetMap` keeps the source offset of every
  character, `LiteralContinuation` is about literals that run over lines, `Lexemes` says what the
  tokens of a text are, `Lexer` is the lexer and `TokenStream` has the theorems about its output.
  `KeptLines` and `LineOrigins` say of a line's characters whether it reaches the text and where its
  offsets point, `CutRegions` is a source for which one points astray, `TokenMeaning` says what the
  kind of a token means for its characters, and `TokenSpans` what its source span covers.
- **Two smaller parts.** `CollatingSequence` (weights of an ALPHABET) and `PictureSize` (the two
  readings of a PICTURE string).

`Options` and `Characters` are shared helpers. Code that the compiler, or the C it emits, runs as
loops over changing variables is a method with loops here, tied by its contract to a function whose
properties the lemmas state; code that is an expression is a function. Dafny's automatic induction
is switched off on every lemma, so every inductive step is written out.

Some statements one might expect are false of the code. Each has an example, and a condition that
says exactly when the code does what is expected:

- The dispatcher does not always keep source order. `SourceOrder.SourceOrderIffFaithful` says for
  which runs it does, and `SourceOrder.NoExitInSourceOrderIff` for which programs without EXIT: those
  whose last paragraph is not a member of a section. Four short programs for which it does not fall
  off a section at the end of the program, leave a section by EXIT PARAGRAPH, reach a paragraph by
  GO TO and leave it by EXIT SECTION, and leave a section at the end of the program by EXIT SECTION.
- A literal split over continuation lines is not always put together again. The compiler decides
  whether a literal is open by the parity of one kind of quote, which is wrong exactly when literals of
  the other kind before it hold an odd number of them (`LiteralContinuation.ParityIsRightIff`). Then a
  break at a marker quote is never undone, and one left open to the margin only where nothing is taken
  for margin (`LiteralContinuation.SplitLiteralMerges`, an if and only if). After `"'"` the literal
  `'AB'` split between its letters lexes to `'A'` (`TokenStream.LiteralEndsEarly`). Nor is a literal put
  together again that is closed at a marker quote with nothing left for the next line
  (`LiteralContinuation.MarkerNeedsARest`).
- An assignment to a picture without integer digits can leave 64 bits, and so can ADD GIVING before
  its size test (`DecimalAssign.FractionPictureCanOverflow`, `DecimalAdd.SizeTestCanComeTooLate`).
- ADD GIVING with ON SIZE ERROR can store a wrong sum and raise no error, because the aligned sum is
  narrowed to 64 bits before it is tested: 999999999999999999 plus 10^-18 into PIC 9(16)V99
  (`DecimalAdd.SizeErrorIsMissed`). `DecimalAdd.GivesExactSumIff` and
  `DecimalAdd.SizeErrorIffTooLarge` say exactly when the value and the error are right.
- The matches of a LEADING phrase in a series are not always contiguous: after ALL "A" the phrase
  LEADING "B" counts both letters B of "BAB" (`InspectTally.LeadingGoesOnAfterOthers`).
  `InspectScan.LeadingRunsOnIff` says when they run on from the start of the region.
- The newline between two lines of the flat text does not always point at a newline of the source: it
  does so if and only if nothing stands after the content of the line before it
  (`OffsetMap.SeparatorPointsAtLineEnd`).
- Adding a marker to an INSPECT phrase does not always shrink its region: an AFTER marker that passes
  the end lets the BEFORE markers be found further on (`InspectRegions.AfterCanEnlarge`).
  `InspectRegions.OneMoreMarkerShrinksIff` is the exact condition.
- An offset of the flat text can point into a comment line: when a merge cuts back an earlier region, a
  later region is entered too late (`CutRegions.OffsetInComment`, a source of five lines).
  `LineOrigins.OwnLinesIff` says exactly when every offset points into the line of its region, and
  `LineOrigins.NoOffsetInDroppedLine` that none points astray while no region is cut away.
- A redefining item is not placed over the item it redefines by the storage offsets, but behind it,
  unless that takes no storage (`StorageLayout.RedefinitionIsPlacedBehind`).
- The emitted length of a record with OCCURS DEPENDING ON leaves out separate signs:
  `DynamicLength.EmittedLengthIsRecordLength` says by how many bytes, and is exact if and only if there
  are none; `DynamicLength.SignsAreLeftOut` is a record of eight bytes for which six are computed.
- A TRAILING phrase of a compiled INSPECT series counts nothing in any item
  (`InspectTally.TrailingNeverCounts`), also where the item ends in its search string
  (`InspectTally.TrailingIsMissed`).

## Model

| member | source | states |
|---|---|---|
| ParagraphLabels.ParagraphGroupEnd | crates/cobol-codegen/src/codegen.rs:1801-1816 | The walk stops at the end of the section's contiguous members, or right after a lone paragraph. |
| ParagraphLabels.GroupsPartition | crates/cobol-codegen/src/codegen.rs:1294-1410 | Walking by group ends cuts the paragraph list into consecutive groups: each ends where the next begins, the last at the end. |
| ParagraphLabels.BuildEntryLabelMap | crates/cobol-codegen/src/codegen.rs:1752-1780 | The global label map is the first-occurrence numbering of all paragraphs followed by the label statements of the body. |
| ParagraphLabels.AssignAllIsDense | crates/cobol-codegen/src/codegen.rs:1752-1799 | Every such numbering is a bijection from its ids onto 1..n. |
| ParagraphLabels.AssignAllKeepsOrder | crates/cobol-codegen/src/codegen.rs:1752-1780 | An id that occurs first earlier gets the smaller label. |
| ParagraphLabels.EntryLabelIsPosition | crates/cobol-codegen/src/codegen.rs:1752-1780 | The paragraph at position p has global label p + 1, whatever labels the body adds. |
| ParagraphLabels.BuildMergedLabelMap | crates/cobol-codegen/src/codegen.rs:1302-1321 | Whatever order each paragraph's own map is iterated in, the local map of a merged function is a bijection onto 1..n from the group's paragraphs and the labels in their bodies, by first occurrence. |
| ParagraphLabels.LocalMeansInGroup | crates/cobol-codegen/src/codegen.rs:1302-1321 | A paragraph has a local label in a merged or isolated function exactly when it stands in that function's group. |
| ParagraphLabels.BuildNextLabelMap | crates/cobol-codegen/src/codegen.rs:1728-1750 | Each paragraph that has a label above its own is sent to the smallest such label, and no other paragraph is in the map. |
| ParagraphLabels.NextOfDense | crates/cobol-codegen/src/codegen.rs:1728-1750 | In a dense numbering that label is the successor, and only the last one has none. |
| ParagraphLabels.TopLevelGroupEntryIds | crates/cobol-codegen/src/codegen.rs:1818-1832 | The walk by groups collects the labelled group heads outside sections, in order. |
| ParagraphLabels.BuildTopLevelNextLabelMap | crates/cobol-codegen/src/codegen.rs:1711-1726 | The windowed loop builds the successor map of those heads. |
| ParagraphLabels.SuccessorsAreNext | crates/cobol-codegen/src/codegen.rs:1711-1726 | The successor map sends each id of a list without repetitions to the label of the id after it, and not the last. |
| Dispatch.CompileTables | crates/cobol-codegen/src/codegen.rs:1666-1701 | The tables of the top-level dispatcher come from the three map builders. |
| Dispatch.GroupEndIsSectionEnd | crates/cobol-codegen/src/codegen.rs:1801-1816 | A group ends exactly where the next paragraph outside any section stands. |
| Dispatch.HeadsAreTopLevel | crates/cobol-codegen/src/codegen.rs:1818-1832 | The group heads are exactly the paragraphs outside sections. |
| Dispatch.TopLevelNextOf | crates/cobol-codegen/src/codegen.rs:1711-1726 | The top-level next map sends each group head to the next head's label, and has no entry for members or the last head. |
| Dispatch.CaseNextIsAfter | crates/cobol-codegen/src/codegen.rs:1602-1650 | The label a case assigns when its function returns with nothing pending is the group after a head, the next paragraph otherwise, and no paragraph after the last. |
| Dispatch.FindCaseOf | crates/cobol-codegen/src/codegen.rs:1598-1650 | The outer switch sends label v to paragraph v - 1 and to the default for labels above the paragraphs. |
| DispatchRefinement.CompiledTablesAreRight | crates/cobol-codegen/src/codegen.rs:1587-1701 | For every well-formed program the compiled tables give the dispatcher all it relies on. |
| DispatchRefinement.MergedTransferStep | crates/cobol-codegen/src/stmt.rs:6452-6493 | GO TO in a merged function jumps locally exactly when the target is of the same group, and otherwise leaves with the target's global label pending. |
| DispatchRefinement.SilentStep | crates/cobol-codegen/src/codegen.rs:1286-1485 | Calls, returns and switch selections run no body, do not change which body is next, and there are finitely many in a row. |
| DispatchRefinement.MachineSimulates | crates/cobol-codegen/src/codegen.rs:1286-1701 | The two-level dispatcher simulates the run of bodies with stuttering. |
| DispatchRefinement.MachineRefinesEmittedRun | crates/cobol-codegen/src/codegen.rs:1286-1701 | Safety over whole runs: after any number of steps the machine has run a prefix of that run, and no transfer is ever pending inside a function. |
| DispatchRefinement.MachineRealisesEmittedRun | crates/cobol-codegen/src/codegen.rs:1286-1701 | Progress: every prefix of that run is reached, within five machine steps for each body. |
| SourceOrder.StepAgreesIffFaithful | crates/cobol-codegen/src/codegen.rs:1286-1701 | One body's exit takes control where COBOL sends it if and only if it is not one of the listed exits (fall through at the end of a final section, EXIT that leaves too much or too little). |
| SourceOrder.SourceOrderIffFaithful | crates/cobol-codegen/src/codegen.rs:1286-1701 | For every well-formed program, every behaviour of its bodies and every transfer left pending at entry: the emitted program runs the bodies in source order if and only if each step it takes is faithful. |
| SourceOrder.RunsFirst | crates/cobol-codegen/src/codegen.rs:1587-1701 | The first body run is that of the transfer left pending at entry, or of the first paragraph. |
| SourceOrder.NoExitInSourceOrderIff | crates/cobol-codegen/src/codegen.rs:1587-1701 | From every entry, a program runs in source order whatever its bodies do short of EXIT, if and only if its last paragraph is not a member of a section. |
| SourceOrder.PlainRunsInSourceOrder | crates/cobol-codegen/src/codegen.rs:1587-1701 | Without EXIT, and without falling off a section at the end of the program, source order always holds. |
| SourceOrder.FallingOffTheLastSection | crates/cobol-codegen/src/codegen.rs:1607-1615 | A program whose last section is fallen off runs bodies of it again. |
| SourceOrder.ExitParagraphLeavesTheSection | crates/cobol-codegen/src/stmt.rs:5033-5035 | EXIT PARAGRAPH inside a merged function skips the rest of the section. |
| SourceOrder.ExitSectionOfTheLastSection | crates/cobol-codegen/src/stmt.rs:5033-5035 | EXIT SECTION in a section at the end of the program does not end the program. |
| SourceOrder.ExitSectionStaysInTheSection | crates/cobol-codegen/src/stmt.rs:5033-5035 | EXIT SECTION in a paragraph reached by GO TO runs on in the section. |
| InspectScan.MarkerCuts | crates/cobol-codegen/src/expr.rs:3820-3870 | An AFTER marker moves the start just past its first occurrence in the region, or to the end; a BEFORE marker moves the end to its first occurrence, or not at all. |
| InspectSeries.Search | crates/cobol-codegen/src/expr.rs:3846-3851 | The marker loop finds the first occurrence. |
| InspectSeries.FindRegion | crates/cobol-codegen/src/expr.rs:4257-4307 | The start and end variables of a phrase after its AFTER and then its BEFORE markers. |
| InspectScan.RegionOf | crates/cobol-codegen/src/expr.rs:4257-4307 | A region stays inside the item. |
| InspectRegions.OneMoreBefore | crates/cobol-codegen/src/expr.rs:4257-4307 | A BEFORE marker written last moves the end to its first occurrence in the region, or not at all, and never the start. |
| InspectRegions.OneMoreAfter | crates/cobol-codegen/src/expr.rs:4257-4307 | An AFTER marker written last moves the start just past its first occurrence from the old start on, or to the end of the item; the end stays exactly when the new start is not beyond it. |
| InspectRegions.OneMoreMarkerShrinksIff | crates/cobol-codegen/src/expr.rs:4257-4307 | A region only shrinks when a marker is added, if and only if the marker is BEFORE or the new start is not beyond the old end. |
| InspectRegions.AfterCanEnlarge | crates/cobol-codegen/src/expr.rs:4257-4307 | An item and markers for which an added AFTER lets bytes in. |
| InspectRegions.KindsCommute | crates/cobol-codegen/src/expr.rs:4257-4307 | The order in which AFTER and BEFORE markers are written makes no difference. |
| InspectRegions.OneBefore | crates/cobol-codegen/src/expr.rs:4257-4307 | A BEFORE marker alone: up to its first occurrence, or the whole item. |
| InspectRegions.OneAfter | crates/cobol-codegen/src/expr.rs:4257-4307 | An AFTER marker alone: from just past its first occurrence, or nothing. |
| InspectRegions.OneOfEach | crates/cobol-codegen/src/expr.rs:4257-4307 | One of each, in either order: from just past the first occurrence of the one to the first occurrence of the other from there on. |
| InspectScan.ScanIsGreedy | crates/cobol-codegen/src/expr.rs:4309-4388 | The scan's cells start where the one before ends, each takes the first phrase that can match there and no phrase only when none can, and together they cover the item. |
| InspectScan.OnlyOneScan | crates/cobol-codegen/src/expr.rs:4309-4388 | A list of cells is the scan if and only if it is greedy and covers the item. |
| InspectScan.EligibleMeans | crates/cobol-codegen/src/expr.rs:4356-4381 | The LEADING and FIRST flags as a property of the whole history of matches. |
| InspectScan.MatchedCell | crates/cobol-codegen/src/expr.rs:4313-4381 | A match lies wholly inside its phrase's region and holds its search string; FIRST matches at most once, LEADING only while no comparison of it has failed. |
| InspectScan.LeadingRunsOnIff | crates/cobol-codegen/src/expr.rs:3972-3998 | A LEADING match stands where the matches of its phrase, laid one after the other from the start of its region, end, if and only if no earlier phrase matched in the region before it and no match reached into the region. |
| InspectScan.CellsAscend | crates/cobol-codegen/src/expr.rs:4309-4388 | Matches are pairwise disjoint and in order. |
| InspectSeries.TryReplace | crates/cobol-codegen/src/expr.rs:4312-4386 | One phrase at one position: it overlays the item on a match, changes nothing otherwise, and updates its flags. |
| InspectSeries.ReplaceAt | crates/cobol-codegen/src/expr.rs:4311-4387 | One turn of the scan loop performs exactly the next greedy cell. |
| InspectSeries.ReplacingSeries | crates/cobol-codegen/src/expr.rs:4226-4390 | The item becomes the rewriting of its original bytes along the greedy scan of the original bytes. |
| InspectTally.ReplacedAt | crates/cobol-codegen/src/expr.rs:4309-4388 | Each byte afterwards is decided by the one cell of the original text that covers it: the replacement where it reaches, the original byte elsewhere. |
| InspectPhrases.ReplacingTakes | crates/cobol-codegen/src/expr.rs:4309-4388 | Each place of the scan belongs to the first phrase that may take it by its kind, the bytes and the places before (ALL, LEADING, FIRST, CHARACTERS each in its own words), and to none exactly when none may. |
| InspectPhrases.FirstTakesOnce | crates/cobol-codegen/src/expr.rs:4356-4381 | In any series a FIRST phrase takes at most one place. |
| InspectPhrases.LeftAlone | crates/cobol-codegen/src/expr.rs:4309-4388 | Where a place is left alone no ALL string stands inside its region, no CHARACTERS phrase covers it, and a FIRST string there has been replaced before. |
| InspectPhrases.OnePhraseReplaces | crates/cobol-codegen/src/expr.rs:4226-4390 | A single phrase, with any markers, leaves what one plain pass over the bytes leaves. |
| InspectPhrases.FirstReplaces | crates/cobol-codegen/src/expr.rs:4312-4386 | FIRST alone replaces exactly the first occurrence in its region, and nothing when there is none. |
| InspectPhrases.LeadingReplaces | crates/cobol-codegen/src/expr.rs:4312-4386 | LEADING alone replaces exactly the copies of its string that its region begins with. |
| InspectPhrases.AllReplaces | crates/cobol-codegen/src/expr.rs:4312-4386 | ALL alone replaces the next occurrence and goes on after it, until none is left. |
| InspectPhrases.CharactersReplace | crates/cobol-codegen/src/expr.rs:4312-4386 | CHARACTERS alone turns every byte of its region, and no other, into the first replacement byte. |
| InspectTally.TryTally | crates/cobol-codegen/src/expr.rs:3950-4012 | One tallying phrase at one position matches when its rule does and its flag allows. |
| InspectTally.TallyAt | crates/cobol-codegen/src/expr.rs:3949-4013 | One turn of the tallying scan performs the next greedy cell and counts it into the phrase's slot. |
| InspectTally.TallyingSeries | crates/cobol-codegen/src/expr.rs:3770-4034 | Each counter, shared or not, grows by the matches of the phrases that count into it, over the greedy scan. |
| InspectTally.TrailingNeverCounts | crates/cobol-codegen/src/expr.rs:4009 | A TRAILING phrase of a series matches nowhere in any item. |
| InspectTally.TrailingIsMissed | crates/cobol-codegen/src/expr.rs:4009 | An item that ends in the search string and is not counted. |
| InspectTally.LeadingGoesOnAfterOthers | crates/cobol-codegen/src/expr.rs:3972-3998 | An item in which a LEADING phrase counts an occurrence that does not lead. |
| InspectTally.TallyIsSumOfMatches | crates/cobol-codegen/src/expr.rs:3800-3810 | What a shared counter grows by is the sum over its phrases of their matches. |
| InspectPhrases.TallyingTakes | crates/cobol-codegen/src/expr.rs:3947-4013 | Each place of a tallying scan belongs to the first phrase that may count it by its kind and the bytes, and to none exactly when none may. |
| InspectPhrases.CountsPlaces | crates/cobol-codegen/src/expr.rs:3950-4012 | A phrase counts each place it took once. |
| InspectPhrases.TallyCountsPlaces | crates/cobol-codegen/src/expr.rs:3800-3810 | A counter grows by the number of places its phrases took. |
| InspectTally.TallyingSeesWhatReplacingRewrites | crates/cobol-codegen/src/expr.rs:3947-4013 | Over the same bytes and phrases both scans visit the same cells, the counters count the rewritten ones, matched lengths plus unmatched positions make up the item, and every byte outside a match stays as it was. |
| InspectScan.BytesAreConserved | crates/cobol-codegen/src/expr.rs:4309-4388 | Matched lengths and unmatched positions add up to the bytes scanned. |
| DecimalAssign.EarlyIsHarmless | crates/cobol-codegen/src/expr.rs:1846-1852 | The truncation before rescaling never changes what the final truncation leaves, and keeps the product within the size. |
| DecimalAssign.CobolDecimal.Store | crates/cobol-codegen/src/expr.rs:1845-1857 | The emitted stages in 64-bit C: defined exactly under a stated condition, and then equal to one rescaling and one truncation; otherwise the target keeps its value. |
| DecimalAssign.AssignScaledInt | crates/cobol-codegen/src/expr.rs:1824-1858 | Assignment of a scaled integer, with the target's metadata set from its picture or from the source. |
| DecimalAssign.AssignDecimal | crates/cobol-codegen/src/expr.rs:1860-1904 | Assignment of a decimal item, also to itself. |
| DecimalAssign.AssignmentTruncatesBothEnds | crates/cobol-codegen/src/expr.rs:1824-1904 | With integer digits in the picture and a scale the digits can bridge: the stored value is sign(v) times floor(abs(v) * 10^scale / 10^ds) mod 10^size, for every 64-bit value but the least. |
| DecimalAssign.StoredDigits | crates/cobol-codegen/src/expr.rs:1845-1857 | For every value, source scale and picture of up to eighteen digits, with integer digits or without: the low-order digits of the value cut off at the scale, as many as the size, or as the size less leading P positions. |
| DecimalAssign.StoredLeftOfPoint | crates/cobol-codegen/src/expr.rs:1845-1857 | The same for pictures that end left of the decimal point. |
| DecimalAssign.StoredUncut | crates/cobol-codegen/src/expr.rs:1845-1857 | A target without digits or of more than eighteen takes the value cut off at its scale. |
| DecimalAssign.IntegerPictureDefinedIff | crates/cobol-codegen/src/expr.rs:1845-1852 | With integer digits the assignment is defined if and only if the power of ten fits 64 bits and the value is not the least. |
| DecimalAssign.FractionPictureCanOverflow | crates/cobol-codegen/src/expr.rs:1846-1852 | Without integer digits, so for every scale from the size on, the assignment is defined if and only if the power of ten and the rescaled value fit 64 bits (and the value is not the least when the scales agree). |
| DecimalAssign.TenOverflowsEighteenPlaces | crates/cobol-codegen/src/expr.rs:1846-1852 | Ten assigned to eighteen decimal places is such an overflow. |
| FixedPoint.RescaleTruncatesTowardZero | crates/cobol-codegen/src/expr.rs:3114-3127 | Rescaling is the exact quotient with its fraction cut off, with the value's sign. |
| DecimalAdd.AddExact | crates/cobol-codegen/src/expr.rs:3100-3112 | One aligned addition in 128 bits, narrowed to 64. |
| DecimalAdd.SumTerms | crates/cobol-codegen/src/expr.rs:3146-3156 | The emitted sum of any list of terms is their exact sum at the maximum scale, narrowed once, and so exact if and only if the total fits 64 bits; partial sums need not. |
| DecimalAdd.SumStaysIn128 | crates/cobol-codegen/src/expr.rs:3100-3112 | While terms are added no aligned operand and no sum leaves 128 bits. |
| DecimalAdd.RescaleTo | crates/cobol-codegen/src/expr.rs:3114-3127 | Rescaling by one factor, with the exact condition under which factor and product fit 64 bits. |
| DecimalAdd.RescaleByTens | crates/cobol-codegen/src/expr.rs:3183-3225 | Rescaling by repeated multiplication or division by ten gives the same value. |
| DecimalAdd.RescaleDefinedIff | crates/cobol-codegen/src/expr.rs:3114-3127 | Rescaling by one factor is defined if and only if the factor and the rescaled value fit 64 bits. |
| DecimalAdd.GivingDecimalDefinedIff | crates/cobol-codegen/src/expr.rs:3182-3240 | Step by step it is defined if and only if the result fits, and can be negated where its size is tested. |
| DecimalAdd.GivingDisplay | crates/cobol-codegen/src/expr.rs:3130-3180 | ADD GIVING into a DISPLAY item: stored if and only if the magnitude is at most 10^size - 1 or no size error is asked for; on size error the receiver is untouched. |
| DecimalAdd.GivingDecimal | crates/cobol-codegen/src/expr.rs:3182-3240 | The same for packed and decimal items, which rescale step by step. |
| DecimalAdd.RescaledNarrowedIff | crates/cobol-codegen/src/expr.rs:3100-3127 | Rescaling the narrowed sum gives the exact sum rescaled if and only if the sum fits 64 bits, or only digits it drops are left. |
| DecimalAdd.GivesExactSumIff | crates/cobol-codegen/src/expr.rs:3130-3180 | ADD GIVING computes the exact sum of its terms, cut off at the receiver's scale, under exactly that condition; for receivers with at most 18 decimal places less, if and only if the total fits 64 bits. |
| DecimalAdd.SizeErrorIffTooLarge | crates/cobol-codegen/src/expr.rs:3130-3180 | The error is raised exactly for sums with too many digits, and the exact sum computed otherwise, if and only if narrowing is hidden or both the exact and the narrowed sum are too large; in the first case what is stored is the sum cut off toward zero. |
| DecimalAdd.SizeErrorIsMissed | crates/cobol-codegen/src/expr.rs:3158-3176 | A sum far too large for its receiver for which no error is raised and a small value is stored. |
| DecimalAdd.SizeTestCanComeTooLate | crates/cobol-codegen/src/expr.rs:3120-3127 | A sum that is too large can overflow 64 bits in rescaling before its size is tested. |
| StorageLayout.CollectStorageOffsets | crates/cobol-codegen/src/expr.rs:5871-5890 | The recursive loop appends exactly the entries of the items and their members, laid out from the base. |
| StorageLayout.LeavesTile | crates/cobol-codegen/src/expr.rs:5871-5890 | The occurrences of a record's elementary items tile it without gap or overlap. |
| StorageLayout.EntriesAtCuts | crates/cobol-codegen/src/expr.rs:5871-5890 | Every collected entry starts and ends where elementary items do. |
| StorageLayout.EntryOfItem | crates/cobol-codegen/src/expr.rs:5871-5890 | Every item that renames none starts where the items before it on its level end that redefine none. |
| StorageLayout.RedefinitionIsPlacedBehind | crates/cobol-codegen/src/expr.rs:5871-5890 | A redefining item is placed behind the item it redefines, and over it if and only if that takes no storage. |
| StorageLayout.MemberEntries | crates/cobol-codegen/src/expr.rs:5883-5885 | The entries of a group's members, laid out from where the group starts, are entries of its level. |
| StorageLayout.SiblingsAreDisjoint | crates/cobol-codegen/src/expr.rs:5871-5890 | Items of one level do not overlap, and neighbours leave no gap. |
| StorageLayout.EntriesInside | crates/cobol-codegen/src/expr.rs:5871-5890 | Every entry lies inside the record. |
| StorageLayout.RenamesSizeIsStorageOfRange | crates/cobol-codegen/src/expr.rs:5853-5863 | A RENAMES range is as large as the elementary storage from the first byte of the one item to the last of the other, which tiles it. |
| StorageLayout.RenamesSizeOf | crates/cobol-codegen/src/expr.rs:5853-5863 | The size reaches from the start of the first item with the one name to the end of the first with the other, and there is none if that starts before. |
| StorageLayout.RenamesSizeIff | crates/cobol-codegen/src/expr.rs:5853-5863 | A range has a size if and only if both names stand in the record and the second does not start before the first. |
| StorageLayout.NamedIff | crates/cobol-codegen/src/expr.rs:5871-5890 | A name is listed if and only if an item at some depth has it that does not rename. |
| TableAddress.CollectSubscriptPaths | crates/cobol-codegen/src/context.rs:1140-1221 | The recursive walk records the paths of all members below an ancestor. |
| TableAddress.PathsAreRecorded | crates/cobol-codegen/src/context.rs:1173-1203 | Exactly the fully qualified paths with a table on them are recorded, each with the segments along it. |
| TableAddress.EmitSubscriptAccess | crates/cobol-codegen/src/expr.rs:1050-1065 | The access takes one subscript, less one, at each table of the path, and there is none with too few subscripts or no table. |
| TableAddress.InRangeIsInside | crates/cobol-codegen/src/data.rs:598-674 | In-range subscripts address bytes inside the root record. |
| TableAddress.DivergingAccessesAreApart | crates/cobol-codegen/src/data.rs:598-674 | Two in-range accesses that part at some step address disjoint bytes. |
| TableAddress.SubscriptsAddressDisjointElements | crates/cobol-codegen/src/expr.rs:1050-1065 | A qualified name takes one subscript per table; valid subscripts address an element of its size inside the record, and different valid subscripts disjoint ones. |
| TableAddress.FirstElementStandsAtItsEntry | crates/cobol-codegen/src/expr.rs:1050-1065 | With every subscript one a name addresses the place that the storage offsets give its item, at any depth. |
| TableAddress.NextElement | crates/cobol-codegen/src/expr.rs:1050-1065 | One more in a subscript moves on by exactly one element of its table. |
| TableAddress.MemberStandsAtItsEntry | crates/cobol-codegen/src/data.rs:598-674 | A member of the C struct stands where the storage offsets place its item and takes the same room, so the two layouts of a record agree. |
| TableAddress.ElementaryAccessesAreApart | crates/cobol-codegen/src/data.rs:598-674 | Different accesses to elementary items never share a byte. |
| DynamicLength.CComputesModulo | crates/cobol-codegen/src/expr.rs:4708-4716 | The emitted 32-bit arithmetic gives the expression's value modulo 2^32. |
| DynamicLength.NoExpressionIsStatic | crates/cobol-codegen/src/expr.rs:4711-4722 | Where no expression is emitted the length does not depend on any count and is the static size. |
| DynamicLength.ExpressionIff | crates/cobol-codegen/src/expr.rs:4711-4754 | An expression is emitted if and only if the item depends on a counter or has an item below it, at any depth, that does. |
| DynamicLength.PartMissesSigns | crates/cobol-codegen/src/expr.rs:4696-4743 | The emitted value falls short of the record length by exactly the separate signs of items summed in dynamic groups. |
| DynamicLength.EmittedLengthIsRecordLength | crates/cobol-codegen/src/expr.rs:4696-4754 | In C, for counts within their maxima: the record length less those signs, so the record length if and only if there are none; never above the static size, and equal to it when every table is full and no sign is left out. |
| DynamicLength.SignsAreLeftOut | crates/cobol-codegen/src/expr.rs:4700-4706 | Two items of three digits with separate signs take eight bytes, and the emitted length is six. |
| DynamicLength.EmittedLengthIsMonotone | crates/cobol-codegen/src/expr.rs:4696-4743 | The length computed in C grows with every count, for counts within their maxima. |
| SourceReader.Parse | crates/cobol-lexer/src/source_reader.rs:116-280 | Line splitting is lossless in all three formats: raw lines concatenate to the source, each offset is the length before it, only the last line may lack its newline, and no empty line is kept. |
| SourceReader.LineLayout | crates/cobol-lexer/src/source_reader.rs:133-147 | The content area of a line lies inside it. |
| KeptLines.LayoutMeans | crates/cobol-lexer/src/source_reader.rs:97-147 | Of the characters of a line: which are comments, debug lines and continuations by column 7 or the free-format mark, and the content area, columns 8 to 72, 8 to the end or all of it. |
| KeptLines.KeptMeans | crates/cobol-lexer/src/lexer.rs:240-245 | A line is kept if and only if its characters make it no comment, no blank line and, unless asked for, no debug line. |
| SourceReader.OnlyOneSplitting | crates/cobol-lexer/src/source_reader.rs:116-280 | These properties leave only one way to split a source. |
| SourceReader.RawInSource | crates/cobol-lexer/src/source_reader.rs:149-163 | Every raw line stands in the source at its offset. |
| SourceReader.ContentBeforeNextLine | crates/cobol-lexer/src/source_reader.rs:145-163 | A line's content ends before any later line starts. |
| LineIndex.ComputeLineStarts | crates/cobol-common/src/source.rs:54-62 | The starts are exactly offset 0 and the offsets after newlines, in increasing order. |
| LineIndex.LineCol | crates/cobol-common/src/source.rs:32-43 | The line is one more than the newlines before the clamped offset, and the column counts from the start of that line. |
| LineIndex.LineColIsInjective | crates/cobol-common/src/source.rs:32-43 | Line and column determine the offset. |
| ContentSegments.EndsInsideString | crates/cobol-lexer/src/lexer.rs:40-65 | A literal is open at the end if and only if the number of quotes is odd. |
| ContentSegments.MergeContinuation | crates/cobol-lexer/src/lexer.rs:250-345 | The branches for a continuation line, in place, give the merged segment. |
| ContentSegments.BuildSegments | crates/cobol-lexer/src/lexer.rs:236-359 | Kept lines become segments in order, continuation lines are merged into the one before, orphans are skipped. |
| KeptLines.DroppedLineChangesNothing | crates/cobol-lexer/src/lexer.rs:236-359 | Adding or removing such a line at any line start, in any format, leaves the flat text of the source as it was. |
| LineOrigins.LineContributes | crates/cobol-lexer/src/lexer.rs:236-359 | Every other line that is no continuation and is not continued is a segment of its own: exactly its content area, from where it stands in the source. |
| LineOrigins.LineInFlatText | crates/cobol-lexer/src/lexer.rs:76-117 | Its content area stands in the flat text, on a line of its own. |
| LineOrigins.OrphansAreSkipped | crates/cobol-lexer/src/lexer.rs:250-345 | Continuation lines before any line to continue reach nothing. |
| LiteralContinuation.ParityIsRightIff | crates/cobol-lexer/src/lexer.rs:40-65 | Counting one kind of quote says whether such a literal is open if and only if literals of the other kind hold an even number of them. |
| LiteralContinuation.BreakIsUndoneIff | crates/cobol-lexer/src/lexer.rs:267-326 | One break, after any text and in either form: merging undoes it if and only if, with a marker, the quotes before are odd and the next line does not go on with exactly one quote; left open, the quotes before are odd or nothing is taken for margin. |
| LiteralContinuation.MergesIffAllUndone | crates/cobol-lexer/src/lexer.rs:250-326 | A literal split over any number of lines inside no doubled quote, after any text: its lines merge to the unsplit line if and only if every single break is undone. |
| LiteralContinuation.SplitLiteralMerges | crates/cobol-lexer/src/lexer.rs:250-326 | After text in which no literal is open that holds if and only if earlier literals of the other kind hold an even number of its quotes, or no break has a marker and none loses anything for margin. |
| LiteralContinuation.QuoteInEarlierLiteral | crates/cobol-lexer/src/lexer.rs:275-304 | An input for which it fails: after a literal holding one apostrophe the marker quote and the next opening quote stay in the text. |
| LiteralContinuation.MarkerNeedsARest | crates/cobol-lexer/src/lexer.rs:306-319 | A break at a marker quote is undone if and only if the quotes before it are odd and some of the literal is left for the next line. |
| LiteralContinuation.NotOpenBreak | crates/cobol-lexer/src/lexer.rs:286-304 | A line that goes on with a quote though none is open: the spaces before are dropped, a single one is kept. |
| LiteralContinuation.WordBreak | crates/cobol-lexer/src/lexer.rs:327-345 | A word broken between lines is put together, whatever the margin and the indentation, if and only if the indentation is not a single space, which is kept. |
| LiteralContinuation.ContinuationLinesMerge | crates/cobol-lexer/src/lexer.rs:236-359 | A line and the continuation lines after it become one segment with the merged text, and earlier segments stay. |
| OffsetMap.ContinuedIsSound | crates/cobol-lexer/src/lexer.rs:250-345 | Merging keeps a segment's regions shifted further and further, even when it cuts text back. |
| OffsetMap.SegmentsInOrder | crates/cobol-lexer/src/lexer.rs:236-359 | The segments of any source stand one after the other in it with something between them. |
| OffsetMap.SegmentOffsets | crates/cobol-lexer/src/lexer.rs:101-116 | One offset per character, strictly increasing within the segment's stretch, and exactly what the region in force gives, where at each position at most one region is entered. |
| OffsetMap.Flatten | crates/cobol-lexer/src/lexer.rs:76-117 | The flat text with strictly increasing offsets, each separator at the end of the segment before. |
| OffsetMap.LoadSource | crates/cobol-lexer/src/lexer.rs:68-128 | For every source and format: one offset inside the source per character, strictly increasing. |
| OffsetMap.OffsetsPointAtSource | crates/cobol-lexer/src/lexer.rs:98-116 | In every format, merged or not: unless a merge cut an earlier region away, every character of a segment is the source character at its offset, except a space just before a continuation. |
| LineOrigins.OwnLinesIff | crates/cobol-lexer/src/lexer.rs:101-116 | Every offset of a segment points into the line its region comes from if and only if no region is entered beyond the content of its line. |
| LineOrigins.NoOffsetInDroppedLine | crates/cobol-lexer/src/lexer.rs:76-117 | Unless a merge cut an earlier region away, no offset of the flat text, of a character or a separator, points into a line that is left out. |
| CutRegions.OffsetInComment | crates/cobol-lexer/src/lexer.rs:101-116 | A fixed-format source in which an offset points into a comment line. |
| OffsetMap.SeparatorPointsAtLineEnd | crates/cobol-lexer/src/lexer.rs:84-97 | In every format the newline before a segment points at where the segment before ends, which is the end of the content of a kept line, and that is a newline of the source if and only if nothing follows the content on that line. |
| OffsetMap.FreeFormatPointsAtSource | crates/cobol-lexer/src/lexer.rs:76-117 | In free format every character, separators included, is the source character at its offset. |
| Lexemes.LexemeRange | crates/cobol-lexer/src/lexer.rs:144-223 | A token's range lies in the text and is empty only at the end or for a missing picture. |
| Lexemes.ClosedEndsHere | crates/cobol-lexer/src/lexer.rs:651-680 | A literal that has been closed cannot go on. |
| Lexemes.LexemeIsUnique | crates/cobol-lexer/src/lexer.rs:144-223 | In every state at most one token fits the grammar. |
| Lexer.Lexer.LexLiteralBody | crates/cobol-lexer/src/lexer.rs:656-680 | The scan of a quoted body ends at its closing quote, or at the newline or end it runs into. |
| Lexer.Lexer.ShouldTreatAsSign | crates/cobol-lexer/src/lexer.rs:477-498 | Looking back decides exactly by the character before the sign. |
| Lexer.Lexer.TryLexLevelNumber | crates/cobol-lexer/src/lexer.rs:542-575 | A level number is taken if and only if the digits and what follows make one. |
| Lexer.Lexer.LexNumber | crates/cobol-lexer/src/lexer.rs:583-648 | Integers, decimals, and words that start with digits, each as long as it can be. |
| Lexer.Lexer.LexWord | crates/cobol-lexer/src/lexer.rs:504-535 | The longest word less its trailing hyphens, with PIC entering picture mode. |
| Lexer.Lexer.LexPictureString | crates/cobol-lexer/src/lexer.rs:722-763 | A picture string up to white space or the sentence's period. |
| Lexer.Lexer.TryLexOperator | crates/cobol-lexer/src/lexer.rs:766-865 | The longest operator, or a number that starts with its period. |
| Lexer.Lexer.NextToken | crates/cobol-lexer/src/lexer.rs:144-223 | The one token that fits, with the flags set by it; each call moves on, ends the stream or leaves picture mode. |
| TokenMeaning.OperatorsOfStream | crates/cobol-lexer/src/lexer.rs:766-865 | In a stream, where no number starts and no picture stands, a token is of an operator kind if and only if that operator is the longest written there; its characters are the operator's spelling. |
| TokenMeaning.SpellingsDiffer | crates/cobol-lexer/src/lexer.rs:766-865 | No two operators are written alike. |
| TokenMeaning.LiteralKinds | crates/cobol-lexer/src/lexer.rs:174-188 | A token is a hexadecimal, boolean, national or plain literal if and only if its prefix and a closed quoted body stand there. |
| TokenMeaning.WordMeans | crates/cobol-lexer/src/lexer.rs:504-535 | A word token runs as far as a word can; PIC, keywords and identifiers are told apart by its upper-case characters. |
| TokenMeaning.NumberMeans | crates/cobol-lexer/src/lexer.rs:583-648 | Integers and decimals, of their characters; digits that go on as a word are an identifier. |
| TokenMeaning.SignOrOperator | crates/cobol-lexer/src/lexer.rs:200-206 | A plus or minus before a digit is a sign if and only if it starts the text or follows a space, a tab or one of eight characters. |
| TokenMeaning.NumberOfDecimal | crates/cobol-lexer/src/lexer.rs:553-575 | Reading a number written in decimal gives it back. |
| TokenMeaning.LevelNumbersOpenStatements | crates/cobol-lexer/src/lexer.rs:189-194 | In a stream digits are a level number if and only if no word and no level number has come since the last period, they spell 1 to 49, 66, 77 or 88, and a space, a tab, a period or the end follows. |
| TokenMeaning.LevelNumberIsDigits | crates/cobol-lexer/src/lexer.rs:542-575 | A level number token is nothing but such digits, where a statement can start. |
| TokenMeaning.PictureFollowsPic | crates/cobol-lexer/src/lexer.rs:152-170 | A picture is read exactly after PIC or PICTURE. |
| TokenMeaning.PictureMeans | crates/cobol-lexer/src/lexer.rs:722-763 | A picture has no white space and ends before white space, a sentence's period or the end. |
| TokenMeaning.PictureOrNone | crates/cobol-lexer/src/lexer.rs:722-763 | In the place of a picture nothing but a picture is read, an error when there is none. |
| TokenMeaning.StartMeans | crates/cobol-lexer/src/lexer.rs:144-170 | A token starts at the first character that is not white space, after PIC behind an IS that stands alone. |
| Lexer.Lexer.LexAll | crates/cobol-lexer/src/lexer.rs:131-141 | Lexing ends on every text, with the measure (remaining characters, picture mode), and yields its token stream. |
| TokenStream.OnlyOneTokenization | crates/cobol-lexer/src/lexer.rs:131-223 | A text has only one token stream. |
| TokenStream.TokensAreDisjoint | crates/cobol-lexer/src/lexer.rs:131-223 | Token ranges are ordered and do not overlap. |
| TokenStream.EveryCharacterIsCovered | crates/cobol-lexer/src/lexer.rs:144-223 | Every character is in a token, or is white space, or belongs to the IS after PIC. |
| TokenStream.StreamReachesEnd | crates/cobol-lexer/src/lexer.rs:131-141 | The stream reaches the end of the text, and a token without characters is an error in place of a picture. |
| TokenStream.SpansNeverGoBack | crates/cobol-lexer/src/lexer.rs:403-439 | Source spans end no earlier than they start, strictly later for a token with characters, and never go backwards. |
| TokenMeaning.TokenHasNoNewline | crates/cobol-lexer/src/lexer.rs:144-223 | No token goes over a line end. |
| TokenSpans.SpanCoversToken | crates/cobol-lexer/src/lexer.rs:403-439 | In any format: the source characters that the span of a token covers are the token's own, on a line into which none was merged. |
| TokenSpans.FreeFormatSpans | crates/cobol-lexer/src/lexer.rs:403-439 | In free format that holds for every token. |
| TokenStream.LiteralLexes | crates/cobol-lexer/src/lexer.rs:651-680 | A quoted literal lexes to one string token with exactly its characters. |
| TokenStream.SplitLiteralLexesAsOne | crates/cobol-lexer/src/lexer.rs:250-326 | A literal split over any number of continuation lines, every break of which is undone, lexes to one string token equal to the unsplit literal. |
| TokenStream.LiteralEndsEarly | crates/cobol-lexer/src/lexer.rs:651-680 | Where a break is not undone the token can end early. |
| CollatingSequence.BuildCollatingWeights | crates/cobol-codegen/src/context.rs:721-751 | The loops over groups, values and bytes give each of the 256 bytes its weight. |
| CollatingSequence.WeightsOrderTheAlphabet | crates/cobol-codegen/src/context.rs:721-751 | With fewer than 65280 non-empty groups: listed bytes compare by their last group and come before unlisted ones, which keep native order; 255 is above and 0 not above all others. |
| CollatingSequence.ListedOrder | crates/cobol-codegen/src/context.rs:721-763 | An alphabet that lists different characters one by one orders them so, before all others. |
| CollatingSequence.LiteralLists | crates/cobol-codegen/src/context.rs:754-763 | A literal lists its own characters. |
| CollatingSequence.FigurativeLists | crates/cobol-codegen/src/context.rs:754-763 | A figurative constant, in any case, lists what its character lists. |
| CollatingSequence.LowestIsShared | crates/cobol-codegen/src/context.rs:735-739 | Byte 0 weighs as much as the bytes of the first group that lists any, and only as much as those. |
| CollatingSequence.WeightsFit | crates/cobol-codegen/src/context.rs:721-751 | Weights stay within 1 and 65535, however many groups there are. |
| CollatingSequence.MaximumIsStrictIff | crates/cobol-codegen/src/context.rs:740-749 | The bound is exact when byte 254 is unlisted. |
| PictureSize.PictureStorageSize | crates/cobol-codegen/src/expr.rs:6017-6042 | The scanner's loop adds up the runs of the picture. |
| PictureSize.ExpandPictureRepeats | crates/cobol-codegen/src/expr.rs:3560-3587 | The expander's loop writes every repeated symbol out. |
| PictureSize.SizeIsExpandedLength | crates/cobol-codegen/src/expr.rs:6017-6062 | On every well-formed picture the storage size is the length of the expanded picture less its V and S symbols, CR and DB counting two. |
| PictureSize.RepeatedSignDiffers | crates/cobol-codegen/src/expr.rs:6021-6025 | A repeated sign is read differently by the two. |
| PictureSize.UnreadableCount | crates/cobol-codegen/src/expr.rs:6044-6062 | A count that is no number: the expander drops it with its parentheses, the scanner counts every character of them. |

## Left out

- PERFORM, ALTER, the segment reset, debug declaratives and XML callbacks: control flow is modelled for bodies that fall through, GO TO, EXIT PARAGRAPH, EXIT SECTION or stop the run. EXIT SECTION lowers to the same statement as EXIT PARAGRAPH (crates/cobol-hir/src/lower.rs:1862).
- Paragraph bodies and label statements inside them: a body is an arbitrary function of the bodies run before it, and a label inside a body never names another paragraph. The numbers such labels get in a merged map depend on a hash map's iteration order; the emitted machine numbers them by the body, and nothing it does depends on them.
- Paragraph names: paragraphs are told apart by id, as if sanitised names were unique.
- Dispatch.CompileTables: the emitted dispatch loop itself is the function `Dispatch.Step`, one step of an arbitrarily long run, because it need not end.
- InspectSeries.ReplacingSeries: 32-bit wrap-around of positions in items near 4 GiB, and operands that overlap the inspected item.
- InspectTally.TallyingSeries: the loads and stores of DISPLAY counters and the numeric form of a numeric target, which are runtime calls; 64-bit wrap-around of a counter.
- DecimalAssign.AssignScaledInt: the evaluation of the source expression; `pow` is an integer power of ten.
- DecimalAdd.SumTerms: terms with more than 19 decimal places, whose alignment can leave 128 bits.
- DecimalAdd.GivingDisplay: the runtime store into the DISPLAY item, which is the receiver's value here; receivers of more than 18 digits.
- DecimalAdd.GivingDecimal: receivers that are not decimal, which take the sum as it is.
- StorageLayout.EntriesAtCuts: records with items that redefine others, which stand behind what they redefine (`StorageLayout.RedefinitionIsPlacedBehind`), and groups without storage, which are given one byte.
- TableAddress.CollectSubscriptPaths: keys by leaf name and the suffixes of repeated names, which are a best-effort lookup; paths of member positions stand for fully qualified names. Redefining and occurring root records are left out.
- TableAddress.InRangeIsInside: binary, packed, national and pointer items, whose C layout has padding.
- DynamicLength.CComputesModulo: subexpressions of literals alone are signed in C and overflow from 2^31 on, where the model wraps at 2^32; only a record with a static part of 2 GiB or more has one.
- DynamicLength.EmittedLengthIsRecordLength: items that rename others, whose size is looked up by name, and records of 4 GiB and more.
- SourceReader.Parse: text outside ASCII (one character is one byte here) and offsets beyond 32 bits; the three nearly equal loops of the reader are one loop over the format.
- ContentSegments.BuildSegments: whether debug lines are kept is a parameter, where the compiler searches the configuration section for it.
- TokenStream.SplitLiteralLexesAsOne: what a literal with a break that is not undone lexes to, beyond the one example.
- Lexer.Lexer.LexWord: the keyword table is a parameter, apart from PIC and PICTURE; the upper-case text of words is left out.
- CollatingSequence.BuildCollatingWeights: values outside single-byte text.
- PictureSize.PictureStorageSize: 32-bit wrap-around of the sum.
- Runtime library, name lookup by heuristics, floating-point paths, copybooks, diagnostics, classes, and the C text itself: the meaning of the emitted code is modelled, not its spelling.
