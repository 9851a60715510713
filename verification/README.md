# Verified models of the commerce workspace

Dafny models of the parts of the repository whose correctness is hardest to see from a single function, with proofs of what
they promise over all inputs, all runs or all reachable states. `dafny verify dfyconfig.toml` checks everything.

| Part | Files | What is shown |
|---|---|---|
| Canonical JSON | `CanonicalJson`, `CanonicalForm`, `Numerals` | the text of a value identifies it up to object key order; how every kind of value is spelled |
| Worksheets as CSV | `Csv`, `CsvLayouts`, `Worksheets`, `WorksheetRows` | the character scanner reads exactly the texts of a grammar of its own; which rows, in any order, the decoder takes; both undo the printer |
| Row hierarchy of the shared table | `RowTree`, `RowSelection`, `RowToggling`, `CollapsedRows`, `RowDepth` | one-pass algorithms agree with their meaning on the tree of rows; toggling keeps groups consistent |
| Nested table rows | `PathNesting`, `NestingOrder` | flattening a tree of paths loses nothing and reads back |
| Plan evaluation | `Intervals`, `TakeoverModel`, `MonthlyModel`, `Doubles`, `PlanAmounts` | every known range is the exact image of the plain formula; when double precision adds a unit to the break-even or refuses an amount |
| Source digests | `SourceFrames` | the hashed byte stream determines the source tree |
| Commit ranges | `CommitRange` | old evidence survives only harmless history |
| Draft store | `LaunchTerms`, `DraftRecords`, `DraftTransactions`, `DraftRuns`, `DraftSaves`, `DraftImports`, `DraftTransfer` | safety over every interleaving of transactions; when saves and imports succeed and what they leave; export and import |
| Verdicts | `EvidenceContracts`, `EvidenceVerdicts`, `VerdictValidation`, `EvidenceAcceptance`, `EvidenceReports`, `VerifiedSource` | what is persisted passes the independent validator; exactly when a verdict is verified and what is reported otherwise, field by field; what verified means, down to the source that was checked |
| Money, economics, calendar | `Money`, `LaunchEconomics`, `StayMonths` | decimal round trip, least break-even, laws of month counting |
| Containers | `ContainerArguments`, `ContainerTags`, `OutputBudget` | argument rewriting keeps the build; which tag a build asks for; a shared output budget is exact |

`Options`, `Texts`, `Integers` and `Sorting` hold what several of them share.

## How the sources are modelled

- Loops, pushes and in-place updates are methods (or classes, where handlers or transactions update fields) proved against
  functions; the laws are lemmas about those functions. Expressions and recursion are functions.
- A thrown error, an early `null` and a refused transaction are values (`None`, a failure reason), never preconditions.
- Amounts of the plan evaluator are integers in units of 0.0001, the grid the source rounds to. That its sums, differences and
  products of doubles come back to this grid is proved up to a limit (`Doubles.SumStaysOnGrid` and the two beside it). Quotients
  are computed in doubles: 53 significant bits, ties to the even one. The cut-off at the largest safe integer is explicit.
- JSON text in `CanonicalJson` is a sequence of UTF-16 code units, so lone surrogates and their escapes are covered, and the
  four layouts of printed numbers are modelled. Elsewhere a pair of `JSON.parse` and `JSON.stringify` is any pair of functions
  that undo each other on plain values, in keeping with RFC 8259.
- Digests are arbitrary functions. Where a result needs it, they are free of collisions (`SourceFrames.CollisionFree`) or at
  least never give an object the digest of a placeholder text (`EvidenceContracts.Canon.Sound`). Signatures are predicates.
- Git is a history of commits whose parents come earlier, each with a map from path to content; its answers are functions
  assumed truthful, and a failed process is a missing answer. File reads, clocks, random ids and the readers of the evidence
  documents enter as parameters.
- IndexedDB gives serialized transactions, so a run of the draft store is a sequence of whole saves and imports from any tabs.

## Where the code differs from what it is for

- `evidenceOutput` turns backslashes into slashes and the text decoder drops a byte order mark before the comparison. A root
  file whose name spells the evidence directory with backslashes therefore counts as evidence output although it lies outside
  the directory. `CommitRange.KeptExactlyOffEvidence` states exactly which paths can change unnoticed,
  `CommitRange.DisguisedChangePasses` gives a concrete history with what Git answers about it, and for names without
  backslashes and byte order marks the promise holds (`CommitRange.AcceptedRangeKeepsSource`).
- The break-even volume rounds up a quotient of doubles. Costs of 350 and a price of 0.70 give 501 units although 500 cover
  (`MonthlyModel.OneUnitTooMany`). `MonthlyModel.BreakEvenEnds` says exactly when an end is one unit too high: when the unit
  contribution divides the costs and the quotient of their doubles is past the tie above the whole number. It is never too low,
  and amounts in whole sixteenths are safe (`MonthlyModel.SixteenthsAreNotPastTie`).
- Money is announced as any multiple of 0.0001 up to one thousand million, but the check multiplies by 10000 in doubles and
  allows 1e-7. Amounts such as 65536.04 are refused (`PlanAmounts.CentsRefused`); `PlanAmounts.GridAmountAccepted` says
  exactly which: none below 53687.0912, and from there on those whose computed product is not whole.
- Toggling a mixed row twice does not restore the selection; `RowToggling.ToggleTwice` says it does exactly for the others.
- A worksheet whose input keys do not fit the field-key pattern is printed but not read back; `Worksheets.WorksheetRoundTrip`
  covers both cases and `Worksheets.CapitalKeyIsRefused` gives a sheet.
- Re-importing an export into its own store is refused when a draft carries a review mark, because import clears marks before
  it compares; `DraftTransfer.ImportIntoSame` gives the exact condition.
- Before the size check, sums in the money parser are exact integers only up to five decimals (`Money.SumsAreSafeUpToFive`).
  The result is the same for more: a sum beyond the limit is refused either way.

## Model

| member | source | states |
|---|---|---|
| CanonicalJson.CanonicalTextIsIdentity | scripts/evidence-integrity.ts:4-12 | two expressible values have the same canonical text if and only if they are equal up to the order of object keys, at every depth |
| CanonicalJson.PrefixFree | scripts/evidence-integrity.ts:4-12 | a canonical text followed by anything that may follow a value can be split in only one way, up to key order |
| CanonicalJson.SameRendersSame | scripts/evidence-integrity.ts:6-8 | values equal up to key order are printed alike, because keys are sorted |
| CanonicalJson.ReadStringEscape | scripts/evidence-integrity.ts:9-9 | a string reader undoes the escapes of every string, surrogate pairs and lone surrogates included |
| CanonicalJson.ReadNumberText | scripts/evidence-integrity.ts:9-9 | a number reader undoes the whole, mixed, small and scientific layouts of every shortest decimal |
| CanonicalForm.BeforeMeaning | scripts/evidence-integrity.ts:7-7 | the order of keys is that of code units at the first difference, a proper prefix first |
| CanonicalForm.KeysAscend | scripts/evidence-integrity.ts:7-7 | an object's keys are printed in strictly ascending order, each of them once |
| CanonicalForm.Spelling | scripts/evidence-integrity.ts:4-12 | the text of every kind of value in code units: the words null, true and false, items and members between their brackets joined by commas, key and value joined by a colon |
| CanonicalForm.StringSpelling | scripts/evidence-integrity.ts:9-9 | a string is printed unit by unit: surrogate pairs and plain units as themselves, seven units by a backslash and a letter, control codes and lone surrogates by four lower-case hexadecimal digits of their value |
| CanonicalForm.NumberSpelling | scripts/evidence-integrity.ts:9-9 | which of the four layouts a number takes by the place of its decimal point, and every character of it |
| Csv.ScanCells | public/local-first/sme-business-pack-core.js:380-400 | the loop over characters computes the scanner specification, with failures for a stray quotation mark, text after a closed cell and an unclosed cell |
| Csv.CsvTextRoundTrip | public/local-first/sme-business-pack-core.js:361-400 | scanning printed rows gives the rows the scanner keeps, and all of them exactly when no inner row is empty of text and the last is not one empty cell |
| CsvLayouts.ScanMeaning | public/local-first/sme-business-pack-core.js:380-400 | a text scans if and only if it is one cell after another, bare or in quotation marks in any mixture, each but the last ended by a comma, LF, CR or CRLF, and then gives the rows of that layout that are not blank |
| CsvLayouts.MarkInBareIsRefused | public/local-first/sme-business-pack-core.js:386-389 | a quotation mark inside a bare cell is refused, whatever comes before and after it |
| CsvLayouts.TextAfterClosingIsRefused | public/local-first/sme-business-pack-core.js:396-396 | a character after the closing mark of a cell is refused |
| CsvLayouts.UnclosedIsRefused | public/local-first/sme-business-pack-core.js:399-399 | a text ending inside quotation marks is refused |
| CsvLayouts.TwoBareCells | public/local-first/sme-business-pack-core.js:380-400 | the text a,b is one row of the cells a and b |
| Worksheets.SerializeWorksheets | public/local-first/sme-business-pack-core.js:364-379 | one to three worksheets are printed sheet by sheet under the header, refused by count or by encoded size and for no other reason |
| Worksheets.ParseWorksheetCsv | public/local-first/sme-business-pack-core.js:380-415 | scanning and the row-by-row decoder compute the decoding specification with all its refusals |
| WorksheetRows.RowsMeaning | public/local-first/sme-business-pack-core.js:402-414 | rows in any order are decoded if and only if each has seven cells, opens no sheet out of turn, holds readable JSON, and is evidence or a property or input not defined before for its sheet; every sheet then holds the metadata, inputs and evidence of its own rows in their order |
| WorksheetRows.ParseMeaning | public/local-first/sme-business-pack-core.js:380-415 | a file is read if and only if it has a CSV layout whose first kept row joins to the header and whose other rows fit |
| WorksheetRows.JoinedIsWritten | public/local-first/sme-business-pack-core.js:401-401 | cells joined by commas are the row as it is written without quotation marks |
| Worksheets.WorksheetRoundTrip | public/local-first/sme-business-pack-core.js:361-415 | every printed list of one to three worksheets is read back with its metadata, inputs and ordered evidence if all input keys fit the key pattern, and refused otherwise |
| Worksheets.CapitalKeyIsRefused | public/local-first/sme-business-pack-core.js:361-415 | a sheet with the single input key Price is printed but refused when read |
| RowTree.AncestorStackMeaning | public/local-first/agentic-base-data-view.js:210-210 | the stack left after popping for a row holds exactly its ancestors, by increasing depth |
| RowTree.GroupHasLeaf | public/local-first/agentic-base-data-view.js:210-210 | every row with a child has at least one leaf below it |
| RowSelection.BuildHierarchy | public/local-first/agentic-base-data-view.js:210-210 | one stack pass over rows with distinct ids gives the groups, ancestors, descendants and leaves defined by the depths |
| RowSelection.CountSelectedLeaves | public/local-first/agentic-base-data-view.js:210-210 | walking up from the selected leaves leaves every group with the number of selected leaves below it |
| RowSelection.AllChecks | public/local-first/agentic-base-data-view.js:210-210 | the counting pass gives every row the state of the simple three-state definition |
| RowSelection.Toggle | public/local-first/agentic-base-data-view.js:210-210 | the closure loop and the walk up the ancestors compute the toggled selection, listed in row order |
| RowToggling.CheckMeaning | public/local-first/agentic-base-data-view.js:210-210 | a group is checked when all its leaves are selected and mixed when only some are; any other row shows its own selection |
| RowToggling.ToggledMeaning | public/local-first/agentic-base-data-view.js:210-210 | after a toggle the row and everything below it have the new state, groups above follow their leaves, all other rows keep theirs |
| RowToggling.TogglePreservesConsistency | public/local-first/agentic-base-data-view.js:210-210 | if every group is selected exactly when all its leaves are, this is so after toggling any row |
| RowToggling.ToggleTwice | public/local-first/agentic-base-data-view.js:210-210 | toggling a row twice restores a consistent selection if and only if the row was not mixed |
| CollapsedRows.CollapsedPass | public/local-first/agentic-base-data-view.js:210-210 | the independent pass hides a row exactly when some ancestor is collapsed and counts its children |
| CollapsedRows.HiddenIsCollapsedAncestor | public/local-first/agentic-base-data-view.js:210-210 | the pass hides a row exactly when one of the ancestors listed by the hierarchy is collapsed |
| CollapsedRows.GroupsAreCounted | public/local-first/agentic-base-data-view.js:210-210 | a row is a group of the hierarchy exactly when the other pass counts a child for it |
| RowDepth.WrittenDepthReadsBack | public/local-first/agentic-base-data-view.js:210-210 | a depth written as a level cell is read back, cut off at eight, whatever the indent cell holds |
| RowDepth.LevelReads | public/local-first/agentic-base-data-view.js:210-210 | a cell of the letter L in either case and a number gives that level, at most eight; level zero leaves the row to its indent cell |
| RowDepth.IndentReads | public/local-first/agentic-base-data-view.js:210-210 | without a level, an indent cell that begins with the number n, with or without plus sign and whatever follows, gives half of n rounded down, at most eight, and zero where n is beyond the largest double |
| RowDepth.NoIndentReads | public/local-first/agentic-base-data-view.js:210-210 | without a level, an indent cell that does not begin with a number gives depth zero, as a missing one does |
| PathNesting.NestRows | public/local-first/sme-pack-dictionary.js:2-26 | filing every row under its trimmed path and visiting the tree computes the nesting specification |
| PathNesting.NestingKeepsRows | public/local-first/sme-pack-dictionary.js:6-25 | the data rows of the output are a permutation of the input rows |
| PathNesting.NestedItemsArePlaced | public/local-first/sme-pack-dictionary.js:16-24 | every output item stands below the group rows of its own path and every group row has a row one level below it |
| PathNesting.PlacedNeverSkips | public/local-first/sme-pack-dictionary.js:16-24 | the output starts at depth one and never goes down by more than one level |
| PathNesting.NestedDepthsAccepted | public/local-first/agentic-base-data-view.js:210-210 | the data view accepts the depths of the nested rows if and only if no path has more than seven labels |
| PathNesting.AncestorsAreOwnPath | public/local-first/agentic-base-data-view.js:210-210 | the ancestors the table finds for a nested item are the group rows of the prefixes of its own path, outermost first |
| PathNesting.GroupsAreInserted | public/local-first/agentic-base-data-view.js:210-210 | the groups the table finds are exactly the inserted group rows |
| PathNesting.NestingReadsBack | public/local-first/sme-pack-dictionary.js:2-26 | for paths of at most seven labels, reading the output as a table gives each row its trimmed path as ancestors and the group rows as groups |
| NestingOrder.NestingKeepsOrder | public/local-first/sme-pack-dictionary.js:5-25 | per path the output holds one group row, if anything lies there or below, followed by the rows of that path in input order |
| PlanAmounts.GridAmountAccepted | public/local-first/sme-business-pack-core.js:94-97 | an amount with at most four decimals is accepted if and only if it is below 53687.0912 or its product with 10000, computed in doubles, is the whole number it should be |
| PlanAmounts.SixteenthsAccepted | public/local-first/sme-business-pack-core.js:94-97 | amounts in whole sixteenths, whole amounts among them, are always accepted |
| PlanAmounts.CentsRefused | public/local-first/sme-business-pack-core.js:94-97 | the amount 65536.04 is refused |
| Doubles.RoundingKeepsGrid | public/local-first/sme-business-pack-core.js:178-178 | rounding gives back the double of every amount of the grid up to 2^49 steps |
| Doubles.GridOfIsNear | public/local-first/sme-business-pack-core.js:178-178 | rounding moves a value by little more than half a step, and a large one by a relative 3 in 2^53 at most |
| Doubles.SumStaysOnGrid | public/local-first/sme-business-pack-core.js:179-179 | the rounded sum of the doubles of two amounts of up to 2^48 steps each is the amount of their exact sum |
| Doubles.DifferenceStaysOnGrid | public/local-first/sme-business-pack-core.js:180-180 | the rounded difference of the doubles of two amounts of up to 2^48 steps each is the amount of their exact difference |
| Doubles.ProductStaysOnGrid | public/local-first/sme-business-pack-core.js:181-185 | the rounded product of the double of an amount and a count is the amount of the exact product, if that is up to 2^49 steps |
| Intervals.AddIsExact | public/local-first/sme-business-pack-core.js:179-179 | a known sum of ranges is the exact image of addition, both ends attained |
| Intervals.SubtractIsExact | public/local-first/sme-business-pack-core.js:180-180 | a known difference of ranges is the exact image of subtraction |
| Intervals.MultiplyIsExact | public/local-first/sme-business-pack-core.js:181-185 | a known product of ranges, signs mixed or not, is the exact image of multiplication |
| Intervals.PositivePartIsExact | public/local-first/sme-business-pack-core.js:186-186 | a known positive part is the exact image of the larger of zero and the value |
| TakeoverModel.CashToCloseIsExact | public/local-first/sme-business-pack-core.js:187-204 | cash to close is known if and only if nothing required is missing, and then contains the plain sum at every choice of points and attains both ends |
| TakeoverModel.LocationExposureIsExact | public/local-first/sme-business-pack-core.js:206-213 | the exposure is known exactly when a location applies and its inputs are present, and then is the exact image |
| TakeoverModel.CashShortfallIsExact | public/local-first/sme-business-pack-core.js:214-216 | the shortfall is known exactly when nothing is missing, and then is the exact image of the plain formula |
| TakeoverModel.OperatingDifferenceIsExact | public/local-first/sme-business-pack-core.js:217-221 | the operating difference is known exactly when nothing is missing, and then is the exact image |
| TakeoverModel.KnownExactly | public/local-first/sme-business-pack-core.js:187-221 | the inputs each of the four outputs needs, named one by one, with the currency of three capital letters and the location amounts wanted only where a location obligation applies |
| TakeoverModel.MissingInOrder | public/local-first/sme-business-pack-core.js:187-221 | missing inputs are listed once each, in the order in which they are first asked for |
| MonthlyModel.OperatingResultKnown | public/local-first/sme-business-pack-core.js:244-251 | the operating result is known if and only if all five inputs are present and revenue, variable cost and result stay within the largest safe integer; an absent input gives unknown, never zero |
| MonthlyModel.OperatingResultIsExact | public/local-first/sme-business-pack-core.js:249-251 | a known operating result is the exact image of the plain formula |
| MonthlyModel.BurnIsExact | public/local-first/sme-business-pack-core.js:259-259 | a known burn is the exact image of the larger of zero and the negated result |
| MonthlyModel.BreakEvenEnds | public/local-first/sme-business-pack-core.js:252-258 | a calculated break-even is never cut off; each end is the least covering volume of the cheapest or dearest choice, or one more exactly when that choice is past a tie, rounded to the grid |
| MonthlyModel.BreakEvenBounds | public/local-first/sme-business-pack-core.js:252-258 | at every choice of points the least covering volume is at most the high end, and the low end is at most one unit above it |
| MonthlyModel.BreakEvenContainsLeastVolume | public/local-first/sme-business-pack-core.js:252-258 | the range contains the least covering volume of every choice of points if and only if the cheapest choice is not past a tie |
| MonthlyModel.BreakEvenStatus | public/local-first/sme-business-pack-core.js:252-258 | with its four inputs present, the status says whether no choice of points, every choice, or only some earn something on a unit, and unknown otherwise |
| MonthlyModel.SixteenthsAreNotPastTie | public/local-first/sme-business-pack-core.js:256-257 | costs and unit contribution in whole sixteenths are never past a tie |
| MonthlyModel.OneUnitTooMany | public/local-first/sme-business-pack-core.js:252-258 | costs of 350 and a unit contribution of 0.70 give 501 to 501 units, while 500 is the least covering volume |
| Doubles.CeilingIsLeastOrNext | public/local-first/sme-business-pack-core.js:256-257 | the rounded-up quotient of doubles is the least covering whole number or one more, and one more only for an exact division |
| Doubles.CeilingPassesExactly | public/local-first/sme-business-pack-core.js:256-257 | for an exact division it is one more exactly when the double of the costs exceeds that of the unit contribution times the whole number and half its last place |
| MonthlyModel.LeastVolumeCovers | public/local-first/sme-business-pack-core.js:252-258 | the plain least volume the results above compare with: a whole volume covers the costs if and only if it is at least this one |
| MonthlyModel.RunwayContainsQuotient | public/local-first/sme-business-pack-core.js:259-263 | a calculated runway is never cut off, is ordered, and contains cash divided by burn at every choice to within one rounding step, or a relative 2^-50 where that is more |
| MonthlyModel.RunwayStatus | public/local-first/sme-business-pack-core.js:259-263 | no burn if and only if no choice of points burns; months if and only if cash is given and every choice burns; a crossing of zero if and only if cash is given and some choices burn and some do not; unknown otherwise |
| MonthlyModel.MayBurn | public/local-first/sme-business-pack-core.js:259-263 | a price of 9 to 11 for 100 units against costs of 1000 crosses zero |
| MonthlyModel.ZeroBurnBranchIsGeneral | public/local-first/sme-business-pack-core.js:273-275 | the branch for no burn gives what the general formula would |
| MonthlyModel.FundingKnown | public/local-first/sme-business-pack-core.js:264-276 | the gap is known if and only if every input of its path is present and neither the result nor the largest need is too large, and the difference if and only if the gap is known and a request is present; an undecided path gives unknown |
| MonthlyModel.FundingGapIsExact | public/local-first/sme-business-pack-core.js:264-275 | a known funding gap is the exact image of the plain formula, whichever branch computed it |
| MonthlyModel.FundingDifferenceIsExact | public/local-first/sme-business-pack-core.js:276-276 | a known difference between request and gap is the exact image of the plain formula |
| SourceFrames.UpdateFileContentFrame | scripts/evidence-source-fingerprint.ts:184-209 | streaming a file chunk by chunk succeeds exactly for a stable read of the announced size, and then appends the one frame of its content |
| SourceFrames.UpdateEntryFrames | scripts/evidence-source-fingerprint.ts:174-178 | the three leading frames are appended in order |
| SourceFrames.UpdateEntry | scripts/evidence-source-fingerprint.ts:141-168 | one listed path is accepted exactly when it is usable and the total stays in budget, and then its four frames are appended |
| SourceFrames.DigestEntries | scripts/evidence-source-fingerprint.ts:136-172 | the digest exists exactly when every path is usable and all contents together fit the budget, and is that of the frames of all entries |
| SourceFrames.DecodeUndoesEncode | scripts/evidence-source-fingerprint.ts:174-218 | a decoder recovers every list of entries, missing files and links included, from its stream of length-framed fields |
| SourceFrames.EntryBytes | scripts/evidence-source-fingerprint.ts:141-178 | the literal bytes of mode and kind between the frames of path and content, for missing paths, links, plain and executable files |
| SourceFrames.DigestIdentifiesTree | scripts/evidence-source-fingerprint.ts:136-182 | with a collision-free digest two entry lists have the same digest if and only if they are the same list |
| CommitRange.SplitNul | scripts/evidence-source-fingerprint.ts:251-261 | the loop cuts a buffer after every NUL, keeping a non-empty rest |
| CommitRange.PartsOfTerminated | scripts/evidence-source-fingerprint.ts:251-261 | splitting undoes the NUL-terminated form of every list of NUL-free names |
| CommitRange.EvidenceOutputOfPlainName | scripts/evidence-source-fingerprint.ts:246-249 | for names without backslash and byte order mark the test is exactly membership of the evidence directory |
| CommitRange.EvidenceOutputMeaning | scripts/evidence-source-fingerprint.ts:246-249 | a path counts as evidence output if and only if, behind a byte order mark or not, it spells docs/evidence-verdicts with slashes of either kind and ends there or goes on with a slash of either kind |
| CommitRange.BelowDirectoryIsEvidence | scripts/evidence-source-fingerprint.ts:246-249 | every path of the evidence directory passes the test |
| CommitRange.BackslashNameIsEvidence | scripts/evidence-source-fingerprint.ts:246-249 | a root file spelling the directory with a backslash passes the test as well |
| CommitRange.EvidenceOnlyCommitRange | scripts/evidence-source-fingerprint.ts:225-244 | the nested loops accept exactly when every listed commit has parents and every parent edge reports evidence paths only |
| CommitRange.RangeMeaning | scripts/evidence-source-fingerprint.ts:225-244 | acceptance means every commit reachable from the current and not from the recorded head is harmless, and nothing less when Git always answers |
| CommitRange.AcceptedRangeKeepsSource | scripts/evidence-source-fingerprint.ts:82-98 | across an accepted range from an ancestor the two trees agree on every path that is not evidence output |
| CommitRange.AuthoredSourceIsCurrent | scripts/evidence-source-fingerprint.ts:82-98 | the check accepts exactly equal fingerprints with equal heads, or an ancestor with an accepted range |
| CommitRange.CurrentMeansSameSource | scripts/evidence-source-fingerprint.ts:82-98 | an accepted fingerprint differs at most in its head, and the committed trees agree off the evidence paths |
| CommitRange.CurrentExactly | scripts/evidence-source-fingerprint.ts:82-98 | when Git answers, a fingerprint still counts if and only if it differs in its head at most and that head is the current one or, with a usable workspace, an ancestor of it with only harmless commits between them |
| CommitRange.CurrencyIsTransitive | scripts/evidence-source-fingerprint.ts:82-98 | when Git answers, evidence that carries over twice carries over at once |
| CommitRange.RangeIsReflexive | scripts/evidence-source-fingerprint.ts:82-98 | every commit is accepted against itself by the ancestor and range questions too |
| CommitRange.KeptExactlyOffEvidence | scripts/evidence-source-fingerprint.ts:225-249 | a path is unchanged across every accepted range of every history if and only if it does not pass for evidence output |
| CommitRange.DisguisedChangePasses | scripts/evidence-source-fingerprint.ts:225-249 | a concrete history and true answers of Git about it, accepted although a root file outside the directory was added |
| LaunchTerms.InvalidLaunchFields | public/local-first/drafts.js:29-50 | the loops report the failing fields in check order, the whole value first, and nothing exactly for valid terms |
| LaunchTerms.FailingMeaning | public/local-first/drafts.js:34-49 | a field is reported if and only if its own check fails |
| LaunchTerms.NothingFailing | public/local-first/drafts.js:62-62 | launch terms are valid exactly when nothing is reported |
| LaunchTerms.ValidTermsMeaning | public/local-first/drafts.js:29-62 | valid launch terms are the eleven fields and nothing else, each within its own limits |
| DraftRecords.ClearedIsValid | public/local-first/drafts.js:14-27 | clearing the review mark of an otherwise valid workflow, whatever the mark was, gives a valid unmarked one |
| DraftRecords.NormalizeGivesNormal | public/local-first/drafts.js:189-194 | exactly the records valid in one of the three forms can be read; reading gives all nine keys and keeps the seven core fields and the workflow |
| DraftRecords.NormalizeIsIdempotent | public/local-first/drafts.js:189-194 | reading what was read changes nothing |
| DraftRecords.NormalizeRestoresWorkflowKey | public/local-first/drafts.js:189-200 | a draft written without its empty workflow key reads back as it was |
| DraftTransactions.CollectAdditions | public/local-first/drafts.js:175-181 | the loop reports a conflict exactly when some incoming draft differs from the saved one, and otherwise gathers the new drafts in order |
| DraftTransactions.DraftStore.SaveDraft | public/local-first/drafts.js:127-161 | the whole new store and result of a save; a refused save leaves the store unchanged |
| DraftTransactions.DraftStore.ImportDrafts | public/local-first/drafts.js:163-187 | the whole new store and result of an import; a refused import leaves the store unchanged |
| DraftTransactions.IncomingIsNormal | public/local-first/drafts.js:79-93 | whatever an import parses are at most one hundred readable drafts with distinct ids and no review marks |
| DraftRuns.SaveEffect | public/local-first/drafts.js:127-161 | a successful save expected the current revision, raises it by one, changes only its own draft, keeps its creation time and never moves its update time back |
| DraftRuns.SaveReadsBack | public/local-first/drafts.js:146-158 | a saved draft reads back with the given texts, the title trimmed; with the launch terms given, null or exactly those fields, and otherwise those it had; with the job given, and otherwise the one it had, its review mark null exactly when title or description differ; with the next revision, the first creation and the latest update time |
| DraftSaves.SaveSucceeds | public/local-first/drafts.js:127-161 | a save succeeds if and only if the caller saw the latest revision, the host agrees to a first job, there is room for a new draft, and every field is within its limits |
| DraftSaves.SaveRefused | public/local-first/drafts.js:136-156 | each reason for a refusal is given exactly when its test is the first to fail |
| DraftRuns.ImportEffect | public/local-first/drafts.js:163-187 | an import adds only unmarked drafts under new ids and leaves every old draft as it is |
| DraftImports.ParsesExactly | public/local-first/drafts.js:79-90 | a text is read as a document if and only if it is at most 8 MB, is JSON, and has one of the three versions with at most a hundred drafts of its form and distinct ids |
| DraftImports.ParsesItems | public/local-first/drafts.js:91-92 | every draft of a document is read from its own item: its fields kept, what its version lacks null, a job without its review mark |
| DraftImports.ImportSucceeds | public/local-first/drafts.js:163-187 | an import succeeds if and only if the document is read, the host agrees to its jobs, none of its drafts differs from the saved one of its id, and all together are at most a hundred |
| DraftImports.ImportReadsBack | public/local-first/drafts.js:163-187 | after an import every draft of the document is in the store and reads as in the document |
| DraftRuns.StepKeepsHistory | public/local-first/drafts.js:127-187 | one transaction of either kind keeps the store valid and every draft; a failed one changes nothing |
| DraftRuns.RunKeepsValid | public/local-first/drafts.js:64-187 | over every run all drafts stay readable, review marks match title and description, and there are at most one hundred |
| DraftRuns.RunKeepsHistory | public/local-first/drafts.js:127-187 | over every run a draft is never lost, keeps its creation time, is never updated backwards, and its revision grows by exactly its successful saves |
| DraftRuns.SameExpectationSucceedsOnce | public/local-first/drafts.js:136-139 | of the saves of one draft that expect the same revision at most one succeeds in a run: a later success expects a larger one |
| DraftTransfer.ParseOfDocument | public/local-first/drafts.js:79-93 | parsing an exported document of either form gives the exported drafts without marks, unless it exceeds the size limit |
| DraftTransfer.ImportIntoEmpty | public/local-first/drafts.js:163-200 | importing an export into an empty store succeeds exactly within the size limit and with consent for jobs, and rebuilds every normalized draft with marks cleared |
| DraftTransfer.ImportIntoSame | public/local-first/drafts.js:163-200 | importing an export into the same store never changes it, and succeeds exactly when, in addition, no draft carries a review mark |
| EvidenceContracts.ReceiptIsResolved | scripts/evidence-dispatch-receipt.ts:175-207 | the digest of an accepted receipt is never the placeholder digest |
| EvidenceVerdicts.ParseEvidenceRequest | scripts/evidence-verdict-runner.ts:405-444 | a request is accepted exactly when all its fields and surfaces are in order, and otherwise gives one finding |
| EvidenceVerdicts.LoadSurfaces | scripts/evidence-verdict-runner.ts:116-162 | the loops over surfaces and normalized open findings gather what was loaded and found, in order |
| VerdictValidation.NormalizedMeaning | scripts/evidence-verdict-runner.ts:572-574 | the open findings are reported trimmed, each text once and in order, and none is lost |
| EvidenceVerdicts.EvaluateEvidenceRequest | scripts/evidence-verdict-runner.ts:89-232 | the step-by-step evaluation seals the verdict that the findings and loaded surfaces determine |
| VerdictValidation.LoadFacts | scripts/evidence-verdict-runner.ts:446-513 | whatever is loaded has the right digest, command, source, policy and trusted receipt, and loads without a finding exactly when its check ran and passed |
| EvidenceAcceptance.LoadedExactly | scripts/evidence-verdict-runner.ts:446-513 | a surface is loaded if and only if its file holds an artifact that counts: names and file digest match, fields, digests and signature in order, source current and stable, policy the same, receipt for this task, source and performer and signed by another trusted issuer, output complete and visible on one channel at least; there is no finding exactly when its check also ran and passed |
| EvidenceAcceptance.FindingHasCause | scripts/evidence-verdict-runner.ts:446-513 | a surface has at most one finding, and what its code says is so |
| VerdictValidation.LoadedFacts | scripts/evidence-verdict-runner.ts:116-136 | everything loaded comes from a surface of the request |
| VerdictValidation.AllLoaded | scripts/evidence-verdict-runner.ts:116-136 | without findings every surface was loaded in its place and its check ran and passed |
| VerdictValidation.SameFindings | scripts/evidence-verdict-runner.ts:567-570 | the reported findings are exactly those gathered |
| VerdictValidation.FindingsAreSortedOnce | scripts/evidence-verdict-runner.ts:567-570 | reported findings are in order and each appears once |
| VerdictValidation.ReferencesComeFromSurfaces | scripts/evidence-verdict-runner.ts:515-523 | every reference reports a loaded check that ran and passed, under the role and digest of a matching surface; the missing-source error never happens |
| VerdictValidation.TwoReferences | scripts/evidence-reference.ts:24-33 | two passed checks on distinct surfaces give exactly their two references, the aggregate check first |
| VerdictValidation.VerifiedExactlyWithoutFindings | scripts/evidence-verdict-runner.ts:213-216 | a verdict is verified if and only if nothing at all was found |
| VerdictValidation.StatusIsOk | scripts/evidence-reference.ts:43-55 | a failed verdict has a finding and is blocked; a verified one has neither and a resolved receipt |
| VerdictValidation.RunEvidenceVerdict | scripts/evidence-verdict-runner.ts:234-251 | exactly the verdicts tied to a source, a task and a policy are persisted, and each satisfies the validator |
| VerdictValidation.PersistedVerdictIsValid | scripts/evidence-verdict-runner.ts:367-403 | every verdict fit to be persisted satisfies the independent validator |
| VerdictValidation.VerifiedMeaning | scripts/evidence-verdict-runner.ts:89-232 | a verified verdict has one reference per role on distinct surfaces, each resting on a file whose check ran and passed under one shared receipt for this task from a trusted issuer other than the performer; no open finding was declared |
| EvidenceAcceptance.VerifiedExactly | scripts/evidence-verdict-runner.ts:89-232 | a verdict is verified if and only if the request is well-formed with nothing open and one surface per role in two places, baseline, bounds, trust, Git, source and evidence folder are resolved, the source has not moved, and both surfaces hold evidence of checks that ran and passed under one receipt |
| EvidenceReports.ReportedExactly | scripts/evidence-verdict-runner.ts:89-232 | unresolved bounds, an unavailable source, a missing anchor, an unattested evidence folder, a moved source, open findings and an invalid request are each reported exactly when they are so |
| EvidenceReports.VerifiedContents | scripts/evidence-verdict-runner.ts:196-232 | a verified verdict names its task, both checks, the source at the start and the trust policy, reports nothing and reaches the rung source-verified |
| VerifiedSource.VerifiedMeansSameSource | scripts/evidence-verdict-runner.ts:89-232 | with truthful Git and a collision-free digest a verified verdict is about one source: both checks and both ends of the evaluation have fingerprints that differ at most in the head, were taken of the same entries, and have committed trees that agree off the evidence paths |
| Money.MoneyRoundTrip | public/local-first/launch.js:113-121 | parsing undoes the fixed-decimal rendering of every amount up to one billion at every precision |
| Money.ParseExactly | public/local-first/launch.js:113-121 | every text: not an amount unless digits, or digits on both sides of one point; too precise beyond ten digits before the point or the currency's after it; too large above one billion; otherwise the amount its digits say |
| Money.SameAmountSameDigits | public/local-first/launch.js:113-121 | two accepted texts mean the same amount if and only if they differ only in leading zeros of the whole part and trailing zeros of the fraction |
| Money.SumsAreSafeUpToFive | public/local-first/launch.js:117-119 | every sum formed before the size check is a safe integer exactly for precisions up to five |
| Money.NinesSum | public/local-first/launch.js:117-118 | ten nines pass the length check and exceed the safe integers at every precision from six on |
| LaunchEconomics.BreakEvenIsLeast | public/local-first/launch.js:53-64 | with a sale bringing the price less the four named costs, break-even is the least number of sales that leaves nothing owing, absent exactly when a sale earns nothing, and the other figures are what one and ten sales leave |
| LaunchEconomics.EvaluateOfferSetup | public/local-first/launch.js:34-46 | the status is reviewable exactly when terms and title are valid and a sale earns something, which is exactly when no step needs a field |
| LaunchEconomics.StepsCoverFields | public/local-first/launch.js:35-43 | the three steps share out all reported fields |
| StayMonths.TextOrderIsDateOrder | public/local-first/housing-engine.js:51-52 | comparing date texts as strings is comparing the dates |
| StayMonths.CountedExactlyInOrder | public/local-first/housing-engine.js:51-55 | there is a count exactly for two calendar dates in order, and it is at least one |
| StayMonths.CountIsLeast | public/local-first/housing-engine.js:53-54 | a count is at most n, for every n from one, if and only if the end date does not come after the same day n calendar months past the start |
| StayMonths.MonthsGrow | public/local-first/housing-engine.js:53-54 | the count grows with the end date and shrinks with the start date |
| StayMonths.MonthsSplit | public/local-first/housing-engine.js:53-54 | splitting a stay counts at most one month twice and loses none |
| StayMonths.OverhangOfLease | public/local-first/housing-engine.js:63-88 | a lease within the stay has no overhang and no overhang cost; one that ends later has at most the months after the stay |
| StayMonths.OverhangIsLeast | public/local-first/housing-engine.js:82-88 | the overhang is the least number of months that, added to those of the stay, takes the lease to its end |
| StayMonths.OverhangOfLongerLease | public/local-first/housing-engine.js:63-88 | the overhang costs exactly one rent for each month the lease dates span beyond the stay, and nothing when a count is missing or the lease is not longer |
| StayMonths.SixRents | public/local-first/housing-engine.js:51-88 | a lease of twelve months over a stay of six costs six rents after the stay |
| ContainerArguments.PodmanArguments | scripts/container-runtime.ts:12-22 | the index loop computes the rewriting specification |
| ContainerArguments.PodmanBuildTag | scripts/container-runtime.ts:26-39 | the index loop computes the tag specification |
| ContainerTags.TagMeaning | scripts/container-runtime.ts:26-39 | the tag is the one value after -t or --tag, or after --tag= in option position before the end of options, of a build whose last flag has its value, if it names a sandbox image by eight hexadecimal digits |
| ContainerArguments.RewritingKeepsTag | scripts/container-runtime.ts:12-39 | the requested tag is the same before and after rewriting, for every argument list |
| ContainerArguments.RewritingLeavesOutOptions | scripts/container-runtime.ts:12-22 | the result is the input without exactly the disabled options in option position before the end of options |
| ContainerArguments.RewritingIsIdempotent | scripts/container-runtime.ts:12-22 | rewriting twice is rewriting once |
| OutputBudget.Attachment.OnData | scripts/isolated-process.ts:155-160 | a chunk updates chunks, count and flags as the budget step does |
| OutputBudget.Attachment.OnDeadline | scripts/isolated-process.ts:141-153 | the deadline or an abort marks the time-out and stops once |
| OutputBudget.BudgetIsExact | scripts/isolated-process.ts:138-160 | after any interleaving each channel keeps its share of the first maximum bytes, truncation is reported exactly when more was received, and the container is killed once if stopped at all |
| OutputBudget.RetainedTotal | scripts/isolated-process.ts:155-160 | both channels together retain the smaller of what was received and the maximum |
| OutputBudget.ChannelsKeepPrefixes | scripts/isolated-process.ts:155-160 | each channel keeps a prefix of its own stream, all of it unless truncation is reported |

## Left out

- Rendering, dialogs, service workers, checkout and other user interface code.
- The third-party code bundled with the data view; only the row algorithms on its line 210 are modelled.
- File system, Podman, Git subprocess and fetch calls, stable-file checks and atomic writes: their outcomes are parameters.
- Cryptography: digests are functions, signatures predicates.
- Locale-aware comparison and number formatting: orders and precisions are parameters; ties of an order are not examined.
- MonthlyModel.OperatingResultIsExact: sums and products are exact integers at every size, which the source's doubles are not beyond `Doubles.GRID_LIMIT` (2^49 steps, about 56 thousand million); from about 9.0e11 (2^53 steps) on its rounding leaves the grid. Revenue, the product of price and units, can be that large; so can the burn and gap computed from it.
- PlanAmounts.GridAmountAccepted: amounts off the grid that the check accepts, at most 1e-11 away from it, are not modelled; the models take amounts on the grid.
- JavaScript values beyond plain data: sparse arrays, `toJSON` methods, symbols, negative zero told apart from zero, integer-like object keys that enumerate first.
- Lone surrogates outside canonical JSON, where strings are sequences of Unicode characters.
- The baseline, trust-anchor and snapshot readers of the verdict runner: what they guarantee about their results is `VerdictValidation.FactsOk`.
- The order in which drafts are listed and exported: the transfer results hold for every order.
- The sorting, exclusion and duplicate check of listed source paths before digesting.
- The mismatch and unknown lists of the housing assessment, evidence coverage and checklists of the plan evaluator: field-by-field conditions.
- Worksheets in JSON and Markdown form: only the CSV form has a parser of its own.
- Release control, sandbox receipts, runtime context and the validation scripts.
- PathNesting.NestRows: the tree of maps is a value rebuilt on insertion, so sharing between its nodes is not captured.
- DraftRecords.NormalizeGivesNormal: the order of a draft's own keys is not modelled, as no code observes it; the order inside launch terms and workflows is.
- StayMonths.CountedExactlyInOrder: a text of date shape that names no day of the calendar gives no count, whether an engine would roll the date over or throw.
- OutputBudget.BudgetIsExact: decoding the retained bytes as text and the failure of the kill command are not modelled.
