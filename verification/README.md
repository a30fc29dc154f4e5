# Verified models of a hardware-release checker

A release checker reads what an electronics project hands to a fabricator (schematics, board
files, Gerber and drill files, bills of material) and says whether it may be released. Most of it
is orchestration. The parts below decide something by an algorithm, and this project states what
each of them promises and proves it for every input.

- **The diff behind a fix plan** (`MyersDiff`): a greedy search over edit distances, its saved
  frontiers and the backtrack, which may run off the grid of lines and is clipped back onto it.
- **Exact plane distances** (`PlaneDistance`): point to path and path to path, with the
  orientation test that decides whether two paths meet.
- **The S-expression reader** (`SexprSyntax`, `SexprReader`, `SexprSlices`, `SexprReparse`,
  `SexprSpans`, `SexprSearch`, `SexprPrinting`, `SexprErrors`): a stack machine over a mutable
  position, source spans, the search for lists by their head, callers that cut a list's source out
  of the text and parse it again, and what is reported of malformed text.
- **The board outline** (`BoardOutline`, `OutlineWalk`, `OutlineTheory`, `AreaLaws`): a closure
  test by counting rounded end points, a separate greedy loop walk by tolerance, and the area of
  what was walked.
- **Gerber files** (`GerberTokenizer`, `GerberStream`, `CoordinateFormat`, `GerberText`,
  `GerberOperations`, `GerberDeclarations`, `GerberApertures`, `GerberFileState`, `GerberScope`,
  `GerberReport`, `GerberStatements`, `GerberComments`, `GerberPlacements`, `GerberEvidence`,
  `GerberGeometry`, `GerberArtwork`, `GerberEvents`, `GerberContours`, `GerberExtents`,
  `GerberPublished`, `GerberParser`, `GerberHeader`, `GerberDefaults`, `GerberScaling`): the
  tokenizer with its recovery at line breaks, the scoped walk over the file's state, the walk over
  its artwork, and the bounded collection of geometry. Section numbers in the Gerber Layer Format
  Specification (Ucamco): 4.2.2 for the coordinate format, 4.8 for D01/D02/D03, 4.10 for regions,
  4.11 for aperture blocks.
- **The schematic hierarchy** (`SchematicGraph`, `SheetReferences`, `SheetTraversal`): a breadth-first walk over
  sheet references that may be cyclic, with a cap.
- **Smaller state machines**: log rotation (`LogRotation`), the exact output-set check
  (`GeneratedOutput`, `GeneratedOutputPlaces`, `GeneratedOutputCheck`), the overlay of planned
  fixes (`FixPlan`) and the target names of a handoff package (`Handoff`).

`Options`, `Collections`, `Characters` and `Reals` hold what several of them share. Programs that change state are
classes and methods with loops; each is tied to a function or a relation over values, and the
properties are proved of that function over all inputs, all runs or all reachable states.
Numbers are exact: `int`, or `real` where the source divides.

Two properties fail, and the models say exactly when they hold. An outline that passes the closure
test can still stop the walk at a dead end (`ClosedOutlineCanDeadEnd`), because being the same
point by tolerance need not be transitive: for any set of points, every outline through them that
passes the test is walked if and only if the tolerance is transitive on those points
(`ClosedOutlinesAreWalkedExactlyWhenTransitive`), which a caller can check beforehand. It is where
tolerance and rounding tell the same points apart, and then the chains are also simple and
disjoint (`ClosedOutlineIsWalked`). In exact numbers that is so on the 0.0001 mm grid
(`GridIsSeparated`), but not in the program's doubles, where 1.0001 - 1.0 and 1.0002 - 1.0001 both
come out below 0.0001, so three grid points can fail to be transitive; there the condition has to
be checked with the program's own comparison.

And a Gerber comment is not always skipped, although the source means no operation inside one to
be plotted (src/multicad/gerber-parser.ts:392-395, 740-743). White space is dropped before the
G-code is read, so the digits a comment starts with join its code: `G04 1X5Y7D01*` has code 41 and
draws (`CommentCanBeDrawn`), and `G04 1D10*` selects an aperture (`CommentCanSelect`). A comment is
recognised if and only if its text does not start with a digit (`CommentIsRecognisedExactly`), and
if it is not, it is read like any other word in file scope (`CommentIsReadExactly`).

One lookup depends on a condition of its callers, and they meet it. A planned text is looked up
under the spelling of the file name, not under its resolved path. Every caller passes a name
resolved beforehand (src/cli/fixes.ts:487, 530, 572, 588, 620-625, 747) except for bill-of-material
paths found by pattern (:753), each of which is read once, before its change (:334). Under that
condition every read through the overlay sees the text the last request for its file left
(`ReadsSeeTheLastText`), and applying the plan leaves those texts on the disk
(`RunsLeaveTheLastTexts`). `ReadingGivesTheView` is the exact condition for any future caller, and
`RespelledFileIsMissed` a hypothetical one that breaks it; the plan itself stays sound under any
spelling (`RunsStayInAgreement`).

Where a comment of the source and its code differ, the code is followed. The tokenizer's comment
says that after a command without its terminator reading resumes at the next line
(src/multicad/gerber-parser.ts:236-242); the code resumes at the character where the scan gave up,
which for a word command can be a percent sign on the same line, and the model does the same. And
where a comment speaks of draws and flashes under clear polarity
(src/multicad/gerber-parser.ts:563-567), the code counts a move as well.

## Model

| member | source | states |
|---|---|---|
| MyersDiff.DiffLines | src/cli/fix-diff.ts:64-94 | the script reads exactly the lines before and writes exactly the lines after; no script shows fewer `+` and `-` lines, and the number is both lengths less twice a longest common subsequence; the final empty return is never reached |
| MyersDiff.BacktrackDiff | src/cli/fix-diff.ts:96-137 | retracing the saved frontiers gives a script of both sides whose cost is the number of rounds, whatever frontiers a search saved |
| MyersDiff.FurthestOnDiagonal | src/cli/fix-diff.ts:71-83 | one diagonal's step ends where the equal lines from the further neighbour end |
| MyersDiff.StepIsPresent | src/cli/fix-diff.ts:139-141 | the diagonal a step comes from was always recorded, so the missing-diagonal default never reaches a result |
| MyersDiff.FrontierIsFurthest | src/cli/fix-diff.ts:64-94 | no script of cost c gets ahead of the frontier of round c on its diagonal |
| MyersDiff.ClippedPoint | src/cli/fix-diff.ts:71-83 | a frontier point beyond the last line of either side can be clipped back to a real script that saves one operation for each step beyond |
| MyersDiff.FirstEndIsExact | src/cli/fix-diff.ts:84-88 | the first point that passes the end test is the corner itself, never a point off the grid |
| MyersDiff.NoEndNoScript | src/cli/fix-diff.ts:64-94 | rounds that have not ended mean every script costs at least as much as the next round |
| MyersDiff.SearchEnds | src/cli/fix-diff.ts:66-94 | the search cannot run its full bound without ending |
| MyersDiff.ScriptsKeepACommonSubsequence | src/cli/fix-diff.ts:64-94 | what any script keeps is a common subsequence, so none is cheaper than a longest one allows |
| MyersDiff.LcsScript | src/cli/fix-diff.ts:64-94 | a script of that cost exists for every pair of files |
| MyersDiff.LeastCost | src/cli/fix-diff.ts:64-94 | a cheapest script costs both lengths less twice a longest common subsequence |
| PlaneDistance.PointToSegmentIsNearest | src/multicad/gerber-geometry.ts:612-627 | the distance is attained on the path and no point of the path is nearer, degenerate paths included |
| PlaneDistance.CrossesExactlyWhenShared | src/multicad/gerber-geometry.ts:655-696 | the orientation test holds of two paths with a direction if and only if they share a point, touching and overlapping included |
| PlaneDistance.EndpointsSuffice | src/multicad/gerber-geometry.ts:635-644 | unless the paths cross, the least of four endpoint distances is below the distance of every two points |
| PlaneDistance.SegmentDistanceIsExact | src/multicad/gerber-geometry.ts:635-644 | the distance of two paths is attained, is a lower bound, and is zero if and only if they share a point, degenerate paths included |
| SexprReader.ParseSexprDocument | src/kicad/sexpr.ts:46-67 | the loop over a mutable position builds the document of the reader's steps, and closes open lists at the end of the text |
| SexprReader.Reader.ProcessToken | src/kicad/sexpr.ts:268-318 | one token takes the reader to the next state, and line and column stay those of the offset |
| SexprReader.Reader.ParseString | src/kicad/sexpr.ts:177-210 | a string ends at its first bare quote, with its escapes decoded, or is reported unclosed |
| SexprReader.Reader.ParseAtom | src/kicad/sexpr.ts:212-224 | an atom is the longest run without a delimiter |
| SexprReader.Reader.SkipComment | src/kicad/sexpr.ts:226-237 | a comment ends after its line break, or with the text |
| SexprReader.Reader.CloseOpenLists | src/kicad/sexpr.ts:58-64 | lists still open are ended where the text ends, innermost first, one error each |
| SexprSlices.DocumentListsAreRuns | src/kicad/sexpr.ts:268-318 | in a document without errors every list at every depth is exactly what reading its own source range produces |
| SexprReparse.OwnRunReparses | src/kicad/sexpr.ts:140-142 | the source slice of such a list parses alone, without errors, to the same tree with shifted spans |
| SexprReparse.ExtractedBlocksReadTheSame | src/kicad/sexpr.ts:69-78 | in a document without errors each extracted block parses without errors to its list, and the value read out of the block is the value of the list in place |
| SexprSearch.FoundExactly | src/kicad/sexpr.ts:85-103 | for every document a node is found if and only if it is a list with that head at the end of some path of child indices |
| SexprSearch.FoundInOrder | src/kicad/sexpr.ts:85-103 | no list is found twice, and they are found in the order in which they start |
| SexprSearch.PlacesDiffer | src/kicad/sexpr.ts:85-103 | different paths lead to different nodes, so one node found stands in one place |
| SexprSearch.BlocksAreTheLists | src/kicad/sexpr.ts:69-103 | the blocks extracted from any text are exactly the source texts of its lists with the head, at any depth, in the order of the text |
| SexprSearch.ListsAreExtracted | src/kicad/sexpr.ts:69-103 | in a document without errors the list with the head at the end of any path is extracted as a block that is a document of its own and gives the value behind its head |
| SexprSpans.DocumentIsPlaced | src/kicad/sexpr.ts:252-318 | for every text, malformed ones included, sibling nodes are ordered and disjoint, children lie inside their list, and lines and columns follow from the text before them |
| SexprSpans.PositionIsCounted | src/kicad/sexpr.ts:252-266 | the line of an offset is one more than the line breaks before it, and its column one more than the characters since the last of them |
| SexprPrinting.ParseUndoesPrint | src/kicad/sexpr.ts:46-67 | printing legal trees, with any strings escaped, and parsing the text gives the same trees and no errors, up to the nesting limit |
| SexprPrinting.ParsesExactlyWithinLimit | src/kicad/sexpr.ts:281-290 | the printed text of legal trees parses without errors if and only if no list is nested deeper than 512 |
| SexprPrinting.ParseUndoesSpelling | src/kicad/sexpr.ts:46-67 | legal trees within the limit, laid out with any white space and comments between items and parentheses, come back without errors |
| SexprPrinting.SpellingParsesExactlyWithinLimit | src/kicad/sexpr.ts:281-290 | however they are laid out, legal trees parse without errors if and only if no list is nested deeper than 512, and otherwise one is reported as too deep |
| SexprErrors.MalformedIsReported | src/kicad/sexpr.ts:46-67 | within the limit a text with any parentheses too many or too few, and perhaps an open string at its end, keeps all its trees and reports exactly: each parenthesis too many where it stands, then the string, then each list left open up to the end of the text, innermost first |
| BoardOutline.IsOutlineClosed | src/kicad/pcb.ts:233-245 | the counting test holds if and only if there is a rectangle or circle, or there are segments and every rounded point ends exactly two of them |
| BoardOutline.PolygonArea | src/kicad/pcb.ts:364-373 | the loop computes half the absolute shoelace sum, which `RectangleArea`, `AreaIsIndependentOfPlace` and `DiagonalSplits` show to be the area |
| BoardOutline.AreaIsIndependentOfWalk | src/kicad/pcb.ts:364-373 | the area depends neither on the corner a polygon starts from nor on its direction |
| AreaLaws.RectangleArea | src/kicad/pcb.ts:364-373 | a rectangle has the product of its sides, whichever two opposite corners it is given by |
| AreaLaws.AreaIsIndependentOfPlace | src/kicad/pcb.ts:364-373 | moving a polygon leaves its area alone |
| AreaLaws.DiagonalSplits | src/kicad/pcb.ts:364-373 | the signed sum of a polygon is that of the two polygons any diagonal cuts it into |
| OutlineWalk.OrderedLoopArea | src/kicad/pcb.ts:323-348 | the walk that splices segments out of a list reports the net area of the chains of the greedy walk, or nothing at a dead end; `LoopIsMeasured` says what that is for a loop |
| AreaLaws.LoopIsMeasured | src/kicad/pcb.ts:323-348 | the outline of the sides of any polygon, none of whose later corners is the same point as its first, has the area of the polygon |
| AreaLaws.RectangleIsMeasured | src/kicad/pcb.ts:323-348 | in particular the four sides of a rectangle of more than the tolerance each way have width times height |
| OutlineTheory.ClosedOutlinesAreWalkedExactlyWhenTransitive | src/kicad/pcb.ts:323-352 | for any set of points, every outline with its ends among them that passes the closure test is walked if and only if the tolerance is transitive on the set |
| OutlineTheory.WalkSucceedsExactlyWhenCrowdsAreEven | src/kicad/pcb.ts:323-352 | where the tolerance is transitive on the ends of an outline, its walk meets no dead end if and only if every end is the same point as an even number of ends |
| OutlineTheory.NearMissDeadEnds | src/kicad/pcb.ts:323-352 | for any three points of which the outer two are the same as the middle one but not as each other, the walk of three segments through them dead-ends |
| OutlineTheory.NearMissPasses | src/kicad/pcb.ts:233-245 | and if rounding tells the three points apart, those segments pass the closure test |
| OutlineTheory.WalkSucceedsExactlyWhenEven | src/kicad/pcb.ts:323-348 | where rounding and tolerance agree, the walk meets no dead end if and only if every key has an even degree |
| OutlineTheory.ClosedOutlineIsWalked | src/kicad/pcb.ts:233-245 | where rounding and tolerance agree, an outline that passes the closure test is walked through every segment once, in closed chains that visit no point twice and no two of which share a point |
| OutlineTheory.WalkCoversEverySegment | src/kicad/pcb.ts:323-348 | a walk without a dead end uses every segment exactly once, in closed chains that follow their segments end to end |
| OutlineTheory.GridIsSeparated | src/kicad/pcb.ts:350-352 | in exact numbers the tolerance test and the four-decimal key agree on the 0.0001 grid |
| OutlineTheory.NetAreaIsOuterLessHoles | src/kicad/pcb.ts:341-347 | the area reported is the largest loop less all others, never negative, and nothing only when the largest is zero |
| OutlineTheory.WalkedOutlineArea | src/kicad/pcb.ts:323-348 | a walked outline of three segments or more reports its largest loop less the others |
| OutlineTheory.ClosedOutlineCanDeadEnd | src/kicad/pcb.ts:323-352 | a concrete outline of three segments passes the closure test and has no area, because its walk dead-ends |
| GerberTokenizer.TokenizeGerber | src/multicad/gerber-parser.ts:243-276 | the index loop terminates on every text and splits it into the commands found from the start |
| GerberTokenizer.EndOfExtendedCommand | src/multicad/gerber-parser.ts:200-210 | an extended command ends at its percent sign, or gives up at its line break, or for a macro at the end of its first line |
| GerberTokenizer.EndOfWordCommand | src/multicad/gerber-parser.ts:219-226 | a word command ends at its star, or gives up at a percent sign or a line break |
| GerberStream.StreamReassembles | src/multicad/gerber-parser.ts:243-276 | commands, delimiters and skipped white space concatenate back to the text |
| GerberStream.StreamIsClean | src/multicad/gerber-parser.ts:200-276 | no command but a terminated macro holds a line break, so a missing delimiter never swallows a later line, and none holds a delimiter that would have ended it |
| GerberStream.ReadingUndoesWriting | src/multicad/gerber-parser.ts:243-276 | terminated commands written with any white space between them are read back as written |
| GerberStream.LinesAreIndependent | src/multicad/gerber-parser.ts:192-199 | whole lines without a macro, however malformed, are read alone, and what follows is read as if it stood alone |
| CoordinateFormat.ReadersGiveTheMeaning | src/multicad/gerber-geometry.ts:63-72 | for every sign and digits of any length both readers give the number the format declares: over the decimal places with leading zeros omitted, with zeros restored at the end otherwise |
| CoordinateFormat.ExplicitPointIsItsDecimal | src/multicad/excellon-parser.ts:106-113 | a drill coordinate that writes its own point is the signed decimal it looks like, wherever the point stands and whatever the format, and not a number only without a digit |
| CoordinateFormat.ExplicitPointAgrees | src/multicad/excellon-parser.ts:106-113 | a signed drill coordinate that writes its point where the format has it means the same number as without it |
| CoordinateFormat.OmissionIsUndone | src/multicad/gerber-geometry.ts:66-67 | padding restores exactly the zeros that were omitted from digits of full width |
| CoordinateFormat.ReadUndoesWrite | src/multicad/gerber-geometry.ts:63-72 | every number of the format under either sign, written without its leading or trailing zeros, is read back by both readers |
| GerberText.SelectionIsNoOperation | src/multicad/gerber-parser.ts:757-759 | no command both selects an aperture and plots |
| GerberText.TrimIsExact | src/multicad/gerber-parser.ts:477-516 | trimming drops the white space at both ends of a text and nothing else |
| GerberOperations.WrittenIsRead | src/multicad/gerber-parser.ts:388-396 | an operation written with any G-code, axes, signs and digits is read with the axes and the code it was written with |
| GerberOperations.ReadIsWritten | src/multicad/gerber-parser.ts:388-396 | and nothing else is read as an operation |
| GerberDeclarations.DeclarationIsRead | src/multicad/gerber-apertures.ts:36-48 | a declaration of any code, template, name and parameters is read as it was written |
| GerberDeclarations.DeclarationIsWritten | src/multicad/gerber-apertures.ts:36-48 | and nothing else is read as one |
| GerberDeclarations.CodeIsReadAnyway | src/multicad/gerber-apertures.ts:311-329 | of anything else the code is read if and only if digits follow `ADD` |
| GerberDeclarations.BlockIsRead | src/multicad/gerber-apertures.ts:45-45 | a block is opened under the number its digits spell |
| GerberDeclarations.BlockIsWritten | src/multicad/gerber-apertures.ts:45-45 | and under none if it is written otherwise |
| GerberDeclarations.SelectionIsRead | src/multicad/gerber-apertures.ts:48-48 | a selection, with or without a G-code, selects the number its digits spell |
| GerberDeclarations.SelectionIsWritten | src/multicad/gerber-apertures.ts:48-48 | and nothing else selects |
| GerberDeclarations.FlashesEndInFlash | src/multicad/gerber-apertures.ts:256-265 | an operation counts as a flash of the ledger if and only if its code is D03 |
| GerberApertures.ApertureLedger.DefineAperture | src/multicad/gerber-apertures.ts:311-349 | a definition lands in the table of the open scope only; an unreadable one counts as defined and leaves one problem; a code below 10 is never registered |
| GerberApertures.ApertureLedger.ApplyExtended | src/multicad/gerber-apertures.ts:212-233 | definitions and block boundaries are applied, and every other command is left to the caller with the ledger unchanged |
| GerberApertures.ApertureLedger.CloseBlock | src/multicad/gerber-apertures.ts:523-542 | closing a named block makes it an aperture of the file, or a problem below code 10 |
| GerberApertures.ApertureLedger.ApplyWord | src/multicad/gerber-apertures.ts:256-265 | a word selects an aperture, or counts a placement when it flashes a block, or changes nothing |
| GerberApertures.ApertureLedger.ApplyBlockWord | src/multicad/gerber-apertures.ts:274-280 | a word inside a block changes only the block's selection and the evidence about blocks |
| GerberFileState.FileStateAccumulator.ApplyExtended | src/multicad/gerber-parser.ts:476-516 | a file parameter is read only outside a block, and the first statement of units, format and file function stands; `UnitsAreRead`, `FormatIsRead`, `FunctionIsRead` and `PolarityIsRead` say what the statements mean |
| GerberFileState.FileStateAccumulator.ApplyWord | src/multicad/gerber-parser.ts:544-578 | words recognised as comments are skipped, block words go to the block, `M02` ends the file outside a block, and other words join the artwork |
| GerberFileState.ReadFileState | src/multicad/gerber-parser.ts:586-611 | the loop over commands leaves facts, ledger and malformed-command evidence of the walk, which ends at the end of file |
| GerberScope.BlockScopeNoninterference | src/multicad/gerber-parser.ts:476-611 | streams that differ only inside aperture blocks give the same units, format, mode, file function, transforms, polarity flag, word commands, file apertures, selection, placements, file problems and malformed-command evidence |
| GerberScope.BodyMayBeReplaced | src/multicad/gerber-apertures.ts:212-280 | in particular the terminated body of one block may be replaced by any other, wherever the block stands |
| GerberScope.BodiesDoNotShow | src/multicad/gerber-parser.ts:476-611 | dropping every block body changes nothing a file shows of itself |
| GerberReport.WalkIsWhereTheBoundariesSay | src/multicad/gerber-apertures.ts:201-233 | throughout a run the walk is in the block whose opening is the last boundary, and has ended exactly where an `M02` stands outside any block |
| GerberStatements.WordsAreTheFilesOwn | src/multicad/gerber-parser.ts:544-578 | the artwork is read from exactly the words outside blocks and before the end of file that are not recognised as comments, in order |
| GerberComments.CommentIsRecognisedExactly | src/multicad/gerber-parser.ts:284-297 | a word whose own G-code is 4 is recognised as a comment if and only if its text does not start with a digit |
| GerberComments.CommentIsReadExactly | src/multicad/gerber-parser.ts:544-578 | and the file reads it as one of its words if and only if it stands in file scope and its text starts with a digit |
| GerberComments.CommentCanBeDrawn | src/multicad/gerber-parser.ts:388-396 | if coordinates and a draw follow such digits, the comment is plotted |
| GerberComments.ExampleIsDrawn | src/multicad/gerber-parser.ts:388-396 | `G04 1X5Y7D01` draws to (5, 7) |
| GerberComments.CommentCanSelect | src/multicad/gerber-parser.ts:740-757 | if a D-code follows them, the comment selects that aperture |
| GerberStatements.UnitsAreTheFirstStated | src/multicad/gerber-parser.ts:494-498 | the declared units are the first the file states in its own scope, and none only if it states none |
| GerberStatements.FactsAreWhatTheFileStates | src/multicad/gerber-parser.ts:476-578 | throughout a run the facts are look-backs over the file scope: units, format and file function as first stated, legacy units, legacy mode and polarity as last stated, the transforms stated, whether anything was plotted while the last polarity was clear, and the words |
| GerberStatements.FirstIs | src/multicad/gerber-parser.ts:494-513 | the first statement of a kind is one with none before it |
| GerberStatements.LastIs | src/multicad/gerber-parser.ts:528-578 | the last statement of a kind is one with none after it |
| GerberStatements.TransformsAreThoseStated | src/multicad/gerber-parser.ts:535-542 | the transforms are exactly those stated in file scope, each once |
| GerberHeader.UnitsAreRead | src/multicad/gerber-parser.ts:493-498 | `%MOIN*%` in front of any text makes the result one in inches, `%MOMM*%` one in millimetres |
| GerberHeader.FormatIsRead | src/multicad/gerber-parser.ts:499-508 | any format and mode written in front of any text is the format of the result, and incremental coordinates are reported if and only if that mode is |
| GerberHeader.PolarityIsRead | src/multicad/gerber-parser.ts:518-534 | clear polarity in front of a text that states none is reported if and only if the text plots something in file scope, dark polarity never |
| GerberHeader.FunctionIsRead | src/multicad/gerber-parser.ts:509-513 | a file function in front of any text is that of the result, without the white space around it |
| GerberHeader.LegacyUnitsAreRead | src/multicad/gerber-parser.ts:544-578 | G70 in front of a text that states no units means inches, G71 millimetres |
| GerberHeader.LegacyModeIsRead | src/multicad/gerber-parser.ts:544-578 | G91 in front of a text that states no format and no mode means incremental, G90 absolute |
| GerberDefaults.UnitsMayBeStated | src/multicad/gerber-parser.ts:613-675 | stating in front of any text the units it is read in, millimetres if it has none, changes nothing but that the result has them |
| GerberDefaults.FormatMayBeStated | src/multicad/gerber-parser.ts:613-675 | so does stating its format, three places and five with leading zeros omitted if it has none, with its mode |
| GerberDefaults.IncrementalIsNotPlotted | src/multicad/gerber-parser.ts:839-851 | a file in incremental coordinates publishes no box, no contours and no geometry |
| GerberScaling.InchesAreLarger | src/multicad/gerber-parser.ts:613-851 | any text headed as inches gives what it gives headed as millimetres with all coordinates, boxes, traces, flashes and apertures 25.4 times as large, the closing of contours aside, and headed as millimetres its apertures have the sizes it writes |
| GerberReport.TableIsWhatTheFileDefined | src/multicad/gerber-apertures.ts:311-349 | a code is in the file's table if and only if a file-scope command defined it |
| GerberReport.UndefinedReportIsExact | src/multicad/gerber-apertures.ts:544-549 | a code is reported undefined if and only if the file selected it before defining it |
| GerberPlacements.TableHoldsLastDefinitions | src/multicad/gerber-apertures.ts:311-349 | the table holds for each code the last definition the file made of it |
| GerberPlacements.TableIsInOrder | src/multicad/gerber-apertures.ts:311-349 | the table lists its codes, each once, in the order the file first defined them |
| GerberPlacements.SelectionIsTheLast | src/multicad/gerber-apertures.ts:544-549 | the aperture in force is the one the file selected last in its own scope |
| GerberPlacements.PlacementsAreCounted | src/multicad/gerber-apertures.ts:562-568 | placements are one for each file-scope flash made with a block selected, and the listed codes are those blocks |
| GerberPlacements.ProblemsAreReportedOnce | src/multicad/gerber-apertures.ts:570-585 | no two reported problems are of the same code in the same scope |
| GerberEvidence.ProblemsAreTheFirst | src/multicad/gerber-apertures.ts:311-349 | a problem is reported if and only if some definition or block causes it, and none before it one of the same code in the same scope |
| GerberEvidence.BlockReportIsExact | src/multicad/gerber-apertures.ts:551-560 | a selection inside a block is reported if and only if, where it stands, neither its block nor the file had defined the code |
| GerberEvidence.EvidenceIsExact | src/multicad/gerber-parser.ts:586-611 | the evidence of unterminated commands of either shape is their number before the end of the file, and the first of them |
| GerberEvidence.FirstUnterminatedIs | src/multicad/gerber-parser.ts:586-611 | which has none before it |
| GerberGeometry.GeometryCollector.constructor | src/multicad/gerber-geometry.ts:447-454 | collection starts with the file's own reasons for doubt, each once |
| GerberGeometry.GeometryCollector.AddSegment | src/multicad/gerber-geometry.ts:499-517 | a trace is kept while the budget lasts, and its aperture's doubt is recorded even when it is dropped |
| GerberGeometry.GeometryCollector.AddFlash | src/multicad/gerber-geometry.ts:519-538 | the same of a flash, whose copper is claimed only outside regions and of modelled shapes |
| GerberGeometry.FirstObjectsAreKept | src/multicad/gerber-geometry.ts:480-484 | the primitives are the first 25,000 submitted objects, in order |
| GerberGeometry.ReasonsAreExact | src/multicad/gerber-geometry.ts:447-553 | a reason is reported if and only if the file gives it, a submitted object (kept or dropped) gives it, or it is the limit and more objects were submitted |
| GerberGeometry.LimitIsReportedExactly | src/multicad/gerber-geometry.ts:480-484 | the limit is reported if and only if more objects were submitted than it allows, if no caller reports it itself |
| GerberGeometry.ReasonsAreGivenOnce | src/multicad/gerber-geometry.ts:447-553 | no reason is listed twice, however many objects give it |
| GerberPublished.GeometryIsTheObjects | src/multicad/gerber-geometry.ts:498-552 | the primitives are, up to the limit, one for each flash and straight draw in order: from the pen before it to its target, in the region it stands in, with the width of the circle or the shape the file defined for its aperture, outside regions only |
| GerberPublished.ReasonsAreTheEvents | src/multicad/gerber-geometry.ts:447-553 | a reason is reported if and only if the file states it, or some draw is an arc, or some object outside a region has an aperture that is not defined or not modelled, or the objects are more than the limit |
| GerberArtwork.ArtworkWalk.FinishContour | src/multicad/gerber-parser.ts:730-737 | a contour that ends is counted once, closed in a region or where it returns to its start |
| GerberArtwork.ArtworkWalk.ApplyReading | src/multicad/gerber-parser.ts:745-834 | one word applies its selection, region change and interpolation before what it plots |
| GerberArtwork.ArtworkWalk.Walk | src/multicad/gerber-parser.ts:739-837 | the walk over the file's words does what their events say (`EventsAreWhatTheWordsSay`), has fed the collector every object, and finishes the last contour |
| GerberEvents.EventsAreWhatTheWordsSay | src/multicad/gerber-parser.ts:740-834 | the events are one for each region change and each operation with a coordinate, in word order: a written axis lands at its meaning times the scale, an absent one at the pen before it or zero, D01 draws, D02 moves and D03 flashes, with the aperture selected last, and a draw is an arc if and only if the last of G01, G02 and G03 is not G01 |
| GerberArtwork.CoordinatesAreNumbers | src/multicad/gerber-parser.ts:396-396 | no coordinate of an operation reads as something that is not a number |
| GerberContours.ContourAccounting | src/multicad/gerber-parser.ts:730-836 | the open count is the number of contours (runs of draws between breaks) that end outside a region away from their start, and a closed one is reported if and only if some contour ends in a region or at its start |
| GerberContours.FinishedContoursStayJudged | src/multicad/gerber-parser.ts:722-737 | whatever events follow, region openings and closings included, a contour that has ended keeps its judgement |
| GerberContours.WalkRemembers | src/multicad/gerber-parser.ts:680-737 | throughout a run the pen, the region and the start of the open contour are those the events before say |
| GerberExtents.ExtentsAreTheHull | src/multicad/gerber-parser.ts:714-720 | a box is published if and only if two points were recorded, and it is the tight hull of the points plotted, the origin included when the first draw leaves it |
| GerberExtents.PublishedGeometryIsInside | src/multicad/gerber-parser.ts:714-833 | both ends of every published trace lie in the box, which is then defined, and every published flash lies in the box if there is one |
| GerberParser.ParseGerber | src/multicad/gerber-parser.ts:613-851 | tokenizer, state walk, artwork walk and collector compose to a result that depends on the text only through what it shows in its own scope |
| GerberParser.BodiesDoNotChangeTheResult | src/multicad/gerber-parser.ts:613-851 | two texts that differ only inside aperture blocks show the same of themselves, and the parse result is made of nothing else |
| SchematicGraph.HeadIsNearest | src/kicad/schematic-graph.ts:73-86 | no path to an unlisted sheet is shorter than the depth of the first in line |
| SchematicGraph.HeadIsAtItsDepth | src/kicad/schematic-graph.ts:73-86 | the first in line, if not listed, waits at its shortest distance from a root |
| SchematicGraph.EmptyQueueMeansDone | src/kicad/schematic-graph.ts:73-86 | when nothing waits, every reachable sheet is listed |
| SheetTraversal.Traversal.Advance | src/kicad/schematic-graph.ts:73-86 | taking one sheet off the line keeps the walk's invariant, makes progress on cyclic hierarchies too, and throws only for a true reason |
| SheetTraversal.Traversal.ProcessSheet | src/kicad/schematic-graph.ts:93-137 | a sheet is listed with its labels and the name and pins of the reference it was reached by, its unresolved pins and missing references are recorded, and its existing references put in line with theirs |
| SheetTraversal.BuildSchematicNetGraph | src/kicad/schematic-graph.ts:59-91 | a graph is built if and only if at most 5000 files are reachable and all can be read; its sheets are exactly the reachable files, each once, in non-decreasing shortest distance, each under a root or a sheet one step nearer, with the labels of its file and the name and pins of a reference that sheet makes to it; a pin is unresolved, and listed once, if and only if some sheet has it and no such label; a reference is missing if and only if some sheet makes it and its file does not exist; and the label sets are those of the sheets; otherwise the reason thrown is true |
| SheetTraversal.AggregateLabels | src/kicad/schematic-graph.ts:157-180 | the loops collect the visible labels and all labels, the first within the second |
| SheetTraversal.VisibleExactly | src/kicad/schematic-graph.ts:157-180 | a label is visible if and only if some sheet shows it: as a global label, a connected pin, or any label of a root |
| SheetTraversal.LabelsExactly | src/kicad/schematic-graph.ts:157-180 | a label is listed if and only if some sheet has it, of whatever kind |
| SheetReferences.UnresolvedMeans | src/kicad/schematic-graph.ts:113-122 | a pin is reported if and only if a sheet has it and no hierarchical label of its name, under the parent and the name of the sheet |
| SheetReferences.MissingMeans | src/kicad/schematic-graph.ts:124-137 | a reference is reported if and only if a sheet makes it and no file stands where it leads |
| SheetReferences.UnresolvedOnce | src/kicad/schematic-graph.ts:113-122 | no pin of a sheet is reported twice |
| LogRotation.LogDirectory.Rotate | src/core/logger.ts:291-307 | renaming from the oldest backup down leaves the files of a rotation |
| LogRotation.LogDirectory.WriteRotatingLine | src/core/logger.ts:269-289 | a line is appended after a rotation if it would not fit |
| LogRotation.RotatedLookup | src/core/logger.ts:291-307 | a rotation moves each kept file up by one name, drops the oldest, and touches no other name |
| LogRotation.RotationDropsTheOldest | src/core/logger.ts:291-307 | a rotation loses the lines of the oldest kept backup and no others |
| LogRotation.RunsStayTidy | src/core/logger.ts:269-307 | over any run from no files backups are contiguous and within the retention; each file fits the limit or holds one line and was rotated only when the next line did not fit; oldest to newest the files are a suffix of the lines written, and all of them until the oldest backup exists |
| GeneratedOutputCheck.CheckOutputSet | src/core/generated-output-inventory.ts:48-64 | no reason is given if and only if the tree is exactly what the manifest declares; otherwise the reasons are each wrong declaration, and then one failure there is, or else exactly what is to be said of single entries, at least one file of each alias that occurs twice and nothing but such files, and each difference between what is kept of the declarations and the files |
| GeneratedOutputCheck.ExactMeans | src/core/generated-output-scan.ts:27-84 | being exact is: canonical declarations free of aliases, at most 4096 places below the directory, no two of them output files of one alias, every entry a canonical file or the manifest or an ancestor of a declared file within depth 32, and the files the declared ones |
| GeneratedOutputPlaces.PlacesAreAll | src/core/generated-output-scan.ts:71-82 | the places are those of all entries at every depth, each once |
| GeneratedOutputPlaces.CountIsPlaces | src/core/generated-output-scan.ts:71-82 | what a scan counts is the number of places |
| GeneratedOutputPlaces.ClashIsTwoPlaces | src/core/generated-output-scan.ts:27-33 | a scan finds an alias clash if and only if two places hold output files of one alias |
| GeneratedOutputCheck.ScanTree | src/core/generated-output-scan.ts:63-84 | the worklist scan reports the files of the whole tree and what is to be said of them, or a failure there is, and fails if there is one |
| GeneratedOutputCheck.DeclaredInventory.IndexArtifact | src/core/generated-output-inventory.ts:12-26 | indexing reports exactly the declarations that are not canonical or name the manifest, and those whose alias an accepted one before them has, and holds exactly the others and their ancestors |
| GeneratedOutputCheck.WellDeclaredMeans | src/core/generated-output-inventory.ts:12-26 | nothing is to be said of declarations if and only if all are accepted and free of aliases, and then all are held |
| GeneratedOutputCheck.CompareExactFileSets | src/core/generated-output-inventory.ts:39-46 | each file in one set and not the other is named once, the undeclared ones before the missing ones, and nothing else; no reason is given if and only if the two sets are equal |
| GeneratedOutput.ChildrenMean | src/core/generated-output-scan.ts:27-61 | what a scan adds up to say of a tree is exactly what is to be said of some entry at some depth: a symbolic link, something that is no file, a directory no declared file is below, a file that is not canonical, a directory too deep or with another real path; and its files are the output files below |
| GeneratedOutput.SilentMeans | src/core/generated-output-scan.ts:35-61 | nothing is to be said of a tree if and only if every entry at every depth is sound |
| GeneratedOutput.CanonicalMeans | src/core/generated-output-scan.ts:10-25 | a path is canonical if and only if it has no backslash and every part between its slashes is legal |
| GeneratedOutput.ReservedMeans | src/core/generated-output-scan.ts:23-23 | a segment is reserved if and only if a device is spelled up to its first dot, in any case, and no line ends in it |
| FixPlan.FixPlanner.ReadOptionalVirtualText | src/cli/fixes.ts:829-837 | the text planned under the spelling, or else that of the file the spelling opens, or none |
| FixPlan.FixPlanner.AddTextChange | src/cli/fixes.ts:850-875 | a change extends the entry of its path or adds one, and the overlay takes its text; nothing changes for an unchanged text or a path outside the workspace |
| FixPlan.RunsStayInAgreement | src/cli/fixes.ts:825-875 | over any run whose texts were read as the files are spelled, each path occurs once, keeps the original text as its before, and the plan says what the overlay says |
| FixPlan.ChangesTellTheirRequests | src/cli/fixes.ts:850-875 | a path is in the plan if and only if some request changed it, and its change has the rules of all of them and their summaries in order |
| FixPlan.ApplyingGivesTheView | src/cli/fixes.ts:126-131 | applying the plan to the original files, in whatever order it was sorted into, gives exactly the virtual view |
| FixPlan.ApplyFixPlan | src/cli/fixes.ts:126-131 | the changes are written in order up to the first outside the workspace, and all of them if and only if none is |
| FixPlan.ReadingGivesTheView | src/cli/fixes.ts:825-837 | after any run, reading a file as spelled gives the view of its target if and only if it is spelled as resolved or every change planned for it leaves it as it was |
| FixPlan.SafeReadGivesTheView | src/cli/fixes.ts:825-837 | after any run, a read of a file that is spelled as resolved, or that no request before was for, gives the planned view |
| FixPlan.ReadsSeeTheLastText | src/cli/fixes.ts:825-875 | if the files of all requests are read so, such a read sees the text the last request for its file left, or the original, and every request changes that text |
| FixPlan.RunsAreWrittenWhole | src/cli/fixes.ts:126-131 | whatever a run planned and in whatever order, writing it is not stopped and leaves the overlay over the original files |
| FixPlan.RunsLeaveTheLastTexts | src/cli/fixes.ts:126-131 | and every file then holds the text of the last request for it, or its own |
| FixPlan.RespelledFileIsMissed | src/cli/fixes.ts:825-837 | a hypothetical caller: a read of a planned file under a second spelling misses the planned text |
| Handoff.HandoffPlanner.UniqueTarget | src/release/handoff.ts:95-107 | the name returned is the first free candidate, found within one more try than there are used names |
| Handoff.CandidatesDiffer | src/release/handoff.ts:95-107 | different counters never give the same candidate name |
| Handoff.CandidateIsNamed | src/release/handoff.ts:95-107 | a candidate is the name, or the name with the counter in front of its extension, which is its last dot and what follows unless that dot comes first |
| Handoff.BaseNameIs | src/release/handoff.ts:54-57 | the name is what stands behind the last slash of the source |
| Handoff.PlanHandoffPackage | src/release/handoff.ts:64-93 | targets are pairwise distinct, every listed source is assigned once and to the first kind in order that lists it, and included and missing kinds are reported exactly |

## Left out

- Everything that fetches, runs other programs, hashes, signs, notifies or serves; file access is an abstract map or tree given as a parameter.
- Floating-point rounding: coordinates and areas are exact reals, and rounding to four decimals is modelled only where the closure test prints its keys.
- Square roots: distances between paths are compared as squares, which orders them the same way.
- UTF-16: strings are sequences of characters, so surrogate pairs and byte offsets are not modelled; NFC normalisation and lower-casing of a whole path are the `alias` parameter of the output-set check.
- Locale order: a sort is a parameter known only to keep what it orders, which is all these results need.
- Path resolution is given by parameters with three laws (resolving is final, a spelling opens the file it resolves to, a relative name resolves back), the second of which needs absolute spellings or a process started in the workspace; the symbolic-link check before a write is not modelled.
- The canonical-path check calls a path normaliser and two absolute-path tests as well; its segment tests imply them, so only those are modelled.
- Sharing of list nodes in the S-expression reader: an open list is a value on the stack and joins its parent when it closes, so the model does not capture that the source's parent already holds it by reference.
- `formatUnifiedDiff`, `splitDiffLines` and every other text for display, warning messages included.
- Reading the parameters of an aperture definition (sizes, vertex counts, holes) and of a transform statement: both are parameters of the file-state walk, and its results hold whatever they return; hole modifiers are not part of the shapes.
- Aperture macros, arcs and step-and-repeat expansion, which the source itself only marks as uncertain.
- The identity of a Gerber layer from its file function, which is a table.
- The drill file reader beyond its coordinates, and the extraction of outline segments from a board document.
- A directory that cannot be opened during the output scan, which fails closed like the other failures.
- GeneratedOutputCheck.CompareExactFileSets: does not state the order of its reasons of one kind, because the order is that of a locale.
- GerberParser.ParseGerber: leaves out the layer identity and the warnings, because the first is a table and the second are texts for display; the aperture problems they are made from are listed for the file's own scope only.
- SheetTraversal.BuildSchematicNetGraph: does not state which of several shortest paths a sheet's parent lies on, because that depends on the order of the roots.
- The planners that find fixes, the release manifest and its readme, and rule tables.
