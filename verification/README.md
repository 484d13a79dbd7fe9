# Verified models of the repository's own analysers

Each module models one checker script of `scripts/`, or the polling helper of
`e2e/`, and proves what the script's documentation and tests promise of it, over
every input. Algorithms the scripts run as loops over mutable state are methods
with loops, proved against a specification; the promises are then proved of that
specification. Text is `seq<char>`, a JSON number is exact, time is `real`.

| module | script | what is proved |
|---|---|---|
| `GoText` | the lexical rules the three Go scanners share (sections "Comments", "Rune literals" and "String literals" of the Go Programming Language Specification) | when differently written scanners agree, exactly |
| `ClockFlakiness`, `CommentDrift`, `LoggingQuality` | the three hand-written scanners | each refines the reference lexer on every text |
| `OpenApiConformance` | the recursive schema validator | silent if and only if the value conforms |
| `RouteCoverage`, `CoverageRatchet`, `RouteShapes` | route patterns, crediting, shapes | pattern equals router exactly for dotless templates; crediting partitions |
| `LoopBounds`, `LoopExtents` | loop analysis of Python trees and of Go lines | which guard leaves which loop; extents are laminar |
| `BackwardCompat`, `GoDeclarations`, `GoGrammar`, `StructGrammar` | the promised-surface ledger, its Go reader, and what Go's own grammar declares | no promise is lost over any history; which declared names the reader takes notice of, exactly |
| `CronFreshness` | the cron freshness gate | exit 0 means one set of facts |
| `DefinitionShape`, `CaseFiles` (on `JsonData`) | redaction and comparison of JSON | non-interference, an inverse, an equivalence |
| `DependencyManifest` | two-pass reading of requirements | conservation of a multiset |
| `DocFences` | the Markdown fence scanner | in-fence exactly by the opener/closer rule (section 4.5 of CommonMark 0.31, marker character and length only) |
| `Waiting` | polling against a clock | bounded probes, a bounded sampling gap, no settled condition missed by instantaneous probes |

`Basics` holds what several of them share.

## Where the code does not do what its words say

The models follow the code. Each of these has a lemma with a concrete input or an
exact condition.

- A dot in a route template is not escaped and takes any character, a slash
  included (`RouteCoverage.AgreesIffDotless`, `RouteCoverage.DotTakesASlash`).
- An escaped newline inside an interpreted literal is skipped uncounted, so the
  comments behind it are reported one line early (`CommentDrift.LinesAreTrueIff`,
  `CommentDrift.EscapedNewlineDrifts`). The log-call scanner loses every newline in
  such a literal or a rune, and every one between the name of a call and its
  parenthesis (`LoggingQuality.LinesAreTrueIff`, `LoggingQuality.SplitCallMiscounts`).
- The end of a logged call is looked for without skipping runes and comments, so a
  parenthesis or a quote in one of them moves it (`LoggingQuality.EndsAtItsParen`,
  `LoggingQuality.RuneParenEndsTheCall`, `LoggingQuality.CommentParenEndsTheCall`,
  `LoggingQuality.QuoteRunsOn`).
- A two-element list under a kept key can read as a compressed list
  (`DefinitionShape.ExpandUndoes`, `DefinitionShape.MisleadingList`), and the list
  of discriminators leaves out kept strings that stand in lists
  (`DefinitionShape.ListsDiscriminators`, `DefinitionShape.ListedDiscriminatorIsMissed`).
- A guard in a loop's own else-branch counts for the loop, though its break leaves
  another; a break in a nested loop's else-branch does not count, though it leaves
  the right one (`LoopBounds.AcceptedBreakTarget`, `LoopBounds.AcceptedIffNoElse`,
  `LoopBounds.NestedElseIsMissed`).
- The reader of the Go API says that it names what it cannot read. It is silent
  about methods of generic receivers, methods with no space behind `func` or with
  space behind the star of the receiver, groups with an entry on their opening line,
  every name of a list or group line but the first, a declaration behind a semicolon,
  indented declarations, and in a struct about embedded pointers, embedded types of
  other packages, and fields behind a semicolon (`GoGrammar.TopLineIff`,
  `GoGrammar.GroupLineIff`, `StructGrammar.FieldLineIff`, and a lemma for each form:
  `GoGrammar.GenericReceiverIsSilent`, `GoGrammar.UnspacedMethodIsSilent`,
  `GoGrammar.SpacedStarIsSilent`, `GoGrammar.OneLineGroupIsSilent`,
  `GoDeclarations.SecondNameIsSilent`, `GoGrammar.SecondOfGroupIsSilent`,
  `GoGrammar.SecondDeclarationIsSilent`, `GoGrammar.BehindPackageIsSilent`,
  `GoGrammar.IndentedIsSilent`, `StructGrammar.EmbeddedIsSilent`).
- Erasing a `removed` entry by hand loses an id without a trace
  (`BackwardCompat.ErasedRemovalForgets`).
- A reference whose chain is longer than 13 hops, or comes back to itself, checks
  nothing (`OpenApiConformance.UnresolvedIff`, `OpenApiConformance.LongChainChecksNothing`,
  `OpenApiConformance.SelfReferenceChecksNothing`). An `allOf` chain that comes back
  to itself sends the validator into a recursion without end
  (`OpenApiConformance.CycleHasNoEnd`, `OpenApiConformance.SelfCompositionHasNoEnd`).
- Extents of Go loops overlap where a header closes more braces than it opens, or
  two headers in direct succession open as many as they close: a brace in a rune is
  counted like any other (`LoopExtents.LaminarIff`, `LoopExtents.OverlapWithoutOpening`).
- A probe that lags can miss a condition that settled before the deadline
  (`Waiting.MissedIff`, `Waiting.SlowProbeCanMiss`).

## Model

| member | source | states |
|---|---|---|
| `GoText.TokensTile` | scripts/check_clock_test_flakiness.py:213-251 | The tokens of the reference lexer tile the text: no character is dropped or read twice |
| `GoText.ScannersAgree` | scripts/check_comment_drift.py:163-199 | Two of the three scanners cut a text into the same tokens if and only if no interpreted literal or rune they reach is broken by a bare newline, the one input on which their loops differ; on such text the third cuts it the same way too |
| `GoText.UnbrokenTokens` | scripts/check_logging_quality.py:280-355 | On unbroken text it does not matter at which quotes a scanner gives up at a newline: the tokens are those of a scanner that never does |
| `GoText.BrokenTokens` | scripts/check_comment_drift.py:176-193 | On any other text the drift scanner and the comment blanker do cut differently |
| `GoText.SameKinds` | scripts/check_clock_test_flakiness.py:204-251 | Where the tokens agree every character is comment, literal or code alike |
| `GoText.TidyIsUnbroken` | scripts/check_comment_drift.py:149-199 | Text whose interpreted strings and runes close on their own line is unbroken, so all three scanners agree on it |
| `GoText.TidyCredit` | scripts/check_comment_drift.py:176-199 | On a literal without newlines every scanner counts exactly the lines it spans |
| `ClockFlakiness.StripGoComments` | scripts/check_clock_test_flakiness.py:204-251 | On every text, malformed included, the four-state character machine outputs the text with exactly the comments of the reference lexer reduced to their newlines |
| `ClockFlakiness.RunIsRemaining` | scripts/check_clock_test_flakiness.py:213-251 | From each of the four states the machine writes what the reference lexer says is left of the text |
| `ClockFlakiness.KeepsNewlines` | scripts/check_clock_test_flakiness.py:204-212 | Newlines are preserved one for one, so no line below a comment moves |
| `ClockFlakiness.OnlyDrops` | scripts/check_clock_test_flakiness.py:213-251 | The output is a subsequence of the input |
| `ClockFlakiness.ReadAgain` | scripts/check_clock_test_flakiness.py:213-251 | Reading the output again finds the surviving tokens and no others: removing a comment never brings two characters together into a new comment or literal |
| `ClockFlakiness.Idempotent` | scripts/check_clock_test_flakiness.py:213-251 | No comment is left in the output, and blanking twice is blanking once |
| `ClockFlakiness.KeepsLiterals` | scripts/check_clock_test_flakiness.py:204-212 | String and rune literals come through unchanged and in order |
| `CommentDrift.CommentSpans` | scripts/check_comment_drift.py:149-199 | The nested index loops yield, on every text, exactly the comment lines of the reference lexer, each with the line number the scanner has counted to |
| `CommentDrift.AppendChunks` | scripts/check_comment_drift.py:168-174 | A block comment is handed over line by line, numbered onwards from its first |
| `CommentDrift.LinesAreTrueIff` | scripts/check_comment_drift.py:149-199 | Every comment is reported with its true line number if and only if no interpreted literal holding an escaped newline has a comment behind it |
| `CommentDrift.EscapedNewlineDrifts` | scripts/check_comment_drift.py:182-188 | A text on which the reported line is wrong: an escaped newline inside a string is skipped uncounted |
| `CommentDrift.LinesAreTrue` | scripts/check_comment_drift.py:149-199 | On text whose literals close on their line, every reported line number is true |
| `CommentDrift.SpansCover` | scripts/check_comment_drift.py:163-199 | A character lies in a reported range exactly when the lexer calls it comment and it is no newline |
| `CommentDrift.BlankingTheRanges` | scripts/check_comment_drift.py:149-199 | Erasing exactly the ranges the drift scanner reports gives exactly the output of the comment blanker, on every unbroken text |
| `LoggingQuality.StripAndFind` | scripts/check_logging_quality.py:280-342 | The third scanner reports, in order, the log calls that open at a code token of the reference lexer, with line, function, format string and extent |
| `LoggingQuality.ReportsCodeCalls` | scripts/check_logging_quality.py:280-342 | A log call is reported at a position if and only if one opens there in code: none inside a comment, string, raw string or rune, and none missed |
| `LoggingQuality.ReportsWhereAllAgree` | scripts/check_logging_quality.py:280-342 | On unbroken text "in code" means what the other two scanners mean by it |
| `LoggingQuality.SitesInOrder` | scripts/check_logging_quality.py:280-342 | On every text the calls come out in source order |
| `LoggingQuality.LineIsShort` | scripts/check_logging_quality.py:295-342 | On every text a call is reported on its own line less the newlines before it that stand in an interpreted literal, in a rune, or between the name of a call and its parenthesis |
| `LoggingQuality.LinesAreTrueIff` | scripts/check_logging_quality.py:295-342 | Every reported line is true if and only if no such newline has a call behind it |
| `LoggingQuality.TidyLinesAreTrueIff` | scripts/check_logging_quality.py:295-342 | On tidy text every reported line is true if and only if no call split before its parenthesis has a call behind it |
| `LoggingQuality.SplitCallMiscounts` | scripts/check_logging_quality.py:337-341 | A tidy text with a call reported a line too early |
| `LoggingQuality.SkipInterpreted` | scripts/check_logging_quality.py:345-355 | The skip ends just past the literal that the lexer finds at that quote |
| `LoggingQuality.SkipRune` | scripts/check_logging_quality.py:330-335 | A rune is skipped to where the lexer ends it |
| `LoggingQuality.Unescape` | scripts/check_logging_quality.py:362-378 | The loop decodes the eleven escapes of the table and leaves any other as written |
| `LoggingQuality.UnescapeUndoes` | scripts/check_logging_quality.py:358-378 | Decoding undoes spelling: every value comes back from the literal that spells it |
| `LoggingQuality.BodyLength` | scripts/check_logging_quality.py:345-355 | A literal is skipped whole, up to and with its closing quote, whatever escapes it holds |
| `LoggingQuality.LeadingLiteral` | scripts/check_logging_quality.py:381-408 | The loop returns the folded value and end of the leading literal chain, or nothing when the argument is no literal |
| `LoggingQuality.ChainFolds` | scripts/check_logging_quality.py:381-408 | Literals joined by plus signs fold into the concatenation of their decoded bodies, however many, with any escapes in them and any white space before and after each plus |
| `LoggingQuality.ConcatOfSpelled` | scripts/check_logging_quality.py:358-408 | Where the literals spell values, that concatenation is the one of the values |
| `LoggingQuality.LeadingIsConcat` | scripts/check_logging_quality.py:381-408 | The format string of a call is decoded from its whole leading chain, wrapped over lines in any way, not from its first fragment |
| `LoggingQuality.CallExtent` | scripts/check_logging_quality.py:411-433 | The loop ends where the parenthesis that opened the call is closed, literals skipped |
| `LoggingQuality.EndsAtItsParen` | scripts/check_logging_quality.py:411-433 | A call whose arguments nest parentheses and hold literals with any escapes, and runes and comments without quotes, ends at its own closing parenthesis if and only if the parentheses in its runes and comments close nothing that is not open and come out even, or open more than they close in a text that ends with the call |
| `LoggingQuality.RuneParenEndsTheCall` | scripts/check_logging_quality.py:418-433 | A call that ends inside its rune |
| `LoggingQuality.CommentParenEndsTheCall` | scripts/check_logging_quality.py:418-433 | A call that ends inside its comment |
| `LoggingQuality.QuoteRunsOn` | scripts/check_logging_quality.py:418-433 | A quote or a backquote in a rune or a comment opens a literal that is none: such calls run on past their end |
| `OpenApiConformance.ResolveChains` | scripts/check_openapi_conformance.py:403-414 | Resolution takes 13 hops, or fewer where the references end, on cyclic graphs too, and the result lies in the document it is paired with |
| `OpenApiConformance.ResolvedIff` | scripts/check_openapi_conformance.py:403-414 | A reference is resolved if and only if its chain ends within 13 hops, and then to the end of the chain |
| `OpenApiConformance.UnresolvedIff` | scripts/check_openapi_conformance.py:403-414 | A reference is left unresolved if and only if its chain comes back to itself, or ends after more than 13 hops |
| `OpenApiConformance.Validate` | scripts/check_openapi_conformance.py:423-490 | The recursive validator terminates by value size, then remaining allOf rank, and appends exactly the specified findings in order to those already there |
| `OpenApiConformance.ValidateSubs` | scripts/check_openapi_conformance.py:451-452 | The allOf loop: the findings of every sub-schema, in order, against the document the schema was found in |
| `OpenApiConformance.ValidateParts` | scripts/check_openapi_conformance.py:473-486 | The properties of an object or the first five entries of an array |
| `OpenApiConformance.ValidateProperties` | scripts/check_openapi_conformance.py:477-480 | The properties the schema declares and the value has, in the schema's own order |
| `OpenApiConformance.NoteGaps` | scripts/check_openapi_conformance.py:474-476 | One finding for each required name the object lacks |
| `OpenApiConformance.SilentIffConforms` | scripts/check_openapi_conformance.py:423-490 | No finding if and only if the value conforms: whatever walk of allOf branches, properties and first-five entries is taken, with each reference resolved where it was found, the part reached meets type, format, required and enum |
| `OpenApiConformance.ConformsByParts` | scripts/check_openapi_conformance.py:423-490 | Conformance over whole walks is the value's own conformance and that of every place one step away |
| `OpenApiConformance.UnresolvedChecksNothing` | scripts/check_openapi_conformance.py:403-414 | What is left a bare reference constrains nothing |
| `OpenApiConformance.LinkedResolves` | scripts/check_openapi_conformance.py:403-414 | A chain through n documents that only name the next is resolved if and only if n is 13 at most |
| `OpenApiConformance.LongChainChecksNothing` | scripts/check_openapi_conformance.py:403-414 | Behind fourteen documents a string is asked for, and a number conforms all the same |
| `OpenApiConformance.FoundedIffAcyclic` | scripts/check_openapi_conformance.py:423-452 | A schema has a rank that falls along allOf if and only if no allOf chain that it can bring up returns to itself, however the other documents are made |
| `OpenApiConformance.CycleHasNoEnd` | scripts/check_openapi_conformance.py:451-452 | On an allOf chain that returns to itself one value is validated again at every depth: the recursion has no end |
| `OpenApiConformance.SelfCompositionHasNoEnd` | scripts/check_openapi_conformance.py:451-452 | A document with an allOf entry that names the document: it has no rank, and every value but null is validated again at every depth |
| `OpenApiConformance.SelfReferenceChecksNothing` | scripts/check_openapi_conformance.py:403-414 | A document that is a reference to itself: the chain returns, and every value conforms |
| `RouteCoverage.PatternOfTemplate` | scripts/check_route_coverage.py:338-341 | The two textual substitutions give the segment-by-segment pattern, for templates whose parameters are whole segments and whose rest parameter is last |
| `RouteCoverage.PatternRoutes` | scripts/check_route_coverage.py:334-341 | On such a template without dots the character pattern accepts a newline-free path exactly when a segment-by-segment router does |
| `RouteCoverage.AgreesIffDotless` | scripts/check_route_coverage.py:334-341 | Pattern and router agree on all newline-free paths if and only if no fixed segment holds a dot: the dot is not escaped and takes any character |
| `RouteCoverage.DotTakesASlash` | scripts/check_route_coverage.py:334-341 | A path with a segment more than the template that the pattern accepts: the dot takes the slash |
| `CoverageRatchet.LongestFirstSorts` | scripts/check_route_coverage.py:442-444 | The patterns are tried longest template first, none lost |
| `CoverageRatchet.Exercised` | scripts/check_route_coverage.py:426-454 | The nested loops credit each entry to its first match in that order and nothing else |
| `CoverageRatchet.Orphaned` | scripts/check_route_coverage.py:370-423 | The loop keeps, in order, the answered traffic that no template and no subtree explains |
| `CoverageRatchet.NoOrphanIsCredited` | scripts/check_route_coverage.py:370-454 | With no orphan, every entry that is not a 404 and not under a subtree is credited to a registered route that explains it, and no explaining route has a longer template |
| `CoverageRatchet.CreditIsEarned` | scripts/check_route_coverage.py:426-454 | Every credited route is registered and explains some recorded entry |
| `CoverageRatchet.FoldedPartition` | scripts/check_route_coverage.py:457-485 | After folding, covered and uncovered partition the registered labels, and a label is covered exactly when some spelling of it was exercised, folding only by provenance |
| `CoverageRatchet.Baseline.Check` | scripts/check_route_coverage.py:561-601 | Updating pins exactly the uncovered labels; comparing changes nothing and passes strictly only when they are exactly the pinned ones |
| `RouteShapes.ShapeTwice` | scripts/check_surface_ledger.py:58-66 | The shape of a shape is itself |
| `RouteShapes.ShapeIgnoresNames` | scripts/check_surface_ledger.py:58-66 | Renaming parameters changes nothing in the shape |
| `RouteShapes.ClassifySurface` | scripts/check_surface_ledger.py:120-132 | Every documented operation is served, refused or silent, by method and shape |
| `RouteShapes.ClassifyRoutes` | scripts/check_undocumented_routes.py:245-259 | Every registered route is documented, alias, native or undocumented, the first that applies |
| `RouteShapes.GatesAgree` | scripts/check_surface_ledger.py:80-132 | The (method, shape) pairs one gate calls served are those the other calls documented |
| `LoopBounds.GovernedBy` | scripts/check_python_test_flakiness.py:314-330 | The stack loop yields every unpruned node below the loop once, and no other |
| `LoopBounds.AnyOrderYieldsTheSame` | scripts/check_python_test_flakiness.py:314-330 | Whatever the pop order, a finished worklist has yielded the same nodes |
| `LoopBounds.GovernedIffLed` | scripts/check_python_test_flakiness.py:314-330 | A node is governed if and only if some path from the loop body or else-branch leads to it through no pruned node |
| `LoopBounds.LeavesLoop` | scripts/check_python_test_flakiness.py:333-353 | The stack loop with its two pruning flags decides the recursive definition of a guard that leaves |
| `LoopBounds.LeavesIffExits` | scripts/check_python_test_flakiness.py:333-353 | A guard leaves if and only if some path in it ends, outside nested scopes, at a raise, a return, or a break with no loop node above it |
| `LoopBounds.AcceptedBreakTarget` | scripts/check_python_test_flakiness.py:333-353 | Every break that is accepted leaves the very loop asked about, unless the guard stands in that loop's own else-branch, where it leaves one further out |
| `LoopBounds.TargetIff` | scripts/check_python_test_flakiness.py:333-353 | A break leaves a loop if and only if it is reached through the body of that loop and of no loop below it |
| `LoopBounds.AcceptedIffNoElse` | scripts/check_python_test_flakiness.py:333-353 | A break outside nested scopes that leaves the loop asked about is accepted if and only if it is reached through no nested loop's else-branch |
| `LoopBounds.NestedElseIsMissed` | scripts/check_python_test_flakiness.py:333-353 | One that is not: a break in the else-branch of a nested loop |
| `LoopBounds.IsBounded` | scripts/check_python_test_flakiness.py:356-418 | A loop is bounded exactly by one of the three documented shapes: a finite iterable, a test on a clock or a bumped counter, a deadline in what it governs |
| `LoopBounds.Judge` | scripts/check_python_test_flakiness.py:443-449 | A sleep outside loops is unbounded, in loops of which none is bounded an unbounded poll, and otherwise long from one second on |
| `LoopBounds.Visit` | scripts/check_python_test_flakiness.py:429-463 | The traversal appends exactly the findings below a node, the loop stack carried down |
| `LoopBounds.VisitedIffReports` | scripts/check_python_test_flakiness.py:429-463 | A sleep is a finding of one kind if and only if that is what the loops above it make of it, wherever it stands |
| `LoopExtents.EndOf` | scripts/check_test_flakiness.py:192-202 | The inner loop stops one past the first line where the braces opened on the header balance |
| `LoopExtents.LoopsOf` | scripts/check_test_flakiness.py:177-203 | Each header yields one loop with its extent, in order, and nothing else does |
| `LoopExtents.Laminar` | scripts/check_test_flakiness.py:177-203 | Any two extents are nested or disjoint, where no header closes more braces than it opens and of two headers in direct succession one opens more |
| `LoopExtents.LaminarIff` | scripts/check_test_flakiness.py:177-203 | Where no header closes more than it opens, all extents are nested or disjoint if and only if no two headers that open as many braces as they close stand in direct succession, but at the very end |
| `LoopExtents.OverlapWithoutOpening` | scripts/check_test_flakiness.py:177-203 | Two extents that overlap, when a header closes more than it opens |
| `LoopExtents.FindingsFor` | scripts/check_test_flakiness.py:206-241 | Each sleeping line is reported, in order, exactly as its enclosing extents say |
| `LoopExtents.PollByOutermost` | scripts/check_test_flakiness.py:228-241 | A sleep in loops is an unbounded poll if and only if none of them is counted or ranged and the outermost one holds no deadline |
| `LoopExtents.Outermost` | scripts/check_test_flakiness.py:177-203 | The loops around a line are nested in one another, so one of them encloses all |
| `BackwardCompat.CleanIffAgrees` | scripts/check_backward_compat.py:602-614 | A surface shows no drift if and only if the tree is the pinned surface minus the removed |
| `BackwardCompat.BaselineFile.MainForTest` | scripts/check_backward_compat.py:638-767 | The exit code as a set of facts in each mode, and the file: rewritten by an accepted update, otherwise untouched |
| `BackwardCompat.HeldForGood` | scripts/check_backward_compat.py:638-709 | Over any run of tree edits, updates and appended removals an id once held stays held |
| `BackwardCompat.NoSilentRemoval` | scripts/check_backward_compat.py:38-52 | An id pinned at any point of a history is ever after pinned or removed, and when a strict check passes the tree still has it or a reviewable removal names it |
| `BackwardCompat.UpdatePinsTheTree` | scripts/check_backward_compat.py:537-584 | An accepted update pins the tree minus the removed and keeps the hand-written parts |
| `BackwardCompat.UpdateRefuses` | scripts/check_backward_compat.py:674-707 | With a promised id gone and not written down, an update changes nothing: it cannot launder a removal |
| `BackwardCompat.ErasedRemovalForgets` | scripts/check_backward_compat.py:674-707 | Erasing a removal entry by hand is a way to lose an id: the file stays clean without it |
| `GoDeclarations.StrictIsLoose` | scripts/check_backward_compat.py:182-193 | Every strict declaration pattern finds the name the loose pattern finds, and a group opener declares none |
| `GoDeclarations.Braced` | scripts/check_backward_compat.py:288-319 | The brace loop returns the body up to the brace that balances the first, and the line that brace is on |
| `GoDeclarations.CloseBalances` | scripts/check_backward_compat.py:309-319 | The body ends at the first place where the braces balance, or at the end of the file |
| `GoDeclarations.StructFields` | scripts/check_backward_compat.py:322-341 | The depth-counting loop returns the exported fields and the exported lines read as none |
| `GoDeclarations.BodyAt` | scripts/check_backward_compat.py:350-366 | A body is skipped whole, and read on the way past when the type is exported |
| `GoDeclarations.ReadGoApi` | scripts/check_backward_compat.py:344-430 | The index loop terminates and returns the ids and unread lines of the walk |
| `GoDeclarations.EveryLineOnce` | scripts/check_backward_compat.py:368-430 | Every line is inspected, or lies inside the body of exactly one inspected line above it, never both |
| `GoDeclarations.BodiesEndInside` | scripts/check_backward_compat.py:288-319 | A skipped body ends within the file, whatever braces are missing |
| `GoDeclarations.NothingSilent` | scripts/check_backward_compat.py:459-469 | Each inspected top-level line on which the loose pattern finds an exported name leaves its id, or is named as unread, or is a method on an unexported receiver |
| `GoDeclarations.EntriesAreIds` | scripts/check_backward_compat.py:372-387 | The exported name that starts a line of a group leaves its id |
| `GoDeclarations.FieldsAreAccounted` | scripts/check_backward_compat.py:322-341 | In the body of an exported struct, each line at the struct's own depth has the exported names of its leading list recorded, or is named as unread when it begins with an exported name |
| `GoDeclarations.MembersAreNamed` | scripts/check_backward_compat.py:358-365 | Each exported method of an exported interface is named as unread |
| `GoDeclarations.NothingUnexported` | scripts/check_backward_compat.py:446-456 | Every id is made of exported names only, at every depth |
| `GoDeclarations.BodyAndFieldsAgree` | scripts/check_backward_compat.py:288-341 | The brace count over the text and the count line by line agree: no line of a body stands outside it, and a closed body balances exactly |
| `GoDeclarations.CommentsDoNotCount` | scripts/check_backward_compat.py:297-309 | Stripping all line comments first changes neither the number of lines nor any id or unread line |
| `GoDeclarations.SecondNameIsSilent` | scripts/check_backward_compat.py:192-192 | In a file of one var line with two names the first alone is recorded and nothing reported |
| `GoGrammar.PastReceiverReads` | scripts/check_backward_compat.py:186-187 | Of all receivers the grammar allows, the loose pattern passes those without type arguments and without space behind the star |
| `GoGrammar.MethodReads` | scripts/check_backward_compat.py:188-189 | The strict pattern reads a method if and only if there is space behind func and its receiver is one of those, with a name and space behind that |
| `GoGrammar.DeclReads` | scripts/check_backward_compat.py:389-428 | By the form of the first declaration on a line, and by nothing behind it, the line records one name, is reported, or is passed by |
| `GoGrammar.TopLineIff` | scripts/check_backward_compat.py:459-469 | A visible name that a top-level line declares by the grammar is accounted for if and only if the line is not indented and its first declaration records that very name or is reported whole; methods with no space behind func or with space behind the star, receivers with type arguments, groups with entries on their opening line, second names and second declarations are not |
| `GoGrammar.TopLineInWalk` | scripts/check_backward_compat.py:344-430 | Over every walked text, a name so noticed is among the ids or its line among the unread ones |
| `GoGrammar.GroupLineIff` | scripts/check_backward_compat.py:372-387 | Of the visible names that a line of a group declares the first one is recorded and no other |
| `StructGrammar.FieldLineIff` | scripts/check_backward_compat.py:322-341 | A visible field that a line of a struct declares is accounted for if and only if it is in the list of names the line starts with, or the line starts with an embedded type spelled from an exported name on, which names the whole line, or, with white space behind the type, records that type alone |
| `StructGrammar.FieldInWalk` | scripts/check_backward_compat.py:350-366 | Over every walked text, a field so noticed is among the ids or its line among the unread ones |
| `GoGrammar.GenericReceiverIsSilent` | scripts/check_backward_compat.py:186-189 | A file with a method on a generic receiver: nothing is recorded, nothing reported |
| `GoGrammar.UnspacedMethodIsSilent` | scripts/check_backward_compat.py:186-189 | A file with a method with no space between func and its receiver: nothing is recorded, nothing reported |
| `GoGrammar.SpacedStarIsSilent` | scripts/check_backward_compat.py:186-189 | A file with a method with space behind the star of its receiver: nothing is recorded, nothing reported |
| `GoGrammar.IndentedIsSilent` | scripts/check_backward_compat.py:186-193 | A file with an indented declaration: nothing is recorded, nothing reported |
| `GoGrammar.SecondDeclarationIsSilent` | scripts/check_backward_compat.py:192-192 | In a file of one line with two var declarations the first is recorded, and the second neither recorded nor reported |
| `GoGrammar.BehindPackageIsSilent` | scripts/check_backward_compat.py:186-194 | A file with a function behind its package clause on one line: nothing is recorded, nothing reported |
| `GoGrammar.OneLineGroupIsSilent` | scripts/check_backward_compat.py:193-193 | A file with a group on one line: nothing is recorded, nothing reported |
| `GoGrammar.SecondOfGroupIsSilent` | scripts/check_backward_compat.py:197-197 | The second name of a line of a group is lost |
| `StructGrammar.EmbeddedIsSilent` | scripts/check_backward_compat.py:198-198 | An embedded pointer, an embedded type of a package, and a field behind a semicolon are lost |
| `DefinitionShape.DecimalReads` | scripts/capture_definition_shape.py:88-96 | The printed count reads back as the number |
| `DefinitionShape.CountReads` | scripts/capture_definition_shape.py:88-96 | An item-count marker reads back as its count |
| `DefinitionShape.ExpandUndoes` | scripts/capture_definition_shape.py:83-110 | Expanding counts recovers the uncompressed shape if and only if no list of two different values has a kept second string that reads like a count |
| `DefinitionShape.MisleadingList` | scripts/capture_definition_shape.py:88-96 | A document whose kept strings come back as five copies |
| `DefinitionShape.ShapeHidesValues` | scripts/capture_definition_shape.py:83-110 | Documents alike in keys, list lengths, leaf kinds, expression flags and discriminators have one shape: no other value reaches the output |
| `DefinitionShape.SkeletonTellsTheRest` | scripts/capture_definition_shape.py:83-110 | Conversely, equal uncompressed shapes mean documents alike in all of these, unless a kept string imitates a marker |
| `DefinitionShape.SaysOnlyKept` | scripts/capture_definition_shape.py:83-110 | Every string in the output is a fixed marker, a count or a kept discriminator |
| `DefinitionShape.Discriminators` | scripts/capture_definition_shape.py:113-123 | The traversal adds exactly the strings standing directly under a kept key |
| `DefinitionShape.ListsDiscriminators` | scripts/capture_definition_shape.py:113-123 | That list holds every string the shape keeps, save those that stand only in a list under a kept key |
| `DefinitionShape.ListedDiscriminatorIsMissed` | scripts/capture_definition_shape.py:113-123 | A document whose one kept string is missed |
| `CronFreshness.NormalisedUndoesCrLf` | scripts/check_cron_workflow_freshness.py:160-167 | A checkout with CRLF endings hashes as the committed text |
| `CronFreshness.CheckoutsAreOneVersion` | scripts/check_cron_workflow_freshness.py:160-167 | Two checkouts of one text are one version if and only if the text itself holds no CRLF |
| `CronFreshness.RunOfThisVersion` | scripts/check_cron_workflow_freshness.py:202-252 | Fresh on the first run of this version; unreadable, unresolved and never-run histories told apart from stale ones |
| `CronFreshness.Gate` | scripts/check_cron_workflow_freshness.py:289-379 | Exit 0 exactly on the stated facts about the sets of workflows, in both modes |
| `CronFreshness.StrictPass` | scripts/check_cron_workflow_freshness.py:289-379 | In strict mode exit 0 if and only if there is a cron-only workflow, each is fresh or has never run, and the recorded ones are exactly those that never ran |
| `CronFreshness.VerdictIsOfVersions` | scripts/check_cron_workflow_freshness.py:160-167 | Committed texts replaced by others that differ in line endings only never change the verdict; what commit holds them does not come into it |
| `Waiting.World.Monotonic` | e2e/waiting.py:63-80 | Reading the clock: it never runs backwards |
| `Waiting.World.Probe` | e2e/waiting.py:63-80 | Looking at the condition, which takes time and is answered at one instant of it |
| `Waiting.World.Sleep` | e2e/waiting.py:63-80 | A sleep lasts at least as long as asked |
| `Waiting.WaitFor` | e2e/waiting.py:55-80 | A run probes, reads the clock and sleeps in turn, returns the first value found or raises after the deadline, and sleeps once less than it probes |
| `Waiting.ProbesAreBounded` | e2e/waiting.py:55-80 | At most ceil(timeout / interval) + 1 probes |
| `Waiting.RaisesOnlyTooLate` | e2e/waiting.py:55-62 | A run that raises looked last before the condition settled, by less than the lag of that look before the deadline |
| `Waiting.MissedIff` | e2e/waiting.py:55-80 | With probes that lag by at most L some run raises for a condition that settles at a given time if and only if that time is after the start and less than L before the deadline, whatever the timeout |
| `Waiting.InstantLooksMissNothing` | e2e/waiting.py:55-62 | With instantaneous probes a condition is missed if and only if it settles after the deadline |
| `Waiting.SlowProbeCanMiss` | e2e/waiting.py:63-80 | A run with one slow probe that misses what settled at the deadline |
| `Waiting.StaysEmpty` | e2e/waiting.py:83-106 | The watch returns nothing only if every look, the one past the deadline included, found nothing |
| `Waiting.EpisodesFitAGap` | e2e/waiting.py:83-106 | After such a watch any episode of the condition inside the window lies strictly between two looks and is shorter than that gap |
| `CaseFiles.ValueAt` | scripts/casefiles.py:149-173 | The loop that rebinds the document finds what stepwise reading finds |
| `CaseFiles.MissingAbsorbs` | scripts/casefiles.py:149-173 | Nothing is found in what is missing |
| `CaseFiles.AtComposes` | scripts/casefiles.py:149-173 | Reading along p then q is reading along p + q, for star-free p |
| `CaseFiles.StarDistributes` | scripts/casefiles.py:149-173 | Past a star the rest of the path is read in every element, and a star on anything but a list is missing |
| `CaseFiles.SameIsSymmetric` | scripts/casefiles.py:205-217 | The comparison is symmetric |
| `CaseFiles.SameIsTransitive` | scripts/casefiles.py:205-217 | The comparison is transitive |
| `CaseFiles.SameAsItself` | scripts/casefiles.py:205-217 | A value equals itself if and only if no NaN and nothing missing is in it |
| `CaseFiles.SameIsEqualUpToPoint` | scripts/casefiles.py:201-217 | On plain documents the comparison is equality, but 3 is 3.0; true is never 1 |
| `CaseFiles.SortedDescends` | scripts/casefiles.py:194-195 | The descending sort descends, and leaves a list that already does alone |
| `CaseFiles.SortedIffDescends` | scripts/casefiles.py:194-195 | A list of numbers equals its own descending sort if and only if it descends |
| `CaseFiles.WrongPathFails` | scripts/casefiles.py:176-198 | A path that does not resolve fails every expectation |
| `CaseFiles.OrderedMeansDescending` | scripts/casefiles.py:194-195 | The ordering expectation holds of exactly the lists of numbers that descend |
| `DependencyManifest.NormaliseTwice` | scripts/check_dependency_risk.py:539-541 | Normalising a name twice is normalising it once |
| `DependencyManifest.CountDeclared` | scripts/check_dependency_risk.py:584-586 | The pending counts are the declared multiset |
| `DependencyManifest.ParseManifest` | scripts/check_dependency_risk.py:575-618 | Each requirement string that parses is returned as often as it is declared, and located as often as it is both declared and quoted; a located entry is quoted on its line under exactly its comment run |
| `DependencyManifest.AppendUnlocated` | scripts/check_dependency_risk.py:610-618 | What was declared and not located is returned all the same, with line 0 and no comments |
| `DependencyManifest.RunIsMaximal` | scripts/check_dependency_risk.py:588-608 | The comments of an entry are the unbroken run of comment lines directly above it, as long as it can be |
| `DocFences.ScanLines` | scripts/check_doc_drift.py:187-223 | The scan yields every line that is no marker, in order, and marks exactly those inside a fence |
| `DocFences.OneOpener` | scripts/check_doc_drift.py:187-223 | At most one fence is open at a line |
| `DocFences.FenceStep` | scripts/check_doc_drift.py:187-223 | A fence closes at the first marker of its own character that is at least as long, and only there |
| `DocFences.QuotedMarkerIsContent` | scripts/check_doc_drift.py:187-213 | A marker of the other character, or a shorter one, inside a fence is content |

## Left out

- The Go emulator, the portal and the workflows themselves: the models are of the analysers.
- Files, git, the GitHub API, `tomllib`, `ast`, `tokenize`: their results are parameters (texts, trees, listings, decoded documents). The sha256 digest is taken as injective on the normalised text.
- Non-ASCII `\w`, `\s`, `\d` and `isupper`: character classes are their ASCII parts. `$` before a trailing newline does not arise, since no modelled line holds one.
- Message wording, printing and argument parsing: findings are values, exit codes are kept.
- Order of iteration over Python sets and of sorted reports: results that the scripts sort or hold in sets are sets here. A decoded object keeps its key order through a parameter (`Specs.keys`).
- OpenApiConformance.SilentIffConforms: takes a rank along `allOf`, which there is exactly when no `allOf` chain that the schema can bring up returns to itself (`OpenApiConformance.FoundedIffAcyclic`); swaggers that make the source raise (a reference that is no string, a document that cannot be read) are not modelled.
- OpenApiConformance.Validate: the `samples` dictionary, `Specs.match` and the loop of `conformance` over recordings are left out; floats without a finite value other than NaN do not occur.
- LoggingQuality.EndsAtItsParen: says nothing of calls with a quote or a backquote in a rune or a comment, because where such a call ends depends on all the text behind it; `LoggingQuality.QuoteRunsOn` has one of each.
- LoggingQuality.StripAndFind: a site carries where its call ends instead of the call text with its whitespace collapsed; the leak and tag rules over sites are left out.
- RouteCoverage.AgreesIffDotless: of the characters with a meaning in a pattern only the dot is allowed in a fixed segment.
- CoverageRatchet.FoldedPartition: the families and their spellings are given, not parsed from registrations.
- LoopBounds.IsBounded: starts from a tree whose nodes already say whether they call a clock, bump a counter or iterate over an endless generator; that a bounded loop terminates is not claimed, the shapes are syntactic by design.
- LoopExtents.LoopsOf: a line is given by its brace change and by whether it is a header, a deadline or a sleep; the regular expressions that decide this are left out.
- BackwardCompat.BaselineFile.MainForTest: the report of undocumented knobs, which never fails, is left out.
- GoDeclarations.EntriesAreIds: covers the name that starts the line; what becomes of the others is in `GoGrammar.GroupLineIff`.
- GoDeclarations.NothingSilent: speaks of the names the source's own loose pattern finds; what the grammar declares besides is in `GoGrammar.TopLineIff`.
- GoGrammar.TopLineIff: takes a line at the level the walk has it. A list of names that goes on over a line break, a group that goes on below an entry on its opening line, a receiver type in parentheses, block comments between tokens, and names outside ASCII are not modelled.
- StructGrammar.FieldLineIff: takes names and their type with white space between them, as gofmt leaves them, and a semicolon straight behind a field; the methods and embedded types of interfaces are only what `GoDeclarations.MembersAreNamed` has.
- BackwardCompat.ErasedRemovalForgets: shows one hand edit that loses an id; other hand edits of the baseline are not modelled.
- CronFreshness.VerdictIsOfVersions: commits and merges are not modelled, only the text that is committed and the texts that runs executed.
- CronFreshness.RunOfThisVersion: the cache of digests by commit and the fallback from git to the API are one listing of runs with or without text.
- CaseFiles.OrderedMeansDescending: lists that hold NaN are compared by the insertion the model sorts with; the order the library sort gives them is not modelled. A bool as a path index is left out, as is `substitute`.
- DependencyManifest.ParseManifest: starts from the declared strings in order; `parse_config`, the Dependabot rules and the workflow jobs are left out.
- Waiting.RaisesOnlyTooLate: a settled condition is one that holds from some time on; the message a raise carries is left out.
- DocFences.ScanLines: follows the code, which knows a marker's character and length only; indentation and info strings of CommonMark are not checked there either.
- `_normalise_repo_path`, `_strip_go_line_comment`, `github_heading_slug`, the exemption ledgers and the checkers that are set differences over pattern hits: they would add easy members.
