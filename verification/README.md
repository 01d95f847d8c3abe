# Forgepost: a verified model of its pure and transactional kernels

Forgepost is a self-hosted writing platform. An author edits an article as Markdown; the article is
stored as blocks with stable ids that point at immutable versions; a running experiment shows visitors
variants of a block, counts impressions and conversions, and a Bayesian engine decides when a variant
replaces the block's current version. This project models those kernels in Dafny and proves what they
promise. Code that computes a value by expressions is a function here; code that loops, fills a table or
changes a row, a field or a file is a method or a class, proved against a specification function, and the
promises are lemmas about that function.

| files | what they cover |
|---|---|
| `BetaOdds`, `BetaLaws` | the closed-form comparison of two Beta posteriors, its laws, and its agreement with counting shuffles |
| `BetaCdf`, `CredibleInterval` | the walk from the binomial mode, and quantiles by sixty halvings |
| `SingleCrossing`, `Verdict`, `EngineReport` | the report field by field, the recommendation, and how it reacts to one more conversion |
| `TrafficSplit`, `TrafficShares` | the deterministic assignment of visitors to variants, and who gets how many of all hashes |
| `Blocks`, `BlockDiff`, `BlockMerge` | block identity across an edit: longest common subsequence and merge |
| `BlockStore`, `DocumentHistory`, `EditorSave` | the rows under UNIQUE(document_id, position), runs of saves, and the unedited save |
| `Text`, `TextLaws`, `Markdown`, `MarkdownParser`, `MarkdownPrinter`, `RoundTrip`, `Reparse` | parsing, printing, and when they undo each other |
| `VideoLines`, `ImageShapes`, `LineShapes`, `ShapesDecide` | what a text parses to, told by the shapes of its lines alone |
| `Experiments`, `ExperimentProtocol`, `ExperimentEffects` | the experiment tables, every interleaving of their actors, and what each step changes |
| `Calendar`, `RateLimiter`, `ImageRefs`, `ReferenceText` | dates of day numbers, the fixed-window limiter, and the import scanners |
| `Checksums`, `Restore`, `Recovery`, `BackupNames` | backups: which names are saved, what verifies, what every cut-short restore leaves, what comes back |

What the proofs take as given:

- Real arithmetic is exact. `exp(log_beta(a, b))` is the rational number it stands for; the engine's clamps
  are kept and shown to do nothing.
- A hash is a function parameter with the range it has in the code. Ids from the generator never repeat, so
  a counter stands for it. Clocks are parameters.
- Text is a sequence of characters. The recogniser of raw HTML paragraphs is a function parameter, about which
  nothing is assumed. `Reparse.RecogniserConverts` says what it can change; where blocks it produced would not
  survive printing, the exact condition is `Reparse.Tame`.
- SQLite checks UNIQUE row by row, and no order of the rows is fixed. The order is a parameter of the save.

Where the code and its comments differ, the model follows the code:

- `hash_unit` is documented to map into [0, 1); the top hash value maps to 1 and so to control
  (`TrafficSplit.TopHashSeesControl`).
- `rewrite_image_refs` is documented to ask the resolver about references that are not remote; it asks about
  every reference.
- The engine's gate waits for a minimum sample of the best variant or of control, not of each variant.
- `stop_experiment` has no guard on the status, so a decided experiment can still become stopped.
- A conversion is accepted without an impression, so the engine's unsigned subtraction can leave its range.
  `ExperimentProtocol.RangeIff` says exactly when. Outside it, a build with overflow checks stops and the
  release build wraps around. The protocol then lets a reader of the report decide anything: any challenger,
  no winner, or nothing. Concluding by hand reads no report and always decides. Of the protocol's results only
  the claim that automatic winners are backed by their data has the range as a hypothesis; the engine's own
  results state it where they need it.
- `parse_list_marker` is documented to need white space after the marker; it does not, so "1.5 l" is the item
  "5 l" of an ordered list (`RoundTrip.MarkerNeedsNoSpace`).
- `is_safe_disk_name` lets a hidden name like `.a.png` into a backup that verifies, and `join_inside` refuses
  to write it back (`Restore.InventoryIsWritableIff`).

## Model

| member | source | states |
|---|---|---|
| BetaOdds.StepC | crates/experiments/src/lib.rs:149-163 | one more unit of the second variant's first parameter adds h/c to the probability, h being the one density ratio all four steps share |
| BetaOdds.StepA | crates/experiments/src/lib.rs:149-163 | one more unit of the first variant's first parameter takes h/a away, although the closed sum changes in every term |
| BetaOdds.StepD | crates/experiments/src/lib.rs:149-163 | one more unit of the second variant's second parameter takes h/d away |
| BetaLaws.StepB | crates/experiments/src/lib.rs:149-163 | one more unit of the first variant's second parameter adds h/b |
| BetaLaws.Complement | crates/experiments/src/lib.rs:149-163 | P(X < Y) + P(Y < X) = 1 for all positive parameters |
| BetaLaws.OddsAreProbability | crates/experiments/src/lib.rs:161-162 | the sum lies strictly between 0 and 1, so the clamp never changes it |
| BetaLaws.Mirror | crates/experiments/src/lib.rs:149-163 | exchanging conversions and non-conversions turns the comparison around |
| BetaLaws.ConversionMovesOdds | crates/experiments/src/lib.rs:149-168 | turning a non-conversion into a conversion strictly raises a variant's chance, and strictly lowers it when control does so |
| BetaLaws.OddsCountTheRace | crates/experiments/src/lib.rs:141-163 | the closed sum is exactly the fraction of card shuffles in which one order statistic comes before another, counted by the top card: a definition that shares nothing with the sum |
| BetaLaws.ComputeProbBetaLt | crates/experiments/src/lib.rs:149-163 | the loop, with its early return and its clamp, computes that probability |
| BetaCdf.HeadAndTail | crates/experiments/src/lib.rs:170-203 | the binomial theorem: the mass below k and the chance of at least k successes, defined toss by toss, make 1 |
| BetaCdf.PmfWalk | crates/experiments/src/lib.rs:190-200 | the factors of the two walks carry one binomial probability exactly to its neighbour |
| BetaCdf.TailIncreases | crates/experiments/src/lib.rs:201-203 | the upper tail strictly grows with the success probability |
| BetaCdf.CdfIncreases | crates/experiments/src/lib.rs:173-204 | the distribution function strictly increases on the unit interval, ends included |
| BetaCdf.CdfMirror | crates/experiments/src/lib.rs:173-204 | exchanging the two counts mirrors the distribution function |
| BetaCdf.ComputeCdf | crates/experiments/src/lib.rs:173-204 | the walk down and up from the mode sums to 1, so that the result is the upper binomial tail from a |
| CredibleInterval.Halve | crates/experiments/src/lib.rs:214-224 | the loop keeps the bracket that the recursive bisection defines |
| CredibleInterval.BracketHolds | crates/experiments/src/lib.rs:214-226 | after n halvings the bracket has width 2^-n and cdf(lo) < p <= cdf(hi) |
| CredibleInterval.QuantileIsAccurate | crates/experiments/src/lib.rs:214-226 | any exact quantile lies within 2^-61 of the returned value |
| CredibleInterval.BracketsOrdered | crates/experiments/src/lib.rs:208-226 | two searches share their bracket or have parted in the right order |
| CredibleInterval.IntervalCovers | crates/experiments/src/lib.rs:208-212 | the interval is ordered, inside (0, 1), holds the requested mass, and leaves out half of the rest on each side, up to 2^-61 at either end |
| Verdict.ComputeAnalyze | crates/experiments/src/lib.rs:233-279 | for every sample the loops compute the specified report, or stop at the first subtraction that leaves the unsigned range: exactly when there are variants and control or one of them has at least two conversions more than impressions |
| EngineReport.LooksAreShared | crates/experiments/src/lib.rs:239-244 | the looks are the full minimum samples among all observations, at least one, and the doubt the configured threshold leaves is shared out evenly among them |
| EngineReport.EveryEntryDescribed | crates/experiments/src/lib.rs:233-303 | every entry of a report, control first: its counts and rate, the mean of the posterior under a uniform prior, its equal-tailed 95% interval, and as its chance against control the fraction of shuffles it wins |
| Verdict.BestFound | crates/experiments/src/lib.rs:312-321 | the maximum taken over the reports is the last of the largest probabilities among the variants |
| Verdict.PromotesIff | crates/experiments/src/lib.rs:305-350 | exactly when, for which variant and with what confidence the engine promotes, and exactly when it gives up, in terms of the threshold and the probability in the report itself and of the impressions of the leader and of control |
| Verdict.CorrectionTightens | crates/experiments/src/lib.rs:239-244 | more looks never lower the threshold, and it stays between the configured one and 1 |
| Verdict.PromotionSurvivesConversion | crates/experiments/src/lib.rs:233-350 | a promotion survives one more conversion of the promoted variant at equal impressions, with more confidence, exactly when that conversion is one of its impressions |
| SingleCrossing.CrossesOnce | crates/experiments/src/lib.rs:149-168 | of two posteriors, the one with more of both counts loses its lead at most once while control improves |
| SingleCrossing.LargerSampleNeverOvertakes | crates/experiments/src/lib.rs:149-168 | a variant with the larger sample never overtakes one with a smaller sample because control converts |
| Verdict.ControlConversionNeverPromotes | crates/experiments/src/lib.rs:233-350 | one more conversion of control at equal impressions never creates a promotion, for any number of variants, even through the gate that looks at the best variant or control only |
| TrafficSplit.AssignVariant | crates/experiments/src/lib.rs:360-383 | the accumulating loop picks the candidate of the first interval that ends beyond the hash |
| TrafficSplit.IntervalsTile | crates/experiments/src/lib.rs:371-381 | the intervals run from the control share to 1, and each has exactly its share of the experiment's traffic |
| TrafficSplit.SplitIsExact | crates/experiments/src/lib.rs:367-382 | a visitor sees a candidate if and only if the hash lies in its interval, and control if and only if it lies in none |
| TrafficSplit.MoreTrafficMovesForward | crates/experiments/src/lib.rs:360-383 | more traffic never moves a visitor back to control nor to an earlier variant |
| TrafficSplit.HashShareIsFair | crates/experiments/src/lib.rs:360-393 | of the 2^64 - 1 hash values below the top one a variant gets its exact share up to less than one value; of all 2^64 values, its share s with an error between -1 - s and 1 - s |
| TrafficSplit.TopHashSeesControl | crates/experiments/src/lib.rs:386-393 | the top hash value always stays on control |
| TrafficSplit.ControlShareIsFair | crates/experiments/src/lib.rs:360-393 | of all 2^64 hash values control gets its exact share of those below the top one, rounded up, and the top one |
| TrafficShares.ChallengerTraffic | crates/application/src/experiments.rs:83-97 | of the 2^64 hashes a challenger of an experiment gets its weight over the sum of the challengers' weights, times the traffic percentage, of those below the top one, up to less than one |
| TrafficShares.ControlTraffic | crates/application/src/experiments.rs:83-97 | control gets the rest of the percentage, rounded up, and the top hash |
| TrafficShares.TrafficEnds | crates/application/src/experiments.rs:95-96 | with no traffic everyone sees control, with all of it only the top hash does |
| TrafficShares.TrafficBeyondRange | crates/application/src/experiments.rs:95 | a percentage out of range counts as the nearest one |
| TrafficShares.FirstControl | crates/application/src/experiments.rs:84-88 | control is the first variant marked as such |
| TrafficShares.OthersInOrder | crates/application/src/experiments.rs:89-94 | the challengers are all variants but control, in their order |
| BlockDiff.LongestBounds | crates/content/src/diff.rs:122-133 | no order-preserving, kind-respecting matching is longer than the table's entry |
| BlockDiff.FillRow | crates/content/src/diff.rs:123-132 | filling one row in place makes it right and leaves the other rows alone |
| BlockDiff.LcsMatches | crates/content/src/diff.rs:122-148 | the traceback returns pairs increasing in both indices with equal kinds, and no such matching is longer |
| BlockDiff.TraceIsPreferred | crates/content/src/diff.rs:134-148 | of all longest matchings the traceback takes one that a fixed rule prefers to every other |
| BlockDiff.PreferredIsUnique | crates/content/src/diff.rs:134-148 | at most one matching is preferred to all others |
| BlockMerge.MergeBlocks | crates/content/src/diff.rs:25-118 | the merge loop with its renumbering computes the specified edit |
| BlockMerge.Edit.EditKeepsDocument | crates/content/src/diff.rs:25-118 | ids stay distinct, positions are 0..n-1, every pointer resolves in old and new versions together to what was parsed (up to video metadata), and no id is used twice |
| BlockMerge.Edit.KeptBlock | crates/content/src/diff.rs:43-87 | a block that keeps its id keeps kind and age, and gets a new version exactly when its content changed; otherwise only its position moves |
| BlockMerge.Edit.KeptVideo | crates/content/src/diff.rs:43-87 | a kept video gets a new version exactly when its provider, its id or its address changed |
| BlockMerge.Edit.KeptOther | crates/content/src/diff.rs:43-87 | any other kept block gets one exactly when its content changed in any part |
| BlockMerge.Edit.NewBlock | crates/content/src/diff.rs:88-118 | a block with a new id is dated now and points at a new version of what was parsed |
| BlockMerge.Edit.KeptAsPreferred | crates/content/src/diff.rs:25-148 | the ids that are kept are those of the preferred longest matching of kinds |
| BlockMerge.Edit.NewVersions | crates/content/src/diff.rs:25-118 | the new versions are exactly the current contents of new and changed blocks, one each |
| BlockMerge.Edit.KeepsMostIds | crates/content/src/diff.rs:25-148 | no order-preserving reuse of previous blocks of equal kind keeps more ids |
| BlockMerge.Edit.NothingChanged | crates/content/src/diff.rs:25-118 | when every block says what it said, only positions are renumbered and no id is used |
| BlockStore.BlockTable.MoveDown | crates/infrastructure/src/sqlite.rs:630-637 | one UPDATE, checked row by row in a given order, succeeds exactly when no row arrives before the one in its place has left |
| BlockStore.ParkedMovableIff | crates/infrastructure/src/sqlite.rs:630-633 | the statement over parked rows succeeds exactly when no row moves before the row one band below it |
| BlockStore.AscendingMovable | crates/infrastructure/src/sqlite.rs:630-633 | taking rows in increasing position always succeeds |
| BlockStore.LiveRowsMovable | crates/infrastructure/src/sqlite.rs:621-637 | after the first statement the topmost negative band is empty, so that the second succeeds in any order |
| BlockStore.RefusedIffClash | crates/infrastructure/src/sqlite.rs:645-675 | an upsert is refused exactly when it would put two rows of a document in one place |
| BlockStore.BlockTable.SaveDocumentBlocks | crates/infrastructure/src/sqlite.rs:609-686 | the transaction commits exactly when its first statement succeeds; then the table is the renumbered one and unique, otherwise nothing changed |
| BlockStore.LoadedIsUnique | crates/infrastructure/src/sqlite.rs:455-474 | a document reads back as one list of blocks only |
| BlockStore.SaveThenLoad | crates/infrastructure/src/sqlite.rs:436-509 | a save followed by a read returns the saved blocks in order, and every other document reads as before |
| DocumentHistory.StepKeepsSound | crates/infrastructure/src/sqlite.rs:609-689 | saves (of the current document or of an earlier read), new variant versions and promotions keep the store sound and only add rows and versions |
| DocumentHistory.RunKeepsSound | crates/infrastructure/src/sqlite.rs:455-509 | over any run, where a save may work on blocks read in any earlier store and on versions read in the same or a later one, every store is sound, every step is enabled and no version is lost or altered |
| DocumentHistory.RunStaysShallow | crates/infrastructure/src/sqlite.rs:616-637 | over any such run rows sink by one band a save at most, so with up to 9223372036 saves every position fits into 64 bits |
| DocumentHistory.PointerAfterSave | crates/infrastructure/src/sqlite.rs:645-657 | a save points a kept block at the version it had read, whatever the row points at by then, or at a new version if the content was edited |
| DocumentHistory.RepointSurvivesIff | crates/application/src/services/document.rs:113-163 | a promotion made between reading and saving a document survives the save exactly when the save drops the block |
| DocumentHistory.SaveRefinesMerge | crates/application/src/services/document.rs:152-163 | the row table refines the plain document: after a save, of a stale read too, it reads as the merged blocks, saying what was parsed, with the new versions added to its history |
| DocumentHistory.SaveLeavesOthers | crates/infrastructure/src/sqlite.rs:609-689 | no other document reads differently after a save |
| DocumentHistory.DroppedBlocksRemain | crates/infrastructure/src/sqlite.rs:616-637 | dropped blocks are no longer read, but their rows, pointers and versions remain |
| DocumentHistory.DropParks | crates/infrastructure/src/sqlite.rs:616-637 | a save moves the row of a block it does not keep down by a thousand million positions and changes nothing else in it |
| DocumentHistory.AddVersionJoins | crates/infrastructure/src/sqlite.rs:1251-1264 | a new variant version joins the history of its document, and nothing reads differently |
| DocumentHistory.RepointReads | crates/infrastructure/src/sqlite.rs:1423-1436 | after a promotion every document reads the same, but for the promoted block, which shows its new version |
| DocumentHistory.SamePlaceCollides | crates/infrastructure/src/sqlite.rs:609-637 | when two successive saves drop a block from the same place, every later save whose first statement visits the second one's row before the first one's fails |
| DocumentHistory.ShallowFirstFails | crates/infrastructure/src/sqlite.rs:609-637 | three saves from an empty store lead to such a table: one order of its parked rows fails, the other succeeds |
| DocumentHistory.RunReadsNumbered | crates/infrastructure/src/sqlite.rs:455-474 | in every store of a run a document reads with positions 0, 1, 2 and so on: no step leaves a gap |
| EditorSave.UneditedMerge | crates/content/src/diff.rs:25-118 | merging the parse of a document's own printed text, with either line end, keeps every id, pointer, kind and time stamp, mints no version and uses no id |
| EditorSave.UnresolvedIsSkipped | crates/server/src/pages.rs:2360-2362 | a block whose content cannot be found leaves nothing in the text |
| EditorSave.UneditedSaveIsNoOp | crates/application/src/services/document.rs:105-163 | opening the editor and submitting its text, with line feeds or with the line ends of a form, changes nothing that any document reads, if live rows are numbered without a gap |
| EditorSave.UneditedSaveInRun | crates/application/src/services/document.rs:105-163 | the same in every store that a run reaches from an empty one, for every read of a document of printable blocks |
| EditorSave.OpenDocument.ApplyMarkdown | crates/application/src/services/document.rs:152-163 | parse, metadata, merge and save compose: after a commit the document reads as the open one, which matches its history too if nothing came between; after a conflict nothing has changed |
| MarkdownParser.ParseMarkdown | crates/content/src/markdown.rs:25-185 | the main loop always ends and returns the specified blocks |
| MarkdownParser.Dispatch | crates/content/src/markdown.rs:30-182 | each round takes the branch of the specification and consumes at least one line |
| MarkdownParser.ReadCode | crates/content/src/markdown.rs:45-63 | the fence loop collects the lines up to the closing fence, which may be missing |
| MarkdownParser.ReadImages | crates/content/src/markdown.rs:100-110 | the scan of one line returns the run of images and what is left |
| TextLaws.TrimIs | crates/content/src/markdown.rs:32 | trimming takes away exactly the white space at both ends, 25 code points being white space |
| TextLaws.LinesEnd | crates/content/src/markdown.rs:26 | the lines of a text are its pieces between line feeds, without the carriage return before one |
| VideoLines.VideoAtIs | crates/content/src/markdown.rs:467-545 | a host and a path name a video exactly when they have one of the listed shapes |
| VideoLines.VideoLineIff | crates/content/src/markdown.rs:460-545 | a line without white space around it is a video exactly when it is such an address, with either scheme and any number of slashes behind |
| VideoLines.VideoLineParses | crates/content/src/markdown.rs:460-545 | such a line parses to exactly that video |
| VideoLines.WatchAddress | crates/content/src/markdown.rs:481-483 | a watch address names the video of its first v parameter, whatever stands before and behind |
| ImageShapes.SplitIs | crates/content/src/markdown.rs:745-772 | a size is split off an address exactly behind an equals sign that follows a blank or a tab |
| ImageShapes.ImageIs | crates/content/src/markdown.rs:227-296 | what is read as an image, linked or not, is exactly what has the shape of one; white space between the brackets is not counted as consumed |
| ImageShapes.ImageLineIs | crates/content/src/markdown.rs:100-110 | a line is taken as images exactly when it consists of images and white space |
| LineShapes.MarkerIs | crates/content/src/markdown.rs:795-818 | the items of lists are exactly the texts with a bullet or a number and a dot in front and something behind |
| LineShapes.StepReads | crates/content/src/markdown.rs:30-182 | one round reads the blocks that the shapes of the first lines show, and takes exactly their lines |
| ShapesDecide.RoundDecides | crates/content/src/markdown.rs:30-182 | those shapes leave no choice |
| ShapesDecide.ParseIff | crates/content/src/markdown.rs:25-185 | a text parses to a list of blocks if and only if its lines show them, round after round |
| MarkdownPrinter.BlocksToMarkdown | crates/server/src/pages.rs:2357-2440 | the loop prints the blocks whose content resolves, in order |
| MarkdownPrinter.EmbedPrints | crates/server/src/pages.rs:2416-2431 | an embedded frame is printed as one tag with its attributes in order; one without a value is left out |
| RoundTrip.DocumentLinesPlain | crates/server/src/pages.rs:2357-2440 | the printed text of a list of printable blocks is made of the lines of its blocks, with a blank line between neighbours |
| RoundTrip.StepBlock | crates/content/src/markdown.rs:25-185 | each kind of printable block is read back from its printed lines in one round |
| RoundTrip.PrintThenParse | crates/server/src/pages.rs:2357-2440 | parsing a printed list of printable blocks gives it back |
| Text.LinesOfReturns | crates/content/src/markdown.rs:26 | a text submitted with carriage returns has the lines of the text before |
| RoundTrip.MarkerNeedsNoSpace | crates/content/src/markdown.rs:792-818 | a marker is recognised directly in front of any text, without white space between |
| Reparse.RecogniserConverts | crates/content/src/markdown.rs:163-182 | parsing with a recogniser of raw HTML is parsing without one and then converting the paragraphs it takes |
| Reparse.ParsedSurvives | crates/content/src/markdown.rs:25-185 | on source whose lines hold no carriage return, the parser only yields printable blocks and fences whose language starts with a backtick, exactly when this holds of what the recogniser made of the paragraphs it took; so always when it takes none |
| Reparse.SecondPassIff | crates/content/src/markdown.rs:25-185 | under that condition, what such source parses to survives printing, submitting and parsing exactly when it holds no such fence |
| Reparse.ReadBackIffPrintable | crates/server/src/pages.rs:2357-2440 | among the block lists whose printed text has no carriage return in a line, the lists of printable blocks are exactly those that come back from parsing it under that condition on the recogniser |
| Reparse.BacktickFenceExists | crates/content/src/markdown.rs:45-63 | such fences occur |
| Experiments.Repository.StartExperiment | crates/infrastructure/src/sqlite.rs:1381-1404 | a draft starts unless another experiment runs on its block; otherwise nothing changes |
| Experiments.Repository.StopExperiment | crates/infrastructure/src/sqlite.rs:1406-1421 | any existing experiment stops, whatever its status |
| Experiments.Repository.ConcludeExperiment | crates/infrastructure/src/sqlite.rs:1451-1513 | row, status and pointer change together if the experiment runs, and not at all otherwise |
| Experiments.Repository.RecordAnalyticsEvent | crates/infrastructure/src/sqlite.rs:978-1007 | a second conversion of a visitor is ignored |
| Experiments.AssignedVariants | crates/server/src/routes.rs:204-214 | the overlay holds, for each block under test, the assignment of its first experiment |
| Experiments.MoreTrafficKeepsChallengers | crates/application/src/experiments.rs:83-97 | raising an experiment's traffic weight never moves a visitor of a challenger back to control or to an earlier challenger |
| ExperimentProtocol.StepKeepsInv | crates/application/src/experiments.rs:232-358 | every step of every actor keeps the invariant of the tables and of what readers and writers hold |
| ExperimentProtocol.RunKeepsInv | crates/application/src/experiments.rs:232-448 | the invariant holds in every reachable state |
| ExperimentProtocol.RunsOnceDecidedOnce | crates/infrastructure/src/sqlite.rs:1381-1513 | in any run an experiment enters running at most once and gets at most one decision row |
| ExperimentProtocol.OneCommitTakesEffect | crates/infrastructure/src/sqlite.rs:1481-1499 | of two commits for one experiment, in any run, at most one changes any table |
| ExperimentProtocol.OnlyWinnersRepoint | crates/infrastructure/src/sqlite.rs:1500-1510 | a protocol step moves a block's pointer only together with a new decision row, to the version of the challenger that row names |
| ExperimentProtocol.AutoWinnersAreBacked | crates/application/src/experiments.rs:232-274 | every recorded automatic winner had, on the events its reader saw, the confidence it claims, at or above the threshold corrected for the looks taken, and passed the sample gate, provided those events kept the engine's arithmetic in range |
| ExperimentProtocol.OneVariantPerVisitor | crates/server/src/routes.rs:758-796 | all events of a visitor in an experiment carry one variant and one version |
| ExperimentProtocol.SamplesPartitionVisitors | crates/infrastructure/src/sqlite.rs:1515-1538 | per-variant counts add up to the distinct visitors, and a sample only holds visitors assigned to its variant |
| ExperimentProtocol.OneRowPerConvert | crates/infrastructure/src/sqlite.rs:985-987 | there are exactly as many conversion rows as converting visitors |
| ExperimentProtocol.ConversionsNeedNoImpression | crates/server/src/routes.rs:758-796 | two visitors who only convert leave a sample on which the engine's unsigned arithmetic leaves its range |
| ExperimentProtocol.RangeIff | crates/experiments/src/lib.rs:254-259 | a sample keeps it in range exactly when the visitors who only converted outnumber those who only looked by one at most |
| ExperimentProtocol.ImpressionsFirstKeepRange | crates/server/src/routes.rs:758-796 | if a conversion were accepted only after an impression, every reachable state would keep every variant in range |
| ExperimentEffects.DraftIsStored | crates/application/src/services/experiment.rs:57-97 | a draft that passes the service's checks and shows its block's version as control is stored as it is |
| ExperimentEffects.StoredPassed | crates/application/src/services/experiment.rs:57-97 | whatever is stored passed these checks |
| ExperimentEffects.StartRuns | crates/infrastructure/src/sqlite.rs:1381-1404 | which fields a start changes, exactly when it takes effect, and that nothing changes otherwise |
| ExperimentEffects.StopStops | crates/infrastructure/src/sqlite.rs:1406-1421 | a stop sets the status and the decision text of any existing experiment and keeps the rest, the winner too |
| ExperimentEffects.CommitDecides | crates/infrastructure/src/sqlite.rs:1451-1513 | a commit for a running experiment adds its row, names the outcome, and repoints the block exactly when there is a winner |
| ExperimentEffects.IdleUndecided | crates/application/src/experiments.rs:232-243 | nobody comes to a decision about an experiment that does not run |
| ExperimentEffects.ConcludeHolds | crates/application/src/experiments.rs:330-358 | concluding by hand always yields a decision without a winner |
| ExperimentEffects.AutoFollowsReport | crates/application/src/experiments.rs:244-274 | the auto-decider decides what the live report recommends, with the version of the variant it names |
| ExperimentEffects.PromoteTakesBest | crates/application/src/experiments.rs:277-328 | promoting by hand takes the last challenger with the largest reported probability |
| ExperimentEffects.LiveRecommendation | crates/application/src/experiments.rs:188-224 | the live recommendation in terms of the visitors counted for the leader and for control, and of the experiment's own settings |
| ExperimentEffects.LiveCounts | crates/application/src/experiments.rs:175-224 | a live report counts the distinct visitors of control and of each challenger, in their order |
| ExperimentEffects.AnythingGoes | crates/experiments/src/lib.rs:254-259 | outside the engine's range a reader of the report may end up with any challenger, and the auto-decider also with none |
| ExperimentEffects.AcceptedIsStored | crates/server/src/routes.rs:757-796 | an accepted impression always adds exactly its row, an accepted conversion exactly when its visitor has none, and nothing else changes |
| ExperimentEffects.AcceptedCounts | crates/server/src/routes.rs:757-796 | every accepted event puts its visitor into the sample of its variant and kind, and changes no other sample |
| ExperimentEffects.RefusedStoresNothing | crates/server/src/routes.rs:757-796 | an event for an experiment that does not run or for a variant its visitor is not shown stores nothing |
| Calendar.CalendarIsGregorian | crates/server/src/pages.rs:550-561 | every day number has a valid proleptic Gregorian date and the next day has the next date, day 0 being 1970-01-01 |
| Calendar.DaysAndDatesCorrespond | crates/server/src/pages.rs:550-561 | every date occurs, on exactly the day its day count says |
| Calendar.CalendarRepeats | crates/server/src/pages.rs:698-707 | after 146097 days the same date recurs 400 years later on the same weekday, and the weekday advances with the day |
| RateLimiter.Limiter.AllowRequest | crates/analytics/src/lib.rs:106-114 | the answer and the new windows of one request |
| RateLimiter.Limiter.PeekRequest | crates/analytics/src/lib.rs:118-122 | a peek takes no slot, but resets a window that has run out |
| RateLimiter.Limiter.RecordFailure | crates/analytics/src/lib.rs:127-131 | a recorded failure takes a slot up to the limit |
| RateLimiter.CountsBounded | crates/analytics/src/lib.rs:106-153 | no count exceeds the limit under any mix of calls, whatever the clock does |
| RateLimiter.SlotsAreTaken | crates/analytics/src/lib.rs:106-153 | within the minute that an operation opened, every request and every recorded failure takes a slot until none is left |
| RateLimiter.LetThroughIff | crates/analytics/src/lib.rs:106-153 | within it a request is let through exactly while a slot is left; a minute after it opened, exactly when the limit allows any |
| RateLimiter.TwoWindowBound | crates/analytics/src/lib.rs:106-153 | with a clock that does not run backwards, no half-open minute admits more than twice the limit for a key |
| RateLimiter.TwoWindowBoundIsTight | crates/analytics/src/lib.rs:106-153 | for every limit and key some run admits exactly twice the limit in one half-open minute |
| RateLimiter.KeyIsIsolated | crates/analytics/src/lib.rs:106-153 | a key is answered as by a fresh limiter that saw only that key's calls |
| ImageRefs.NextRefFits | crates/infrastructure/src/filesystem.rs:185-209 | the chain of searches splits the text at its first reference or says which closing character is missing |
| ImageRefs.FitsOnlyNextRef | crates/infrastructure/src/filesystem.rs:185-209 | that splitting is the only one |
| ImageRefs.RewriteImageRefs | crates/infrastructure/src/filesystem.rs:177-226 | the output is the source with the resolved addresses replaced, and the two counters are the tallies |
| ImageRefs.ForEachImageRef | crates/infrastructure/src/filesystem.rs:229-248 | despite its early exits the visitor sees exactly the references the rewriter asks about, in order |
| ImageRefs.EveryRefCounted | crates/infrastructure/src/filesystem.rs:210-221 | imported, unresolved and unresolved remote references add up to those visited |
| ReferenceText.RewritingBecomes | crates/infrastructure/src/filesystem.rs:177-226 | stretch by stretch the output is the source with the addresses that resolve replaced, told without scanning |
| ReferenceText.BecomesOne | crates/infrastructure/src/filesystem.rs:177-226 | that description has one outcome only |
| ReferenceText.TalliesOf | crates/infrastructure/src/filesystem.rs:210-221 | a reference that resolves is imported; one that does not is remote exactly if its address begins like an absolute one, with embedded data or with a place on the page |
| ImageRefs.NothingResolvesNothingChanges | crates/infrastructure/src/filesystem.rs:177-226 | when nothing resolves, the text comes back unchanged |
| ImageRefs.RescanIff | crates/infrastructure/src/filesystem.rs:177-226 | scanning the rewritten text finds the same stretches and references at their new addresses exactly when no new address holds a closing parenthesis |
| Checksums.PrintChecksums | crates/application/src/services/backup.rs:93-106 | the checksum text is built line by line: manifest, media, database |
| Checksums.VerifyChecksums | crates/infrastructure/src/backup.rs:157-197 | the two loops answer what the specification answers, with the first fault they meet |
| Checksums.SealedVerifiesIff | crates/infrastructure/src/backup.rs:157-197 | an archive verifies against the checksum text printed for it, in any entry order, exactly when no name is empty, holds a line feed or ends in white space |
| Checksums.NoSilentChange | crates/infrastructure/src/backup.rs:183-195 | two archives that verify against one checksum text agree on shared entries up to hash collisions |
| BackupNames.ArchiveLayout | crates/application/src/services/backup.rs:83-126 | the names and contents of a sealed archive, the checksum file included, line by line |
| BackupNames.ForeignLine | crates/infrastructure/src/backup.rs:166-180 | a recorded line may have white space around its parts and digits in either case; blank lines are skipped |
| BackupNames.MalformedLine | crates/infrastructure/src/backup.rs:166-180 | a line without two spaces in a row is malformed |
| BackupNames.FirstFault | crates/infrastructure/src/backup.rs:183-195 | the first entry that is not recorded or does not match is reported, and only then |
| BackupNames.VerifyFaults | crates/infrastructure/src/backup.rs:157-197 | which fault an archive has |
| Restore.InPlaceIff | crates/application/src/services/backup.rs:211-218 | each media file ends up with its own content exactly when no two names of the inventory claim one file for different contents |
| Restore.InventoryIsWritableIff | crates/infrastructure/src/backup.rs:40-59 | everything a backup saves can be written back exactly when no saved name starts with a dot |
| Restore.HiddenNamesAreSaved | crates/infrastructure/src/backup.rs:40-59 | such a name exists |
| BackupNames.SavedIff | crates/infrastructure/src/backup.rs:40-51 | a file is saved under "media/" exactly when its name is a stem, a dot and an extension of 64 bytes together at most, without separators and without two dots in a row |
| BackupNames.WritableIff | crates/infrastructure/src/backup.rs:40-59 | a restore writes exactly the names of that form that do not start with a dot |
| BackupNames.BytesOfCharacter | crates/infrastructure/src/backup.rs:42 | the length limit counts the bytes of the shortest UTF-8 encoding |
| BackupNames.PlainNames | crates/infrastructure/src/backup.rs:40-51 | every plain name of up to 64 characters is saved and can be written back |
| Restore.RestartIsHarmless | crates/application/src/services/backup.rs:209-218 | a restore cut short among the media files and started again leaves them as an uninterrupted one |
| Restore.Installation.Restore | crates/application/src/services/backup.rs:197-238 | for every number of effects after which it stops, the exact media, rollback, log and database it leaves; if the live database differs, every media file was written and an existing database is preserved in the rollback file; a completed restore is live exactly as archived unless a stale log could not be removed |
| Recovery.BackupVerifiesIff | crates/application/src/services/backup.rs:60-126 | the archive of a media directory verifies exactly when no saved name holds a line feed or ends in white space |
| Recovery.UnreadableNamesAreSaved | crates/infrastructure/src/backup.rs:40-59 | a name ending in a blank is saved, and the backup that holds it does not verify |
| Recovery.InventoryNoClash | crates/infrastructure/src/backup.rs:105-127 | no two names of an inventory claim one file |
| Recovery.InventoryComesBack | crates/application/src/services/backup.rs:208-219 | writing an inventory back leaves every saved file with its saved content and every other file as it is |
| Recovery.RestoreBackup | crates/application/src/services/backup.rs:176-239 | verify and restore together: stopped anywhere, a changed live database implies all media in place and a preserved rollback; left to finish, a verified backup is restored exactly when no saved name starts with a dot, and brings back exactly what was saved |
| BackupNames.RestoreUploads | crates/application/src/services/backup.rs:176-239 | a backup of files named like uploads verifies, and a restore left to finish brings back every one of them |

## Left out

- f64 rounding, the Lanczos approximation and overflow in `exp`: a separate project on floating point.
- SHA-256, password hashing, id generation, cookies, HTTP handlers, templates, TLS, the command line and the browser scripts.
- Raw HTML `<img>` and `<iframe>` paragraphs: their recogniser is a parameter, and the printer does not invert them.
- Calls to action and iframe videos in the round trip: the first prints as a paragraph, the second needs the recogniser.
- Images with white space between the two brackets: parsed as the code does, but the printer never produces them.
- Bytes: text is modelled as characters; only the length limit of media names counts UTF-8 bytes.
- BlockMerge.Edit.KeptBlock: an absent text field and an empty one are one value here, while the merge compares JSON; the parser writes each field in one way only, but content supplied for a variant through the API can differ from its own reparsed text in nothing but that, and then an unedited save mints a version.
- Effect size, names, goals and the control counts of a decision row; the last are looked up by a version id in the code.
- `apply_assignments`: which markup is shown for an assigned variant; the assignment itself is modelled.
- The attribution check's tests on document and published article: the experiment branch is modelled from the status test on.
- A carriage return inside a stored line, which a browser turns into a line end of its own.
- `delete_document`, which cascades to blocks, versions and experiments: no run contains it, so "no version is lost" is about runs without it.
- The search index, which promoting a winner does not refresh, and the network side of video metadata.
- Reads of a document as SQL text: a read is specified by what it must return, and shown to be unique.
- Snapshots and writes that leave partial files: each effect of a restore is atomic, as the rename in `atomic_write` makes it; the shared-memory file beside the log is not modelled.
- The JSON of the manifest: the inventory it lists is taken as given.
- The date strings around year, month, day and weekday.
- BlockStore.BlockTable.Upsert: row uniqueness on (document_id, position) only; foreign keys are not modelled.
- Verdict.ComputeAnalyze: stops, as a build with overflow checks does, where the engine's unsigned subtraction leaves its range; the release build goes on with wrapped-around numbers, whose further sums wrap around too and can reach arguments at which a Beta function has no value.
- Slugs, tags, comments, settings, traffic sources and recommendations: easy members.
