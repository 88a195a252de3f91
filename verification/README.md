# Verified model of a legal assistant's citation, audit and client core

The repository is a local legal assistant. Answers cite statutes with
`[SRC:...]` markers; a Rust crate checks the markers and reports conclusions
that no valid marker supports, a Python driver audits the repository itself, a
browser client talks to the local service, and several scripts read, index and
scan its files. This project models the parts whose correctness is not visible
from one function at a time, and proves what they promise for all inputs.

- **Citation checker** (`Markers`, `LegalText`, `Segments`, `Coverage`, `Boundaries`,
  `Sources`, `Validation`, `Effectiveness`). Four scanners walk the same answer with
  their own cursors. They are proved to agree on where the markers are: the
  segments partition the answer, never cut a marker, and end at every place where
  a cut is due and nowhere else, and the "no unsupported conclusion" verdict is
  characterised exactly, character by character, down to the database row that
  sources each word. Dates compare as days of the Gregorian calendar. The word lists and the
  alphanumeric class are parameters (`Lexicon`); `LegalText.LegalLexicon` holds the
  lists in use, and every theorem holds for them in particular.
- **Article numbers** (`ArticleNumbers`, `ArticleNumberLaws`, `NumeralGrammar`). The
  Chinese numeral printer and the parser are inverse on all article numbers, so
  equivalence of spellings is equality of normal forms; a grammar says exactly
  which texts are read, and as which number.
- **Ranking** (`Ranking`, `RankingOrder`). The merged result list is the top of one
  strict total order, whichever list comes first; the order is spelled out in hits,
  authority and texts without the comparator.
- **Audit scheduler** (`Scheduler`, `SchedulerSafety`, `SchedulerLimits`). Selections are
  least closures, commands start only after the prerequisites their specs declare,
  and the verdict is honest; `SchedulerLimits` says exactly where it promises less.
- **Browser client** (`SessionProtocol`, `SessionDuties`, `ApiClient`, `LineStream`,
  `StreamMessages`). The session-epoch protocol is a state machine over all
  interleavings, with what it may deliver, what it must deliver, and that every
  request ends once; the class `ApiClient.Client`, with the client's fields and
  shared abort controllers, refines it turn by turn. The line reader does not
  depend on how the stream was cut, and reports exactly what the data lines say.
- **MSF/PDB container** (`PdbContainer`, `PdbImages`, `PdbWriter`). The reader is
  exact against a declarative description of images and inverts a writer that
  may place blocks anywhere.
- **Bigram index** (`BigramIndex`), **streamed search** (`StreamSearch`), **map
  artifacts** (`MapSpec`, `ParentForest`), **process relations** (`ProcessRelations`),
  **public citations** (`PublicCitation`) and **JSON fences** (`JsonFence`).

`Text` and `Wrappers` hold the string operations and the option and result
types. Loops of the source are methods with loops, each proved equal to a
recursive function or to the property itself; expression-shaped code is
functions. `dafny verify dfyconfig.toml` checks the whole project.

## Where the code falls short of a simple promise

- Epoch protocol: something can reach a session that did not ask for it in three
  ways. A rejection is handed on without an epoch check, so an earlier session's
  request that fails late, be it on the network or over a malformed JSON body,
  reports its error to the new session (`SessionProtocol.RejectionIsUnchecked`,
  `SessionProtocol.MalformedBodyIsLate`). A chat stream that succeeds without a body
  fails without an epoch check too, so one begun before a sign-in and answered 204
  after it does the same (`SessionProtocol.EmptyStreamIsStale`); while no epoch number
  is reused this is the only way for a response
  (`SessionProtocol.StaleDeliveryIffEmptyStream`). Any other response is stale only
  when an epoch number is used again, and every history with a reused epoch admits
  it (`SessionProtocol.StaleDeliveryIffEpochReused`).
- Chat stream: a line whose payload is the JSON value null raises a type error
  outside the parser's `try`, and every later event is lost
  (`StreamMessages.NullEndsTheStream`). `LineStream.StreamChat` proves that a stream ends
  normally iff no check fails and no line is null, and that where it breaks off
  does not depend on the chunks.
- Streamed search: keys of more than 513 bytes can be missed at a block boundary
  (`StreamSearch.LongKeyIsMissed` gives the file, cut into full blocks as the loop
  reads it); `StreamSearch.KeyLengthIsExact` proves 513 is exact for every block size.
- Chinese numerals: among digits and units a digit in front of a zero is dropped, so
  五〇十 is read as ten (`NumeralGrammar.DigitBeforeZeroIsDropped`);
  `NumeralGrammar.OrdinalIsExact` says what is read otherwise.
- Date filter: the retrieval query and the citation check differ on open-ended
  versions that are neither in force nor repealed; `Effectiveness.QueryAdmitsExactly`
  gives the exact difference and `Effectiveness.NotYetEffectiveDiffers` a row.
- JSON fence: an LF opener closed after CRLF leaves the carriage return in the
  body (`JsonFence.MixedEndingsKeepCarriageReturn`); `JsonFence.CarriageReturnIsKeptIff`
  says when a body ends in one. The count of fences never decides once the body
  has none (`JsonFence.WrappedHasTwoFences`).
- Audit verdict: the folding looks only at records, so a selected id outside the
  plan goes unnoticed (`SchedulerLimits.UnknownSelectionPasses`). A request that asks
  for no check is reported passed though nothing ran: `SchedulerLimits.NothingRanIff`
  gives the condition, and empty tokens or a phase without specs meet it
  (`SchedulerLimits.EmptyRequestsPass`). A passed report means that all selected
  checks passed iff every selected id is in the plan
  (`SchedulerSafety.PassedMeansAllPassed`), and `SchedulerLimits.MisleadingVerdictIff` says
  for which selections it can mislead. The selector can select an id outside the
  plan, as the prerequisite of a check, but then that check is blocked:
  `SchedulerSafety.SelectorVerdictIsHonest` shows that for selections it makes a
  passed report is true.
- Audit launches: the selection adds the manifest check behind the check of the
  runtime resources, but the run does not wait for it. A command that needs the
  resources is launched although the manifests have failed
  (`SchedulerLimits.LaunchedWithoutManifests`); `SchedulerLimits.ExposedIff` says for
  which commands this can happen.

## Model

| member | source | states |
|---|---|---|
| Markers.ScanFindsMarkers | crates/citations/src/lib.rs:344-373 | the left-to-right scan yields ordered, disjoint markers, and no closed `[SRC:` is left outside all of them |
| Markers.MarkerListIsUnique | crates/citations/src/lib.rs:344-373 | that description has one solution, so scanners that meet it agree on every marker |
| Markers.PieceMarkers | crates/citations/src/lib.rs:1080-1098 | a span is a marker of a slice that cuts no marker iff, shifted, it is a marker of the whole answer that ends in the slice |
| Markers.PieceOffsets | crates/citations/src/lib.rs:1080-1098 | an offset of such a slice is in one of its markers iff it is in a marker of the whole answer |
| Markers.ParseSourceMarkers | crates/citations/src/lib.rs:344-373 | the parsing loop reports one citation per marker, in order, with raw text, trimmed id, offsets, syntax and duplicate flags |
| Markers.ReportsDescribeMarkers | crates/citations/src/lib.rs:350-366 | each report is the text of its marker, reports do not overlap, and `duplicate` is set iff an earlier report has the same id |
| Markers.RemoveSourceMarkersLoop | crates/citations/src/lib.rs:1080-1098 | the removal loop over a shrinking remainder equals recursive removal |
| Markers.RemovalKeepsGaps | crates/citations/src/lib.rs:1080-1098 | from any offset, removal returns the concatenated gaps between markers, an unterminated tail included |
| Markers.MarkerConservation | crates/citations/src/lib.rs:344-373 | spans increase and are disjoint, raw markers interleaved with the gaps rebuild the answer, and removal returns the gaps |
| Markers.RemovedChars | crates/citations/src/lib.rs:1080-1098 | a character survives removal iff it stands somewhere outside every marker |
| Segments.SkipWhitespace | crates/citations/src/lib.rs:1590-1600 | skips whitespace only, up to the first character that is none or the end |
| Segments.ExtendThroughTrailingMarkersLoop | crates/citations/src/lib.rs:1590-1611 | the nested loops compute the recursive extension over whitespace and closed markers |
| Segments.StepMoves | crates/citations/src/lib.rs:1342-1389 | every move of the segmenter advances, stays in bounds, and cuts between its old and new cursor |
| Segments.LegalConclusionSegmentsLoop | crates/citations/src/lib.rs:1337-1396 | the loop over `start` and `cursor` computes the recursive segmentation |
| Segments.TrailingStart | crates/citations/src/lib.rs:1327-1332 | the end of the last valid marker inside the segment, or the segment's start: an upper bound that is attained |
| Coverage.BracketAfterPrefix | crates/citations/src/lib.rs:1343-1348 | searching the closing bracket from the prefix or from behind it finds the same one |
| Coverage.JumpStaysClean | crates/citations/src/lib.rs:1343-1348 | the segmenter's jump over a marker lands exactly where parsing ends that marker |
| Coverage.ExtensionStaysClean | crates/citations/src/lib.rs:1590-1611 | extending a sentence through trailing markers never stops inside a marker |
| Coverage.StepKeepsMarkersWhole | crates/citations/src/lib.rs:1337-1396 | every move keeps the cursor and each cut outside all markers, and drops text only as a connector it splits at |
| Coverage.DroppedConnectorFollowsInk | crates/citations/src/lib.rs:1505-1514 | a connector is dropped only after a piece that is not blank |
| Coverage.SegmentsPartition | crates/citations/src/lib.rs:1337-1396 | from any clean state the segments are ordered, disjoint and not blank, and everything else is whitespace or a dropped connector |
| Coverage.SegmentsHoldMarkers | crates/citations/src/lib.rs:1337-1396 | for every answer the segments partition it and every marker lies inside exactly one segment |
| Coverage.LegalAnswerMeans | crates/citations/src/lib.rs:1059-1078 | a piece needs a source iff it is no refusal or heading and has an alphanumeric character outside its markers |
| Coverage.ValidSpansAreMarkers | crates/citations/src/lib.rs:1302-1310 | the spans taken as valid are markers of the answer |
| Coverage.ValidSpansMean | crates/citations/src/lib.rs:1302-1310 | a span is taken as valid iff some report with it was found valid |
| Coverage.SegmentVerdict | crates/citations/src/lib.rs:1318-1335 | a segment is unsupported iff, after its last valid marker, it has prose with an alphanumeric character outside every marker of the answer |
| Coverage.VerdictIsExact | crates/citations/src/lib.rs:1293-1316 | the verdict is raised iff some segment of the answer has such a character |
| Coverage.CleanVerdictCoversEveryWord | crates/citations/src/lib.rs:1293-1335 | without the verdict every alphanumeric character is in a marker, in a connector that splits behind a segment and lies in none, in front of a valid marker of its own segment, or behind all of those in a trailing piece that is a refusal or heading |
| Boundaries.SentencesEndSegments | crates/citations/src/lib.rs:1380-1388 | behind a sentence end outside every marker, with no unclosed prefix before it, its segment holds only whitespace and markers |
| Boundaries.SegmentsEndAtCuts | crates/citations/src/lib.rs:1337-1396 | a segment ends with the answer, with a sentence and all whitespace and markers behind it, in front of a connector that splits, or behind a list delimiter that splits |
| Boundaries.NoSplitIsMissed | crates/citations/src/lib.rs:1352-1379 | up to its first sentence end a segment passes over no connector that splits, and over no list delimiter that splits except as its last character |
| LegalText.PureRefusalMeans | crates/citations/src/lib.rs:1239-1291 | an answer is a pure refusal iff, deleting the refusals and then the connectives one after the other, some refusal is met and only whitespace and punctuation are left |
| LegalText.FirstConnector | crates/citations/src/lib.rs:1493-1503 | the connector found is the first of the list that occurs at the offset, and none is found iff none occurs |
| LegalText.NearestDelimiter | crates/citations/src/lib.rs:1516-1523 | the right-hand clause ends at the nearest delimiter, or at the end if there is none |
| LegalText.NearestSentenceEnd | crates/citations/src/lib.rs:1419-1428 | the right-hand clause of a list ends at the nearest sentence end, or at the end if there is none |
| LegalText.EarliestMeans | crates/citations/src/lib.rs:1537-1543 | the predicate found starts first of all that occur, and none is found iff none occurs |
| LegalText.ExplicitSubjectMeans | crates/citations/src/lib.rs:1527-1550 | a clause has an explicit subject iff its first predicate follows a text of 1 to 24 characters, one of them alphanumeric |
| Validation.ValidateAnswerCitations | crates/citations/src/lib.rs:375-446 | refuses exactly malformed case dates, and otherwise reports both counts, the verdict, and for every marker its row and reason: bad syntax, missing, not retrieved, out of effect, or none iff it is valid |
| Validation.NoInvalidMeansAllCheck | crates/citations/src/lib.rs:390-434 | the counts add up to the markers, and none is invalid iff every marker names, in valid syntax, a retrieved row in effect |
| Validation.RetrievedCitationsAreValid | crates/citations/src/lib.rs:390-434 | an answer citing, in valid syntax, only rows the retrieval query admitted has no invalid citation |
| Validation.CleanReportSourcesEveryWord | crates/citations/src/lib.rs:375-446 | in a report without the verdict, every word outside markers and dropped connectors precedes a marker of its segment that names a retrieved row in effect, or follows all of those in a trailing refusal or heading |
| Effectiveness.KeyOrderIsDayOrder | crates/domain/src/date.rs:4-35 | of two accepted dates the one with the smaller digits is the earlier calendar day |
| Effectiveness.StringOrderIsCalendarOrder | crates/domain/src/date.rs:4-35 | on accepted dates string order is calendar order, by day count of the proleptic Gregorian calendar |
| Effectiveness.DayNumberIsGregorian | crates/domain/src/date.rs:4-35 | the day count of an accepted date is the closed form of the Gregorian calendar, by a fixed table of months and the leap years so far |
| Effectiveness.AcceptedDates | crates/domain/src/date.rs:4-35 | of the strings in date shape exactly the days of that calendar from year 1 on are accepted |
| Effectiveness.CalendarRepeats | crates/domain/src/date.rs:4-35 | 400 years later the count is larger by 400 common years and 97 leap days |
| Effectiveness.QueryAdmitsExactly | crates/citations/src/lib.rs:519-540 | the query admits a row iff the citation check accepts it and it is not an open-ended version out of force asked for by date without expired ones; without a date both ask for a version in force unless expired ones are wanted |
| Effectiveness.NotYetEffectiveDiffers | crates/citations/src/lib.rs:519-540 | a dated, open-ended version that is not yet effective is accepted by the citation check and not admitted by the query |
| Effectiveness.EffectiveMeansWithinDays | crates/citations/src/lib.rs:1038-1057 | a version with well-formed dates is in effect iff the day lies in its period, a repealed one only if the period is bounded |
| ArticleNumbers.ParseChineseUnderTenThousandLoop | crates/citations/src/lib.rs:1942-1988 | both loops of the reader, with their 32-bit overflow exits, equal the recursive reading |
| ArticleNumbers.IntegerToChineseLoop | crates/citations/src/lib.rs:2019-2046 | the printing loop with pending zeros equals the recursive writing |
| ArticleNumberLaws.UnitsReadBack | crates/citations/src/lib.rs:1956-1988 | from any reader state the unit reader reads back what the printer wrote for the remaining positions |
| ArticleNumberLaws.ChineseReadBack | crates/citations/src/lib.rs:1918-1940 | every ordinal from 1 to 99999 is read back from its Chinese numeral |
| ArticleNumberLaws.DecimalReadBack | crates/citations/src/lib.rs:1908-1913 | every 32-bit number is read back from its decimal notation |
| ArticleNumberLaws.AcceptedIsArticleNumber | crates/citations/src/lib.rs:1880-1916 | only bases and sub-articles from 1 to 99999 are accepted |
| ArticleNumberLaws.FormReadBack | crates/citations/src/lib.rs:1880-1894 | every written base, with any spelling of a sub-article, parses to that article number |
| ArticleNumberLaws.VariantsReadBack | crates/citations/src/lib.rs:1838-1865 | the canonical spelling and every searched variant parse back to the same base and sub-article |
| ArticleNumberLaws.VariantsAreSpellings | crates/citations/src/lib.rs:1838-1865 | the searched spellings are exactly the base in either numeral with the sub-article in either, the canonical one first |
| ArticleNumberLaws.EquivalentIffSameNormalForm | crates/citations/src/lib.rs:1867-1872 | two spellings are equivalent iff their normal forms are equal |
| ArticleNumberLaws.NormalFormIsStable | crates/citations/src/lib.rs:1832-1836 | normalising is idempotent and keeps what the text parses to |
| ArticleNumberLaws.ExpansionIsFaithful | crates/citations/src/lib.rs:1838-1865 | an expanded filter has no repeats, keeps every variant of every value, and names nothing else |
| NumeralGrammar.DigitsAndUnits | crates/citations/src/lib.rs:1990-2005 | the digits are those of the printer, 〇 and 两, the units 十, 百 and 千 |
| NumeralGrammar.ReadingIsExact | crates/citations/src/lib.rs:1956-1988 | from any state the unit reader succeeds with a value iff the rest has a spelling by runs of digits and strictly decreasing units that adds up to it |
| NumeralGrammar.NumeralIsExact | crates/citations/src/lib.rs:1942-1988 | a text is read as a value iff it is a row of digits of that value in base ten within 32 bits, or a numeral with units of that value |
| NumeralGrammar.OrdinalIsExact | crates/citations/src/lib.rs:1918-1940 | an ordinal is read iff it is such a numeral, or two of them around one 万, of that positive value |
| NumeralGrammar.ArticleNumberIsExact | crates/citations/src/lib.rs:1880-1916 | a text parses to an article number iff it is one of its spellings: an ordinal up to 99999 with or without 第 and 条, or one ending in 条, 之 and another |
| NumeralGrammar.DigitBeforeZeroIsDropped | crates/citations/src/lib.rs:1956-1966 | a digit in front of a zero and a unit does not count |
| Ranking.BeforeIsTotal | crates/citations/src/lib.rs:2389-2414 | the comparator is total and asymmetric on ranking keys |
| Ranking.BeforeIsTransitive | crates/citations/src/lib.rs:2389-2414 | the comparator is transitive |
| Ranking.DedupKeepsIds | crates/citations/src/lib.rs:2700-2706 | deduplication keeps some source of every id and nothing else |
| Ranking.DedupIsDistinct | crates/citations/src/lib.rs:2700-2706 | deduplication leaves no id twice |
| Ranking.SortRanks | crates/citations/src/lib.rs:2389-2414 | sorting sources with distinct ids keeps them all and ranks them strictly |
| Ranking.SortedListIsUnique | crates/citations/src/lib.rs:2389-2414 | a strictly sorted key list is determined by its keys, so any sort by the comparator gives this one |
| Ranking.MergedListIsTheTop | crates/citations/src/lib.rs:2380-2417 | the merged list is ranked, without repeats, as long as the limit allows, and ranks before everything omitted |
| Ranking.MergeIsOrderIndependent | crates/citations/src/lib.rs:2380-2417 | if rows of one id agree on what is ranked, both merge orders give the same ids in the same order |
| RankingOrder.MergedInOrder | crates/citations/src/lib.rs:2380-2412 | a candidate that outranks a source of the merged list, by hits of terms, hits in prose, hits in the title, authority, force and texts, is in the list in front of it |
| RankingOrder.OneOutranksTheOther | crates/citations/src/lib.rs:2388-2409 | of two sources with different ids exactly one outranks the other |
| RankingOrder.MergedKeepsAsManyAsFit | crates/citations/src/lib.rs:2380-2412 | the list holds candidates without repetition, as many as there are ids or as the limit allows |
| RankingOrder.DedupKeepsFirst | crates/citations/src/lib.rs:2700-2706 | deduplication keeps exactly the first source of every id |
| RankingOrder.KeyMeans | crates/citations/src/lib.rs:2452-2477 | the counts compared are the numbers of terms that occur in the source, in a line of it that is no heading, and in its title |
| RankingOrder.LevelMeans | crates/citations/src/lib.rs:2584-2596 | the rank of a document is its place in one list of levels, unknown levels last |
| Scheduler.SelectionFor | scripts/audit_validate.py:1224-1264 | fails iff some token is no phase, alias or check, reporting the first of them, and otherwise returns the least superset of what was asked for that is closed under prerequisites |
| Scheduler.SeedMeans | scripts/audit_validate.py:1230-1251 | before closing, a request selects exactly the checks its tokens name, alone or by alias |
| Scheduler.TokensDenote | scripts/audit_validate.py:1230-1246 | a token names every check, the preflight checks, the commands of its phase or the one check of its name, and is unknown iff it is none of these |
| Scheduler.SeedIsPlanned | scripts/audit_validate.py:1230-1251 | every check a request asks for is in the plan |
| Scheduler.AffectedCommandChecks | scripts/audit_validate.py:1432-1445 | the fixpoint returns exactly the transitive dependants, in plan order |
| Scheduler.RunAudit | scripts/audit_validate.py:1471-1525 | the run loop appends one preflight record per preflight id and then each command's record computed from the records before it |
| Scheduler.StatusOf | scripts/audit_validate.py:1472-1525 | looking an id up yields the status of its latest record, or no record has the id |
| SchedulerSafety.OneRecordPerCheck | scripts/audit_validate.py:1473-1525 | every check has exactly one record, in plan order, and it is `not_run` iff it was not selected |
| SchedulerSafety.RecordsReportOutcomes | scripts/audit_validate.py:1288-1331 | the record of a selected preflight check and of a launched command has the outcome the check reported, and a selected command that was not launched is blocked |
| SchedulerSafety.BlockedListsUnpassed | scripts/audit_validate.py:1334-1346 | a blocked command lists exactly those of its prerequisites that had not passed, at least one |
| SchedulerSafety.LaunchedAfterPrerequisites | scripts/audit_validate.py:1511-1514 | a launched command has every transitive prerequisite declared by specs passed earlier in the run |
| SchedulerSafety.LaunchedIffPrerequisitesPass | scripts/audit_validate.py:1501-1525 | on a topologically ordered plan a command is launched iff it is selected and all transitive prerequisites declared by specs pass |
| SchedulerSafety.DependantsAreBlocked | scripts/audit_validate.py:1334-1346 | when a check has not passed, every selected transitive dependant is recorded blocked by a prerequisite |
| SchedulerSafety.BlockedInputBlocks | scripts/audit_validate.py:1476-1479 | when a preflight record is blocked, every selected check in its list of affected checks has a record blocked by a prerequisite |
| SchedulerSafety.PassedIffAllRecordsPassed | scripts/audit_validate.py:1366-1374 | the folded status is passed iff every record of a selected check passed |
| SchedulerSafety.VerdictReportsOutcomes | scripts/audit_validate.py:1366-1374 | a run is reported failed iff a selected preflight check or launched command failed, else blocked iff one was blocked or a selected command was held back, else passed |
| SchedulerSafety.PassedMeansAllPassed | scripts/audit_validate.py:1366-1374 | in a run reported passed, every selected check passed iff every selected id is in the plan |
| SchedulerLimits.UnknownSelectionPasses | scripts/audit_validate.py:1366-1374 | selecting one id outside the plan is reported passed though it has no record |
| SchedulerLimits.NothingRanIff | scripts/audit_validate.py:1230-1251 | a run for a selection the selector makes is reported passed with nothing run iff the request names no check; in any other run reported passed some check passed |
| SchedulerLimits.EmptyRequestsPass | scripts/audit_validate.py:1230-1251 | empty tokens and a phase without specs name no check, select nothing and are reported passed |
| SchedulerLimits.MisleadingVerdictIff | scripts/audit_validate.py:1360-1374 | some run is reported passed with a selected check not passed iff the selection leaves the plan and its commands need only selected checks earlier in the plan |
| SchedulerLimits.ExposedIff | scripts/audit_validate.py:1253-1264 | some run launches a command before all prerequisites its selection is closed under have passed iff the command needs the runtime resources, not also the manifests through specs, and all it needs is selected and in order |
| SchedulerLimits.ExposedInOrderedPlan | scripts/audit_validate.py:1253-1264 | for closed selections of a topologically ordered plan the first two of these conditions decide |
| SchedulerLimits.LaunchedWithoutManifests | scripts/audit_validate.py:1511-1514 | one command that needs the runtime resources selects the manifests too and is launched in a run in which they fail |
| SchedulerSafety.VerdictIsHonest | scripts/audit_validate.py:1360-1374 | for a closed selection of known ids the report is never `not_run`, and passed iff every selected check has a passed record |
| SchedulerSafety.SelectorVerdictIsHonest | scripts/audit_validate.py:1458-1526 | the same for every selection the selector makes, and a passed report means that all that was asked for passed |
| SchedulerSafety.Audit | scripts/audit_validate.py:1448-1526 | selection, run and folding together: refuses exactly unknown tokens, selects the least closure of what was asked for, reports failed iff a check that ran failed, passed only if all selected checks reported a pass, and with distinct ids passed iff all selected checks passed |
| SessionProtocol.StepDelivers | apps/web/api.js:300-397 | a step delivers at most once, to the current session, and a response other than the error of an empty stream only under the epoch of its request |
| SessionProtocol.StepKeepsInv | apps/web/api.js:300-397 | every event keeps the link between requests, sessions, abort flags and what was delivered |
| SessionProtocol.RunKeepsInv | apps/web/api.js:300-397 | every run keeps it |
| SessionProtocol.NothingStaleIsDelivered | apps/web/api.js:345-357 | without epoch reuse, results, server errors and sign-outs of requests and downloads reach only the session in which they began, and so does all of a stream but the error for a missing body |
| SessionProtocol.StaleDeliveryIffEmptyStream | apps/web/api.js:545-553 | without epoch reuse a run has a stale delivery iff the head of a stream of an earlier session reports success without a body |
| SessionProtocol.EmptyStreamIsStale | apps/web/api.js:545-553 | a stream begun before an epoch change and answered 204 after it hands its error to the new session |
| SessionProtocol.RejectionIsUnchecked | apps/web/api.js:340-343 | a rejected request hands its error to the current session at once, outside its own session iff it began in an earlier one |
| SessionProtocol.MalformedBodyIsLate | apps/web/api.js:355-357 | a write whose body turns out malformed after an epoch change hands its error to the new session |
| SessionProtocol.EpochChangeAbortsExactlyReads | apps/web/api.js:300-308 | an epoch change aborts every outstanding GET or HEAD and no write, and changes nothing else of a request |
| SessionProtocol.StaleDeliveryIffEpochReused | apps/web/api.js:310-312 | a history of epochs admits any other stale delivery iff some epoch number occurs in it twice |
| SessionDuties.SignsOutIff | apps/web/api.js:345-345 | the head of a response adds a sign-out, and nothing else, iff it is a 401 under the current epoch |
| SessionDuties.HeadAnswersIff | apps/web/api.js:351-354 | a plain request answered 204 is settled with its result or its abort, a stream without body with its error, and any other head leaves the request to its body |
| SessionDuties.BodyIsAnswered | apps/web/api.js:346-357 | a body settles its request with exactly one delivery: the result for 200 to 299, the error otherwise, the abort under another epoch |
| SessionDuties.ChunkIsDelivered | apps/web/api.js:576-587 | a chunk of a stream is handed on under the current epoch and settles the stream with its abort under another |
| SessionDuties.SessionChanges | apps/web/api.js:300-319 | a request begins in the current session, outstanding and not aborted, and exactly a safe, different epoch starts a session |
| SessionDuties.EveryRequestEndsOnce | apps/web/api.js:314-397 | in every run a settled request has exactly one final delivery and any other has none |
| ApiClient.Client.constructor | apps/web/api.js:285-294 | a new client is the initial protocol state, an unsafe or negative epoch counting as zero |
| ApiClient.Client.SetSessionEpoch | apps/web/api.js:300-308 | the abort of the shared controller and its replacement are one protocol step; unsafe, negative or equal epochs change nothing |
| ApiClient.Client.StartSession | apps/web/api.js:302-307 | the new session has a fresh controller, and only the current controller is not aborted |
| ApiClient.Client.BeginRequest | apps/web/api.js:314-319 | capturing the epoch and, for reads, the current controller is one protocol step |
| ApiClient.Client.ResponseHead | apps/web/api.js:345-354 | handling status 401, 204, a stream without body and the rest is one protocol step |
| ApiClient.Client.ResponseChunk | apps/web/api.js:576-587 | delivering one chunk of a stream under the epoch check is one protocol step |
| ApiClient.Client.ResponseBody | apps/web/api.js:346-357 | delivering a body or its error under the epoch check is one protocol step |
| ApiClient.Client.Rejection | apps/web/api.js:340-343 | a rejected fetch is one protocol step |
| LineStream.SplitInTwo | apps/web/api.js:582-584 | splitting a front, then its unfinished last line joined with the back, is splitting the whole, also between CR and LF |
| LineStream.LinesAreExact | apps/web/api.js:582-584 | the lines of a text are the one way to cut it: no line holds LF, every break is LF or CRLF, and a CR in front of LF belongs to the break |
| LineStream.OneMoreChunk | apps/web/api.js:576-585 | one more chunk completes exactly the lines that splitting the joined text completes |
| LineStream.StreamEnds | apps/web/api.js:588-591 | at the end the completed lines and a nonempty rest are the lines of the whole text |
| StreamMessages.PayloadIsExact | apps/web/api.js:558-565 | a line has a payload iff, whitespace aside, it is `data:` and that payload, not blank |
| StreamMessages.EventsMean | apps/web/api.js:558-574 | the events come in order from the data lines whose payload is text, end or error, or is no JSON, each with its own event, and from no other line |
| StreamMessages.EventsOfPrefix | apps/web/api.js:558-574 | fewer consumed lines deliver a prefix of the events |
| StreamMessages.CrashFromMeans | apps/web/api.js:558-574 | the crash point is the first line whose payload parses to null, if any |
| StreamMessages.NullEndsTheStream | apps/web/api.js:566-571 | `data: null` breaks the stream off in front of everything behind it |
| LineStream.StreamChat | apps/web/api.js:555-592 | for every chunking the events are those of the data lines consumed, in order, and unless a session check fails those of all data lines before the first null line of the whole text; the stream ends normally iff every check passes and no line is null |
| PdbContainer.U32 | scripts/build_diagnostic.py:231-232 | a number is read iff its four bytes lie in the data, and is little-endian |
| PdbContainer.PdbStreamsLoop | scripts/build_diagnostic.py:297-341 | the reader with its growing buffers and advancing offset equals the recursive reader |
| PdbContainer.ReadStreamsLoop | scripts/build_diagnostic.py:326-341 | the loop over sizes equals the recursive reading of streams |
| PdbContainer.GatherBlocksLoop | scripts/build_diagnostic.py:311-314 | the loop extending the directory buffer equals gathering the blocks, or fails on one outside the data |
| PdbContainer.ReadStreamLoop | scripts/build_diagnostic.py:331-340 | the loop over a stream's blocks equals listing the blocks and gathering them |
| PdbImages.U32ListIsExact | scripts/build_diagnostic.py:308-310 | consecutive numbers are read iff the data holds their encoding |
| PdbImages.GatherIsExact | scripts/build_diagnostic.py:311-315 | ceiling-division many blocks yield the content iff they hold it chunk by chunk |
| PdbImages.ReadStreamIsExact | scripts/build_diagnostic.py:331-340 | a stream is read iff the directory lists blocks that hold it, as many as ceiling division says, and it has its declared size |
| PdbImages.DirectoryIsExact | scripts/build_diagnostic.py:316-341 | a directory yields streams iff it gives their number, sizes and blocks |
| PdbImages.ReaderIsExact | scripts/build_diagnostic.py:297-341 | on any bytes the reader returns streams iff the bytes are an image of precisely those streams |
| PdbWriter.ImageEncodes | scripts/build_diagnostic.py:297-341 | the specification writer produces such an image for every legal placement |
| PdbWriter.WriterRoundTrip | scripts/build_diagnostic.py:297-341 | for all optional streams and all placements, reading the written image returns exactly the streams |
| PdbWriter.IdentityRoundTrip | scripts/build_diagnostic.py:344-353 | GUID and age are read back from the information stream of any written image; a short or absent one is refused |
| BigramIndex.ChineseBigrams | scripts/build_search_index.py:48-53 | the loop carrying `previous` yields exactly the adjacent CJK pairs of the text |
| BigramIndex.Build | scripts/build_search_index.py:236-261 | for every legal batch size the table is exactly the bigrams of the rows, with the right counts; other sizes are refused |
| BigramIndex.DistinctRowsCountOnce | scripts/build_search_index.py:259-261 | with distinct row ids the deduplicated table has as many rows as pairs were collected |
| BigramIndex.ContainedBigrams | scripts/build_search_index.py:48-53 | a text that contains a term has all the term's bigrams |
| BigramIndex.CountReachesAll | crates/retrieval/src/paged.rs:588-594 | a row's distinct count reaches the number of required bigrams iff it has them all |
| BigramIndex.ProbeAnyFinds | crates/retrieval/src/paged.rs:539-565 | a row containing any of the terms survives the union of bounded probes |
| BigramIndex.IndexedSearchIsFullScan | crates/retrieval/src/paged.rs:498-567 | searching candidates and checking them literally equals checking every row |
| StreamSearch.Scan | scripts/verify_portable_inventory.py:49-62 | the block loop with its carried tail computes the recursive scan, and the size of a file without match |
| StreamSearch.StreamedIsWhole | scripts/verify_portable_inventory.py:54-58 | for every division into blocks and keys of 1 to 513 bytes, a match is reported iff a key occurs in the whole file |
| StreamSearch.KeyLengthIsExact | scripts/verify_portable_inventory.py:54-58 | for files read in full blocks of any one size, streamed and whole search agree on every file iff the key has at most 513 bytes |
| StreamSearch.LongKeyIsMissed | scripts/verify_portable_inventory.py:54-58 | for every block size and every longer key, a file read in full blocks contains the key and is not matched |
| StreamSearch.ScanFile | scripts/verify_portable_inventory.py:49-62 | reading a file in blocks of 1 MiB matches iff a key occurs in it, for keys of 1 to 513 bytes, and otherwise counts its bytes |
| ParentForest.WalkFrom | crates/assistant/src/map.rs:155-166 | a walk that repeats has met a real cycle, and one that does not repeat ends |
| ParentForest.EndingWalksGiveRank | crates/assistant/src/map.rs:155-166 | if every walk ends, a rank decreases along every parent link |
| ParentForest.ForestHasNoCycle | crates/assistant/src/map.rs:155-166 | a relation with such a rank has no cycle |
| ParentForest.ValidateParentGraph | crates/assistant/src/map.rs:133-169 | accepts iff every parent is a node and the parent relation is well-founded; each error names a real defect |
| MapSpec.ValidateRequiredText | crates/assistant/src/validation.rs:85-136 | accepts iff the text is not blank, keeps its byte limit and has no control character but line ends and tabs |
| MapSpec.ValidateSourceRefs | crates/assistant/src/validation.rs:199-218 | accepts iff there are at most 16 references, distinct identifiers all allowed to the run |
| MapSpec.ReadNodes | crates/assistant/src/map.rs:71-92 | the node loop accepts iff every node is sound and ids are unique, and collects ids, parents and the size of the texts |
| MapSpec.CheckEdges | crates/assistant/src/map.rs:94-126 | the edge loop accepts iff every edge is sound, joins nodes and has an id no node or other edge has, and sums the size of the texts |
| MapSpec.ValidateMap | crates/assistant/src/map.rs:60-131 | a map is accepted iff version, counts and text limits are kept, nodes and edges are sound and uniquely named, edges join nodes and parents form a forest |
| ProcessRelations.VisitChildren | scripts/collect_crash_diagnostics.py:380-386 | visiting one process records its unrecorded children, keeps the roles right, and leaves only queued processes to visit |
| ProcessRelations.RelationRoles | scripts/collect_crash_diagnostics.py:369-387 | terminates on any table, every child descends from the target, at most 128 roles, and below the limit every process reachable downward is recorded |
| ProcessRelations.ClosedHasDescendants | scripts/collect_crash_diagnostics.py:369-387 | when no recorded process waits for a visit, every descendant is recorded |
| PublicCitation.YearBracketIsLast | crates/assistant/src/document.rs:166-171 | the rightmost bracket is the one in front of the year, so the slice is exactly the locator |
| PublicCitation.SplitMeans | crates/assistant/src/document.rs:154-157 | splitting at a separator yields two parts iff they rebuild the text and the first has no separator |
| PublicCitation.LawIsRebuilt | crates/assistant/src/document.rs:153-174 | what the law form accepts is rebuilt from title, locator and year |
| PublicCitation.LawIsAccepted | crates/assistant/src/document.rs:153-174 | every well-formed law citation is accepted with the parts it was written from |
| PublicCitation.CaseIsExact | crates/assistant/src/document.rs:176-187 | the case form yields parts iff the text is written from them |
| PublicCitation.CitationIsExact | crates/assistant/src/document.rs:151-192 | a text yields parts iff its trimming is one of the two written forms, and then the parts rebuild it |
| JsonFence.FencedIsExact | crates/assistant/src/protocol.rs:83-95 | with an opener of one line ending, a body is returned iff the text wraps it with that ending and it has no fence |
| JsonFence.WrappedHasTwoFences | crates/assistant/src/protocol.rs:92-94 | a wrapped body without a fence always has two fences in all |
| JsonFence.BodyIsExact | crates/assistant/src/protocol.rs:74-96 | a body is returned iff the trimmed text is that body without fences or wraps it between matching fences |
| JsonFence.MixedEndingsKeepCarriageReturn | crates/assistant/src/protocol.rs:83-95 | an LF opener closed after CRLF is accepted with the carriage return left in the body |
| JsonFence.CarriageReturnIsKeptIff | crates/assistant/src/protocol.rs:74-96 | a returned body ends in a carriage return iff the trimmed text has one in front of the closing line ending of its opener's kind |
| Text.TrimSplits | crates/citations/src/lib.rs:1061-1061 | what trimming removes on either side is whitespace, and what it leaves neither starts nor ends with any |
| Text.FindMeans | crates/citations/src/lib.rs:349-352 | a search finds the least occurrence, or there is none |
| Text.RFind | crates/citations/src/lib.rs:1161-1163 | the last occurrence of a character, or its absence |
| Text.EraseMeans | crates/citations/src/lib.rs:1248-1260 | deleting a pattern leaves the pieces between its occurrences, each found first after the last |
| Text.FindInSuffix | crates/citations/src/lib.rs:349-352 | searching a suffix is searching the whole text from the cut |

## Left out

- Offsets count characters, while the Rust code counts UTF-8 bytes, always on character boundaries.
- The Unicode alphanumeric class is a parameter, disjoint from White_Space; the other classes are written out.
- SQLite, FTS and bm25: a table is a finite set of rows and each WHERE clause a predicate; `infer_missing_reason` is a parameter and database errors do not occur.
- Validation.ValidateAnswerCitations: counts are unbounded where the source casts them to 32 bits.
- Ranking.SortRanks: the standard sort is a stable insertion sort on values, not the in-place sort of a vector; `SortedListIsUnique` shows the result does not depend on the algorithm.
- Line splitting for substantive matches follows LF and CRLF; effectiveness levels are a map by document.
- Headings, provision labels, dependent conditions and bullet labels are tests of word lists and lengths, written once as predicates of `LegalText`; nothing further is proved of them.
- Pairing of law names with articles, keyword extraction, `extract_article_occurrences` and the sectioned retrieval around the merge.
- Scheduler: tokens of `--only` arrive split at commas, trimmed, lower-cased and with `stage0` renamed; evidence, logs, hashes, times and the command lines of records are not modelled.
- Scheduler.RunAudit: each check's outcome is an arbitrary function of its id, since with distinct ids every check runs at most once.
- SchedulerSafety.VerdictIsHonest: assumes plan ids are distinct, which the record map of the source needs too.
- Session protocol: whether an aborted fetch is rejected or its response still arrives is left open, so the theorems cover both, and a rejection may come at any time before a request is settled; headers, bodies, CSRF tokens and content types are not modelled, and a caller's own abort signal and the type error of a null line are rejections.
- LineStream.StreamChat: UTF-8 decoding precedes the model and JSON parsing is an arbitrary function. The request head of the stream is a request kind of the session protocol, where a chunk's lines are consumed in one step.
- ApiClient.Client.BeginRequest: a request gets an unused number, which is bookkeeping of the model.
- PE parsing (`pe_codeview_identity`) and the comparison of both identities; GUIDs stay bytes where the source prints them in hexadecimal.
- Index building: sorting a batch before insertion, the comparison with stored row counts, and everything around the temporary file.
- Indexed search: phrase mode, which probes like the all-terms mode but checks a different literal condition; the reasons given for falling back; cancellation.
- Streamed search: a read returns a full block before the end of the file; hashing, extraction and archive layout are not modelled.
- MapSpec.ValidateMap: the layout hint is an enumeration without a check; errors carry no path, and which of several defects is reported is not stated.
- ParentForest.ValidateParentGraph: visits nodes in any order, so it does not say which of several defects is reported.
- Process tables list each process once; sampling and Windows calls are not modelled.
- HTTP routing, cookies, packaging, downloads, redaction and the other report-only scripts.
