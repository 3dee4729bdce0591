# Verified models of the end-to-end harness and its generators

This project models the algorithms and state machines behind the repository's end-to-end test harness,
its seed scripts and its code generators, and proves what they promise. Each module follows one
component; handlers, loops and stored rows are methods and classes, each proved against a
specification that the lemmas are about.

| modules | component |
|---|---|
| `AbortMatching`, `ErrorGate`, `ErrorCollectors`, `ErrorVerdicts`, `ErrorRules` | the browser error gate: a collector of page events that correlates them in either order |
| `LayoutShift` | the session-window layout-shift number |
| `JsonText`, `JsonReader`, `JsonGrammar`, `JsonLexemes` | the strict JSON reader of the provider-fixture generator |
| `AnchorText`, `ResourceNames` | the generator's documentation blocks and provider resource names |
| `FixtureJobs` | what a spec may conclude from snapshots of a job queue while a worker runs it |
| `Reachability` | the modules that the app's entries load |
| `StableJson`, `Publication` | seeding a published Portal: key-order independent comparison, versioned snapshots, activations |
| `HandlingCycles` | inbox handling cycles: transition log, cycles, heads and item rows |
| `ScriptRanges`, `DigestFraming`, `Utf8` | the letter table of the language check, the byte framing of its digest and the encoding of its strings |
| `DownloadLog` | download accounting with listeners that interleave with an asynchronous report |
| `ProviderPages`, `FetchScripts` | the scripted provider: page tokens, failure scripts, replies |
| `Units`, `Texts`, `Sequences`, `Wrappers` | code units, string operations, `slice` and the stable `sort`, options and results |

`ErrorGate` states what must be reported on a whole history of events, without any running state;
`ErrorCollectors` proves that the incremental handlers arrive at exactly that; `ErrorVerdicts` derives what it
means, and `ErrorRules` gives the rule for every single event with its verbs, paths and texts written out. The same shape recurs: `JsonReader` against the printed texts of `JsonGrammar`, `Publication` and
`HandlingCycles` against their row invariants, `DownloadLog` against its event history.

## Where the code and its promise differ

The models follow the code.

- Publishing, retiring the activation from outside and publishing the same configuration again is refused by
  the unique index on the activation sequence, although the reuse of the snapshot was meant for this case
  (`scripts/seed-e2e-user.ts:553-558`). `Publication.WholeRun` gives the exact condition,
  `Publication.RepublishAfterRetirementFails` the run.
- The filter by `since` does not keep every outcome of a chain whose first job was retried, although its comment
  says the outcomes are this chain's (`e2e/helpers/fixtures.ts:1835-1836`). `FixtureJobs.SinceKeepsTheChain` says
  which it keeps, `FixtureJobs.RetryHidesTheChain` gives a run that loses one. A job that the queue drops between the
  listing and the reading of its state is lost as well.
- Reopening a feedback item never succeeds: a check constraint refuses the two reasons that the fixture can give
  (`src/shared/db/structure.sql:6125`). `HandlingCycles.InboxStore.ReopenBySourceAuthority` states it both ways.
- The JSON reader skips everything the `\s` class matches, which is more than section 2 of RFC 8259 calls white
  space; `JsonGrammar` uses the wider class throughout.
- Spending aborts need not be optimal when the clock steps back: `AbortMatching.ClockStepBackLosesAnExcuse` is such
  a run.
- A fetch rejection asks for an abort before the allowlist is consulted, so a rejection that an entry covers can use up
  the abort that a later one needed. `ErrorVerdicts.FewestUnlessWasted` says exactly when this costs an excuse,
  `ErrorVerdicts.CoveredRejectionWastesAnAbort` gives a run.
- The digest framing is uniquely decodable among domains that hold NUL as their last character and nowhere else, which
  all four callers observe. Other domains can collide (`DigestFraming.InnerNulIsAmbiguous`), and so can paths that
  differ in a lone surrogate (`DigestFraming.LoneSurrogatesCollide`).

## Model

| member | source | states |
|---|---|---|
| AbortMatching.GreedyIsOptimal | e2e/helpers/error-detection.ts:280-296 | With a clock that never steps back, spending the oldest abort still in the 3,000 ms window excuses at least as many fetch rejections as any assignment of rejections to earlier in-window aborts |
| AbortMatching.GreedyIsAMatching | e2e/helpers/error-detection.ts:280-296 | What is excused is itself such an assignment: every excused rejection has an abort of its own, earlier and at most 3,000 ms old |
| AbortMatching.SpentOnce | e2e/helpers/error-detection.ts:39-40 | Two rejections are never excused by the same abort, on any run and any clock |
| AbortMatching.DiscardingIsInvisible | e2e/helpers/error-detection.ts:287-295 | With a clock that never steps back, dropping stale aborts, and emptying a queue of only stale ones, never changes whether a later rejection is excused |
| AbortMatching.ClockStepBackLosesAnExcuse | e2e/helpers/error-detection.ts:287-293 | The clock condition cannot be dropped: a run whose clock steps back loses an excuse that an assignment, and a collector that keeps stale aborts, would have given |
| AbortMatching.WindowIsThreeSeconds | e2e/helpers/error-detection.ts:254-289 | An abort excuses the rejection that follows it exactly up to 3,000 ms later, that moment included |
| ErrorGate.KeyIsInjective | e2e/helpers/error-detection.ts:258-262 | Two `status url` keys are equal only when status and address both are |
| ErrorGate.ConflictsMeaning | e2e/helpers/error-detection.ts:394-403 | There is at most one pending conflict per url, and one exactly when a 409 was followed by neither a 2xx for that url nor a teardown |
| ErrorGate.ReportAfter | e2e/helpers/error-detection.ts:266-278 | How the report of a longer history differs: the echoes that the new document answer explains leave, the new event adds its own detections at the end |
| ErrorGate.ReportGrows | e2e/helpers/error-detection.ts:298-458 | An event that is no failing main-frame document answer takes nothing out of the report |
| ErrorGate.OriginOnce | e2e/helpers/error-detection.ts:248-278 | The report is in the order of the events, and only a teardown is the origin of more than one detection |
| ErrorGate.InReport | e2e/helpers/error-detection.ts:248-278 | A detection is in the report exactly when its own event, judged against the whole history, accounts for it |
| ErrorCollectors.HandleRefines | e2e/helpers/error-detection.ts:298-458 | Handling one event incrementally takes the state specified for a history to the state specified for the longer history |
| ErrorCollectors.RunMeetsTheGate | e2e/helpers/error-detection.ts:248-277 | For every sequence of events the handlers end in exactly the state that the whole history specifies: detections, held aborts, delivered streams, answered keys, waiting echoes and conflicts |
| ErrorCollectors.ErrorCollector.SpendServerFnGetAbort | e2e/helpers/error-detection.ts:287-296 | Answers whether an abort at or after the cut-off is held, and leaves exactly the aborts behind the first such one |
| ErrorCollectors.ErrorCollector.RecordDocumentStatus | e2e/helpers/error-detection.ts:266-278 | The loop over waiting echoes retires all and only those with the given key, from the map and from the detections |
| ErrorCollectors.ErrorCollector.OnPageError | e2e/helpers/error-detection.ts:298-321 | Keeps the state equal to the one specified for the history |
| ErrorCollectors.ErrorCollector.OnConsole | e2e/helpers/error-detection.ts:323-375 | Keeps the state equal to the one specified for the history, whichever of echo and document answer comes first |
| ErrorCollectors.ErrorCollector.OnResponse | e2e/helpers/error-detection.ts:377-423 | Keeps the state equal to the one specified for the history, for documents, successes, conflicts and failures |
| ErrorCollectors.ErrorCollector.OnRequestFailed | e2e/helpers/error-detection.ts:425-458 | Keeps the state equal to the one specified for the history, for delivered streams, failed mutations and remembered aborts |
| ErrorCollectors.ErrorCollector.AssertEmpty | e2e/helpers/error-detection.ts:469-492 | Passes exactly when the report of the whole history, pending conflicts included, is empty |
| ErrorVerdicts.StatusEchoVerdict | e2e/helpers/error-detection.ts:355-375 | A status echo with an address that the allowlist does not cover is reported exactly when no main-frame document ever answered that url with that status, before or after |
| ErrorVerdicts.OnlyAnsweredEchoesLeave | e2e/helpers/error-detection.ts:266-278 | A detection leaves the report only as a console echo whose own key the new document answer carries |
| ErrorVerdicts.StatusVerdictIgnoresOrder | e2e/helpers/error-detection.ts:258-278 | Any reordering of the same events leaves the same status echoes in the report |
| ErrorVerdicts.ConflictIsTheLastAnswer | e2e/helpers/error-detection.ts:394-403 | A url has a pending conflict exactly when the last of its 2xx and 409 answers since the last teardown is a 409 |
| ErrorVerdicts.ConflictVerdictIgnoresOthers | e2e/helpers/error-detection.ts:394-403 | How the answers of one url interleave with all other events does not change its conflict verdict |
| ErrorVerdicts.TeardownConflicts | e2e/helpers/error-detection.ts:469-477 | A teardown adds one conflict detection for a url whose last such answer was a 409, and none for any other url |
| ErrorVerdicts.RejectionsAreExcusedOrReported | e2e/helpers/error-detection.ts:337-353 | For every allowlist the fetch rejections reported are exactly those that no abort was spent on and no entry covers |
| ErrorVerdicts.FewestRejectionsReported | e2e/helpers/error-detection.ts:280-296 | With a clock that never steps back and no rejection covered by an allowlist entry, no other way of spending aborts would report fewer fetch rejections |
| ErrorVerdicts.FewestUnlessWasted | e2e/helpers/error-detection.ts:337-353 | With a clock that never steps back and any allowlist, no way of spending aborts on uncovered rejections reports fewer exactly when as many of these are excused as would be if covered ones never asked for an abort |
| ErrorVerdicts.CoveredRejectionWastesAnAbort | e2e/helpers/error-detection.ts:337-353 | A run in which a covered rejection, which asks for an abort before the allowlist is consulted, takes the one that the next rejection needed |
| ErrorRules.WatchedRule | e2e/helpers/error-detection.ts:179-201 | The watched requests are POSTs under `/_server` and POST, PUT, PATCH and DELETE under `/api/auth/`, and no others |
| ErrorRules.MutationRule | e2e/helpers/error-detection.ts:391-422 | In every history a response is the origin of exactly one detection, with its text written out, when it answers a watched request with a status that is neither 2xx nor 409 and that no entry covers, and of none otherwise |
| ErrorRules.StreamRule | e2e/helpers/error-detection.ts:394-398 | Only a 2xx answer to a watched request whose content type names JSON lines counts as a delivered stream |
| ErrorRules.FailureRule | e2e/helpers/error-detection.ts:425-443 | In every history a failed request is the origin of exactly one detection when it is watched and was not aborted behind its own delivered stream, and of none otherwise |
| ErrorRules.PageErrorRule | e2e/helpers/error-detection.ts:298-321 | A page error is the origin of exactly one detection unless a page-scoped entry covers it |
| ErrorRules.ConsoleRule | e2e/helpers/error-detection.ts:323-375 | A console event is the origin of exactly one detection when it is an error that no abort was spent on, no entry covers and no document answer explains, and of none otherwise |
| ErrorRules.PendingSince | e2e/helpers/error-detection.ts:394-403 | A pending conflict of a url began at the first 409 to a watched request for it behind everything that ended one, and no success for it or teardown came since |
| ErrorRules.ConflictsInOrder | e2e/helpers/error-detection.ts:394-403 | Pending conflicts stand in the order in which they began |
| ErrorRules.TeardownRule | e2e/helpers/error-detection.ts:469-477 | A teardown reports exactly the pending conflicts, one each with its message and the page, in that order, in every history |
| ErrorRules.StatusLineRule | e2e/helpers/error-detection.ts:203-208 | The status of a line is the whole run of digits behind the fixed text, and lines without one name none |
| ErrorRules.RejectionRule | e2e/helpers/error-detection.ts:210-216 | A rejected fetch is recognised by the fixed text at the start, with no letter, digit or underscore behind it |
| ErrorRules.BeatRule | e2e/helpers/error-detection.ts:448-453 | Only aborted GETs under `/_server` are remembered as excuses; a read that failed otherwise excuses nothing |
| ErrorRules.AllowlistRule | e2e/helpers/error-detection.ts:151-177 | An entry covers a text of its kind until it expires, on its page when it names one, and a mutation only with its status |
| ErrorRules.DeadEntriesCoverNothing | e2e/helpers/error-detection.ts:136-165 | Expired entries, entries whose date does not parse, and page-error entries without a page cover nothing |
| LayoutShift.CumulativeLayoutShift | e2e/helpers/web-vitals.ts:63-86 | The loop computes the fold of the window step over the counted shifts in time order |
| LayoutShift.SortsByStart | e2e/helpers/web-vitals.ts:64-66 | Sorting arranges the shifts by start time and keeps each as often as it occurs |
| LayoutShift.ClsIsASessionWindow | e2e/helpers/web-vitals.ts:62-86 | The number is the total of some contiguous run with gaps under 1,000 ms and a span under 5,000 ms, and zero when nothing counts |
| LayoutShift.ClsIsHalfTheBest | e2e/helpers/web-vitals.ts:62-86 | No such run totals more than twice the number |
| LayoutShift.TwoWindowsSuffice | e2e/helpers/web-vitals.ts:71-84 | A run that the window rules allow is divided into the rest of one window of the scan, shifts of zero value, and the beginning of one further window |
| LayoutShift.TwoIsTheBestFactor | e2e/helpers/web-vitals.ts:62-86 | Two cannot be improved: for every smaller factor some list has a run that exceeds that multiple of the number |
| LayoutShift.TiesCommute | e2e/helpers/web-vitals.ts:71-84 | Two shifts that start together, zero values included, can be scanned in either order |
| LayoutShift.ArrangementsAgree | e2e/helpers/web-vitals.ts:64-84 | All time-ordered arrangements of the same shifts scan to the same state |
| LayoutShift.ClsIgnoresOrder | e2e/helpers/web-vitals.ts:63-86 | Every permutation of the input gives the same number |
| JsonReader.StrictJsonReader.Parse | scripts/generate-google-provider-fixtures.ts:73-79 | The mutable reader returns what the grammar function says for the whole source, refusing trailing data |
| JsonReader.StrictJsonReader.ParseValue | scripts/generate-google-provider-fixtures.ts:81-106 | Reads one value from the offset and leaves the offset behind it, with the same error otherwise; the remaining length makes the mutual recursion end |
| JsonReader.StrictJsonReader.ParseObject | scripts/generate-google-provider-fixtures.ts:108-136 | Reads the members of an object, refusing a repeated name, a missing colon and a missing comma |
| JsonReader.StrictJsonReader.ParseArray | scripts/generate-google-provider-fixtures.ts:138-154 | Reads the items of an array; a trailing comma is refused |
| JsonReader.StrictJsonReader.ParseString | scripts/generate-google-provider-fixtures.ts:156-169 | Scans to the first quote no backslash covers and decodes the token |
| JsonReader.StrictJsonReader.ParseScalar | scripts/generate-google-provider-fixtures.ts:87-105 | Reads a keyword or the longest number, refusing one that overflows to infinity |
| JsonReader.StrictJsonReader.SkipWhitespace | scripts/generate-google-provider-fixtures.ts:171-173 | Moves the offset to the next character that is no white space |
| JsonText.NumberEndBefore | scripts/generate-google-provider-fixtures.ts:97-101 | A number token in front of a delimiter is matched whole |
| JsonText.NumberEndWithin | scripts/generate-google-provider-fixtures.ts:97-101 | What the number pattern matches is a number token by itself |
| JsonGrammar.ReadsTree | scripts/generate-google-provider-fixtures.ts:81-174 | Any value with distinct names, printed under any white space between its tokens, is read back, and reading stops right behind it |
| JsonGrammar.ParseReadsBack | scripts/generate-google-provider-fixtures.ts:73-174 | Every printed text of a value parses to that value with its members in order |
| JsonGrammar.ParseAcceptsExactly | scripts/generate-google-provider-fixtures.ts:73-174 | A text parses to a value exactly when it is a printed form of that value followed by white space only |
| JsonGrammar.AcceptedHasNoDuplicates | scripts/generate-google-provider-fixtures.ts:117-123 | No accepted text repeats a name in an object, at any depth |
| JsonGrammar.NoBreakSpaceIsAccepted | scripts/generate-google-provider-fixtures.ts:171-173 | The reader takes white space that section 2 of RFC 8259 does not list |
| JsonLexemes.SpaceRule | scripts/generate-google-provider-fixtures.ts:171-173 | White space is the class `\s`, code point by code point |
| JsonLexemes.SpaceInFrontIsFree | scripts/generate-google-provider-fixtures.ts:82 | Blanks, tabs, line feeds and carriage returns in front of any text leave the answer as it is, errors included |
| JsonLexemes.SpaceIsFree | scripts/generate-google-provider-fixtures.ts:73-154 | Any such white space before, between and behind the tokens of a text leaves its value as it is |
| JsonLexemes.OnlySpaceIsSkipped | scripts/generate-google-provider-fixtures.ts:171-173 | A code point in front of a keyword is skipped exactly when it is of that class |
| JsonLexemes.NumberRule | scripts/generate-google-provider-fixtures.ts:97-101 | The number pattern matches a text whole exactly when it is a number of section 6 of RFC 8259: sign, integer without leading zeros, fraction, exponent |
| JsonLexemes.NumeralIsRead | scripts/generate-google-provider-fixtures.ts:97-105 | Every such number is read as itself when its size is below the overflow bound, and refused as not finite otherwise |
| JsonLexemes.OverflowIsTheBound | scripts/generate-google-provider-fixtures.ts:102-104 | That bound is two to the 1024th less two to the 970th |
| JsonLexemes.StringRule | scripts/generate-google-provider-fixtures.ts:156-169 | A text is a string token for some units exactly when it is quotes around the characters and escapes of section 7 of RFC 8259 that mean these |
| JsonLexemes.ReadsAnObject | scripts/generate-google-provider-fixtures.ts:73-174 | A text with every punctuation mark and keyword, line breaks and blanks, given by its code points, and the object it is read as |
| AnchorText.OneCut | scripts/generate-google-provider-fixtures.ts:490-492 | Splitting at a marker yields two parts exactly when the marker occurs once |
| AnchorText.NoMarkerAcrossSeams | scripts/generate-google-provider-fixtures.ts:500 | Around a bracketed block no marker arises across either seam: each occurrence lies in one of the three parts |
| AnchorText.AcceptsExactlyOnePair | scripts/generate-google-provider-fixtures.ts:490-499 | A document is accepted exactly when it holds one start marker before one end marker and no other marker |
| AnchorText.ReplacesThePair | scripts/generate-google-provider-fixtures.ts:497-500 | All text before the start marker and after the end marker is kept, with the new block between them |
| AnchorText.ReplacedHasOnePair | scripts/generate-google-provider-fixtures.ts:485-501 | The replaced document again holds exactly one pair, around the new block |
| AnchorText.LastBlockWins | scripts/generate-google-provider-fixtures.ts:485-501 | Replacing with a second block equals replacing with it at once; replacing with the same block again changes nothing |
| AnchorText.MarkersInFull | scripts/generate-google-provider-fixtures.ts:30-31 | The two markers, written out |
| ResourceNames.JoinSplit | scripts/generate-google-provider-fixtures.ts:209 | Joining the split parts gives the text back |
| ResourceNames.SplitJoin | scripts/generate-google-provider-fixtures.ts:209 | Splitting joined parts that hold no slash gives the parts back |
| ResourceNames.ParsesExactlyNames | scripts/generate-google-provider-fixtures.ts:204-243 | A literal parses to a resource exactly when it is the name of that resource, with sound segments and within 1,024 bytes |
| ResourceNames.AcceptedLiterals | scripts/generate-google-provider-fixtures.ts:204-243 | The three forms of an accepted literal, written out, with the alphabet and the length of a segment |
| ResourceNames.SegmentRule | scripts/generate-google-provider-fixtures.ts:32 | A segment has one to 255 characters, the first a letter or digit, the others also points, underscores, tildes or hyphens |
| ResourceNames.RenderedBlockIsABlock | scripts/generate-google-provider-fixtures.ts:477-483 | The block rendered from an accepted literal holds each marker once, at its two ends |
| ResourceNames.BlockInFull | scripts/generate-google-provider-fixtures.ts:482 | The block text, with the digest in its first line and the resource in its second |
| ResourceNames.RegenerationIsStable | scripts/generate-google-provider-fixtures.ts:542-546 | Before formatting: replacing the block of a document that was already replaced changes nothing, and a later catalogue gives what it would have given at once |
| ResourceNames.WrittenDocumentIsStable | scripts/generate-google-provider-fixtures.ts:542-557 | With formatting: if it leaves the block as it is and a formatted document unchanged, generating over a written document writes the same again |
| FixtureJobs.ReachableIsSound | e2e/helpers/fixture-jobs.ts:110-118 | In every queue that a worker can bring about from an empty one a job belongs to the chain of one first job of its name, which was started before any continuation of it was added, and every finished job ended after the first start of its first job |
| FixtureJobs.NoneUnfinished | e2e/helpers/fixture-jobs.ts:119-134 | The list is empty exactly when no snapshot entry has the name |
| FixtureJobs.UnfinishedAreNamed | e2e/helpers/fixture-jobs.ts:123-133 | The answer lists exactly the jobs of the name, in order, each with its id, the state read later, its attempts, and its failure reason when there is one |
| FixtureJobs.EmptySnapshotEndsChains | e2e/helpers/fixture-jobs.ts:110-134 | One snapshot with no unfinished job of a name means that every chain of that name is over |
| FixtureJobs.OverForGood | e2e/helpers/fixtures.ts:1829-1833 | Once a chain is over, no later step of any run touches one of its jobs or adds one to it |
| FixtureJobs.WaitIsSound | e2e/helpers/fixtures.ts:1825-1849 | On every run from an empty queue: after the first job was seen settled, a later empty snapshot means that its chain, retries included, is over and stays over |
| FixtureJobs.OutcomesAreExact | e2e/helpers/fixture-jobs.ts:144-157 | The answer holds exactly the kept finished jobs of the name with an outcome at or after `since`, once each, oldest first |
| FixtureJobs.FinishedHasOutcome | e2e/helpers/fixture-jobs.ts:85-108 | A finished job that the queue keeps has an outcome with its own finish time |
| FixtureJobs.OutcomeIsWhatHappened | e2e/helpers/fixture-jobs.ts:74-95 | On every run from an empty queue the outcome of a kept job follows the steps of the worker: denied with its code after a refusal, run after a completion without one, failed with the reason of its last failure; started at its last start and finished at the step that ended it |
| FixtureJobs.FinishedWasEnded | e2e/helpers/fixture-jobs.ts:97-108 | Every kept finished job has such a last start and such an end |
| FixtureJobs.SinceKeepsTheChain | e2e/helpers/fixtures.ts:1835-1836 | With `since` read earlier from the settled first job, the list read later and states read later still, a finished job of the chain is reported exactly when it ended no earlier than `since` and is still kept when its state is read; when the first job ran once, every one still kept is |
| FixtureJobs.RetryHidesTheChain | e2e/helpers/fixtures.ts:1835-1836 | When the first job was retried the filter can hide a job of its own chain: a concrete run |
| Reachability.ModulesInTheBuild | e2e/helpers/server-fn-reachability.ts:76-91 | The worklist ends on every tree, cycles included, and returns exactly the modules reachable from existing entries; it throws exactly when an entry names a directory |
| Reachability.PushLoads | e2e/helpers/server-fn-reachability.ts:85-88 | The inner loop pushes exactly the resolved imports, in order |
| Reachability.ImportStandsFor | e2e/helpers/server-fn-reachability.ts:60-73 | An import stands for the path itself, or with `.ts`, `.tsx`, `/index.ts` or `/index.tsx` behind it, whichever is the first that exists |
| Reachability.AnswerIsTheLeastClosedSet | e2e/helpers/server-fn-reachability.ts:75-91 | The answer holds the existing entries, is closed under imports, and is contained in every set that does and is |
| Reachability.EntryOrderIsIrrelevant | e2e/helpers/server-fn-reachability.ts:81-91 | Order and repetition of the entries make no difference |
| Reachability.CallsOutsideTheBuild | e2e/helpers/server-fn-reachability.ts:94-101 | The answer is the list of calls whose module no entry reaches, in the order given |
| Reachability.UnansweredCount | e2e/helpers/server-fn-reachability.ts:94-101 | That list holds each call as often as it is made when no entry reaches its module, and else not at all |
| StableJson.StringifyRoundTrip | scripts/seed-e2e-user.ts:381-391 | The text printed for a value reads back as that value, so printing is injective |
| StableJson.QuoteIsToken | scripts/seed-e2e-user.ts:382 | The quoted form of any string is one string token and stands for that string, lone surrogates included |
| StableJson.UnitInFull | scripts/seed-e2e-user.ts:382 | How each single unit is written: five short escapes, quote and backslash, small hexadecimal digits for other controls and lone surrogates |
| StableJson.PairStays | scripts/seed-e2e-user.ts:382 | A whole surrogate pair is written as it is |
| StableJson.WrittenWithoutSpace | scripts/seed-e2e-user.ts:382 | What is written holds no white space between tokens |
| StableJson.LessRule | scripts/seed-e2e-user.ts:385-387 | Names are ordered by code units at the first difference, a proper beginning first |
| StableJson.AscendingIsUnique | scripts/seed-e2e-user.ts:385-387 | A set of members has only one arrangement in ascending name order |
| StableJson.NormalFormsAgree | scripts/seed-e2e-user.ts:382-390 | Two values have the same normal form exactly when they are the same up to the order of members at every depth |
| StableJson.StableTextComparesValues | scripts/seed-e2e-user.ts:378-391 | Two values print alike exactly when they are the same up to the order of members at every depth |
| StableJson.LocalesCompare | scripts/seed-e2e-user.ts:373-376 | Two locale lists compare equal after sorting exactly when they hold the same locales equally often |
| Publication.PublishesSameMeaning | scripts/seed-e2e-user.ts:403-422 | The comparison holds exactly when digest, locales, brand version and content agree as values |
| Publication.PublicationStore.PublishPortalSnapshot | scripts/seed-e2e-user.ts:519-613 | Statement by statement, cut off after any of them, the run ends in the specified store with the specified outcome, and extends the history by that run |
| Publication.PublishSteps | scripts/seed-e2e-user.ts:548-613 | Which statements a run executes and which one the unique indexes refuse |
| Publication.PublishKeeps | scripts/seed-e2e-user.ts:519-613 | Wherever a run stops: versions are 1..n, neighbouring versions differ, at most one activation is live, no snapshot is rewritten |
| Publication.WholeRun | scripts/seed-e2e-user.ts:548-613 | A whole run ends with exactly the latest snapshot live and holding the requested configuration, unless that snapshot already holds it, is not live, and has been activated before: then, and only then, it is refused |
| Publication.RepeatedRunWritesNothing | scripts/seed-e2e-user.ts:548-551 | After a successful run the same run writes nothing |
| Publication.HistoryKeepsInvariant | scripts/seed-e2e-user.ts:519-613 | From no snapshots the invariant holds after every sequence of runs, cut-off runs and outside retirements |
| Publication.HistoryOnlyAppends | scripts/seed-e2e-user.ts:519-523 | Snapshots are never rewritten or removed over any such history |
| Publication.RunsNeverStrand | scripts/seed-e2e-user.ts:548-613 | While nothing else retires activations, no mix of whole and cut-off runs leaves a latest snapshot that was activated before and is not live |
| Publication.WholeRunsServe | scripts/seed-e2e-user.ts:588-613 | After any such mix a whole run is never refused and ends serving what it asked for |
| Publication.PublicationStore.RetireFromOutside | src/shared/db/schema/portal-publication.schema.ts:208-209 | Retires what is live and extends the history by that retirement, so that all statements about histories speak of the tables |
| Publication.RepublishAfterRetirementFails | src/shared/db/schema/portal-publication.schema.ts:212-219 | Publish, retire, publish the same: the activation sequence is taken, the run is refused, and nothing is live |
| HandlingCycles.InboxStore.SeedWithCycle | e2e/helpers/fixtures.ts:967-1051 | Writes the item, its first cycle, head and opening transition; no key or constraint refuses it |
| HandlingCycles.InboxStore.CloseBySourceAuthority | e2e/helpers/fixtures.ts:1137-1182 | Appends one closing row to an open cycle; a closed item keeps its log and head |
| HandlingCycles.InboxStore.ReopenBySourceAuthority | e2e/helpers/fixtures.ts:1188-1237 | Opens the next numbered cycle superseding the current one; it is refused exactly for a feedback item of the organization |
| HandlingCycles.RunKeepsProjection | e2e/helpers/fixtures.ts:967-1237 | After every run of seeds, closes and reopens the head is the replay of the log, revisions are 1..n, cycles supersede one another, and the item status equals the head status |
| HandlingCycles.RunOnlyAppends | e2e/helpers/fixtures.ts:1149-1221 | No run rewrites or removes a transition or a cycle |
| HandlingCycles.ClosingAgainChangesNothing | e2e/helpers/fixtures.ts:1158-1174 | Closing again, however often, changes neither log nor cycles nor head |
| HandlingCycles.RowsInFull | e2e/helpers/fixtures.ts:981-1236 | Every column that a seed, a close and an accepted reopening write, the reasons, actors and times included |
| HandlingCycles.ItemTellsItsCommands | e2e/helpers/fixtures.ts:1175-1236 | After any run from empty tables a closed item carries the time of its last close and an open one none, and its command revision is one more than the closes and accepted reopenings that its organization made on it |
| HandlingCycles.ReplayCounts | e2e/helpers/fixtures.ts:1169-1229 | Replaying a log counts its rows as state revisions and its opened and reopened rows as cycles |
| HandlingCycles.HeadCountsTheLog | e2e/helpers/fixtures.ts:1000-1020 | Every number the head holds can be counted off the log |
| HandlingCycles.NextKeysAreFree | src/shared/db/structure.sql:9837-9846 | The next cycle number and the next state revision never collide with a primary key |
| ScriptRanges.GenerateRanges | scripts/generate-ai-language-script-table.ts:54-77 | The ranges are ascending and disjoint, give every letter its own bitset and every other code point, surrogates included, no range; each starts where one has to |
| ScriptRanges.StartsAreForced | scripts/generate-ai-language-script-table.ts:67-74 | In every correct table a range starts wherever the previous code point is no letter with the same bitset |
| ScriptRanges.NoCorrectTableIsShorter | scripts/generate-ai-language-script-table.ts:40-78 | No correct table has fewer ranges |
| ScriptRanges.TriplesReadBack | scripts/generate-ai-language-script-table.ts:88 | Reading the flattened numbers in triples gives the ranges back |
| ScriptRanges.EmittedRowsReadBack | scripts/generate-ai-language-script-table.ts:88-97 | The rows, put end to end and read in triples, are the ranges; no row is empty or longer than twelve |
| DigestFraming.Uint32RoundTrip | scripts/ai-language-attestation.ts:3-7 | Four bytes, highest first, read back as the number |
| DigestFraming.FeedProfile | scripts/ai-language-attestation.ts:14-27 | The loop feeds the hash exactly the specified stream; it throws exactly when some length does not fit 32 bits |
| DigestFraming.MemberIsPrefixFree | scripts/ai-language-attestation.ts:21-25 | Two framed members with anything behind them agree only when bytes, code points of the path and rest agree |
| Utf8.EncodesAlike | scripts/ai-language-attestation.ts:9-10 | Two strings have the same UTF-8 bytes exactly when they have the same code points, a lone surrogate counting as U+FFFD |
| Utf8.PairInFull | scripts/ai-language-attestation.ts:10 | A code point beyond the first plane is read from the surrogate pair of its upper and lower ten bits |
| Utf8.WellFormedIsGivenByScalars | scripts/ai-language-attestation.ts:9-10 | A string without lone surrogates is given by its code points |
| Utf8.NulTerminatedAlike | scripts/ai-language-attestation.ts:19 | A string ends at its only NUL exactly when its UTF-8 bytes do |
| DigestFraming.SameDomainDecodes | scripts/ai-language-attestation.ts:14-27 | For one domain, streams are equal exactly when the member lists are: same count, bytes, and code points of the paths |
| DigestFraming.WellFormedMembersAreEqual | scripts/ai-language-attestation.ts:21-25 | For paths without lone surrogates that is equality of the lists |
| DigestFraming.LoneSurrogatesCollide | scripts/ai-language-attestation.ts:9-10 | A lone surrogate in a path and U+FFFD feed the same bytes |
| DigestFraming.NulTerminatedDomainsDecode | scripts/generate-ai-language-script-table.ts:145-153 | When domains hold NUL only as their last character, streams are equal exactly when domains and member lists are; domains without lone surrogates are then the same string |
| DigestFraming.InnerNulIsAmbiguous | scripts/ai-language-attestation.ts:19-20 | A domain with NUL inside it can feed the same bytes as another profile |
| DownloadLog.Log.OnRequest | e2e/helpers/download-log.ts:27-29 | Keeps the listeners' state equal to what the event history says |
| DownloadLog.Log.OnFinished | e2e/helpers/download-log.ts:30-43 | Counts the request once, keeps the state equal to the history, and wakes a parked report |
| DownloadLog.Log.OnFailed | e2e/helpers/download-log.ts:44-48 | Remembers the failure, keeps the state equal to the history, and wakes a parked report |
| DownloadLog.Log.OnSize | e2e/helpers/download-log.ts:31-39 | Settles one size, or its loss, and keeps the state equal to the history |
| DownloadLog.Log.Resume | e2e/helpers/download-log.ts:53-76 | From one await to the next: the report settles only with nothing in flight and no download missed while sizes were collected; one failure or one lost size then makes it incomplete, and otherwise it returns the total or, for none, refuses; if it does not settle it waits for something that is there |
| DownloadLog.Log.Settle | e2e/helpers/download-log.ts:58-66 | With nothing in flight and every size known the report ends, in at most two resumptions |
| DownloadLog.FinishedOnce | e2e/helpers/download-log.ts:30-43 | Each finished request stands in the log once |
| DownloadLog.EverythingCounted | e2e/helpers/download-log.ts:66-69 | With nothing in flight and no failure, every observed request has finished and is counted exactly once |
| DownloadLog.AccountedIsTheSum | e2e/helpers/download-log.ts:67-76 | A returned total means that the size of every observed request is known, and is the sum of their body and header bytes |
| ProviderPages.TokenDecodes | e2e/fixtures/gbp-stub.ts:420-426 | An issued token decodes to its offset under its own prefix, colons in it or not, and is refused under any other prefix |
| ProviderPages.ForeignTokenIsRefused | e2e/fixtures/gbp-stub.ts:422-423 | A token that does not start with the prefix and a colon is refused |
| ProviderPages.FollowingTokensYieldsEverything | e2e/fixtures/gbp-stub.ts:420-447 | Following the issued tokens from the start, each decoded on the way, none is refused and every item comes once and in order |
| ProviderPages.PageCountIsCeiling | e2e/fixtures/gbp-stub.ts:434-447 | The pages are max(1, ceil(n / size)): that many hold the items and one less would not |
| ProviderPages.CollectAll | e2e/fixtures/gbp-stub.ts:507-528 | A client that asks until no token comes back collects the whole list in that many pages, and no token on the way is refused |
| FetchScripts.FailsExactlyWhenOneFails | e2e/fixtures/gbp-stub.ts:390-401 | A fetch fails exactly when the script in force at some named location is failing, and the first such one fails it |
| FetchScripts.FetchCharges | e2e/fixtures/gbp-stub.ts:403-412 | The failure is charged once to that script, the override when there is one and else the account's, and every other script is unchanged |
| FetchScripts.BudgetIsConserved | e2e/fixtures/gbp-stub.ts:383-415 | Over any run of requests, the failures a script served and those it has left add up to what it held |
| FetchScripts.FailuresArePaidOnce | e2e/fixtures/gbp-stub.ts:383-415 | Unless a script fails forever, the failed requests and the failures left over all scripts add up to the failures scripted |
| FetchScripts.RetriesFailThatOften | e2e/fixtures/gbp-stub.ts:390-415 | A client that retries one location is refused exactly as often as its script in force says |
| FetchScripts.MutableScope.ScriptFetch | e2e/fixtures/gbp-stub.ts:768-783 | Scripts the named location, or the account when no name or an empty one is given; all other scripts stay |
| FetchScripts.MutableScope.ApplyFetchBehavior | e2e/fixtures/gbp-stub.ts:385-415 | The loop rejects with the status and delay of the first failing script and charges it, or changes nothing |
| FetchScripts.MutableScope.PutReply | e2e/fixtures/gbp-stub.ts:656-700 | A reply is refused while the reply budget lasts, each refusal taking one; otherwise it is stored on the matching reviews only |
| FetchScripts.ReplyBudgetIsSpent | e2e/fixtures/gbp-stub.ts:670-681 | After any run of replies the budget went down by one per reply, as far as it reached |
| FetchScripts.ReviewsHoldTheLastReply | e2e/fixtures/gbp-stub.ts:683-699 | After any run each review holds the last reply that got through to it, or what it held before, and nothing else about any review changes |

## Left out

- Transcript lines and the texts of thrown reports: they are output only.
- Regular expressions and URL parsing in the error gate: patterns are kept as the tests they perform, and an event carries its parsed path; the two echo patterns are modelled character by character.
- The clock is read once per handler, where the source reads it for each use.
- Detaching listeners from a page; a collector whose listeners are detached handles no event.
- Layout-shift values are real numbers, without rounding; the largest-contentful-paint budget and the lines printed for a missed budget are not modelled.
- JSON numbers are kept as their tokens: conversion to a double is modelled only as far as the overflow test needs it, so `1` and `1.0` are different values here.
- JavaScript's reordering of integer-like object keys: an object is an ordered list of distinct names.
- SHA-256 and Prettier formatting: a digest is a string of hexadecimal digits, and formatting is a function of which only what a statement requires is known.
- The checks of catalogue entries other than the resource name, and the rendered TypeScript modules.
- The worker of the job queue beyond its steps: the delay of a backoff, the number of finished jobs kept (any finished job may be evicted at any time), and the order of jobs that finished in the same millisecond.
- Scanning a source file for imports and the path functions of Node: `imported` and `base` of a tree stand for them; symbolic links are not part of this model.
- Other columns of snapshot, activation, cycle, transition, head and item rows; foreign keys; the other unique indexes, whose columns always differ when the modelled keys do.
- Random identifiers of a publisher run are taken to be new, and two runs at the same time are not modelled.
- Manual closing and reopening, guest withdrawal and all other fixtures that write inbox rows.
- The loop over script patterns that computes a bitset: the letter test and the bitset are parameters of the table.
- The runtime version check before the table is generated, and the emitted hexadecimal text.
- Upload sizes, and a report that is called twice or whose wait for an idle network fails.
- Texts other than plain digits that JavaScript converts to a number: `coerce` answers for them in a page token.
- The routes of the scripted provider other than paging, fetch scripts and replies; the Performance responses; the recorded calls.
- What the browser supplies to a handler (page address, request identity, headers, stack) is a field of the event.
- The provider's real client: the loop that collects all pages stands for any client that follows the tokens.
- The byte length of a resource name: its limit counts characters here, and any name with a character outside ASCII is refused either way.
