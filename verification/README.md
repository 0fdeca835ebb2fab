# Verified model of the SNMP simulator's recording engine

This project models how the simulator answers SNMP requests from recordings, from the bytes of a
text file to GET, GETNEXT and GETBULK responses, and proves what those answers are. Four neighbours
with properties of their own are modelled beside it: the `.snmprec` record type for octet strings,
the padded OID keys of the `sql` variation module, the activity counters of the `minimaljson`
reporter, and the sorting and de-duplicating of the record management tool.

`dafny verify dfyconfig.toml` checks the whole project.

## How the model is built

- **Text.** `Texts` holds bytes and Python's string functions on them. The data files are read as
  ISO-8859-1, which maps each byte to the character of the same number, so text is modelled as its
  bytes. `Oids` and `OidTexts` hold object identifiers, their order and their dotted text.
- **Files.** `TextFiles` is an open file: its bytes and a position. `Recordings` says which lines
  are records; a record type is a pair of functions, the grammar and the reading of its OID field,
  so that the engine is modelled for every record type at once.
- **Search and index.** `FileSearch` is the binary search over byte offsets, `SearchTails` says for
  which files and OIDs it agrees with reading the file from the start, `Indexing` is the indexing pass.
- **Index life cycle.** `RecordIndexes` is the class that builds, reuses, opens and closes the index
  of one data file; its `disk` field stands for the text file and the index file as the file system
  has them. `Freshness` runs it through arbitrary sequences of modifications, evictions,
  re-indexings and requests. `Pools` is the queue of open files over runs in which openings may fail,
  and `DataFiles` the class that keeps it and answers whole requests.
- **Requests.** `Requests` answers one variable binding. The record evaluator is a function of all
  the calls made before, so a variation module may keep any state and answer anything. `Plans`
  says which records are evaluated and in what order whatever it answers; `Serving` and `Walks`
  take the evaluator of a recording that is only read and show when GET and GETNEXT are the lookups
  of an ordered map. `Subtrees` takes evaluators that answer for subtree records, and `SqlSubtrees`
  ties one to the table of the `sql` module. `Bulk` and `BulkWalks` are GETBULK and chains of GETBULKs.
- **Neighbours.** `Snmprec`, `SnmprecRoundTrips` and `Literals`; `PaddedOids` and `SqlTables`;
  `Reporting`; `ManageRecords`, `ManagedRecordings`, `SnmprecRecordings` and `ManagedWalks`.
  `FailingRecordings` holds `.snmprec` files on which the program falls short, and `WrittenOut` says
  byte by byte what texts, escapes and keys look like.

Methods follow the program's loops and fields and are proved equal to functions on values
(`Resolve`, `Plan`, `IndexPass`, `OpenStep`, `Ask`, `Expected`, ...); the properties are lemmas about those
functions.

## Where the code falls short of a promise, and exactly when

- *Search.* Comments or blank lines behind the last record can catch the pivot, and the search then
  gives up with the file size. It agrees with a scan of the file for every OID if and only if a
  search for the last record does not slip past it, which only depends on where lines start and end
  (`SearchTails.SearchAgreesForAll`). A last line that is a record, or a tail shorter than the final
  record with the comments before it, is always fine; blank lines behind a single record, as many as
  it has bytes, are not (`FailingRecordings.TrailingBlanksHideTheRecord`).
- *Index keys.* The index is keyed by the OID as the record spells it, and looked up by the OID as
  the program prints it. Every record is found again if and only if all OIDs are spelt the printed
  way (`Indexing.FoundIffCanonical`); a leading dot is enough to break that
  (`FailingRecordings.LeadingDotRecording`). The engine is modelled for recordings spelt the printed way.
- *GETNEXT.* A run of more than a hundred broken records hides the records behind it. A broken
  subtree record counts among the hundred, and one before the first record above has that counted
  twice when it is broken (`Serving.GetNextReadsTheMap`, `Walks.WalkVisitsAll`). `.snmprec` subtree
  records are never served as they stand (`SnmprecRecordings.NothingDiverts`).
- *Subtrees.* A variation module that takes no notice of subtrees, such as `delay`, answers a GETNEXT
  in the subtree with the record's own OID, and a walk does not get past it
  (`Subtrees.SubtreeHoldsTheWalk`). A record that lies between the rows of a subtree is passed over
  (`Subtrees.RecordAmongRowsIsSkipped`); when the rows of every subtree come before the next record,
  records and rows are one ordered map (`Subtrees.GetNextReadsTheUnion`).
- *GET.* An evaluator that answers endOfMib to a GET has the same record evaluated again. The request
  ends if and only if one of the answers in the sequence this leads to is another
  (`Requests.SettlesIff`); for an evaluator that never gives one it goes on without end
  (`Requests.SilentGetNeverEnds`).
- *Index freshness.* Modification times count whole seconds and are compared for equality with the
  time an open file was seen with, and for order with the index file. A request after a modification
  gets the index of the new text if and only if neither what is open under the new time nor a newer
  index file is another (`Freshness.NoticedIff`). A second modification within a second, and a file
  moved in place with a preserved time from before the indexing, fail this
  (`FailingRecordings.ReplacedRecordingIsStale`); modifications with later and later times never do
  (`Freshness.LaterIsNoticeable`). Indexing succeeds if and only if every record can be parsed and has
  a tag; when the first one that is not like that has a blank tag, it fails with an exception nothing
  handles (`Indexing.IndexedIffTagged`, `FailingRecordings.BlankTagRecording`) and leaves a partial
  index that the next request uses (`Freshness.BlankTagServedPartially`).
- *Open files.* The queue is promised to list the open files, at most 32. Every opening that fails
  leaves an entry too many for good: in any run the queue has as many entries as there are open files
  and failed openings together, so it tracks the open files if and only if none has failed
  (`Pools.TracksUntilAFailure`), which for a single request the state of the data file tells
  beforehand (`Pools.AskTracksIff`). When the oldest entry of a full queue is not open, closing it
  raises an exception nothing handles, and from then on no closed data file can be opened
  (`Pools.AskKeeps`, `Pools.StaysStuck`); one refused file and 31 others are enough
  (`Pools.OneRefusalSuffices`).
- *Raw strings.* The comment on `evaluate_raw_string` says it evaluates like `ast.literal_eval`. A
  backslash spelt `\x5c` is taken for the start of an escape instead. The text is read as the literal
  if and only if every such spelling is followed by escaped backslashes, none or more, and then an
  escaped quote (`Literals.ReadsLiteralIff`). Python's own `repr` never spells it that way, so records
  the program writes are not affected.
- *Managing recordings.* A `.snmprec` line whose OID field is no OID, such as abc, ends the tool in an
  exception even when it has been told to ignore broken records
  (`SnmprecRecordings.SnmprecFinishesIff`, `FailingRecordings.LetterInOidStopsTheTool`).
- *Padded keys.* Text order is OID order for sub-identifiers of up to ten digits and not beyond
  (`PaddedOids.TenDigitsAreTheLimit`). SNMP allows 32 bits, which fit.
- *Counters.* A dumping period of zero seconds lets a report overwrite another
  (`Reporting.ConservesIffPeriodIsPositive`).

## Model

| member | source | states |
|---|---|---|
| TextFiles.LineStart | snmpsim/record/search/file.py:30-49 | The greatest line start not above an offset, for any content and any offset. |
| FileSearch.GetRecord | snmpsim/record/search/file.py:8-27 | Returns the first line at or behind the position that is neither comment nor blank, its byte offset and its line number, and leaves the position behind it. |
| Recordings.RecordAtIsFirst | snmpsim/record/search/file.py:14-25 | From any offset sequential reading stops at, the record read is the first one there is at or behind that offset. |
| Recordings.ReadingPassesOver | snmpsim/record/search/file.py:16-18 | Reading passes over a line if and only if, behind any number of bytes 9 to 13 and 32, it is at its end or goes on with byte 35. |
| Recordings.LinesReadCounts | snmpsim/record/search/file.py:12-25 | The line number of a record is one more than the number of ends of line before it. |
| WrittenOut.CommentedRecord | snmpsim/record/search/file.py:16-18 | A recording of a comment line and the record of an octet string is indexed under its OID with the offset behind the comment, and GET answers the value. |
| Texts.StripTextIs | snmpsim/grammar/snmprec.py:55 | The OID and tag fields are stripped of the bytes 9 to 13, 28 to 32, 133 and 160 at both ends and of nothing else. |
| FileSearch.FindEol | snmpsim/record/search/file.py:30-49 | Stepping back block by block finds the greatest line start not above the offset, for every block size of at least one and wherever the block boundaries fall. |
| FileSearch.SearchRecordByOid | snmpsim/record/search/file.py:53-94 | For any sorted file the binary search ends at an offset from which the record a scan of the file finds is read, or at the file size when it overshoots; it terminates, the repeated pivot and the pivot at the file size do not occur. |
| FileSearch.ScanFindsFirst | snmpsim/record/search/file.py:52-53 | The scan the search is compared with finds the first record whose OID is not below the wanted one. |
| FileSearch.PivotIsInside | snmpsim/record/search/file.py:62-75 | Every pivot lies between the limits, and behind it there is a record unless nothing above the OID has been met yet. |
| FileSearch.PivotBelow | snmpsim/record/search/file.py:79-80 | A pivot record below the wanted OID ends at or before the upper limit, and all records up to it are below as well. |
| FileSearch.BracketClosed | snmpsim/record/search/file.py:90-94 | When the limits meet, they meet at the first record not below the wanted OID. |
| SearchTails.SearchAgreesForAll | snmpsim/record/search/file.py:53-94 | In a sorted file the search agrees with the scan for every OID if and only if there is no record or the pivots of a search for the last record do not slip past it; that depends on the layout of the lines alone. |
| SearchTails.ShortTailIsHarmless | snmpsim/record/search/file.py:72-75 | A tail of comments and blanks shorter than the final record with what precedes it does no harm for any OID. |
| SearchTails.LastLineRecordSuffices | snmpsim/record/search/file.py:72-75 | With a record in the last line the search agrees with the scan for every OID. |
| SearchTails.LongTailMissesAll | snmpsim/record/search/file.py:74-75 | When the middle of the file lies behind the last record, the search misses every OID up to that of the last record. |
| FailingRecordings.TrailingBlanksHideTheRecord | snmpsim/record/search/file.py:74-75 | Behind any octet string record, as many blank lines as it has bytes make a recording that can be indexed and holds the value, yet answers endOfMib to a GETNEXT from every OID below. |
| FailingRecordings.SevenBlankLines | snmpsim/record/search/file.py:74-75 | The empty octet string at 1.3 and seven blank lines are one. |
| Indexing.BuildIndex | snmpsim/record/search/database.py:171-237 | The indexing loop ends with a full index, at the line number of a refused record, or at a blank tag with the entries made so far. |
| Indexing.IndexIsExact | snmpsim/record/search/database.py:171-237 | For a sorted recording with canonical OID texts the index holds for every record its exact offset, its subtree flag and the offset of the record before it if that is a subtree record, else -1; "last" holds the file size and the same reference; there is nothing else in it. |
| Indexing.CoversOneMore | snmpsim/record/search/database.py:228-237 | One more entry keeps all earlier ones and is exact for its record. |
| Indexing.IndexKeyIsRecord | snmpsim/record/search/database.py:229 | An OID's text is a key of the index exactly when a record has that OID. |
| Indexing.FoundIffCanonical | snmpsim/record/search/database.py:229 | All records of a sorted recording are found in its index under the text of their OID if and only if every OID field is spelt as the program prints it. |
| Indexing.KeysAreSpellings | snmpsim/record/search/database.py:180-229 | The keys of the index are the spellings of the OID fields, and "last". |
| Indexing.IndexedIffTagged | snmpsim/record/search/database.py:187-229 | Indexing succeeds if and only if every record can be parsed and has a tag; else the first one that does not decides: refused when it cannot be parsed, the unhandled failure when its tag is blank. |
| Indexing.ReportsTheLine | snmpsim/record/search/database.py:197-199 | A record that cannot be parsed is reported with the number of its line in the file. |
| Indexing.PartialKeysAreSpellings | snmpsim/record/search/database.py:229 | The partial index a blank tag leaves holds the records before it and nothing else. |
| Indexing.ValidatedIff | snmpsim/record/search/database.py:200-215 | With validation a recording is accepted if and only if it is without and every OID can be read. |
| FailingRecordings.BlankTagRecording | snmpsim/record/search/database.py:229 | A record with a blank tag between its bars reads as a record of its OID, and indexing fails on it with nothing indexed. |
| FailingRecordings.LeadingDotRecording | snmpsim/record/search/database.py:229 | A record whose OID is spelt with a leading dot reads as a record of the OID and is indexed, but not under the OID's text. |
| OidTexts.LeadingDotReadsAlike | snmpsim/record/dump.py:19-20 | A leading dot changes the text of an OID but not what it reads as. |
| OidTexts.DigitsAndDotsRead | snmpsim/record/dump.py:19-20 | Every text of digits and dots reads as an OID. |
| OidTexts.OtherBytesDoNot | snmpsim/record/dump.py:19-20 | No text with a byte that is neither digit, dot, plus sign, underscore nor blank does. |
| WrittenOut.OidBytesAre | snmpsim/record/dump.py:19-20 | Which bytes read as an OID on their own, in front of a digit, and between two. |
| WrittenOut.UnderscoreIsSkipped | snmpsim/record/dump.py:19-20 | An underscore between digits does not change the number read. |
| WrittenOut.EmptyPartIsSkipped | snmpsim/record/dump.py:19-20 | An empty part between dots is dropped. |
| Indexing.BackReferenceAfterRecord | snmpsim/record/search/database.py:231-235 | Behind a record the back reference is that record when it serves a subtree and -1 otherwise. |
| OidTexts.OidTextRoundTrip | snmpsim/datafile.py:107-112 | The dotted text of an OID reads back as the OID, so that different OIDs have different keys. |
| RecordIndexes.RecordIndex.constructor | snmpsim/record/search/database.py:44-64 | A new index is closed. |
| RecordIndexes.RecordIndex.TextModified | snmpsim/record/search/database.py:78 | A modification of the text file changes its content and time and nothing the program holds. |
| RecordIndexes.RecordIndex.Create | snmpsim/record/search/database.py:96-248 | An index file is reused only when strictly newer than the text and of a known format; otherwise a new one is written, removed again on a refused record, or left partial on a blank tag; the time seen changes only on success. |
| Freshness.CreatesIff | snmpsim/record/search/database.py:96-248 | An index file is kept just when it is newer than the text, its format is known and no rebuild is forced; else a new one is written if every record can be parsed, has a tag and, with validation, an OID that can be read. |
| RecordIndexes.RecordIndex.Open | snmpsim/record/search/database.py:253-255 | Opens the current text at its start and the index on disk. |
| RecordIndexes.RecordIndex.Close | snmpsim/record/search/database.py:257-260 | Closes both and changes nothing else, or fails, unhandled, when they are not open. |
| RecordIndexes.RecordIndex.GetHandles | snmpsim/record/search/database.py:76-86 | Keeps open handles while the modification time is the one seen, else closes, re-creates and opens; open on return exactly when nothing failed. |
| Freshness.StepKeepsInv | snmpsim/record/search/database.py:76-128 | Every event keeps: an index file newer than the text, and an index open with the modification time the text has, are those of the current text; a modification does when it has another time than the one seen and the index file is not newer. |
| Freshness.RunKeepsInv | snmpsim/record/search/database.py:76-128 | So does every run of such modifications, evictions, re-indexings and requests, whatever the times of the latter. |
| Freshness.InvAtFirst | snmpsim/record/search/database.py:44-64 | It holds before the first request when there is no index file or one that is no newer than the text. |
| Freshness.LaterIsNoticeable | snmpsim/record/search/database.py:76-128 | Modifications whose time is later than that of the text before and no earlier than that of the index file make such a run. |
| Freshness.RequestsGetTheCurrentIndex | snmpsim/record/search/database.py:76-86 | After any such run a request gets exactly the index of the current text, or the handled error when a record of it is refused. |
| Freshness.ValidationWritesTheSame | snmpsim/record/search/database.py:200-226 | Validating as well never makes a different index. |
| Freshness.NoticedIff | snmpsim/record/search/database.py:76-128 | In any state whatever, a request after a modification gets the index of the new text if and only if, under the time an open file was seen with, what is open is that, and otherwise an index file newer than the text is. |
| Freshness.RefusedIff | snmpsim/record/search/database.py:76-128 | A new text that cannot be indexed is refused unless what is open or a newer index file is taken for its own. |
| Freshness.SameTimeGoesUnnoticed | snmpsim/record/search/database.py:78 | A modification with the time the open file was seen with leaves the old text and index in use. |
| Freshness.PreservedTimeReusesTheIndex | snmpsim/record/search/database.py:107 | One with a later time from before the indexing has the new text served with the old index. |
| FailingRecordings.ReplacedRecordingIsStale | snmpsim/record/search/database.py:76-128 | A recording of one record replaced by one of another, with either kind of time, is served by an index without the new record. |
| FailingRecordings.OneFourIsMissed | snmpsim/record/search/database.py:76-128 | 1.3 replaced by 1.4 is an instance of both. |
| Freshness.BlankTagServedPartially | snmpsim/record/search/database.py:229 | When the first record without a tag can be parsed, a request fails unhandled and the next one is served by the partial index. |
| DataFiles.OpenFiles.QueueUp | snmpsim/datafile.py:55-61 | The oldest of more than 31 entries is closed and taken out before the file is queued; when it is not open, nothing is changed. |
| DataFiles.OpenFiles.GetHandles | snmpsim/datafile.py:54-65 | The queue and all files end up as one step of the model does it, whether or not openings have failed before. |
| Pools.AskKeeps | snmpsim/datafile.py:54-65 | A request never loses the entry of an open file nor lets the queue grow beyond 32; the file asked for is open afterwards if and only if it can be opened and no file that is not open has to make room; the latter case, and no other, fails on closing and changes nothing; a failed opening leaves one entry too many. |
| Pools.AskTracksIff | snmpsim/datafile.py:54-65 | A queue that lists just the open files goes on doing so, with the file asked for open, if and only if that is open and up to date, or its index file can be reused, or its text can be indexed. |
| Pools.RunKeeps | snmpsim/datafile.py:37-65 | Over any run of requests, modifications and re-indexings the queue has an entry for each open file and each failed opening. |
| Pools.TracksUntilAFailure | snmpsim/datafile.py:37-65 | Over any run the queue holds at most 32 entries and lists just the open files, each once, if and only if no opening has failed; after 32 failures no file is open. |
| Pools.ThirtyTwoEntries | snmpsim/datafile.py:38-61 | The oldest file makes room just when the queue holds 32 entries and the file asked for is not open. |
| Pools.RefusedTwiceQueuedTwice | snmpsim/datafile.py:55-61 | A data file refused on two requests is in the queue twice. |
| Pools.StaysStuck | snmpsim/datafile.py:56-59 | Once the queue is full and its oldest entry is not open, that stays so over any run, and no closed file is opened again. |
| Pools.OneRefusalSuffices | snmpsim/datafile.py:56-59 | One refused file and 31 others opened after it lead there. |
| Pools.AskGetsTheCurrentIndex | snmpsim/datafile.py:54-65 | With any number of data files a request gets the index of the current text of its file, or the error of that text, unless room cannot be made. |
| Pools.RunKeepsCurrent | snmpsim/datafile.py:54-65 | All indexes stay current over any run in which every modification has another time than the one seen and an index file no newer, evictions included. |
| Pools.PoolAtFirst | snmpsim/datafile.py:37-49 | Before the first request the queue tracks the open files, and all indexes are current when no index file is newer than its text. |
| DataFiles.OpenFiles.ProcessVarBinds | snmpsim/datafile.py:67-264 | A request is answered from the current text of the data file if every record can be parsed and has a tag, refused variable binding by variable binding if one cannot be parsed, and ended by an exception on a blank tag or when room cannot be made. |
| DataFiles.AnswerAll | snmpsim/datafile.py:106-248 | The variable bindings are answered in order, with the count of those remaining, until one abandons the request. |
| DataFiles.StaticAnswersAreSeparate | snmpsim/datafile.py:106-248 | From a recording that is only read each variable binding is answered as if it were alone. |
| DataFiles.GetNextReadsEach | snmpsim/controller.py:114-117 | A GETNEXT request to any recording that is only read reads next OID by OID. |
| DataFiles.StaticRequestsReadTheMap | snmpsim/controller.py:108-122 | From a recording that is only read a GET request is answered the stored value or noSuchInstance under each OID, and a SET request noSuchInstance under each. |
| DataFiles.CallsCarryTheRequest | snmpsim/datafile.py:106-212 | Every call of the evaluator carries the OID and value of the variable binding it is made for, both flags of the request, the number of variable bindings and of those to come, in order; the errors counted are the calls that failed. |
| DataFiles.AbandonedIffRaised | snmpsim/datafile.py:222-226 | A request is ended by an exception if and only if a call raises one; otherwise every variable binding is answered. |
| DataFiles.RefusesLikeAnEmptyFile | snmpsim/datafile.py:70-91 | A data file that cannot be used answers every OID as one without records does: endOfMib on GETNEXT, noSuchInstance on GET. |
| Requests.AnswerVarBind | snmpsim/datafile.py:106-248 | The loop answers what evaluating the records due one by one gives, for every evaluator on GETNEXT and otherwise for every one that does not go on answering endOfMib; it terminates and the two "index broken" branches are not reached. |
| Requests.SettlesIff | snmpsim/datafile.py:214-220 | Without GETNEXT, when a record is due, the request ends if and only if some answer in the sequence of evaluating it again and again is not endOfMib. |
| Requests.SilentGetNeverEnds | snmpsim/datafile.py:214-220 | With an evaluator that answers nothing else it is evaluated once more however often that has happened. |
| Requests.ReadOn | snmpsim/datafile.py:133-159 | After an exact match or a record passed over, the next record of the file comes with its own subtree flag. |
| Requests.FallBack | snmpsim/datafile.py:161-193 | After a search that rounded up, the record before takes the place of the one found when it serves a subtree the OID is in. |
| Requests.ExactMatch | snmpsim/datafile.py:109-128 | An indexed OID leads to its own record. |
| Requests.NoMatch | snmpsim/datafile.py:114-128 | An OID that is not indexed leads to the record the search ends at. |
| Plans.SubtreeTakesPrecedence | snmpsim/datafile.py:161-193 | For an OID that is no record's, the record just below is evaluated first if it serves a subtree the OID falls into, else the record just above; nothing is due when there is neither. |
| Plans.SubtreeEndPassesOn | snmpsim/datafile.py:214-220 | When that subtree answers endOfMib, the records right behind it in the file are tried next. |
| Plans.PlanFollowsTheFile | snmpsim/datafile.py:132-246 | GETNEXT hands the records over in file order to the end of the file, skipping none; only the first may come twice, when a subtree record before it that the OID is not in made the position step back. |
| Plans.CallsFollowThePlan | snmpsim/datafile.py:214-246 | Whatever the evaluator answers, it is called for the records due from the first on, in order. |
| Plans.FlagsAre | snmpsim/datafile.py:195-212 | The evaluator is told of an exact match for the OID's own record and all records behind the first, with the subtree flag of their own line, and of a subtree for the one the OID falls into. |
| Plans.AHundredFailures | snmpsim/datafile.py:228-246 | Whatever the evaluator, a GETNEXT answers with the record behind up to a hundred it fails on, and endOfMib under the requested OID when it fails on more. |
| Plans.ErrorsAreFailures | snmpsim/datafile.py:228-229 | The errors counted for a variable binding are the calls made for it that failed. |
| Plans.LastCallDecides | snmpsim/datafile.py:214-246 | The answer to a variable binding is what the last call made for it answers, the end of the request if that raises, and else the error status under the requested OID; all calls before it have answered endOfMib or failed. |
| Serving.StaticIsHonest | snmpsim/variation.py:101-117 | The gate of static records says endOfMib only on GETNEXT. |
| Serving.GateDecides | snmpsim/variation.py:101-117 | Without GETNEXT a record's value is seen only on an exact match and never on SET; a broken record counts as absent. |
| Serving.GetReadsTheMap | snmpsim/datafile.py:106-248 | GET of any OID answers the stored value or noSuchInstance under the requested OID (section 4.2.1 of RFC 3416), SET noSuchInstance. |
| Serving.StoreExists | snmpsim/datafile.py:106-248 | Every sorted recording is an ordered map from OIDs to values. |
| Serving.StepsOverBroken | snmpsim/datafile.py:228-246 | GETNEXT answers the first record that can be evaluated when at most a hundred broken ones come before it, else endOfMib under the requested OID. |
| Serving.AnsweredAlike | snmpsim/datafile.py:195-246 | Answers from a recording that is only read do not depend on earlier calls or errors, nor on anything in the request but the OID and the two flags. |
| Serving.NextPlan | snmpsim/datafile.py:109-193 | A GETNEXT evaluates the subtree record an OID belongs to, if any, and then the records above in file order; without one the first record above comes twice when another subtree record precedes it. |
| Serving.GetNextIs | snmpsim/datafile.py:106-248 | A GETNEXT answers the subtree record the OID belongs to when that can be served, else the first servable record above when it is located and at most a hundred broken ones are read before, else endOfMib, for any sorted recording. |
| Serving.NextServedIsLeast | snmpsim/datafile.py:161-193 | The first record behind an OID that can be evaluated has the least stored OID above it, and there is none just when no stored OID is above. |
| Serving.GetNextReadsTheMap | snmpsim/datafile.py:106-248 | GETNEXT answers the least stored OID above the request (section 4.2.2 of RFC 3416) if and only if no subtree record answers instead, the OID can be located and at most a hundred broken records are read in between; it answers endOfMib under the requested OID if and only if no subtree record answers and one of this fails or nothing is above. |
| Serving.AHundredBrokenRecords | snmpsim/datafile.py:39-246 | Without subtree records an OID that can be located is answered from the first servable record above it when at most 100 broken records lie between, and with endOfMib when 101 do. |
| Serving.CleanRecordingsReach | snmpsim/datafile.py:106-248 | When all records can be evaluated and the last line is one, GETNEXT gets to the next record if and only if the OID belongs to no subtree record. |
| Walks.WalkVisitsAll | snmpsim/datafile.py:228-246 | A walk of any sorted recording visits every servable record above its start once and in order, and then ends, if and only if no subtree record answers at its start and, unless there is none to visit, the start can be located, no more than a hundred broken records are read before a servable one and none of these is a subtree record. |
| Walks.CleanRecordingsWalk | snmpsim/datafile.py:228-246 | A recording without subtree records, all of whose records can be served and whose last line is one, can be walked from every OID. |
| Walks.ServedIsTheMap | snmpsim/datafile.py:228-246 | What a full walk lists is exactly the stored OIDs with their values, strictly ascending. |
| Subtrees.SubtreeHoldsTheWalk | snmpsim/variation/delay.py:184-188 | When a subtree record is answered with its own OID, a walk that comes to its subtree gets that answer again and again. |
| Subtrees.GetNextReadsTheUnion | snmpsim/datafile.py:106-248 | With subtree records answered from ordered maps whose rows lie in the subtree and before the next record, GETNEXT answers the least OID above of records and rows together (section 4.2.2 of RFC 3416). |
| Subtrees.GetReadsTheUnion | snmpsim/datafile.py:106-248 | And GET answers the value of either (section 4.2.1 of RFC 3416). |
| Subtrees.WalkListsTheUnion | snmpsim/datafile.py:106-248 | A walk lists records and rows above its start, each once and ascending, and then ends. |
| Subtrees.RecordAmongRowsIsSkipped | snmpsim/datafile.py:161-220 | A record between the rows of a subtree is passed over by a GETNEXT from within the subtree. |
| Subtrees.EarlierIsBelow | snmpsim/datafile.py:161-193 | Of the records up to an OID only the subtree record the OID falls into may have rows above it. |
| Bulk.GetBulkVarBinds | snmpsim/utils.py:116-162 | The response is the longest prefix that fits the size limit of the non-repeaters read once followed by the rows, for the counts section 4.2.3 of RFC 3416 makes of those requested; the first max(N, 1) variable bindings always stay. |
| Bulk.CountsAre | snmpsim/utils.py:132-137 | The program finds just these counts: no non-repeaters for a negative number and at most all; no rows for a negative number, and the most up to the number asked for that make up no more variable bindings than allowed. |
| Bulk.OneNonRepeater | snmpsim/utils.py:139-160 | Of two variable bindings with one non-repeater and two repetitions, the first is read once and the second twice. |
| Bulk.AppendRow | snmpsim/utils.py:150-157 | A row is appended up to the first variable binding that would overfill a response that is not empty. |
| Bulk.Repeat | snmpsim/utils.py:149-160 | A repetition either goes in whole or ends the response at its longest fit. |
| Bulk.LongestFitUnique | snmpsim/utils.py:150-157 | Only one response is the longest fit. |
| BulkWalks.RowIsRepeated | snmpsim/utils.py:149-160 | Element k of row i is GETNEXT applied i times to repeater k. |
| BulkWalks.ChainIsSteps | snmpsim/utils.py:126-130 | GETBULKs resumed from the last OID neither skip nor repeat a step, whatever their limits and however these change, and each makes at least one. |
| BulkWalks.ChainIsWalk | snmpsim/utils.py:126-130 | Up to the first endOfMib they deliver exactly the GETNEXT walk. |
| BulkWalks.ChainVisitsAll | snmpsim/utils.py:126-130 | A chain long enough lists all servable records of the recording under just the conditions the GETNEXT walk does. |
| Snmprec.EvaluateRawString | snmpsim/record/snmprec.py:42-79 | The loop with its escape flag and hex digit computes the bytes the escape automaton yields, or the error. |
| Snmprec.RunRawJoins | snmpsim/record/snmprec.py:42-79 | Reading a text in two parts is reading it at once. |
| WrittenOut.EscapesAre | snmpsim/record/snmprec.py:18-32 | The escapes are a, b, f, n, r, t, v, both quotes and the backslash with their bytes, and no other. |
| WrittenOut.HexEscapesAre | snmpsim/record/snmprec.py:54-60 | A hexadecimal escape reads as its byte with digits in either case, and fails with anything else. |
| SnmprecRoundTrips.ReadsRepr | snmpsim/record/snmprec.py:42-79 | Raw evaluation inverts Python's repr of bytes for either quote. |
| SnmprecRoundTrips.UnhexHex | snmpsim/grammar/snmprec.py:69-79 | Hexadecimal output reads back as the same octets. |
| SnmprecRoundTrips.ValueRoundTrip | snmpsim/record/snmprec.py:112-166 | Formatting and evaluating a value are inverse, with hexadecimal output allowed or not. |
| SnmprecRoundTrips.ParsesWhatWasBuilt | snmpsim/grammar/snmprec.py:41-58 | Parsing a built line gives its OID, tag and value, bars and outer spaces of the value included. |
| WrittenOut.FieldsAre | snmpsim/grammar/snmprec.py:48-58 | A line is split at its first two bars, with blanks stripped from the OID and the tag; without two bars, or with nothing before the first or between them, it is refused. |
| WrittenOut.ValueIs | snmpsim/grammar/snmprec.py:55 | A value is stripped of the bytes 9, 10 and 13 at both ends and of nothing else. |
| WrittenOut.ValuesAre | snmpsim/record/snmprec.py:112-140 | Values of tags 4 and 68 are taken as they stand, as escaped text with e behind the tag, and as hexadecimal with x. |
| WrittenOut.HexTextIs | snmpsim/record/snmprec.py:120-128 | Hexadecimal text reads two digits at a time, and a last one alone as the high one. |
| WrittenOut.ColonsAre | snmpsim/record/search/database.py:229 | A record serves a subtree when its tag starts with a colon; it is served as it stands when nothing is behind the colon. |
| SnmprecRoundTrips.RecordRoundTrip | snmpsim/record/snmprec.py:112-166 | Every octet string survives format, build, parse and evaluate for every OID but the empty one, which is refused; its line is a record. |
| WrittenOut.PlainRecord | snmpsim/record/snmprec.py:134-166 | Letters at 1.3.6 are printed as the line 1.3.6, 4, ab with bars between. |
| WrittenOut.HexRecord | snmpsim/record/snmprec.py:134-166 | The octets 0 and 255 of an Opaque value are printed as 00ff with tag 68x. |
| WrittenOut.EscapedRecord | snmpsim/record/snmprec.py:134-166 | The octets 0 and 92 are printed escaped with tag 4e when hexadecimal is not wanted. |
| WrittenOut.HexIsChosenIff | snmpsim/grammar/snmprec.py:69-79 | A value is printed in hexadecimal just when that is wanted and a byte of it is neither letter nor digit. |
| WrittenOut.ReprIs | snmpsim/record/snmprec.py:146-155 | Quotes are single unless only those are in the value, and each byte is printed as itself, with its short escape, or in two hexadecimal digits of lower case. |
| Literals.NeverMadeUp | snmpsim/record/snmprec.py:51-75 | Reading that has fallen behind by more than an escaped quote makes up for yields the right bytes for no continuation. |
| Literals.StaysAhead | snmpsim/record/snmprec.py:51-75 | Reading that has got ahead by hexadecimal digits does not either. |
| Literals.ReadsLiteralIff | snmpsim/record/snmprec.py:42-79 | A text of characters, backslash escapes and hexadecimal escapes is evaluated like the Python literal if and only if every backslash spelt in hexadecimal is followed by escaped backslashes, none or more, and then an escaped quote. |
| Literals.HexBackslashOpensAnEscape | snmpsim/record/snmprec.py:51-75 | A backslash spelt in hexadecimal is lost at the end of any text and makes it fail before a character no escape knows. |
| Literals.HexBackslashAlone | snmpsim/record/snmprec.py:51-75 | The text \x5c is evaluated as nothing. |
| PaddedOids.PaddingKeepsOrder | snmpsim/variation/sql.py:137 | Padded texts sort exactly like OIDs and are equal exactly for equal ones, for sub-identifiers of at most ten digits. |
| PaddedOids.UnpaddingInverts | snmpsim/variation/sql.py:188-190 | Stripping the parts of a key gives its OID back. |
| WrittenOut.KeyOfOneThree | snmpsim/variation/sql.py:137 | The key of 1.3 has ten columns for each number, filled with spaces from the left. |
| PaddedOids.TenDigitsAreTheLimit | snmpsim/variation/sql.py:137 | Text order is OID order below a bound on the sub-identifiers if and only if the bound is at most ten digits. |
| SqlTables.LeastKeyIsLeastOid | snmpsim/variation/sql.py:180-190 | The least key above a padded OID is the key of the numerically least stored OID above, and there is one just when there is the other. |
| SqlTables.SqlTable.SelectNext | snmpsim/variation/sql.py:180-185 | The query finds the least key above, if any. |
| SqlTables.SqlTable.Variate | snmpsim/variation/sql.py:136-210 | SET writes a new or writable row and refuses others, GET reads a row, GETNEXT the numerically least row above, on the table as a map from OIDs. |
| SqlTables.SqlTable.Record | snmpsim/variation/sql.py:225-248 | Recording writes the row of an OID and keeps its access. |
| SqlSubtrees.EvaluateRow | snmpsim/variation/sql.py:178-210 | What the module replies for its record, evaluated, is the answer of the table as an ordered map of contents. |
| Reporting.MinimalJsonReporter.UpdateMetrics | snmpsim/reporting/formats/alljson.py:239-292 | An update adds its counts to the counters in memory. |
| Reporting.MinimalJsonReporter.Flush | snmpsim/reporting/formats/alljson.py:146-196 | A due dump moves the counters into the report of this second and clears them, or keeps them when writing fails. |
| Reporting.StepConserves | snmpsim/reporting/formats/alljson.py:146-196 | Each update and dump keeps the sum of reports and memory in step with the counts, and every report written earlier. |
| Reporting.RunConserves | snmpsim/reporting/formats/alljson.py:146-196 | Over any run of updates and successful or failed dumps, reports and memory together hold exactly what was counted and no report is overwritten. |
| Reporting.ConservesIffPeriodIsPositive | snmpsim/reporting/formats/alljson.py:113-133 | Counts are conserved in all runs if and only if the period is at least one second. |
| Reporting.UpdatesAreStamped | snmpsim/reporting/formats/alljson.py:256-262 | The document holds the second of the first and of the last update since it was empty. |
| Reporting.DueDumpsReport | snmpsim/reporting/formats/alljson.py:146-196 | A due dump that succeeds leaves a report of the counts and times gathered, named by its second, starts anew and sets the next one a period later; one that is not due changes nothing. |
| Reporting.FailedDumpsKeep | snmpsim/reporting/formats/alljson.py:182-194 | A due dump that fails keeps the counts, leaves no report and is tried again a period later. |
| ManageRecords.ReadFile | snmpsim/commands/rec2rec.py:249-306 | Reading a file takes its records one by one: broken, filtered out or kept, up to the error or the exception that ends the program. |
| ManageRecords.Manage | snmpsim/commands/rec2rec.py:235-361 | All files are read, the records arranged and written without duplicates, up to one that cannot be written. |
| ManagedRecordings.SortIsStable | snmpsim/commands/rec2rec.py:308-309 | Sorting orders by OID and keeps the records of each OID in reading order. |
| ManagedRecordings.MergedIsSorted | snmpsim/commands/rec2rec.py:308-326 | Sorted and de-duplicated records ascend strictly and hold every OID once with the content read first. |
| ManagedRecordings.WritesAll | snmpsim/commands/rec2rec.py:313-342 | When every record can be written, the output is their text in order and the counts add up. |
| ManagedRecordings.WritesUpTo | snmpsim/commands/rec2rec.py:328-341 | The first record that cannot be written ends the writing. |
| ManagedRecordings.CountsAddUp | snmpsim/commands/rec2rec.py:344-356 | Records read are records written, filtered out, de-duplicated and broken, when every one can be written. |
| ManagedRecordings.FinishesIff | snmpsim/commands/rec2rec.py:275-296 | The tool finishes if and only if every line read is a record, or broken while told to ignore that; otherwise the first line that is not decides between the error and the exception. |
| ManagedRecordings.KeptIsWithin | snmpsim/commands/rec2rec.py:298-306 | The records kept are, in reading order, the good ones not below the first OID asked for and not above the last; the counts are those of the other good ones, of the broken ones and of the comments lost. |
| ManagedRecordings.LinesAreRecords | snmpsim/commands/rec2rec.py:251-273 | What is read of a file are all its records in file order, each counted with the lines since the one before. |
| ManagedRecordings.UnsortedIsWritten | snmpsim/commands/rec2rec.py:308-342 | Without sorting and de-duplicating the output is the records kept as they were read. |
| SnmprecRecordings.SnmprecFinishesIff | snmpsim/commands/rec2rec.py:275-296 | On `.snmprec` input the tool finishes if and only if the OID field of every line that parses is an OID, and every line parses and evaluates unless it has been told to ignore broken records; the first line that fails this ends it in the exception if and only if it parses and its OID field is no OID. |
| SnmprecRecordings.ToolReadsBack | snmpsim/commands/rec2rec.py:275-278 | The tool reads the record of an octet string back as it was. |
| WrittenOut.VariationRecordsAreBroken | snmpsim/commands/rec2rec.py:50-66 | To the tool a record that names a variation module is broken. |
| ManagedTwice.ManagedTwice | snmpsim/commands/rec2rec.py:249-342 | Managing a managed recording of octet strings again changes nothing. |
| ManagedTwice.LinesOfText | snmpsim/commands/rec2rec.py:251-254 | What is read of the text written are just the lines written. |
| FailingRecordings.LetterInOidStopsTheTool | snmpsim/variation.py:120-122 | Any built line with a letter in its OID field ends the tool in the exception, whatever the options. |
| FailingRecordings.AbcStopsTheTool | snmpsim/commands/rec2rec.py:275-296 | The octet string x under abc is one. |
| ManagedRecordings.TextIsRecording | snmpsim/commands/rec2rec.py:328-333 | Lines that read back, written one after the other in ascending order, make a sorted recording of just these records. |
| ManagedRecordings.ManagedRecordingIsServable | snmpsim/commands/rec2rec.py:308-333 | The output meets what the search and the index ask of a recording (docs/source/documentation/managing-simulation-data.rst, lines 84 and 85), with a record in its last line. |
| SnmprecRecordings.OidTextsReadBack | snmpsim/record/dump.py:19-20 | The printed text of every OID evaluates to that OID, and "last" to none. |
| SnmprecRecordings.RecordReadsBack | snmpsim/record/snmprec.py:112-166 | An octet string record reads back with its OID and content. |
| SnmprecRecordings.NothingDiverts | snmpsim/variation.py:31-117 | No `.snmprec` subtree record is served as it stands, so none answers in place of the records above an OID. |
| SnmprecRecordings.ManagedRecordingHolds | snmpsim/commands/rec2rec.py:308-333 | A managed recording of octet strings can be searched and indexed, has no subtree records, and holds just the records merged. |
| SnmprecRecordings.ManagedRecordingAnswers | snmpsim/commands/rec2rec.py:249-342 | It answers GET with the content read first for the OID in any input file, and noSuchInstance for an OID not read. |
| ManagedWalks.ManagedRecordingWalks | snmpsim/commands/rec2rec.py:249-342 | A GETNEXT walk of it from any OID lists just the OIDs kept above that, ascending, each with the content read first. |
| ManagedWalks.ManagedRecordingBulkWalks | snmpsim/commands/rec2rec.py:249-342 | And so does a chain of GETBULKs long enough, whatever the limits. |

## Left out

- Transport, the SNMP engine, argument parsing, daemonizing and logging: plumbing around the model.
- BER encoding and the construction of pyasn1 values: a value is an abstract content, and the size of a variable binding is any positive function.
- Serving.GateDecides: models the gate of `.snmprec` records; `.dump` records evaluate their value before the gate, which differs only for broken records.
- Literals.ReadsLiteralIff: covers the escapes both sides know; octal escapes and unknown letters, which `ast.literal_eval` accepts and `evaluate_raw_string` refuses, are no tokens of it.
- DataFiles.OpenFiles.ProcessVarBinds: takes recordings to be sorted and spelt the printed way, and leaves out requests served by the part of an index a blank tag left behind.
- SnmprecRoundTrips.RecordRoundTrip: covers octet strings and Opaque values; other types are printed and read by pyasn1.
- SqlSubtrees.EvaluateRow: covers rows that hold the text of octet strings.
- Bulk.GetBulkVarBinds: takes the reading of next variable bindings as a function that answers each with one; a reader with a memory, as stateful variation modules make it, is not modelled there.
- RecordIndexes.RecordIndex.Create: takes DBM files as maps that can always be opened, one index file per data file, and a text that does not change while it is being indexed.
- DataFiles.OpenFiles.GetHandles: the counters a request reports are left to the reporter's model.
- SqlTables.SqlTable.Variate: takes the database as one table with binary text order; isolation levels, commits and the text of the SQL statements are not modelled.
- Reporting.MinimalJsonReporter.UpdateMetrics: the `fulljson` reporter keeps its counters in nested scopes and is not modelled.
- ManageRecords.Manage: leaves out progress messages. The code meant to carry variation records through (snmpsim/commands/rec2rec.py, lines 32 to 47) is never called, so that they are broken records to it, and none is ever counted.
- FileSearch.SearchRecordByOid: takes recordings in which every OID can be read; without validation one that cannot be is indexed as well, and a request whose search or reading comes upon it ends in an exception.
- SnmprecRecordings.EvaluateOid: pyasn1 is not part of the repository; its reading of OID text is taken to be Python's `int` of every part between dots, with empty parts dropped and minus signs refused.
- Freshness.StepKeepsInv: data files are re-indexed only while closed, as the responders do before serving.
- Other grammars (`dump`, `mvc`, `sap`, `walk`): each is a parser the engine is already modelled for.
- The time- and random-driven, notifying and forking variation modules: their results are no function of the recording.
