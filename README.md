# Retention sweep

A model of the retention background job of the files retention app
(`lib/BackgroundJob/RetentionJob.php`). The job runs daily for one system
tag. It checks that the tag still exists and reads the tag's row in the
`retention` table. From the row's time unit and amount and the clock it
computes one cutoff instant. It then pages through the ids of the files
carrying the tag, 1000 at a time from offset 0, until a page comes back
empty. Each id is resolved to a node through the first cached mount of the
file and that mount owner's folder. A node last modified at or before the
cutoff is deleted. Ids that cannot be resolved and deletions refused with
NotPermittedException are skipped.

The project has seven modules:

- `Wrappers` holds `Option`.
- `Calendar` is the proleptic Gregorian calendar on day numbers counted from 1970-01-01 UTC.
- `Decimal` is PHP's decimal text of an integer and the reading of digits back.
- `DateInterval` covers the one-designator duration strings the job builds (section 4.4.3.2 of ISO 8601) and `DateTime::sub` on UTC timestamps.
- `Cutoff` is `getBeforeDate`.
- `SweepModel` describes a whole run as a value (`RunSpec`): the page offsets asked for, the nodes `delete()` is called on, the nodes removed, and whether the run returns or throws. Its lemmas state safety, completeness, pagination and the early exits.
- `RetentionJob` is the imperative job. The tag mapper and the users' storage are classes whose ghost or real logs record the page requests, the delete calls and the removals. `Run`, with the loop over pages and the loop over one page's ids, is proved to have exactly the effect `RunSpec` gives.

Two kinds of inputs are modelled differently:

- Inputs become parameters: the tag manager's answer, the `retention` table (a map from tag to unit and amount), the clock reading `now` (a UTC timestamp in seconds), the mount cache, and the users' folders with their nodes' mtimes and deletion refusals.
- Three sources of exceptions are modelled, and any of them that leaves `run` becomes the outcome `Threw`:
  - the tag manager's check that the tag exists;
  - the `DateInterval` constructor rejecting the duration spec;
  - a node's `delete()`.

Three behaviours of the code are kept as written:

- The comment at lib/BackgroundJob/RetentionJob.php:102 reads the caught exception as "tag no longer exists", but the catch covers only InvalidArgumentException, so any other exception from the tag manager leaves the run.
- A unit outside DAY, WEEK, MONTH and YEAR leaves the duration spec as the bare "P". A negative amount puts a sign into it ("P-5d"). PHP's `DateInterval` rejects both with an exception, so both runs throw before any page is fetched.
- Only NotPermittedException is caught around `delete()`. Any other exception from `delete()` leaves the run at that id, and later ids are not processed.

## Model

| member | source | states |
|---|---|---|
| `Decimal.NatToStringReadsBack` | lib/BackgroundJob/RetentionJob.php:202 | the text PHP appends for a non-negative amount is a non-empty run of digits whose value is the amount |
| `Decimal.NegativeHasSign` | lib/BackgroundJob/RetentionJob.php:202 | the text appended for a negative amount starts with a sign that is not a digit |
| `DateInterval.ParseSpec` | lib/BackgroundJob/RetentionJob.php:211 | a duration spec is accepted only as "P", digits, then one designator y, m, w or d in either case |
| `DateInterval.ParseSpecUpperCaseOnly` | lib/BackgroundJob/RetentionJob.php:211 | the stricter reading of a spec: anything it accepts is accepted by `ParseSpec` and ends in an upper-case designator |
| `DateInterval.DateOf` | lib/BackgroundJob/RetentionJob.php:212-213 | the calendar date of a timestamp is the valid date whose day number is the timestamp divided by 86400 |
| `DateInterval.SubKeepsTime` | lib/BackgroundJob/RetentionJob.php:215 | taking a duration off keeps the time of day |
| `DateInterval.SubNotLater` | lib/BackgroundJob/RetentionJob.php:215 | taking any duration off never gives a later instant |
| `DateInterval.SubDays` | lib/BackgroundJob/RetentionJob.php:215 | a duration of days only is that many times 86400 seconds |
| `DateInterval.SubSameTotals` | lib/BackgroundJob/RetentionJob.php:215 | durations with equal total months and equal days give the same instant, so a year is twelve months |
| `DateInterval.SubMonotone` | lib/BackgroundJob/RetentionJob.php:215 | a duration longer in months and in days never gives a later instant |
| `DateInterval.SubLandsOnDate` | lib/BackgroundJob/RetentionJob.php:215 | taking k months off lands on the same day of month k calendar months back whenever that month has the day |
| `Cutoff.SpecRoundTrip` | lib/BackgroundJob/RetentionJob.php:199-211 | the spec built for a known unit and an amount of zero or more reads back as exactly the policy's duration, WEEK as seven times the amount in days; for any other unit or a negative amount it is rejected |
| `Cutoff.UnknownUnitHasNoCutoff` | lib/BackgroundJob/RetentionJob.php:199-211 | an unknown unit leaves the spec "P" and gives no cutoff |
| `Cutoff.NegativeAmountHasNoCutoff` | lib/BackgroundJob/RetentionJob.php:201-211 | a negative amount gives no cutoff |
| `Cutoff.UpperCaseReaderRejectsEverySpec` | lib/BackgroundJob/RetentionJob.php:199-211 | a reader of upper-case designators only rejects every spec the job can build |
| `Cutoff.CutoffIsSub` | lib/BackgroundJob/RetentionJob.php:198-216 | for a known unit and an amount of zero or more the cutoff exists and is the policy's duration taken off now |
| `Cutoff.CutoffDay` | lib/BackgroundJob/RetentionJob.php:201-202 | DAY gives now minus amount times 86400 seconds |
| `Cutoff.CutoffWeek` | lib/BackgroundJob/RetentionJob.php:203-204 | WEEK equals DAY with seven times the amount, now minus 7 times amount times 86400 seconds |
| `Cutoff.CutoffMonth` | lib/BackgroundJob/RetentionJob.php:205-206 | MONTH keeps the time of day, is not after now, and falls on the date amount calendar months back when that month has the day |
| `Cutoff.CutoffYear` | lib/BackgroundJob/RetentionJob.php:207-208 | YEAR equals MONTH with twelve times the amount |
| `Cutoff.CutoffNotAfterNow` | lib/BackgroundJob/RetentionJob.php:198-216 | every valid policy has a cutoff, never after now, and equal to now for an amount of zero |
| `Cutoff.CutoffMonotone` | lib/BackgroundJob/RetentionJob.php:198-216 | a longer retention of the same unit never gives a later cutoff |
| `Cutoff.ThirtyDaysFromMarchFirst` | lib/BackgroundJob/RetentionJob.php:198-216 | 30 days at 2024-03-01T00:00:00Z cut off at 2024-01-31T00:00:00Z |
| `SweepModel.CheckFileIdFound` | lib/BackgroundJob/RetentionJob.php:156-173 | an id resolves exactly when it has a mount and the first mount's owner has a node for it, and then to the first such node |
| `SweepModel.CheckFileIdUsesFirstMount` | lib/BackgroundJob/RetentionJob.php:163-167 | mounts after the first never affect resolution |
| `SweepModel.Sweep` | lib/BackgroundJob/RetentionJob.php:131-139 | the ids are processed in order; all of them unless an exception escapes, and then at least one |
| `SweepModel.VisitMatchesCandidate` | lib/BackgroundJob/RetentionJob.php:131-139 | one id adds its due node, if any, to the delete calls, and to the removed nodes unless it refuses |
| `SweepModel.SweepMatchesCandidates` | lib/BackgroundJob/RetentionJob.php:131-139 | the delete calls are exactly the due nodes of the processed ids in order, and the removed nodes are those of them that do not refuse |
| `SweepModel.SweepSafety` | lib/BackgroundJob/RetentionJob.php:179-191 | delete is called only on nodes resolved from processed ids and modified at or before the cutoff; a node is removed exactly when delete was called on it and it does not refuse |
| `SweepModel.SweepStopsAtFirstFailure` | lib/BackgroundJob/RetentionJob.php:184-188 | the sweep stops exactly at the first id whose delete throws something other than NotPermittedException; NotFound and NotPermitted never stop it |
| `SweepModel.SweepAbortsIffSomeFailure` | lib/BackgroundJob/RetentionJob.php:131-139 | the sweep throws exactly when some tagged id's delete throws something other than NotPermittedException |
| `SweepModel.SweepAbortSticky` | lib/BackgroundJob/RetentionJob.php:131-146 | after an exception no further id has any effect |
| `SweepModel.RunSpecSweeps` | lib/BackgroundJob/RetentionJob.php:123-146 | with the tag and policy present and a valid duration, a run is the sweep of the tagged ids with that one cutoff |
| `SweepModel.PageSlice` | lib/BackgroundJob/RetentionJob.php:129 | a page is at most limit ids, the tagged ids from offset on, and empty exactly when offset is past the end |
| `SweepModel.PagesCoverAll` | lib/BackgroundJob/RetentionJob.php:126-146 | paging from 0 in steps of 1000 sees ceil(N/1000) non-empty pages and then an empty one, and the pages together are the tagged ids in order, each once |
| `SweepModel.TwentyFiveHundredIds` | lib/BackgroundJob/RetentionJob.php:126-146 | 2500 ids are asked for at offsets 0, 1000, 2000 and 3000, in pages of 1000, 1000, 500 and 0 ids |
| `SweepModel.RunEarlyExits` | lib/BackgroundJob/RetentionJob.php:96-124 | a failed tag check, a missing policy row or a rejected spec ends the run before any page is fetched and with nothing deleted; only InvalidArgumentException and a missing row return normally |
| `SweepModel.RunDeletesOnlyExpired` | lib/BackgroundJob/RetentionJob.php:96-147 | a run calls delete only when the tag and policy exist, and only on nodes at or before the one cutoff that resolve from tagged ids; removed nodes are among them and do not refuse |
| `SweepModel.RunVisitsEveryId` | lib/BackgroundJob/RetentionJob.php:96-147 | when no delete fails other than with NotPermittedException, a run returns after ceil(N/1000)+1 requests, having called delete on every due node of every tagged id in order and removed every one that permits it |
| `SweepModel.UntouchedNotRemovable` | lib/BackgroundJob/RetentionJob.php:131-139 | of the ids a sweep processed, those it leaves tagged have no due node that `delete()` would remove |
| `SweepModel.SecondSweepOfProcessed` | lib/BackgroundJob/RetentionJob.php:131-139 | a second sweep over the processed ids the first sweep left tagged removes nothing, and throws if the first one threw |
| `SweepModel.SecondSweepRemovesNothing` | lib/BackgroundJob/RetentionJob.php:126-146 | a second sweep with the same cutoff, over the ids whose node the first sweep did not remove, removes nothing in every world, including after a first sweep that threw |
| `SweepModel.ThirtyDayPolicyScenario` | lib/BackgroundJob/RetentionJob.php:96-147 | a 30-day policy over an older and a newer file asks for two pages and removes exactly the older file |
| `RetentionJob.TagMapper.GetObjectIdsForTags` | lib/BackgroundJob/RetentionJob.php:129 | returns the page of tagged ids at the offset and records the request |
| `RetentionJob.Storage.Delete` | lib/BackgroundJob/RetentionJob.php:185-188 | records the delete call, and removes the node unless it refuses, returning what it throws |
| `RetentionJob.ExpireNode` | lib/BackgroundJob/RetentionJob.php:179-191 | calls delete only when mtime is at or before the cutoff; NotPermittedException is swallowed; any other exception escapes |
| `RetentionJob.ExpireFileId` | lib/BackgroundJob/RetentionJob.php:131-138 | one id is resolved, skipped on NotFound, and expired; the storage logs then match the sweep one id further |
| `RetentionJob.ExpirePage` | lib/BackgroundJob/RetentionJob.php:131-139 | the inner loop leaves the storage logs equal to the sweep up to the end of the page, stopping at the id where an exception escapes |
| `RetentionJob.ExpireNextPage` | lib/BackgroundJob/RetentionJob.php:129-143 | one turn of the outer loop asks for the page at the offset once; an empty page changes no storage |
| `RetentionJob.ExpireTaggedFiles` | lib/BackgroundJob/RetentionJob.php:126-146 | the outer loop's requests, delete calls and removals are exactly those of `SweepEffect` over the tagged ids with the one cutoff |
| `RetentionJob.Run` | lib/BackgroundJob/RetentionJob.php:96-147 | the outcome, page requests, delete calls and removals of a run are exactly those of `RunSpec` |

## Left out

- Constructor, `fixDI` service lookup and TimedJob scheduling: wiring, not behaviour. The collaborators are parameters.
- Application registration in the container holds no logic.
- The SQL query-builder mechanics: the `retention` table is a map from tag to unit and amount.
- Logging: the swallowed NotPermittedException is only a comment in the code.
- The file `Constants.php` is not part of this model. The unit codes DAY = 0, WEEK = 1, MONTH = 2 and YEAR = 3 are assumed.
- Time zones: timestamps are read in UTC, with no daylight-saving shifts.
- PHP integers are unbounded here. The 64-bit overflow of `$timeamount * 7` into a float is not modelled.
- `DateInterval.ParseSpec` reads only what the job can build: "P", optional digits and one designator. Combined designators, time parts and fractions of the full ISO 8601 syntax are not modelled.
- `DateInterval.ParseSpec` assumes PHP's `DateInterval` accepts the lower-case designators `d`, `m` and `y` that the job writes. The code does not show PHP's reader.
  - If the reader takes upper-case designators only (`DateInterval.ParseSpecUpperCaseOnly`), `Cutoff.UpperCaseReaderRejectsEverySpec` shows that no policy has a cutoff.
  - `SweepModel.RunEarlyExits` then has every run with the tag and its row throw before fetching a page, so nothing is ever deleted.
- Only three calls can throw in the model: the tag check, the `DateInterval` constructor and `delete()`. Every other lookup always answers:
  - the `retention` query;
  - `getObjectIdsForTags`;
  - `getMountsForFileId`;
  - `getUserFolder` and `getById`;
  - `getMTime`.

  In the code an exception from any of them leaves `run`; only NotFoundException inside `checkFileId` is caught.
- `SweepModel.Page` assumes the mapper reads `$offset` as a position in one fixed order of the tagged ids, so the offsets 0, 1000, 2000 and so on (lib/BackgroundJob/RetentionJob.php:126, :145) cut that order into consecutive pages. The mapper's source is not part of this model.
  - `SweepModel.PagesCoverAll`, `SweepModel.TwentyFiveHundredIds`, `SweepModel.RunVisitsEveryId` and the request count ceil(N/1000)+1 in `SweepModel.SweepEffect` depend on that reading, and so does every id being seen exactly once.
  - If the mapper reads `$offset` as a cursor (ids greater than the last id received, in id order), pages can overlap or skip ids, and the number of requests depends on the largest tagged id rather than on N.
- The tagged set, the mount cache and the folders do not change during a run. A node deleted earlier in the run still resolves, so a file reached through two tagged ids is deleted twice.
- Which exception a missing tag raises inside the tag manager is an input: the answer `InvalidArgument` stands for InvalidArgumentException and `OtherTagFailure` for anything else.
- `SweepModel.SecondSweepRemovesNothing` assumes a second run uses the same cutoff, not a later clock reading; a later `now` can expire more files. It also assumes removing a file drops its tag, which happens outside the job.
- Concurrency between runs for different tags is not modelled. Each run is sequential.
