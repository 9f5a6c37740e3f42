# restest, modelled and verified in Dafny

restest is a mock server. Requests under `/m/{slug}/` are matched against a project's
endpoints, rate limited, recorded in a request log, and, for collection endpoints,
served from a small document store. This project models the parts of it that carry
state or search, and proves what they are for.

| files | what they model |
|---|---|
| `Paths`, `Routes`, `Matching`, `Trie`, `Binding`, `Roots`, `Shadowing`, `Table` | the route table: patterns, the backtracking trie, verb selection, parameters, the Allow list, shadowed routes, the four answers |
| `Levenshtein`, `Nearest` | the suggestions of a 404: the two-row edit distance and the ranking |
| `TokenBucket`, `RateLimit` | the keyed limiter: token buckets, TTL eviction, the size cap and the wholesale clear |
| `Recording` | the recorder: producers, the bounded queue, the batching goroutine, shutdown |
| `Seeding`, `Collections`, `Interleaving`, `JsonQuote` | identifiers of a seed, the collection operations one at a time, creates interleaved with resets, identifiers as JSON |
| `Listing` | filters, order and offset paging of a collection |
| `Cursors`, `RequestLog` | positions in the request log, pages followed by `next`, the live tail |
| `Partitions` | monthly partitions, their names and the retention window |
| `Headers` | header lines printed and read back |
| `Text`, `Decimal`, `Sorting`, `Sets`, `Wrappers` | strings, 64-bit integers, ordered sequences, finite sets, options |

Reading order: for the matcher, `Matching` says with a linear scan what a request is to be
answered with, `Trie` shows that the pointer structure and its depth-first walk compute
it, and `Table` puts the projects together. For the limiter, `TokenBucket` and then the
whole-run lemmas at the end of `RateLimit`. For collections, `Seeding`, then `Collections`,
then `Interleaving`.

## Conventions

- A string is a sequence of code points. Where the code counts bytes, the model does too.
- Trie nodes, searches, limiters, recorders, collections and streams are classes updated in
  place. A ghost history (`Trie.inserted`, `Recorder.st`) or a view ties them to the
  specification.
- Time is an explicit input in nanoseconds (the limiter, the recorder), microseconds (the
  log) or months (partitions). The limiter's clock does not go back: it is read before the
  lock is taken, so this is a premise about its callers.
- `rate.Limiter` is exact: tokens are counted in billionths, so a rate of r tokens a second
  refills r units a nanosecond.
- Postgres is an abstract store that keeps what the statements say: the counter update and
  what it returns, the row lock, the unique index, ORDER BY with LIMIT and OFFSET, and the
  comparison of (created_at, id) as a pair.
- `url.PathUnescape`, `textproto.CanonicalMIMEHeaderKey`, `unicode.IsPrint`, uuid
  generation, jsonb containment and the jsonb order are parameters. What is assumed of them
  is in the `requires` clause of the lemma that needs it.

## Where the code does less than its comments say

The model follows the code. Each of these is a lemma with the exact condition.

- `NormalizePath` is not idempotent on a path whose last segment ends in white space
  (`Paths.NormalizeIdempotence`, `Paths.NormalizeTwiceDiffers`).
- So an accepted path can end in white space, and if it is a collection's its documents are
  not one segment below it: a collection typed as `/a /` is listed at `/a`, and `/a/1` is not
  found (`Routes.DocumentSegments`, `Routes.DocumentWellFormedExactlyWhen`,
  `Roots.DocumentsBelowExactlyWhen`, `Roots.SpacedRootHasNoDocuments`,
  `Roots.SpacedParameterIsNotWellFormed`).
- A JSON `null` in a seed passes validation and then panics (`Seeding.PanicsExactlyOnNull`,
  `Seeding.NullPanics`).
- The counter left by a seed wraps if an identifier is 2^63-1 (`Seeding.CounterClearsTheSeed`,
  `Seeding.LargestIdWrapsTheCounter`, `Collections.ResetEstablishesInv`).
- The row lock does not keep the counter from pointing at an id that exists: a create that
  claimed its id before a reset can insert it after (`Interleaving.InsertLeavesStaleExactlyWhen`,
  `Interleaving.ResetCanLeaveTheCounterBehind`).
- `strconv.Quote` does not always write JSON (`JsonQuote.QuoteIsJsonExactlyWhenPortable`), and
  then a document cannot be replaced or patched (`Collections.WriteFailsExactlyWhen`).
- The listing offset overflows (`Listing.PageIsTheSlice`, `Listing.OverflowedPageIsTheFirst`).
- At the largest page limit of the log API there is never a next page (`RequestLog.NextExactlyWhenMore`).
- A live tail opened on an empty log never delivers anything (`RequestLog.EmptyStartStaysSilent`).
- A batch that fills, or that a tick meets, after cancellation and before the goroutine has
  noticed it is written with the cancelled context, and so lost, although the final flush
  would have written it (`Recording.ShutdownLosesNothingExactlyWhen`, `Recording.FilledBatchIsLost`).
- While a coming month cannot be created, retention drops nothing (`Partitions.BlockedMonthStopsRetention`).

## Model

| member | source | states |
|---|---|---|
| Paths.SplitPath | internal/core/validate.go:171-181 | returns the non-empty pieces between slashes of the trimmed path |
| Paths.PathParams | internal/core/validate.go:186-194 | returns the parameter names of a pattern in order |
| Paths.ValidatePath | internal/core/validate.go:207-240 | accepts exactly the paths within the length and segment limits, without control characters or query, whose parameters are whole segments with distinct names, and gives the first of the reasons in that order |
| Paths.NormalizeIdempotence | internal/core/validate.go:157-181 | normalising twice is normalising once if and only if the path, trimmed and then stripped of trailing slashes, does not end in white space |
| Paths.NormalizeTwiceDiffers | internal/core/validate.go:157-181 | a concrete path whose stored form is not stable |
| Routes.Expand | internal/mock/mock.go:97-124 | one route for a static endpoint, the six of the table, in order, for a collection |
| Routes.CollectionAnswers | internal/mock/mock.go:83-124 | GET lists and POST creates at the root, GET reads, PUT replaces, PATCH merges and DELETE removes below it, nothing else |
| Routes.DocumentSegments | internal/mock/mock.go:97-124 | the document routes of an accepted collection sit one parameter segment below what was typed, and so below its stored root if and only if that does not end in white space |
| Routes.DocumentWellFormedExactlyWhen | internal/mock/mock.go:97-124 | a document pattern is well formed unless the root ends in a parameter followed by white space |
| Routes.RoutesAreMatchable | internal/mock/mock.go:97-124 | every route of an accepted row stays in its project, carries its own parameter names, all different, and its brace test agrees with the identifier test; and exactly which patterns are not well formed |
| Roots.DocumentsBelowExactlyWhen | internal/mock/mock.go:97-124 | one segment below a request of a collection there is a document, unless the root ends in white space and the request does not spell it out |
| Roots.SpacedRootHasNoDocuments | internal/core/endpoint.go:357-388 | the collection typed as "/a /" answers /a and nothing below it |
| Roots.SpacedParameterIsNotWellFormed | internal/mock/mock.go:106 | the document pattern of one typed as "/{x} /" is not well formed |
| Matching.WinnerWins | internal/mock/trie.go:121-151 | the linear scan finds the route that precedes all others that answer: literal before parameter at the first difference, then the better verb, then the earlier definition; and none only if none answers |
| Matching.WinnerIsPreferred | internal/mock/trie.go:121-191 | in plain terms: every request gets the route that fits and answers and is preferred to every other that does, for a literal where the other has a parameter, for the very verb before the wildcard before GET for HEAD, or for being defined first |
| Matching.WinnerIsUnique | internal/mock/trie.go:121-151 | no two routes can win the same request |
| Matching.DescendWins | internal/mock/trie.go:129-151 | below any prefix, the depth-first search with backtracking finds the route that wins there |
| Matching.DescendIsWinner | internal/mock/trie.go:129-151 | searching from the root equals the linear scan |
| Matching.AllowLeIsTotalOrder | internal/mock/trie.go:209-229 | the order of the Allow list is total, so the list is well defined |
| Matching.ConventionalOrder | internal/mock/trie.go:217-229 | GET, HEAD, POST, PUT, PATCH, DELETE, OPTIONS |
| Matching.AllowListIsDetermined | internal/mock/trie.go:199-215 | the verbs determine the Allow list; map iteration order leaves no trace |
| Matching.AllowTellsWrongMethod | internal/mock/trie.go:157-215 | with no answer, the list is non-empty iff some pattern matches, holds exactly the matching patterns' verbs and HEAD beside GET, each once, never the wildcard nor the verb refused |
| Trie.Trie.Insert | internal/mock/trie.go:45-75 | keeps the pointer structure a tree, appends to what was inserted, and returns the route that already holds the shape and verb, if any |
| Trie.Trie.Child | internal/mock/trie.go:48-64 | steps to the child for a segment, creating it only if missing, and leaves every other node where it was |
| Trie.Trie.Walk | internal/mock/trie.go:129-151 | restores the value stack on every return, does nothing once a route is found, and otherwise finds what the search over shapes finds or collects every matching verb below |
| Trie.Trie.Arrive | internal/mock/trie.go:157-170 | records the route chosen among those at the node, with its values, or adds exactly the node's verbs |
| Trie.Trie.HeldPick | internal/mock/trie.go:178-191 | picking among the routes at a node picks the route the linear list has for that shape |
| Trie.Trie.AbsentIsBarren | internal/mock/trie.go:139-150 | a child that is missing hides no route and no verb |
| Trie.Trie.Lookup | internal/mock/trie.go:89-101 | returns exactly the linear scan's route with its parameters bound, or no route and the Allow list |
| Trie.Allowed | internal/mock/trie.go:199-215 | lists the verbs met, HEAD beside GET, each once, in the conventional order |
| Binding.Zip | internal/mock/trie.go:235-248 | pairs names with values up to the shorter list |
| Binding.MatchBindsOwnNames | internal/mock/trie.go:235-248 | for every pattern whose brace test agrees with the identifier test and whose names differ the lists are equally long, exactly the pattern's names are bound, and putting the values back gives the request segments |
| Shadowing.ShadowedExactlyWhenDead | internal/mock/table.go:49-62 | inserting a route reports a shadowing one if and only if no request is ever answered by it |
| Shadowing.FirstWinsItsSample | internal/mock/table.go:49-62 | the first route of its shape and verb wins some request, however many other patterns there are |
| Table.SplitRequestPath | internal/mock/trie.go:258-272 | splits first and decodes each segment afterwards; a segment that does not decode stays as it is |
| Table.EscapedSegmentsArrive | internal/mock/trie.go:250-272 | any texts sent escaped, one segment each, arrive as those texts, slashes in them included |
| Table.ProjectRoutes.Add | internal/mock/table.go:49-63 | adds one route to trie and suggestions, reporting the one that keeps answering in its place |
| Table.Table.BuildTable | internal/mock/table.go:33-67 | of project rows with one slug the last counts, every project serves exactly its own endpoints' routes in order, endpoints of missing projects are dropped, and no two projects share a node |
| Table.Table.Lookup | internal/mock/table.go:75-108 | no project, or the answer told by the linear scan over that project's routes |
| Table.AnswersAreDetermined | internal/mock/table.go:82-107 | one answer per request; matched iff some route answers, unknown iff no pattern matches, and then with at most five suggestions for the decoded path |
| Table.RefsAre | internal/mock/table.go:63 | the suggestions are chosen from every route of the project, by verb and path |
| Table.MatchesGiveBackTheRequest | internal/mock/table.go:82-90 | over accepted endpoints a match is by a route of the project, binds exactly its names, and its pattern with the values put back is the request |
| Levenshtein.EditDistance | internal/mock/nearest.go:94-121 | the two swapped rows compute the recursive distance, for all inputs |
| Levenshtein.EditsSymmetric | internal/mock/nearest.go:94-98 | swapping the strings, as the code does, does not change the distance |
| Levenshtein.EditsTriangle | internal/mock/nearest.go:94-121 | no shortcut through a third string, for all prefixes |
| Levenshtein.LevIsMetric | internal/mock/nearest.go:94-121 | zero iff equal, symmetric, triangle inequality |
| Levenshtein.LevIsTheFewestEdits | internal/mock/nearest.go:89-93 | some sequence of that many single-character edits turns one string into the other, and no shorter one does |
| Nearest.CommonPrefix | internal/mock/nearest.go:79-87 | counts the leading segments that are equal or a parameter of the pattern, up to the first that is neither |
| Nearest.ScoredLeIsTotalOrder | internal/mock/nearest.go:42-50 | the ranking leaves no ties between different routes |
| Nearest.Rank | internal/mock/nearest.go:23-60 | returns the best routes, best first, up to the limit |
| Nearest.SuggestionsAreTheBest | internal/mock/nearest.go:18-60 | the list holds routes of the project, as many as fit, best first, and none left out is nearer: by more segments in agreement, then fewer edits, then the verb asked for, then path and verb |
| Nearest.SuggestionsIgnoreOrder | internal/mock/nearest.go:23-60 | the list depends on which routes there are, not on their order |
| Text.AtMostIsDictionary | internal/mock/nearest.go:42-50 | names are compared as in a dictionary |
| TokenBucket.LevelLater | internal/ratelimit/ratelimit.go:152-153 | refilling from one instant to a later one depends only on the level at the first |
| TokenBucket.ExpiredIsFull | internal/ratelimit/ratelimit.go:28-33 | a bucket untouched for a TTL that refills the burst is full |
| TokenBucket.DefaultTtlRefills | internal/ratelimit/ratelimit.go:28-64 | the burst of every positive 64-bit rate, overflow included, refills within the default TTL |
| TokenBucket.BurstIsTwoSeconds | internal/ratelimit/ratelimit.go:53-64 | two seconds of the rate, and never less than twenty |
| RateLimit.New | internal/ratelimit/ratelimit.go:103-126 | no limiter for a rate that is not positive, otherwise the rate, its burst and the defaults |
| RateLimit.Limiter.Allow | internal/ratelimit/ratelimit.go:130-154 | the new table and the answer: room made only for a new key in a full table, then one token spent if there is one |
| RateLimit.Limiter.SweepLocked | internal/ratelimit/ratelimit.go:210-217 | keeps exactly the buckets seen within the TTL |
| RateLimit.Limiter.MakeRoom | internal/ratelimit/ratelimit.go:230-236 | sweeps, and empties the table only if that is not enough |
| RateLimit.RequestClearsExactlyWhen | internal/ratelimit/ratelimit.go:140-154 | a request clears the table iff its key is new, the table full, and as many buckets as fit were seen within the TTL; otherwise every other bucket seen within the TTL stays as it is, and none is dropped unless room had to be made |
| RateLimit.SweepDropsExactly | internal/ratelimit/ratelimit.go:210-217 | a sweep drops the buckets not seen within the TTL and changes no other |
| RateLimit.NeverClearsExactlyWhen | internal/ratelimit/ratelimit.go:219-236 | a run never clears the table iff at each of its requests the keys asked for within the TTL are no more than MaxKeys |
| RateLimit.StepLevel | internal/ratelimit/ratelimit.go:130-236 | one event takes a token from the key it serves and can otherwise only raise a level, to the full burst |
| RateLimit.TableIsBounded | internal/ratelimit/ratelimit.go:140-148 | no run leaves more than MaxKeys buckets |
| RateLimit.EvictionIsInvisible | internal/ratelimit/ratelimit.go:28-33 | without a clear, every request of every run gets the answer of the limiter that never drops a bucket |
| RateLimit.FewKeysAreCountedExactly | internal/ratelimit/ratelimit.go:28-33 | so while the keys asked for within the TTL are no more than MaxKeys, every request gets the answer of the limiter that never drops a bucket |
| RateLimit.ClearingIsLenient | internal/ratelimit/ratelimit.go:219-236 | at every point of every run a key has been served at least as often as by the limiter that never drops a bucket |
| RateLimit.AnswersMaySwap | internal/ratelimit/ratelimit.go:219-236 | for every rate below a token a nanosecond, every burst and every table size there is a run in which a cleared key is refused where the limiter that never clears would have served it |
| RateLimit.WindowBound | internal/ratelimit/ratelimit.go:130-154 | in any window of T seconds without a clear a key is served at most burst + rate * T times |
| RateLimit.LeftAloneServes | internal/ratelimit/ratelimit.go:130-154 | a key left alone for T seconds can then ask rate * T times at once, up to the burst, and is served every time |
| RateLimit.NewKeyServesTheBurst | internal/ratelimit/ratelimit.go:140-153 | a key without a bucket is served exactly the burst at once |
| RateLimit.RetryAfterOneSecond | internal/web/ratelimit.go:33-37 | a key that asks again a second after its last request is served |
| Recording.ApplyKeepsInv | internal/core/recorder.go:125-242 | every step of producers, goroutine and shutdown keeps the accounting |
| Recording.NothingUnaccounted | internal/core/recorder.go:125-218 | over every interleaving, calls = queued + batched + written + failed + dropped, what was accepted is in order the flushes, the batch and the queue, and only the last flush may exceed a batch |
| Recording.RecordDropsExactlyWhenFull | internal/core/recorder.go:125-131 | an exchange is dropped iff the queue is full, and otherwise queued last |
| Recording.DropsAreFullCalls | internal/core/recorder.go:125-131 | in every run as many are dropped as calls met a full queue |
| Recording.WritesBeginExactlyWhen | internal/core/recorder.go:156-178 | a write begins iff an exchange completes a batch, or a tick or the end of the drain meets one that is not empty; exchanges are taken oldest first |
| Recording.WriteEndCounts | internal/core/recorder.go:202-218 | the end of a write empties the batch, counted as failed iff the write was |
| Recording.ReportsExactlyWhen | internal/core/recorder.go:226-242 | drops are reported iff there are new ones and the recorder is stopping, has not reported before, or did so ten seconds ago; the report is their number |
| Recording.ShutdownLosesOnlyLatecomers | internal/core/recorder.go:158-167 | when Run has returned everything accepted before the drain ended is written or counted failed, and the reported drops add up to all before the last report |
| Recording.ShutdownLosesNothingExactlyWhen | internal/core/recorder.go:149-178 | with a writer that succeeds exactly when its context was live as it began, once Run has returned what failed is the rows whose write began after Cancel and before the final flush, and everything else accepted before the drain ended has been written; so nothing is lost if and only if between Cancel and Done no exchange filled a batch and no tick met one |
| Recording.FilledBatchIsLost | internal/core/recorder.go:170-174 | a run in which the one exchange accepted before shutdown is not written |
| Recording.Recorder.Record | internal/core/recorder.go:125-131 | queues or counts a drop, as the step does |
| Recording.Recorder.Flush | internal/core/recorder.go:202-218 | empties the batch, counting it failed if the write failed; nothing for an empty batch |
| Recording.Recorder.ReportDrops | internal/core/recorder.go:226-242 | reports only new drops, at most once an interval unless forced |
| Recording.Recorder.OnReceive | internal/core/recorder.go:170-174 | takes one exchange and flushes exactly when the batch is full |
| Recording.Recorder.OnTick | internal/core/recorder.go:176-178 | flushes a partial batch and reports |
| Recording.Recorder.DrainAll | internal/core/recorder.go:188-197 | moves the whole queue to the batch, in order |
| Recording.Recorder.OnDone | internal/core/recorder.go:158-167 | ends with queue and batch empty and every drop reported |
| Decimal.ParseFormat | internal/core/collection.go:384-385 | parsing undoes formatting on every 64-bit integer |
| Decimal.ParsesExactly | internal/core/collection.go:384-385 | what is read as an integer is digits behind at most one sign, within 64 bits, and nothing else |
| Seeding.ScalarTextOfIdJson | internal/core/collection.go:424-453 | reading back what was written into the identifier field gives the identifier |
| Seeding.NumbersStayNumbers | internal/core/collection.go:441-453 | the identifier is written as a number iff it is the usual text of a 64-bit integer |
| Seeding.ReadStated | internal/core/collection.go:307-342 | the first pass reports the first entry a seed is refused for, or the stated identifiers |
| Seeding.AcceptedExactlyWhen | internal/core/collection.go:320-342 | a seed is accepted iff every entry is an object or null, states a non-empty string or a number for identifier or none, and none that another states; otherwise the first entry that offends and its reason are reported |
| Seeding.AllocateSeedId | internal/core/collection.go:367-377 | terminates with the next number that is not taken |
| Seeding.NextSerialAfter | internal/core/collection.go:382-390 | one past the largest identifier that reads as a 64-bit integer, with wrap-around |
| Seeding.SeedDocuments | internal/core/collection.go:307-363 | refuses, panics or settles every entry as the specification functions say |
| Seeding.PanicsExactlyOnNull | internal/core/collection.go:320-353 | panics if and only if nothing refuses the seed and it holds a JSON null |
| Seeding.NullPanics | internal/core/collection.go:320-353 | the seed of one null panics |
| Seeding.DocumentsCarryTheirIds | internal/core/collection.go:344-361 | stated documents are untouched, the others gain their identifier and nothing else, and it reads back |
| Seeding.AllocatesSmallestUnstated | internal/core/collection.go:344-377 | unstated entries get, in order, the smallest positive integers not stated |
| Seeding.SettledIdsDiffer | internal/core/collection.go:300-363 | all identifiers of a settled seed differ |
| Seeding.CounterStaysSmall | internal/core/collection.go:367-377 | the search for free numbers never counts past the number of entries |
| Seeding.CounterClearsTheSeed | internal/core/collection.go:379-390 | the counter is above every integer identifier if and only if none is 2^63-1, and no higher than that takes |
| Seeding.LargestIdWrapsTheCounter | internal/core/collection.go:382-390 | a seed of one entry after which the counter is the smallest 64-bit integer |
| Collections.Collection.AllocateDocumentId | internal/core/dbgen/collections.sql.go:14-19 | claims the counter's value and moves it on under serial only, failing at the end of the range |
| Collections.Collection.CreateDocument | internal/core/document.go:325-365 | up to eight claims, each followed by an insert the unique index may refuse |
| Collections.Collection.WriteDocument | internal/core/document.go:374-425 | replaces or merges one level deep, then puts the identifier back, failing if that cannot be written as JSON |
| Collections.Collection.DeleteDocument | internal/core/document.go:429-440 | removes exactly the document with that id |
| Collections.Collection.Update | internal/core/collection.go:185-210 | changes the definition, neither documents nor counter |
| Collections.Collection.Reset | internal/core/collection.go:235-292 | replaces documents and counter by the settled seed, or changes nothing if the seed is refused, panics, or repeats an identifier |
| Collections.ResetRestoresTheSeed | internal/core/collection.go:235-292 | a reset that is done leaves exactly the seed, entry by entry, whatever there was before; one that is not changes nothing |
| Collections.ResetCounterIsOnePast | internal/core/collection.go:273-292 | it leaves the counter one past the largest integer id, or at one, and wraps only past 2^63-1 |
| Collections.SettledSeedIsRestored | internal/core/collection.go:264-292 | a settled seed is always restored under serial, and otherwise if no generated identifier repeats another or a stated one |
| Collections.FirstAttemptSucceeds | internal/core/document.go:337-358 | with the invariant a serial create succeeds at its first attempt with the counter's value |
| Collections.CreateTakesTheFirstFree | internal/core/document.go:311-365 | a create stores exactly the fields sent and its id under the first of eight ids that is free and fails if none is; the counter moves past those tried, under serial only |
| Collections.ResetEstablishesInv | internal/core/collection.go:273-292 | a reset that is done establishes the invariant if and only if no seeded id is 2^63-1 |
| Collections.ApplyKeepsInv | internal/core/document.go:316-440 | every operation keeps ids distinct and integer ids below the counter |
| Collections.ReachableStatesAreSound | internal/core/document.go:316-440 | so does every run of operations |
| Collections.SerialIdsAreNotReused | internal/core/document.go:325-365 | in every run a serial create returns an id no document has had since the last reset, deleted ones included |
| Collections.WritesKeepTheId | internal/core/document.go:367-425 | a write succeeds iff the document is there and its id can be written, carries its own id, keeps the fields sent, leaves other documents alone, and repeating it changes nothing |
| Collections.WritesStoreExactly | internal/core/document.go:367-425 | after PUT the document has the fields sent and its identifier only, after PATCH also the others it had, unchanged; it is stored where it was, nothing else changes, and a write not done changes nothing |
| Collections.DeleteRemovesExactly | internal/core/document.go:427-440 | removes the document with that id and no other, keeping their order |
| Collections.WriteFailsExactlyWhen | internal/core/document.go:402-425 | a write of a document that is there fails iff its id is not a canonical integer and holds a character that strconv.Quote does not write as JSON |
| Interleaving.ApplyKeepsSound | internal/core/document.go:337-362 | every step of interleaved creates, deletes and resets keeps the invariant |
| Interleaving.StaleDocumentsAreLateInserts | internal/core/dbgen/collections.sql.go:14-19 | in every run, documents at or above the counter never outnumber the creates that claimed before a reset and inserted after |
| Interleaving.SerialCreateGivesUpOnlyAfterLateInserts | internal/core/document.go:311-365 | an undisturbed serial create has failed at most once per late insert, each time on a different one's id, so giving up takes eight of them |
| Interleaving.InsertLeavesStaleExactlyWhen | internal/core/dbgen/collections.sql.go:104-123 | an insert leaves the counter behind iff its number has not been reached, which takes a reset since it was claimed |
| Interleaving.ResetCanLeaveTheCounterBehind | internal/core/dbgen/collections.sql.go:114-117 | a run in which that happens |
| JsonQuote.QuoteIsJsonExactlyWhenPortable | internal/core/collection.go:448-453 | the quoted identifier reads back as JSON iff every character is printable, one of five control characters, or unprintable between U+0080 and U+FFFF; otherwise it is not JSON |
| JsonQuote.BellIsNotPortable | internal/core/collection.go:448-453 | a concrete identifier that cannot be written back |
| Listing.ListDocuments | internal/core/document.go:167-211 | the rows of one page and the total, counted separately for a page without rows |
| Listing.ListingIsDetermined | internal/core/document.go:155-163 | filters, sort key and seq determine the whole listing |
| Listing.PageIsTheSlice | internal/core/document.go:165-211 | a page is the slice it should be with the right total iff its offset fits 64 bits or overflows past the end |
| Listing.OverflowedPageIsTheFirst | internal/core/document.go:167 | a page number that answers with the first page |
| Listing.PagesAreTheListing | internal/core/document.go:151-211 | the answers to pages 1 to ceil(Total/Limit) are the slices they should be, each with the same total, and together every document that has for each filter one of its values, as a string or as what it reads as, once, by the sort field in the direction asked for with absent values last and ties by seq |
| Cursors.CursorRoundTrip | internal/core/exchange.go:273-301 | a cursor survives its text iff its time is not before 1970 or it is empty |
| RequestLog.SelectInOrder | internal/core/dbgen/exchanges.sql.go:54-61 | a keyset query returns rows beyond the cursor in strict order |
| RequestLog.SelectCovers | internal/core/dbgen/exchanges.sql.go:54-61 | a row it does not return comes after all it does |
| RequestLog.HandleLogList | internal/web/api_log.go:133-147 | truncates to the limit and sets next to the last row shown iff one more was fetched |
| RequestLog.NextExactlyWhenMore | internal/web/api_log.go:133-142 | there is a next page iff the limit is below 500 and there are more rows than it |
| RequestLog.PageIsExact | internal/web/api_log.go:133-147 | what a page shows and what it leaves for the next |
| RequestLog.PagesMissNothing | internal/web/api_log.go:97-147 | whatever is inserted between requests, the pages are strictly descending and, once they end, hold every row there was at the start |
| RequestLog.PagesAreTheStart | internal/web/api_log.go:97-147 | if only newer rows arrive, the pages end and hold exactly the rows at the start |
| RequestLog.LinksFollow | internal/web/api_log.go:110-142 | following the text of next is following the position |
| RequestLog.LinksShowTheStart | internal/web/api_log.go:97-147 | reading by links from the first page shows the rows at the start, each once, by descending time and then id |
| RequestLog.Stream.OnPoll | internal/web/log.go:251-279 | sends every row fetched and moves the cursor to the last |
| RequestLog.TailDeliversInOrder | internal/web/log.go:196-279 | in every run deliveries are in strictly increasing order and only of rows beyond the tail when inserted |
| RequestLog.StartIsSound | internal/web/log.go:196-208 | a tail as it is opened, with or without a position, satisfies what every later step keeps |
| RequestLog.StartFromPosition | internal/web/log.go:196-208 | a tail opened from a position owes exactly the rows beyond it |
| RequestLog.FreshTailSendsWhatHappensNext | internal/web/log.go:201-208 | a tail opened without a position never delivers a row that was there, and owes every row newer than all recorded so far, if there were any |
| RequestLog.PollAdvances | internal/web/log.go:251-275 | a poll delivers the row or a full batch before it |
| RequestLog.TailDelivers | internal/web/log.go:196-279 | a row beyond the tail when inserted is delivered after enough polls, once insertions before it stop |
| RequestLog.EmptyStartStaysSilent | internal/web/log.go:201-208 | a tail opened without a position delivers nothing ever if the log was empty, and has a real position otherwise |
| Partitions.NameCarriesMonth | internal/core/partition.go:213-239 | a month reads back from its name iff its year takes four characters |
| Partitions.OnlyOurNames | internal/core/partition.go:217-239 | only a name of the shape exchanges_YYYY_MM is taken for a month |
| Partitions.DefaultHasNoMonth | internal/core/partition.go:217-239 | the default partition is never taken for a month |
| Partitions.CreatePartitions | internal/core/partition.go:75-94 | creates month by month until one cannot be created |
| Partitions.DropExpired | internal/core/partition.go:103-130 | drops exactly the months from which the months to keep, at least one, do not reach up to now |
| Partitions.CreationSucceedsExactlyWhen | internal/core/partition.go:75-94 | creation succeeds iff every month wanted is there or free at the outset, makes the months before the first that is not, and takes nothing away |
| Partitions.MaintenanceKeepsTheWindow | internal/core/partition.go:50-130 | the months from now to three ahead exist with abutting bounds; of what was there or is made a month v is left iff v + keep > now or v >= now; all else stays, the default included, with its bounds; a second run changes nothing |
| Partitions.BlockedMonthStopsRetention | internal/core/partition.go:56-64 | while a coming month cannot be created no month is dropped |
| Headers.Lines | internal/core/endpoint.go:397-410 | the text is one line per header, sorted by name |
| Headers.ParseHeaderLines | internal/core/endpoint.go:416-434 | reads the lines in order, later ones winning, blank ones passed over |
| Headers.LaterLinesWin | internal/core/endpoint.go:416-434 | a name has the value of the last line that says it, and only names that some line says are there |
| Headers.LinesAreCutAtTheColon | internal/core/endpoint.go:419-432 | a line is a canonical name and a value around its first colon, or as it stands a name without a value |
| Headers.SortedNamesAreDetermined | internal/core/endpoint.go:394-398 | the text of a header set is the same every time |
| Headers.HeadersRoundTrip | internal/core/endpoint.go:397-434 | accepted headers read back as they were iff their names are canonical and their values trimmed |

## Left out

- HTTP handlers, middleware, templates, sessions, CSRF, metrics and static assets: plumbing without a deep invariant.
- Passwords, tokens, redaction and client addresses: security policy.
- `mock.Router`, `HasProject`, `Routes`, `Projects`: a pointer swap and three counts.
- Log lines: a shadowed route and a drop report are return values and history here.
- Bytes that are not valid UTF-8: a string is a sequence of code points.
- Floating point in `rate.Limiter`: tokens are exact, so rounding at the edge of a token is not modelled.
- Aliasing of `*bucket` and `*Route`: buckets and routes are values in their maps, since no second reference to one is ever kept.
- JSON text: a document is a map from field to value, a number keeps its text, and duplicate keys do not arise.
- The SQL text of a listing filter, `ParseListQuery` and `jsonScalar`: the model has what the clauses mean, with containment and typing as parameters.
- Deletion of log rows by retention while pages or a tail are being followed.
- The other spellings `uuid.Parse` accepts: only the canonical form, in either case, is read.
- Forbidden header names, and limits on header count and value length: they only refuse more.
- Month bounds of partitions attached by hand: bounds are whole months.
- Interleaving.ApplyKeepsSound: a reset is a set of ids below its new counter; `Collections.ResetEstablishesInv` says when a seed gives one.
- Recording.ShutdownLosesNothingExactlyWhen: a write cut off by a cancellation that comes while it is under way is not a healthy writer's; `Recording.NothingUnaccounted` counts it as failed.
- RateLimit.Limiter.Allow: the mutex is not modelled; a call is one step.
