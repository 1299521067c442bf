# Verification of routePlanner

A Dafny 4.11 model of the parts of routePlanner that decide something: which places become stops,
how segment analyses run in parallel, where a request is cut into segments, how old cached tags can
be, how locations cross the database boundary, and what the tag editor sends back. Run
`dafny verify dfyconfig.toml`.

## What is modelled

| file | part of the system |
|---|---|
| Places.dfy | the places table, the ranked queries over it, soft deletion, the tag vocabulary |
| RouteBuilder.dfy | `BuildRouteFromTags`: greedy choice with a moving anchor, fallback, legs |
| FanOut.dfy | `ExtractMultiTags` as a transition system: one main, n workers, ten slots, a wait group |
| MultiTagExtraction.dfy | the same program on mutable arrays and counters, under an arbitrary scheduler |
| SegmentSplitter.dfy | the connector pattern as a relation, the matcher, `splitSegments` |
| TagCache.dfy | the allowed-tags cache as a clocked state machine with interleaved lookups |
| RouteService.dfy | `RedisCache`, `GetAllowedTags` and `AnalyzeRequest` over mutable stores |
| Analysis.dfy | what an analysis makes of failed segments, and what the editor then shows |
| LocationCodec.dfy | `Location.Scan` on bytes and hexadecimal text, `Location.Value` with six decimals |
| TagEditor.dfy | the editor's groups under removal and drag and drop |
| GreedyBound.dfy | tables and requests on which the greedy choice is half as good as the best one |
| Wrappers.dfy, Counting.dfy, Selections.dfy | shared result types, cardinalities, positions that pass a test |

The repository, the routing service and the tag extractor are function parameters. The repository and
routing parameters also take the number of the call, so that repeated calls may answer differently. Contracts of
loops are stated against relations (`IsOutcome`, `IsCutting`, `IsRankedAnswer`) that are shown to leave
one result, or exactly the freedom the database has, and the results are about those relations.
A lemma whose name ends in `Spelled` says what an operation does without the functions that define it.

Three facts about the code that the proofs turn up:

* `ExtractMultiTags` scans the error slots before it waits. Some run hides a set of failing segments
  exactly when these together with the last segment number at most ten (`FanOut.HiddenIff`), so every
  run reports every failure only if nothing fails (`AllReportedIff`). Waiting first, the call is the
  sequential loop (`WaitFirstIsSequential`). Only the first order is the repository's. So an analysis can
  succeed although segments failed (`Analysis.SuccessIff`), and the editor then opens without them
  (`EditorShowsAnswered`).
* A match of the splitter takes the non-letter after the connector with it, so a connector that stands
  directly behind it is not seen. A segment of the answer contains a connector exactly when, in the input,
  two one-word connectors stand one code point apart and are not a connector of two words
  (`SegmentSplitter.ConnectorLeftIff`); `LeftoverExample` is such an input.
* `Update` tests its map of changed columns before it copies any column into it, so a success leaves the
  row as requested exactly when every column given has that value already
  (`Places.UpdateAppliedIff`); `LostUpdate` is a request that is lost. `CopyFirst` is the other order.

Assumptions stated as predicates: ids are unique in the table and rows are only appended or marked
deleted while a route is built (`IsHistory`); distances form a metric (`IsMetric`); the letters of the
connectors fold only among letters and apart from each other (`GoodTables`). A table that changes by
calls of the repository only has such a history (`RouteBuilder.HistoryOfSteps`), and the repository over
it is one of the finders of the results (`RouteBuilder.RepositoryAnswers`).

## Model

| member | source | states |
|---|---|---|
| RouteBuilder.BuildRouteFromTags | internal/travelroutes/service.go:161-232 | the call returns the one outcome its environment determines: the picks form a run, the first failing query or routing call decides the error, a JSON null panics, and otherwise there is a segment per stop |
| RouteBuilder.SelectPlaces | internal/travelroutes/service.go:162-197 | the stops are those of the run of picks; a failure is a repository error or an empty answer at the first query without candidates |
| RouteBuilder.BuildLegs | internal/travelroutes/service.go:199-231 | one routing call per stop in order; the first bad reply ends the build without a partial route |
| RouteBuilder.ChoiceSpelled | internal/travelroutes/service.go:162-196 | query i is anchored at the start or the place chosen last; the first answered place not chosen before is taken, and the very first one if there is none |
| RouteBuilder.FailureSpelled | internal/travelroutes/service.go:169-216 | a build without a route ends with the error of the first failing query, with "no places" at the first empty one, or with the error or panic of the first bad routing reply |
| RouteBuilder.OutcomeUnique | internal/travelroutes/service.go:161-232 | two outcomes for the same answers of the environment are equal, so the contract leaves no freedom |
| RouteBuilder.StopsDistinct | internal/travelroutes/service.go:179-190 | no id is visited twice |
| RouteBuilder.StopsInOrder | internal/travelroutes/service.go:185-190 | the stops are exactly the new choices, in the order of their segments |
| RouteBuilder.RouteIsChain | internal/travelroutes/service.go:199-231 | the first leg leaves the start, every later one the stop before it; a segment is the routing reply with only name and description set to those of its stop |
| RouteBuilder.HalfApproximation | internal/travelroutes/service.go:165-197 | no assignment of distinct candidate places to segments serves more than twice as many segments as there are stops |
| GreedyBound.HalfIsTight | internal/travelroutes/service.go:165-197 | for every k a table and a request of 2k segments on which a build on the repository makes k stops and an assignment serves all 2k segments |
| RouteBuilder.StopCount | internal/travelroutes/service.go:177-194 | stops are segments minus fallbacks |
| RouteBuilder.FallbackNeedsStops | internal/travelroutes/service.go:179-194 | a fallback had at most as many candidates as there were stops already |
| RouteBuilder.Pigeonhole | internal/travelroutes/service.go:177-194 | with more than i candidates for every segment i there is no fallback and a stop per segment |
| RouteBuilder.RepositoryFallback | internal/travelroutes/service.go:179-194 | the same in a build on the repository, with nothing assumed of the candidates |
| RouteBuilder.RepositoryPigeonhole | internal/travelroutes/service.go:177-194 | in a build on the repository more than i candidates for every segment i suffice for a stop each |
| RouteBuilder.HistoryOfSteps | internal/repository/postgresql_place_repository.go:138-192 | calls of the repository keep ids unique and only append rows or mark them deleted, over any number of calls |
| RouteBuilder.RepositoryAnswers | internal/repository/postgresql_place_repository.go:87-136 | the repository over any contents answers as the results assume of a finder |
| RouteBuilder.RunExists | internal/travelroutes/service.go:165-197 | every finder and request has a run, up to the first query that fails or finds nothing |
| RouteBuilder.ChosenIsStop | internal/travelroutes/service.go:192-196 | the place chosen for a segment is on the route even if it was a fallback |
| RouteBuilder.EverySegmentServed | internal/travelroutes/service.go:165-197 | each tag list has a stop carrying one of its tags within the radius of its anchor, which is the start or an earlier stop |
| RouteBuilder.NewStopIsBestUnused | internal/travelroutes/service.go:177-190 | a new stop has the highest match count of all live places in range that are no stop yet |
| RouteBuilder.FallbackIsBest | internal/travelroutes/service.go:192-196 | a fallback goes to a place with the highest match count of all live places in range |
| RouteBuilder.EmptyTagListFails | internal/travelroutes/service.go:167-175 | a request with an empty tag list never gets past that list |
| RouteBuilder.RouteLengthBound | internal/travelroutes/service.go:162-225 | the legs together are at most one radius per segment, although a fallback moves the anchor without a stop |
| RouteBuilder.ChosenNearStart | internal/travelroutes/service.go:165-197 | the place chosen at segment i is within i + 1 radii of the start |
| RouteBuilder.LegBound | internal/travelroutes/service.go:165-225 | the choices of two segments are at most as many radii apart as the segments |
| RouteBuilder.LegWithinRadius | internal/travelroutes/service.go:196-225 | without a fallback every single leg is at most the radius |
| Places.AnswerMembers | internal/repository/postgresql_place_repository.go:109-124 | a row is answered exactly when it is live, in range and matches at least one tag |
| Places.AnswerSpelled | internal/repository/postgresql_place_repository.go:109-124 | an answer has exactly the live rows with a wanted tag and at most the radius away, each once, the higher count first |
| Places.MatchCountSnoc | internal/repository/postgresql_place_repository.go:110-114 | each own tag that is wanted adds one to the count |
| Places.CountMatchesExists | internal/repository/postgresql_place_repository.go:110-119 | the EXISTS filter and the match count agree |
| Places.AnswerUniqueIds | internal/repository/postgresql_place_repository.go:109-124 | an answer repeats no id |
| Places.SelectIsRanked | internal/repository/postgresql_place_repository.go:109-124 | filtering and inserting by count gives a permutation of the qualifying rows in descending order |
| Places.PlaceRepository.FindOptimalPlaces | internal/repository/postgresql_place_repository.go:87-136 | a ranked answer with exactly the live places that carry a wanted tag and whose distance is at most the radius; a fault is passed on |
| Places.PlaceRepository.GetByTags | internal/repository/postgresql_place_repository.go:37-70 | the same without the range; a fault is passed on |
| Places.PlaceRepository.GetAllTags | internal/repository/postgresql_place_repository.go:72-85 | the distinct tags of all rows, deleted ones included; a fault is passed on |
| Places.PlaceRepository.Create | internal/repository/postgresql_place_repository.go:138-140 | appends the row unless its id is taken or the database fails; ids stay unique |
| Places.PlaceRepository.Delete | internal/repository/postgresql_place_repository.go:180-192 | marks the live row, or reports a fault or that there is none; no row and no tag goes away |
| Places.PlaceRepository.Update | internal/repository/postgresql_place_repository.go:142-178 | both orders of the emptiness test: as written a success changes nothing, copying first it changes the live row as requested |
| Places.PlaceRepository.GetByID | internal/repository/postgresql_place_repository.go:24-35 | the live row with that id, or why there is none |
| Places.UpdateAppliedIff | internal/repository/postgresql_place_repository.go:142-178 | as written a successful update leaves the row as requested exactly when every column given has that value already; copying first it always does |
| Places.LostUpdate | internal/repository/postgresql_place_repository.go:142-148 | a rename that succeeds, after which the place is found under its old name |
| Places.GrowsKeepsTags | internal/repository/postgresql_place_repository.go:72-85 | the tag vocabulary never shrinks |
| Places.SameIdSamePlace | internal/models/place.go:29-41 | two live rows with one id, read at different times, are the same record |
| FanOut.SlotAccounting | internal/llm/ollama_tag_extractor.go:106-116 | in every reachable state occupied slots are the workers between acquire and release (and the one being spawned), never more than ten; the wait count is added minus done |
| FanOut.OnlyOwnerWrites | internal/llm/ollama_tag_extractor.go:118-123 | a slot changes only when its own worker stores its answer |
| FanOut.SlotsStable | internal/llm/ollama_tag_extractor.go:118-123 | once stored, a slot never changes again in any continuation of the run |
| FanOut.NoDeadlock | internal/llm/ollama_tag_extractor.go:110-139 | some agent can move exactly until main has returned and all workers are done |
| FanOut.RunsAreFinite | internal/llm/ollama_tag_extractor.go:110-139 | no run on n segments has more than 7n + 2 steps |
| FanOut.FewHoldersAtScan | internal/llm/ollama_tag_extractor.go:108-127 | when the scan begins, at most ten workers have not released their slot |
| FanOut.ScanFirstGuarantee | internal/llm/ollama_tag_extractor.go:127-139 | as written: reported errors are real and in order, the hidden failures and the last segment number at most ten, and a return without error has exact results |
| FanOut.NilReturnIff | internal/llm/ollama_tag_extractor.go:107-139 | as written: a run without reported error exists exactly when the failing segments and the last one number at most ten |
| FanOut.WaitFirstIsSequential | internal/llm/ollama_tag_extractor.go:103-139 | with the wait first every interleaving gives the sequential results and errors |
| FanOut.FailuresExact | internal/llm/ollama_tag_extractor.go:127-132 | the sequential error list is increasing, sound and names every failing segment |
| FanOut.HiddenIff | internal/llm/ollama_tag_extractor.go:107-139 | as written: a set of failing segments is what some run hides exactly when it and the last segment number at most ten |
| FanOut.AllReportedIff | internal/llm/ollama_tag_extractor.go:127-139 | as written: every run reports every failure exactly when nothing fails |
| FanOut.OrderMatters | internal/llm/ollama_tag_extractor.go:127-138 | one failing segment: a run as written loses its error, no run with the wait first does |
| MultiTagExtraction.Extraction.MainStep | internal/llm/ollama_tag_extractor.go:110-139 | a statement of the main goroutine on the shared state is the transition of the system |
| MultiTagExtraction.Extraction.WorkerStep | internal/llm/ollama_tag_extractor.go:114-124 | a statement of a worker on the shared slots and counters is the transition of the system |
| MultiTagExtraction.ExtractMultiTags | internal/llm/ollama_tag_extractor.go:102-140 | under any scheduler the call returns, with slots that are nil or right, sound errors, at most ten hidden, and exact results if no error is reported |
| SegmentSplitter.PlainTables | internal/travelroutes/service.go:146 | the assumption on the tables can be met: tables that tell all code points apart meet it |
| SegmentSplitter.CaseTablesAreGood | internal/travelroutes/service.go:146 | the same for tables that fold Latin and Ukrainian capitals |
| SegmentSplitter.MatchSpelled | internal/travelroutes/service.go:146 | the pattern matches exactly where one of the nine connectors stands, up to case, between non-letters or the ends of the text |
| SegmentSplitter.CapitalsExample | internal/travelroutes/service.go:146 | with those tables "museum AND park" has a match at " AND " |
| SegmentSplitter.CaseInsensitive | internal/travelroutes/service.go:146 | texts that differ only in letter case are cut at the same places |
| SegmentSplitter.FirstIsLongest | internal/travelroutes/service.go:146 | at every place the first alternative that fits gives the longest match, and none fits only if there is no match |
| SegmentSplitter.CuttingUnique | internal/travelroutes/service.go:149 | a text has one leftmost non-overlapping cutting |
| SegmentSplitter.FindMatch | internal/travelroutes/service.go:149 | finds the first start of a match and its longest end |
| SegmentSplitter.Split | internal/travelroutes/service.go:149 | the pieces lie between the matches of the cutting |
| SegmentSplitter.NothingLost | internal/travelroutes/service.go:149 | pieces and separators in turn give the input back |
| SegmentSplitter.MatchIsNonempty | internal/travelroutes/service.go:146 | a match consumes something, so the scan ends |
| SegmentSplitter.SplitSegments | internal/travelroutes/service.go:148-159 | the segments are those of the unique cutting of the input, none is empty or has white space at an end, and one contains a connector exactly for crowded inputs |
| SegmentSplitter.SegmentsExact | internal/travelroutes/service.go:151-157 | they are exactly the pieces with something left after trimming, trimmed, in order |
| SegmentSplitter.TrimSpaceShape | internal/travelroutes/service.go:153 | trimming takes away white space at both ends and all of it |
| SegmentSplitter.SurvivorIsFirstWord | internal/travelroutes/service.go:146-149 | a whole-word connector in a piece is its first word, and the piece is not the first |
| SegmentSplitter.SurvivorIff | internal/travelroutes/service.go:146-149 | a piece has one exactly when the text right behind the consumed delimiter begins with a connector |
| SegmentSplitter.TrimmedSurvivor | internal/travelroutes/service.go:151-157 | trimming neither brings a connector to a raw piece nor takes one away |
| SegmentSplitter.ConnectorLeftIff | internal/travelroutes/service.go:146-159 | a returned segment contains a connector exactly when two one-word connectors stand one code point apart in the input and are not a connector of two words |
| SegmentSplitter.SegmentSurvivor | internal/travelroutes/service.go:146-158 | the same place holds for the trimmed segment |
| SegmentSplitter.LeftoverExample | internal/travelroutes/service.go:146-149 | "he then and he" is cut once and keeps "and he" |
| TagCache.NeverInvents | internal/travelroutes/service.go:83-101 | in every run cached and pending tags are tags the query would return now |
| TagCache.BoundedStaleness | internal/travelroutes/service.go:84-100 | with a positive lifetime every hit is the table's tag set less than lifetime plus gap ago |
| TagCache.FreshWhenQuiet | internal/travelroutes/service.go:84-100 | without creations for that long a hit is exactly the current tag set |
| TagCache.FreshWithinIff | internal/travelroutes/service.go:96 | hits are fresh within a bound exactly when the lifetime is positive and the bound is at least lifetime plus gap |
| TagCache.StepGrows | internal/repository/postgresql_place_repository.go:138-192 | every step keeps the vocabulary and only a creation can extend it |
| TagCache.StepSpelled | internal/repository/postgresql_place_repository.go:138-192 | a creation appends its row, a deletion leaves no live row with the id and the others as they were, nothing else touches the table |
| TagCache.StoredMissHits | internal/travelroutes/service.go:84-100 | what a miss stores is a hit for as long as the lifetime, and not longer |
| RouteService.RedisCache.Get | internal/cache/redis.go:19-27 | succeeds exactly when the server answers and the key has not expired, with the stored value |
| RouteService.RedisCache.Set | internal/cache/redis.go:29-35 | replaces the value; it is readable until the lifetime is over, or for ever if that is not positive |
| RouteService.Service.GetAllowedTags | internal/travelroutes/service.go:83-101 | a hit changes nothing; a miss returns the current tags, is a read step followed by a write or a dropped write of the state machine, and what it wrote is read back during the lifetime |
| RouteService.ReturnIsExtracted | internal/llm/ollama_tag_extractor.go:110-139 | in every run call i gets segment i and the allowed tags; a success has in slot i what call i found, or nil if it failed, and a reported error list has the errors of calls that failed, in order |
| RouteService.Service.AnalyzeRequest | internal/travelroutes/service.go:119-144 | one lookup, whose failure is passed on; then, for the segments of the input, the outcome of some run of the fan-out as written: its error, or the extraction error if no segment has a tag, or its results; the cache changes only by the lookup |
| Analysis.SuccessIff | internal/travelroutes/service.go:119-144 | an analysis can succeed exactly when some segment has tags and the failing segments with the last one number at most ten |
| Analysis.SuccessWaitingIff | internal/travelroutes/service.go:119-144 | with the wait first it could exactly when some segment has tags and none failed |
| Analysis.SuccessIsExact | internal/travelroutes/service.go:125-143 | a success has every segment's tags, and nil for those that failed |
| Analysis.EditorShowsAnswered | public/app.js:452-485 | after a success the editor opens with exactly the segments that did not fail and have tags, in order |
| LocationCodec.Location.Scan | internal/models/place.go:55-94 | success, error and new coordinates are those of the decoded value; otherwise the receiver is unchanged |
| LocationCodec.ScanInvertsEncoding | internal/models/place.go:60-93 | both byte orders, with or without SRID, raw or hexadecimal: both 64-bit patterns come back in their fields |
| LocationCodec.DecodeSpelled | internal/models/place.go:76-93 | the last sixteen bytes are longitude and latitude, least significant byte first exactly if the first byte is 1 |
| LocationCodec.HexDigits | internal/models/place.go:63-69 | the sixteen digits and their values, in both cases |
| LocationCodec.HexPairs | internal/models/place.go:63-69 | byte i comes from the digits 2i and 2i + 1 |
| LocationCodec.ValuesSpelled | internal/models/place.go:56-78 | NULL decodes to nothing, text as its bytes, and each rejected value to its own error |
| LocationCodec.AcceptedIff | internal/models/place.go:56-76 | which driver values are accepted, exactly |
| LocationCodec.PrintRoundTrip | internal/models/place.go:51-53 | printing and reading moves a coordinate by at most 5e-7, and doing it again changes nothing |
| LocationCodec.ValueSpelled | internal/models/place.go:51-53 | the text is "SRID=4326;POINT(", longitude, a blank, latitude and a closing parenthesis |
| LocationCodec.NumberSpelled | internal/models/place.go:51-53 | a number is its sign, digits without a needless zero, a point and six digits, together the nearest millionth, or the even one of two |
| LocationCodec.PrintedNumber | internal/models/place.go:51-53 | the printed text stands for the rounded value, for both signs, leading zeros and zero |
| TagEditor.EditorSession | public/app.js:452-570 | in every run no group is empty, headings are 1 to n, and shown plus removed tags are those of the analysis |
| TagEditor.PayloadNonempty | public/app.js:572-584 | the request has no empty tag list and is empty exactly when every tag was removed |
| TagEditor.RenderedExact | public/app.js:458-485 | the editor opens with the segments that have tags, in order |
| TagEditor.DropBack | public/app.js:541-560 | dragging a tag away from a group with more tags and back moves it within its group and nothing else |
| TagEditor.DropBackIff | public/app.js:541-560 | some later operations bring a dragged tag back exactly when its group kept another tag; a group left empty is gone for good |
| TagEditor.RemoveSpelled | public/app.js:512-524 | a removal takes the tag out of its list, or the list out of the sequence if it was the last, and leaves all else in place |
| TagEditor.DropSpelled | public/app.js:541-560 | a drop appends the tag to the target and then takes it out of its old list in the same way |
| TagEditor.DropWithinSpelled | public/app.js:541-560 | a drop within a group moves the tag to its end |
| TagEditor.RemovalsKeepOrder | public/app.js:512-524 | after any removals the lists that are left, and the tags in them, come in the order in which they were |
| TagEditor.Editor.RenderTagEditor | public/app.js:452-485 | the rendering loop builds those groups |
| TagEditor.Editor.UpdatePlaceIndices | public/app.js:562-570 | headings become 1 to n, tags stay |
| TagEditor.Editor.RemoveTag | public/app.js:512-524 | the removal step, keeping the groups tidy |
| TagEditor.Editor.HandleDrop | public/app.js:541-560 | the drop step, keeping the groups tidy |
| TagEditor.Editor.CollectSegments | public/app.js:577-584 | the collected lists are the groups' tags |

## Left out

- HTTP handlers, routing, rate limits, authentication, users, configuration, metrics and logging: plumbing around libraries.
- `ExtractTags`, `Warmup` and the routing client: network calls, kept as parameters that end with a value or an error.
- The JSON text of the finished route and of cached lists: a reply is an object, null or malformed, and the route is a list of objects.
- The owner and the time stamps of a place; validation of a request's fields.
- Geodesic distance and IEEE arithmetic: distance is a metric parameter, `Scan` works on bit patterns and `Value` on reals, so NaN, infinities and negative zero are not modelled.
- Database plans, transactions, and the order of equally good rows (any order is allowed); a place without tags is a place with an empty tag list.
- The Go memory model: reading an error slot that a worker may be writing is one atomic step, and a worker does not panic.
- Invalid UTF-8 and the Unicode tables themselves; the splitter takes letters, white space and case folding as a parameter.
- RouteService.RedisCache.Get: bytes that do not decode count as a server that does not answer; both make the lookup a miss.
- The order of the tags in a cached list: the state machine keeps sets.
- The document tree of the editor, HTML in tags, and a tag that disappears while it is dragged.
- `GetByTags` of the route service: a lookup, one extraction and one query in a row.
