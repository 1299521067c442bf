/** internal/cache/redis.go and the lookups of internal/travelroutes/service.go over mutable stores. */
module RouteService {
  import opened Wrappers
  import opened Places
  import TagCache
  import SegmentSplitter
  import FanOut
  import MultiTagExtraction

  datatype Stored<T> = Stored(value: T, expires: Option<int>)

  /**
   Keys with a value and an expiry. `now` stands for the clock and `up` for a server that answers, in the
   case of Get with bytes that decode.
   */
  class RedisCache<T> {
    var store: map<string, Stored<T>>

    constructor ()
      ensures store == map[]
    {
      store := map[];
    }

    predicate Has(key: string, now: int)
      reads this
    {
      key in store && (store[key].expires.Some? ==> now < store[key].expires.value)
    }

    function Readable(key: string, now: int): (r: Option<T>)
      reads this
    {
      if Has(key, now) then Some(store[key].value) else None
    }

    method Get(key: string, now: int, up: bool) returns (r: Result<T, Error>)
      ensures r.Success? <==> up && Has(key, now)
      ensures r.Success? ==> r.value == store[key].value
    {
      if !up {
        return Failure(External("redis"));
      }
      if !Has(key, now) {
        return Failure(External("redis: nil"));
      }
      r := Success(store[key].value);
    }

    method Set(key: string, value: T, ttl: int, now: int, up: bool) returns (r: Result<(), Error>)
      modifies this
      ensures r.Success? <==> up
      ensures store == if up then old(store)[key := Stored(value, TagCache.Expiry(now, ttl))] else old(store)
      ensures up ==> forall later: int | later >= now :: Has(key, later) <==> ttl <= 0 || later < now + ttl
    {
      if !up {
        return Failure(External("redis"));
      }
      store := store[key := Stored(value, TagCache.Expiry(now, ttl))];
      r := Success(());
    }
  }

  const ALLOWED_TAGS := "allowed_tags"

  /** Which of the servers behind a lookup answer it. */
  datatype Weather = Weather(getUp: bool, dbUp: bool, setUp: bool)

  function Elements(tags: seq<string>): (s: set<string>) {
    set t | t in tags
  }

  /** What a lookup may return: the list the cache has on a hit, otherwise the table's tags. */
  ghost predicate LookedUp(held: Option<seq<string>>, tags: set<string>, w: Weather, r: Result<seq<string>, Error>) {
    if w.getUp && held.Some? then r == Success(held.value)
    else if w.dbUp then r.Success? && Elements(r.value) == tags
    else r == Failure(External("database"))
  }

  predicate NonemptyTags(tags: FanOut.Tags) {
    tags.Some? && tags.value != []
  }

  predicate HasTags(allTags: seq<FanOut.Tags>) {
    exists i :: 0 <= i < |allTags| && NonemptyTags(allTags[i])
  }

  /** ExtractTags for the n-th segment: its text and the allowed tags. */
  type TagExtractor = (nat, string, seq<string>) -> FanOut.Answer

  /** The error that a list of failures is reported as. */
  type ErrorText = seq<(nat, Error)> -> Error

  function Answers(extractTags: TagExtractor, segments: seq<string>, allowed: seq<string>): (r: seq<FanOut.Answer>) {
    seq(|segments|, i requires 0 <= i < |segments| => extractTags(i, segments[i], allowed))
  }

  /** What the analysis makes of the state in which the extraction returns. */
  function Verdict(say: ErrorText, s: FanOut.State): (r: Result<seq<FanOut.Tags>, Error>) {
    if s.found != [] then Failure(say(s.found))
    else if HasTags(s.results) then Success(s.results)
    else Failure(ExtractionFailed)
  }

  /** Some run of the extraction makes the analysis return r. */
  ghost predicate MayReturn(job: FanOut.Job, say: ErrorText, r: Result<seq<FanOut.Tags>, Error>) {
    exists s :: FanOut.Reachable(job, s) && s.pc.Returned? && r == Verdict(say, s)
  }

  ghost predicate AreSegments(tables: SegmentSplitter.Tables, userInput: string, segments: seq<string>) {
    var al := SegmentSplitter.SegmentSplitPattern(tables);
    exists cuts, pieces :: SegmentSplitter.AreSegmentsOf(al, userInput, cuts, pieces, segments)
  }

  /** Calls that failed, with their errors, in the order of the segments. */
  ghost predicate IsReport(
    extractTags: TagExtractor, segments: seq<string>, tags: seq<string>, reported: seq<(nat, Error)>)
  {
    && reported != []
    && (forall i, j | 0 <= i < j < |reported| :: reported[i].0 < reported[j].0)
    && forall k | 0 <= k < |reported| ::
         var (i, e) := reported[k];
         i < |segments| && extractTags(i, segments[i], tags) == Failure(e)
  }

  /**
   What the extractor was asked and what became of its answers. Segment i goes to call i together with
   the allowed tags. On a success slot i holds what that call found, or nothing if it failed; on a
   failure either errors of calls are reported in order, or every call that did not fail found nothing.
   */
  ghost predicate IsExtracted(
    extractTags: TagExtractor,
    segments: seq<string>,
    tags: seq<string>,
    say: ErrorText,
    r: Result<seq<FanOut.Tags>, Error>)
  {
    match r
    case Success(slots) =>
      && |slots| == |segments|
      && (forall i | 0 <= i < |segments| ::
            slots[i] == match extractTags(i, segments[i], tags) case Success(found) => found case Failure(_) => None)
      && exists i :: 0 <= i < |slots| && slots[i].Some? && slots[i].value != []
    case Failure(e) =>
      || (exists reported :: IsReport(extractTags, segments, tags, reported) && e == say(reported))
      || (e == ExtractionFailed && forall i | 0 <= i < |segments| ::
            match extractTags(i, segments[i], tags)
            case Success(found) => found.None? || found.value == []
            case Failure(_) => true)
  }

  lemma {:induction false} ReturnIsExtracted(
    extractTags: TagExtractor, segments: seq<string>, tags: seq<string>, say: ErrorText, s: FanOut.State)
    requires var job := FanOut.Job(Answers(extractTags, segments, tags), FanOut.ScanThenWait);
             FanOut.Reachable(job, s) && s.pc.Returned?
    ensures IsExtracted(extractTags, segments, tags, say, Verdict(say, s))
  {
    var job := FanOut.Job(Answers(extractTags, segments, tags), FanOut.ScanThenWait);
    FanOut.ScanFirstGuarantee(job, s);
    if s.found != [] {
      assert IsReport(extractTags, segments, tags, s.found);
    } else {
      forall i | 0 <= i < |segments|
        ensures s.results[i] == FanOut.ResultSlot(extractTags(i, segments[i], tags))
      {
      }
      if HasTags(s.results) {
        var i :| 0 <= i < |s.results| && NonemptyTags(s.results[i]);
        assert s.results[i].Some? && s.results[i].value != [];
      } else {
        assert forall i | 0 <= i < |segments| :: !NonemptyTags(s.results[i]);
      }
    }
  }

  /** An analysis of the input with these allowed tags may return r. */
  ghost predicate IsAnalysis(
    tables: SegmentSplitter.Tables,
    userInput: string,
    extractTags: TagExtractor,
    say: ErrorText,
    allowed: Result<seq<string>, Error>,
    r: Result<seq<FanOut.Tags>, Error>)
  {
    match allowed
    case Failure(e) => r == Failure(e)
    case Success(tags) =>
      exists segments ::
        && AreSegments(tables, userInput, segments)
        && MayReturn(FanOut.Job(Answers(extractTags, segments, tags), FanOut.ScanThenWait), say, r)
        && IsExtracted(extractTags, segments, tags, say, r)
  }

  class Service {
    const repo: PlaceRepository
    const cache: RedisCache<seq<string>>
    const tagsTTL: int

    constructor (repo: PlaceRepository, cache: RedisCache<seq<string>>, tagsTTL: int)
      ensures this.repo == repo && this.cache == cache && this.tagsTTL == tagsTTL
    {
      this.repo, this.cache, this.tagsTTL := repo, cache, tagsTTL;
    }

    /** The state machine's view of the two stores while no lookup is under way. */
    ghost function View(now: int): (s: TagCache.State)
      reads repo, cache
    {
      TagCache.State(
        now,
        repo.rows,
        if ALLOWED_TAGS in cache.store
        then Some(TagCache.Entry(Elements(cache.store[ALLOWED_TAGS].value), cache.store[ALLOWED_TAGS].expires))
        else None,
        map[])
    }

    /** The lookup as steps of the state machine: a miss is a Read, then a Write or a Drop. */
    ghost function AfterLookup(s: TagCache.State, w: Weather): (s': TagCache.State)
      requires s.pending == map[]
    {
      if (w.getUp && TagCache.Hit(s).Some?) || !w.dbUp then s
      else TagCache.Apply(tagsTTL, TagCache.Apply(tagsTTL, s, TagCache.Read(0)),
                          if w.setUp then TagCache.Write(0) else TagCache.Drop(0))
    }

    method GetAllowedTags(now: int, w: Weather) returns (r: Result<seq<string>, Error>)
      modifies cache
      ensures LookedUp(old(cache.Readable(ALLOWED_TAGS, now)), AllTags(repo.rows), w, r)
      ensures View(now) == AfterLookup(old(View(now)), w)
      ensures r.Success? && w.getUp && TagCache.Hit(old(View(now))).Some? ==>
                Elements(r.value) == TagCache.Hit(old(View(now))).value
      ensures r.Success? && w.setUp && !(w.getUp && old(cache.Has(ALLOWED_TAGS, now))) ==>
                forall later: int | later >= now && (tagsTTL <= 0 || later < now + tagsTTL) ::
                  cache.Readable("allowed_tags", later) == Some(r.value)
    {
      var cached := cache.Get(ALLOWED_TAGS, now, w.getUp);
      if cached.Success? {
        return Success(cached.value);
      }
      var read := repo.GetAllTags(if w.dbUp then None else Some(External("database")));
      if read.Failure? {
        return read;
      }
      var tags := read.value;
      ghost var pending: map<nat, TagCache.Pending> := map[0 := TagCache.Pending(AllTags(repo.rows), now)];
      assert pending - {0} == map[];
      var written := cache.Set(ALLOWED_TAGS, tags, tagsTTL, now, w.setUp);
      r := Success(tags);
    }

    /** Is there a segment with a tag? */
    method AnyTags(allTags: seq<FanOut.Tags>) returns (hasTags: bool)
      ensures hasTags == HasTags(allTags)
    {
      hasTags := false;
      for i := 0 to |allTags|
        invariant !hasTags
        invariant forall j | 0 <= j < i :: !NonemptyTags(allTags[j])
      {
        if NonemptyTags(allTags[i]) {
          hasTags := true;
          break;
        }
      }
    }

    /** One lookup, one splitting, one fan-out over the segments, under whatever scheduler. */
    method AnalyzeRequest(
      now: int,
      w: Weather,
      tables: SegmentSplitter.Tables,
      userInput: string,
      extractTags: TagExtractor,
      say: ErrorText)
      returns (r: Result<seq<FanOut.Tags>, Error>)
      requires SegmentSplitter.GoodTables(SegmentSplitter.LETTERS, tables)
      modifies cache
      ensures exists allowed ::
                && LookedUp(old(cache.Readable(ALLOWED_TAGS, now)), AllTags(repo.rows), w, allowed)
                && IsAnalysis(tables, userInput, extractTags, say, allowed, r)
      ensures View(now) == AfterLookup(old(View(now)), w)
    {
      var allowedTags := GetAllowedTags(now, w);
      if allowedTags.Failure? {
        r := Failure(allowedTags.error);
        assert IsAnalysis(tables, userInput, extractTags, say, allowedTags, r);
        return;
      }
      var segments := SegmentSplitter.SplitSegments(tables, userInput);
      assert AreSegments(tables, userInput, segments);
      ghost var seen := View(now);
      var job := FanOut.Job(Answers(extractTags, segments, allowedTags.value), FanOut.ScanThenWait);
      var results, errMsgs := MultiTagExtraction.ExtractMultiTags(job);
      assert View(now) == seen;
      ghost var s :| FanOut.Reachable(job, s) && s.pc.Returned? && s.results == results && s.found == errMsgs;
      if errMsgs != [] {
        r := Failure(say(errMsgs));
      } else {
        var hasTags := AnyTags(results);
        r := if hasTags then Success(results) else Failure(ExtractionFailed);
      }
      assert r == Verdict(say, s);
      assert MayReturn(job, say, r);
      ReturnIsExtracted(extractTags, segments, allowedTags.value, say, s);
      assert IsAnalysis(tables, userInput, extractTags, say, allowedTags, r);
    }
  }
}
