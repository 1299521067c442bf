/** The places table and its queries (internal/repository/postgresql_place_repository.go). */
module Places {
  import opened Wrappers

  datatype Location = Location(latitude: real, longitude: real)

  datatype Place = Place(
    id: string,
    name: string,
    tags: seq<string>,
    description: string,
    location: Location,
    address: string,
    rating: real,
    deleted: bool)

  type Distance = (Location, Location) -> real

  /** What the geographic filter of a query accepts: everything, or a disc around a point. */
  datatype Range = Anywhere | Within(center: Location, radius: real)

  predicate InRange(d: Distance, at: Location, range: Range) {
    range.Within? ==> d(at, range.center) <= range.radius
  }

  /** count(*) of the place's own tags, repetitions included, that are among the wanted ones. */
  function MatchCount(own: seq<string>, wanted: seq<string>): (n: nat) {
    |set i | 0 <= i < |own| && own[i] in wanted|
  }

  /** The WHERE clause. */
  predicate Qualifies(d: Distance, p: Place, wanted: seq<string>, range: Range) {
    && !p.deleted
    && (exists t :: t in p.tags && t in wanted)
    && InRange(d, p.location, range)
  }

  function Qualifying(d: Distance, rows: seq<Place>, wanted: seq<string>, range: Range): (out: seq<Place>) {
    if rows == [] then []
    else
      var rest := Qualifying(d, rows[1..], wanted, range);
      if Qualifies(d, rows[0], wanted, range) then [rows[0]] + rest else rest
  }

  predicate Descending(out: seq<Place>, wanted: seq<string>) {
    forall i, j | 0 <= i < j < |out| :: MatchCount(out[i].tags, wanted) >= MatchCount(out[j].tags, wanted)
  }

  /** What the database may answer: the qualifying rows, best match first, ties in any order. */
  predicate IsRankedAnswer(d: Distance, rows: seq<Place>, wanted: seq<string>, range: Range, out: seq<Place>) {
    && multiset(out) == multiset(Qualifying(d, rows, wanted, range))
    && Descending(out, wanted)
  }

  predicate UniqueIds(places: seq<Place>) {
    forall i, j | 0 <= i < j < |places| :: places[i].id != places[j].id
  }

  function Ids(places: seq<Place>): (ids: set<string>) {
    set p | p in places :: p.id
  }

  /** Later contents of a table: rows are appended, and a row may only become deleted. */
  predicate Grows(before: seq<Place>, after: seq<Place>) {
    && |before| <= |after|
    && forall i | 0 <= i < |before| :: after[i] == before[i] || after[i] == before[i].(deleted := true)
  }

  /** The distinct tags of all rows; a deleted row still counts. */
  function AllTags(rows: seq<Place>): (tags: set<string>) {
    set p, t | p in rows && t in p.tags :: t
  }

  function SoftDelete(rows: seq<Place>, id: string): (r: seq<Place>) {
    seq(|rows|, i requires 0 <= i < |rows| => if rows[i].id == id then rows[i].(deleted := true) else rows[i])
  }

  /** What one call of the repository may do to the table. */
  ghost predicate IsTableStep(before: seq<Place>, after: seq<Place>) {
    || after == before
    || (exists p: Place :: p.id !in Ids(before) && !p.deleted && after == before + [p])
    || (exists id :: after == SoftDelete(before, id))
  }

  // ----- the WHERE clause and the count agree -----

  lemma CountMatchesExists(own: seq<string>, wanted: seq<string>)
    ensures MatchCount(own, wanted) > 0 <==> exists t :: t in own && t in wanted
  {
    var hits := set i | 0 <= i < |own| && own[i] in wanted;
    if t :| t in own && t in wanted {
      var i :| 0 <= i < |own| && own[i] == t;
      assert i in hits;
    }
    if |hits| > 0 {
      var i :| i in hits;
      assert own[i] in own && own[i] in wanted;
    }
  }

  /** Every own tag that is wanted counts one, repetitions included. */
  lemma MatchCountSnoc(own: seq<string>, t: string, wanted: seq<string>)
    ensures MatchCount([], wanted) == 0
    ensures MatchCount(own + [t], wanted) == MatchCount(own, wanted) + if t in wanted then 1 else 0
  {
    var before := set i | 0 <= i < |own| && own[i] in wanted;
    var after := set i | 0 <= i < |own + [t]| && (own + [t])[i] in wanted;
    assert after == if t in wanted then before + {|own|} else before;
  }

  lemma {:induction false} QualifyingMembers(d: Distance, rows: seq<Place>, wanted: seq<string>, range: Range)
    ensures forall p :: p in Qualifying(d, rows, wanted, range) <==> p in rows && Qualifies(d, p, wanted, range)
    ensures multiset(Qualifying(d, rows, wanted, range)) <= multiset(rows)
  {
    if rows != [] {
      QualifyingMembers(d, rows[1..], wanted, range);
      assert rows == [rows[0]] + rows[1..];
    }
  }

  /** A row is in the answer exactly when it is live, in range and has a positive match count. */
  lemma AnswerMembers(d: Distance, rows: seq<Place>, wanted: seq<string>, range: Range, out: seq<Place>, p: Place)
    requires IsRankedAnswer(d, rows, wanted, range, out)
    ensures p in out <==>
            p in rows && !p.deleted && MatchCount(p.tags, wanted) > 0 &&
            (range.Within? ==> d(p.location, range.center) <= range.radius)
  {
    var kept := Qualifying(d, rows, wanted, range);
    QualifyingMembers(d, rows, wanted, range);
    CountMatchesExists(p.tags, wanted);
    assert p in out <==> p in multiset(out);
    assert p in kept <==> p in multiset(kept);
  }

  lemma {:induction false} RepeatedMember(s: seq<Place>, i: nat, j: nat)
    requires i < j < |s| && s[i] == s[j]
    ensures multiset(s)[s[i]] >= 2
  {
    assert s == s[..j] + [s[j]] + s[j + 1..];
    assert s[i] in s[..j];
  }

  lemma {:induction false} UniqueIdsAtMostOnce(s: seq<Place>, p: Place)
    requires UniqueIds(s)
    ensures multiset(s)[p] <= 1
  {
    if s != [] {
      assert s == [s[0]] + s[1..];
      UniqueIdsAtMostOnce(s[1..], p);
      if p == s[0] {
        assert p !in s[1..];
      }
    }
  }

  lemma AnswerUniqueIds(d: Distance, rows: seq<Place>, wanted: seq<string>, range: Range, out: seq<Place>)
    requires UniqueIds(rows) && IsRankedAnswer(d, rows, wanted, range, out)
    ensures UniqueIds(out)
  {
    forall i, j | 0 <= i < j < |out|
      ensures out[i].id != out[j].id
    {
      AnswerMembers(d, rows, wanted, range, out, out[i]);
      AnswerMembers(d, rows, wanted, range, out, out[j]);
      if out[i].id == out[j].id {
        assert out[i] == out[j];
        RepeatedMember(out, i, j);
        QualifyingMembers(d, rows, wanted, range);
        UniqueIdsAtMostOnce(rows, out[i]);
        assert false;
      }
    }
  }

  /** The answer spelled out: which rows, how often, in what order. */
  lemma AnswerSpelled(d: Distance, rows: seq<Place>, wanted: seq<string>, range: Range, out: seq<Place>)
    requires IsRankedAnswer(d, rows, wanted, range, out)
    ensures forall p :: p in out <==>
              && p in rows && !p.deleted && (exists t :: t in p.tags && t in wanted)
              && (range.Within? ==> d(p.location, range.center) <= range.radius)
    ensures forall i, j | 0 <= i < j < |out| :: MatchCount(out[i].tags, wanted) >= MatchCount(out[j].tags, wanted)
    ensures UniqueIds(rows) ==> UniqueIds(out)
  {
    forall p
      ensures p in out <==>
                && p in rows && !p.deleted && (exists t :: t in p.tags && t in wanted)
                && (range.Within? ==> d(p.location, range.center) <= range.radius)
    {
      AnswerMembers(d, rows, wanted, range, out, p);
      CountMatchesExists(p.tags, wanted);
    }
    if UniqueIds(rows) {
      AnswerUniqueIds(d, rows, wanted, range, out);
    }
  }

  // ----- growth of the table -----

  lemma GrowsTransitive(a: seq<Place>, b: seq<Place>, c: seq<Place>)
    requires Grows(a, b) && Grows(b, c)
    ensures Grows(a, c)
  {
    forall i | 0 <= i < |a|
      ensures c[i] == a[i] || c[i] == a[i].(deleted := true)
    {
      assert b[i] == a[i] || b[i] == a[i].(deleted := true);
    }
  }

  /** The tag vocabulary never shrinks, whatever is deleted. */
  lemma GrowsKeepsTags(before: seq<Place>, after: seq<Place>)
    requires Grows(before, after)
    ensures AllTags(before) <= AllTags(after)
  {
    forall t | t in AllTags(before)
      ensures t in AllTags(after)
    {
      var p :| p in before && t in p.tags;
      var i :| 0 <= i < |before| && before[i] == p;
      assert after[i] in after && t in after[i].tags;
    }
  }

  lemma SoftDeleteKeepsTags(rows: seq<Place>, id: string)
    ensures Grows(rows, SoftDelete(rows, id)) && AllTags(SoftDelete(rows, id)) == AllTags(rows)
  {
    var after := SoftDelete(rows, id);
    GrowsKeepsTags(rows, after);
    forall t | t in AllTags(after)
      ensures t in AllTags(rows)
    {
      var p :| p in after && t in p.tags;
      var i :| 0 <= i < |after| && after[i] == p;
      assert rows[i] in rows && t in rows[i].tags;
    }
  }

  lemma TableStepGrows(before: seq<Place>, after: seq<Place>)
    requires UniqueIds(before) && IsTableStep(before, after)
    ensures UniqueIds(after) && Grows(before, after)
  {
    assert forall p | p in before :: p.id in Ids(before);
  }

  /** Two live rows with one id, read at different times, are the same record. */
  lemma SameIdSamePlace(before: seq<Place>, after: seq<Place>, p: Place, q: Place)
    requires Grows(before, after) && UniqueIds(after)
    requires p in before && q in after && !p.deleted && !q.deleted && p.id == q.id
    ensures p == q
  {
    var i :| 0 <= i < |before| && before[i] == p;
    var j :| 0 <= j < |after| && after[j] == q;
    assert after[i].id == p.id;
  }

  // ----- the query as the database evaluates it -----

  datatype ScoredResult = ScoredResult(place: Place, matchCount: nat)

  predicate ScoredDescending(s: seq<ScoredResult>) {
    forall i, j | 0 <= i < j < |s| :: s[i].matchCount >= s[j].matchCount
  }

  /** ORDER BY match_count DESC, one row at a time. */
  function InsertScored(x: ScoredResult, s: seq<ScoredResult>): (r: seq<ScoredResult>)
    ensures forall y :: y in r <==> y == x || y in s
  {
    if s == [] || x.matchCount >= s[0].matchCount then [x] + s
    else [s[0]] + InsertScored(x, s[1..])
  }

  lemma {:induction false} InsertKeepsOrder(x: ScoredResult, s: seq<ScoredResult>)
    requires ScoredDescending(s)
    ensures ScoredDescending(InsertScored(x, s))
  {
    if s != [] && x.matchCount < s[0].matchCount {
      InsertKeepsOrder(x, s[1..]);
      var rest := InsertScored(x, s[1..]);
      forall j | 0 <= j < |rest|
        ensures s[0].matchCount >= rest[j].matchCount
      {
        assert rest[j] == x || rest[j] in s[1..];
      }
    }
  }

  function Project(s: seq<ScoredResult>): (out: seq<Place>) {
    seq(|s|, i requires 0 <= i < |s| => s[i].place)
  }

  predicate Scored(s: seq<ScoredResult>, wanted: seq<string>) {
    forall x | x in s :: x.matchCount == MatchCount(x.place.tags, wanted)
  }

  lemma {:induction false} ProjectInsert(x: ScoredResult, s: seq<ScoredResult>)
    ensures multiset(Project(InsertScored(x, s))) == multiset(Project(s)) + multiset{x.place}
  {
    var r := InsertScored(x, s);
    if s == [] || x.matchCount >= s[0].matchCount {
      assert Project(r) == [x.place] + Project(s);
    } else {
      ProjectInsert(x, s[1..]);
      assert Project(r) == [s[0].place] + Project(InsertScored(x, s[1..]));
      assert Project(s) == [s[0].place] + Project(s[1..]);
    }
  }

  function Select(d: Distance, rows: seq<Place>, wanted: seq<string>, range: Range): (res: seq<ScoredResult>) {
    if rows == [] then []
    else
      var rest := Select(d, rows[1..], wanted, range);
      if Qualifies(d, rows[0], wanted, range)
      then InsertScored(ScoredResult(rows[0], MatchCount(rows[0].tags, wanted)), rest)
      else rest
  }

  lemma {:induction false} SelectIsRanked(d: Distance, rows: seq<Place>, wanted: seq<string>, range: Range)
    ensures ScoredDescending(Select(d, rows, wanted, range)) && Scored(Select(d, rows, wanted, range), wanted)
    ensures IsRankedAnswer(d, rows, wanted, range, Project(Select(d, rows, wanted, range)))
  {
    if rows != [] {
      SelectIsRanked(d, rows[1..], wanted, range);
      var rest := Select(d, rows[1..], wanted, range);
      if Qualifies(d, rows[0], wanted, range) {
        var x := ScoredResult(rows[0], MatchCount(rows[0].tags, wanted));
        ProjectInsert(x, rest);
        InsertKeepsOrder(x, rest);
        assert multiset([rows[0]] + Qualifying(d, rows[1..], wanted, range)) ==
               multiset{rows[0]} + multiset(Qualifying(d, rows[1..], wanted, range));
      }
    }
  }

  /** SELECT DISTINCT over the tags of every row. */
  function AppendNew(tags: seq<string>, seen: seq<string>): (r: seq<string>)
    requires forall i, j | 0 <= i < j < |seen| :: seen[i] != seen[j]
    ensures forall i, j | 0 <= i < j < |r| :: r[i] != r[j]
    ensures forall t :: t in r <==> t in seen || t in tags
  {
    if tags == [] then seen
    else if tags[0] in seen then AppendNew(tags[1..], seen)
    else AppendNew(tags[1..], seen + [tags[0]])
  }

  function DistinctTags(rows: seq<Place>): (r: seq<string>)
    ensures forall i, j | 0 <= i < j < |r| :: r[i] != r[j]
    ensures forall t :: t in r <==> t in AllTags(rows)
  {
    if rows == [] then []
    else
      assert rows == [rows[0]] + rows[1..];
      AppendNew(rows[0].tags, DistinctTags(rows[1..]))
  }

  // ----- updates -----

  /** A column that is not given keeps its value. */
  datatype PlaceUpdateRequest = PlaceUpdateRequest(
    name: Option<string>,
    description: Option<string>,
    location: Option<Location>,
    address: Option<string>,
    rating: Option<real>)

  datatype UpdateOrder = TestFirst | CopyFirst

  datatype Column = Text(text: string) | Point(at: Location) | Number(value: real)

  function Given<T>(value: Option<T>, current: T): (r: T) {
    if value.Some? then value.value else current
  }

  /** The row as the request asks for it. */
  function Requested(row: Place, p: PlaceUpdateRequest): (r: Place) {
    row.(name := Given(p.name, row.name),
         description := Given(p.description, row.description),
         location := Given(p.location, row.location),
         address := Given(p.address, row.address),
         rating := Given(p.rating, row.rating))
  }

  function TextIn(updates: map<string, Column>, key: string, current: string): (r: string) {
    if key in updates && updates[key].Text? then updates[key].text else current
  }

  function PointIn(updates: map<string, Column>, key: string, current: Location): (r: Location) {
    if key in updates && updates[key].Point? then updates[key].at else current
  }

  function NumberIn(updates: map<string, Column>, key: string, current: real): (r: real) {
    if key in updates && updates[key].Number? then updates[key].value else current
  }

  /** UPDATE of the columns in the map. */
  function Assigned(row: Place, updates: map<string, Column>): (r: Place) {
    row.(name := TextIn(updates, "name", row.name),
         description := TextIn(updates, "description", row.description),
         location := PointIn(updates, "location", row.location),
         address := TextIn(updates, "address", row.address),
         rating := NumberIn(updates, "rating", row.rating))
  }

  /** The table after a successful update. */
  function Updated(order: UpdateOrder, rows: seq<Place>, id: string, p: PlaceUpdateRequest): (r: seq<Place>) {
    match order
    case TestFirst => rows
    case CopyFirst =>
      seq(|rows|, i requires 0 <= i < |rows| =>
        if rows[i].id == id && !rows[i].deleted then Requested(rows[i], p) else rows[i])
  }

  /**
   A successful update of the source leaves the row as requested exactly when every column given has
   that value already; copying first always does.
   */
  lemma UpdateAppliedIff(rows: seq<Place>, row: Place, p: PlaceUpdateRequest)
    requires UniqueIds(rows) && row in rows && !row.deleted
    ensures Requested(row, p) in Updated(CopyFirst, rows, row.id, p)
    ensures Requested(row, p) in Updated(TestFirst, rows, row.id, p) <==>
            p.name in {None, Some(row.name)} && p.description in {None, Some(row.description)} &&
            p.location in {None, Some(row.location)} && p.address in {None, Some(row.address)} &&
            p.rating in {None, Some(row.rating)}
  {
    var i :| 0 <= i < |rows| && rows[i] == row;
    assert Updated(CopyFirst, rows, row.id, p)[i] == Requested(row, p);
    if Requested(row, p) in rows {
      var j :| 0 <= j < |rows| && rows[j] == Requested(row, p);
      assert i == j;
    }
  }

  class PlaceRepository {
    var rows: seq<Place>

    predicate Valid()
      reads this
    {
      UniqueIds(rows)
    }

    predicate HasLive(id: string)
      reads this
    {
      exists p :: p in rows && p.id == id && !p.deleted
    }

    constructor ()
      ensures Valid() && rows == []
    {
      rows := [];
    }

    /** INSERT: the id is a primary key. A fault is any other database error. */
    method Create(p: Place, fault: Option<Error>) returns (r: Result<(), Error>)
      requires Valid() && !p.deleted
      modifies this
      ensures Valid() && IsTableStep(old(rows), rows)
      ensures r == if fault.Some? then Failure(fault.value)
                   else if p.id in Ids(old(rows)) then Failure(DuplicateKey) else Success(())
      ensures rows == if r.Success? then old(rows) + [p] else old(rows)
    {
      if fault.Some? {
        return Failure(fault.value);
      }
      if p.id in Ids(rows) {
        return Failure(DuplicateKey);
      }
      TableStepGrows(rows, rows + [p]);
      rows := rows + [p];
      r := Success(());
    }

    /** Soft delete: only a live row is affected, and it stays in the table. */
    method Delete(id: string, fault: Option<Error>) returns (r: Result<(), Error>)
      requires Valid()
      modifies this
      ensures Valid() && IsTableStep(old(rows), rows) && |rows| == |old(rows)|
      ensures r == if fault.Some? then Failure(fault.value)
                   else if old(HasLive(id)) then Success(()) else Failure(PlaceNotFound)
      ensures r.Success? <==> fault.None? && exists p :: p in old(rows) && p.id == id && !p.deleted
      ensures forall i | 0 <= i < |rows| ::
                rows[i] == if r.Success? && old(rows)[i].id == id then old(rows)[i].(deleted := true) else old(rows)[i]
      ensures AllTags(rows) == AllTags(old(rows))
    {
      if fault.Some? {
        return Failure(fault.value);
      }
      if !HasLive(id) {
        return Failure(PlaceNotFound);
      }
      SoftDeleteKeepsTags(rows, id);
      TableStepGrows(rows, SoftDelete(rows, id));
      rows := SoftDelete(rows, id);
      r := Success(());
    }

    method GetByID(id: string, fault: Option<Error>) returns (r: Result<Place, Error>)
      ensures fault.Some? ==> r == Failure(fault.value)
      ensures fault.None? && !HasLive(id) ==> r == Failure(PlaceNotFound)
      ensures r.Success? <==> fault.None? && exists p :: p in rows && p.id == id && !p.deleted
      ensures fault.None? && HasLive(id) ==>
                r.Success? && r.value in rows && r.value.id == id && !r.value.deleted
    {
      if fault.Some? {
        return Failure(fault.value);
      }
      for i := 0 to |rows|
        invariant forall j | 0 <= j < i :: rows[j].id != id || rows[j].deleted
      {
        if rows[i].id == id && !rows[i].deleted {
          return Success(rows[i]);
        }
      }
      r := Failure(PlaceNotFound);
    }

    method Exists(id: string, fault: Option<Error>) returns (r: Result<(), Error>)
      ensures r == if fault.Some? then Failure(fault.value)
                   else if HasLive(id) then Success(()) else Failure(PlaceNotFound)
    {
      var found := GetByID(id, fault);
      r := match found case Success(_) => Success(()) case Failure(e) => Failure(e);
    }

    /** One entry for every column given. */
    method CopyColumns(p: PlaceUpdateRequest) returns (updates: map<string, Column>)
      ensures forall row :: Assigned(row, updates) == Requested(row, p)
    {
      updates := map[];
      if p.name.Some? {
        updates := updates["name" := Text(p.name.value)];
      }
      if p.description.Some? {
        updates := updates["description" := Text(p.description.value)];
      }
      if p.location.Some? {
        updates := updates["location" := Point(p.location.value)];
      }
      if p.address.Some? {
        updates := updates["address" := Text(p.address.value)];
      }
      if p.rating.Some? {
        updates := updates["rating" := Number(p.rating.value)];
      }
    }

    /**
     The source tests its map of changed columns for emptiness before it has copied any column into it;
     CopyFirst is the other order.
     */
    method Update(order: UpdateOrder, id: string, p: PlaceUpdateRequest, fault: Option<Error>)
      returns (r: Result<(), Error>)
      requires Valid()
      modifies this
      ensures Valid()
      ensures r == if fault.Some? then Failure(fault.value)
                   else if old(HasLive(id)) then Success(()) else Failure(PlaceNotFound)
      ensures rows == if r.Success? then Updated(order, old(rows), id, p) else old(rows)
      ensures order.TestFirst? ==> rows == old(rows)
      ensures |rows| == |old(rows)| && forall i | 0 <= i < |rows| ::
                rows[i] == old(rows)[i] || (rows[i].id == id && !rows[i].deleted)
    {
      var updates: map<string, Column> := map[];
      if order.TestFirst? && updates == map[] {
        r := Exists(id, fault);
        return;
      }
      updates := CopyColumns(p);
      assert order.CopyFirst?;
      if updates == map[] {
        r := Exists(id, fault);
        assert r.Success? ==> rows == Updated(order, rows, id, p);
        return;
      }
      if fault.Some? {
        return Failure(fault.value);
      }
      if !HasLive(id) {
        return Failure(PlaceNotFound);
      }
      rows := seq(|rows|, i requires 0 <= i < |rows| reads this =>
        if rows[i].id == id && !rows[i].deleted then Assigned(rows[i], updates) else rows[i]);
      r := Success(());
    }

    method GetAllTags(fault: Option<Error>) returns (r: Result<seq<string>, Error>)
      ensures fault.Some? ==> r == Failure(fault.value)
      ensures fault.None? ==> r.Success?
      ensures r.Success? ==>
                && (forall i, j | 0 <= i < j < |r.value| :: r.value[i] != r.value[j])
                && (set t | t in r.value) == AllTags(rows)
                && (forall t :: t in r.value <==> exists p :: p in rows && t in p.tags)
    {
      if fault.Some? {
        return Failure(fault.value);
      }
      r := Success(DistinctTags(rows));
    }

    /** The rows of the ranked query, copied out without their match counts. */
    method CopyPlaces(ghost d: Distance, ghost wanted: seq<string>, ghost range: Range, res: seq<ScoredResult>)
      returns (places: seq<Place>)
      requires res == Select(d, rows, wanted, range)
      ensures IsRankedAnswer(d, rows, wanted, range, places)
    {
      var copied := [];
      for i := 0 to |res|
        invariant copied == Project(res[..i])
      {
        copied := copied + [res[i].place];
      }
      assert res[..|res|] == res;
      SelectIsRanked(d, rows, wanted, range);
      places := copied;
    }

    method FindOptimalPlaces(d: Distance, tags: seq<string>, user: Location, radius: real, fault: Option<Error>)
      returns (r: Result<seq<Place>, Error>)
      ensures fault.Some? ==> r == Failure(fault.value)
      ensures fault.None? ==> r.Success? && IsRankedAnswer(d, rows, tags, Within(user, radius), r.value)
      ensures r.Success? ==> forall p :: p in r.value <==>
                && p in rows && !p.deleted && (exists t :: t in p.tags && t in tags)
                && d(p.location, user) <= radius
      ensures r.Success? && Valid() ==> UniqueIds(r.value)
    {
      if fault.Some? {
        return Failure(fault.value);
      }
      var res := Select(d, rows, tags, Within(user, radius));
      var places := CopyPlaces(d, tags, Within(user, radius), res);
      AnswerSpelled(d, rows, tags, Within(user, radius), places);
      r := Success(places);
    }

    method GetByTags(d: Distance, tags: seq<string>, fault: Option<Error>) returns (r: Result<seq<Place>, Error>)
      ensures fault.Some? ==> r == Failure(fault.value)
      ensures fault.None? ==> r.Success? && IsRankedAnswer(d, rows, tags, Anywhere, r.value)
      ensures r.Success? ==> forall p :: p in r.value <==>
                p in rows && !p.deleted && (exists t :: t in p.tags && t in tags)
      ensures r.Success? && Valid() ==> UniqueIds(r.value)
    {
      if fault.Some? {
        return Failure(fault.value);
      }
      var res := Select(d, rows, tags, Anywhere);
      var places := CopyPlaces(d, tags, Anywhere, res);
      AnswerSpelled(d, rows, tags, Anywhere, places);
      r := Success(places);
    }
  }

  const MUSEUM: Place := Place("7", "Museum", [], "", Location(0.0, 0.0), "", 5.0, false)

  /** The museum is asked to be renamed; the call succeeds and the name stays. */
  method LostUpdate() returns (r: Result<(), Error>, row: Result<Place, Error>)
    ensures r.Success?
    ensures row == Success(MUSEUM) && row.value.name != "Gallery"
  {
    var repo := new PlaceRepository();
    var created := repo.Create(MUSEUM, None);
    assert repo.rows == [MUSEUM];
    assert MUSEUM in repo.rows;
    r := repo.Update(TestFirst, "7", PlaceUpdateRequest(Some("Gallery"), None, None, None, None), None);
    row := repo.GetByID("7", None);
    assert "Gallery"[0] != "Museum"[0];
  }
}
