/**
 Route building (internal/travelroutes/service.go, BuildRouteFromTags).

 A build is described by its picks, one per tag list already handled. `IsRun` says what makes a
 sequence of picks the one the code produces; the theorems are about every run.
 */
module RouteBuilder {
  import opened Wrappers
  import opened Places
  import opened Selections
  import Counting

  /** What a routing call yields once its body has been unmarshalled into a map. */
  datatype RouterReply =
    | Refused(error: Error)
    | Malformed(error: Error)
    | NullDocument
    | Object(fields: map<string, string>)

  /** The n-th repository query and the n-th routing call of a build. */
  type Finder = (nat, seq<string>, Location, real) -> Result<seq<Place>, Error>
  type Router = (nat, Location, Location) -> RouterReply

  /** Assigning into the nil map left by a JSON null panics. */
  datatype Outcome = Route(segments: seq<map<string, string>>) | Failed(error: Error) | Panicked

  datatype Pick = Pick(anchor: Location, candidates: seq<Place>, chosen: Place, isNew: bool)

  datatype Request = Request(allTags: seq<seq<string>>, start: Location, radius: real)

  predicate Used(stops: seq<Place>, id: string) {
    exists p :: p in stops && p.id == id
  }

  /** The places that became stops, in order. */
  function Stops(picks: seq<Pick>): (stops: seq<Place>) {
    if picks == [] then []
    else
      var last := picks[|picks| - 1];
      Stops(picks[..|picks| - 1]) + if last.isNew then [last.chosen] else []
  }

  /** Where query i is anchored. */
  function Anchor(start: Location, picks: seq<Pick>, i: nat): (at: Location)
    requires i <= |picks|
  {
    if i == 0 then start else picks[i - 1].chosen.location
  }

  /** The i-th candidate is the first one that is no stop yet. */
  ghost predicate FirstUnused(stops: seq<Place>, candidates: seq<Place>, i: nat) {
    && i < |candidates|
    && !Used(stops, candidates[i].id)
    && forall j | 0 <= j < i :: Used(stops, candidates[j].id)
  }

  ghost predicate AllUsed(stops: seq<Place>, candidates: seq<Place>) {
    forall j | 0 <= j < |candidates| :: Used(stops, candidates[j].id)
  }

  ghost predicate IsChoice(stops: seq<Place>, pick: Pick) {
    && pick.candidates != []
    && if pick.isNew
       then exists i: nat :: FirstUnused(stops, pick.candidates, i) && pick.chosen == pick.candidates[i]
       else AllUsed(stops, pick.candidates) && pick.chosen == pick.candidates[0]
  }

  ghost predicate GoodPick(find: Finder, q: Request, picks: seq<Pick>, i: nat)
    requires i < |picks| <= |q.allTags|
  {
    && picks[i].anchor == Anchor(q.start, picks, i)
    && find(i, q.allTags[i], picks[i].anchor, q.radius) == Success(picks[i].candidates)
    && IsChoice(Stops(picks[..i]), picks[i])
  }

  ghost predicate IsRun(find: Finder, q: Request, picks: seq<Pick>) {
    && |picks| <= |q.allTags|
    && forall i | 0 <= i < |picks| :: GoodPick(find, q, picks, i)
  }

  /** The query after these picks ends the build with an error. */
  ghost predicate SelectionFails(find: Finder, q: Request, picks: seq<Pick>, e: Error) {
    && |picks| < |q.allTags|
    && match find(|picks|, q.allTags[|picks|], Anchor(q.start, picks, |picks|), q.radius)
       case Failure(f) => e == f
       case Success(places) => places == [] && e == NoPlacesFound
  }

  /** The origin of leg k. */
  function Origin(start: Location, stops: seq<Place>, k: nat): (at: Location)
    requires k <= |stops|
  {
    if k == 0 then start else stops[k - 1].location
  }

  /** The reply for leg k, which runs from stop k-1 (or the start) to stop k. */
  function Leg(route: Router, start: Location, stops: seq<Place>, k: nat): (r: RouterReply)
    requires k < |stops|
  {
    route(k, Origin(start, stops, k), stops[k].location)
  }

  function Labelled(fields: map<string, string>, stop: Place): (r: map<string, string>) {
    fields["name" := stop.name]["description" := stop.description]
  }

  /** Segment k is the reply for leg k, labelled with the stop it leads to. */
  predicate IsSegment(route: Router, start: Location, stops: seq<Place>, k: nat, segment: map<string, string>)
    requires k < |stops|
  {
    var reply := Leg(route, start, stops, k);
    reply.Object? && segment == Labelled(reply.fields, stops[k])
  }

  ghost predicate IsItinerary(route: Router, start: Location, stops: seq<Place>, segments: seq<map<string, string>>) {
    && |segments| <= |stops|
    && forall k | 0 <= k < |segments| :: IsSegment(route, start, stops, k, segments[k])
  }

  function FailureOf(reply: RouterReply): (o: Outcome)
    requires !reply.Object?
  {
    if reply.NullDocument? then Panicked else Failed(reply.error)
  }

  /** All legs before the k-th are fine and the k-th is not. */
  ghost predicate RoutingFails(route: Router, start: Location, stops: seq<Place>, k: nat, o: Outcome) {
    && k < |stops|
    && (forall j | 0 <= j < k :: Leg(route, start, stops, j).Object?)
    && !Leg(route, start, stops, k).Object?
    && o == FailureOf(Leg(route, start, stops, k))
  }

  ghost predicate LegsOutcome(route: Router, start: Location, stops: seq<Place>, o: Outcome) {
    if o.Route?
    then |o.segments| == |stops| && IsItinerary(route, start, stops, o.segments)
    else exists k: nat :: RoutingFails(route, start, stops, k, o)
  }

  /** What a build may return, given the picks it made. */
  ghost predicate IsOutcome(find: Finder, route: Router, q: Request, picks: seq<Pick>, o: Outcome) {
    && IsRun(find, q, picks)
    && if |picks| < |q.allTags|
       then o.Failed? && SelectionFails(find, q, picks, o.error)
       else LegsOutcome(route, q.start, Stops(picks), o)
  }

  /** What the first loop hands over, given the picks it made. */
  ghost predicate IsSelected(find: Finder, q: Request, picks: seq<Pick>, r: Result<seq<Place>, Error>) {
    && IsRun(find, q, picks)
    && match r
       case Success(stops) => |picks| == |q.allTags| && stops == Stops(picks)
       case Failure(e) => SelectionFails(find, q, picks, e)
  }

  lemma ExtendRun(find: Finder, q: Request, picks: seq<Pick>, pick: Pick)
    requires IsRun(find, q, picks) && |picks| < |q.allTags|
    requires pick.anchor == Anchor(q.start, picks, |picks|)
    requires find(|picks|, q.allTags[|picks|], pick.anchor, q.radius) == Success(pick.candidates)
    requires IsChoice(Stops(picks), pick)
    ensures IsRun(find, q, picks + [pick])
    ensures Stops(picks + [pick]) == Stops(picks) + if pick.isNew then [pick.chosen] else []
  {
    var more := picks + [pick];
    assert more[..|picks|] == picks;
    forall i | 0 <= i < |more|
      ensures GoodPick(find, q, more, i)
    {
      if i < |picks| {
        assert GoodPick(find, q, picks, i);
        assert more[..i] == picks[..i];
      }
    }
  }

  /** The first loop: one query per tag list, anchored at the place chosen last. */
  method SelectPlaces(find: Finder, q: Request) returns (r: Result<seq<Place>, Error>)
    ensures exists picks :: IsSelected(find, q, picks, r)
  {
    var prevLoc := q.start;
    var usedPlaces: seq<Place> := [];
    ghost var picks: seq<Pick> := [];
    for n := 0 to |q.allTags|
      invariant |picks| == n && IsRun(find, q, picks)
      invariant usedPlaces == Stops(picks) && prevLoc == Anchor(q.start, picks, |picks|)
    {
      var answer := find(n, q.allTags[n], prevLoc, q.radius);
      if answer.Failure? {
        r := Failure(answer.error);
        assert IsSelected(find, q, picks, r);
        return;
      }
      var places := answer.value;
      if |places| == 0 {
        r := Failure(NoPlacesFound);
        assert IsSelected(find, q, picks, r);
        return;
      }
      var chosenPlace, found := places[0], false;
      ghost var index: nat := 0;
      for i := 0 to |places|
        invariant !found && chosenPlace == places[0]
        invariant forall j | 0 <= j < i :: Used(usedPlaces, places[j].id)
      {
        if !Used(usedPlaces, places[i].id) {
          chosenPlace, found, index := places[i], true, i;
          break;
        }
      }
      ghost var pick := Pick(prevLoc, places, chosenPlace, found);
      assert found ==> FirstUnused(Stops(picks), places, index);
      ExtendRun(find, q, picks, pick);
      if found {
        usedPlaces := usedPlaces + [chosenPlace];
      }
      prevLoc := chosenPlace.location;
      picks := picks + [pick];
    }
    r := Success(usedPlaces);
    assert IsSelected(find, q, picks, r);
  }

  /** The second loop: one routing call per stop. */
  method BuildLegs(route: Router, start: Location, usedPlaces: seq<Place>) returns (o: Outcome)
    ensures LegsOutcome(route, start, usedPlaces, o)
  {
    var fullRoute: seq<map<string, string>> := [];
    var prevLoc := start;
    for k := 0 to |usedPlaces|
      invariant |fullRoute| == k && IsItinerary(route, start, usedPlaces, fullRoute)
      invariant prevLoc == Origin(start, usedPlaces, k)
      invariant forall j | 0 <= j < k :: Leg(route, start, usedPlaces, j).Object?
    {
      var place := usedPlaces[k];
      var reply := route(k, prevLoc, place.location);
      if !reply.Object? {
        o := FailureOf(reply);
        assert RoutingFails(route, start, usedPlaces, k, o);
        return;
      }
      var routeSegment := reply.fields;
      routeSegment := routeSegment["name" := place.name];
      routeSegment := routeSegment["description" := place.description];
      assert IsSegment(route, start, usedPlaces, k, routeSegment);
      fullRoute := fullRoute + [routeSegment];
      prevLoc := place.location;
    }
    o := Route(fullRoute);
  }

  method BuildRouteFromTags(find: Finder, route: Router, q: Request) returns (o: Outcome)
    ensures exists picks :: IsOutcome(find, route, q, picks, o)
  {
    var selected := SelectPlaces(find, q);
    ghost var picks :| IsSelected(find, q, picks, selected);
    if selected.Failure? {
      o := Failed(selected.error);
    } else {
      o := BuildLegs(route, q.start, selected.value);
    }
    assert IsOutcome(find, route, q, picks, o);
  }

  // ----- the specification leaves no freedom -----

  lemma ChoiceUnique(stops: seq<Place>, a: Pick, b: Pick)
    requires IsChoice(stops, a) && IsChoice(stops, b) && a.candidates == b.candidates
    ensures a.isNew == b.isNew && a.chosen == b.chosen
  {
    if a.isNew && b.isNew {
      var i: nat :| FirstUnused(stops, a.candidates, i) && a.chosen == a.candidates[i];
      var j: nat :| FirstUnused(stops, a.candidates, j) && b.chosen == a.candidates[j];
      assert i == j;
    }
  }

  lemma RunPrefix(find: Finder, q: Request, picks: seq<Pick>, n: nat)
    requires IsRun(find, q, picks) && n <= |picks|
    ensures IsRun(find, q, picks[..n])
  {
    forall i | 0 <= i < n
      ensures GoodPick(find, q, picks[..n], i)
    {
      assert GoodPick(find, q, picks, i);
      assert picks[..n][..i] == picks[..i];
    }
  }

  lemma {:induction false} RunsAgree(find: Finder, q: Request, a: seq<Pick>, b: seq<Pick>)
    requires IsRun(find, q, a) && IsRun(find, q, b) && |a| <= |b|
    ensures a == b[..|a|]
  {
    if a != [] {
      var n := |a| - 1;
      RunPrefix(find, q, a, n);
      RunsAgree(find, q, a[..n], b);
      assert a[..n] == b[..n];
      assert GoodPick(find, q, a, n) && GoodPick(find, q, b, n);
      assert n > 0 ==> a[n - 1] == a[..n][n - 1] == b[..n][n - 1] == b[n - 1];
      ChoiceUnique(Stops(a[..n]), a[n], b[n]);
      assert a == a[..n] + [a[n]] && b[..n + 1] == b[..n] + [b[n]];
    }
  }

  lemma LongerRun(find: Finder, q: Request, picks: seq<Pick>, other: seq<Pick>)
    requires IsRun(find, q, picks) && IsRun(find, q, other) && |picks| < |other|
    ensures find(|picks|, q.allTags[|picks|], Anchor(q.start, picks, |picks|), q.radius).Success?
    ensures find(|picks|, q.allTags[|picks|], Anchor(q.start, picks, |picks|), q.radius).value != []
  {
    RunsAgree(find, q, picks, other);
    var n := |picks|;
    assert n > 0 ==> picks[n - 1] == other[..n][n - 1] == other[n - 1];
    assert GoodPick(find, q, other, n);
  }

  /** A run that stops early stops because of a failing query, so no longer run exists. */
  lemma FailureEndsRun(find: Finder, q: Request, picks: seq<Pick>, e: Error, other: seq<Pick>)
    requires IsRun(find, q, picks) && SelectionFails(find, q, picks, e) && IsRun(find, q, other)
    ensures |other| <= |picks|
  {
    if |other| > |picks| {
      LongerRun(find, q, picks, other);
    }
  }

  lemma AllLegsFine(route: Router, start: Location, stops: seq<Place>, segments: seq<map<string, string>>)
    requires IsItinerary(route, start, stops, segments) && |segments| == |stops|
    ensures forall k | 0 <= k < |stops| :: Leg(route, start, stops, k).Object?
  {
    forall k | 0 <= k < |stops|
      ensures Leg(route, start, stops, k).Object?
    {
      assert IsSegment(route, start, stops, k, segments[k]);
    }
  }

  lemma LegsUnique(route: Router, start: Location, stops: seq<Place>, o1: Outcome, o2: Outcome)
    requires LegsOutcome(route, start, stops, o1) && LegsOutcome(route, start, stops, o2)
    ensures o1 == o2
  {
    if o1.Route? { AllLegsFine(route, start, stops, o1.segments); }
    if o2.Route? { AllLegsFine(route, start, stops, o2.segments); }
    if o1.Route? && o2.Route? {
      assert forall k | 0 <= k < |stops| :: IsSegment(route, start, stops, k, o1.segments[k]);
      assert o1.segments == o2.segments;
    } else if !o1.Route? && !o2.Route? {
      var i: nat :| RoutingFails(route, start, stops, i, o1);
      var j: nat :| RoutingFails(route, start, stops, j, o2);
      assert i == j;
    }
  }

  /** Whatever the environment answers, a request has exactly one outcome. */
  lemma OutcomeUnique(find: Finder, route: Router, q: Request, p1: seq<Pick>, o1: Outcome, p2: seq<Pick>, o2: Outcome)
    requires IsOutcome(find, route, q, p1, o1) && IsOutcome(find, route, q, p2, o2)
    ensures p1 == p2 && o1 == o2
  {
    if |p1| < |q.allTags| { FailureEndsRun(find, q, p1, o1.error, p2); }
    if |p2| < |q.allTags| { FailureEndsRun(find, q, p2, o2.error, p1); }
    RunsAgree(find, q, p1, p2);
    assert p2[..|p1|] == p2;
    if |p1| == |q.allTags| {
      LegsUnique(route, q.start, Stops(p1), o1, o2);
    }
  }

  // ----- stops -----

  lemma {:induction false} StopsOfPrefix(picks: seq<Pick>, n: nat)
    requires n <= |picks|
    ensures Stops(picks[..n]) <= Stops(picks)
  {
    if n == |picks| {
      assert picks[..n] == picks;
    } else {
      StopsOfPrefix(picks[..|picks| - 1], n);
      assert picks[..|picks| - 1][..n] == picks[..n];
    }
  }

  /** A stop is the choice of some segment that added it. */
  lemma {:induction false} StopOrigin(picks: seq<Pick>, p: Place) returns (i: nat)
    requires p in Stops(picks)
    ensures i < |picks| && picks[i].isNew && picks[i].chosen == p
  {
    var n := |picks| - 1;
    if picks[n].isNew && picks[n].chosen == p {
      i := n;
    } else {
      i := StopOrigin(picks[..n], p);
    }
  }

  /** Each newly chosen place becomes a stop. */
  lemma NewIsStop(picks: seq<Pick>, i: nat)
    requires i < |picks| && picks[i].isNew
    ensures picks[i].chosen in Stops(picks)
  {
    StopsOfPrefix(picks, i + 1);
    assert picks[..i + 1][..i] == picks[..i];
    var s := Stops(picks[..i + 1]);
    assert s[|s| - 1] == picks[i].chosen;
    assert Stops(picks)[|s| - 1] == picks[i].chosen;
  }

  predicate AddsStop(pick: Pick) {
    pick.isNew
  }

  function ChosenAt(picks: seq<Pick>, idx: seq<nat>): (r: seq<Place>)
    requires forall i | i in idx :: i < |picks|
  {
    seq(|idx|, j requires 0 <= j < |idx| => assert idx[j] in idx; picks[idx[j]].chosen)
  }

  lemma {:induction false} StopsPrefix(picks: seq<Pick>, n: nat)
    requires n <= |picks|
    ensures Stops(picks[..n]) == ChosenAt(picks, Positions(picks, n, AddsStop))
  {
    if n > 0 {
      StopsPrefix(picks, n - 1);
      assert picks[..n][..n - 1] == picks[..n - 1];
    }
  }

  /** The stops are the new choices in the order of their segments. */
  lemma StopsInOrder(picks: seq<Pick>)
    ensures var idx := Positions(picks, |picks|, AddsStop);
            && IsSelection(picks, |picks|, AddsStop, idx) && |Stops(picks)| == |idx|
            && forall j | 0 <= j < |idx| :: idx[j] < |picks| && Stops(picks)[j] == picks[idx[j]].chosen
  {
    SelectionExact(picks, |picks|, AddsStop);
    StopsPrefix(picks, |picks|);
    assert picks[..|picks|] == picks;
  }

  /** The ids of the first n choices, fallbacks included. */
  function ChosenIds(picks: seq<Pick>, n: nat): (ids: set<string>)
    requires n <= |picks|
  {
    set j | 0 <= j < n :: picks[j].chosen.id
  }

  lemma IdsSnoc(stops: seq<Place>, p: Place)
    ensures Ids(stops + [p]) == Ids(stops) + {p.id}
  {
  }

  lemma FallbackId(find: Finder, q: Request, picks: seq<Pick>, i: nat)
    requires IsRun(find, q, picks) && i < |picks| && !picks[i].isNew
    ensures picks[i].chosen.id in Ids(Stops(picks[..i]))
  {
    assert GoodPick(find, q, picks, i);
    assert Used(Stops(picks[..i]), picks[i].candidates[0].id);
  }

  lemma {:induction false} ChosenIdsAreStops(find: Finder, q: Request, picks: seq<Pick>, n: nat)
    requires IsRun(find, q, picks) && n <= |picks|
    ensures Ids(Stops(picks[..n])) == ChosenIds(picks, n)
  {
    if n > 0 {
      ChosenIdsAreStops(find, q, picks, n - 1);
      var stops, last := Stops(picks[..n - 1]), picks[n - 1];
      assert picks[..n][..n - 1] == picks[..n - 1];
      assert ChosenIds(picks, n) == ChosenIds(picks, n - 1) + {last.chosen.id};
      if last.isNew {
        IdsSnoc(stops, last.chosen);
      } else {
        FallbackId(find, q, picks, n - 1);
      }
    }
  }

  /** Place k is the first whose id is not among these. */
  predicate IsFirstOutside(places: seq<Place>, ids: set<string>, k: nat) {
    k < |places| && places[k].id !in ids && forall j | 0 <= j < k :: places[j].id in ids
  }

  /**
   Query i is anchored at the start or at the place chosen last. Its first place that was not chosen
   before is taken; if there is none, its very first place.
   */
  lemma ChoiceSpelled(find: Finder, q: Request, picks: seq<Pick>, i: nat)
    requires IsRun(find, q, picks) && i < |picks|
    ensures var answer := find(i, q.allTags[i], if i == 0 then q.start else picks[i - 1].chosen.location, q.radius);
            && answer.Success? && answer.value != []
            && if picks[i].isNew
               then exists k: nat ::
                 IsFirstOutside(answer.value, ChosenIds(picks, i), k) && picks[i].chosen == answer.value[k]
               else
                 (forall p | p in answer.value :: p.id in ChosenIds(picks, i)) && picks[i].chosen == answer.value[0]
  {
    assert GoodPick(find, q, picks, i);
    ChosenIdsAreStops(find, q, picks, i);
    var stops, c := Stops(picks[..i]), picks[i].candidates;
    assert forall id :: Used(stops, id) <==> id in Ids(stops);
    if picks[i].isNew {
      var k: nat :| FirstUnused(stops, c, k) && picks[i].chosen == c[k];
      assert IsFirstOutside(c, ChosenIds(picks, i), k);
    }
  }

  /** Leg k cannot be built, and its reply says why. */
  predicate LegFails(route: Router, start: Location, stops: seq<Place>, k: nat, o: Outcome) {
    k < |stops| &&
    match route(k, if k == 0 then start else stops[k - 1].location, stops[k].location)
    case Refused(e) => o == Failed(e)
    case Malformed(e) => o == Failed(e)
    case NullDocument => o == Panicked
    case Object(_) => false
  }

  predicate FailsFirst(route: Router, start: Location, stops: seq<Place>, k: nat, o: Outcome) {
    LegFails(route, start, stops, k, o) && forall j | 0 <= j < k :: Leg(route, start, stops, j).Object?
  }

  lemma LegsFailureSpelled(route: Router, start: Location, stops: seq<Place>, o: Outcome)
    requires LegsOutcome(route, start, stops, o) && !o.Route?
    ensures exists k: nat :: FailsFirst(route, start, stops, k, o)
  {
    var k: nat :| RoutingFails(route, start, stops, k, o);
    assert FailsFirst(route, start, stops, k, o);
  }

  /** The query after these picks ends the build: it failed, or found nothing. */
  predicate QueryFails(find: Finder, q: Request, picks: seq<Pick>, o: Outcome)
    requires |picks| < |q.allTags|
  {
    var n := |picks|;
    match find(n, q.allTags[n], if n == 0 then q.start else picks[n - 1].chosen.location, q.radius)
    case Failure(e) => o == Failed(e)
    case Success(places) => places == [] && o == Failed(NoPlacesFound)
  }

  /** A build without a route ends with the error of its first failing query or, after all queries, routing call. */
  lemma FailureSpelled(find: Finder, route: Router, q: Request, picks: seq<Pick>, o: Outcome)
    requires IsOutcome(find, route, q, picks, o) && !o.Route?
    ensures |picks| < |q.allTags| ==> QueryFails(find, q, picks, o)
    ensures |picks| == |q.allTags| ==> exists k: nat :: FailsFirst(route, q.start, Stops(picks), k, o)
  {
    if |picks| == |q.allTags| {
      LegsFailureSpelled(route, q.start, Stops(picks), o);
    }
  }

  /** No place is visited twice. */
  lemma {:induction false} StopsDistinct(find: Finder, q: Request, picks: seq<Pick>)
    requires IsRun(find, q, picks)
    ensures UniqueIds(Stops(picks))
  {
    if picks != [] {
      var n := |picks| - 1;
      RunPrefix(find, q, picks, n);
      StopsDistinct(find, q, picks[..n]);
      assert GoodPick(find, q, picks, n);
    }
  }

  /** The segment is the routing answer from `origin` to the stop, with the stop's name and description. */
  predicate Leads(route: Router, k: nat, origin: Location, stop: Place, segment: map<string, string>) {
    var reply := route(k, origin, stop.location);
    && reply.Object?
    && segment.Keys == reply.fields.Keys + {"name", "description"}
    && segment["name"] == stop.name && segment["description"] == stop.description
    && forall key | key in reply.fields && key != "name" && key != "description" :: segment[key] == reply.fields[key]
  }

  /** A returned route visits distinct places, one leg each: from the start to the first, then from stop to stop. */
  lemma RouteIsChain(find: Finder, route: Router, q: Request, picks: seq<Pick>, o: Outcome)
    requires IsOutcome(find, route, q, picks, o) && o.Route?
    ensures |picks| == |q.allTags| && |o.segments| == |Stops(picks)| && UniqueIds(Stops(picks))
    ensures |o.segments| > 0 ==> Leads(route, 0, q.start, Stops(picks)[0], o.segments[0])
    ensures forall k | 0 < k < |o.segments| ::
              Leads(route, k, Stops(picks)[k - 1].location, Stops(picks)[k], o.segments[k])
  {
    StopsDistinct(find, q, picks);
    forall k | 0 <= k < |o.segments|
      ensures Leads(route, k, Origin(q.start, Stops(picks), k), Stops(picks)[k], o.segments[k])
    {
      assert IsSegment(route, q.start, Stops(picks), k, o.segments[k]);
    }
  }

  function NewSegments(picks: seq<Pick>): (s: set<nat>)
    ensures forall i: nat :: i in s <==> i < |picks| && picks[i].isNew
  {
    if picks == [] then {}
    else
      var n := |picks| - 1;
      NewSegments(picks[..n]) + if picks[n].isNew then {n} else {}
  }

  /** Stops are segments minus fallbacks. */
  lemma {:induction false} StopCount(picks: seq<Pick>)
    ensures |Stops(picks)| == |NewSegments(picks)|
    ensures |Stops(picks)| == |picks| - |Counting.Below(|picks|) - NewSegments(picks)|
  {
    var added := NewSegments(picks);
    assert Counting.Below(|picks|) == added + (Counting.Below(|picks|) - added);
    if picks != [] {
      StopCount(picks[..|picks| - 1]);
    }
  }

  lemma {:induction false} IdsSize(places: seq<Place>)
    ensures |Ids(places)| <= |places|
    ensures UniqueIds(places) ==> |Ids(places)| == |places|
  {
    if places != [] {
      var n := |places| - 1;
      IdsSize(places[..n]);
      assert places == places[..n] + [places[n]];
      assert Ids(places) == Ids(places[..n]) + {places[n].id};
      if UniqueIds(places) {
        assert places[n].id !in Ids(places[..n]);
      }
    }
  }

  // ----- greedy choice against the best assignment -----

  /** An assignment of distinct places to segments, each taken from the segment's own candidates. */
  ghost predicate IsAssignment(picks: seq<Pick>, m: map<nat, Place>) {
    && (forall i | i in m :: i < |picks| && m[i] in picks[i].candidates)
    && (forall i, j | i in m && j in m && i != j :: m[i].id != m[j].id)
  }

  /** No assignment serves more than twice as many segments as the greedy choice made stops. */
  lemma {:induction false} HalfApproximation(find: Finder, q: Request, picks: seq<Pick>, m: map<nat, Place>)
    requires IsRun(find, q, picks) && IsAssignment(picks, m)
    ensures |m| <= 2 * |Stops(picks)|
  {
    var added := m.Keys * NewSegments(picks);
    var rest := m.Keys - NewSegments(picks);
    assert m.Keys == added + rest;
    StopCount(picks);
    Counting.SubsetSize(added, NewSegments(picks));

    var f := (i: nat) => if i in m then m[i].id else "";
    Counting.ImageSize(rest, f);
    var image := set i | i in rest :: f(i);
    forall i | i in rest
      ensures f(i) in Ids(Stops(picks))
    {
      assert GoodPick(find, q, picks, i);
      assert AllUsed(Stops(picks[..i]), picks[i].candidates);
      StopsOfPrefix(picks, i);
    }
    Counting.SubsetSize(image, Ids(Stops(picks)));
    IdsSize(Stops(picks));
    assert |m| == |m.Keys|;
  }

  // ----- when the fallback fires -----

  /** A fallback needs at least as many earlier stops as it had candidates. */
  lemma FallbackNeedsStops(find: Finder, q: Request, picks: seq<Pick>, i: nat)
    requires IsRun(find, q, picks) && i < |picks| && !picks[i].isNew && UniqueIds(picks[i].candidates)
    ensures |picks[i].candidates| <= |Stops(picks[..i])| <= i
  {
    var s := Stops(picks[..i]);
    var c := picks[i].candidates;
    assert GoodPick(find, q, picks, i);
    forall id | id in Ids(c)
      ensures id in Ids(s)
    {
      var p :| p in c && p.id == id;
      var j :| 0 <= j < |c| && c[j] == p;
      assert Used(s, c[j].id);
    }
    IdsSize(c);
    IdsSize(s);
    Counting.SubsetSize(Ids(c), Ids(s));
    StopCount(picks[..i]);
  }

  /** With more than i candidates for every segment i, every segment gets its own stop. */
  lemma Pigeonhole(find: Finder, q: Request, picks: seq<Pick>)
    requires IsRun(find, q, picks)
    requires forall i | 0 <= i < |picks| :: |picks[i].candidates| > i && UniqueIds(picks[i].candidates)
    ensures forall i | 0 <= i < |picks| :: picks[i].isNew
    ensures |Stops(picks)| == |picks|
  {
    forall i | 0 <= i < |picks|
      ensures picks[i].isNew
    {
      if !picks[i].isNew {
        FallbackNeedsStops(find, q, picks, i);
      }
    }
    StopCount(picks);
    assert Counting.Below(|picks|) - NewSegments(picks) == {};
  }

  // ----- what the repository contributes -----

  /** Successive contents of the table during a build: places may be created or soft-deleted meanwhile. */
  type History = nat -> seq<Place>

  ghost predicate IsHistory(h: History) {
    && (forall i: nat :: UniqueIds(h(i)))
    && (forall i: nat, j: nat | i <= j :: Grows(h(i), h(j)))
  }

  /** Every successful query answers from the table of its moment. */
  ghost predicate AnswersFrom(find: Finder, d: Distance, h: History) {
    forall n, tags, at, r | find(n, tags, at, r).Success? ::
      IsRankedAnswer(d, h(n), tags, Within(at, r), find(n, tags, at, r).value)
  }

  ghost predicate StepAt(h: History, i: nat) {
    IsTableStep(h(i), h(i + 1))
  }

  lemma {:induction false} StepsGrow(h: History, i: nat, j: nat)
    requires UniqueIds(h(i)) && i <= j && forall n: nat :: StepAt(h, n)
    ensures UniqueIds(h(j)) && Grows(h(i), h(j))
    decreases j
  {
    if i < j {
      StepsGrow(h, i, j - 1);
      assert StepAt(h, j - 1);
      TableStepGrows(h(j - 1), h(j));
      GrowsTransitive(h(i), h(j - 1), h(j));
    }
  }

  /** A table with unique ids that only changes by calls of the repository goes through such contents. */
  lemma HistoryOfSteps(h: History)
    requires UniqueIds(h(0)) && forall i: nat :: StepAt(h, i)
    ensures IsHistory(h)
  {
    forall i: nat, j: nat | i <= j
      ensures UniqueIds(h(i)) && Grows(h(i), h(j))
    {
      StepsGrow(h, 0, i);
      StepsGrow(h, i, j);
    }
  }

  /** The repository over these contents, when the database does not fail. */
  function Repository(d: Distance, h: History): (find: Finder) {
    (n: nat, tags, at, r) => Success(Project(Select(d, h(n), tags, Within(at, r))))
  }

  lemma RepositoryAnswers(d: Distance, h: History)
    ensures AnswersFrom(Repository(d, h), d, h)
  {
    forall n: nat, tags, at, r
      ensures IsRankedAnswer(d, h(n), tags, Within(at, r), Repository(d, h)(n, tags, at, r).value)
    {
      SelectIsRanked(d, h(n), tags, Within(at, r));
    }
  }

  lemma PickFromTable(find: Finder, d: Distance, h: History, q: Request, picks: seq<Pick>, i: nat)
    requires AnswersFrom(find, d, h) && IsRun(find, q, picks) && i < |picks|
    ensures IsRankedAnswer(d, h(i), q.allTags[i], Within(picks[i].anchor, q.radius), picks[i].candidates)
    ensures picks[i].anchor == Anchor(q.start, picks, i)
    ensures picks[i].chosen in picks[i].candidates
  {
    assert GoodPick(find, q, picks, i);
    assert find(i, q.allTags[i], picks[i].anchor, q.radius).Success?;
  }

  /** Under the repository, one id offered twice in a build means one record. */
  lemma SameOffer(find: Finder, d: Distance, h: History, q: Request, picks: seq<Pick>,
                  i: nat, j: nat, p: Place, r: Place)
    requires IsHistory(h) && AnswersFrom(find, d, h) && IsRun(find, q, picks) && i <= j < |picks|
    requires p in picks[i].candidates && r in picks[j].candidates && p.id == r.id
    ensures p == r
  {
    PickFromTable(find, d, h, q, picks, i);
    PickFromTable(find, d, h, q, picks, j);
    AnswerMembers(d, h(i), q.allTags[i], Within(picks[i].anchor, q.radius), picks[i].candidates, p);
    AnswerMembers(d, h(j), q.allTags[j], Within(picks[j].anchor, q.radius), picks[j].candidates, r);
    SameIdSamePlace(h(i), h(j), p, r);
  }

  /** The place chosen for a segment is on the route, whether it was new or a fallback. */
  lemma {:induction false} ChosenIsStop(find: Finder, d: Distance, h: History, q: Request, picks: seq<Pick>, i: nat)
    requires IsHistory(h) && AnswersFrom(find, d, h) && IsRun(find, q, picks) && i < |picks|
    ensures picks[i].chosen in Stops(picks[..i + 1])
  {
    var before := picks[..i + 1];
    if picks[i].isNew {
      NewIsStop(before, i);
    } else {
      assert GoodPick(find, q, picks, i);
      var c := picks[i].candidates;
      assert Used(Stops(picks[..i]), c[0].id);
      var p :| p in Stops(picks[..i]) && p.id == c[0].id;
      var j := StopOrigin(picks[..i], p);
      PickFromTable(find, d, h, q, picks, j);
      SameOffer(find, d, h, q, picks, j, i, p, c[0]);
      StopsOfPrefix(before, i);
      assert before[..i] == picks[..i];
    }
  }

  lemma CandidatesUnique(find: Finder, d: Distance, h: History, q: Request, picks: seq<Pick>, i: nat)
    requires IsHistory(h) && AnswersFrom(find, d, h) && IsRun(find, q, picks) && i < |picks|
    ensures UniqueIds(picks[i].candidates)
  {
    PickFromTable(find, d, h, q, picks, i);
    AnswerUniqueIds(d, h(i), q.allTags[i], Within(picks[i].anchor, q.radius), picks[i].candidates);
  }

  /** In a build on the repository a fallback needs as many earlier stops as it had candidates. */
  lemma RepositoryFallback(find: Finder, d: Distance, h: History, q: Request, picks: seq<Pick>, i: nat)
    requires IsHistory(h) && AnswersFrom(find, d, h) && IsRun(find, q, picks) && i < |picks| && !picks[i].isNew
    ensures |picks[i].candidates| <= |Stops(picks[..i])| <= i
  {
    CandidatesUnique(find, d, h, q, picks, i);
    FallbackNeedsStops(find, q, picks, i);
  }

  /** In a build on the repository more than i candidates for every segment i suffice for a stop each. */
  lemma RepositoryPigeonhole(find: Finder, d: Distance, h: History, q: Request, picks: seq<Pick>)
    requires IsHistory(h) && AnswersFrom(find, d, h) && IsRun(find, q, picks)
    requires forall i | 0 <= i < |picks| :: |picks[i].candidates| > i
    ensures forall i | 0 <= i < |picks| :: picks[i].isNew
    ensures |Stops(picks)| == |picks|
  {
    forall i | 0 <= i < |picks|
      ensures UniqueIds(picks[i].candidates)
    {
      CandidatesUnique(find, d, h, q, picks, i);
    }
    Pigeonhole(find, q, picks);
  }

  predicate Serves(d: Distance, p: Place, wanted: seq<string>, anchor: Location, radius: real) {
    (exists t :: t in p.tags && t in wanted) && d(p.location, anchor) <= radius
  }

  /**
   Every tag list of a build is served by a stop that carries one of its tags and lies within the
   radius of the anchor used for it; that anchor is the start or a stop made before.
   */
  lemma {:induction false} EverySegmentServed(
    find: Finder, d: Distance, h: History, q: Request, picks: seq<Pick>, i: nat)
    requires IsHistory(h) && AnswersFrom(find, d, h) && IsRun(find, q, picks) && i < |picks|
    ensures exists p :: p in Stops(picks) && Serves(d, p, q.allTags[i], picks[i].anchor, q.radius)
    ensures picks[i].anchor == q.start || exists p :: p in Stops(picks[..i]) && p.location == picks[i].anchor
  {
    PickFromTable(find, d, h, q, picks, i);
    var p := picks[i].chosen;
    ChosenIsStop(find, d, h, q, picks, i);
    StopsOfPrefix(picks, i + 1);
    AnswerMembers(d, h(i), q.allTags[i], Within(picks[i].anchor, q.radius), picks[i].candidates, p);
    CountMatchesExists(p.tags, q.allTags[i]);
    assert p in Stops(picks) && Serves(d, p, q.allTags[i], picks[i].anchor, q.radius);
    if i > 0 {
      ChosenIsStop(find, d, h, q, picks, i - 1);
      assert picks[i - 1].chosen in Stops(picks[..i]);
    }
  }

  /** A new stop has the best match count of all live places in range not used before. */
  lemma NewStopIsBestUnused(find: Finder, d: Distance, h: History, q: Request, picks: seq<Pick>, i: nat, p: Place)
    requires AnswersFrom(find, d, h) && IsRun(find, q, picks) && i < |picks| && picks[i].isNew
    requires p in h(i) && !p.deleted && d(p.location, picks[i].anchor) <= q.radius
    requires !Used(Stops(picks[..i]), p.id)
    ensures MatchCount(p.tags, q.allTags[i]) <= MatchCount(picks[i].chosen.tags, q.allTags[i])
  {
    PickFromTable(find, d, h, q, picks, i);
    var c := picks[i].candidates;
    AnswerMembers(d, h(i), q.allTags[i], Within(picks[i].anchor, q.radius), c, p);
    assert GoodPick(find, q, picks, i);
    var k: nat :| FirstUnused(Stops(picks[..i]), c, k) && picks[i].chosen == c[k];
    if p in c {
      var j :| 0 <= j < |c| && c[j] == p;
      assert k <= j;
    }
  }

  /** A fallback goes to a place with the best match count of all live places in range. */
  lemma FallbackIsBest(find: Finder, d: Distance, h: History, q: Request, picks: seq<Pick>, i: nat, p: Place)
    requires AnswersFrom(find, d, h) && IsRun(find, q, picks) && i < |picks| && !picks[i].isNew
    requires p in h(i) && !p.deleted && d(p.location, picks[i].anchor) <= q.radius
    ensures MatchCount(p.tags, q.allTags[i]) <= MatchCount(picks[i].chosen.tags, q.allTags[i])
  {
    PickFromTable(find, d, h, q, picks, i);
    var c := picks[i].candidates;
    AnswerMembers(d, h(i), q.allTags[i], Within(picks[i].anchor, q.radius), c, p);
    assert GoodPick(find, q, picks, i);
    if p in c {
      var j :| 0 <= j < |c| && c[j] == p;
    }
  }

  /** A tag list without tags has no answer, so a request containing one never yields a route. */
  lemma EmptyTagListFails(find: Finder, d: Distance, h: History, route: Router, q: Request,
                          picks: seq<Pick>, o: Outcome, i: nat)
    requires AnswersFrom(find, d, h) && IsOutcome(find, route, q, picks, o)
    requires i < |q.allTags| && q.allTags[i] == []
    ensures |picks| <= i && o.Failed?
  {
    if |picks| > i {
      PickFromTable(find, d, h, q, picks, i);
      var p := picks[i].chosen;
      AnswerMembers(d, h(i), q.allTags[i], Within(picks[i].anchor, q.radius), picks[i].candidates, p);
      CountMatchesExists(p.tags, q.allTags[i]);
      assert false;
    }
  }

  // ----- every request has a run -----

  lemma ChoiceExists(stops: seq<Place>, at: Location, candidates: seq<Place>) returns (pick: Pick)
    requires candidates != []
    ensures pick.anchor == at && pick.candidates == candidates && IsChoice(stops, pick)
  {
    var i := 0;
    while i < |candidates| && Used(stops, candidates[i].id)
      invariant i <= |candidates| && forall j | 0 <= j < i :: Used(stops, candidates[j].id)
    {
      i := i + 1;
    }
    if i < |candidates| {
      assert FirstUnused(stops, candidates, i);
      pick := Pick(at, candidates, candidates[i], true);
    } else {
      pick := Pick(at, candidates, candidates[0], false);
    }
  }

  /** Some run handles every tag list, or ends at a query that fails or finds nothing. */
  lemma {:induction false} RunExists(find: Finder, q: Request, n: nat) returns (picks: seq<Pick>)
    requires n <= |q.allTags|
    ensures IsRun(find, q, picks) && |picks| <= n
    ensures |picks| < n ==> exists e :: SelectionFails(find, q, picks, e)
  {
    if n == 0 {
      picks := [];
    } else {
      picks := RunExists(find, q, n - 1);
      if |picks| == n - 1 {
        var at := Anchor(q.start, picks, n - 1);
        var answer := find(n - 1, q.allTags[n - 1], at, q.radius);
        if answer.Failure? {
          assert SelectionFails(find, q, picks, answer.error);
        } else if answer.value == [] {
          assert SelectionFails(find, q, picks, NoPlacesFound);
        } else {
          var pick := ChoiceExists(Stops(picks), at, answer.value);
          ExtendRun(find, q, picks, pick);
          picks := picks + [pick];
        }
      }
    }
  }

  // ----- distances -----

  predicate Symmetric(d: Distance, a: Location, b: Location) {
    d(a, b) == d(b, a)
  }

  predicate Triangle(d: Distance, a: Location, b: Location, c: Location) {
    d(a, c) <= d(a, b) + d(b, c)
  }

  ghost predicate IsMetric(d: Distance) {
    && (forall a :: d(a, a) == 0.0)
    && (forall a, b :: Symmetric(d, a, b))
    && (forall a, b, c :: Triangle(d, a, b, c))
  }

  /** n times the radius. */
  function Radii(n: nat, radius: real): (r: real) {
    if n == 0 then 0.0 else Radii(n - 1, radius) + radius
  }

  lemma {:induction false} RadiiProduct(n: nat, radius: real, x: real)
    requires x <= Radii(n, radius)
    ensures x <= n as real * radius
  {
    if n > 0 {
      RadiiProduct(n - 1, radius, x - radius);
    }
  }

  function End(start: Location, stops: seq<Place>): (at: Location) {
    Origin(start, stops, |stops|)
  }

  /** Total straight-line length of the legs. */
  function RouteLength(d: Distance, start: Location, stops: seq<Place>): (len: real) {
    if stops == [] then 0.0
    else
      var n := |stops| - 1;
      RouteLength(d, start, stops[..n]) + d(Origin(start, stops, n), stops[n].location)
  }

  lemma Hop(find: Finder, d: Distance, h: History, q: Request, picks: seq<Pick>, i: nat)
    requires AnswersFrom(find, d, h) && IsRun(find, q, picks) && i < |picks|
    ensures d(picks[i].chosen.location, Anchor(q.start, picks, i)) <= q.radius
  {
    PickFromTable(find, d, h, q, picks, i);
    AnswerMembers(d, h(i), q.allTags[i], Within(picks[i].anchor, q.radius), picks[i].candidates, picks[i].chosen);
  }

  lemma Step(d: Distance, a: Location, b: Location, c: Location)
    requires IsMetric(d)
    ensures d(a, c) <= d(a, b) + d(c, b)
  {
    assert Triangle(d, a, b, c) && Symmetric(d, b, c);
  }

  /** The anchor moves by at most one radius per segment. */
  lemma {:induction false} AnchorDrift(
    find: Finder, d: Distance, h: History, q: Request, picks: seq<Pick>, i: nat, j: nat)
    requires AnswersFrom(find, d, h) && IsMetric(d) && IsRun(find, q, picks) && i <= j <= |picks|
    ensures d(Anchor(q.start, picks, i), Anchor(q.start, picks, j)) <= Radii(j - i, q.radius)
    decreases j
  {
    if i < j {
      AnchorDrift(find, d, h, q, picks, i, j - 1);
      Hop(find, d, h, q, picks, j - 1);
      Step(d, Anchor(q.start, picks, i), Anchor(q.start, picks, j - 1), Anchor(q.start, picks, j));
    }
  }

  /** A place chosen at segment i (from 0) is within (i + 1) radii of the start. */
  lemma ChosenNearStart(find: Finder, d: Distance, h: History, q: Request, picks: seq<Pick>, i: nat)
    requires AnswersFrom(find, d, h) && IsMetric(d) && IsRun(find, q, picks) && i < |picks|
    ensures d(q.start, picks[i].chosen.location) <= (i + 1) as real * q.radius
  {
    AnchorDrift(find, d, h, q, picks, 0, i + 1);
    RadiiProduct(i + 1, q.radius, d(q.start, picks[i].chosen.location));
  }

  lemma RouteLengthSnoc(d: Distance, start: Location, stops: seq<Place>, p: Place)
    ensures RouteLength(d, start, stops + [p]) == RouteLength(d, start, stops) + d(End(start, stops), p.location)
    ensures End(start, stops + [p]) == p.location
  {
    assert (stops + [p])[..|stops|] == stops;
  }

  predicate SmallHop(d: Distance, start: Location, radius: real, picks: seq<Pick>, i: nat)
    requires i < |picks|
  {
    d(picks[i].chosen.location, Anchor(start, picks, i)) <= radius
  }

  predicate SmallHops(d: Distance, start: Location, radius: real, picks: seq<Pick>) {
    forall i | 0 <= i < |picks| :: SmallHop(d, start, radius, picks, i)
  }

  /** One hop more: the anchor moves from `prior` to p, which becomes a stop if it is new. */
  lemma HopAdds(d: Distance, start: Location, stops: seq<Place>, prior: Location, p: Place, isNew: bool)
    requires IsMetric(d)
    ensures var after := stops + if isNew then [p] else [];
            RouteLength(d, start, after) + d(End(start, after), p.location) <=
            RouteLength(d, start, stops) + d(End(start, stops), prior) + d(p.location, prior)
  {
    Step(d, End(start, stops), prior, p.location);
    if isNew {
      RouteLengthSnoc(d, start, stops, p);
      assert d(p.location, p.location) == 0.0;
    } else {
      assert stops + [] == stops;
    }
  }

  /** How far the route built so far and the way from its end to the anchor may reach. */
  lemma {:induction false} SmallHopsBound(d: Distance, start: Location, radius: real, picks: seq<Pick>)
    requires IsMetric(d) && SmallHops(d, start, radius, picks)
    ensures RouteLength(d, start, Stops(picks)) + d(End(start, Stops(picks)), Anchor(start, picks, |picks|))
            <= Radii(|picks|, radius)
  {
    if picks == [] {
      assert d(start, start) == 0.0;
    } else {
      var n := |picks| - 1;
      var before := picks[..n];
      forall i | 0 <= i < n
        ensures SmallHop(d, start, radius, before, i)
      {
        assert SmallHop(d, start, radius, picks, i);
      }
      SmallHopsBound(d, start, radius, before);
      assert SmallHop(d, start, radius, picks, n);
      assert Anchor(start, picks, n) == Anchor(start, before, n);
      HopAdds(d, start, Stops(before), Anchor(start, picks, n), picks[n].chosen, picks[n].isNew);
    }
  }

  lemma MetricNonNegative(d: Distance, a: Location, b: Location)
    requires IsMetric(d)
    ensures d(a, b) >= 0.0
  {
    Step(d, a, b, a);
  }

  lemma {:induction false} SmallHopsLength(d: Distance, start: Location, radius: real, picks: seq<Pick>)
    requires IsMetric(d) && SmallHops(d, start, radius, picks)
    ensures RouteLength(d, start, Stops(picks)) <= Radii(|picks|, radius)
  {
    SmallHopsBound(d, start, radius, picks);
    MetricNonNegative(d, End(start, Stops(picks)), Anchor(start, picks, |picks|));
  }

  lemma HopsAreSmall(find: Finder, d: Distance, h: History, q: Request, picks: seq<Pick>)
    requires AnswersFrom(find, d, h) && IsRun(find, q, picks)
    ensures SmallHops(d, q.start, q.radius, picks)
  {
    forall i | 0 <= i < |picks|
      ensures SmallHop(d, q.start, q.radius, picks, i)
    {
      Hop(find, d, h, q, picks, i);
    }
  }

  lemma LengthTimesRadius(d: Distance, start: Location, radius: real, picks: seq<Pick>)
    requires RouteLength(d, start, Stops(picks)) <= Radii(|picks|, radius)
    ensures RouteLength(d, start, Stops(picks)) <= |picks| as real * radius
  {
    RadiiProduct(|picks|, radius, RouteLength(d, start, Stops(picks)));
  }

  lemma SmallHopsProduct(d: Distance, start: Location, radius: real, picks: seq<Pick>)
    requires IsMetric(d) && SmallHops(d, start, radius, picks)
    ensures RouteLength(d, start, Stops(picks)) <= |picks| as real * radius
  {
    SmallHopsLength(d, start, radius, picks);
    LengthTimesRadius(d, start, radius, picks);
  }

  /** The legs together are no longer than one radius per segment, fallbacks included. */
  lemma {:induction false} RouteLengthBound(find: Finder, d: Distance, h: History, q: Request, picks: seq<Pick>)
    requires AnswersFrom(find, d, h) && IsMetric(d) && IsRun(find, q, picks)
    ensures RouteLength(d, q.start, Stops(picks)) <= |picks| as real * q.radius
  {
    var start, radius := q.start, q.radius;
    assert SmallHops(d, start, radius, picks) by {
      HopsAreSmall(find, d, h, q, picks);
    }
    SmallHopsProduct(d, start, radius, picks);
  }

  /** Leg k is as long as the segments between the choices of its two ends allow. */
  lemma LegBound(find: Finder, d: Distance, h: History, q: Request, picks: seq<Pick>, i: nat, j: nat)
    requires AnswersFrom(find, d, h) && IsMetric(d) && IsRun(find, q, picks) && i < j < |picks|
    ensures d(picks[i].chosen.location, picks[j].chosen.location) <= (j - i) as real * q.radius
  {
    AnchorDrift(find, d, h, q, picks, i + 1, j + 1);
    RadiiProduct(j - i, q.radius, d(picks[i].chosen.location, picks[j].chosen.location));
  }

  lemma {:induction false} StopsWithoutFallback(picks: seq<Pick>)
    requires forall i | 0 <= i < |picks| :: picks[i].isNew
    ensures |Stops(picks)| == |picks|
    ensures forall i | 0 <= i < |picks| :: Stops(picks)[i] == picks[i].chosen
  {
    if picks != [] {
      StopsWithoutFallback(picks[..|picks| - 1]);
    }
  }

  /** Without a fallback no single leg is longer than the radius. */
  lemma LegWithinRadius(find: Finder, d: Distance, h: History, q: Request, picks: seq<Pick>, k: nat)
    requires AnswersFrom(find, d, h) && IsMetric(d) && IsRun(find, q, picks)
    requires (forall i | 0 <= i < |picks| :: picks[i].isNew) && k < |Stops(picks)|
    ensures d(Origin(q.start, Stops(picks), k), Stops(picks)[k].location) <= q.radius
  {
    StopsWithoutFallback(picks);
    Hop(find, d, h, q, picks, k);
    assert Symmetric(d, picks[k].chosen.location, Anchor(q.start, picks, k));
  }
}
