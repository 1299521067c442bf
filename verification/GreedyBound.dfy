/**
 The factor two between the greedy choice of internal/travelroutes/service.go (BuildRouteFromTags) and
 the best assignment is reached on the repository, for every size: 2k places at one spot, of which the
 first k carry both tags, and 2k segments, of which the first k ask for both and the others for the
 second tag only.
 */
module GreedyBound {
  import opened Wrappers
  import opened Places
  import opened RouteBuilder
  import Counting

  const BOTH := ["food", "view"]

  function Id(i: nat): (id: string) {
    seq(i, _ => 'p')
  }

  function Spot(at: Location, k: nat, i: nat): (p: Place) {
    Place(Id(i), "", if i < k then BOTH else ["food"], "", at, "", 5.0, false)
  }

  function Spots(at: Location, k: nat): (rows: seq<Place>) {
    seq(2 * k, i requires 0 <= i => Spot(at, k, i))
  }

  function Demand(at: Location, k: nat, radius: real): (q: Request) {
    Request(seq(2 * k, i requires 0 <= i => if i < k then BOTH else ["view"]), at, radius)
  }

  function Always(rows: seq<Place>): (h: History) {
    (n: nat) => rows
  }

  function Finding(d: Distance, at: Location, k: nat): (find: Finder) {
    Repository(d, Always(Spots(at, k)))
  }

  lemma SpotsUnique(at: Location, k: nat)
    ensures UniqueIds(Spots(at, k))
    ensures forall p | p in Spots(at, k) :: p == Spot(at, k, |p.id|) && |p.id| < 2 * k
  {
    forall i, j | 0 <= i < j < 2 * k
      ensures Spots(at, k)[i].id != Spots(at, k)[j].id
    {
      assert |Spots(at, k)[i].id| == i && |Spots(at, k)[j].id| == j;
    }
  }

  lemma SpotsHistory(at: Location, k: nat)
    ensures IsHistory(Always(Spots(at, k)))
  {
    SpotsUnique(at, k);
    var h := Always(Spots(at, k));
    assert UniqueIds(h(0));
    forall i: nat
      ensures StepAt(h, i)
    {
    }
    HistoryOfSteps(h);
  }

  /** Both tags count two and match the second; one tag counts one and does not. */
  lemma SpotCounts(at: Location, k: nat, i: nat)
    ensures MatchCount(Spot(at, k, i).tags, BOTH) == if i < k then 2 else 1
    ensures MatchCount(Spot(at, k, i).tags, ["view"]) > 0 <==> i < k
  {
    var own := Spot(at, k, i).tags;
    CountMatchesExists(own, ["view"]);
    assert "food"[0] != "view"[0];
    if i < k {
      assert (set x | 0 <= x < |own| && own[x] in BOTH) == {0, 1};
      assert own[1] in ["view"];
    } else {
      assert (set x | 0 <= x < |own| && own[x] in BOTH) == {0};
    }
  }

  /** The setting of the proofs: a run of the demand on the repository. */
  ghost predicate IsTightRun(d: Distance, at: Location, k: nat, radius: real, picks: seq<Pick>) {
    d(at, at) <= radius && IsRun(Finding(d, at, k), Demand(at, k, radius), picks)
  }

  /** The first k segments are offered every place, the others the first k places. */
  lemma SpotOffered(d: Distance, at: Location, k: nat, radius: real, picks: seq<Pick>, i: nat, x: nat)
    requires IsTightRun(d, at, k, radius, picks) && i < |picks| && picks[i].anchor == at && x < 2 * k
    ensures Spot(at, k, x) in picks[i].candidates <==> i < k || x < k
  {
    var h := Always(Spots(at, k));
    RepositoryAnswers(d, h);
    PickFromTable(Finding(d, at, k), d, h, Demand(at, k, radius), picks, i);
    var wanted := if i < k then BOTH else ["view"];
    AnswerMembers(d, h(i), wanted, Within(at, radius), picks[i].candidates, Spot(at, k, x));
    SpotCounts(at, k, x);
    assert Spots(at, k)[x] == Spot(at, k, x);
  }

  lemma CandidateIsSpot(d: Distance, at: Location, k: nat, radius: real, picks: seq<Pick>, i: nat, p: Place)
    requires IsTightRun(d, at, k, radius, picks) && i < |picks| && p in picks[i].candidates
    ensures |p.id| < 2 * k && p == Spot(at, k, |p.id|)
  {
    var h, q := Always(Spots(at, k)), Demand(at, k, radius);
    RepositoryAnswers(d, h);
    PickFromTable(Finding(d, at, k), d, h, q, picks, i);
    AnswerMembers(d, h(i), q.allTags[i], Within(picks[i].anchor, radius), picks[i].candidates, p);
    SpotsUnique(at, k);
  }

  /** The ids of the first k places. */
  function FirstIds(k: nat): (ids: set<string>) {
    set i | i in Counting.Below(k) :: Id(i)
  }

  lemma FirstIdsSize(k: nat)
    ensures |FirstIds(k)| == k
    ensures forall id :: id in FirstIds(k) <==> |id| < k && id == Id(|id|)
  {
    forall i: nat, j: nat | i != j
      ensures Id(i) != Id(j)
    {
      assert |Id(i)| == i && |Id(j)| == j;
    }
    var f := Id;
    Counting.ImageSize(Counting.Below(k), f);
    assert FirstIds(k) == set i | i in Counting.Below(k) :: f(i);
    forall id | |id| < k && id == Id(|id|)
      ensures id in FirstIds(k)
    {
      assert |id| in Counting.Below(k);
    }
  }

  predicate AllAt(at: Location, picks: seq<Pick>) {
    forall i | 0 <= i < |picks| :: picks[i].chosen.location == at
  }

  /** The first k segments make a stop each, of the first k places, and the others none. */
  predicate TightPick(k: nat, picks: seq<Pick>, i: nat)
    requires i < |picks|
  {
    (picks[i].isNew <==> i < k) && (i < k ==> picks[i].chosen.id in FirstIds(k))
  }

  predicate TightPicks(k: nat, picks: seq<Pick>) {
    forall i: nat | i < |picks| :: TightPick(k, picks, i)
  }

  lemma StopsAmongFirst(k: nat, picks: seq<Pick>)
    requires TightPicks(k, picks)
    ensures Ids(Stops(picks)) <= FirstIds(k)
  {
    forall p | p in Stops(picks)
      ensures p.id in FirstIds(k)
    {
      var i := StopOrigin(picks, p);
      assert TightPick(k, picks, i);
    }
  }

  lemma AllChosenAt(d: Distance, at: Location, k: nat, radius: real, picks: seq<Pick>)
    requires IsTightRun(d, at, k, radius, picks)
    ensures AllAt(at, picks)
    ensures forall i | 0 <= i < |picks| :: picks[i].anchor == at
  {
    var find, q, h := Finding(d, at, k), Demand(at, k, radius), Always(Spots(at, k));
    RepositoryAnswers(d, h);
    forall i | 0 <= i < |picks|
      ensures picks[i].chosen.location == at && picks[i].anchor == Anchor(at, picks, i)
    {
      PickFromTable(find, d, h, q, picks, i);
      CandidateIsSpot(d, at, k, radius, picks, i, picks[i].chosen);
    }
  }

  lemma FreeSpot(k: nat, picks: seq<Pick>) returns (x: nat)
    requires |picks| < k
    ensures x < k && Id(x) !in Ids(Stops(picks))
  {
    FirstIdsSize(k);
    IdsSize(Stops(picks));
    StopCount(picks);
    if FirstIds(k) <= Ids(Stops(picks)) {
      Counting.SubsetSize(FirstIds(k), Ids(Stops(picks)));
      assert false;
    }
    var id :| id in FirstIds(k) && id !in Ids(Stops(picks));
    x := |id|;
  }

  /** As long as fewer than k places are stops, one of the first k is free, and such a one is best. */
  lemma EarlyPick(d: Distance, at: Location, k: nat, radius: real, picks: seq<Pick>, i: nat)
    requires IsTightRun(d, at, k, radius, picks) && i < |picks| && i < k && TightPicks(k, picks[..i])
    ensures TightPick(k, picks, i)
  {
    var find, q, h := Finding(d, at, k), Demand(at, k, radius), Always(Spots(at, k));
    var before := Stops(picks[..i]);
    AllChosenAt(d, at, k, radius, picks);
    var x := FreeSpot(k, picks[..i]);
    SpotOffered(d, at, k, radius, picks, i, x);
    assert GoodPick(find, q, picks, i);
    var free := Spot(at, k, x);
    assert !Used(before, free.id);
    var n :| 0 <= n < |picks[i].candidates| && picks[i].candidates[n] == free;
    assert picks[i].isNew;
    RepositoryAnswers(d, h);
    PickFromTable(find, d, h, q, picks, i);
    assert Spots(at, k)[x] == free;
    NewStopIsBestUnused(find, d, h, q, picks, i, free);
    var p := picks[i].chosen;
    CandidateIsSpot(d, at, k, radius, picks, i, p);
    SpotCounts(at, k, x);
    SpotCounts(at, k, |p.id|);
    FirstIdsSize(k);
  }

  /** k distinct stops among the first k places are all of them. */
  lemma FirstAllStops(find: Finder, q: Request, k: nat, picks: seq<Pick>)
    requires IsRun(find, q, picks) && TightPicks(k, picks) && k <= |picks|
    ensures |Stops(picks)| == k && Ids(Stops(picks)) == FirstIds(k)
  {
    StopsAmongFirst(k, picks);
    assert NewSegments(picks) == Counting.Below(k) by {
      forall i: nat | i < |picks|
        ensures i in NewSegments(picks) <==> i < k
      {
        assert TightPick(k, picks, i);
      }
    }
    StopCount(picks);
    StopsDistinct(find, q, picks);
    IdsSize(Stops(picks));
    FirstIdsSize(k);
    Counting.SameSize(Ids(Stops(picks)), FirstIds(k));
  }

  /** After k segments the first k places are all stops, and the later segments are offered no other. */
  lemma LatePick(d: Distance, at: Location, k: nat, radius: real, picks: seq<Pick>, i: nat)
    requires IsTightRun(d, at, k, radius, picks) && k <= i < |picks| && TightPicks(k, picks[..i])
    ensures TightPick(k, picks, i)
  {
    var find, q := Finding(d, at, k), Demand(at, k, radius);
    var p := picks[i].chosen;
    AllChosenAt(d, at, k, radius, picks);
    assert GoodPick(find, q, picks, i);
    CandidateIsSpot(d, at, k, radius, picks, i, p);
    SpotOffered(d, at, k, radius, picks, i, |p.id|);
    FirstIdsSize(k);
    RunPrefix(find, q, picks, i);
    FirstAllStops(find, q, k, picks[..i]);
    assert p.id in Ids(Stops(picks[..i]));
    assert Used(Stops(picks[..i]), p.id);
  }

  lemma {:induction false} TightRun(d: Distance, at: Location, k: nat, radius: real, picks: seq<Pick>, n: nat)
    requires IsTightRun(d, at, k, radius, picks) && n <= |picks|
    ensures TightPicks(k, picks[..n])
  {
    if n > 0 {
      TightRun(d, at, k, radius, picks, n - 1);
      if n - 1 < k {
        EarlyPick(d, at, k, radius, picks, n - 1);
      } else {
        LatePick(d, at, k, radius, picks, n - 1);
      }
      forall i: nat | i < n
        ensures TightPick(k, picks[..n], i)
      {
        assert i < n - 1 ==> TightPick(k, picks[..n - 1], i);
      }
    }
  }

  /** No query of the demand comes back empty. */
  lemma NeverEmpty(d: Distance, at: Location, k: nat, radius: real, picks: seq<Pick>, e: Error)
    requires IsTightRun(d, at, k, radius, picks)
    ensures !SelectionFails(Finding(d, at, k), Demand(at, k, radius), picks, e)
  {
    var find, q, n := Finding(d, at, k), Demand(at, k, radius), |picks|;
    if n < 2 * k {
      AllChosenAt(d, at, k, radius, picks);
      var rows := Spots(at, k);
      var places := Project(Select(d, rows, q.allTags[n], Within(at, radius)));
      SelectIsRanked(d, rows, q.allTags[n], Within(at, radius));
      AnswerMembers(d, rows, q.allTags[n], Within(at, radius), places, Spot(at, k, 0));
      SpotCounts(at, k, 0);
      assert rows[0] == Spot(at, k, 0);
      assert find(n, q.allTags[n], at, radius) == Success(places);
    }
  }

  /** Segment i < k could have had place k + i, and segment k + i place i. */
  function Better(at: Location, k: nat): (m: map<nat, Place>) {
    map i | i in Counting.Below(2 * k) :: Spot(at, k, if i < k then k + i else i - k)
  }

  lemma BetterIsAssignment(d: Distance, at: Location, k: nat, radius: real, picks: seq<Pick>)
    requires IsTightRun(d, at, k, radius, picks) && |picks| == 2 * k
    ensures IsAssignment(picks, Better(at, k)) && |Better(at, k)| == 2 * k
  {
    var m := Better(at, k);
    AllChosenAt(d, at, k, radius, picks);
    forall i | i in m
      ensures i < |picks| && m[i] in picks[i].candidates
    {
      SpotOffered(d, at, k, radius, picks, i, if i < k then k + i else i - k);
    }
    forall i, j | i in m && j in m && i != j
      ensures m[i].id != m[j].id
    {
      assert |m[i].id| == (if i < k then k + i else i - k) && |m[j].id| == (if j < k then k + j else j - k);
    }
    assert m.Keys == Counting.Below(2 * k);
    assert |m| == |m.Keys|;
  }

  /**
   For every k the repository can hold a table on which a build makes k stops where 2k segments could
   have been given a place each.
   */
  lemma {:induction false} HalfIsTight(d: Distance, at: Location, k: nat, radius: real)
    requires d(at, at) <= radius
    ensures IsHistory(Always(Spots(at, k))) && AnswersFrom(Finding(d, at, k), d, Always(Spots(at, k)))
    ensures exists picks, m: map<nat, Place> ::
              && IsRun(Finding(d, at, k), Demand(at, k, radius), picks) && |picks| == |Demand(at, k, radius).allTags|
              && IsAssignment(picks, m) && |m| == 2 * k && |Stops(picks)| == k
  {
    var find, q := Finding(d, at, k), Demand(at, k, radius);
    SpotsHistory(at, k);
    RepositoryAnswers(d, Always(Spots(at, k)));
    var picks := RunExists(find, q, 2 * k);
    if |picks| < 2 * k {
      var e :| SelectionFails(find, q, picks, e);
      NeverEmpty(d, at, k, radius, picks, e);
      assert false;
    }
    TightRun(d, at, k, radius, picks, 2 * k);
    assert picks[..2 * k] == picks;
    FirstAllStops(find, q, k, picks);
    BetterIsAssignment(d, at, k, radius, picks);
  }
}
