/**
 The allowed-tags cache as a clocked state machine: the cache-aside lookup of
 internal/travelroutes/service.go (GetAllowedTags) over internal/cache/redis.go and the tag query of
 the repository. A missed lookup reads the table in one step and writes the cache in a later one, so
 lookups, creations, deletions and expiry interleave freely.
 */
module TagCache {
  import opened Wrappers
  import opened Places

  /** expires is None for a key without expiry. */
  datatype Entry = Entry(tags: set<string>, expires: Option<int>)

  /** A lookup that has read the table but not yet written the cache. */
  datatype Pending = Pending(tags: set<string>, readAt: int)

  datatype State = State(now: int, rows: seq<Place>, entry: Option<Entry>, pending: map<nat, Pending>)

  datatype Op =
    | Tick(d: nat)
    | Create(p: Place)
    | Delete(id: string)
    | Read(lookup: nat)
    | Write(lookup: nat)
    | Drop(lookup: nat)
    | Evict

  /** A duration of zero or less sets no expiry. */
  function Expiry(now: int, ttl: int): (e: Option<int>) {
    if ttl > 0 then Some(now + ttl) else None
  }

  predicate Live(e: Entry, now: int) {
    e.expires.Some? ==> now < e.expires.value
  }

  /** What a lookup that reaches the cache finds there. */
  function Hit(s: State): (r: Option<set<string>>) {
    if s.entry.Some? && Live(s.entry.value, s.now) then Some(s.entry.value.tags) else None
  }

  predicate Enabled(s: State, op: Op) {
    match op
    case Create(p) => p.id !in Ids(s.rows) && !p.deleted
    case Read(l) => l !in s.pending
    case Write(l) => l in s.pending
    case Drop(l) => l in s.pending
    case _ => true
  }

  /** Read may follow a hit that failed to decode or a cache that is down, so it does not look at the entry. */
  function Apply(ttl: int, s: State, op: Op): (t: State)
    requires Enabled(s, op)
  {
    match op
    case Tick(d) => s.(now := s.now + d)
    case Create(p) => s.(rows := s.rows + [p])
    case Delete(id) => s.(rows := SoftDelete(s.rows, id))
    case Read(l) => s.(pending := s.pending[l := Pending(AllTags(s.rows), s.now)])
    case Write(l) =>
      s.(entry := Some(Entry(s.pending[l].tags, Expiry(s.now, ttl))), pending := s.pending - {l})
    case Drop(l) => s.(pending := s.pending - {l})
    case Evict => s.(entry := None)
  }

  ghost predicate IsStep(ttl: int, trace: seq<State>, ops: seq<Op>, k: nat)
    requires k < |ops| < |trace|
  {
    Enabled(trace[k], ops[k]) && trace[k + 1] == Apply(ttl, trace[k], ops[k])
  }

  /** A run: the states it goes through, and the steps between them. */
  ghost predicate IsTrace(ttl: int, trace: seq<State>, ops: seq<Op>) {
    && |trace| == |ops| + 1
    && trace[0].entry == None && trace[0].pending == map[]
    && forall k | 0 <= k < |ops| :: IsStep(ttl, trace, ops, k)
  }

  // ----- the cache never invents a tag -----

  predicate NothingInvented(s: State) {
    && (s.entry.Some? ==> s.entry.value.tags <= AllTags(s.rows))
    && (forall l | l in s.pending :: s.pending[l].tags <= AllTags(s.rows))
  }

  lemma StepGrows(ttl: int, s: State, op: Op)
    requires Enabled(s, op)
    ensures Grows(s.rows, Apply(ttl, s, op).rows)
    ensures AllTags(s.rows) <= AllTags(Apply(ttl, s, op).rows)
    ensures !op.Create? ==> AllTags(s.rows) == AllTags(Apply(ttl, s, op).rows)
  {
    var t := Apply(ttl, s, op);
    GrowsKeepsTags(s.rows, t.rows);
    if op.Delete? {
      SoftDeleteKeepsTags(s.rows, op.id);
    }
  }

  /**
   In every state of every run, what the cache holds and what a lookup is about to return are tags
   the query would return now.
   */
  lemma {:induction false} NeverInvents(ttl: int, trace: seq<State>, ops: seq<Op>, k: nat)
    requires IsTrace(ttl, trace, ops) && k < |trace|
    ensures NothingInvented(trace[k])
    ensures Hit(trace[k]).Some? ==> Hit(trace[k]).value <= AllTags(trace[k].rows)
  {
    if k > 0 {
      NeverInvents(ttl, trace, ops, k - 1);
      assert IsStep(ttl, trace, ops, k - 1);
      StepGrows(ttl, trace[k - 1], ops[k - 1]);
    }
  }

  /** What a creation and a deletion leave in the table; no other step touches it. */
  lemma StepSpelled(ttl: int, s: State, op: Op)
    requires Enabled(s, op)
    ensures var rows := Apply(ttl, s, op).rows;
            match op
            case Create(p) => rows == s.rows + [p]
            case Delete(id) =>
              && |rows| == |s.rows| && (forall p | p in rows && p.id == id :: p.deleted)
              && forall i | 0 <= i < |rows| ::
                   rows[i] == s.rows[i] || (s.rows[i].id == id && rows[i] == s.rows[i].(deleted := true))
            case _ => rows == s.rows
  {
  }

  /** A miss that reads and writes at once is a hit for as long as the lifetime lasts, and not longer. */
  lemma StoredMissHits(ttl: int, s: State, lookup: nat, d: nat)
    requires lookup !in s.pending
    ensures var written := Apply(ttl, Apply(ttl, s, Read(lookup)), Write(lookup));
            Hit(Apply(ttl, written, Tick(d))) == if ttl <= 0 || d < ttl then Some(AllTags(s.rows)) else None
  {
  }

  // ----- how old an answer can be -----

  /** No lookup takes longer than `gap` from its read to its write. */
  ghost predicate GapAtMost(gap: nat, trace: seq<State>, ops: seq<Op>)
    requires |trace| == |ops| + 1
  {
    forall k | 0 <= k < |ops| && ops[k].Write? && ops[k].lookup in trace[k].pending ::
      trace[k].now - trace[k].pending[ops[k].lookup].readAt <= gap
  }

  /** The tags were exactly the table's at some state up to k, at time `at` or later. */
  ghost predicate CurrentAt(trace: seq<State>, k: nat, tags: set<string>, at: int)
    requires k < |trace|
  {
    exists j: nat :: j <= k && AllTags(trace[j].rows) == tags && at <= trace[j].now
  }

  ghost predicate Dated(ttl: int, gap: nat, trace: seq<State>, k: nat)
    requires k < |trace|
  {
    && (forall l | l in trace[k].pending :: CurrentAt(trace, k, trace[k].pending[l].tags, trace[k].pending[l].readAt))
    && (trace[k].entry.Some? && trace[k].entry.value.expires.Some? ==>
          CurrentAt(trace, k, trace[k].entry.value.tags, trace[k].entry.value.expires.value - ttl - gap))
    && (ttl > 0 && trace[k].entry.Some? ==> trace[k].entry.value.expires.Some?)
  }

  lemma CurrentLater(trace: seq<State>, k: nat, tags: set<string>, at: int, sooner: int)
    requires k + 1 < |trace| && CurrentAt(trace, k, tags, at) && sooner <= at
    ensures CurrentAt(trace, k + 1, tags, sooner)
  {
    var j: nat :| j <= k && AllTags(trace[j].rows) == tags && at <= trace[j].now;
    assert j <= k + 1;
  }

  lemma DatedStep(ttl: int, gap: nat, trace: seq<State>, ops: seq<Op>, k: nat)
    requires IsTrace(ttl, trace, ops) && GapAtMost(gap, trace, ops) && k < |ops|
    requires IsStep(ttl, trace, ops, k) && Dated(ttl, gap, trace, k)
    ensures Dated(ttl, gap, trace, k + 1)
  {
    var s, t, op := trace[k], trace[k + 1], ops[k];
    forall l | l in t.pending
      ensures CurrentAt(trace, k + 1, t.pending[l].tags, t.pending[l].readAt)
    {
      if op == Read(l) {
        assert AllTags(t.rows) == t.pending[l].tags && t.now == t.pending[l].readAt;
      } else {
        CurrentLater(trace, k, s.pending[l].tags, s.pending[l].readAt, s.pending[l].readAt);
      }
    }
    if t.entry.Some? && t.entry.value.expires.Some? {
      var at := t.entry.value.expires.value - ttl - gap;
      if op.Write? {
        var p := s.pending[op.lookup];
        CurrentLater(trace, k, p.tags, p.readAt, at);
      } else {
        CurrentLater(trace, k, t.entry.value.tags, at, at);
      }
    }
  }

  lemma {:induction false} DatedRun(ttl: int, gap: nat, trace: seq<State>, ops: seq<Op>, k: nat)
    requires IsTrace(ttl, trace, ops) && GapAtMost(gap, trace, ops) && k < |trace|
    ensures Dated(ttl, gap, trace, k)
  {
    if k > 0 {
      DatedRun(ttl, gap, trace, ops, k - 1);
      assert IsStep(ttl, trace, ops, k - 1);
      DatedStep(ttl, gap, trace, ops, k - 1);
    }
  }

  /** With a positive lifetime every hit is the table's tag set at an instant less than ttl + gap ago. */
  lemma BoundedStaleness(ttl: int, gap: nat, trace: seq<State>, ops: seq<Op>, k: nat)
    requires ttl > 0 && IsTrace(ttl, trace, ops) && GapAtMost(gap, trace, ops)
    requires k < |trace| && Hit(trace[k]).Some?
    ensures exists j: nat :: j <= k && AllTags(trace[j].rows) == Hit(trace[k]).value
                             && trace[k].now - trace[j].now < ttl + gap
  {
    DatedRun(ttl, gap, trace, ops, k);
    var e := trace[k].entry.value;
    var j: nat :| j <= k && AllTags(trace[j].rows) == e.tags && e.expires.value - ttl - gap <= trace[j].now;
  }

  lemma {:induction false} TimePasses(ttl: int, trace: seq<State>, ops: seq<Op>, i: nat, j: nat)
    requires IsTrace(ttl, trace, ops) && i <= j < |trace|
    ensures trace[i].now <= trace[j].now
    decreases j
  {
    if i < j {
      TimePasses(ttl, trace, ops, i, j - 1);
      assert IsStep(ttl, trace, ops, j - 1);
    }
  }

  lemma {:induction false} QuietTags(ttl: int, trace: seq<State>, ops: seq<Op>, i: nat, j: nat)
    requires IsTrace(ttl, trace, ops) && i <= j < |trace|
    requires forall k | i <= k < j :: !ops[k].Create?
    ensures AllTags(trace[i].rows) == AllTags(trace[j].rows)
    decreases j
  {
    if i < j {
      QuietTags(ttl, trace, ops, i, j - 1);
      assert IsStep(ttl, trace, ops, j - 1);
      StepGrows(ttl, trace[j - 1], ops[j - 1]);
    }
  }

  /** If no place was created for ttl + gap, a hit is exactly the current tag set, whatever was deleted. */
  lemma FreshWhenQuiet(ttl: int, gap: nat, trace: seq<State>, ops: seq<Op>, k: nat)
    requires ttl > 0 && IsTrace(ttl, trace, ops) && GapAtMost(gap, trace, ops)
    requires k < |trace| && Hit(trace[k]).Some?
    requires forall i | 0 <= i < k && ops[i].Create? :: trace[k].now - trace[i].now >= ttl + gap
    ensures Hit(trace[k]).value == AllTags(trace[k].rows)
  {
    BoundedStaleness(ttl, gap, trace, ops, k);
    var j: nat :| j <= k && AllTags(trace[j].rows) == Hit(trace[k]).value && trace[k].now - trace[j].now < ttl + gap;
    forall i | j <= i < k
      ensures !ops[i].Create?
    {
      TimePasses(ttl, trace, ops, j, i);
    }
    QuietTags(ttl, trace, ops, j, k);
  }

  // ----- the bound is exact -----

  ghost predicate HitWithin(trace: seq<State>, k: nat, bound: int)
    requires k < |trace|
  {
    Hit(trace[k]).Some? ==>
      exists j: nat :: j <= k && AllTags(trace[j].rows) == Hit(trace[k]).value && trace[k].now - trace[j].now < bound
  }

  /** In every run with such gaps, every hit is the table's tag set less than `bound` ago. */
  ghost predicate FreshWithin(ttl: int, gap: nat, bound: int) {
    forall trace, ops, k: nat | k < |trace| && IsTrace(ttl, trace, ops) && GapAtMost(gap, trace, ops) ::
      HitWithin(trace, k, bound)
  }

  /** A lookup reads the empty table, a place is created, the lookup writes `gap` later, and d passes. */
  function StaleStates(ttl: int, gap: nat, d: nat, p: Place): (trace: seq<State>) {
    var read := Pending(AllTags([]), 0);
    [ State(0, [], None, map[]),
      State(0, [], None, map[0 := read]),
      State(0, [p], None, map[0 := read]),
      State(gap, [p], None, map[0 := read]),
      State(gap, [p], Some(Entry(AllTags([]), Expiry(gap, ttl))), map[]),
      State(gap + d, [p], Some(Entry(AllTags([]), Expiry(gap, ttl))), map[])]
  }

  function StaleOps(gap: nat, d: nat, p: Place): (ops: seq<Op>) {
    [Read(0), Create(p), Tick(gap), Write(0), Tick(d)]
  }

  lemma StaleTrace(ttl: int, gap: nat, d: nat, p: Place)
    requires !p.deleted
    ensures IsTrace(ttl, StaleStates(ttl, gap, d, p), StaleOps(gap, d, p))
    ensures GapAtMost(gap, StaleStates(ttl, gap, d, p), StaleOps(gap, d, p))
  {
    var trace, ops := StaleStates(ttl, gap, d, p), StaleOps(gap, d, p);
    forall k | 0 <= k < |ops|
      ensures IsStep(ttl, trace, ops, k)
    {
      if k == 0 {
        assert Apply(ttl, trace[0], ops[0]) == trace[1];
      } else if k == 1 {
        assert [] + [p] == [p];
      } else if k == 3 {
        assert trace[3].pending - {0} == map[];
      }
    }
  }

  /** The hit at the end of that run was last current gap + d ago, and lacks the tags of the new place. */
  lemma StaleHit(ttl: int, gap: nat, d: nat, p: Place, bound: int)
    requires !p.deleted && p.tags != [] && (ttl <= 0 || d < ttl) && bound <= gap + d
    ensures !HitWithin(StaleStates(ttl, gap, d, p), 5, bound)
  {
    var trace := StaleStates(ttl, gap, d, p);
    var rows, t := [p], p.tags[0];
    assert p in rows && t in p.tags;
    assert t in AllTags(rows) && t !in AllTags([]);
    assert Hit(trace[5]) == Some(AllTags([]));
  }

  /** Hits are fresh within a bound exactly when the lifetime is positive and the bound is ttl + gap or more. */
  lemma FreshWithinIff(ttl: int, gap: nat, bound: int)
    ensures FreshWithin(ttl, gap, bound) <==> ttl > 0 && ttl + gap <= bound
  {
    if ttl > 0 && ttl + gap <= bound {
      forall trace, ops, k: nat | k < |trace| && IsTrace(ttl, trace, ops) && GapAtMost(gap, trace, ops)
        ensures HitWithin(trace, k, bound)
      {
        if Hit(trace[k]).Some? {
          BoundedStaleness(ttl, gap, trace, ops, k);
        }
      }
    } else {
      var d: nat := if ttl > 0 then ttl - 1 else if bound > 0 then bound else 0;
      var p := Place("p", "", ["t"], "", Location(0.0, 0.0), "", 5.0, false);
      StaleTrace(ttl, gap, d, p);
      StaleHit(ttl, gap, d, p, bound);
    }
  }
}
