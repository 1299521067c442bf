/**
 The bounded fan-out of ExtractMultiTags (internal/llm/ollama_tag_extractor.go) as a transition
 system: main spawns one worker per segment behind a ten-slot semaphore, scans the error slots and
 waits on the wait group. Every step of main and of a worker is one transition.

 The source scans before it waits; the other order is modelled beside it.
 */
module FanOut {
  import opened Wrappers
  import Counting

  const MAX_CONCURRENT_REQUESTS: int := 10

  /** A Go slice of tags; None is nil. */
  type Tags = Option<seq<string>>

  /** What ExtractTags returns for one segment. */
  type Answer = Result<Tags, Error>

  datatype Order = ScanThenWait | WaitThenScan

  datatype Job = Job(answers: seq<Answer>, order: Order)

  datatype Phase = Idle | Running | Stored | Released | Finished

  datatype Pc = Adding(i: nat) | Acquiring(i: nat) | Spawning(i: nat) | Scanning(i: nat) | Waiting | Returned

  datatype State = State(
    pc: Pc,
    phases: seq<Phase>,
    sem: int,
    wg: int,
    results: seq<Tags>,
    errs: seq<Option<Error>>,
    found: seq<(nat, Error)>)

  datatype Agent = Main | Worker(i: nat)

  function AfterLoop(job: Job): (pc: Pc) {
    if job.order.ScanThenWait? then Scanning(0) else Waiting
  }

  function LoopHead(job: Job, i: nat): (pc: Pc) {
    if i < |job.answers| then Adding(i) else AfterLoop(job)
  }

  function Init(job: Job): (s: State) {
    var n := |job.answers|;
    State(LoopHead(job, 0), seq(n, _ => Idle), 0, 0, seq(n, _ => None), seq(n, _ => None), [])
  }

  predicate Sized(job: Job, s: State) {
    && |s.phases| == |s.results| == |s.errs| == |job.answers|
    && (s.pc.Adding? || s.pc.Acquiring? || s.pc.Spawning? ==> s.pc.i < |job.answers|)
    && (s.pc.Scanning? ==> s.pc.i <= |job.answers|)
  }

  /** Sending to a full channel, receiving from an empty one and waiting for others block. */
  predicate Enabled(job: Job, s: State, a: Agent)
    requires Sized(job, s)
  {
    match a
    case Main =>
      (match s.pc
       case Acquiring(_) => s.sem < MAX_CONCURRENT_REQUESTS
       case Waiting => s.wg == 0
       case Returned => false
       case _ => true)
    case Worker(i) =>
      i < |job.answers| && (s.phases[i].Running? || (s.phases[i].Stored? && s.sem > 0) || s.phases[i].Released?)
  }

  function MainNext(job: Job, s: State): (t: State)
    requires Sized(job, s) && Enabled(job, s, Main)
  {
    match s.pc
    case Adding(i) => s.(wg := s.wg + 1, pc := Acquiring(i))
    case Acquiring(i) => s.(sem := s.sem + 1, pc := Spawning(i))
    case Spawning(i) => s.(phases := s.phases[i := Running], pc := LoopHead(job, i + 1))
    case Scanning(i) =>
      if i < |job.answers| then
        s.(found := s.found + (if s.errs[i].Some? then [(i, s.errs[i].value)] else []), pc := Scanning(i + 1))
      else if job.order.ScanThenWait? && s.found == [] then s.(pc := Waiting)
      else s.(pc := Returned)
    case Waiting => s.(pc := if job.order.ScanThenWait? then Returned else Scanning(0))
  }

  /** The worker stores its answer; the deferred calls then free the slot and count the worker done. */
  function WorkerNext(job: Job, s: State, i: nat): (t: State)
    requires Sized(job, s) && Enabled(job, s, Worker(i))
  {
    match s.phases[i]
    case Running =>
      var stored := s.(phases := s.phases[i := Stored]);
      (match job.answers[i]
       case Failure(e) => stored.(errs := s.errs[i := Some(e)])
       case Success(tags) => stored.(results := s.results[i := tags]))
    case Stored => s.(phases := s.phases[i := Released], sem := s.sem - 1)
    case Released => s.(phases := s.phases[i := Finished], wg := s.wg - 1)
  }

  function Next(job: Job, s: State, a: Agent): (t: State)
    requires Sized(job, s) && Enabled(job, s, a)
    ensures Sized(job, t)
  {
    match a
    case Main => MainNext(job, s)
    case Worker(i) => WorkerNext(job, s, i)
  }

  /** The state after a schedule; None if some agent could not move when its turn came. */
  function Execute(job: Job, schedule: seq<Agent>): (r: Option<State>)
    ensures r.Some? ==> Sized(job, r.value)
  {
    if schedule == [] then Some(Init(job))
    else
      var last := |schedule| - 1;
      match Execute(job, schedule[..last])
      case None => None
      case Some(s) => if Enabled(job, s, schedule[last]) then Some(Next(job, s, schedule[last])) else None
  }

  ghost predicate Reachable(job: Job, s: State) {
    exists schedule :: Execute(job, schedule) == Some(s)
  }

  /** Main has returned and every worker is done. */
  predicate Final(s: State) {
    s.pc.Returned? && forall i | 0 <= i < |s.phases| :: s.phases[i].Finished? || s.phases[i].Idle?
  }

  // ----- what the slots must hold -----

  function ErrorSlot(a: Answer): (e: Option<Error>) {
    if a.Failure? then Some(a.error) else None
  }

  function ResultSlot(a: Answer): (t: Tags) {
    if a.Failure? then None else a.value
  }

  function Results(answers: seq<Answer>): (r: seq<Tags>) {
    seq(|answers|, i requires 0 <= i < |answers| => ResultSlot(answers[i]))
  }

  /** The failing segments below n in order, with their errors: what the sequential loop would report. */
  function Failures(answers: seq<Answer>, n: nat): (r: seq<(nat, Error)>)
    requires n <= |answers|
  {
    if n == 0 then []
    else Failures(answers, n - 1) + if answers[n - 1].Failure? then [(n - 1, answers[n - 1].error)] else []
  }

  function Failing(answers: seq<Answer>): (s: set<nat>) {
    set i: nat | i < |answers| && answers[i].Failure?
  }

  predicate Listed(found: seq<(nat, Error)>, j: nat) {
    exists k :: 0 <= k < |found| && found[k].0 == j
  }

  predicate Increasing(found: seq<(nat, Error)>) {
    forall i, j | 0 <= i < j < |found| :: found[i].0 < found[j].0
  }

  /** Increasing, and every entry is a segment below n that failed with that error. */
  predicate Sound(answers: seq<Answer>, n: nat, found: seq<(nat, Error)>) {
    && n <= |answers|
    && Increasing(found)
    && forall k | 0 <= k < |found| :: found[k].0 < n && answers[found[k].0] == Failure(found[k].1)
  }

  lemma ListedNext(found: seq<(nat, Error)>, i: nat, e: Error)
    ensures forall j | Listed(found, j) :: Listed(found + [(i, e)], j)
    ensures Listed(found + [(i, e)], i)
  {
    var more := found + [(i, e)];
    assert more[|found|].0 == i;
    forall j | Listed(found, j)
      ensures Listed(more, j)
    {
      var k :| 0 <= k < |found| && found[k].0 == j;
      assert more[k].0 == j;
    }
  }

  /** The list is sound and names every failing segment. */
  lemma {:induction false} FailuresExact(answers: seq<Answer>, n: nat)
    requires n <= |answers|
    ensures Sound(answers, n, Failures(answers, n))
    ensures forall j: nat | j < n && answers[j].Failure? :: Listed(Failures(answers, n), j)
  {
    if n > 0 {
      FailuresExact(answers, n - 1);
      if answers[n - 1].Failure? {
        ListedNext(Failures(answers, n - 1), n - 1, answers[n - 1].error);
      } else {
        assert Failures(answers, n) == Failures(answers, n - 1);
      }
    }
  }

  // ----- the invariant -----

  predicate Holds(p: Phase) { p.Running? || p.Stored? }

  predicate Unfinished(p: Phase) { Holds(p) || p.Released? }

  predicate Past(p: Phase) { p.Released? || p.Finished? }

  /** Workers between acquire and release. */
  function Holders(phases: seq<Phase>): (s: set<nat>) {
    set i: nat | i < |phases| && Holds(phases[i])
  }

  /** Workers spawned and not done. */
  function Active(phases: seq<Phase>): (s: set<nat>) {
    set i: nat | i < |phases| && Unfinished(phases[i])
  }

  /** How many workers main has spawned. */
  function Spawned(job: Job, pc: Pc): (n: nat) {
    if pc.Adding? || pc.Acquiring? || pc.Spawning? then pc.i else |job.answers|
  }

  predicate SlotsOf(job: Job, s: State, i: nat)
    requires Sized(job, s) && i < |job.answers|
  {
    if s.phases[i].Idle? || s.phases[i].Running?
    then s.errs[i] == None && s.results[i] == None
    else s.errs[i] == ErrorSlot(job.answers[i]) && s.results[i] == ResultSlot(job.answers[i])
  }

  predicate Accounting(job: Job, s: State) {
    && s.sem == |Holders(s.phases)| + (if s.pc.Spawning? then 1 else 0) <= MAX_CONCURRENT_REQUESTS
    && s.wg == |Active(s.phases)| + (if s.pc.Acquiring? || s.pc.Spawning? then 1 else 0)
  }

  predicate Slots(job: Job, s: State)
    requires Sized(job, s)
  {
    && (forall i: nat | i < |job.answers| :: s.phases[i].Idle? <==> i >= Spawned(job, s.pc))
    && (forall i: nat | i < |job.answers| :: SlotsOf(job, s, i))
  }

  predicate Inv(job: Job, s: State) {
    Sized(job, s) && Accounting(job, s) && Slots(job, s)
  }

  lemma InitInv(job: Job)
    ensures Inv(job, Init(job))
  {
    var s := Init(job);
    assert Holders(s.phases) == {} && Active(s.phases) == {};
  }

  function One(b: bool): (n: nat) {
    if b then 1 else 0
  }

  lemma MemberSize(s: set<nat>, i: nat)
    ensures |s| == |s - {i}| + One(i in s)
  {
    if i in s {
      assert s == (s - {i}) + {i};
    } else {
      assert s == s - {i};
    }
  }

  lemma PhaseUpdate(phases: seq<Phase>, i: nat, p: Phase)
    requires i < |phases|
    ensures |Holders(phases[i := p])| == |Holders(phases)| - One(Holds(phases[i])) + One(Holds(p))
    ensures |Active(phases[i := p])| == |Active(phases)| - One(Unfinished(phases[i])) + One(Unfinished(p))
  {
    assert Holders(phases) - {i} == Holders(phases[i := p]) - {i};
    assert Active(phases) - {i} == Active(phases[i := p]) - {i};
    MemberSize(Holders(phases), i);
    MemberSize(Holders(phases[i := p]), i);
    MemberSize(Active(phases), i);
    MemberSize(Active(phases[i := p]), i);
  }

  lemma StepAccounting(job: Job, s: State, a: Agent)
    requires Inv(job, s) && Enabled(job, s, a)
    ensures Accounting(job, Next(job, s, a))
  {
    var t := Next(job, s, a);
    if a.Worker? {
      PhaseUpdate(s.phases, a.i, t.phases[a.i]);
    } else if s.pc.Spawning? {
      PhaseUpdate(s.phases, s.pc.i, Running);
    }
  }

  lemma StepSlots(job: Job, s: State, a: Agent)
    requires Inv(job, s) && Enabled(job, s, a)
    ensures Slots(job, Next(job, s, a))
  {
    var t := Next(job, s, a);
    forall i: nat | i < |job.answers|
      ensures SlotsOf(job, t, i)
    {
      assert SlotsOf(job, s, i);
    }
  }

  lemma {:induction false} ExecuteInv(job: Job, schedule: seq<Agent>)
    ensures Execute(job, schedule).Some? ==> Inv(job, Execute(job, schedule).value)
  {
    if schedule == [] {
      InitInv(job);
    } else {
      var last := |schedule| - 1;
      ExecuteInv(job, schedule[..last]);
      if Execute(job, schedule).Some? {
        var s := Execute(job, schedule[..last]).value;
        StepAccounting(job, s, schedule[last]);
        StepSlots(job, s, schedule[last]);
      }
    }
  }

  lemma ReachableInv(job: Job, s: State)
    requires Reachable(job, s)
    ensures Inv(job, s)
  {
    var schedule :| Execute(job, schedule) == Some(s);
    ExecuteInv(job, schedule);
  }

  lemma ReachNext(job: Job, s: State, a: Agent)
    requires Reachable(job, s) && Sized(job, s) && Enabled(job, s, a)
    ensures Reachable(job, Next(job, s, a))
  {
    var schedule :| Execute(job, schedule) == Some(s);
    var longer := schedule + [a];
    assert longer[..|longer| - 1] == schedule;
    assert Execute(job, longer) == Some(Next(job, s, a));
  }

  /**
   At every moment of every run the occupied slots are the workers between acquire and release, plus
   the slot main has just taken for the worker it is about to spawn; there are never more than ten.
   The wait count is added minus done.
   */
  lemma SlotAccounting(job: Job, s: State)
    requires Reachable(job, s)
    ensures |Holders(s.phases)| <= s.sem <= 10
    ensures s.sem == |Holders(s.phases)| + if s.pc.Spawning? then 1 else 0
    ensures s.wg == |Active(s.phases)| + if s.pc.Acquiring? || s.pc.Spawning? then 1 else 0
  {
    ReachableInv(job, s);
  }

  // ----- each slot is written once, by its own worker -----

  lemma OnlyOwnerWrites(job: Job, s: State, a: Agent, i: nat)
    requires Sized(job, s) && Enabled(job, s, a) && i < |job.answers|
    ensures var t := Next(job, s, a);
            (t.errs[i] != s.errs[i] || t.results[i] != s.results[i] ==>
               a == Worker(i) && s.phases[i].Running? && t.phases[i].Stored?)
  {
  }

  predicate Decided(s: State, i: nat)
    requires i < |s.phases|
  {
    s.phases[i].Stored? || s.phases[i].Released? || s.phases[i].Finished?
  }

  lemma DecidedKept(job: Job, s: State, a: Agent, i: nat)
    requires Sized(job, s) && Enabled(job, s, a) && Slots(job, s) && i < |job.answers| && Decided(s, i)
    ensures var t := Next(job, s, a);
            Decided(t, i) && t.errs[i] == s.errs[i] && t.results[i] == s.results[i]
  {
  }

  /** Once a worker has stored its answer, its two slots never change again. */
  lemma {:induction false} SlotsStable(job: Job, before: seq<Agent>, more: seq<Agent>, i: nat)
    requires Execute(job, before).Some? && Execute(job, before + more).Some? && i < |job.answers|
    requires Decided(Execute(job, before).value, i)
    ensures Decided(Execute(job, before + more).value, i)
    ensures Execute(job, before + more).value.errs[i] == Execute(job, before).value.errs[i]
    ensures Execute(job, before + more).value.results[i] == Execute(job, before).value.results[i]
  {
    if more == [] {
      assert before + more == before;
    } else {
      var last := |more| - 1;
      var longer := before + more;
      assert longer[..|longer| - 1] == before + more[..last];
      SlotsStable(job, before, more[..last], i);
      ExecuteInv(job, before + more[..last]);
      DecidedKept(job, Execute(job, before + more[..last]).value, longer[|longer| - 1], i);
    }
  }

  // ----- no run is stuck and every run is finite -----

  /** Some agent that can move. */
  lemma Progress(job: Job, s: State) returns (a: Agent)
    requires Inv(job, s) && !Final(s)
    ensures Enabled(job, s, a)
  {
    if i: nat :| i < |s.phases| && Unfinished(s.phases[i]) {
      a := Worker(i);
      assert s.phases[i].Stored? ==> i in Holders(s.phases);
    } else {
      a := Main;
      assert Holders(s.phases) == {} && Active(s.phases) == {};
    }
  }

  /** A run can go on exactly until main has returned and every worker is done. */
  lemma NoDeadlock(job: Job, s: State)
    requires Reachable(job, s)
    ensures Sized(job, s) && ((exists a :: Enabled(job, s, a)) <==> !Final(s))
  {
    ReachableInv(job, s);
    if !Final(s) {
      var a := Progress(job, s);
    }
  }

  function PhaseWork(p: Phase): (n: nat) {
    match p
    case Idle => 3
    case Running => 3
    case Stored => 2
    case Released => 1
    case Finished => 0
  }

  function WorkersWork(phases: seq<Phase>): (n: nat) {
    if phases == [] then 0 else PhaseWork(phases[0]) + WorkersWork(phases[1..])
  }

  function MainWork(job: Job, pc: Pc): (r: int) {
    var n := |job.answers|;
    match pc
    case Adding(i) => 3 * (n - i) + n + 2
    case Acquiring(i) => 3 * (n - i) + n + 1
    case Spawning(i) => 3 * (n - i) + n
    case Scanning(i) => n - i + if job.order.ScanThenWait? then 2 else 1
    case Waiting => if job.order.ScanThenWait? then 1 else n + 2
    case Returned => 0
  }

  function Work(job: Job, s: State): (r: int) {
    MainWork(job, s.pc) + WorkersWork(s.phases)
  }

  lemma {:induction false} WorkUpdate(phases: seq<Phase>, i: nat, p: Phase)
    requires i < |phases|
    ensures WorkersWork(phases[i := p]) == WorkersWork(phases) - PhaseWork(phases[i]) + PhaseWork(p)
  {
    if i == 0 {
      assert phases[0 := p][1..] == phases[1..];
    } else {
      WorkUpdate(phases[1..], i - 1, p);
      assert phases[i := p][1..] == phases[1..][i - 1 := p];
    }
  }

  /** Every step leaves less work, and work is never negative. */
  lemma StepWork(job: Job, s: State, a: Agent)
    requires Inv(job, s) && Enabled(job, s, a)
    ensures 0 <= Work(job, Next(job, s, a)) < Work(job, s)
  {
    var t := Next(job, s, a);
    if a.Worker? {
      WorkUpdate(s.phases, a.i, t.phases[a.i]);
    } else if s.pc.Spawning? {
      WorkUpdate(s.phases, s.pc.i, Running);
    }
  }

  lemma {:induction false} InitialWork(job: Job, n: nat)
    ensures WorkersWork(seq(n, _ => Idle)) == 3 * n
  {
    if n > 0 {
      InitialWork(job, n - 1);
      assert seq<Phase>(n, _ => Idle)[1..] == seq<Phase>(n - 1, _ => Idle);
    }
  }

  /** No run on n segments has more than 7n + 2 steps. */
  lemma {:induction false} RunsAreFinite(job: Job, schedule: seq<Agent>)
    requires Execute(job, schedule).Some?
    ensures |schedule| + Work(job, Execute(job, schedule).value) <= 7 * |job.answers| + 2
    ensures Work(job, Execute(job, schedule).value) >= 0
  {
    if schedule == [] {
      InitialWork(job, |job.answers|);
    } else {
      var last := |schedule| - 1;
      RunsAreFinite(job, schedule[..last]);
      ExecuteInv(job, schedule[..last]);
      StepWork(job, Execute(job, schedule[..last]).value, schedule[last]);
    }
  }

  /** Some run returns. */
  lemma {:induction false} RunOn(job: Job, s: State) returns (t: State)
    requires Reachable(job, s)
    ensures Reachable(job, t) && t.pc.Returned?
    decreases Work(job, s) + 1
  {
    ReachableInv(job, s);
    if s.pc.Returned? {
      t := s;
    } else {
      var a := Progress(job, s);
      ReachNext(job, s, a);
      StepWork(job, s, a);
      t := RunOn(job, Next(job, s, a));
    }
  }

  lemma SomeReturn(job: Job) returns (s: State)
    ensures Reachable(job, s) && s.pc.Returned?
  {
    assert Execute(job, []) == Some(Init(job));
    s := RunOn(job, Init(job));
  }

  // ----- waiting before scanning -----

  ghost predicate WaitFirstInv(job: Job, s: State) {
    && Sized(job, s)
    && (s.pc.Scanning? || s.pc.Returned? ==> Active(s.phases) == {})
    && s.found == Failures(job.answers, if s.pc.Scanning? then s.pc.i else if s.pc.Returned? then |job.answers| else 0)
  }

  lemma AllStored(job: Job, s: State)
    requires Inv(job, s) && Active(s.phases) == {} && Spawned(job, s.pc) == |job.answers|
    ensures forall i: nat | i < |job.answers| :: s.errs[i] == ErrorSlot(job.answers[i])
    ensures s.results == Results(job.answers)
    ensures forall i: nat | i < |s.phases| :: s.phases[i].Finished?
  {
    forall i: nat | i < |job.answers|
      ensures s.phases[i].Finished? && s.errs[i] == ErrorSlot(job.answers[i]) && s.results[i] == Results(job.answers)[i]
    {
      assert i !in Active(s.phases);
      assert SlotsOf(job, s, i);
    }
  }

  lemma WaitFirstStep(job: Job, s: State, a: Agent)
    requires job.order.WaitThenScan? && Inv(job, s) && Enabled(job, s, a) && WaitFirstInv(job, s)
    ensures WaitFirstInv(job, Next(job, s, a))
  {
    var t := Next(job, s, a);
    if a.Worker? {
      assert a.i in Active(s.phases);
      assert !t.pc.Scanning? && !t.pc.Returned?;
    } else if s.pc.Scanning? && s.pc.i < |job.answers| {
      AllStored(job, s);
    }
  }

  lemma {:induction false} WaitFirstRun(job: Job, schedule: seq<Agent>)
    requires job.order.WaitThenScan? && Execute(job, schedule).Some?
    ensures WaitFirstInv(job, Execute(job, schedule).value)
  {
    if schedule != [] {
      var last := |schedule| - 1;
      WaitFirstRun(job, schedule[..last]);
      ExecuteInv(job, schedule[..last]);
      WaitFirstStep(job, Execute(job, schedule[..last]).value, schedule[last]);
    }
  }

  lemma NoFailures(answers: seq<Answer>)
    ensures Failures(answers, |answers|) == [] <==> Failing(answers) == {}
  {
    var r := Failures(answers, |answers|);
    FailuresExact(answers, |answers|);
    assert forall i | i in Failing(answers) :: Listed(r, i);
    assert r != [] ==> r[0].0 in Failing(answers);
  }

  /**
   Waiting first, every interleaving returns what the sequential loop returns: the answers slot by
   slot, and exactly the failing segments in increasing order.
   */
  lemma {:induction false} WaitFirstIsSequential(job: Job, s: State)
    requires job.order.WaitThenScan? && Reachable(job, s) && s.pc.Returned?
    ensures s.results == Results(job.answers)
    ensures s.found == Failures(job.answers, |job.answers|)
    ensures s.found == [] <==> Failing(job.answers) == {}
  {
    var schedule :| Execute(job, schedule) == Some(s);
    ExecuteInv(job, schedule);
    WaitFirstRun(job, schedule);
    AllStored(job, s);
    NoFailures(job.answers);
  }

  // ----- the order of the source: scanning before waiting -----

  function Scanned(job: Job, pc: Pc): (n: nat) {
    if pc.Scanning? then pc.i else if pc.Waiting? || pc.Returned? then |job.answers| else 0
  }

  /** Everyone outside `late` had released its slot when the scan began. */
  predicate IsLate(job: Job, s: State, late: set<nat>) {
    && |late| <= MAX_CONCURRENT_REQUESTS
    && (job.answers != [] ==> |job.answers| - 1 in late)
    && (forall j: nat | j < |s.phases| && j !in late :: Past(s.phases[j]))
    && (forall j: nat | j < Scanned(job, s.pc) <= |job.answers| && j !in late && job.answers[j].Failure? ::
          Listed(s.found, j))
  }

  ghost predicate ScanFirstInv(job: Job, s: State) {
    && Sized(job, s)
    && (s.pc.Scanning? || s.pc.Waiting? || s.pc.Returned? ==> exists late :: IsLate(job, s, late))
    && Sound(job.answers, Scanned(job, s.pc), s.found)
    && (s.pc.Returned? && s.found == [] ==> Active(s.phases) == {})
  }

  lemma ScanBegins(job: Job, s: State)
    requires Inv(job, s) && s.pc.Spawning? && s.pc.i == |job.answers| - 1
    ensures IsLate(job, MainNext(job, s).(pc := Scanning(0)), Holders(MainNext(job, s).phases))
  {
    StepAccounting(job, s, Main);
    StepSlots(job, s, Main);
    var t := MainNext(job, s);
    forall j: nat | j < |t.phases| && j !in Holders(t.phases)
      ensures Past(t.phases[j])
    {
      assert !Holds(t.phases[j]);
    }
  }

  lemma LateKept(job: Job, s: State, a: Agent, late: set<nat>)
    requires job.order.ScanThenWait? && Inv(job, s) && Enabled(job, s, a)
    requires s.pc.Scanning? || s.pc.Waiting? || s.pc.Returned?
    requires IsLate(job, s, late)
    ensures IsLate(job, Next(job, s, a), late)
  {
    var t := Next(job, s, a);
    if a.Main? && s.pc.Scanning? && s.pc.i < |job.answers| {
      var i := s.pc.i;
      assert SlotsOf(job, s, i);
      if s.errs[i].Some? {
        ListedNext(s.found, i, s.errs[i].value);
      } else {
        assert t.found == s.found;
      }
    }
  }

  lemma FoundKept(job: Job, s: State, a: Agent)
    requires job.order.ScanThenWait? && Inv(job, s) && Enabled(job, s, a) && ScanFirstInv(job, s)
    ensures var t := Next(job, s, a);
            Sound(job.answers, Scanned(job, t.pc), t.found)
  {
    if a.Main? && s.pc.Scanning? && s.pc.i < |job.answers| {
      assert SlotsOf(job, s, s.pc.i);
    }
  }

  lemma PhaseSetsShrink(job: Job, s: State, a: Agent)
    requires job.order.ScanThenWait? && Inv(job, s) && Enabled(job, s, a) && ScanFirstInv(job, s)
    requires Next(job, s, a).pc.Returned? && Next(job, s, a).found == []
    ensures Active(Next(job, s, a).phases) == {}
  {
    assert forall i: nat | i < |s.phases| && Unfinished(s.phases[i]) :: i in Active(s.phases);
  }

  lemma ScanFirstStep(job: Job, s: State, a: Agent)
    requires job.order.ScanThenWait? && Inv(job, s) && Enabled(job, s, a) && ScanFirstInv(job, s)
    ensures ScanFirstInv(job, Next(job, s, a))
  {
    var t := Next(job, s, a);
    if s.pc.Scanning? || s.pc.Waiting? || s.pc.Returned? {
      var late :| IsLate(job, s, late);
      LateKept(job, s, a, late);
    } else if t.pc.Scanning? {
      ScanBegins(job, s);
      assert t == t.(pc := Scanning(0));
    }
    FoundKept(job, s, a);
    if t.pc.Returned? && t.found == [] {
      PhaseSetsShrink(job, s, a);
    }
  }

  lemma {:induction false} ScanFirstRun(job: Job, schedule: seq<Agent>)
    requires job.order.ScanThenWait? && Execute(job, schedule).Some?
    ensures ScanFirstInv(job, Execute(job, schedule).value)
  {
    if schedule == [] {
      if job.answers == [] {
        assert IsLate(job, Init(job), {});
      }
    } else {
      var last := |schedule| - 1;
      ScanFirstRun(job, schedule[..last]);
      ExecuteInv(job, schedule[..last]);
      ScanFirstStep(job, Execute(job, schedule[..last]).value, schedule[last]);
    }
  }

  /** When the scan begins at most ten workers have not released their slot. */
  lemma FewHoldersAtScan(job: Job, s: State)
    requires job.order.ScanThenWait? && Reachable(job, s) && s.pc == Scanning(0)
    ensures |Holders(s.phases)| <= 10
    ensures forall j: nat | j < |s.phases| && j !in Holders(s.phases) :: Past(s.phases[j])
  {
    ReachableInv(job, s);
    forall j: nat | j < |s.phases| && j !in Holders(s.phases)
      ensures Past(s.phases[j])
    {
      assert !Holds(s.phases[j]);
    }
  }

  /** The failing segments a return does not report. */
  function Hidden(job: Job, s: State): (r: set<nat>) {
    set j | j in Failing(job.answers) && !Listed(s.found, j)
  }

  /** These segments and the last one, whose worker main has only just spawned when it scans. */
  function WithLast(answers: seq<Answer>, late: set<nat>): (r: set<nat>) {
    if answers == [] then late else late + {|answers| - 1}
  }

  /**
   Scanning first, a return reports only real failures, in increasing order, and hides at most ten,
   the last segment counted among them. If it reports none, all workers are done and the results are
   exact.
   */
  lemma ScanFirstGuarantee(job: Job, s: State)
    requires job.order.ScanThenWait? && Reachable(job, s) && s.pc.Returned?
    ensures Sound(job.answers, |job.answers|, s.found)
    ensures |WithLast(job.answers, Hidden(job, s))| <= 10
    ensures s.found == [] ==> Final(s) && s.results == Results(job.answers)
  {
    var schedule :| Execute(job, schedule) == Some(s);
    ExecuteInv(job, schedule);
    ScanFirstRun(job, schedule);
    var late :| IsLate(job, s, late);
    assert WithLast(job.answers, Hidden(job, s)) <= late;
    Counting.SubsetSize(WithLast(job.answers, Hidden(job, s)), late);
    if s.found == [] {
      AllStored(job, s);
    }
  }

  // ----- a run that hides any few failures -----

  function Before(s: set<nat>, i: nat): (r: set<nat>) {
    set j | j in s && j < i
  }

  lemma BeforeNext(s: set<nat>, i: nat)
    ensures |Before(s, i + 1)| == |Before(s, i)| + One(i in s)
  {
    MemberSize(Before(s, i + 1), i);
    assert Before(s, i + 1) - {i} == Before(s, i);
  }

  /** The first i workers are spawned; the late ones are still running, the others done. */
  function Parked(job: Job, late: set<nat>, i: nat): (s: State)
    requires i <= |job.answers|
  {
    var n := |job.answers|;
    var busy := |Before(late, i)|;
    State(
      LoopHead(job, i),
      seq(n, j requires 0 <= j < n => if j >= i then Idle else if j in late then Running else Finished),
      busy, busy,
      seq(n, j requires 0 <= j < n => if j < i && j !in late then ResultSlot(job.answers[j]) else None),
      seq(n, j requires 0 <= j < n => if j < i && j !in late then ErrorSlot(job.answers[j]) else None),
      [])
  }

  /** At most ten are late, the last segment included, so a slot is free for every segment. */
  predicate FewLate(job: Job, late: set<nat>) {
    |late| <= 10 && (job.answers != [] ==> |job.answers| - 1 in late)
  }

  lemma ParkedSlots(job: Job, late: set<nat>, i: nat)
    requires i < |job.answers| && FewLate(job, late)
    ensures |Before(late, i)| < 10
  {
    var last := |job.answers| - 1;
    MemberSize(late, last);
    Counting.SubsetSize(Before(late, i), late - {last});
  }

  /** Worker i is spawned and main has gone on to the next segment. */
  function StartedBy(job: Job, s: State, i: nat): (t: State)
    requires i < |s.phases|
  {
    s.(pc := LoopHead(job, i + 1), phases := s.phases[i := Running], sem := s.sem + 1, wg := s.wg + 1)
  }

  /** Worker i has run to its end. */
  function FinishedBy(job: Job, s: State, i: nat): (t: State)
    requires Sized(job, s) && i < |job.answers|
  {
    s.(phases := s.phases[i := Finished], sem := s.sem - 1, wg := s.wg - 1,
       results := s.results[i := ResultSlot(job.answers[i])], errs := s.errs[i := ErrorSlot(job.answers[i])])
  }

  lemma SpawnNext(job: Job, s: State, i: nat)
    requires i < |job.answers| && Sized(job, s) && s.pc == Adding(i) && s.sem < 10 && Reachable(job, s)
    ensures Reachable(job, StartedBy(job, s, i))
  {
    ReachNext(job, s, Main);
    var added := s.(wg := s.wg + 1, pc := Acquiring(i));
    ReachNext(job, added, Main);
    var acquired := added.(sem := s.sem + 1, pc := Spawning(i));
    ReachNext(job, acquired, Main);
  }

  lemma StoreStep(job: Job, s: State, i: nat)
    requires Sized(job, s) && i < |job.answers| && s.phases[i].Running? && s.results[i].None? && s.errs[i].None?
    ensures Next(job, s, Worker(i)) ==
            s.(phases := s.phases[i := Stored],
               results := s.results[i := ResultSlot(job.answers[i])],
               errs := s.errs[i := ErrorSlot(job.answers[i])])
  {
    assert s.results == s.results[i := None] && s.errs == s.errs[i := None];
  }

  /** The slot is freed, then the worker is counted done. */
  lemma DeferredSteps(job: Job, s: State, i: nat)
    requires Sized(job, s) && i < |job.answers| && s.phases[i].Stored? && s.sem > 0 && Reachable(job, s)
    ensures Reachable(job, s.(phases := s.phases[i := Finished], sem := s.sem - 1, wg := s.wg - 1))
  {
    ReachNext(job, s, Worker(i));
    ReachNext(job, Next(job, s, Worker(i)), Worker(i));
    assert s.phases[i := Released][i := Finished] == s.phases[i := Finished];
  }

  lemma RunWorker(job: Job, s: State, i: nat)
    requires Sized(job, s) && i < |job.answers| && s.phases[i].Running? && s.sem > 0 && Reachable(job, s)
    requires s.results[i].None? && s.errs[i].None?
    ensures Reachable(job, FinishedBy(job, s, i))
  {
    ReachNext(job, s, Worker(i));
    StoreStep(job, s, i);
    DeferredSteps(job, Next(job, s, Worker(i)), i);
    assert s.phases[i := Stored][i := Finished] == s.phases[i := Finished];
  }

  lemma ParkedRowsWithout(job: Job, late: set<nat>, i: nat, j: nat)
    requires j < i <= |job.answers| && j in late
    ensures Parked(job, late, i).phases[j := Finished] == Parked(job, late - {j}, i).phases
    ensures Parked(job, late, i).results[j := ResultSlot(job.answers[j])] == Parked(job, late - {j}, i).results
    ensures Parked(job, late, i).errs[j := ErrorSlot(job.answers[j])] == Parked(job, late - {j}, i).errs
  {
  }

  /** Finishing a late worker is parking without it. */
  lemma ParkedWithout(job: Job, late: set<nat>, i: nat, j: nat)
    requires j < i <= |job.answers| && j in late
    ensures FinishedBy(job, Parked(job, late, i), j) == Parked(job, late - {j}, i)
  {
    ParkedRowsWithout(job, late, i, j);
    MemberSize(Before(late, i), j);
    assert Before(late, i) - {j} == Before(late - {j}, i);
  }

  /** Spawning worker i makes it one of those that are late. */
  lemma ParkedWith(job: Job, late: set<nat>, i: nat)
    requires i < |job.answers|
    ensures StartedBy(job, Parked(job, late, i), i) == Parked(job, late + {i}, i + 1)
  {
    var s, t := StartedBy(job, Parked(job, late, i), i), Parked(job, late + {i}, i + 1);
    assert s.phases == t.phases && s.results == t.results && s.errs == t.errs;
    BeforeNext(late + {i}, i);
    assert Before(late + {i}, i) == Before(late, i);
  }

  lemma SpawnParked(job: Job, late: set<nat>, i: nat)
    requires i < |job.answers| && FewLate(job, late) && Reachable(job, Parked(job, late, i))
    ensures Reachable(job, Parked(job, late + {i}, i + 1))
  {
    ParkedSlots(job, late, i);
    SpawnNext(job, Parked(job, late, i), i);
    ParkedWith(job, late, i);
  }

  lemma FinishParked(job: Job, late: set<nat>, i: nat, j: nat)
    requires j < i <= |job.answers| && j in late && Reachable(job, Parked(job, late, i))
    ensures Reachable(job, Parked(job, late - {j}, i))
  {
    assert j in Before(late, i);
    RunWorker(job, Parked(job, late, i), j);
    ParkedWithout(job, late, i, j);
  }

  /** Main spawns worker i, which either stays busy or runs to its end before main goes on. */
  lemma ParkNext(job: Job, late: set<nat>, i: nat)
    requires i < |job.answers| && FewLate(job, late) && Reachable(job, Parked(job, late, i))
    ensures Reachable(job, Parked(job, late, i + 1))
  {
    SpawnParked(job, late, i);
    if i in late {
      assert late + {i} == late;
    } else {
      FinishParked(job, late + {i}, i + 1, i);
      assert late + {i} - {i} == late;
    }
  }

  lemma {:induction false} ParkedReachable(job: Job, late: set<nat>, i: nat)
    requires i <= |job.answers| && FewLate(job, late)
    ensures Reachable(job, Parked(job, late, i))
  {
    if i == 0 {
      assert Before(late, 0) == {};
      assert Parked(job, late, 0) == Init(job);
      assert Execute(job, []) == Some(Init(job));
    } else {
      ParkedReachable(job, late, i - 1);
      ParkNext(job, late, i - 1);
    }
  }

  /** When main reaches its scan, exactly the workers of `hidden` can still be busy. */
  lemma HiddenReachable(job: Job, hidden: set<nat>)
    requires |WithLast(job.answers, hidden)| <= 10
    ensures Reachable(job, Parked(job, hidden, |job.answers|))
  {
    var n, late := |job.answers|, WithLast(job.answers, hidden);
    ParkedReachable(job, late, n);
    if late != hidden {
      FinishParked(job, late, n, n - 1);
      assert late - {n - 1} == hidden;
    }
  }

  /** The answers as the scan sees them while the workers of `hidden` are busy. */
  function Seen(answers: seq<Answer>, hidden: set<nat>): (r: seq<Answer>) {
    seq(|answers|, i requires 0 <= i < |answers| => if i in hidden then Success(None) else answers[i])
  }

  lemma HidingStep(job: Job, hidden: set<nat>, i: nat, s: State)
    requires i < |job.answers| && Sized(job, s) && s.pc == Scanning(i)
    requires s.errs == Parked(job, hidden, |job.answers|).errs && s.found == Failures(Seen(job.answers, hidden), i)
    ensures Next(job, s, Main) == s.(pc := Scanning(i + 1), found := Failures(Seen(job.answers, hidden), i + 1))
  {
  }

  lemma {:induction false} HidingScan(job: Job, hidden: set<nat>, i: nat)
    requires job.order.ScanThenWait? && i <= |job.answers| && |WithLast(job.answers, hidden)| <= 10
    ensures var found := Failures(Seen(job.answers, hidden), i);
            Reachable(job, Parked(job, hidden, |job.answers|).(pc := Scanning(i), found := found))
  {
    var parked, seen := Parked(job, hidden, |job.answers|), Seen(job.answers, hidden);
    if i == 0 {
      HiddenReachable(job, hidden);
      assert parked.(pc := Scanning(0), found := []) == parked;
    } else {
      HidingScan(job, hidden, i - 1);
      var s := parked.(pc := Scanning(i - 1), found := Failures(seen, i - 1));
      ReachNext(job, s, Main);
      HidingStep(job, hidden, i - 1, s);
    }
  }

  /** From the final wait every continuation returns, and reports what was found before. */
  lemma {:induction false} WaitEnds(job: Job, s: State) returns (t: State)
    requires job.order.ScanThenWait? && Reachable(job, s) && s.pc.Waiting?
    ensures Reachable(job, t) && t.pc.Returned? && t.found == s.found
    decreases Work(job, s)
  {
    ReachableInv(job, s);
    var a := Progress(job, s);
    ReachNext(job, s, a);
    StepWork(job, s, a);
    t := Next(job, s, a);
    if t.pc.Waiting? {
      t := WaitEnds(job, t);
    }
  }

  /** Some run reports exactly the failures outside `hidden`. */
  lemma HidingRun(job: Job, hidden: set<nat>) returns (t: State)
    requires job.order.ScanThenWait? && |WithLast(job.answers, hidden)| <= 10
    ensures Reachable(job, t) && t.pc.Returned? && t.found == Failures(Seen(job.answers, hidden), |job.answers|)
  {
    var n := |job.answers|;
    HidingScan(job, hidden, n);
    var scanned := Parked(job, hidden, n).(pc := Scanning(n), found := Failures(Seen(job.answers, hidden), n));
    ReachNext(job, scanned, Main);
    t := Next(job, scanned, Main);
    if t.pc.Waiting? {
      t := WaitEnds(job, t);
    }
  }

  lemma SeenHides(job: Job, hidden: set<nat>, s: State)
    requires hidden <= Failing(job.answers) && s.found == Failures(Seen(job.answers, hidden), |job.answers|)
    ensures Hidden(job, s) == hidden
  {
    var seen := Seen(job.answers, hidden);
    FailuresExact(seen, |seen|);
    forall j: nat | j < |seen|
      ensures Listed(s.found, j) <==> seen[j].Failure?
    {
    }
  }

  /**
   In the order of the source, a set of failing segments is what some run hides exactly when these
   segments and the last one together are at most ten.
   */
  lemma HiddenIff(job: Job, hidden: set<nat>)
    requires job.order.ScanThenWait? && hidden <= Failing(job.answers)
    ensures (exists s :: Reachable(job, s) && s.pc.Returned? && Hidden(job, s) == hidden) <==>
            |WithLast(job.answers, hidden)| <= 10
  {
    if s :| Reachable(job, s) && s.pc.Returned? && Hidden(job, s) == hidden {
      ScanFirstGuarantee(job, s);
    }
    if |WithLast(job.answers, hidden)| <= 10 {
      var t := HidingRun(job, hidden);
      SeenHides(job, hidden, t);
    }
  }

  /** No error is reported when every failure is hidden. */
  lemma NothingFound(job: Job, s: State)
    requires Sound(job.answers, |job.answers|, s.found)
    ensures s.found == [] <==> Hidden(job, s) == Failing(job.answers)
  {
    if s.found != [] {
      assert s.found[0].0 in Failing(job.answers) && Listed(s.found, s.found[0].0);
    }
  }

  /** So some run returns without an error exactly when all failing segments and the last are at most ten. */
  lemma NilReturnIff(job: Job)
    requires job.order.ScanThenWait?
    ensures (exists s :: Reachable(job, s) && s.pc.Returned? && s.found == []) <==>
            |WithLast(job.answers, Failing(job.answers))| <= 10
  {
    HiddenIff(job, Failing(job.answers));
    forall s | Reachable(job, s) && s.pc.Returned?
      ensures s.found == [] <==> Hidden(job, s) == Failing(job.answers)
    {
      ScanFirstGuarantee(job, s);
      NothingFound(job, s);
    }
  }

  /** Every run reports every failure only if nothing fails. */
  lemma AllReportedIff(job: Job)
    requires job.order.ScanThenWait?
    ensures (forall s | Reachable(job, s) && s.pc.Returned? :: Hidden(job, s) == {}) <==> Failing(job.answers) == {}
  {
    if i :| i in Failing(job.answers) {
      assert WithLast(job.answers, {i}) == {i, |job.answers| - 1};
      HiddenIff(job, {i});
      var s :| Reachable(job, s) && s.pc.Returned? && Hidden(job, s) == {i};
      assert i in Hidden(job, s);
    }
  }

  /** One failing segment separates the two orders. */
  lemma OrderMatters(e: Error)
    ensures exists s :: Reachable(Job([Failure(e)], ScanThenWait), s) && s.pc.Returned? && s.found == []
    ensures forall s | Reachable(Job([Failure(e)], WaitThenScan), s) && s.pc.Returned? :: s.found == [(0, e)]
  {
    var answers: seq<Answer> := [Failure(e)];
    var late := WithLast(answers, Failing(answers));
    assert late <= {0};
    Counting.SubsetSize(late, {0});
    NilReturnIff(Job(answers, ScanThenWait));
    forall s | Reachable(Job(answers, WaitThenScan), s) && s.pc.Returned?
      ensures s.found == [(0, e)]
    {
      WaitFirstIsSequential(Job(answers, WaitThenScan), s);
      assert Failures(answers, 0) == [] && Failures(answers, 1) == [(0, e)];
    }
  }
}
