/** ExtractMultiTags with its shared slots, semaphore and wait group updated in place. */
module MultiTagExtraction {
  import opened Wrappers
  import opened FanOut

  class Extraction {
    const job: Job
    const phases: array<Phase>
    const results: array<Tags>
    const errs: array<Option<Error>>
    var pc: Pc
    var sem: int
    var wg: int
    var found: seq<(nat, Error)>

    function View(): (s: State)
      reads this, phases, results, errs
    {
      State(pc, phases[..], sem, wg, results[..], errs[..], found)
    }

    predicate Valid()
      reads this, phases, results, errs
    {
      Sized(job, View())
    }

    constructor (job: Job)
      ensures this.job == job && Valid() && View() == Init(job)
      ensures fresh(phases) && fresh(results) && fresh(errs)
    {
      var n := |job.answers|;
      this.job := job;
      phases := new Phase[n](_ => Idle);
      results := new Tags[n](_ => None);
      errs := new Option<Error>[n](_ => None);
      pc, sem, wg, found := LoopHead(job, 0), 0, 0, [];
    }

    /** The next statement of the spawning loop, of the scan or of the wait. */
    method MainStep()
      requires Valid() && Enabled(job, View(), Main)
      modifies this, phases
      ensures Valid() && View() == Next(job, old(View()), Main)
    {
      match pc {
        case Adding(i) =>
          wg := wg + 1;
          pc := Acquiring(i);
        case Acquiring(i) =>
          sem := sem + 1;
          pc := Spawning(i);
        case Spawning(i) =>
          phases[i] := Running;
          pc := LoopHead(job, i + 1);
        case Scanning(i) =>
          if i < |job.answers| {
            if errs[i].Some? {
              found := found + [(i, errs[i].value)];
            }
            pc := Scanning(i + 1);
          } else if job.order.ScanThenWait? && found == [] {
            pc := Waiting;
          } else {
            pc := Returned;
          }
        case Waiting =>
          pc := if job.order.ScanThenWait? then Returned else Scanning(0);
      }
    }

    /** The next statement of the goroutine for segment i, or of its deferred calls. */
    method WorkerStep(i: nat)
      requires Valid() && Enabled(job, View(), Worker(i))
      modifies this, phases, results, errs
      ensures Valid() && View() == Next(job, old(View()), Worker(i))
    {
      match phases[i] {
        case Running =>
          match job.answers[i] {
            case Failure(e) => errs[i] := Some(e);
            case Success(tags) => results[i] := tags;
          }
          phases[i] := Stored;
        case Stored =>
          sem := sem - 1;
          phases[i] := Released;
        case Released =>
          wg := wg - 1;
          phases[i] := Finished;
      }
    }

    /** Some agent that can move, chosen arbitrarily. */
    method Schedule() returns (a: Agent)
      requires Valid() && Inv(job, View()) && !pc.Returned?
      ensures Enabled(job, View(), a)
    {
      ghost var free := Progress(job, View());
      var agents := {Main} + set i | 0 <= i < |job.answers| :: Worker(i);
      assert free in agents;
      a :| a in agents && Enabled(job, View(), a);
    }

    method Step(a: Agent)
      requires Valid() && Enabled(job, View(), a)
      modifies this, phases, results, errs
      ensures Valid() && View() == Next(job, old(View()), a)
    {
      match a {
        case Main => MainStep();
        case Worker(i) => WorkerStep(i);
      }
    }

    /** Lets an arbitrary scheduler run the program until main returns. */
    method Run()
      requires Valid() && Reachable(job, View())
      modifies this, phases, results, errs
      ensures Valid() && Reachable(job, View()) && pc.Returned?
    {
      ReachableInv(job, View());
      while !pc.Returned?
        invariant Valid() && Reachable(job, View()) && Inv(job, View())
        decreases Work(job, View())
      {
        var a := Schedule();
        StepWork(job, View(), a);
        ReachNext(job, View(), a);
        Step(a);
        ReachableInv(job, View());
      }
    }
  }

  lemma {:induction false} ReturnGuarantee(job: Job, s: State)
    requires Reachable(job, s) && s.pc.Returned?
    ensures |s.results| == |job.answers|
    ensures forall i | 0 <= i < |s.results| :: s.results[i] == None || s.results[i] == Results(job.answers)[i]
    ensures job.order.WaitThenScan? ==> s.found == Failures(job.answers, |job.answers|)
    ensures job.order.WaitThenScan? || s.found == [] ==> s.results == Results(job.answers)
    ensures Sound(job.answers, |job.answers|, s.found)
    ensures |if job.order.ScanThenWait? then WithLast(job.answers, Hidden(job, s)) else Hidden(job, s)| <= 10
  {
    ReachableInv(job, s);
    forall i: nat | i < |s.results|
      ensures s.results[i] == None || s.results[i] == Results(job.answers)[i]
    {
      assert SlotsOf(job, s, i);
    }
    if job.order.WaitThenScan? {
      WaitFirstIsSequential(job, s);
      FailuresExact(job.answers, |job.answers|);
      assert Hidden(job, s) == {};
    } else {
      ScanFirstGuarantee(job, s);
    }
  }

  /**
   The call: its results and the reported errors at the moment main returns. On an error return
   workers may still be busy, so a slot may still be nil.
   */
  method ExtractMultiTags(job: Job) returns (results: seq<Tags>, errMsgs: seq<(nat, Error)>)
    ensures |results| == |job.answers|
    ensures forall i | 0 <= i < |results| :: results[i] == None || results[i] == Results(job.answers)[i]
    ensures job.order.WaitThenScan? ==> errMsgs == Failures(job.answers, |job.answers|)
    ensures job.order.WaitThenScan? || errMsgs == [] ==> results == Results(job.answers)
    ensures exists s :: Reachable(job, s) && s.pc.Returned? && s.results == results && s.found == errMsgs
    ensures Sound(job.answers, |job.answers|, errMsgs)
    ensures var hidden := set j | j in Failing(job.answers) && !Listed(errMsgs, j);
            |if job.order.ScanThenWait? then WithLast(job.answers, hidden) else hidden| <= 10
  {
    var e := new Extraction(job);
    assert Execute(job, []) == Some(Init(job));
    e.Run();
    ghost var s := e.View();
    results, errMsgs := e.results[..], e.found;
    ReturnGuarantee(job, s);
    assert Hidden(job, s) == set j | j in Failing(job.answers) && !Listed(errMsgs, j);
  }
}
