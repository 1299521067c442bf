/**
 What a request analysis (internal/travelroutes/service.go, AnalyzeRequest) makes of segments whose
 extraction failed, and what the editor of public/app.js then shows. The answers of the extractor are
 given; the schedule of the fan-out is arbitrary.
 */
module Analysis {
  import opened Wrappers
  import opened Selections
  import opened FanOut
  import opened RouteService
  import TagEditor

  /** The extractor found a tag for the segment. */
  predicate Answered(a: Answer) {
    a.Success? && NonemptyTags(a.value)
  }

  predicate AnyAnswered(answers: seq<Answer>) {
    exists i :: 0 <= i < |answers| && Answered(answers[i])
  }

  lemma ResultsHaveTags(answers: seq<Answer>)
    ensures HasTags(Results(answers)) <==> AnyAnswered(answers)
  {
    forall i | 0 <= i < |answers|
      ensures NonemptyTags(Results(answers)[i]) <==> Answered(answers[i])
    {
    }
  }

  lemma ReturnIsExact(job: Job, s: State)
    requires Reachable(job, s) && s.pc.Returned? && s.found == []
    ensures s.results == Results(job.answers)
  {
    if job.order.ScanThenWait? {
      ScanFirstGuarantee(job, s);
    } else {
      WaitFirstIsSequential(job, s);
    }
  }

  /** A successful analysis has the tags of every segment, and nil for those that failed unnoticed. */
  lemma SuccessIsExact(job: Job, say: ErrorText, r: Result<seq<Tags>, Error>)
    requires MayReturn(job, say, r) && r.Success?
    ensures r.value == Results(job.answers) && AnyAnswered(job.answers)
  {
    var s :| Reachable(job, s) && s.pc.Returned? && r == Verdict(say, s);
    ReturnIsExact(job, s);
    ResultsHaveTags(job.answers);
  }

  ghost predicate MaySucceed(job: Job, say: ErrorText) {
    exists r :: MayReturn(job, say, r) && r.Success?
  }

  lemma QuietRunSucceeds(job: Job, say: ErrorText, s: State)
    requires Reachable(job, s) && s.pc.Returned? && s.found == [] && AnyAnswered(job.answers)
    ensures MaySucceed(job, say)
  {
    ReturnIsExact(job, s);
    ResultsHaveTags(job.answers);
    assert MayReturn(job, say, Verdict(say, s));
  }

  /**
   As written, an analysis can succeed exactly when some segment has tags and the failing segments
   together with the last one number at most ten, so up to ten segments may have failed.
   */
  lemma SuccessIff(answers: seq<Answer>, say: ErrorText)
    ensures MaySucceed(Job(answers, ScanThenWait), say) <==>
            AnyAnswered(answers) && |WithLast(answers, Failing(answers))| <= 10
  {
    var job := Job(answers, ScanThenWait);
    NilReturnIff(job);
    if r :| MayReturn(job, say, r) && r.Success? {
      SuccessIsExact(job, say, r);
    }
    if AnyAnswered(answers) && |WithLast(answers, Failing(answers))| <= 10 {
      var s :| Reachable(job, s) && s.pc.Returned? && s.found == [];
      QuietRunSucceeds(job, say, s);
    }
  }

  /** Waiting first, it would succeed exactly when some segment has tags and none failed. */
  lemma SuccessWaitingIff(answers: seq<Answer>, say: ErrorText)
    ensures MaySucceed(Job(answers, WaitThenScan), say) <==> AnyAnswered(answers) && Failing(answers) == {}
  {
    var job := Job(answers, WaitThenScan);
    if r :| MayReturn(job, say, r) && r.Success? {
      var s :| Reachable(job, s) && s.pc.Returned? && r == Verdict(say, s);
      SuccessIsExact(job, say, r);
      WaitFirstIsSequential(job, s);
    }
    if AnyAnswered(answers) && Failing(answers) == {} {
      var s := SomeReturn(job);
      WaitFirstIsSequential(job, s);
      QuietRunSucceeds(job, say, s);
    }
  }

  lemma {:induction false} AnsweredPositions(answers: seq<Answer>, n: nat)
    requires n <= |answers|
    ensures Positions(Results(answers), n, NonemptyTags) == Positions(answers, n, Answered)
  {
    if n > 0 {
      AnsweredPositions(answers, n - 1);
    }
  }

  /** Groups numbered from 1 with the tags of these segments. */
  function Groups(answers: seq<Answer>, idx: seq<nat>): (groups: seq<TagEditor.Group>)
    requires forall j | 0 <= j < |idx| :: idx[j] < |answers| && Answered(answers[idx[j]])
  {
    seq(|idx|, j requires 0 <= j < |idx| =>
      assert Answered(answers[idx[j]]);
      TagEditor.Group(j + 1, answers[idx[j]].value.value))
  }

  /** After a success the editor opens with exactly the segments that did not fail and have tags, in order. */
  lemma EditorShowsAnswered(job: Job, say: ErrorText, r: Result<seq<Tags>, Error>)
    requires MayReturn(job, say, r) && r.Success?
    ensures var answers := job.answers;
            var idx := Positions(answers, |answers|, Answered);
            && IsSelection(answers, |answers|, Answered, idx) && idx != []
            && TagEditor.Rendered(r.value) == Groups(answers, idx)
  {
    var answers := job.answers;
    SuccessIsExact(job, say, r);
    SelectionExact(answers, |answers|, Answered);
    AnsweredPositions(answers, |answers|);
    TagEditor.RenderedExact(r.value);
  }
}
