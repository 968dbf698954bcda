/** The story run on one test class and its superclasses (StoryTesterImpl.testOnInheritanceTree).

    The first sentence is resolved by its own kind and invoked once on a new instance. Each
    later sentence is then taken in order: a Given is passed over; a When saves the declared
    fields first if no backup of the current group exists yet, then runs its handler; a Then
    asks for a fresh backup before the next When and runs its handler, and when that throws a
    comparison failure the declared fields are restored and the failure recorded. The run ends
    with the report when any Then failed. */
module Engine {
  import opened Wrappers
  import opened Sentences
  import opened Parser
  import opened Reports
  import opened Classes
  import opened Resolver
  import opened Snapshot

  /** Exceptions other than the three not-found errors that end a run. */
  datatype Fault =
    | EmptyStory     // get(0) on a story without sentences
    | BadAnnotation  // an annotation without a space, cut at lastIndexOf(" ") == -1
    | HandlerThrew   // a Given or When handler threw, or a Then handler threw something
                     // other than a comparison failure
    | NoBackup       // a Then failed before any When of the run saved the fields, and the
                     // class declares fields to restore

  /** How a run ends. */
  datatype Outcome =
    | Passed
    | Failed(report: Report)
    | GivenNotFound
    | WhenNotFound
    | ThenNotFound
    | IllegalArgument  // a null story or class, or a line the pattern does not match
    | Fatal(fault: Fault)

  /** An outcome that stops the run in the middle of the sentences. */
  predicate Aborts(o: Outcome) {
    o.WhenNotFound? || o.ThenNotFound? || o.Fatal?
  }

  /** The run's state apart from the report: the test object, the backup of its declared
      fields, and whether the next When must take a new backup. */
  datatype Frame = Frame(obj: State, backup: Option<Backup>, backupNeeded: bool)

  /** A failed Then sentence with the expected and actual text of its comparison. */
  datatype Failure = Failure(sentence: Sentence, expected: string, actual: string)

  /** The state after one sentence and the failure, if any, it produced. */
  datatype Step = Step(frame: Frame, failure: Option<Failure>)

  /** The whole run state: the frame and the report built so far. */
  datatype RunState = RunState(frame: Frame, report: Option<Report>)

  /** The sentence is a Then whose handler, run on obj, throws a comparison failure. */
  predicate ThrowsComparison(c: Class, invoke: Invoker, obj: State, s: Sentence) {
    s.kind == Then && Resolve(c, s).Found? && invoke(Resolve(c, s).handler, obj, s.param).CompareFailure?
  }

  /** One sentence after the first. Handlers run on the current object: a handler that
      returns leaves its state as the object; a Then handler that throws a comparison
      failure is recorded, with the declared fields put back from the backup. */
  function StepSentence(c: Class, invoke: Invoker, fr: Frame, s: Sentence): (r: Result<Step, Outcome>)
    ensures s.kind == Given ==> r == Ok(Step(fr, None))
    ensures r.Err? ==> Aborts(r.error) && r.error != Fatal(EmptyStory)
    ensures r == Err(WhenNotFound) <==> s.kind == When && Resolve(c, s).NotFound?
    ensures r == Err(ThenNotFound) <==> s.kind == Then && Resolve(c, s).NotFound?
    ensures s.kind != Given && Resolve(c, s).AnnotationWithoutSpace? ==> r == Err(Fatal(BadAnnotation))
    ensures r.Ok? && s.kind == When ==>
      !r.value.frame.backupNeeded
      && r.value.frame.backup == (if fr.backupNeeded then Some(Capture(c, fr.obj)) else fr.backup)
    ensures r.Ok? && s.kind == Then ==> r.value.frame.backupNeeded && r.value.frame.backup == fr.backup
    ensures s.kind == When && Resolve(c, s).Found? ==>
      var e := invoke(Resolve(c, s).handler, fr.obj, s.param);
      (r.Ok? <==> e.Returned?)
      && (r.Ok? ==> r.value.frame.obj == e.state && r.value.failure.None?)
      && (r.Err? ==> r.error == Fatal(HandlerThrew))
    ensures s.kind == Then && Resolve(c, s).Found? ==>
      var e := invoke(Resolve(c, s).handler, fr.obj, s.param);
      (e.Returned? ==> r.Ok? && r.value.frame.obj == e.state && r.value.failure.None?)
      && (e.Crashed? ==> r == Err(Fatal(HandlerThrew)))
      && (e.CompareFailure? && fr.backup.Some? ==>
            r.Ok? && r.value.failure == Some(Failure(s, e.expected, e.actual))
            && r.value.frame.obj == Restore(c, e.state, fr.backup.value))
      && (e.CompareFailure? && fr.backup.None? && c.fields == [] ==>
            r.Ok? && r.value.failure == Some(Failure(s, e.expected, e.actual)) && r.value.frame.obj == e.state)
      && (e.CompareFailure? && fr.backup.None? && c.fields != [] ==> r == Err(Fatal(NoBackup)))
    ensures r.Ok? && r.value.failure.Some? <==> ThrowsComparison(c, invoke, fr.obj, s) && (fr.backup.Some? || c.fields == [])
    ensures r.Ok? && r.value.failure.Some? ==>
      r.value.failure.value.sentence == s
      && (fr.backup.Some? ==>
            forall f :: f in Declared(c) ==> Lookup(r.value.frame.obj, f) == Lookup(fr.backup.value, f))
  {
    match s.kind
    case Given => Ok(Step(fr, None))
    case When =>
      var saved := if fr.backupNeeded then fr.(backup := Some(Capture(c, fr.obj)), backupNeeded := false) else fr;
      (match Resolve(c, s)
       case NotFound => Err(WhenNotFound)
       case AnnotationWithoutSpace => Err(Fatal(BadAnnotation))
       case Found(h) =>
         match invoke(h, saved.obj, s.param)
         case Returned(st) => Ok(Step(saved.(obj := st), None))
         case CompareFailure(_, _, _) => Err(Fatal(HandlerThrew))
         case Crashed => Err(Fatal(HandlerThrew)))
    case Then =>
      var flagged := fr.(backupNeeded := true);
      match Resolve(c, s)
      case NotFound => Err(ThenNotFound)
      case AnnotationWithoutSpace => Err(Fatal(BadAnnotation))
      case Found(h) =>
        match invoke(h, flagged.obj, s.param)
        case Returned(st) => Ok(Step(flagged.(obj := st), None))
        case CompareFailure(st, expected, actual) =>
          var failure := Some(Failure(s, expected, actual));
          (match flagged.backup
           case None =>
             // restoreBackup only dereferences the missing backup when there is a field to restore
             if c.fields == [] then Ok(Step(flagged.(obj := st), failure)) else Err(Fatal(NoBackup))
           case Some(b) => Ok(Step(flagged.(obj := Restore(c, st, b)), failure)))
        case Crashed => Err(Fatal(HandlerThrew))
  }

  /** The report after a sentence: the first failure creates it, later ones only count. */
  function Record(report: Option<Report>, failure: Option<Failure>): (r: Option<Report>)
    ensures failure.None? ==> r == report
    ensures failure.Some? ==> r.Some?
    ensures failure.Some? && report.None? ==>
      NumFail(r.value) == 1 && r.value.firstSentence == failure.value.sentence
      && StoryExpected(r.value) == failure.value.expected && TestResult(r.value) == failure.value.actual
    ensures failure.Some? && report.Some? ==>
      NumFail(r.value) == NumFail(report.value) + 1 && r.value.firstSentence == report.value.firstSentence
      && StoryExpected(r.value) == StoryExpected(report.value) && TestResult(r.value) == TestResult(report.value)
  {
    match failure
    case None => report
    case Some(f) =>
      match report
      case None => Some(NewReport(f.sentence, f.expected, f.actual))
      case Some(r) => Some(IncFailCount(r))
  }

  /** The loop over the sentences after the first. */
  function RunRest(c: Class, invoke: Invoker, rs: RunState, ss: seq<Sentence>): (r: Result<RunState, Outcome>)
    ensures r.Err? ==> Aborts(r.error) && r.error != Fatal(EmptyStory)
    decreases |ss|
  {
    if |ss| == 0 then Ok(rs)
    else
      match StepSentence(c, invoke, rs.frame, ss[0])
      case Err(o) => Err(o)
      case Ok(st) => RunRest(c, invoke, RunState(st.frame, Record(rs.report, st.failure)), ss[1..])
  }

  /** The first sentence, whatever its kind, resolved and invoked on a new instance. */
  function Opening(c: Class, invoke: Invoker, ss: seq<Sentence>): (r: Result<Frame, Outcome>)
    ensures r.Ok? ==> |ss| > 0 && r.value.backup.None? && r.value.backupNeeded
    ensures |ss| > 0 && Resolve(c, ss[0]).Found? ==>
      var e := invoke(Resolve(c, ss[0]).handler, c.init, ss[0].param);
      (r.Ok? <==> e.Returned?) && (r.Ok? ==> r.value.obj == e.state)
    ensures r == Err(GivenNotFound) <==> |ss| > 0 && Resolve(c, ss[0]).NotFound?
    ensures r == Err(Fatal(EmptyStory)) <==> |ss| == 0
    ensures |ss| > 0 && Resolve(c, ss[0]).Found? && !invoke(Resolve(c, ss[0]).handler, c.init, ss[0].param).Returned? ==>
      r == Err(Fatal(HandlerThrew))
    ensures |ss| > 0 && Resolve(c, ss[0]).AnnotationWithoutSpace? ==> r == Err(Fatal(BadAnnotation))
    ensures r.Err? ==> r.error.GivenNotFound? || r.error.Fatal?
  {
    if |ss| == 0 then Err(Fatal(EmptyStory))
    else
      match Resolve(c, ss[0])
      case NotFound => Err(GivenNotFound)
      case AnnotationWithoutSpace => Err(Fatal(BadAnnotation))
      case Found(h) =>
        match invoke(h, c.init, ss[0].param)
        case Returned(st) => Ok(Frame(st, None, true))
        case CompareFailure(_, _, _) => Err(Fatal(HandlerThrew))
        case Crashed => Err(Fatal(HandlerThrew))
  }

  /** A run over parsed sentences. */
  function Run(c: Class, invoke: Invoker, ss: seq<Sentence>): (r: Outcome)
    ensures r == Fatal(EmptyStory) <==> |ss| == 0
    ensures r == GivenNotFound <==> |ss| > 0 && Resolve(c, ss[0]).NotFound?
    ensures !r.IllegalArgument?
    ensures r.Failed? ==>
      1 <= NumFail(r.report) < |ss| && r.report.firstSentence in ss && r.report.firstSentence.kind == Then
  {
    match Opening(c, invoke, ss)
    case Err(o) => o
    case Ok(fr) =>
      LoopVerdict(c, invoke, fr, ss[1..]);
      var t := Collect(c, invoke, fr, ss[1..]);
      assert t.Ok? && |t.value.failures| > 0 ==> t.value.failures[0].sentence in ss[1..];
      Finish(RunRest(c, invoke, RunState(fr, None), ss[1..]))
  }

  /** The end of the loop: its error, or the report when any Then failed, or a pass. */
  function Finish(x: Result<RunState, Outcome>): (r: Outcome)
    ensures x.Err? ==> r == x.error
    ensures x.Ok? ==> (r.Failed? <==> x.value.report.Some?) && (r == Passed <==> x.value.report.None?)
    ensures x.Ok? && r.Failed? ==> r.report == x.value.report.value
  {
    match x
    case Err(o) => o
    case Ok(rs) => if rs.report.Some? then Failed(rs.report.value) else Passed
  }

  /** testOnInheritanceTree: the story is parsed before anything else happens. */
  function TestOnInheritanceTree(story: Option<string>, c: Option<Class>, invoke: Invoker): (r: Outcome)
    ensures story.None? || c.None? ==> r == IllegalArgument
    ensures story.Some? && ParseStory(story).Err? ==> r == IllegalArgument
    ensures r == IllegalArgument <==> story.None? || c.None? || ParseStory(story).Err?
  {
    if story.None? || c.None? then IllegalArgument
    else
      match ParseStory(story)
      case Err(_) => IllegalArgument
      case Ok(ss) => Run(c.value, invoke, ss)
  }

  // ---- A reference reading of the loop: the list of failures ----

  /** Where the sentences after the first leave the frame, and every failure in order. */
  datatype Trace = Trace(last: Frame, failures: seq<Failure>)

  function AsSeq(f: Option<Failure>): (fs: seq<Failure>) {
    if f.Some? then [f.value] else []
  }

  /** The loop again, collecting failures instead of counting them. */
  function Collect(c: Class, invoke: Invoker, fr: Frame, ss: seq<Sentence>): (r: Result<Trace, Outcome>)
    ensures r.Err? ==> Aborts(r.error) && r.error != Fatal(EmptyStory)
    ensures r.Ok? ==> |r.value.failures| <= |ss|
    ensures r.Ok? ==> forall i :: 0 <= i < |r.value.failures| ==>
      r.value.failures[i].sentence in ss && r.value.failures[i].sentence.kind == Then
    decreases |ss|
  {
    if |ss| == 0 then Ok(Trace(fr, []))
    else
      match StepSentence(c, invoke, fr, ss[0])
      case Err(o) => Err(o)
      case Ok(st) =>
        match Collect(c, invoke, st.frame, ss[1..])
        case Err(o) => Err(o)
        case Ok(t) => Ok(Trace(t.last, AsSeq(st.failure) + t.failures))
  }

  /** The report that a list of failures adds to an existing one. */
  function Summary(report: Option<Report>, fs: seq<Failure>): (summary: Option<Report>) {
    if |fs| == 0 then report
    else
      match report
      case None => Some(IncTimes(NewReport(fs[0].sentence, fs[0].expected, fs[0].actual), |fs| - 1))
      case Some(r) => Some(IncTimes(r, |fs|))
  }

  lemma SummaryRecord(report: Option<Report>, f: Option<Failure>, fs: seq<Failure>)
    ensures Summary(Record(report, f), fs) == Summary(report, AsSeq(f) + fs)
  {
    if f.Some? {
      var all := [f.value] + fs;
      assert all[0] == f.value && |all| == |fs| + 1;
      if report.Some? {
        IncTimesCount(IncFailCount(report.value), |fs|);
        IncTimesCount(report.value, |fs| + 1);
      } else {
        var first := NewReport(f.value.sentence, f.value.expected, f.value.actual);
        IncTimesCount(first, |fs|);
        IncTimesCount(first, 0);
      }
    }
  }

  /** The counting loop and the collecting loop agree: same end, same error, and the
      report is the summary of the collected failures. */
  lemma {:induction false} RunRestCollects(c: Class, invoke: Invoker, fr: Frame, report: Option<Report>, ss: seq<Sentence>)
    ensures Collect(c, invoke, fr, ss).Err? ==>
      RunRest(c, invoke, RunState(fr, report), ss) == Err(Collect(c, invoke, fr, ss).error)
    ensures Collect(c, invoke, fr, ss).Ok? ==>
      RunRest(c, invoke, RunState(fr, report), ss)
        == Ok(RunState(Collect(c, invoke, fr, ss).value.last, Summary(report, Collect(c, invoke, fr, ss).value.failures)))
    decreases |ss|
  {
    if |ss| > 0 {
      var step := StepSentence(c, invoke, fr, ss[0]);
      if step.Ok? {
        var st := step.value;
        RunRestCollects(c, invoke, st.frame, Record(report, st.failure), ss[1..]);
        var rest := Collect(c, invoke, st.frame, ss[1..]);
        if rest.Ok? {
          SummaryRecord(report, st.failure, rest.value.failures);
        }
      }
    }
  }

  /** How a collected trace ends the run: its error, a pass when nothing failed, or one
      report counting every failure and carrying the first one's details. */
  function Verdict(t: Result<Trace, Outcome>): (o: Outcome) {
    match t
    case Err(o) => o
    case Ok(tr) =>
      if |tr.failures| == 0 then Passed
      else
        var first := tr.failures[0];
        Failed(Report(|tr.failures|, first.sentence, first.expected, first.actual))
  }

  /** A run passes when no Then failed and otherwise raises one report that counts every
      failed Then and carries the first one's sentence, expected and actual text. */
  lemma RunReportsFailures(c: Class, invoke: Invoker, ss: seq<Sentence>)
    ensures Opening(c, invoke, ss).Err? ==> Run(c, invoke, ss) == Opening(c, invoke, ss).error
    ensures Opening(c, invoke, ss).Ok? ==>
      Run(c, invoke, ss) == Verdict(Collect(c, invoke, Opening(c, invoke, ss).value, ss[1..]))
  {
    var o := Opening(c, invoke, ss);
    if o.Ok? {
      LoopVerdict(c, invoke, o.value, ss[1..]);
    }
  }

  /** The loop started without a report ends as the verdict on its collected trace. */
  lemma LoopVerdict(c: Class, invoke: Invoker, fr: Frame, rest: seq<Sentence>)
    ensures Finish(RunRest(c, invoke, RunState(fr, None), rest)) == Verdict(Collect(c, invoke, fr, rest))
  {
    var t := Collect(c, invoke, fr, rest);
    RunRestCollects(c, invoke, fr, None, rest);
    if t.Ok? {
      SummaryFromNothing(t.value.failures);
    }
  }

  /** The report summarising failures from scratch counts them all and carries the first. */
  lemma SummaryFromNothing(fs: seq<Failure>)
    ensures |fs| == 0 ==> Summary(None, fs) == None
    ensures |fs| > 0 ==> Summary(None, fs) == Some(Report(|fs|, fs[0].sentence, fs[0].expected, fs[0].actual))
  {
    if |fs| > 0 {
      IncTimesCount(NewReport(fs[0].sentence, fs[0].expected, fs[0].actual), |fs| - 1);
    }
  }

  // ---- Which Then sentences are reported ----

  /** The trace of a concatenation goes on from where the first part left the frame. */
  function Continue(t: Trace, r: Result<Trace, Outcome>): (t': Result<Trace, Outcome>) {
    match r
    case Err(o) => Err(o)
    case Ok(t2) => Ok(Trace(t2.last, t.failures + t2.failures))
  }

  lemma {:induction false} CollectAppend(c: Class, invoke: Invoker, fr: Frame, a: seq<Sentence>, b: seq<Sentence>)
    ensures Collect(c, invoke, fr, a + b)
      == (match Collect(c, invoke, fr, a)
          case Err(o) => Err(o)
          case Ok(t) => Continue(t, Collect(c, invoke, t.last, b)))
    decreases |a|
  {
    if |a| == 0 {
      assert a + b == b;
      var r := Collect(c, invoke, fr, b);
      if r.Ok? {
        assert [] + r.value.failures == r.value.failures;
      }
    } else {
      assert (a + b)[0] == a[0] && (a + b)[1..] == a[1..] + b;
      var step := StepSentence(c, invoke, fr, a[0]);
      if step.Ok? {
        var st := step.value;
        CollectAppend(c, invoke, st.frame, a[1..], b);
        var t := Collect(c, invoke, st.frame, a[1..]);
        if t.Ok? {
          var t2 := Collect(c, invoke, t.value.last, b);
          if t2.Ok? {
            assert AsSeq(st.failure) + (t.value.failures + t2.value.failures)
              == (AsSeq(st.failure) + t.value.failures) + t2.value.failures;
          }
        }
      }
    }
  }

  /** The i-th sentence is a Then whose handler, run on the object as the sentences before
      it left it, throws the comparison failure f, and the fields can be restored (a backup
      exists or the class declares none). */
  predicate FailsAt(c: Class, invoke: Invoker, fr: Frame, ss: seq<Sentence>, i: int, f: Failure) {
    0 <= i < |ss| && Collect(c, invoke, fr, ss[..i]).Ok?
    && var mid := Collect(c, invoke, fr, ss[..i]).value.last;
    ThrowsComparison(c, invoke, mid.obj, ss[i]) && (mid.backup.Some? || c.fields == [])
    && var e := invoke(Resolve(c, ss[i]).handler, mid.obj, ss[i].param);
    f == Failure(ss[i], e.expected, e.actual)
  }

  /** Every Then whose handler throws a comparison failure is listed, unless the run aborts. */
  lemma FailingThenListed(c: Class, invoke: Invoker, fr: Frame, ss: seq<Sentence>, i: int, f: Failure)
    requires FailsAt(c, invoke, fr, ss, i, f)
    ensures Collect(c, invoke, fr, ss).Ok? ==> f in Collect(c, invoke, fr, ss).value.failures
  {
    var mid := Collect(c, invoke, fr, ss[..i]).value;
    assert ss == ss[..i] + ss[i..];
    CollectAppend(c, invoke, fr, ss[..i], ss[i..]);
    var tail := ss[i..];
    assert tail[0] == ss[i];
    var step := StepSentence(c, invoke, mid.last, tail[0]);
    assert step.Ok? && step.value.failure == Some(f);
    var rest := Collect(c, invoke, mid.last, tail);
    if rest.Ok? {
      assert rest.value.failures[0] == f;
    }
  }

  /** Every listed failure is such a Then: nothing else is ever reported. */
  lemma {:induction false} ListedFailureThrown(c: Class, invoke: Invoker, fr: Frame, ss: seq<Sentence>, k: int)
    requires Collect(c, invoke, fr, ss).Ok? && 0 <= k < |Collect(c, invoke, fr, ss).value.failures|
    ensures exists i :: FailsAt(c, invoke, fr, ss, i, Collect(c, invoke, fr, ss).value.failures[k])
    decreases |ss|
  {
    var step := StepSentence(c, invoke, fr, ss[0]);
    var st := step.value;
    var rest := Collect(c, invoke, st.frame, ss[1..]);
    var fs := Collect(c, invoke, fr, ss).value.failures;
    assert fs == AsSeq(st.failure) + rest.value.failures;
    if k < |AsSeq(st.failure)| {
      assert fs[k] == st.failure.value;
      FirstStepFails(c, invoke, fr, ss);
    } else {
      var k' := k - |AsSeq(st.failure)|;
      assert fs[k] == rest.value.failures[k'];
      ListedFailureThrown(c, invoke, st.frame, ss[1..], k');
      var i' :| FailsAt(c, invoke, st.frame, ss[1..], i', rest.value.failures[k']);
      FailsAtShift(c, invoke, fr, ss, i', rest.value.failures[k']);
    }
  }

  /** A failure recorded by the first sentence's step is a failure at position 0. */
  lemma FirstStepFails(c: Class, invoke: Invoker, fr: Frame, ss: seq<Sentence>)
    requires |ss| > 0 && StepSentence(c, invoke, fr, ss[0]).Ok?
    requires StepSentence(c, invoke, fr, ss[0]).value.failure.Some?
    ensures FailsAt(c, invoke, fr, ss, 0, StepSentence(c, invoke, fr, ss[0]).value.failure.value)
  {
    assert ss[..0] == [];
  }

  /** A failure at position i after the first step is a failure at position i + 1. */
  lemma FailsAtShift(c: Class, invoke: Invoker, fr: Frame, ss: seq<Sentence>, i: int, f: Failure)
    requires |ss| > 0 && StepSentence(c, invoke, fr, ss[0]).Ok?
    requires FailsAt(c, invoke, StepSentence(c, invoke, fr, ss[0]).value.frame, ss[1..], i, f)
    ensures FailsAt(c, invoke, fr, ss, i + 1, f)
  {
    PrefixStep(c, invoke, fr, ss, i);
  }

  /** The trace of a prefix of length i + 1 goes through the first sentence's step. */
  lemma PrefixStep(c: Class, invoke: Invoker, fr: Frame, ss: seq<Sentence>, i: int)
    requires 0 <= i < |ss| - 1 && StepSentence(c, invoke, fr, ss[0]).Ok?
    ensures var st := StepSentence(c, invoke, fr, ss[0]).value;
      Collect(c, invoke, fr, ss[..i + 1]).Ok? <==> Collect(c, invoke, st.frame, ss[1..][..i]).Ok?
    ensures var st := StepSentence(c, invoke, fr, ss[0]).value;
      Collect(c, invoke, fr, ss[..i + 1]).Ok? ==>
        Collect(c, invoke, fr, ss[..i + 1]).value.last == Collect(c, invoke, st.frame, ss[1..][..i]).value.last
    ensures ss[1..][i] == ss[i + 1]
  {
    var p := ss[..i + 1];
    assert p[0] == ss[0] && p[1..] == ss[1..][..i];
  }

  /** A run that gets past its first sentence raises a report exactly when at least one later
      Then sentence's handler throws a comparison failure and nothing aborts the run. */
  lemma RunFailsIffThenFails(c: Class, invoke: Invoker, ss: seq<Sentence>)
    requires Opening(c, invoke, ss).Ok?
    ensures var fr := Opening(c, invoke, ss).value;
      Run(c, invoke, ss).Failed? <==>
        Collect(c, invoke, fr, ss[1..]).Ok? && exists i, f :: FailsAt(c, invoke, fr, ss[1..], i, f)
  {
    var fr := Opening(c, invoke, ss).value;
    var t := Collect(c, invoke, fr, ss[1..]);
    RunReportsFailures(c, invoke, ss);
    if t.Ok? && |t.value.failures| > 0 {
      ListedFailureThrown(c, invoke, fr, ss[1..], 0);
    }
    if t.Ok? && exists i, f :: FailsAt(c, invoke, fr, ss[1..], i, f) {
      var i, f :| FailsAt(c, invoke, fr, ss[1..], i, f);
      FailingThenListed(c, invoke, fr, ss[1..], i, f);
    }
  }

  // ---- Which sentence ends a run ----

  /** GivenNotFound comes from the first sentence alone, and from it exactly when no
      handler of its kind matches it; the later sentences never raise it. */
  lemma GivenNotFoundIffFirstUnresolved(c: Class, invoke: Invoker, ss: seq<Sentence>)
    ensures Run(c, invoke, ss) == GivenNotFound <==> |ss| > 0 && Resolve(c, ss[0]).NotFound?
  {
  }

  /** An error inside the loop is the error of one of the sentences it stepped over. */
  lemma {:induction false} AbortComesFromSentence(c: Class, invoke: Invoker, rs: RunState, ss: seq<Sentence>)
    requires RunRest(c, invoke, rs, ss).Err?
    ensures exists i, fr :: 0 <= i < |ss| && StepSentence(c, invoke, fr, ss[i]) == Err(RunRest(c, invoke, rs, ss).error)
    decreases |ss|
  {
    var step := StepSentence(c, invoke, rs.frame, ss[0]);
    if step.Ok? {
      var next := RunState(step.value.frame, Record(rs.report, step.value.failure));
      AbortComesFromSentence(c, invoke, next, ss[1..]);
      var i, fr :| 0 <= i < |ss[1..]| && StepSentence(c, invoke, fr, ss[1..][i]) == Err(RunRest(c, invoke, next, ss[1..]).error);
      assert ss[1..][i] == ss[i + 1];
    }
  }

  /** WhenNotFound and ThenNotFound name a later sentence of that kind that no handler
      matches; a missing first sentence is always GivenNotFound instead. */
  lemma NotFoundNamesSentence(c: Class, invoke: Invoker, ss: seq<Sentence>)
    ensures Run(c, invoke, ss) == WhenNotFound ==>
      exists i :: 0 < i < |ss| && ss[i].kind == When && Resolve(c, ss[i]).NotFound?
    ensures Run(c, invoke, ss) == ThenNotFound ==>
      exists i :: 0 < i < |ss| && ss[i].kind == Then && Resolve(c, ss[i]).NotFound?
  {
    var o := Opening(c, invoke, ss);
    if o.Ok? {
      var rest := RunRest(c, invoke, RunState(o.value, None), ss[1..]);
      if rest.Err? {
        AbortComesFromSentence(c, invoke, RunState(o.value, None), ss[1..]);
        var i, fr :| 0 <= i < |ss[1..]| && StepSentence(c, invoke, fr, ss[1..][i]) == Err(rest.error);
        assert ss[1..][i] == ss[i + 1];
      }
    }
  }

  // ---- Given sentences after the first ----

  /** The number of Given sentences. */
  function CountGivens(ss: seq<Sentence>): (n: nat)
    ensures n <= |ss|
    ensures n == 0 <==> forall i :: 0 <= i < |ss| ==> ss[i].kind != Given
  {
    if |ss| == 0 then 0
    else
      assert forall i :: 1 <= i < |ss| ==> ss[i] == ss[1..][i - 1];
      (if ss[0].kind == Given then 1 else 0) + CountGivens(ss[1..])
  }

  /** The sentences without the Given ones: every other sentence is kept, and only the
      Given ones are dropped. */
  function DropGivens(ss: seq<Sentence>): (r: seq<Sentence>)
    ensures |r| == |ss| - CountGivens(ss)
    ensures forall i :: 0 <= i < |r| ==> r[i] in ss && r[i].kind != Given
    ensures forall i :: 0 <= i < |ss| && ss[i].kind != Given ==> ss[i] in r
  {
    if |ss| == 0 then []
    else
      var rest := DropGivens(ss[1..]);
      assert forall i :: 1 <= i < |ss| ==> ss[i] == ss[1..][i - 1];
      if ss[0].kind == Given then rest else [ss[0]] + rest
  }

  /** Dropping the Givens keeps the other sentences in their order. */
  lemma {:induction false} DropGivensAppend(a: seq<Sentence>, b: seq<Sentence>)
    ensures DropGivens(a + b) == DropGivens(a) + DropGivens(b)
  {
    if |a| > 0 {
      var ab := a + b;
      assert ab[0] == a[0] && ab[1..] == a[1..] + b;
      DropGivensAppend(a[1..], b);
      var head := if a[0].kind == Given then [] else [a[0]];
      var tail := DropGivens(a[1..]) + DropGivens(b);
      assert DropGivens(ab[1..]) == tail;
      assert DropGivens(ab) == head + tail;
      assert DropGivens(a) == head + DropGivens(a[1..]);
    } else {
      assert a + b == b;
    }
  }

  /** A Given sentence after the first changes nothing: the loop runs the same with or
      without it. */
  lemma {:induction false} GivensIgnored(c: Class, invoke: Invoker, rs: RunState, ss: seq<Sentence>)
    ensures RunRest(c, invoke, rs, ss) == RunRest(c, invoke, rs, DropGivens(ss))
    decreases |ss|
  {
    if |ss| > 0 {
      var step := StepSentence(c, invoke, rs.frame, ss[0]);
      if step.Ok? {
        GivensIgnored(c, invoke, RunState(step.value.frame, Record(rs.report, step.value.failure)), ss[1..]);
      }
      if ss[0].kind != Given {
        var kept := DropGivens(ss);
        assert kept[0] == ss[0] && kept[1..] == DropGivens(ss[1..]);
      }
    }
  }

  /** The same at the level of a run: only the opening sentence counts among the Givens. */
  lemma RunIgnoresLaterGivens(c: Class, invoke: Invoker, ss: seq<Sentence>)
    requires |ss| > 0
    ensures Run(c, invoke, ss) == Run(c, invoke, [ss[0]] + DropGivens(ss[1..]))
  {
    var ss' := [ss[0]] + DropGivens(ss[1..]);
    assert ss'[0] == ss[0] && ss'[1..] == DropGivens(ss[1..]);
    var o := Opening(c, invoke, ss);
    if o.Ok? {
      GivensIgnored(c, invoke, RunState(o.value, None), ss[1..]);
    }
  }

  // ---- Backups ----

  /** Across a group of When sentences the backup is taken at the first of them, if one
      was asked for, and kept through the rest; no failure arises. */
  lemma {:induction false} WhenGroupBacksUpOnce(c: Class, invoke: Invoker, fr: Frame, ws: seq<Sentence>)
    requires |ws| > 0 && forall i :: 0 <= i < |ws| ==> ws[i].kind == When
    requires Collect(c, invoke, fr, ws).Ok?
    ensures Collect(c, invoke, fr, ws).value.failures == []
    ensures !Collect(c, invoke, fr, ws).value.last.backupNeeded
    ensures Collect(c, invoke, fr, ws).value.last.backup
      == (if fr.backupNeeded then Some(Capture(c, fr.obj)) else fr.backup)
    decreases |ws|
  {
    var step := StepSentence(c, invoke, fr, ws[0]);
    if |ws| > 1 {
      WhenGroupBacksUpOnce(c, invoke, step.value.frame, ws[1..]);
    }
  }

  /** A Then that fails after a group of When sentences, begun when a backup was asked
      for, puts every declared field back to its value before the group. */
  lemma FailedThenRestoresGroupStart(c: Class, invoke: Invoker, fr: Frame, ws: seq<Sentence>, t: Sentence)
    requires fr.backupNeeded
    requires |ws| > 0 && forall i :: 0 <= i < |ws| ==> ws[i].kind == When
    requires Collect(c, invoke, fr, ws).Ok?
    requires StepSentence(c, invoke, Collect(c, invoke, fr, ws).value.last, t).Ok?
    requires StepSentence(c, invoke, Collect(c, invoke, fr, ws).value.last, t).value.failure.Some?
    ensures forall f :: f in Declared(c) ==>
      Lookup(StepSentence(c, invoke, Collect(c, invoke, fr, ws).value.last, t).value.frame.obj, f) == Lookup(fr.obj, f)
  {
    WhenGroupBacksUpOnce(c, invoke, fr, ws);
  }

  // ---- Whole stories ----

  /** A story whose lines do not all match is refused before any handler runs, whatever
      the handlers would do. */
  lemma MalformedStoryRefused(story: string, c: Class, invoke: Invoker)
    requires ParseStory(Some(story)).Err?
    ensures TestOnInheritanceTree(Some(story), Some(c), invoke) == IllegalArgument
  {
  }

  /** The run ends on a missing first sentence exactly when the story parses to no sentences. */
  lemma EmptyStoryIffNoSentences(story: Option<string>, c: Option<Class>, invoke: Invoker)
    ensures TestOnInheritanceTree(story, c, invoke) == Fatal(EmptyStory) <==>
      story.Some? && c.Some? && ParseStory(story) == Ok([])
  {
    if story.Some? && c.Some? {
      StoryRunsSentences(story.value, c.value, invoke);
    }
  }

  /** A story without sentences, empty or only line breaks, fails on the missing first
      sentence rather than with GivenNotFound. */
  lemma BlankStoryFails(story: string, c: Class, invoke: Invoker)
    requires forall i :: 0 <= i < |story| ==> story[i] == '\n'
    ensures TestOnInheritanceTree(Some(story), Some(c), invoke) == Fatal(EmptyStory)
  {
    BlankStory(story);
  }

  /** At the story level GivenNotFound means the story parsed and its first sentence has
      no handler in the class or its superclasses. */
  lemma StoryGivenNotFound(story: Option<string>, c: Class, invoke: Invoker)
    ensures TestOnInheritanceTree(story, Some(c), invoke) == GivenNotFound <==>
      story.Some? && ParseStory(story).Ok? && |ParseStory(story).value| > 0
      && (forall k, h :: 0 <= k < |Ancestry(c)| && h in Ancestry(c)[k].handlers ==> Skips(h, ParseStory(story).value[0]))
  {
    if story.Some? {
      var parsed := ParseStory(story);
      if parsed.Ok? {
        StoryRunsSentences(story.value, c, invoke);
        GivenNotFoundIffFirstUnresolved(c, invoke, parsed.value);
        if |parsed.value| > 0 {
          ResolveNotFound(c, parsed.value[0]);
        }
      }
    }
  }

  /** A story that parses is run on its sentences. */
  lemma StoryRunsSentences(story: string, c: Class, invoke: Invoker)
    ensures ParseStory(Some(story)).Ok? ==>
      TestOnInheritanceTree(Some(story), Some(c), invoke) == Run(c, invoke, ParseStory(Some(story)).value)
  {
  }
}
