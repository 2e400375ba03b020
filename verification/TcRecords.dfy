/** What results files hold over whole runs of the expectation machine. */
module TcRecords {
  import opened Options
  import opened TcModel
  import opened TcVerdict

  /** While the test case runs there is a record only in the modes that must not go on. */
  ghost predicate RunningRecords(s: State) {
    if Abrupt(s.expects) then |s.records| == 1 && s.records[0].verdict == AbruptVerdict(s.expects)
    else |s.records| == 0
  }

  /** A results file that was emptied when opened and is emptied before each record. */
  ghost predicate LatestOnly(s: State) {
    s.truncates ==>
      |s.file| == 0 || (|s.records| > 0 && s.file == [s.records[|s.records| - 1]])
  }

  ghost predicate AbruptRecord(r: Record) {
    exists mode :: Abrupt(mode) && r.verdict == AbruptVerdict(mode)
  }

  /** A terminated run: one record, or a second one behind an expectation that continued; a file that
      can be truncated holds exactly the last one. */
  ghost predicate FinalRecords(o: Outcome) {
    && o.Exited?
    && 1 <= |o.s.records| <= 2
    && (o.s.truncates ==> o.s.file == [o.s.records[|o.s.records| - 1]])
    && (|o.s.records| == 2 ==> AbruptRecord(o.s.records[0]) && o.s.records[1].verdict in {Failed, Skipped})
    && (o.code == EXIT_FAILURE <==> o.s.records[|o.s.records| - 1].verdict == Failed)
    && o.code in {EXIT_SUCCESS, EXIT_FAILURE}
  }

  lemma ErrorRecords(s: State, m: Reason)
    requires RunningRecords(s)
    ensures FinalRecords(ErrorInExpect(s, m))
    ensures LatestOnly(ErrorInExpect(s, m).s)
  {
    if Abrupt(s.expects) {
      assert AbruptRecord(s.records[0]);
    }
  }

  lemma ValidateRecords(s: State)
    requires RunningRecords(s) && LatestOnly(s)
    ensures var o := ValidateExpect(s);
      if o.Exited? then FinalRecords(o) && LatestOnly(o.s) else o.s == s && |s.records| == 0
  {
    ErrorRecords(s, Continued(s.expects));
    ErrorRecords(s, NoFailureRaised);
  }

  lemma StepRecords(s: State, c: Call)
    requires RunningRecords(s) && LatestOnly(s) && ValidCall(c)
    ensures LatestOnly(Step(s, c).s)
    ensures if Step(s, c).Exited? then FinalRecords(Step(s, c)) else RunningRecords(Step(s, c).s)
  {
    hide ErrorInExpect, ValidateExpect, AbruptRecord;
    ValidateRecords(s);
    if Abrupt(s.expects) {
      SkipRecords(s);
    }
    match c
    case FailNonfatal(r) => ErrorRecords(s, UnexpectedFailure(Text(r)));
    case Fail(r) => ErrorRecords(s, UnexpectedFailure(Text(r)));
    case Pass =>
      ErrorRecords(s, PassInsteadOfFailure);
      ErrorRecords(s, UnexpectedPass);
    case _ =>
  }

  lemma SkipRecords(s: State)
    requires RunningRecords(s) && Abrupt(s.expects)
    ensures AbruptRecord(s.records[0])
  {
  }

  /** Every run, of any calls, results-file switches included. */
  lemma {:induction false} RunRecords(s: State, calls: seq<Call>)
    requires RunningRecords(s) && LatestOnly(s) && ValidCalls(calls)
    ensures LatestOnly(Run(s, calls).s)
    ensures if Run(s, calls).Exited? then FinalRecords(Run(s, calls)) else RunningRecords(Run(s, calls).s)
  {
    if |calls| > 0 {
      hide Step;
      var init := calls[..|calls| - 1];
      RunRecords(s, init);
      var o := Run(s, init);
      if o.Running? {
        StepRecords(o.s, calls[|calls| - 1]);
      }
    }
  }

  /** A run of atf_tc_run always ends by its own calls, with one or two records; the file, when
      it can be truncated, holds nothing but the last of them; and the exit status says whether
      that one is `failed`. */
  lemma RecordsOfRun(calls: seq<Call>, s0: State)
    requires s0 == Init(s0.file, s0.truncates) && ValidCalls(calls)
    ensures var o := TcRun(s0, calls);
      FinalRecords(o) && LatestOnly(o.s)
  {
    hide ErrorInExpect, ValidateExpect;
    RunRecords(s0, calls);
    var o := Run(s0, calls);
    if o.Running? {
      ValidateRecords(o.s);
      ErrorRecords(o.s, PassInsteadOfFailure);
      ErrorRecords(o.s, UnexpectedFailure(ChecksFailed(o.s.failCount)));
    }
  }

  predicate NoSwitch(calls: seq<Call>) {
    forall i :: 0 <= i < |calls| ==> !calls[i].SetResultsFile?
  }

  /** Exactly what the file holds when the results file is never switched. */
  ghost predicate FileOf(s: State, before: seq<Record>) {
    FileHolds(s.records, s.file, s.truncates, before)
  }

  ghost predicate FileHolds(records: seq<Record>, file: seq<Record>, truncates: bool, before: seq<Record>) {
    file == if truncates then (if |records| == 0 then [] else [records[|records| - 1]]) else before + records
  }

  lemma WriteFile(s: State, r: Record, before: seq<Record>)
    requires FileOf(s, before)
    ensures FileOf(Write(s, r), before)
  {
    assert before + s.records + [r] == before + (s.records + [r]);
  }

  lemma ErrorFile(s: State, m: Reason, before: seq<Record>)
    requires FileOf(s, before)
    ensures FileOf(ErrorInExpect(s, m).s, before)
  {
    hide FileHolds;
    WriteFile(s.(expects := EPass), Record(Failed, -1, Some(m)), before);
  }

  lemma FailFile(s: State, m: Reason, before: seq<Record>)
    requires FileOf(s, before)
    ensures FileOf(FailRequirement(s, m).s, before)
    ensures FileOf(ExpectedFailureOut(s, m).s, before)
  {
    hide FileHolds, ErrorInExpect;
    ErrorFile(s, UnexpectedFailure(m), before);
    WriteFile(s, Record(Failed, -1, Some(m)), before);
    WriteFile(s, Record(ExpectedFailure, -1, Some(Expected(s.expectReason, m))), before);
  }

  lemma ValidateFile(s: State, before: seq<Record>)
    requires FileOf(s, before)
    ensures FileOf(ValidateExpect(s).s, before)
  {
    ErrorFile(s, Continued(s.expects), before);
    ErrorFile(s, NoFailureRaised, before);
  }

  lemma PassFile(s: State, before: seq<Record>)
    requires FileOf(s, before)
    ensures FileOf(PassOut(s).s, before)
  {
    ErrorFile(s, PassInsteadOfFailure, before);
    ErrorFile(s, UnexpectedPass, before);
    WriteFile(s, Record(Passed, -1, None), before);
  }

  lemma StepFile(s: State, c: Call, before: seq<Record>)
    requires FileOf(s, before) && ValidCall(c) && !c.SetResultsFile?
    ensures FileOf(Step(s, c).s, before)
  {
    hide ErrorInExpect, FailRequirement, PassOut, FileHolds;
    match c
    case FailNonfatal(r) => ErrorFile(s, UnexpectedFailure(Text(r)), before);
    case Fail(r) => FailFile(s, Text(r), before);
    case Pass => PassFile(s, before);
    case Skip(r) => WriteFile(s, Record(Skipped, -1, Some(Text(r))), before);
    case ExpectAbrupt(mode, arg, r) =>
      ValidateFile(s, before);
      WriteFile(s.(expects := mode), Record(AbruptVerdict(mode), arg, Some(Text(r))), before);
    case _ => ValidateFile(s, before);
  }

  lemma {:induction false} RunFile(s: State, calls: seq<Call>, before: seq<Record>)
    requires FileOf(s, before) && ValidCalls(calls) && NoSwitch(calls)
    ensures FileOf(Run(s, calls).s, before)
  {
    if |calls| > 0 {
      hide FileHolds, Step;
      var init := calls[..|calls| - 1];
      RunFile(s, init, before);
      var o := Run(s, init);
      if o.Running? {
        StepFile(o.s, calls[|calls| - 1], before);
      }
    }
  }

  lemma FileOfRun(calls: seq<Call>, before: seq<Record>, truncates: bool)
    requires ValidCalls(calls) && NoSwitch(calls)
    ensures FileOf(TcRun(Init(before, truncates), calls).s, before)
  {
    var s0 := Init(before, truncates);
    InitFile(before, truncates);
    RunFile(s0, calls, before);
    var s := Run(s0, calls).s;
    hide ErrorInExpect, FailRequirement, PassOut;
    ValidateFile(s, before);
    FailFile(s, ChecksFailed(s.failCount), before);
    FailFile(s, ChecksFailedAsExpected(s.expectFailCount), before);
    PassFile(s, before);
  }

  lemma InitFile(before: seq<Record>, truncates: bool)
    ensures FileOf(Init(before, truncates), before)
  {
    assert before + [] == before;
  }
}
