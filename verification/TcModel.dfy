/** The expectation machine of atf-c/tc.c as a function from calls to outcomes. */
module TcModel {
  import opened Options

  /** enum expect_type */
  datatype Expect = EPass | EFail | EExit | ESignal | EDeath | ETimeout

  /** The modes in which the test case must not go on. */
  predicate Abrupt(e: Expect) {
    e != EPass && e != EFail
  }

  datatype Verdict =
    | Passed | Failed | Skipped | ExpectedFailure
    | ExpectedExit | ExpectedSignal | ExpectedDeath | ExpectedTimeout

  /** What a record gives as its reason: a text of the test case, or one of the fixed messages. */
  datatype Reason =
    | Text(text: string)
    | Continued(mode: Expect)
    | NoFailureRaised
    | UnexpectedFailure(reason: Reason)
    | PassInsteadOfFailure
    | UnexpectedPass
    | ChecksFailed(n: nat)
    | ChecksFailedAsExpected(n: nat)
    | Expected(expectation: Reason, failure: Reason)

  /** One call of write_resfile; arg is -1 when there is none. */
  datatype Record = Record(verdict: Verdict, arg: int, reason: Option<Reason>)

  /** struct context, every record written so far, and what the results file holds. A file that
      cannot be truncated (stdout, stderr) keeps what it had. */
  datatype State = State(
    expects: Expect,
    failCount: nat,
    expectReason: Reason,
    expectPreviousFailCount: nat,
    expectFailCount: nat,
    records: seq<Record>,
    file: seq<Record>,
    truncates: bool)

  const EXIT_SUCCESS := 0
  const EXIT_FAILURE := 1

  datatype Outcome = Running(s: State) | Exited(code: int, s: State)

  function Init(file: seq<Record>, truncates: bool): State {
    State(EPass, 0, Text(""), 0, 0, [], if truncates then [] else file, truncates)
  }

  /** create_resfile */
  function Write(s: State, r: Record): State {
    s.(records := s.records + [r], file := (if s.truncates then [] else s.file) + [r])
  }

  /** expected_failure */
  function ExpectedFailureOut(s: State, reason: Reason): Outcome {
    Exited(EXIT_SUCCESS, Write(s, Record(ExpectedFailure, -1, Some(Expected(s.expectReason, reason)))))
  }

  /** fail_requirement and error_in_expect call each other; error_in_expect first makes sure
      that the call it makes really fails. */
  function FailRequirement(s: State, reason: Reason): (o: Outcome)
    ensures o.Exited?
    decreases if Abrupt(s.expects) then 1 else 0, 1
  {
    match s.expects
    case EFail => ExpectedFailureOut(s, reason)
    case EPass => Exited(EXIT_FAILURE, Write(s, Record(Failed, -1, Some(reason))))
    case _ => ErrorInExpect(s, UnexpectedFailure(reason))
  }

  function ErrorInExpect(s: State, message: Reason): (o: Outcome)
    ensures o.Exited?
    decreases 1, 0
  {
    FailRequirement(s.(expects := EPass), message)
  }

  /** validate_expect */
  function ValidateExpect(s: State): (o: Outcome)
    ensures o.Running? ==> o.s == s
  {
    if Abrupt(s.expects) then ErrorInExpect(s, Continued(s.expects))
    else if s.expects == EFail && s.expectFailCount == s.expectPreviousFailCount then ErrorInExpect(s, NoFailureRaised)
    else Running(s)
  }

  /** fail_check */
  function FailCheck(s: State, reason: Reason): Outcome {
    match s.expects
    case EFail => Running(s.(expectFailCount := s.expectFailCount + 1))
    case EPass => Running(s.(failCount := s.failCount + 1))
    case _ => ErrorInExpect(s, UnexpectedFailure(reason))
  }

  /** pass */
  function PassOut(s: State): Outcome {
    match s.expects
    case EFail => ErrorInExpect(s, PassInsteadOfFailure)
    case EPass => Exited(EXIT_SUCCESS, Write(s, Record(Passed, -1, None)))
    case _ => ErrorInExpect(s, UnexpectedPass)
  }

  /** skip */
  function SkipOut(s: State, reason: Reason): Outcome {
    Exited(EXIT_SUCCESS, Write(s, Record(Skipped, -1, Some(reason))))
  }

  /** What a test body can call. */
  datatype Call =
    | ExpectPass
    | ExpectFail(reason: string)
    | ExpectAbrupt(mode: Expect, arg: int, reason: string)
    | FailNonfatal(reason: string)
    | Fail(reason: string)
    | Pass
    | Skip(reason: string)
    | SetResultsFile(file: seq<Record>, truncates: bool)

  function AbruptVerdict(mode: Expect): Verdict
    requires Abrupt(mode)
  {
    match mode
    case EExit => ExpectedExit
    case ESignal => ExpectedSignal
    case EDeath => ExpectedDeath
    case ETimeout => ExpectedTimeout
  }

  predicate ValidCall(c: Call) {
    c.ExpectAbrupt? ==> Abrupt(c.mode)
  }

  function Step(s: State, c: Call): Outcome
    requires ValidCall(c)
  {
    match c
    case ExpectPass =>
      var v := ValidateExpect(s);
      if v.Exited? then v else Running(s.(expects := EPass))
    case ExpectFail(reason) =>
      var v := ValidateExpect(s);
      if v.Exited? then v else
        Running(s.(expects := EFail, expectReason := Text(reason), expectPreviousFailCount := s.expectFailCount))
    case ExpectAbrupt(mode, arg, reason) =>
      var v := ValidateExpect(s);
      if v.Exited? then v else
        Running(Write(s.(expects := mode), Record(AbruptVerdict(mode), arg, Some(Text(reason)))))
    case FailNonfatal(reason) => FailCheck(s, Text(reason))
    case Fail(reason) => FailRequirement(s, Text(reason))
    case Pass => PassOut(s)
    case Skip(reason) => SkipOut(s, Text(reason))
    case SetResultsFile(file, truncates) =>
      Running(s.(file := if truncates then [] else file, truncates := truncates))
  }

  /** The calls of a body in turn, until one ends the process. */
  function Run(s: State, calls: seq<Call>): Outcome
    requires forall i :: 0 <= i < |calls| ==> ValidCall(calls[i])
  {
    if |calls| == 0 then Running(s) else
      var o := Run(s, calls[..|calls| - 1]);
      if o.Exited? then o else Step(o.s, calls[|calls| - 1])
  }

  /** The end of atf_tc_run, when the body returns. */
  function Finish(s: State): Outcome {
    var v := ValidateExpect(s);
    if v.Exited? then v
    else if s.failCount > 0 then FailRequirement(s, ChecksFailed(s.failCount))
    else if s.expectFailCount > 0 then ExpectedFailureOut(s, ChecksFailedAsExpected(s.expectFailCount))
    else PassOut(s)
  }

  /** atf_tc_run: the body and, if it returns, the end. */
  function TcRun(s: State, calls: seq<Call>): Outcome
    requires forall i :: 0 <= i < |calls| ==> ValidCall(calls[i])
  {
    var o := Run(s, calls);
    if o.Exited? then o else Finish(o.s)
  }
}
