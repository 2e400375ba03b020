/** What the records of a test case say, word for word: verdict, argument and reason. */
module TcReasons {
  import opened Options
  import opened TcModel
  import opened TcVerdict

  /** The process ends with this record behind the others. */
  predicate EndsSaying(o: Outcome, s: State, code: int, v: Verdict, reason: Option<Reason>) {
    o.Exited? && o.code == code && o.s.records == s.records + [Record(v, -1, reason)]
  }

  // ----- One call -----

  /** error_in_expect always fails for its own message, whatever the mode. */
  lemma ErrorSays(s: State, m: Reason)
    ensures EndsSaying(ErrorInExpect(s, m), s, 1, Failed, Some(m))
    ensures ErrorInExpect(s, m).s.truncates == s.truncates
    ensures ErrorInExpect(s, m).s.file == Write(s, Record(Failed, -1, Some(m))).file
  {
  }

  /** An expectation that the test case will be gone writes its own record at once, with the argument
      and the reason of the call. */
  lemma AbruptSays(s: State, mode: Expect, arg: int, reason: string)
    requires Abrupt(mode) && Step(s, ExpectAbrupt(mode, arg, reason)).Running?
    ensures var s' := Step(s, ExpectAbrupt(mode, arg, reason)).s;
      && s'.expects == mode && |s'.records| == |s.records| + 1 && s'.records[..|s.records|] == s.records
      && var r := s'.records[|s.records|];
      && r.arg == arg && r.reason == Some(Text(reason))
      && (r.verdict == ExpectedExit <==> mode == EExit) && (r.verdict == ExpectedSignal <==> mode == ESignal)
      && (r.verdict == ExpectedDeath <==> mode == EDeath) && (r.verdict == ExpectedTimeout <==> mode == ETimeout)
  {
  }

  /** A failed requirement: in "pass" mode it fails the test case for its reason, in "expect fail" mode it
      is the failure that the expectation gave a reason for, in the others it is unexpected. */
  lemma FailSays(s: State, reason: string)
    ensures var o := Step(s, Fail(reason));
      && (s.expects == EPass ==> EndsSaying(o, s, 1, Failed, Some(Text(reason))))
      && (s.expects == EFail ==>
            EndsSaying(o, s, 0, ExpectedFailure, Some(Expected(s.expectReason, Text(reason)))))
      && (Abrupt(s.expects) ==> EndsSaying(o, s, 1, Failed, Some(UnexpectedFailure(Text(reason)))))
  {
    ErrorSays(s, UnexpectedFailure(Text(reason)));
  }

  lemma FailNonfatalSays(s: State, reason: string)
    ensures var o := Step(s, FailNonfatal(reason));
      && (o.Running? <==> !Abrupt(s.expects)) && (o.Running? ==> o.s.records == s.records)
      && (Abrupt(s.expects) ==> EndsSaying(o, s, 1, Failed, Some(UnexpectedFailure(Text(reason)))))
  {
    ErrorSays(s, UnexpectedFailure(Text(reason)));
  }

  lemma PassSays(s: State)
    ensures var o := Step(s, Pass);
      && (s.expects == EPass ==> EndsSaying(o, s, 0, Passed, None))
      && (s.expects == EFail ==> EndsSaying(o, s, 1, Failed, Some(PassInsteadOfFailure)))
      && (Abrupt(s.expects) ==> EndsSaying(o, s, 1, Failed, Some(UnexpectedPass)))
  {
    ErrorSays(s, PassInsteadOfFailure);
    ErrorSays(s, UnexpectedPass);
  }

  lemma SkipSays(s: State, reason: string)
    ensures EndsSaying(Step(s, Skip(reason)), s, 0, Skipped, Some(Text(reason)))
  {
  }

  /** Leaving a phase that must not be left names what went wrong. */
  lemma ValidateSays(s: State)
    ensures Abrupt(s.expects) ==> EndsSaying(ValidateExpect(s), s, 1, Failed, Some(Continued(s.expects)))
    ensures s.expects == EFail && ValidateExpect(s).Exited? ==>
              EndsSaying(ValidateExpect(s), s, 1, Failed, Some(NoFailureRaised))
    ensures s.expects == EPass ==> ValidateExpect(s) == Running(s)
  {
    ErrorSays(s, Continued(s.expects));
    ErrorSays(s, NoFailureRaised);
  }

  // ----- A whole body: what the counters and the kept reason are -----

  /** How many checks failed in phases of this mode. */
  function Fails(calls: seq<Call>, mode: Expect): nat
    requires NonFatal(calls)
  {
    if |calls| == 0 then 0
    else
      var init, last := calls[..|calls| - 1], calls[|calls| - 1];
      var ps := Phases(init);
      Fails(init, mode) + if last.FailNonfatal? && ps[|ps| - 1].mode == mode then 1 else 0
  }

  /** The reason of the last expect-fail call. */
  function LastReason(calls: seq<Call>): Reason {
    if |calls| == 0 then Text("")
    else
      var last := calls[|calls| - 1];
      if last.ExpectFail? then Text(last.reason) else LastReason(calls[..|calls| - 1])
  }

  lemma StepCounts(s: State, c: Call)
    requires ValidCall(c) && !Fatal(c) && Step(s, c).Running?
    ensures var s' := Step(s, c).s;
      && s'.failCount == s.failCount + (if c.FailNonfatal? && s.expects == EPass then 1 else 0)
      && s'.expectFailCount == s.expectFailCount + (if c.FailNonfatal? && s.expects == EFail then 1 else 0)
      && s'.expectReason == if c.ExpectFail? then Text(c.reason) else s.expectReason
  {
  }

  /** The counters count exactly the failed checks of the two modes, and the kept reason is that of the
      last expect-fail call. */
  lemma {:induction false} RunCounts(calls: seq<Call>, s0: State)
    requires NonFatal(calls) && s0 == Init(s0.file, s0.truncates) && Run(s0, calls).Running?
    ensures var s := Run(s0, calls).s; var ps := Phases(calls);
      && s.expects == ps[|ps| - 1].mode
      && s.failCount == Fails(calls, EPass) && s.expectFailCount == Fails(calls, EFail)
      && s.expectReason == LastReason(calls)
  {
    if |calls| > 0 {
      hide Step;
      var init, c := calls[..|calls| - 1], calls[|calls| - 1];
      RunCounts(init, s0);
      StepCounts(Run(s0, init).s, c);
      RunTracks(calls, s0);
    }
  }

  /** The record of a body that returns with its expectations met: how many checks failed, and for which
      expectation. */
  lemma EndSays(calls: seq<Call>, s0: State)
    requires NonFatal(calls) && s0 == Init(s0.file, s0.truncates)
    requires var ps := Phases(calls); !Violated(ps) && !Unfinished(ps[|ps| - 1])
    ensures var s := Run(s0, calls).s; var ps := Phases(calls); var mode := ps[|ps| - 1].mode;
      var p, f := Fails(calls, EPass), Fails(calls, EFail); var o := TcRun(s0, calls);
      && (p > 0 && mode == EPass ==> EndsSaying(o, s, 1, Failed, Some(ChecksFailed(p))))
      && (p > 0 && mode == EFail ==>
            EndsSaying(o, s, 0, ExpectedFailure, Some(Expected(LastReason(calls), ChecksFailed(p)))))
      && (p == 0 && f > 0 ==>
            EndsSaying(o, s, 0, ExpectedFailure, Some(Expected(LastReason(calls), ChecksFailedAsExpected(f)))))
      && (p == 0 && f == 0 ==> EndsSaying(o, s, 0, Passed, None))
  {
    hide Violated, Run, Fails, Phases, HasFailure;
    RunTracks(calls, s0);
    RunCounts(calls, s0);
    var s, ps := Run(s0, calls).s, Phases(calls);
    ValidateFails(s, ps);
    if ps[|ps| - 1].mode == EFail {
      NoneExpected(calls, s0);
    }
  }

  /** In "expect fail" mode that was met there is a failed check. */
  lemma NoneExpected(calls: seq<Call>, s0: State)
    requires NonFatal(calls) && s0 == Init(s0.file, s0.truncates) && Run(s0, calls).Running?
    requires var ps := Phases(calls); ps[|ps| - 1].mode == EFail && !Unfinished(ps[|ps| - 1])
    ensures Fails(calls, EFail) > 0
  {
    RunTracks(calls, s0);
    RunCounts(calls, s0);
  }

  /** A requirement that fails behind a body: the record joins its reason to that of the expectation. */
  lemma FailBehindSays(calls: seq<Call>, s0: State, reason: string)
    requires NonFatal(calls) && s0 == Init(s0.file, s0.truncates) && !Violated(Phases(calls))
    requires var ps := Phases(calls); ps[|ps| - 1].mode == EFail
    ensures EndsSaying(TcRun(s0, calls + [Fail(reason)]), Run(s0, calls).s, 0, ExpectedFailure,
                       Some(Expected(LastReason(calls), Text(reason))))
  {
    hide Violated, Phases;
    RunTracks(calls, s0);
    RunCounts(calls, s0);
    assert (calls + [Fail(reason)])[..|calls|] == calls;
    FailSays(Run(s0, calls).s, reason);
  }

  // ----- A results file that is switched -----

  /** What a file holds that was opened when there were n records: the last one since, or, when it cannot
      be emptied, what it had and all since. */
  ghost predicate HoldsSince(s: State, n: nat, before: seq<Record>) {
    && n <= |s.records|
    && s.file == if s.truncates then (if |s.records| == n then [] else [s.records[|s.records| - 1]])
                 else before + s.records[n..]
  }

  lemma WriteSince(s: State, r: Record, n: nat, before: seq<Record>)
    requires HoldsSince(s, n, before)
    ensures HoldsSince(Write(s, r), n, before)
  {
    assert (s.records + [r])[n..] == s.records[n..] + [r];
    assert before + s.records[n..] + [r] == before + (s.records[n..] + [r]);
  }

  lemma SwitchOpens(s: State, before: seq<Record>, truncates: bool)
    ensures var s' := Step(s, SetResultsFile(before, truncates)).s;
      && Step(s, SetResultsFile(before, truncates)).Running? && s'.records == s.records
      && s'.truncates == truncates && HoldsSince(s', |s.records|, before)
  {
    assert before + [] == before;
  }

  /** A call writes at most one record, as WriteSince says, or none; only a switch touches the file
      otherwise. */
  lemma StepWrites(s: State, c: Call)
    requires ValidCall(c) && !c.SetResultsFile?
    ensures var s' := Step(s, c).s;
      && s'.truncates == s.truncates
      && (s'.records == s.records ==> s'.file == s.file)
      && (s'.records != s.records ==>
            |s'.records| == |s.records| + 1 &&
            var w := Write(s, s'.records[|s.records|]); s'.records == w.records && s'.file == w.file)
  {
    hide ErrorInExpect;
    ErrorSays(s, Continued(s.expects));
    ErrorSays(s, NoFailureRaised);
    ErrorSays(s, PassInsteadOfFailure);
    ErrorSays(s, UnexpectedPass);
    if c.Fail? || c.FailNonfatal? {
      ErrorSays(s, UnexpectedFailure(Text(c.reason)));
    }
  }

  /** From a switch on, the file holds exactly that, whatever the calls. */
  lemma {:induction false} FileSince(s: State, calls: seq<Call>, n: nat, before: seq<Record>)
    requires HoldsSince(s, n, before) && ValidCalls(calls)
    requires forall i :: 0 <= i < |calls| ==> !calls[i].SetResultsFile?
    ensures HoldsSince(Run(s, calls).s, n, before)
  {
    if |calls| > 0 {
      hide Step, HoldsSince, Write;
      var init, c := calls[..|calls| - 1], calls[|calls| - 1];
      FileSince(s, init, n, before);
      var o := Run(s, init);
      if o.Running? {
        StepSince(o.s, c, n, before);
      }
    }
  }

  lemma StepSince(s: State, c: Call, n: nat, before: seq<Record>)
    requires HoldsSince(s, n, before) && ValidCall(c) && !c.SetResultsFile?
    ensures HoldsSince(Step(s, c).s, n, before)
  {
    hide Step;
    StepWrites(s, c);
    var s' := Step(s, c).s;
    if s'.records != s.records {
      WriteSince(s, s'.records[|s.records|], n, before);
    }
  }
}
