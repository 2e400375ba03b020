/** What the verdict of a test case means, without counters: a specification on the phases of
    its body, and the proof that the expectation machine computes it for every body. */
module TcVerdict {
  import opened Options
  import opened TcModel

  /** The stretch of a body under one expectation; `failed` when a check failed in it. */
  datatype Phase = Phase(mode: Expect, failed: bool)

  predicate Fatal(c: Call) {
    c.Fail? || c.Pass? || c.Skip?
  }

  predicate ValidCalls(calls: seq<Call>) {
    forall i :: 0 <= i < |calls| ==> ValidCall(calls[i])
  }

  predicate NonFatal(calls: seq<Call>) {
    forall i :: 0 <= i < |calls| ==> ValidCall(calls[i]) && !Fatal(calls[i])
  }

  /** An expect call starts a phase; a failing check marks the current one. */
  function AddCall(ps: seq<Phase>, c: Call): (qs: seq<Phase>)
    requires |ps| > 0 && !Fatal(c)
    ensures |qs| > 0
  {
    match c
    case ExpectPass => ps + [Phase(EPass, false)]
    case ExpectFail(_) => ps + [Phase(EFail, false)]
    case ExpectAbrupt(mode, _, _) => ps + [Phase(mode, false)]
    case FailNonfatal(_) => ps[|ps| - 1 := ps[|ps| - 1].(failed := true)]
    case SetResultsFile(_, _) => ps
  }

  function Phases(calls: seq<Call>): (ps: seq<Phase>)
    requires NonFatal(calls)
    ensures |ps| > 0
  {
    if |calls| == 0 then [Phase(EPass, false)]
    else AddCall(Phases(calls[..|calls| - 1]), calls[|calls| - 1])
  }

  /** A phase that must not be left: the process should be gone, or a failure is missing. */
  predicate Unfinished(p: Phase) {
    Abrupt(p.mode) || (p.mode == EFail && !p.failed)
  }

  predicate HasFailure(ps: seq<Phase>, mode: Expect) {
    exists i :: 0 <= i < |ps| && ps[i] == Phase(mode, true)
  }

  predicate HasPhase(ps: seq<Phase>, mode: Expect) {
    exists i :: 0 <= i < |ps| && ps[i].mode == mode
  }

  /** The body broke an expectation before its end. */
  predicate Violated(ps: seq<Phase>)
    requires |ps| > 0
  {
    || (exists i :: 0 <= i < |ps| - 1 && Unfinished(ps[i]))
    || (Abrupt(ps[|ps| - 1].mode) && ps[|ps| - 1].failed)
  }

  /** The verdict of a body with these phases that ends with the call, or by returning. */
  function SpecVerdict(ps: seq<Phase>, end: Option<Call>): Verdict
    requires |ps| > 0 && (end.Some? ==> Fatal(end.value))
  {
    var last := ps[|ps| - 1];
    if Violated(ps) then Failed else
      match end
      case None =>
        if Unfinished(last) then Failed
        else if HasFailure(ps, EPass) then (if last.mode == EPass then Failed else ExpectedFailure)
        else if HasPhase(ps, EFail) then ExpectedFailure
        else Passed
      case Some(Fail(_)) => if last.mode == EFail then ExpectedFailure else Failed
      case Some(Pass) => if last.mode == EPass then Passed else Failed
      case Some(Skip(_)) => Skipped
  }

  /** What the counters know of the phases. */
  ghost predicate Tracks(s: State, ps: seq<Phase>)
    requires |ps| > 0
  {
    var last := ps[|ps| - 1];
    && s.expects == last.mode
    && (s.failCount > 0 <==> HasFailure(ps, EPass))
    && (s.expectFailCount > 0 <==> HasFailure(ps, EFail))
    && s.expectPreviousFailCount <= s.expectFailCount
    && (last.mode == EFail ==> (s.expectFailCount > s.expectPreviousFailCount <==> last.failed))
  }

  predicate EndsWith(o: Outcome, v: Verdict) {
    && o.Exited? && |o.s.records| > 0 && o.s.records[|o.s.records| - 1].verdict == v
    && o.code == (if v == Failed then EXIT_FAILURE else EXIT_SUCCESS)
  }

  lemma NewPhase(ps: seq<Phase>, mode: Expect)
    requires |ps| > 0
    ensures var qs := ps + [Phase(mode, false)];
      && (forall m :: HasFailure(qs, m) <==> HasFailure(ps, m))
      && (Violated(qs) <==> Violated(ps) || Unfinished(ps[|ps| - 1]))
  {
    var qs := ps + [Phase(mode, false)];
    forall m
      ensures HasFailure(qs, m) <==> HasFailure(ps, m)
    {
      if HasFailure(ps, m) {
        var i :| 0 <= i < |ps| && ps[i] == Phase(m, true);
        assert qs[i] == Phase(m, true);
      }
    }
    assert qs[|ps| - 1] == ps[|ps| - 1];
    if Violated(ps) && !Abrupt(ps[|ps| - 1].mode) {
      var i :| 0 <= i < |ps| - 1 && Unfinished(ps[i]);
      assert Unfinished(qs[i]);
    }
  }

  lemma CheckFails(ps: seq<Phase>)
    requires |ps| > 0
    ensures var n := |ps| - 1; var qs := ps[n := ps[n].(failed := true)];
      && (forall m :: HasFailure(qs, m) <==> HasFailure(ps, m) || m == ps[n].mode)
      && (Violated(qs) <==> Violated(ps) || Abrupt(ps[n].mode))
  {
    var n := |ps| - 1;
    var qs := ps[n := ps[n].(failed := true)];
    assert qs[n] == Phase(ps[n].mode, true);
    forall m
      ensures HasFailure(qs, m) <==> HasFailure(ps, m) || m == ps[n].mode
    {
      if HasFailure(ps, m) {
        var i :| 0 <= i < |ps| && ps[i] == Phase(m, true);
        assert qs[i] == Phase(m, true);
      }
    }
    if exists i :: 0 <= i < n && Unfinished(ps[i]) {
      var i :| 0 <= i < n && Unfinished(ps[i]);
      assert Unfinished(qs[i]);
    }
    if exists i :: 0 <= i < n && Unfinished(qs[i]) {
      var i :| 0 <= i < n && Unfinished(qs[i]);
      assert Unfinished(ps[i]);
    }
  }

  lemma ErrorFails(s: State, m: Reason)
    ensures EndsWith(ErrorInExpect(s, m), Failed)
  {
  }

  lemma ValidateFails(s: State, ps: seq<Phase>)
    requires |ps| > 0 && Tracks(s, ps)
    ensures ValidateExpect(s).Exited? <==> Unfinished(ps[|ps| - 1])
    ensures ValidateExpect(s).Exited? ==> EndsWith(ValidateExpect(s), Failed)
  {
    ErrorFails(s, Continued(s.expects));
    ErrorFails(s, NoFailureRaised);
  }

  lemma StepTracks(s: State, ps: seq<Phase>, c: Call)
    requires |ps| > 0 && Tracks(s, ps) && !Violated(ps) && ValidCall(c) && !Fatal(c)
    ensures var o, qs := Step(s, c), AddCall(ps, c);
      && (o.Exited? <==> Violated(qs))
      && (o.Exited? ==> EndsWith(o, Failed))
      && (o.Running? ==> Tracks(o.s, qs))
  {
    hide HasFailure, Violated, Unfinished, ValidateExpect, ErrorInExpect;
    ValidateFails(s, ps);
    match c
    case FailNonfatal(reason) =>
      CheckFails(ps);
      ErrorFails(s, UnexpectedFailure(Text(reason)));
    case ExpectPass => NewPhase(ps, EPass);
    case ExpectFail(_) => NewPhase(ps, EFail);
    case ExpectAbrupt(mode, _, _) => NewPhase(ps, mode);
    case SetResultsFile(_, _) =>
  }

  lemma AddCallKeepsViolated(ps: seq<Phase>, c: Call)
    requires |ps| > 0 && Violated(ps) && !Fatal(c)
    ensures Violated(AddCall(ps, c))
  {
    hide Violated;
    match c
    case FailNonfatal(_) => CheckFails(ps);
    case ExpectPass => NewPhase(ps, EPass);
    case ExpectFail(_) => NewPhase(ps, EFail);
    case ExpectAbrupt(mode, _, _) => NewPhase(ps, mode);
    case SetResultsFile(_, _) =>
  }

  /** The machine stops a body of non-fatal calls exactly when an expectation is violated, and
      then with `failed`; otherwise its counters track the phases. */
  lemma {:induction false} RunTracks(calls: seq<Call>, s0: State)
    requires NonFatal(calls) && s0 == Init(s0.file, s0.truncates)
    ensures Run(s0, calls).Exited? <==> Violated(Phases(calls))
    ensures Run(s0, calls).Exited? ==> EndsWith(Run(s0, calls), Failed)
    ensures Run(s0, calls).Running? ==> Tracks(Run(s0, calls).s, Phases(calls))
  {
    if |calls| > 0 {
      hide Violated, Tracks, Step, AddCall;
      var init, c := calls[..|calls| - 1], calls[|calls| - 1];
      RunTracks(init, s0);
      var o, ps := Run(s0, init), Phases(init);
      if o.Running? {
        StepTracks(o.s, ps, c);
      } else {
        AddCallKeepsViolated(ps, c);
      }
    }
  }

  /** The calls before the first fatal one. */
  function BodyEnd(calls: seq<Call>): (n: nat)
    ensures n <= |calls| && (n < |calls| ==> Fatal(calls[n]))
    ensures forall i :: 0 <= i < n ==> !Fatal(calls[i])
  {
    if |calls| == 0 || Fatal(calls[0]) then 0 else 1 + BodyEnd(calls[1..])
  }

  /** What stops the process is not affected by the calls behind it. */
  lemma {:induction false} RunExitedPrefix(s: State, calls: seq<Call>, n: nat)
    requires ValidCalls(calls) && n <= |calls| && Run(s, calls[..n]).Exited?
    ensures Run(s, calls) == Run(s, calls[..n])
    decreases |calls|
  {
    if n < |calls| {
      var init := calls[..|calls| - 1];
      assert init[..n] == calls[..n];
      RunExitedPrefix(s, init, n);
    } else {
      assert calls[..n] == calls;
    }
  }

  lemma RunNext(s: State, calls: seq<Call>, n: nat)
    requires ValidCalls(calls) && n < |calls|
    ensures var o := Run(s, calls[..n]);
      Run(s, calls[..n + 1]) == if o.Exited? then o else Step(o.s, calls[n])
  {
    assert calls[..n + 1][..n] == calls[..n];
  }

  lemma FinishVerdict(s: State, ps: seq<Phase>)
    requires |ps| > 0 && Tracks(s, ps) && !Violated(ps)
    ensures EndsWith(Finish(s), SpecVerdict(ps, None))
  {
    var last := |ps| - 1;
    ValidateFails(s, ps);
    if !Unfinished(ps[last]) && !HasFailure(ps, EPass) {
      if HasPhase(ps, EFail) {
        var i :| 0 <= i < |ps| && ps[i].mode == EFail;
        assert !Unfinished(ps[i]);
        assert ps[i] == Phase(EFail, true);
      } else {
        assert !HasFailure(ps, EFail);
      }
    }
  }

  lemma FatalVerdict(s: State, ps: seq<Phase>, c: Call)
    requires |ps| > 0 && Tracks(s, ps) && !Violated(ps) && Fatal(c) && ValidCall(c)
    ensures EndsWith(Step(s, c), SpecVerdict(ps, Some(c)))
  {
    hide Violated, HasFailure;
    if c.Fail? {
      ErrorFails(s, UnexpectedFailure(Text(c.reason)));
    } else if c.Pass? {
      ErrorFails(s, PassInsteadOfFailure);
      ErrorFails(s, UnexpectedPass);
    }
  }

  /** For every body the machine ends with the verdict that its phases and its end call for, and
      the process fails exactly when the verdict is `failed`. */
  lemma VerdictOfBody(calls: seq<Call>, s0: State)
    requires ValidCalls(calls) && s0 == Init(s0.file, s0.truncates)
    ensures var n := BodyEnd(calls);
      EndsWith(TcRun(s0, calls), SpecVerdict(Phases(calls[..n]), if n < |calls| then Some(calls[n]) else None))
  {
    hide Run, Step, Finish, SpecVerdict, Violated, Tracks;
    var n := BodyEnd(calls);
    var body := calls[..n];
    var o, ps := Run(s0, body), Phases(body);
    RunTracks(body, s0);
    if o.Exited? {
      RunExitedPrefix(s0, calls, n);
      ViolatedFails(ps, if n < |calls| then Some(calls[n]) else None);
    } else if n < |calls| {
      RunNext(s0, calls, n);
      FatalVerdict(o.s, ps, calls[n]);
      RunExitedPrefix(s0, calls, n + 1);
    } else {
      assert body == calls;
      FinishVerdict(o.s, ps);
    }
  }

  lemma ViolatedFails(ps: seq<Phase>, end: Option<Call>)
    requires |ps| > 0 && Violated(ps) && (end.Some? ==> Fatal(end.value))
    ensures SpecVerdict(ps, end) == Failed
  {
  }

  /** pass() looks at the mode only: an explicit pass hides every failed check before it, where
      falling off the end of the same body fails exactly when there was one. */
  lemma PassHidesFailures(calls: seq<Call>, s0: State)
    requires NonFatal(calls) && s0 == Init(s0.file, s0.truncates)
    requires !Violated(Phases(calls))
    ensures var ps := Phases(calls);
      && (EndsWith(TcRun(s0, calls + [Pass]), Passed) <==> ps[|ps| - 1].mode == EPass)
      && (ps[|ps| - 1].mode == EPass ==> (EndsWith(TcRun(s0, calls), Failed) <==> HasFailure(ps, EPass)))
  {
    hide Phases, Violated, Step, Finish, Run;
    var body := calls + [Pass];
    assert body[..|calls|] == calls && calls[..|calls|] == calls;
    BodyEndIs(calls, Pass);
    VerdictOfBody(body, s0);
    VerdictOfBody(calls, s0);
  }

  lemma {:induction false} BodyEndIs(calls: seq<Call>, c: Call)
    requires NonFatal(calls) && Fatal(c)
    ensures BodyEnd(calls + [c]) == |calls| == BodyEnd(calls)
  {
    if |calls| > 0 {
      assert (calls + [c])[1..] == calls[1..] + [c];
      BodyEndIs(calls[1..], c);
    }
  }

  /** A failed check in a "pass" phase fails a body that returns exactly when an expectation is violated
      or unfinished, or the last phase is a "pass" one; else it is reported as an expected failure. */
  lemma PassFailureFailsIff(calls: seq<Call>, s0: State)
    requires NonFatal(calls) && s0 == Init(s0.file, s0.truncates)
    requires HasFailure(Phases(calls), EPass)
    ensures var ps := Phases(calls); var last := ps[|ps| - 1];
      && (EndsWith(TcRun(s0, calls), Failed) <==> Violated(ps) || Unfinished(last) || last.mode == EPass)
      && (EndsWith(TcRun(s0, calls), ExpectedFailure) <==> !Violated(ps) && !Unfinished(last) && last.mode == EFail)
  {
    hide Violated, Step, Finish, Run, Phases, HasFailure, TcRun;
    BodyEndIs(calls, Pass);
    assert calls[..|calls|] == calls;
    VerdictOfBody(calls, s0);
  }

  /** The shortest such body: the failed check of its first phase is forgotten. */
  lemma PassFailureForgotten()
    ensures var calls := [FailNonfatal("a"), ExpectFail("b"), FailNonfatal("c")];
      && HasFailure(Phases(calls), EPass)
      && EndsWith(TcRun(Init([], true), calls), ExpectedFailure)
  {
    var a, b, c := FailNonfatal("a"), ExpectFail("b"), FailNonfatal("c");
    var calls := [a, b, c];
    assert calls[..2] == [a, b] && [a, b][..1] == [a] && [a][..0] == [];
    assert Phases([a]) == [Phase(EPass, true)];
    assert Phases([a, b]) == [Phase(EPass, true), Phase(EFail, false)];
    assert Phases(calls)[0] == Phase(EPass, true);
    assert Phases(calls) == [Phase(EPass, true), Phase(EFail, true)];
    PassFailureFailsIff(calls, Init([], true));
  }

  /** An explicit pass behind a failed check. */
  lemma PassAfterFailure()
    ensures var s0 := Init([], true);
      && EndsWith(TcRun(s0, [FailNonfatal("a")] + [Pass]), Passed)
      && EndsWith(TcRun(s0, [FailNonfatal("a")]), Failed)
  {
    var calls := [FailNonfatal("a")];
    assert calls[..0] == [];
    assert Phases(calls) == [Phase(EPass, true)];
    assert HasFailure(Phases(calls), EPass) by {
      assert Phases(calls)[0] == Phase(EPass, true);
    }
    PassHidesFailures(calls, Init([], true));
  }
}
