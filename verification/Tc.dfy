/** struct context of atf-c/tc.c and the functions that update it. A function that ends the
    process returns its exit status; one that may end it returns None when it comes back. */
module Tc {
  import opened Options
  import opened TcModel
  import opened TcVerdict

  /** A results file. Regular files are emptied when opened and before each record; stdout and
      stderr are not. */
  class ResultsFile {
    const truncates: bool
    var contents: seq<Record>

    constructor Open(before: seq<Record>, truncates: bool)
      ensures this.truncates == truncates && contents == if truncates then [] else before
    {
      this.truncates := truncates;
      contents := if truncates then [] else before;
    }
  }

  class Context {
    var resfile: ResultsFile?
    var failCount: nat
    var expects: Expect
    var expectReason: Reason
    var expectPreviousFailCount: nat
    var expectFailCount: nat
    /** Every record written by this process. */
    ghost var records: seq<Record>

    ghost function StateOn(f: ResultsFile): State
      reads this, f
    {
      State(expects, failCount, expectReason, expectPreviousFailCount, expectFailCount,
            records, f.contents, f.truncates)
    }

    /** The exit (or none), this context and the file are what the model's outcome says; the
        file is closed exactly when the process ends. */
    ghost predicate Agrees(exit: Option<int>, f: ResultsFile, o: Outcome)
      reads this, f
    {
      && o == (if exit.Some? then Exited(exit.value, StateOn(f)) else Running(StateOn(f)))
      && resfile == if exit.Some? then null else f
    }

    /** context_init */
    constructor (f: ResultsFile)
      requires f.contents == [] || !f.truncates
      ensures Agrees(None, f, Running(Init(f.contents, f.truncates)))
    {
      resfile := f;
      failCount := 0;
      expects := EPass;
      expectReason := Text("");
      expectPreviousFailCount, expectFailCount := 0, 0;
      records := [];
    }

    /** create_resfile */
    method CreateResfile(f: ResultsFile, verdict: Verdict, arg: int, reason: Option<Reason>)
      requires resfile == f
      modifies this`records, f
      ensures StateOn(f) == Write(old(StateOn(f)), Record(verdict, arg, reason))
    {
      if f.truncates {
        f.contents := [];
      }
      f.contents := f.contents + [Record(verdict, arg, reason)];
      records := records + [Record(verdict, arg, reason)];
    }

    /** context_close_resfile */
    method CloseResfile()
      modifies this`resfile
      ensures resfile == null
    {
      resfile := null;
    }

    method ErrorInExpect(f: ResultsFile, message: Reason) returns (code: int)
      requires resfile == f
      modifies this, f
      ensures Agrees(Some(code), f, TcModel.ErrorInExpect(old(StateOn(f)), message))
      decreases 1, 0
    {
      expects := EPass;
      code := FailRequirement(f, message);
    }

    method ExpectedFailureExit(f: ResultsFile, reason: Reason) returns (code: int)
      requires resfile == f
      modifies this, f
      ensures Agrees(Some(code), f, ExpectedFailureOut(old(StateOn(f)), reason))
    {
      CreateResfile(f, ExpectedFailure, -1, Some(Expected(expectReason, reason)));
      CloseResfile();
      code := EXIT_SUCCESS;
    }

    method FailRequirement(f: ResultsFile, reason: Reason) returns (code: int)
      requires resfile == f
      modifies this, f
      ensures Agrees(Some(code), f, TcModel.FailRequirement(old(StateOn(f)), reason))
      decreases if Abrupt(expects) then 1 else 0, 1
    {
      if expects == EFail {
        code := ExpectedFailureExit(f, reason);
      } else if expects == EPass {
        CreateResfile(f, Failed, -1, Some(reason));
        CloseResfile();
        code := EXIT_FAILURE;
      } else {
        code := ErrorInExpect(f, UnexpectedFailure(reason));
      }
    }

    method ValidateExpect(f: ResultsFile) returns (exit: Option<int>)
      requires resfile == f
      modifies this, f
      ensures Agrees(exit, f, TcModel.ValidateExpect(old(StateOn(f))))
    {
      exit := None;
      var code: int;
      if Abrupt(expects) {
        code := ErrorInExpect(f, Continued(expects));
        exit := Some(code);
      } else if expects == EFail {
        if expectFailCount == expectPreviousFailCount {
          code := ErrorInExpect(f, NoFailureRaised);
          exit := Some(code);
        }
      }
    }

    method FailCheck(f: ResultsFile, reason: Reason) returns (exit: Option<int>)
      requires resfile == f
      modifies this, f
      ensures Agrees(exit, f, TcModel.FailCheck(old(StateOn(f)), reason))
    {
      exit := None;
      if expects == EFail {
        expectFailCount := expectFailCount + 1;
      } else if expects == EPass {
        failCount := failCount + 1;
      } else {
        var code := ErrorInExpect(f, UnexpectedFailure(reason));
        exit := Some(code);
      }
    }

    method PassExit(f: ResultsFile) returns (code: int)
      requires resfile == f
      modifies this, f
      ensures Agrees(Some(code), f, PassOut(old(StateOn(f))))
    {
      if expects == EFail {
        code := ErrorInExpect(f, PassInsteadOfFailure);
      } else if expects == EPass {
        CreateResfile(f, Passed, -1, None);
        CloseResfile();
        code := EXIT_SUCCESS;
      } else {
        code := ErrorInExpect(f, UnexpectedPass);
      }
    }

    method SkipExit(f: ResultsFile, reason: Reason) returns (code: int)
      requires resfile == f
      modifies this, f
      ensures Agrees(Some(code), f, SkipOut(old(StateOn(f)), reason))
    {
      CreateResfile(f, Skipped, -1, Some(reason));
      CloseResfile();
      code := EXIT_SUCCESS;
    }

    /** _atf_tc_expect_pass */
    method ExpectPass(f: ResultsFile) returns (exit: Option<int>)
      requires resfile == f
      modifies this, f
      ensures Agrees(exit, f, Step(old(StateOn(f)), Call.ExpectPass))
    {
      exit := ValidateExpect(f);
      if exit.None? {
        expects := EPass;
      }
    }

    /** _atf_tc_expect_fail */
    method ExpectFail(f: ResultsFile, reason: string) returns (exit: Option<int>)
      requires resfile == f
      modifies this, f
      ensures Agrees(exit, f, Step(old(StateOn(f)), Call.ExpectFail(reason)))
    {
      exit := ValidateExpect(f);
      if exit.None? {
        expects := EFail;
        expectReason := Text(reason);
        expectPreviousFailCount := expectFailCount;
      }
    }

    /** _atf_tc_expect_exit, _signal, _death and _timeout: the record is written right away. */
    method ExpectAbrupt(f: ResultsFile, mode: Expect, arg: int, reason: string) returns (exit: Option<int>)
      requires resfile == f && Abrupt(mode)
      modifies this, f
      ensures Agrees(exit, f, Step(old(StateOn(f)), Call.ExpectAbrupt(mode, arg, reason)))
    {
      exit := ValidateExpect(f);
      if exit.None? {
        expects := mode;
        CreateResfile(f, AbruptVerdict(mode), arg, Some(Text(reason)));
      }
    }

    /** context_set_resfile: the old file is closed, the new one opened, and emptied if it can be. */
    method SetResfile(before: seq<Record>, truncates: bool) returns (g: ResultsFile)
      modifies this`resfile
      ensures fresh(g) && resfile == g && g.truncates == truncates
      ensures g.contents == if truncates then [] else before
    {
      CloseResfile();
      g := new ResultsFile.Open(before, truncates);
      resfile := g;
    }

    /** The end of atf_tc_run. */
    method Finish(f: ResultsFile) returns (code: int)
      requires resfile == f
      modifies this, f
      ensures Agrees(Some(code), f, TcModel.Finish(old(StateOn(f))))
    {
      var exit := ValidateExpect(f);
      if exit.Some? {
        code := exit.value;
      } else if failCount > 0 {
        code := FailRequirement(f, ChecksFailed(failCount));
      } else if expectFailCount > 0 {
        code := ExpectedFailureExit(f, ChecksFailedAsExpected(expectFailCount));
      } else {
        code := PassExit(f);
      }
    }

    /** One call of the test body. */
    method Perform(f: ResultsFile, c: Call) returns (exit: Option<int>, g: ResultsFile)
      requires resfile == f && ValidCall(c)
      modifies this, f
      ensures Agrees(exit, g, Step(old(StateOn(f)), c))
      ensures g == f || fresh(g)
    {
      g := f;
      var code: int;
      if c.SetResultsFile? {
        g := SetResfile(c.file, c.truncates);
        return None, g;
      }
      match c
      case ExpectPass => exit := ExpectPass(f);
      case ExpectFail(reason) => exit := ExpectFail(f, reason);
      case ExpectAbrupt(mode, arg, reason) => exit := ExpectAbrupt(f, mode, arg, reason);
      case FailNonfatal(reason) => exit := FailCheck(f, Text(reason));
      case Fail(reason) => code := FailRequirement(f, Text(reason)); exit := Some(code);
      case Pass => code := PassExit(f); exit := Some(code);
      case Skip(reason) => code := SkipExit(f, Text(reason)); exit := Some(code);
    }
  }

  /** atf_tc_run: a body is the calls it makes. The process always ends; the exit status and the
      last results file are those of the model. */
  method TcRun(f: ResultsFile, calls: seq<Call>) returns (ctx: Context, code: int, last: ResultsFile)
    requires ValidCalls(calls) && (f.contents == [] || !f.truncates)
    modifies f
    ensures ctx.Agrees(Some(code), last, TcModel.TcRun(Init(old(f.contents), f.truncates), calls))
    ensures var o := TcModel.TcRun(Init(old(f.contents), f.truncates), calls);
      o.Exited? && code == o.code && ctx.records == o.s.records && last.contents == o.s.file && ctx.resfile == null
  {
    ghost var s0 := Init(f.contents, f.truncates);
    ctx := new Context(f);
    last := f;
    var exit: Option<int> := None;
    var i := 0;
    while i < |calls| && exit.None?
      invariant i <= |calls| && fresh(ctx) && (last == f || fresh(last))
      invariant ctx.Agrees(exit, last, Run(s0, calls[..i]))
    {
      RunNext(s0, calls, i);
      exit, last := ctx.Perform(last, calls[i]);
      i := i + 1;
    }
    if exit.Some? {
      code := exit.value;
      RunExitedPrefix(s0, calls, i);
    } else {
      assert calls[..i] == calls;
      code := ctx.Finish(last);
    }
  }
}
