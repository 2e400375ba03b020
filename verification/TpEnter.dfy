/** The entry point on Windows: atfw_enter and then the main of a test program. */
module TpEnter {
  import opened Options
  import opened Strings
  import opened Getopt
  import opened Enter
  import opened EnterAgrees
  import opened EnterExact
  import opened Bindings
  import opened Fs
  import opened Text
  import opened TpParams
  import opened TpMain

  /** What atfw_enter leaves of a command line. */
  function Entered(argv: seq<string>, root: Option<string>): (e: seq<string>)
    requires |argv| > 0
    ensures |e| == |argv| && e[0] == Slashes(argv[0])
  {
    EnterFrom(argv[0 := Slashes(argv[0])], 1, root)
  }

  /** Native results set what the results set, but for the two paths. */
  lemma {:induction false} NativeSettings(rs: seq<Result>, root: Option<string>)
    ensures var ns := NativeAll(rs, root);
      && FirstFault(ns) == FirstFault(rs) && Vars(ns) == Vars(rs)
      && (Opt('l', None) in ns <==> Opt('l', None) in rs)
      && NativeArg(LastArg(rs, 's'), root) == LastArg(ns, 's')
      && NativeArg(LastArg(rs, 'r'), root) == LastArg(ns, 'r')
  {
    hide Convert, VarOf;
    var ns := NativeAll(rs, root);
    if |rs| > 0 {
      var init, last := rs[..|rs| - 1], rs[|rs| - 1];
      NativeSettings(init, root);
      assert ns[..|ns| - 1] == NativeAll(init, root) && ns[|ns| - 1] == Native(last, root);
      assert rs == init + [last] && ns == NativeAll(init, root) + [Native(last, root)];
    }
  }

  function NativeArg(arg: Option<string>, root: Option<string>): Option<string> {
    if arg.Some? then Some(Convert(arg.value, root)) else None
  }

  /** The settings of a command line with the paths of -s and -r made native, and the default source
      directory taken from argv[0] with slashes. */
  function NativeOf(p: Settings, argv: seq<string>, root: Option<string>): Settings
    requires |argv| > 0
  {
    var rs := ParseAll(argv, OPTIONS, State(1, 1)).0;
    p.(srcdir := (match LastArg(rs, 's')
                  case None => Branch(Normalize(Slashes(argv[0])))
                  case Some(dir) => Normalize(Convert(dir, root))),
       resfile := (match LastArg(rs, 'r')
                   case None => "/dev/stdout"
                   case Some(file) => Normalize(Convert(file, root))))
  }

  /** For every command line that both scanners read alike: behind atfw_enter the test program has the settings
      that it would have had, or the same error, but for these paths. */
  lemma EnteredParams(argv: seq<string>, root: Option<string>)
    requires |argv| > 0 && Alike(argv, 1, 1)
    ensures var before := ParamsOf(argv);
      ParamsOf(Entered(argv, root)) == if before.Ok? then Ok(NativeOf(before.value, argv, root)) else before
    ensures Vars(ParseAll(Entered(argv, root), OPTIONS, State(1, 1)).0) == Vars(ParseAll(argv, OPTIONS, State(1, 1)).0)
  {
    hide Alike, Convert, Normalize, Branch, FirstFault, Vars, LastArg, ParseAll, NativeAll, TcArg;
    hide Entered, Slashes, InsertAll;
    EnteredParse(argv, root);
    NativeSettings(ParseAll(argv, OPTIONS, State(1, 1)).0, root);
  }

  /** What these settings call for. */
  function NativeAction(argv: seq<string>, root: Option<string>, host: Host): Outcome<Action>
    requires |argv| > 0
  {
    match ParamsOf(argv)
    case Failed(fault) => Failed(fault)
    case Ok(p) => ActionOf(NativeOf(p, argv, root), ProgName(Slashes(argv[0])), host)
  }

  lemma EnteredMain(argv: seq<string>, root: Option<string>, host: Host)
    requires |argv| > 0 && Alike(argv, 1, 1)
    ensures MainOf(Entered(argv, root), host) == NativeAction(argv, root, host)
  {
    hide Alike, Entered, ParamsOf, NativeOf, ActionOf, ProgName, Slashes;
    EnteredParams(argv, root);
  }

  /** What getopt reports behind atfw_enter, and the operands. */
  lemma EnteredParse(argv: seq<string>, root: Option<string>)
    requires |argv| > 0 && Alike(argv, 1, 1)
    ensures var (rs, optind) := ParseAll(argv, OPTIONS, State(1, 1)); var e := Entered(argv, root);
      && ParseAll(e, OPTIONS, State(1, 1)) == (NativeAll(rs, root), optind)
      && optind <= |argv| && e[optind..] == argv[optind..]
  {
    hide Alike, Step, EnterFrom, NativeAll, ParseAll, Slashes;
    var a := argv[0 := Slashes(argv[0])];
    AlikeBehind(argv, a, 1, 1);
    ParseSame(argv, a, State(1, 1));
    Exact(a, 1, 1, root);
    JoinedIsAgree(a, 1, root);
    var optind := ParseAll(argv, OPTIONS, State(1, 1)).1;
    assert a[optind..] == argv[optind..];
  }

  /** For example: a Cygwin path given with -s is found under the Cygwin root, wherever the program
      runs. */
  lemma SrcdirUnderRoot(host: Host)
    requires host.windows && host.present("C:/x/t") == Some(true) && "tc" in host.idents && !host.hookFails
    ensures MainOf(Entered(["t", "-s", "/x", "tc"], Some("C:")), host) == Ok(RunTc("tc", Body, "/dev/stdout"))
  {
    hide Entered, Normalize, Branch, AppendPath, Leaf, ActionOf, Convert;
    var argv, root := ["t", "-s", "/x", "tc"], Some("C:");
    ExampleParse();
    EnteredMain(argv, root, host);
    assert argv[3..] == ["tc"];
    TcArgIs("tc", "");
    ConvertibleExample();
    var rs := [Opt('s', Some("/x"))];
    assert rs[..0] == [];
    var p := Parsed("t", rs).(tcname := Some("tc"), part := Body, srcdir := "C:/x", resfile := "/dev/stdout");
    ExampleAction(p, host);
    assert ProgName(Slashes("t")) == "t" by {
      assert Slashes("t") == "t";
      ProgNameIs("", "t");
    }
  }

  lemma ExampleParse()
    ensures var argv := ["t", "-s", "/x", "tc"];
      Alike(argv, 1, 1) && ParseAll(argv, OPTIONS, State(1, 1)) == ([Opt('s', Some("/x"))], 3)
  {
    var argv := ["t", "-s", "/x", "tc"];
    OptString('s');
    hide StrChr, Strip, Known, TakesArg;
    assert Step(argv, OPTIONS, State(1, 1)) == (Opt('s', Some("/x")), State(3, 1));
    assert Step(argv, OPTIONS, State(3, 1)) == (Done, State(3, 1));
    assert ParseAll(argv, OPTIONS, State(3, 1)) == ([], 3);
    assert [Opt('s', Some("/x"))] + [] == [Opt('s', Some("/x"))];
    assert Fits("-s") && EnterAgrees.Plain(argv, 3) && EnterAgrees.Plain(argv, 1);
    PlainIsAlike(argv, 1);
  }

  lemma ConvertibleExample()
    ensures Normalize(Convert("/x", Some("C:"))) == "C:/x"
  {
    hide Tokens, Join, Normalize, Components;
    assert Convert("/x", Some("C:")) == "C:/x";
    assert Normal("C:/x");
    NormalIffFixed("C:/x");
  }

  lemma ExampleAction(p: Settings, host: Host)
    requires p.srcdir == "C:/x" && !p.doList && p.tcname == Some("tc")
    requires host.windows && host.present("C:/x/t") == Some(true) && "tc" in host.idents && !host.hookFails
    ensures ActionOf(p, "t", host) == Ok(RunTc("tc", p.part, p.resfile))
  {
    hide Tokens, Join, Normalize, StrRChr;
    assert OnLetter("C:/x");
    assert "C:/x"[3..] == "x";
    StrRChrIs("C:/x", '/', 3);
    assert Leaf("C:/x") == "x";
    NormalIffFixed("t");
    assert AppendPath("C:/x", "t") == "C:/x/t";
  }

  // ----- No NUL comes in -----

  lemma ConvertNulFree(path: string, root: Option<string>)
    requires NulFree(path) && (root.Some? ==> NulFree(root.value))
    ensures NulFree(Convert(path, root))
  {
  }

  lemma TurnNulFree(argv: seq<string>, i: nat, root: Option<string>)
    requires !Stops(argv, i) && AllNulFree(argv) && (root.Some? ==> NulFree(root.value))
    ensures AllNulFree(Turn(argv, i, root).0)
  {
    hide Convert;
    ConvertNulFree(argv[i][if |argv[i]| > 2 then 2 else |argv[i]|..], root);
    if i + 1 < |argv| {
      ConvertNulFree(argv[i + 1], root);
    }
  }

  lemma {:induction false} EnterNulFree(argv: seq<string>, i: nat, root: Option<string>)
    requires AllNulFree(argv) && (root.Some? ==> NulFree(root.value))
    ensures AllNulFree(EnterFrom(argv, i, root))
    decreases |argv| - i
  {
    hide Turn, AllNulFree;
    if !Stops(argv, i) {
      var (a, n) := Turn(argv, i, root);
      TurnNulFree(argv, i, root);
      EnterNulFree(a, n, root);
    }
  }

  /** atf_tp_main of the Windows layer: atfw_enter rewrites the arguments in place, then the POSIX main
      reads them, by the Windows rule for absolute paths. */
  method WindowsMain(argv: array<string>, root: Option<string>, host: Host, parser: Parser)
      returns (action: Outcome<Action>, tcs: seq<AtfMap.Map>)
    requires argv.Length > 0 && AllNulFree(argv[..]) && parser.S() == State(1, 1)
    requires host.windows && HasCwd(host.cwd) && (root.Some? ==> NulFree(root.value))
    modifies argv, parser
    ensures argv[..] == Entered(old(argv[..]), root)
    ensures action == MainOf(argv[..], host)
    ensures action.Ok? ==> parser.S() == State(1, 1) && Configured(tcs, argv[..], host)
    ensures Alike(old(argv[..]), 1, 1) ==> action == NativeAction(old(argv[..]), root, host)
  {
    hide EnterFrom, MainOf, Slashes, Configured, Alike, NativeAction;
    ghost var before := argv[..];
    EnterArgv(argv, root);
    var after := argv[..];
    assert NulFree(Slashes(before[0]));
    assert AllNulFree(before[0 := Slashes(before[0])]);
    EnterNulFree(before[0 := Slashes(before[0])], 1, root);
    if Alike(before, 1, 1) {
      EnteredMain(before, root, host);
    }
    action, tcs := ControlledMain(after, host, parser);
  }
}
