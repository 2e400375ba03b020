/** Main of a test program: the option loop, the source directory, and the way of the configuration
    to the test cases (tp_main.c, tp.c, tc.c). */
module TpMain {
  import opened Options
  import opened Strings
  import opened Getopt
  import opened EnterAgrees
  import opened Bindings
  import opened Fs
  import opened TpParams
  import opened TpMeaning
  import AtfMap
  import FsPath
  import D = Dynstr

  /** r is what getopt reports with this character, optarg and optopt. */
  predicate Reports(r: Result, ch: char, optarg: Option<string>, optopt: char) {
    match r
    case Done => false
    case Opt(c, arg) => ch == c && (arg.Some? ==> optarg == arg && NulFree(arg.value))
    case Unknown(c) => ch == '?' && optopt == c
    case Missing(c, colon) => ch == (if colon then ':' else '?') && optopt == c
  }

  /** struct params */
  class Params {
    var doList: bool
    var srcdir: string
    var tcname: Option<string>
    var part: Part
    var resfile: string
    const config: AtfMap.Map

    ghost predicate Valid()
      reads this, config, config.repr
    {
      this !in config.repr && config.Valid() && Normal(srcdir) && NulFree(srcdir)
    }

    ghost function View(): Settings
      requires Valid()
      reads this, config, config.repr
    {
      Settings(doList, srcdir, tcname, part, resfile, config.View())
    }

    /** params_init, with argv0_to_dir */
    constructor (argv0: string)
      requires |argv0| > 0 && NulFree(argv0)
      ensures Valid() && View() == Parsed(argv0, [])
      ensures fresh(config.repr)
    {
      hide AtfMap.Map.Valid, AtfMap.Map.View, D.Dynstr.Valid, D.Dynstr.View, Normalize, Branch, Normal;
      var temp := FsPath.NormalizeAp(argv0);
      NormalizeIsNormal(argv0);
      BranchAndLeaf(Normalize(argv0));
      var dir := FsPath.BranchPath(temp);
      var text := dir.CStr();
      doList := false;
      srcdir := text;
      tcname := None;
      part := Body;
      resfile := "/dev/stdout";
      config := new AtfMap.Map();
    }

    /** parse_vflag */
    method ParseVflag(arg: string) returns (err: Option<Fault>)
      requires Valid()
      modifies config.repr
      ensures Valid() && fresh(config.repr - old(config.repr))
      ensures err == if '=' in arg then None else Some(NotVarValue)
      ensures View() == if '=' !in arg then old(View()) else
                        old(View()).(config := Bindings.Insert(old(View()).config, VarOf(arg).key, VarOf(arg).value))
    {
      hide AtfMap.Map.Valid, AtfMap.Map.View, Bindings.Insert;
      var split := StrChr(arg, '=');
      if split == |arg| {
        return Some(NotVarValue);
      }
      var _, _ := config.Insert(arg[..split], arg[split + 1..], false);
      err := None;
    }

    /** The switch of process_params. */
    method Take(ch: char, optarg: Option<string>, optopt: char,
                ghost argv0: string, ghost rs: seq<Result>, ghost r: Result)
      returns (err: Option<Fault>)
      requires Valid() && View() == Parsed(argv0, rs)
      requires Reports(r, ch, optarg, optopt) && FromOptions(r)
      modifies this, config.repr
      ensures Valid() && fresh(config.repr - old(config.repr))
      ensures err == FaultOf(r)
      ensures err.None? ==> View() == Parsed(argv0, rs + [r])
    {
      hide AtfMap.Map.Valid, AtfMap.Map.View, Bindings.Insert, Parsed, Normalize, Normal, VarOf;
      err := None;
      if FaultOf(r).None? {
        ParsedSnoc(argv0, rs, r);
      }
      if ch == 'l' {
        doList := true;
      } else if ch == 'r' {
        if |optarg.value| == 0 {
          return Some(PathEmpty);
        }
        resfile := PathText(optarg.value);
      } else if ch == 's' {
        if |optarg.value| == 0 {
          return Some(PathEmpty);
        }
        srcdir := PathText(optarg.value);
      } else if ch == 'v' {
        err := ParseVflag(optarg.value);
      } else if ch == ':' {
        err := Some(ArgumentMissing(optopt));
      } else {
        err := Some(UnknownOption(optopt));
      }
    }
  }

  /** atf_fs_path_init_fmt("%s"), as the text of the path */
  method PathText(value: string) returns (text: string)
    requires |value| > 0 && NulFree(value)
    ensures text == Normalize(value) && Normal(text) && NulFree(text)
  {
    hide D.Dynstr.Valid, D.Dynstr.View, Normalize, Normal;
    var temp := FsPath.NormalizeAp(value);
    NormalizeIsNormal(value);
    text := temp.CStr();
  }

  predicate AllNulFree(argv: seq<string>) {
    forall i :: 0 <= i < |argv| ==> NulFree(argv[i])
  }

  lemma ArgNulFree(argv: seq<string>, s: State)
    requires Ready(argv, s) && AllNulFree(argv)
    ensures var r := Step(argv, OPTIONS, s).0;
      r.Opt? && r.arg.Some? ==> NulFree(r.arg.value)
  {
    hide Strip, Known, TakesArg;
  }

  /** How many calls of getopt are left at most: those in later elements, and those in this one. */
  function Left(argv: seq<string>, s: State): int
    requires Ready(argv, s)
  {
    if s.optind < |argv| then |argv[s.optind]| - s.pos else 0
  }

  /** One call of getopt in the option loop. */
  lemma OneCall(argv: seq<string>, s: State)
    requires Ready(argv, s) && AllNulFree(argv)
    ensures var (r, s') := Step(argv, OPTIONS, s);
      && FromOptions(r) && Ready(argv, s')
      && (r.Opt? && r.arg.Some? ==> NulFree(r.arg.value))
      && (r.Done? ==> s'.pos == 1 && ParseAll(argv, OPTIONS, s) == ([], s'.optind))
      && (!r.Done? ==>
            && |argv| - s'.optind <= |argv| - s.optind
            && (s'.optind == s.optind ==> Left(argv, s') < Left(argv, s))
            && ParseAll(argv, OPTIONS, s).0 == [r] + ParseAll(argv, OPTIONS, s').0
            && ParseAll(argv, OPTIONS, s).1 == ParseAll(argv, OPTIONS, s').1)
      && LastCall(argv, s) == if r.Done? || FaultOf(r).Some? then s else LastCall(argv, s')
  {
    StepKeepsReady(argv, OPTIONS, s);
    StepFromOptions(argv, s);
    ArgNulFree(argv, s);
    hide Step, FaultOf;
  }

  /** The option loop of process_params. */
  method OptionLoop(argv: seq<string>, parser: Parser, p: Params) returns (err: Option<Fault>)
    requires |argv| > 0 && AllNulFree(argv) && parser.S() == State(1, 1)
    requires p.Valid() && p.View() == Parsed(argv[0], []) && parser !in p.config.repr
    modifies parser, p, p.config.repr
    ensures p.Valid() && fresh(p.config.repr - old(p.config.repr))
    ensures Ready(argv, parser.S())
    ensures parser.S() == Step(argv, OPTIONS, LastCall(argv, State(1, 1))).1
    ensures var (rs, optind) := ParseAll(argv, OPTIONS, State(1, 1));
      && err == FirstFault(rs)
      && (err.None? ==> parser.S() == State(optind, 1) && p.View() == Parsed(argv[0], rs))
  {
    hide Params.Valid, Params.View, Parsed, ParseAll, Step, FaultOf, LastCall, FirstFault;
    ghost var (rs, optind) := ParseAll(argv, OPTIONS, State(1, 1));
    ghost var done: seq<Result> := [];
    err := None;
    assert done + rs == rs;
    FirstFaultIs([]);
    while err.None?
      invariant p.Valid() && fresh(p.config.repr - old(p.config.repr)) && parser !in p.config.repr
      invariant Ready(argv, parser.S())
      invariant err.None? ==> p.View() == Parsed(argv[0], done) && FirstFault(done).None?
      invariant err.None? ==> rs == done + ParseAll(argv, OPTIONS, parser.S()).0
      invariant err.None? ==> optind == ParseAll(argv, OPTIONS, parser.S()).1
      invariant err.None? ==> LastCall(argv, parser.S()) == LastCall(argv, State(1, 1))
      invariant err.Some? ==> err == FirstFault(rs)
      invariant err.Some? ==> parser.S() == Step(argv, OPTIONS, LastCall(argv, State(1, 1))).1
      decreases err.None?, |argv| - parser.optind, Left(argv, parser.S())
    {
      ghost var s := parser.S();
      ghost var r := Step(argv, OPTIONS, s).0;
      OneCall(argv, s);
      var ch := parser.Next(argv, OPTIONS);
      ghost var rest := ParseAll(argv, OPTIONS, parser.S()).0;
      if ch.None? {
        assert done + [] == done;
        break;
      }
      assert done + ([r] + rest) == done + [r] + rest;
      err := p.Take(ch.value, parser.optarg, parser.optopt, argv[0], done, r);
      FirstFaultSnoc(done, r);
      if err.Some? {
        FirstFaultPrefix(done + [r], rest);
      }
      done := done + [r];
    }
  }

  lemma FirstFaultSnoc(rs: seq<Result>, r: Result)
    requires FirstFault(rs).None?
    ensures FirstFault(rs + [r]) == FaultOf(r)
  {
    assert (rs + [r])[..|rs|] == rs;
  }

  /** process_params. A failure drops what params_init made; either way optind is reset. */
  method ProcessParams(argv: seq<string>, parser: Parser) returns (p: Params?, err: Option<Fault>)
    requires |argv| > 0 && AllNulFree(argv) && parser.S() == State(1, 1)
    modifies parser
    ensures err.None? <==> ParamsOf(argv).Ok?
    ensures err.Some? ==> ParamsOf(argv) == Failed(err.value)
    ensures err.None? ==> p != null && fresh(p) && p.Valid() && fresh(p.config.repr) && ParamsOf(argv) == Ok(p.View())
    ensures parser.optind == 1 && (err.None? ==> parser.pos == 1)
    ensures |argv[0]| > 0 ==> parser.pos == Step(argv, OPTIONS, LastCall(argv, State(1, 1))).1.pos
  {
    hide ParseAll, Step, LastCall, FirstFault, AtfMap.Map.Valid, AtfMap.Map.View, Normal, Normalize, Branch;
    hide LastArg, Vars, InsertAll, TcArg;
    if |argv[0]| == 0 {
      return null, Some(PathEmpty);
    }
    p := new Params(argv[0]);
    err := OptionLoop(argv, parser, p);
    ParseEnd(argv, State(1, 1));
    var operands := argv[parser.optind..];
    parser.optind := 1;
    if err.None? {
      if p.doList {
        if |operands| > 0 {
          err := Some(NamesWithList);
        }
      } else if |operands| == 0 {
        err := Some(NoName);
      } else if |operands| == 1 {
        err := HandleTcarg(p, operands[0]);
      } else {
        err := Some(TooManyNames);
      }
    }
    if err.Some? {
      var _, _, _ := p.config.Fini();
    }
  }

  /** handle_tcarg */
  method HandleTcarg(p: Params, tcarg: string) returns (err: Option<Fault>)
    requires p.Valid() && p.part.Body?
    modifies p
    ensures p.Valid()
    ensures match TcArg(tcarg)
            case Failed(fault) => err == Some(fault)
            case Ok((name, part)) => err == None && p.View() == old(p.View()).(tcname := Some(name), part := part)
  {
    hide AtfMap.Map.Valid, AtfMap.Map.View, Normal;
    var delim := StrChr(tcarg, ':');
    p.tcname := Some(tcarg[..delim]);
    err := None;
    if delim < |tcarg| {
      if tcarg[delim + 1..] == "body" {
        p.part := Body;
      } else if tcarg[delim + 1..] == "cleanup" {
        p.part := Cleanup;
      } else {
        err := Some(BadPart(tcarg[delim + 1..]));
      }
    } else {
      assert tcarg[..delim] == tcarg;
    }
  }

  /** handle_srcdir: the source directory made absolute, without libtool's directory */
  method FindSourceDir(srcdir: string, cwd: Option<string>, windows: bool) returns (dir: string, err: Option<Fault>)
    requires Normal(srcdir) && NulFree(srcdir) && HasCwd(cwd)
    ensures err == if !IsAbsolute(srcdir, windows) && cwd.None? then Some(NoCwd) else None
    ensures err.None? ==> NulFree(dir) && dir == SourceDir(srcdir, if cwd.Some? then cwd.value else "/", windows)
  {
    hide D.Dynstr.Valid, D.Dynstr.View, Normalize, Branch, Leaf, AppendPath, NulFree, IsAbsolute;
    var path := new D.Dynstr.InitRaw(srcdir);
    if !IsAbsolute(srcdir, windows) {
      if cwd.None? {
        return "", Some(NoCwd);
      }
      path := FsPath.NormalizeAp(cwd.value);
      FsPath.AppendAp(path, srcdir);
    }
    var leafname := FsPath.LeafName(path);
    if leafname.CStr() == ".libs" {
      path := FsPath.BranchPath(path);
    }
    dir := path.CStr();
    err := None;
  }

  /** handle_srcdir: the program must be in the source directory. */
  method FindProgram(srcdir: string, progname: string, host: Host) returns (dir: string, err: Option<Fault>)
    requires Normal(srcdir) && NulFree(srcdir) && NulFree(progname) && HasCwd(host.cwd)
    ensures match SrcdirOf(srcdir, progname, host)
            case Failed(fault) => err == Some(fault)
            case Ok(d) => err == None && dir == d && NulFree(dir)
  {
    hide D.Dynstr.Valid, D.Dynstr.View, SourceDir, AppendPath, NulFree, IsAbsolute;
    dir, err := FindSourceDir(srcdir, host.cwd, host.windows);
    if err.Some? {
      return;
    }
    if |progname| == 0 {
      return "", Some(PathEmpty);
    }
    var path := new D.Dynstr.InitRaw(dir);
    FsPath.AppendAp(path, progname);
    var exe := path.CStr();
    var b := host.present(exe);
    if b.None? {
      err := Some(NoAnswer(exe));
    } else if !b.value {
      err := Some(NotInSource(dir));
    }
  }

  /** handle_srcdir: srcdir becomes a variable of the configuration when the program is there. */
  method HandleSrcdir(p: Params, progname: string, host: Host) returns (err: Option<Fault>)
    requires p.Valid() && NulFree(progname) && HasCwd(host.cwd)
    modifies p.config.repr
    ensures p.Valid() && fresh(p.config.repr - old(p.config.repr))
    ensures match SrcdirOf(old(p.srcdir), progname, host)
            case Failed(fault) => err == Some(fault)
            case Ok(dir) =>
              err == None && p.View() == old(p.View()).(config := Bindings.Insert(old(p.View()).config, "srcdir", dir))
  {
    hide AtfMap.Map.Valid, AtfMap.Map.View, AtfMap.Map.Managed, SrcdirOf, Bindings.Insert;
    var dir;
    dir, err := FindProgram(p.srcdir, progname, host);
    if err.None? {
      var _, _ := p.config.Insert("srcdir", dir, true);
    }
  }

  // ----- The way of the configuration -----

  /** The strings of a NULL-terminated array. */
  function UntilNull(a: seq<Option<string>>): seq<string> {
    if |a| == 0 || a[0].None? then [] else [a[0].value] + UntilNull(a[1..])
  }

  lemma {:induction false} UntilNullOf(ws: seq<string>)
    ensures UntilNull(NullTerminated(ws)) == ws
  {
    if |ws| > 0 {
      assert NullTerminated(ws)[1..] == NullTerminated(ws[1..]);
      UntilNullOf(ws[1..]);
    }
  }

  /** atf_map_to_charpp and then atf_map_init_charpp: how a configuration is handed on. */
  method HandOn(m: AtfMap.Map) returns (copy: AtfMap.Map)
    requires m.Valid()
    ensures copy.Valid() && fresh(copy.repr) && copy.View() == m.View()
  {
    hide *;
    var raw := AtfMap.ToCharpp(m);
    UntilNullOf(Flatten(m.View()));
    var ok;
    copy, ok := AtfMap.InitCharpp(UntilNull(raw[..]));
    AtfMap.CharppRoundTrip(m.View());
  }

  /** ATF_TP_ADD_TC for each test case */
  method AddTcs(tp: AtfMap.Map, idents: seq<string>) returns (tcs: seq<AtfMap.Map>)
    requires tp.Valid()
    ensures |tcs| == |idents|
    ensures forall i :: 0 <= i < |tcs| ==> tcs[i].Valid() && tcs[i].View() == tp.View()
  {
    hide AtfMap.Map.Valid, AtfMap.Map.View;
    tcs := [];
    for i := 0 to |idents|
      invariant |tcs| == i
      invariant forall j :: 0 <= j < i ==> tcs[j].Valid() && tcs[j].View() == tp.View()
    {
      var tc := HandOn(tp);
      tcs := tcs + [tc];
    }
  }

  lemma ParamsConfig(argv: seq<string>)
    requires |argv| > 0 && ParamsOf(argv).Ok?
    ensures var p := ParamsOf(argv).value;
      p.config == InsertAll([], Vars(ParseAll(argv, OPTIONS, State(1, 1)).0)) && (p.doList || p.tcname.Some?)
  {
    hide ParseAll, InsertAll, Vars, LastArg, Normalize, Branch, FirstFault, TcArg;
  }

  lemma ProgNameNulFree(argv0: string)
    requires NulFree(argv0)
    ensures NulFree(ProgName(argv0))
  {
  }

  /** What each test case of a command line sees, when the program gets that far. */
  ghost predicate Configured(tcs: seq<AtfMap.Map>, argv: seq<string>, host: Host)
    requires |argv| > 0
    reads tcs, set i | 0 <= i < |tcs| :: tcs[i], set i, o | 0 <= i < |tcs| && o in tcs[i].repr :: o
  {
    MainOf(argv, host).Ok? ==>
    var vars := Vars(ParseAll(argv, OPTIONS, State(1, 1)).0);
    var dir := SrcdirOf(ParamsOf(argv).value.srcdir, ProgName(argv[0]), host).value;
    |tcs| == |host.idents| && forall i :: 0 <= i < |tcs| ==> tcs[i].Valid() && tcs[i].View() == Configuration(vars, dir)
  }

  /** So every test case sees the variables of the -v options, with srcdir set to the directory that the
      program was found in. */
  lemma SeesConfiguration(tcs: seq<AtfMap.Map>, argv: seq<string>, host: Host, i: nat)
    requires |argv| > 0 && Configured(tcs, argv, host) && MainOf(argv, host).Ok? && i < |host.idents|
    ensures var srcdir := ParamsOf(argv).value.srcdir;
      && |srcdir| > 0 && |tcs| == |host.idents| && tcs[i].Valid()
      && var dir := SourceDir(srcdir, if host.cwd.Some? then host.cwd.value else "/", host.windows);
      && var vars := Vars(ParseAll(argv, OPTIONS, State(1, 1)).0);
      AsMap(tcs[i].View()) == AsMap(vars)["srcdir" := dir]
  {
    RunsIff(argv, host);
    var srcdir := ParamsOf(argv).value.srcdir;
    hide AtfMap.Map.Valid, AtfMap.Map.View, ParamsOf, SourceDir, ProgName, ParseAll, Vars, SrcdirOf, Configuration;
    hide IsAbsolute, AsMap;
    SrcdirIs(srcdir, ProgName(argv[0]), host);
    ConfigurationIs(Vars(ParseAll(argv, OPTIONS, State(1, 1)).0), SrcdirOf(srcdir, ProgName(argv[0]), host).value);
  }

  /** controlled_main up to the run of the test case: the configuration goes from the options to the
      test program (atf_tp_init) and from there to every test case (ATF_TP_ADD_TC). */
  method ControlledMain(argv: seq<string>, host: Host, parser: Parser)
    returns (action: Outcome<Action>, tcs: seq<AtfMap.Map>)
    requires |argv| > 0 && AllNulFree(argv) && parser.S() == State(1, 1) && HasCwd(host.cwd)
    modifies parser
    ensures action == MainOf(argv, host)
    ensures action.Ok? ==> parser.S() == State(1, 1) && Configured(tcs, argv, host)
  {
    hide AtfMap.Map.Valid, AtfMap.Map.View, ParamsOf, Bindings.Insert, SrcdirOf, ProgName, ParseAll;
    hide InsertAll, Vars, Normal;
    tcs := [];
    ProgNameNulFree(argv[0]);
    var p, err := ProcessParams(argv, parser);
    if err.Some? {
      return Failed(err.value), [];
    }
    ParamsConfig(argv);
    err := HandleSrcdir(p, ProgName(argv[0]), host);
    if err.Some? {
      return Failed(err.value), [];
    }
    var tp := HandOn(p.config);
    if host.hookFails {
      return Failed(HookFailed), [];
    }
    tcs := AddTcs(tp, host.idents);
    if p.doList {
      action := Ok(ListTcs);
    } else if p.tcname.value !in host.idents {
      action := Failed(UnknownTestCase(p.tcname.value));
    } else {
      action := Ok(RunTc(p.tcname.value, p.part, p.resfile));
    }
  }
}
