/** What a test program's command line means: the options of tp_main.c, told from the results that
    getopt hands over. */
module TpParams {
  import opened Options
  import opened Strings
  import opened Getopt
  import opened Enter
  import opened EnterAgrees
  import opened GetoptRoundTrip
  import opened Bindings
  import opened Fs
  import opened Text

  datatype Part = Body | Cleanup

  datatype Fault =
    | NotVarValue
    | ArgumentMissing(c: char)
    | UnknownOption(c: char)
    | NamesWithList
    | NoName
    | TooManyNames
    | BadPart(part: string)
    | NoCwd
    | NoAnswer(exe: string)
    | NotInSource(srcdir: string)
    | HookFailed
    | UnknownTestCase(name: string)
    | PathEmpty // a violated PRE of normalize: the program aborts

  datatype Outcome<T> = Ok(value: T) | Failed(fault: Fault)

  /** struct params, with the bindings of its configuration map. */
  datatype Settings = Settings(doList: bool, srcdir: string, tcname: Option<string>, part: Part, resfile: string,
                               config: seq<Binding<string, string>>)

  // ----- One option -----

  /** var=value at its first '='. */
  function VarOf(arg: string): (b: Binding<string, string>)
    requires '=' in arg
    ensures '=' !in b.key && arg == b.key + "=" + b.value
  {
    var i := StrChr(arg, '=');
    Binding(arg[..i], arg[i + 1..])
  }

  /** A name without '=' and any value are read back. */
  lemma VarOfUnique(key: string, value: string)
    requires '=' !in key
    ensures VarOf(key + "=" + value) == Binding(key, value)
  {
    StrChrBehind(key, '=', value);
    var arg := key + "=" + value;
    assert arg[..|key|] == key && arg[|key| + 1..] == value;
  }

  /** The error that an option makes. */
  function FaultOf(r: Result): Option<Fault> {
    match r
    case Done => None
    case Opt(c, None) => None
    case Opt(c, Some(arg)) =>
      if c == 'v' then (if '=' in arg then None else Some(NotVarValue))
      else if PathFlag(c) && |arg| == 0 then Some(PathEmpty) else None
    case Unknown(c) => Some(UnknownOption(c))
    case Missing(c, _) => Some(ArgumentMissing(c))
  }

  /** What the option string lets getopt return. */
  predicate FromOptions(r: Result) {
    match r
    case Opt(c, arg) => c in {'l', 'r', 's', 'v'} && (arg.None? <==> c == 'l')
    case Missing(_, colon) => colon
    case _ => true
  }

  lemma StepFromOptions(argv: seq<string>, s: State)
    requires Ready(argv, s)
    ensures FromOptions(Step(argv, OPTIONS, s).0)
  {
    hide StrChr, Strip;
    if OptionElement(argv, s.optind) {
      OptString(argv[s.optind][s.pos]);
    } else {
      OptString('l');
    }
    hide Known, TakesArg;
  }

  // ----- All options -----

  function FirstFault(rs: seq<Result>): Option<Fault> {
    if |rs| == 0 then None
    else
      var before := FirstFault(rs[..|rs| - 1]);
      if before.Some? then before else FaultOf(rs[|rs| - 1])
  }

  lemma {:induction false} FirstFaultPrefix(rs: seq<Result>, more: seq<Result>)
    requires FirstFault(rs).Some?
    ensures FirstFault(rs + more) == FirstFault(rs)
  {
    if |more| == 0 {
      assert rs + more == rs;
    } else {
      var init := more[..|more| - 1];
      FirstFaultPrefix(rs, init);
      assert (rs + more)[..|rs + more| - 1] == rs + init;
    }
  }

  /** The first fault is that of the earliest faulty option. */
  lemma {:induction false} FirstFaultIs(rs: seq<Result>)
    ensures FirstFault(rs).None? <==> forall i :: 0 <= i < |rs| ==> FaultOf(rs[i]).None?
    ensures FirstFault(rs).Some? ==>
              exists i :: 0 <= i < |rs| && FaultOf(rs[i]) == FirstFault(rs) &&
                          forall j :: 0 <= j < i ==> FaultOf(rs[j]).None?
  {
    if |rs| > 0 {
      var init := rs[..|rs| - 1];
      FirstFaultIs(init);
      assert forall i :: 0 <= i < |init| ==> rs[i] == init[i];
      if FirstFault(init).None? {
        assert FirstFault(rs) == FaultOf(rs[|rs| - 1]);
      }
    }
  }

  lemma {:induction false} FirstFaultCons(r: Result, rest: seq<Result>)
    ensures FirstFault([r] + rest) == if FaultOf(r).Some? then FaultOf(r) else FirstFault(rest)
  {
    hide FaultOf;
    if |rest| > 0 {
      var init := rest[..|rest| - 1];
      FirstFaultCons(r, init);
      assert ([r] + rest)[..|rest|] == [r] + init;
    }
  }

  /** The last argument of an option. */
  function LastArg(rs: seq<Result>, c: char): Option<string> {
    if |rs| == 0 then None
    else if rs[|rs| - 1].Opt? && rs[|rs| - 1].c == c && rs[|rs| - 1].arg.Some? then rs[|rs| - 1].arg
    else LastArg(rs[..|rs| - 1], c)
  }

  /** The variables set with -v, in order. */
  function Vars(rs: seq<Result>): seq<Binding<string, string>> {
    if |rs| == 0 then [] else Vars(rs[..|rs| - 1]) + VarsOf(rs[|rs| - 1])
  }

  function VarsOf(r: Result): seq<Binding<string, string>> {
    match r
    case Opt(c, Some(arg)) => if c == 'v' && '=' in arg then [VarOf(arg)] else []
    case _ => []
  }

  /** The settings that faultless options make; the test case name is not yet set. */
  function Parsed(argv0: string, rs: seq<Result>): Settings {
    Settings(Opt('l', None) in rs,
             (match LastArg(rs, 's')
              case None => Branch(Normalize(argv0))
              case Some(dir) => Normalize(dir)),
             None,
             Body,
             (match LastArg(rs, 'r')
              case None => "/dev/stdout"
              case Some(file) => Normalize(file)),
             InsertAll([], Vars(rs)))
  }

  /** One more option changes one setting only. */
  lemma ParsedSnoc(argv0: string, rs: seq<Result>, r: Result)
    requires FromOptions(r) && FaultOf(r).None?
    ensures var p := Parsed(argv0, rs);
      Parsed(argv0, rs + [r]) ==
      match r
      case Opt(c, None) => p.(doList := true)
      case Opt(c, Some(arg)) =>
        if c == 'r' then p.(resfile := Normalize(arg))
        else if c == 's' then p.(srcdir := Normalize(arg))
        else p.(config := Bindings.Insert(p.config, VarOf(arg).key, VarOf(arg).value))
      case _ => p
  {
    hide Normalize, Branch, VarOf, Bindings.Insert, Vars, LastArg, InsertAll;
    Snoc(rs, r);
    hide FaultOf;
  }

  lemma Snoc(rs: seq<Result>, r: Result)
    requires FromOptions(r) && FaultOf(r).None?
    ensures LastArg(rs + [r], 's') == if r.Opt? && r.c == 's' then r.arg else LastArg(rs, 's')
    ensures LastArg(rs + [r], 'r') == if r.Opt? && r.c == 'r' then r.arg else LastArg(rs, 'r')
    ensures r.Opt? && r.c == 'v' ==>
              var b := VarOf(r.arg.value);
              InsertAll([], Vars(rs + [r])) == Bindings.Insert(InsertAll([], Vars(rs)), b.key, b.value)
    ensures !(r.Opt? && r.c == 'v') ==> Vars(rs + [r]) == Vars(rs)
  {
    hide VarOf, Bindings.Insert;
    assert (rs + [r])[..|rs|] == rs;
    assert (Vars(rs) + VarsOf(r))[..|Vars(rs)|] == Vars(rs);
  }

  /** handle_tcarg */
  function TcArg(arg: string): Outcome<(string, Part)> {
    var i := StrChr(arg, ':');
    if i == |arg| then Ok((arg, Body))
    else if arg[i + 1..] == "body" then Ok((arg[..i], Body))
    else if arg[i + 1..] == "cleanup" then Ok((arg[..i], Cleanup))
    else Failed(BadPart(arg[i + 1..]))
  }

  /** A name alone stands for the body; behind a ':' only the two parts are accepted. */
  lemma TcArgIs(name: string, part: string)
    requires ':' !in name
    ensures TcArg(name) == Ok((name, Body))
    ensures TcArg(name + ":" + part) ==
            if part == "body" then Ok((name, Body))
            else if part == "cleanup" then Ok((name, Cleanup))
            else Failed(BadPart(part))
  {
    var arg := name + ":" + part;
    StrChrBehind(name, ':', part);
    assert arg[..|name|] == name && arg[|name| + 1..] == part;
  }

  /** The operands must name one test case, or none with -l. */
  function Named(p: Settings, operands: seq<string>): Outcome<Settings> {
    if p.doList then (if |operands| > 0 then Failed(NamesWithList) else Ok(p))
    else if |operands| == 0 then Failed(NoName)
    else if |operands| > 1 then Failed(TooManyNames)
    else
      match TcArg(operands[0])
      case Failed(fault) => Failed(fault)
      case Ok((name, part)) => Ok(p.(tcname := Some(name), part := part))
  }

  lemma {:induction false} ParseEnd(argv: seq<string>, s: State)
    requires Ready(argv, s)
    ensures s.optind <= ParseAll(argv, OPTIONS, s).1 <= |argv|
    decreases |argv| - s.optind, if s.optind < |argv| then |argv[s.optind]| - s.pos else 0
  {
    hide Step;
    StepKeepsReady(argv, OPTIONS, s);
    var (r, s') := Step(argv, OPTIONS, s);
    if !r.Done? {
      ParseEnd(argv, s');
    }
  }

  /** process_params, told from the results of getopt. */
  function ParamsOf(argv: seq<string>): Outcome<Settings>
    requires |argv| > 0
  {
    ParseEnd(argv, State(1, 1));
    var (rs, optind) := ParseAll(argv, OPTIONS, State(1, 1));
    if |argv[0]| == 0 then Failed(PathEmpty)
    else if FirstFault(rs).Some? then Failed(FirstFault(rs).value)
    else Named(Parsed(argv[0], rs), argv[optind..])
  }

  /** The meaning of a command line written by the Utility Syntax Guidelines, in any mix of clusters,
      attached and separate arguments. */
  lemma ParamsOfWritten(argv0: string, items: seq<Item>, end: End, operands: seq<string>)
    requires forall k :: 0 <= k < |items| ==> WellFormed(items[k], OPTIONS)
    requires EndFits(end, operands) && |argv0| > 0
    ensures ParamsOf([argv0] + EncodeAll(items) + (if end.DashDash? then ["--"] else []) + operands) ==
            if FirstFault(MeaningAll(items)).Some? then Failed(FirstFault(MeaningAll(items)).value)
            else Named(Parsed(argv0, MeaningAll(items)), operands)
  {
    OptString('l');
    hide WellFormed, Strip, EncodeAll, MeaningAll, ParseAll, Parsed, Named, FirstFault;
    RoundTrip(argv0, OPTIONS, items, end, operands);
  }

  // ----- The source directory -----

  /** The program's name: behind the last slash, without libtool's prefix. */
  function ProgName(argv0: string): string {
    var name := Leaf(argv0);
    if "lt-" <= name then name[3..] else name
  }

  lemma ProgNameIs(dir: string, name: string)
    requires '/' !in name
    ensures ProgName(dir + "/" + name) == ProgName(name)
    ensures !("lt-" <= name) ==> ProgName(name) == name
    ensures ProgName("lt-" + name) == name
  {
    var path := dir + "/" + name;
    assert path[|dir| + 1..] == name;
    StrRChrIs(path, '/', |dir| + 1);
    assert name[0..] == name;
    StrRChrIs(name, '/', 0);
    assert ("lt-" + name)[0..] == "lt-" + name && ("lt-" + name)[3..] == name;
    StrRChrIs("lt-" + name, '/', 0);
  }

  /** Where a test program runs. cwd is None when getcwd fails; `present` is the file system's answer,
      None for an error; idents are the test cases that the program's hook adds. */
  datatype Host = Host(windows: bool, cwd: Option<string>, present: string -> Option<bool>,
                       idents: seq<string>, hookFails: bool)

  predicate HasCwd(cwd: Option<string>) {
    cwd.Some? ==> |cwd.value| > 0 && NulFree(cwd.value)
  }

  /** The source directory made absolute and with libtool's directory stripped. */
  function SourceDir(srcdir: string, cwd: string, windows: bool): string
    requires |srcdir| > 0
  {
    var dir := if IsAbsolute(srcdir, windows) then srcdir else AppendPath(Normalize(cwd), srcdir);
    if Leaf(dir) == ".libs" then Branch(dir) else dir
  }

  /** handle_srcdir */
  function SrcdirOf(srcdir: string, progname: string, host: Host): Outcome<string> {
    if !IsAbsolute(srcdir, host.windows) && host.cwd.None? then Failed(NoCwd)
    else if |srcdir| == 0 then Failed(PathEmpty)
    else
      var dir := SourceDir(srcdir, if host.cwd.Some? then host.cwd.value else "/", host.windows);
      if |progname| == 0 then Failed(PathEmpty)
      else
        var exe := AppendPath(dir, progname);
        match host.present(exe)
        case None => Failed(NoAnswer(exe))
        case Some(b) => if b then Ok(dir) else Failed(NotInSource(dir))
  }

  /** libtool's directory right under a drive */
  predicate LetterLibs(p: string) {
    OnLetter(p) && p[3..] == ".libs"
  }

  /** srcdir is absolute, whatever was given, by the POSIX rule; by the Windows rule exactly when it is
      not libtool's directory right under a drive, where stripping leaves the drive without a slash. */
  lemma SourceDirAbsoluteIff(srcdir: string, cwd: string, windows: bool)
    requires Normal(srcdir) && IsAbsolute(cwd, windows)
    ensures IsAbsolute(SourceDir(srcdir, cwd, windows), windows) <==>
            !(windows && LetterLibs(if IsAbsolute(srcdir, windows) then srcdir else Normalize(cwd) + "/" + srcdir))
  {
    hide Normalize, Leaf, Branch, IsAbsolute, LetterLibs, Normal;
    if IsAbsolute(srcdir, windows) {
      StripAbsoluteIff(srcdir, windows);
    } else {
      RelativeAppended(srcdir, Normalize(cwd), windows);
      BaseAbsolute(cwd, srcdir, windows);
      StripAbsoluteIff(Normalize(cwd) + "/" + srcdir, windows);
    }
  }

  lemma RelativeAppended(srcdir: string, base: string, windows: bool)
    requires Normal(srcdir) && !IsAbsolute(srcdir, windows)
    ensures AppendPath(base, srcdir) == base + "/" + srcdir
  {
    hide Tokens, Join, Normalize;
    NormalIffFixed(srcdir);
  }

  lemma BaseAbsolute(cwd: string, srcdir: string, windows: bool)
    requires IsAbsolute(cwd, windows)
    ensures IsAbsolute(Normalize(cwd) + "/" + srcdir, windows)
  {
    hide Tokens, Join, Normalize, Normal;
    if Absolute(cwd) {
      NormalizeKeeps(cwd);
    } else {
      var d, rest := cwd[0], cwd[3..];
      assert cwd == [d] + ":/" + rest;
      LetterNormalize(d, rest);
    }
  }

  /** Stripping libtool's directory from an absolute path. */
  lemma StripAbsoluteIff(dir: string, windows: bool)
    requires IsAbsolute(dir, windows)
    ensures IsAbsolute(if Leaf(dir) == ".libs" then Branch(dir) else dir, windows) <==> !(windows && LetterLibs(dir))
  {
    hide StrRChr;
    var i := StrRChr(dir, '/').value;
    assert dir[i + 1..] == Leaf(dir);
    if !Absolute(dir) {
      assert i >= 2;
      if i == 2 {
        assert dir[..i] == Branch(dir);
      } else {
        assert dir[3..][i - 3] == '/';
        assert '/' in dir[3..];
      }
    }
  }

  /** Under libtool the program runs from a directory of its own: its parent is meant. */
  lemma LibtoolStripped(dir: string, cwd: string, windows: bool)
    requires Normal(dir) && dir != "/" && |cwd| > 0
    ensures SourceDir(dir + "/.libs", cwd, windows) ==
            if IsAbsolute(dir + "/.libs", windows) then dir else AppendPath(Normalize(cwd), dir)
  {
    hide Tokens, Join, StrRChr;
    var libs := dir + "/.libs";
    LeafBehind(dir);
    assert libs[0] == dir[0];
    if !IsAbsolute(libs, windows) {
      var base := Normalize(cwd);
      assert Normal(libs);
      NormalIffFixed(libs);
      NormalIffFixed(dir);
      assert AppendPath(base, libs) == AppendPath(base, dir) + "/.libs";
      NormalizeIsNormal(cwd);
      LeafBehind(AppendPath(base, dir));
    }
  }

  lemma LeafBehind(dir: string)
    requires |dir| > 0
    ensures Leaf(dir + "/.libs") == ".libs" && Branch(dir + "/.libs") == dir
  {
    var path := dir + "/.libs";
    assert path[|dir| + 1..] == ".libs" && path[..|dir|] == dir;
    StrRChrIs(path, '/', |dir| + 1);
  }

  /** With a relative srcdir under the root directory the slash is doubled. */
  lemma SourceDirUnderRoot(srcdir: string)
    requires Normal(srcdir) && !Absolute(srcdir)
    ensures AppendPath("/", srcdir) == "//" + srcdir
    ensures Leaf("//" + srcdir) == ".libs" ==> (Branch("//" + srcdir) == "/" <==> srcdir == ".libs")
    ensures Normal(Branch("//" + srcdir)) ==> Branch("//" + srcdir) == "/"
  {
    hide Tokens, Join, StrRChr;
    NormalIffFixed(srcdir);
    hide Normalize;
    var dir := "//" + srcdir;
    assert dir == "/" + "/" + srcdir;
    assert dir[1] == '/' && dir[2..] == srcdir;
    var i := StrRChr(dir, '/').value;
    assert dir[1..][0] == '/';
    assert i > 0;
    if i > 1 {
      assert dir[..i][0] == '/' && dir[..i][1] == '/';
    }
    if srcdir == ".libs" {
      assert dir == "//.libs" && i == 1;
    }
  }

  /** srcdir is a normal path exactly when it was given absolute, or getcwd is not the root, or it is
      libtool's directory itself. */
  lemma SourceDirNormalIff(srcdir: string, cwd: string, windows: bool)
    requires Normal(srcdir) && |cwd| > 0
    ensures Normal(SourceDir(srcdir, cwd, windows)) <==>
            IsAbsolute(srcdir, windows) || Normalize(cwd) != "/" || srcdir == ".libs"
  {
    hide Tokens, Join, StrRChr, Normalize, Branch, Leaf;
    var base := Normalize(cwd);
    NormalizeIsNormal(cwd);
    if IsAbsolute(srcdir, windows) {
      BranchAndLeaf(srcdir);
    } else if base != "/" {
      assert !AllSlashes(srcdir) by {
        assert srcdir[0] != '/';
      }
      AppendIsNormalize(base, srcdir);
      NormalizeIsNormal(base + "/" + srcdir);
      BranchAndLeaf(AppendPath(base, srcdir));
      hide AppendPath, Normal;
    } else {
      SourceDirUnderRoot(srcdir);
      hide AppendPath;
      var dir := "//" + srcdir;
      assert dir[0] == '/' && dir[1] == '/';
      assert !Normal(dir) && Normal("/");
      hide Normal;
      if srcdir == ".libs" {
        LibsLeaf();
        assert dir == "//.libs";
      }
    }
  }

  lemma LibsLeaf()
    ensures Leaf("//.libs") == ".libs"
  {
    var dir := "//.libs";
    assert dir[2..] == ".libs";
    StrRChrIs(dir, '/', 2);
  }

  // ----- The configuration -----

  /** What a test case sees. */
  function Configuration(vars: seq<Binding<string, string>>, srcdir: string): seq<Binding<string, string>> {
    Bindings.Insert(InsertAll([], vars), "srcdir", srcdir)
  }

  /** The configuration is the last-wins fold of the variables with srcdir overridden, in the order
      in which the names first occur, and is unchanged by being written out as an array and read
      back. */
  lemma ConfigurationIs(vars: seq<Binding<string, string>>, srcdir: string)
    ensures var c := Configuration(vars, srcdir);
      && UniqueKeys(c)
      && AsMap(c) == AsMap(vars)["srcdir" := srcdir]
      && Keys(c) == FirstOccurrences(Keys(vars) + ["srcdir"])
      && InsertAll([], Pairs(Flatten(c))) == c
  {
    var c := Configuration(vars, srcdir);
    LastValueWins(vars);
    InsertRefinesMap(InsertAll([], vars), "srcdir", srcdir);
    FirstPositionWins(vars);
    FirstOccurrencesSnoc(Keys(vars), "srcdir");
    PairsOfFlatten(c);
    Rebuild(c);
  }

  /** A variable has the value of the last -v option that names it. */
  lemma {:induction false} VariableIs(vars: seq<Binding<string, string>>, key: string, i: nat)
    requires i < |vars| && vars[i].key == key && forall j :: i < j < |vars| ==> vars[j].key != key
    ensures key in AsMap(vars) && AsMap(vars)[key] == vars[i].value
  {
    var init := vars[..|vars| - 1];
    if i < |init| {
      VariableIs(init, key, i);
    }
  }

  // ----- The program -----

  datatype Action = ListTcs | RunTc(name: string, part: Part, resfile: string)

  /** What a test program does with these settings. */
  function ActionOf(p: Settings, progname: string, host: Host): Outcome<Action> {
    match SrcdirOf(p.srcdir, progname, host)
    case Failed(fault) => Failed(fault)
    case Ok(_) =>
      if host.hookFails then Failed(HookFailed)
      else if p.doList then Ok(ListTcs)
      else
        match p.tcname
        case None => Failed(NoName)
        case Some(name) =>
          if name in host.idents then Ok(RunTc(name, p.part, p.resfile)) else Failed(UnknownTestCase(name))
  }

  /** What it does with its command line. */
  function MainOf(argv: seq<string>, host: Host): Outcome<Action>
    requires |argv| > 0
  {
    match ParamsOf(argv)
    case Failed(fault) => Failed(fault)
    case Ok(p) => ActionOf(p, ProgName(argv[0]), host)
  }

  // ----- What is left of the parser's state -----

  /** The state of the parser before the call that ends the option loop: the first to return -1 or
      an option with a fault. */
  function LastCall(argv: seq<string>, s: State): (l: State)
    requires Ready(argv, s)
    ensures Ready(argv, l)
    decreases |argv| - s.optind, if s.optind < |argv| then |argv[s.optind]| - s.pos else 0
  {
    StepKeepsReady(argv, OPTIONS, s);
    var (r, s') := Step(argv, OPTIONS, s);
    if r.Done? || FaultOf(r).Some? then s else LastCall(argv, s')
  }

  lemma {:induction false} LastCallStops(argv: seq<string>, s: State)
    requires Ready(argv, s)
    ensures var r := Step(argv, OPTIONS, LastCall(argv, s)).0;
      && (r.Done? || FaultOf(r).Some?)
      && (FirstFault(ParseAll(argv, OPTIONS, s).0).None? <==> r.Done?)
    decreases |argv| - s.optind, if s.optind < |argv| then |argv[s.optind]| - s.pos else 0
  {
    StepKeepsReady(argv, OPTIONS, s);
    var (r, s') := Step(argv, OPTIONS, s);
    hide Step, FaultOf, Ready, FirstFault;
    if r.Done? {
      FirstFaultIs([]);
    } else {
      FirstFaultCons(r, ParseAll(argv, OPTIONS, s').0);
      if FaultOf(r).None? {
        LastCallStops(argv, s');
      }
    }
  }
}
