/** What a test program refuses and what it accepts, told on its command line and its host. */
module TpMeaning {
  import opened Options
  import opened Strings
  import opened Getopt
  import opened GetoptRoundTrip
  import opened EnterAgrees
  import opened Bindings
  import opened Fs
  import opened Text
  import opened TpParams

  // ----- The options -----

  /** Without options: nothing is listed, the source directory is that of argv[0], the part is the body,
      the results go to stdout, and no variable is set. */
  lemma NoOptions(argv0: string)
    ensures Parsed(argv0, []) == Settings(false, Branch(Normalize(argv0)), None, Body, "/dev/stdout", [])
  {
  }

  /** The command line of some options and something behind them, up to what getopt returns first there. */
  lemma ReachesFault(argv: seq<string>, items: seq<Item>, rs: seq<Result>, r: Result, s: State)
    requires |argv| > 0 && |argv[0]| > 0 && 1 + |EncodeAll(items)| <= |argv|
    requires argv[1..1 + |EncodeAll(items)|] == EncodeAll(items)
    requires forall k :: 0 <= k < |items| ==> WellFormed(items[k], OPTIONS)
    requires Continues(argv, OPTIONS, State(1 + |EncodeAll(items)|, 1), rs + [r], s)
    requires FirstFault(MeaningAll(items) + rs) == None && FaultOf(r).Some?
    ensures ParamsOf(argv) == Failed(FaultOf(r).value)
  {
    OptString('l');
    hide *;
    var n := 1 + |EncodeAll(items)|;
    var before := MeaningAll(items);
    ItemsRun(argv, OPTIONS, 1, items);
    ContinuesTrans(argv, OPTIONS, State(1, 1), before, State(n, 1), rs + [r], s);
    ContinuesParse(argv, OPTIONS, State(1, 1), before + (rs + [r]), s);
    FaultBetween(before + rs, r, ParseAll(argv, OPTIONS, s).0);
    assert before + (rs + [r]) == before + rs + [r];
    FaultIsResult(argv);
  }

  lemma FaultBetween(rs: seq<Result>, r: Result, more: seq<Result>)
    requires FirstFault(rs) == None && FaultOf(r).Some?
    ensures FirstFault(rs + [r] + more) == FaultOf(r)
  {
    hide FaultOf;
    assert (rs + [r])[..|rs|] == rs;
    FirstFaultPrefix(rs + [r], more);
  }

  lemma FaultIsResult(argv: seq<string>)
    requires |argv| > 0 && |argv[0]| > 0
    ensures var fault := FirstFault(ParseAll(argv, OPTIONS, State(1, 1)).0);
      fault.Some? ==> ParamsOf(argv) == Failed(fault.value)
  {
    hide FirstFault, ParseAll, Parsed, Named;
  }

  lemma FlagsFaultless(rs: seq<Result>, flags: string)
    requires FirstFault(rs) == None
    ensures FirstFault(rs + FlagResults(flags)) == None
  {
    FirstFaultIs(rs);
    FirstFaultIs(rs + FlagResults(flags));
    hide FirstFault;
  }

  /** The first of such errors decides, whatever comes behind it: an option that is none of the four... */
  lemma UnknownRefused(argv0: string, items: seq<Item>, flags: string, c: char, rest: string, more: seq<string>)
    requires |argv0| > 0 && (forall k :: 0 <= k < |items| ==> WellFormed(items[k], OPTIONS))
    requires FirstFault(MeaningAll(items)) == None
    requires (forall k :: 0 <= k < |flags| ==> flags[k] == 'l') && c !in {'l', 'r', 's', 'v'}
    requires "-" + flags + [c] + rest != "--"
    ensures ParamsOf([argv0] + EncodeAll(items) + ["-" + flags + [c] + rest] + more) == Failed(UnknownOption(c))
  {
    hide WellFormed, MeaningAll, EncodeAll, FirstFault, Strip, ParamsOf, Continues, TakesArg, Known;
    var e, elem := EncodeAll(items), "-" + flags + [c] + rest;
    var argv := [argv0] + e + [elem] + more;
    var n := 1 + |e|;
    FlagsOnly(flags, c);
    Parts(argv0, e, elem, more);
    UnknownIs(argv, OPTIONS, n, flags, c, rest);
    FlagsFaultless(MeaningAll(items), flags);
    ReachesFault(argv, items, FlagResults(flags), Unknown(c),
                 if rest == "" then State(n + 1, 1) else State(n, |flags| + 2));
  }

  lemma Parts<T>(x: T, a: seq<T>, y: T, b: seq<T>)
    ensures var s := [x] + a + [y] + b;
      s[0] == x && s[1..1 + |a|] == a && s[1 + |a|] == y && |s| == 2 + |a| + |b|
  {
  }

  lemma FlagsOnly(flags: string, c: char)
    requires forall k :: 0 <= k < |flags| ==> flags[k] == 'l'
    ensures Strip(OPTIONS) == OPTIONS && forall k :: 0 <= k < |flags| ==> IsFlag(OPTIONS, flags[k])
    ensures c !in {'l', 'r', 's', 'v'} ==> c == ':' || c !in OPTIONS
    ensures c in {'r', 's', 'v'} ==> TakesArg(OPTIONS, c)
  {
    hide TakesArg, Strip;
    OptString('l');
    OptString(c);
  }

  /** ...an option whose argument is missing... */
  lemma MissingRefused(argv0: string, items: seq<Item>, flags: string, c: char)
    requires |argv0| > 0 && (forall k :: 0 <= k < |items| ==> WellFormed(items[k], OPTIONS))
    requires FirstFault(MeaningAll(items)) == None
    requires (forall k :: 0 <= k < |flags| ==> flags[k] == 'l') && c in {'r', 's', 'v'}
    ensures ParamsOf([argv0] + EncodeAll(items) + ["-" + flags + [c]]) == Failed(ArgumentMissing(c))
  {
    hide WellFormed, MeaningAll, EncodeAll, FirstFault, Strip, ParamsOf, Continues, TakesArg, Known;
    var e, elem := EncodeAll(items), "-" + flags + [c];
    var argv := [argv0] + e + [elem];
    assert elem[|elem| - 1] == c && "--"[1] == '-';
    FlagsOnly(flags, c);
    Parts(argv0, e, elem, []);
    assert argv + [] == argv;
    MissingIs(argv, OPTIONS, flags, c);
    FlagsFaultless(MeaningAll(items), flags);
    ReachesFault(argv, items, FlagResults(flags), Missing(c, ":" <= Strip(OPTIONS)), State(|argv|, 1));
  }

  /** ...a variable without '=', or an empty path. */
  lemma ValueRefused(argv0: string, items: seq<Item>, item: Item, more: seq<string>)
    requires |argv0| > 0 && (forall k :: 0 <= k < |items| ==> WellFormed(items[k], OPTIONS))
    requires FirstFault(MeaningAll(items)) == None && WellFormed(item, OPTIONS) && !item.Flags?
    requires if item.c == 'v' then '=' !in item.arg else item.arg == ""
    ensures ParamsOf([argv0] + EncodeAll(items) + Encode(item) + more) ==
            Failed(if item.c == 'v' then NotVarValue else PathEmpty)
  {
    OptString('l');
    hide *;
    var e, w := EncodeAll(items), Encode(item);
    var argv := [argv0] + e + w + more;
    Stretches(argv0, e, w, more);
    WrittenIn(argv, 1 + |e|, item, more);
    ItemRun(argv, OPTIONS, 1 + |e|, item);
    FlagsFaultless(MeaningAll(items), item.flags);
    ValueFault(item);
    ReachesFault(argv, items, FlagResults(item.flags), Opt(item.c, Some(item.arg)), State(1 + |e| + |w|, 1));
  }

  lemma Stretches<T>(x: T, a: seq<T>, b: seq<T>, c: seq<T>)
    ensures var s := [x] + a + b + c;
      s[0] == x && |s| == 1 + |a| + |b| + |c| && s[1..1 + |a|] == a && s[1 + |a|..1 + |a| + |b| + |c|] == b + c
  {
  }

  lemma ValueFault(item: Item)
    requires WellFormed(item, OPTIONS) && !item.Flags?
    requires if item.c == 'v' then '=' !in item.arg else item.arg == ""
    ensures FaultOf(Opt(item.c, Some(item.arg))) == Some(if item.c == 'v' then NotVarValue else PathEmpty)
    ensures Meaning(item) == FlagResults(item.flags) + [Opt(item.c, Some(item.arg))]
  {
    hide TakesArg, Known, Element;
    OptString(item.c);
  }

  // ----- The operands -----

  /** With -l there must be no operand; otherwise exactly one, which names the test case and perhaps its
      part. */
  lemma NamedIs(p: Settings, a: string, b: string, more: seq<string>)
    ensures p.doList ==> Named(p, []) == Ok(p) && Named(p, [a] + more) == Failed(NamesWithList)
    ensures !p.doList ==>
              && Named(p, []) == Failed(NoName) && Named(p, [a, b] + more) == Failed(TooManyNames)
              && (':' !in a ==>
                    && Named(p, [a]) == Named(p, [a + ":body"]) == Ok(p.(tcname := Some(a), part := Body))
                    && Named(p, [a + ":cleanup"]) == Ok(p.(tcname := Some(a), part := Cleanup))
                    && (b != "body" && b != "cleanup" ==> Named(p, [a + ":" + b]) == Failed(BadPart(b))))
  {
    hide TcArg;
    if ':' !in a {
      TcArgIs(a, b);
      TcArgIs(a, "body");
      TcArgIs(a, "cleanup");
      assert a + ":" + "body" == a + ":body" && a + ":" + "cleanup" == a + ":cleanup";
    }
  }

  // ----- The source directory -----

  /** A source directory that is not libtool's is kept, or put below the current directory. */
  lemma SourceDirIs(srcdir: string, cwd: string, windows: bool)
    requires Normal(srcdir) && Leaf(srcdir) != ".libs"
    ensures SourceDir(srcdir, cwd, windows) ==
            if IsAbsolute(srcdir, windows) then srcdir else Normalize(cwd) + "/" + srcdir
  {
    hide Normalize, Branch, IsAbsolute, StrRChr, Normal;
    if !IsAbsolute(srcdir, windows) {
      RelativeAppended(srcdir, Normalize(cwd), windows);
      var dir := Normalize(cwd) + "/" + srcdir;
      var n := |dir| - |srcdir|;
      var i := StrRChr(srcdir, '/');
      var pos := if i.Some? then n + i.value + 1 else n;
      assert dir[n..] == srcdir && dir[n - 1] == '/';
      assert dir[pos..] == srcdir[pos - n..];
      assert srcdir[0..] == srcdir;
      assert i.Some? ==> dir[pos - 1] == srcdir[i.value];
      StrRChrIs(dir, '/', pos);
    }
  }

  /** Libtool's directory under the root, and alone, stand for the root and the current directory. */
  lemma SourceDirOfLibs(cwd: string, windows: bool)
    requires |cwd| > 0
    ensures SourceDir("/.libs", cwd, windows) == "/" && SourceDir(".libs", cwd, windows) == Normalize(cwd)
  {
    hide Normalize, Branch, Leaf, Tokens, Join;
    var base := Normalize(cwd);
    NormalizeIsNormal(cwd);
    assert "" + "/" + ".libs" == "/.libs";
    CutAtLastSlash("", ".libs");
    CutAtLastSlash(base, ".libs");
    RelativeAppended(".libs", base, windows);
  }

  /** The program must be in the source directory: it is accepted, for exactly that directory, when the
      file system says that it is there, and refused when it says that it is not or gives no answer. */
  lemma SrcdirIs(srcdir: string, name: string, host: Host)
    requires |srcdir| > 0 && |name| > 0 && (IsAbsolute(srcdir, host.windows) || host.cwd.Some?)
    ensures var dir := SourceDir(srcdir, if host.cwd.Some? then host.cwd.value else "/", host.windows);
      var exe := AppendPath(dir, name); var r := SrcdirOf(srcdir, name, host);
      && (r.Ok? <==> host.present(exe) == Some(true)) && (r.Ok? ==> r.value == dir)
      && (r == Failed(NotInSource(dir)) <==> host.present(exe) == Some(false))
      && (r == Failed(NoAnswer(exe)) <==> host.present(exe) == None)
  {
    hide SourceDir, AppendPath, IsAbsolute;
  }

  // ----- The program -----

  lemma ParamsMade(argv: seq<string>)
    requires |argv| > 0 && ParamsOf(argv).Ok?
    ensures var p := ParamsOf(argv).value; |p.srcdir| > 0 && (p.doList || p.tcname.Some?)
  {
    hide ParseAll, FirstFault, Parsed, TcArg;
    ParsedSrcdir(argv[0], ParseAll(argv, OPTIONS, State(1, 1)).0);
  }

  lemma ParsedSrcdir(argv0: string, rs: seq<Result>)
    requires |argv0| > 0 && FirstFault(rs).None?
    ensures |Parsed(argv0, rs).srcdir| > 0
  {
    hide Normalize, Branch, FirstFault, LastArg, InsertAll, Vars;
    NormalizeIsNormal(argv0);
    BranchAndLeaf(Normalize(argv0));
    var dir := LastArg(rs, 's');
    if dir.Some? {
      LastArgNotEmpty(rs);
      NormalizeIsNormal(dir.value);
    }
  }

  lemma {:induction false} LastArgNotEmpty(rs: seq<Result>)
    requires FirstFault(rs).None? && LastArg(rs, 's').Some?
    ensures |LastArg(rs, 's').value| > 0
  {
    var init, r := rs[..|rs| - 1], rs[|rs| - 1];
    if !(r.Opt? && r.c == 's' && r.arg.Some?) {
      LastArgNotEmpty(init);
    }
  }

  /** A test program lists or runs exactly when its command line is right, the program is in the source
      directory that the command line and the current directory make, the hook adds the test cases, and
      the one to run is among them. */
  lemma RunsIff(argv: seq<string>, host: Host)
    requires |argv| > 0
    ensures MainOf(argv, host).Ok? <==>
              && ParamsOf(argv).Ok?
              && var p, name := ParamsOf(argv).value, ProgName(argv[0]);
              && (IsAbsolute(p.srcdir, host.windows) || host.cwd.Some?) && |name| > 0 && |p.srcdir| > 0
              && var dir := SourceDir(p.srcdir, if host.cwd.Some? then host.cwd.value else "/", host.windows);
              && host.present(AppendPath(dir, name)) == Some(true)
              && !host.hookFails && (p.doList || (p.tcname.Some? && p.tcname.value in host.idents))
    ensures MainOf(argv, host).Ok? ==>
              var p := ParamsOf(argv).value;
              MainOf(argv, host).value == if p.doList then ListTcs else RunTc(p.tcname.value, p.part, p.resfile)
  {
    hide ParamsOf, IsAbsolute, SourceDir, AppendPath, ProgName;
    if ParamsOf(argv).Ok? {
      ParamsMade(argv);
    }
  }

  /** Otherwise it says which of these failed, the first one in this order. */
  lemma Refusals(argv: seq<string>, host: Host)
    requires |argv| > 0 && ParamsOf(argv).Ok?
    ensures var p, name, r := ParamsOf(argv).value, ProgName(argv[0]), MainOf(argv, host);
      && |p.srcdir| > 0 && (p.doList || p.tcname.Some?)
      && (r == Failed(NoCwd) <==> !IsAbsolute(p.srcdir, host.windows) && host.cwd.None?)
      && (IsAbsolute(p.srcdir, host.windows) || host.cwd.Some? ==>
            var dir := SourceDir(p.srcdir, if host.cwd.Some? then host.cwd.value else "/", host.windows);
            && (r == Failed(PathEmpty) <==> |name| == 0)
            && (|name| > 0 ==>
                  var exe := AppendPath(dir, name); var there := host.present(exe);
                  && (r == Failed(NoAnswer(exe)) <==> there == None)
                  && (r == Failed(NotInSource(dir)) <==> there == Some(false))
                  && (r == Failed(HookFailed) <==> there == Some(true) && host.hookFails)
                  && (there == Some(true) && !host.hookFails && !p.doList && p.tcname.value !in host.idents <==>
                        !p.doList && r == Failed(UnknownTestCase(p.tcname.value)))))
  {
    hide ParamsOf, IsAbsolute, SourceDir, AppendPath, ProgName;
    ParamsMade(argv);
  }
}
