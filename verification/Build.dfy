/** The compiler command lines of atf-c/build.c. */
module Build {
  import opened Options
  import opened Strings
  import opened Text
  import opened AtfList

  /** The built-in values that the environment may override. */
  datatype Defaults = Defaults(cc: string, cpp: string, cxx: string, cppflags: string, cflags: string, cxxflags: string)

  /** atf_env_get_with_default */
  function EnvOr(env: map<string, string>, name: string, default: string): string {
    if name in env then env[name] else default
  }

  function EnvWords(env: map<string, string>, name: string, default: string): seq<string> {
    Words(EnvOr(env, name, default), " ")
  }

  /** Every node of the list was there before the call or was allocated by it. */
  twostate predicate Grown(l: List<string>)
    reads l
  {
    forall i :: 0 <= i < |l.nodes| ==> l.nodes[i] in old(l.nodes) || fresh(l.nodes[i])
  }

  method AppendConfigVar(env: map<string, string>, name: string, default: string, argv: List<string>)
    requires argv.Valid()
    modifies argv, argv.nodes
    ensures argv.Valid() && Grown(argv)
    ensures argv.View() == old(argv.View()) + EnvWords(env, name, default)
  {
    hide List.Valid, List.View, Words, DataOf;
    var words := Split(EnvOr(env, name, default), " ");
    argv.AppendList(words);
  }

  method AppendArg1(arg: string, argv: List<string>)
    requires argv.Valid()
    modifies argv, argv.nodes
    ensures argv.Valid() && Grown(argv)
    ensures argv.View() == old(argv.View()) + [arg]
  {
    argv.Append(arg, true);
  }

  method AppendArg2(flag: string, arg: string, argv: List<string>)
    requires argv.Valid()
    modifies argv, argv.nodes
    ensures argv.Valid() && Grown(argv)
    ensures argv.View() == old(argv.View()) + [flag, arg]
  {
    hide List.Valid, List.View;
    AppendArg1(flag, argv);
    AppendArg1(arg, argv);
  }

  method AppendOptargs(optargs: seq<string>, argv: List<string>)
    requires argv.Valid()
    modifies argv, argv.nodes
    ensures argv.Valid() && Grown(argv)
    ensures argv.View() == old(argv.View()) + optargs
  {
    hide List.Valid, List.View;
    var i := 0;
    while i < |optargs|
      invariant i <= |optargs|
      invariant argv.Valid() && Grown(argv)
      invariant argv.View() == old(argv.View()) + optargs[..i]
    {
      AppendArg1(optargs[i], argv);
      i := i + 1;
    }
    assert optargs[..i] == optargs;
  }

  method AppendSrcOut(src: string, obj: string, argv: List<string>)
    requires argv.Valid()
    modifies argv, argv.nodes
    ensures argv.Valid() && Grown(argv)
    ensures argv.View() == old(argv.View()) + ["-o", obj, "-c", src]
  {
    hide List.Valid, List.View;
    AppendArg2("-o", obj, argv);
    AppendArg1("-c", argv);
    AppendArg1(src, argv);
  }

  /** list_to_array, and the atf_list_fini that follows it in every caller. */
  method ListToArray(l: List<string>) returns (argv: array<Option<string>>)
    requires l.Valid()
    modifies l.nodes
    ensures argv[..] == NullTerminated(old(l.View()))
  {
    argv := ToCharpp(l);
    var _, _ := l.Fini();
  }

  /** atf_build_c_o */
  method BuildCO(env: map<string, string>, d: Defaults, sfile: string, ofile: string, optargs: Option<seq<string>>)
      returns (argv: array<Option<string>>)
    ensures argv[..] == NullTerminated(
      EnvWords(env, "ATF_BUILD_CC", d.cc) + EnvWords(env, "ATF_BUILD_CPPFLAGS", d.cppflags) +
      EnvWords(env, "ATF_BUILD_CFLAGS", d.cflags) +
      (if optargs.Some? then optargs.value else []) + ["-o", ofile, "-c", sfile])
  {
    hide List.Valid, List.View, EnvWords, NullTerminated, EnvOr, Words, DataOf;
    var l := new List<string>();
    ghost var compiler := EnvWords(env, "ATF_BUILD_CC", d.cc);
    ghost var cppFlags := EnvWords(env, "ATF_BUILD_CPPFLAGS", d.cppflags);
    ghost var langFlags := EnvWords(env, "ATF_BUILD_CFLAGS", d.cflags);
    AppendConfigVar(env, "ATF_BUILD_CC", d.cc, l);
    AppendConfigVar(env, "ATF_BUILD_CPPFLAGS", d.cppflags, l);
    AppendConfigVar(env, "ATF_BUILD_CFLAGS", d.cflags, l);
    assert l.View() == compiler + cppFlags + langFlags;
    if optargs.Some? {
      AppendOptargs(optargs.value, l);
    }
    assert l.View() == compiler + cppFlags + langFlags + (if optargs.Some? then optargs.value else []);
    AppendSrcOut(sfile, ofile, l);
    argv := ListToArray(l);
  }

  /** atf_build_cxx_o */
  method BuildCxxO(env: map<string, string>, d: Defaults, sfile: string, ofile: string, optargs: Option<seq<string>>)
      returns (argv: array<Option<string>>)
    ensures argv[..] == NullTerminated(
      EnvWords(env, "ATF_BUILD_CXX", d.cxx) + EnvWords(env, "ATF_BUILD_CPPFLAGS", d.cppflags) +
      EnvWords(env, "ATF_BUILD_CXXFLAGS", d.cxxflags) +
      (if optargs.Some? then optargs.value else []) + ["-o", ofile, "-c", sfile])
  {
    hide List.Valid, List.View, EnvWords, NullTerminated, EnvOr, Words, DataOf;
    var l := new List<string>();
    ghost var compiler := EnvWords(env, "ATF_BUILD_CXX", d.cxx);
    ghost var cppFlags := EnvWords(env, "ATF_BUILD_CPPFLAGS", d.cppflags);
    ghost var langFlags := EnvWords(env, "ATF_BUILD_CXXFLAGS", d.cxxflags);
    AppendConfigVar(env, "ATF_BUILD_CXX", d.cxx, l);
    AppendConfigVar(env, "ATF_BUILD_CPPFLAGS", d.cppflags, l);
    AppendConfigVar(env, "ATF_BUILD_CXXFLAGS", d.cxxflags, l);
    assert l.View() == compiler + cppFlags + langFlags;
    if optargs.Some? {
      AppendOptargs(optargs.value, l);
    }
    assert l.View() == compiler + cppFlags + langFlags + (if optargs.Some? then optargs.value else []);
    AppendSrcOut(sfile, ofile, l);
    argv := ListToArray(l);
  }

  lemma Appended<T>(ws: seq<T>, x: T, y: T, z: T)
    ensures ws + [x, y] + [z] == ws + [x, y, z]
  {
  }

  /** atf_build_cpp: no C flags and no "-c". */
  method BuildCpp(env: map<string, string>, d: Defaults, sfile: string, ofile: string, optargs: Option<seq<string>>)
      returns (argv: array<Option<string>>)
    ensures argv[..] == NullTerminated(
      EnvWords(env, "ATF_BUILD_CPP", d.cpp) + EnvWords(env, "ATF_BUILD_CPPFLAGS", d.cppflags) +
      (if optargs.Some? then optargs.value else []) + ["-o", ofile, sfile])
  {
    hide List.Valid, List.View, EnvWords, NullTerminated, EnvOr, Words, DataOf;
    var l := new List<string>();
    ghost var compiler := EnvWords(env, "ATF_BUILD_CPP", d.cpp);
    ghost var cppFlags := EnvWords(env, "ATF_BUILD_CPPFLAGS", d.cppflags);
    AppendConfigVar(env, "ATF_BUILD_CPP", d.cpp, l);
    AppendConfigVar(env, "ATF_BUILD_CPPFLAGS", d.cppflags, l);
    assert l.View() == compiler + cppFlags;
    if optargs.Some? {
      AppendOptargs(optargs.value, l);
    }
    ghost var words := compiler + cppFlags + (if optargs.Some? then optargs.value else []);
    assert l.View() == words;
    AppendArg2("-o", ofile, l);
    AppendArg1(sfile, l);
    Appended(words, "-o", ofile, sfile);
    argv := ListToArray(l);
  }

  /** What a variable contributes are the maximal runs of non-blanks of its value in the environment,
      or of the default when it is not set there. */
  lemma EnvWordsAreTokens(env: map<string, string>, name: string, default: string)
    ensures name in env ==> EnvWords(env, name, default) == Tokens(env[name], " ")
    ensures name !in env ==> EnvWords(env, name, default) == Tokens(default, " ")
    ensures forall i :: 0 <= i < |EnvWords(env, name, default)| ==>
      |EnvWords(env, name, default)[i]| > 0 && ' ' !in EnvWords(env, name, default)[i]
  {
    var value := if name in env then env[name] else default;
    TokensAreWords(value, ' ');
    TokensNonEmptyFree(value, ' ');
  }

  /** A variable set to words joined by single blanks contributes exactly those words, whatever the
      default is; and so does the default of one that is not set. */
  lemma JoinedFlagsAreKept(env: map<string, string>, name: string, default: string, flags: seq<string>)
    requires if name in env then env[name] == Join(flags, " ") else default == Join(flags, " ")
    requires forall i :: 0 <= i < |flags| ==> |flags[i]| > 0 && ' ' !in flags[i]
    ensures EnvWords(env, name, default) == flags
  {
    forall i | 0 <= i < |flags|
      ensures Separable(flags[i], " ")
    {
      SeparableChar(flags[i], ' ');
    }
    SplitOfJoin(flags, " ");
  }

  /** For example: a compiler set in the environment is the one that is called. */
  lemma CompilerIsSet(cc: string, default: string)
    requires |cc| > 0 && ' ' !in cc
    ensures EnvWords(map["ATF_BUILD_CC" := cc], "ATF_BUILD_CC", default) == [cc]
  {
    assert Join([cc], " ") == cc;
    JoinedFlagsAreKept(map["ATF_BUILD_CC" := cc], "ATF_BUILD_CC", default, [cc]);
  }
}
