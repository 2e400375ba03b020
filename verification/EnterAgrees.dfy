/** The two option scanners: atfw_enter converts exactly the path arguments that getopt returns
    later, as long as every option element is one that both read alike. */
module EnterAgrees {
  import opened Options
  import opened Strings
  import opened Getopt
  import opened GetoptRoundTrip
  import opened Enter

  /** The options of every test program (tp_main.c:337). */
  const OPTIONS := ":lr:s:v:"

  lemma OptString(c: char)
    ensures Strip(OPTIONS) == OPTIONS
    ensures Known(OPTIONS, c) <==> c in {'l', 'r', 's', 'v'}
    ensures TakesArg(OPTIONS, c) <==> ArgFlag(c)
  {
    hide StrChr;
    assert OPTIONS == [':', 'l', 'r', ':', 's', ':', 'v', ':'];
    var p := StrChr(OPTIONS, c);
    if p < |OPTIONS| {
      assert forall j :: 0 <= j < p ==> OPTIONS[..p][j] != c;
    }
  }

  predicate ArgFlag(c: char) {
    PathFlag(c) || c == 'v'
  }

  // ----- What getopt makes of one element -----

  /** The first character from pos on that takes an argument, or the end. */
  function ArgAt(elem: string, pos: nat): (k: nat)
    requires pos <= |elem|
    ensures pos <= k <= |elem| && (k < |elem| ==> ArgFlag(elem[k]))
    ensures forall j :: pos <= j < k ==> !ArgFlag(elem[j])
    decreases |elem| - pos
  {
    if pos == |elem| || ArgFlag(elem[pos]) then pos else ArgAt(elem, pos + 1)
  }

  /** Characters that take no argument: -l, and unknown ones. */
  function FrontResults(front: string): (rs: seq<Result>)
    ensures |rs| == |front|
    ensures forall i :: 0 <= i < |rs| ==> rs[i] == if front[i] == 'l' then Opt('l', None) else Unknown(front[i])
  {
    seq(|front|, i requires 0 <= i < |front| => if front[i] == 'l' then Opt('l', None) else Unknown(front[i]))
  }

  /** What the character at k of the element yields, and the element behind it. */
  function ArgResult(argv: seq<string>, i: nat, k: nat): (r: (seq<Result>, nat))
    requires i < |argv| && k <= |argv[i]|
    ensures i < r.1 <= |argv| && r.1 <= i + 2
  {
    var elem := argv[i];
    if k == |elem| then ([], i + 1)
    else if k + 1 < |elem| then ([Opt(elem[k], Some(elem[k + 1..]))], i + 1)
    else if i + 1 < |argv| then ([Opt(elem[k], Some(argv[i + 1]))], i + 2)
    else ([Missing(elem[k], true)], i + 1)
  }

  /** Every result of the element at i, and the element behind it. */
  function ElementResult(argv: seq<string>, i: nat): (r: (seq<Result>, nat))
    requires OptionElement(argv, i)
    ensures i < r.1 <= |argv| && r.1 <= i + 2
  {
    var k := ArgAt(argv[i], 1);
    var (rs, n) := ArgResult(argv, i, k);
    (FrontResults(argv[i][1..k]) + rs, n)
  }

  /** A run of n characters that take no argument. */
  lemma {:induction false} FrontRun(argv: seq<string>, i: nat, pos: nat, n: nat)
    requires OptionElement(argv, i) && argv[i] != "--" && 1 <= pos && pos + n <= |argv[i]|
    requires forall k :: pos <= k < pos + n ==> !ArgFlag(argv[i][k])
    ensures Continues(argv, OPTIONS, Behind(argv, i, pos),
                      FrontResults(argv[i][pos..pos + n]), Behind(argv, i, pos + n))
    decreases n
  {
    hide Continues, Strip, Known, TakesArg, StrChr;
    BehindReady(argv, i, pos);
    if n == 0 {
      assert FrontResults(argv[i][pos..pos + n]) == [];
      NoResults(argv, OPTIONS, Behind(argv, i, pos));
    } else {
      var c, rest := argv[i][pos], FrontResults(argv[i][pos + 1..pos + n]);
      var r := if c == 'l' then Opt('l', None) else Unknown(c);
      FrontStep(argv, i, pos);
      FrontRun(argv, i, pos + 1, n - 1);
      ContinuesTrans(argv, OPTIONS, State(i, pos), [r], Behind(argv, i, pos + 1), rest, Behind(argv, i, pos + n));
      assert [r] + rest == FrontResults(argv[i][pos..pos + n]);
    }
  }

  lemma FrontStep(argv: seq<string>, i: nat, pos: nat)
    requires Inside(argv, i, pos) && !ArgFlag(argv[i][pos])
    ensures var c := argv[i][pos];
      Continues(argv, OPTIONS, State(i, pos),
                [if c == 'l' then Opt('l', None) else Unknown(c)], Behind(argv, i, pos + 1))
  {
    hide Continues, Strip, StrChr;
    OptString(argv[i][pos]);
    StepContinues(argv, OPTIONS, State(i, pos));
  }

  lemma ArgRun(argv: seq<string>, i: nat, k: nat)
    requires OptionElement(argv, i) && argv[i] != "--" && 1 <= k <= |argv[i]| && (k < |argv[i]| ==> ArgFlag(argv[i][k]))
    ensures var (rs, n) := ArgResult(argv, i, k);
      Continues(argv, OPTIONS, Behind(argv, i, k), rs, State(n, 1))
  {
    hide Continues, Strip, StrChr, Known, TakesArg;
    BehindReady(argv, i, k);
    if k < |argv[i]| {
      OptString(argv[i][k]);
      StepContinues(argv, OPTIONS, State(i, k));
    } else {
      NoResults(argv, OPTIONS, State(i + 1, 1));
    }
  }

  /** getopt reads any option element as these results. */
  lemma ElementRun(argv: seq<string>, i: nat)
    requires OptionElement(argv, i) && argv[i] != "--"
    ensures var (rs, n) := ElementResult(argv, i);
      Continues(argv, OPTIONS, State(i, 1), rs, State(n, 1))
  {
    hide Continues;
    var k := ArgAt(argv[i], 1);
    var (rs, n) := ArgResult(argv, i, k);
    FrontRun(argv, i, 1, k - 1);
    ArgRun(argv, i, k);
    ContinuesTrans(argv, OPTIONS, State(i, 1), FrontResults(argv[i][1..k]), Behind(argv, i, k), rs, State(n, 1));
  }

  // ----- The elements that both scanners read alike -----

  /** No "-" on its own; and in a cluster no option behind the first takes an argument, but a last -v
      with its value attached, or a last -r or -s with an attached path that is never converted. */
  predicate Fits(elem: string) {
    |elem| >= 2 &&
    var k := ArgAt(elem, 1);
    k == 1 || k == |elem| || (k + 1 < |elem| && (elem[k] == 'v' || !Convertible(elem[k + 1..])))
  }

  /** Every element in front of the operands is such a one. */
  predicate Plain(argv: seq<string>, i: nat)
    decreases |argv| - i
  {
    Stops(argv, i) || (Fits(argv[i]) && Plain(argv, ElementResult(argv, i).1))
  }

  /** A result with its path argument converted. */
  function Native(r: Result, root: Option<string>): Result {
    if r.Opt? && PathFlag(r.c) && r.arg.Some? then Opt(r.c, Some(Convert(r.arg.value, root))) else r
  }

  function NativeAll(rs: seq<Result>, root: Option<string>): (ns: seq<Result>)
    ensures |ns| == |rs| && forall i :: 0 <= i < |rs| ==> ns[i] == Native(rs[i], root)
  {
    seq(|rs|, i requires 0 <= i < |rs| => Native(rs[i], root))
  }

  /** getopt after atfw_enter reports what it would have reported before, with the arguments of -s
      and -r made native, those of -v untouched and optind unchanged; and nothing behind the options
      is touched. */
  ghost predicate Agree(argv: seq<string>, i: nat, root: Option<string>)
    requires i <= |argv|
  {
    var (rs, optind) := ParseAll(argv, OPTIONS, State(i, 1));
    && ParseAll(EnterFrom(argv, i, root), OPTIONS, State(i, 1)) == (NativeAll(rs, root), optind)
    && optind <= |argv| && EnterFrom(argv, i, root)[optind..] == argv[optind..]
  }

  // ----- Both scanners look only at what is left -----

  predicate SameFrom(a: seq<string>, b: seq<string>, i: nat) {
    |a| == |b| && forall j :: i <= j < |a| ==> a[j] == b[j]
  }

  lemma {:induction false} ParseSame(a: seq<string>, b: seq<string>, s: State)
    requires Ready(a, s) && SameFrom(a, b, s.optind)
    ensures Ready(b, s) && ParseAll(a, OPTIONS, s) == ParseAll(b, OPTIONS, s)
    ensures s.optind <= ParseAll(a, OPTIONS, s).1 <= |a|
    decreases |a| - s.optind, if s.optind < |a| then |a[s.optind]| - s.pos else 0
  {
    hide Strip, Known, TakesArg;
    StepKeepsReady(a, OPTIONS, s);
    var (r, s') := Step(a, OPTIONS, s);
    assert Step(b, OPTIONS, s) == (r, s');
    if !r.Done? {
      ParseSame(a, b, s');
    }
  }

  lemma {:induction false} PlainSame(a: seq<string>, b: seq<string>, i: nat)
    requires SameFrom(a, b, i)
    ensures Plain(a, i) == Plain(b, i)
    decreases |a| - i
  {
    hide ArgAt;
    if !Stops(a, i) && |a[i]| >= 2 {
      PlainSame(a, b, i + 1);
      PlainSame(a, b, i + 2);
    }
  }

  // ----- One element -----

  /** A turn of atfw_enter leaves an element that getopt reads as before, but for the path. */
  lemma TurnAgrees(argv: seq<string>, e: seq<string>, i: nat, root: Option<string>)
    requires !Stops(argv, i) && Fits(argv[i])
    requires var (a, n) := Turn(argv, i, root);
      |e| == |argv| && forall j :: 0 <= j < n && j < |argv| ==> e[j] == a[j]
    ensures OptionElement(e, i) && e[i] != "--"
    ensures var (rs, n) := ElementResult(argv, i);
      ElementResult(e, i) == (NativeAll(rs, root), n)
  {
    hide Convert, Convertible;
    var k := ArgAt(argv[i], 1);
    FrontNative(argv[i][1..k], root);
    if k == 1 {
      TurnOfArg(argv, e, i, root);
    } else {
      assert e[i] == argv[i] && Turn(argv, i, root) == (argv, i + 1);
      if k < |argv[i]| {
        ConvertibleIff(argv[i][k + 1..]);
        assert NativeAll(ArgResult(argv, i, k).0, root) == [Native(ArgResult(argv, i, k).0[0], root)];
      } else {
        assert NativeAll([], root) == [];
      }
    }
    var rs := ArgResult(argv, i, k).0;
    assert NativeAll(FrontResults(argv[i][1..k]) + rs, root) ==
      NativeAll(FrontResults(argv[i][1..k]), root) + NativeAll(rs, root);
  }

  lemma FrontNative(front: string, root: Option<string>)
    ensures NativeAll(FrontResults(front), root) == FrontResults(front)
  {
  }

  lemma TurnOfArg(argv: seq<string>, e: seq<string>, i: nat, root: Option<string>)
    requires !Stops(argv, i) && |argv[i]| >= 2 && ArgFlag(argv[i][1])
    requires var (a, n) := Turn(argv, i, root);
      |e| == |argv| && forall j :: 0 <= j < n && j < |argv| ==> e[j] == a[j]
    ensures OptionElement(e, i) && e[i] != "--" && ArgFlag(e[i][1])
    ensures var (rs, n) := ArgResult(argv, i, 1);
      ArgResult(e, i, 1) == (NativeAll(rs, root), n)
  {
    hide Convert;
    var (a, n) := Turn(argv, i, root);
    assert e[i] == a[i] && e[i][..2] == argv[i][..2];
    assert e[i][1] == argv[i][..2][1] == argv[i][1];
    if PathFlag(argv[i][1]) && (|argv[i]| > 2 || i + 1 >= |argv|) {
      assert e[i][2..] == Convert(argv[i][2..], root);
    }
    var rs := ArgResult(argv, i, 1).0;
    assert NativeAll(rs, root) == [Native(rs[0], root)];
  }

  /** Both scanners go on at the same element, or have both reached the end. */
  lemma TurnEnd(argv: seq<string>, i: nat, root: Option<string>)
    requires !Stops(argv, i) && Fits(argv[i])
    ensures var (a, m) := Turn(argv, i, root); var (_, n) := ElementResult(argv, i);
      SameFrom(argv, a, n) && EnterFrom(argv, i, root) == EnterFrom(a, n, root)
  {
    hide Convert, Convertible;
  }

  // ----- The whole scan -----

  /** For every argv whose elements fit, and every root, the scanners agree. */
  lemma {:induction false} PlainAgrees(argv: seq<string>, i: nat, root: Option<string>)
    requires i <= |argv| && Plain(argv, i)
    ensures Agree(argv, i, root)
    decreases |argv| - i
  {
    if Stops(argv, i) {
      assert NativeAll([], root) == [];
    } else {
      var (a, _) := Turn(argv, i, root);
      var (rs, n) := ElementResult(argv, i);
      TurnEnd(argv, i, root);
      TurnAgrees(argv, EnterFrom(argv, i, root), i, root);
      PlainSame(argv, a, n);
      PlainAgrees(a, n, root);
      ElementAgrees(argv, a, i, root);
    }
  }

  /** Agreement behind an element carries over to the whole. */
  lemma ElementAgrees(argv: seq<string>, a: seq<string>, i: nat, root: Option<string>)
    requires OptionElement(argv, i) && argv[i] != "--"
    requires var (rs, n) := ElementResult(argv, i); var e := EnterFrom(argv, i, root);
      && SameFrom(argv, a, n) && e == EnterFrom(a, n, root) && Agree(a, n, root)
      && OptionElement(e, i) && e[i] != "--" && ElementResult(e, i) == (NativeAll(rs, root), n)
    ensures Agree(argv, i, root)
  {
    hide Step, Native, Turn, EnterFrom, ElementResult, Continues;
    var e := EnterFrom(argv, i, root);
    var (rs, n) := ElementResult(argv, i);
    ElementRun(argv, i);
    ElementRun(e, i);
    ContinuesParse(argv, OPTIONS, State(i, 1), rs, State(n, 1));
    ContinuesParse(e, OPTIONS, State(i, 1), NativeAll(rs, root), State(n, 1));
    ParseSame(argv, a, State(n, 1));
    var (rest, optind) := ParseAll(argv, OPTIONS, State(n, 1));
    assert NativeAll(rs + rest, root) == NativeAll(rs, root) + NativeAll(rest, root);
    assert a[optind..] == argv[optind..];
  }

  // ----- Why each condition on an element is needed -----

  /** A result of the element at 1 that shows the scanners apart. */
  lemma Disagree(argv: seq<string>, root: Option<string>, k: nat, r: Result, r': Result)
    requires OptionElement(argv, 1) && argv[1] != "--" && k == ArgAt(argv[1], 1) < |argv[1]|
    requires var e := EnterFrom(argv, 1, root);
      e[1] == argv[1] && ArgResult(argv, 1, k).0 == [r] && ArgResult(e, 1, k).0 == [r']
    requires Native(r, root) != r'
    ensures !Agree(argv, 1, root)
  {
    hide EnterFrom, Continues, ParseAll, Native;
    var e := EnterFrom(argv, 1, root);
    var front := FrontResults(argv[1][1..k]);
    var n, n' := ArgResult(argv, 1, k).1, ArgResult(e, 1, k).1;
    ElementRun(argv, 1);
    ElementRun(e, 1);
    ContinuesParse(argv, OPTIONS, State(1, 1), front + [r], State(n, 1));
    ContinuesParse(e, OPTIONS, State(1, 1), front + [r'], State(n', 1));
    var rs, rs' := ParseAll(argv, OPTIONS, State(1, 1)).0, ParseAll(e, OPTIONS, State(1, 1)).0;
    assert rs[k - 1] == r && rs'[k - 1] == r';
    assert NativeAll(rs, root)[k - 1] == Native(r, root);
  }

  /** Whatever follows is read alike from wherever it is entered. */
  predicate PlainBehind(rest: seq<string>) {
    forall i :: 0 <= i <= |rest| ==> Plain(rest, i)
  }

  predicate Dashed(elem: string) {
    |elem| > 0 && elem[0] == '-' && elem != "--"
  }

  ghost predicate AgreesBefore(elem: string, rest: seq<string>, root: Option<string>) {
    Agree(["t", elem] + rest, 1, root)
  }

  lemma PathInCluster(elem: string)
    requires Dashed(elem) && |elem| >= 2
    requires var k := ArgAt(elem, 1);
      1 < k < |elem| - 1 && PathFlag(elem[k]) && Convertible(elem[k + 1..])
    ensures !AgreesBefore(elem, [], Some("C:"))
  {
    var k, root := ArgAt(elem, 1), Some("C:");
    var argv := ["t", elem] + [];
    assert Turn(argv, 1, root) == (argv, 2) && EnterFrom(argv, 1, root) == argv;
    ConvertibleIff(elem[k + 1..]);
    var r := Opt(elem[k], Some(elem[k + 1..]));
    hide EnterFrom, Turn, Convert, ArgAt;
    Disagree(argv, root, k, r, r);
  }

  lemma PathBehindCluster(elem: string)
    requires Dashed(elem) && |elem| >= 2
    requires var k := ArgAt(elem, 1); 1 < k == |elem| - 1 && PathFlag(elem[k])
    ensures !AgreesBefore(elem, ["/x"], Some("C:"))
  {
    var k, root := ArgAt(elem, 1), Some("C:");
    var argv := ["t", elem] + ["/x"];
    assert argv[2] == "/x" && Turn(argv, 1, root) == (argv, 2);
    assert EnterFrom(argv, 2, root) == argv;
    assert EnterFrom(argv, 1, root) == argv;
    ConvertibleIff("/x");
    var r := Opt(elem[k], Some("/x"));
    Disagree(argv, root, k, r, r);
  }

  lemma ValueBehindCluster(elem: string)
    requires Dashed(elem) && |elem| >= 2
    requires var k := ArgAt(elem, 1); 1 < k == |elem| - 1 && elem[k] == 'v'
    ensures !AgreesBefore(elem, ["-s/x"], Some("C:"))
  {
    var k, root := ArgAt(elem, 1), Some("C:");
    var argv := ["t", elem] + ["-s/x"];
    assert argv[2] == "-s/x" && "-s/x"[..2] == "-s" && "-s/x"[2..] == "/x";
    ConvertibleIff("/x");
    var e := argv[2 := "-s" + Convert("/x", root)];
    assert Turn(argv, 1, root) == (argv, 2);
    assert Turn(argv, 2, root) == (e, 3) && EnterFrom(e, 3, root) == e;
    assert EnterFrom(argv, 2, root) == e;
    assert EnterFrom(argv, 1, root) == e;
    assert e[2][2..] == Convert("/x", root);
    Disagree(argv, root, k, Opt('v', Some("-s/x")), Opt('v', Some(e[2])));
  }

  lemma BehindLoneDash()
    ensures !AgreesBefore("-", ["-s", "/x"], Some("C:"))
  {
    var root := Some("C:");
    var argv := ["t", "-"] + ["-s", "/x"];
    ConvertibleIff("/x");
    var e := argv[3 := Convert("/x", root)];
    assert argv[2] == "-s" && Turn(argv, 1, root) == (argv, 2);
    assert Turn(argv, 2, root) == (e, 4) && EnterFrom(e, 4, root) == e;
    assert EnterFrom(argv, 2, root) == e;
    assert EnterFrom(argv, 1, root) == e;
    assert ParseAll(argv, OPTIONS, State(1, 1)).1 == 1;
    assert e[1..][2] != argv[1..][2];
  }

  /** For any other element there is a continuation, read alike by itself, and a root that show it. */
  lemma Misfit(elem: string) returns (rest: seq<string>)
    requires Dashed(elem) && !Fits(elem)
    ensures PlainBehind(rest) && !AgreesBefore(elem, rest, Some("C:"))
  {
    hide AgreesBefore, Convertible, Plain;
    if |elem| == 1 {
      rest := ["-s", "/x"];
      PlainRests();
      assert elem == "-";
      BehindLoneDash();
    } else {
      var k := ArgAt(elem, 1);
      PlainRests();
      if k < |elem| - 1 {
        rest := [];
        PathInCluster(elem);
      } else if elem[k] == 'v' {
        rest := ["-s/x"];
        ValueBehindCluster(elem);
      } else {
        rest := ["/x"];
        PathBehindCluster(elem);
      }
    }
  }

  lemma PlainRests()
    ensures PlainBehind([]) && PlainBehind(["/x"]) && PlainBehind(["-s/x"]) && PlainBehind(["-s", "/x"])
  {
    assert Plain(["-s", "/x"], 1) && Plain(["-s", "/x"], 2);
    assert Fits("-s") && Fits("-s/x");
    assert Plain(["-s/x"], 1);
    assert Plain(["-s", "/x"], 0) && Plain(["-s/x"], 0);
  }

  lemma {:induction false} PlainShift(front: seq<string>, rest: seq<string>, i: nat)
    ensures Plain(front + rest, |front| + i) == Plain(rest, i)
    decreases |rest| - i
  {
    hide Fits, ArgAt;
    var argv := front + rest;
    if i < |rest| {
      assert argv[|front| + i] == rest[i];
      PlainShift(front, rest, i + 1);
      PlainShift(front, rest, i + 2);
    }
  }

  /** Element by element: the two scanners agree before every continuation that is read alike by itself,
      and for every root, exactly when the element fits. */
  lemma FitsIff(elem: string)
    requires Dashed(elem)
    ensures Fits(elem) <==> forall rest, root :: PlainBehind(rest) ==> AgreesBefore(elem, rest, root)
  {
    if Fits(elem) {
      forall rest, root | PlainBehind(rest)
        ensures AgreesBefore(elem, rest, root)
      {
        FitAgrees(elem, rest, root);
      }
    } else {
      var rest := Misfit(elem);
      assert PlainBehind(rest) && !AgreesBefore(elem, rest, Some("C:"));
    }
  }

  lemma FitAgrees(elem: string, rest: seq<string>, root: Option<string>)
    requires Dashed(elem) && Fits(elem) && PlainBehind(rest)
    ensures AgreesBefore(elem, rest, root)
  {
    hide Agree, ArgAt;
    var front := ["t", elem];
    var argv := front + rest;
    var n := ElementResult(argv, 1).1;
    PlainShift(front, rest, n - 2);
    PlainAgrees(argv, 1, root);
  }

  // ----- For example -----

  /** In a cluster getopt finds a path that atfw_enter does not see... */
  lemma ClusterIsMissed()
    ensures var argv, root := ["t", "-ls", "/x"], Some("C:");
      var (rs, _) := ParseAll(argv, OPTIONS, State(1, 1));
      && rs == [Opt('l', None), Opt('s', Some("/x"))]
      && EnterFrom(argv, 1, root) == argv && Convert("/x", root) == "C:/x"
  {
    var argv := ["t", "-ls", "/x"];
    OptString('l');
    OptString('s');
    hide StrChr, Strip, Known, TakesArg;
    assert Step(argv, OPTIONS, State(1, 1)) == (Opt('l', None), State(1, 2));
    assert Step(argv, OPTIONS, State(1, 2)) == (Opt('s', Some("/x")), State(3, 1));
    assert Step(argv, OPTIONS, State(3, 1)) == (Done, State(3, 1));
    hide Step;
    assert ParseAll(argv, OPTIONS, State(3, 1)) == ([], 3);
    assert [Opt('s', Some("/x"))] + [] == [Opt('s', Some("/x"))];
    assert ParseAll(argv, OPTIONS, State(1, 2)) == ([Opt('s', Some("/x"))], 3);
    assert Turn(argv, 1, Some("C:")) == (argv, 2);
  }

  /** ...and behind a "-" on its own, which ends the options for getopt, it converts operands. */
  lemma LoneDashIsPassed()
    ensures var argv, root := ["t", "-", "-s", "/x"], Some("C:");
      && ParseAll(argv, OPTIONS, State(1, 1)) == ([], 1)
      && EnterFrom(argv, 1, root) == ["t", "-", "-s", "C:/x"]
  {
    assert Convert("/x", Some("C:")) == "C:/x";
  }

  /** Clusters that both read alike. */
  lemma HarmlessClusters()
    ensures Plain(["t", "-ll"], 1) && Plain(["t", "-lvx=1"], 1) && Plain(["t", "-lsdir"], 1)
    ensures !Plain(["t", "-ls/x"], 1) && !Plain(["t", "-lv", "x=1"], 1)
  {
    assert ArgAt("-ll", 3) == 3 && ArgAt("-ll", 2) == 3 && ArgAt("-ll", 1) == 3;
    assert ArgAt("-lvx=1", 2) == 2 && ArgAt("-lvx=1", 1) == 2;
    assert ArgAt("-lsdir", 2) == 2 && ArgAt("-lsdir", 1) == 2 && "-lsdir"[3..] == "dir";
    assert ArgAt("-ls/x", 2) == 2 && ArgAt("-ls/x", 1) == 2 && "-ls/x"[3..] == "/x";
    assert ArgAt("-lv", 2) == 2 && ArgAt("-lv", 1) == 2;
  }
}
