/** Exactly which command lines the two option scanners read alike, as wholes. */
module EnterExact {
  import opened Options
  import opened Strings
  import opened Getopt
  import opened GetoptRoundTrip
  import opened Enter
  import opened EnterAgrees

  // ----- What each scanner does alone -----

  /** The path that atfw_enter looks at in one turn, if any. */
  function Slot(argv: seq<string>, i: nat): Option<string>
    requires !Stops(argv, i)
  {
    if |argv[i]| == 1 || !PathFlag(argv[i][1]) then None
    else if |argv[i]| == 2 && i + 1 < |argv| then Some(argv[i + 1])
    else Some(argv[i][2..])
  }

  predicate Still(slot: Option<string>) {
    slot.Some? ==> !Convertible(slot.value)
  }

  function Next(argv: seq<string>, i: nat): (n: nat)
    requires !Stops(argv, i)
    ensures i < n <= i + 2
  {
    Turn(argv, i, None).1
  }

  /** From element e on atfw_enter finds no path to convert. */
  predicate Quiet(argv: seq<string>, e: nat)
    decreases |argv| - e
  {
    Stops(argv, e) || (Still(Slot(argv, e)) && Quiet(argv, Next(argv, e)))
  }

  /** The results hold no path to convert. */
  predicate NoPath(rs: seq<Result>) {
    forall i :: 0 <= i < |rs| && rs[i].Opt? && PathFlag(rs[i].c) && rs[i].arg.Some? ==> !Convertible(rs[i].arg.value)
  }

  predicate Ends(argv: seq<string>, g: nat) {
    !OptionElement(argv, g) || argv[g] == "--"
  }

  /** From element g on getopt returns no path to convert. */
  predicate Silent(argv: seq<string>, g: nat)
    requires g <= |argv|
  {
    NoPath(ParseAll(argv, OPTIONS, State(g, 1)).0)
  }

  // ----- Both at once -----

  /** getopt stands at element g and atfw_enter at element e, at most one apart. They go on together over
      an option whose argument both see; otherwise the one behind goes on, and must not meet a path to
      convert, because the other one does not see it there. */
  predicate Alike(argv: seq<string>, g: nat, e: nat)
    requires g <= |argv| && g <= e + 1 && e <= g + 1
    decreases 2 * |argv| + 4 - g - e
  {
    if Stops(argv, e) then Silent(argv, g)
    else if Ends(argv, g) then Quiet(argv, e)
    else if e < g then Still(Slot(argv, e)) && Alike(argv, g, Next(argv, e))
    else if e > g then NoPath(ElementResult(argv, g).0) && Alike(argv, ElementResult(argv, g).1, e)
    else if ArgFlag(argv[g][1]) then Alike(argv, ElementResult(argv, g).1, ElementResult(argv, g).1)
    else Alike(argv, g, g + 1)
  }

  /** What getopt makes from g on of what atfw_enter makes from e on; nothing in front of g changes. */
  ghost predicate Joined(argv: seq<string>, g: nat, e: nat, root: Option<string>)
    requires g <= |argv|
  {
    var (rs, optind) := ParseAll(argv, OPTIONS, State(g, 1));
    var a := EnterFrom(argv, e, root);
    && ParseAll(a, OPTIONS, State(g, 1)) == (NativeAll(rs, root), optind)
    && optind <= |argv| && a[optind..] == argv[optind..] && a[..g] == argv[..g]
  }

  lemma JoinedIsAgree(argv: seq<string>, i: nat, root: Option<string>)
    requires i <= |argv|
    ensures Joined(argv, i, i, root) <==> Agree(argv, i, root)
  {
    hide ParseAll, EnterFrom;
    assert EnterFrom(argv, i, root)[..i] == argv[..i];
  }

  // ----- Turns and results without a path -----

  /** A turn at i makes element c another text. */
  predicate Changed(argv: seq<string>, i: nat, c: nat)
    requires !Stops(argv, i)
  {
    && i <= c < Next(argv, i) && c < |argv| && c <= i + 1
    && Turn(argv, i, Some("C:")).0[c] != argv[c] && (c == i + 1 ==> Convertible(argv[c]))
  }

  lemma StillTurn(argv: seq<string>, i: nat, root: Option<string>)
    requires !Stops(argv, i)
    ensures Turn(argv, i, root).1 == Next(argv, i)
    ensures Still(Slot(argv, i)) ==> Turn(argv, i, root).0 == argv
    ensures !Still(Slot(argv, i)) ==> exists c: nat :: Changed(argv, i, c)
  {
    hide Convert, Convertible;
    if Slot(argv, i).Some? {
      var path := Slot(argv, i).value;
      ConvertibleIff(path);
      if |argv[i]| == 2 && i + 1 < |argv| {
        assert Turn(argv, i, Some("C:")).0[i + 1] == Convert(path, Some("C:"));
        assert Convertible(path) ==> Changed(argv, i, i + 1);
      } else {
        assert argv[i] == argv[i][..2] + path;
        assert (argv[i][..2] + Convert(path, Some("C:")))[2..] == Convert(path, Some("C:"));
        assert Convertible(path) ==> Changed(argv, i, i);
      }
    }
  }

  lemma {:induction false} QuietIff(argv: seq<string>, e: nat, root: Option<string>)
    ensures Quiet(argv, e) ==> EnterFrom(argv, e, root) == argv
    ensures !Quiet(argv, e) ==> EnterFrom(argv, e, Some("C:")) != argv
    decreases |argv| - e
  {
    hide Turn, Next, Slot, Still;
    if !Stops(argv, e) {
      StillTurn(argv, e, root);
      StillTurn(argv, e, Some("C:"));
      if Still(Slot(argv, e)) {
        QuietIff(argv, Next(argv, e), root);
      } else {
        var c: nat :| Changed(argv, e, c);
        assert EnterFrom(argv, e, Some("C:"))[c] != argv[c];
      }
    }
  }

  lemma NoPathIff(rs: seq<Result>, root: Option<string>)
    ensures NoPath(rs) ==> NativeAll(rs, root) == rs
    ensures !NoPath(rs) ==> NativeAll(rs, Some("C:")) != rs
  {
    hide Convert, Convertible;
    if NoPath(rs) {
      forall i | 0 <= i < |rs|
        ensures Native(rs[i], root) == rs[i]
      {
        if rs[i].Opt? && rs[i].arg.Some? {
          ConvertibleIff(rs[i].arg.value);
        }
      }
    } else {
      var i :| 0 <= i < |rs| && rs[i].Opt? && PathFlag(rs[i].c) && rs[i].arg.Some? && Convertible(rs[i].arg.value);
      ConvertibleIff(rs[i].arg.value);
      assert NativeAll(rs, Some("C:"))[i] != rs[i];
    }
  }

  // ----- One step -----

  /** atfw_enter has stopped. */
  lemma StoppedStep(argv: seq<string>, g: nat, e: nat, root: Option<string>)
    requires g <= |argv| && Stops(argv, e)
    ensures Silent(argv, g) ==> Joined(argv, g, e, root)
    ensures !Silent(argv, g) ==> !Joined(argv, g, e, Some("C:"))
  {
    hide ParseAll, NoPath, NativeAll;
    ParseSame(argv, argv, State(g, 1));
    NoPathIff(ParseAll(argv, OPTIONS, State(g, 1)).0, root);
  }

  /** getopt has reached the end of the options. */
  lemma EndedStep(argv: seq<string>, g: nat, e: nat, root: Option<string>)
    requires g <= |argv| && Ends(argv, g)
    ensures Quiet(argv, e) ==> Joined(argv, g, e, root)
    ensures !Quiet(argv, e) ==> !Joined(argv, g, e, Some("C:"))
  {
    hide EnterFrom, Quiet, NativeAll;
    QuietIff(argv, e, root);
    assert NativeAll([], root) == [];
    var a := EnterFrom(argv, e, Some("C:"));
    if a != argv && Joined(argv, g, e, Some("C:")) {
      EndedSame(argv, a, g);
    }
  }

  lemma EndedSame(argv: seq<string>, a: seq<string>, g: nat)
    requires g <= |argv| == |a| && Ends(argv, g)
    requires var optind := ParseAll(argv, OPTIONS, State(g, 1)).1;
      && ParseAll(a, OPTIONS, State(g, 1)) == ([], optind)
      && optind <= |argv| && a[optind..] == argv[optind..] && a[..g] == argv[..g]
    ensures a == argv
  {
    hide ParseAll;
    EndedParse(argv, g);
    EndedParse(a, g);
    if ParseAll(argv, OPTIONS, State(g, 1)).1 == g {
      SameParts(a, argv, g);
    } else {
      assert argv[g] == "--" && a[g] == "--";
      OneMore(a, argv, g);
      SameParts(a, argv, g + 1);
    }
  }

  /** Without an option at g there are no results, and only "--" is passed. */
  lemma EndedParse(argv: seq<string>, g: nat)
    requires g <= |argv|
    ensures Ends(argv, g) ==> ParseAll(argv, OPTIONS, State(g, 1)).0 == []
    ensures ParseAll(argv, OPTIONS, State(g, 1)).0 == [] ==>
              ParseAll(argv, OPTIONS, State(g, 1)).1 == if g < |argv| && argv[g] == "--" then g + 1 else g
  {
    if g < |argv| && argv[g] == "--" {
      assert OptionElement(argv, g);
    }
  }

  lemma OneMore<T>(a: seq<T>, b: seq<T>, n: nat)
    requires n < |a| == |b| && a[..n] == b[..n] && a[n] == b[n]
    ensures a[..n + 1] == b[..n + 1]
  {
    assert a[..n + 1] == a[..n] + [a[n]] && b[..n + 1] == b[..n] + [b[n]];
  }

  lemma SameParts<T>(a: seq<T>, b: seq<T>, n: nat)
    requires n <= |a| == |b| && a[..n] == b[..n] && a[n..] == b[n..]
    ensures a == b
  {
    assert a == a[..n] + a[n..] && b == b[..n] + b[n..];
  }

  /** atfw_enter is behind, at an element that getopt has taken as an argument. */
  lemma BehindStep(argv: seq<string>, g: nat, e: nat, root: Option<string>)
    requires g <= |argv| && !Stops(argv, e) && !Ends(argv, g) && e + 1 == g
    ensures Still(Slot(argv, e)) ==> (Joined(argv, g, e, root) <==> Joined(argv, g, Next(argv, e), root))
    ensures !Still(Slot(argv, e)) ==> !Joined(argv, g, e, Some("C:"))
  {
    hide ParseAll, Turn, Slot, NativeAll, Next;
    StillTurn(argv, e, root);
    StillTurn(argv, e, Some("C:"));
    if !Still(Slot(argv, e)) {
      var a := EnterFrom(argv, e, Some("C:"));
      var c: nat :| Changed(argv, e, c);
      assert a[c] != argv[c];
      assert c == e;
      assert a[..g][c] != argv[..g][c];
    }
  }

  /** atfw_enter is ahead of the element that getopt reads. */
  lemma AheadStep(argv: seq<string>, g: nat, root: Option<string>)
    requires !Ends(argv, g) && !Stops(argv, g + 1)
    ensures var (rs, n) := ElementResult(argv, g);
      && (NoPath(rs) ==> (Joined(argv, g, g + 1, root) <==> Joined(argv, n, g + 1, root)))
      && (!NoPath(rs) ==> !Joined(argv, g, g + 1, Some("C:")))
  {
    hide ParseAll, EnterFrom, NoPath, NativeAll, ElementResult, Joined;
    var (rs, n) := ElementResult(argv, g);
    NoPathIff(rs, root);
    AheadOne(argv, g, root);
    AheadOne(argv, g, Some("C:"));
  }

  lemma AheadOne(argv: seq<string>, g: nat, root: Option<string>)
    requires !Ends(argv, g) && !Stops(argv, g + 1)
    ensures var (rs, n) := ElementResult(argv, g);
      && (NativeAll(rs, root) == rs ==> (Joined(argv, g, g + 1, root) <==> Joined(argv, n, g + 1, root)))
      && (NativeAll(rs, root) != rs ==> !Joined(argv, g, g + 1, root))
  {
    hide ParseAll, EnterFrom, NativeAll, ElementResult, Joined, RestJoined;
    var (rs, n) := ElementResult(argv, g);
    var a := EnterFrom(argv, g + 1, root);
    AheadResults(argv, a, g);
    JoinElement(argv, g, root);
    PathStops(argv, g, root);
    JoinRest(argv, g, n, root);
  }

  /** What is left behind the element at g has been joined. */
  ghost predicate RestJoined(argv: seq<string>, a: seq<string>, n: nat, root: Option<string>)
    requires n <= |argv| == |a|
  {
    var (rest, optind) := ParseAll(argv, OPTIONS, State(n, 1));
    && ParseAll(a, OPTIONS, State(n, 1)) == (NativeAll(rest, root), optind)
    && optind <= |argv| && a[optind..] == argv[optind..]
  }

  /** The same element with other text behind it. */
  lemma AheadResults(argv: seq<string>, a: seq<string>, g: nat)
    requires !Ends(argv, g) && |a| == |argv| && a[g] == argv[g]
    ensures !Ends(a, g)
    ensures var (rs, n) := ElementResult(argv, g); var (rs', n') := ElementResult(a, g);
      && n' == n && |rs'| == |rs| && n <= g + 2
      && (rs' == rs <==> (n == g + 2 ==> a[g + 1] == argv[g + 1]))
  {
    var k := ArgAt(argv[g], 1);
    var front := FrontResults(argv[g][1..k]);
    var (last, n) := ArgResult(argv, g, k);
    var last' := ArgResult(a, g, k).0;
    if last != last' {
      assert (front + last)[|front|] != (front + last')[|front|];
    }
  }

  /** A path in an element of its own stops atfw_enter. */
  lemma PathStops(argv: seq<string>, g: nat, root: Option<string>)
    requires !Ends(argv, g)
    ensures var (rs, n) := ElementResult(argv, g);
      NativeAll(rs, root) != rs && n == g + 2 ==> Stops(argv, g + 1)
  {
    hide Convert, Convertible;
    var k := ArgAt(argv[g], 1);
    var front := FrontResults(argv[g][1..k]);
    var (last, n) := ArgResult(argv, g, k);
    FrontNative(argv[g][1..k], root);
    if n == g + 2 {
      ConvertibleIff(argv[g + 1]);
      assert NativeAll(front + last, root) == NativeAll(front, root) + NativeAll(last, root);
      assert NativeAll(last, root) == [Native(last[0], root)];
      ConvertibleStops(argv, g + 1);
    }
  }

  lemma ConvertibleStops(argv: seq<string>, i: nat)
    requires i < |argv|
    ensures Convertible(argv[i]) ==> Stops(argv, i)
  {
  }

  lemma JoinElement(argv: seq<string>, g: nat, root: Option<string>)
    requires !Ends(argv, g)
    ensures var (rs, n) := ElementResult(argv, g); var a := EnterFrom(argv, g + 1, root);
      && a[..g] == argv[..g] && a[g] == argv[g] && !Ends(a, g)
      && (ElementResult(a, g).1 == n && |ElementResult(a, g).0| == |rs| ==>
            (Joined(argv, g, g + 1, root) <==>
             ElementResult(a, g).0 == NativeAll(rs, root) && RestJoined(argv, a, n, root)))
  {
    hide ParseAll, EnterFrom, ElementResult, Native, Continues;
    var (rs, n) := ElementResult(argv, g);
    var a := EnterFrom(argv, g + 1, root);
    assert a[..g] == argv[..g];
    var (rs', n') := ElementResult(a, g);
    ElementRun(argv, g);
    ElementRun(a, g);
    ContinuesParse(argv, OPTIONS, State(g, 1), rs, State(n, 1));
    ContinuesParse(a, OPTIONS, State(g, 1), rs', State(n', 1));
    var rest := ParseAll(argv, OPTIONS, State(n, 1)).0;
    assert NativeAll(rs + rest, root) == NativeAll(rs, root) + NativeAll(rest, root);
    if n' == n && |rs'| == |rs| {
      var rest' := ParseAll(a, OPTIONS, State(n, 1)).0;
      EqualParts(rs', rest', NativeAll(rs, root), NativeAll(rest, root));
    }
  }

  lemma EqualParts<T>(a: seq<T>, b: seq<T>, c: seq<T>, d: seq<T>)
    requires |a| == |c|
    ensures a + b == c + d <==> a == c && b == d
  {
    if a + b == c + d {
      assert (a + b)[..|a|] == a && (c + d)[..|a|] == c;
      assert (a + b)[|a|..] == b && (c + d)[|a|..] == d;
    }
  }

  lemma JoinRest(argv: seq<string>, g: nat, n: nat, root: Option<string>)
    requires g < n <= g + 2 && n <= |argv|
    ensures var a := EnterFrom(argv, g + 1, root);
      Joined(argv, n, g + 1, root) <==> RestJoined(argv, a, n, root) && (n == g + 2 ==> a[g + 1] == argv[g + 1])
  {
    hide ParseAll, EnterFrom, NativeAll;
    var a := EnterFrom(argv, g + 1, root);
    assert a[..g + 1] == argv[..g + 1];
    if n == g + 2 {
      assert a[..n] == a[..g + 1] + [a[g + 1]] && argv[..n] == argv[..g + 1] + [argv[g + 1]];
    }
  }

  /** Both at an option whose argument both see. */
  lemma TogetherStep(argv: seq<string>, g: nat, root: Option<string>)
    requires !Ends(argv, g) && ArgFlag(argv[g][1])
    ensures var (rs, n) := ElementResult(argv, g); var a := Turn(argv, g, root).0;
      |a| == |argv| && SameFrom(argv, a, n) && (Joined(argv, g, g, root) <==> Joined(a, n, n, root))
  {
    hide ParseAll, EnterFrom, NativeAll, ElementResult, Turn, Continues;
    var (rs, n) := ElementResult(argv, g);
    var a := Turn(argv, g, root).0;
    var e := EnterFrom(argv, g, root);
    FitsArg(argv[g]);
    TurnEnd(argv, g, root);
    AfterTurn(argv, g, root);
    TurnAgrees(argv, e, g, root);
    ElementRun(argv, g);
    ElementRun(e, g);
    ContinuesParse(argv, OPTIONS, State(g, 1), rs, State(n, 1));
    ContinuesParse(e, OPTIONS, State(g, 1), NativeAll(rs, root), State(n, 1));
    ParseSame(argv, a, State(n, 1));
    var (rest, optind) := ParseAll(argv, OPTIONS, State(n, 1));
    NativeConcat(rs, rest, root);
    EqualParts(NativeAll(rs, root), ParseAll(e, OPTIONS, State(n, 1)).0, NativeAll(rs, root), NativeAll(rest, root));
    assert a[optind..] == argv[optind..];
    assert e[..g] == argv[..g] && e[..n] == a[..n];
  }

  lemma AfterTurn(argv: seq<string>, i: nat, root: Option<string>)
    requires !Stops(argv, i)
    ensures var (a, n) := Turn(argv, i, root); var e := EnterFrom(argv, i, root);
      |e| == |argv| && forall j :: 0 <= j < n && j < |argv| ==> e[j] == a[j]
  {
    hide Turn;
  }

  lemma FitsArg(elem: string)
    requires |elem| >= 2 && ArgFlag(elem[1])
    ensures Fits(elem)
  {
  }

  lemma NativeConcat(a: seq<Result>, b: seq<Result>, root: Option<string>)
    ensures NativeAll(a + b, root) == NativeAll(a, root) + NativeAll(b, root)
  {
    hide Native;
  }

  // ----- What is behind decides -----

  lemma {:induction false} QuietSame(a: seq<string>, b: seq<string>, e: nat)
    requires SameFrom(a, b, e)
    ensures Quiet(a, e) == Quiet(b, e)
    decreases |a| - e
  {
    hide Convertible;
    if !Stops(a, e) {
      QuietSame(a, b, Next(a, e));
    }
  }

  lemma TurnSame(a: seq<string>, b: seq<string>, i: nat)
    requires SameFrom(a, b, i) && !Stops(a, i)
    ensures !Stops(b, i) && Slot(a, i) == Slot(b, i) && Next(a, i) == Next(b, i)
  {
  }

  lemma ElementSame(a: seq<string>, b: seq<string>, i: nat)
    requires SameFrom(a, b, i) && OptionElement(a, i)
    ensures OptionElement(b, i) && ElementResult(a, i) == ElementResult(b, i)
  {
    hide ArgAt;
  }

  lemma {:induction false} AlikeBehind(a: seq<string>, b: seq<string>, g: nat, e: nat)
    requires g <= |a| && g <= e + 1 && e <= g + 1
    requires SameFrom(a, b, if e < g then e else g)
    ensures Alike(a, g, e) == Alike(b, g, e)
    decreases 2 * |a| + 4 - g - e
  {
    hide Slot, Next, Still, NoPath, ElementResult, ParseAll, Quiet;
    if Stops(a, e) {
      ParseSame(a, b, State(g, 1));
    } else if Ends(a, g) {
      QuietSame(a, b, e);
    } else if e < g {
      TurnSame(a, b, e);
      AlikeBehind(a, b, g, Next(a, e));
    } else {
      ElementSame(a, b, g);
      var n := ElementResult(a, g).1;
      if e > g {
        AlikeBehind(a, b, n, e);
      } else if ArgFlag(a[g][1]) {
        AlikeBehind(a, b, n, n);
      } else {
        AlikeBehind(a, b, g, g + 1);
      }
    }
  }

  // ----- The whole command line -----

  /** An option that takes no argument does not concern atfw_enter. */
  lemma IdleTurn(argv: seq<string>, g: nat, root: Option<string>)
    requires !Stops(argv, g) && !Ends(argv, g) && !ArgFlag(argv[g][1])
    ensures EnterFrom(argv, g, root) == EnterFrom(argv, g + 1, root)
  {
    assert Turn(argv, g, root) == (argv, g + 1);
  }

  lemma {:induction false} Exact(argv: seq<string>, g: nat, e: nat, root: Option<string>)
    requires g <= |argv| && g <= e + 1 && e <= g + 1
    ensures Alike(argv, g, e) ==> Joined(argv, g, e, root)
    ensures !Alike(argv, g, e) ==> !Joined(argv, g, e, Some("C:"))
    decreases 2 * |argv| + 4 - g - e
  {
    hide ParseAll, EnterFrom, Quiet, Silent, Slot, Next, Still, NoPath, ElementResult, Joined, Turn;
    if Stops(argv, e) {
      StoppedStep(argv, g, e, root);
    } else if Ends(argv, g) {
      EndedStep(argv, g, e, root);
    } else if e < g {
      BehindStep(argv, g, e, root);
      BehindStep(argv, g, e, Some("C:"));
      Exact(argv, g, Next(argv, e), root);
    } else if e > g {
      AheadStep(argv, g, root);
      AheadStep(argv, g, Some("C:"));
      Exact(argv, ElementResult(argv, g).1, e, root);
    } else if ArgFlag(argv[g][1]) {
      ExactTogether(argv, g, root);
      ExactTogether(argv, g, Some("C:"));
      var n := ElementResult(argv, g).1;
      var a, b := Turn(argv, g, root).0, Turn(argv, g, Some("C:")).0;
      Exact(a, n, n, root);
      Exact(b, n, n, Some("C:"));
    } else {
      SkipStep(argv, g, root);
      SkipStep(argv, g, Some("C:"));
      Exact(argv, g, g + 1, root);
    }
  }

  lemma ExactTogether(argv: seq<string>, g: nat, root: Option<string>)
    requires !Stops(argv, g) && !Ends(argv, g) && ArgFlag(argv[g][1])
    ensures var n := ElementResult(argv, g).1; var a := Turn(argv, g, root).0;
      && |a| == |argv| && n <= |a| && g < n
      && Alike(argv, g, g) == Alike(a, n, n)
      && (Joined(argv, g, g, root) <==> Joined(a, n, n, root))
  {
    hide Joined, Turn, ElementResult, EnterFrom, ParseAll;
    TogetherStep(argv, g, root);
    var n := ElementResult(argv, g).1;
    AlikeBehind(argv, Turn(argv, g, root).0, n, n);
  }

  lemma SkipStep(argv: seq<string>, g: nat, root: Option<string>)
    requires !Stops(argv, g) && !Ends(argv, g) && !ArgFlag(argv[g][1])
    ensures Joined(argv, g, g, root) <==> Joined(argv, g, g + 1, root)
  {
    hide ParseAll, EnterFrom, Turn;
    IdleTurn(argv, g, root);
  }

  /** Two scanners, exactly: for every root getopt after atfw_enter reports what it would have reported
      before, with the arguments of -s and -r made native, and leaves optind and the operands alone,
      exactly when going over the command line with both shows no path that only one of them sees. */
  lemma AgreeIff(argv: seq<string>, i: nat)
    requires i <= |argv|
    ensures Alike(argv, i, i) <==> forall root :: Agree(argv, i, root)
  {
    hide Alike, Agree, Joined;
    if Alike(argv, i, i) {
      forall root
        ensures Agree(argv, i, root)
      {
        Exact(argv, i, i, root);
        JoinedIsAgree(argv, i, root);
      }
    } else {
      Exact(argv, i, i, Some("C:"));
      JoinedIsAgree(argv, i, Some("C:"));
    }
  }

  /** The condition on each element implies it. */
  lemma PlainIsAlike(argv: seq<string>, i: nat)
    requires i <= |argv| && EnterAgrees.Plain(argv, i)
    ensures Alike(argv, i, i)
  {
    hide EnterAgrees.Plain, Alike, Agree, Joined;
    PlainAgrees(argv, i, Some("C:"));
    Exact(argv, i, i, Some("C:"));
    JoinedIsAgree(argv, i, Some("C:"));
  }

  /** One that is read alike as a whole, although its second element does not fit: the argument behind
      the cluster stops atfw_enter, and is no path to convert. */
  lemma MadeHarmless()
    ensures Alike(["t", "-ls", "dir"], 1, 1) && !EnterAgrees.Plain(["t", "-ls", "dir"], 1)
  {
    hide ParseAll, ElementResult, ArgAt, NoPath;
    var argv := ["t", "-ls", "dir"];
    HarmlessElement();
    HarmlessParse();
    assert Stops(argv, 2);
  }

  lemma HarmlessElement()
    ensures !Fits("-ls") && ElementResult(["t", "-ls", "dir"], 1) == ([Opt('l', None), Opt('s', Some("dir"))], 3)
  {
    assert ArgAt("-ls", 2) == 2 && ArgAt("-ls", 1) == 2;
    assert "-ls"[1..2] == "l";
    assert FrontResults("l") == [Opt('l', None)];
    assert [Opt('l', None)] + [Opt('s', Some("dir"))] == [Opt('l', None), Opt('s', Some("dir"))];
  }

  lemma HarmlessParse()
    ensures NoPath(ParseAll(["t", "-ls", "dir"], OPTIONS, State(1, 1)).0)
  {
    hide ParseAll, ElementResult, Continues, ArgAt;
    var argv := ["t", "-ls", "dir"];
    var rs := [Opt('l', None), Opt('s', Some("dir"))];
    HarmlessElement();
    ElementRun(argv, 1);
    ContinuesParse(argv, OPTIONS, State(1, 1), rs, State(3, 1));
    NothingLeft(argv, 3);
    assert rs + [] == rs;
  }

  lemma NothingLeft(argv: seq<string>, g: nat)
    requires g == |argv|
    ensures ParseAll(argv, OPTIONS, State(g, 1)).0 == []
  {
  }
}
