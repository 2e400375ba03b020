/** Option lists written to argv by the Utility Syntax Guidelines of IEEE Std 1003.1-2017 (XBD
    section 12.2), and read back by getopt. */
module GetoptRoundTrip {
  import opened Options
  import opened Getopt
  import opened Strings

  /** One way of writing some options: a cluster of flags; a cluster whose last option has its
      argument attached; or one whose argument is the next element. */
  datatype Item =
    | Flags(flags: string)
    | Attached(flags: string, c: char, arg: string)
    | Separate(flags: string, c: char, arg: string)

  predicate IsFlag(opts: string, c: char) {
    Known(opts, c) && !TakesArg(opts, c)
  }

  function Element(item: Item): string {
    match item
    case Flags(flags) => "-" + flags
    case Attached(flags, c, arg) => "-" + flags + [c] + arg
    case Separate(flags, c, _) => "-" + flags + [c]
  }

  function Encode(item: Item): (e: seq<string>)
    ensures 1 <= |e| <= 2 && e[0] == Element(item)
  {
    match item
    case Separate(_, _, arg) => [Element(item), arg]
    case _ => [Element(item)]
  }

  /** The options are in the option string, used as it says, and the element is not "--". */
  predicate WellFormed(item: Item, opts: string) {
    && (forall i :: 0 <= i < |item.flags| ==> IsFlag(opts, item.flags[i]))
    && (item.Flags? ==> |item.flags| > 0)
    && (item.Attached? ==> |item.arg| > 0)
    && (!item.Flags? ==> TakesArg(opts, item.c))
    && Element(item) != "--"
  }

  function FlagResults(flags: string): (rs: seq<Result>)
    ensures |rs| == |flags| && forall i :: 0 <= i < |rs| ==> rs[i] == Opt(flags[i], None)
  {
    seq(|flags|, i requires 0 <= i < |flags| => Opt(flags[i], None))
  }

  /** The options that an item stands for. */
  function Meaning(item: Item): seq<Result> {
    FlagResults(item.flags) + if item.Flags? then [] else [Opt(item.c, Some(item.arg))]
  }

  function EncodeAll(items: seq<Item>): seq<string> {
    if |items| == 0 then [] else Encode(items[0]) + EncodeAll(items[1..])
  }

  function MeaningAll(items: seq<Item>): seq<Result> {
    if |items| == 0 then [] else Meaning(items[0]) + MeaningAll(items[1..])
  }

  /** Calls from s on return these results one by one and leave the parser at s'. */
  ghost predicate Continues(argv: seq<string>, optstring: string, s: State, rs: seq<Result>, s': State)
    decreases |rs|
  {
    && Ready(argv, s)
    && if |rs| == 0 then s' == s else
         var (r, s1) := Step(argv, optstring, s);
         r == rs[0] && !r.Done? && Continues(argv, optstring, s1, rs[1..], s')
  }

  lemma {:induction false} ContinuesTrans(argv: seq<string>, optstring: string, s: State, rs: seq<Result>, s1: State,
                                          rs1: seq<Result>, s2: State)
    requires Continues(argv, optstring, s, rs, s1) && Continues(argv, optstring, s1, rs1, s2)
    ensures Continues(argv, optstring, s, rs + rs1, s2)
    decreases |rs|
  {
    hide Step;
    if |rs| == 0 {
      assert rs + rs1 == rs1;
    } else {
      ContinuesTrans(argv, optstring, Step(argv, optstring, s).1, rs[1..], s1, rs1, s2);
      assert (rs + rs1)[1..] == rs[1..] + rs1;
    }
  }

  /** The whole parse is these results and then the parse from s'. */
  lemma {:induction false} ContinuesParse(argv: seq<string>, optstring: string, s: State, rs: seq<Result>, s': State)
    requires Continues(argv, optstring, s, rs, s')
    ensures Ready(argv, s')
    ensures ParseAll(argv, optstring, s).0 == rs + ParseAll(argv, optstring, s').0
    ensures ParseAll(argv, optstring, s).1 == ParseAll(argv, optstring, s').1
    decreases |rs|
  {
    hide Step;
    if |rs| == 0 {
      assert rs + ParseAll(argv, optstring, s).0 == ParseAll(argv, optstring, s).0;
    } else {
      var (r, s1) := Step(argv, optstring, s);
      ContinuesParse(argv, optstring, s1, rs[1..], s');
      var rest := ParseAll(argv, optstring, s').0;
      assert [r] + (rs[1..] + rest) == rs + rest;
    }
  }

  lemma StepContinues(argv: seq<string>, optstring: string, s: State)
    requires Ready(argv, s) && !Step(argv, optstring, s).0.Done?
    ensures Continues(argv, optstring, s, [Step(argv, optstring, s).0], Step(argv, optstring, s).1)
  {
    StepKeepsReady(argv, optstring, s);
    hide Step;
    var (r, s1) := Step(argv, optstring, s);
    assert [r][1..] == [];
  }

  /** Where the parser stands behind n characters of the element at i. */
  function Behind(argv: seq<string>, i: nat, pos: nat): State
    requires i < |argv|
  {
    if pos == |argv[i]| then State(i + 1, 1) else State(i, pos)
  }

  lemma BehindReady(argv: seq<string>, i: nat, pos: nat)
    requires OptionElement(argv, i) && argv[i] != "--" && 1 <= pos <= |argv[i]|
    ensures Ready(argv, Behind(argv, i, pos))
  {
  }

  /** The parser may stand on this character of the element at i. */
  predicate Inside(argv: seq<string>, i: nat, pos: nat) {
    OptionElement(argv, i) && argv[i] != "--" && 1 <= pos < |argv[i]|
  }

  lemma FlagStep(argv: seq<string>, optstring: string, i: nat, pos: nat)
    requires Inside(argv, i, pos) && IsFlag(Strip(optstring), argv[i][pos])
    ensures Continues(argv, optstring, State(i, pos), [Opt(argv[i][pos], None)], Behind(argv, i, pos + 1))
  {
    hide ParseAll, Strip, TakesArg;
    StepContinues(argv, optstring, State(i, pos));
  }

  lemma ArgStep(argv: seq<string>, optstring: string, i: nat, pos: nat)
    requires Inside(argv, i, pos) && TakesArg(Strip(optstring), argv[i][pos])
    requires pos + 1 < |argv[i]| || i + 1 < |argv|
    ensures var attached := pos + 1 < |argv[i]|;
      Continues(argv, optstring, State(i, pos),
                [Opt(argv[i][pos], Some(if attached then argv[i][pos + 1..] else argv[i + 1]))],
                State(if attached then i + 1 else i + 2, 1))
  {
    assert Known(Strip(optstring), argv[i][pos]);
    hide ParseAll, Strip, TakesArg;
    StepContinues(argv, optstring, State(i, pos));
  }

  /** A run of n flags inside an element. */
  lemma {:induction false} FlagRun(argv: seq<string>, optstring: string, i: nat, pos: nat, n: nat)
    requires OptionElement(argv, i) && argv[i] != "--" && 1 <= pos && pos + n <= |argv[i]|
    requires forall k :: pos <= k < pos + n ==> IsFlag(Strip(optstring), argv[i][k])
    ensures Continues(argv, optstring, Behind(argv, i, pos),
                      FlagResults(argv[i][pos..pos + n]), Behind(argv, i, pos + n))
    decreases n
  {
    hide ParseAll, Strip, IsFlag;
    BehindReady(argv, i, pos);
    if n == 0 {
      assert FlagResults(argv[i][pos..pos + n]) == [];
      NoResults(argv, optstring, Behind(argv, i, pos));
    } else {
      var c, rest := argv[i][pos], FlagResults(argv[i][pos + 1..pos + n]);
      FlagStep(argv, optstring, i, pos);
      FlagRun(argv, optstring, i, pos + 1, n - 1);
      ContinuesTrans(argv, optstring, State(i, pos), [Opt(c, None)], Behind(argv, i, pos + 1),
                     rest, Behind(argv, i, pos + n));
      assert [Opt(c, None)] + rest == FlagResults(argv[i][pos..pos + n]);
    }
  }

  lemma NoResults(argv: seq<string>, optstring: string, s: State)
    requires Ready(argv, s)
    ensures Continues(argv, optstring, s, [], s)
  {
  }

  /** The item stands at i. */
  predicate Written(argv: seq<string>, i: nat, item: Item) {
    && i + |Encode(item)| <= |argv| && argv[i] == Element(item)
    && (item.Separate? ==> argv[i + 1] == item.arg)
  }

  /** One item is read back as what it means, and the parser stands behind it. */
  lemma ItemRun(argv: seq<string>, optstring: string, i: nat, item: Item)
    requires WellFormed(item, Strip(optstring)) && Written(argv, i, item)
    ensures Continues(argv, optstring, State(i, 1), Meaning(item), State(i + |Encode(item)|, 1))
  {
    hide ParseAll, Strip, TakesArg, IsFlag, Continues;
    var n := |item.flags|;
    ElementParts(item);
    assert forall k :: 1 <= k < 1 + n ==> argv[i][k] == item.flags[k - 1];
    FlagRun(argv, optstring, i, 1, n);
    if item.Flags? {
      assert FlagResults(item.flags) + [] == FlagResults(item.flags);
    } else {
      ArgStep(argv, optstring, i, 1 + n);
      ContinuesTrans(argv, optstring, State(i, 1), FlagResults(item.flags), State(i, 1 + n),
                     [Opt(item.c, Some(item.arg))], State(i + |Encode(item)|, 1));
    }
  }

  lemma ElementParts(item: Item)
    ensures var elem, n := Element(item), |item.flags|;
      && |elem| >= n + 1 && elem[0] == '-' && elem[1..1 + n] == item.flags
      && (forall k :: 1 <= k < 1 + n ==> elem[k] == item.flags[k - 1])
      && (item.Flags? ==> |elem| == n + 1)
      && (!item.Flags? ==> |elem| >= n + 2 && elem[n + 1] == item.c)
      && (item.Attached? ==> elem[n + 2..] == item.arg && |elem| == n + 2 + |item.arg|)
      && (item.Separate? ==> |elem| == n + 2)
  {
  }

  lemma WrittenIn(argv: seq<string>, i: nat, item: Item, rest: seq<string>)
    requires i + |Encode(item)| + |rest| <= |argv|
    requires argv[i..i + |Encode(item)| + |rest|] == Encode(item) + rest
    ensures Written(argv, i, item)
    ensures argv[i + |Encode(item)|..i + |Encode(item)| + |rest|] == rest
  {
    var e := Encode(item);
    var all := argv[i..i + |e| + |rest|];
    assert argv[i] == all[0] == e[0];
    assert item.Separate? ==> argv[i + 1] == all[1] == e[1];
    assert all[|e|..] == rest;
  }

  lemma ItemsHead(items: seq<Item>)
    requires |items| > 0
    ensures EncodeAll(items) == Encode(items[0]) + EncodeAll(items[1..])
    ensures MeaningAll(items) == Meaning(items[0]) + MeaningAll(items[1..])
  {
  }

  lemma ItemsNone(items: seq<Item>)
    requires |items| == 0
    ensures EncodeAll(items) == [] && MeaningAll(items) == []
  {
  }

  lemma {:induction false} ItemsRun(argv: seq<string>, optstring: string, i: nat, items: seq<Item>)
    requires forall k :: 0 <= k < |items| ==> WellFormed(items[k], Strip(optstring))
    requires i + |EncodeAll(items)| <= |argv| && argv[i..i + |EncodeAll(items)|] == EncodeAll(items)
    ensures Continues(argv, optstring, State(i, 1), MeaningAll(items), State(i + |EncodeAll(items)|, 1))
    decreases |items|
  {
    hide *;
    if |items| > 0 {
      var e, rest := Encode(items[0]), EncodeAll(items[1..]);
      ItemsHead(items);
      WrittenIn(argv, i, items[0], rest);
      ItemRun(argv, optstring, i, items[0]);
      ItemsRun(argv, optstring, i + |e|, items[1..]);
      ContinuesTrans(argv, optstring, State(i, 1), Meaning(items[0]), State(i + |e|, 1), MeaningAll(items[1..]),
                     State(i + |e| + |rest|, 1));
    } else {
      ItemsNone(items);
      BeforeEnd(argv, i);
      NoResults(argv, optstring, State(i, 1));
    }
  }

  lemma BeforeEnd(argv: seq<string>, i: nat)
    requires i <= |argv|
    ensures Ready(argv, State(i, 1))
  {
  }

  /** What ends the options: "--", or an operand, or nothing more. */
  datatype End = DashDash | Plain

  predicate EndFits(end: End, operands: seq<string>) {
    end.Plain? ==> !OptionElement(operands, 0)
  }

  /** Any list of options, written in any mix of clusters, attached and separate arguments and
      ended in any way, is read back as exactly that list, with optind at the first operand. */
  lemma RoundTrip(progname: string, optstring: string, items: seq<Item>, end: End, operands: seq<string>)
    requires forall k :: 0 <= k < |items| ==> WellFormed(items[k], Strip(optstring))
    requires EndFits(end, operands)
    ensures var argv := [progname] + EncodeAll(items) + (if end.DashDash? then ["--"] else []) + operands;
      var (rs, optind) := ParseAll(argv, optstring, State(1, 1));
      rs == MeaningAll(items) && optind <= |argv| && argv[optind..] == operands
  {
    hide WellFormed, Strip, EncodeAll, MeaningAll;
    var e := EncodeAll(items);
    var dash := if end.DashDash? then ["--"] else [];
    var argv := [progname] + e + dash + operands;
    var n := 1 + |e|;
    assert argv[1..n] == e;
    ItemsRun(argv, optstring, 1, items);
    ContinuesParse(argv, optstring, State(1, 1), MeaningAll(items), State(n, 1));
    assert argv[n..] == dash + operands;
    assert argv[n + |dash|..] == operands;
    EndStep(argv, optstring, n, end, operands);
    assert MeaningAll(items) + [] == MeaningAll(items);
  }

  lemma EndStep(argv: seq<string>, optstring: string, n: nat, end: End, operands: seq<string>)
    requires n <= |argv| && EndFits(end, operands)
    requires argv[n..] == (if end.DashDash? then ["--"] else []) + operands
    ensures ParseAll(argv, optstring, State(n, 1)) == ([], if end.DashDash? then n + 1 else n)
  {
    if n < |argv| {
      assert argv[n] == argv[n..][0];
    }
  }

  // ----- Option strings, and the two errors -----

  /** One leading '+' or '-' is no part of the option string. */
  lemma StripIs(opts: string)
    ensures Strip("+" + opts) == opts && Strip("-" + opts) == opts
    ensures !("+" <= opts) && !("-" <= opts) ==> Strip(opts) == opts
  {
  }

  /** An option takes an argument when a colon follows where it first stands; the colon is no option. */
  lemma DeclaredIs(before: string, c: char, after: string, d: char)
    requires c !in before && c != ':'
    ensures var opts := before + [c] + after;
      && Known(opts, c) && (TakesArg(opts, c) <==> ":" <= after)
      && !Known(opts, ':') && (d !in opts ==> !Known(opts, d))
  {
    var opts := before + [c] + after;
    StrChrBehind(before, c, after);
    assert opts[|before|] == c;
    assert opts[|before| + 1..] == after;
  }

  /** Behind some flags a character that is no option is reported, and reading goes on behind it. */
  lemma UnknownIs(argv: seq<string>, optstring: string, i: nat, flags: string, c: char, rest: string)
    requires i < |argv| && argv[i] == "-" + flags + [c] + rest && argv[i] != "--"
    requires forall k :: 0 <= k < |flags| ==> IsFlag(Strip(optstring), flags[k])
    requires c == ':' || c !in Strip(optstring)
    ensures Continues(argv, optstring, State(i, 1), FlagResults(flags) + [Unknown(c)],
                      if rest == "" then State(i + 1, 1) else State(i, |flags| + 2))
  {
    hide ParseAll, Strip, TakesArg, IsFlag, Continues;
    var s := State(i, 1 + |flags|);
    assert argv[i][1..1 + |flags|] == flags;
    assert forall k :: 1 <= k < 1 + |flags| ==> argv[i][k] == flags[k - 1];
    FlagRun(argv, optstring, i, 1, |flags|);
    StepContinues(argv, optstring, s);
    ContinuesTrans(argv, optstring, State(i, 1), FlagResults(flags), s, [Unknown(c)],
                   if rest == "" then State(i + 1, 1) else State(i, |flags| + 2));
  }

  lemma MissingStep(argv: seq<string>, optstring: string, i: nat, pos: nat)
    requires Inside(argv, i, pos) && TakesArg(Strip(optstring), argv[i][pos])
    requires pos + 1 == |argv[i]| && i + 1 == |argv|
    ensures Continues(argv, optstring, State(i, pos), [Missing(argv[i][pos], ":" <= Strip(optstring))],
                      State(|argv|, 1))
  {
    assert Known(Strip(optstring), argv[i][pos]);
    hide ParseAll, Strip, TakesArg;
    StepContinues(argv, optstring, State(i, pos));
  }

  /** An option whose argument is missing at the end of argv is reported, with ':' exactly when the option
      string, behind its sign, starts with one. */
  lemma MissingIs(argv: seq<string>, optstring: string, flags: string, c: char)
    requires |argv| > 0 && argv[|argv| - 1] == "-" + flags + [c] != "--"
    requires forall k :: 0 <= k < |flags| ==> IsFlag(Strip(optstring), flags[k])
    requires TakesArg(Strip(optstring), c)
    ensures Continues(argv, optstring, State(|argv| - 1, 1),
                      FlagResults(flags) + [Missing(c, ":" <= Strip(optstring))], State(|argv|, 1))
  {
    hide ParseAll, Strip, TakesArg, IsFlag, Continues;
    var i := |argv| - 1;
    assert argv[i][1..1 + |flags|] == flags;
    assert forall k :: 1 <= k < 1 + |flags| ==> argv[i][k] == flags[k - 1];
    FlagRun(argv, optstring, i, 1, |flags|);
    MissingStep(argv, optstring, i, 1 + |flags|);
    ContinuesTrans(argv, optstring, State(i, 1), FlagResults(flags), State(i, 1 + |flags|),
                   [Missing(c, ":" <= Strip(optstring))], State(|argv|, 1));
  }

  // ----- The converse: what getopt accepts was written that way -----

  predicate NoErrors(rs: seq<Result>) {
    forall k :: 0 <= k < |rs| ==> rs[k].Opt?
  }

  lemma ErrorShows(argv: seq<string>, optstring: string, s: State, rs: seq<Result>, s1: State)
    requires Continues(argv, optstring, s, rs, s1) && NoErrors(ParseAll(argv, optstring, s).0)
    ensures Ready(argv, s1) && NoErrors(ParseAll(argv, optstring, s1).0)
    ensures Step(argv, optstring, s1).0.Opt? || Step(argv, optstring, s1).0.Done?
  {
    ContinuesParse(argv, optstring, s, rs, s1);
    var later := ParseAll(argv, optstring, s1).0;
    forall k | 0 <= k < |later|
      ensures later[k].Opt?
    {
      assert later[k] == ParseAll(argv, optstring, s).0[|rs| + k];
    }
    if !Step(argv, optstring, s1).0.Done? {
      StepContinues(argv, optstring, s1);
      assert later == [Step(argv, optstring, s1).0] + ParseAll(argv, optstring, Step(argv, optstring, s1).1).0;
      assert later[0] == Step(argv, optstring, s1).0;
    }
  }

  /** The number of flags in front of an element, from pos on. */
  function FlagCount(opts: string, elem: string, pos: nat): (n: nat)
    requires pos <= |elem|
    ensures pos + n <= |elem| && (forall k :: pos <= k < pos + n ==> IsFlag(opts, elem[k]))
    ensures pos + n < |elem| ==> !IsFlag(opts, elem[pos + n])
    decreases |elem| - pos
  {
    if pos < |elem| && IsFlag(opts, elem[pos]) then 1 + FlagCount(opts, elem, pos + 1) else 0
  }

  /** Behind the flags of an accepted element stands an option with its argument. */
  lemma BehindFlags(argv: seq<string>, optstring: string, i: nat, n: nat)
    requires OptionElement(argv, i) && argv[i] != "--" && n == FlagCount(Strip(optstring), argv[i], 1)
    requires NoErrors(ParseAll(argv, optstring, State(i, 1)).0)
    requires 1 + n < |argv[i]|
    ensures TakesArg(Strip(optstring), argv[i][1 + n])
    ensures n + 2 < |argv[i]| || i + 1 < |argv|
  {
    hide ParseAll, Strip, Continues;
    FlagRun(argv, optstring, i, 1, n);
    ErrorShows(argv, optstring, State(i, 1), FlagResults(argv[i][1..1 + n]), State(i, 1 + n));
  }

  /** The item that such an element and its successor make up. */
  function ItemAt(elem: string, n: nat, next: string): (item: Item)
    requires 1 + n <= |elem|
  {
    var flags := elem[1..1 + n];
    if 1 + n == |elem| then Flags(flags)
    else if n + 2 < |elem| then Attached(flags, elem[1 + n], elem[n + 2..])
    else Separate(flags, elem[1 + n], next)
  }

  lemma ItemAtElement(elem: string, n: nat, next: string)
    requires 1 + n <= |elem| && elem[0] == '-'
    ensures Element(ItemAt(elem, n, next)) == elem
    ensures forall k :: 0 <= k < n ==> ItemAt(elem, n, next).flags[k] == elem[1 + k]
  {
    var item := ItemAt(elem, n, next);
    if item.Attached? {
      assert "-" + item.flags + [item.c] + item.arg == elem;
    } else if item.Separate? {
      assert "-" + item.flags + [item.c] == elem;
    } else {
      assert "-" + item.flags == elem;
    }
  }

  /** The item at i, when getopt reports no error. */
  lemma DecodeItem(argv: seq<string>, optstring: string, i: nat) returns (item: Item)
    requires OptionElement(argv, i) && argv[i] != "--"
    requires NoErrors(ParseAll(argv, optstring, State(i, 1)).0)
    ensures WellFormed(item, Strip(optstring)) && Written(argv, i, item)
  {
    hide ParseAll, Strip, TakesArg, Element;
    var elem := argv[i];
    var n := FlagCount(Strip(optstring), elem, 1);
    if 1 + n < |elem| {
      BehindFlags(argv, optstring, i, n);
    }
    var next := if i + 1 < |argv| then argv[i + 1] else "";
    item := ItemAt(elem, n, next);
    ItemAtElement(elem, n, next);
  }

  /** From i on, argv is these items, the end of the options, and the operands from optind on. */
  predicate SplitsInto(argv: seq<string>, i: nat, items: seq<Item>, end: End, optind: nat) {
    && i <= optind <= |argv| && EndFits(end, argv[optind..])
    && argv[i..] == EncodeAll(items) + ((if end.DashDash? then ["--"] else []) + argv[optind..])
  }

  /** An argv that getopt reads without an error is some items, written as above, then the end
      of the options, then the operands at optind. */
  lemma {:induction false} Decode(argv: seq<string>, optstring: string, i: nat) returns (items: seq<Item>, end: End)
    requires i <= |argv| && NoErrors(ParseAll(argv, optstring, State(i, 1)).0)
    ensures forall k :: 0 <= k < |items| ==> WellFormed(items[k], Strip(optstring))
    ensures var (rs, optind) := ParseAll(argv, optstring, State(i, 1));
      rs == MeaningAll(items) && SplitsInto(argv, i, items, end, optind)
    decreases |argv| - i
  {
    hide ParseAll, Strip, WellFormed, Meaning, Element, Written;
    if !OptionElement(argv, i) || argv[i] == "--" {
      items := [];
      end := DecodeEnd(argv, optstring, i);
    } else {
      hide SplitsInto;
      var item := DecodeItem(argv, optstring, i);
      ItemRun(argv, optstring, i, item);
      ContinuesParse(argv, optstring, State(i, 1), Meaning(item), State(i + |Encode(item)|, 1));
      var next := i + |Encode(item)|;
      ErrorShows(argv, optstring, State(i, 1), Meaning(item), State(next, 1));
      var rest;
      rest, end := Decode(argv, optstring, next);
      SplitsCons(argv, i, item, rest, end, ParseAll(argv, optstring, State(next, 1)).1);
      items := [item] + rest;
      assert items[1..] == rest;
    }
  }

  lemma DecodeEnd(argv: seq<string>, optstring: string, i: nat) returns (end: End)
    requires i <= |argv| && (!OptionElement(argv, i) || argv[i] == "--")
    ensures var (rs, optind) := ParseAll(argv, optstring, State(i, 1));
      rs == [] && SplitsInto(argv, i, [], end, optind)
  {
    end := if OptionElement(argv, i) then DashDash else Plain;
    assert argv[i..] == (if end.DashDash? then ["--"] else []) + argv[if end.DashDash? then i + 1 else i..];
    assert end.Plain? && i < |argv| ==> argv[i..][0] == argv[i];
  }

  lemma SplitsCons(argv: seq<string>, i: nat, item: Item, rest: seq<Item>, end: End, optind: nat)
    requires Written(argv, i, item) && SplitsInto(argv, i + |Encode(item)|, rest, end, optind)
    ensures SplitsInto(argv, i, [item] + rest, end, optind)
  {
    hide Element, OptionElement;
    assert argv[i..] == Encode(item) + argv[i + |Encode(item)|..];
    assert ([item] + rest)[1..] == rest;
    assert EncodeAll([item] + rest) == Encode(item) + EncodeAll(rest);
    hide EncodeAll, Encode, Written;
    Assoc(Encode(item), EncodeAll(rest), (if end.DashDash? then ["--"] else []) + argv[optind..]);
  }

  lemma Assoc<T>(a: seq<T>, b: seq<T>, c: seq<T>)
    ensures a + (b + c) == a + b + c
  {
  }
}
