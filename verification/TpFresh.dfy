/** Whether a test program leaves getopt fresh for its test cases: told from the text of the command
    line. */
module TpFresh {
  import opened Options
  import opened Strings
  import opened Getopt
  import opened GetoptRoundTrip
  import opened EnterAgrees
  import opened TpParams

  /** The command line up to an unknown option with more text behind it in its element: items without
      a fault, then flags, then that option. */
  datatype Cluster = Cluster(items: seq<Item>, flags: string, unknown: char, more: string, rest: seq<string>)

  function ClusterElement(c: Cluster): string {
    "-" + c.flags + [c.unknown] + c.more
  }

  predicate WellWritten(c: Cluster) {
    && (forall k :: 0 <= k < |c.items| ==> WellFormed(c.items[k], OPTIONS))
    && FirstFault(MeaningAll(c.items)).None?
    && (forall k :: 0 <= k < |c.flags| ==> IsFlag(OPTIONS, c.flags[k]))
    && !Known(OPTIONS, c.unknown)
    && |c.more| > 0
  }

  /** From i on, argv is that text. */
  predicate WrittenAs(argv: seq<string>, i: nat, c: Cluster) {
    i <= |argv| && WellWritten(c) && argv[i..] == EncodeAll(c.items) + ([ClusterElement(c)] + c.rest)
  }

  /** Where the option loop stands after its last call. */
  function Left(argv: seq<string>, s: State): State
    requires Ready(argv, s)
  {
    Step(argv, OPTIONS, LastCall(argv, s)).1
  }

  // ----- Faultless results are passed -----

  lemma {:induction false} PassFaultless(argv: seq<string>, s: State, rs: seq<Result>, s': State)
    requires Continues(argv, OPTIONS, s, rs, s') && FirstFault(rs).None?
    ensures Ready(argv, s') && LastCall(argv, s) == LastCall(argv, s')
    decreases |rs|
  {
    hide Step, FaultOf;
    if |rs| > 0 {
      assert rs == [rs[0]] + rs[1..];
      FirstFaultCons(rs[0], rs[1..]);
      PassFaultless(argv, Step(argv, OPTIONS, s).1, rs[1..], s');
    }
  }

  lemma {:induction false} FlagsFaultless(flags: string)
    ensures FirstFault(FlagResults(flags)).None?
  {
    FirstFaultIs(FlagResults(flags));
  }

  lemma FirstFaultConcat(a: seq<Result>, b: seq<Result>)
    ensures FirstFault(a + b).None? <==> FirstFault(a).None? && FirstFault(b).None?
  {
    hide FaultOf, FirstFault;
    FirstFaultIs(a);
    FirstFaultIs(b);
    FirstFaultIs(a + b);
    assert forall i :: 0 <= i < |a| ==> (a + b)[i] == a[i];
    assert forall i :: 0 <= i < |b| ==> (a + b)[|a| + i] == b[i];
  }

  // ----- Such a text leaves the parser inside -----

  lemma LeftInside(argv: seq<string>, c: Cluster)
    requires |argv| > 0 && WrittenAs(argv, 1, c)
    ensures Left(argv, State(1, 1)).pos > 1
  {
    hide Continues, Known, Strip, LastCall, FirstFault, WellFormed, EncodeAll, MeaningAll, TakesArg;
    OptString(c.unknown);
    var i := 1 + |EncodeAll(c.items)|;
    ClusterAt(argv, 1, c);
    ItemsRun(argv, OPTIONS, 1, c.items);
    PassFaultless(argv, State(1, 1), MeaningAll(c.items), State(i, 1));
    var n := |c.flags|;
    FlagRun(argv, OPTIONS, i, 1, n);
    FlagsFaultless(argv[i][1..1 + n]);
    PassFaultless(argv, State(i, 1), FlagResults(argv[i][1..1 + n]), State(i, 1 + n));
    StopsHere(argv, State(i, 1 + n));
  }

  lemma ClusterAt(argv: seq<string>, i: nat, c: Cluster)
    requires WrittenAs(argv, i, c)
    ensures var n := i + |EncodeAll(c.items)|; var f := |c.flags|;
      && n < |argv| && argv[i..n] == EncodeAll(c.items) && argv[n] == ClusterElement(c)
      && |argv[n]| > f + 2 && argv[n][0] == '-' && argv[n] != "--"
      && (forall k :: 1 <= k < 1 + f ==> argv[n][k] == c.flags[k - 1]) && argv[n][1 + f] == c.unknown
  {
    hide EncodeAll, WellFormed, MeaningAll, FirstFault, IsFlag, Known;
    var n := i + |EncodeAll(c.items)|;
    assert argv[n] == argv[i..][|EncodeAll(c.items)|];
    assert argv[i..n] == argv[i..][..|EncodeAll(c.items)|];
  }

  /** The loop stops at a fault. */
  lemma StopsHere(argv: seq<string>, s: State)
    requires Ready(argv, s) && FaultOf(Step(argv, OPTIONS, s).0).Some?
    ensures LastCall(argv, s) == s
  {
    hide Step, FaultOf;
  }

  // ----- A parser left inside has read such a text -----

  lemma LeftAtOption(argv: seq<string>, i: nat)
    requires i <= |argv| && Left(argv, State(i, 1)).pos > 1
    ensures OptionElement(argv, i) && argv[i] != "--"
  {
  }

  /** The flags in front of the element at i are passed. */
  lemma PassFlags(argv: seq<string>, i: nat, n: nat)
    requires OptionElement(argv, i) && argv[i] != "--" && n == FlagCount(OPTIONS, argv[i], 1)
    ensures Ready(argv, Behind(argv, i, 1 + n))
    ensures LastCall(argv, State(i, 1)) == LastCall(argv, Behind(argv, i, 1 + n))
    ensures forall k :: 1 <= k < 1 + n ==> IsFlag(OPTIONS, argv[i][k])
  {
    hide Continues, LastCall, Strip, IsFlag, FirstFault;
    OptString('l');
    FlagRun(argv, OPTIONS, i, 1, n);
    FlagsFaultless(argv[i][1..1 + n]);
    PassFaultless(argv, State(i, 1), FlagResults(argv[i][1..1 + n]), Behind(argv, i, 1 + n));
  }

  /** An unknown option that leaves the parser inside has text behind it. */
  lemma UnknownInside(argv: seq<string>, i: nat, n: nat)
    requires OptionElement(argv, i) && argv[i] != "--" && n == FlagCount(OPTIONS, argv[i], 1)
    requires 1 + n < |argv[i]| && !Known(OPTIONS, argv[i][1 + n])
    requires Left(argv, State(i, 1)).pos > 1
    ensures n + 2 < |argv[i]|
  {
    hide LastCall, Strip, Known, TakesArg;
    OptString(argv[i][1 + n]);
    PassFlags(argv, i, n);
    StopsHere(argv, State(i, 1 + n));
  }

  lemma UnknownText(argv: seq<string>, i: nat, n: nat) returns (c: Cluster)
    requires OptionElement(argv, i) && n == FlagCount(OPTIONS, argv[i], 1)
    requires n + 2 < |argv[i]| && !Known(OPTIONS, argv[i][1 + n])
    ensures WrittenAs(argv, i, c)
  {
    hide IsFlag, Known, FlagCount, FirstFault, ClusterElement;
    var elem := argv[i];
    c := Cluster([], elem[1..1 + n], elem[1 + n], elem[n + 2..], argv[i + 1..]);
    ElementText(elem, n, c);
    FirstFaultIs([]);
    assert argv[i..] == [elem] + argv[i + 1..];
    assert [] + ([elem] + argv[i + 1..]) == [elem] + argv[i + 1..];
  }

  lemma ElementText(elem: string, n: nat, c: Cluster)
    requires n + 2 < |elem| && elem[0] == '-'
    requires c.flags == elem[1..1 + n] && c.unknown == elem[1 + n] && c.more == elem[n + 2..]
    ensures ClusterElement(c) == elem
    ensures forall k :: 0 <= k < n ==> c.flags[k] == elem[1 + k]
  {
  }

  /** The argument of the option at pos of the element at i. */
  function ArgOf(argv: seq<string>, i: nat, pos: nat): string
    requires i < |argv| && pos < |argv[i]| && (pos + 1 < |argv[i]| || i + 1 < |argv|)
  {
    if pos + 1 < |argv[i]| then argv[i][pos + 1..] else argv[i + 1]
  }

  /** An option with an argument that does not stop the loop has one, and it is faultless. */
  lemma ArgFaultless(argv: seq<string>, i: nat, pos: nat)
    requires Inside(argv, i, pos) && TakesArg(OPTIONS, argv[i][pos])
    requires Left(argv, State(i, pos)).pos > 1
    ensures pos + 1 < |argv[i]| || i + 1 < |argv|
    ensures FaultOf(Opt(argv[i][pos], Some(ArgOf(argv, i, pos)))).None?
  {
    hide LastCall, Strip, FaultOf, TakesArg;
    var s := State(i, pos);
    OptString(argv[i][pos]);
    MissingIsFault(argv[i][pos]);
    var r := Step(argv, OPTIONS, s).0;
    if FaultOf(r).Some? {
      StopsHere(argv, s);
    }
  }

  lemma MissingIsFault(c: char)
    ensures FaultOf(Missing(c, true)).Some?
  {
  }

  /** The item at i, from its flags and what stands behind them. */
  lemma ItemHere(argv: seq<string>, i: nat, n: nat) returns (item: Item)
    requires OptionElement(argv, i) && argv[i] != "--" && 1 + n <= |argv[i]|
    requires forall k :: 1 <= k < 1 + n ==> IsFlag(OPTIONS, argv[i][k])
    requires 1 + n < |argv[i]| ==>
      && TakesArg(OPTIONS, argv[i][1 + n]) && (n + 2 < |argv[i]| || i + 1 < |argv|)
      && FaultOf(Opt(argv[i][1 + n], Some(ArgOf(argv, i, 1 + n)))).None?
    ensures WellFormed(item, OPTIONS) && Written(argv, i, item) && FirstFault(Meaning(item)).None?
  {
    hide TakesArg, Known, Element, FaultOf, FirstFault;
    var elem := argv[i];
    var next := if i + 1 < |argv| then argv[i + 1] else "";
    item := ItemAt(elem, n, next);
    ItemAtElement(elem, n, next);
    FlagsFaultless(item.flags);
    if !item.Flags? {
      var last := [Opt(item.c, Some(item.arg))];
      FirstFaultIs(last);
      FirstFaultConcat(FlagResults(item.flags), last);
    } else {
      assert FlagResults(item.flags) + [] == FlagResults(item.flags);
    }
  }

  /** The item in front, when the loop goes on behind it. */
  lemma NextItem(argv: seq<string>, i: nat, n: nat) returns (item: Item)
    requires OptionElement(argv, i) && argv[i] != "--" && n == FlagCount(OPTIONS, argv[i], 1)
    requires 1 + n < |argv[i]| ==> Known(OPTIONS, argv[i][1 + n])
    requires Left(argv, State(i, 1)).pos > 1
    ensures WellFormed(item, OPTIONS) && Written(argv, i, item) && FirstFault(Meaning(item)).None?
    ensures i < i + |Encode(item)| <= |argv| && Left(argv, State(i + |Encode(item)|, 1)).pos > 1
  {
    hide Step, LastCall, WellFormed, Meaning, FirstFault, FaultOf, Continues, TakesArg, Strip, Known, Element;
    PassFlags(argv, i, n);
    if 1 + n < |argv[i]| {
      ArgFaultless(argv, i, 1 + n);
    }
    item := ItemHere(argv, i, n);
    OptString('l');
    ItemRun(argv, OPTIONS, i, item);
    PassFaultless(argv, State(i, 1), Meaning(item), State(i + |Encode(item)|, 1));
  }

  lemma PrependItem(argv: seq<string>, i: nat, item: Item, c: Cluster) returns (r: Cluster)
    requires WellFormed(item, OPTIONS) && Written(argv, i, item) && FirstFault(Meaning(item)).None?
    requires WrittenAs(argv, i + |Encode(item)|, c)
    ensures WrittenAs(argv, i, r)
  {
    hide WellFormed, Meaning, FirstFault, IsFlag, Known, Element, ClusterElement;
    var items := [item] + c.items;
    r := c.(items := items);
    assert items[1..] == c.items && items[0] == item;
    FirstFaultConcat(Meaning(item), MeaningAll(c.items));
    WrittenPrefix(argv, i, item);
    Assoc(Encode(item), EncodeAll(c.items), [ClusterElement(c)] + c.rest);
    SameElement(r, c);
  }

  lemma WrittenPrefix(argv: seq<string>, i: nat, item: Item)
    requires Written(argv, i, item)
    ensures argv[i..] == Encode(item) + argv[i + |Encode(item)|..]
  {
  }

  lemma SameElement(r: Cluster, c: Cluster)
    requires r == c.(items := r.items)
    ensures ClusterElement(r) == ClusterElement(c)
  {
  }

  lemma {:induction false} InsideLeft(argv: seq<string>, i: nat) returns (c: Cluster)
    requires i <= |argv| && Left(argv, State(i, 1)).pos > 1
    ensures WrittenAs(argv, i, c)
    decreases |argv| - i
  {
    hide Left, WrittenAs, WellFormed, Written, FirstFault, Known, IsFlag, Meaning, Element;
    LeftAtOption(argv, i);
    var n := FlagCount(OPTIONS, argv[i], 1);
    if 1 + n < |argv[i]| && !Known(OPTIONS, argv[i][1 + n]) {
      UnknownInside(argv, i, n);
      c := UnknownText(argv, i, n);
    } else {
      var item := NextItem(argv, i, n);
      c := InsideLeft(argv, i + |Encode(item)|);
      c := PrependItem(argv, i, item, c);
    }
  }

  /** Resetting optind leaves a fresh parser exactly when the command line is not faultless items, then
      flags, then an unknown option with more text behind it in its element. */
  lemma FreshIff(argv: seq<string>)
    requires |argv| > 0
    ensures Left(argv, State(1, 1)).pos == 1 <==> !exists c :: WrittenAs(argv, 1, c)
  {
    hide WrittenAs;
    LeftPositive(argv);
    if Left(argv, State(1, 1)).pos > 1 {
      var c := InsideLeft(argv, 1);
    }
    if c :| WrittenAs(argv, 1, c) {
      LeftInside(argv, c);
    }
  }

  lemma LeftPositive(argv: seq<string>)
    requires |argv| > 0
    ensures Left(argv, State(1, 1)).pos >= 1
  {
    StepKeepsReady(argv, OPTIONS, LastCall(argv, State(1, 1)));
  }

  /** -xl is such a text: the position stays on its second character. */
  lemma NotFresh()
    ensures Left(["t", "-xl", "a"], State(1, 1)) == State(1, 2)
  {
    var argv := ["t", "-xl", "a"];
    OptString('x');
    hide StrChr, Strip, Known, TakesArg;
    assert Step(argv, OPTIONS, State(1, 1)) == (Unknown('x'), State(1, 2));
  }
}
