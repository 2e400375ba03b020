/** getopt of contrib/atf-bmk/win/atfw-msvc.c, with its position inside a clustered element. */
module Getopt {
  import opened Options
  import opened Strings

  /** optind and the static pos. */
  datatype State = State(optind: nat, pos: nat)

  /** What a call returns: -1, an option with its argument, '?' for an unknown option, or the
      missing-argument result (':' when the option string starts with a colon, else '?'). */
  datatype Result =
    | Done
    | Opt(c: char, arg: Option<string>)
    | Unknown(optopt: char)
    | Missing(optopt: char, colon: bool)

  /** The option string behind a leading '+' or '-'. */
  function Strip(optstring: string): string {
    if |optstring| > 0 && (optstring[0] == '+' || optstring[0] == '-') then optstring[1..] else optstring
  }

  predicate Known(opts: string, c: char) {
    c != ':' && c in opts
  }

  predicate TakesArg(opts: string, c: char) {
    Known(opts, c) && var p := StrChr(opts, c); p + 1 < |opts| && opts[p + 1] == ':'
  }

  /** The element at optind holds options. */
  predicate OptionElement(argv: seq<string>, i: nat) {
    i < |argv| && |argv[i]| >= 2 && argv[i][0] == '-'
  }

  /** Reading the current element at pos stays inside it; the caller may have set optind anywhere. */
  predicate InBounds(argv: seq<string>, s: State) {
    s.pos >= 1 && (OptionElement(argv, s.optind) && argv[s.optind] != "--" ==> s.pos < |argv[s.optind]|)
  }

  /** As the calls leave it: pos stands on an option character of the current element whenever there
      is one, and is behind the first only inside a cluster. */
  predicate Ready(argv: seq<string>, s: State) {
    s.pos >= 1 && s.optind <= |argv| && (s.pos > 1 ==> OptionElement(argv, s.optind) && argv[s.optind] != "--")
    && (OptionElement(argv, s.optind) ==> s.pos < |argv[s.optind]|)
  }

  /** Behind one option character that takes no argument. */
  function NextChar(argv: seq<string>, s: State): State
    requires s.optind < |argv|
  {
    if s.pos + 1 == |argv[s.optind]| then State(s.optind + 1, 1) else State(s.optind, s.pos + 1)
  }

  /** One call of getopt. */
  function Step(argv: seq<string>, optstring: string, s: State): (Result, State)
    requires InBounds(argv, s)
  {
    var opts := Strip(optstring);
    if !OptionElement(argv, s.optind) then (Done, State(s.optind, 1))
    else if argv[s.optind] == "--" then (Done, State(s.optind + 1, 1))
    else
      var elem := argv[s.optind];
      var c := elem[s.pos];
      if !Known(opts, c) then (Unknown(c), NextChar(argv, s))
      else if TakesArg(opts, c) then
        if s.pos + 1 < |elem| then (Opt(c, Some(elem[s.pos + 1..])), State(s.optind + 1, 1))
        else if s.optind + 1 < |argv| then (Opt(c, Some(argv[s.optind + 1])), State(s.optind + 2, 1))
        else (Missing(c, |opts| > 0 && opts[0] == ':'), State(s.optind + 1, 1))
      else (Opt(c, None), NextChar(argv, s))
  }

  /** Whatever it returns, a call keeps the parser ready, never moves past argc, leaves pos at 1
      when it returns -1, and otherwise makes progress. */
  lemma StepKeepsReady(argv: seq<string>, optstring: string, s: State)
    requires Ready(argv, s)
    ensures var (r, s') := Step(argv, optstring, s);
      && Ready(argv, s') && s.optind <= s'.optind
      && (r.Done? ==> s'.pos == 1)
      && (!r.Done? ==> s.optind < |argv|)
      && (!r.Done? && s'.optind == s.optind ==> s.pos < s'.pos < |argv[s.optind]|)
  {
    var (r, s') := Step(argv, optstring, s);
  }

  /** Wherever the caller has put optind, a call stays in bounds, and one that returns -1 leaves pos
      at 1. */
  lemma StepKeepsInBounds(argv: seq<string>, optstring: string, s: State)
    requires InBounds(argv, s)
    ensures var (r, s') := Step(argv, optstring, s);
      InBounds(argv, s') && (r.Done? ==> s'.pos == 1)
  {
  }

  /** The globals optind, optarg and optopt, and the static pos. */
  class Parser {
    var optind: nat
    var pos: nat
    var optarg: Option<string>
    var optopt: char

    constructor ()
      ensures optind == 1 && pos == 1
    {
      optind, pos, optarg, optopt := 1, 1, None, '\0';
    }

    function S(): State
      reads this
    {
      State(optind, pos)
    }

    /** getopt */
    method Next(argv: seq<string>, optstring: string) returns (ret: Option<char>)
      requires InBounds(argv, S())
      modifies this
      ensures var (r, s) := Step(argv, optstring, old(S()));
        && S() == s
        && match r
           case Done => ret == None && optarg == old(optarg) && optopt == old(optopt)
           case Opt(c, arg) =>
             ret == Some(c) && optarg == (if arg.Some? then arg else old(optarg)) && optopt == old(optopt)
           case Unknown(c) => ret == Some('?') && optopt == c && optarg == old(optarg)
           case Missing(c, colon) =>
             ret == Some(if colon then ':' else '?') && optopt == c && optarg == old(optarg)
    {
      var opts := optstring;
      if |opts| > 0 && (opts[0] == '+' || opts[0] == '-') {
        opts := opts[1..];
      }
      if optind >= |argv| || |argv[optind]| == 0 || argv[optind][0] != '-' || |argv[optind]| == 1 {
        pos := 1;
        return None;
      }
      if argv[optind] == "--" {
        optind := optind + 1;
        pos := 1;
        return None;
      }
      var elem := argv[optind];
      var c := elem[pos];
      var p := StrChr(opts, c);
      if p == |opts| || c == ':' {
        optopt := c;
        pos := pos + 1;
        if pos == |elem| {
          optind := optind + 1;
          pos := 1;
        }
        return Some('?');
      }
      if p + 1 < |opts| && opts[p + 1] == ':' {
        if pos + 1 < |elem| {
          optarg := Some(elem[pos + 1..]);
        } else if optind + 1 < |argv| {
          optind := optind + 1;
          optarg := Some(argv[optind]);
        } else {
          optopt := c;
          optind := optind + 1;
          pos := 1;
          return Some(if |opts| > 0 && opts[0] == ':' then ':' else '?');
        }
        optind := optind + 1;
        pos := 1;
      } else {
        pos := pos + 1;
        if pos == |elem| {
          optind := optind + 1;
          pos := 1;
        }
      }
      return Some(c);
    }
  }

  // ----- All calls until -1 -----

  /** Every result before -1, and optind behind it. */
  function ParseAll(argv: seq<string>, optstring: string, s: State): (seq<Result>, nat)
    requires Ready(argv, s)
    decreases |argv| - s.optind, if s.optind < |argv| then |argv[s.optind]| - s.pos else 0
  {
    StepKeepsReady(argv, optstring, s);
    var (r, s') := Step(argv, optstring, s);
    if r.Done? then ([], s'.optind)
    else
      var (rs, end) := ParseAll(argv, optstring, s');
      ([r] + rs, end)
  }
}
