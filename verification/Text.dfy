/** The word splitters of atf-c/detail/text.c and atf-c++/detail/text.cpp. */
module Text {
  import opened Options
  import opened Strings
  import opened AtfList

  /** The pieces of s between the leftmost matches of d, empty ones included. */
  function Pieces(s: string, d: string): (ps: seq<string>)
    requires |d| > 0
    ensures |ps| > 0
    decreases |s|
  {
    match StrStr(s, d, 0)
    case None => [s]
    case Some(i) => [s[..i]] + Pieces(s[i + |d|..], d)
  }

  function NonEmpty(ps: seq<string>): (r: seq<string>)
    ensures forall i :: 0 <= i < |r| ==> |r[i]| > 0
  {
    if |ps| == 0 then [] else (if |ps[0]| == 0 then [] else [ps[0]]) + NonEmpty(ps[1..])
  }

  function Words(s: string, d: string): seq<string>
    requires |d| > 0
  {
    NonEmpty(Pieces(s, d))
  }

  lemma OccursShift(s: string, d: string, from: nat, j: nat)
    requires from <= |s|
    ensures OccursAt(s[from..], d, j) <==> OccursAt(s, d, from + j)
  {
    if from + j + |d| <= |s| {
      assert s[from..][j..j + |d|] == s[from + j..from + j + |d|];
    }
  }

  /** Searching from a position is searching the rest of the string. */
  lemma StrStrShift(s: string, d: string, from: nat)
    requires from <= |s|
    ensures var r := StrStr(s, d, from);
      StrStr(s[from..], d, 0) == if r.Some? then Some(r.value - from) else None
  {
    hide OccursAt, StrStr;
    var r, t := StrStr(s, d, from), StrStr(s[from..], d, 0);
    if t.Some? {
      OccursShift(s, d, from, t.value);
    }
    if r.Some? {
      OccursShift(s, d, from, r.value - from);
      assert r.value == from + (r.value - from);
    }
  }

  lemma WordsUnfold(t: string, d: string)
    requires |d| > 0
    ensures var r := StrStr(t, d, 0);
      && (r == None ==> Words(t, d) == if |t| == 0 then [] else [t])
      && (r == Some(0) ==> Words(t, d) == Words(t[|d|..], d))
      && (r.Some? && r.value > 0 ==> Words(t, d) == [t[..r.value]] + Words(t[r.value + |d|..], d))
  {
    hide StrStr, OccursAt;
    var r := StrStr(t, d, 0);
    if r.Some? {
      var rest := Pieces(t[r.value + |d|..], d);
      assert ([t[..r.value]] + rest)[1..] == rest;
    } else {
      assert Pieces(t, d) == [t] && [t][1..] == [];
      assert NonEmpty([t]) == (if |t| == 0 then [] else [t]) + NonEmpty([]);
    }
  }

  /** What one turn of either splitter adds. */
  lemma WordsStep(s: string, d: string, from: nat)
    requires |d| > 0 && from <= |s|
    ensures var r := StrStr(s, d, from);
      && (r == None ==> Words(s[from..], d) == if from == |s| then [] else [s[from..]])
      && (r == Some(from) ==> Words(s[from..], d) == Words(s[from + |d|..], d))
      && (r.Some? && r.value > from ==>
            Words(s[from..], d) == [s[from..r.value]] + Words(s[r.value + |d|..], d))
  {
    hide StrStr, OccursAt, Words;
    StrStrShift(s, d, from);
    var r, t := StrStr(s, d, from), s[from..];
    WordsUnfold(t, d);
    if r.Some? {
      assert t[..r.value - from] == s[from..r.value];
      assert t[r.value - from + |d|..] == s[r.value + |d|..];
    }
  }

  /** One turn of a splitter keeps (words so far) + (words to come). */
  lemma SplitTurn(before: seq<string>, s: string, d: string, iter: nat)
    requires |d| > 0 && iter < |s|
    ensures var r := StrStr(s, d, iter);
      var ptr := if r.Some? then r.value else |s|;
      (if ptr > iter then before + [s[iter..ptr]] else before) + (if r.Some? then Words(s[ptr + |d|..], d) else [])
      == before + Words(s[iter..], d)
  {
    hide StrStr, OccursAt, Words;
    WordsStep(s, d, iter);
    assert s[iter..] == s[iter..|s|];
  }

  /** atf_text_split, on a fresh list. */
  method Split(str: string, delim: string) returns (words: List<string>)
    requires |delim| > 0
    ensures words.Valid() && fresh(words) && (forall i :: 0 <= i < |words.nodes| ==> fresh(words.nodes[i]))
    ensures words.View() == Words(str, delim)
  {
    hide StrStr, OccursAt, Words, List.Valid, DataOf;
    words := new List<string>();
    var end := |str|;
    var iter := 0;
    ghost var goal := Words(str, delim);
    WordsStep(str, delim, end);
    assert str[0..] == str;
    while iter < end
      invariant words.Valid() && fresh(words)
      invariant forall i :: 0 <= i < |words.nodes| ==> fresh(words.nodes[i])
      invariant words.View() + (if iter <= end then Words(str[iter..], delim) else []) == goal
      decreases end - iter
    {
      SplitTurn(words.View(), str, delim, iter);
      var found := StrStr(str, delim, iter);
      var ptr := if found.Some? then found.value else end;
      if ptr > iter {
        words.Append(str[iter..ptr], true);
      }
      iter := ptr + |delim|;
    }
  }

  const SIZE_MAX: nat := 0xFFFF_FFFF_FFFF_FFFF

  /** std::string::substr */
  function SubStr(s: string, pos: nat, count: nat): string
    requires pos <= |s|
  {
    if count < |s| - pos then s[pos..pos + count] else s[pos..|s|]
  }

  /** atf::text::split: positions are size_t, and "not found" is SIZE_MAX. */
  method CppSplit(str: string, delim: string) returns (words: seq<string>)
    requires |str| < SIZE_MAX && 0 < |delim| < SIZE_MAX
    ensures words == Words(str, delim)
  {
    hide StrStr, OccursAt, Words;
    words := [];
    var pos, newpos := 0, 0;
    ghost var goal := Words(str, delim);
    WordsStep(str, delim, |str|);
    assert str[0..] == str;
    while pos < |str| && newpos != SIZE_MAX
      invariant newpos == SIZE_MAX ==> words == goal
      invariant newpos != SIZE_MAX ==> pos <= |str| && words + Words(str[pos..], delim) == goal
      decreases newpos != SIZE_MAX, |str| - pos
    {
      SplitTurn(words, str, delim, pos);
      var found := StrStr(str, delim, pos);
      newpos := if found.Some? then found.value else SIZE_MAX;
      if newpos != pos {
        words := words + [SubStr(str, pos, newpos - pos)];
      }
      pos := (newpos + |delim|) % (SIZE_MAX + 1);
      assert words + [] == words;
    }
  }

  /** A turn of the C loop moves its cursor exactly when the delimiter is not empty. */
  lemma TurnMovesIffDelimiter(s: string, d: string, iter: nat)
    requires iter < |s|
    ensures var r := StrStr(s, d, iter);
      (if r.Some? then r.value else |s|) + |d| > iter <==> |d| > 0
  {
    if |d| == 0 {
      assert OccursAt(s, d, iter);
    }
  }

  // ----- Joining back -----

  /** The pieces are exactly s, cut at the delimiters. */
  lemma {:induction false} JoinPieces(s: string, d: string)
    requires |d| > 0
    ensures Join(Pieces(s, d), d) == s
    decreases |s|
  {
    var r := StrStr(s, d, 0);
    if r.Some? {
      var i := r.value;
      var rest := Pieces(s[i + |d|..], d);
      JoinPieces(s[i + |d|..], d);
      assert ([s[..i]] + rest)[1..] == rest;
      assert s == s[..i] + s[i..i + |d|] + s[i + |d|..];
    }
  }

  function TotalLength(ws: seq<string>): nat {
    if |ws| == 0 then 0 else |ws[0]| + TotalLength(ws[1..])
  }

  lemma {:induction false} JoinLength(ws: seq<string>, d: string)
    ensures |Join(ws, d)| == TotalLength(ws) + (if |ws| == 0 then 0 else (|ws| - 1) * |d|)
  {
    if |ws| == 1 {
      assert TotalLength(ws[1..]) == 0 && (|ws| - 1) * |d| == 0;
    } else if |ws| > 1 {
      JoinLength(ws[1..], d);
      assert (|ws| - 1) * |d| == (|ws| - 2) * |d| + |d|;
    }
  }

  lemma {:induction false} NonEmptyTotal(ps: seq<string>)
    ensures TotalLength(NonEmpty(ps)) == TotalLength(ps)
  {
    if |ps| > 0 {
      var rest := NonEmpty(ps[1..]);
      NonEmptyTotal(ps[1..]);
      assert ([ps[0]] + rest)[1..] == rest && [] + rest == rest;
    }
  }

  lemma {:induction false} NonEmptyCount(ps: seq<string>)
    ensures |NonEmpty(ps)| <= |ps|
    ensures |NonEmpty(ps)| == |ps| <==> forall i :: 0 <= i < |ps| ==> |ps[i]| > 0
    ensures |NonEmpty(ps)| == |ps| ==> NonEmpty(ps) == ps
  {
    if |ps| > 0 {
      NonEmptyCount(ps[1..]);
      assert forall i :: 1 <= i < |ps| ==> ps[i] == ps[1..][i - 1];
    }
  }

  /** The comment at text.hpp:83-86 says that joining the split words gives the string back.
      Empty pieces are dropped, so it does exactly when there are none, or no text at all. */
  lemma RejoinIff(s: string, d: string)
    requires |d| > 0
    ensures Join(Words(s, d), d) == s <==>
            |s| == 0 || forall i :: 0 <= i < |Pieces(s, d)| ==> |Pieces(s, d)[i]| > 0
  {
    hide Pieces, Join, NonEmpty;
    var ps := Pieces(s, d);
    var ws := NonEmpty(ps);
    JoinPieces(s, d);
    NonEmptyTotal(ps);
    NonEmptyCount(ps);
    JoinLength(ps, d);
    JoinLength(ws, d);
    if |s| == 0 {
      WordsStep(s, d, 0);
      assert s[0..] == s;
      assert |Join(ws, d)| == 0;
    } else if 0 < |ws| < |ps| {
      MulMonotone(|ws| - 1, |ps| - 1, |d|);
    }
  }

  /** An empty piece is lost. */
  lemma RejoinLosesEmpty()
    ensures Words(",a", ",") == ["a"] && Join(Words(",a", ","), ",") == "a"
  {
    var s := ",a";
    assert s[0..1] == "," && OccursAt(s, ",", 0);
    assert s[1..] == "a" && s[0..] == s;
    WordsStep(s, ",", 0);
    assert s[1..2] == "a";
    WordsStep(s, ",", 1);
  }

  lemma MulMonotone(a: nat, b: nat, c: nat)
    requires a < b && c > 0
    ensures a * c < b * c
  {
  }

  /** A word that the delimiter cannot be seen to start in, even with the delimiter after it. */
  predicate Separable(w: string, d: string) {
    StrStr(w + d, d, 0) == Some(|w|)
  }

  /** For a one-character delimiter this says that the word does not contain it. */
  lemma SeparableChar(w: string, c: char)
    ensures Separable(w, [c]) <==> c !in w
  {
    var s := w + [c];
    assert OccursAt(s, [c], |w|);
    forall j: nat | j < |w|
      ensures OccursAt(s, [c], j) <==> w[j] == c
    {
      assert s[j..j + 1] == [w[j]];
    }
  }

  lemma SeparableFirst(w: string, d: string, rest: string)
    requires Separable(w, d)
    ensures StrStr(w + d + rest, d, 0) == Some(|w|)
    ensures |d| > 0 ==> StrStr(w, d, 0) == None
  {
    var s := w + d + rest;
    assert s[|w|..|w| + |d|] == d;
    assert OccursAt(s, d, |w|);
    forall j: nat | j < |w|
      ensures !OccursAt(s, d, j)
    {
      if j + |d| <= |s| {
        assert s[j..j + |d|] == (w + d)[j..j + |d|];
      }
      assert !OccursAt(w + d, d, j);
    }
    forall j: nat
      ensures |d| > 0 ==> !OccursAt(w, d, j)
    {
      if j + |d| <= |w| {
        assert w[j..j + |d|] == (w + d)[j..j + |d|];
      }
      assert j < |w| ==> !OccursAt(w + d, d, j);
    }
  }

  /** What cutting at leftmost matches means: no piece but the last could end sooner. */
  predicate Cut(ps: seq<string>, d: string) {
    && |ps| > 0
    && (forall i :: 0 <= i < |ps| - 1 ==> Separable(ps[i], d))
    && StrStr(ps[|ps| - 1], d, 0) == None
  }

  lemma {:induction false} PiecesAreCut(s: string, d: string)
    requires |d| > 0
    ensures Cut(Pieces(s, d), d)
    decreases |s|
  {
    hide StrStr, OccursAt;
    var r := StrStr(s, d, 0);
    if r.Some? {
      var i := r.value;
      var w, rest := s[..i], Pieces(s[i + |d|..], d);
      PiecesAreCut(s[i + |d|..], d);
      PrefixSeparable(s, d, i);
      assert forall j :: 1 <= j < |rest| + 1 ==> ([w] + rest)[j] == rest[j - 1];
    }
  }

  lemma PrefixSeparable(s: string, d: string, i: nat)
    requires StrStr(s, d, 0) == Some(i)
    ensures Separable(s[..i], d)
  {
    hide StrStr;
    var t := s[..i] + d;
    assert t[i..i + |d|] == d;
    assert s[i..i + |d|] == d;
    assert t == s[..i + |d|];
    forall j: nat | j < i
      ensures !OccursAt(t, d, j)
    {
      assert !OccursAt(s, d, j);
      assert j + |d| <= |t| ==> t[j..j + |d|] == s[j..j + |d|];
    }
    assert OccursAt(t, d, i);
    hide OccursAt;
  }

  /** Only one cutting of a string is at leftmost matches. */
  lemma {:induction false} CutIsPieces(ps: seq<string>, d: string)
    requires |d| > 0 && Cut(ps, d)
    ensures Pieces(Join(ps, d), d) == ps
  {
    hide StrStr, OccursAt;
    var s := Join(ps, d);
    if |ps| > 1 {
      var rest := Join(ps[1..], d);
      SeparableFirst(ps[0], d, rest);
      assert Cut(ps[1..], d);
      CutIsPieces(ps[1..], d);
      assert s == ps[0] + d + rest;
      assert s[|ps[0]| + |d|..] == rest && s[..|ps[0]|] == ps[0];
    } else {
      assert ps == [ps[0]];
    }
  }

  /** Splitting the join of non-empty separable words gives the words. */
  lemma SplitOfJoin(ws: seq<string>, d: string)
    requires |d| > 0
    requires forall i :: 0 <= i < |ws| ==> |ws[i]| > 0 && Separable(ws[i], d)
    ensures Words(Join(ws, d), d) == ws
  {
    if |ws| == 0 {
      WordsStep([], d, 0);
    } else {
      SeparableFirst(ws[|ws| - 1], d, []);
      CutIsPieces(ws, d);
      NonEmptyCount(ws);
    }
  }

  // ----- strtok_r -----

  /** The length of the longest prefix with no separator in it. */
  function TokenLength(s: string, seps: string): (n: nat)
    ensures n <= |s| && (forall i :: 0 <= i < n ==> s[i] !in seps)
    ensures n < |s| ==> s[n] in seps
  {
    if |s| == 0 || s[0] in seps then 0 else 1 + TokenLength(s[1..], seps)
  }

  /** Every maximal run of non-separators. */
  function Tokens(s: string, seps: string): (ts: seq<string>)
    decreases |s|
  {
    if |s| == 0 then [] else if s[0] in seps then Tokens(s[1..], seps)
    else
      var n := TokenLength(s, seps);
      [s[..n]] + Tokens(s[n..], seps)
  }

  /** A one-character delimiter is found where the first token ends. */
  lemma StrStrChar(s: string, c: char)
    ensures var n := TokenLength(s, [c]);
      StrStr(s, [c], 0) == if n < |s| then Some(n) else None
  {
    forall j: nat
      ensures OccursAt(s, [c], j) <==> j < |s| && s[j] == c
    {
      assert j < |s| ==> s[j..j + 1] == [s[j]];
    }
    hide StrStr, OccursAt, TokenLength;
    var n := TokenLength(s, [c]);
    if n < |s| {
      assert OccursAt(s, [c], n);
    }
  }

  /** With one separator character the tokens are the split words. */
  lemma {:induction false} TokensAreWords(s: string, c: char)
    ensures Tokens(s, [c]) == Words(s, [c])
    decreases |s|
  {
    hide StrStr, OccursAt, Words;
    WordsUnfold(s, [c]);
    StrStrChar(s, c);
    var n := TokenLength(s, [c]);
    if |s| > 0 {
      if n < |s| {
        TokensAreWords(s[n + 1..], c);
        assert s[n..][1..] == s[n + 1..];
      } else {
        assert s[..n] == s && |s[n..]| == 0;
      }
    }
  }

  lemma {:induction false} TokensNonEmptyFree(s: string, c: char)
    ensures forall i :: 0 <= i < |Tokens(s, [c])| ==> |Tokens(s, [c])[i]| > 0 && c !in Tokens(s, [c])[i]
    decreases |s|
  {
    if |s| > 0 {
      TokensNonEmptyFree(s[if s[0] == c then 1 else TokenLength(s, [c])..], c);
    }
  }

  /** strtok_r as a cursor: the next token, and where to go on. */
  method StrTok(s: string, seps: string, last: nat) returns (token: Option<string>, last': nat)
    requires last <= |s|
    ensures last <= last' <= |s|
    ensures token.None? ==> |Tokens(s[last..], seps)| == 0
    ensures token.Some? ==> |token.value| > 0 && last' > last
    ensures token.Some? ==> Tokens(s[last..], seps) == [token.value] + Tokens(s[last'..], seps)
  {
    var i := last;
    while i < |s| && s[i] in seps
      invariant last <= i <= |s|
      invariant Tokens(s[last..], seps) == Tokens(s[i..], seps)
    {
      assert s[i..][1..] == s[i + 1..];
      i := i + 1;
    }
    if i == |s| {
      return None, i;
    }
    var n := TokenLength(s[i..], seps);
    assert s[i..][n..] == s[i + n..];
    token := Some(s[i..][..n]);
    last' := i + n;
    if last' < |s| {
      assert s[last'..][1..] == s[last' + 1..];
      last' := last' + 1;  // past the separator that strtok_r overwrites with NUL
    }
  }

  /** atf_text_for_each_word: the callback's verdict depends on the words it has been given. */
  method ForEachWord(instr: string, sep: string, fails: seq<string> -> bool)
      returns (visited: seq<string>, err: bool)
    ensures visited <= Tokens(instr, sep)
    ensures err <==> |visited| > 0 && fails(visited)
    ensures forall n :: 0 < n < |visited| ==> !fails(visited[..n])
    ensures !err ==> visited == Tokens(instr, sep)
  {
    hide Tokens;
    visited, err := [], false;
    var str2, last := StrTok(instr, sep, 0);
    assert instr[0..] == instr;
    ghost var goal := Tokens(instr, sep);
    while str2.Some? && !err
      invariant last <= |instr|
      invariant visited + (if str2.None? then [] else [str2.value] + Tokens(instr[last..], sep)) == goal
      invariant err <==> |visited| > 0 && fails(visited)
      invariant forall n :: 0 < n < |visited| ==> !fails(visited[..n])
      decreases |instr| - last, str2.Some?
    {
      ghost var before := visited;
      visited := visited + [str2.value];
      assert forall n :: 0 < n <= |before| ==> visited[..n] == before[..n];
      assert before[..|before|] == before;
      assert before + ([str2.value] + Tokens(instr[last..], sep)) == visited + Tokens(instr[last..], sep);
      err := fails(visited);
      str2, last := StrTok(instr, sep, last);
    }
  }
}
