/** basename and dirname of contrib/atf-bmk/win/atfw-msvc.c, and their agreement with the leaf
    and the branch of a path. */
module Libgen {
  import opened Options
  import opened Strings
  import opened Text
  import opened Fs

  predicate IsSep(c: char) {
    c == '/' || c == '\\'
  }

  /** The nearest position at or before i that holds no separator, or 0. */
  function BackOverSeps(s: string, i: nat): (j: nat)
    requires i < |s|
    ensures j <= i && (j > 0 ==> !IsSep(s[j]))
  {
    if i > 0 && IsSep(s[i]) then BackOverSeps(s, i - 1) else i
  }

  /** The nearest position at or before i that holds a separator, or 0. */
  function BackOverName(s: string, i: nat): (j: nat)
    requires i < |s|
    ensures j <= i && (j > 0 ==> IsSep(s[j]))
  {
    if i > 0 && !IsSep(s[i]) then BackOverName(s, i - 1) else i
  }

  /** The start of the name (of the separators) that ends before i. */
  function NameStart(s: string, i: nat): (j: nat)
    requires i <= |s|
    ensures j <= i && (j > 0 ==> IsSep(s[j - 1]))
  {
    if i > 0 && !IsSep(s[i - 1]) then NameStart(s, i - 1) else i
  }

  function SepsStart(s: string, i: nat): (j: nat)
    requires i <= |s|
    ensures j <= i && (j > 0 ==> !IsSep(s[j - 1]))
  {
    if i > 0 && IsSep(s[i - 1]) then SepsStart(s, i - 1) else i
  }

  lemma {:induction false} BackOverSepsSkips(s: string, i: nat)
    requires i < |s|
    ensures forall k :: BackOverSeps(s, i) < k <= i ==> IsSep(s[k])
  {
    if i > 0 && IsSep(s[i]) {
      BackOverSepsSkips(s, i - 1);
    }
  }

  lemma {:induction false} BackOverNameSkips(s: string, i: nat)
    requires i < |s|
    ensures forall k :: BackOverName(s, i) < k <= i ==> !IsSep(s[k])
  {
    if i > 0 && !IsSep(s[i]) {
      BackOverNameSkips(s, i - 1);
    }
  }

  lemma {:induction false} NameStartSkips(s: string, i: nat)
    requires i <= |s|
    ensures forall k :: NameStart(s, i) <= k < i ==> !IsSep(s[k])
  {
    if i > 0 && !IsSep(s[i - 1]) {
      NameStartSkips(s, i - 1);
    }
  }

  lemma {:induction false} SepsStartSkips(s: string, i: nat)
    requires i <= |s|
    ensures forall k :: SepsStart(s, i) <= k < i ==> IsSep(s[k])
  {
    if i > 0 && IsSep(s[i - 1]) {
      SepsStartSkips(s, i - 1);
    }
  }

  function Basename(s: string): string {
    if |s| == 0 then "." else
      var end := BackOverSeps(s, |s| - 1);
      s[NameStart(s, end)..end + 1]
  }

  function Dirname(s: string): (r: string)
    ensures |r| > 0 && (|s| > 0 ==> |r| <= |s|)
  {
    if |s| == 0 then "." else
      var end := BackOverName(s, BackOverSeps(s, |s| - 1));
      if end == 0 && !IsSep(s[0]) then "." else
        var cut := SepsStart(s, end);
        s[..if cut == 0 then 1 else cut]
  }

  /** What the C functions return: the static ".", or a pointer into the path. */
  datatype Result = Dot | At(start: nat)

  ghost predicate HoldsString(path: array<char>, s: string)
    reads path
  {
    |s| < path.Length && path[..|s|] == s && path[|s|] == '\0' && NulFree(s)
  }

  /** The first loop of basename: trailing separators are overwritten with NULs. */
  method TrimSeps(path: array<char>, ghost s: string, len: nat) returns (end: nat)
    requires HoldsString(path, s) && len == |s| > 0
    modifies path
    ensures end == BackOverSeps(s, len - 1)
    ensures forall i :: 0 <= i <= len ==> path[i] == if i <= end then s[i] else '\0'
  {
    assert forall i :: 0 <= i < len ==> path[i] == path[..len][i] == s[i];
    end := len - 1;
    while end > 0 && IsSep(path[end])
      invariant end < len
      invariant BackOverSeps(s, end) == BackOverSeps(s, len - 1)
      invariant forall i :: 0 <= i <= end ==> path[i] == s[i]
      invariant forall i :: end < i <= len ==> path[i] == '\0'
    {
      path[end] := '\0';
      end := end - 1;
    }
  }

  /** basename; the path may be NULL */
  method BasenameC(path: array?<char>, ghost s: string, len: nat) returns (r: Result)
    requires path != null ==> HoldsString(path, s) && len == |s|
    modifies path
    ensures path == null ==> r.Dot?
    ensures path != null && r.Dot? ==> Basename(s) == "." && path[..] == old(path[..])
    ensures r.At? ==> path != null && r.start < len && CString(path[r.start..]) == Basename(s)
    ensures r.At? ==> forall i :: 0 <= i <= len ==>
      path[i] == if i <= BackOverSeps(s, len - 1) then s[i] else '\0'
  {
    hide CString, BackOverSeps, NameStart;
    if path == null || len == 0 {
      return Dot;
    }
    var start := NameIn(path, s, len);
    return At(start);
  }

  /** The loops of basename, on a path that is not empty. */
  method NameIn(path: array<char>, ghost s: string, len: nat) returns (start: nat)
    requires HoldsString(path, s) && len == |s| > 0
    modifies path
    ensures start < len && CString(path[start..]) == Basename(s)
    ensures forall i :: 0 <= i <= len ==>
      path[i] == if i <= BackOverSeps(s, len - 1) then s[i] else '\0'
  {
    hide CString, BackOverSeps, Basename;
    var end := TrimSeps(path, s, len);
    start := end;
    while start > 0 && !IsSep(path[start - 1])
      invariant 0 <= start <= end
      invariant NameStart(s, start) == NameStart(s, end)
    {
      start := start - 1;
    }
    ReadsBack(path, s, start, end + 1);
    BasenameAt(s, end, start);
  }

  lemma BasenameAt(s: string, end: nat, start: nat)
    requires |s| > 0 && end == BackOverSeps(s, |s| - 1) && start == NameStart(s, end)
    ensures Basename(s) == s[start..end + 1]
  {
  }

  lemma ReadsBack(path: array<char>, s: string, start: nat, end: nat)
    requires start <= end <= |s| < path.Length && path[end] == '\0' && NulFree(s)
    requires forall i :: start <= i < end ==> path[i] == s[i]
    ensures CString(path[start..]) == s[start..end]
  {
    assert path[start..][..end - start] == s[start..end];
    assert NulFree(s[start..end]) by {
      assert forall i :: start <= i < end ==> s[i] in s;
    }
    CStringIs(path[start..], s[start..end]);
  }

  /** dirname: the path, which may be NULL, is cut with one NUL. */
  method DirnameC(path: array?<char>, ghost s: string, len: nat) returns (r: Result)
    requires path != null ==> HoldsString(path, s) && len == |s|
    modifies path
    ensures path == null ==> r.Dot?
    ensures path != null && r.Dot? ==> Dirname(s) == "." && path[..] == old(path[..])
    ensures r.At? ==> path != null && len > 0 && r.start == 0 && CString(path[..]) == Dirname(s)
    ensures r.At? ==> path[..] == old(path[..])[|Dirname(s)| := '\0']
  {
    hide CString;
    if path == null || len == 0 {
      return Dot;
    }
    assert forall i :: 0 <= i < len ==> path[i] == path[..len][i] == s[i];
    var end := len - 1;
    while end > 0 && IsSep(path[end])
      invariant 0 <= end < len && BackOverSeps(s, end) == BackOverSeps(s, len - 1)
    {
      end := end - 1;
    }
    ghost var last := end;
    while end > 0 && !IsSep(path[end])
      invariant 0 <= end < len && BackOverName(s, end) == BackOverName(s, last)
    {
      end := end - 1;
    }
    if end == 0 && !IsSep(path[end]) {
      DirnameDot(s);
      return Dot;
    }
    ghost var sep := end;
    while end > 0 && IsSep(path[end - 1])
      invariant 0 <= end < len && SepsStart(s, end) == SepsStart(s, sep)
    {
      end := end - 1;
    }
    if end == 0 {
      end := end + 1;
    }
    path[end] := '\0';
    DirnameAt(s, sep, end);
    ReadsBack(path, s, 0, end);
    assert path[0..] == path[..] && s[0..end] == s[..end];
    return At(0);
  }

  lemma DirnameAt(s: string, sep: nat, end: nat)
    requires |s| > 0 && sep == BackOverName(s, BackOverSeps(s, |s| - 1)) && (sep > 0 || IsSep(s[0]))
    requires end == if SepsStart(s, sep) == 0 then 1 else SepsStart(s, sep)
    ensures Dirname(s) == s[..end]
  {
  }

  lemma DirnameDot(s: string)
    requires |s| > 0 ==> BackOverName(s, BackOverSeps(s, |s| - 1)) == 0 && !IsSep(s[0])
    ensures Dirname(s) == "."
  {
  }

  // ----- Agreement with the path functions -----

  predicate NoBackslash(s: string) {
    '\\' !in s
  }

  /** Slashes at the end add no component. */
  lemma {:induction false} TrailingSlashes(s: string, n: nat)
    requires n <= |s| && forall k :: n <= k < |s| ==> s[k] == '/'
    ensures Components(s) == Components(s[..n])
    decreases |s|
  {
    hide Tokens;
    if n < |s| {
      var t := s[..|s| - 1];
      assert s == t + "/" + "";
      TokensAppendSlash(t, "");
      NoComponentsIffSlashes("");
      TrailingSlashes(t, n);
      assert t[..n] == s[..n];
    } else {
      assert s[..n] == s;
    }
  }

  /** The text up to the end that both functions find: it ends in a name unless there is none. */
  lemma TextToName(s: string) returns (end: nat)
    requires |s| > 0 && NoBackslash(s)
    ensures end == BackOverSeps(s, |s| - 1)
    ensures Components(s[..end + 1]) == Components(s)
    ensures s[end] == '/' <==> AllSlashes(s)
    ensures AllSlashes(s) ==> end == 0
    ensures NoBackslash(s[..end + 1])
  {
    end := BackOverSeps(s, |s| - 1);
    BackOverSepsSkips(s, |s| - 1);
    assert forall k :: 0 <= k < |s| ==> s[k] in s;
    assert forall k :: end < k < |s| ==> s[k] == '/';
    TrailingSlashes(s, end + 1);
  }

  /** A path that ends in a name: the name, and what stands before its slash. */
  lemma LastName(t: string) returns (n: nat)
    requires |t| > 0 && NoBackslash(t) && t[|t| - 1] != '/'
    ensures n == NameStart(t, |t| - 1) && n < |t|
    ensures StrRChr(t, '/') == if n == 0 then None else Some(n - 1)
    ensures IsName(t[n..])
    ensures Components(t) == (if n == 0 then [] else Components(t[..n - 1])) + [t[n..]]
  {
    n := NameStart(t, |t| - 1);
    NameStartSkips(t, |t| - 1);
    assert forall k :: 0 <= k < |t| ==> t[k] in t;
    StrRChrIs(t, '/', n);
    if n == 0 {
      assert t[0..] == t;
      NameIsToken(t);
      assert Components(t) == [] + [t[n..]];
    } else {
      LastComponent(t, n - 1);
    }
  }

  lemma NameStartPrefix(s: string, t: string, i: nat)
    requires t <= s && i <= |t|
    ensures NameStart(s, i) == NameStart(t, i)
  {
    if i > 0 {
      NameStartPrefix(s, t, i - 1);
    }
  }

  /** The leaf of a normal path other than the root is its last component. */
  lemma LeafIsLast(p: string)
    requires Normal(p) && p != "/"
    ensures |Components(p)| > 0 && Leaf(p) == Components(p)[|Components(p)| - 1]
  {
    hide Tokens;
    var r := StrRChr(p, '/');
    if r.None? {
      NameIsToken(p);
    } else {
      LastComponent(p, r.value);
    }
  }

  /** basename is the leaf of the normal path, except for the root, whose leaf is empty. */
  lemma BasenameIsLeafIff(s: string)
    requires |s| > 0 && NoBackslash(s)
    ensures Basename(s) == Leaf(Normalize(s)) <==> !AllSlashes(s)
  {
    hide *;
    BasenameOfSeps(s);
    if AllSlashes(s) {
      NormalSlashes(s);
    } else {
      BasenameIsLast(s);
      NormalizeIsNormal(s);
      NormalizeKeeps(s);
      NotRoot(s);
      LeafIsLast(Normalize(s));
    }
  }

  lemma BasenameOfSeps(s: string)
    requires |s| > 0
    ensures |Basename(s)| > 0
  {
  }

  lemma NormalSlashes(t: string)
    requires |t| > 0 && AllSlashes(t)
    ensures Leaf(Normalize(t)) == ""
  {
    hide Tokens;
    NormalizeIsNormal(t);
    NormalizeKeeps(t);
    NoComponentsIffSlashes(t);
    NoComponentsIffSlashes(Normalize(t));
    NormalSlashesIsRoot(Normalize(t));
  }

  lemma NotRoot(s: string)
    requires |s| > 0 && !AllSlashes(s)
    ensures Normalize(s) != "/"
  {
    hide Tokens, Join;
    NormalizeKeeps(s);
    NoComponentsIffSlashes(s);
    NoComponentsIffSlashes(Normalize(s));
  }

  /** basename is the last component. */
  lemma BasenameIsLast(s: string)
    requires |s| > 0 && NoBackslash(s) && !AllSlashes(s)
    ensures |Components(s)| > 0 && Basename(s) == Components(s)[|Components(s)| - 1]
  {
    hide Tokens, BackOverSeps, NameStart, StrRChr;
    var end := TextToName(s);
    var t := s[..end + 1];
    var n := LastName(t);
    NameStartPrefix(s, t, end);
    assert Basename(s) == t[n..];
  }

  lemma {:induction false} NameBack(s: string, i: nat)
    requires i < |s| && !IsSep(s[i])
    ensures var n := NameStart(s, i); BackOverName(s, i) == if n == 0 then 0 else n - 1
  {
    if i > 0 && !IsSep(s[i - 1]) {
      NameBack(s, i - 1);
    }
  }

  /** With a name behind its slash at n - 1, dirname keeps the components in front. */
  lemma DirnameFront(s: string, end: nat, n: nat)
    requires end < |s| && end == BackOverSeps(s, |s| - 1) && NoBackslash(s) && s[end] != '/'
    requires 0 < n == NameStart(s, end)
    ensures Components(Dirname(s)) == Components(s[..n - 1])
    ensures Absolute(Dirname(s)) == Absolute(s) && (AllSlashes(s[..n - 1]) ==> Absolute(s))
  {
    hide Tokens, NameStart, SepsStart, BackOverSeps, BackOverName;
    var cut := SepsStart(s, n - 1);
    NameBack(s, end);
    assert Dirname(s) == s[..if cut == 0 then 1 else cut];
    FrontComponents(s, n - 1, cut);
  }

  lemma FrontComponents(s: string, n: nat, cut: nat)
    requires n < |s| && IsSep(s[n]) && cut == SepsStart(s, n) && NoBackslash(s)
    ensures Components(s[..if cut == 0 then 1 else cut]) == Components(s[..n])
    ensures AllSlashes(s[..n]) ==> Absolute(s)
  {
    hide Tokens, SepsStart;
    var front := s[..n];
    SepsStartSkips(s, n);
    assert forall k :: 0 <= k < |s| ==> s[k] in s;
    TrailingSlashes(front, cut);
    assert front[..cut] == s[..cut] && s[n] == '/';
    assert |front| > 0 ==> front[0] == s[0];
    if cut == 0 {
      NoComponentsIffSlashes("");
      NoComponentsIffSlashes("/");
      assert s[..1] == "/" && s[..0] == "";
    }
  }

  /** What dirname cuts off: the last component and the slashes around it. */
  lemma DirnameComponents(s: string) returns (name: string)
    requires |s| > 0 && NoBackslash(s) && !AllSlashes(s)
    ensures '/' in Normalize(s) ==>
      Absolute(Dirname(s)) == Absolute(s) && Components(s) == Components(Dirname(s)) + [name]
    ensures '/' !in Normalize(s) ==> Dirname(s) == "."
  {
    hide Tokens, StrRChr, NameStart, SepsStart, BackOverSeps, BackOverName;
    var end := TextToName(s);
    var t := s[..end + 1];
    var n := LastName(t);
    name := t[n..];
    NameStartPrefix(s, t, end);
    var q := Normalize(s);
    NormalizeIsNormal(s);
    NormalizeKeeps(s);
    if n == 0 {
      assert t[0] in t;
      NameBack(s, end);
      assert t[n..] == t;
      NameSlashFree(s, t, q);
    } else {
      DirnameFront(s, end, n);
      assert t[..n - 1] == s[..n - 1];
      if '/' !in q {
        SlashFreeName(q);
        NoComponentsIffSlashes(s[..n - 1]);
      }
    }
  }

  lemma NameSlashFree(s: string, t: string, q: string)
    requires |s| > 0 && IsName(t) && Components(s) == Components(t) && t[0] == s[0] && q == Normalize(s)
    ensures '/' !in q
  {
    assert t[0] in t && t[|t| - 1] in t;
    assert forall i :: 0 <= i < |t| ==> t[i] in t;
    assert Normal(t);
    NormalFormUnique(s, t);
  }

  /** A normal path without a slash is relative and has one component. */
  lemma SlashFreeName(q: string)
    requires Normal(q) && '/' !in q
    ensures |Components(q)| == 1 && !Absolute(q)
  {
    NameIsToken(q);
    assert q[0] in q;
  }

  /** dirname is the branch of the normal path: for any spelling of a path up to normalisation,
      and character for character when the path is normal. */
  lemma DirnameIsBranch(s: string)
    requires |s| > 0 && NoBackslash(s)
    ensures Normalize(Dirname(s)) == Branch(Normalize(s))
  {
    hide Tokens;
    var q := Normalize(s);
    var d := Dirname(s);
    NormalizeIsNormal(s);
    NormalizeKeeps(s);
    BranchAndLeaf(q);
    NoComponentsIffSlashes(s);
    NoComponentsIffSlashes(q);
    if AllSlashes(s) {
      var end := TextToName(s);
      NormalSlashesIsRoot(q);
      assert d == "/";
      NormalIffFixed("/");
    } else {
      var name := DirnameComponents(s);
      if '/' in q {
        var front := |Components(q)| - 1;
        assert (Components(Branch(q)) + [Leaf(q)])[..front] == Components(Branch(q));
        assert (Components(d) + [name])[..front] == Components(d);
        NormalFormUnique(d, Branch(q));
      } else {
        NormalIffFixed(".");
      }
    }
  }

  lemma DirnameOfNormal(p: string)
    requires Normal(p) && NoBackslash(p)
    ensures Dirname(p) == Branch(p)
  {
    hide Tokens, StrRChr, NameStart, BackOverName;
    assert forall k :: 0 <= k < |p| ==> p[k] in p;
    if p == "/" {
      StrRChrIs(p, '/', 1);
      assert BackOverSeps(p, 0) == 0 && SepsStart(p, 0) == 0;
    } else {
      var last := |p| - 1;
      assert BackOverSeps(p, last) == last;
      var n := LastName(p);
      NameBack(p, last);
      if n > 1 {
        assert p[n - 2] != '/';
      }
    }
  }

  // ----- With backslashes -----

  /** All scans see a backslash as a slash. */
  lemma {:induction false} ScansSlashed(s: string, i: nat)
    requires i < |s|
    ensures BackOverSeps(Slashes(s), i) == BackOverSeps(s, i)
    ensures BackOverName(Slashes(s), i) == BackOverName(s, i)
    ensures NameStart(Slashes(s), i) == NameStart(s, i)
    ensures SepsStart(Slashes(s), i) == SepsStart(s, i)
  {
    if i > 0 {
      ScansSlashed(s, i - 1);
    }
  }

  /** basename and dirname of a path with backslashes are, up to these, those of the path with every
      backslash made a slash. */
  lemma BasenameSlashed(s: string)
    requires |s| > 0
    ensures Basename(Slashes(s)) == Slashes(Basename(s))
  {
    hide BackOverSeps, NameStart, Slashes;
    var end := BackOverSeps(s, |s| - 1);
    ScansSlashed(s, |s| - 1);
    ScansSlashed(s, end);
    assert Basename(Slashes(s)) == Slashes(s)[NameStart(s, end)..end + 1];
    SlashesSlice(s, NameStart(s, end), end + 1);
  }

  lemma DirnameSlashed(s: string)
    requires |s| > 0
    ensures Dirname(Slashes(s)) == Slashes(Dirname(s))
  {
    hide BackOverSeps, BackOverName, SepsStart, Slashes;
    var end := BackOverName(s, BackOverSeps(s, |s| - 1));
    ScansSlashed(s, |s| - 1);
    ScansSlashed(s, BackOverSeps(s, |s| - 1));
    ScansSlashed(s, end);
    if end == 0 && !IsSep(s[0]) {
      assert Dirname(Slashes(s)) == ".";
      assert Slashes(".") == ".";
    } else {
      var cut := SepsStart(s, end);
      var n := if cut == 0 then 1 else cut;
      assert Dirname(Slashes(s)) == Slashes(s)[..n];
      SlashesSlice(s, 0, n);
    }
  }

  lemma SlashesSlice(s: string, lo: nat, hi: nat)
    requires lo <= hi <= |s|
    ensures Slashes(s)[lo..hi] == Slashes(s[lo..hi])
    ensures lo == 0 ==> Slashes(s)[..hi] == Slashes(s[..hi])
  {
  }

  lemma SlashesClean(s: string)
    ensures NoBackslash(Slashes(s))
    ensures '/' !in Slashes(s) ==> Slashes(s) == s
  {
    assert forall i :: 0 <= i < |s| ==> Slashes(s)[i] in Slashes(s);
  }

  /** For every path: basename is the leaf of the path with slashes only, except for separators
      alone, whose leaf is empty. */
  lemma BasenameOfAnyIff(s: string)
    requires |s| > 0
    ensures Basename(s) == Leaf(Normalize(Slashes(s))) <==> !AllSlashes(Slashes(s))
  {
    hide Basename, Normalize;
    var t := Slashes(s);
    SlashesClean(s);
    BasenameSlashed(s);
    BasenameIsLeafIff(t);
    SlashesClean(Basename(s));
    NormalizeIsNormal(t);
    if AllSlashes(t) {
      BasenameOfSeps(s);
      NormalSlashes(t);
    } else {
      LeafSlashFree(Normalize(t));
    }
  }

  lemma LeafSlashFree(p: string)
    ensures '/' !in Leaf(p)
  {
  }

  /** For every path: dirname is, up to its spelling, the branch of the path with slashes only. */
  lemma DirnameOfAny(s: string)
    requires |s| > 0
    ensures Normalize(Slashes(Dirname(s))) == Branch(Normalize(Slashes(s)))
  {
    SlashesClean(s);
    DirnameSlashed(s);
    hide *;
    DirnameIsBranch(Slashes(s));
  }

  // ----- Their exact text -----

  predicate AllSeps(s: string) {
    forall i :: 0 <= i < |s| ==> IsSep(s[i])
  }

  /** Every path but one of separators only: the name is between the last separators and those at the end;
      the directory is all in front of the separators before it, or the first of them when nothing is. */
  lemma NameAndDirectory(front: string, seps: string, name: string, tail: string)
    requires AllSeps(seps) && AllSeps(tail) && |name| > 0 && forall i :: 0 <= i < |name| ==> !IsSep(name[i])
    requires if |seps| == 0 then front == "" else |front| > 0 ==> !IsSep(front[|front| - 1])
    ensures var s := front + seps + name + tail;
      && Basename(s) == name
      && Dirname(s) == if |seps| == 0 then "." else if |front| == 0 then seps[..1] else front
  {
    hide BackOverSeps, BackOverName, NameStart, SepsStart;
    var s, start := front + seps + name + tail, |front| + |seps|;
    var end := start + |name| - 1;
    Regions(front, seps, name, tail);
    EndAndStart(s, start, end);
    assert Basename(s) == name;
    if |seps| > 0 {
      BeforeName(s, |front|, start, end);
    } else {
      FirstName(s, end);
    }
  }

  lemma EndAndStart(s: string, start: nat, end: nat)
    requires start <= end < |s| && (start > 0 ==> IsSep(s[start - 1]))
    requires forall k :: start <= k <= end ==> !IsSep(s[k])
    requires forall k :: end < k < |s| ==> IsSep(s[k])
    ensures BackOverSeps(s, |s| - 1) == end && NameStart(s, end) == start
  {
    hide IsSep, BackOverSeps, NameStart;
    assert !IsSep(s[end]);
    BackOverSepsSkips(s, |s| - 1);
    NameStartSkips(s, end);
  }

  lemma BeforeName(s: string, n: nat, start: nat, end: nat)
    requires n < start <= end < |s| && (n > 0 ==> !IsSep(s[n - 1]))
    requires forall k :: n <= k < start ==> IsSep(s[k])
    requires forall k :: start <= k <= end ==> !IsSep(s[k])
    ensures BackOverName(s, end) == start - 1 && SepsStart(s, start - 1) == n
  {
    hide IsSep, BackOverName, SepsStart;
    assert IsSep(s[start - 1]);
    BackOverNameSkips(s, end);
    SepsStartSkips(s, start - 1);
  }

  lemma FirstName(s: string, end: nat)
    requires end < |s| && forall k :: 0 <= k <= end ==> !IsSep(s[k])
    ensures BackOverName(s, end) == 0
  {
  }

  lemma Regions(front: string, seps: string, name: string, tail: string)
    ensures var s, n := front + seps + name + tail, |front| + |seps|;
      && |s| == n + |name| + |tail| && s[n..n + |name|] == name && s[..|front|] == front
      && (forall i :: 0 <= i < |front| ==> s[i] == front[i])
      && (forall i :: |front| <= i < n ==> s[i] == seps[i - |front|])
      && (forall i :: n <= i < n + |name| ==> s[i] == name[i - n])
      && (forall i :: n + |name| <= i < |s| ==> s[i] == tail[i - n - |name|])
      && (|front| == 0 && |seps| > 0 ==> s[..1] == seps[..1])
  {
  }

  /** Of separators only, both are the first one. */
  lemma OnlySeparators(s: string)
    requires |s| > 0 && AllSeps(s)
    ensures Basename(s) == s[..1] && Dirname(s) == s[..1]
  {
    hide BackOverSeps, BackOverName, NameStart, SepsStart;
    assert BackOverSeps(s, |s| - 1) == 0;
    assert SepsStart(s, 0) == 0;
  }
}
