/** The path algebra of atf-c/detail/fs.c. */
module Fs {
  import opened Options
  import opened Strings
  import opened Text

  /** The components of a path: its maximal runs of non-slashes. */
  function Components(p: string): seq<string> {
    Tokens(p, "/")
  }

  predicate Absolute(p: string) {
    |p| > 0 && p[0] == '/'
  }

  predicate Letter(c: char) {
    'A' <= c <= 'Z' || 'a' <= c <= 'z'
  }

  /** C:/ and what is below it */
  predicate OnLetter(p: string) {
    |p| > 2 && Letter(p[0]) && p[1] == ':' && p[2] == '/'
  }

  /** atf_fs_path_is_absolute: the POSIX rule of fs.c, and the one that replaces it on Windows. */
  predicate IsAbsolute(p: string, windows: bool) {
    Absolute(p) || (windows && OnLetter(p))
  }

  function Root(absolute: bool): string {
    if absolute then "/" else ""
  }

  /** normalize */
  function Normalize(p: string): string {
    Root(Absolute(p)) + Join(Components(p), "/")
  }

  /** Normal form, seen from the outside: no empty component but the one before a leading slash. */
  predicate Normal(p: string) {
    && |p| > 0
    && (forall i :: 0 <= i < |p| - 1 ==> !(p[i] == '/' && p[i + 1] == '/'))
    && (p[|p| - 1] == '/' ==> p == "/")
  }

  predicate IsName(c: string) {
    |c| > 0 && '/' !in c
  }

  // ----- What tokens of joined and of sliced strings are -----

  lemma {:induction false} TokensAppendSlash(a: string, b: string)
    ensures Components(a + "/" + b) == Components(a) + Components(b)
    decreases |a|
  {
    var s := a + "/" + b;
    if |a| == 0 {
      assert s[1..] == b;
    } else if a[0] == '/' {
      assert s[1..] == a[1..] + "/" + b;
      TokensAppendSlash(a[1..], b);
    } else {
      var n := TokenLength(a, "/");
      TokenLengthPrefix(a, "/" + b);
      assert s == a + ("/" + b);
      assert s[n..] == a[n..] + "/" + b && s[..n] == a[..n];
      TokensAppendSlash(a[n..], b);
    }
  }

  /** The first token of a + t ends inside a, or where t starts with a slash. */
  lemma {:induction false} TokenLengthPrefix(a: string, t: string)
    requires |t| > 0 && t[0] == '/'
    ensures TokenLength(a + t, "/") == TokenLength(a, "/")
  {
    if |a| > 0 && a[0] != '/' {
      assert (a + t)[1..] == a[1..] + t;
      TokenLengthPrefix(a[1..], t);
    }
  }

  /** The first component of a relative path, and the rest of them behind its slash. */
  lemma FirstComponent(p: string)
    requires |p| > 0 && !Absolute(p)
    ensures var n := TokenLength(p, "/");
      Components(p) == [p[..n]] + (if n < |p| then Components(p[n + 1..]) else [])
  {
    var n := TokenLength(p, "/");
    if n < |p| {
      assert p[n..][0] == '/' && p[n..][1..] == p[n + 1..];
      assert Tokens(p[n..], "/") == Tokens(p[n + 1..], "/");
    } else {
      assert Tokens(p[n..], "/") == [];
    }
  }

  lemma NameIsToken(c: string)
    requires IsName(c)
    ensures Components(c) == [c]
  {
    var n := TokenLength(c, "/");
    assert c[0] in c;
    FirstComponent(c);
    assert c[..n] == c;
  }

  lemma {:induction false} ComponentsOfJoin(cs: seq<string>)
    requires forall i :: 0 <= i < |cs| ==> IsName(cs[i])
    ensures Components(Join(cs, "/")) == cs
  {
    if |cs| == 1 {
      NameIsToken(cs[0]);
    } else if |cs| > 1 {
      TokensAppendSlash(cs[0], Join(cs[1..], "/"));
      NameIsToken(cs[0]);
      ComponentsOfJoin(cs[1..]);
    }
  }

  lemma ComponentsAreNames(p: string)
    ensures forall i :: 0 <= i < |Components(p)| ==> IsName(Components(p)[i])
  {
    TokensNonEmptyFree(p, '/');
  }

  /** A relative join does not start or end with a slash and has no doubled one. */
  lemma {:induction false} JoinNormal(cs: seq<string>)
    requires |cs| > 0 && forall i :: 0 <= i < |cs| ==> IsName(cs[i])
    ensures var s := Join(cs, "/"); Normal(s) && s[0] != '/' && s[|s| - 1] != '/'
  {
    if |cs| > 1 {
      JoinNormal(cs[1..]);
      var c, t := cs[0], Join(cs[1..], "/");
      var s := Join(cs, "/");
      assert s == c + "/" + t;
      forall i | 0 <= i < |s| - 1
        ensures !(s[i] == '/' && s[i + 1] == '/')
      {
        if i > |c| {
          assert s[i] == t[i - |c| - 1] && s[i + 1] == t[i - |c|];
        } else if i == |c| {
          assert s[i + 1] == t[0];
        } else {
          assert s[i] == c[i];
        }
      }
    }
  }

  // ----- Normal form -----

  /** Normalising keeps the components and absoluteness... */
  lemma NormalizeKeeps(p: string)
    requires |p| > 0
    ensures Components(Normalize(p)) == Components(p)
    ensures Absolute(Normalize(p)) == Absolute(p)
  {
    var cs := Components(p);
    ComponentsAreNames(p);
    ComponentsOfJoin(cs);
    var j := Join(cs, "/");
    if Absolute(p) {
      assert ("/" + j)[1..] == j;
    } else {
      assert "" + j == j;
      RelativeHasComponent(p);
      JoinNormal(cs);
    }
  }

  lemma RelativeHasComponent(p: string)
    requires |p| > 0 && !Absolute(p)
    ensures |Components(p)| > 0
  {
  }

  /** ...and yields a normal form... */
  lemma NormalizeIsNormal(p: string)
    requires |p| > 0
    ensures Normal(Normalize(p))
  {
    var cs := Components(p);
    ComponentsAreNames(p);
    var j := Join(cs, "/");
    if |cs| > 0 {
      JoinNormal(cs);
      var s := "/" + j;
      forall i | 0 <= i < |s| - 1
        ensures !(s[i] == '/' && s[i + 1] == '/')
      {
        if i > 0 {
          assert s[i] == j[i - 1] && s[i + 1] == j[i];
        }
      }
      assert "" + j == j;
    } else {
      assert "/" + j == "/";
    }
  }

  /** ...which it leaves alone: a path is normal exactly when normalising does not change it. */
  lemma NormalIffFixed(p: string)
    requires |p| > 0
    ensures Normal(p) <==> Normalize(p) == p
  {
    NormalizeIsNormal(p);
    if Normal(p) {
      if p == "/" {
        assert p[1..] == "" && Components(p) == [];
      } else if Absolute(p) {
        var t := p[1..];
        NormalBehindSlash(p, 0);
        NormalRelativeFixed(t);
        assert p == "/" + t;
      } else {
        NormalRelativeFixed(p);
        assert "" + p == p;
      }
    }
  }

  /** Behind an inner slash a normal path goes on with a relative normal path. */
  lemma NormalBehindSlash(p: string, n: nat)
    requires Normal(p) && n < |p| && p[n] == '/' && p != "/"
    ensures var t := p[n + 1..]; Normal(t) && !Absolute(t)
  {
    var t := p[n + 1..];
    forall i | 0 <= i < |t| - 1
      ensures !(t[i] == '/' && t[i + 1] == '/')
    {
      assert t[i] == p[n + 1 + i] && t[i + 1] == p[n + 1 + i + 1];
    }
    assert n + 1 < |p| && t[|t| - 1] == p[|p| - 1];
  }

  lemma JoinCons(c: string, cs: seq<string>, sep: string)
    requires |cs| > 0
    ensures Join([c] + cs, sep) == c + sep + Join(cs, sep)
  {
    assert ([c] + cs)[1..] == cs;
  }

  lemma {:induction false} NormalRelativeFixed(p: string)
    requires Normal(p) && !Absolute(p)
    ensures Join(Components(p), "/") == p
    decreases |p|
  {
    hide Tokens, Join;
    var n := TokenLength(p, "/");
    FirstComponent(p);
    if n == |p| {
      assert p[..n] == p && Components(p) == [p];
      JoinOne(p, "/");
    } else {
      var t := p[n + 1..];
      NormalBehindSlash(p, n);
      NormalRelativeFixed(t);
      RelativeHasComponent(t);
      JoinCons(p[..n], Components(t), "/");
      assert p == p[..n] + "/" + t;
    }
  }

  lemma JoinOne(c: string, sep: string)
    ensures Join([c], sep) == c
  {
  }

  lemma NormalizeIdempotent(p: string)
    requires |p| > 0
    ensures Normalize(Normalize(p)) == Normalize(p)
  {
    NormalizeIsNormal(p);
    NormalIffFixed(Normalize(p));
  }

  /** The normal form is the only normal path with the same components and absoluteness. */
  lemma NormalFormUnique(p: string, q: string)
    requires |p| > 0 && Normal(q)
    ensures q == Normalize(p) <==> Components(q) == Components(p) && Absolute(q) == Absolute(p)
  {
    NormalizeKeeps(p);
    NormalIffFixed(q);
  }

  // ----- Append -----

  /** atf_fs_path_append_ap */
  function AppendPath(p: string, q: string): string
    requires |q| > 0
  {
    NormalizeIsNormal(q);
    var aux := Normalize(q);
    p + (if aux[0] != '/' then "/" else "") + aux
  }

  predicate AllSlashes(q: string) {
    forall i :: 0 <= i < |q| ==> q[i] == '/'
  }

  lemma {:induction false} NoComponentsIffSlashes(q: string)
    ensures Components(q) == [] <==> AllSlashes(q)
  {
    if |q| > 0 && q[0] == '/' {
      NoComponentsIffSlashes(q[1..]);
      assert AllSlashes(q) <==> AllSlashes(q[1..]) by {
        assert forall i :: 1 <= i < |q| ==> q[i] == q[1..][i - 1];
      }
    }
  }

  lemma {:induction false} JoinConcat(a: seq<string>, b: seq<string>, sep: string)
    requires |a| > 0 && |b| > 0
    ensures Join(a + b, sep) == Join(a, sep) + sep + Join(b, sep)
  {
    if |a| == 1 {
      assert a == [a[0]];
      JoinCons(a[0], b, sep);
    } else {
      JoinConcat(a[1..], b, sep);
      assert (a + b)[1..] == a[1..] + b;
      assert a[0] + sep + (Join(a[1..], sep) + sep + Join(b, sep)) ==
        a[0] + sep + Join(a[1..], sep) + sep + Join(b, sep);
    }
  }

  lemma NormalSlashesIsRoot(p: string)
    requires Normal(p) && AllSlashes(p)
    ensures p == "/"
  {
    assert p[0] == '/' && p[|p| - 1] == '/';
  }

  /** Appending slashes leaves one trailing slash... */
  lemma AppendSlashes(p: string, q: string)
    requires |p| > 0 && |q| > 0 && AllSlashes(q)
    ensures AppendPath(p, q) == p + "/" && !Normal(AppendPath(p, q))
  {
    NormalizeIsNormal(q);
    NormalizeKeeps(q);
    NoComponentsIffSlashes(q);
    NoComponentsIffSlashes(Normalize(q));
    NormalSlashesIsRoot(Normalize(q));
    assert p + "" + "/" == p + "/";
  }

  /** ...and appending to the root doubles its slash. */
  lemma AppendToRoot(q: string)
    requires |q| > 0
    ensures !Normal(AppendPath("/", q))
  {
    NormalizeIsNormal(q);
    var a := AppendPath("/", q);
    assert a[0] == '/' && a[1] == '/';
  }

  /** Otherwise the appended path is the normal form of the two with a slash between. */
  lemma AppendIsNormalize(p: string, q: string)
    requires Normal(p) && |q| > 0 && p != "/" && !AllSlashes(q)
    ensures AppendPath(p, q) == Normalize(p + "/" + q)
  {
    hide Tokens, Join;
    var cp, cq := Components(p), Components(q);
    NoComponentsIffSlashes(p);
    NoComponentsIffSlashes(q);
    if AllSlashes(p) {
      NormalSlashesIsRoot(p);
    }
    NormalIffFixed(p);
    TokensAppendSlash(p, q);
    JoinConcat(cp, cq, "/");
    var jp, jq := Join(cp, "/"), Join(cq, "/");
    AppendNamed(p, q);
    assert Root(Absolute(p)) + jp + "/" + jq == Root(Absolute(p)) + (jp + "/" + jq);
  }

  lemma AppendNamed(p: string, q: string)
    requires |q| > 0 && |Components(q)| > 0
    ensures AppendPath(p, q) == p + "/" + Join(Components(q), "/")
  {
    hide Tokens, Join;
    var jq := Join(Components(q), "/");
    NormalizeIsNormal(q);
    ComponentsAreNames(q);
    JoinNormal(Components(q));
    assert Normalize(q) == if Absolute(q) then "/" + jq else jq;
    assert p + "" + ("/" + jq) == p + "/" + jq;
  }

  /** Appending equals normalising p/q exactly when p is not the root and q names something. */
  lemma AppendIff(p: string, q: string)
    requires Normal(p) && |q| > 0
    ensures AppendPath(p, q) == Normalize(p + "/" + q) <==> p != "/" && !AllSlashes(q)
  {
    NormalizeIsNormal(p + "/" + q);
    if AllSlashes(q) {
      AppendSlashes(p, q);
    } else if p == "/" {
      AppendToRoot(q);
    } else {
      AppendIsNormalize(p, q);
    }
  }

  // ----- Branch and leaf -----

  /** atf_fs_path_branch_path */
  function Branch(p: string): string {
    match StrRChr(p, '/')
    case None => "."
    case Some(endpos) => if endpos == 0 then "/" else p[..endpos]
  }

  /** atf_fs_path_leaf_name */
  function Leaf(p: string): string {
    match StrRChr(p, '/')
    case None => p
    case Some(begpos) => p[begpos + 1..]
  }

  /** Behind the last slash stands the last component. */
  lemma LastComponent(p: string, i: nat)
    requires StrRChr(p, '/') == Some(i) && i < |p| - 1
    ensures Components(p) == Components(p[..i]) + [p[i + 1..]]
  {
    hide Tokens, StrRChr;
    assert p == p[..i] + "/" + p[i + 1..];
    TokensAppendSlash(p[..i], p[i + 1..]);
    NameIsToken(p[i + 1..]);
  }

  /** Branch is a normal path; its components and the leaf are the path's components exactly
      when the path has a slash and is not the root. */
  lemma BranchAndLeaf(p: string)
    requires Normal(p)
    ensures Normal(Branch(p))
    ensures '/' in p ==> Absolute(Branch(p)) == Absolute(p)
    ensures Components(Branch(p)) + [Leaf(p)] == Components(p) <==> '/' in p && p != "/"
  {
    hide Tokens, StrRChr;
    var r := StrRChr(p, '/');
    if r.None? {
      NameIsToken(p);
      NameIsToken(".");
    } else if p == "/" {
      NoComponentsIffSlashes("/");
    } else {
      var i := r.value;
      LastComponent(p, i);
      NoComponentsIffSlashes("/");
      NoComponentsIffSlashes("");
      assert i > 0 ==> p[i - 1] != '/';
      assert forall j :: 0 <= j < i ==> p[..i][j] == p[j];
      assert i == 0 ==> p[..i] == "";
    }
  }

  // ----- Drive letters -----

  /** The normal form of a path on a drive; the drive alone loses its slash. */
  lemma LetterNormalize(d: char, rest: string)
    requires Letter(d)
    ensures Normalize([d] + ":/" + rest) ==
            if AllSlashes(rest) then [d] + ":" else [d] + ":/" + Join(Components(rest), "/")
  {
    hide Tokens, Join;
    var p := [d] + ":/" + rest;
    assert p == [d] + ":" + "/" + rest;
    TokensAppendSlash([d] + ":", rest);
    NameIsToken([d] + ":");
    NoComponentsIffSlashes(rest);
    JoinOne([d] + ":", "/");
    if AllSlashes(rest) {
      assert [[d] + ":"] + [] == [[d] + ":"];
    } else {
      JoinCons([d] + ":", Components(rest), "/");
      assert [d] + ":" + "/" + Join(Components(rest), "/") == [d] + ":/" + Join(Components(rest), "/");
    }
    assert "" + Normalize(p) == Normalize(p);
  }

  /** So a path on a drive stays absolute, by the Windows rule, exactly when it names something there. */
  lemma LetterAbsoluteIff(d: char, rest: string)
    requires Letter(d)
    ensures IsAbsolute([d] + ":/" + rest, true)
    ensures IsAbsolute(Normalize([d] + ":/" + rest), true) <==> !AllSlashes(rest)
  {
    LetterNormalize(d, rest);
    hide Normalize, Join, Tokens;
  }

  /** The letters of a drive are the Latin ones in both cases. */
  lemma LetterIs(c: char)
    ensures Letter(c) <==> c in "ABCDEFGHIJKLMNOPQRSTUVWXYZ" || c in "abcdefghijklmnopqrstuvwxyz"
  {
    var upper, lower := "ABCDEFGHIJKLMNOPQRSTUVWXYZ", "abcdefghijklmnopqrstuvwxyz";
    assert forall i :: 0 <= i < 26 ==> upper[i] as int == 'A' as int + i && lower[i] as int == 'a' as int + i;
    if 'A' <= c <= 'Z' {
      assert upper[c as int - 'A' as int] == c;
    } else if 'a' <= c <= 'z' {
      assert lower[c as int - 'a' as int] == c;
    }
  }

  /** A path is absolute when it starts with a slash, or, on Windows only, with a drive and a slash. */
  lemma IsAbsoluteIs(p: string)
    ensures IsAbsolute(p, false) <==> exists rest :: p == "/" + rest
    ensures IsAbsolute(p, true) <==>
            (exists rest :: p == "/" + rest) || (exists d, rest :: Letter(d) && p == [d] + ":/" + rest)
  {
    if Absolute(p) {
      assert p == "/" + p[1..];
    }
    if OnLetter(p) {
      assert p == [p[0]] + ":/" + p[3..];
    }
  }

  /** Branch and leaf are cut at the last slash; without one the branch is the current directory, and
      the branch of a name under the root is the root. */
  lemma CutAtLastSlash(a: string, name: string)
    requires '/' !in name
    ensures Leaf(a + "/" + name) == name && Leaf(name) == name
    ensures Branch(a + "/" + name) == if a == "" then "/" else a
    ensures Branch(name) == "."
  {
    hide StrRChr;
    var p := a + "/" + name;
    assert p[|a| + 1..] == name && p[..|a|] == a && name[0..] == name;
    StrRChrIs(p, '/', |a| + 1);
    StrRChrIs(name, '/', 0);
  }
}
