/** atf_fs_path_t: paths held in dynamic strings, worked on as atf-c/detail/fs.c does. */
module FsPath {
  import opened Options
  import opened Strings
  import opened Text
  import opened Fs
  import D = Dynstr

  lemma JoinSnoc(ws: seq<string>, w: string, sep: string)
    ensures Join(ws + [w], sep) == if |ws| == 0 then w else Join(ws, sep) + sep + w
  {
    if |ws| == 0 {
      assert ws + [w] == [w];
    } else {
      JoinConcat(ws, [w], sep);
    }
  }

  lemma {:induction false} TokensNulFree(s: string, seps: string)
    requires NulFree(s)
    ensures forall i :: 0 <= i < |Tokens(s, seps)| ==> NulFree(Tokens(s, seps)[i])
    decreases |s|
  {
    if |s| > 0 {
      TokensNulFree(s[if s[0] in seps then 1 else TokenLength(s, seps)..], seps);
    }
  }

  /** normalize, on a fresh dynamic string: strtok_r hands over the components one by one. */
  method NormalizeAp(p: string) returns (d: D.Dynstr)
    requires |p| > 0 && NulFree(p)
    ensures d.Valid() && fresh(d) && fresh(d.data)
    ensures d.View() == Normalize(p)
  {
    hide Tokens, Join, D.Dynstr.Valid, D.Dynstr.View;
    d := new D.Dynstr();
    if p[0] == '/' {
      d.Append("/");
    }
    var first := true;
    ghost var done: seq<string> := [];
    ghost var all := Components(p);
    ghost var root := Root(Absolute(p));
    assert p[0..] == p;
    TokensNulFree(p, "/");
    JoinNone("/");
    var ptr, last := StrTok(p, "/", 0);
    while ptr.Some?
      invariant last <= |p| && d.Valid() && fresh(d) && fresh(d.data)
      invariant first <==> |done| == 0
      invariant d.View() == root + Join(done, "/")
      invariant done + (if ptr.None? then [] else [ptr.value] + Components(p[last..])) == all
      decreases |p| - last, ptr.Some?
    {
      assert all[|done|] == ptr.value;
      d.Append((if first then "" else "/") + ptr.value);
      JoinSnoc(done, ptr.value, "/");
      assert root + Join(done, "/") + ("/" + ptr.value) == root + (Join(done, "/") + "/" + ptr.value);
      assert root + "" + ("" + ptr.value) == root + ptr.value;
      assert done + ([ptr.value] + Components(p[last..])) == done + [ptr.value] + Components(p[last..]);
      done := done + [ptr.value];
      first := false;
      ptr, last := StrTok(p, "/", last);
    }
    assert done == all;
  }

  lemma JoinNone(sep: string)
    ensures Join([], sep) == ""
  {
  }

  /** atf_fs_path_append_ap */
  method AppendAp(p: D.Dynstr, text: string)
    requires p.Valid() && |text| > 0 && NulFree(text)
    modifies p, p.data
    ensures p.Valid() && p.View() == AppendPath(old(p.View()), text)
    ensures p.data == old(p.data) || fresh(p.data)
  {
    var aux := NormalizeAp(text);
    NormalizeIsNormal(text);
    var auxstr := aux.data[..aux.length];
    assert auxstr == aux.View();
    var needslash := auxstr[0] != '/';
    p.Append((if needslash then "/" else "") + auxstr);
    assert old(p.View()) + ((if needslash then "/" else "") + auxstr) == AppendPath(old(p.View()), text);
  }

  /** atf_fs_path_branch_path */
  method BranchPath(p: D.Dynstr) returns (bp: D.Dynstr)
    requires p.Valid()
    ensures bp.Valid() && fresh(bp) && fresh(bp.data)
    ensures bp.View() == Branch(p.View())
  {
    var endpos := p.RFindCh('/');
    if endpos.None? {
      bp := NormalizeAp(".");
      NameIsToken(".");
    } else if endpos.value == 0 {
      bp := NormalizeAp("/");
      NoComponentsIffSlashes("/");
    } else {
      bp := new D.Dynstr.InitSubstr(p, 0, endpos);
    }
  }

  /** atf_fs_path_leaf_name */
  method LeafName(p: D.Dynstr) returns (ln: D.Dynstr)
    requires p.Valid()
    ensures ln.Valid() && fresh(ln) && fresh(ln.data)
    ensures ln.View() == Leaf(p.View())
  {
    var begpos := p.RFindCh('/');
    ln := new D.Dynstr.InitSubstr(p, if begpos.None? then 0 else begpos.value + 1, None);
    assert p.View()[0..p.length] == p.View();
  }
}
