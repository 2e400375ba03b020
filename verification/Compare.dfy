/** File comparison: atf-c/utils.c on POSIX, and the CRLF-tolerant one of
    contrib/atf-bmk/win/atfw-compat.c. */
module Compare {
  import opened Strings
  import opened Utils

  /** atf_utils_compare_file on POSIX. */
  method CompareFile(f: File, contents: string) returns (r: bool)
    requires f.offset == 0 && !f.failed && NulFree(contents)
    modifies f
    ensures f.failed ==> f.mayFail && !r
    ensures !f.failed ==> (r <==> f.contents == contents)
  {
    var pos, remaining := 0, |contents|;
    var buffer := new char[1024](_ => '\0');
    var count := f.Read(buffer, buffer.Length);
    while count > 0 && count <= remaining
      invariant -1 <= count <= buffer.Length && (count == -1 <==> f.failed) && (f.failed ==> f.mayFail)
      invariant 0 <= pos <= f.offset <= |f.contents| && pos <= |contents| && remaining == |contents| - pos
      invariant count >= 0 ==> f.offset == pos + count && buffer[..count] == f.contents[pos..f.offset]
      invariant count == 0 ==> pos == |f.contents|
      invariant f.contents[..pos] == contents[..pos]
      decreases count > 0, |f.contents| - f.offset, count
    {
      if contents[pos..pos + count] != buffer[..count] {
        assert f.contents[pos..pos + count] != contents[pos..pos + count];
        return false;
      }
      assert f.contents[..pos + count] == f.contents[..pos] + f.contents[pos..pos + count];
      assert contents[..pos + count] == contents[..pos] + contents[pos..pos + count];
      remaining := remaining - count;
      pos := pos + count;
      count := f.Read(buffer, buffer.Length);
    }
    assert count == 0 ==> f.contents[..pos] == f.contents;
    assert remaining == 0 ==> contents[..pos] == contents;
    r := count == 0 && remaining == 0;
  }

  // ----- The text with some of its LFs widened to CRLF -----

  /** The text where each LF that the mask selects is written as CRLF. */
  function Widen(text: string, mask: seq<bool>): string
    requires |mask| == |text|
  {
    if |text| == 0 then "" else
      (if text[0] == '\n' && mask[0] then "\r\n" else [text[0]]) + Widen(text[1..], mask[1..])
  }

  ghost predicate SameText(file: string, text: string) {
    exists mask: seq<bool> :: |mask| == |text| && Widen(text, mask) == file
  }

  /** The comparison loop on the rest of the file and of the expected text. */
  predicate Accepts(file: string, text: string, pendingCr: bool)
    decreases |file|
  {
    if |file| == 0 then !pendingCr && |text| == 0
    else if pendingCr && file[0] == '\n' && |text| > 0 && text[0] == '\n' then Accepts(file[1..], text[1..], false)
    else if pendingCr && (|text| == 0 || text[0] != '\r') then false
    else
      var t := if pendingCr then text[1..] else text;
      if file[0] == '\r' && (|t| == 0 || t[0] != '\r') then Accepts(file[1..], t, true)
      else if |t| == 0 || file[0] != t[0] then false
      else Accepts(file[1..], t[1..], false)
  }

  lemma {:induction false} WidenAccepted(text: string, mask: seq<bool>)
    requires |mask| == |text|
    ensures Accepts(Widen(text, mask), text, false)
  {
    var file := Widen(text, mask);
    if |text| > 0 {
      var rest := Widen(text[1..], mask[1..]);
      WidenAccepted(text[1..], mask[1..]);
      if text[0] == '\n' && mask[0] {
        assert file == "\r\n" + rest;
        assert file[1..][1..] == rest && file[1..][0] == '\n';
      } else {
        assert file == [text[0]] + rest;
        assert file[1..] == rest;
      }
    }
  }

  lemma {:induction false} AcceptedIsWidened(file: string, text: string) returns (mask: seq<bool>)
    requires Accepts(file, text, false)
    ensures |mask| == |text| && Widen(text, mask) == file
    decreases |file|
  {
    if |file| == 0 {
      mask := [];
    } else if file[0] == '\r' && (|text| == 0 || text[0] != '\r') {
      assert Accepts(file[1..], text, true);
      var rest := AcceptedIsWidened(file[1..][1..], text[1..]);
      mask := [true] + rest;
      assert mask[1..] == rest;
      assert file == "\r\n" + file[1..][1..];
    } else {
      var rest := AcceptedIsWidened(file[1..], text[1..]);
      mask := [false] + rest;
      assert mask[1..] == rest;
      assert file == [text[0]] + file[1..];
    }
  }

  /** The loop accepts exactly the text with some subset of its LFs written as CRLF. */
  lemma AcceptsIffSameText(file: string, text: string)
    ensures Accepts(file, text, false) <==> SameText(file, text)
  {
    if Accepts(file, text, false) {
      var mask := AcceptedIsWidened(file, text);
    }
    if SameText(file, text) {
      var mask: seq<bool> :| |mask| == |text| && Widen(text, mask) == file;
      WidenAccepted(text, mask);
    }
  }

  /** One buffer of the Windows comparison; file[done..] starts with it. */
  method CompareBuffer(buf: array<char>, n: nat, ghost file: string, ghost done: nat,
                       contents: string, c0: nat, pending0: bool)
      returns (differ: bool, c: nat, pendingCr: bool)
    requires done + n <= |file| && n <= buf.Length && buf[..n] == file[done..done + n] && c0 <= |contents|
    ensures differ ==> !Accepts(file[done..], contents[c0..], pending0)
    ensures !differ ==> c <= |contents|
    ensures !differ ==>
      Accepts(file[done + n..], contents[c..], pendingCr) == Accepts(file[done..], contents[c0..], pending0)
  {
    ghost var goal := Accepts(file[done..], contents[c0..], pending0);
    differ, c, pendingCr := false, c0, pending0;
    var i := 0;
    while i < n
      invariant 0 <= i <= n && c <= |contents|
      invariant Accepts(file[done + i..], contents[c..], pendingCr) == goal
    {
      assert buf[i] == buf[..n][i] == file[done + i];
      assert file[done + i..][1..] == file[done + i + 1..];
      assert c < |contents| ==> contents[c..][1..] == contents[c + 1..];
      if pendingCr {
        pendingCr := false;
        if buf[i] == '\n' && c < |contents| && contents[c] == '\n' {
          c := c + 1;
          i := i + 1;
          continue;
        }
        if !(c < |contents| && contents[c] == '\r') {
          return true, c, pendingCr;
        }
        c := c + 1;
        assert c < |contents| ==> contents[c..][1..] == contents[c + 1..];
      }
      if buf[i] == '\r' && !(c < |contents| && contents[c] == '\r') {
        pendingCr := true;
        i := i + 1;
        continue;
      }
      if c == |contents| || buf[i] != contents[c] {
        return true, c, pendingCr;
      }
      c := c + 1;
      i := i + 1;
    }
  }

  /** atf_utils_compare_file on Windows; the result does not depend on where reads divide the
      file, between CR and LF included. */
  method CompareFileCrlf(f: File, contents: string) returns (r: bool)
    requires f.offset == 0 && !f.failed && NulFree(contents)
    modifies f
    ensures f.failed ==> f.mayFail && !r
    ensures !f.failed ==> (r <==> SameText(f.contents, contents))
  {
    var buf := new char[4096](_ => '\0');
    var c, pendingCr := 0, false;
    ghost var goal := Accepts(f.contents, contents, false);
    AcceptsIffSameText(f.contents, contents);
    assert contents[0..] == contents && f.contents[0..] == f.contents;
    var n := f.Read(buf, buf.Length);
    ghost var done := 0;
    while n > 0
      invariant -1 <= n <= buf.Length && (n == -1 <==> f.failed) && (f.failed ==> f.mayFail)
      invariant 0 <= done <= f.offset <= |f.contents| && 0 <= c <= |contents|
      invariant n >= 0 ==> f.offset == done + n && buf[..n] == f.contents[done..f.offset]
      invariant n == 0 ==> done == |f.contents|
      invariant Accepts(f.contents[done..], contents[c..], pendingCr) == goal
      decreases n > 0, |f.contents| - f.offset, n
    {
      var differ;
      differ, c, pendingCr := CompareBuffer(buf, n, f.contents, done, contents, c, pendingCr);
      if differ {
        return false;
      }
      done := done + n;
      n := f.Read(buf, buf.Length);
    }
    r := n == 0 && !pendingCr && c == |contents|;
  }

  /** What the POSIX comparison accepts, the Windows one accepts too. */
  lemma PosixImpliesWindows(text: string)
    ensures SameText(text, text)
  {
    var mask := NoWiden(text);
  }

  lemma {:induction false} NoWiden(text: string) returns (mask: seq<bool>)
    ensures mask == seq(|text|, _ => false) && Widen(text, mask) == text
  {
    mask := seq(|text|, _ => false);
    if |text| > 0 {
      var rest := NoWiden(text[1..]);
      assert mask[1..] == rest;
    }
  }

  // ----- Against the comment on the Windows function -----

  function Lfs(text: string): nat {
    if |text| == 0 then 0 else (if text[0] == '\n' then 1 else 0) + Lfs(text[1..])
  }

  /** The comment above the function: exactly the text, or "\r\n" for each "\n". */
  predicate AsDocumented(file: string, text: string) {
    file == text || file == Widen(text, All(|text|))
  }

  function All(n: nat): (mask: seq<bool>)
    ensures |mask| == n && forall i :: 0 <= i < n ==> mask[i]
  {
    seq(n, _ => true)
  }

  lemma {:induction false} FewLfs(text: string, mask: seq<bool>)
    requires |mask| == |text| && Lfs(text) <= 1
    ensures Widen(text, mask) == text || Widen(text, mask) == Widen(text, All(|text|))
    ensures Lfs(text) == 0 ==> Widen(text, mask) == text
  {
    if |text| > 0 {
      FewLfs(text[1..], mask[1..]);
      FewLfs(text[1..], All(|text| - 1));
      assert All(|text|)[1..] == All(|text| - 1);
      assert text == [text[0]] + text[1..];
    }
  }

  lemma {:induction false} AllWidenedLength(text: string)
    ensures |Widen(text, All(|text|))| == |text| + Lfs(text)
  {
    if |text| > 0 {
      AllWidenedLength(text[1..]);
      assert All(|text|)[1..] == All(|text| - 1);
    }
  }

  lemma {:induction false} WidenFirst(text: string) returns (mask: seq<bool>)
    requires Lfs(text) > 0
    ensures |mask| == |text| && |Widen(text, mask)| == |text| + 1
  {
    var rest: seq<bool>;
    if text[0] == '\n' {
      rest := NoWiden(text[1..]);
    } else {
      rest := WidenFirst(text[1..]);
    }
    mask := [true] + rest;
    assert mask[1..] == rest;
  }

  /** The code accepts no more than its comment says exactly for texts of at most one line
      feed; with two, a file that mixes both line ends is accepted too. */
  lemma DocumentedIffFewLfs(text: string)
    ensures (forall file :: SameText(file, text) ==> AsDocumented(file, text)) <==> Lfs(text) <= 1
  {
    if Lfs(text) <= 1 {
      forall file | SameText(file, text)
        ensures AsDocumented(file, text)
      {
        var mask: seq<bool> :| |mask| == |text| && Widen(text, mask) == file;
        FewLfs(text, mask);
      }
    } else {
      var mask := WidenFirst(text);
      AllWidenedLength(text);
      assert SameText(Widen(text, mask), text) && !AsDocumented(Widen(text, mask), text);
    }
  }

  /** The shortest such file: the first of two line feeds written as CRLF. */
  lemma MixedIsAccepted()
    ensures SameText("\r\n\n", "\n\n") && !AsDocumented("\r\n\n", "\n\n")
  {
    var mask := [true, false];
    assert Widen("\n\n"[1..], mask[1..]) == "\n" by {
      assert "\n\n"[1..] == "\n" && mask[1..] == [false];
      assert "\n"[1..] == "" && [false][1..] == [];
    }
    assert Widen("\n\n", mask) == "\r\n" + "\n" == "\r\n\n";
    AllWidenedLength("\n\n");
    assert Lfs("\n\n"[1..]) == 1 by {
      assert "\n\n"[1..] == "\n" && "\n"[1..] == "";
    }
  }
}
