/** The chunked file readers of atf-c/utils.c and contrib/atf-bmk/win/atfw-compat.c. */
module Utils {
  import opened Options
  import opened Strings
  import D = Dynstr

  /** An open file. Each read returns any non-empty part of what is left, up to the size asked
      for; 0 at the end of the file only; or, on a file where reads may fail, -1 for an error. */
  class File {
    const contents: string
    const mayFail: bool
    var offset: nat
    var failed: bool

    constructor (contents: string, mayFail: bool)
      ensures this.contents == contents && this.mayFail == mayFail && offset == 0 && !failed
    {
      this.contents, this.mayFail := contents, mayFail;
      offset, failed := 0, false;
    }

    method Read(buf: array<char>, size: nat) returns (n: int)
      requires offset <= |contents| && 0 < size <= buf.Length
      modifies this, buf
      ensures -1 <= n <= size
      ensures n == -1 ==> mayFail && failed && offset == old(offset)
      ensures n >= 0 ==> failed == old(failed) && offset == old(offset) + n <= |contents|
      ensures n >= 0 ==> buf[..n] == contents[old(offset)..offset]
      ensures n == 0 <==> n >= 0 && old(offset) == |contents|
    {
      var rest := |contents| - offset;
      if mayFail {
        if * {
          failed := true;
          return -1;
        }
      }
      if rest == 0 {
        return 0;
      }
      n :| 1 <= n <= size && n <= rest;
      D.MemCpy(buf, 0, contents[offset..offset + n]);
      assert buf[..n] == buf[0..n];
      offset := offset + n;
    }
  }

  // ----- atf_utils_cat_file -----

  /** Every line of s behind the prefix; `fresh` says whether s starts a line. */
  function Prefixed(s: string, prefix: string, lineStart: bool): string {
    if |s| == 0 then "" else
      (if lineStart then prefix else "") + [s[0]] + Prefixed(s[1..], prefix, s[0] == '\n')
  }

  predicate EndsLine(s: string, lineStart: bool) {
    if |s| == 0 then lineStart else s[|s| - 1] == '\n'
  }

  lemma PrefixedCons(c: char, s: string, prefix: string, lineStart: bool)
    ensures Prefixed([c] + s, prefix, lineStart) ==
            (if lineStart then prefix else "") + [c] + Prefixed(s, prefix, c == '\n')
  {
    assert ([c] + s)[1..] == s;
  }

  lemma EndsLineCons(c: char, s: string, lineStart: bool)
    ensures EndsLine([c] + s, lineStart) == EndsLine(s, c == '\n')
  {
  }

  /** Prefixing does not depend on where the text is divided. */
  lemma {:induction false} PrefixedConcat(a: string, b: string, prefix: string, lineStart: bool)
    ensures Prefixed(a + b, prefix, lineStart) ==
            Prefixed(a, prefix, lineStart) + Prefixed(b, prefix, EndsLine(a, lineStart))
  {
    if |a| == 0 {
      assert a + b == b;
    } else {
      hide Prefixed, EndsLine;
      var c, rest := a[0], a[1..];
      assert [c] + rest == a && [c] + (rest + b) == a + b;
      EndsLineCons(c, rest, lineStart);
      PrefixedConcat(rest, b, prefix, c == '\n');
      PrefixedCons(c, rest, prefix, lineStart);
      PrefixedCons(c, rest + b, prefix, lineStart);
    }
  }

  /** A stretch without newlines gets the prefix once, if it starts a line and is not empty. */
  lemma {:induction false} PrefixedFragment(s: string, prefix: string, lineStart: bool)
    requires '\n' !in s
    ensures Prefixed(s, prefix, lineStart) == (if lineStart && |s| > 0 then prefix else "") + s
  {
    if |s| > 0 {
      assert s[0] in s && '\n' !in s[1..];
      PrefixedFragment(s[1..], prefix, false);
      assert s == [s[0]] + s[1..];
    }
  }

  lemma PrefixedLine(s: string, prefix: string, lineStart: bool)
    requires '\n' !in s
    ensures Prefixed(s + "\n", prefix, lineStart) == (if lineStart then prefix else "") + s + "\n"
  {
    PrefixedConcat(s, "\n", prefix, lineStart);
    PrefixedFragment(s, prefix, lineStart);
    assert "\n"[1..] == "";
    if |s| > 0 {
      assert s[|s| - 1] in s;
    } else {
      assert s == "";
    }
  }

  /** The text as lines, the last one possibly unterminated, each prefixed once. */
  lemma PrefixedLines(line: string, rest: string, prefix: string)
    requires '\n' !in line
    ensures Prefixed(line + "\n" + rest, prefix, true) == prefix + line + "\n" + Prefixed(rest, prefix, true)
    ensures Prefixed(line, prefix, true) == if |line| == 0 then "" else prefix + line
  {
    PrefixedLine(line, prefix, true);
    PrefixedFragment(line, prefix, true);
    PrefixedConcat(line + "\n", rest, prefix, true);
  }

  lemma {:induction false} PrefixedKeepsNul(s: string, prefix: string, lineStart: bool)
    requires !NulFree(s)
    ensures !NulFree(Prefixed(s, prefix, lineStart))
  {
    if s[0] != '\0' {
      assert s == [s[0]] + s[1..];
      PrefixedKeepsNul(s[1..], prefix, s[0] == '\n');
    }
  }

  /** Between two lines of a buffer: what is out is the prefixed text so far and, when more text
      follows, the prefix of its line. */
  ghost predicate Printed(text: string, more: bool, prefix: string, lineStart: bool, out: string, continued: bool) {
    && out == Prefixed(text, prefix, lineStart) + (if more && EndsLine(text, lineStart) then prefix else "")
    && (!more ==> EndsLine(text, lineStart) && !continued)
  }

  lemma LineTurn(text: string, line: string, more: bool, prefix: string, lineStart: bool, out: string, continued: bool)
    requires Printed(text, true, prefix, lineStart, out, continued) && '\n' !in line
    ensures Printed(text + (line + "\n"), more, prefix, lineStart,
                    out + line + "\n" + (if more then prefix else ""), continued && more)
  {
    hide Prefixed;
    PrefixedConcat(text, line + "\n", prefix, lineStart);
    PrefixedLine(line, prefix, EndsLine(text, lineStart));
    var was, head := Prefixed(text, prefix, lineStart), if EndsLine(text, lineStart) then prefix else "";
    assert was + (head + line + "\n") == was + head + line + "\n";
  }

  lemma FragmentTurn(text: string, part: string, prefix: string, lineStart: bool, out: string, continued: bool)
    requires Printed(text, true, prefix, lineStart, out, continued) && |part| > 0 && '\n' !in part
    ensures out + part == Prefixed(text + part, prefix, lineStart) && !EndsLine(text + part, lineStart)
  {
    hide Prefixed;
    PrefixedConcat(text, part, prefix, lineStart);
    PrefixedFragment(part, prefix, EndsLine(text, lineStart));
    assert part[|part| - 1] in part;
    var was, head := Prefixed(text, prefix, lineStart), if EndsLine(text, lineStart) then prefix else "";
    assert was + (head + part) == was + head + part;
  }

  /** The C string at iter in a buffer that still holds text from there on, and the first
      newline in it (strchr). */
  ghost predicate Sees(text: string, iter: nat, rest: string, end: nat) {
    && iter + |rest| <= |text| && text[iter..iter + |rest|] == rest && NulFree(rest)
    && end <= |rest| && '\n' !in rest[..end] && (end < |rest| ==> rest[end] == '\n')
    && (NulFree(text) ==> rest == text[iter..])
  }

  method NextLine(buffer: array<char>, ghost text: string, iter: nat) returns (rest: string, end: nat)
    requires iter <= |text| < buffer.Length && buffer[|text|] == '\0'
    requires forall i :: iter <= i < |text| ==> buffer[i] == text[i]
    ensures Sees(text, iter, rest, end)
  {
    hide CString, StrChr;
    rest := CString(buffer[iter..]);
    end := StrChr(rest, '\n');
    assert buffer[iter..][..|text| - iter] == text[iter..];
    BufferRest(buffer[iter..], |text| - iter);
    assert NulFree(text) ==> NulFree(text[iter..]);
    assert text[iter..][..|rest|] == text[iter..iter + |rest|];
  }

  /** One buffer of cat_file. The buffer holds a C string: a NUL in the file ends it early. */
  method CatBuffer(buffer: array<char>, count: nat, prefix: string, wasContinued: bool)
      returns (out: string, continued: bool)
    requires 0 < count < buffer.Length && buffer[count] == '\0'
    modifies buffer
    ensures NulFree(prefix) ==> NulFree(out)
    ensures NulFree(old(buffer[..count])) ==>
      && out == Prefixed(old(buffer[..count]), prefix, !wasContinued)
      && continued == !EndsLine(old(buffer[..count]), !wasContinued)
  {
    hide Prefixed, CString, StrChr, Printed, EndsLine;
    ghost var text, lineStart := buffer[..count], !wasContinued;
    ghost var clean := NulFree(text);
    continued := wasContinued;
    out := if !continued then prefix else "";
    NothingPrinted(prefix, lineStart, continued);
    assert text[..0] == "";
    var iter := 0;
    var rest, end := NextLine(buffer, text, iter);
    while end < |rest|
      invariant 0 <= end && Sees(text, iter, rest, end)
      invariant buffer[count] == '\0' && forall i :: iter <= i < count ==> buffer[i] == text[i]
      invariant NulFree(prefix) ==> NulFree(out)
      invariant clean ==> Printed(text[..iter], iter < count, prefix, lineStart, out, continued)
      decreases count - iter
    {
      SeenLine(text, iter, rest, end);
      if clean {
        LineTurn(text[..iter], rest[..end], iter + end + 1 < count, prefix, lineStart, out, continued);
      }
      buffer[iter + end] := '\0';
      out := out + rest[..end] + "\n";
      iter := iter + end + 1;
      if iter != count {
        out := out + prefix;
      } else {
        assert out + "" == out;
        continued := false;
      }
      rest, end := NextLine(buffer, text, iter);
    }
    if iter < count {
      if clean {
        FragmentTurn(text[..iter], rest, prefix, lineStart, out, continued);
        assert text[..iter] + text[iter..] == text;
      }
      out := out + rest;
      continued := true;
    } else if clean {
      assert text[..iter] == text;
      AllPrinted(text, prefix, lineStart, out, continued);
    }
  }

  lemma NothingPrefixed(prefix: string, lineStart: bool)
    ensures Prefixed("", prefix, lineStart) == ""
  {
  }

  lemma SeenLine(text: string, iter: nat, rest: string, end: nat)
    requires Sees(text, iter, rest, end) && end < |rest|
    ensures text[..iter + end + 1] == text[..iter] + (rest[..end] + "\n")
  {
    assert forall i :: 0 <= i < |rest| ==> rest[i] == text[iter + i];
  }

  lemma NothingPrinted(prefix: string, lineStart: bool, continued: bool)
    ensures Printed("", true, prefix, lineStart, if lineStart then prefix else "", continued)
  {
  }

  lemma AllPrinted(text: string, prefix: string, lineStart: bool, out: string, continued: bool)
    requires Printed(text, false, prefix, lineStart, out, continued)
    ensures out == Prefixed(text, prefix, lineStart) && EndsLine(text, lineStart) && !continued
  {
    hide Prefixed;
  }

  /** What the C string at the head of a terminated buffer is. */
  lemma {:induction false} BufferRest(buf: string, n: nat)
    requires n < |buf| && buf[n] == '\0'
    ensures |CString(buf)| <= n
    ensures NulFree(buf[..n]) ==> CString(buf) == buf[..n]
  {
    if n > 0 && buf[0] != '\0' {
      assert buf[1..][..n - 1] == buf[..n][1..];
      assert NulFree(buf[..n]) ==> NulFree(buf[..n][1..]);
      BufferRest(buf[1..], n - 1);
      assert [buf[0]] + buf[..n][1..] == buf[..n];
    } else if n > 0 {
      assert buf[..n][0] == '\0';
    }
  }

  /** atf_utils_cat_file. The output is the prefixed text, however the reads divide it, exactly
      when the file holds no NUL. */
  method CatFile(f: File, prefix: string) returns (out: string)
    requires f.offset == 0 && !f.failed && NulFree(prefix)
    modifies f
    ensures f.failed ==> f.mayFail
    ensures !f.failed ==> (out == Prefixed(f.contents, prefix, true) <==> NulFree(f.contents))
  {
    hide Prefixed;
    var buffer := new char[1024](_ => '\0');
    var continued := false;
    out := "";
    NothingPrefixed(prefix, true);
    var count := f.Read(buffer, buffer.Length - 1);
    ghost var done := 0;
    while count > 0
      invariant -1 <= count < buffer.Length
      invariant (count == -1 <==> f.failed) && (f.failed ==> f.mayFail)
      invariant 0 <= done <= f.offset <= |f.contents| && (count == 0 ==> done == |f.contents|)
      invariant count >= 0 ==> f.offset == done + count && buffer[..count] == f.contents[done..f.offset]
      invariant NulFree(out)
      invariant NulFree(f.contents) ==>
        out == Prefixed(f.contents[..done], prefix, true) && continued == !EndsLine(f.contents[..done], true)
      decreases count > 0, |f.contents| - f.offset, count
    {
      buffer[count] := '\0';
      ghost var chunk := f.contents[done..f.offset];
      assert buffer[..count] == chunk;
      PrefixedConcat(f.contents[..done], chunk, prefix, true);
      assert f.contents[..done] + chunk == f.contents[..f.offset];
      assert NulFree(f.contents) ==> NulFree(chunk);
      var printed;
      printed, continued := CatBuffer(buffer, count, prefix, continued);
      out := out + printed;
      done := f.offset;
      count := f.Read(buffer, buffer.Length - 1);
    }
    assert count == 0 ==> f.contents[..done] == f.contents;
    if !NulFree(f.contents) {
      PrefixedKeepsNul(f.contents, prefix, true);
    }
  }

  // ----- atf_utils_readline -----

  /** What appending each character with "%c" leaves: a NUL adds nothing. */
  function DropNul(s: string): (r: string)
    ensures NulFree(r) && (NulFree(s) ==> r == s)
  {
    if |s| == 0 then "" else
      var init, last := s[..|s| - 1], s[|s| - 1];
      assert s == init + [last];
      DropNul(init) + (if last == '\0' then "" else [last])
  }

  /** The line at the head of the rest of a file. */
  function LineAt(rest: string): Option<string> {
    var k := StrChr(rest, '\n');
    var text := DropNul(rest[..k]);
    if k == |rest| && |text| == 0 then None else Some(text)
  }

  function BehindLine(rest: string): nat {
    var k := StrChr(rest, '\n');
    if k < |rest| then k + 1 else k
  }

  lemma DropNulSnoc(s: string, c: char)
    ensures DropNul(s + [c]) == DropNul(s) + (if c == '\0' then "" else [c])
  {
    assert (s + [c])[..|s|] == s;
  }

  /** read(fd, &ch, 1) */
  method ReadByte(f: File, buf: array<char>) returns (cnt: int, ch: char)
    requires f.offset <= |f.contents| && buf.Length == 1
    modifies f, buf
    ensures -1 <= cnt <= 1
    ensures cnt == -1 ==> f.failed && f.mayFail
    ensures cnt >= 0 ==> f.failed == old(f.failed) && f.offset == old(f.offset) + cnt <= |f.contents|
    ensures cnt == 1 ==> ch == f.contents[old(f.offset)]
    ensures cnt == 0 ==> f.offset == |f.contents|
  {
    cnt := f.Read(buf, 1);
    ch := buf[0];
    assert cnt == 1 ==> buf[..1][0] == ch;
  }

  /** atf_utils_readline reads one byte at a time into a dynamic string. */
  method ReadLine(f: File) returns (line: Option<string>)
    requires f.offset <= |f.contents| && !f.failed
    modifies f
    ensures f.failed ==> f.mayFail
    ensures !f.failed ==> line == LineAt(f.contents[old(f.offset)..])
    ensures !f.failed ==> f.offset == old(f.offset) + BehindLine(f.contents[old(f.offset)..])
  {
    hide D.Dynstr.Valid, D.Dynstr.View, DropNul, StrChr;
    var temp := new D.Dynstr();
    var buf := new char[1](_ => '\0');
    ghost var rest := f.contents[f.offset..];
    ghost var seen := "";
    NoNul();
    var cnt, ch := ReadByte(f, buf);
    while cnt == 1 && ch != '\n'
      invariant -1 <= cnt <= 1 && (cnt == -1 <==> f.failed) && (f.failed ==> f.mayFail)
      invariant |seen| <= |rest| && rest[..|seen|] == seen && '\n' !in seen
      invariant !f.failed ==> f.offset == old(f.offset) + |seen| + cnt <= |f.contents|
      invariant cnt == 1 ==> ch == rest[|seen|]
      invariant cnt == 0 ==> |seen| == |rest|
      invariant temp.Valid() && fresh(temp) && fresh(temp.data) && temp.data != buf
      invariant temp.View() == DropNul(seen)
      decreases |rest| - |seen|, cnt
    {
      temp.Append(if ch == '\0' then "" else [ch]);
      DropNulSnoc(seen, ch);
      assert DropNul(seen) + "" == DropNul(seen);
      seen := seen + [ch];
      cnt, ch := ReadByte(f, buf);
    }
    line := if cnt == 0 && temp.length == 0 then None else Some(temp.CStr());
    if !f.failed {
      StrChrAt(rest, '\n', |seen|);
    }
  }

  lemma NoNul()
    ensures DropNul("") == ""
  {
  }

  lemma StrChrAt(s: string, c: char, i: nat)
    requires i <= |s| && c !in s[..i] && (i < |s| ==> s[i] == c)
    ensures StrChr(s, c) == i
  {
    assert forall k :: 0 <= k < i ==> s[k] == s[..i][k];
  }

  /** The lines that repeated calls return before the first NULL. */
  function ReadAll(s: string): (ls: seq<string>)
    decreases |s|
  {
    var line := LineAt(s);
    if line.None? then [] else [line.value] + (if |s| == 0 then [] else ReadAll(s[BehindLine(s)..]))
  }

  lemma {:induction false} DropNulConcat(a: string, b: string)
    ensures DropNul(a + b) == DropNul(a) + DropNul(b)
  {
    hide DropNul;
    NoNul();
    if |b| == 0 {
      assert b == "" && a + b == a;
      assert DropNul(a) + "" == DropNul(a);
    } else {
      var init, last := b[..|b| - 1], b[|b| - 1];
      var kept := if last == '\0' then "" else [last];
      assert b == init + [last] && a + b == a + init + [last];
      DropNulConcat(a, init);
      DropNulSnoc(a + init, last);
      DropNulSnoc(init, last);
      assert DropNul(a) + DropNul(init) + kept == DropNul(a) + (DropNul(init) + kept);
    }
  }

  lemma {:induction false} DropNulKeeps(s: string, c: char)
    requires c != '\0'
    ensures c in DropNul(s) <==> c in s
  {
    if |s| > 0 {
      var init, last := s[..|s| - 1], s[|s| - 1];
      DropNulKeeps(init, c);
      assert s == init + [last];
    }
  }

  lemma ReadAllCons(line: string, rest: string)
    requires '\n' !in line
    ensures ReadAll(line + "\n" + rest) == [DropNul(line)] + ReadAll(rest)
    ensures ReadAll(line) == if |DropNul(line)| == 0 then [] else [DropNul(line)]
  {
    hide DropNul;
    var s := line + "\n" + rest;
    NoNul();
    StrChrAt(line, '\n', |line|);
    assert line[..|line|] == line && line[|line|..] == "";
    assert LineAt("") == None && ReadAll("") == [];
    assert s[|line|] == '\n' && s[..|line|] == line && s[|line| + 1..] == rest;
    StrChrAt(s, '\n', |line|);
  }

  /** The lines are the text cut at its newlines, and lose at most a final one. */
  predicate CutAtNewlines(s: string, lines: seq<string>) {
    && (forall i :: 0 <= i < |lines| ==> '\n' !in lines[i])
    && (|lines| == 0 <==> |s| == 0)
    && s == Join(lines, "\n") + (if |s| > 0 && s[|s| - 1] == '\n' then "\n" else "")
  }

  lemma CutAtNewlinesCons(line: string, rest: string, lines: seq<string>)
    requires '\n' !in line && CutAtNewlines(rest, lines)
    ensures CutAtNewlines(line + "\n" + rest, [line] + lines)
  {
    var s := line + "\n" + rest;
    JoinFirst(line, lines, "\n");
    assert |rest| > 0 ==> s[|s| - 1] == rest[|rest| - 1];
    if |rest| > 0 {
      assert line + "\n" + (Join(lines, "\n") + (if rest[|rest| - 1] == '\n' then "\n" else "")) ==
        line + "\n" + Join(lines, "\n") + (if rest[|rest| - 1] == '\n' then "\n" else "");
    } else {
      assert s[|s| - 1] == '\n';
    }
  }

  /** The lines that are read are those of the text without its NULs. */
  lemma {:induction false} ReadAllRebuilds(s: string)
    ensures CutAtNewlines(DropNul(s), ReadAll(s))
    decreases |s|
  {
    hide ReadAll, DropNul, CutAtNewlines, StrChr;
    var k := StrChr(s, '\n');
    var line := s[..k];
    DropNulKeeps(line, '\n');
    if k < |s| {
      var rest := s[k + 1..];
      assert s == line + "\n" + rest;
      ReadAllRebuilds(rest);
      ReadAllCons(line, rest);
      DropNulLine(line, rest);
      CutAtNewlinesCons(DropNul(line), DropNul(rest), ReadAll(rest));
    } else {
      assert line == s;
      ReadAllCons(s, "");
      CutOneLine(DropNul(s));
    }
  }

  lemma DropNulLine(line: string, rest: string)
    ensures DropNul(line + "\n" + rest) == DropNul(line) + "\n" + DropNul(rest)
  {
    DropNulConcat(line + "\n", rest);
    DropNulSnoc(line, '\n');
  }

  lemma CutOneLine(s: string)
    requires '\n' !in s
    ensures CutAtNewlines(s, if |s| == 0 then [] else [s])
  {
    assert |s| > 0 ==> s[|s| - 1] in s;
  }

  lemma JoinFirst(w: string, ws: seq<string>, sep: string)
    ensures Join([w] + ws, sep) == if |ws| == 0 then w else w + sep + Join(ws, sep)
  {
    assert ([w] + ws)[1..] == ws;
  }
}
