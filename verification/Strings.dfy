/** The C string searches the program relies on, by what they find. */
module Strings {
  import opened Options

  predicate NulFree(s: string) {
    '\0' !in s
  }

  /** The part of a buffer that a C string function sees: up to the first NUL. */
  function CString(buf: string): (s: string)
    ensures NulFree(s) && s <= buf
    ensures |s| < |buf| ==> buf[|s|] == '\0'
    ensures NulFree(buf) <==> s == buf
  {
    if buf == [] || buf[0] == '\0' then [] else [buf[0]] + CString(buf[1..])
  }

  /** A NUL-free text with a NUL behind it is what a C string function sees. */
  lemma {:induction false} CStringIs(buf: string, s: string)
    requires |s| < |buf| && buf[..|s|] == s && buf[|s|] == '\0' && NulFree(s)
    ensures CString(buf) == s
  {
    if |s| > 0 {
      assert buf[0] == s[0] && s[0] in s;
      assert buf[1..][..|s| - 1] == s[1..];
      CStringIs(buf[1..], s[1..]);
    }
  }

  /** Every backslash made a slash. */
  function Slashes(s: string): (r: string)
    ensures |r| == |s| && forall i :: 0 <= i < |s| ==> r[i] == if s[i] == '\\' then '/' else s[i]
  {
    seq(|s|, i requires 0 <= i < |s| => if s[i] == '\\' then '/' else s[i])
  }

  /** d occurs in s at position i. */
  predicate OccursAt(s: string, d: string, i: nat) {
    i + |d| <= |s| && s[i..i + |d|] == d
  }

  /** strstr: the leftmost occurrence of d in s at or after `from`. */
  function StrStr(s: string, d: string, from: nat): (r: Option<nat>)
    requires from <= |s|
    ensures r.Some? ==> from <= r.value <= r.value + |d| <= |s| && OccursAt(s, d, r.value)
    ensures forall j :: from <= j && (r.Some? ==> j < r.value) ==> !OccursAt(s, d, j)
    decreases |s| - from
  {
    if OccursAt(s, d, from) then Some(from)
    else if from == |s| then None
    else StrStr(s, d, from + 1)
  }

  /** strchr: the first position of c, or |s|. */
  function StrChr(s: string, c: char): (i: nat)
    ensures i <= |s| && c !in s[..i] && (i < |s| ==> s[i] == c)
    ensures i == |s| <==> c !in s
  {
    if s == [] || s[0] == c then 0 else
      var i := StrChr(s[1..], c) + 1;
      assert s[..i] == [s[0]] + s[1..][..i - 1];
      i
  }

  lemma {:induction false} StrChrBehind(key: string, c: char, value: string)
    requires c !in key
    ensures StrChr(key + [c] + value, c) == |key|
  {
    var arg := key + [c] + value;
    if |key| > 0 {
      assert arg[1..] == key[1..] + [c] + value;
      StrChrBehind(key[1..], c, value);
      assert arg[0] == key[0];
    }
  }

  /** The last position of c, if any. */
  function StrRChr(s: string, c: char): (r: Option<nat>)
    ensures r.Some? ==> r.value < |s| && s[r.value] == c && c !in s[r.value + 1..]
    ensures r.None? <==> c !in s
  {
    if |s| == 0 then None
    else if s[|s| - 1] == c then Some(|s| - 1)
    else
      assert s == s[..|s| - 1] + [s[|s| - 1]];
      StrRChr(s[..|s| - 1], c)
  }

  lemma StrRChrIs(s: string, c: char, pos: nat)
    requires pos <= |s| && c !in s[pos..] && (pos > 0 ==> s[pos - 1] == c)
    ensures StrRChr(s, c) == if pos == 0 then None else Some(pos - 1)
  {
    assert s[0..] == s;
  }

  function Join(words: seq<string>, sep: string): string {
    if words == [] then [] else if |words| == 1 then words[0] else words[0] + sep + Join(words[1..], sep)
  }
}
