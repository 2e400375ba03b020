/** The Some/None datatype; None stands for a C NULL pointer throughout. */
module Options {
  datatype Option<+T> = None | Some(value: T)

  /** A NULL-terminated C array as a sequence: every element, then the NULL. */
  function NullTerminated<T>(s: seq<T>): (r: seq<Option<T>>)
    ensures |r| == |s| + 1 && r[|s|] == None
    ensures forall i :: 0 <= i < |s| ==> r[i] == Some(s[i])
  {
    seq(|s|, i requires 0 <= i < |s| => Some(s[i])) + [None]
  }

  /** The positions of the true flags, in order: all of them, and no others. */
  function Where(flags: seq<bool>): (at: seq<nat>)
    ensures |at| <= |flags|
    ensures forall k :: 0 <= k < |at| ==> at[k] < |flags| && flags[at[k]]
    ensures forall j, k :: 0 <= j < k < |at| ==> at[j] < at[k]
    ensures forall i :: 0 <= i < |flags| && flags[i] ==> i in at
  {
    if |flags| == 0 then [] else
      var n := |flags| - 1;
      var front := Where(flags[..n]);
      assert forall i :: 0 <= i < n && flags[..n][i] ==> i in front;
      if flags[n] then front + [n] else front
  }

  lemma {:induction false} WhereNone(flags: seq<bool>)
    requires forall i :: 0 <= i < |flags| ==> !flags[i]
    ensures Where(flags) == []
  {
    if |flags| > 0 {
      WhereNone(flags[..|flags| - 1]);
    }
  }

  lemma WhereSnoc(flags: seq<bool>, flag: bool)
    ensures Where(flags + [flag]) == if flag then Where(flags) + [|flags|] else Where(flags)
  {
    assert (flags + [flag])[..|flags|] == flags;
  }
}
