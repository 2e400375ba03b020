/** The doubly linked list of atf-c/detail/list.c: two sentinels hold NULL, the entries
    between them hold the data, and every entry is linked in both directions. */
module AtfList {
  import opened Options

  /** A malloc'ed list entry. The ghost field says whether free() has not seen it yet. */
  class Entry<T> {
    var prev: Entry?<T>
    var next: Entry?<T>
    const data: Option<T>
    const managed: bool
    ghost var live: bool

    constructor (data: Option<T>, managed: bool)
      ensures prev == null && next == null && live
      ensures this.data == data && this.managed == managed
    {
      this.prev, this.next := null, null;
      this.data, this.managed := data, managed;
      live := true;
    }

    /** delete_entry: frees the entry, and the object when the list manages it. */
    method Delete() returns (released: seq<T>)
      requires live
      modifies `live
      ensures !live
      ensures released == Released(this)
    {
      released := if managed && data.Some? then [data.value] else [];
      live := false;
    }
  }

  /** The objects that deleting an entry frees along with it. */
  function Released<T>(e: Entry<T>): seq<T> {
    if e.managed && e.data.Some? then [e.data.value] else []
  }

  function ReleasedAll<T>(es: seq<Entry<T>>): seq<T> {
    if es == [] then [] else ReleasedAll(es[..|es| - 1]) + Released(es[|es| - 1])
  }

  /** atf_list_iter_t: equality compares both fields. */
  datatype Iter<T> = Iter(list: List<T>, entry: Entry?<T>) {
    function Next(): Iter<T>
      requires entry != null
      reads entry
    {
      Iter(list, entry.next)
    }

    function Data(): Option<T>
      requires entry != null
    {
      entry.data
    }
  }

  /** Distinct, unfreed entries linked to their neighbours in both directions. */
  ghost predicate Chain<T>(es: seq<Entry<T>>)
    reads es
  {
    && (forall i :: 0 <= i < |es| ==> es[i].live)
    && (forall i {:trigger es[i].next} :: 0 <= i < |es| - 1 ==> es[i].next == es[i + 1])
    && (forall i {:trigger es[i].prev} :: 0 < i < |es| ==> es[i].prev == es[i - 1])
    && (forall i, j :: 0 <= i < j < |es| ==> es[i] != es[j])
  }

  lemma ChainConcat<T>(a: seq<Entry<T>>, b: seq<Entry<T>>)
    requires Chain(a) && Chain(b) && a != [] && b != []
    requires a[|a| - 1].next == b[0] && b[0].prev == a[|a| - 1]
    requires forall n :: n in a ==> n !in b
    ensures Chain(a + b)
  {
    var es := a + b;
    forall i | 0 <= i < |es| - 1
      ensures es[i].next == es[i + 1] && es[i + 1].prev == es[i]
    {
      if i >= |a| {
        assert es[i] == b[i - |a|] && es[i + 1] == b[i - |a| + 1];
      }
    }
    forall i, j | 0 <= i < j < |es|
      ensures es[i] != es[j]
    {
      if i < |a| <= j {
        assert es[i] in a && es[j] == b[j - |a|];
      }
    }
  }

  lemma ChainSlice<T>(es: seq<Entry<T>>, lo: nat, hi: nat)
    requires lo <= hi <= |es| && Chain(es)
    ensures Chain(es[lo..hi])
  {
    var s := es[lo..hi];
    forall i | 0 <= i < |s| - 1
      ensures s[i].next == s[i + 1] && s[i + 1].prev == s[i]
    {
      assert s[i] == es[lo + i] && s[i + 1] == es[lo + i + 1];
    }
  }

  /** Ties the last entry of one chain to the first of another. */
  method Tie<T>(e1: Entry<T>, e2: Entry<T>, ghost front: seq<Entry<T>>, ghost back: seq<Entry<T>>)
    requires Chain(front) && Chain(back) && front != [] && back != []
    requires e1 == front[|front| - 1] && e2 == back[0]
    requires forall n :: n in front ==> n !in back
    modifies e1`next, e2`prev
    ensures Chain(front + back)
    ensures e1.next == e2 && e2.prev == e1
  {
    assert e1 in front && e2 in back;
    e1.next := e2;
    e2.prev := e1;
    ChainConcat(front, back);
  }

  /** new_entry_and_link: a new entry between two chains. */
  method NewEntryAndLink<T>(data: T, managed: bool, prev: Entry<T>, next: Entry<T>,
                            ghost front: seq<Entry<T>>, ghost back: seq<Entry<T>>) returns (le: Entry<T>)
    requires Chain(front) && Chain(back) && front != [] && back != []
    requires prev == front[|front| - 1] && next == back[0]
    requires forall n :: n in front ==> n !in back
    modifies prev`next, next`prev
    ensures fresh(le) && le.data == Some(data) && le.managed == managed
    ensures Chain(front + [le] + back) && next.prev == le
  {
    assert prev in front && next in back;
    le := new Entry(Some(data), managed);
    le.prev := prev;
    le.next := next;
    prev.next := le;
    next.prev := le;
    ChainConcat(front, [le]);
    ChainConcat(front + [le], back);
  }

  lemma InnerOfSplice<T>(a: seq<T>, b: seq<T>)
    requires |a| >= 2 && |b| >= 2
    ensures (a[..|a| - 1] + b[1..])[1..|a| + |b| - 3] == a[1..|a| - 1] + b[1..|b| - 1]
  {
  }

  lemma AllData<T>(a: seq<Entry<T>>, b: seq<Entry<T>>)
    requires |a| >= 2 && |b| >= 2
    requires forall i :: 0 < i < |a| - 1 ==> a[i].data.Some?
    requires forall i :: 0 < i < |b| - 1 ==> b[i].data.Some?
    ensures var n := a[..|a| - 1] + b[1..];
      n[0] == a[0] && n[|n| - 1] == b[|b| - 1] && forall i :: 0 < i < |n| - 1 ==> n[i].data.Some?
  {
  }

  /** The pointer work of atf_list_append_list: ghost1 ends the first chain and ghost2 starts
      the second; both are freed and their neighbours tied together. */
  method Splice<T>(ghost1: Entry<T>, ghost2: Entry<T>, e1: Entry<T>, e2: Entry<T>,
                   ghost first: seq<Entry<T>>, ghost second: seq<Entry<T>>)
    requires Chain(first) && Chain(second) && |first| >= 2 && |second| >= 2
    requires ghost1 == first[|first| - 1] && ghost2 == second[0]
    requires e1 == first[|first| - 2] && e2 == second[1]
    requires forall n :: n in first ==> n !in second
    modifies ghost1`live, ghost2`live, e1`next, e2`prev
    ensures !ghost1.live && !ghost2.live
    ensures Chain(first[..|first| - 1] + second[1..])
  {
    ghost var front, back := first[..|first| - 1], second[1..];
    ChainSlice(first, 0, |first| - 1);
    ChainSlice(second, 1, |second|);
    assert ghost1 in first && ghost2 in second;
    forall i | 0 <= i < |front|
      ensures front[i] in first && front[i] != ghost1
    {
      assert front[i] == first[i];
    }
    forall i | 0 <= i < |back|
      ensures back[i] in second && back[i] != ghost2
    {
      assert back[i] == second[i + 1];
    }
    var _ := ghost1.Delete();
    var _ := ghost2.Delete();
    Tie(e1, e2, front, back);
  }

  class List<T> {
    var begin: Entry<T>
    var end: Entry<T>
    var size: nat
    /** Every entry in order, the two sentinels included. */
    ghost var nodes: seq<Entry<T>>

    ghost predicate Valid()
      reads this, nodes
      ensures Valid() ==> |nodes| == size + 2 && nodes[size + 1] == end && end.prev == nodes[size]
      ensures Valid() ==> nodes[0] == begin && begin.next == nodes[1]
    {
      && |nodes| == size + 2
      && nodes[0] == begin && nodes[|nodes| - 1] == end
      && begin.prev == null && end.next == null
      && begin.data == None && end.data == None
      && Chain(nodes)
      && (forall i :: 0 < i < |nodes| - 1 ==> nodes[i].data.Some?)
    }

    /** The data, in order. */
    ghost function View(): (s: seq<T>)
      requires Valid()
      reads this, nodes
      ensures |s| == size
    {
      DataOf(nodes[1..|nodes| - 1])
    }

    /** atf_list_init */
    constructor ()
      ensures Valid() && View() == []
      ensures forall i :: 0 <= i < |nodes| ==> fresh(nodes[i]) && !nodes[i].managed
    {
      var lebeg := new Entry<T>(None, false);
      var leend := new Entry<T>(None, false);
      lebeg.next := leend;
      lebeg.prev := null;
      leend.next := null;
      leend.prev := lebeg;
      size := 0;
      begin := lebeg;
      end := leend;
      nodes := [lebeg, leend];
    }

    /** atf_list_fini: one walk over the next links frees every entry, sentinels included. */
    method Fini() returns (freed: nat, released: seq<T>)
      requires Valid()
      modifies nodes`live
      ensures freed == size + 2
      ensures forall n :: n in nodes ==> !n.live
      ensures released == ReleasedAll(nodes)
    {
      var le: Entry?<T> := begin;
      freed, released := 0, [];
      while le != null
        invariant freed <= |nodes|
        invariant le == if freed < |nodes| then nodes[freed] else null
        invariant forall i :: 0 <= i < freed ==> !nodes[i].live
        invariant forall i :: freed <= i < |nodes| ==> nodes[i].live
        invariant released == ReleasedAll(nodes[..freed])
        decreases |nodes| - freed
      {
        var lenext := le.next;
        var gone := le.Delete();
        released := released + gone;
        assert nodes[..freed + 1][..freed] == nodes[..freed];
        le := lenext;
        freed := freed + 1;
      }
      assert nodes[..freed] == nodes;
    }

    /** atf_list_begin, atf_list_end */
    function Begin(): Iter<T>
      reads this, begin
    {
      Iter(this, begin.next)
    }

    function End(): Iter<T>
      reads this
    {
      Iter(this, end)
    }

    /** atf_list_index */
    method Index(idx: nat) returns (data: Option<T>)
      requires Valid() && idx < size
      ensures data == Some(View()[idx])
    {
      var iter := Begin();
      var pos := 0;
      while pos < idx && iter != End()
        invariant pos <= idx
        invariant iter == Iter(this, nodes[pos + 1])
      {
        iter := iter.Next();
        pos := pos + 1;
      }
      data := iter.Data();
    }

    /** atf_list_append */
    method Append(data: T, managed: bool)
      requires Valid()
      modifies this`size, this`nodes, end`prev, end.prev`next
      ensures Valid() && begin == old(begin) && end == old(end)
      ensures View() == old(View()) + [data]
      ensures end.prev != null && fresh(end.prev) && end.prev.managed == managed
      ensures nodes == old(nodes[..size + 1]) + [end.prev, end]
    {
      hide DataOf, Chain;
      var next := end;
      var prev := next.prev;
      assert prev == nodes[size];
      ghost var front := nodes[..size + 1];
      ChainSlice(nodes, 0, size + 1);
      ChainSlice(nodes, size + 1, size + 2);
      assert nodes[size + 1..size + 2] == [next];
      var le := NewEntryAndLink(data, managed, prev, next, front, [next]);
      nodes := front + [le] + [next];
      size := size + 1;
    }

    /** atf_list_append_list: the end sentinel of this list and the begin sentinel of src are
        freed, and the two chains are joined where they stood. */
    method AppendList(src: List<T>)
      requires Valid() && src.Valid()
      requires forall n :: n in nodes ==> n !in src.nodes
      modifies this, end`live, src.begin`live, end.prev`next, src.begin.next`prev
      ensures Valid() && begin == old(begin) && end == old(src.end)
      ensures View() == old(View()) + old(src.View())
      ensures size == old(size) + old(src.size)
      ensures nodes == old(nodes[..size + 1]) + old(src.nodes[1..])
      ensures !old(end).live && !old(src.begin).live
    {
      hide DataOf, Chain;
      var ghost1 := end;
      var ghost2 := src.begin;
      var e1 := ghost1.prev;
      var e2 := ghost2.next;
      assert e1 == nodes[size] && e2 == src.nodes[1];
      Splice(ghost1, ghost2, e1, e2, nodes, src.nodes);
      nodes := nodes[..size + 1] + src.nodes[1..];
      end := src.end;
      size := size + src.size;
      InnerOfSplice(old(nodes), old(src.nodes));
      AllData(old(nodes), old(src.nodes));
    }
  }

  ghost function DataOf<T>(es: seq<Entry<T>>): (s: seq<T>)
    requires forall i :: 0 <= i < |es| ==> es[i].data.Some?
    ensures |s| == |es| && forall i :: 0 <= i < |es| ==> s[i] == es[i].data.value
  {
    seq(|es|, i requires 0 <= i < |es| => es[i].data.value)
  }

  /** atf_list_to_charpp and the list_to_array copies: the elements, then NULL. */
  method ToCharpp<T>(l: List<T>) returns (a: array<Option<T>>)
    requires l.Valid()
    ensures fresh(a) && a[..] == NullTerminated(l.View())
  {
    a := new Option<T>[l.size + 1](_ => None);
    var iter := l.Begin();
    var i := 0;
    while iter != l.End()
      invariant i <= l.size
      invariant iter == Iter(l, l.nodes[i + 1])
      invariant a[..i] == NullTerminated(l.View())[..i]
      decreases l.size - i
    {
      a[i] := iter.Data();
      i := i + 1;
      iter := iter.Next();
    }
    a[i] := None;
  }

  /** The entries whose object the list frees. */
  function ManagedFlags<T>(es: seq<Entry<T>>): (flags: seq<bool>)
    ensures |flags| == |es|
    ensures forall i :: 0 <= i < |es| ==> flags[i] == (es[i].managed && es[i].data.Some?)
  {
    seq(|es|, i requires 0 <= i < |es| => es[i].managed && es[i].data.Some?)
  }

  /** out is the data of the entries at these places. */
  ghost predicate DataAt<T>(es: seq<Entry<T>>, at: seq<nat>, out: seq<T>) {
    |out| == |at| && forall k :: 0 <= k < |at| ==> at[k] < |es| && es[at[k]].data == Some(out[k])
  }

  lemma DataAtSnoc<T>(es: seq<Entry<T>>, at: seq<nat>, out: seq<T>, last: Entry<T>)
    requires DataAt(es, at, out)
    ensures DataAt(es + [last], at, out)
    ensures last.data.Some? ==> DataAt(es + [last], at + [|es|], out + [last.data.value])
  {
  }

  /** What is released along with entries is the data of exactly the managed ones, in order. */
  lemma {:induction false} ReleasedIs<T>(es: seq<Entry<T>>)
    ensures DataAt(es, Where(ManagedFlags(es)), ReleasedAll(es))
  {
    hide Where, ManagedFlags, DataAt;
    if |es| > 0 {
      var init, last := es[..|es| - 1], es[|es| - 1];
      var flag := last.managed && last.data.Some?;
      ReleasedIs(init);
      assert es == init + [last];
      assert ManagedFlags(es) == ManagedFlags(init) + [flag];
      WhereSnoc(ManagedFlags(init), flag);
      DataAtSnoc(init, Where(ManagedFlags(init)), ReleasedAll(init), last);
      assert ReleasedAll(init) + [] == ReleasedAll(init);
    } else {
      WhereNone(ManagedFlags(es));
      NoData(es);
    }
  }

  lemma NoData<T>(es: seq<Entry<T>>)
    ensures DataAt(es, [], [])
  {
  }

  /** Entries whose objects the list does not manage release nothing. */
  lemma NothingReleased<T>(es: seq<Entry<T>>)
    requires forall i :: 0 <= i < |es| ==> !es[i].managed
    ensures ReleasedAll(es) == []
  {
    hide Where, ReleasedAll, ManagedFlags;
    ReleasedIs(es);
    WhereNone(ManagedFlags(es));
  }

  /** On a list that manages its data, atf_list_fini frees every object exactly once, in order. */
  lemma {:induction false} ReleasedWhenManaged<T>(l: List<T>, n: nat)
    requires l.Valid() && n <= l.size
    requires forall i :: 1 <= i <= l.size ==> l.nodes[i].managed
    ensures ReleasedAll(l.nodes[..n + 1]) == l.View()[..n]
    ensures n == l.size ==> ReleasedAll(l.nodes) == l.View()
  {
    hide Chain, DataOf;
    var es := l.nodes[..n + 1];
    if n == 0 {
      assert es[..0] == [] && es[0] == l.begin;
    } else {
      ReleasedWhenManaged(l, n - 1);
      assert es[..n] == l.nodes[..n] && es[n] == l.nodes[n];
      assert l.View()[..n] == l.View()[..n - 1] + [l.View()[n - 1]];
    }
    if n == l.size {
      assert l.nodes[..n + 2][..n + 1] == es && l.nodes[..n + 2] == l.nodes;
      assert l.View()[..n] == l.View();
    }
  }
}
