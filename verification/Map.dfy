/** The list-backed map of atf-c/detail/map.c. */
module AtfMap {
  import opened Options
  import opened AtfList
  import opened Bindings

  class MapEntry {
    const key: string
    var value: string
    var managed: bool

    constructor (key: string, value: string, managed: bool)
      ensures this.key == key && this.value == value && this.managed == managed
    {
      this.key, this.value, this.managed := key, value, managed;
    }
  }

  /** atf_map_iter_t. The entry is NULL exactly when the list iterator is at the end sentinel. */
  datatype MapIter = MapIter(m: Map, entry: MapEntry?, listiter: Iter<MapEntry>)

  /** atf_equal_map_iter_map_iter: the list iterator is not compared. */
  predicate IterEqual(i1: MapIter, i2: MapIter) {
    i1.m == i2.m && i1.entry == i2.entry
  }

  function EntryOf(data: Option<MapEntry>): MapEntry? {
    match data
    case None => null
    case Some(me) => me
  }

  ghost function BindingsOf(es: seq<MapEntry>): (bs: seq<Binding<string, string>>)
    reads es
    ensures |bs| == |es|
    ensures forall i :: 0 <= i < |bs| ==> bs[i] == Binding(es[i].key, es[i].value)
  {
    if es == [] then [] else BindingsOf(es[..|es| - 1]) + [Binding(es[|es| - 1].key, es[|es| - 1].value)]
  }

  lemma BindingsOfSnoc(es: seq<MapEntry>, me: MapEntry)
    ensures BindingsOf(es + [me]) == BindingsOf(es) + [Binding(me.key, me.value)]
  {
    assert (es + [me])[..|es|] == es;
  }

  ghost function ManagedOf(es: seq<MapEntry>): (flags: seq<bool>)
    reads es
    ensures |flags| == |es| && forall i :: 0 <= i < |flags| ==> flags[i] == es[i].managed
  {
    if es == [] then [] else ManagedOf(es[..|es| - 1]) + [es[|es| - 1].managed]
  }

  lemma ManagedOfSnoc(es: seq<MapEntry>, me: MapEntry)
    ensures ManagedOf(es + [me]) == ManagedOf(es) + [me.managed]
  {
    assert (es + [me])[..|es|] == es;
  }

  class Map {
    const list: List<MapEntry>
    /** The map entries in list order. */
    ghost var entries: seq<MapEntry>
    ghost var repr: set<object>

    /** The list, with all its entries, is part of the map. */
    ghost predicate ListInRepr()
      reads this, repr
      ensures ListInRepr() ==> this in repr && list in repr && list.Valid()
      ensures ListInRepr() ==> list.end in repr && list.end.prev in repr
    {
      && this in repr && list in repr
      && (forall i :: 0 <= i < |list.nodes| ==> list.nodes[i] in repr && !list.nodes[i].managed)
      && list.Valid()
    }

    ghost predicate Valid()
      reads this, repr
      ensures Valid() ==> this in repr && list in repr
    {
      && ListInRepr()
      && (forall i :: 0 <= i < |entries| ==> entries[i] in repr)
      && entries == list.View()
      && (forall i, j :: 0 <= i < j < |entries| ==> entries[i].key != entries[j].key)
    }

    /** The bindings, in order of insertion. */
    ghost function View(): (bs: seq<Binding<string, string>>)
      requires Valid()
      reads this, repr
      ensures |bs| == |entries| == list.size && UniqueKeys(bs)
      ensures forall i :: 0 <= i < |bs| ==> bs[i] == Binding(entries[i].key, entries[i].value)
    {
      BindingsOf(entries)
    }

    /** Which values the map frees by itself. */
    ghost function Managed(): (flags: seq<bool>)
      requires Valid()
      reads this, repr
      ensures |flags| == |entries| && forall i :: 0 <= i < |flags| ==> flags[i] == entries[i].managed
    {
      ManagedOf(entries)
    }

    /** atf_map_init */
    constructor ()
      ensures Valid() && View() == []
      ensures fresh(repr)
    {
      list := new List<MapEntry>();
      entries := [];
      new;
      repr := {this, list} + set i | 0 <= i < |list.nodes| :: list.nodes[i];
    }

    function Begin(): MapIter
      reads this, list, list.begin
      requires list.begin.next != null
    {
      var listiter := list.Begin();
      MapIter(this, EntryOf(listiter.Data()), listiter)
    }

    function End(): MapIter
      reads this, list
    {
      MapIter(this, null, list.End())
    }

    /** atf_map_iter_next */
    static function Next(iter: MapIter): MapIter
      requires iter.listiter.entry != null
      requires iter.listiter.entry.next != null
      reads iter.listiter.entry
    {
      var listiter := iter.listiter.Next();
      iter.(listiter := listiter, entry := EntryOf(listiter.Data()))
    }

    /** The iterator that stands on the i-th entry, or at the end. */
    ghost predicate At(iter: MapIter, i: nat)
      requires Valid()
      reads this, repr
    {
      && i <= |entries| && iter.m == this
      && iter.listiter == Iter(list, list.nodes[i + 1])
      && iter.entry == (if i < |entries| then entries[i] else null)
    }

    lemma BeginsAt()
      requires Valid()
      ensures list.begin.next != null && At(Begin(), 0)
    {
      assert list.begin.next == list.nodes[1];
    }

    lemma NextAt(iter: MapIter, i: nat)
      requires Valid() && At(iter, i) && i < |entries|
      ensures iter.listiter.entry != null && iter.listiter.entry.next != null
      ensures iter.entry == entries[i] && View()[i] == Binding(iter.entry.key, iter.entry.value)
      ensures At(Next(iter), i + 1)
    {
      assert list.nodes[i + 1].next == list.nodes[i + 2];
      assert i + 1 < |entries| ==> entries[i + 1] == list.View()[i + 1];
    }

    /** The iterator equals the end exactly behind the last entry. */
    lemma EndsAt(iter: MapIter, i: nat)
      requires Valid() && At(iter, i)
      ensures i <= |entries| && (IterEqual(iter, End()) <==> i == |entries|)
    {
    }

    /** atf_map_find */
    method Find(key: string) returns (iter: MapIter, ghost i: nat)
      requires Valid()
      ensures At(iter, i) && i <= |entries|
      ensures iter.entry != null ==> i < |entries| && iter.entry == entries[i] && iter.entry in repr
      ensures key !in Keys(View())[..i] && (i < |entries| ==> entries[i].key == key)
      ensures iter.entry == null <==> key !in Keys(View())
      ensures IterEqual(iter, End()) <==> i == |entries|
      ensures iter.entry != null <==> key in AsMap(View())
      ensures iter.entry != null ==> iter.entry.value == AsMap(View())[key]
    {
      AsMapLookup(View(), key);
      var listiter := list.Begin();
      i := 0;
      while listiter != list.End()
        invariant i <= |entries| && listiter == Iter(list, list.nodes[i + 1])
        invariant key !in Keys(View())[..i]
        decreases |entries| - i
      {
        var me := listiter.Data().value;
        assert me == entries[i];
        if me.key == key {
          assert Keys(View())[i] == key;
          return MapIter(this, me, listiter), i;
        }
        listiter := listiter.Next();
        i := i + 1;
      }
      assert Keys(View())[..i] == Keys(View());
      iter := End();
    }

    /** atf_map_insert. `released` is the managed value that an update frees; `at` is where the key
        ends up. */
    method Insert(key: string, value: string, managed: bool) returns (released: Option<string>, ghost at: nat)
      requires Valid()
      modifies repr
      ensures Valid() && fresh(repr - old(repr))
      ensures View() == Bindings.Insert(old(View()), key, value)
      ensures at <= |old(View())| && key !in Keys(old(View()))[..at] && at < |View()| && View()[at].key == key
      ensures var flags := old(Managed());
        && Managed() == (if at < |flags| then flags[at := managed] else flags + [managed])
        && released == if at < |flags| && flags[at] then Some(old(View())[at].value) else None
    {
      hide *;
      var iter, i := Find(key);
      ghost var bs := View();
      at := i;
      released := None;
      InsertAt(bs, key, value, i);
      if IterEqual(iter, End()) {
        assert Keys(bs)[..i] == Keys(bs);
        InsertNew(key, value, managed);
      } else {
        released := Overwrite(iter.entry, i, value, managed);
      }
    }

    method InsertNew(key: string, value: string, managed: bool)
      requires Valid() && key !in Keys(View())
      modifies repr
      ensures Valid() && fresh(repr - old(repr))
      ensures View() == old(View()) + [Binding(key, value)]
      ensures Managed() == old(Managed()) + [managed]
    {
      hide ListInRepr, AtfList.List.Valid, AtfList.List.View, DataOf, BindingsOf, ManagedOf, Keys, UniqueKeys;
      ghost var es := entries;
      forall j | 0 <= j < |es|
        ensures es[j].key != key
      {
        assert Keys(View())[j] == es[j].key;
      }
      var me := new MapEntry(key, value, managed);
      Link(me);
      BindingsOfSnoc(es, me);
      ManagedOfSnoc(es, me);
    }

    /** atf_list_append of a new entry */
    method Link(me: MapEntry)
      requires ListInRepr()
      modifies this`repr, this`entries, list`size, list`nodes, list.end`prev, list.end.prev`next
      ensures ListInRepr() && list.View() == old(list.View()) + [me] && entries == old(entries) + [me]
      ensures old(repr) + {me} <= repr && fresh(repr - old(repr) - {me})
    {
      hide AtfList.List.Valid, AtfList.List.View, DataOf;
      list.Append(me, false);
      repr := repr + {me, list.end.prev};
      entries := entries + [me];
    }

    method Overwrite(me: MapEntry, ghost i: nat, value: string, managed: bool) returns (released: Option<string>)
      requires Valid() && i < |entries| && me == entries[i]
      modifies me
      ensures Valid() && entries == old(entries) && repr == old(repr)
      ensures View() == old(View())[i := Binding(me.key, value)]
      ensures Managed() == old(Managed())[i := managed]
      ensures released == if old(Managed())[i] then Some(old(View())[i].value) else None
    {
      hide AtfList.List.Valid, AtfList.List.View, DataOf, BindingsOf, ManagedOf;
      released := if me.managed then Some(me.value) else None;
      me.value := value;
      me.managed := managed;
    }

    /** atf_map_fini: frees every managed value, then the list with its two sentinels, which frees no
        map entry a second time. */
    method Fini() returns (released: seq<string>, freed: nat, objects: seq<MapEntry>)
      requires Valid()
      modifies repr
      ensures released == ManagedValues(entries) && freed == |entries| + 2 && objects == []
      ensures forall n :: n in list.nodes ==> !n.live
    {
      hide *;
      released := FreeValues();
      NoneManaged();
      NothingReleased(list.nodes);
      freed, objects := list.Fini();
    }

    lemma NoneManaged()
      requires Valid()
      ensures |list.nodes| == |entries| + 2 && list.Valid()
      ensures forall i :: 0 <= i < |list.nodes| ==> !list.nodes[i].managed && list.nodes[i] in repr
    {
    }

    /** The loop of atf_map_fini */
    method FreeValues() returns (released: seq<string>)
      requires Valid()
      ensures released == ManagedValues(entries)
    {
      released := [];
      var iter := list.Begin();
      ghost var i := 0;
      while iter != list.End()
        invariant i <= |entries| && iter == Iter(list, list.nodes[i + 1])
        invariant released == ManagedValues(entries[..i])
        decreases |entries| - i
      {
        var me := iter.Data().value;
        assert me == entries[i] && entries[..i + 1][..i] == entries[..i];
        if me.managed {
          released := released + [me.value];
        }
        iter := iter.Next();
        i := i + 1;
      }
      assert entries[..i] == entries;
    }
  }

  function ManagedValues(es: seq<MapEntry>): seq<string>
    reads es
  {
    if es == [] then [] else
      ManagedValues(es[..|es| - 1]) + (if es[|es| - 1].managed then [es[|es| - 1].value] else [])
  }

  /** The values that atf_map_fini frees are those of exactly the managed entries, in order. */
  lemma {:induction false} ManagedValuesAre(es: seq<MapEntry>)
    ensures var at := Where(ManagedOf(es));
      |ManagedValues(es)| == |at| && forall k :: 0 <= k < |at| ==> ManagedValues(es)[k] == es[at[k]].value
  {
    hide Where;
    if |es| > 0 {
      var init, last := es[..|es| - 1], es[|es| - 1];
      ManagedValuesAre(init);
      assert es == init + [last];
      ManagedOfSnoc(init, last);
      WhereSnoc(ManagedOf(init), last.managed);
    }
  }

  /** atf_map_to_charpp */
  method ToCharpp(m: Map) returns (a: array<Option<string>>)
    requires m.Valid()
    ensures fresh(a) && a[..] == NullTerminated(Flatten(m.View()))
  {
    hide Map.Valid, Map.View, Flatten, AtfList.List.Valid;
    a := new Option<string>[m.list.size * 2 + 1](_ => None);
    FillPairs(m, a);
    FlatPairs(a[..], m.View());
  }

  lemma FlatPairs(a: seq<Option<string>>, bs: seq<Binding<string, string>>)
    requires |a| == 2 * |bs| + 1 && a[2 * |bs|] == None
    requires forall j :: 0 <= j < |bs| ==> PairAt(a, j, bs[j])
    ensures a == NullTerminated(Flatten(bs))
  {
    hide Flatten, NullTerminated;
    var flat := NullTerminated(Flatten(bs));
    forall i | 0 <= i < 2 * |bs|
      ensures a[i] == flat[i]
    {
      SameAt(a, bs, i / 2);
      assert i == 2 * (i / 2) || i == 2 * (i / 2) + 1;
    }
  }

  lemma SameAt(a: seq<Option<string>>, bs: seq<Binding<string, string>>, j: nat)
    requires j < |bs| && PairAt(a, j, bs[j])
    ensures var flat := NullTerminated(Flatten(bs));
      a[2 * j] == flat[2 * j] && a[2 * j + 1] == flat[2 * j + 1]
  {
    hide Flatten, NullTerminated;
  }

  predicate PairAt(a: seq<Option<string>>, j: nat, b: Binding<string, string>) {
    2 * j + 1 < |a| && a[2 * j] == Some(b.key) && a[2 * j + 1] == Some(b.value)
  }

  /** The loop of atf_map_to_charpp, and its final NULL */
  method FillPairs(m: Map, a: array<Option<string>>)
    requires m.Valid() && a.Length == 2 * |m.View()| + 1 && a !in m.repr
    modifies a
    ensures m.Valid() && m.View() == old(m.View()) && a[2 * |m.View()|] == None
    ensures forall j :: 0 <= j < |m.View()| ==> PairAt(a[..], j, m.View()[j])
  {
    hide *;
    ghost var bs := m.View();
    m.BeginsAt();
    var iter := m.Begin();
    m.EndsAt(iter, 0);
    var i := 0;
    ghost var n := 0;
    while !IterEqual(iter, m.End())
      invariant m.Valid() && m.View() == bs && m.At(iter, n) && i == 2 * n <= 2 * |bs|
      invariant IterEqual(iter, m.End()) <==> n == |bs|
      invariant forall j :: 0 <= j < n ==> PairAt(a[..], j, bs[j])
      decreases |bs| - n
    {
      m.NextAt(iter, n);
      ghost var before := a[..];
      a[i] := Some(iter.entry.key);
      a[i + 1] := Some(iter.entry.value);
      OnePair(before, a[..], n, bs);
      i := i + 2;
      iter := Map.Next(iter);
      n := n + 1;
      m.EndsAt(iter, n);
    }
    ghost var before := a[..];
    a[i] := None;
    SamePairs(before, a[..], n, bs);
  }

  lemma OnePair(before: seq<Option<string>>, a: seq<Option<string>>, n: nat, bs: seq<Binding<string, string>>)
    requires n < |bs| && 2 * n + 1 < |before|
    requires a == before[2 * n := Some(bs[n].key)][2 * n + 1 := Some(bs[n].value)]
    requires forall j :: 0 <= j < n ==> PairAt(before, j, bs[j])
    ensures forall j :: 0 <= j < n + 1 ==> PairAt(a, j, bs[j])
  {
  }

  lemma SamePairs(before: seq<Option<string>>, a: seq<Option<string>>, n: nat, bs: seq<Binding<string, string>>)
    requires n <= |bs| && 2 * n < |before| && a == before[2 * n := None]
    requires forall j :: 0 <= j < n ==> PairAt(before, j, bs[j])
    ensures forall j :: 0 <= j < n ==> PairAt(a, j, bs[j])
  {
  }

  lemma InsertNothing(bs: seq<Binding<string, string>>)
    ensures InsertAll([], bs[..0]) == []
  {
  }

  lemma InsertAllSnoc(bs: seq<Binding<string, string>>, n: nat)
    requires n < |bs|
    ensures InsertAll([], bs[..n + 1]) == Bindings.Insert(InsertAll([], bs[..n]), bs[n].key, bs[n].value)
  {
    assert bs[..n + 1][..n] == bs[..n];
  }

  /** atf_map_init_charpp: the array stops at its NULL; a key without a value is an error. */
  method InitCharpp(words: seq<string>) returns (m: Map, ok: bool)
    ensures ok <==> |words| % 2 == 0
    ensures ok ==> m.Valid() && m.View() == InsertAll([], Pairs(words))
    ensures ok ==> fresh(m.repr)
  {
    hide *;
    m := new Map();
    var ptr := 0;
    ghost var n := 0;
    ok := true;
    InsertNothing(Pairs(words));
    while ptr < |words|
      invariant ptr == 2 * n <= |words|
      invariant m.Valid() && m.View() == InsertAll([], Pairs(words)[..n])
      invariant fresh(m.repr)
      invariant ok
    {
      var key := words[ptr];
      ptr := ptr + 1;
      if ptr == |words| {
        ok := false;
        break;
      }
      var value := words[ptr];
      ptr := ptr + 1;
      assert Pairs(words)[n] == Binding(key, value);
      var _, _ := m.Insert(key, value, true);
      InsertAllSnoc(Pairs(words), n);
      n := n + 1;
    }
    if !ok {
      var _, _, _ := m.Fini();
    } else {
      assert Pairs(words)[..n] == Pairs(words);
    }
  }

  /** Writing a map out and reading it back gives the same bindings in the same order. */
  lemma CharppRoundTrip(bs: seq<Binding<string, string>>)
    requires UniqueKeys(bs)
    ensures |Flatten(bs)| % 2 == 0 && InsertAll([], Pairs(Flatten(bs))) == bs
  {
    PairsOfFlatten(bs);
    Rebuild(bs);
  }
}
