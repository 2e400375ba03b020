/** What an insertion-ordered map means: a list of bindings with unique keys. */
module Bindings {
  datatype Binding<K, V> = Binding(key: K, value: V)

  function Keys<K, V>(bs: seq<Binding<K, V>>): (ks: seq<K>)
    ensures |ks| == |bs| && forall i :: 0 <= i < |bs| ==> ks[i] == bs[i].key
  {
    seq(|bs|, i requires 0 <= i < |bs| => bs[i].key)
  }

  predicate UniqueKeys<K(==), V>(bs: seq<Binding<K, V>>) {
    forall i, j :: 0 <= i < j < |bs| ==> bs[i].key != bs[j].key
  }

  /** Updates in place, or appends. */
  function Insert<K(==), V>(bs: seq<Binding<K, V>>, key: K, value: V): (r: seq<Binding<K, V>>) {
    if bs == [] then [Binding(key, value)]
    else if bs[0].key == key then [Binding(key, value)] + bs[1..]
    else [bs[0]] + Insert(bs[1..], key, value)
  }

  /** The mathematical map. */
  function AsMap<K(==), V>(bs: seq<Binding<K, V>>): (m: map<K, V>)
  {
    if bs == [] then map[] else
      var init, last := bs[..|bs| - 1], bs[|bs| - 1];
      AsMap(init)[last.key := last.value]
  }

  /** The map has exactly the listed keys, and a unique key maps to its value. */
  lemma {:induction false} AsMapLookup<K, V>(bs: seq<Binding<K, V>>, key: K)
    ensures key in AsMap(bs) <==> key in Keys(bs)
    ensures UniqueKeys(bs) ==> forall i :: 0 <= i < |bs| && bs[i].key == key ==> AsMap(bs)[key] == bs[i].value
  {
    if bs != [] {
      var init, last := bs[..|bs| - 1], bs[|bs| - 1];
      assert Keys(bs) == Keys(init) + [last.key];
      AsMapLookup(init, key);
    }
  }

  /** Insertion at a position: what every caller sees. */
  lemma {:induction false} InsertAt<K, V>(bs: seq<Binding<K, V>>, key: K, value: V, i: nat)
    requires i <= |bs| && key !in Keys(bs)[..i]
    requires i < |bs| ==> bs[i].key == key
    ensures Insert(bs, key, value) ==
            if i < |bs| then bs[i := Binding(key, value)] else bs + [Binding(key, value)]
  {
    var b := Binding(key, value);
    if bs != [] && i > 0 {
      assert bs[0].key == Keys(bs)[..i][0];
      assert Keys(bs[1..])[..i - 1] == Keys(bs)[..i][1..];
      InsertAt(bs[1..], key, value, i - 1);
      if i < |bs| {
        assert [bs[0]] + bs[1..][i - 1 := b] == bs[i := b];
      } else {
        assert [bs[0]] + (bs[1..] + [b]) == bs + [b];
      }
    }
  }

  /** Every list and key fall under InsertAt for one position. */
  lemma {:induction false} KeyPosition<K, V>(bs: seq<Binding<K, V>>, key: K) returns (i: nat)
    ensures i <= |bs| && key !in Keys(bs)[..i]
    ensures i < |bs| ==> bs[i].key == key
    ensures i == |bs| <==> key !in Keys(bs)
  {
    if key in Keys(bs) {
      i := 0;
      while Keys(bs)[i] != key
        invariant i < |bs| && key !in Keys(bs)[..i] && key in Keys(bs)[i..]
        decreases |bs| - i
      {
        i := i + 1;
      }
    } else {
      i := |bs|;
    }
  }

  lemma {:induction false} UpdateAt<K, V>(bs: seq<Binding<K, V>>, i: nat, value: V)
    requires UniqueKeys(bs) && i < |bs|
    ensures var r := bs[i := Binding(bs[i].key, value)];
      UniqueKeys(r) && Keys(r) == Keys(bs) && AsMap(r) == AsMap(bs)[bs[i].key := value]
  {
    var key := bs[i].key;
    var r := bs[i := Binding(key, value)];
    assert forall j :: 0 <= j < |bs| ==> r[j].key == bs[j].key;
    assert Keys(r) == Keys(bs);
    var init, last := bs[..|bs| - 1], bs[|bs| - 1];
    if i < |init| {
      UpdateAt(init, i, value);
      assert r[..|init|] == init[i := Binding(key, value)];
    } else {
      assert r[..|init|] == init;
    }
  }

  lemma AppendAt<K, V>(bs: seq<Binding<K, V>>, key: K, value: V)
    requires UniqueKeys(bs) && key !in Keys(bs)
    ensures var r := bs + [Binding(key, value)];
      UniqueKeys(r) && Keys(r) == Keys(bs) + [key] && AsMap(r) == AsMap(bs)[key := value]
  {
    var r := bs + [Binding(key, value)];
    assert r[..|bs|] == bs;
    forall j | 0 <= j < |bs|
      ensures bs[j].key != key
    {
      assert bs[j].key == Keys(bs)[j];
    }
  }

  /** Insertion keeps keys unique and keeps the order, and is the map update. */
  lemma InsertRefinesMap<K, V>(bs: seq<Binding<K, V>>, key: K, value: V)
    requires UniqueKeys(bs)
    ensures UniqueKeys(Insert(bs, key, value))
    ensures AsMap(Insert(bs, key, value)) == AsMap(bs)[key := value]
    ensures Keys(Insert(bs, key, value)) == if key in Keys(bs) then Keys(bs) else Keys(bs) + [key]
  {
    var i := KeyPosition(bs, key);
    InsertAt(bs, key, value, i);
    if i < |bs| {
      UpdateAt(bs, i, value);
    } else {
      AppendAt(bs, key, value);
    }
  }

  /** Insertion of each binding in turn. */
  function InsertAll<K(==), V>(bs: seq<Binding<K, V>>, news: seq<Binding<K, V>>): (r: seq<Binding<K, V>>)
    decreases |news|
  {
    if news == [] then bs
    else
      var last := news[|news| - 1];
      Insert(InsertAll(bs, news[..|news| - 1]), last.key, last.value)
  }

  /** The keys in order of first occurrence. */
  function FirstOccurrences<K(==)>(ks: seq<K>): (r: seq<K>)
  {
    if ks == [] then [] else
      var init, last := ks[..|ks| - 1], ks[|ks| - 1];
      if last in init then FirstOccurrences(init) else FirstOccurrences(init) + [last]
  }

  lemma {:induction false} FirstOccurrencesSameKeys<K>(ks: seq<K>, k: K)
    ensures k in FirstOccurrences(ks) <==> k in ks
  {
    if ks != [] {
      var init, last := ks[..|ks| - 1], ks[|ks| - 1];
      assert ks == init + [last];
      FirstOccurrencesSameKeys(init, k);
    }
  }

  lemma FirstOccurrencesSnoc<K>(ks: seq<K>, k: K)
    ensures FirstOccurrences(ks + [k]) ==
            if k in FirstOccurrences(ks) then FirstOccurrences(ks) else FirstOccurrences(ks) + [k]
  {
    assert (ks + [k])[..|ks|] == ks;
    FirstOccurrencesSameKeys(ks, k);
  }

  /** With repeated keys the last value wins... */
  lemma {:induction false} LastValueWins<K, V>(news: seq<Binding<K, V>>)
    ensures UniqueKeys(InsertAll([], news))
    ensures AsMap(InsertAll([], news)) == AsMap(news)
  {
    if news != [] {
      var init, last := news[..|news| - 1], news[|news| - 1];
      LastValueWins(init);
      InsertRefinesMap(InsertAll([], init), last.key, last.value);
    }
  }

  /** ...at the position of the first. */
  lemma {:induction false} FirstPositionWins<K, V>(news: seq<Binding<K, V>>)
    ensures Keys(InsertAll([], news)) == FirstOccurrences(Keys(news))
  {
    if news != [] {
      var init, last := news[..|news| - 1], news[|news| - 1];
      var ks, prior := Keys(init), InsertAll([], init);
      assert Keys(news) == ks + [last.key];
      calc {
        Keys(InsertAll([], news));
        Keys(Insert(prior, last.key, last.value));
        { LastValueWins(init); InsertRefinesMap(prior, last.key, last.value); }
        if last.key in Keys(prior) then Keys(prior) else Keys(prior) + [last.key];
        { FirstPositionWins(init); }
        if last.key in FirstOccurrences(ks) then FirstOccurrences(ks) else FirstOccurrences(ks) + [last.key];
        { FirstOccurrencesSnoc(ks, last.key); }
        FirstOccurrences(ks + [last.key]);
      }
    }
  }

  /** Inserting the bindings of a map one by one rebuilds it, order included. */
  lemma {:induction false} Rebuild<K, V>(bs: seq<Binding<K, V>>)
    requires UniqueKeys(bs)
    ensures InsertAll([], bs) == bs
  {
    if bs != [] {
      var init, last := bs[..|bs| - 1], bs[|bs| - 1];
      Rebuild(init);
      InsertAt(init, last.key, last.value, |init|);
      assert bs == init + [last];
    }
  }

  /** The flat key, value, key, value... form of a charpp array. */
  function Flatten(bs: seq<Binding<string, string>>): (r: seq<string>)
    ensures |r| == 2 * |bs|
    ensures forall i :: 0 <= i < |bs| ==> r[2 * i] == bs[i].key && r[2 * i + 1] == bs[i].value
  {
    if bs == [] then [] else Flatten(bs[..|bs| - 1]) + [bs[|bs| - 1].key, bs[|bs| - 1].value]
  }

  /** The complete pairs of a flat array. */
  function Pairs(a: seq<string>): (bs: seq<Binding<string, string>>)
    ensures |bs| == |a| / 2
    ensures forall i :: 0 <= i < |bs| ==> bs[i] == Binding(a[2 * i], a[2 * i + 1])
  {
    seq(|a| / 2, i requires 0 <= i < |a| / 2 => Binding(a[2 * i], a[2 * i + 1]))
  }

  lemma PairsOfFlatten(bs: seq<Binding<string, string>>)
    ensures Pairs(Flatten(bs)) == bs
  {
    assert forall i :: 0 <= i < |bs| ==> Pairs(Flatten(bs))[i] == Binding(Flatten(bs)[2 * i], Flatten(bs)[2 * i + 1]);
  }
}
