/**
 Writing and reading back. A store whose keys hold no `=` or newline and
 whose values hold no newline is read back exactly from the bytes it writes;
 and a file that already lists its entries one per line, newline-terminated,
 in strictly ascending key order, is written back byte for byte.
 */
module RoundTrip {
  import opened ByteStrings
  import opened Utf8
  import opened Parser
  import opened Serializer

  /** An entry that survives being written and read back. */
  predicate Writable(e: Entry)
  {
    EQ !in e.0 && NL !in e.0 && NL !in e.1 && IsUtf8(e.0) && IsUtf8(e.1)
  }

  /** The lines of the entries without their newlines. */
  function Bodies(es: seq<Entry>): (bodies: seq<Bytes>)
    ensures |bodies| == |es|
  {
    if es == [] then [] else [es[0].0 + [EQ] + es[0].1] + Bodies(es[1..])
  }

  /** The keys of the entries, in order. */
  function KeysOf(es: seq<Entry>): (ks: seq<Bytes>)
    ensures |ks| == |es| && forall i :: 0 <= i < |es| ==> ks[i] == es[i].0
  {
    seq(|es|, i requires 0 <= i < |es| => es[i].0)
  }

  lemma {:induction false} RenderAsJoin(es: seq<Entry>)
    ensures Render(es) == JoinLines(Bodies(es) + [[]])
    decreases |es|
  {
    if es != [] {
      var (k, v) := es[0];
      var lines := Bodies(es) + [[]];
      assert lines == [k + [EQ] + v] + (Bodies(es[1..]) + [[]]);
      assert lines[1..] == Bodies(es[1..]) + [[]];
      RenderAsJoin(es[1..]);
    }
  }

  lemma {:induction false} BodiesNewlineFree(es: seq<Entry>)
    requires forall i :: 0 <= i < |es| ==> Writable(es[i])
    ensures NewlineFree(Bodies(es) + [[]])
    decreases |es|
  {
    if es != [] {
      BodiesNewlineFree(es[1..]);
      assert Writable(es[0]);
      assert Bodies(es) + [[]] == [es[0].0 + [EQ] + es[0].1] + (Bodies(es[1..]) + [[]]);
    }
  }

  /** Reading the lines back gives the entries they were written from. */
  lemma {:induction false} ParseBodies(es: seq<Entry>)
    requires forall i :: 0 <= i < |es| ==> Writable(es[i])
    ensures ParsedEntries(Bodies(es)) == es
    decreases |es|
  {
    if es != [] {
      var (k, v) := es[0];
      assert Writable(es[0]);
      ParseLineOf(k, v);
      assert Bodies(es)[1..] == Bodies(es[1..]);
      ParseBodies(es[1..]);
    }
  }

  /**
   Reading back what the entries were written as inserts those entries in
   order (whatever their order, and with the last of equal keys winning).
   */
  lemma ParseRender(es: seq<Entry>)
    requires forall i :: 0 <= i < |es| ==> Writable(es[i])
    ensures Parse(Render(es)) == ToMap(es)
  {
    var lines := Bodies(es) + [[]];
    RenderAsJoin(es);
    BodiesNewlineFree(es);
    ParseJoin(lines);
    ParseBodiesLines(es);
  }

  /** The lines of writable entries, and the empty segment after the last newline, give those entries. */
  lemma ParseBodiesLines(es: seq<Entry>)
    requires forall i :: 0 <= i < |es| ==> Writable(es[i])
    ensures ParsedEntries(Bodies(es) + [[]]) == es
  {
    ParsedEntriesAppend(Bodies(es), [[]]);
    assert ParsedEntries([[]]) == [];
    ParseBodies(es);
  }

  /** A store of entries with strictly ascending keys holds each entry with its own value. */
  lemma ToMapAscending(es: seq<Entry>, i: nat)
    requires forall a, b :: 0 <= a < b < |es| ==> Less(es[a].0, es[b].0)
    requires i < |es|
    ensures es[i].0 in ToMap(es) && ToMap(es)[es[i].0] == es[i].1
  {
    forall j | i < j < |es|
      ensures es[j].0 != es[i].0
    {
      LessIrreflexive(es[i].0);
    }
    ToMapLastWins(es, i);
  }

  /** The entries a store is written as, inserted in order, rebuild the store. */
  lemma ToMapSortedEntries(store: map<Bytes, Bytes>)
    ensures ToMap(SortedEntries(store)) == store
  {
    ToMapSortedEntriesHas(store);
    ToMapSortedEntriesOnly(store);
  }

  /** Every key of the store is rebuilt with its own value. */
  lemma ToMapSortedEntriesHas(store: map<Bytes, Bytes>)
    ensures forall k :: k in store ==> k in ToMap(SortedEntries(store)) && ToMap(SortedEntries(store))[k] == store[k]
  {
    var es := SortedEntries(store);
    SortedEntriesSpec(store);
    forall k | k in store
      ensures k in ToMap(es) && ToMap(es)[k] == store[k]
    {
      var i :| 0 <= i < |es| && es[i].0 == k;
      ToMapAscending(es, i);
    }
  }

  /** No key outside the store is rebuilt. */
  lemma ToMapSortedEntriesOnly(store: map<Bytes, Bytes>)
    ensures forall k :: k in ToMap(SortedEntries(store)) ==> k in store
  {
    var es := SortedEntries(store);
    SortedEntriesSpec(store);
    forall k | k in ToMap(es)
      ensures k in store
    {
      ToMapKeys(es, k);
    }
  }

  /** Reading back what a store writes gives the same store. */
  lemma ParseSerialize(store: map<Bytes, Bytes>)
    requires forall k :: k in store ==> Writable((k, store[k]))
    ensures Parse(Serialize(store)) == store
  {
    var es := SortedEntries(store);
    SortedEntriesSpec(store);
    assert forall i :: 0 <= i < |es| ==> Writable(es[i]) by {
      forall i | 0 <= i < |es| ensures Writable(es[i]) {
        assert es[i] == (es[i].0, store[es[i].0]);
      }
    }
    ParseRender(es);
    ToMapSortedEntries(store);
  }

  /** The keys of entries with strictly ascending keys are the keys of their store, in order. */
  lemma SortedKeysOfAscending(es: seq<Entry>)
    requires forall a, b :: 0 <= a < b < |es| ==> Less(es[a].0, es[b].0)
    ensures SortedKeys(ToMap(es).Keys) == KeysOf(es)
  {
    var ks := KeysOf(es);
    assert StrictlySorted(ks);
    KeysOfSameKeys(es);
    SortedKeysUnique(ks, ToMap(es).Keys);
  }

  /** The keys of the entries are exactly the keys of their store. */
  lemma KeysOfSameKeys(es: seq<Entry>)
    ensures forall k :: k in KeysOf(es) <==> k in ToMap(es).Keys
  {
    var m := ToMap(es);
    var ks := KeysOf(es);
    forall k
      ensures k in ks <==> k in m.Keys
    {
      ToMapKeys(es, k);
      if k in m {
        var i :| 0 <= i < |es| && es[i].0 == k;
        assert ks[i] == k;
      }
    }
  }

  lemma EntriesOfKeysOf(es: seq<Entry>, m: map<Bytes, Bytes>)
    requires forall a, b :: 0 <= a < b < |es| ==> Less(es[a].0, es[b].0)
    requires m == ToMap(es)
    requires forall k :: k in KeysOf(es) ==> k in m
    ensures EntriesOf(KeysOf(es), m) == es
  {
    var written := EntriesOf(KeysOf(es), m);
    forall i | 0 <= i < |es|
      ensures written[i] == es[i]
    {
      ToMapAscending(es, i);
    }
  }

  /** Entries with strictly ascending keys are the entries their store is written as. */
  lemma SortedEntriesOfAscending(es: seq<Entry>)
    requires forall a, b :: 0 <= a < b < |es| ==> Less(es[a].0, es[b].0)
    ensures SortedEntries(ToMap(es)) == es
  {
    SortedKeysOfAscending(es);
    KeysOfSameKeys(es);
    EntriesOfKeysOf(es, ToMap(es));
  }

  /**
   A file whose lines are `key=value` entries, each newline-terminated, with
   strictly ascending keys, no line without `=` and no duplicated key, is
   written back exactly as it was read.
   */
  lemma ReadThenWrite(es: seq<Entry>)
    requires forall i :: 0 <= i < |es| ==> Writable(es[i])
    requires forall a, b :: 0 <= a < b < |es| ==> Less(es[a].0, es[b].0)
    ensures Serialize(Parse(Render(es))) == Render(es)
  {
    ParseRender(es);
    SortedEntriesOfAscending(es);
  }
}
