/**
 Serialising the store (the buffer `EnvFile::write` builds): one line
 `key=value` followed by a newline per entry, in ascending key order.
 */
module Serializer {
  import opened ByteStrings
  import opened Utf8
  import opened Parser

  /** The bytes written for one entry. */
  function Line(key: Bytes, value: Bytes): Bytes
  {
    key + [EQ] + value + [NL]
  }

  /** Pushing the four parts of a line one by one appends the line. */
  lemma AppendLine(buffer: Bytes, key: Bytes, value: Bytes)
    ensures buffer + key + [EQ] + value + [NL] == buffer + Line(key, value)
  {
  }

  /** The lines of the entries, one after another. */
  function Render(es: seq<Entry>): Bytes
  {
    if es == [] then [] else Line(es[0].0, es[0].1) + Render(es[1..])
  }

  lemma {:induction false} RenderAppend(a: seq<Entry>, b: seq<Entry>)
    ensures Render(a + b) == Render(a) + Render(b)
    decreases |a|
  {
    if a == [] {
      assert a + b == b;
    } else {
      assert (a + b)[1..] == a[1..] + b;
      RenderAppend(a[1..], b);
    }
  }

  /** The entries of `store` for the keys `ks`, in that order. */
  function EntriesOf(ks: seq<Bytes>, store: map<Bytes, Bytes>): (es: seq<Entry>)
    requires forall k :: k in ks ==> k in store
    ensures |es| == |ks|
    ensures forall i :: 0 <= i < |ks| ==> es[i] == (ks[i], store[ks[i]])
  {
    if ks == [] then [] else [(ks[0], store[ks[0]])] + EntriesOf(ks[1..], store)
  }

  lemma EntriesOfAppend(a: seq<Bytes>, b: seq<Bytes>, store: map<Bytes, Bytes>)
    requires forall k :: k in a ==> k in store
    requires forall k :: k in b ==> k in store
    ensures EntriesOf(a + b, store) == EntriesOf(a, store) + EntriesOf(b, store)
  {
  }

  /** The entries of the store in the order a `BTreeMap` yields them. */
  ghost function SortedEntries(store: map<Bytes, Bytes>): seq<Entry>
  {
    EntriesOf(SortedKeys(store.Keys), store)
  }

  /**
   The store's entries as written: every entry of the store exactly once,
   with its own value, in strictly ascending key order.
   */
  lemma SortedEntriesSpec(store: map<Bytes, Bytes>)
    ensures |SortedEntries(store)| == |store|
    ensures forall i :: 0 <= i < |SortedEntries(store)| ==>
              SortedEntries(store)[i].0 in store && SortedEntries(store)[i].1 == store[SortedEntries(store)[i].0]
    ensures forall k :: k in store ==> exists i :: 0 <= i < |SortedEntries(store)| && SortedEntries(store)[i].0 == k
    ensures forall i, j :: 0 <= i < j < |SortedEntries(store)| ==> Less(SortedEntries(store)[i].0, SortedEntries(store)[j].0)
  {
    var ks := SortedKeys(store.Keys);
    assert |ks| == |store.Keys| == |store|;
    SortedEntriesCover(store);
    SortedEntriesAscending(store);
  }

  /** Every key of the store has an entry among the store's entries as written. */
  lemma SortedEntriesCover(store: map<Bytes, Bytes>)
    ensures forall k :: k in store ==> exists i :: 0 <= i < |SortedEntries(store)| && SortedEntries(store)[i].0 == k
  {
    forall k | k in store
      ensures exists i :: 0 <= i < |SortedEntries(store)| && SortedEntries(store)[i].0 == k
    {
      var i := EntryOfKey(SortedKeys(store.Keys), store, k);
      assert SortedEntries(store)[i].0 == k;
    }
  }

  /** The store's entries as written have strictly ascending keys. */
  lemma SortedEntriesAscending(store: map<Bytes, Bytes>)
    ensures forall i, j :: 0 <= i < j < |SortedEntries(store)| ==> Less(SortedEntries(store)[i].0, SortedEntries(store)[j].0)
  {
    var ks := SortedKeys(store.Keys);
    forall i, j | 0 <= i < j < |SortedEntries(store)|
      ensures Less(SortedEntries(store)[i].0, SortedEntries(store)[j].0)
    {
      assert SortedEntries(store)[i].0 == ks[i] && SortedEntries(store)[j].0 == ks[j];
    }
  }

  /** The position of key `k` among the entries for a sequence holding all the keys. */
  lemma EntryOfKey(ks: seq<Bytes>, store: map<Bytes, Bytes>, k: Bytes) returns (i: nat)
    requires forall k :: k in ks <==> k in store
    requires k in store
    ensures i < |EntriesOf(ks, store)| && EntriesOf(ks, store)[i].0 == k
  {
    i :| 0 <= i < |ks| && ks[i] == k;
    assert EntriesOf(ks, store)[i] == (ks[i], store[ks[i]]);
  }

  /**
   What the loop of `EnvFile::write` keeps: the keys `done` already written
   are the first keys in ascending order, the keys `rest` are the others,
   and the buffer holds the lines of the keys written.
   */
  ghost predicate WriteInvariant(done: seq<Bytes>, rest: set<Bytes>, buffer: Bytes, store: map<Bytes, Bytes>)
  {
    && rest <= store.Keys
    && (forall k :: k in done ==> k in store)
    && done + SortedKeys(rest) == SortedKeys(store.Keys)
    && buffer == Render(EntriesOf(done, store))
  }

  /** One turn of that loop: writing the least key not yet written keeps the invariant. */
  lemma WriteStep(done: seq<Bytes>, rest: set<Bytes>, key: Bytes, buffer: Bytes, store: map<Bytes, Bytes>)
    requires WriteInvariant(done, rest, buffer, store)
    requires IsLeast(key, rest)
    ensures WriteInvariant(done + [key], rest - {key}, buffer + Line(key, store[key]), store)
  {
    SortedKeysUnfold(rest, key);
    var later := SortedKeys(rest - {key});
    assert (done + [key]) + later == done + ([key] + later);
    RenderSnoc(done, key, store);
  }

  /** When no key is left, the buffer is the serialised store. */
  lemma WriteDone(done: seq<Bytes>, buffer: Bytes, store: map<Bytes, Bytes>)
    requires WriteInvariant(done, {}, buffer, store)
    ensures buffer == Serialize(store)
  {
    assert done + SortedKeys({}) == done;
  }

  lemma RenderSnoc(done: seq<Bytes>, key: Bytes, store: map<Bytes, Bytes>)
    requires forall k :: k in done ==> k in store
    requires key in store
    ensures Render(EntriesOf(done + [key], store)) == Render(EntriesOf(done, store)) + Line(key, store[key])
  {
    EntriesOfAppend(done, [key], store);
    RenderAppend(EntriesOf(done, store), EntriesOf([key], store));
    assert Render([(key, store[key])]) == Line(key, store[key]);
  }

  /** The bytes `EnvFile::write` hands to the file. */
  ghost function Serialize(store: map<Bytes, Bytes>): Bytes
  {
    Render(SortedEntries(store))
  }

  /** The number of occurrences of `b` in `s`. */
  function Count(s: Bytes, b: bv8): nat
  {
    if s == [] then 0 else (if s[0] == b then 1 else 0) + Count(s[1..], b)
  }

  lemma {:induction false} CountAppend(s: Bytes, t: Bytes, b: bv8)
    ensures Count(s + t, b) == Count(s, b) + Count(t, b)
    decreases |s|
  {
    if s == [] {
      assert s + t == t;
    } else {
      assert (s + t)[1..] == s[1..] + t;
      CountAppend(s[1..], t, b);
    }
  }

  lemma {:induction false} CountAbsent(s: Bytes, b: bv8)
    requires b !in s
    ensures Count(s, b) == 0
    decreases |s|
  {
    if s != [] {
      CountAbsent(s[1..], b);
    }
  }

  /** One newline per entry, provided no key or value holds a newline itself. */
  lemma {:induction false} RenderLineCount(es: seq<Entry>)
    requires forall i :: 0 <= i < |es| ==> NL !in es[i].0 && NL !in es[i].1
    ensures Count(Render(es), NL) == |es|
    decreases |es|
  {
    if es != [] {
      var (k, v) := es[0];
      CountAbsent(k, NL);
      CountAbsent(v, NL);
      CountAppend(k, [EQ], NL);
      CountAppend(k + [EQ], v, NL);
      CountAppend(k + [EQ] + v, [NL], NL);
      CountAppend(Line(k, v), Render(es[1..]), NL);
      RenderLineCount(es[1..]);
    }
  }

  /** The serialised store has exactly as many lines as entries. */
  lemma SerializeLineCount(store: map<Bytes, Bytes>)
    requires forall k :: k in store ==> NL !in k && NL !in store[k]
    ensures Count(Serialize(store), NL) == |store|
  {
    SortedEntriesSpec(store);
    RenderLineCount(SortedEntries(store));
  }

  /** Serialising a store of `String`s gives well-formed UTF-8. */
  lemma {:induction false} RenderUtf8(es: seq<Entry>)
    requires forall i :: 0 <= i < |es| ==> IsUtf8(es[i].0) && IsUtf8(es[i].1)
    ensures IsUtf8(Render(es))
    decreases |es|
  {
    if es != [] {
      var (k, v) := es[0];
      AsciiIsUtf8([EQ]);
      AsciiIsUtf8([NL]);
      Utf8Append(k, [EQ]);
      Utf8Append(k + [EQ], v);
      Utf8Append(k + [EQ] + v, [NL]);
      RenderUtf8(es[1..]);
      Utf8Append(Line(k, v), Render(es[1..]));
    }
  }

  lemma SerializeUtf8(store: map<Bytes, Bytes>)
    requires forall k :: k in store ==> IsUtf8(k) && IsUtf8(store[k])
    ensures IsUtf8(Serialize(store))
  {
    SortedEntriesSpec(store);
    RenderUtf8(SortedEntries(store));
  }
}
