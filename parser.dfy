/**
 Parsing the bytes of an environment file into the store (`EnvFile::new`).

 The data is split on every newline byte; a segment contributes an entry when
 it holds an `=` and both the bytes before the first `=` (the key) and the
 bytes after it (the value) are well-formed UTF-8. The entries are inserted
 one after another into an ordered map, so a later line overwrites an
 earlier line with the same key.
 */
module Parser {
  import opened ByteStrings
  import opened Utf8
  import opened Wrappers

  /** An entry of the store. */
  type Entry = (Bytes, Bytes)

  /** The position of the first `b` in `s` (Rust's `iter().position(|&x| x == b)`). */
  function FirstIndex(s: Bytes, b: bv8): (r: Option<nat>)
    ensures r.None? <==> b !in s
    ensures r.Some? ==> r.value < |s| && s[r.value] == b && b !in s[..r.value]
  {
    if s == [] then None
    else if s[0] == b then Some(0)
    else
      match FirstIndex(s[1..], b)
      case None => None
      case Some(i) =>
        assert s[..i + 1] == [s[0]] + s[1..][..i];
        Some(i + 1)
  }

  /** The first `x` after an `x`-free prefix is found right after that prefix. */
  lemma {:induction false} FirstIndexAfter(a: Bytes, x: bv8, c: Bytes)
    requires x !in a
    ensures FirstIndex(a + [x] + c, x) == Some(|a|)
    decreases |a|
  {
    if a != [] {
      assert (a + [x] + c)[1..] == a[1..] + [x] + c;
      FirstIndexAfter(a[1..], x, c);
    }
  }

  /** The segments joined back with a newline between each two. */
  function JoinLines(segs: seq<Bytes>): Bytes
  {
    if segs == [] then []
    else if |segs| == 1 then segs[0]
    else segs[0] + [NL] + JoinLines(segs[1..])
  }

  /** No segment holds a newline. */
  predicate NewlineFree(segs: seq<Bytes>)
  {
    forall seg :: seg in segs ==> NL !in seg
  }

  /** `data.split(|&x| x == b'\n')`: n newlines give n + 1 segments, none holding a newline. */
  function Split(data: Bytes): (segs: seq<Bytes>)
    ensures |segs| >= 1
    ensures NewlineFree(segs)
    ensures JoinLines(segs) == data
    decreases |data|
  {
    match FirstIndex(data, NL)
    case None => [data]
    case Some(p) =>
      var rest := Split(data[p + 1..]);
      assert ([data[..p]] + rest)[1..] == rest;
      assert data == data[..p] + [NL] + data[p + 1..];
      [data[..p]] + rest
  }

  /** Splitting is the inverse of joining newline-free segments. */
  lemma {:induction false} SplitJoinLines(segs: seq<Bytes>)
    requires |segs| >= 1
    requires NewlineFree(segs)
    ensures Split(JoinLines(segs)) == segs
    decreases |segs|
  {
    if |segs| > 1 {
      var rest := JoinLines(segs[1..]);
      FirstIndexAfter(segs[0], NL, rest);
      var data := segs[0] + [NL] + rest;
      assert data[..|segs[0]|] == segs[0];
      assert data[|segs[0]| + 1..] == rest;
      SplitJoinLines(segs[1..]);
      assert segs == [segs[0]] + segs[1..];
    }
  }

  /**
   The entry one segment gives: key before the first `=`, value after it,
   both well-formed UTF-8; nothing for a segment without `=` or with a
   malformed key or value.
   */
  function ParseLine(seg: Bytes): (r: Option<Entry>)
    ensures EQ !in seg ==> r.None?
    ensures r.Some? ==> EQ !in r.value.0 && seg == r.value.0 + [EQ] + r.value.1
    ensures r.Some? ==> IsUtf8(r.value.0) && IsUtf8(r.value.1)
  {
    match FirstIndex(seg, EQ)
    case None => None
    case Some(pos) =>
      var key, value := seg[..pos], seg[pos + 1..];
      assert seg == key + [EQ] + value;
      if IsUtf8(key) && IsUtf8(value) then Some((key, value)) else None
  }

  /**
   A segment `key=value` whose key has no `=` gives exactly that key and
   value (later `=` bytes stay in the value), provided both are well formed.
   */
  lemma ParseLineOf(key: Bytes, value: Bytes)
    requires EQ !in key
    ensures ParseLine(key + [EQ] + value) == if IsUtf8(key) && IsUtf8(value) then Some((key, value)) else None
  {
    var seg := key + [EQ] + value;
    FirstIndexAfter(key, EQ, value);
    assert seg[..|key|] == key && seg[|key| + 1..] == value;
  }

  /** The entries of the segments, in order (the `flat_map`). */
  function ParsedEntries(segs: seq<Bytes>): (es: seq<Entry>)
    ensures |es| <= |segs|
  {
    if segs == [] then []
    else
      match ParseLine(segs[0])
      case None => ParsedEntries(segs[1..])
      case Some(e) => [e] + ParsedEntries(segs[1..])
  }

  lemma {:induction false} ParsedEntriesAppend(s: seq<Bytes>, t: seq<Bytes>)
    ensures ParsedEntries(s + t) == ParsedEntries(s) + ParsedEntries(t)
    decreases |s|
  {
    if s == [] {
      assert s + t == t;
    } else {
      assert (s + t)[1..] == s[1..] + t;
      ParsedEntriesAppend(s[1..], t);
    }
  }

  /** The map built by inserting the entries in order into an empty map. */
  function ToMap(es: seq<Entry>): map<Bytes, Bytes>
  {
    if es == [] then map[]
    else
      var last := es[|es| - 1];
      ToMap(es[..|es| - 1])[last.0 := last.1]
  }

  /** A key is in the map exactly when some entry has it. */
  lemma {:induction false} ToMapKeys(es: seq<Entry>, k: Bytes)
    ensures k in ToMap(es) <==> exists i :: 0 <= i < |es| && es[i].0 == k
    decreases |es|
  {
    if es != [] {
      var init := es[..|es| - 1];
      ToMapKeys(init, k);
      if exists i :: 0 <= i < |es| && es[i].0 == k {
        var i :| 0 <= i < |es| && es[i].0 == k;
        if i < |es| - 1 {
          assert init[i].0 == k;
        }
      }
      if exists i :: 0 <= i < |init| && init[i].0 == k {
        var i :| 0 <= i < |init| && init[i].0 == k;
        assert es[i].0 == k;
      }
    }
  }

  /** Last write wins: the value of a key is that of the last entry with that key. */
  lemma {:induction false} ToMapLastWins(es: seq<Entry>, i: nat)
    requires i < |es|
    requires forall j :: i < j < |es| ==> es[j].0 != es[i].0
    ensures es[i].0 in ToMap(es) && ToMap(es)[es[i].0] == es[i].1
    decreases |es|
  {
    if i < |es| - 1 {
      var init := es[..|es| - 1];
      assert init[i] == es[i];
      ToMapLastWins(init, i);
    }
  }

  /** Every key and value of the map comes from one of the entries. */
  lemma {:induction false} ToMapFrom(es: seq<Entry>, k: Bytes)
    requires k in ToMap(es)
    ensures exists i :: 0 <= i < |es| && es[i] == (k, ToMap(es)[k])
    decreases |es|
  {
    var last := es[|es| - 1];
    var init := es[..|es| - 1];
    if k != last.0 {
      ToMapFrom(init, k);
      var i :| 0 <= i < |init| && init[i] == (k, ToMap(init)[k]);
      assert es[i] == init[i];
    } else {
      assert es[|es| - 1] == (k, ToMap(es)[k]);
    }
  }

  /** The store `EnvFile::new` builds from the bytes of a file. */
  function Parse(data: Bytes): map<Bytes, Bytes>
  {
    ToMap(ParsedEntries(Split(data)))
  }

  /**
   A parsed key and value are well-formed UTF-8 and hold no newline, and
   the key holds no `=`.
   */
  lemma ParseWellFormed(data: Bytes, k: Bytes)
    requires k in Parse(data)
    ensures IsUtf8(k) && IsUtf8(Parse(data)[k])
    ensures EQ !in k && NL !in k && NL !in Parse(data)[k]
  {
    var segs := Split(data);
    var es := ParsedEntries(segs);
    ToMapFrom(es, k);
    var i :| 0 <= i < |es| && es[i] == (k, Parse(data)[k]);
    var j := LineOfEntry(segs, i);
    assert segs[j] in segs;
  }

  /** The segment `seg` gives an entry with key `k`. */
  predicate LineHasKey(seg: Bytes, k: Bytes)
  {
    ParseLine(seg).Some? && ParseLine(seg).value.0 == k
  }

  /** The segment that entry `i` came from. */
  lemma {:induction false} LineOfEntry(segs: seq<Bytes>, i: nat) returns (j: nat)
    requires i < |ParsedEntries(segs)|
    ensures j < |segs| && ParseLine(segs[j]) == Some(ParsedEntries(segs)[i])
    decreases |segs|
  {
    var tail := ParsedEntries(segs[1..]);
    if ParseLine(segs[0]).Some? && i == 0 {
      j := 0;
    } else {
      var i' := if ParseLine(segs[0]).Some? then i - 1 else i;
      assert ParsedEntries(segs)[i] == tail[i'];
      var j' := LineOfEntry(segs[1..], i');
      j := j' + 1;
    }
  }

  /** The entry that segment `j` gives, when it gives one. */
  lemma {:induction false} EntryOfLine(segs: seq<Bytes>, j: nat) returns (i: nat)
    requires j < |segs| && ParseLine(segs[j]).Some?
    ensures i < |ParsedEntries(segs)| && ParsedEntries(segs)[i] == ParseLine(segs[j]).value
    decreases |segs|
  {
    if j == 0 {
      i := 0;
    } else {
      var i' := EntryOfLine(segs[1..], j - 1);
      i := if ParseLine(segs[0]).Some? then i' + 1 else i';
      assert ParsedEntries(segs)[i] == ParsedEntries(segs[1..])[i'];
    }
  }

  /** Every key a line gives is a key of the parsed store. */
  lemma ParseKeyOfLine(data: Bytes, j: nat)
    requires j < |Split(data)| && ParseLine(Split(data)[j]).Some?
    ensures ParseLine(Split(data)[j]).value.0 in Parse(data)
  {
    var es := ParsedEntries(Split(data));
    var i := EntryOfLine(Split(data), j);
    ToMapKeys(es, es[i].0);
  }

  /** Every key of the parsed store is given by some line of the data. */
  lemma ParseLineOfKey(data: Bytes, k: Bytes) returns (j: nat)
    requires k in Parse(data)
    ensures j < |Split(data)| && LineHasKey(Split(data)[j], k)
  {
    var es := ParsedEntries(Split(data));
    ToMapKeys(es, k);
    var i :| 0 <= i < |es| && es[i].0 == k;
    j := LineOfEntry(Split(data), i);
  }

  /** Segments none of which gives key `k` give no entry with key `k`. */
  lemma NoLineNoEntry(segs: seq<Bytes>, k: Bytes)
    requires forall j :: 0 <= j < |segs| ==> !LineHasKey(segs[j], k)
    ensures forall i :: 0 <= i < |ParsedEntries(segs)| ==> ParsedEntries(segs)[i].0 != k
  {
    forall i | 0 <= i < |ParsedEntries(segs)|
      ensures ParsedEntries(segs)[i].0 != k
    {
      var j := LineOfEntry(segs, i);
      assert !LineHasKey(segs[j], k);
    }
  }

  /**
   When several lines give the same key, the parsed store holds the value of
   the last of them.
   */
  lemma ParseLastWins(data: Bytes, i: nat)
    requires i < |Split(data)| && ParseLine(Split(data)[i]).Some?
    requires forall j :: i < j < |Split(data)| ==> !LineHasKey(Split(data)[j], ParseLine(Split(data)[i]).value.0)
    ensures ParseLine(Split(data)[i]).value.0 in Parse(data)
    ensures Parse(data)[ParseLine(Split(data)[i]).value.0] == ParseLine(Split(data)[i]).value.1
  {
    EntriesLastWins(Split(data), i);
  }

  /** `ParseLastWins` on the segments themselves. */
  lemma EntriesLastWins(segs: seq<Bytes>, i: nat)
    requires i < |segs| && ParseLine(segs[i]).Some?
    requires forall j :: i < j < |segs| ==> !LineHasKey(segs[j], ParseLine(segs[i]).value.0)
    ensures ParseLine(segs[i]).value.0 in ToMap(ParsedEntries(segs))
    ensures ToMap(ParsedEntries(segs))[ParseLine(segs[i]).value.0] == ParseLine(segs[i]).value.1
  {
    var (k, v) := ParseLine(segs[i]).value;
    var later := segs[i + 1..];
    assert forall j :: 0 <= j < |later| ==> later[j] == segs[i + 1 + j];
    NoLineNoEntry(later, k);
    EntriesAround(segs, i);
    ToMapKeepsLast(ParsedEntries(segs[..i]), k, v, ParsedEntries(later));
  }

  /** An entry followed only by entries of other keys decides its key's value. */
  lemma {:induction false} ToMapKeepsLast(front: seq<Entry>, k: Bytes, v: Bytes, back: seq<Entry>)
    requires forall j :: 0 <= j < |back| ==> back[j].0 != k
    ensures k in ToMap(front + [(k, v)] + back) && ToMap(front + [(k, v)] + back)[k] == v
    decreases |back|
  {
    var es := front + [(k, v)] + back;
    if back == [] {
      assert es == front + [(k, v)];
      assert es[..|es| - 1] == front;
    } else {
      var init := back[..|back| - 1];
      assert es[..|es| - 1] == front + [(k, v)] + init;
      ToMapKeepsLast(front, k, v, init);
    }
  }

  /** The entries of one segment. */
  lemma ParsedEntriesOne(seg: Bytes)
    ensures ParsedEntries([seg]) == if ParseLine(seg).Some? then [ParseLine(seg).value] else []
  {
    assert [seg][1..] == [];
  }

  /** The entries of the segments before, at and after one segment. */
  lemma ParsedEntriesAround(before: seq<Bytes>, seg: Bytes, after: seq<Bytes>)
    ensures ParsedEntries(before + [seg] + after) == ParsedEntries(before) + ParsedEntries([seg]) + ParsedEntries(after)
  {
    ParsedEntriesAppend(before + [seg], after);
    ParsedEntriesAppend(before, [seg]);
  }

  /** A sequence is its part before `i`, its element at `i` and its part after. */
  lemma PickApart(segs: seq<Bytes>, i: nat)
    requires i < |segs|
    ensures segs == segs[..i] + [segs[i]] + segs[i + 1..]
  {
  }

  /** The entries of the segments before, at and after position `i`. */
  lemma EntriesAround(segs: seq<Bytes>, i: nat)
    requires i < |segs| && ParseLine(segs[i]).Some?
    ensures ParsedEntries(segs) == ParsedEntries(segs[..i]) + [ParseLine(segs[i]).value] + ParsedEntries(segs[i + 1..])
  {
    var before, seg, after := segs[..i], segs[i], segs[i + 1..];
    PickApart(segs, i);
    calc {
      ParsedEntries(segs);
      ParsedEntries(before + [seg] + after);
      { ParsedEntriesAround(before, seg, after); }
      ParsedEntries(before) + ParsedEntries([seg]) + ParsedEntries(after);
      { ParsedEntriesOne(seg); }
      ParsedEntries(before) + [ParseLine(seg).value] + ParsedEntries(after);
    }
  }

  /** Dropping a segment that gives no entry leaves the entries as they are. */
  lemma DropLineEntries(before: seq<Bytes>, seg: Bytes, after: seq<Bytes>)
    requires ParseLine(seg).None?
    ensures ParsedEntries(before + [seg] + after) == ParsedEntries(before + after)
  {
    ParsedEntriesAround(before, seg, after);
    ParsedEntriesOne(seg);
    ParsedEntriesAppend(before, after);
  }

  /**
   A line that gives no entry (no `=`, or a key or value that is not
   well-formed UTF-8) changes nothing: the store is that of the other lines.
   */
  lemma DroppedLineIgnored(before: seq<Bytes>, seg: Bytes, after: seq<Bytes>)
    requires NewlineFree(before) && NewlineFree(after)
    requires NL !in seg && ParseLine(seg).None?
    ensures Parse(JoinLines(before + [seg] + after)) == Parse(JoinLines(before + after))
  {
    var all, rest := before + [seg] + after, before + after;
    assert NewlineFree(all);
    ParseJoin(all);
    DropLineEntries(before, seg, after);
    if rest == [] {
      // the file held this one line alone; without it the file is empty
      EmptyParse();
    } else {
      assert NewlineFree(rest);
      ParseJoin(rest);
    }
  }

  /** An empty file is one empty segment, which gives no entry. */
  lemma EmptyParse()
    ensures Split([]) == [[]]
    ensures Parse([]) == map[]
  {
    assert Split([]) == [[]];
    ParsedEntriesOne([]);
  }

  /**
   When the whole line is well-formed UTF-8 and holds an `=`, the two
   `from_utf8` checks never fail: the line always gives an entry.
   */
  lemma ParseLineOfUtf8(seg: Bytes)
    requires IsUtf8(seg) && EQ in seg
    ensures ParseLine(seg).Some?
  {
    var pos := FirstIndex(seg, EQ).value;
    assert seg == seg[..pos] + [EQ] + seg[pos + 1..];
    Utf8SplitAtAscii(seg[..pos], EQ, seg[pos + 1..]);
  }

  /** Parsing newline-free segments joined by newlines parses each segment. */
  lemma ParseJoin(segs: seq<Bytes>)
    requires |segs| >= 1 && NewlineFree(segs)
    ensures Parse(JoinLines(segs)) == ToMap(ParsedEntries(segs))
  {
    SplitJoinLines(segs);
  }

  /** The insertion loop of `EnvFile::new`: each entry in turn overwrites its key. */
  method InsertAll(entries: seq<Entry>) returns (store: map<Bytes, Bytes>)
    ensures store == ToMap(entries)
  {
    store := map[];
    for i := 0 to |entries|
      invariant store == ToMap(entries[..i])
    {
      var (key, value) := entries[i];
      assert entries[..i + 1][..i] == entries[..i];
      store := store[key := value];
    }
    assert entries[..|entries|] == entries;
  }
}
