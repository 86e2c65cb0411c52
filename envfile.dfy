/**
 The store itself (`EnvFile`): a map from keys to values, filled from the
 bytes of a file, updated in place, and written back in ascending key order.
 The file system around it is not modelled: the constructor is given the
 bytes the file held and `Write` returns the bytes the file receives.
 */
module EnvFiles {
  import opened ByteStrings
  import opened Utf8
  import opened Wrappers
  import opened Parser
  import opened Serializer

  class EnvFile {
    /** The parsed entries (`store: BTreeMap<String, String>`). */
    var store: map<Bytes, Bytes>

    /** Keys and values are Rust `String`s, so always well-formed UTF-8. */
    ghost predicate Valid()
      reads this
    {
      forall k :: k in store ==> IsUtf8(k) && IsUtf8(store[k])
    }

    /** `EnvFile::new` on a file holding `data`. */
    constructor (data: Bytes)
      ensures Valid()
      ensures store == Parse(data)
    {
      var entries := ParsedEntries(Split(data));
      var parsed := InsertAll(entries);
      assert parsed == Parse(data);
      forall k | k in parsed
        ensures IsUtf8(k) && IsUtf8(parsed[k])
      {
        ParseWellFormed(data, k);
      }
      store := parsed;
    }

    /** Inserts `key` with `value`, or overwrites the value of `key`. */
    method Update(key: Bytes, value: Bytes)
      requires Valid()
      requires IsUtf8(key) && IsUtf8(value)
      modifies this
      ensures Valid()
      ensures store == old(store)[key := value]
      ensures Get(key) == Some(value)
      ensures forall k :: k != key ==> Get(k) == old(Get(k))
      ensures |store| == if key in old(store) then old(|store|) else old(|store|) + 1
    {
      store := store[key := value];
    }

    /** The value of `key`, or nothing when the store has no such key. */
    function Get(key: Bytes): (r: Option<Bytes>)
      reads this
      ensures r.Some? <==> key in store
      ensures r.Some? ==> r.value == store[key]
    {
      if key in store then Some(store[key]) else None
    }

    /**
     The buffer `EnvFile::write` builds: for each key in ascending order, the
     key, `=`, the value and a newline.
     */
    method Write() returns (buffer: Bytes)
      requires Valid()
      ensures buffer == Serialize(store)
      ensures IsUtf8(buffer)
    {
      var entries := store;
      buffer := [];
      var rest := entries.Keys;
      ghost var done: seq<Bytes> := [];
      while rest != {}
        invariant WriteInvariant(done, rest, buffer, entries)
        decreases |rest|
      {
        LeastExists(rest);
        var key :| key in rest && IsLeast(key, rest);
        var value := entries[key];
        ghost var before := buffer;
        buffer := buffer + key;
        buffer := buffer + [EQ];
        buffer := buffer + value;
        buffer := buffer + [NL];
        AppendLine(before, key, value);
        WriteStep(done, rest, key, before, entries);
        done := done + [key];
        rest := rest - {key};
      }
      WriteDone(done, buffer, entries);
      SerializeUtf8(store);
    }
  }
}
