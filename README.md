# envfile in Dafny

A model of the `envfile` crate's `EnvFile`. It reads a file of `KEY=VALUE` lines into an
ordered map, lets callers update and look up entries, and writes the map back with the
keys in ascending order. The model has five parts, one per concern of `src/lib.rs`:

- `ByteStrings` (`bytestrings.dfy`): byte strings, their lexicographic order (the order
  of a `BTreeMap<String, String>`), and the ascending list of a set's keys.
- `Utf8` (`utf8.dfy`): well-formed UTF-8, as in section 4 of RFC 3629. `String::from_utf8`
  succeeds exactly on such input.
- `Parser` (`parser.dfy`): `EnvFile::new` without the file read. The bytes are split at
  every newline, each segment is cut at its first `=`, segments whose key or value is not
  UTF-8 are dropped, and the resulting pairs are inserted in order, so the last
  occurrence of a key wins.
- `Serializer` (`serializer.dfy`): the buffer `EnvFile::write` builds, which is
  `key=value\n` for each entry in ascending key order.
- `EnvFiles` (`envfile.dfy`): the class `EnvFile`. Its field `store` is the map. It has
  the constructor and the methods `Update`, `Get` and `Write`.

`RoundTrip` (`roundtrip.dfy`) proves two round trips. Reading back what a store writes gives
the same store, when no key holds `=` or a newline and no value holds a newline. Writing
again what was read from a file gives the same bytes, when the file is such lines, each
newline-terminated, in strictly ascending key order. The conditions matter: `Update`, like the
source's `update`, accepts a value holding a newline, and such a value is written across
two lines. `Examples` (`examples.dfy`) works through small concrete cases.

The file system is a parameter. The constructor is given the bytes the file held, and
`Write` returns the bytes the file would receive. Keys and values are byte strings
(`seq<bv8>`). A Rust `String` is such a byte string that happens to be well-formed
UTF-8, and the class keeps that as its `Valid()` invariant.

Duplicate keys: the parser inserts pairs into the map in file order. So the **last**
occurrence of a key wins, and the model follows that (`Parser.ParseLastWins`).

## Model

| member | source | states |
|---|---|---|
| ByteStrings.Less | src/lib.rs:37 | definition: byte-wise lexicographic order with a proper prefix first, the `Ord` of the `String` keys of the `BTreeMap`; characterised by LessIrreflexive, LessTransitive and LessTrichotomy |
| ByteStrings.LessTransitive | src/lib.rs:37 | byte-wise lexicographic order (the order of `String` keys in a `BTreeMap`) is transitive |
| ByteStrings.LessTrichotomy | src/lib.rs:37 | any two distinct keys are ordered one way or the other |
| ByteStrings.LessIrreflexive | src/lib.rs:37 | no key is less than itself |
| ByteStrings.LeastExists | src/lib.rs:78 | every non-empty key set has a least key, which is where the in-order iteration starts |
| ByteStrings.SortedKeys | src/lib.rs:78 | the keys of a map in iteration order: strictly ascending, exactly the map's keys, one per key |
| ByteStrings.SortedKeysUnique | src/lib.rs:78 | any strictly ascending list holding exactly the keys of a set is that iteration order |
| Utf8.CharWidth | src/lib.rs:48-50 | length of the first encoded character; at most 4, continuation bytes after the lead, 1 exactly for ASCII |
| Utf8.IsUtf8 | src/lib.rs:48-50 | definition: the bytes are a run of characters of the widths CharWidth allows, which is when `String::from_utf8` succeeds; characterised by CharWidth, Utf8Append and Utf8SplitAtAscii |
| Utf8.Utf8Append | src/lib.rs:79-81 | joining two well-formed UTF-8 strings gives well-formed UTF-8 |
| Utf8.Utf8SplitAtAscii | src/lib.rs:47-50 | cutting well-formed UTF-8 at an ASCII byte such as `=` leaves two well-formed halves |
| Parser.FirstIndex | src/lib.rs:47 | `position` of the first `=`: none exactly when the byte is absent, otherwise the index of its first occurrence |
| Parser.Split | src/lib.rs:46 | `split` on newline: at least one segment, no segment holds a newline, and joining them back with newlines gives the input |
| Parser.SplitJoinLines | src/lib.rs:46 | splitting the newline-join of newline-free segments gives those segments back, so no line is lost or merged |
| Parser.ParseLine | src/lib.rs:47-52 | a line without `=` gives nothing; an entry's key has no `=`, the line is key + `=` + value, and both are UTF-8 |
| Parser.ParseLineOf | src/lib.rs:47-52 | the line `key=value` with no `=` in the key gives exactly that key and value when both are UTF-8 (later `=` stay in the value), and nothing otherwise |
| Parser.ParseLineOfUtf8 | src/lib.rs:47-50 | a line that is well-formed UTF-8 as a whole and holds an `=` always gives an entry: neither `from_utf8` check fails on its halves |
| Parser.ParsedEntries | src/lib.rs:46-53 | definition: the `flat_map` of ParseLine over the segments, in order, with no more entries than segments; characterised by ParsedEntriesAppend, LineOfEntry, EntryOfLine and DropLineEntries |
| Parser.ParsedEntriesAppend | src/lib.rs:46-53 | `flat_map` over the lines: the entries of two runs of lines are the entries of each, in order |
| Parser.ToMap | src/lib.rs:55-57 | definition: the entries inserted into an empty map in order; characterised by ToMapKeys, ToMapLastWins, ToMapFrom and ToMapKeepsLast |
| Parser.ToMapKeys | src/lib.rs:55-57 | after the insert loop, a key is present exactly when some entry has it |
| Parser.ToMapLastWins | src/lib.rs:55-57 | a key's value after the insert loop is the value of its last entry |
| Parser.ToMapFrom | src/lib.rs:55-57 | every key and value in the map comes from one entry |
| Parser.ToMapKeepsLast | src/lib.rs:55-57 | an entry followed only by entries of other keys decides its key's value in the map |
| Parser.InsertAll | src/lib.rs:55-57 | the `for` loop over `store.insert` yields the last-wins map of the entries |
| Parser.Parse | src/lib.rs:46-57 | definition: the map `new` builds from the file's bytes, ToMap of the ParsedEntries of the Split; characterised by ParseKeyOfLine, ParseLineOfKey, ParseLastWins, ParseWellFormed and DroppedLineIgnored |
| Parser.ParseWellFormed | src/lib.rs:46-57 | every parsed key and value is UTF-8; keys hold no `=` or newline, values no newline |
| Parser.ParseKeyOfLine | src/lib.rs:46-57 | the key of every line that parses is in the map |
| Parser.ParseLineOfKey | src/lib.rs:46-57 | every key in the map comes from a line that parses to that key |
| Parser.ParseLastWins | src/lib.rs:46-57 | the value of a key is the value on the last line that gives that key |
| Parser.EmptyParse | src/lib.rs:46 | an empty file splits into one empty segment and gives an empty store |
| Parser.DropLineEntries | src/lib.rs:46-53 | a line that gives no entry contributes nothing to the entries around it |
| Parser.DroppedLineIgnored | src/lib.rs:46-57 | removing a line without `=` or with a non-UTF-8 key or value does not change the parsed map; the other lines are still read |
| EnvFiles.EnvFile.constructor | src/lib.rs:42-60 | the store is the parse of the file's bytes and holds only UTF-8 keys and values |
| EnvFiles.EnvFile.Update | src/lib.rs:63-65 | `insert`: the key gets the value, every other key keeps its value, and the count grows by one exactly when the key was new |
| EnvFiles.EnvFile.Get | src/lib.rs:68-70 | a value exactly when the key is in the store, and then the stored value; reads the store and changes nothing |
| EnvFiles.EnvFile.Write | src/lib.rs:76-86 | the buffer built by the loop is the serialisation of the store, and for a store of `String`s it is well-formed UTF-8 |
| Serializer.Line | src/lib.rs:79-82 | definition: the bytes one turn of the write loop pushes, key + `=` + value + newline; RenderLineCount counts its one newline |
| Serializer.AppendLine | src/lib.rs:79-82 | proof step bridging the loop body to Line: the four pushes one after another append exactly `Line(key, value)` |
| Serializer.Render | src/lib.rs:78-83 | definition: the Lines of a sequence of entries, in order; characterised by RenderAppend, RenderLineCount, RenderUtf8 and, with Parse, by RoundTrip.ParseRender |
| Serializer.RenderAppend | src/lib.rs:78-83 | the lines of two runs of entries are the lines of each, in order |
| Serializer.EntriesOf | src/lib.rs:78 | the entries of a list of keys are those keys with their store values, in that order |
| Serializer.SortedEntries | src/lib.rs:78 | definition: the entries `for (key, value) in &self.store` visits, EntriesOf the SortedKeys; characterised by SortedEntriesSpec |
| Serializer.SortedEntriesSpec | src/lib.rs:78 | iteration visits each key of the store exactly once, with its value, in strictly ascending key order |
| Serializer.Serialize | src/lib.rs:76-83 | definition: the buffer `write` builds, the Render of the SortedEntries; characterised by SerializeLineCount, SerializeUtf8 and RoundTrip.ParseSerialize |
| Serializer.WriteStep | src/lib.rs:78-83 | one turn of the write loop on the least remaining key keeps the loop's invariant |
| Serializer.WriteDone | src/lib.rs:78-83 | when no key remains, the buffer is the whole serialisation |
| Serializer.RenderLineCount | src/lib.rs:78-83 | entries without newlines produce a buffer with exactly one newline per entry |
| Serializer.SerializeLineCount | src/lib.rs:76-83 | the written buffer has as many lines as the store has entries, when no key or value holds a newline |
| Serializer.SerializeUtf8 | src/lib.rs:76-83 | the written buffer of a store of `String`s is well-formed UTF-8 |
| RoundTrip.ParseBodies | src/lib.rs:46-53 | the lines of writable entries parse back to exactly those entries |
| RoundTrip.ParseRender | src/lib.rs:46-57 | reading the lines written for writable entries gives the last-wins map of those entries |
| RoundTrip.ToMapSortedEntries | src/lib.rs:55-57 | inserting a store's entries in iteration order rebuilds the store |
| RoundTrip.ParseSerialize | src/lib.rs:42-86 | reading back what `write` produced gives the same store, when no key holds `=` or a newline and no value a newline |
| RoundTrip.SortedEntriesOfAscending | src/lib.rs:55-57 | entries in strictly ascending key order are the iteration order of the map they build |
| RoundTrip.ReadThenWrite | src/lib.rs:160-173 | a file of well-formed lines in strictly ascending key order, read and written again, is unchanged byte for byte |
| Examples.TwoUpdates | src/lib.rs:72-83 | a store of two keys, with the larger inserted first, is written with the smaller key's line first |
| Examples.UpdatesWrittenInKeyOrder | src/lib.rs:72-78 | reading an empty file, updating `B` to `2` and then `A` to `1`, writes `A=1\nB=2\n` |
| Examples.ValueKeepsLaterEquals | src/lib.rs:129 | a line `K=P=U`, shaped like the `RECOVERY_UUID` test line, gives key `K` and value `P=U` |

## Left out

- The file helpers `open`, `create`, `read` and `write` (src/lib.rs:89-112) are not modelled. They are file-system I/O. The constructor takes the file's bytes instead, and `Write` returns the buffer instead of writing it.
- `io::Result`: a failed open, read or write is not modelled. Every operation here succeeds, because the only failures in the source come from the file system.
- The `path` field is not modelled. It only names the file for that I/O.
- `Vec::with_capacity(1024)` is not modelled. It is a performance hint with no visible effect.
- Code points are not decoded. A `String` is modelled as its UTF-8 bytes, and only well-formedness (section 4 of RFC 3629) is checked.
- EnvFiles.EnvFile.Update: takes byte strings that must be UTF-8, standing in for Rust's `&str`, which is UTF-8 by type.
- EnvFiles.EnvFile.Write: picks the least remaining key each turn. `BTreeMap` iteration visits keys in that same order, and the tree walk itself is not modelled.
- The full nine-line sample in the tests (src/lib.rs:122-131) is not worked through byte by byte. Its shape (well-formed lines, ascending keys, a value holding `=`) is covered by `RoundTrip.ReadThenWrite` and `Examples.ValueKeepsLaterEquals`.
