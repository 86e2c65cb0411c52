/**
 A concrete case of what the store promises: whatever order keys are
 updated in, they are written in ascending order.
 */
module Examples {
  import opened ByteStrings
  import opened Parser
  import opened Serializer
  import opened RoundTrip
  import opened EnvFiles
  import opened Utf8

  /** The one-byte texts "A", "B", "1" and "2". */
  const A: Bytes := [0x41]
  const B: Bytes := [0x42]
  const One: Bytes := [0x31]
  const Two: Bytes := [0x32]

  lemma ToMapTwo(a: Bytes, x: Bytes, b: Bytes, y: Bytes)
    requires a != b
    ensures ToMap([(a, x), (b, y)]) == map[][b := y][a := x]
  {
    var es := [(a, x), (b, y)];
    var one := [(a, x)];
    assert es[..|es| - 1] == one;
    assert one[..|one| - 1] == [];
    assert ToMap(one) == map[][a := x];
    assert ToMap(es) == ToMap(one)[b := y];
  }

  lemma RenderTwo(a: Bytes, x: Bytes, b: Bytes, y: Bytes)
    ensures Render([(a, x), (b, y)]) == Line(a, x) + Line(b, y)
  {
    var es := [(a, x), (b, y)];
    assert es[1..] == [(b, y)] && es[1..][1..] == [];
    assert Render(es[1..]) == Line(b, y);
  }

  lemma TwoUpdates(a: Bytes, x: Bytes, b: Bytes, y: Bytes)
    requires Less(a, b)
    ensures Serialize(map[][b := y][a := x]) == Line(a, x) + Line(b, y)
  {
    var es := [(a, x), (b, y)];
    LessIrreflexive(a);
    ToMapTwo(a, x, b, y);
    SortedEntriesOfAscending(es);
    RenderTwo(a, x, b, y);
  }

  /** A file of one well-formed line without a newline holds that one entry. */
  lemma ParseOneLine(key: Bytes, value: Bytes)
    requires EQ !in key && NL !in key && NL !in value
    requires IsUtf8(key) && IsUtf8(value)
    ensures Parse(key + [EQ] + value) == map[key := value]
  {
    var seg := key + [EQ] + value;
    assert NL !in seg;
    assert JoinLines([seg]) == seg;
    SplitJoinLines([seg]);
    ParseLineOf(key, value);
    ParsedEntriesOne(seg);
    assert ParsedEntries(Split(seg)) == [(key, value)];
    assert [(key, value)][..0] == [];
    assert ToMap([(key, value)]) == map[][key := value];
  }

  /**
   The line "K=P=U" (the shape of `RECOVERY_UUID=PARTUUID=...`) has key "K"
   and value "P=U": only the first `=` separates.
   */
  lemma ValueKeepsLaterEquals()
    ensures Parse([0x4B, EQ, 0x50, EQ, 0x55]) == map[[0x4B] := [0x50, EQ, 0x55]]
  {
    var key: Bytes, value: Bytes := [0x4B], [0x50, EQ, 0x55];
    AsciiIsUtf8(key);
    AsciiIsUtf8(value);
    assert key + [EQ] + value == [0x4B, EQ, 0x50, EQ, 0x55];
    ParseOneLine(key, value);
  }

  /**
   Reading an empty file, updating `B` to "2" and then `A` to "1" writes
   "A=1\nB=2\n": the keys come out in ascending order, not in update order.
   */
  method UpdatesWrittenInKeyOrder() returns (buffer: Bytes)
    ensures buffer == [0x41, EQ, 0x31, NL, 0x42, EQ, 0x32, NL]
  {
    EmptyParse();
    var env := new EnvFile([]);
    env.Update(B, Two);
    env.Update(A, One);
    buffer := env.Write();
    ExampleLines();
  }

  /** The two lines of the example, in ascending key order. */
  lemma ExampleLines()
    ensures Serialize(map[][B := Two][A := One]) == [0x41, EQ, 0x31, NL, 0x42, EQ, 0x32, NL]
  {
    assert Less(A, B) by { assert A[0] < B[0]; }
    TwoUpdates(A, One, B, Two);
  }
}
