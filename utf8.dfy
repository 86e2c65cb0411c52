/**
 UTF-8 well-formedness, as `String::from_utf8` checks it: the byte ranges of
 the `UTF8-octets` grammar in section 4 of RFC 3629 (no overlong forms, no
 surrogates, nothing above U+10FFFF). Only whether bytes are well formed
 matters to the store; decoding into code points is not modelled.
 */
module Utf8 {
  import opened ByteStrings

  /** `UTF8-tail = %x80-BF` */
  predicate IsTail(b: bv8)
  {
    0x80 <= b <= 0xBF
  }

  /**
   The length of the well-formed `UTF8-char` that `s` begins with, or 0 when
   `s` is empty or does not begin with one.
   */
  function CharWidth(s: Bytes): (n: nat)
    ensures n <= |s| && n <= 4
    ensures n > 0 ==> forall i :: 1 <= i < n ==> IsTail(s[i])
    ensures n > 0 ==> (n == 1 <==> s[0] < 0x80)
  {
    if |s| == 0 then 0
    else
      var b := s[0];
      if b <= 0x7F then 1
      else if 0xC2 <= b <= 0xDF then
        if |s| >= 2 && IsTail(s[1]) then 2 else 0
      else if b == 0xE0 then
        if |s| >= 3 && 0xA0 <= s[1] <= 0xBF && IsTail(s[2]) then 3 else 0
      else if 0xE1 <= b <= 0xEC || 0xEE <= b <= 0xEF then
        if |s| >= 3 && IsTail(s[1]) && IsTail(s[2]) then 3 else 0
      else if b == 0xED then
        if |s| >= 3 && 0x80 <= s[1] <= 0x9F && IsTail(s[2]) then 3 else 0
      else if b == 0xF0 then
        if |s| >= 4 && 0x90 <= s[1] <= 0xBF && IsTail(s[2]) && IsTail(s[3]) then 4 else 0
      else if 0xF1 <= b <= 0xF3 then
        if |s| >= 4 && IsTail(s[1]) && IsTail(s[2]) && IsTail(s[3]) then 4 else 0
      else if b == 0xF4 then
        if |s| >= 4 && 0x80 <= s[1] <= 0x8F && IsTail(s[2]) && IsTail(s[3]) then 4 else 0
      else 0
  }

  /** `s` is a sequence of well-formed `UTF8-char`s. */
  predicate IsUtf8(s: Bytes)
    decreases |s|
  {
    s == [] || (CharWidth(s) > 0 && IsUtf8(s[CharWidth(s)..]))
  }

  /** The first character is decided by its own bytes only. */
  lemma CharWidthPrefix(s: Bytes, t: Bytes)
    requires CharWidth(s) > 0
    requires CharWidth(s) <= |t| && s[..CharWidth(s)] == t[..CharWidth(s)]
    ensures CharWidth(t) == CharWidth(s)
  {
    var n := CharWidth(s);
    assert forall i :: 0 <= i < n ==> s[i] == t[i] by {
      forall i | 0 <= i < n ensures s[i] == t[i] {
        assert s[..n][i] == t[..n][i];
      }
    }
  }

  /** Text made only of ASCII bytes is well formed. */
  lemma {:induction false} AsciiIsUtf8(s: Bytes)
    requires forall i :: 0 <= i < |s| ==> s[i] < 0x80
    ensures IsUtf8(s)
    decreases |s|
  {
    if s != [] {
      AsciiIsUtf8(s[1..]);
    }
  }

  /** Joining two well-formed texts gives a well-formed text. */
  lemma {:induction false} Utf8Append(a: Bytes, b: Bytes)
    requires IsUtf8(a) && IsUtf8(b)
    ensures IsUtf8(a + b)
    decreases |a|
  {
    if a == [] {
      assert a + b == b;
    } else {
      var n := CharWidth(a);
      assert (a + b)[..n] == a[..n];
      CharWidthPrefix(a, a + b);
      assert (a + b)[n..] == a[n..] + b;
      Utf8Append(a[n..], b);
    }
  }

  /**
   An ASCII byte inside a well-formed text always stands on a character
   boundary, so the texts on either side of it are well formed too.
   */
  lemma {:induction false} Utf8SplitAtAscii(a: Bytes, x: bv8, b: Bytes)
    requires x < 0x80
    requires IsUtf8(a + [x] + b)
    ensures IsUtf8(a) && IsUtf8(b)
    decreases |a|
  {
    var s := a + [x] + b;
    var n := CharWidth(s);
    if a == [] {
      assert s[1..] == b;
    } else {
      assert n > 0;
      // a continuation byte is never ASCII, so the first character ends inside `a`
      assert s[|a|] == x && !IsTail(x);
      assert n <= |a|;
      assert s[..n] == a[..n];
      CharWidthPrefix(s, a);
      assert s[n..] == a[n..] + [x] + b;
      Utf8SplitAtAscii(a[n..], x, b);
    }
  }
}
