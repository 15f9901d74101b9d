/**
 * Well-formed UTF-8 (RFC 3629, section 4), the check that a Rust `String`
 * always satisfies and that prost's string decoder applies to a payload.
 */
module Utf8 {
  import opened Bytes

  predicate IsContinuation(b: byte) {
    0x80 <= b <= 0xBF
  }

  /**
   * The number of bytes of the well-formed character that starts `s`,
   * or 0 when `s` does not start with one (the table of RFC 3629, section 4).
   */
  function CharWidth(s: seq<byte>): (w: nat)
    ensures w <= 4 && w <= |s|
    ensures 0 < w && s[0] < 0x80 ==> w == 1
  {
    if |s| == 0 then 0
    else
      var b := s[0];
      if b < 0x80 then 1
      else if 0xC2 <= b <= 0xDF then
        (if |s| >= 2 && IsContinuation(s[1]) then 2 else 0)
      else if 0xE0 <= b <= 0xEF then
        var lo: byte := if b == 0xE0 then 0xA0 else 0x80;
        var hi: byte := if b == 0xED then 0x9F else 0xBF;
        (if |s| >= 3 && lo <= s[1] <= hi && IsContinuation(s[2]) then 3 else 0)
      else if 0xF0 <= b <= 0xF4 then
        var lo: byte := if b == 0xF0 then 0x90 else 0x80;
        var hi: byte := if b == 0xF4 then 0x8F else 0xBF;
        (if |s| >= 4 && lo <= s[1] <= hi && IsContinuation(s[2]) && IsContinuation(s[3]) then 4 else 0)
      else 0
  }

  /** `s` is a sequence of well-formed UTF-8 characters. */
  predicate ValidUtf8(s: seq<byte>)
    decreases |s|
  {
    |s| == 0 || (CharWidth(s) > 0 && ValidUtf8(s[CharWidth(s)..]))
  }

  /** The bytes after the first byte of a character are continuation bytes, never ASCII. */
  lemma ContinuationBytes(s: seq<byte>, k: nat)
    requires 1 <= k < CharWidth(s)
    ensures s[k] >= 0x80
  {
  }

  /** The width of the first character is decided by that character's own bytes. */
  lemma CharWidthOfPrefix(s: seq<byte>, t: seq<byte>)
    requires CharWidth(s) > 0
    requires |t| >= CharWidth(s) && t[..CharWidth(s)] == s[..CharWidth(s)]
    ensures CharWidth(t) == CharWidth(s)
  {
    var w := CharWidth(s);
    assert t[0] == s[0];
    assert w >= 2 ==> t[1] == s[1];
    assert w >= 3 ==> t[2] == s[2];
    assert w >= 4 ==> t[3] == s[3];
  }

  /** Appending to a text keeps its first character and the text after it. */
  lemma ConcatHead(a: seq<byte>, b: seq<byte>)
    requires CharWidth(a) > 0
    ensures CharWidth(a + b) == CharWidth(a)
    ensures (a + b)[CharWidth(a)..] == a[CharWidth(a)..] + b
  {
    var w := CharWidth(a);
    assert (a + b)[..w] == a[..w];
    CharWidthOfPrefix(a, a + b);
  }

  /** A well-formed first character followed by well-formed text is well-formed text. */
  lemma ValidFromHead(s: seq<byte>)
    requires CharWidth(s) > 0 && ValidUtf8(s[CharWidth(s)..])
    ensures ValidUtf8(s)
  {
  }

  /** Joining two well-formed texts gives a well-formed text. */
  lemma {:induction false} ConcatValid(a: seq<byte>, b: seq<byte>)
    requires ValidUtf8(a) && ValidUtf8(b)
    ensures ValidUtf8(a + b)
    decreases |a|
  {
    if |a| == 0 {
      assert a + b == b;
    } else {
      ConcatHead(a, b);
      ConcatValid(a[CharWidth(a)..], b);
      ValidFromHead(a + b);
    }
  }

  /** Non-empty well-formed text is a well-formed first character followed by well-formed text. */
  lemma ValidTail(s: seq<byte>)
    requires ValidUtf8(s) && |s| > 0
    ensures CharWidth(s) > 0 && ValidUtf8(s[CharWidth(s)..])
  {
  }

  /** A prefix that holds the first character keeps it, and the text after it is cut the same way. */
  lemma PrefixHead(s: seq<byte>, n: nat)
    requires CharWidth(s) > 0 && CharWidth(s) <= n <= |s|
    ensures CharWidth(s[..n]) == CharWidth(s)
    ensures s[..n][CharWidth(s)..] == s[CharWidth(s)..][..n - CharWidth(s)]
  {
    var w := CharWidth(s);
    assert s[..n][..w] == s[..w];
    CharWidthOfPrefix(s, s[..n]);
  }

  /**
   * An ASCII byte inside well-formed text is a character of its own, so
   * cutting the text around it leaves two well-formed texts.
   */
  lemma {:induction false} SplitAtAscii(s: seq<byte>, i: nat)
    requires ValidUtf8(s) && i < |s| && s[i] < 0x80
    ensures ValidUtf8(s[..i]) && ValidUtf8(s[i + 1..])
    decreases |s|
  {
    ValidTail(s);
    var w := CharWidth(s);
    if i == 0 {
      assert s[..i] == [] && s[i + 1..] == s[w..];
    } else {
      if i < w {
        ContinuationBytes(s, i);
      }
      var tail := s[w..];
      assert ValidUtf8(tail[..i - w]) && ValidUtf8(s[i + 1..]) by {
        SplitAtAscii(tail, i - w);
        assert s[i + 1..] == tail[i - w + 1..];
      }
      assert ValidUtf8(s[..i]) by {
        PrefixHead(s, i);
        ValidFromHead(s[..i]);
      }
    }
  }
}
