/**
  The two facts about Rust's `str` that `local_util.rs` relies on:
  `str::is_char_boundary`, and that a `str` is always well-formed UTF-8
  (which `read_to_string` checks and string slicing preserves).
  Strings are byte sequences; indices are byte offsets.
 */
module RustStr {
  import opened RustTypes

  /** A UTF-8 continuation byte, `10xxxxxx`. */
  predicate IsContinuation(b: byte) {
    0x80 <= b < 0xC0
  }

  /** `str::is_char_boundary(i)`: offset 0, the end offset, and every offset whose byte is not
      a continuation byte. An offset past the end is not a boundary. */
  predicate IsCharBoundary(s: seq<byte>, i: nat): (b: bool)
    ensures i == 0 || i == |s| ==> b
    ensures |s| < i ==> !b
  {
    i == 0 || i == |s| || (i < |s| && !IsContinuation(s[i]))
  }

  /** Every byte is below 0x80. */
  predicate IsAscii(s: seq<byte>) {
    forall k :: 0 <= k < |s| ==> s[k] < 0x80
  }

  /** Number of bytes announced by a lead byte, or 0 when `lead` cannot start a character
      (a continuation byte, the overlong leads 0xC0 and 0xC1, or 0xF5 and above). */
  function LeadLength(lead: byte): (n: nat) {
    if lead < 0x80 then 1
    else if 0xC2 <= lead <= 0xDF then 2
    else if 0xE0 <= lead <= 0xEF then 3
    else if 0xF0 <= lead <= 0xF4 then 4
    else 0
  }

  /** The allowed range of the second byte after `lead` (Unicode Table 3-7): it excludes
      overlong forms, surrogates and code points above U+10FFFF. */
  predicate SecondByteOk(lead: byte, b: byte) {
    if lead == 0xE0 then 0xA0 <= b <= 0xBF
    else if lead == 0xED then 0x80 <= b <= 0x9F
    else if lead == 0xF0 then 0x90 <= b <= 0xBF
    else if lead == 0xF4 then 0x80 <= b <= 0x8F
    else IsContinuation(b)
  }

  /** Length in bytes of the well-formed character that `s` starts with, or 0 if it does not
      start with one. */
  function FirstCharLength(s: seq<byte>): (n: nat)
    requires s != []
    ensures n <= |s| && n <= 4
    ensures n > 0 ==> !IsContinuation(s[0]) && forall k :: 1 <= k < n ==> IsContinuation(s[k])
    ensures s[0] < 0x80 ==> n == 1
  {
    var n := LeadLength(s[0]);
    if n == 0 || |s| < n then 0
    else if n >= 2 && !SecondByteOk(s[0], s[1]) then 0
    else if n >= 3 && !IsContinuation(s[2]) then 0
    else if n == 4 && !IsContinuation(s[3]) then 0
    else n
  }

  /** `s` is a sequence of well-formed UTF-8 characters: what Rust guarantees of every `str`. */
  predicate ValidUtf8(s: seq<byte>)
    decreases |s|
  {
    s == [] || (FirstCharLength(s) > 0 && ValidUtf8(s[FirstCharLength(s)..]))
  }

  /** The first character is decided by its own bytes alone. */
  lemma FirstCharOfPrefix(s: seq<byte>, t: seq<byte>)
    requires s != [] && FirstCharLength(s) > 0
    requires FirstCharLength(s) <= |t| && t[..FirstCharLength(s)] == s[..FirstCharLength(s)]
    ensures FirstCharLength(t) == FirstCharLength(s)
  {
    var n := FirstCharLength(s);
    assert forall k :: 0 <= k < n ==> t[k] == t[..n][k] == s[..n][k] == s[k];
  }

  /** Appending well-formed text to well-formed text is well-formed. */
  lemma {:induction false} ConcatValid(a: seq<byte>, b: seq<byte>)
    requires ValidUtf8(a) && ValidUtf8(b)
    ensures ValidUtf8(a + b)
  {
    if a == [] {
      assert a + b == b;
    } else {
      var n := FirstCharLength(a);
      assert (a + b)[..n] == a[..n];
      FirstCharOfPrefix(a, a + b);
      assert (a + b)[n..] == a[n..] + b;
      ConcatValid(a[n..], b);
    }
  }

  /** In well-formed text, the boundaries after the first character are the boundaries of the rest. */
  lemma BoundaryInRest(s: seq<byte>, k: nat)
    requires ValidUtf8(s) && s != []
    requires FirstCharLength(s) <= k <= |s|
    ensures IsCharBoundary(s, k) <==> IsCharBoundary(s[FirstCharLength(s)..], k - FirstCharLength(s))
  {
    var n := FirstCharLength(s);
    if k == n && n < |s| {
      assert s[n..][0] == s[n];
    }
  }

  /** The first character of well-formed text is well-formed on its own. */
  lemma FirstCharValid(s: seq<byte>)
    requires ValidUtf8(s) && s != []
    ensures ValidUtf8(s[..FirstCharLength(s)])
  {
    var n := FirstCharLength(s);
    FirstCharOfPrefix(s, s[..n]);
    assert s[..n][n..] == [];
  }

  /** Slicing well-formed text at a character boundary leaves two well-formed halves:
      the reason Rust panics instead of slicing anywhere else. */
  lemma {:induction false} SplitValid(s: seq<byte>, i: nat)
    requires ValidUtf8(s) && IsCharBoundary(s, i)
    ensures i <= |s| && ValidUtf8(s[..i]) && ValidUtf8(s[i..])
  {
    if i == 0 {
      assert s[..0] == [] && s[0..] == s;
    } else if i == |s| {
      assert s[..i] == s && s[i..] == [];
    } else {
      var n := FirstCharLength(s);
      var rest := s[n..];
      BoundaryInRest(s, i);
      SplitValid(rest, i - n);
      FirstCharValid(s);
      SplitJoin(s, n, i);
      ConcatValid(s[..n], rest[..i - n]);
    }
  }

  /** Re-slicing a suffix: the pieces of `s[n..]` are pieces of `s`. */
  lemma SplitJoin(s: seq<byte>, n: nat, i: nat)
    requires n <= i <= |s|
    ensures s[..i] == s[..n] + s[n..][..i - n]
    ensures s[i..] == s[n..][i - n..]
  {
  }

  /** Pure ASCII is well-formed UTF-8. */
  lemma {:induction false} AsciiValid(s: seq<byte>)
    requires IsAscii(s)
    ensures ValidUtf8(s)
  {
    if s != [] {
      assert IsAscii(s[1..]);
      AsciiValid(s[1..]);
    }
  }

  /** In well-formed text a boundary is never more than three bytes ahead, since a character
      has at most four bytes. */
  lemma {:induction false} BoundaryWithinThree(s: seq<byte>, i: nat) returns (b: nat)
    requires ValidUtf8(s) && i <= |s|
    ensures i <= b <= i + 3 && b <= |s| && IsCharBoundary(s, b)
  {
    if IsCharBoundary(s, i) {
      return i;
    }
    var n := FirstCharLength(s);
    BoundaryInRest(s, n);
    if i < n {
      b := n;
    } else {
      var b' := BoundaryWithinThree(s[n..], i - n);
      b := b' + n;
      BoundaryInRest(s, b);
    }
  }
}
