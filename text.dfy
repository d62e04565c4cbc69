/**
 * String helpers with the meaning of the Rust standard-library calls the
 * program makes on ASCII text: `starts_with`, `contains`, `split`, the `{:<w$}`
 * formatting width, and case conversion.
 */
module Text {
  import opened Base

  /** `s.starts_with(p)`. */
  predicate StartsWith(s: string, p: string) {
    |p| <= |s| && s[..|p|] == p
  }

  /** `t` occurs in `s` at index `i`. */
  predicate OccursAt(s: string, t: string, i: nat) {
    i + |t| <= |s| && s[i..i + |t|] == t
  }

  /** The first index at or after `from` at which `t` occurs in `s`. */
  function FindFrom(s: string, t: string, from: nat): (r: Option<nat>)
    ensures r.Some? ==> from <= r.value && OccursAt(s, t, r.value)
    ensures forall j :: from <= j && (r.None? || j < r.value) ==> !OccursAt(s, t, j)
    decreases |s| - from
  {
    if from + |t| > |s| then None
    else if s[from..from + |t|] == t then Some(from)
    else FindFrom(s, t, from + 1)
  }

  /** `s.contains(t)`. */
  predicate ContainsSub(s: string, t: string) {
    FindFrom(s, t, 0).Some?
  }

  /** Gluing the pieces back together with the separator between them. */
  function Join(parts: seq<string>, sep: string): string
    requires |parts| > 0
  {
    if |parts| == 1 then parts[0] else parts[0] + sep + Join(parts[1..], sep)
  }

  /** Nothing before the first occurrence at `i` is itself an occurrence. */
  lemma PrefixBeforeFirstMatch(s: string, sep: string, i: nat)
    requires |sep| > 0 && i <= |s|
    requires forall j :: 0 <= j < i ==> !OccursAt(s, sep, j)
    ensures !ContainsSub(s[..i], sep)
  {
    var p := s[..i];
    match FindFrom(p, sep, 0)
    case None =>
    case Some(j) =>
      assert p[j..j + |sep|] == s[j..j + |sep|];
      assert OccursAt(s, sep, j);
  }

  /**
   * `s.split(sep).collect()`: the pieces between the left-to-right,
   * non-overlapping occurrences of `sep`.
   */
  function SplitOn(s: string, sep: string): (parts: seq<string>)
    requires |sep| > 0
    ensures |parts| > 0
    decreases |s|
  {
    match FindFrom(s, sep, 0)
    case None => [s]
    case Some(i) => [s[..i]] + SplitOn(s[i + |sep|..], sep)
  }

  /**
   * The pieces joined with the separator give back the input, none of them
   * contains the separator, and there is more than one exactly when the input
   * contains it.
   */
  lemma {:induction false} SplitOnSpec(s: string, sep: string)
    requires |sep| > 0
    ensures Join(SplitOn(s, sep), sep) == s
    ensures (|SplitOn(s, sep)| > 1) == ContainsSub(s, sep)
    ensures forall k :: 0 <= k < |SplitOn(s, sep)| ==> !ContainsSub(SplitOn(s, sep)[k], sep)
    decreases |s|
  {
    match FindFrom(s, sep, 0)
    case None =>
    case Some(i) =>
      PrefixBeforeFirstMatch(s, sep, i);
      var rest := SplitOn(s[i + |sep|..], sep);
      SplitOnSpec(s[i + |sep|..], sep);
      var parts := [s[..i]] + rest;
      assert parts[1..] == rest;
      assert s[..i] + sep + s[i + |sep|..] == s by {
        assert s[i..i + |sep|] == sep;
        assert s == s[..i] + s[i..i + |sep|] + s[i + |sep|..];
      }
      forall k | 0 <= k < |parts|
        ensures !ContainsSub(parts[k], sep)
      {
        if k > 0 {
          assert parts[k] == rest[k - 1];
        }
      }
  }

  /** A string without the separator splits into itself alone. */
  lemma SplitWithoutSep(s: string, sep: string)
    requires |sep| > 0 && !ContainsSub(s, sep)
    ensures SplitOn(s, sep) == [s]
  {
  }

  /**
   * When the first occurrence of `sep` in `a + sep + b` is the one right after
   * `a`, the first piece is `a` and the rest is the split of `b`.
   */
  lemma SplitAtFirst(a: string, sep: string, b: string)
    requires |sep| > 0
    requires forall j :: 0 <= j < |a| ==> !OccursAt(a + sep + b, sep, j)
    ensures SplitOn(a + sep + b, sep) == [a] + SplitOn(b, sep)
  {
    var s := a + sep + b;
    assert OccursAt(s, sep, |a|) by {
      assert s[|a|..|a| + |sep|] == sep;
    }
    assert FindFrom(s, sep, 0) == Some(|a|);
    assert s[..|a|] == a && s[|a| + |sep|..] == b;
  }

  /** A pattern whose first character is absent from `s` does not occur in it. */
  lemma AbsentHead(s: string, t: string)
    requires |t| > 0 && t[0] !in s
    ensures !ContainsSub(s, t)
    ensures forall b: string, j :: 0 <= j < |s| ==> !OccursAt(s + t + b, t, j)
  {
    forall j: nat
      ensures !OccursAt(s, t, j)
    {
      if j + |t| <= |s| {
        assert s[j..j + |t|][0] == s[j];
      }
    }
    forall b: string, j | 0 <= j < |s|
      ensures !OccursAt(s + t + b, t, j)
    {
      var w := s + t + b;
      if j + |t| <= |w| {
        assert w[j..j + |t|][0] == w[j] == s[j];
      }
    }
  }

  /** `n` blanks. */
  function Spaces(n: nat): (r: string)
    ensures |r| == n && forall k :: 0 <= k < n ==> r[k] == ' '
  {
    seq(n, _ => ' ')
  }

  /** `format!("{:<w$}", s)`: `s` left-aligned in a field at least `w` characters wide. */
  function PadRight(s: string, w: nat): (r: string)
    ensures |r| == if |s| < w then w else |s|
    ensures r == s + Spaces(|r| - |s|)
  {
    if |s| < w then s + Spaces(w - |s|) else s
  }

  /** ASCII upper case of one character; other characters are unchanged. */
  function UpperChar(c: char): char {
    if 'a' <= c <= 'z' then (c as int - 32) as char else c
  }

  /** ASCII lower case of one character; other characters are unchanged. */
  function LowerChar(c: char): char {
    if 'A' <= c <= 'Z' then (c as int + 32) as char else c
  }

  /** `s.to_uppercase()` restricted to ASCII letters. */
  function Upper(s: string): (r: string)
    ensures |r| == |s|
  {
    seq(|s|, k requires 0 <= k < |s| => UpperChar(s[k]))
  }

  /** `s.to_lowercase()` restricted to ASCII letters. */
  function Lower(s: string): (r: string)
    ensures |r| == |s|
  {
    seq(|s|, k requires 0 <= k < |s| => LowerChar(s[k]))
  }

  /**
   * Folding to one case leaves no letter of the other case, and each
   * character is the input's character up to case.
   */
  lemma FoldedLetters(s: string)
    ensures forall k :: 0 <= k < |s| ==> !('a' <= Upper(s)[k] <= 'z') && !('A' <= Lower(s)[k] <= 'Z')
    ensures forall k :: 0 <= k < |s| ==> LowerChar(Upper(s)[k]) == LowerChar(s[k])
    ensures forall k :: 0 <= k < |s| ==> UpperChar(Lower(s)[k]) == UpperChar(s[k])
  {
  }

  /** Two characters agree up to case whichever way case is folded. */
  lemma CharFoldsAgree(a: char, b: char)
    ensures UpperChar(a) == UpperChar(b) <==> LowerChar(a) == LowerChar(b)
  {
  }

  /**
   * Folding to one case forgets the other: upper-casing a lower-cased string
   * is upper-casing it, and two strings have the same upper case exactly when
   * they have the same lower case.
   */
  lemma CaseFolding(p: string, q: string)
    ensures Upper(Lower(p)) == Upper(p) && Lower(Upper(p)) == Lower(p)
    ensures Upper(Upper(p)) == Upper(p) && Lower(Lower(p)) == Lower(p)
    ensures Upper(p) == Upper(q) <==> Lower(p) == Lower(q)
  {
    if |p| == |q| {
      forall k | 0 <= k < |p|
        ensures UpperChar(p[k]) == UpperChar(q[k]) <==> LowerChar(p[k]) == LowerChar(q[k])
      {
        CharFoldsAgree(p[k], q[k]);
      }
      if Upper(p) == Upper(q) {
        assert forall k :: 0 <= k < |p| ==> Upper(p)[k] == Upper(q)[k];
      }
      if Lower(p) == Lower(q) {
        assert forall k :: 0 <= k < |p| ==> Lower(p)[k] == Lower(q)[k];
      }
    }
  }

  /** Every character is ASCII. */
  predicate IsAscii(s: string) {
    forall k :: 0 <= k < |s| ==> s[k] as int < 0x80
  }

  // ---------------------------------------------------------------------
  // `s.bytes()`: the UTF-8 encoding of a string

  /** The lead byte of a UTF-8 sequence of length `n`: `0xxxxxxx`, `110xxxxx`, `1110xxxx` or `11110xxx`. */
  predicate LeadByte(b: Byte, n: nat) {
    if n == 1 then b < 0x80
    else if n == 2 then 0xC0 <= b < 0xE0
    else if n == 3 then 0xE0 <= b < 0xF0
    else n == 4 && 0xF0 <= b < 0xF8
  }

  /** The code point a well-formed UTF-8 sequence of one to four bytes carries. */
  function DecodeUnit(r: seq<Byte>): int
    requires 1 <= |r| <= 4
  {
    var payload := if |r| == 1 then r[0] as int
                   else if |r| == 2 then r[0] as int - 0xC0
                   else if |r| == 3 then r[0] as int - 0xE0
                   else r[0] as int - 0xF0;
    Continuation(payload, r[1..])
  }

  /** Shifts `acc` left by six bits for each continuation byte and adds its low six bits. */
  function Continuation(acc: int, tail: seq<Byte>): int
    decreases |tail|
  {
    if tail == [] then acc
    else Continuation(acc * 0x40 + (tail[0] as int - 0x80), tail[1..])
  }

  /** The UTF-8 encoding of one Unicode scalar value. */
  function EncodeChar(c: char): (r: seq<Byte>)
    ensures |r| == CharLen(c)
    ensures LeadByte(r[0], |r|)
    ensures forall k :: 1 <= k < |r| ==> 0x80 <= r[k] < 0xC0
    ensures DecodeUnit(r) == c as int
  {
    // n is split into 6-bit groups: n == ((x * 64 + y) * 64 + z) * 64 + w
    var n := c as int;
    var w, n1 := n % 0x40, n / 0x40;
    var z, n2 := n1 % 0x40, n1 / 0x40;
    var y, x := n2 % 0x40, n2 / 0x40;
    assert n == n1 * 0x40 + w && n1 == n2 * 0x40 + z && n2 == x * 0x40 + y;
    if n < 0x80 then [n]
    else if n < 0x800 then
      var r: seq<Byte> := [0xC0 + n1, 0x80 + w];
      assert Continuation(n1, r[1..]) == Continuation(n, []) by { assert r[1..][1..] == []; }
      r
    else if n < 0x1_0000 then
      var r: seq<Byte> := [0xE0 + n2, 0x80 + z, 0x80 + w];
      assert Continuation(n2, r[1..]) == Continuation(n, []) by {
        assert r[1..][1..] == [0x80 + w] && r[1..][1..][1..] == [];
      }
      r
    else
      var r: seq<Byte> := [0xF0 + x, 0x80 + y, 0x80 + z, 0x80 + w];
      assert Continuation(x, r[1..]) == Continuation(n, []) by {
        var t1 := r[1..];
        var t2 := t1[1..];
        var t3 := t2[1..];
        assert t2 == [0x80 + z, 0x80 + w] && t3 == [0x80 + w] && t3[1..] == [];
        assert Continuation(x, t1) == Continuation(n2, t2);
        assert Continuation(n2, t2) == Continuation(n1, t3);
      }
      r
  }

  /** The UTF-8 encoding of a string, character after character. */
  function Utf8(s: string): (r: seq<Byte>)
    ensures |s| <= |r| <= 4 * |s|
  {
    if s == [] then [] else EncodeChar(s[0]) + Utf8(s[1..])
  }

  /** On ASCII text the encoding is the character codes themselves. */
  lemma {:induction false} Utf8Ascii(s: string)
    requires IsAscii(s)
    ensures |Utf8(s)| == |s|
    ensures forall k :: 0 <= k < |s| ==> Utf8(s)[k] == s[k] as int
  {
    if s != [] {
      Utf8Ascii(s[1..]);
      assert forall k :: 1 <= k < |s| ==> s[k] == s[1..][k - 1];
    }
  }

  /** Encoding a concatenation encodes each part in turn. */
  lemma {:induction false} Utf8Concat(a: string, b: string)
    ensures Utf8(a + b) == Utf8(a) + Utf8(b)
    decreases |a|
  {
    if a == [] {
      assert a + b == b;
    } else {
      assert (a + b)[0] == a[0] && (a + b)[1..] == a[1..] + b;
      Utf8Concat(a[1..], b);
    }
  }

  /** The number of bytes UTF-8 uses for `c`: one to four, by code-point range. */
  function CharLen(c: char): nat {
    if c as int < 0x80 then 1 else if c as int < 0x800 then 2 else if c as int < 0x1_0000 then 3 else 4
  }

  /** `s.len()`: the length of `s` in UTF-8 bytes, one to four per character. */
  function ByteLen(s: string): (n: nat)
    ensures |s| <= n <= 4 * |s|
    decreases |s|
  {
    if s == [] then 0 else CharLen(s[0]) + ByteLen(s[1..])
  }

  /** The bytes `s` takes beyond one per character: `s.len()` less its number of characters. */
  function ExtraBytes(s: string): nat {
    ByteLen(s) - |s|
  }

  /** The byte length equals the number of characters exactly when the text is ASCII. */
  lemma {:induction false} ByteLenAscii(s: string)
    ensures ByteLen(s) == |s| <==> IsAscii(s)
    decreases |s|
  {
    if s != [] {
      ByteLenAscii(s[1..]);
      assert IsAscii(s) <==> s[0] as int < 0x80 && IsAscii(s[1..]) by {
        assert forall k :: 1 <= k < |s| ==> s[k] == s[1..][k - 1];
      }
    }
  }

  /** `s.len()` counts the bytes `s.bytes()` yields. */
  lemma {:induction false} ByteLenIsUtf8Length(s: string)
    ensures ByteLen(s) == |Utf8(s)|
    decreases |s|
  {
    if s != [] {
      ByteLenIsUtf8Length(s[1..]);
    }
  }

  /** The byte length of a concatenation is the sum of the parts' byte lengths. */
  lemma ByteLenConcat(a: string, b: string)
    ensures ByteLen(a + b) == ByteLen(a) + ByteLen(b)
  {
    ByteLenIsUtf8Length(a + b);
    ByteLenIsUtf8Length(a);
    ByteLenIsUtf8Length(b);
    Utf8Concat(a, b);
  }
}
