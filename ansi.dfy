/**
 * The ANSI escape-code utility: seven SGR colour codes plus `INVALID`,
 * the case-insensitive name lookup, `strip` (a one-flag state machine that
 * drops every run from ESC through the next `m`), `apply` and `true_len`.
 */
module Ansi {
  import opened Text

  const ESC: char := '\U{1B}'

  datatype Ansi = RESET | RED | GREEN | YELLOW | BLUE | MAGENTA | CYAN | INVALID

  /** `ESC [ <digits> m`: the shape of a Select Graphic Rendition sequence. */
  predicate IsSgr(s: string) {
    |s| >= 4 && s[0] == ESC && s[1] == '[' && s[|s| - 1] == 'm'
    && forall k :: 2 <= k < |s| - 1 ==> '0' <= s[k] <= '9'
  }

  /** The raw escape sequence of a variant; `INVALID` has none. */
  function Code(c: Ansi): (r: string)
    ensures r == [] <==> c == INVALID
    ensures c != INVALID ==> IsSgr(r)
  {
    match c
    case RESET => "\U{1B}[0m"
    case RED => "\U{1B}[31m"
    case GREEN => "\U{1B}[32m"
    case YELLOW => "\U{1B}[33m"
    case BLUE => "\U{1B}[34m"
    case MAGENTA => "\U{1B}[35m"
    case CYAN => "\U{1B}[36m"
    case INVALID => ""
  }

  /** The upper-case name that selects a variant; `INVALID` answers to no name. */
  function Name(c: Ansi): string {
    match c
    case RESET => "RESET"
    case RED => "RED"
    case GREEN => "GREEN"
    case YELLOW => "YELLOW"
    case BLUE => "BLUE"
    case MAGENTA => "MAGENTA"
    case CYAN => "CYAN"
    case INVALID => ""
  }

  /**
   * `Ansi::from_str`: upper-cases its input and picks the variant with that
   * name; every other string gives `INVALID`.
   */
  function FromStr(s: string): (r: Ansi)
    ensures r != INVALID ==> Upper(s) == Name(r)
    ensures r == INVALID ==> forall c: Ansi :: c != INVALID ==> Upper(s) != Name(c)
  {
    match Upper(s)
    case "RESET" => RESET
    case "RED" => RED
    case "GREEN" => GREEN
    case "YELLOW" => YELLOW
    case "BLUE" => BLUE
    case "MAGENTA" => MAGENTA
    case "CYAN" => CYAN
    case _ => INVALID
  }

  /**
   * The filter of `strip`, run from a given value of its `in_ansi` flag: ESC
   * sets the flag and is dropped, `m` while the flag is set clears it and is
   * dropped, any other character is kept exactly when the flag is clear.
   */
  function StripFrom(s: string, inAnsi: bool): (r: string)
    ensures |r| <= |s|
    ensures ESC !in r
    decreases |s|
  {
    if s == [] then []
    else if s[0] == ESC then StripFrom(s[1..], true)
    else if s[0] == 'm' && inAnsi then StripFrom(s[1..], false)
    else if inAnsi then StripFrom(s[1..], true)
    else [s[0]] + StripFrom(s[1..], false)
  }

  /** The filter never lengthens its input in bytes either. */
  lemma {:induction false} StripFromBytes(s: string, inAnsi: bool)
    ensures ByteLen(StripFrom(s, inAnsi)) <= ByteLen(s)
    decreases |s|
  {
    if s != [] {
      var next := if s[0] == ESC then true else if s[0] == 'm' && inAnsi then false else inAnsi;
      StripFromBytes(s[1..], next);
      if s[0] != ESC && !inAnsi {
        var rest := StripFrom(s[1..], false);
        assert ([s[0]] + rest)[0] == s[0] && ([s[0]] + rest)[1..] == rest;
      }
    }
  }

  /** The value of the `in_ansi` flag after the filter has seen all of `s`. */
  function EndState(s: string, inAnsi: bool): bool
    decreases |s|
  {
    if s == [] then inAnsi
    else if s[0] == ESC then EndState(s[1..], true)
    else if s[0] == 'm' && inAnsi then EndState(s[1..], false)
    else EndState(s[1..], inAnsi)
  }

  /** `Ansi::strip`: the filter starts outside any escape sequence. */
  function Strip(s: string): string {
    StripFrom(s, false)
  }

  /** `c.apply(s)`: the code, the text, then the reset code. */
  function Apply(c: Ansi, s: string): string {
    Code(c) + s + Code(RESET)
  }

  /**
   * `Ansi::true_len`: the length in UTF-8 bytes of what is left once escape
   * sequences are stripped, never more than the raw length in bytes.
   */
  function TrueLen(s: string): (n: nat)
    ensures |Strip(s)| <= n <= ByteLen(s)
  {
    StripFromBytes(s, false);
    ByteLen(Strip(s))
  }

  /**
   * The true length is the number of bytes `strip(s).bytes()` yields, and it
   * equals the stripped character count exactly when the stripped text is ASCII.
   */
  lemma TrueLenCountsBytes(s: string)
    ensures TrueLen(s) == |Utf8(Strip(s))|
    ensures TrueLen(s) == |Strip(s)| <==> IsAscii(Strip(s))
  {
    ByteLenIsUtf8Length(Strip(s));
    ByteLenAscii(Strip(s));
  }

  // ---------------------------------------------------------------------
  // Properties of `strip`

  /** Text with no ESC passes through the filter unchanged. */
  lemma {:induction false} StripWithoutEsc(s: string)
    requires ESC !in s
    ensures StripFrom(s, false) == s
    ensures EndState(s, false) == false
    decreases |s|
  {
    if s != [] {
      StripWithoutEsc(s[1..]);
    }
  }

  /** `strip` returns ESC-free text unchanged, and is idempotent. */
  lemma StripIdempotent(s: string)
    ensures ESC !in s ==> Strip(s) == s
    ensures Strip(Strip(s)) == Strip(s)
  {
    if ESC !in s {
      StripWithoutEsc(s);
    }
    StripWithoutEsc(Strip(s));
  }

  /** The filter runs over a concatenation piece by piece, carrying its flag across. */
  lemma {:induction false} StripConcat(a: string, b: string, inAnsi: bool)
    ensures StripFrom(a + b, inAnsi) == StripFrom(a, inAnsi) + StripFrom(b, EndState(a, inAnsi))
    ensures EndState(a + b, inAnsi) == EndState(b, EndState(a, inAnsi))
    decreases |a|
  {
    if a != [] {
      assert (a + b)[0] == a[0] && (a + b)[1..] == a[1..] + b;
      var next := if a[0] == ESC then true else if a[0] == 'm' && inAnsi then false else inAnsi;
      StripConcat(a[1..], b, next);
    } else {
      assert a + b == b;
    }
  }

  /** Once inside a sequence, text without an `m` is all dropped and the flag stays set. */
  lemma {:induction false} UnterminatedDropped(s: string)
    requires 'm' !in s
    ensures StripFrom(s, true) == []
    ensures EndState(s, true)
    decreases |s|
  {
    if s != [] {
      UnterminatedDropped(s[1..]);
    }
  }

  /** An ESC that no `m` follows makes `strip` drop the whole rest of the string. */
  lemma StripDropsUnterminatedTail(p: string, tail: string)
    requires 'm' !in tail
    ensures Strip(p + [ESC] + tail) == Strip(p)
  {
    StripConcat(p + [ESC], tail, false);
    StripConcat(p, [ESC], false);
    UnterminatedDropped(tail);
  }

  /**
   * A sequence `ESC body m`, whatever its body holds apart from `m`, is removed
   * and leaves the filter outside any sequence, so the text after it is kept
   * as if it stood alone.
   */
  lemma RemovesWholeSequence(p: string, body: string, q: string, inAnsi: bool)
    requires 'm' !in body
    ensures StripFrom(p + [ESC] + body + ['m'] + q, inAnsi) == StripFrom(p, inAnsi) + Strip(q)
  {
    var mq := ['m'] + q;
    var rest := body + mq;
    var tail := [ESC] + rest;
    assert p + [ESC] + body + ['m'] + q == p + tail;
    StripConcat(p, tail, inAnsi);
    assert StripFrom(tail, EndState(p, inAnsi)) == StripFrom(rest, true) by {
      assert tail[1..] == rest;
    }
    StripConcat(body, mq, true);
    UnterminatedDropped(body);
    assert mq[1..] == q;
  }

  /** An `m` seen outside a sequence is ordinary text and is kept. */
  lemma StrayMKept(p: string, q: string)
    requires EndState(p, false) == false
    ensures Strip(p + ['m'] + q) == Strip(p) + ['m'] + Strip(q)
  {
    StripConcat(p, ['m'] + q, false);
    assert p + ['m'] + q == p + (['m'] + q);
  }

  // ---------------------------------------------------------------------
  // Properties of the codes and of `apply`

  /** Every code is invisible, and the reset code always leaves the filter outside a sequence. */
  lemma {:induction false} CodeInvisible(c: Ansi, inAnsi: bool)
    ensures StripFrom(Code(c), inAnsi) == []
    ensures c != INVALID ==> EndState(Code(c), inAnsi) == false
  {
    var r := Code(c);
    if c != INVALID {
      assert r == [ESC] + r[1..];
      assert r[1..] == r[1..|r| - 1] + ['m'];
      assert 'm' !in r[1..|r| - 1];
      UnterminatedDropped(r[1..|r| - 1]);
      StripConcat(r[1..|r| - 1], ['m'], true);
    }
  }

  /**
   * `apply` on ESC-free text: `strip` recovers the text (unless an `INVALID`
   * code is applied while a sequence is already open) and the filter ends
   * outside a sequence.
   */
  lemma ApplyStrips(c: Ansi, s: string, inAnsi: bool)
    requires ESC !in s
    ensures c != INVALID || !inAnsi ==> StripFrom(Apply(c, s), inAnsi) == s
    ensures EndState(Apply(c, s), inAnsi) == false
  {
    var e := EndState(Code(c), inAnsi);
    CodeInvisible(c, inAnsi);
    CodeInvisible(RESET, EndState(s, e));
    StripConcat(Code(c) + s, Code(RESET), inAnsi);
    StripConcat(Code(c), s, inAnsi);
    if c == INVALID {
      assert Code(c) + s == s;
    }
    if e == false {
      StripWithoutEsc(s);
    }
  }

  /** For ESC-free `s`, the true length of `c.apply(s)` is the length of `s` in bytes. */
  lemma TrueLenApply(c: Ansi, s: string)
    requires ESC !in s
    ensures TrueLen(Apply(c, s)) == ByteLen(s)
  {
    ApplyStrips(c, s, false);
  }

  /**
   * The example in the `true_len` doc comment: `RED.apply("Hello, world!")`
   * is 22 bytes long, ESC being one byte, where the comment says 28.
   */
  lemma HelloWorldRawLength()
    ensures ByteLen(Apply(RED, "Hello, world!")) == 22
  {
    AppliedBytes(RED, "Hello, world!");
    HelloBytes();
  }

  /** The same example: its true length is the 13 bytes of the text. */
  lemma HelloWorldExample()
    ensures TrueLen(Apply(RED, "Hello, world!")) == 13
  {
    TrueLenApply(RED, "Hello, world!");
    HelloBytes();
  }

  lemma HelloBytes()
    ensures ByteLen("Hello, world!") == 13
  {
  }

  /** Applying a colour adds the bytes of the two codes. */
  lemma AppliedBytes(c: Ansi, s: string)
    ensures ByteLen(Apply(c, s)) == |Code(c)| + ByteLen(s) + |Code(RESET)|
  {
    CodeBytes(c);
    CodeBytes(RESET);
    ByteLenConcat(Code(c), s);
    ByteLenConcat(Code(c) + s, Code(RESET));
  }

  /** Every code is ASCII, one byte per character. */
  lemma CodeBytes(c: Ansi)
    ensures ByteLen(Code(c)) == |Code(c)|
  {
    assert IsAscii(Code(c));
    ByteLenAscii(Code(c));
  }

  // ---------------------------------------------------------------------
  // Properties of the name lookup

  lemma UpperOfUpper(s: string)
    requires forall k :: 0 <= k < |s| ==> !('a' <= s[k] <= 'z')
    ensures Upper(s) == s
  {
  }

  lemma UpperUpper(s: string)
    ensures Upper(Upper(s)) == Upper(s)
    ensures Upper(Lower(s)) == Upper(s)
  {
  }

  /** The lookup ignores case, and every named variant is found by its name in any case. */
  lemma FromStrCaseInsensitive(s: string, c: Ansi)
    ensures FromStr(Lower(s)) == FromStr(s) && FromStr(Upper(s)) == FromStr(s)
    ensures c != INVALID ==> FromStr(Name(c)) == c && FromStr(Lower(Name(c))) == c
  {
    UpperUpper(s);
    UpperUpper(Name(c));
    UpperOfUpper(Name(c));
  }
}
