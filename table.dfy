/**
 * `print_table` and its two helpers: the text of one entry per byte, and the
 * placement of the entries in a grid of `columns` columns, filled column by
 * column or, with `horizontal`, row by row. The table is returned as rows of
 * cells; printing them is left to the caller.
 */
module Table {
  import opened Base
  import opened Text
  import opened Numeric
  import opened Ansi
  import opened ByteSpec
  import opened Options

  // ---------------------------------------------------------------------
  // The four numeric forms of a byte

  /** `format!("{:03}", byte)`. */
  function DecStr(b: Byte): (s: string)
    ensures |s| == 3
  {
    FixedDigits(b, 10, 3)
  }

  /** `format!("0x{:02X}", byte)`. */
  function HexStr(b: Byte): (s: string)
    ensures |s| == 4
  {
    "0x" + FixedDigits(b, 16, 2)
  }

  /** `format!("0o{:03o}", byte)`. */
  function OctStr(b: Byte): (s: string)
    ensures |s| == 5
  {
    "0o" + FixedDigits(b, 8, 3)
  }

  /** `format!("0b{:08b}", byte)`. */
  function BinStr(b: Byte): (s: string)
    ensures |s| == 10
  {
    "0b" + FixedDigits(b, 2, 8)
  }

  /** Every form the table prints reads back, through `parse_byte`, as the byte it shows. */
  lemma FormsReadBack(b: Byte)
    ensures ParseByte(DecStr(b)) == Some(b)
    ensures ParseByte(HexStr(b)) == Some(b)
    ensures ParseByte(OctStr(b)) == Some(b)
    ensures ParseByte(BinStr(b)) == Some(b)
  {
    assert Pow(10, 3) == 1000 && Pow(16, 2) == 256 && Pow(8, 3) == 512;
    assert Pow(2, 8) == 256 by {
      assert Pow(2, 4) == 16;
    }
    ParseByteDigits(10, b, 3);
    assert PrefixOf(10) + DecStr(b) == DecStr(b);
    ParseByteDigits(16, b, 2);
    ParseByteDigits(8, b, 3);
    ParseByteDigits(2, b, 8);
  }

  /** Digit strings are ASCII and hold no escape character. */
  lemma DigitsHaveNoEsc(n: nat, radix: nat, width: nat)
    requires 2 <= radix <= 36
    ensures ESC !in FixedDigits(n, radix, width)
    ensures IsAscii(FixedDigits(n, radix, width))
  {
    var ds := FixedDigits(n, radix, width);
    forall k | 0 <= k < |ds|
      ensures ds[k] != ESC && ds[k] as int < 0x80
    {
      assert DigitOf(ds[k], radix).Some?;
    }
  }

  /** A two-character prefix followed by digits is ASCII. */
  lemma PrefixedAscii(p: string, ds: string)
    requires p in {"0x", "0o", "0b"} && IsAscii(ds)
    ensures IsAscii(p + ds)
  {
    assert forall k :: 2 <= k < |p + ds| ==> (p + ds)[k] == ds[k - 2];
  }

  /** The four forms are ASCII and hold no escape character. */
  lemma FormsHaveNoEsc(b: Byte)
    ensures ESC !in DecStr(b) && ESC !in HexStr(b) && ESC !in OctStr(b) && ESC !in BinStr(b)
    ensures IsAscii(DecStr(b)) && IsAscii(HexStr(b)) && IsAscii(OctStr(b)) && IsAscii(BinStr(b))
  {
    DigitsHaveNoEsc(b, 10, 3);
    DigitsHaveNoEsc(b, 16, 2);
    DigitsHaveNoEsc(b, 8, 3);
    DigitsHaveNoEsc(b, 2, 8);
    PrefixedAscii("0x", FixedDigits(b, 16, 2));
    PrefixedAscii("0o", FixedDigits(b, 8, 3));
    PrefixedAscii("0b", FixedDigits(b, 2, 8));
  }

  // ---------------------------------------------------------------------
  // `colorize_char` and `colorize_and_pad`

  /** The ASCII punctuation characters `colorize_char` treats as printable. */
  const PUNCTUATION: string := "!\"#$%&'()*+,-./:;<=>?@[\\]^_`{|}~"

  /** `c.is_ascii_alphanumeric()`. */
  predicate IsAsciiAlphanumeric(c: char) {
    '0' <= c <= '9' || 'a' <= c <= 'z' || 'A' <= c <= 'Z'
  }

  /** The test in `colorize_char`: an ASCII letter, digit or punctuation mark. */
  predicate Printable(c: char) {
    IsAsciiAlphanumeric(c) || c in PUNCTUATION
  }

  /** Every punctuation character is visible ASCII. */
  lemma PunctuationVisible()
    ensures forall k :: 0 <= k < |PUNCTUATION| ==> 33 <= PUNCTUATION[k] as int <= 126
  {
  }

  /** The visible ASCII characters that are neither letters nor digits are all punctuation. */
  lemma PunctuationCovers(c: char)
    requires 33 <= c as int <= 126 && !IsAsciiAlphanumeric(c)
    ensures c in PUNCTUATION
  {
    var n := c as int;
    if n <= 47 {
      assert PUNCTUATION[n - 33] == c;
    } else if n <= 64 {
      assert PUNCTUATION[n - 58 + 15] == c;
    } else if n <= 96 {
      assert PUNCTUATION[n - 91 + 22] == c;
    } else {
      assert PUNCTUATION[n - 123 + 28] == c;
    }
  }

  /** The printable characters are exactly the visible ASCII range `!` to `~`. */
  lemma PrintableIsVisibleAscii(c: char)
    ensures Printable(c) <==> 33 <= c as int <= 126
  {
    if 33 <= c as int <= 126 && !IsAsciiAlphanumeric(c) {
      PunctuationCovers(c);
    }
    if c in PUNCTUATION {
      PunctuationVisible();
      var k :| 0 <= k < |PUNCTUATION| && PUNCTUATION[k] == c;
    }
  }

  /**
   * `colorize_char`: a printable character in green; any other in red, shown
   * by `npc`, which stands for `stringify_npc`.
   */
  function ColorizeChar(c: char, npc: char -> string): (r: string)
    ensures r == Apply(if Printable(c) then GREEN else RED, Glyph(c, npc))
  {
    if Printable(c) then Code(GREEN) + [c] + Code(RESET)
    else Code(RED) + npc(c) + Code(RESET)
  }

  /** What `colorize_char` shows for `c`: the character itself or its `stringify_npc` name. */
  function Glyph(c: char, npc: char -> string): string {
    if Printable(c) then [c] else npc(c)
  }

  /**
   * `colorize_char` opens with green exactly for the printable characters and
   * with red otherwise, and its visible text is the character itself or, for
   * any other character, its `stringify_npc` name.
   */
  lemma ColorizeCharShows(c: char, npc: char -> string)
    requires ESC !in npc(c)
    ensures Strip(ColorizeChar(c, npc)) == (if Printable(c) then [c] else npc(c))
    ensures ColorizeChar(c, npc)[..5] == if Printable(c) then "\U{1B}[32m" else "\U{1B}[31m"
    ensures EndState(ColorizeChar(c, npc), false) == false
  {
    var ink := if Printable(c) then GREEN else RED;
    ApplyStrips(ink, Glyph(c, npc), false);
    assert ColorizeChar(c, npc)[..5] == Code(ink);
  }

  /**
   * `colorize_and_pad`: the text in colour, left-aligned in a field as wide as
   * the coloured text's length in bytes plus `padding`. The field width
   * counts characters, so `padding` blanks follow ASCII text, and one more
   * blank follows for every byte a character needs beyond its first. (The
   * codes are ASCII, so their lengths in bytes and in characters agree:
   * `Ansi.CodeBytes`.)
   */
  function ColorizeAndPad(s: string, color: Ansi, padding: nat): (r: string)
    ensures r == Apply(color, s) + Spaces(padding + ExtraBytes(s))
  {
    var colored := Code(color) + s + Code(RESET);
    var actualLength := ByteLen(s) + |Code(color)| + |Code(RESET)|;
    PadRight(colored, padding + actualLength)
  }

  /**
   * The visible text of `colorize_and_pad` is the text and its padding, so
   * its visible width is the text's length in bytes plus `padding`.
   */
  lemma ColorizeAndPadVisible(s: string, color: Ansi, padding: nat)
    requires ESC !in s
    ensures Strip(ColorizeAndPad(s, color, padding)) == s + Spaces(padding + ExtraBytes(s))
    ensures Width(ColorizeAndPad(s, color, padding)) == ByteLen(s) + padding
    ensures EndState(ColorizeAndPad(s, color, padding), false) == false
  {
    AppliedThenBlanks(s, color, padding + ExtraBytes(s));
  }

  /** Coloured text followed by blanks shows the text and the blanks. */
  lemma AppliedThenBlanks(s: string, color: Ansi, n: nat)
    requires ESC !in s
    ensures Strip(Apply(color, s) + Spaces(n)) == s + Spaces(n)
    ensures Width(Apply(color, s) + Spaces(n)) == |s| + n
    ensures EndState(Apply(color, s) + Spaces(n), false) == false
  {
    ApplyStrips(color, s, false);
    SpacesPlain(n);
    StripConcat(Apply(color, s), Spaces(n), false);
  }

  /** Blanks are plain text. */
  lemma SpacesPlain(n: nat)
    ensures ESC !in Spaces(n)
    ensures Strip(Spaces(n)) == Spaces(n) && EndState(Spaces(n), false) == false
  {
    StripWithoutEsc(Spaces(n));
  }

  // ---------------------------------------------------------------------
  // Entries

  /**
   * The number of characters a terminal shows for `s`: what is left once
   * escape sequences are stripped.
   */
  function Width(s: string): nat {
    |Strip(s)|
  }

  function Max(a: int, b: int): int {
    if a < b then b else a
  }

  /**
   * One numeric field of an entry: nothing when it is off; with colour, the
   * text coloured by `colorize_and_pad` with two blanks of padding; without,
   * the text left-aligned in `plainWidth` columns.
   */
  function Field(on: bool, color: bool, text: string, ink: Ansi, plainWidth: nat): string {
    if !on then "" else if color then ColorizeAndPad(text, ink, 2) else PadRight(text, plainWidth)
  }

  /** The character field: `colorize_char` in 12 columns, or `stringify_npc` in 4. */
  function CharField(b: Byte, o: TableOptions, npc: char -> string): string {
    if !o.chr then ""
    else if o.color then PadRight(ColorizeChar(b as char, npc), 12)
    else PadRight(npc(b as char), 4)
  }

  /** The entry for one byte: decimal, hexadecimal, octal, binary, then the character. */
  function Entry(b: Byte, o: TableOptions, npc: char -> string): string {
    Field(o.dec, o.color, DecStr(b), YELLOW, 5)
    + Field(o.hex, o.color, HexStr(b), MAGENTA, 5)
    + Field(o.oct, o.color, OctStr(b), BLUE, 4)
    + Field(o.bin, o.color, BinStr(b), CYAN, 10)
    + CharField(b, o, npc)
  }

  /** Visible text of two pieces, the first leaving the filter outside a sequence. */
  lemma JoinVisible(a: string, b: string)
    requires EndState(a, false) == false
    ensures Width(a + b) == Width(a) + Width(b)
    ensures EndState(a + b, false) == EndState(b, false)
  {
    StripConcat(a, b, false);
  }

  /** Plain text left-aligned in a field: all of it is visible. */
  lemma PadRightVisible(s: string, w: nat)
    requires ESC !in s
    ensures ESC !in PadRight(s, w)
    ensures Width(PadRight(s, w)) == Max(|s|, w) && EndState(PadRight(s, w), false) == false
  {
    StripWithoutEsc(PadRight(s, w));
  }

  /** The visible width of a numeric field. */
  lemma FieldVisible(on: bool, color: bool, text: string, ink: Ansi, plainWidth: nat)
    requires ESC !in text
    ensures Width(Field(on, color, text, ink, plainWidth))
         == if !on then 0 else if color then ByteLen(text) + 2 else Max(|text|, plainWidth)
    ensures EndState(Field(on, color, text, ink, plainWidth), false) == false
    ensures !color ==> ESC !in Field(on, color, text, ink, plainWidth)
  {
    if on && color {
      ColorizeAndPadVisible(text, ink, 2);
    } else if on {
      PadRightVisible(text, plainWidth);
    }
  }

  /** The visible width of the character field. */
  lemma CharFieldVisible(b: Byte, o: TableOptions, npc: char -> string)
    requires ESC !in npc(b as char)
    ensures Width(CharField(b, o, npc))
         == if !o.chr then 0
            else if o.color then Max(3, |Glyph(b as char, npc)|)
            else Max(4, |npc(b as char)|)
    ensures !o.color ==> ESC !in CharField(b, o, npc)
  {
    var c := b as char;
    if o.chr && o.color {
      var g := Glyph(c, npc);
      PrintableIsVisibleAscii(c);
      assert ESC !in g;
      var ink := if Printable(c) then GREEN else RED;
      var colored := ColorizeChar(c, npc);
      assert |colored| == 9 + |g|;
      ApplyStrips(ink, g, false);
      var padded := PadRight(colored, 12);
      SpacesPlain(|padded| - |colored|);
      StripConcat(colored, Spaces(|padded| - |colored|), false);
    } else if o.chr {
      PadRightVisible(npc(c), 4);
    }
  }

  /**
   * The visible width of an entry: 5 for the decimal field, then 6, 7 and 12
   * for hexadecimal, octal and binary with colour but 5, 5 and 10 without,
   * and the character field.
   */
  lemma EntryVisible(b: Byte, o: TableOptions, npc: char -> string)
    requires ESC !in npc(b as char)
    ensures Width(Entry(b, o, npc))
         == (if o.dec then 5 else 0)
          + (if o.hex then (if o.color then 6 else 5) else 0)
          + (if o.oct then (if o.color then 7 else 5) else 0)
          + (if o.bin then (if o.color then 12 else 10) else 0)
          + (if !o.chr then 0
             else if o.color then Max(3, |Glyph(b as char, npc)|)
             else Max(4, |npc(b as char)|))
  {
    NumberFieldsVisible(b, o);
    CharFieldVisible(b, o, npc);
    FiveVisible(Field(o.dec, o.color, DecStr(b), YELLOW, 5), Field(o.hex, o.color, HexStr(b), MAGENTA, 5),
                Field(o.oct, o.color, OctStr(b), BLUE, 4), Field(o.bin, o.color, BinStr(b), CYAN, 10),
                CharField(b, o, npc));
  }

  /** The four number fields: their visible widths, and none leaves the filter inside a sequence. */
  lemma NumberFieldsVisible(b: Byte, o: TableOptions)
    ensures Width(Field(o.dec, o.color, DecStr(b), YELLOW, 5)) == if o.dec then 5 else 0
    ensures Width(Field(o.hex, o.color, HexStr(b), MAGENTA, 5)) == if o.hex then (if o.color then 6 else 5) else 0
    ensures Width(Field(o.oct, o.color, OctStr(b), BLUE, 4)) == if o.oct then (if o.color then 7 else 5) else 0
    ensures Width(Field(o.bin, o.color, BinStr(b), CYAN, 10)) == if o.bin then (if o.color then 12 else 10) else 0
    ensures EndState(Field(o.dec, o.color, DecStr(b), YELLOW, 5), false) == false
    ensures EndState(Field(o.hex, o.color, HexStr(b), MAGENTA, 5), false) == false
    ensures EndState(Field(o.oct, o.color, OctStr(b), BLUE, 4), false) == false
    ensures EndState(Field(o.bin, o.color, BinStr(b), CYAN, 10), false) == false
  {
    FormsHaveNoEsc(b);
    ByteLenAscii(DecStr(b));
    ByteLenAscii(HexStr(b));
    ByteLenAscii(OctStr(b));
    ByteLenAscii(BinStr(b));
    FieldVisible(o.dec, o.color, DecStr(b), YELLOW, 5);
    FieldVisible(o.hex, o.color, HexStr(b), MAGENTA, 5);
    FieldVisible(o.oct, o.color, OctStr(b), BLUE, 4);
    FieldVisible(o.bin, o.color, BinStr(b), CYAN, 10);
  }

  /** Without colour an entry holds no escape character at all. */
  lemma PlainEntryHasNoEsc(b: Byte, o: TableOptions, npc: char -> string)
    requires !o.color && ESC !in npc(b as char)
    ensures ESC !in Entry(b, o, npc)
  {
    FormsHaveNoEsc(b);
    FieldVisible(o.dec, o.color, DecStr(b), YELLOW, 5);
    FieldVisible(o.hex, o.color, HexStr(b), MAGENTA, 5);
    FieldVisible(o.oct, o.color, OctStr(b), BLUE, 4);
    FieldVisible(o.bin, o.color, BinStr(b), CYAN, 10);
    CharFieldVisible(b, o, npc);
  }

  /** The visible width of five pieces that each leave the filter outside a sequence. */
  lemma FiveVisible(f1: string, f2: string, f3: string, f4: string, f5: string)
    requires EndState(f1, false) == false && EndState(f2, false) == false
    requires EndState(f3, false) == false && EndState(f4, false) == false
    ensures Width(f1 + f2 + f3 + f4 + f5)
         == Width(f1) + Width(f2) + Width(f3) + Width(f4) + Width(f5)
  {
    JoinVisible(f1, f2);
    JoinVisible(f1 + f2, f3);
    JoinVisible(f1 + f2 + f3, f4);
    JoinVisible(f1 + f2 + f3 + f4, f5);
  }

  /** One `if <flag>` block of the loop body: the field, coloured and padded or left-aligned, appended to `entry`. */
  method WriteField(entry: string, on: bool, color: bool, text: string, ink: Ansi, plainWidth: nat) returns (r: string)
    ensures r == entry + Field(on, color, text, ink, plainWidth)
  {
    r := entry;
    if on {
      if color {
        r := r + ColorizeAndPad(text, ink, 2);
      } else {
        r := r + PadRight(text, plainWidth);
      }
    } else {
      assert r == r + "";
    }
  }

  /** The last block of the loop body: the character, coloured in 12 columns or plain in 4. */
  method WriteCharField(entry: string, b: Byte, o: TableOptions, npc: char -> string) returns (r: string)
    ensures r == entry + CharField(b, o, npc)
  {
    r := entry;
    if o.chr {
      var charStr := if o.color then ColorizeChar(b as char, npc) else npc(b as char);
      var padding := if o.color then 12 else 4;
      r := r + PadRight(charStr, padding);
    } else {
      assert r == r + "";
    }
  }

  /** The body of the loop in `print_table`: the enabled fields appended in order. */
  method FormatEntry(b: Byte, o: TableOptions, npc: char -> string) returns (entry: string)
    ensures entry == Entry(b, o, npc)
  {
    entry := "";
    entry := WriteField(entry, o.dec, o.color, DecStr(b), YELLOW, 5);
    assert entry == Field(o.dec, o.color, DecStr(b), YELLOW, 5);
    entry := WriteField(entry, o.hex, o.color, HexStr(b), MAGENTA, 5);
    entry := WriteField(entry, o.oct, o.color, OctStr(b), BLUE, 4);
    entry := WriteField(entry, o.bin, o.color, BinStr(b), CYAN, 10);
    entry := WriteCharField(entry, b, o, npc);
  }

  /** The loop over the bytes in `print_table` that builds one entry per byte. */
  method BuildEntries(bytes: seq<Byte>, o: TableOptions, npc: char -> string) returns (entries: seq<string>)
    ensures |entries| == |bytes|
    ensures forall i :: 0 <= i < |bytes| ==> entries[i] == Entry(bytes[i], o, npc)
  {
    entries := [];
    for i := 0 to |bytes|
      invariant |entries| == i
      invariant forall j :: 0 <= j < i ==> entries[j] == Entry(bytes[j], o, npc)
    {
      var entry := FormatEntry(bytes[i], o, npc);
      entries := entries + [entry];
    }
  }

  // ---------------------------------------------------------------------
  // The grid

  /** `row_count`: the number of entries divided by the number of columns, rounded up. */
  function RowCount(n: nat, columns: nat): nat
    requires columns > 0
  {
    (n + columns - 1) / columns
  }

  /** The rows are the fewest that hold all the entries; there are none only without entries. */
  lemma RowCountIsCeiling(n: nat, columns: nat)
    requires columns > 0
    ensures RowCount(n, columns) * columns >= n
    ensures RowCount(n, columns) > 0 ==> (RowCount(n, columns) - 1) * columns < n
    ensures RowCount(n, columns) > 0 <==> n > 0
  {
    var rows := RowCount(n, columns);
    DivModIdentity(n + columns - 1, columns);
    assert (rows - 1) * columns == rows * columns - columns;
  }

  /**
   * `row_count` as the program computes it, in `usize`: in a release build the
   * sum wraps around modulo 2^64 when `columns` is close to `usize::MAX`.
   */
  function RowCountAsWritten(n: nat, columns: nat): nat
    requires columns > 0
  {
    ((n + columns - 1) % USIZE_LIMIT) / columns
  }

  /** With `--columns 18446744073709551615` the 128 default entries get no row at all. */
  lemma RowCountWraps()
    ensures RowCountAsWritten(128, USIZE_LIMIT - 1) == 0
    ensures RowCount(128, USIZE_LIMIT - 1) == 1
  {
  }

  /** `eindex`: entry `r + c * rows` in column-major order, `r * columns + c` in row-major order. */
  function CellIndex(r: nat, c: nat, rows: nat, columns: nat, horizontal: bool): nat {
    if horizontal then r * columns + c else r + c * rows
  }

  /** The cell that shows entry `e`, as (row, column). */
  function CellOf(e: nat, rows: nat, columns: nat, horizontal: bool): (nat, nat)
    requires rows > 0 && columns > 0
  {
    if horizontal then (e / columns, e % columns) else (e % rows, e / rows)
  }

  /** A quotient and remainder that reassemble `x` are its quotient and remainder. */
  lemma DivModUnique(x: nat, d: nat, q: nat, r: nat)
    requires d > 0 && r < d && x == q * d + r
    ensures x / d == q && x % d == r
  {
    DivModIdentity(x, d);
    var q', r' := x / d, x % d;
    assert (q' + 1) * d == q' * d + d && (q + 1) * d == q * d + d;
    MulCancelLess(q, q' + 1, d);
    MulCancelLess(q', q + 1, d);
  }

  /** A cell inside the grid names an entry slot inside the grid, and it is the cell of that slot. */
  lemma CellIndexInverse(r: nat, c: nat, rows: nat, columns: nat, horizontal: bool)
    requires r < rows && c < columns
    ensures CellIndex(r, c, rows, columns, horizontal) < rows * columns
    ensures CellOf(CellIndex(r, c, rows, columns, horizontal), rows, columns, horizontal) == (r, c)
  {
    if horizontal {
      MulMonotone(r, rows - 1, columns);
      assert (rows - 1) * columns == rows * columns - columns;
      DivModUnique(r * columns + c, columns, r, c);
    } else {
      MulMonotone(c, columns - 1, rows);
      assert (columns - 1) * rows == rows * columns - rows;
      DivModUnique(r + c * rows, rows, c, r);
    }
  }

  /** Every slot inside the grid has a cell inside the grid, and that cell names the slot. */
  lemma CellOfInverse(e: nat, rows: nat, columns: nat, horizontal: bool)
    requires rows > 0 && columns > 0 && e < rows * columns
    ensures CellOf(e, rows, columns, horizontal).0 < rows
    ensures CellOf(e, rows, columns, horizontal).1 < columns
    ensures CellIndex(CellOf(e, rows, columns, horizontal).0, CellOf(e, rows, columns, horizontal).1,
                      rows, columns, horizontal) == e
  {
    if horizontal {
      DivModIdentity(e, columns);
      QuotientBelow(e, columns, rows);
    } else {
      DivModIdentity(e, rows);
      QuotientBelow(e, rows, columns);
    }
  }

  /** What cell (r, c) prints before its entry: the separator except in the first column, then a blank. */
  function Lead(c: nat, o: TableOptions): string {
    (if c == 0 then "" else o.separator) + " "
  }

  /** The text of cell (r, c): its entry left-aligned in `column_width`, or blanks past the last entry. */
  function Cell(entries: seq<string>, o: TableOptions, rows: nat, r: nat, c: nat): string {
    var e := CellIndex(r, c, rows, o.columns, o.horizontal);
    if e < |entries| then Lead(c, o) + PadRight(entries[e], o.columnWidth)
    else PadRight("", o.columnWidth)
  }

  /**
   * Every entry is shown in exactly one cell of the grid, the one `CellOf`
   * names; every other cell is blank.
   */
  lemma EachEntryInOneCell(entries: seq<string>, o: TableOptions)
    requires o.columns > 0
    ensures var rows := RowCount(|entries|, o.columns);
      forall e :: 0 <= e < |entries| ==>
        var rc := CellOf(e, rows, o.columns, o.horizontal);
        rc.0 < rows && rc.1 < o.columns
        && Cell(entries, o, rows, rc.0, rc.1) == Lead(rc.1, o) + PadRight(entries[e], o.columnWidth)
    ensures var rows := RowCount(|entries|, o.columns);
      forall r, c :: 0 <= r < rows && 0 <= c < o.columns ==>
        var e := CellIndex(r, c, rows, o.columns, o.horizontal);
        (e < |entries| ==> CellOf(e, rows, o.columns, o.horizontal) == (r, c))
        && (e >= |entries| ==> Cell(entries, o, rows, r, c) == Spaces(o.columnWidth))
  {
    var rows := RowCount(|entries|, o.columns);
    RowCountIsCeiling(|entries|, o.columns);
    forall e | 0 <= e < |entries|
      ensures var rc := CellOf(e, rows, o.columns, o.horizontal);
        rc.0 < rows && rc.1 < o.columns
        && Cell(entries, o, rows, rc.0, rc.1) == Lead(rc.1, o) + PadRight(entries[e], o.columnWidth)
    {
      CellOfInverse(e, rows, o.columns, o.horizontal);
    }
    forall r, c | 0 <= r < rows && 0 <= c < o.columns
      ensures var e := CellIndex(r, c, rows, o.columns, o.horizontal);
        e < |entries| ==> CellOf(e, rows, o.columns, o.horizontal) == (r, c)
    {
      CellIndexInverse(r, c, rows, o.columns, o.horizontal);
    }
  }

  /** One row of `print_table`: the inner loop over the columns. */
  method LayoutRow(entries: seq<string>, o: TableOptions, rowCount: nat, irow: nat) returns (row: seq<string>)
    ensures |row| == o.columns
    ensures forall c :: 0 <= c < o.columns ==> row[c] == Cell(entries, o, rowCount, irow, c)
  {
    row := [];
    for icol := 0 to o.columns
      invariant |row| == icol
      invariant forall c :: 0 <= c < icol ==> row[c] == Cell(entries, o, rowCount, irow, c)
    {
      var eindex := if !o.horizontal then irow + icol * rowCount else irow * o.columns + icol;
      assert eindex == CellIndex(irow, icol, rowCount, o.columns, o.horizontal);
      var separator := if icol == 0 then "" else o.separator;
      var cell;
      if eindex < |entries| {
        cell := separator + " " + PadRight(entries[eindex], o.columnWidth);
      } else {
        cell := PadRight("", o.columnWidth);
      }
      row := row + [cell];
    }
  }

  /** The nested row and column loops of `print_table`, collecting cells instead of printing them. */
  method Layout(entries: seq<string>, o: TableOptions) returns (grid: seq<seq<string>>)
    requires o.columns > 0
    ensures |grid| == RowCount(|entries|, o.columns)
    ensures forall r :: 0 <= r < |grid| ==> |grid[r]| == o.columns
    ensures forall r, c :: 0 <= r < |grid| && 0 <= c < o.columns ==>
      grid[r][c] == Cell(entries, o, |grid|, r, c)
  {
    var rowCount := (|entries| + o.columns - 1) / o.columns;
    grid := [];
    for irow := 0 to rowCount
      invariant |grid| == irow
      invariant forall r :: 0 <= r < irow ==> |grid[r]| == o.columns
      invariant forall r, c :: 0 <= r < irow && 0 <= c < o.columns ==>
        grid[r][c] == Cell(entries, o, rowCount, r, c)
    {
      var row := LayoutRow(entries, o, rowCount, irow);
      grid := grid + [row];
    }
  }
}
