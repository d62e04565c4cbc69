# asciitty in Dafny

`asciitty` prints a table of bytes. Each byte gets an entry showing it in decimal, hexadecimal, octal and binary, followed by the character itself. The entries are laid out in a grid of `--columns` columns. By default the grid fills column by column; `--horizontal` fills it row by row. Colour comes from ANSI escape sequences.

This project models the whole pipeline of `src/main.rs` and `src/ansi.rs`:

- **`Ansi`** (`ansi.dfy`): the colour enum and its code table, the case-insensitive name lookup, `strip`, `apply` and `true_len`. `strip` is a one-pass state machine, `StripFrom(s, inAnsi)`; `EndState` gives the state it ends in.
- **`Args`** (`args.dfy`): `parse_args` over an explicit token list. It has a specification function `Associate` and an imperative `ParseArgs` proved equal to it. The method first partitions the tokens, then runs one loop over the keys.
- **`ByteSpec`** (`bytespec.dfy`): `parse_byte`, `parse_bytes` and the comma-separated `--bytes` list with its aliases `ascii`, `extended` and `asciix`.
  - Both parsers return `Option`.
  - A `None` stands for the `unwrap` panic of the program.
- **`Options`** (`options.dfy`): `TableOptions` and `TableOptions::new`.
- **`Cli`** (`cli.dfy`): the loop of `main` over the (key, values) pairs.
  - One pair's effect is `Step`. `Fold` applies the pairs in order, and `Main` adds the default byte range at the end.
  - `Run` is the imperative loop, proved equal to `Main`.
  - `--help` and every failing value are `Outcome`s, not process exits.
  - Standard input and the file system are parameters: `stdin` holds the bytes standard input would deliver, and `files` maps each regular file's path to its contents.
- **`Table`** (`table.dfy`): `colorize_char`, `colorize_and_pad`, the entry of one byte, `row_count`, the cell index of either layout, and the nested row and column loops. The loops return the grid as rows of cells instead of printing it.
- **`Program`** (`program.dfy`): arguments to screen. `Render` is the specification and `RunProgram` the composed methods.
- **`Text`, `Numeric` and `Base`**: string, digit and `Option` helpers that stand for Rust's `split`, `contains`, `{:<width$}` padding, `to_uppercase`/`to_lowercase` and `from_str_radix`/`parse`.

Lengths follow Rust: `str.len()` counts UTF-8 bytes, so `true_len`, the 2-or-3 length test of the key predicate and the padding width of `colorize_and_pad` are byte counts (`Text.ByteLen`). The `{:<width$}` format pads to a count of characters (`Text.PadRight`). Where the two differ, for text with non-ASCII characters, the model keeps both as written.

Where the program's documentation and its code disagree, the model follows the code:

- The doc comment of `true_len` says `Ansi::RED.apply("Hello, world!").len()` is 28. It is 22 bytes, because ESC is one byte (`Ansi.HelloWorldRawLength`).
- The help text lists the `--columns` default as 4. `TableOptions::new` sets 5.
- The help text's example expands `0b1100` to 3. `parse_byte` reads it as 12 (`ByteSpec.ParseByteExamples`).
- The program name, argument 0, is classified like every other token. A program name such as `-ab` would count as a key.
- With colour on, the hexadecimal, octal and binary fields are one, two and two columns wider than without it (`Table.EntryVisible`). The two layouts do not line up.

## Model

| member | source | states |
|---|---|---|
| Ansi.Code | src/ansi.rs:17-27 | Only `INVALID` has the empty code. Every other code is a complete SGR sequence: ESC, `[`, digits, `m`. |
| Ansi.FromStr | src/ansi.rs:34-46 | The result is a colour exactly when the upper-cased input is that colour's name. Any input naming no colour gives `INVALID`. |
| Ansi.FromStrCaseInsensitive | src/ansi.rs:34-46 | The lookup ignores case. Each colour's name, upper-case or lower-case, maps back to it. |
| Ansi.StripFrom | src/ansi.rs:52-71 | The filter never lengthens its input and never leaves an ESC behind. |
| Ansi.StripFromBytes | src/ansi.rs:52-71 | The filter never lengthens its input in UTF-8 bytes either. |
| Ansi.TrueLen | src/ansi.rs:86-88 | The true length is at least the stripped text's character count and at most the raw text's byte count. |
| Ansi.TrueLenCountsBytes | src/ansi.rs:86-88 | `true_len(s)` is the number of bytes of `strip(s).bytes()`. It equals the stripped character count exactly when the stripped text is ASCII. |
| Ansi.StripWithoutEsc | src/ansi.rs:57-69 | A string without ESC passes through `strip` unchanged, and the filter ends outside a sequence. |
| Ansi.StripIdempotent | src/ansi.rs:52-71 | `strip(strip(s)) == strip(s)`. |
| Ansi.StripConcat | src/ansi.rs:52-71 | Stripping a concatenation strips the first part, then the second part from the state the first left. |
| Ansi.UnterminatedDropped | src/ansi.rs:58-68 | Inside a sequence, a text without `m` is dropped entirely, and the filter stays inside the sequence. |
| Ansi.StripDropsUnterminatedTail | src/ansi.rs:58-68 | An ESC with no later `m` makes `strip` drop the rest of the string. |
| Ansi.RemovesWholeSequence | src/ansi.rs:58-66 | Everything from an ESC through the next `m` disappears. The text on both sides is kept. |
| Ansi.StrayMKept | src/ansi.rs:63-68 | An `m` outside a sequence is kept. |
| Ansi.CodeInvisible | src/ansi.rs:17-27 | Every code strips to nothing. Every non-`INVALID` code leaves the filter outside a sequence. |
| Ansi.ApplyStrips | src/ansi.rs:76-78 | `strip(apply(c, s)) == s` for ESC-free `s`, and the filter ends outside a sequence. |
| Ansi.TrueLenApply | src/ansi.rs:80-88 | `true_len(apply(c, s))` is the byte length of `s`, for ESC-free `s` and any colour. |
| Ansi.HelloWorldExample | src/ansi.rs:83-85 | `true_len(RED.apply("Hello, world!"))` is 13. |
| Ansi.HelloWorldRawLength | src/ansi.rs:83-84 | `RED.apply("Hello, world!").len()` is 22 bytes, not 28 as the doc comment says. |
| Ansi.CodeBytes | src/ansi.rs:17-27 | Every code is ASCII, so its length in bytes is its length in characters. |
| Text.SplitOnSpec | src/main.rs:314 | `split` gives at least one piece. The pieces joined with the separator give back the input, and none contains the separator. There is more than one piece exactly when the input contains the separator. |
| Text.PadRight | src/main.rs:28 | `{:<width$}` appends blanks up to `width` characters and never truncates. |
| Text.FoldedLetters | src/ansi.rs:35 | After `to_uppercase` no character is a lower-case ASCII letter, and after `to_lowercase` none is an upper-case one. Each character keeps its letter: folding it the other way gives what folding the original gives. |
| Text.CaseFolding | src/main.rs:317 | Upper- and lower-casing are idempotent and absorb each other. Two strings agree upper-cased exactly when they agree lower-cased. |
| Text.EncodeChar | src/main.rs:330 | A character's UTF-8 form has 1 to 4 bytes by code-point range. It is a lead byte plus continuation bytes and decodes back to the character. |
| Text.Utf8 | src/main.rs:328-331 | `s.bytes()` has between one and four bytes per character. |
| Text.Utf8Ascii | src/main.rs:330 | An ASCII string's bytes are its character codes. |
| Text.Utf8Concat | src/main.rs:330 | The bytes of a concatenation are the bytes of the first part followed by those of the second. |
| Text.ByteLen | src/ansi.rs:87 | `str.len()` is between one and four bytes per character. |
| Text.ByteLenIsUtf8Length | src/main.rs:26 | `str.len()` is the number of bytes `s.bytes()` yields. |
| Text.ByteLenAscii | src/main.rs:26 | The byte length equals the character count exactly when the text is ASCII. |
| Text.ByteLenConcat | src/main.rs:26 | Byte lengths add up over concatenation. |
| Numeric.ParseUnsigned | src/main.rs:386-396 | A parsed value is below the bound of the target type. |
| Numeric.ParseUnsignedSpec | src/main.rs:386-396 | After at most one leading `+`, parsing succeeds exactly when at least one character remains, every remaining character is a digit of the radix, and their value is below the bound. The result is that value. So the empty string, a lone sign, `-`, a second sign and any foreign character fail. |
| Numeric.DigitsValue | src/main.rs:386-396 | A digit string has a value exactly when every character is a digit of the radix. |
| Numeric.DigitsValueBelowPow | src/main.rs:386-396 | `n` digits in radix `r` have a value below `r^n`. |
| Numeric.ParseUnsignedIgnoresCase | src/main.rs:386-396 | Digits above 9 read the same in upper and lower case. |
| Numeric.FixedDigitsValue | src/main.rs:83-112 | Zero-padded digits of `n` in any radix read back as `n`. |
| Args.PartitionArgs | src/main.rs:165-174 | The partition yields the (index, token) pairs of the keys and of the values, each in index order. |
| Args.ParseArgs | src/main.rs:163-204 | The key loop computes exactly `Associate(args)`. |
| Args.OnePairPerKey | src/main.rs:176-203 | There is exactly one pair per key token, in index order, and a token is a key iff its index is a key position. With no keys the result is empty. |
| Args.FilterIsValuesBetween | src/main.rs:181-195 | The `filter_map` closure keeps exactly the value tokens strictly between the key and the next key, or the end, in order. |
| Args.KeyPositionsExact | src/main.rs:167-174 | The key positions are increasing, are all keys, and include every key. |
| Args.ValuesAreTheFollowingRun | src/main.rs:179-199 | A key's values are exactly the tokens after it up to the next key, or to the end for the last key, in order. None of them is a key. |
| Args.EveryLaterValueOnce | src/main.rs:179-199 | All the pairs' values together are exactly the value tokens after the first key. Tokens before the first key are in no pair. |
| Args.LongKeyTokens | src/main.rs:168-173 | `--hex`, `--no-color` and `--` are keys. |
| Args.ShortKeyTokens | src/main.rs:168-173 | `-h` and `-ab` are keys. |
| Args.ValueTokens | src/main.rs:168-173 | `--a--b`, `-`, `-abc` and `0x41` are values. |
| Args.KeyShape | src/main.rs:168-173 | A key starts with `-` and has at least two characters. A key without `--` in front is 2 or 3 bytes long; a key longer than 3 bytes is a `--` flag with no second `--`. Every 2- or 3-byte token starting with `-` is a key. |
| Args.LongFlag | src/main.rs:169-172 | `--` followed by a name without `--` is a key. |
| Args.WideShortTokenIsValue | src/main.rs:173 | `-€` has two characters but four bytes, so it is a value and `--string -€` passes it as the string. |
| Args.NoLeadingDash | src/main.rs:168-173 | A token not starting with `-` is a value. |
| Args.KeyThenValue | src/main.rs:163-204 | A program name, a key and a value give one pair holding that value. |
| Args.AssociateExample | src/main.rs:163-204 | `prog --a v1 v2 -b v3` gives `[(--a, [v1, v2]), (-b, [v3])]`. |
| ByteSpec.RadixOf | src/main.rs:387-395 | The radix chosen from the prefix is 16, 8, 2 or 10. |
| ByteSpec.ParseByte | src/main.rs:386-396 | A successful parse needs at least one digit after the prefix. |
| ByteSpec.ParseByteSpec | src/main.rs:386-396 | After the prefix that picks the radix, `parse_byte` succeeds exactly when `from_str_radix` for `u8` would: at most one `+`, then one or more digits of that radix whose value is at most 255. The result is that value. |
| ByteSpec.HexLiteral | src/main.rs:387-388 | `0xff` is 255. |
| ByteSpec.PlusLiteral | src/main.rs:393-394 | `+7` is 7: one leading `+` is accepted. |
| ByteSpec.ParseByteRejectsForeignDigits | src/main.rs:386-396 | `0x1g`, `12a` and `0b102` fail: a character outside the radix fails the parse. |
| ByteSpec.ForeignDigitFails | src/main.rs:386-396 | Any character after the prefix and sign that is not a digit of the radix makes the parse fail. |
| ByteSpec.ParseByteRejectsSigns | src/main.rs:386-396 | `++1` and `-1` fail. |
| ByteSpec.PrefixedDigitsIgnoreCase | src/main.rs:386-394 | After a lower-case prefix, the digits may be in either case. |
| ByteSpec.ParseByteDigits | src/main.rs:386-396 | Any zero-padded digit string with the radix prefix reads back as its value. It fails exactly when the value exceeds 255. |
| ByteSpec.ParseByteExamples | src/main.rs:386-396 | `0b1100` is 12. A bare `0x` and the empty string fail. |
| ByteSpec.DecimalLiterals | src/main.rs:393-394 | `0` and `127` read as decimal. |
| ByteSpec.Range | src/main.rs:377 | `start..=end` has `end - start + 1` elements counting up from `start`. It is empty when `start > end`. |
| ByteSpec.RangeMembers | src/main.rs:377 | A value is in `start..=end` iff it lies between the two, and the sequence is strictly increasing. |
| ByteSpec.RangeConcat | src/main.rs:318-320 | Adjacent inclusive ranges concatenate to one range. |
| ByteSpec.ParseBytes | src/main.rs:369-383 | Without `..` the part gives one byte. Any result is a run of consecutive values. |
| ByteSpec.ParseBytesSingle | src/main.rs:380-381 | Without `..` the part gives exactly the one byte `parse_byte` reads, and fails exactly when `parse_byte` does. |
| ByteSpec.ParseBytesRange | src/main.rs:372-377 | `a..b` gives the inclusive range from `a` to `b`, or fails if either end fails. |
| ByteSpec.ParseBytesIgnoresThirdPiece | src/main.rs:372-375 | Only the first two pieces count: `1..5..9` is `1..=5`. |
| ByteSpec.ExpandPart | src/main.rs:316-324 | `ascii`, `extended` and `asciix`, in any case, give `0..=127`, `128..=255` and `0..=255`. Any other part goes to `parse_bytes` unchanged. |
| ByteSpec.CaseMattersOutsideAliases | src/main.rs:317-322 | Only alias names are lower-cased: `0X1F` fails while `0x1f` is 31. |
| ByteSpec.ExpandAllCons | src/main.rs:316-325 | The parts expand left to right: the first part's bytes come first. |
| ByteSpec.ExpandAllFails | src/main.rs:321-323 | One part that fails to parse makes the whole list fail. |
| ByteSpec.ExpandSpecCons | src/main.rs:312-326 | `a,rest` expands to `a`'s bytes followed by `rest`'s bytes. |
| ByteSpec.ExpandSpecSingle | src/main.rs:313-316 | A list without a comma is its one part. |
| ByteSpec.AliasIgnoresCase | src/main.rs:317 | Alias names match whatever their case. |
| ByteSpec.ZeroTo127 | src/main.rs:369-377 | `0..127` is the range 0 to 127. |
| ByteSpec.ReversedRangeIsEmpty | src/main.rs:372-377 | `5..1` expands to no bytes at all. |
| ByteSpec.LowHalfThenExtended | src/main.rs:318-320 | Any part giving `0..=127`, followed by `extended`, equals `asciix`. |
| ByteSpec.AsciiThenExtended | src/main.rs:318-320 | `ascii,extended` equals `asciix`. |
| ByteSpec.ZeroTo127ThenExtended | src/main.rs:312-326 | `0..127,extended` equals `asciix`. |
| Cli.KeyOf | src/main.rs:263-357 | Only the six flag options toggle a flag. |
| Cli.KeyClasses | src/main.rs:263-357 | A key selects the help arm exactly when it is `--help` or `-h`, a value arm exactly when it is one of the six value keys, and the catch-all arm exactly when no arm names it. |
| Cli.Step | src/main.rs:262-358 | One pair never removes gathered bytes. |
| Cli.StepStops | src/main.rs:262-358 | A pair stops with the help text iff its key is `--help` or `-h`. Any other stop is a failure of a value key that has a value. |
| Cli.StepIgnores | src/main.rs:292-357 | An unknown key, or a value key without values, changes nothing. |
| Cli.StringAppends | src/main.rs:328-331 | `--string` appends the UTF-8 bytes of its first value and changes nothing else. |
| Cli.FileAppends | src/main.rs:333-355 | `--file` appends the named file's contents, or fails when there is no such file. |
| Cli.BytesAppends | src/main.rs:312-326 | `--bytes` appends the expansion of its first value, or fails on that value when the expansion fails. |
| Cli.EmptySourcesAddNothing | src/main.rs:286-356 | `--string ""`, `--stdin` with nothing left to read, an empty `--file` and `--bytes 5..1` leave the state unchanged. |
| Cli.ApplyPair | src/main.rs:263-358 | The in-place match on the key computes `Step`. |
| Cli.ExtendBytes | src/main.rs:312-326 | The `--bytes` loop appends the expansion of the whole list, or fails if any part fails. |
| Cli.Finish | src/main.rs:361-363 | The final byte list is never empty. A non-empty list is kept as it is, and an empty one becomes `0..=127`. |
| Cli.DefaultRangeWhenNothingGathered | src/main.rs:361-365 | When the loop gathers no bytes, the table shows `0..=127` with the options the loop set. |
| Cli.EmptySourcesShowDefault | src/main.rs:312-365 | `prog --bytes 5..1` and `prog --string ""` both show the default table of `0..=127`. |
| Cli.Run | src/main.rs:256-363 | The loop of `main`, and the default range after it, compute `Main`. |
| Cli.FoldAppend | src/main.rs:262 | Applying two runs of pairs is applying the first, then, unless it stopped, the second. |
| Cli.BytesOnlyGrow | src/main.rs:262-359 | Byte sources only append: earlier bytes stay a prefix. |
| Cli.IgnoredPairs | src/main.rs:292-357 | Unknown keys, and value keys without values, leave the state unchanged. |
| Cli.HelpShortCircuits | src/main.rs:264-267 | A help key stops the run unless an earlier pair already stopped it. Later pairs have no effect. |
| Cli.SettingOnly | src/main.rs:268-310 | A pair that sets an option changes only that option. `--color` and `--no-color` are not settings, since `--no-color` also resets the width. |
| Cli.StepAgree | src/main.rs:263-357 | Two states that differ only in one option stay so after any pair, and stop in the same way. |
| Cli.FoldAgree | src/main.rs:262-359 | The same holds for any run of pairs. |
| Cli.Overwrite | src/main.rs:268-310 | A pair that sets an option gives the same result from two states that differ only in that option. |
| Cli.LaterSettingWins | src/main.rs:268-310 | Of two pairs setting the same option, the earlier one can be dropped, whatever comes between, before and after, provided it does not stop the run. |
| Cli.NoColorAgainstWidth | src/main.rs:281-284 | `--no-color` resets the width to 0, so `--width` wins only when it comes after `--no-color`. |
| Cli.StdinReadOnce | src/main.rs:286-290 | The first `--stdin` reads everything. A second one adds nothing. |
| Cli.SourcesAppendInOrder | src/main.rs:328-356 | `--string` then `--file` appends the string's bytes, then the file's contents. |
| Cli.NoArgumentsGivesDefaults | src/main.rs:45-58 | With no options, the table uses the defaults (hex, dec and chr on; oct, bin and horizontal off; colour on; 5 columns; width 40; separator ` \| `) over `0..=127`. |
| Table.DecStr | src/main.rs:83 | `{:03}` of a byte is 3 characters. |
| Table.HexStr | src/main.rs:93 | `0x{:02X}` of a byte is 4 characters. |
| Table.OctStr | src/main.rs:103 | `0o{:03o}` of a byte is 5 characters. |
| Table.BinStr | src/main.rs:112 | `0b{:08b}` of a byte is 10 characters. |
| Table.FormsReadBack | src/main.rs:83-112 | Each of the four forms reads back through `parse_byte` as the byte itself. |
| Table.PrintableIsVisibleAscii | src/main.rs:12 | The characters `colorize_char` prints in green are exactly `!` to `~`. |
| Table.ColorizeChar | src/main.rs:11-22 | `colorize_char` is `apply` with green for printable characters, or red for the rest. |
| Table.ColorizeCharShows | src/main.rs:11-22 | The output starts with the green code iff the character is printable, otherwise with red. It strips to the character itself, or to its `stringify_npc` name. |
| Table.ColorizeAndPad | src/main.rs:24-29 | `colorize_and_pad(s, c, p)` is the coloured text followed by `p` blanks, plus one blank per byte beyond the first in each multi-byte character of `s`. The padding width counts bytes while `{:<w$}` counts characters. |
| Table.ColorizeAndPadVisible | src/main.rs:24-29 | For ESC-free `s`, the visible text is `s` and those blanks, so the visible width is the byte length of `s` plus `p`. |
| Table.FieldVisible | src/main.rs:82-118 | The visible width of a numeric field: 0 when off, the text plus 2 in colour, otherwise the text padded to its width. |
| Table.CharFieldVisible | src/main.rs:120-128 | The visible width of the character field. |
| Table.EntryVisible | src/main.rs:79-131 | An entry's visible width is the sum of its fields: 5 for decimal; 6 or 5 for hexadecimal, 7 or 5 for octal, 12 or 10 for binary (with and without colour); then the character field. |
| Table.NumberFieldsVisible | src/main.rs:82-118 | The four numeric fields are 5, 6/5, 7/5 and 12/10 columns wide (with/without colour) when on, and 0 when off. None leaves the filter inside a sequence. |
| Table.PlainEntryHasNoEsc | src/main.rs:79-131 | Without colour an entry holds no escape character. |
| Table.WriteField | src/main.rs:82-118 | One numeric `if` block appends the field: coloured and padded by 2, or left-aligned in its width, or nothing when off. |
| Table.WriteCharField | src/main.rs:120-128 | The character block appends `colorize_char` padded to 12, or `stringify_npc` padded to 4, or nothing. |
| Table.FormatEntry | src/main.rs:80-131 | The appends to `entry` produce `Entry(b, options)`. |
| Table.BuildEntries | src/main.rs:77-133 | One entry per byte, in byte order. |
| Table.RowCountIsCeiling | src/main.rs:135 | `row_count` rows hold all entries, one row fewer would not, and there are no rows only when there are no entries. |
| Table.RowCountWraps | src/main.rs:135 | With a column count of `usize::MAX`, the wrapped sum gives 0 rows for 128 entries where 1 is needed. |
| Table.CellIndexInverse | src/main.rs:139-143 | Every cell of the grid has an index inside the grid, and `CellOf` inverts it in both layouts. |
| Table.CellOfInverse | src/main.rs:139-143 | Every index inside the grid is the index of exactly the cell `CellOf` names. |
| Table.EachEntryInOneCell | src/main.rs:137-154 | Every entry appears in exactly one cell, preceded by the separator (except in column 0) and a blank. Every cell past the last entry is blank. |
| Table.LayoutRow | src/main.rs:138-152 | The column loop of one row produces the cells of that row. |
| Table.Layout | src/main.rs:137-155 | The nested loops produce `row_count` rows of `columns` cells, each the cell its index names. |
| Program.PrintTable | src/main.rs:61-161 | `print_table` shows the grid of the entries, or panics when `columns` is 0. |
| Program.RunProgram | src/main.rs:256-366 | A run shows help, an error, the panic, or the grid, as `Render` specifies. |
| Program.EveryByteShownOnce | src/main.rs:135-154 | In the printed grid, byte `i` is in the cell `CellOf(i)`, left-aligned in `column_width`. |
| Program.CellsPastEndBlank | src/main.rs:137-154 | Every cell past the last byte is blank. |
| Program.DefaultScreen | src/main.rs:45-58 | With no options, the table has 26 rows of 5 cells. |
| Program.ColumnsZeroPairs | src/main.rs:163-204 | `program --columns 0` associates to the single pair `(--columns, [0])`. |
| Program.ColumnsZeroStep | src/main.rs:292-296 | `--columns 0` sets the column count to 0. |
| Program.ZeroColumnsPanics | src/main.rs:292-293 | `--columns 0` parses, and the row count then divides by zero. |

## Left out

- Printing: the table is returned as rows of cells. The blank lines before and after it, the line breaks, and the help and error texts themselves are not modelled.
- Reading standard input and files: they are parameters. Open and read errors (src/main.rs:341-353) are not modelled, since any path in `files` reads successfully.
- `stringify_npc` comes from `src/ascii.rs`, which is not part of this model. It is the parameter `npc`. The width lemmas assume its names contain no ESC.
- Exit statuses: `--help` (status 0) is `Help`. Invalid `--columns`/`--width` values and a missing file (status 1) are `Failed`. A byte list that fails to parse panics in the program; here it is `Failed(InvalidBytes)`. `columns == 0` panics on the division; here it is `DivideByZero`.
- Ansi.FromStr: upper-cases ASCII letters only. Rust's `to_uppercase` also maps a few other characters onto ASCII, for example `ſ` to `S`, so `reſet` names `RESET` in the program but is `INVALID` here.
- Text.Lower: lower-cases ASCII letters only. No non-ASCII character lower-cases onto the letters of `ascii`, `extended` or `asciix`, so the alias match is unaffected.
- Cell padding uses `{:<width$}` on text that holds escape sequences, so coloured cells are not visibly aligned. The model states each cell's exact text and claims no visible alignment.
- Ansi.ApplyStrips: states `strip(apply(c, s)) == s` only when `c` is not `INVALID` or the filter starts outside a sequence. With `INVALID` inside an open sequence, the text is eaten up to the reset's `m`.
- Integer widths: `usize` parses are bounded by 2^64. The `row_count` sum is modelled as written only in `Table.RowCountAsWritten`; the grid uses the unbounded ceiling. Other `usize` arithmetic cannot overflow for lists that fit in memory.

## Findings

| source | as written | input that shows it | evidently intended | confidence | as-written member | corrected member |
|---|---|---|---|---|---|---|
| src/main.rs:135 | `row_count = (entries.len() + columns - 1) / columns` in `usize`. A release build wraps the sum; a debug build panics. | `asciitty --columns 18446744073709551615` with the default 128 bytes: the sum wraps to 126, so there are 0 rows and no table. | The ceiling of entries over columns: 1 row here. | not executed; follows from `usize` wrap-around semantics | Table.RowCountWraps | Table.RowCountIsCeiling |
