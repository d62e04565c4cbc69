/**
 * The byte-specification language of the `--bytes` option: single byte
 * literals in four radixes, inclusive ranges `a..b`, the aliases `ascii`,
 * `extended` and `asciix`, and comma-separated lists of all of these.
 * Every `unwrap` that panics in the program is a `None` here.
 */
module ByteSpec {
  import opened Base
  import opened Text
  import opened Numeric

  /** The radix a literal is read in: `0x` hex, `0o` octal, `0b` binary, else decimal. */
  function RadixOf(s: string): (radix: nat)
    ensures radix in {2, 8, 10, 16}
  {
    if StartsWith(s, "0x") then 16
    else if StartsWith(s, "0o") then 8
    else if StartsWith(s, "0b") then 2
    else 10
  }

  /** The literal prefix that selects `radix`. */
  function PrefixOf(radix: nat): string {
    if radix == 16 then "0x" else if radix == 8 then "0o" else if radix == 2 then "0b" else ""
  }

  /** What follows the radix prefix of a literal. */
  function AfterPrefix(s: string): (t: string)
    ensures |PrefixOf(RadixOf(s))| <= |s| && t == s[|PrefixOf(RadixOf(s))|..]
  {
    s[|PrefixOf(RadixOf(s))|..]
  }

  /** `parse_byte`: the digits after the radix prefix, read as a `u8`. */
  function ParseByte(s: string): (r: Option<Byte>)
    ensures r.Some? ==> |s| > |PrefixOf(RadixOf(s))|
  {
    var radix := RadixOf(s);
    match ParseUnsigned(s[|PrefixOf(radix)|..], radix, 256)
    case Some(v) => Some(v as Byte)
    case None => None
  }

  /**
   * A literal is a byte exactly when, after its radix prefix and at most one
   * `+`, there is a non-empty run of digits of that radix whose value is
   * below 256, and then it is that value.
   */
  lemma ParseByteSpec(s: string)
    ensures var ds := DigitRun(AfterPrefix(s));
      (ParseByte(s).Some? <==>
        ds != [] && AllDigits(ds, RadixOf(s)) && DigitsValue(ds, RadixOf(s)).value < 256)
    ensures ParseByte(s).Some? ==>
      ParseByte(s).value == DigitsValue(DigitRun(AfterPrefix(s)), RadixOf(s)).value
  {
    ParseUnsignedSpec(AfterPrefix(s), RadixOf(s), 256);
  }

  /** Behind a `0x`, `0o` or `0b` prefix, the radix is the prefix's and the digits are the rest. */
  lemma PrefixedRadix(radix: nat, ds: string)
    requires radix in {2, 8, 16}
    ensures RadixOf(PrefixOf(radix) + ds) == radix
    ensures (PrefixOf(radix) + ds)[|PrefixOf(radix)|..] == ds
  {
    var s := PrefixOf(radix) + ds;
    assert s[..2] == PrefixOf(radix);
  }

  /** A string of decimal digits is read in radix 10. */
  lemma DecimalRadix(ds: string)
    requires forall k :: 0 <= k < |ds| ==> DigitOf(ds[k], 10).Some?
    ensures RadixOf(ds) == 10
  {
    if 2 <= |ds| {
      assert DigitOf(ds[1], 10).Some?;
      assert ds[..2][1] == ds[1];
    }
  }

  /**
   * Reading `width` digits of `n` behind the prefix of their radix gives `n`
   * when it fits in a byte and fails when it does not.
   */
  lemma ParseByteDigits(radix: nat, n: nat, width: nat)
    requires radix in {2, 8, 10, 16} && 0 < width && n < Pow(radix, width)
    ensures ParseByte(PrefixOf(radix) + FixedDigits(n, radix, width))
         == if n < 256 then Some(n as Byte) else None
  {
    var ds := FixedDigits(n, radix, width);
    var s := PrefixOf(radix) + ds;
    if radix == 10 {
      assert s == ds;
      DecimalRadix(ds);
    } else {
      PrefixedRadix(radix, ds);
    }
    FixedDigitsValue(n, radix, width);
    ParseDigitRun(ds, radix, 256);
  }

  /** `start..=end`: every byte from `lo` up to `hi`, empty when `lo > hi`. */
  function Range(lo: Byte, hi: Byte): (r: seq<Byte>)
    ensures |r| == if lo <= hi then hi - lo + 1 else 0
    ensures forall k :: 0 <= k < |r| ==> r[k] == lo + k
  {
    if lo > hi then [] else seq(hi - lo + 1, k requires 0 <= k < hi - lo + 1 => (lo + k) as Byte)
  }

  /** A range holds exactly the bytes between its ends, in ascending order. */
  lemma RangeMembers(lo: Byte, hi: Byte)
    ensures forall v: Byte :: v in Range(lo, hi) <==> lo <= v <= hi
    ensures forall i, j :: 0 <= i < j < |Range(lo, hi)| ==> Range(lo, hi)[i] < Range(lo, hi)[j]
  {
    var r := Range(lo, hi);
    forall v: Byte | lo <= v <= hi
      ensures v in r
    {
      assert r[v - lo] == v;
    }
  }

  /** Two adjacent ranges make one. */
  lemma RangeConcat(lo: Byte, mid: Byte, hi: Byte)
    requires lo <= mid < hi
    ensures Range(lo, mid) + Range(mid + 1, hi) == Range(lo, hi)
  {
  }

  /**
   * `parse_bytes`: a part containing `..` is the inclusive range between the
   * first two pieces of its split on `..`; any other part is one byte.
   */
  function ParseBytes(part: string): (r: Option<seq<Byte>>)
    ensures r.Some? && !ContainsSub(part, "..") ==> |r.value| == 1
    ensures r.Some? ==> forall k :: 0 < k < |r.value| ==> r.value[k] as int == r.value[k - 1] as int + 1
  {
    if ContainsSub(part, "..") then
      var pieces := SplitOn(part, "..");
      match ParseByte(pieces[0])
      case None => None
      case Some(lo) =>
        match ParseByte(pieces[1])
        case None => None
        case Some(hi) => Some(Range(lo, hi))
    else
      match ParseByte(part)
      case None => None
      case Some(b) => Some([b])
  }

  /** A part without `..` is the single byte it spells, or a failure. */
  lemma ParseBytesSingle(part: string)
    requires !ContainsSub(part, "..")
    ensures ParseBytes(part).Some? <==> ParseByte(part).Some?
    ensures ParseBytes(part).Some? ==> ParseBytes(part).value == [ParseByte(part).value]
  {
  }

  /** `0b1100` is twelve, and a literal with no digits after its prefix is a failure. */
  lemma ParseByteExamples()
    ensures ParseByte("0b" + "1100") == Some(12)
    ensures ParseByte("0x") == None && ParseByte("") == None
  {
    var s := "0b" + "1100";
    assert s[..2] == "0b" && s[2..] == "1100";
    assert RadixOf(s) == 2;
    assert DigitsValue("1", 2) == Some(1) by { assert "1"[..0] == ""; }
    DigitsValueSnoc("1", '1', 2, 1, 1);
    assert "1" + ['1'] == "11";
    DigitsValueSnoc("11", '0', 2, 3, 0);
    assert "11" + ['0'] == "110";
    DigitsValueSnoc("110", '0', 2, 6, 0);
    assert "110" + ['0'] == "1100";
    assert "0x"[..2] == "0x";
  }

  /** Behind a radix prefix, the digits may be written in either case: `0xFF` is `0xff`. */
  lemma PrefixedDigitsIgnoreCase(radix: nat, ds: string)
    requires radix in {2, 8, 16}
    ensures ParseByte(PrefixOf(radix) + Upper(ds)) == ParseByte(PrefixOf(radix) + ds)
  {
    PrefixedRadix(radix, ds);
    PrefixedRadix(radix, Upper(ds));
    ParseUnsignedIgnoresCase(ds, radix, 256);
  }

  /** `0xff` is 255: the prefix picks the radix. */
  lemma HexLiteral()
    ensures ParseByte("0xff") == Some(255)
  {
    assert RadixOf("0xff") == 16 && AfterPrefix("0xff") == "ff" by { assert "0xff"[..2] == "0x"; }
    assert DigitsValue("f", 16) == Some(15) by { assert "f"[..0] == ""; }
    DigitsValueSnoc("f", 'f', 16, 15, 15);
    assert "f" + ['f'] == "ff";
  }

  /** `+7` is 7: one leading `+` is allowed. */
  lemma PlusLiteral()
    ensures ParseByte("+7") == Some(7)
  {
    assert RadixOf("+7") == 10 && DigitRun("+7") == "7" by { assert "+7"[..2] == "+7"; }
    assert DigitsValue("7", 10) == Some(7) by { assert "7"[..0] == ""; }
  }

  /** A literal fails when a character of its digit run is not a digit of its radix. */
  lemma ForeignDigitFails(s: string, k: nat)
    requires k < |DigitRun(AfterPrefix(s))| && DigitOf(DigitRun(AfterPrefix(s))[k], RadixOf(s)).None?
    ensures ParseByte(s) == None
  {
    ParseByteSpec(s);
  }

  /** `0x1g`, `12a` and `0b102` fail: a character that is not a digit of the radix. */
  lemma ParseByteRejectsForeignDigits()
    ensures ParseByte("0x1g") == None
    ensures ParseByte("12a") == None
    ensures ParseByte("0b102") == None
  {
    assert RadixOf("0x1g") == 16 && AfterPrefix("0x1g") == "1g" by { assert "0x1g"[..2] == "0x"; }
    ForeignDigitFails("0x1g", 1);
    assert RadixOf("12a") == 10 by { assert "12a"[..2] == "12"; }
    ForeignDigitFails("12a", 2);
    assert RadixOf("0b102") == 2 && AfterPrefix("0b102") == "102" by { assert "0b102"[..2] == "0b"; }
    ForeignDigitFails("0b102", 2);
  }

  /** `++1` and `-1` fail: one `+` at most, and no `-` at all. */
  lemma ParseByteRejectsSigns()
    ensures ParseByte("++1") == None
    ensures ParseByte("-1") == None
  {
    assert RadixOf("++1") == 10 && DigitRun("++1") == "+1" by { assert "++1"[..2] == "++"; }
    ForeignDigitFails("++1", 0);
    assert RadixOf("-1") == 10 by { assert "-1"[..2] == "-1"; }
    ForeignDigitFails("-1", 0);
  }

  /** `a..b` is the range between the two literals; either one failing fails the part. */
  lemma ParseBytesRange(a: string, b: string)
    requires '.' !in a && !ContainsSub(b, "..")
    ensures ParseBytes(a + ".." + b)
         == if ParseByte(a).Some? && ParseByte(b).Some?
            then Some(Range(ParseByte(a).value, ParseByte(b).value))
            else None
  {
    var s := a + ".." + b;
    AbsentHead(a, "..");
    SplitAtFirst(a, "..", b);
    SplitWithoutSep(b, "..");
    assert OccursAt(s, "..", |a|) by {
      assert s[|a|..|a| + 2] == "..";
    }
    assert ContainsSub(s, "..");
  }

  /** A single decimal digit is a byte literal. */
  lemma SingleDigit(c: char)
    requires '0' <= c <= '9'
    ensures ParseByte([c]) == Some(c as int - '0' as int)
  {
    DecimalRadix([c]);
    assert [c][..0] == "";
    assert DigitsValue([c], 10) == Some(c as int - '0' as int);
    ParseDigitRun([c], 10, 256);
  }

  /** Only the first two pieces count: `1..5..9` is `1..=5`. */
  lemma ParseBytesIgnoresThirdPiece()
    ensures ParseBytes("1" + ".." + "5" + ".." + "9") == Some(Range(1, 5))
  {
    var rest := "5" + ".." + "9";
    var s := "1" + ".." + rest;
    assert "1" + ".." + "5" + ".." + "9" == s;
    AbsentHead("1", "..");
    SplitAtFirst("1", "..", rest);
    AbsentHead("5", "..");
    SplitAtFirst("5", "..", "9");
    assert OccursAt(s, "..", 1) by { assert s[1..3] == ".."; }
    SingleDigit('1');
    SingleDigit('5');
  }

  /** One element of the comma-separated list: an alias, matched ignoring case, or `parse_bytes`. */
  function ExpandPart(part: string): (r: Option<seq<Byte>>)
    ensures Lower(part) == "ascii" ==> r == Some(Range(0, 127))
    ensures Lower(part) == "extended" ==> r == Some(Range(128, 255))
    ensures Lower(part) == "asciix" ==> r == Some(Range(0, 255))
    ensures Lower(part) !in {"ascii", "extended", "asciix"} ==> r == ParseBytes(part)
  {
    var name := Lower(part);
    if name == "ascii" then Some(Range(0, 127))
    else if name == "extended" then Some(Range(128, 255))
    else if name == "asciix" then Some(Range(0, 255))
    else ParseBytes(part)
  }

  /** Joining two optional byte lists, failing if either failed. */
  function Combine(x: Option<seq<Byte>>, y: Option<seq<Byte>>): (r: Option<seq<Byte>>)
    ensures r.Some? <==> x.Some? && y.Some?
    ensures r.Some? ==> r.value == x.value + y.value
  {
    if x.Some? && y.Some? then Some(x.value + y.value) else None
  }

  /** The bytes of every part, in order and with duplicates kept; `None` if any part fails. */
  function ExpandAll(parts: seq<string>): Option<seq<Byte>>
    decreases |parts|
  {
    if parts == [] then Some([])
    else Combine(ExpandAll(parts[..|parts| - 1]), ExpandPart(parts[|parts| - 1]))
  }

  /** The `--bytes` value: its comma-separated parts expanded and concatenated. */
  function ExpandSpec(spec: string): Option<seq<Byte>> {
    ExpandAll(SplitOn(spec, ","))
  }

  /** Expanding a list is expanding its head, then its tail. */
  lemma {:induction false} ExpandAllCons(part: string, parts: seq<string>)
    ensures ExpandAll([part] + parts) == Combine(ExpandPart(part), ExpandAll(parts))
    decreases |parts|
  {
    var all := [part] + parts;
    if parts == [] {
      assert all[..0] == [];
      assert ExpandAll(all) == Combine(Some([]), ExpandPart(part));
      if ExpandPart(part).Some? {
        var v := ExpandPart(part).value;
        assert [] + v == v == v + [];
      }
    } else {
      var init, last := parts[..|parts| - 1], parts[|parts| - 1];
      assert all[..|all| - 1] == [part] + init;
      assert all[|all| - 1] == last;
      ExpandAllCons(part, init);
      CombineAssoc(ExpandPart(part), ExpandAll(init), ExpandPart(last));
    }
  }

  lemma CombineAssoc(x: Option<seq<Byte>>, y: Option<seq<Byte>>, z: Option<seq<Byte>>)
    ensures Combine(Combine(x, y), z) == Combine(x, Combine(y, z))
  {
    if x.Some? && y.Some? && z.Some? {
      assert (x.value + y.value) + z.value == x.value + (y.value + z.value);
    }
  }

  /** A failing part makes the whole list fail, wherever it stands. */
  lemma {:induction false} ExpandAllFails(parts: seq<string>, i: nat)
    requires i < |parts| && ExpandPart(parts[i]).None?
    ensures ExpandAll(parts).None?
    decreases |parts|
  {
    if i < |parts| - 1 {
      ExpandAllFails(parts[..|parts| - 1], i);
    }
  }

  /** `a,rest` expands to the bytes of `a` followed by the bytes of `rest`. */
  lemma ExpandSpecCons(a: string, rest: string)
    requires ',' !in a
    ensures ExpandSpec(a + "," + rest) == Combine(ExpandPart(a), ExpandSpec(rest))
  {
    AbsentHead(a, ",");
    SplitAtFirst(a, ",", rest);
    ExpandAllCons(a, SplitOn(rest, ","));
  }

  /** A spec without commas is a single part. */
  lemma ExpandSpecSingle(a: string)
    requires ',' !in a
    ensures ExpandSpec(a) == ExpandPart(a)
  {
    AbsentHead(a, ",");
    SplitWithoutSep(a, ",");
    ExpandAllCons(a, []);
    assert [a] + [] == [a];
    if ExpandPart(a).Some? {
      var v := ExpandPart(a).value;
      assert v + [] == v;
    }
  }

  /** The aliases are case-insensitive: `ASCII` and `Ascii` mean `ascii`. */
  lemma AliasIgnoresCase(p: string, q: string)
    requires Lower(p) == Lower(q)
    requires Lower(p) in {"ascii", "extended", "asciix"}
    ensures ExpandPart(p) == ExpandPart(q)
  {
  }

  /**
   * Outside the aliases case is not ignored: the prefix `0X` is not `0x`, so
   * `0X1F` fails while `0x1f` is byte 31.
   */
  lemma CaseMattersOutsideAliases()
    ensures ExpandPart("0X1F") == None
    ensures ExpandPart("0x1f") == Some([31])
  {
    UpperPrefixFails();
    LowerPrefixReads();
  }

  lemma UpperPrefixFails()
    ensures ExpandPart("0X1F") == None
  {
    assert Lower("0X1F")[1] == 'x';
    AbsentHead("0X1F", "..");
    assert RadixOf("0X1F") == 10 by { assert "0X1F"[..2] == "0X"; }
    ForeignDigitFails("0X1F", 1);
  }

  lemma LowerPrefixReads()
    ensures ExpandPart("0x1f") == Some([31])
  {
    assert Lower("0x1f")[0] == '0';
    AbsentHead("0x1f", "..");
    assert RadixOf("0x1f") == 16 && AfterPrefix("0x1f") == "1f" by { assert "0x1f"[..2] == "0x"; }
    assert DigitsValue("1", 16) == Some(1) by { assert "1"[..0] == ""; }
    DigitsValueSnoc("1", 'f', 16, 1, 15);
    assert "1" + ['f'] == "1f";
  }

  /** The three alias names are already lower case. */
  lemma AliasNamesLower()
    ensures Lower("ascii") == "ascii" && Lower("extended") == "extended"
    ensures Lower("asciix") == "asciix"
  {
  }

  /** The decimal literals `0` and `127`. */
  lemma DecimalLiterals()
    ensures ParseByte("0") == Some(0) && ParseByte("127") == Some(127)
  {
    SingleDigit('0');
    Digits127();
    DecimalRadix("127");
    ParseDigitRun("127", 10, 256);
  }

  lemma Digits127()
    ensures DigitsValue("127", 10) == Some(127)
  {
    assert DigitsValue("1", 10) == Some(1) by { assert "1"[..0] == ""; }
    DigitsValueSnoc("1", '2', 10, 1, 2);
    assert "1" + ['2'] == "12";
    DigitsValueSnoc("12", '7', 10, 12, 7);
    assert "12" + ['7'] == "127";
  }

  /** `0..127` spells the same bytes as `ascii`. */
  lemma ZeroTo127()
    ensures ExpandPart("0" + ".." + "127") == Some(Range(0, 127))
  {
    var p := "0" + ".." + "127";
    assert Lower(p)[0] == '0';
    AbsentHead("127", "..");
    ParseBytesRange("0", "127");
    DecimalLiterals();
  }

  /** A range whose ends are reversed, such as `5..1`, is valid and holds no byte. */
  lemma ReversedRangeIsEmpty()
    ensures ExpandSpec("5" + ".." + "1") == Some([])
  {
    var p := "5" + ".." + "1";
    assert ',' !in p && Lower(p)[0] == '5';
    ExpandSpecSingle(p);
    AbsentHead("1", "..");
    ParseBytesRange("5", "1");
    SingleDigit('5');
    SingleDigit('1');
  }

  /** `extended` alone is the upper half. */
  lemma ExtendedSpec()
    ensures ExpandSpec("extended") == Some(Range(128, 255))
  {
    AliasNamesLower();
    ExpandSpecSingle("extended");
  }

  /** `asciix` alone is every byte. */
  lemma AsciixSpec()
    ensures ExpandSpec("asciix") == Some(Range(0, 255))
  {
    AliasNamesLower();
    ExpandSpecSingle("asciix");
  }

  /** A first part that spells `0..127`, then `extended`, is all of `0..255`. */
  lemma LowHalfThenExtended(a: string)
    requires ',' !in a && ExpandPart(a) == Some(Range(0, 127))
    ensures ExpandSpec(a + "," + "extended") == ExpandSpec("asciix")
  {
    ExpandSpecCons(a, "extended");
    ExtendedSpec();
    AsciixSpec();
    RangeConcat(0, 127, 255);
  }

  /** `ascii,extended` means the same as `asciix`. */
  lemma AsciiThenExtended()
    ensures ExpandSpec("ascii" + "," + "extended") == ExpandSpec("asciix")
  {
    AliasNamesLower();
    LowHalfThenExtended("ascii");
  }

  /** `0..127,extended` means the same as `asciix`. */
  lemma ZeroTo127ThenExtended()
    ensures ExpandSpec("0" + ".." + "127" + "," + "extended") == ExpandSpec("asciix")
  {
    var a := "0" + ".." + "127";
    assert ',' !in a;
    ZeroTo127();
    LowHalfThenExtended(a);
  }
}
