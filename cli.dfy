/**
 * The body of `main` up to the call of `print_table`: the (key, values) pairs
 * from the argument associator are applied one after another to the table
 * options and to the list of input bytes. `--help` and every failed parse
 * end the program early; here they are `Outcome`s instead of process exits.
 *
 * Standard input and the file system are parameters: `stdin` is everything
 * standard input would deliver, and `files` maps each path that names a
 * regular file to its contents.
 */
module Cli {
  import opened Base
  import opened Text
  import opened Numeric
  import opened ByteSpec
  import opened Args
  import opened Options

  /** The reasons `main` stops with exit status 1 before printing a table. */
  datatype Failure =
    | InvalidColumns(value: string)
    | InvalidWidth(value: string)
    | InvalidBytes(spec: string)
    | NoSuchFile(path: string)

  /** How a run ends: the help text, a failure, or a table of these bytes. */
  datatype Outcome =
    | Help
    | Failed(failure: Failure)
    | Table(options: TableOptions, bytes: seq<Byte>)

  /** The variables the loop of `main` updates; `stdin` is what standard input has not yet delivered. */
  datatype State = State(options: TableOptions, bytes: seq<Byte>, stdin: seq<Byte>)

  /** After one pair: keep going from a new state, or stop with an outcome. */
  datatype Progress = Continue(state: State) | Stop(outcome: Outcome)

  function Start(stdin: seq<Byte>): State {
    State(Defaults(), [], stdin)
  }

  // ---------------------------------------------------------------------
  // One pair, and all of them

  /** The keys that end the program with the help text. */
  const HELP_KEYS: set<string> := {"--help", "-h"}

  /** Every key `main` recognises; any other key is ignored. */
  const KNOWN_KEYS: set<string> := HELP_KEYS + {
    "--hex", "--no-hex", "--dec", "--no-dec", "--oct", "--no-oct", "--bin", "--no-bin",
    "--chr", "--no-chr", "--color", "--horizontal", "--no-horizontal", "--no-color", "--stdin",
    "--columns", "--width", "--separator", "--bytes", "--string", "--file"}

  /** The keys that act only when they have at least one value, and use the first. */
  const VALUE_KEYS: set<string> := {"--columns", "--width", "--separator", "--bytes", "--string", "--file"}

  /** The fields of the table options that a single key sets on its own. */
  datatype Field = Hex | Dec | Oct | Bin | Chr | Horizontal | Columns | Width | Separator

  /** The arms of the `match` in `main`: what a key does. */
  datatype Key =
    | AskHelp
    | Toggle(field: Field, on: bool)
    | ColorOn
    | ColorOff
    | ReadStdin
    | SetColumns
    | SetWidth
    | SetSeparator
    | AddBytes
    | AddString
    | AddFile
    | Ignored

  /** The arm of `main`'s `match` that a key selects; only the six flags are toggled. */
  function KeyOf(key: string): (k: Key)
    ensures k.Toggle? ==> k.field in {Hex, Dec, Oct, Bin, Chr, Horizontal}
  {
    match key
    case "--help" | "-h" => AskHelp
    case "--hex" => Toggle(Hex, true)
    case "--no-hex" => Toggle(Hex, false)
    case "--dec" => Toggle(Dec, true)
    case "--no-dec" => Toggle(Dec, false)
    case "--oct" => Toggle(Oct, true)
    case "--no-oct" => Toggle(Oct, false)
    case "--bin" => Toggle(Bin, true)
    case "--no-bin" => Toggle(Bin, false)
    case "--chr" => Toggle(Chr, true)
    case "--no-chr" => Toggle(Chr, false)
    case "--color" => ColorOn
    case "--horizontal" => Toggle(Horizontal, true)
    case "--no-horizontal" => Toggle(Horizontal, false)
    case "--no-color" => ColorOff
    case "--stdin" => ReadStdin
    case "--columns" => SetColumns
    case "--width" => SetWidth
    case "--separator" => SetSeparator
    case "--bytes" => AddBytes
    case "--string" => AddString
    case "--file" => AddFile
    case _ => Ignored
  }

  /** The options with one of the six flags set to `on`. */
  function SetFlag(o: TableOptions, f: Field, on: bool): TableOptions {
    match f
    case Hex => o.(hex := on)
    case Dec => o.(dec := on)
    case Oct => o.(oct := on)
    case Bin => o.(bin := on)
    case Chr => o.(chr := on)
    case Horizontal => o.(horizontal := on)
    case _ => o
  }

  /** The arm `k` of the `match` in `main`, applied to the state with the key's values. */
  function Act(k: Key, st: State, values: seq<string>, files: map<string, seq<Byte>>): (r: Progress)
    ensures r.Continue? ==> st.bytes <= r.state.bytes
  {
    var o := st.options;
    match k
    case AskHelp => Stop(Help)
    case Toggle(f, on) => Continue(st.(options := SetFlag(o, f, on)))
    case ColorOn => Continue(st.(options := o.(color := true)))
    case ColorOff => Continue(st.(options := o.(color := false, columnWidth := 0)))
    case ReadStdin => Continue(st.(bytes := st.bytes + st.stdin, stdin := []))
    case SetColumns =>
      if values == [] then Continue(st)
      else (match ParseUnsigned(values[0], 10, USIZE_LIMIT)
        case Some(n) => Continue(st.(options := o.(columns := n)))
        case None => Stop(Failed(InvalidColumns(values[0]))))
    case SetWidth =>
      if values == [] then Continue(st)
      else (match ParseUnsigned(values[0], 10, USIZE_LIMIT)
        case Some(n) => Continue(st.(options := o.(columnWidth := n)))
        case None => Stop(Failed(InvalidWidth(values[0]))))
    case SetSeparator =>
      if values == [] then Continue(st)
      else Continue(st.(options := o.(separator := values[0])))
    case AddBytes =>
      if values == [] then Continue(st)
      else Gather(st, ExpandSpec(values[0]), values[0])
    case AddString =>
      if values == [] then Continue(st)
      else Continue(st.(bytes := st.bytes + Utf8(values[0])))
    case AddFile =>
      if values == [] then Continue(st)
      else if values[0] in files then Continue(st.(bytes := st.bytes + files[values[0]]))
      else Stop(Failed(NoSuchFile(values[0])))
    case Ignored => Continue(st)
  }

  /** The `--bytes` arm once its value `spec` is expanded: append the bytes, or fail on `spec`. */
  function Gather(st: State, expanded: Option<seq<Byte>>, spec: string): (r: Progress)
    ensures r.Continue? <==> expanded.Some?
  {
    match expanded
    case Some(bs) => Continue(st.(bytes := st.bytes + bs))
    case None => Stop(Failed(InvalidBytes(spec)))
  }

  /** One pass of the loop in `main`: the arm its key selects, applied to the state. */
  function Step(st: State, p: Pair, files: map<string, seq<Byte>>): (r: Progress)
    ensures r.Continue? ==> st.bytes <= r.state.bytes
  {
    Act(KeyOf(p.key), st, p.values, files)
  }

  /** `--help` and `-h`, and only they, stop with the help text; every other stop is a value key whose value fails. */
  lemma StepStops(st: State, p: Pair, files: map<string, seq<Byte>>)
    ensures Step(st, p, files) == Stop(Help) <==> p.key in HELP_KEYS
    ensures Step(st, p, files).Stop? && Step(st, p, files).outcome != Help ==>
      p.key in VALUE_KEYS && |p.values| >= 1
  {
    KeyClasses(p.key);
  }

  /** Which keys select the help arm, the arms that take a value, and no arm at all. */
  lemma KeyClasses(key: string)
    ensures KeyOf(key) == AskHelp <==> key in HELP_KEYS
    ensures KeyOf(key) in {SetColumns, SetWidth, SetSeparator, AddBytes, AddString, AddFile} <==> key in VALUE_KEYS
    ensures KeyOf(key) == Ignored <==> key !in KNOWN_KEYS
  {
  }

  /** A key `main` does not know, or a value key without a value, changes nothing. */
  lemma StepIgnores(st: State, p: Pair, files: map<string, seq<Byte>>)
    ensures p.key !in KNOWN_KEYS ==> Step(st, p, files) == Continue(st)
    ensures p.key in VALUE_KEYS && p.values == [] ==> Step(st, p, files) == Continue(st)
  {
    KeyClasses(p.key);
  }

  /** `--string` appends the UTF-8 bytes of its value and changes nothing else. */
  lemma StringAppends(st: State, text: string, rest: seq<string>, files: map<string, seq<Byte>>)
    ensures Step(st, Pair("--string", [text] + rest), files)
         == Continue(st.(bytes := st.bytes + Utf8(text)))
  {
    var values := [text] + rest;
    assert KeyOf("--string") == AddString && values != [] && values[0] == text;
    assert Step(st, Pair("--string", values), files) == Act(AddString, st, values, files);
  }

  /** `--file` appends the contents of the named file, and fails when there is no such file. */
  lemma FileAppends(st: State, path: string, rest: seq<string>, files: map<string, seq<Byte>>)
    ensures Step(st, Pair("--file", [path] + rest), files)
         == if path in files then Continue(st.(bytes := st.bytes + files[path]))
            else Stop(Failed(NoSuchFile(path)))
  {
    var values := [path] + rest;
    assert KeyOf("--file") == AddFile && values != [] && values[0] == path;
    assert Step(st, Pair("--file", values), files) == Act(AddFile, st, values, files);
  }

  /** The pairs applied in order, stopping at the first that ends the program. */
  function Fold(pairs: seq<Pair>, st: State, files: map<string, seq<Byte>>): Progress
    decreases |pairs|
  {
    if pairs == [] then Continue(st)
    else match Step(st, pairs[0], files)
      case Stop(out) => Stop(out)
      case Continue(next) => Fold(pairs[1..], next, files)
  }

  /** With no bytes from any source, the table shows `0..=127`. */
  function Finish(bytes: seq<Byte>): (r: seq<Byte>)
    ensures |r| > 0
    ensures bytes != [] ==> r == bytes
    ensures bytes == [] ==> r == Range(0, 127)
  {
    if bytes == [] then Range(0, 127) else bytes
  }

  /** What `main` does with its arguments, up to the table it would print. */
  function Main(args: seq<string>, stdin: seq<Byte>, files: map<string, seq<Byte>>): Outcome {
    match Fold(Associate(args), Start(stdin), files)
    case Stop(out) => out
    case Continue(st) => Table(st.options, Finish(st.bytes))
  }

  /** When no pair stops the program and none gathers a byte, the table shows `0..=127`. */
  lemma DefaultRangeWhenNothingGathered(args: seq<string>, stdin: seq<Byte>, files: map<string, seq<Byte>>)
    requires Fold(Associate(args), Start(stdin), files).Continue?
    requires Fold(Associate(args), Start(stdin), files).state.bytes == []
    ensures Main(args, stdin, files)
         == Table(Fold(Associate(args), Start(stdin), files).state.options, Range(0, 127))
  {
  }

  /**
   * Sources that deliver no bytes leave the state as it was: an empty
   * `--string`, `--stdin` once standard input is used up, an empty file, and
   * a reversed range such as `--bytes 5..1`.
   */
  lemma EmptySourcesAddNothing(st: State, rest: seq<string>, path: string, files: map<string, seq<Byte>>)
    ensures Step(st, Pair("--string", [""] + rest), files) == Continue(st)
    ensures st.stdin == [] ==> Step(st, Pair("--stdin", rest), files) == Continue(st)
    ensures path in files && files[path] == [] ==>
      Step(st, Pair("--file", [path] + rest), files) == Continue(st)
    ensures Step(st, Pair("--bytes", ["5" + ".." + "1"] + rest), files) == Continue(st)
  {
    EmptyString(st, rest, files);
    EmptyStdin(st, rest, files);
    if path in files && files[path] == [] {
      EmptyFile(st, rest, path, files);
    }
    ReversedRange(st, rest, files);
  }

  lemma EmptyString(st: State, rest: seq<string>, files: map<string, seq<Byte>>)
    ensures Step(st, Pair("--string", [""] + rest), files) == Continue(st)
  {
    StringAppends(st, "", rest, files);
    assert Utf8("") == [] && st.bytes + [] == st.bytes;
  }

  lemma EmptyStdin(st: State, rest: seq<string>, files: map<string, seq<Byte>>)
    ensures st.stdin == [] ==> Step(st, Pair("--stdin", rest), files) == Continue(st)
  {
    assert KeyOf("--stdin") == ReadStdin;
    assert st.bytes + [] == st.bytes;
  }

  lemma EmptyFile(st: State, rest: seq<string>, path: string, files: map<string, seq<Byte>>)
    requires path in files && files[path] == []
    ensures Step(st, Pair("--file", [path] + rest), files) == Continue(st)
  {
    FileAppends(st, path, rest, files);
    assert st.bytes + [] == st.bytes;
  }

  lemma ReversedRange(st: State, rest: seq<string>, files: map<string, seq<Byte>>)
    ensures Step(st, Pair("--bytes", ["5" + ".." + "1"] + rest), files) == Continue(st)
  {
    ReversedRangeIsEmpty();
    BytesAppends(st, "5" + ".." + "1", rest, files);
    assert st.bytes + [] == st.bytes;
  }

  /** `--bytes` appends the bytes its value spells, and fails when the value is not a valid spec. */
  lemma BytesAppends(st: State, spec: string, rest: seq<string>, files: map<string, seq<Byte>>)
    ensures ExpandSpec(spec).Some? ==>
      Step(st, Pair("--bytes", [spec] + rest), files) == Continue(st.(bytes := st.bytes + ExpandSpec(spec).value))
    ensures ExpandSpec(spec).None? ==>
      Step(st, Pair("--bytes", [spec] + rest), files) == Stop(Failed(InvalidBytes(spec)))
  {
    var values := [spec] + rest;
    assert KeyOf("--bytes") == AddBytes && values != [] && values[0] == spec;
    AddBytesArm(st, values, files);
  }

  lemma AddBytesArm(st: State, values: seq<string>, files: map<string, seq<Byte>>)
    requires values != []
    ensures ExpandSpec(values[0]).Some? ==>
      Act(AddBytes, st, values, files) == Continue(st.(bytes := st.bytes + ExpandSpec(values[0]).value))
    ensures ExpandSpec(values[0]).None? ==>
      Act(AddBytes, st, values, files) == Stop(Failed(InvalidBytes(values[0])))
  {
    var expanded := ExpandSpec(values[0]);
    assert Act(AddBytes, st, values, files) == Gather(st, expanded, values[0]);
    match expanded
    case Some(bs) => assert Gather(st, expanded, values[0]) == Continue(st.(bytes := st.bytes + bs));
    case None => assert Gather(st, expanded, values[0]) == Stop(Failed(InvalidBytes(values[0])));
  }

  /** `prog --bytes 5..1` and `prog --string ""` both print the default table of `0..=127`. */
  lemma EmptySourcesShowDefault(program: string, stdin: seq<Byte>, files: map<string, seq<Byte>>)
    requires !IsKey(program)
    ensures Main([program, "--bytes", "5" + ".." + "1"], stdin, files) == Table(Defaults(), Range(0, 127))
    ensures Main([program, "--string", ""], stdin, files) == Table(Defaults(), Range(0, 127))
  {
    ReversedRangeShowsDefault(program, stdin, files);
    EmptyStringShowsDefault(program, stdin, files);
  }

  lemma ReversedRangeShowsDefault(program: string, stdin: seq<Byte>, files: map<string, seq<Byte>>)
    requires !IsKey(program)
    ensures Main([program, "--bytes", "5" + ".." + "1"], stdin, files) == Table(Defaults(), Range(0, 127))
  {
    var range := "5" + ".." + "1";
    assert "--bytes" == "--" + "bytes";
    NoDoubleDash("bytes");
    LongFlag("bytes");
    KeyShape(range);
    KeyThenValue(program, "--bytes", range);
    ReversedRange(Start(stdin), [], files);
    assert [range] + [] == [range];
    FoldOne(Start(stdin), Pair("--bytes", [range]), files);
  }

  lemma EmptyStringShowsDefault(program: string, stdin: seq<Byte>, files: map<string, seq<Byte>>)
    requires !IsKey(program)
    ensures Main([program, "--string", ""], stdin, files) == Table(Defaults(), Range(0, 127))
  {
    assert "--string" == "--" + "string";
    NoDoubleDash("string");
    LongFlag("string");
    KeyShape("");
    KeyThenValue(program, "--string", "");
    EmptyString(Start(stdin), [], files);
    assert [""] + [] == [""];
    FoldOne(Start(stdin), Pair("--string", [""]), files);
  }

  // ---------------------------------------------------------------------
  // The loops

  /** The `--bytes` arm: each comma-separated part extends `bytes` in turn. */
  method ExtendBytes(bytes: seq<Byte>, spec: string) returns (r: Option<seq<Byte>>)
    ensures r == Combine(Some(bytes), ExpandSpec(spec))
  {
    var parts := SplitOn(spec, ",");
    var acc := bytes;
    assert parts[..0] == [] && bytes + [] == bytes;
    for i := 0 to |parts|
      invariant Combine(Some(bytes), ExpandAll(parts[..i])) == Some(acc)
    {
      assert parts[..i + 1][..i] == parts[..i];
      var part := parts[i];
      var more: seq<Byte>;
      match Lower(part) {
      case "ascii" => more := Range(0, 127);
      case "extended" => more := Range(128, 255);
      case "asciix" => more := Range(0, 255);
      case _ =>
        var parsed := ParseBytes(part);
        if parsed.None? {
          ExpandAllFails(parts, i);
          return None;
        }
        more := parsed.value;
      }
      assert ExpandPart(part) == Some(more);
      CombineAssoc(Some(bytes), ExpandAll(parts[..i]), Some(more));
      acc := acc + more;
    }
    assert parts[..|parts|] == parts;
    return Some(acc);
  }

  /** One pass of the loop body of `main`: the arm of its `match` that the pair's key selects. */
  method ApplyPair(st: State, p: Pair, files: map<string, seq<Byte>>) returns (r: Progress)
    ensures r == Step(st, p, files)
  {
    var options, bytes, input := st.options, st.bytes, st.stdin;
    var values := p.values;
    match KeyOf(p.key) {
    case AskHelp => return Stop(Help);
    case Toggle(f, on) => options := SetFlag(options, f, on);
    case ColorOn => options := options.(color := true);
    case ColorOff =>
      options := options.(color := false);
      options := options.(columnWidth := 0);
    case ReadStdin =>
      bytes := bytes + input;
      input := [];
    case SetColumns =>
      if |values| >= 1 {
        var n := ParseUnsigned(values[0], 10, USIZE_LIMIT);
        if n.None? {
          return Stop(Failed(InvalidColumns(values[0])));
        }
        options := options.(columns := n.value);
      }
    case SetWidth =>
      if |values| >= 1 {
        var n := ParseUnsigned(values[0], 10, USIZE_LIMIT);
        if n.None? {
          return Stop(Failed(InvalidWidth(values[0])));
        }
        options := options.(columnWidth := n.value);
      }
    case SetSeparator =>
      if |values| >= 1 {
        options := options.(separator := values[0]);
      }
    case AddBytes =>
      if |values| >= 1 {
        var extended := ExtendBytes(bytes, values[0]);
        if extended.None? {
          return Stop(Failed(InvalidBytes(values[0])));
        }
        bytes := extended.value;
      }
    case AddString =>
      if |values| >= 1 {
        bytes := bytes + Utf8(values[0]);
      }
    case AddFile =>
      if |values| >= 1 {
        if values[0] !in files {
          return Stop(Failed(NoSuchFile(values[0])));
        }
        bytes := bytes + files[values[0]];
      }
    case Ignored =>
    }
    return Continue(State(options, bytes, input));
  }

  /** The loop of `main` over the associated arguments, then the default byte list. */
  method Run(args: seq<string>, stdin: seq<Byte>, files: map<string, seq<Byte>>) returns (out: Outcome)
    ensures out == Main(args, stdin, files)
  {
    var pairs := ParseArgs(args);
    var st := Start(stdin);
    var i := 0;
    while i < |pairs|
      invariant 0 <= i <= |pairs|
      invariant Fold(pairs, Start(stdin), files) == Fold(pairs[i..], st, files)
    {
      assert pairs[i..][1..] == pairs[i + 1..];
      var progress := ApplyPair(st, pairs[i], files);
      match progress {
      case Stop(o) => return o;
      case Continue(next) => st := next;
      }
      i := i + 1;
    }
    var bytes := st.bytes;
    if bytes == [] {
      bytes := Range(0, 127);
    }
    return Table(st.options, bytes);
  }

  // ---------------------------------------------------------------------
  // Properties of the option fold

  /** Applying `p1 + p2` is applying `p1`, then, unless it stopped, `p2`. */
  lemma {:induction false} FoldAppend(p1: seq<Pair>, p2: seq<Pair>, st: State, files: map<string, seq<Byte>>)
    ensures Fold(p1 + p2, st, files)
         == match Fold(p1, st, files)
            case Stop(out) => Stop(out)
            case Continue(mid) => Fold(p2, mid, files)
    decreases |p1|
  {
    if p1 == [] {
      assert p1 + p2 == p2;
    } else {
      assert (p1 + p2)[0] == p1[0] && (p1 + p2)[1..] == p1[1..] + p2;
      match Step(st, p1[0], files)
      case Stop(_) =>
      case Continue(next) => FoldAppend(p1[1..], p2, next, files);
    }
  }

  /** Two pairs: the first, then, unless it stopped, the second. */
  lemma FoldTwo(st: State, a: Pair, b: Pair, files: map<string, seq<Byte>>)
    ensures Fold([b], st, files) == Step(st, b, files)
    ensures Fold([a, b], st, files)
         == match Step(st, a, files)
            case Stop(out) => Stop(out)
            case Continue(mid) => Step(mid, b, files)
  {
    FoldOne(st, b, files);
    assert [a, b][1..] == [b];
    match Step(st, a, files)
    case Stop(_) =>
    case Continue(mid) => FoldOne(mid, b, files);
  }

  lemma FoldOne(st: State, b: Pair, files: map<string, seq<Byte>>)
    ensures Fold([b], st, files) == Step(st, b, files)
  {
    assert [b][1..] == [];
  }

  /** Byte sources only ever append: the bytes gathered so far stay a prefix. */
  lemma {:induction false} BytesOnlyGrow(pairs: seq<Pair>, st: State, files: map<string, seq<Byte>>)
    requires Fold(pairs, st, files).Continue?
    ensures st.bytes <= Fold(pairs, st, files).state.bytes
    decreases |pairs|
  {
    if pairs != [] {
      var next := Step(st, pairs[0], files).state;
      BytesOnlyGrow(pairs[1..], next, files);
    }
  }

  /** A run of pairs that `main` ignores leaves the state as it was. */
  lemma {:induction false} IgnoredPairs(pairs: seq<Pair>, st: State, files: map<string, seq<Byte>>)
    requires forall k :: 0 <= k < |pairs| ==>
      pairs[k].key !in KNOWN_KEYS || (pairs[k].key in VALUE_KEYS && pairs[k].values == [])
    ensures Fold(pairs, st, files) == Continue(st)
    decreases |pairs|
  {
    if pairs != [] {
      StepIgnores(st, pairs[0], files);
      IgnoredPairs(pairs[1..], st, files);
    }
  }

  /** A help key stops the program, unless an earlier pair already did. */
  lemma HelpShortCircuits(p1: seq<Pair>, help: Pair, p2: seq<Pair>, st: State, files: map<string, seq<Byte>>)
    requires help.key in HELP_KEYS
    ensures Fold(p1 + [help] + p2, st, files)
         == if Fold(p1, st, files).Stop? then Fold(p1, st, files) else Stop(Help)
  {
    FoldAppend(p1, [help] + p2, st, files);
    assert p1 + [help] + p2 == p1 + ([help] + p2);
    if Fold(p1, st, files).Continue? {
      StepStops(Fold(p1, st, files).state, help, files);
    }
  }

  /** The one field an arm sets, or `None` for an arm that sets none or more than one. */
  function FieldOf(k: Key): Option<Field> {
    match k
    case Toggle(f, _) => Some(f)
    case SetColumns => Some(Columns)
    case SetWidth => Some(Width)
    case SetSeparator => Some(Separator)
    case _ => None
  }

  /** The one field a key sets, or `None` for a key that sets none or more than one. */
  function Setting(key: string): Option<Field> {
    FieldOf(KeyOf(key))
  }

  /** Two states that differ at most in the field `f`. */
  predicate AgreeExcept(s1: State, s2: State, f: Field) {
    var o1, o2 := s1.options, s2.options;
    && s1.bytes == s2.bytes && s1.stdin == s2.stdin && o1.color == o2.color
    && (f != Hex ==> o1.hex == o2.hex)
    && (f != Dec ==> o1.dec == o2.dec)
    && (f != Oct ==> o1.oct == o2.oct)
    && (f != Bin ==> o1.bin == o2.bin)
    && (f != Chr ==> o1.chr == o2.chr)
    && (f != Horizontal ==> o1.horizontal == o2.horizontal)
    && (f != Columns ==> o1.columns == o2.columns)
    && (f != Width ==> o1.columnWidth == o2.columnWidth)
    && (f != Separator ==> o1.separator == o2.separator)
  }

  /** A pair that sets a field changes nothing else. */
  lemma SettingOnly(st: State, a: Pair, files: map<string, seq<Byte>>)
    requires Setting(a.key).Some? && Step(st, a, files).Continue?
    ensures AgreeExcept(st, Step(st, a, files).state, Setting(a.key).value)
  {
    ActSettingOnly(KeyOf(a.key), st, a.values, files);
  }

  lemma ActSettingOnly(k: Key, st: State, values: seq<string>, files: map<string, seq<Byte>>)
    requires FieldOf(k).Some? && Act(k, st, values, files).Continue?
    ensures AgreeExcept(st, Act(k, st, values, files).state, FieldOf(k).value)
  {
    if k.Toggle? {
      ToggleOnly(k, st, values, files);
    } else {
      ValueOnly(k, st, values, files);
    }
  }

  lemma ToggleOnly(k: Key, st: State, values: seq<string>, files: map<string, seq<Byte>>)
    requires k.Toggle? && Act(k, st, values, files).Continue?
    ensures AgreeExcept(st, Act(k, st, values, files).state, k.field)
  {
    assert Act(k, st, values, files) == Continue(st.(options := SetFlag(st.options, k.field, k.on)));
    SetFlagOnly(st, k.field, k.on);
  }

  lemma ValueOnly(k: Key, st: State, values: seq<string>, files: map<string, seq<Byte>>)
    requires k in {SetColumns, SetWidth, SetSeparator} && Act(k, st, values, files).Continue?
    ensures AgreeExcept(st, Act(k, st, values, files).state, FieldOf(k).value)
  {
  }

  /**
   * States that differ only in one field are treated alike by every pair:
   * both stop with the same outcome, or both go on to states that still
   * differ only in that field.
   */
  lemma StepAgree(s1: State, s2: State, p: Pair, files: map<string, seq<Byte>>, f: Field)
    requires AgreeExcept(s1, s2, f)
    ensures Step(s1, p, files).Stop? <==> Step(s2, p, files).Stop?
    ensures Step(s1, p, files).Stop? ==> Step(s1, p, files) == Step(s2, p, files)
    ensures Step(s1, p, files).Continue? ==>
      AgreeExcept(Step(s1, p, files).state, Step(s2, p, files).state, f)
  {
    ActAgree(KeyOf(p.key), s1, s2, p.values, files, f);
  }

  lemma ActAgree(k: Key, s1: State, s2: State, values: seq<string>, files: map<string, seq<Byte>>, f: Field)
    requires AgreeExcept(s1, s2, f)
    ensures Act(k, s1, values, files).Stop? <==> Act(k, s2, values, files).Stop?
    ensures Act(k, s1, values, files).Stop? ==> Act(k, s1, values, files) == Act(k, s2, values, files)
    ensures Act(k, s1, values, files).Continue? ==>
      AgreeExcept(Act(k, s1, values, files).state, Act(k, s2, values, files).state, f)
  {
    match k
    case AskHelp | ColorOn | ColorOff | ReadStdin | Ignored => AgreeFixed(k, s1, s2, values, files, f);
    case Toggle(_, _) => AgreeToggle(k, s1, s2, values, files, f);
    case SetColumns | SetWidth => AgreeParsed(k, s1, s2, values, files, f);
    case SetSeparator | AddString => AgreeText(k, s1, s2, values, files, f);
    case AddBytes | AddFile => AgreeSourced(k, s1, s2, values, files, f);
  }

  // The cases of `ActAgree`, a few arms at a time.

  lemma AgreeFixed(k: Key, s1: State, s2: State, values: seq<string>, files: map<string, seq<Byte>>, f: Field)
    requires AgreeExcept(s1, s2, f) && k in {AskHelp, ColorOn, ColorOff, ReadStdin, Ignored}
    ensures Act(k, s1, values, files).Stop? <==> Act(k, s2, values, files).Stop?
    ensures Act(k, s1, values, files).Stop? ==> Act(k, s1, values, files) == Act(k, s2, values, files)
    ensures Act(k, s1, values, files).Continue? ==>
      AgreeExcept(Act(k, s1, values, files).state, Act(k, s2, values, files).state, f)
  {
  }

  lemma AgreeToggle(k: Key, s1: State, s2: State, values: seq<string>, files: map<string, seq<Byte>>, f: Field)
    requires AgreeExcept(s1, s2, f) && k.Toggle?
    ensures Act(k, s1, values, files).Stop? <==> Act(k, s2, values, files).Stop?
    ensures Act(k, s1, values, files).Stop? ==> Act(k, s1, values, files) == Act(k, s2, values, files)
    ensures Act(k, s1, values, files).Continue? ==>
      AgreeExcept(Act(k, s1, values, files).state, Act(k, s2, values, files).state, f)
  {
    assert Act(k, s1, values, files) == Continue(s1.(options := SetFlag(s1.options, k.field, k.on)));
    assert Act(k, s2, values, files) == Continue(s2.(options := SetFlag(s2.options, k.field, k.on)));
    SetFlagAgree(s1, s2, k.field, k.on, f);
  }

  /** Setting the same flag in two states that differ only in `f` keeps them so. */
  lemma SetFlagAgree(s1: State, s2: State, g: Field, on: bool, f: Field)
    requires AgreeExcept(s1, s2, f)
    ensures AgreeExcept(s1.(options := SetFlag(s1.options, g, on)), s2.(options := SetFlag(s2.options, g, on)), f)
  {
    match g
    case Hex =>
    case Dec =>
    case Oct =>
    case Bin =>
    case Chr =>
    case Horizontal =>
    case _ =>
  }

  /** Setting a flag changes no other field. */
  lemma SetFlagOnly(st: State, g: Field, on: bool)
    ensures AgreeExcept(st, st.(options := SetFlag(st.options, g, on)), g)
  {
    match g
    case Hex =>
    case Dec =>
    case Oct =>
    case Bin =>
    case Chr =>
    case Horizontal =>
    case _ =>
  }

  lemma AgreeParsed(k: Key, s1: State, s2: State, values: seq<string>, files: map<string, seq<Byte>>, f: Field)
    requires AgreeExcept(s1, s2, f) && k in {SetColumns, SetWidth}
    ensures Act(k, s1, values, files).Stop? <==> Act(k, s2, values, files).Stop?
    ensures Act(k, s1, values, files).Stop? ==> Act(k, s1, values, files) == Act(k, s2, values, files)
    ensures Act(k, s1, values, files).Continue? ==>
      AgreeExcept(Act(k, s1, values, files).state, Act(k, s2, values, files).state, f)
  {
    if values != [] {
      var v := values[0];
      match ParseUnsigned(v, 10, USIZE_LIMIT)
      case Some(n) =>
        if k == SetColumns {
          assert Act(k, s1, values, files) == Continue(s1.(options := s1.options.(columns := n)));
          assert Act(k, s2, values, files) == Continue(s2.(options := s2.options.(columns := n)));
        } else {
          assert Act(k, s1, values, files) == Continue(s1.(options := s1.options.(columnWidth := n)));
          assert Act(k, s2, values, files) == Continue(s2.(options := s2.options.(columnWidth := n)));
        }
      case None =>
        assert Act(k, s1, values, files).Stop? && Act(k, s1, values, files) == Act(k, s2, values, files);
    }
  }

  lemma AgreeText(k: Key, s1: State, s2: State, values: seq<string>, files: map<string, seq<Byte>>, f: Field)
    requires AgreeExcept(s1, s2, f) && k in {SetSeparator, AddString}
    ensures Act(k, s1, values, files).Stop? <==> Act(k, s2, values, files).Stop?
    ensures Act(k, s1, values, files).Stop? ==> Act(k, s1, values, files) == Act(k, s2, values, files)
    ensures Act(k, s1, values, files).Continue? ==>
      AgreeExcept(Act(k, s1, values, files).state, Act(k, s2, values, files).state, f)
  {
  }

  lemma AgreeSourced(k: Key, s1: State, s2: State, values: seq<string>, files: map<string, seq<Byte>>, f: Field)
    requires AgreeExcept(s1, s2, f) && k in {AddBytes, AddFile}
    ensures Act(k, s1, values, files).Stop? <==> Act(k, s2, values, files).Stop?
    ensures Act(k, s1, values, files).Stop? ==> Act(k, s1, values, files) == Act(k, s2, values, files)
    ensures Act(k, s1, values, files).Continue? ==>
      AgreeExcept(Act(k, s1, values, files).state, Act(k, s2, values, files).state, f)
  {
  }


  /** What `StepAgree` says of one pair holds for a run of them. */
  lemma {:induction false} FoldAgree(pairs: seq<Pair>, s1: State, s2: State, files: map<string, seq<Byte>>, f: Field)
    requires AgreeExcept(s1, s2, f)
    ensures Fold(pairs, s1, files).Stop? <==> Fold(pairs, s2, files).Stop?
    ensures Fold(pairs, s1, files).Stop? ==> Fold(pairs, s1, files) == Fold(pairs, s2, files)
    ensures Fold(pairs, s1, files).Continue? ==>
      AgreeExcept(Fold(pairs, s1, files).state, Fold(pairs, s2, files).state, f)
    decreases |pairs|
  {
    if pairs != [] {
      StepAgree(s1, s2, pairs[0], files, f);
      if Step(s1, pairs[0], files).Continue? {
        FoldAgree(pairs[1..], Step(s1, pairs[0], files).state, Step(s2, pairs[0], files).state, files, f);
      }
    }
  }

  /** A pair that sets a field to a value makes states that differed only there equal. */
  lemma Overwrite(s1: State, s2: State, b: Pair, files: map<string, seq<Byte>>)
    requires Setting(b.key).Some? && AgreeExcept(s1, s2, Setting(b.key).value)
    requires b.key in VALUE_KEYS ==> b.values != []
    ensures Step(s1, b, files) == Step(s2, b, files)
  {
  }

  /**
   * Of two pairs that set the same field, the later one decides it, whatever
   * comes before, between and after them: dropping the earlier one changes
   * nothing unless it is the one that stops the program.
   */
  lemma LaterSettingWins(ps: seq<Pair>, a: Pair, qs: seq<Pair>, b: Pair, rs: seq<Pair>, st: State, files: map<string, seq<Byte>>)
    requires Setting(a.key).Some? && Setting(a.key) == Setting(b.key)
    requires Fold(ps, st, files).Continue? ==> Step(Fold(ps, st, files).state, a, files).Continue?
    requires b.key in VALUE_KEYS ==> b.values != []
    ensures Fold(ps + [a] + qs + [b] + rs, st, files) == Fold(ps + qs + [b] + rs, st, files)
  {
    var tail := qs + [b];
    assert ps + [a] + qs + [b] + rs == ps + ([a] + tail) + rs;
    assert ps + qs + [b] + rs == ps + tail + rs;
    FoldAppend(ps + ([a] + tail), rs, st, files);
    FoldAppend(ps + tail, rs, st, files);
    FoldAppend(ps, [a] + tail, st, files);
    FoldAppend(ps, tail, st, files);
    if Fold(ps, st, files).Continue? {
      var m := Fold(ps, st, files).state;
      var m' := Step(m, a, files).state;
      assert ([a] + tail)[0] == a && ([a] + tail)[1..] == tail;
      assert Fold([a] + tail, m, files) == Fold(tail, m', files);
      SettingOnly(m, a, files);
      LaterOverwrites(qs, b, m, m', files);
    }
  }

  /** From states that differ only in what `b` sets, `qs` then `b` ends in the same place. */
  lemma LaterOverwrites(qs: seq<Pair>, b: Pair, s1: State, s2: State, files: map<string, seq<Byte>>)
    requires Setting(b.key).Some? && AgreeExcept(s1, s2, Setting(b.key).value)
    requires b.key in VALUE_KEYS ==> b.values != []
    ensures Fold(qs + [b], s1, files) == Fold(qs + [b], s2, files)
  {
    FoldAppend(qs, [b], s1, files);
    FoldAppend(qs, [b], s2, files);
    FoldAgree(qs, s1, s2, files, Setting(b.key).value);
    if Fold(qs, s1, files).Continue? {
      var t1, t2 := Fold(qs, s1, files).state, Fold(qs, s2, files).state;
      FoldOne(t1, b, files);
      FoldOne(t2, b, files);
      Overwrite(t1, t2, b, files);
    }
  }

  /** `--no-color` zeroes the column width, so its order against `--width` matters. */
  lemma NoColorAgainstWidth(st: State, off: seq<string>, v: string, files: map<string, seq<Byte>>)
    requires ParseUnsigned(v, 10, USIZE_LIMIT).Some?
    ensures var n := ParseUnsigned(v, 10, USIZE_LIMIT).value;
      Fold([Pair("--no-color", off), Pair("--width", [v])], st, files)
        == Continue(st.(options := st.options.(color := false, columnWidth := n)))
    ensures Fold([Pair("--width", [v]), Pair("--no-color", off)], st, files)
        == Continue(st.(options := st.options.(color := false, columnWidth := 0)))
  {
    var n := ParseUnsigned(v, 10, USIZE_LIMIT).value;
    var o := st.options;
    var dark := st.(options := o.(color := false, columnWidth := 0));
    var wide := st.(options := o.(columnWidth := n));
    assert Step(st, Pair("--no-color", off), files) == Continue(dark);
    assert Step(dark, Pair("--width", [v]), files) == Continue(dark.(options := dark.options.(columnWidth := n)));
    FoldTwo(st, Pair("--no-color", off), Pair("--width", [v]), files);
    assert Step(st, Pair("--width", [v]), files) == Continue(wide);
    assert Step(wide, Pair("--no-color", off), files) == Continue(dark);
    FoldTwo(st, Pair("--width", [v]), Pair("--no-color", off), files);
  }

  /** Standard input is read to its end by the first `--stdin`; a second one adds nothing. */
  lemma StdinReadOnce(st: State, v1: seq<string>, v2: seq<string>, files: map<string, seq<Byte>>)
    ensures Fold([Pair("--stdin", v1), Pair("--stdin", v2)], st, files)
         == Continue(st.(bytes := st.bytes + st.stdin, stdin := []))
  {
    var once := st.(bytes := st.bytes + st.stdin, stdin := []);
    assert Step(st, Pair("--stdin", v1), files) == Continue(once);
    assert once.bytes + once.stdin == once.bytes;
    assert Step(once, Pair("--stdin", v2), files) == Continue(once);
    FoldTwo(st, Pair("--stdin", v1), Pair("--stdin", v2), files);
  }

  /** Sources append in the order they are given: a string, then a file. */
  lemma SourcesAppendInOrder(st: State, text: string, path: string, files: map<string, seq<Byte>>)
    requires path in files
    ensures Fold([Pair("--string", [text]), Pair("--file", [path])], st, files)
         == Continue(st.(bytes := st.bytes + Utf8(text) + files[path]))
  {
    var mid := st.(bytes := st.bytes + Utf8(text));
    StringAppends(st, text, [], files);
    FileAppends(mid, path, [], files);
    assert [text] + [] == [text] && [path] + [] == [path];
    FoldTwo(st, Pair("--string", [text]), Pair("--file", [path]), files);
  }

  /** With no arguments but the program name, the table uses the defaults and the bytes `0..=127`. */
  lemma NoArgumentsGivesDefaults(program: string, stdin: seq<Byte>, files: map<string, seq<Byte>>)
    requires !IsKey(program)
    ensures Main([program], stdin, files) == Table(Defaults(), Range(0, 127))
    ensures Defaults().hex && Defaults().dec && Defaults().chr
    ensures !Defaults().oct && !Defaults().bin && !Defaults().horizontal && Defaults().color
    ensures Defaults().columns == 5 && Defaults().columnWidth == 40 && Defaults().separator == " | "
  {
    OnePairPerKey([program]);
  }
}
