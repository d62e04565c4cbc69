/**
 * The whole run of `asciitty`: the argument fold of `main`, then
 * `print_table`, which builds one entry per byte and lays the entries out in
 * a grid. What would be printed is returned as a `Screen`.
 */
module Program {
  import opened Base
  import opened Text
  import opened Numeric
  import opened ByteSpec
  import opened Args
  import opened Options
  import opened Cli
  import opened Table

  /** What a run shows: the help text, an error message, the division-by-zero panic, or the rows of the table. */
  datatype Screen =
    | HelpText
    | Error(failure: Failure)
    | DivideByZero
    | Rows(rows: seq<seq<string>>)

  /** The entries `print_table` builds, one per byte. */
  function Entries(bytes: seq<Byte>, o: TableOptions, npc: char -> string): seq<string> {
    seq(|bytes|, i requires 0 <= i < |bytes| => Entry(bytes[i], o, npc))
  }

  /** The cells `print_table` prints, row by row. */
  function Grid(entries: seq<string>, o: TableOptions): seq<seq<string>>
    requires o.columns > 0
  {
    var rows := RowCount(|entries|, o.columns);
    seq(rows, r requires 0 <= r < rows => seq(o.columns, c requires 0 <= c < o.columns => Cell(entries, o, rows, r, c)))
  }

  /** What `print_table` (or the early exit before it) shows for an outcome of `main`'s argument loop. */
  function Show(out: Outcome, npc: char -> string): Screen {
    match out
    case Help => HelpText
    case Failed(f) => Error(f)
    case Table(o, bytes) =>
      if o.columns == 0 then DivideByZero else Rows(Grid(Entries(bytes, o, npc), o))
  }

  /** A run from its arguments to its screen. */
  function Render(args: seq<string>, stdin: seq<Byte>, files: map<string, seq<Byte>>, npc: char -> string): Screen {
    Show(Main(args, stdin, files), npc)
  }

  /**
   * `print_table`: the entries, then the grid. With `columns` 0 the row
   * count divides by zero and the program panics before printing a row.
   */
  method PrintTable(o: TableOptions, bytes: seq<Byte>, npc: char -> string) returns (screen: Screen)
    ensures screen == Show(Table(o, bytes), npc)
  {
    var entries := BuildEntries(bytes, o, npc);
    assert entries == Entries(bytes, o, npc);
    if o.columns == 0 {
      screen := DivideByZero;
    } else {
      var grid := Layout(entries, o);
      var spec := Grid(entries, o);
      forall r | 0 <= r < |grid|
        ensures grid[r] == spec[r]
      {
        assert |grid[r]| == |spec[r]|;
      }
      screen := Rows(grid);
    }
  }

  /** `main` followed by `print_table`. */
  method RunProgram(args: seq<string>, stdin: seq<Byte>, files: map<string, seq<Byte>>, npc: char -> string)
    returns (screen: Screen)
    ensures screen == Render(args, stdin, files, npc)
  {
    var out := Run(args, stdin, files);
    match out {
    case Help => screen := HelpText;
    case Failed(f) => screen := Error(f);
    case Table(o, bytes) => screen := PrintTable(o, bytes, npc);
    }
  }

  /**
   * Every byte of the table shows up in exactly one cell, in input order
   * down the columns (or across the rows with `--horizontal`).
   */
  lemma EveryByteShownOnce(o: TableOptions, bytes: seq<Byte>, npc: char -> string)
    requires o.columns > 0
    ensures var rows := RowCount(|bytes|, o.columns);
      Show(Table(o, bytes), npc).Rows?
      && |Show(Table(o, bytes), npc).rows| == rows
      && (bytes != [] ==> rows > 0)
      && forall i :: 0 <= i < |bytes| ==>
        var rc := CellOf(i, rows, o.columns, o.horizontal);
        rc.0 < rows && rc.1 < o.columns
        && Show(Table(o, bytes), npc).rows[rc.0][rc.1]
           == Lead(rc.1, o) + PadRight(Entry(bytes[i], o, npc), o.columnWidth)
  {
    var entries := Entries(bytes, o, npc);
    var rows := RowCount(|bytes|, o.columns);
    var g := Grid(entries, o);
    assert Show(Table(o, bytes), npc) == Rows(g);
    RowCountIsCeiling(|bytes|, o.columns);
    forall i | 0 <= i < |bytes|
      ensures var rc := CellOf(i, rows, o.columns, o.horizontal);
        rc.0 < rows && rc.1 < o.columns
        && g[rc.0][rc.1] == Lead(rc.1, o) + PadRight(Entry(bytes[i], o, npc), o.columnWidth)
    {
      var rc := CellOf(i, rows, o.columns, o.horizontal);
      CellOfInverse(i, rows, o.columns, o.horizontal);
      assert g[rc.0][rc.1] == Cell(entries, o, rows, rc.0, rc.1);
      assert entries[i] == Entry(bytes[i], o, npc);
    }
  }

  /** The cells past the last byte are blank. */
  lemma CellsPastEndBlank(o: TableOptions, bytes: seq<Byte>, npc: char -> string)
    requires o.columns > 0
    ensures var rows := RowCount(|bytes|, o.columns);
      Show(Table(o, bytes), npc).Rows?
      && forall r, c :: 0 <= r < rows && 0 <= c < o.columns ==>
        (CellIndex(r, c, rows, o.columns, o.horizontal) >= |bytes| ==>
         Show(Table(o, bytes), npc).rows[r][c] == Spaces(o.columnWidth))
  {
    var entries := Entries(bytes, o, npc);
    assert Show(Table(o, bytes), npc) == Rows(Grid(entries, o));
    EachEntryInOneCell(entries, o);
  }

  /** With only the program name: 128 entries in 5 columns make 26 rows. */
  lemma DefaultScreen(program: string, stdin: seq<Byte>, files: map<string, seq<Byte>>, npc: char -> string)
    requires !IsKey(program)
    ensures Render([program], stdin, files, npc).Rows?
    ensures |Render([program], stdin, files, npc).rows| == 26
    ensures forall r :: 0 <= r < 26 ==> |Render([program], stdin, files, npc).rows[r]| == 5
  {
    NoArgumentsGivesDefaults(program, stdin, files);
    assert RowCount(128, 5) == 26;
  }

  /** The argument associator turns `program --columns 0` into one pair. */
  lemma ColumnsZeroPairs(program: string)
    requires !IsKey(program)
    ensures Associate([program, "--columns", "0"]) == [Pair("--columns", ["0"])]
  {
    assert "--columns" == "--" + "columns";
    NoDoubleDash("columns");
    LongFlag("columns");
    NoLeadingDash("0");
    KeyThenValue(program, "--columns", "0");
  }

  /** `--columns 0` sets the column count to zero. */
  lemma ColumnsZeroStep(st: State, files: map<string, seq<Byte>>)
    ensures Step(st, Pair("--columns", ["0"]), files)
         == Continue(st.(options := st.options.(columns := 0)))
  {
    assert ParseUnsigned("0", 10, USIZE_LIMIT) == Some(0) by {
      assert "0"[..0] == "";
    }
  }

  /** `--columns 0` is accepted by the parser and then makes the row count divide by zero. */
  lemma ZeroColumnsPanics(program: string, stdin: seq<Byte>, files: map<string, seq<Byte>>, npc: char -> string)
    requires !IsKey(program)
    ensures Render([program, "--columns", "0"], stdin, files, npc) == DivideByZero
  {
    ColumnsZeroPairs(program);
    ColumnsZeroStep(Start(stdin), files);
    FoldOne(Start(stdin), Pair("--columns", ["0"]), files);
  }
}
