/** The display settings of the table, `TableOptions`. */
module Options {
  /** `usize::MAX + 1` on a 64-bit target. */
  const USIZE_LIMIT: nat := 0x1_0000_0000_0000_0000

  /**
   * Which representations each entry shows, how the grid is laid out and
   * whether it is coloured. `columns` and `columnWidth` are `usize` values.
   */
  datatype TableOptions = TableOptions(
    hex: bool,
    dec: bool,
    oct: bool,
    bin: bool,
    chr: bool,
    horizontal: bool,
    color: bool,
    columns: nat,
    columnWidth: nat,
    separator: string)

  /** `TableOptions::new`. */
  function Defaults(): TableOptions {
    TableOptions(
      hex := true, dec := true, oct := false, bin := false, chr := true,
      horizontal := false, color := true,
      columns := 5, columnWidth := 40, separator := " | ")
  }
}
