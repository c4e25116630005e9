/** The part of the shell's state that the output modes read and write. `out` is the text printed so far. */
module Shell {

  /** A value that may be a null pointer. */
  datatype Option<+T> = None | Some(value: T)

  class ShellState {
    var out: string
    var colSeparator: string
    var rowSeparator: string
    var nullValue: string
    var showHeader: bool
    var cnt: nat
    var zDestTable: string

    constructor (colSeparator: string, rowSeparator: string, nullValue: string, showHeader: bool, zDestTable: string)
      ensures out == "" && cnt == 0
      ensures this.colSeparator == colSeparator && this.rowSeparator == rowSeparator
      ensures this.nullValue == nullValue && this.showHeader == showHeader && this.zDestTable == zDestTable
    {
      out, cnt := "", 0;
      this.colSeparator, this.rowSeparator := colSeparator, rowSeparator;
      this.nullValue, this.showHeader, this.zDestTable := nullValue, showHeader, zDestTable;
    }
  }
}
