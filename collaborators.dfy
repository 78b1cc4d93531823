/** The parts of the disassembly project, the formatter and the symbol syntax that the
    Go-to dialog consults. Their internals are not part of this model: each is an
    uninterpreted function value, and every property of the dialog is stated relative
    to whatever these functions return. */
module Collaborators {
  import opened Wrappers

  /** A symbol; the dialog only ever reads its label (`Symbol.Label`). */
  datatype Symbol = Symbol(labelName: string)

  /** The analysed attributes of one file offset: its address and the symbol, if any,
      defined there. */
  datatype Anattrib = Anattrib(address: int, symbol: Option<Symbol>)

  /** What `Symbol.TrimAndValidateLabel` reports: the trimmed label text, whether it is a
      valid label, and whether it carries the non-unique label prefix. Its other outputs
      are discarded by the dialog. */
  datatype LabelCheck = LabelCheck(trimmed: string, isValid: bool, hasNonUniquePrefix: bool)

  /** The read-only view of the disassembly project. An offset of -1 or any other
      negative value means "not found". */
  datatype Project = Project(
    fileDataLength: int,
    findLabelOffsetByName: string -> int,
    findBestNonUniqueLabel: (string, int) -> Option<Symbol>,
    /** AddrMap.AddressToOffset(anchor, address, breakIsolation) */
    addressToOffset: (int, int, bool) -> int,
    getAnattrib: int -> Anattrib)

  /** The formatter: the non-unique label prefix and the way values are displayed. */
  datatype Formatter = Formatter(
    nonUniqueLabelPrefix: string,
    formatOffset24: int -> string,
    /** FormatAddress(address, showBank) */
    formatAddress: (int, bool) -> string,
    /** Symbol.GenerateDisplayLabel under this formatter */
    displayLabel: Symbol -> string)

  /** Static parsers: `Symbol.TrimAndValidateLabel(text, prefix, ...)` and
      `Address.ParseAddress(text, max, out addr)`. */
  datatype Syntax = Syntax(
    trimAndValidateLabel: (string, string) -> LabelCheck,
    parseAddress: (string, int) -> Option<int>)

  /** Everything the dialog reads besides its own text and initial offset. */
  datatype Env = Env(project: Project, formatter: Formatter, syntax: Syntax)
}
