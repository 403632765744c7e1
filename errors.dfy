/** The ways a run ends without writing an output file. */
module Errors {

  datatype Error =
      // the source's own diagnostics
    | FatUnsupported        // "does not support fat mach-o"
    | Unsupported32Bit      // "does not support 32-bit mach-o"
    | UnknownFileType       // "unknown file type"
    | DwarfNotLast          // "__DWARF segment is not at the end of the Mach-O file"
    | DebugInfoAlreadyLast  // "__debug_info section is already at the end of the __DWARF segment"
      // inputs on which the source reads past the end of the file, wraps an unsigned
      // length or reads uninitialised variables; the model stops instead
    | Truncated
    | CommandTooSmall
    | NoDwarfSegment
    | RangeOutsideFile

  /** The three errors of the header's magic check. */
  predicate IsMagicError(e: Error)
  {
    e.FatUnsupported? || e.Unsupported32Bit? || e.UnknownFileType?
  }

  datatype Option<+T> = None | Some(value: T)

  datatype Result<+T> = Ok(value: T) | Err(error: Error)
}
