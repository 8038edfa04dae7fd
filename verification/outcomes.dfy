/** Option and Result wrappers, and the ways the extraction can fail. */
module Outcomes {

  datatype Option<T> = None | Some(value: T)

  /** Every way the extraction script stops with an exception instead of
      producing text.  Each one is raised before anything is written. */
  datatype Failure =
      /** The frame has no column at all, so column 0 cannot be scanned. */
    | NoColumns
      /** A section label was never seen in column 0 (the dictionary lookup fails). */
    | MissingSection(section: string)
      /** The `node_types` label sits on the last row, so its header row does not exist. */
    | HeaderRowMissing
      /** A section's header row has no present cell while the section has a data row,
          so reading that row's first cell fails. */
    | EmptyHeader(section: string)
      /** A section's header row holds a number, none of them 0, while the section has a
          data row: the first cell is then looked up as the column label 0, which no
          column has. */
    | NoLabelZero(section: string)
      /** The frame is narrower than four columns and a link row has every one of its
          columns present, so reading the first missing column fails. */
    | NarrowLinks(row: nat)

  datatype Result<T> = Ok(value: T) | Err(error: Failure)
}
