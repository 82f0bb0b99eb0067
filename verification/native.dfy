/**
 The native Informix layer as the driver sees it. The ifx_* functions are
 not modelled: each call the driver makes is recorded as a NativeCall, and
 what a call gives back is an input to the operation that makes it.
 */
module Native {

  /** An opaque ifx result resource. */
  datatype Handle = Handle(id: nat)

  /** The outcome of one ifx_query call: failure, carrying the diagnostic
      ifx_error() reports afterwards, or a result resource together with the
      count ifx_affected_rows reports for it. */
  datatype NativeResult =
    | Failed(diagnostic: string)
    | Succeeded(handle: Handle, affectedRows: int)

  /** A call the driver makes into the native layer. */
  datatype NativeCall =
    | BeginWork                       // ifx_query('BEGIN WORK', ...)
    | CommitWork                      // ifx_query('COMMIT WORK', ...)
    | RollbackWork                    // ifx_query('ROLLBACK WORK', ...)
    | Exec(sql: string, scroll: bool) // ifx_query($sql, ..., IFX_SCROLL when scroll)
    | Free(handle: Handle)            // ifx_free_result($handle)

  /** A statement that opens or closes a transaction. */
  predicate IsControl(c: NativeCall) {
    c.BeginWork? || c.CommitWork? || c.RollbackWork?
  }
}
