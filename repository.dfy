/** The row-count check used by the UPDATE and DELETE calls of the user
    repository (`src/repository/user_repository.rs`, lines 81, 90, 99 and 108). */
module Repository {
  import opened Wrappers
  import opened Machine

  /** The `sqlx::Error` variant the check reports; the repository's other calls
      forward the driver's errors, which are not part of this model. */
  datatype DbError = RowNotFound

  /** The `expected` count those four calls pass. */
  const EXPECTED_ROWS: u64 := 1

  /** `Repository::is_row_affected`: success exactly when the statement touched
      the expected number of rows, `RowNotFound` otherwise. It uses neither the
      pool nor any other state, so it takes none. */
  function IsRowAffected(rowNb: u64, expected: u64): (r: Result<(), DbError>)
    ensures r.Ok? <==> rowNb == expected
    ensures r.Err? ==> r.error == RowNotFound
  {
    if rowNb == expected then Ok(()) else Err(RowNotFound)
  }

  /** With the expected count of one, touching no row and touching several rows
      are both errors. */
  lemma ExactlyOneRow(rowNb: u64)
    ensures IsRowAffected(rowNb, EXPECTED_ROWS).Ok? <==> rowNb == 1
    ensures rowNb == 0 || rowNb >= 2 ==> IsRowAffected(rowNb, EXPECTED_ROWS) == Err(RowNotFound)
  {
  }
}
