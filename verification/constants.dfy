/** Constants shared by the checker, the rules and the puzzle state. */
module Constants {

  /** The internal sentinel for a cell whose value is not known yet.
      The package's constants module is not part of this model; its
      PUZZLE_UNKNOWN_VALUE is 0 in practice. */
  const Unknown: int := 0
}
