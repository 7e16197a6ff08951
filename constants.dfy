/** The constants of `MDBTools` that the modelled operations use. */
module MdbConstants {
  /** `MDBTools::DELIMITER`: the column separator asked of mdb-sql. */
  const Delimiter: string := "::"

  /** `MDBTools::LINEBREAK`. */
  const LineBreak: string := "\n"
}
