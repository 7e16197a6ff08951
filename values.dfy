/** `MDBTools#mdb_truth`: the Ruby values that mdbtools accepts as booleans,
    normalised to the integers 0 and 1. */
module Values {
  import opened Wrappers

  /** The Ruby values the conversion can meet (floats are not modelled). */
  datatype Value = Nil | Bool(b: bool) | Int(i: int) | Str(s: string)

  /** The `case value when false ... when "1"` dispatch: `===` on false,
      true, 0, 1, "0" and "1"; any other value falls through to nil (None). */
  function MdbTruth(v: Value): (r: Option<int>)
    ensures r == Some(0) <==> v == Bool(false) || v == Int(0) || v == Str("0")
    ensures r == Some(1) <==> v == Bool(true) || v == Int(1) || v == Str("1")
    ensures r == None || r == Some(0) || r == Some(1)
  {
    match v
    case Bool(false) => Some(0)
    case Bool(true) => Some(1)
    case Int(0) => Some(0)
    case Int(1) => Some(1)
    case Str(s) =>
      if s == "0" then Some(0)
      else if s == "1" then Some(1)
      else None
    case _ => None
  }

  /** The Ruby value a result stands for: nil or the integer. */
  function AsValue(r: Option<int>): Value {
    match r
    case None => Nil
    case Some(n) => Int(n)
  }

  /** Normalising twice changes nothing. */
  lemma MdbTruthIdempotent(v: Value)
    ensures MdbTruth(AsValue(MdbTruth(v))) == MdbTruth(v)
  {
  }
}
