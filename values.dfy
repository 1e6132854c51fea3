// The parameter values that flow from the YAML and .conf files into command
// lines and scheduler scripts, and Python's str() on them.
module Values {
  import Numerals

  /**
   * A scalar configuration value. Python booleans are kept apart because the
   * command builders treat them specially; a float is represented by the
   * text Python prints for it.
   */
  datatype Value = Bool(b: bool) | Int(i: int) | Str(s: string)

  /** Python's str(): "True"/"False", the decimal digits with a sign, or the text itself. */
  function ToString(v: Value): string {
    match v
    case Bool(b) => if b then "True" else "False"
    case Int(i) => Numerals.IntToString(i)
    case Str(s) => s
  }
}
