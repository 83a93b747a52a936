/** Definitions shared by the models of the individual components. */
module Common {
  datatype Option<+T> = None | Some(value: T)

  function Max(a: int, b: int): (r: int)
    ensures r >= a && r >= b && (r == a || r == b)
  {
    if a >= b then a else b
  }
}
