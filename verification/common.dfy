/** Small shared definitions: an optional value and integer minimum/maximum. */
module Common {

  datatype Option<+T> = None | Some(value: T)
  {
    /** The held value, or `default` when there is none. */
    function GetOr(default: T): T
    {
      match this
      case Some(v) => v
      case None => default
    }
  }

  function Min(a: int, b: int): int { if a <= b then a else b }

  function Max(a: int, b: int): int { if a >= b then a else b }
}
