/** Optional fields and the scalar values a probe's metadata may carry. */
module Values {

  /** A field that may be absent from a probe record. */
  datatype Option<T> = None | Some(value: T) {

    /** The field's value, or `default` when it is absent (Python's `dict.get(key, default)`). */
    function GetOr(default: T): T {
      match this
      case Some(v) => v
      case None => default
    }
  }

  /** A metadata value. The builder only ever compares strings (`kind`, `edge`)
      and stores one integer (the root's page count); every other JSON value
      is carried as `Other`. */
  datatype Value = Str(s: string) | Num(n: int) | Other
}
