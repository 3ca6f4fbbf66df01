/** Machine types and the option type shared by the downloader model. */
module Common {

  /** Largest value of Rust's `u64`. */
  const U64_MAX: nat := 0xFFFF_FFFF_FFFF_FFFF

  /** Rust's `u64`: the parsed content length and the progress bar's length. */
  type u64 = x: nat | x <= U64_MAX

  /** Rust's `u8`: one byte of a header value or of the response body. */
  type uint8 = x: int | 0 <= x < 256

  /** `Option<T>` as Rust has it. */
  datatype Option<T> = None | Some(value: T) {
    /** `unwrap_or`: the carried value, or `default` when there is none. */
    function GetOr(default: T): (r: T)
      ensures Some? ==> r == value
      ensures None? ==> r == default
    {
      match this
      case Some(v) => v
      case None => default
    }
  }
}
