/**
 * Decoding of the optional `content-length` response header into the
 * expected body size: `HeaderValue::to_str().unwrap()`, then
 * `parse::<u64>().unwrap_or(0)`, and `0` when the header is absent.
 */
module ContentLength {
  import opened Common
  import opened Decimal

  /** The bytes `HeaderValue::to_str` accepts: visible ASCII and horizontal tab. */
  predicate IsVisibleAscii(b: uint8) {
    (32 <= b < 127) || b == 9
  }

  /** `HeaderValue::to_str`: the value as text, or `None` when some byte is not visible ASCII. */
  function ToStr(value: seq<uint8>): (r: Option<string>)
    ensures r.Some? <==> forall i :: 0 <= i < |value| ==> IsVisibleAscii(value[i])
    ensures r.Some? ==> |r.value| == |value| && forall i :: 0 <= i < |value| ==> r.value[i] as int == value[i]
  {
    if value == [] then Some([])
    else if !IsVisibleAscii(value[0]) then None
    else match ToStr(value[1..])
      case None => None
      case Some(rest) => Some([value[0] as char] + rest)
  }

  /** Outcome of decoding the header: a size, or the panic of `to_str().unwrap()`. */
  datatype Decoded = Size(value: u64) | ToStrFailed

  /**
   * The content size: 0 when the header is absent, the panic case when the
   * value is not visible ASCII, the parsed value when it is a `u64`
   * literal, and 0 when it is not.
   */
  function ContentSize(header: Option<seq<uint8>>): (r: Decoded)
    ensures header.None? ==> r == Size(0)
    ensures r.ToStrFailed? <==> header.Some? && exists i :: 0 <= i < |header.value| && !IsVisibleAscii(header.value[i])
    ensures header.Some? && ToStr(header.value).Some? ==>
              var text := ToStr(header.value).value;
              r == Size(if IsU64Literal(text) then LiteralValue(text) else 0)
  {
    match header
    case None => Size(0)
    case Some(v) =>
      match ToStr(v)
      case None => ToStrFailed
      case Some(text) => Size(ParseU64(text).GetOr(0))
  }

  /** The bytes of an ASCII string, as a server sends them. */
  function AsciiBytes(s: string): (b: seq<uint8>)
    requires forall i :: 0 <= i < |s| ==> s[i] as int < 256
    ensures |b| == |s| && forall i :: 0 <= i < |s| ==> b[i] == s[i] as int
  {
    if s == [] then [] else [s[0] as int as uint8] + AsciiBytes(s[1..])
  }

  lemma {:induction false} ToStrAsciiBytes(s: string)
    requires forall i :: 0 <= i < |s| ==> s[i] as int < 256 && IsVisibleAscii(s[i] as int)
    ensures ToStr(AsciiBytes(s)) == Some(s)
  {
    var r := ToStr(AsciiBytes(s));
    assert r.Some?;
    assert r.value == s;
  }

  /** Round trip: a header carrying `n` in canonical decimal decodes to `n`. */
  lemma CanonicalHeaderDecodes(n: u64)
    ensures ContentSize(Some(AsciiBytes(ToDecimal(n)))) == Size(n)
  {
    ToStrAsciiBytes(ToDecimal(n));
    ParseToDecimal(n);
  }

  /** A visible-ASCII header that is not a `u64` literal (here "abc") decodes to 0. */
  lemma NonNumericIsZero()
    ensures ContentSize(Some([97, 98, 99])) == Size(0)
  {
    var text := ToStr([97, 98, 99]).value;
    assert !IsDigit(text[0]);
  }

  /** The header `1000` decodes to 1000. */
  lemma HeaderThousand()
    ensures ContentSize(Some([49, 48, 48, 48])) == Size(1000)
  {
    assert ToDecimal(1) == "1";
    assert ToDecimal(10) == "10";
    assert ToDecimal(100) == "100";
    assert ToDecimal(1000) == "1000";
    assert AsciiBytes("1000") == [49, 48, 48, 48];
    CanonicalHeaderDecodes(1000);
  }
}
