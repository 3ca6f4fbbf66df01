/**
 * Rust's `str::parse::<u64>()` (the `FromStr` implementation for `u64`),
 * which decodes the `content-length` header value. It accepts an optional
 * leading '+' followed by one or more ASCII digits, and fails on anything
 * else or on a value above `u64::MAX`; leading zeros and the '+' sign are
 * accepted, so the grammar is wider than the `1*DIGIT` of the Content-Length
 * field in section 8.6 of RFC 9110.
 */
module Decimal {
  import opened Common

  predicate IsDigit(c: char) {
    '0' <= c <= '9'
  }

  predicate AllDigits(s: string) {
    forall i :: 0 <= i < |s| ==> IsDigit(s[i])
  }

  function DigitValue(c: char): (v: nat)
    requires IsDigit(c)
    ensures v < 10
  {
    c as int - '0' as int
  }

  function DigitChar(v: nat): (c: char)
    requires v < 10
    ensures IsDigit(c) && DigitValue(c) == v
  {
    ('0' as int + v) as char
  }

  /** The number a string of decimal digits denotes, most significant digit first. */
  function ValueOf(s: string): nat
    requires AllDigits(s)
  {
    if s == [] then 0 else ValueOf(s[..|s| - 1]) * 10 + DigitValue(s[|s| - 1])
  }

  /** The digits part of `s`: what follows a single leading '+', if any. */
  function Unsigned(s: string): string {
    if |s| > 0 && s[0] == '+' then s[1..] else s
  }

  /** Reference grammar of what `u64::from_str` accepts. */
  predicate IsU64Literal(s: string) {
    var d := Unsigned(s);
    |d| > 0 && AllDigits(d) && ValueOf(d) <= U64_MAX
  }

  /** The value of an accepted literal. */
  function LiteralValue(s: string): u64
    requires IsU64Literal(s)
  {
    ValueOf(Unsigned(s))
  }

  /**
   * The digit loop of `from_str_radix`: multiply by ten and add the next
   * digit, with checked arithmetic, failing on the first non-digit or on
   * the first overflow.
   */
  function Accumulate(d: string, i: nat, acc: u64): Option<u64>
    requires i <= |d|
    decreases |d| - i
  {
    if i == |d| then Some(acc)
    else if !IsDigit(d[i]) then None
    else if acc * 10 > U64_MAX then None
    else if acc * 10 + DigitValue(d[i]) > U64_MAX then None
    else Accumulate(d, i + 1, acc * 10 + DigitValue(d[i]))
  }

  /**
   * `u64::from_str`: an empty string and a lone sign fail; one leading '+'
   * is skipped; the rest must be a digit string that fits in 64 bits.
   */
  function ParseU64(s: string): (r: Option<u64>)
    ensures r.Some? <==> IsU64Literal(s)
    ensures r.Some? ==> r.value == LiteralValue(s)
  {
    if |s| == 0 then None
    else if s == "+" || s == "-" then None
    else
      var digits := if s[0] == '+' then s[1..] else s;
      assert digits == Unsigned(s) && |digits| > 0;
      AccumulateCorrect(digits, 0, 0);
      Accumulate(digits, 0, 0)
  }

  /** A prefix of a digit string never denotes more than the whole string. */
  lemma {:induction false} ValuePrefixBound(d: string, k: nat)
    requires AllDigits(d) && k <= |d|
    ensures AllDigits(d[..k]) && ValueOf(d[..k]) <= ValueOf(d)
    decreases |d|
  {
    if k < |d| {
      var init := d[..|d| - 1];
      assert init[..k] == d[..k];
      ValuePrefixBound(init, k);
    } else {
      assert d[..k] == d;
    }
  }

  /** The digit loop computes exactly the reference value, or fails exactly when the reference rejects. */
  lemma {:induction false} AccumulateCorrect(d: string, i: nat, acc: u64)
    requires i <= |d| && AllDigits(d[..i]) && acc == ValueOf(d[..i])
    ensures Accumulate(d, i, acc) == if AllDigits(d) && ValueOf(d) <= U64_MAX then Some(ValueOf(d) as u64) else None
    decreases |d| - i
  {
    if i == |d| {
      assert d[..i] == d;
    } else if !IsDigit(d[i]) {
      assert !AllDigits(d);
    } else {
      var next := acc * 10 + DigitValue(d[i]);
      assert d[..i + 1][..i] == d[..i];
      assert AllDigits(d[..i + 1]);
      assert ValueOf(d[..i + 1]) == next;
      if next > U64_MAX {
        if AllDigits(d) {
          ValuePrefixBound(d, i + 1);
        }
      } else {
        AccumulateCorrect(d, i + 1, next);
      }
    }
  }

  /** The canonical decimal form of `n`: no sign, no leading zeros. */
  function ToDecimal(n: nat): (s: string)
    ensures |s| > 0 && AllDigits(s)
    decreases n
  {
    if n < 10 then [DigitChar(n)] else ToDecimal(n / 10) + [DigitChar(n % 10)]
  }

  lemma {:induction false} ValueOfToDecimal(n: nat)
    ensures ValueOf(ToDecimal(n)) == n
    decreases n
  {
    var s := ToDecimal(n);
    if n >= 10 {
      assert s[..|s| - 1] == ToDecimal(n / 10);
      ValueOfToDecimal(n / 10);
    } else {
      assert s[..|s| - 1] == [];
    }
  }

  /** Round trip: every `u64` written in canonical decimal parses back to itself. */
  lemma ParseToDecimal(n: u64)
    ensures ParseU64(ToDecimal(n)) == Some(n)
  {
    ValueOfToDecimal(n);
    assert Unsigned(ToDecimal(n)) == ToDecimal(n);
  }

  /**
   * On a Content-Length field of RFC 9110 (`1*DIGIT`) the parse succeeds
   * exactly when the value fits in 64 bits, and then yields that value.
   */
  lemma RfcDigitsParse(s: string)
    requires |s| > 0 && AllDigits(s)
    ensures ParseU64(s).Some? <==> ValueOf(s) <= U64_MAX
    ensures ParseU64(s).Some? ==> ParseU64(s).value == ValueOf(s)
  {
    assert Unsigned(s) == s;
  }

  /** Outside RFC 9110's grammar: a leading '+' is accepted. */
  lemma PlusSignAccepted()
    ensures ParseU64("+42") == Some(42)
  {
    assert Unsigned("+42") == "42";
    assert "42"[..1] == "4";
  }

  /** A value one above `u64::MAX` is rejected, so the header decodes to 0. */
  lemma OverflowRejected()
    ensures ParseU64(ToDecimal(U64_MAX + 1)).None?
  {
    ValueOfToDecimal(U64_MAX + 1);
    assert Unsigned(ToDecimal(U64_MAX + 1)) == ToDecimal(U64_MAX + 1);
  }
}
