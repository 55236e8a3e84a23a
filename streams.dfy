/** The two iostream conversions the envelope codec relies on, for the
    classic "C" locale:
    - `os << n` for an unsigned integer writes its decimal digits, without
      sign, padding or leading zeros;
    - `is >> x` for `uint32_t` skips white space, accepts one optional '+'
      or '-', reads the longest run of decimal digits and fails when there
      is none or when the value exceeds 2^32-1; a '-' negates modulo 2^32,
      as `strtoull` does; characters after the digits are left unread;
    - `is >> c` for `uint8_t` (an `unsigned char`) skips white space and
      reads ONE character, not a number. */
module Streams {
  import opened Bytes

  const ZERO: byte := 48
  const PLUS: byte := 43
  const MINUS: byte := 45

  predicate IsDigit(b: byte) {
    ZERO <= b <= ZERO + 9
  }

  /** `isspace` in the "C" locale: space, \t, \n, \v, \f, \r. */
  predicate IsSpace(b: byte) {
    b == 32 || 9 <= b <= 13
  }

  predicate AllDigits(s: Bytes) {
    forall i :: 0 <= i < |s| ==> IsDigit(s[i])
  }

  /** The characters `os << n` writes for an unsigned integer n. */
  function Decimal(n: nat): (r: Bytes)
    ensures 1 <= |r|
    ensures AllDigits(r)
    ensures PIPE !in r
    ensures r[0] == ZERO ==> n == 0
  {
    if n < 10 then [ZERO + n] else Decimal(n / 10) + [ZERO + n % 10]
  }

  /** The value of a run of decimal digits, most significant first. */
  function DigitsValue(s: Bytes): nat
    requires AllDigits(s)
  {
    if s == [] then 0 else DigitsValue(s[..|s| - 1]) * 10 + (s[|s| - 1] - ZERO)
  }

  /** Index of the first byte at or after `from` that is not white space. */
  function SkipSpace(s: Bytes, from: nat): (i: nat)
    requires from <= |s|
    ensures from <= i <= |s|
    ensures i < |s| ==> !IsSpace(s[i])
    ensures forall k :: from <= k < i ==> IsSpace(s[k])
    decreases |s| - from
  {
    if from == |s| || !IsSpace(s[from]) then from else SkipSpace(s, from + 1)
  }

  /** End of the run of digits that starts at `from`. */
  function DigitRun(s: Bytes, from: nat): (k: nat)
    requires from <= |s|
    ensures from <= k <= |s|
    ensures AllDigits(s[from..k])
    ensures k < |s| ==> !IsDigit(s[k])
    decreases |s| - from
  {
    if from == |s| || !IsDigit(s[from]) then from
    else
      var k := DigitRun(s, from + 1);
      assert s[from..k] == [s[from]] + s[from + 1..k];
      k
  }

  /** `std::istringstream(s) >> x` for `uint32_t x`: None when the
      stream's fail bit is set. */
  function ExtractU32(s: Bytes): (r: Option<u32>)
    ensures r.Some? <==>
      var j := SignEnd(s);
      var k := DigitRun(s, j);
      k > j && DigitsValue(s[j..k]) <= U32_MAX
  {
    var i := SkipSpace(s, 0);
    var j := SignEnd(s);
    var k := DigitRun(s, j);
    if k == j then None
    else
      var m := DigitsValue(s[j..k]);
      if m > U32_MAX then None
      else if i < |s| && s[i] == MINUS then Some((U32_MODULUS - m) % U32_MODULUS)
      else Some(m)
  }

  /** Where the digits of a number start: after the white space and after
      one optional sign character. */
  function SignEnd(s: Bytes): (j: nat)
    ensures j <= |s|
  {
    var i := SkipSpace(s, 0);
    if i < |s| && (s[i] == PLUS || s[i] == MINUS) then i + 1 else i
  }

  /** `std::istringstream(s) >> c` for `uint8_t c`: the first character
      that is not white space, None when there is none. */
  function ExtractChar(s: Bytes): (r: Option<byte>)
    ensures r.Some? <==> exists i :: 0 <= i < |s| && !IsSpace(s[i])
    ensures r.Some? ==> exists i :: 0 <= i < |s| && s[i] == r.value && !IsSpace(s[i])
                          && forall k :: 0 <= k < i ==> IsSpace(s[k])
  {
    var i := SkipSpace(s, 0);
    if i < |s| then Some(s[i]) else None
  }

  /** Reading back what `<<` wrote gives the number. */
  lemma {:induction false} DigitsValueOfDecimal(n: nat)
    ensures DigitsValue(Decimal(n)) == n
  {
    if n >= 10 {
      var d := Decimal(n / 10);
      var r := d + [ZERO + n % 10];
      assert r[..|r| - 1] == d;
      DigitsValueOfDecimal(n / 10);
    }
  }

  /** The epoch field round-trips: extracting a `uint32_t` from the
      decimal text of n, followed by anything that does not start with a
      digit, yields n; trailing characters are not rejected. */
  lemma ExtractU32OfDecimal(n: u32, rest: Bytes)
    requires rest == [] || !IsDigit(rest[0])
    ensures ExtractU32(Decimal(n) + rest) == Some(n)
  {
    var d := Decimal(n);
    var s := d + rest;
    assert !IsSpace(s[0]);
    assert SkipSpace(s, 0) == 0;
    assert SignEnd(s) == 0;
    DigitRunOver(s, 0, |d|);
    assert s[0..|d|] == d;
    DigitsValueOfDecimal(n);
  }

  /** The digit run of a string that starts with `k` digits and then a
      non-digit (or ends) ends at `k`. */
  lemma {:induction false} DigitRunOver(s: Bytes, from: nat, k: nat)
    requires from <= k <= |s|
    requires forall i :: from <= i < k ==> IsDigit(s[i])
    requires k < |s| ==> !IsDigit(s[k])
    ensures DigitRun(s, from) == k
    decreases k - from
  {
    if from < k {
      DigitRunOver(s, from + 1, k);
    }
  }

  /** A number above 2^32-1 sets the fail bit instead of wrapping. */
  lemma ExtractU32RejectsOverflow(n: nat)
    requires n > U32_MAX
    ensures ExtractU32(Decimal(n)) == None
  {
    var d := Decimal(n);
    assert SkipSpace(d, 0) == 0;
    DigitRunOver(d, 0, |d|);
    assert d[0..|d|] == d;
    DigitsValueOfDecimal(n);
  }

  /** The type field is read as one character: the decimal text of n gives
      back the ASCII code of its first digit, so 0 comes back as 48. */
  lemma ExtractCharOfDecimal(n: nat)
    ensures ExtractChar(Decimal(n)) == Some(Decimal(n)[0])
    ensures n < 10 ==> ExtractChar(Decimal(n)) == Some(ZERO + n)
  {
    assert !IsSpace(Decimal(n)[0]);
  }
}
