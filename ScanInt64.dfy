/** The `sscanf(token, "%" PRId64 "%n", &v, &n)` conversion the blobrange
    command applies to its optional version token, together with the
    `n == size` test that it consumed the whole token: leading white space,
    an optional sign, at least one decimal digit, and nothing after. A value
    outside the 64-bit range is clamped to the nearest bound, as the C
    library's 64-bit conversion (strtol on LP64) does. */
module ScanInt64 {
  import opened Keys

  const MinInt64: int := -0x8000_0000_0000_0000
  const MaxInt64: int := 0x7fff_ffff_ffff_ffff

  const Plus: Byte := 0x2b
  const Minus: Byte := 0x2d
  const Zero: Byte := 0x30

  /** isspace in the C locale: space, \t, \n, \v, \f and \r. */
  predicate IsSpace(b: Byte) {
    b == 0x20 || 0x09 <= b <= 0x0d
  }

  predicate IsDigit(b: Byte) {
    0x30 <= b <= 0x39
  }

  predicate IsSign(b: Byte) {
    b == Plus || b == Minus
  }

  predicate AllSpace(s: Key) {
    forall i :: 0 <= i < |s| ==> IsSpace(s[i])
  }

  predicate AllDigits(s: Key) {
    forall i :: 0 <= i < |s| ==> IsDigit(s[i])
  }

  /** The length of the white space that starts s: all of it is white
      space, and the byte after it (if any) is not. */
  function SpaceRun(s: Key): (n: nat)
    ensures n <= |s| && AllSpace(s[..n])
    ensures n < |s| ==> !IsSpace(s[n])
  {
    if s == [] || !IsSpace(s[0]) then 0
    else
      var n := SpaceRun(s[1..]);
      assert s[..n + 1] == [s[0]] + s[1..][..n];
      n + 1
  }

  /** The length of the decimal digits that start s. */
  function DigitRun(s: Key): (n: nat)
    ensures n <= |s| && AllDigits(s[..n])
    ensures n < |s| ==> !IsDigit(s[n])
  {
    if s == [] || !IsDigit(s[0]) then 0
    else
      var n := DigitRun(s[1..]);
      assert s[..n + 1] == [s[0]] + s[1..][..n];
      n + 1
  }

  /** The number a string of decimal digits denotes. */
  function DecimalValue(ds: Key): (v: nat)
    requires AllDigits(ds)
  {
    if ds == [] then 0 else DecimalValue(ds[..|ds| - 1]) * 10 + (ds[|ds| - 1] - Zero)
  }

  /** The C library's overflow rule for 64-bit conversions: out-of-range
      values become the nearest 64-bit bound. */
  function Clamp(v: int): (r: int)
    ensures MinInt64 <= r <= MaxInt64
    ensures MinInt64 <= v <= MaxInt64 ==> r == v
    ensures v > MaxInt64 ==> r == MaxInt64
    ensures v < MinInt64 ==> r == MinInt64
  {
    if v > MaxInt64 then MaxInt64 else if v < MinInt64 then MinInt64 else v
  }

  /** Some(v) exactly when the conversion succeeds (returns 1) and %n
      reports the whole token; v is the stored 64-bit value. An empty or
      all-blank token (EOF), a token without digits (0 conversions) and a
      token with anything after its digits are all None. */
  function Scan(tok: Key): (r: Option<int>)
    ensures r.Some? ==> MinInt64 <= r.value <= MaxInt64
  {
    var k := SpaceRun(tok);
    var signed := k < |tok| && IsSign(tok[k]);
    var start := if signed then k + 1 else k;
    var d := DigitRun(tok[start..]);
    if d == 0 || start + d != |tok| then None
    else
      assert tok[start..][..d] == tok[start..];
      var magnitude: int := DecimalValue(tok[start..]);
      Some(Clamp(if signed && tok[k] == Minus then -magnitude else magnitude))
  }

  /** One or more digits, possibly after one sign. */
  predicate SignedDigits(u: Key) {
    || (|u| > 0 && AllDigits(u))
    || (|u| > 1 && IsSign(u[0]) && AllDigits(u[1..]))
  }

  /** The tokens the conversion consumes whole: white space, then signed
      digits up to the end. */
  ghost predicate IntegerToken(tok: Key) {
    exists i :: 0 <= i <= |tok| && AllSpace(tok[..i]) && SignedDigits(tok[i..])
  }

  /** Scan accepts exactly the integer tokens. */
  lemma ScanAccepts(tok: Key)
    ensures Scan(tok).Some? <==> IntegerToken(tok)
  {
    if Scan(tok).Some? {
      ScanSound(tok);
    }
    if IntegerToken(tok) {
      var i :| 0 <= i <= |tok| && AllSpace(tok[..i]) && SignedDigits(tok[i..]);
      ScanComplete(tok, i);
    }
  }

  /** What Scan accepts is white space, then signed digits to the end. */
  lemma ScanSound(tok: Key)
    requires Scan(tok).Some?
    ensures AllSpace(tok[..SpaceRun(tok)]) && SignedDigits(tok[SpaceRun(tok)..])
  {
    var k := SpaceRun(tok);
    var signed := k < |tok| && IsSign(tok[k]);
    var start := if signed then k + 1 else k;
    var d := DigitRun(tok[start..]);
    assert tok[start..][..d] == tok[start..];
    if signed {
      assert tok[k..][1..] == tok[start..];
    }
  }

  /** White space up to i and signed digits after it are accepted. */
  lemma ScanComplete(tok: Key, i: int)
    requires 0 <= i <= |tok| && AllSpace(tok[..i]) && SignedDigits(tok[i..])
    ensures Scan(tok).Some?
  {
    var k := SpaceRun(tok);
    // the white space ends exactly at i: tok[i] is a sign or a digit
    assert tok[i..][0] == tok[i];
    assert k == i;
    var signed := k < |tok| && IsSign(tok[k]);
    var start := if signed then k + 1 else k;
    var u := tok[start..];
    assert AllDigits(u) by {
      if signed {
        assert tok[i..][1..] == u;
      }
    }
    DigitsRead(u);
  }

  /** v in decimal with no leading zeros, as fmt and printf print it. */
  function Decimal(n: nat): (ds: Key)
    ensures |ds| > 0 && AllDigits(ds)
  {
    if n < 10 then [Zero + n] else Decimal(n / 10) + [Zero + n % 10]
  }

  function Format(v: int): (s: Key)
    ensures |s| > 0
  {
    if v < 0 then [Minus] + Decimal(-v) else Decimal(v)
  }

  lemma {:induction false} DecimalRoundTrip(n: nat)
    ensures DecimalValue(Decimal(n)) == n
  {
    if n >= 10 {
      DecimalRoundTrip(n / 10);
      var ds := Decimal(n);
      assert ds[..|ds| - 1] == Decimal(n / 10);
    }
  }

  /** A run of digits is read whole. */
  lemma DigitsRead(ds: Key)
    requires AllDigits(ds)
    ensures DigitRun(ds) == |ds|
  {
  }

  /** Every 64-bit version, printed in decimal, is read back as itself. */
  lemma ScanFormat(v: int)
    requires MinInt64 <= v <= MaxInt64
    ensures Scan(Format(v)) == Some(v)
  {
    var s := Format(v);
    var ds := if v < 0 then Decimal(-v) else Decimal(v);
    assert SpaceRun(s) == 0;
    DecimalRoundTrip(if v < 0 then -v else v);
    if v < 0 {
      assert s[1..] == ds;
    } else {
      assert s[0..] == ds;
    }
    DigitsRead(ds);
  }

  /** A digit string too large for 64 bits reads as the largest value. */
  lemma ScanClampsHigh(ds: Key)
    requires |ds| > 0 && AllDigits(ds) && DecimalValue(ds) > MaxInt64
    ensures Scan(ds) == Some(MaxInt64)
  {
    assert SpaceRun(ds) == 0;
    assert ds[0..] == ds;
    DigitsRead(ds);
  }
}
