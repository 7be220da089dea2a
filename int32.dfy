/** C#'s 32-bit `int`: its range, unchecked wrap-around, and the decimal
    text that `int.ToString()` writes and `int.Parse`/`int.TryParse` read
    (invariant culture, NumberStyles.Integer). */
module Int32 {
  import opened Common

  const MinValue: int := -0x8000_0000
  const MaxValue: int := 0x7fff_ffff
  const Modulus: int := 0x1_0000_0000

  newtype int32 = x: int | -0x8000_0000 <= x < 0x8000_0000

  predicate InRange(x: int) {
    MinValue <= x <= MaxValue
  }

  /** Unchecked C# int arithmetic: the mathematical result reduced modulo 2^32
      into int32's range. The two ensures determine the result uniquely. */
  function Wrap(x: int): (r: int32)
    ensures (r as int - x) % Modulus == 0
    ensures InRange(x) ==> r as int == x
  {
    var q := (x - MinValue) / Modulus;
    var m := (x - MinValue) % Modulus;
    assert x - MinValue == q * Modulus + m;
    assert m + MinValue - x == -q * Modulus;
    (m + MinValue) as int32
  }

  /** The product a * b, written out by recursion on a so that a proof sees
      the arithmetic of a product only where it asks for it (ProductIsMul). */
  function Product(a: int, b: int): int
    decreases if a < 0 then -a else a
  {
    if a == 0 then 0 else if a > 0 then Product(a - 1, b) + b else Product(a + 1, b) - b
  }

  lemma {:induction false} ProductIsMul(a: int, b: int)
    ensures Product(a, b) == a * b
    decreases if a < 0 then -a else a
  {
    if a > 0 {
      ProductIsMul(a - 1, b);
    } else if a < 0 {
      ProductIsMul(a + 1, b);
    }
  }

  // ----- decimal numerals -----

  predicate IsDigit(c: char) {
    '0' <= c <= '9'
  }

  predicate AllDigits(s: string) {
    forall i :: 0 <= i < |s| ==> IsDigit(s[i])
  }

  function DigitValue(c: char): nat
    requires IsDigit(c)
  {
    c as int - '0' as int
  }

  function DigitChar(d: nat): (c: char)
    requires d < 10
    ensures IsDigit(c) && DigitValue(c) == d
  {
    ('0' as int + d) as char
  }

  /** The shortest decimal numeral of n (no leading zeros, "0" for zero). */
  function NatToDecimal(n: nat): (s: string)
    ensures |s| >= 1 && AllDigits(s)
    ensures n >= 10 ==> s[0] != '0'
    decreases n
  {
    if n < 10 then [DigitChar(n)] else NatToDecimal(n / 10) + [DigitChar(n % 10)]
  }

  /** The value of a numeral, most significant digit first; leading zeros
      are allowed, as int.Parse allows them. */
  function DecimalValue(s: string): nat
    requires AllDigits(s)
    decreases |s|
  {
    if s == [] then 0 else DecimalValue(s[..|s| - 1]) * 10 + DigitValue(s[|s| - 1])
  }

  lemma {:induction false} DecimalRoundTrip(n: nat)
    ensures DecimalValue(NatToDecimal(n)) == n
    decreases n
  {
    if n >= 10 {
      DecimalRoundTrip(n / 10);
      var s := NatToDecimal(n / 10) + [DigitChar(n % 10)];
      assert s[..|s| - 1] == NatToDecimal(n / 10);
    }
  }

  /** int.ToString(): an optional '-' followed by the magnitude's digits. */
  function ToDecimalString(x: int): (s: string)
    ensures |s| >= 1 && IsDigit(s[|s| - 1])
    ensures s[0] == '-' || IsDigit(s[0])
  {
    if x < 0 then "-" + NatToDecimal(-x) else NatToDecimal(x)
  }

  /** The white space NumberStyles.Integer allows around a numeral:
      U+0009 to U+000D and U+0020. */
  predicate IsNumberWhite(c: char) {
    c == ' ' || ('\t' <= c <= '\r')
  }

  /** Removes leading number white space: the result is a suffix of s that does
      not start with white space, and everything removed was white space. */
  function TrimStart(s: string): (r: string)
    ensures |r| <= |s| && r == s[|s| - |r|..]
    ensures forall i :: 0 <= i < |s| - |r| ==> IsNumberWhite(s[i])
    ensures r != [] ==> !IsNumberWhite(r[0])
    decreases |s|
  {
    if s != [] && IsNumberWhite(s[0]) then TrimStart(s[1..]) else s
  }

  /** Removes trailing number white space: the result is a prefix of s that does
      not end with white space, and everything removed was white space. */
  function TrimEnd(s: string): (r: string)
    ensures |r| <= |s| && r == s[..|r|]
    ensures forall i :: |r| <= i < |s| ==> IsNumberWhite(s[i])
    ensures r != [] ==> !IsNumberWhite(r[|r| - 1])
    decreases |s|
  {
    if s != [] && IsNumberWhite(s[|s| - 1]) then TrimEnd(s[..|s| - 1]) else s
  }

  /** The value of an optionally signed numeral with nothing around it. */
  function NumeralValue(t: string): (r: Option<int>)
    ensures r.Some? ==> t != [] && AllDigits(if t[0] == '-' || t[0] == '+' then t[1..] else t)
  {
    if t == [] then None
    else
      var digits := if t[0] == '-' || t[0] == '+' then t[1..] else t;
      if digits == [] || !AllDigits(digits) then None
      else if t[0] == '-' then Some(-(DecimalValue(digits) as int))
      else Some(DecimalValue(digits))
  }

  /** Removes trailing NUL characters: the result is a prefix of s that does
      not end with '\0', and everything removed was '\0'. */
  function DropTrailingNuls(s: string): (r: string)
    ensures |r| <= |s| && r == s[..|r|]
    ensures forall i :: |r| <= i < |s| ==> s[i] == '\0'
    ensures r != [] ==> r[|r| - 1] != '\0'
    decreases |s|
  {
    if s != [] && s[|s| - 1] == '\0' then DropTrailingNuls(s[..|s| - 1]) else s
  }

  /** int.TryParse(s, out v) / int.Parse(s) with NumberStyles.Integer: optional
      surrounding white space, an optional leading sign, at least one digit, and
      a value inside int32's range, followed by any run of '\0' (the number
      parser accepts trailing NULs after the trailing white space); None where
      TryParse returns false and Parse throws. */
  function ParseInt32(s: string): Option<int32>
  {
    match NumeralValue(TrimEnd(TrimStart(DropTrailingNuls(s))))
    case None => None
    case Some(v) => if InRange(v) then Some(v as int32) else None
  }

  /** Text that is t followed only by NULs, where t does not end in one,
      loses exactly those NULs. */
  lemma {:induction false} DropTrailingNulsOf(t: string, s: string)
    requires |t| <= |s| && s[..|t|] == t
    requires forall i :: |t| <= i < |s| ==> s[i] == '\0'
    requires t != [] ==> t[|t| - 1] != '\0'
    ensures DropTrailingNuls(s) == t
    decreases |s|
  {
    if |s| > |t| {
      assert s[..|s| - 1][..|t|] == t;
      DropTrailingNulsOf(t, s[..|s| - 1]);
    } else {
      assert s == t;
    }
  }

  lemma NumeralOfDigits(d: string)
    requires d != [] && AllDigits(d)
    ensures NumeralValue(d) == Some(DecimalValue(d) as int)
    ensures NumeralValue("-" + d) == Some(-(DecimalValue(d) as int))
  {
    assert ("-" + d)[1..] == d;
  }

  lemma NotTrimmed(s: string)
    requires s != [] && !IsNumberWhite(s[0]) && !IsNumberWhite(s[|s| - 1])
    ensures TrimEnd(TrimStart(s)) == s
  {
    assert TrimStart(s) == s;
  }

  /** ToDecimalString's output has no white space to trim and reads back as
      the value it was written from. */
  lemma {:induction false} NumeralOfDecimalString(x: int)
    ensures TrimEnd(TrimStart(ToDecimalString(x))) == ToDecimalString(x)
    ensures NumeralValue(ToDecimalString(x)) == Some(x)
  {
    NotTrimmed(ToDecimalString(x));
    if x < 0 {
      NumeralOfMagnitude(-x);
    } else {
      NumeralOfMagnitude(x);
    }
  }

  /** The digits of n, with or without a leading '-', read back as n or -n. */
  lemma NumeralOfMagnitude(n: nat)
    ensures NumeralValue(NatToDecimal(n)) == Some(n as int)
    ensures NumeralValue("-" + NatToDecimal(n)) == Some(-(n as int))
  {
    DecimalRoundTrip(n);
    NumeralOfDigits(NatToDecimal(n));
  }

  /** What int.ToString() writes, int.Parse reads back. */
  lemma {:induction false} ParseToDecimalString(x: int)
    requires InRange(x)
    ensures ParseInt32(ToDecimalString(x)) == Some(x as int32)
  {
    var d := ToDecimalString(x);
    DropTrailingNulsOf(d, d);
    NumeralOfDecimalString(x);
  }

  /** NULs after a numeral are ignored: "7\0" and "7\0\0" read as 7. */
  lemma ParseIgnoresTrailingNuls(x: int, n: nat)
    requires InRange(x)
    ensures ParseInt32(ToDecimalString(x) + seq(n, _ => '\0')) == Some(x as int32)
  {
    var d := ToDecimalString(x);
    var s := d + seq(n, _ => '\0');
    assert s[..|d|] == d;
    DropTrailingNulsOf(d, s);
    NumeralOfDecimalString(x);
  }

  /** A character that is neither a digit, a sign, number white space nor NUL
      makes the text unparseable, wherever it stands. */
  lemma ParseRejectsForeignChar(s: string, i: int)
    requires 0 <= i < |s|
    requires !IsDigit(s[i]) && s[i] != '-' && s[i] != '+' && !IsNumberWhite(s[i]) && s[i] != '\0'
    ensures ParseInt32(s) == None
  {
    var z := DropTrailingNuls(s);
    assert i < |z| && z[i] == s[i];
    var a := TrimStart(z);
    var t := TrimEnd(a);
    var j := i - (|z| - |a|);
    assert 0 <= j < |a| && a[j] == s[i];
    assert j < |t| && t[j] == s[i];
    var digits := if t[0] == '-' || t[0] == '+' then t[1..] else t;
    var k := if t[0] == '-' || t[0] == '+' then j - 1 else j;
    assert 0 <= k < |digits| && digits[k] == s[i];
    assert !AllDigits(digits);
    assert NumeralValue(t) == None;
  }

  /** Values outside int32's range are refused, not wrapped. */
  lemma ParseRejectsOverflow(x: int)
    requires !InRange(x)
    ensures ParseInt32(ToDecimalString(x)) == None
  {
    var d := ToDecimalString(x);
    DropTrailingNulsOf(d, d);
    NumeralOfDecimalString(x);
  }
}
