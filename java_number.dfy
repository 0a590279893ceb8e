/**
 * `Double.parseDouble` for the decimal grammar: an optional sign followed by
 * `NaN`, `Infinity`, or digits with an optional point, an optional exponent
 * and an optional `f`/`F`/`d`/`D` suffix. The argument is trimmed first, as
 * Java does. Finite results are exact reals.
 */
module JavaNumber {
  import opened Wrappers
  import opened JavaDouble
  import JavaText

  predicate IsDigit(c: char)
  {
    '0' <= c <= '9'
  }

  predicate AllDigits(s: string)
  {
    forall k :: 0 <= k < |s| ==> IsDigit(s[k])
  }

  function DigitValue(c: char): (d: nat)
    requires IsDigit(c)
    ensures d < 10
  {
    c as int - '0' as int
  }

  /** The value of a string of decimal digits, most significant first. */
  function DigitsValue(s: string): nat
    requires AllDigits(s)
  {
    if s == [] then 0 else 10 * DigitsValue(s[..|s| - 1]) + DigitValue(s[|s| - 1])
  }

  function Pow10(n: nat): (p: nat)
    ensures p >= 1
  {
    if n == 0 then 1 else 10 * Pow10(n - 1)
  }

  /** `10` raised to `e`, for an exponent of either sign. */
  function Scale(e: int): (r: real)
    ensures r > 0.0
  {
    if e >= 0 then Pow10(e) as real else 1.0 / Pow10(-e) as real
  }

  /** The first index of `c` in `s`, or `|s|` when there is none. */
  function IndexOf(s: string, c: char): (k: nat)
    ensures k <= |s|
    ensures k < |s| ==> s[k] == c
    ensures forall j :: 0 <= j < k ==> s[j] != c
  {
    if s == [] then 0
    else if s[0] == c then 0
    else 1 + IndexOf(s[1..], c)
  }

  /** The first index of `e` or `E` in `s`, or `|s|`. */
  function IndexOfExponent(s: string): (k: nat)
    ensures k <= |s|
    ensures k < |s| ==> s[k] == 'e' || s[k] == 'E'
    ensures forall j :: 0 <= j < k ==> s[j] != 'e' && s[j] != 'E'
  {
    var a := IndexOf(s, 'e');
    var b := IndexOf(s, 'E');
    if a <= b then a else b
  }

  /** The value of the digits after a decimal point. */
  function FractionValue(fraction: string): (v: real)
    requires AllDigits(fraction)
    ensures 0.0 <= v
    ensures fraction == [] ==> v == 0.0
  {
    DigitsValue(fraction) as real / Pow10(|fraction|) as real
  }

  /** `ddd`, `ddd.`, `.ddd` or `ddd.ddd`, holding at least one digit. */
  function ParseMantissa(m: string): (r: Option<real>)
    ensures r.Some? ==> r.value >= 0.0
  {
    var k := IndexOf(m, '.');
    var whole := m[..k];
    var fraction := if k < |m| then m[k + 1..] else [];
    if AllDigits(whole) && AllDigits(fraction) && |whole| + |fraction| > 0 then
      Some(DigitsValue(whole) as real + FractionValue(fraction))
    else None
  }

  /** A plain digit string is a mantissa worth its digits. */
  lemma MantissaOfDigits(m: string)
    requires AllDigits(m) && m != []
    ensures ParseMantissa(m) == Some(DigitsValue(m) as real)
  {
    var k := IndexOf(m, '.');
    assert forall j :: 0 <= j < |m| ==> m[j] != '.';
    assert m[..k] == m;
  }

  /** An exponent: an optional sign and at least one digit. */
  function ParseExponent(e: string): (r: Option<int>)
    ensures AllDigits(e) && e != [] ==> r == Some(DigitsValue(e))
  {
    if |e| > 0 && (e[0] == '+' || e[0] == '-') then
      var digits := e[1..];
      if digits != [] && AllDigits(digits) then
        var v: int := DigitsValue(digits);
        Some(if e[0] == '-' then -v else v)
      else None
    else if e != [] && AllDigits(e) then Some(DigitsValue(e))
    else None
  }

  predicate IsSuffix(c: char)
  {
    c == 'f' || c == 'F' || c == 'd' || c == 'D'
  }

  /** An unsigned decimal floating literal. */
  function ParseDecimal(b: string): (r: Option<real>)
    ensures r.Some? ==> r.value >= 0.0
  {
    var core := if |b| > 0 && IsSuffix(b[|b| - 1]) then b[..|b| - 1] else b;
    var k := IndexOfExponent(core);
    var mantissa := ParseMantissa(core[..k]);
    if k == |core| then mantissa
    else
      match (mantissa, ParseExponent(core[k + 1..]))
      case (Some(m), Some(e)) => Some(m * Scale(e))
      case _ => None
  }

  /** A plain digit string is a decimal literal worth its digits. */
  lemma DecimalOfDigits(b: string)
    requires AllDigits(b) && b != []
    ensures ParseDecimal(b) == Some(DigitsValue(b) as real)
  {
    assert !IsSuffix(b[|b| - 1]) by {
      assert IsDigit(b[|b| - 1]);
    }
    var k := IndexOfExponent(b);
    assert forall j :: 0 <= j < |b| ==> b[j] != 'e' && b[j] != 'E';
    assert b[..k] == b;
    MantissaOfDigits(b);
  }

  /** Java's `Double.parseDouble(token)`; `None` where Java throws `NumberFormatException`. */
  function ParseDouble(token: string): (r: Option<Dbl>)
    ensures r.Some? && r.value.Num? && JavaText.Trim(token) != [] && IsDigit(JavaText.Trim(token)[0]) ==> r.value.value >= 0.0
  {
    var s := JavaText.Trim(token);
    var negative := |s| > 0 && s[0] == '-';
    var body := if |s| > 0 && (s[0] == '+' || s[0] == '-') then s[1..] else s;
    if body == "NaN" then Some(NaN)
    else if body == "Infinity" then Some(if negative then NegInf else PosInf)
    else
      match ParseDecimal(body)
      case Some(v) => Some(Num(if negative then -v else v))
      case None => None
  }

  /** The decimal digits of `n`, most significant first, without leading zeros. */
  function DecimalDigits(n: nat): (s: string)
    ensures s != [] && AllDigits(s)
  {
    if n < 10 then ['0' + n as char] else DecimalDigits(n / 10) + ['0' + (n % 10) as char]
  }

  lemma {:induction false} DecimalDigitsValue(n: nat)
    ensures DigitsValue(DecimalDigits(n)) == n
  {
    if n >= 10 {
      var s := DecimalDigits(n);
      assert s[..|s| - 1] == DecimalDigits(n / 10);
      DecimalDigitsValue(n / 10);
    }
  }

  /** A digit string is its own trimmed text and carries no sign and no special name. */
  lemma DigitsToken(s: string)
    requires AllDigits(s) && s != []
    ensures JavaText.Trim(s) == s
    ensures s[0] != '+' && s[0] != '-' && s != "NaN" && s != "Infinity"
  {
    assert IsDigit(s[0]) && IsDigit(s[|s| - 1]);
    assert [] + s + [] == s;
    JavaText.TrimPadded([], s, []);
  }

  /** Printing a natural number in decimal and parsing it back gives the number. */
  lemma ParseDecimalDigits(n: nat)
    ensures ParseDouble(DecimalDigits(n)) == Some(Num(n as real))
  {
    var s := DecimalDigits(n);
    DigitsToken(s);
    DecimalDigitsValue(n);
    DecimalOfDigits(s);
  }

  /** An unsigned literal whose first character is neither a digit nor a point is malformed. */
  lemma MalformedStart(b: string)
    requires b != [] && !IsDigit(b[0]) && b[0] != '.'
    ensures ParseDecimal(b) == None
  {
    var core := if |b| > 0 && IsSuffix(b[|b| - 1]) then b[..|b| - 1] else b;
    var k := IndexOfExponent(core);
    var m := core[..k];
    if m != [] {
      assert m[0] == b[0];
      assert IndexOf(m, '.') > 0;
      assert !AllDigits(m[..IndexOf(m, '.')]) by {
        assert m[..IndexOf(m, '.')][0] == b[0];
      }
    }
  }

  /** A trimmed token that starts with none of the characters a number may start with is malformed. */
  lemma MalformedToken(t: string)
    requires JavaText.Trimmed(t) && t != []
    requires !IsDigit(t[0]) && t[0] !in ".+-NI"
    ensures ParseDouble(t) == None
  {
    assert JavaText.Trim(t) == t by {
      JavaText.TrimPadded([], t, []);
      assert [] + t + [] == t;
    }
    assert t != "NaN" && t != "Infinity" by {
      assert "NaN"[0] == 'N' && "Infinity"[0] == 'I';
    }
    MalformedStart(t);
  }

  /** The text `banana` is not a number. */
  lemma BananaIsMalformed()
    ensures ParseDouble("banana") == None
  {
    MalformedToken("banana");
  }
}
