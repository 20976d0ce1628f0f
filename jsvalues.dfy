/** The values that cross between JavaScript and PostgreSQL: request fields that
    arrive as numbers or strings, the driver's decimal strings for bigint columns,
    how JavaScript's comparisons and truth tests treat them, and how an INTEGER
    column reads a text parameter. */
module JsValues {
  import opened Schema

  /** A request field or a column value as the handlers see it: an integral number,
      a string, or a JSON boolean. */
  datatype JsValue = JsNumber(n: int) | JsString(s: string) | JsBool(b: bool)

  /** === on numbers and strings: same type and same value. */
  predicate StrictEquals(a: JsValue, b: JsValue)
  {
    a == b
  }

  /** The truth test of `!x`: 0, the empty string and false are falsy, everything else truthy. */
  predicate Truthy(v: JsValue)
  {
    match v
    case JsNumber(n) => n != 0
    case JsString(s) => s != ""
    case JsBool(b) => b
  }

  function DigitChar(d: nat): (c: char)
    requires d < 10
    ensures '0' <= c <= '9'
  {
    ('0' as int + d) as char
  }

  /** The decimal text of a count. */
  function Decimal(n: nat): (s: string)
    ensures |s| >= 1
    ensures forall i :: 0 <= i < |s| ==> '0' <= s[i] <= '9'
  {
    if n < 10 then [DigitChar(n)] else Decimal(n / 10) + [DigitChar(n % 10)]
  }

  predicate AllDigits(s: string)
  {
    forall i :: 0 <= i < |s| ==> '0' <= s[i] <= '9'
  }

  /** The number a string of decimal digits denotes. */
  function DecimalValue(s: string): nat
    requires AllDigits(s)
  {
    if s == [] then 0
    else DecimalValue(s[..|s| - 1]) * 10 + (s[|s| - 1] as int - '0' as int)
  }

  /** Reading back the decimal text of a count gives the count. */
  lemma {:induction false} DecimalRoundTrip(n: nat)
    ensures DecimalValue(Decimal(n)) == n
  {
    var s := Decimal(n);
    if n >= 10 {
      assert s[..|s| - 1] == Decimal(n / 10);
      DecimalRoundTrip(n / 10);
    }
  }

  /** A bigint column (COUNT(*), SUM of integers) as node-postgres returns it: a string. */
  function CountColumn(count: nat): JsValue
  {
    JsString(Decimal(count))
  }

  /** The relational comparison v > k of a value against a number, after ToNumber.
      Modelled are the strings the driver produces (decimal digits), the empty string,
      which reads as 0, and booleans, which read as 0 or 1. Any other string is treated
      here as NaN, which compares false; ToNumber itself reads some of them as numbers
      ("-1", " 5", "1e3", "0x1F"), and those cases are not modelled. */
  predicate GreaterThanNumber(v: JsValue, k: int)
  {
    match v
    case JsNumber(n) => n > k
    case JsString(s) => if s == [] then 0 > k else AllDigits(s) && DecimalValue(s) > k
    case JsBool(b) => (if b then 1 else 0) > k
  }

  /** The text of an integer in its plain signed decimal form. */
  function SignedDecimal(n: int): string
  {
    if n < 0 then "-" + Decimal(-n) else Decimal(n)
  }

  /** How an INTEGER column reads a text parameter in plain decimal form: digits
      with an optional sign; any other text is refused. */
  function IntegerText(s: string): (r: Option<int>)
    ensures s != [] && AllDigits(s) ==> r == Some(DecimalValue(s))
    ensures s == [] ==> r.None?
  {
    if s != [] && AllDigits(s) then Some(DecimalValue(s))
    else if |s| >= 2 && s[0] == '-' && AllDigits(s[1..]) then Some(0 - DecimalValue(s[1..]) as int)
    else if |s| >= 2 && s[0] == '+' && AllDigits(s[1..]) then Some(DecimalValue(s[1..]))
    else None
  }

  /** The integer an INTEGER column stores for a parameter: a number as it is, a
      string as the column reads it, and a boolean as the text "true" or "false"
      that the driver sends for it. */
  function IntegerParameter(v: JsValue): (r: Option<int>)
  {
    match v
    case JsNumber(n) => Some(n)
    case JsString(s) => IntegerText(s)
    case JsBool(b) => IntegerText(if b then "true" else "false")
  }

  /** A JSON number and the form-field text of the same integer store the same value. */
  lemma NumberAndFormFieldAgree(n: int)
    ensures IntegerParameter(JsString(SignedDecimal(n))) == IntegerParameter(JsNumber(n)) == Some(n)
  {
    IntegerTextRoundTrip(n);
  }

  /** The column refuses the driver's text for a boolean, whichever its value. */
  lemma BooleanIsNotAnInteger(b: bool)
    ensures IntegerParameter(JsBool(b)).None?
  {
    var s := if b then "true" else "false";
    assert !('0' <= s[0] <= '9') && s[0] != '-' && s[0] != '+';
  }

  /** Every integer's decimal text reads back as that integer. */
  lemma IntegerTextRoundTrip(n: int)
    ensures IntegerText(SignedDecimal(n)) == Some(n)
  {
    if n < 0 {
      NegativeRoundTrip(-n);
    } else {
      DecimalRoundTrip(n);
    }
  }

  /** The text of a negative integer reads back as that integer. */
  lemma NegativeRoundTrip(m: nat)
    requires m > 0
    ensures IntegerText("-" + Decimal(m)) == Some(0 - m)
  {
    DecimalRoundTrip(m);
    NegativeText(Decimal(m));
  }

  /** A minus sign before digits reads as the negated number. */
  lemma NegativeText(d: string)
    requires d != [] && AllDigits(d)
    ensures IntegerText("-" + d) == Some(0 - DecimalValue(d) as int)
  {
    var s := "-" + d;
    assert s[0] == '-' && s[1..] == d;
  }
}
