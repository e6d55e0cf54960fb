/** The JavaScript values that cross the model's boundaries: the JSON bodies written to HTTP
    responses and the numbers `Number()` produces. */
module JsValues {

  /** A JSON document as `response.json` serialises it; object members keep insertion order. */
  datatype Json =
    | JNull
    | JNumber(n: int)
    | JString(s: string)
    | JArray(items: seq<Json>)
    | JObject(members: seq<(string, Json)>)

  /** A JavaScript number as far as the model distinguishes them: an integral value, or `NaN`. */
  datatype JsNumber = Integer(value: int) | NaN

  predicate IsDigit(c: char) {
    '0' <= c <= '9'
  }

  /** The value of a string of decimal digits. */
  function DigitsValue(s: string): (n: nat)
    requires forall i :: 0 <= i < |s| ==> IsDigit(s[i])
    decreases |s|
  {
    if |s| == 0 then 0
    else
      assert IsDigit(s[|s| - 1]);
      10 * DigitsValue(s[..|s| - 1]) + (s[|s| - 1] as int - '0' as int)
  }

  /** Decimal rendering of a natural number, as `String(n)` writes it. */
  function NatToString(n: nat): (s: string)
    ensures |s| > 0
    ensures forall i :: 0 <= i < |s| ==> IsDigit(s[i])
    ensures DigitsValue(s) == n
  {
    if n < 10 then ['0' + n as char]
    else
      var s := NatToString(n / 10) + ['0' + (n % 10) as char];
      assert s[..|s| - 1] == NatToString(n / 10);
      s
  }

  /** The length of the sign in front of the digits. */
  function SignLength(s: string): (k: nat)
    ensures k <= 1 && k <= |s|
  {
    if |s| > 0 && (s[0] == '+' || s[0] == '-') then 1 else 0
  }

  /** An optionally signed, non-empty run of decimal digits. */
  predicate IsIntegerLiteral(s: string) {
    SignLength(s) < |s| && forall i :: 0 <= i < |s[SignLength(s)..]| ==> IsDigit(s[SignLength(s)..][i])
  }

  /** JavaScript's `Number(s)` on an already trimmed string: the empty string is `0`, an optionally
      signed run of decimal digits is its value, and any other text is `NaN`. */
  function ParseNumber(s: string): (r: JsNumber)
    ensures r.Integer? <==> s == "" || IsIntegerLiteral(s)
    ensures s == "" ==> r == Integer(0)
    ensures IsIntegerLiteral(s) ==>
      var v: int := DigitsValue(s[SignLength(s)..]);
      r.value == if s[0] == '-' then -v else v
    ensures |s| > 0 && IsDigit(s[0]) && r.Integer? ==> r.value >= 0
    ensures |s| > 0 && s[0] == '-' && r.Integer? ==> r.value <= 0
  {
    if s == "" then Integer(0)
    else
      var digits := s[SignLength(s)..];
      if |digits| > 0 && forall i :: 0 <= i < |digits| ==> IsDigit(digits[i]) then
        var v: int := DigitsValue(digits);
        Integer(if s[0] == '-' then -v else v)
      else
        NaN
  }

  /** Years as an import file may write them: a sign or leading zeros do not change the value. */
  lemma YearLiterals()
    ensures ParseNumber("2000") == Integer(2000)
    ensures ParseNumber("+2000") == Integer(2000)
    ensures ParseNumber("02000") == Integer(2000)
    ensures ParseNumber("-12") == Integer(-12)
    ensures ParseNumber("20 00") == NaN && ParseNumber("2000.5") == NaN
  {
    Digits2000();
    assert "+2000"[1..] == "2000" && "02000"[0..] == "02000" && "2000"[0..] == "2000";
    assert "-12"[1..] == "12" && "12"[..1] == "1" && "1"[..0] == "";
    assert DigitsValue("1") == 1;
    assert DigitsValue("12") == 12;
    assert "20 00"[0..][2] == ' ';
    assert "2000.5"[0..][4] == '.';
  }

  /** The value of the digits of the year 2000, with and without a leading zero. */
  lemma Digits2000()
    ensures DigitsValue("2000") == 2000 && DigitsValue("02000") == 2000
  {
    assert "2000"[..3] == "200" && "200"[..2] == "20" && "20"[..1] == "2" && "2"[..0] == "";
    assert "02000"[..4] == "0200" && "0200"[..3] == "020" && "020"[..2] == "02" && "02"[..1] == "0";
    assert "0"[..0] == "";
  }

  /** Printing an integer and reading it back gives the integer. */
  lemma ParseNumberOfNat(n: nat)
    ensures ParseNumber(NatToString(n)) == Integer(n)
  {
    var s := NatToString(n);
    assert s[0..] == s;
  }
}
