/** The two answers the calculator reads from a prompt: the value of x in
    `evaluateForX` (calculator.js:351-358) and the degree of the root in
    `applyNthRoot` (calculator.js:576-584). An answer is `None` when the
    prompt was cancelled. */
module Prompts {
  import opened Chars
  import opened Wrappers
  import opened Sanitizer

  /** `/^[+\-]?\d+(?:\.\d+)?$/`: an optional sign, then a number literal. */
  predicate IsSignedDecimal(s: string)
    ensures IsSignedDecimal(s) ==>
              |s| > 0 && (IsDigit(s[0]) || ((s[0] == '+' || s[0] == '-') && |s| > 1 && IsDigit(s[1])))
  {
    var u := if |s| > 0 && (s[0] == '+' || s[0] == '-') then s[1..] else s;
    IsNumberLiteral(u)
  }

  datatype XAnswer = XCancelled | XNotNumeric | XValue(value: string)

  /** The trimmed answer, when it is a signed decimal number. */
  function ReadXValue(answer: Option<string>): (r: XAnswer)
    ensures r.XValue? ==> IsSignedDecimal(r.value)
    ensures r.XValue? ==> r.value != [] && !IsSpace(r.value[0]) && !IsSpace(r.value[|r.value| - 1])
    ensures answer.None? <==> r == XCancelled
    ensures answer.Some? ==> (r.XValue? <==> IsSignedDecimal(Trim(answer.value)))
    ensures r.XValue? ==> r.value == Trim(answer.value)
  {
    match answer
    case None => XCancelled
    case Some(a) =>
      var t := Trim(a);
      if IsSignedDecimal(t) then XValue(t) else XNotNumeric
  }

  /** A value accepted for x is made of a sign, digits and a dot only: it
      holds no x, and every character of it passes the sanitiser's allow-list. */
  lemma XValueChars(answer: Option<string>)
    requires ReadXValue(answer).XValue?
    ensures var v := ReadXValue(answer).value;
      forall k :: 0 <= k < |v| ==> IsDigit(v[k]) || v[k] == '.' || v[k] == '+' || v[k] == '-'
    ensures !HasX(ReadXValue(answer).value)
    ensures AllAllowed(ReadXValue(answer).value)
  {
    SignedDecimalChars(ReadXValue(answer).value);
  }

  lemma SignedDecimalChars(v: string)
    requires IsSignedDecimal(v)
    ensures forall k :: 0 <= k < |v| ==> IsDigit(v[k]) || v[k] == '.' || v[k] == '+' || v[k] == '-'
    ensures !HasX(v)
    ensures AllAllowed(v)
  {
    if |v| > 0 && (v[0] == '+' || v[0] == '-') {
      var u := v[1..];
      NumberTokenChars(u);
      assert forall k :: 1 <= k < |v| ==> v[k] == u[k - 1];
    } else {
      NumberTokenChars(v);
    }
    assert forall k :: 0 <= k < |v| ==> IsAllowed(v[k]);
  }

  /** Signed integers and signed decimals with digits on both sides of the
      dot are accepted. */
  lemma SignedDecimalForms(sign: string, i: string, f: string)
    requires sign == "" || sign == "+" || sign == "-"
    requires |i| > 0 && AllDigits(i) && AllDigits(f)
    ensures IsSignedDecimal(sign + i)
    ensures |f| > 0 ==> IsSignedDecimal(sign + i + "." + f)
  {
    NumberLiteralForms(i, f);
    assert (sign + i)[|sign|..] == i;
    if |f| > 0 {
      assert (sign + i + "." + f)[|sign|..] == i + "." + f;
    }
  }

  /** An answer without a digit is refused: a lone sign, an `x`. */
  lemma XValueNeedsDigit(a: string)
    requires forall k :: 0 <= k < |a| ==> !IsDigit(a[k])
    ensures ReadXValue(Some(a)) == XNotNumeric
  {
    var t := Trim(a);
    var i, j :| 0 <= i <= j <= |a| && t == a[i..j];
    if |t| > 0 && (t[0] == '+' || t[0] == '-') {
      if |t| > 1 {
        assert t[1..][0] == a[i + 1];
      }
    } else if |t| > 0 {
      assert t[0] == a[i];
    }
  }

  /** An answer that ends with a dot is refused: `1.` is not a number. */
  lemma XValueTrailingDot(a: string)
    requires a != [] && a[|a| - 1] == '.'
    ensures ReadXValue(Some(a)) == XNotNumeric
  {
    var t := Trim(a);
    TrimEnd(a);
    if t != [] {
      DotEndNotSigned(t);
    }
  }

  /** Text that ends with a dot is not a signed decimal. */
  lemma DotEndNotSigned(t: string)
    requires t != [] && t[|t| - 1] == '.'
    ensures !IsSignedDecimal(t)
  {
    var u := if t[0] == '+' || t[0] == '-' then t[1..] else t;
    assert u == [] || u[|u| - 1] == '.';
    if u != [] && IsDigit(u[0]) {
      NumberTokenLastDigit(u);
    }
  }

  /** Text that neither starts nor ends with white space is its own trim. */
  lemma TrimPlain(s: string)
    requires s != [] && !IsSpace(s[0]) && !IsSpace(s[|s| - 1])
    ensures Trim(s) == s
  {
    var r := Trim(s);
    var i, j :| 0 <= i <= j <= |s| && r == s[i..j]
                && (forall k :: 0 <= k < i ==> IsSpace(s[k]))
                && (forall k :: j <= k < |s| ==> IsSpace(s[k]));
  }

  /** The value of a digit. */
  function DigitValue(c: char): nat
    requires IsDigit(c)
  {
    c as int - '0' as int
  }

  /** `parseInt(s, 10)` of a string of digits, exactly. */
  function DecimalValue(s: string): (n: nat)
    requires AllDigits(s)
    ensures n < Pow10(|s|)
    decreases |s|
  {
    if s == [] then 0 else 10 * DecimalValue(s[..|s| - 1]) + DigitValue(s[|s| - 1])
  }

  function Pow10(n: nat): (p: nat)
    ensures p > 0
  {
    if n == 0 then 1 else 10 * Pow10(n - 1)
  }

  /** Powers of ten grow with the exponent. */
  lemma {:induction false} Pow10Grows(m: nat, n: nat)
    requires m <= n
    ensures Pow10(m) <= Pow10(n)
    decreases n
  {
    if m < n {
      Pow10Grows(m, n - 1);
    }
  }

  /** A string of digits has value 0 exactly when every digit is 0. */
  lemma {:induction false} DecimalValueZero(s: string)
    requires AllDigits(s)
    ensures DecimalValue(s) == 0 <==> forall k :: 0 <= k < |s| ==> s[k] == '0'
  {
    if s != [] {
      var p := s[..|s| - 1];
      DecimalValueZero(p);
      assert forall k :: 0 <= k < |p| ==> p[k] == s[k];
    }
  }

  datatype DegreeAnswer = DegreeCancelled | NotAnInteger | NotPositive | Degree(n: nat)

  /** The trimmed answer must be digits only (`/^[0-9]+$/`) and its value
      above 0. */
  function ReadRootDegree(answer: Option<string>): (r: DegreeAnswer)
    ensures r.Degree? ==> r.n > 0
    ensures answer.None? <==> r == DegreeCancelled
  {
    match answer
    case None => DegreeCancelled
    case Some(a) =>
      var t := Trim(a);
      if !(|t| > 0 && AllDigits(t)) then NotAnInteger
      else
        var n := DecimalValue(t);
        if n <= 0 then NotPositive else Degree(n)
  }

  /** Each answer that is digits only is refused as not positive exactly
      when all its digits are 0, and is accepted otherwise with its value. */
  lemma RootDegreeCases(a: string)
    ensures var t := Trim(a);
      && (ReadRootDegree(Some(a)) == NotAnInteger <==> t == [] || !AllDigits(t))
      && (ReadRootDegree(Some(a)) == NotPositive
          <==> t != [] && AllDigits(t) && forall k :: 0 <= k < |t| ==> t[k] == '0')
      && (ReadRootDegree(Some(a)).Degree? ==> ReadRootDegree(Some(a)).n == DecimalValue(t))
  {
    var t := Trim(a);
    if t != [] && AllDigits(t) {
      DecimalValueZero(t);
    }
  }

  /** `parseInt` returns a double. An accepted degree of at most 15 digits is
      below 2^53, where every integer is a double, so its value is exact. */
  lemma RootDegreeExact(a: string)
    requires |Trim(a)| <= 15
    ensures ReadRootDegree(Some(a)).Degree? ==> ReadRootDegree(Some(a)).n < 0x20_0000_0000_0000
  {
    var t := Trim(a);
    if ReadRootDegree(Some(a)).Degree? {
      Pow10Grows(|t|, 15);
      assert Pow10(15) == 1_000_000_000_000_000;
    }
  }

  /** A zero in front of the digits does not change their value. */
  lemma {:induction false} DecimalLeadingZero(s: string)
    requires AllDigits(s)
    ensures AllDigits("0" + s) && DecimalValue("0" + s) == DecimalValue(s)
    decreases |s|
  {
    var z := "0" + s;
    if s == [] {
      assert z[..0] == [];
    } else {
      var p := s[..|s| - 1];
      DecimalLeadingZero(p);
      assert z[..|z| - 1] == "0" + p;
      assert z[|z| - 1] == s[|s| - 1];
    }
  }

  /** Leading zeros are ignored: `007` is the degree 7 and `00` is refused
      as not positive, like `0`. */
  lemma RootDegreeLeadingZero(d: string)
    requires |d| > 0 && AllDigits(d)
    ensures ReadRootDegree(Some("0" + d)) == ReadRootDegree(Some(d))
  {
    DecimalLeadingZero(d);
    var z := "0" + d;
    assert z[|z| - 1] == d[|d| - 1];
    TrimPlain(z);
    TrimPlain(d);
  }

  /** An answer that starts with a sign or any other character that is
      neither a digit nor white space is not an integer: `-2` is refused. */
  lemma RootDegreeNotDigitFirst(a: string)
    requires a != [] && !IsDigit(a[0]) && !IsSpace(a[0])
    ensures ReadRootDegree(Some(a)) == NotAnInteger
  {
    TrimStart(a);
  }
}
