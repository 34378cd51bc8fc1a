/** Thousands grouping of numeric strings (`groupNumberString`) and of every
    number token of an expression (`formatExpressionForDisplay`). */
module Grouping {
  import opened Chars
  import opened Wrappers

  /** Whether `/\B(?=(\d{3})+(?!\d))/` matches at position i of s: not at a word
      boundary (so not at the start of s, and only after a word character), and
      in front of a maximal run of digits whose length is a positive multiple of 3. */
  predicate CommaBefore(s: string, i: nat)
    requires i <= |s|
    ensures CommaBefore(s, i) ==> 0 < i < |s| && IsWordChar(s[i - 1]) && IsDigit(s[i])
  {
    0 < i && IsWordChar(s[i - 1]) && DigitRun(s, i) > 0 && DigitRun(s, i) % 3 == 0
  }

  /** The grouped text of s[i..]: a comma in front of every position where the
      zero-width pattern matches. */
  function GroupFrom(s: string, i: nat): string
    requires i <= |s|
    decreases |s| - i
  {
    if i == |s| then []
    else (if CommaBefore(s, i) then [','] else []) + [s[i]] + GroupFrom(s, i + 1)
  }

  /** `s.replace(/\B(?=(\d{3})+(?!\d))/g, ',')`: only commas are inserted, so
      deleting them gives the input back. */
  function GroupThousands(s: string): (r: string)
    ensures RemoveCommas(r) == RemoveCommas(s)
  {
    GroupFromRemoveCommas(s, 0);
    assert s[0..] == s;
    GroupFrom(s, 0)
  }

  /** Reference grouping of a digit string, built from the right: the last three
      digits, preceded by a comma and the grouping of the rest when digits remain. */
  function GroupRef(d: string): string
    decreases |d|
  {
    if |d| <= 3 then d else GroupRef(d[..|d| - 3]) + "," + d[|d| - 3..]
  }

  /** `groupNumberString(numStr)`, with `null` as None. */
  function GroupNumberString(numStr: Option<string>): (r: string)
    ensures numStr.Some? ==> (r == [] <==> numStr.value == [])
    ensures numStr.Some? && numStr.value != [] ==> r[0] == numStr.value[0]
  {
    match numStr
    case None => ""
    case Some(t) =>
      if t == "Infinity" || t == "NaN" then t
      else
        var neg := |t| > 0 && t[0] == '-';
        var s := if neg then t[1..] else t;
        if 'e' in s || 'E' in s || s == "" then t
        else if neg then "-" + GroupUnsigned(s)
        else GroupUnsigned(s)
  }

  /** The grouped integer part of s, followed by its first fractional piece when
      s has a '.': only the first two pieces of `s.split('.')` are kept. */
  function GroupUnsigned(s: string): (r: string)
    ensures s != [] ==> r != [] && r[0] == s[0]
  {
    var whole := GroupThousands(Before(s, '.'));
    if '.' in s then whole + "." + Before(After(s, '.'), '.') else whole
  }

  /** The display text of a raw expression: "0" for the empty expression,
      otherwise every match of `/\d+(?:\.\d+)?/g` grouped by GroupNumberString.
      It is never empty, and deleting its commas gives the expression back:
      `display.textContent.replace(/,/g, '')` recovers the raw buffer. */
  function FormatExpressionForDisplay(expr: string): (r: string)
    ensures r != ""
    ensures RemoveCommas(r) == if expr == "" then "0" else RemoveCommas(expr)
  {
    if expr == "" then "0" else GroupTokens(expr)
  }

  /** The grouped text of an expression keeps its first character, and
      deleting its commas gives the expression without commas. */
  function GroupTokens(s: string): (r: string)
    ensures s != [] ==> r != [] && r[0] == s[0]
    ensures RemoveCommas(r) == RemoveCommas(s)
    decreases |s|
  {
    if s == [] then []
    else if IsDigit(s[0]) then
      var n := NumberTokenLength(s);
      var rest := GroupTokens(s[n..]);
      TokenRoundTrip(s, rest);
      GroupNumberString(Some(s[..n])) + rest
    else
      var rest := GroupTokens(s[1..]);
      ConcatRoundTrip([s[0]], s[1..], [s[0]], rest);
      assert s == [s[0]] + s[1..];
      [s[0]] + rest
  }

  /** Comma deletion of two pieces, each of which round-trips. */
  lemma ConcatRoundTrip(a: string, b: string, ga: string, gb: string)
    requires RemoveCommas(ga) == RemoveCommas(a) && RemoveCommas(gb) == RemoveCommas(b)
    ensures RemoveCommas(ga + gb) == RemoveCommas(a + b)
  {
    RemoveCommasConcat(ga, gb);
    RemoveCommasConcat(a, b);
  }

  /** The number-token step of GroupTokens round-trips. */
  lemma TokenRoundTrip(s: string, rest: string)
    requires |s| > 0 && IsDigit(s[0])
    requires RemoveCommas(rest) == RemoveCommas(s[NumberTokenLength(s)..])
    ensures RemoveCommas(GroupNumberString(Some(s[..NumberTokenLength(s)])) + rest) == RemoveCommas(s)
  {
    var n := NumberTokenLength(s);
    var token := s[..n];
    TokenOneDot(s);
    assert '.' in token ==> '.' !in After(token, '.');
    GroupNumberStringRoundTrip(token);
    var g := GroupNumberString(Some(token));
    assert RemoveCommas(g) == RemoveCommas(token);
    ConcatRoundTrip(token, s[n..], g, rest);
    SplitTwo(s, n);
  }

  lemma SplitTwo(s: string, n: nat)
    requires n <= |s|
    ensures s[..n] + s[n..] == s
  {
  }

  // ---------------------------------------------------------------------------
  // Grouping of one numeric string

  /** Grouping only ever inserts commas: deleting them gives the input back. */
  lemma {:induction false} GroupFromRemoveCommas(s: string, i: nat)
    requires i <= |s|
    ensures RemoveCommas(GroupFrom(s, i)) == RemoveCommas(s[i..])
    decreases |s| - i
  {
    if i < |s| {
      var c := if CommaBefore(s, i) then [','] else [];
      GroupFromRemoveCommas(s, i + 1);
      assert GroupFrom(s, i) == c + [s[i]] + GroupFrom(s, i + 1);
      RemoveCommasStep(c, s[i], GroupFrom(s, i + 1), s[i + 1..]);
      assert s[i..] == [s[i]] + s[i + 1..];
    }
  }

  /** One step of GroupFromRemoveCommas: an optional comma, then a character. */
  lemma RemoveCommasStep(c: string, h: char, g: string, rest: string)
    requires c == [] || c == [',']
    requires RemoveCommas(g) == RemoveCommas(rest)
    ensures RemoveCommas(c + [h] + g) == RemoveCommas([h] + rest)
  {
    RemoveCommasConcat(c + [h], g);
    RemoveCommasConcat(c, [h]);
    RemoveCommasConcat([h], rest);
  }

  /** Every character of the grouped text is a comma or a character of the input. */
  lemma {:induction false} GroupFromChars(s: string, i: nat)
    requires i <= |s|
    ensures forall c :: c in GroupFrom(s, i) ==> c == ',' || c in s[i..]
    decreases |s| - i
  {
    if i < |s| {
      GroupFromChars(s, i + 1);
      assert s[i..] == [s[i]] + s[i + 1..];
    }
  }

  /** In a string of n digits a comma goes in front of position i exactly when
      0 < i and n - i is a multiple of 3. */
  lemma CommaPositionsInDigits(d: string, i: nat)
    requires AllDigits(d) && i < |d|
    ensures CommaBefore(d, i) <==> 0 < i && (|d| - i) % 3 == 0
  {
    assert DigitRun(d, i) == |d| - i;
  }

  lemma {:induction false} GroupFromShortDigits(d: string, i: nat)
    requires AllDigits(d) && |d| <= 3 && i <= |d|
    ensures GroupFrom(d, i) == d[i..]
    decreases |d| - i
  {
    if i < |d| {
      CommaPositionsInDigits(d, i);
      GroupFromShortDigits(d, i + 1);
      assert d[i..] == [d[i]] + d[i + 1..];
    }
  }

  /** Splitting off the last three digits: up to that point the grouping of d
      is the grouping of d without them. */
  lemma {:induction false} GroupFromLastThree(d: string, i: nat)
    requires AllDigits(d) && |d| > 3 && i <= |d| - 3
    ensures GroupFrom(d, i) == GroupFrom(d[..|d| - 3], i) + "," + d[|d| - 3..]
    decreases |d| - i
  {
    var n := |d|;
    if i == n - 3 {
      GroupFromTail(d);
    } else {
      var d' := d[..n - 3];
      var tail := d[n - 3..];
      CommaBeforeDropLastThree(d, i);
      var c := if CommaBefore(d, i) then [','] else [];
      GroupFromLastThree(d, i + 1);
      assert d'[i] == d[i];
      var head := c + [d[i]];
      assert GroupFrom(d, i) == head + GroupFrom(d, i + 1);
      assert GroupFrom(d', i) == head + GroupFrom(d', i + 1);
      CommaAssoc(head, GroupFrom(d', i + 1), tail);
    }
  }

  lemma CommaAssoc(h: string, x: string, t: string)
    ensures h + (x + "," + t) == (h + x) + "," + t
  {
  }

  lemma CommaBeforeDropLastThree(d: string, i: nat)
    requires AllDigits(d) && |d| > 3 && i < |d| - 3
    ensures CommaBefore(d, i) == CommaBefore(d[..|d| - 3], i)
  {
    var d' := d[..|d| - 3];
    assert AllDigits(d') by {
      forall k | 0 <= k < |d'| ensures IsDigit(d'[k]) { assert d'[k] == d[k]; }
    }
    CommaPositionsInDigits(d, i);
    CommaPositionsInDigits(d', i);
    assert (|d| - i) % 3 == (|d'| - i) % 3;
  }

  lemma GroupFromTail(d: string)
    requires AllDigits(d) && |d| > 3
    ensures GroupFrom(d, |d| - 3) == "," + d[|d| - 3..]
  {
    GroupFromTailAt(d, |d| - 3);
  }

  /** Within the last three digits only the first gets a comma in front. */
  lemma {:induction false} GroupFromTailAt(d: string, i: nat)
    requires AllDigits(d) && |d| > 3 && |d| - 3 <= i <= |d|
    ensures GroupFrom(d, i) == (if i == |d| - 3 then [','] else []) + d[i..]
    decreases |d| - i
  {
    if i < |d| {
      CommaPositionsInDigits(d, i);
      GroupFromTailAt(d, i + 1);
      assert d[i..] == [d[i]] + d[i + 1..];
    }
  }

  /** For a digit string the position-by-position grouping of the regular
      expression equals the reference grouping from the right. */
  lemma {:induction false} GroupThousandsDigits(d: string)
    requires AllDigits(d)
    ensures GroupThousands(d) == GroupRef(d)
    decreases |d|
  {
    if |d| <= 3 {
      GroupFromShortDigits(d, 0);
    } else {
      GroupFromLastThree(d, 0);
      GroupThousandsDigits(d[..|d| - 3]);
    }
  }

  // ---------------------------------------------------------------------------
  // groupNumberString

  /** The strings groupNumberString hands back unchanged. */
  lemma GroupNumberStringSentinels(t: string)
    requires t == "Infinity" || t == "NaN" || t == "-" || 'e' in t || 'E' in t
    ensures GroupNumberString(Some(t)) == t
    ensures GroupNumberString(None) == ""
  {
    if |t| > 0 && t[0] == '-' {
      assert t == [t[0]] + t[1..];
    }
  }

  /** Deleting the commas of GroupUnsigned(s) gives s without its commas when
      s has at most one decimal point. */
  lemma GroupUnsignedRoundTrip(s: string)
    requires '.' in s ==> '.' !in After(s, '.')
    ensures RemoveCommas(GroupUnsigned(s)) == RemoveCommas(s)
  {
    var b := Before(s, '.');
    var whole := GroupThousands(b);
    if '.' in s {
      var f := After(s, '.');
      assert Before(f, '.') == f;
      RemoveCommasConcat(whole + ".", f);
      RemoveCommasConcat(whole, ".");
      RemoveCommasConcat(b + ".", f);
      RemoveCommasConcat(b, ".");
    }
  }

  /** Deleting the commas of groupNumberString(t) gives t without its commas,
      provided t has at most one decimal point. */
  lemma GroupNumberStringRoundTrip(t: string)
    requires '.' in t ==> '.' !in After(t, '.')
    ensures RemoveCommas(GroupNumberString(Some(t))) == RemoveCommas(t)
  {
    if t != "Infinity" && t != "NaN" {
      var neg := |t| > 0 && t[0] == '-';
      var s := if neg then t[1..] else t;
      if !('e' in s || 'E' in s || s == "") {
        if neg {
          SignedRoundTrip(t);
        } else {
          GroupUnsignedRoundTrip(s);
        }
      }
    }
  }

  lemma SignedRoundTrip(t: string)
    requires |t| > 0 && t[0] == '-' && ('.' in t ==> '.' !in After(t, '.'))
    ensures RemoveCommas("-" + GroupUnsigned(t[1..])) == RemoveCommas(t)
  {
    var s := t[1..];
    DotsAfterSign(t);
    GroupUnsignedRoundTrip(s);
    assert t == "-" + s;
    RemoveCommasConcat("-", GroupUnsigned(s));
    RemoveCommasConcat("-", s);
  }

  /** With the sign removed, the decimal points of t are those of t[1..]. */
  lemma DotsAfterSign(t: string)
    requires |t| > 0 && t[0] == '-'
    ensures '.' in t <==> '.' in t[1..]
    ensures '.' in t ==> After(t, '.') == After(t[1..], '.')
  {
    assert t == "-" + t[1..];
    if '.' in t {
      BeforeUnique(t, '.', "-" + Before(t[1..], '.'));
    }
  }

  /** GroupUnsigned keeps the first fractional piece and adds no '.'. */
  lemma GroupUnsignedFraction(s: string, p: string)
    requires '.' !in p
    ensures '.' in p + GroupUnsigned(s) <==> '.' in s
    ensures '.' in s ==> After(p + GroupUnsigned(s), '.') == Before(After(s, '.'), '.')
  {
    var b := Before(s, '.');
    var whole := GroupThousands(b);
    WholeHasNoDot(b);
    assert '.' !in p + whole;
    if '.' in s {
      assert GroupUnsigned(s) == whole + "." + Before(After(s, '.'), '.');
      FractionAfterWhole(p, whole, Before(After(s, '.'), '.'));
    } else {
      assert p + GroupUnsigned(s) == p + whole;
    }
  }

  lemma WholeHasNoDot(b: string)
    requires '.' !in b
    ensures '.' !in GroupThousands(b)
  {
    GroupFromChars(b, 0);
    assert b[0..] == b;
  }

  lemma FractionAfterWhole(p: string, w: string, f: string)
    requires '.' !in p && '.' !in w
    ensures '.' in p + (w + "." + f) && After(p + (w + "." + f), '.') == f
  {
    assert p + (w + "." + f) == (p + w) + "." + f;
    assert '.' !in p + w;
    BeforeUnique(p + (w + "." + f), '.', p + w);
  }

  /** groupNumberString keeps the first fractional piece: the result has a '.'
      exactly when the input has one, and the text after it is the text between
      the input's first and second '.'. */
  lemma GroupNumberStringKeepsFraction(t: string)
    requires t != "Infinity" && t != "NaN" && 'e' !in t && 'E' !in t
    ensures var r := GroupNumberString(Some(t));
      && ('.' in r <==> '.' in t)
      && ('.' in t ==> After(r, '.') == Before(After(t, '.'), '.'))
  {
    var neg := |t| > 0 && t[0] == '-';
    var s := if neg then t[1..] else t;
    assert neg ==> t == "-" + s;
    if !('e' in s || 'E' in s || s == "") {
      if neg {
        DotsAfterSign(t);
        GroupUnsignedFraction(s, "-");
      } else {
        GroupUnsignedFraction(s, "");
        assert "" + GroupUnsigned(s) == GroupUnsigned(s);
      }
    }
  }

  lemma GroupRefExample()
    ensures GroupRef("1234") == "1,234"
    ensures GroupRef("1234567") == "1,234,567"
  {
    assert "1234"[..1] == "1" && "1234"[1..] == "234";
    assert "1234567"[..4] == "1234" && "1234567"[4..] == "567";
  }

  /** groupNumberString of a string of digits is the reference grouping. */
  lemma GroupNumberStringDigits(d: string)
    requires |d| > 0 && AllDigits(d)
    ensures GroupNumberString(Some(d)) == GroupRef(d)
  {
    GroupNumberStringPlain(d);
    assert '.' !in d;
    GroupUnsignedInteger(d);
    GroupThousandsDigits(d);
  }

  lemma GroupNumberStringExampleInteger()
    ensures GroupNumberString(Some("1234567")) == "1,234,567"
  {
    GroupNumberStringDigits("1234567");
    GroupRefExample();
  }

  // ---------------------------------------------------------------------------
  // formatExpressionForDisplay

  /** The characters of a number token: digits, and one '.' right after the
      first digit run when the token has a fractional part. */
  lemma NumberTokenShape(s: string)
    requires |s| > 0 && IsDigit(s[0])
    ensures var n, d := NumberTokenLength(s), DigitRun(s, 0);
      && AllDigits(s[..d])
      && (n > d ==> n > d + 1 && s[d] == '.' && AllDigits(s[d + 1..n]))
  {
    DigitRunSlice(s, 0);
    var n, d := NumberTokenLength(s), DigitRun(s, 0);
    assert s[0..d] == s[..d];
    if n > d {
      DigitRunSlice(s, d + 1);
    }
  }

  /** A number token has at most one dot. */
  lemma TokenOneDot(s: string)
    requires |s| > 0 && IsDigit(s[0])
    ensures var t := s[..NumberTokenLength(s)]; '.' in t ==> '.' !in After(t, '.')
  {
    var n, d := NumberTokenLength(s), DigitRun(s, 0);
    var t := s[..n];
    NumberTokenShape(s);
    var b := s[..d];
    assert '.' !in b;
    if n == d {
      assert t == b;
    } else {
      var f := s[d + 1..n];
      assert '.' !in f;
      SplitAt(s, d, n, '.');
      BeforeUnique(t, '.', b);
      assert After(t, '.') == f;
    }
  }

  /** The digit run at i, cut out of s, is all digits. */
  lemma DigitRunSlice(s: string, i: nat)
    requires i <= |s|
    ensures AllDigits(s[i..i + DigitRun(s, i)])
  {
    var f := s[i..i + DigitRun(s, i)];
    forall k | 0 <= k < |f| ensures IsDigit(f[k]) {
      assert f[k] == s[i + k];
    }
  }

  /** A string of digits and dots that starts with a digit is grouped as an
      unsigned number. */
  lemma GroupNumberStringPlain(t: string)
    requires |t| > 0 && IsDigit(t[0])
    requires forall k :: 0 <= k < |t| ==> IsDigit(t[k]) || t[k] == '.'
    ensures GroupNumberString(Some(t)) == GroupUnsigned(t)
  {
    assert t != "Infinity" && t != "NaN" by { assert "Infinity"[0] == 'I' && "NaN"[0] == 'N'; }
    assert 'e' !in t && 'E' !in t;
  }

  /** The grouping of one number token of an expression: its integer digits
      grouped, its fractional part (with the dot) unchanged. */
  lemma GroupNumberToken(s: string)
    requires |s| > 0 && IsDigit(s[0])
    ensures var n, d := NumberTokenLength(s), DigitRun(s, 0);
      GroupNumberString(Some(s[..n])) == GroupThousands(s[..d]) + s[d..n]
  {
    NumberTokenPlain(s);
    GroupNumberStringPlain(s[..NumberTokenLength(s)]);
    GroupUnsignedToken(s);
  }

  /** A number token is made of digits and dots and starts with a digit. */
  lemma NumberTokenPlain(s: string)
    requires |s| > 0 && IsDigit(s[0])
    ensures var t := s[..NumberTokenLength(s)];
      |t| > 0 && IsDigit(t[0]) && forall k :: 0 <= k < |t| ==> IsDigit(t[k]) || t[k] == '.'
  {
    var n, d := NumberTokenLength(s), DigitRun(s, 0);
    var t := s[..n];
    NumberTokenShape(s);
    forall k | 0 <= k < |t| ensures IsDigit(t[k]) || t[k] == '.' {
      if k < d { assert t[k] == s[..d][k]; } else if k > d { assert t[k] == s[d + 1..n][k - d - 1]; }
    }
  }

  /** Without a '.', the whole string is the integer part. */
  lemma GroupUnsignedInteger(b: string)
    requires '.' !in b
    ensures GroupUnsigned(b) == GroupThousands(b)
  {
  }

  /** With exactly one '.', the integer part is grouped and the fraction kept. */
  lemma GroupUnsignedDecimal(b: string, f: string)
    requires '.' !in b && '.' !in f
    ensures GroupUnsigned(b + "." + f) == GroupThousands(b) + "." + f
  {
    var t := b + "." + f;
    BeforeUnique(t, '.', b);
    assert After(t, '.') == f;
  }

  lemma GroupUnsignedToken(s: string)
    requires |s| > 0 && IsDigit(s[0])
    ensures var n, d := NumberTokenLength(s), DigitRun(s, 0);
      GroupUnsigned(s[..n]) == GroupThousands(s[..d]) + s[d..n]
  {
    var n, d := NumberTokenLength(s), DigitRun(s, 0);
    var b := s[..d];
    NumberTokenShape(s);
    assert '.' !in b;
    if n == d {
      GroupUnsignedInteger(b);
    } else {
      var f := s[d + 1..n];
      assert '.' !in f;
      SplitAt(s, d, n, '.');
      GroupUnsignedSplit(s[..n], b, f, s[d..n]);
    }
  }

  lemma GroupUnsignedSplit(t: string, b: string, f: string, tail: string)
    requires '.' !in b && '.' !in f && t == b + "." + f && tail == "." + f
    ensures GroupUnsigned(t) == GroupThousands(b) + tail
  {
    GroupUnsignedDecimal(b, f);
  }

  /** One step of GroupTokens at a number token. */
  lemma GroupTokensAtNumber(s: string)
    requires |s| > 0 && IsDigit(s[0])
    ensures var n, d := NumberTokenLength(s), DigitRun(s, 0);
      GroupTokens(s) == GroupThousands(s[..d]) + s[d..n] + GroupTokens(s[n..])
  {
    GroupNumberToken(s);
  }

  /** A number alone shows its integer digits grouped and its fraction as it
      is: `1234.5678` is displayed as `1,234.5678`. */
  lemma FormatNumberLiteral(i: string, f: string)
    requires |i| > 0 && AllDigits(i) && AllDigits(f)
    ensures FormatExpressionForDisplay(i) == GroupRef(i)
    ensures |f| > 0 ==> FormatExpressionForDisplay(i + "." + f) == GroupRef(i) + "." + f
  {
    NumberLiteralForms(i, f);
    WholeToken(i);
    GroupNumberStringDigits(i);
    if |f| > 0 {
      var t := i + "." + f;
      WholeToken(t);
      DecimalChars(i, f);
      GroupNumberStringPlain(t);
      GroupUnsignedDecimal(i, f);
      GroupThousandsDigits(i);
    }
  }

  /** A whole number literal is displayed as one grouped token. */
  lemma WholeToken(t: string)
    requires IsNumberLiteral(t)
    ensures FormatExpressionForDisplay(t) == GroupNumberString(Some(t))
  {
    var n := NumberTokenLength(t);
    assert GroupTokens(t) == GroupNumberString(Some(t[..n])) + GroupTokens(t[n..]);
    assert t[..n] == t && t[n..] == [];
  }

  lemma DecimalChars(i: string, f: string)
    requires |i| > 0 && AllDigits(i) && AllDigits(f)
    ensures var t := i + "." + f;
      |t| > 0 && IsDigit(t[0]) && forall k :: 0 <= k < |t| ==> IsDigit(t[k]) || t[k] == '.'
  {
    var t := i + "." + f;
    forall k | 0 <= k < |t| ensures IsDigit(t[k]) || t[k] == '.' {
      if k < |i| {
        assert t[k] == i[k];
      } else if k > |i| {
        assert t[k] == f[k - |i| - 1];
      }
    }
  }

  /** Every comma of r stands between two digits. */
  predicate CommasBetweenDigits(r: string) {
    forall j :: 0 <= j < |r| && r[j] == ',' ==> 0 < j < |r| - 1 && IsDigit(r[j - 1]) && IsDigit(r[j + 1])
  }

  lemma CommasBetweenDigitsConcat(a: string, b: string)
    requires CommasBetweenDigits(a) && CommasBetweenDigits(b)
    ensures CommasBetweenDigits(a + b)
  {
    var r := a + b;
    forall j | 0 <= j < |r| && r[j] == ','
      ensures 0 < j < |r| - 1 && IsDigit(r[j - 1]) && IsDigit(r[j + 1])
    {
      if j < |a| {
        assert a[j] == ',';
        assert r[j - 1] == a[j - 1] && r[j + 1] == a[j + 1];
      } else {
        assert b[j - |a|] == ',';
        assert r[j - 1] == b[j - |a| - 1] && r[j + 1] == b[j - |a| + 1];
      }
    }
  }

  /** The reference grouping of a non-empty digit string begins and ends with a
      digit and puts its commas between digits. */
  lemma {:induction false} GroupRefShape(d: string)
    requires AllDigits(d) && d != []
    ensures var g := GroupRef(d);
      g != [] && IsDigit(g[0]) && IsDigit(g[|g| - 1]) && CommasBetweenDigits(g)
    decreases |d|
  {
    if |d| > 3 {
      var d' := d[..|d| - 3];
      assert AllDigits(d') by {
        forall k | 0 <= k < |d'| ensures IsDigit(d'[k]) { assert d'[k] == d[k]; }
      }
      GroupRefShape(d');
      var g' := GroupRef(d');
      var tail := d[|d| - 3..];
      assert AllDigits(tail) by {
        forall k | 0 <= k < 3 ensures IsDigit(tail[k]) { assert tail[k] == d[|d| - 3 + k]; }
      }
      var g := g' + "," + tail;
      forall j | 0 <= j < |g| && g[j] == ','
        ensures 0 < j < |g| - 1 && IsDigit(g[j - 1]) && IsDigit(g[j + 1])
      {
        if j < |g'| {
          assert g'[j] == ',';
          assert g[j - 1] == g'[j - 1] && g[j + 1] == g'[j + 1];
        } else if j == |g'| {
          assert g[j - 1] == g'[|g'| - 1] && g[j + 1] == tail[0];
        }
      }
    } else {
      forall j | 0 <= j < |d| ensures d[j] != ',' { assert IsDigit(d[j]); }
    }
  }

  /** Display formatting of a comma-free expression puts commas only between
      two digits: every other character keeps its order, and nothing splits a
      character that is not a digit from its neighbours. */
  lemma {:induction false} GroupTokensCommasBetweenDigits(s: string)
    requires ',' !in s
    ensures CommasBetweenDigits(GroupTokens(s))
    decreases |s|
  {
    if s != [] {
      if IsDigit(s[0]) {
        var n := NumberTokenLength(s);
        TokenCommasBetweenDigits(s);
        assert ',' !in s[n..];
        GroupTokensCommasBetweenDigits(s[n..]);
        CommasBetweenDigitsConcat(GroupNumberString(Some(s[..n])), GroupTokens(s[n..]));
      } else {
        assert ',' !in s[1..];
        GroupTokensCommasBetweenDigits(s[1..]);
        CommasBetweenDigitsConcat([s[0]], GroupTokens(s[1..]));
      }
    }
  }

  /** The grouped number token at the start of s puts its commas between digits. */
  lemma TokenCommasBetweenDigits(s: string)
    requires ',' !in s && |s| > 0 && IsDigit(s[0])
    ensures CommasBetweenDigits(GroupNumberString(Some(s[..NumberTokenLength(s)])))
  {
    var n, d := NumberTokenLength(s), DigitRun(s, 0);
    NumberTokenShape(s);
    GroupNumberToken(s);
    assert s[..d] != [];
    GroupThousandsDigits(s[..d]);
    GroupRefShape(s[..d]);
    assert ',' !in s[d..n];
    CommasBetweenDigitsConcat(GroupThousands(s[..d]), s[d..n]);
  }

  lemma FormatCommasBetweenDigits(e: string)
    requires ',' !in e
    ensures CommasBetweenDigits(FormatExpressionForDisplay(e))
  {
    if e != "" {
      GroupTokensCommasBetweenDigits(e);
    }
  }

  lemma {:induction false} GroupTokensAppend(t: string, c: char)
    requires !IsDigit(c)
    ensures GroupTokens(t + [c]) == GroupTokens(t) + [c]
    decreases |t|
  {
    if t == [] {
      assert t + [c] == [c];
      assert GroupTokens([c]) == [c] + GroupTokens([]);
    } else if IsDigit(t[0]) {
      GroupTokensAppend(t[NumberTokenLength(t)..], c);
      NumberAppend(t, c);
    } else {
      GroupTokensAppend(t[1..], c);
      OtherAppend(t, c);
    }
  }

  /** The step of GroupTokensAppend at a number token. */
  lemma NumberAppend(t: string, c: char)
    requires |t| > 0 && IsDigit(t[0]) && !IsDigit(c)
    requires GroupTokens(t[NumberTokenLength(t)..] + [c]) == GroupTokens(t[NumberTokenLength(t)..]) + [c]
    ensures GroupTokens(t + [c]) == GroupTokens(t) + [c]
  {
    var n, d := NumberTokenLength(t), DigitRun(t, 0);
    NumberTokenAppend(t, c);
    DigitRunAppend(t, c, 0);
    GroupTokensAtNumber(t);
    GroupTokensAtNumber(t + [c]);
    TokenStepAppend(t, c, n, d);
  }

  /** The step of GroupTokensAppend at a character that is not a digit. */
  lemma {:induction false} OtherAppend(t: string, c: char)
    requires |t| > 0 && !IsDigit(t[0])
    requires GroupTokens(t[1..] + [c]) == GroupTokens(t[1..]) + [c]
    ensures GroupTokens(t + [c]) == GroupTokens(t) + [c]
  {
    var u := t[1..];
    ConsSplit(t, c);
    GroupTokensCons(t[0], u);
    GroupTokensCons(t[0], u + [c]);
    ConsAppend(GroupTokens(t + [c]), GroupTokens(t), GroupTokens(u), GroupTokens(u + [c]), t[0], c);
  }

  lemma ConsSplit(t: string, c: char)
    requires |t| > 0
    ensures t == [t[0]] + t[1..] && t + [c] == [t[0]] + (t[1..] + [c])
  {
  }

  lemma ConsAppend(gs: string, gt: string, gu: string, guc: string, h: char, c: char)
    requires gs == [h] + guc && gt == [h] + gu && guc == gu + [c]
    ensures gs == gt + [c]
  {
  }

  /** One step of GroupTokens at a character that is not a digit. */
  lemma GroupTokensCons(h: char, rest: string)
    requires !IsDigit(h)
    ensures GroupTokens([h] + rest) == [h] + GroupTokens(rest)
  {
    assert ([h] + rest)[1..] == rest;
  }

  lemma TokenStepAppend(t: string, c: char, n: nat, d: nat)
    requires d <= n <= |t|
    requires GroupTokens(t[n..] + [c]) == GroupTokens(t[n..]) + [c]
    ensures GroupThousands((t + [c])[..d]) + (t + [c])[d..n] + GroupTokens((t + [c])[n..])
         == GroupThousands(t[..d]) + t[d..n] + GroupTokens(t[n..]) + [c]
  {
    SliceAppend(t, c, n, d);
    AppendAssoc(GroupThousands(t[..d]) + t[d..n], GroupTokens(t[n..]), [c]);
  }

  lemma SliceAppend(t: string, c: char, n: nat, d: nat)
    requires d <= n <= |t|
    ensures (t + [c])[..d] == t[..d] && (t + [c])[d..n] == t[d..n] && (t + [c])[n..] == t[n..] + [c]
  {
  }

  lemma AppendAssoc(a: string, b: string, c: string)
    ensures a + (b + c) == a + b + c
  {
  }

  /** Appending a character that is not a digit (the `+= '.'` of the dot key)
      appends it to the display text as well. */
  lemma FormatAppend(t: string, c: char)
    requires t != "" && !IsDigit(c)
    ensures FormatExpressionForDisplay(t + [c]) == FormatExpressionForDisplay(t) + [c]
  {
    GroupTokensAppend(t, c);
  }
}
