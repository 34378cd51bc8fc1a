/** The checks `solveEquation` makes before it solves anything
    (calculator.js:410-419): the expression must hold exactly one `=`, both
    trimmed sides must be non-empty, and an x must occur on one of them. */
module Equation {
  import opened Chars
  import opened Wrappers

  /** The four alerts, in the order the checks run. */
  datatype EquationError = NoEqualsSign | TooManyEqualsSigns | EmptySide | NoVariable

  /** The two trimmed sides of the equation, or the alert it stops at. */
  function ValidateEquation(raw: string): (r: Result<(string, string), EquationError>)
    ensures r.Ok? ==> r.value.0 != [] && r.value.1 != []
    ensures r.Ok? ==> '=' !in r.value.0 && '=' !in r.value.1
    ensures r.Ok? ==> HasX(r.value.0) || HasX(r.value.1)
  {
    if '=' !in raw then Err(NoEqualsSign)
    else
      var parts := Split(raw, '=');
      if |parts| != 2 then Err(TooManyEqualsSigns)
      else
        var left, right := Trim(parts[0]), Trim(parts[1]);
        assert '=' !in parts[0] && '=' !in parts[1];
        TrimSubset(parts[0], '=');
        TrimSubset(parts[1], '=');
        if left == "" || right == "" then Err(EmptySide)
        else if !HasX(left) && !HasX(right) then Err(NoVariable)
        else Ok((left, right))
  }

  /** Trimming removes only white space. */
  lemma TrimSubset(s: string, c: char)
    requires !IsSpace(c)
    ensures c in Trim(s) <==> c in s
  {
    var r := Trim(s);
    var i, j :| 0 <= i <= j <= |s| && r == s[i..j]
                && (forall k :: 0 <= k < i ==> IsSpace(s[k]))
                && (forall k :: j <= k < |s| ==> IsSpace(s[k]));
    assert forall k :: 0 <= k < i || j <= k < |s| ==> s[k] != c;
    SliceHolds(s, i, j, c);
  }

  /** A character that occurs neither before i nor from j on occurs in
      s[i..j] exactly when it occurs in s. */
  lemma SliceHolds(s: string, i: nat, j: nat, c: char)
    requires i <= j <= |s|
    requires forall k :: 0 <= k < i || j <= k < |s| ==> s[k] != c
    ensures c in s[i..j] <==> c in s
  {
    var r := s[i..j];
    if c in s {
      var k :| 0 <= k < |s| && s[k] == c;
      assert r[k - i] == c;
    }
    if c in r {
      var k :| 0 <= k < |r| && r[k] == c;
      assert s[i + k] == c;
    }
  }

  /** Trimming leaves nothing exactly when the text is all white space. */
  lemma TrimEmpty(s: string)
    ensures Trim(s) == [] <==> forall k :: 0 <= k < |s| ==> IsSpace(s[k])
  {
    var r := Trim(s);
    var i, j :| 0 <= i <= j <= |s| && r == s[i..j]
                && (forall k :: 0 <= k < i ==> IsSpace(s[k]))
                && (forall k :: j <= k < |s| ==> IsSpace(s[k]));
    if r == [] {
      forall k | 0 <= k < |s| ensures IsSpace(s[k]) {
        assert k < i || j <= k;
      }
    } else {
      assert !IsSpace(r[0]) && r[0] == s[i];
    }
  }

  /** With a single `=`, the two parts are the text before and after it. */
  lemma SplitOnce(raw: string)
    requires Count(raw, '=') == 1
    ensures Split(raw, '=') == [Before(raw, '='), After(raw, '=')]
  {
    var b := After(raw, '=');
    AfterOnce(raw, '=');
    assert Split(b, '=') == [b];
  }

  /** Nothing after the only c is another c. */
  lemma AfterOnce(s: string, c: char)
    requires Count(s, c) == 1
    ensures c !in After(s, c)
  {
    var a, b := Before(s, c), After(s, c);
    assert s == a + ([c] + b);
    CountConcat(a, [c] + b, c);
    CountConcat([c], b, c);
    CountOne(c);
  }

  lemma CountOne(c: char)
    ensures Count([c], c) == 1
  {
    assert [c][1..] == [];
  }

  predicate AllSpace(s: string) { forall k :: 0 <= k < |s| ==> IsSpace(s[k]) }

  /** The checks after the split, for an expression with one `=`. */
  lemma ValidateOnce(raw: string)
    requires Count(raw, '=') == 1
    ensures var l, r := Trim(Before(raw, '=')), Trim(After(raw, '='));
      ValidateEquation(raw)
        == if l == "" || r == "" then Err(EmptySide)
           else if !HasX(l) && !HasX(r) then Err(NoVariable)
           else Ok((l, r))
  {
    SplitOnce(raw);
  }

  /** No `=`, or more than one, is refused before anything else. */
  lemma ValidateEquationEquals(raw: string)
    ensures ValidateEquation(raw) == Err(NoEqualsSign) <==> Count(raw, '=') == 0
    ensures ValidateEquation(raw) == Err(TooManyEqualsSigns) <==> Count(raw, '=') >= 2
  {
    if Count(raw, '=') == 1 {
      ValidateOnce(raw);
    }
  }

  /** With one `=`, a side that is blank is refused, and otherwise an
      equation without an x anywhere in it. */
  lemma ValidateEquationSides(raw: string)
    requires Count(raw, '=') == 1
    ensures ValidateEquation(raw) == Err(EmptySide)
        <==> (AllSpace(Before(raw, '=')) || AllSpace(After(raw, '=')))
    ensures !AllSpace(Before(raw, '=')) && !AllSpace(After(raw, '=')) ==>
      (ValidateEquation(raw) == Err(NoVariable) <==> !HasX(raw))
  {
    var a, b := Before(raw, '='), After(raw, '=');
    ValidateOnce(raw);
    TrimEmpty(a);
    TrimEmpty(b);
    HasXTrim(a);
    HasXTrim(b);
    HasXAround(raw, a, b);
  }

  lemma HasXTrim(s: string)
    ensures HasX(Trim(s)) <==> HasX(s)
  {
    TrimSubset(s, 'x');
    TrimSubset(s, 'X');
  }

  lemma HasXAround(raw: string, a: string, b: string)
    requires raw == a + "=" + b
    ensures HasX(raw) <==> HasX(a) || HasX(b)
  {
    assert raw == (a + "=") + b;
  }

  /** An accepted equation consists of its two sides around its only `=`,
      each side trimmed of its white space. */
  lemma ValidateEquationAccepted(raw: string)
    requires ValidateEquation(raw).Ok?
    ensures Count(raw, '=') == 1
    ensures raw == Before(raw, '=') + "=" + After(raw, '=')
    ensures ValidateEquation(raw).value == (Trim(Before(raw, '=')), Trim(After(raw, '=')))
  {
    ValidateEquationEquals(raw);
    ValidateOnce(raw);
  }
}
