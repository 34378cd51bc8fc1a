/** The expression being typed, as the display shows it: the key handlers
    `append` (calculator.js:190-269), `cleardisplay` (calculator.js:272-276)
    and `backspace` (calculator.js:279-292), and `setDisplayFromRaw`
    (calculator.js:49-56). Every handler reads the display text, deletes its
    thousands separators to get the raw expression, decides on the raw
    expression and writes the display text back. */
module ExpressionBuffer {
  import opened Chars
  import opened Grouping

  /** `/^[+\-*\/%]$/`: the operator keys. */
  predicate IsOperator(c: char) { c == '+' || c == '-' || c == '*' || c == '/' || c == '%' }

  /** `/[-+*\/%]$/`: the expression ends with an operator. */
  predicate EndsWithOperator(t: string) { |t| > 0 && IsOperator(t[|t| - 1]) }

  /** `txt.slice(-1)` is a digit or a closing parenthesis. */
  predicate EndsWithDigitOrClose(t: string) { |t| > 0 && (IsDigit(t[|t| - 1]) || t[|t| - 1] == ')') }

  /** `t.split(/[+\-*\/%]/).pop()`: the text after the last operator. */
  function LastSegment(t: string): (r: string)
    ensures |r| <= |t| && r == t[|t| - |r|..]
    ensures forall k :: 0 <= k < |r| ==> !IsOperator(r[k])
    ensures |r| < |t| ==> IsOperator(t[|t| - |r| - 1])
  {
    if t == [] || IsOperator(t[|t| - 1]) then []
    else LastSegment(t[..|t| - 1]) + [t[|t| - 1]]
  }

  /** `t.replace(/[-+*\/%]+$/, '')`: t without its trailing run of operators. */
  function StripOperatorRun(t: string): (r: string)
    ensures r <= t && !EndsWithOperator(r)
    ensures forall k :: |r| <= k < |t| ==> IsOperator(t[k])
  {
    if EndsWithOperator(t) then StripOperatorRun(t[..|t| - 1]) else t
  }

  /** What a key press does to the display. */
  datatype Edit =
    | Ignore              // the display is left as it is
    | SetRaw(raw: string) // `setDisplayFromRaw(raw)`
    | AppendDot           // `display.textContent += '.'`

  /** The decision `append(v)` takes on the raw expression t, branch by branch.
      Only the parenthesis and dot keys can be ignored, only the dot key
      appends in place, and whatever is written is never empty. */
  function AppendEdit(t: string, v: char): (r: Edit)
    ensures r == Ignore ==> v == ')' || v == '.'
    ensures r == AppendDot ==> v == '.'
    ensures r.SetRaw? ==> r.raw != ""
  {
    var zero := t == "0" || t == "";
    if v == '(' then
      if zero then SetRaw("(")
      else if EndsWithDigitOrClose(t) then SetRaw(t + "*(")
      else SetRaw(t + "(")
    else if v == ')' then
      if Count(t, '(') > Count(t, ')') && !(|t| > 0 && t[|t| - 1] == '(')
         && !EndsWithOperator(t) && t != "0"
      then SetRaw(t + ")")
      else Ignore
    else if zero && IsDigit(v) then SetRaw([v])
    else if v == '.' then
      if zero then SetRaw("0.")
      else if '.' !in LastSegment(t) then AppendDot
      else Ignore
    else if IsOperator(v) then
      if EndsWithOperator(t) then
        // the unary-minus guard: t ends with an operator, so it is never "0" or ""
        if zero && v == '-' then SetRaw("-")
        else SetRaw(StripOperatorRun(t) + [v])
      else SetRaw(t + [v])
    else if t == "0" then SetRaw([v])
    else SetRaw(t + [v])
  }

  /** The raw expression after `append(v)`, read off the display again. */
  function NextRaw(t: string, v: char): string {
    match AppendEdit(t, v)
    case Ignore => t
    case SetRaw(r) => r
    case AppendDot => t + "."
  }

  /** The raw expression `backspace` writes back: the last character goes,
      and what would be empty or a lone minus sign becomes "0". */
  function BackspacedRaw(t: string): (r: string)
    ensures r != ""
    ensures r == "0" || (|t| > 0 && r + [t[|t| - 1]] == t)
    ensures |t| <= 1 || t[..|t| - 1] == "-" ==> r == "0"
  {
    if |t| <= 1 then "0"
    else
      var u := t[..|t| - 1];
      if u == "" || u == "-" then "0" else u
  }

  // ---------------------------------------------------------------------------
  // The display

  class Display {
    /** `display.textContent`. */
    var text: string

    constructor(content: string)
      ensures text == content
    {
      text := content;
    }

    /** `display.textContent.replace(/,/g, '')`. */
    function Raw(): string
      reads this
    {
      RemoveCommas(text)
    }

    /** The display shows its raw expression formatted. */
    predicate InDisplayForm()
      reads this
    {
      text == FormatExpressionForDisplay(Raw())
    }

    method SetDisplayFromRaw(raw: string)
      modifies this
      ensures text == FormatExpressionForDisplay(raw)
      ensures Raw() == if raw == "" then "0" else RemoveCommas(raw)
      ensures ',' !in raw ==> InDisplayForm()
    {
      text := FormatExpressionForDisplay(raw);
      if raw == "" {
        FormatZero();
      }
    }

    /** `append(v)`: the key decides on the raw expression as AppendEdit
        does, the display then reads back NextRaw, and a display in display
        form holding a well-formed expression stays so. */
    method Append(v: char)
      modifies this
      ensures match AppendEdit(old(Raw()), v)
              case Ignore => text == old(text)
              case SetRaw(r) => text == FormatExpressionForDisplay(r)
              case AppendDot => text == old(text) + "."
      ensures Raw() == RemoveCommas(NextRaw(old(Raw()), v))
      ensures v != ',' && old(InDisplayForm()) ==> InDisplayForm()
      ensures v != ',' && old(WellFormed(Raw())) ==> WellFormed(Raw())
    {
      var txt := Raw();
      ghost var before := text;
      AppendBranches(v);
      AppendExit(txt, v, before, text);
    }

    /** The branches of `append(v)`, each of which ends by writing the display. */
    method AppendBranches(v: char)
      modifies this
      ensures match AppendEdit(old(Raw()), v)
              case Ignore => text == old(text)
              case SetRaw(r) => text == FormatExpressionForDisplay(r)
              case AppendDot => text == old(text) + "."
    {
      var txt := Raw();
      var zero := txt == "0" || txt == "";
      if v == '(' || v == ')' {
        if v == '(' {
          if zero {
            SetDisplayFromRaw("(");
          } else if EndsWithDigitOrClose(txt) {
            SetDisplayFromRaw(txt + "*(");
          } else {
            SetDisplayFromRaw(txt + "(");
          }
        } else {
          var open := Count(txt, '(');
          var close := Count(txt, ')');
          if open > close && !(|txt| > 0 && txt[|txt| - 1] == '(') && !EndsWithOperator(txt) && txt != "0" {
            SetDisplayFromRaw(txt + ")");
          }
        }
        return;
      }
      if zero && IsDigit(v) {
        SetDisplayFromRaw([v]);
        return;
      }
      if v == '.' {
        if zero {
          SetDisplayFromRaw("0.");
          return;
        }
        var last := LastSegment(txt);
        if '.' !in last {
          text := text + ".";
        }
        return;
      }
      if IsOperator(v) {
        if EndsWithOperator(txt) {
          if zero && v == '-' {
            SetDisplayFromRaw("-");
          } else {
            SetDisplayFromRaw(StripOperatorRun(txt) + [v]);
          }
        } else {
          SetDisplayFromRaw(txt + [v]);
        }
        return;
      }
      if txt == "0" {
        SetDisplayFromRaw([v]);
      } else {
        SetDisplayFromRaw(txt + [v]);
      }
    }

    method Backspace()
      modifies this
      ensures text == FormatExpressionForDisplay(BackspacedRaw(old(Raw())))
      ensures Raw() == BackspacedRaw(old(Raw()))
      ensures InDisplayForm()
      ensures old(WellFormed(Raw())) ==> WellFormed(Raw())
    {
      var txt := Raw();
      if WellFormed(txt) {
        BackspaceWellFormed(txt);
      }
      if |txt| <= 1 {
        text := "0";
        FormatZero();
        return;
      }
      txt := txt[..|txt| - 1];
      if txt == "" || txt == "-" {
        txt := "0";
      }
      SetDisplayFromRaw(txt);
    }

    method Clear()
      modifies this
      ensures text == "0" && Raw() == "0" && InDisplayForm()
    {
      text := "0";
      FormatZero();
    }
  }

  // ---------------------------------------------------------------------------
  // Properties of the raw expression

  /** The display text of "0" is "0". */
  lemma FormatZero()
    ensures FormatExpressionForDisplay("0") == "0"
    ensures RemoveCommas("0") == "0"
  {
    assert NumberTokenLength("0") == 1 by {
      assert DigitRun("0", 0) == 1 + DigitRun("0", 1);
    }
    assert "0"[..1] == "0" && "0"[1..] == [];
    GroupNumberStringPlain("0");
  }

  /** A key either leaves the expression as it is or becomes its last
      character; a non-empty expression stays non-empty, and no comma appears
      unless the key is one. */
  lemma AppendResult(t: string, v: char)
    ensures var r := NextRaw(t, v); r == t || (|r| > 0 && r[|r| - 1] == v)
    ensures t != "" ==> NextRaw(t, v) != ""
    ensures ',' !in t && v != ',' ==> ',' !in NextRaw(t, v)
  {
    if AppendEdit(t, v).SetRaw? && IsOperator(v) && EndsWithOperator(t) {
      var p := StripOperatorRun(t);
      assert forall k :: 0 <= k < |p| ==> p[k] == t[k];
    }
  }

  // ---------------------------------------------------------------------------
  // Invariants of the raw expression

  /** No prefix closes more parentheses than it opens. */
  predicate PrefixBalanced(t: string)
    decreases |t|
  {
    Count(t, ')') <= Count(t, '(') && (t == [] || PrefixBalanced(t[..|t| - 1]))
  }

  /** No number holds two dots: before every dot, the text since the last
      operator has no dot. */
  predicate DotsSeparated(t: string)
    decreases |t|
  {
    t == [] ||
    (DotsSeparated(t[..|t| - 1]) && (t[|t| - 1] == '.' ==> '.' !in LastSegment(t[..|t| - 1])))
  }

  /** No two operators stand next to each other. */
  predicate NoOperatorPair(t: string)
    decreases |t|
  {
    |t| < 2 ||
    (NoOperatorPair(t[..|t| - 1]) && !(IsOperator(t[|t| - 2]) && IsOperator(t[|t| - 1])))
  }

  /** What the handlers maintain on the raw expression. */
  predicate WellFormed(t: string) {
    t != "" && ',' !in t && PrefixBalanced(t) && DotsSeparated(t) && NoOperatorPair(t)
  }

  /** PrefixBalanced, DotsSeparated and NoOperatorPair mean what they say
      of every prefix and every position. */
  lemma InvariantsMeaning(t: string)
    ensures PrefixBalanced(t) <==> forall j :: 0 <= j <= |t| ==> Count(t[..j], ')') <= Count(t[..j], '(')
    ensures DotsSeparated(t) <==> forall j :: 0 <= j < |t| && t[j] == '.' ==> '.' !in LastSegment(t[..j])
    ensures NoOperatorPair(t) <==> forall k :: 0 < k < |t| ==> !(IsOperator(t[k - 1]) && IsOperator(t[k]))
  {
    BalancedMeaning(t);
    DotsMeaning(t);
    PairsMeaning(t);
  }

  lemma {:induction false} BalancedMeaning(t: string)
    ensures PrefixBalanced(t) <==> forall j :: 0 <= j <= |t| ==> Count(t[..j], ')') <= Count(t[..j], '(')
    decreases |t|
  {
    if t != [] {
      var p := t[..|t| - 1];
      BalancedMeaning(p);
      assert t[..|t|] == t;
      if PrefixBalanced(t) {
        forall j | 0 <= j <= |t| ensures Count(t[..j], ')') <= Count(t[..j], '(') {
          if j < |t| {
            assert p[..j] == t[..j];
          }
        }
      }
      if forall j :: 0 <= j <= |t| ==> Count(t[..j], ')') <= Count(t[..j], '(') {
        forall j | 0 <= j <= |p| ensures Count(p[..j], ')') <= Count(p[..j], '(') {
          assert p[..j] == t[..j];
        }
      }
    } else {
      assert t[..0] == t;
    }
  }

  lemma {:induction false} DotsMeaning(t: string)
    ensures DotsSeparated(t) <==> forall j :: 0 <= j < |t| && t[j] == '.' ==> '.' !in LastSegment(t[..j])
    decreases |t|
  {
    if t != [] {
      var p := t[..|t| - 1];
      DotsMeaning(p);
      assert forall j :: 0 <= j <= |p| ==> p[..j] == t[..j];
      assert forall k :: 0 <= k < |p| ==> p[k] == t[k];
    }
  }

  lemma {:induction false} PairsMeaning(t: string)
    ensures NoOperatorPair(t) <==> forall k :: 0 < k < |t| ==> !(IsOperator(t[k - 1]) && IsOperator(t[k]))
    decreases |t|
  {
    if |t| >= 2 {
      var p := t[..|t| - 1];
      PairsMeaning(p);
      assert forall k :: 0 <= k < |p| ==> p[k] == t[k];
    }
  }

  /** The invariants hold of every prefix. */
  lemma {:induction false} PrefixKeeps(t: string, k: nat)
    requires k <= |t|
    ensures PrefixBalanced(t) ==> PrefixBalanced(t[..k])
    ensures DotsSeparated(t) ==> DotsSeparated(t[..k])
    ensures NoOperatorPair(t) ==> NoOperatorPair(t[..k])
    decreases |t|
  {
    if k == |t| {
      assert t[..k] == t;
    } else {
      var p := t[..|t| - 1];
      PrefixKeeps(p, k);
      assert p[..k] == t[..k];
    }
  }

  /** Appending one character keeps each invariant unless the character is
      the one that invariant guards against. */
  lemma StepKeeps(t: string, c: char)
    ensures PrefixBalanced(t) && (c != ')' || Count(t, '(') > Count(t, ')')) ==> PrefixBalanced(t + [c])
    ensures DotsSeparated(t) && (c != '.' || '.' !in LastSegment(t)) ==> DotsSeparated(t + [c])
    ensures NoOperatorPair(t) && !(EndsWithOperator(t) && IsOperator(c)) ==> NoOperatorPair(t + [c])
  {
    if PrefixBalanced(t) && (c != ')' || Count(t, '(') > Count(t, ')')) {
      StepBalanced(t, c);
    }
    if DotsSeparated(t) && (c != '.' || '.' !in LastSegment(t)) {
      StepDots(t, c);
    }
    if NoOperatorPair(t) && !(EndsWithOperator(t) && IsOperator(c)) {
      StepPairs(t, c);
    }
  }

  lemma StepBalanced(t: string, c: char)
    requires PrefixBalanced(t) && (c != ')' || Count(t, '(') > Count(t, ')'))
    ensures PrefixBalanced(t + [c])
  {
    assert (t + [c])[..|t|] == t;
    CountConcat(t, [c], '(');
    CountConcat(t, [c], ')');
  }

  lemma StepDots(t: string, c: char)
    requires DotsSeparated(t) && (c != '.' || '.' !in LastSegment(t))
    ensures DotsSeparated(t + [c])
  {
    assert (t + [c])[..|t|] == t;
  }

  lemma StepPairs(t: string, c: char)
    requires NoOperatorPair(t) && !(EndsWithOperator(t) && IsOperator(c))
    ensures NoOperatorPair(t + [c])
  {
    assert (t + [c])[..|t|] == t;
  }

  /** `append` keeps each invariant of the raw expression. */
  lemma AppendKeeps(t: string, v: char)
    ensures PrefixBalanced(t) ==> PrefixBalanced(NextRaw(t, v))
    ensures DotsSeparated(t) ==> DotsSeparated(NextRaw(t, v))
    ensures NoOperatorPair(t) ==> NoOperatorPair(NextRaw(t, v))
  {
    if PrefixBalanced(t) {
      AppendKeepsBalance(t, v);
    }
    if DotsSeparated(t) {
      AppendKeepsDots(t, v);
    }
    if NoOperatorPair(t) {
      AppendKeepsPairs(t, v);
    }
  }

  lemma AppendKeepsBalance(t: string, v: char)
    requires PrefixBalanced(t)
    ensures PrefixBalanced(NextRaw(t, v))
  {
    var zero := t == "0" || t == "";
    var e: string := [];
    if v == '(' {
      if zero {
        assert NextRaw(t, v) == e + [v];
        StepBalanced(e, v);
      } else if EndsWithDigitOrClose(t) {
        assert NextRaw(t, v) == t + ['*'] + [v];
        StepBalanced(t, '*');
        StepBalanced(t + ['*'], v);
      } else {
        assert NextRaw(t, v) == t + [v];
        StepBalanced(t, v);
      }
    } else if v == ')' {
      if AppendEdit(t, v).SetRaw? {
        assert NextRaw(t, v) == t + [v];
        StepBalanced(t, v);
      } else {
        assert NextRaw(t, v) == t;
      }
    } else if zero && IsDigit(v) {
      assert NextRaw(t, v) == e + [v];
      StepBalanced(e, v);
    } else if v == '.' {
      if zero {
        assert NextRaw(t, v) == "0.";
        ZeroDotWellFormed();
      } else {
        assert NextRaw(t, v) == t + [v] || NextRaw(t, v) == t;
        StepBalanced(t, v);
      }
    } else if IsOperator(v) && EndsWithOperator(t) {
      var p := StripOperatorRun(t);
      assert NextRaw(t, v) == p + [v];
      PrefixKeeps(t, |p|);
      assert t[..|p|] == p;
      StepBalanced(p, v);
    } else if IsOperator(v) || t != "0" {
      assert NextRaw(t, v) == t + [v];
      StepBalanced(t, v);
    } else {
      assert NextRaw(t, v) == e + [v];
      StepBalanced(e, v);
    }
  }

  lemma AppendKeepsDots(t: string, v: char)
    requires DotsSeparated(t)
    ensures DotsSeparated(NextRaw(t, v))
  {
    var zero := t == "0" || t == "";
    if v == '(' {
      if zero {
        StepDots("", '(');
        assert "" + ['('] == "(";
      } else if EndsWithDigitOrClose(t) {
        StepDots(t, '*');
        StepDots(t + "*", '(');
        assert t + "*" + "(" == t + "*(";
      } else {
        StepDots(t, '(');
      }
    } else if v == ')' {
      StepDots(t, v);
    } else if zero && IsDigit(v) {
      StepDots("", v);
    } else if v == '.' {
      if zero {
        ZeroDotWellFormed();
      } else {
        if '.' !in LastSegment(t) {
          StepDots(t, v);
        }
      }
    } else if IsOperator(v) && EndsWithOperator(t) {
      var p := StripOperatorRun(t);
      PrefixKeeps(t, |p|);
      assert t[..|p|] == p;
      StepDots(p, v);
    } else if IsOperator(v) || t != "0" {
      StepDots(t, v);
    } else {
      StepDots("", v);
    }
  }

  lemma AppendKeepsPairs(t: string, v: char)
    requires NoOperatorPair(t)
    ensures NoOperatorPair(NextRaw(t, v))
  {
    var zero := t == "0" || t == "";
    if v == '(' {
      if zero {
        StepPairs("", '(');
        assert "" + ['('] == "(";
      } else if EndsWithDigitOrClose(t) {
        StepPairs(t, '*');
        StepPairs(t + "*", '(');
        assert t + "*" + "(" == t + "*(";
      } else {
        StepPairs(t, '(');
      }
    } else if v == ')' {
      StepPairs(t, v);
    } else if zero && IsDigit(v) {
      StepPairs("", v);
    } else if v == '.' {
      if zero {
        ZeroDotWellFormed();
      } else {
        StepPairs(t, v);
      }
    } else if IsOperator(v) && EndsWithOperator(t) {
      var p := StripOperatorRun(t);
      PrefixKeeps(t, |p|);
      assert t[..|p|] == p;
      StepPairs(p, v);
    } else if IsOperator(v) || t != "0" {
      StepPairs(t, v);
    } else {
      StepPairs("", v);
    }
  }

  /** `append` keeps the raw expression well formed, so the display never
      becomes empty. */
  lemma AppendWellFormed(t: string, v: char)
    requires WellFormed(t) && v != ','
    ensures WellFormed(NextRaw(t, v))
  {
    AppendKeeps(t, v);
    AppendResult(t, v);
  }

  /** What the display holds after `append` is well formed when the buffer
      before it was. */
  lemma AppendKeepsWellFormed(t: string, v: char, raw: string)
    requires raw == RemoveCommas(NextRaw(t, v))
    ensures v != ',' && WellFormed(t) ==> WellFormed(raw)
  {
    if v != ',' && WellFormed(t) {
      AppendWellFormed(t, v);
      AppendResult(t, v);
    }
  }

  /** What `append` leaves on the display, whichever branch it takes: the
      raw expression it reads back is NextRaw, and the display form and the
      invariants survive. */
  lemma AppendExit(txt: string, v: char, before: string, after: string)
    requires txt == RemoveCommas(before)
    requires match AppendEdit(txt, v)
             case Ignore => after == before
             case SetRaw(r) => after == FormatExpressionForDisplay(r)
             case AppendDot => after == before + "."
    ensures RemoveCommas(after) == RemoveCommas(NextRaw(txt, v))
    ensures v != ',' && before == FormatExpressionForDisplay(txt) ==>
              after == FormatExpressionForDisplay(RemoveCommas(after))
    ensures v != ',' && WellFormed(txt) ==> WellFormed(RemoveCommas(after))
  {
    AppendResult(txt, v);
    if AppendEdit(txt, v) == AppendDot {
      RemoveCommasConcat(before, ".");
      if before == FormatExpressionForDisplay(txt) {
        FormatAppend(txt, '.');
      }
    }
    AppendKeepsWellFormed(txt, v, RemoveCommas(after));
  }

  /** `backspace` keeps the raw expression well formed. */
  lemma BackspaceWellFormed(t: string)
    requires WellFormed(t)
    ensures WellFormed(BackspacedRaw(t))
  {
    var r := BackspacedRaw(t);
    if r != "0" {
      PrefixKeeps(t, |t| - 1);
      assert t[..|t| - 1] == r;
    } else {
      StepKeeps("", '0');
    }
  }

  /** "0.", what the dot key gives on "0", is well formed. */
  lemma ZeroDotWellFormed()
    ensures WellFormed("0.")
  {
    DigitDotWellFormed("0");
    assert "0" + ['.'] == "0.";
  }

  lemma DigitDotWellFormed(d: string)
    requires |d| == 1 && IsDigit(d[0])
    ensures WellFormed(d + ['.'])
  {
    DigitWellFormed(d);
    StepBalanced(d, '.');
    StepDots(d, '.');
    StepPairs(d, '.');
  }

  /** A single digit is well formed and is its own last segment. */
  lemma DigitWellFormed(d: string)
    requires |d| == 1 && IsDigit(d[0])
    ensures WellFormed(d) && LastSegment(d) == d
  {
    DigitLastSegment(d);
    DigitInvariants(d);
  }

  lemma DigitLastSegment(d: string)
    requires |d| == 1 && IsDigit(d[0])
    ensures LastSegment(d) == d
  {
    assert d[..0] == [];
  }

  lemma DigitInvariants(d: string)
    requires |d| == 1 && IsDigit(d[0])
    ensures WellFormed(d)
  {
    assert d[..0] == [];
    assert d[1..] == [];
  }

  /** The display a page starts from, "0", is well formed. */
  lemma ZeroWellFormed()
    ensures WellFormed("0")
  {
    DigitWellFormed("0");
  }

  // ---------------------------------------------------------------------------
  // The key rules

  /** A closing parenthesis is added exactly when one is still open and the
      expression is neither "0" nor ends with an operator or an opening
      parenthesis; otherwise the key is ignored. */
  lemma CloseParenRule(t: string)
    ensures NextRaw(t, ')') == t + ")" <==>
      (Count(t, '(') > Count(t, ')') && !(|t| > 0 && t[|t| - 1] == '(')
       && !EndsWithOperator(t) && t != "0")
    ensures NextRaw(t, ')') == t || NextRaw(t, ')') == t + ")"
  {
    assert |t + ")"| != |t|;
  }

  /** An opening parenthesis adds one `(` and no `)`; the character before
      it is never a digit or `)`, because a `*` is put in between; and what
      stands before it is the expression, or that with the `*`, or nothing
      when the expression was "0". */
  lemma OpenParenRule(t: string)
    ensures var r := NextRaw(t, '(');
      && |r| > 0 && r[|r| - 1] == '('
      && !EndsWithDigitOrClose(r[..|r| - 1])
      && (r[..|r| - 1] == t || r[..|r| - 1] == t + "*" || (r == "(" && (t == "0" || t == "")))
      && (t != "0" ==> Count(r, '(') == Count(t, '(') + 1 && Count(r, ')') == Count(t, ')'))
    ensures t == "0" || t == "" ==> NextRaw(t, '(') == "("
    ensures t != "0" && t != "" ==>
      NextRaw(t, '(') == if EndsWithDigitOrClose(t) then t + "*(" else t + "("
  {
    OpenParenResult(t);
    OpenParenShape(t, NextRaw(t, '('));
  }

  lemma OpenParenShape(t: string, r: string)
    requires t == "0" || t == "" ==> r == "("
    requires t != "0" && t != "" ==> r == if EndsWithDigitOrClose(t) then t + "*(" else t + "("
    ensures && |r| > 0 && r[|r| - 1] == '('
      && !EndsWithDigitOrClose(r[..|r| - 1])
      && (r[..|r| - 1] == t || r[..|r| - 1] == t + "*" || (r == "(" && (t == "0" || t == "")))
      && (t != "0" ==> Count(r, '(') == Count(t, '(') + 1 && Count(r, ')') == Count(t, ')'))
  {
    var p := if t == "0" || t == "" then [] else if EndsWithDigitOrClose(t) then t + "*" else t;
    assert r == p + "(";
    OpenParenCounts(p);
    if t != "0" {
      OpenParenPrefixCounts(t, p);
    }
  }

  lemma OpenParenPrefixCounts(t: string, p: string)
    requires (t == "" && p == []) || p == t + "*" || p == t
    ensures Count(p, '(') == Count(t, '(') && Count(p, ')') == Count(t, ')')
  {
    if p == t + "*" {
      CountConcat(t, "*", '(');
      CountConcat(t, "*", ')');
    }
  }

  /** The text the open-parenthesis key leaves. */
  lemma OpenParenResult(t: string)
    ensures t == "0" || t == "" ==> NextRaw(t, '(') == "("
    ensures t != "0" && t != "" ==>
      NextRaw(t, '(') == if EndsWithDigitOrClose(t) then t + "*(" else t + "("
  {
  }

  lemma OpenParenCounts(p: string)
    ensures var r := p + "(";
      && r[..|r| - 1] == p
      && Count(r, '(') == Count(p, '(') + 1 && Count(r, ')') == Count(p, ')')
  {
    CountConcat(p, "(", '(');
    CountConcat(p, "(", ')');
  }

  /** An operator replaces the whole run of operators the expression ends
      with, or is appended when there is none; so the expression never ends
      with two operators. */
  lemma OperatorRule(t: string, v: char)
    requires IsOperator(v)
    ensures NextRaw(t, v) == StripOperatorRun(t) + [v]
    ensures !EndsWithOperator(t) ==> NextRaw(t, v) == t + [v]
    ensures !EndsWithOperator(NextRaw(t, v)[..|NextRaw(t, v)| - 1])
  {
    var r := NextRaw(t, v);
    assert r[..|r| - 1] == StripOperatorRun(t);
  }

  /** The guard that would let a minus sign replace "0" is never true: it
      sits where the expression ends with an operator. A minus typed on the
      display "0" therefore gives "0-". */
  lemma UnaryMinusGuardUnreachable(t: string)
    ensures EndsWithOperator(t) ==> t != "0" && t != ""
    ensures NextRaw("0", '-') == "0-"
  {
  }

  /** A digit replaces a display of "0" (or nothing) and is appended to
      anything else. */
  lemma DigitRule(t: string, d: char)
    requires IsDigit(d)
    ensures NextRaw(t, d) == if t == "0" || t == "" then [d] else t + [d]
  {
  }

  /** Any other key (`x`, `=`, a letter) replaces a display of "0" and is
      appended to anything else, the empty buffer included. */
  lemma DefaultKeyRule(t: string, v: char)
    requires !IsDigit(v) && v != '.' && !IsOperator(v) && v != '(' && v != ')'
    ensures NextRaw(t, v) == if t == "0" then [v] else t + [v]
  {
  }

  /** A dot is appended exactly when the number being typed has none yet; on
      "0" (or nothing) it gives "0."; otherwise the key is ignored. */
  lemma DotRule(t: string)
    ensures t == "0" || t == "" ==> NextRaw(t, '.') == "0."
    ensures t != "0" && t != "" ==>
      (NextRaw(t, '.') == t + "." <==> '.' !in LastSegment(t))
    ensures t != "0" && t != "" && '.' in LastSegment(t) ==> NextRaw(t, '.') == t
  {
    assert |t + "."| != |t|;
  }

  /** Deleting the character just typed gives the expression back. */
  lemma BackspaceUndoes(t: string, c: char)
    requires t != "" && t != "-"
    ensures BackspacedRaw(t + [c]) == t
  {
    assert (t + [c])[..|t|] == t;
  }

  /** Backspace after a digit key, or after an operator key on an expression
      that does not end with one, restores the expression. */
  lemma AppendThenBackspace(t: string, v: char)
    requires t != "0" && t != "" && t != "-"
    requires IsDigit(v) || (IsOperator(v) && !EndsWithOperator(t))
    ensures BackspacedRaw(NextRaw(t, v)) == t
  {
    BackspaceUndoes(t, v);
  }

  /** Backspace on one character, or on a number with a minus sign, shows "0". */
  lemma BackspaceExamples()
    ensures BackspacedRaw("7") == "0"
    ensures BackspacedRaw("-7") == "0"
    ensures BackspacedRaw("") == "0"
    ensures BackspacedRaw("12+") == "12"
  {
    assert "-7"[..1] == "-";
    assert "12+"[..2] == "12";
  }
}
