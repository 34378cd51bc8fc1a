/** `sanitizeForEval` (calculator.js:141-153): the chain of rewrites that turns
    a raw expression into text for the evaluator, ending in an allow-list
    that either accepts the rewritten text or rejects the input (`null`). */
module Sanitizer {
  import opened Chars
  import opened Wrappers

  /** The multiplication and division signs a display may show. */
  const Times: char := '\U{D7}'
  const Divide: char := '\U{F7}'

  /** Characters the first three rewrites replace. */
  predicate IsGlyph(c: char) { c == Times || c == Divide || c == '^' }

  // `[+\-*/.%\s]`: the characters stripped from the end of the expression.
  predicate IsStrippable(c: char) {
    c == '+' || c == '-' || c == '*' || c == '/' || c == '.' || c == '%' || IsSpace(c)
  }

  predicate AllStrippable(s: string) { forall k :: 0 <= k < |s| ==> IsStrippable(s[k]) }

  // `[0-9+\-*/().\s% xX]`: the allow-list.
  predicate IsAllowed(c: char) {
    IsDigit(c) || c == '+' || c == '-' || c == '*' || c == '/' || c == '(' || c == ')'
    || c == '.' || IsSpace(c) || c == '%' || IsX(c)
  }

  // `^[0-9+\-*/().\s% xX]+$`: non-empty and made of allowed characters only.
  predicate AllAllowed(s: string) { |s| > 0 && forall k :: 0 <= k < |s| ==> IsAllowed(s[k]) }

  function GlyphImage(c: char): string {
    if c == Times then "*" else if c == Divide then "/" else if c == '^' then "**" else [c]
  }

  /** `replace(/×/g, '*')`, `replace(/÷/g, '/')` and `replace(/\^/g, '**')`.
      No replacement introduces a character a later one replaces, so the
      three passes are one pass over the characters. */
  function NormalizeGlyphs(s: string): (r: string)
    ensures forall k :: 0 <= k < |r| ==> !IsGlyph(r[k])
    ensures (forall k :: 0 <= k < |s| ==> !IsGlyph(s[k])) ==> r == s
  {
    if s == [] then []
    else
      assert forall k :: 0 <= k < |s| - 1 ==> s[1..][k] == s[k + 1];
      GlyphImage(s[0]) + NormalizeGlyphs(s[1..])
  }

  lemma {:induction false} NormalizeGlyphsConcat(a: string, b: string)
    ensures NormalizeGlyphs(a + b) == NormalizeGlyphs(a) + NormalizeGlyphs(b)
  {
    if a == [] {
      assert a + b == b;
    } else {
      assert (a + b)[0] == a[0];
      assert (a + b)[1..] == a[1..] + b;
      NormalizeGlyphsConcat(a[1..], b);
    }
  }

  /** Each caret becomes the exponentiation operator, each × and ÷ its ASCII
      operator, and the surrounding text is rewritten independently. */
  lemma GlyphRewrite(a: string, c: char, b: string)
    requires IsGlyph(c)
    ensures NormalizeGlyphs(a + [c] + b)
         == NormalizeGlyphs(a) + (if c == '^' then "**" else if c == Times then "*" else "/")
            + NormalizeGlyphs(b)
  {
    var x, y, g := NormalizeGlyphs(a), NormalizeGlyphs(b), GlyphImage(c);
    NormalizeGlyphsConcat(a + [c], b);
    NormalizeGlyphsConcat(a, [c]);
    assert [c][0] == c && [c][1..] == [];
    assert NormalizeGlyphs([c]) == g + NormalizeGlyphs([]);
    assert NormalizeGlyphs([c]) == g;
  }

  /** A character that is not a glyph survives the glyph rewrites. */
  lemma {:induction false} NormalizeKeeps(s: string, c: char)
    requires c in s && !IsGlyph(c)
    ensures c in NormalizeGlyphs(s)
  {
    if s[0] != c {
      NormalizeKeeps(s[1..], c);
    }
  }

  /** The glyph rewrites produce nothing but characters of s, `*` and `/`. */
  lemma {:induction false} NormalizeOrigin(s: string, c: char)
    requires c in NormalizeGlyphs(s)
    ensures c in s || c == '*' || c == '/'
  {
    if s != [] {
      var g := GlyphImage(s[0]);
      if c !in g {
        NormalizeOrigin(s[1..], c);
      }
    }
  }

  lemma AllStrippableConcat(a: string, b: string)
    ensures AllStrippable(a + b) <==> AllStrippable(a) && AllStrippable(b)
  {
    assert forall k :: 0 <= k < |a| ==> (a + b)[k] == a[k];
    assert forall k :: 0 <= k < |b| ==> (a + b)[|a| + k] == b[k];
  }

  lemma GlyphImageStrippable(c: char)
    ensures AllStrippable(GlyphImage(c)) <==> IsStrippable(c) || IsGlyph(c)
  {
    var g := GlyphImage(c);
    if !IsGlyph(c) {
      assert g == [c] && g[0] == c;
    } else {
      assert forall k :: 0 <= k < |g| ==> g[k] == '*' || g[k] == '/';
    }
  }

  /** The rewritten text consists of trailing-operator characters only exactly
      when every character of s is one of them or a glyph. */
  lemma {:induction false} NormalizeAllStrippable(s: string)
    ensures AllStrippable(NormalizeGlyphs(s))
        <==> forall k :: 0 <= k < |s| ==> IsStrippable(s[k]) || IsGlyph(s[k])
  {
    if s != [] {
      var g, r := GlyphImage(s[0]), NormalizeGlyphs(s[1..]);
      NormalizeAllStrippable(s[1..]);
      assert NormalizeGlyphs(s) == g + r;
      AllStrippableConcat(g, r);
      GlyphImageStrippable(s[0]);
      assert forall k :: 1 <= k < |s| ==> s[k] == s[1..][k - 1];
    }
  }

  // `replace(/[+\-*/.%\s]+$/g, '')`: the maximal run of trailing operators,
  // dots, percent signs and white space is removed, and nothing else.
  function StripTrailingOperators(s: string): (r: string)
    ensures r <= s
    ensures r == [] || !IsStrippable(r[|r| - 1])
    ensures forall k :: |r| <= k < |s| ==> IsStrippable(s[k])
  {
    if s == [] then []
    else if IsStrippable(s[|s| - 1]) then StripTrailingOperators(s[..|s| - 1])
    else s
  }

  /** Stripping leaves nothing exactly when s is all trailing-operator characters. */
  lemma StripEmpty(s: string)
    ensures StripTrailingOperators(s) == [] <==> AllStrippable(s)
  {
  }

  /** A character that is not stripped survives the stripping. */
  lemma StripKeeps(s: string, c: char)
    requires c in s && !IsStrippable(c)
    ensures c in StripTrailingOperators(s)
  {
    var r := StripTrailingOperators(s);
    var k :| 0 <= k < |s| && s[k] == c;
    assert k < |r|;
    assert r[k] == c;
  }

  /** A match of `(\d+(?:\.\d+)?)%` starts at the beginning of s: the greedy
      number token there is followed by `%`. */
  predicate PercentAt(s: string) {
    |s| > 0 && IsDigit(s[0]) && NumberTokenLength(s) < |s| && s[NumberTokenLength(s)] == '%'
  }

  /** How much of s one step of the scan consumes: a percentage, a run of
      digits where no percentage starts, or one other character. */
  function PercentStep(s: string): (n: nat)
    requires |s| > 0
    ensures 0 < n <= |s|
  {
    if PercentAt(s) then NumberTokenLength(s) + 1
    else if IsDigit(s[0]) then DigitRun(s, 0)
    else 1
  }

  /** What one step of the scan emits. */
  function PercentPiece(s: string): string
    requires |s| > 0
  {
    if PercentAt(s) then "(" + s[..NumberTokenLength(s)] + "/100)" else s[..PercentStep(s)]
  }

  /** `replace(/(\d+(?:\.\d+)?)%/g, '($1/100)')`. A match can only start at
      the start of a run of digits: it is the greedy number token there
      followed by `%`. When a match fails there, it fails inside the run as
      well, so the scan resumes after the run. */
  function PercentToDivision(s: string): string
    decreases |s|
  {
    if s == [] then [] else PercentPiece(s) + PercentToDivision(s[PercentStep(s)..])
  }

  /** The text in front of a percentage cannot extend its number token. */
  predicate EndsClear(a: string) {
    a == [] || (!IsDigit(a[|a| - 1]) && a[|a| - 1] != '.')
  }

  /** A step that starts in a does not look behind a when a does not end
      inside a number. */
  lemma PercentStepPrefix(a: string, b: string)
    requires |a| > 0 && EndsClear(a)
    ensures PercentAt(a + b) == PercentAt(a)
    ensures PercentStep(a + b) == PercentStep(a)
    ensures PercentPiece(a + b) == PercentPiece(a)
  {
    var s := a + b;
    assert s[0] == a[0];
    if IsDigit(a[0]) {
      NumberTokenPrefix(a, b);
      var n := NumberTokenLength(a);
      assert s[n] == a[n];
      DigitRunPrefix(a, b, 0);
      assert s[..n] == a[..n];
    }
    assert s[..PercentStep(a)] == a[..PercentStep(a)];
  }

  /** The rewrite of a text and of what follows it are independent when the
      text does not end inside a number. */
  lemma {:induction false} PercentConcat(a: string, b: string)
    requires EndsClear(a)
    ensures PercentToDivision(a + b) == PercentToDivision(a) + PercentToDivision(b)
    decreases |a|
  {
    if a == [] {
      assert a + b == b;
    } else {
      var n := PercentStep(a);
      PercentStepPrefix(a, b);
      assert (a + b)[n..] == a[n..] + b;
      assert a[n..] == [] || a[n..][|a[n..]| - 1] == a[|a| - 1];
      PercentConcat(a[n..], b);
      PercentConcatStep(PercentPiece(a), PercentToDivision(a[n..] + b),
                        PercentToDivision(a[n..]), PercentToDivision(b));
    }
  }

  lemma PercentConcatStep(p: string, r: string, ra: string, rb: string)
    requires r == ra + rb
    ensures p + r == (p + ra) + rb
  {
  }

  /** Every number literal followed by `%` becomes `(literal/100)`, whatever
      surrounds it. */
  lemma PercentRewrite(a: string, t: string, b: string)
    requires EndsClear(a) && IsNumberLiteral(t)
    ensures PercentToDivision(a + (t + "%" + b))
         == PercentToDivision(a) + ("(" + t + "/100)" + PercentToDivision(b))
  {
    PercentConcat(a, t + "%" + b);
    PercentAtLiteral(t, b);
  }

  lemma PercentAtLiteral(t: string, b: string)
    requires IsNumberLiteral(t)
    ensures PercentToDivision(t + "%" + b) == "(" + t + "/100)" + PercentToDivision(b)
  {
    var u := t + "%" + b;
    NumberTokenAppend(t, '%');
    NumberTokenPrefix(t + "%", b);
    assert u == (t + "%") + b;
    assert u[|t|] == '%';
    assert u[..|t|] == t;
    assert u[|t| + 1..] == b;
    assert PercentAt(u);
  }

  /** Text without `%` passes the rewrite unchanged. */
  lemma {:induction false} PercentIdentity(s: string)
    requires '%' !in s
    ensures PercentToDivision(s) == s
    decreases |s|
  {
    if s != [] {
      var n := PercentStep(s);
      assert !PercentAt(s);
      assert '%' !in s[n..];
      PercentIdentity(s[n..]);
      assert s == s[..n] + s[n..];
    }
  }

  /** The rewrite of non-empty text is non-empty, and ends with the last
      character of the text or with the `)` of a rewritten percentage. */
  lemma {:induction false} PercentEnds(s: string)
    requires |s| > 0
    ensures |PercentToDivision(s)| > 0
    ensures var r := PercentToDivision(s); r[|r| - 1] == s[|s| - 1] || r[|r| - 1] == ')'
    decreases |s|
  {
    var n := PercentStep(s);
    var p := PercentPiece(s);
    var q := PercentToDivision(s[n..]);
    assert PercentToDivision(s) == p + q;
    if n < |s| {
      PercentEnds(s[n..]);
      assert s[n..][|s[n..]| - 1] == s[|s| - 1];
      LastOfConcat(p, q);
    } else if !PercentAt(s) {
      assert p == s && q == [];
      assert p + q == p;
    } else {
      assert q == [];
      assert p + q == p;
    }
  }

  lemma LastOfConcat(p: string, q: string)
    requires |q| > 0
    ensures |p + q| > 0 && (p + q)[|p + q| - 1] == q[|q| - 1]
  {
  }

  /** Non-empty rewritten text does not end with a trailing-operator
      character when its input does not. */
  lemma PercentEndsNotStrippable(t: string, s: string)
    requires s == PercentToDivision(t) && s != []
    requires t == [] || !IsStrippable(t[|t| - 1])
    ensures !IsStrippable(s[|s| - 1])
  {
    PercentEnds(t);
  }

  /** The rewrite starts with `(` at a percentage and with the first
      character of the text otherwise. */
  lemma PercentStarts(s: string)
    requires |s| > 0
    ensures |PercentToDivision(s)| > 0
    ensures PercentToDivision(s)[0] == if PercentAt(s) then '(' else s[0]
  {
  }

  /** No digit stands right before a `%`: every percentage that follows a
      number is rewritten. */
  predicate NoDigitBeforePercent(r: string) {
    forall k :: 0 <= k < |r| - 1 ==> !(IsDigit(r[k]) && r[k + 1] == '%')
  }

  lemma NoDigitBeforePercentConcat(a: string, b: string)
    requires NoDigitBeforePercent(a) && NoDigitBeforePercent(b)
    requires a == [] || b == [] || !IsDigit(a[|a| - 1]) || b[0] != '%'
    ensures NoDigitBeforePercent(a + b)
  {
    var s := a + b;
    forall k | 0 <= k < |s| - 1
      ensures !(IsDigit(s[k]) && s[k + 1] == '%')
    {
      if k + 1 < |a| {
        assert s[k] == a[k] && s[k + 1] == a[k + 1];
      } else if k >= |a| {
        assert s[k] == b[k - |a|] && s[k + 1] == b[k + 1 - |a|];
      }
    }
  }

  /** Inside the number token there are only digits and dots; a token longer
      than its digit run continues with a dot. */
  lemma NumberTokenChars(s: string)
    requires |s| > 0 && IsDigit(s[0])
    ensures forall k :: 0 <= k < NumberTokenLength(s) ==> IsDigit(s[k]) || s[k] == '.'
    ensures NumberTokenLength(s) > DigitRun(s, 0) ==> s[DigitRun(s, 0)] == '.'
  {
  }

  /** The piece emitted by one step has no digit before a `%` and, unless it
      is a rewritten percentage, the next piece does not start with `%`
      right behind a digit. */
  lemma PieceNoDigitBeforePercent(s: string)
    requires |s| > 0
    ensures NoDigitBeforePercent(PercentPiece(s))
    ensures var n := PercentStep(s);
      n < |s| && IsDigit(PercentPiece(s)[|PercentPiece(s)| - 1]) ==> s[n] != '%' && !PercentAt(s[n..])
  {
    var p := PercentPiece(s);
    if PercentAt(s) {
      var n := NumberTokenLength(s);
      NumberTokenChars(s);
      assert forall k :: 0 <= k < n ==> p[k + 1] == s[k];
      assert forall k :: 0 <= k < |p| ==> p[k] != '%';
    } else if IsDigit(s[0]) {
      NumberTokenChars(s);
      var d := DigitRun(s, 0);
      assert forall k :: 0 <= k < d ==> p[k] == s[k];
      if d < |s| {
        assert s[d..][0] == s[d];
      }
    }
  }

  lemma {:induction false} PercentLeavesNoDigitBeforePercent(s: string)
    ensures NoDigitBeforePercent(PercentToDivision(s))
    decreases |s|
  {
    if s != [] {
      var n := PercentStep(s);
      var p := PercentPiece(s);
      PieceNoDigitBeforePercent(s);
      PercentLeavesNoDigitBeforePercent(s[n..]);
      if n < |s| {
        PercentStarts(s[n..]);
        assert s[n..][0] == s[n];
      }
      NoDigitBeforePercentConcat(p, PercentToDivision(s[n..]));
    }
  }

  /** The rewrite produces nothing but characters of s and those of `(…/100)`. */
  lemma {:induction false} PercentOrigin(s: string, c: char)
    requires c in PercentToDivision(s)
    ensures c in s || c == '(' || c == '/' || c == '1' || c == '0' || c == ')'
    decreases |s|
  {
    if s != [] {
      var n := PercentStep(s);
      var p := PercentPiece(s);
      if c in p {
        if PercentAt(s) {
          var m := NumberTokenLength(s);
          assert p == "(" + s[..m] + "/100)";
        } else {
          assert p == s[..n];
        }
      } else {
        PercentOrigin(s[n..], c);
      }
    }
  }

  /** Characters other than digits and `%` survive the rewrite. */
  lemma {:induction false} PercentKeeps(s: string, c: char)
    requires c in s && !IsDigit(c) && c != '%'
    ensures c in PercentToDivision(s)
    decreases |s|
  {
    var k :| 0 <= k < |s| && s[k] == c;
    var n := PercentStep(s);
    var p := PercentPiece(s);
    if PercentAt(s) {
      var m := NumberTokenLength(s);
      if k < m {
        assert p[k + 1] == c;
      } else {
        assert s[n..][k - n] == c;
        PercentKeeps(s[n..], c);
      }
    } else if k < n {
      assert p[k] == c;
    } else {
      assert s[n..][k - n] == c;
      PercentKeeps(s[n..], c);
    }
  }

  /** `sanitizeForEval(raw)`: `Some` of the text handed to the evaluator, or
      `None` for the `null` the source returns. */
  function SanitizeForEval(raw: string): (r: Option<string>)
    ensures r.Some? ==> AllAllowed(r.value)
    ensures r.Some? ==> !IsStrippable(r.value[|r.value| - 1])
  {
    var t := StripTrailingOperators(NormalizeGlyphs(raw));
    var s := PercentToDivision(t);
    if AllAllowed(s) then
      PercentEndsNotStrippable(t, s);
      Some(s)
    else None
  }

  /** Nothing but trailing-operator characters and glyphs. */
  predicate OnlyOperators(raw: string) {
    forall k :: 0 <= k < |raw| ==> IsStrippable(raw[k]) || IsGlyph(raw[k])
  }

  /** A character that is neither allowed nor rewritten to an allowed one. */
  predicate HasForeignChar(raw: string) {
    exists k :: 0 <= k < |raw| && !IsAllowed(raw[k]) && !IsGlyph(raw[k])
  }

  /** The sanitiser rejects an input exactly when nothing but operators is
      left once the trailing run is stripped, or when the input holds a
      character outside the allow-list (other than ×, ÷ and ^). */
  lemma SanitizeRejects(raw: string)
    ensures SanitizeForEval(raw).None? <==> OnlyOperators(raw) || HasForeignChar(raw)
  {
    var g := NormalizeGlyphs(raw);
    var t := StripTrailingOperators(g);
    var s := PercentToDivision(t);
    NormalizeAllStrippable(raw);
    StripEmpty(g);
    if HasForeignChar(raw) {
      var k :| 0 <= k < |raw| && !IsAllowed(raw[k]) && !IsGlyph(raw[k]);
      var c := raw[k];
      NormalizeKeeps(raw, c);
      StripKeeps(g, c);
      PercentKeeps(t, c);
      var j :| 0 <= j < |s| && s[j] == c;
    }
    if !AllAllowed(s) && t != [] {
      var j :| 0 <= j < |s| && !IsAllowed(s[j]);
      var c := s[j];
      PercentOrigin(t, c);
      assert c in g;
      NormalizeOrigin(raw, c);
      var k :| 0 <= k < |raw| && raw[k] == c;
      assert !IsGlyph(c);
    }
  }

  /** Whatever the evaluator receives has every percentage that follows a
      number rewritten, and no caret, × or ÷. */
  lemma SanitizedForm(raw: string)
    requires SanitizeForEval(raw).Some?
    ensures NoDigitBeforePercent(SanitizeForEval(raw).value)
    ensures forall k :: 0 <= k < |SanitizeForEval(raw).value| ==> !IsGlyph(SanitizeForEval(raw).value[k])
  {
    var g := NormalizeGlyphs(raw);
    var t := StripTrailingOperators(g);
    var v := PercentToDivision(t);
    assert SanitizeForEval(raw).value == v;
    PercentLeavesNoDigitBeforePercent(t);
    forall k | 0 <= k < |v| ensures !IsGlyph(v[k]) {
      PercentOrigin(t, v[k]);
      if v[k] in t {
        var j :| 0 <= j < |t| && t[j] == v[k];
        assert g[j] == t[j];
      }
    }
  }

  /** The stages of the sanitiser, one at a time. */
  lemma SanitizeStages(raw: string, g: string, t: string, p: string)
    requires NormalizeGlyphs(raw) == g && StripTrailingOperators(g) == t && PercentToDivision(t) == p
    ensures SanitizeForEval(raw) == if AllAllowed(p) then Some(p) else None
  {
  }

  /** A trailing operator is dropped; an operator alone is rejected. */
  lemma SanitizeExamplesStrip()
    ensures SanitizeForEval("12+") == Some("12")
    ensures SanitizeForEval("+") == None
  {
    StripExample("12+", "12");
    PercentIdentity("12");
    assert AllAllowed("12");
    SanitizeStages("12+", "12+", "12", "12");
    StripExample("+", "");
    SanitizeStages("+", "+", "", "");
  }

  lemma StripExample(s: string, r: string)
    requires |s| > 0 && r == s[..|s| - 1] && IsStrippable(s[|s| - 1])
    requires r == [] || !IsStrippable(r[|r| - 1])
    requires forall k :: 0 <= k < |s| ==> !IsGlyph(s[k])
    ensures NormalizeGlyphs(s) == s && StripTrailingOperators(s) == r
  {
  }

  /** The trailing `%` is stripped before percentages are converted, so a
      lone percentage such as `50%` is read as the plain number. */
  lemma SanitizeTrailingPercent(n: string)
    requires |n| > 0 && AllDigits(n)
    ensures SanitizeForEval(n + "%") == Some(n)
  {
    assert (n + "%")[..|n|] == n;
    assert forall k :: 0 <= k < |n + "%"| ==> !IsGlyph((n + "%")[k]);
    StripExample(n + "%", n);
    PercentIdentity(n);
    assert AllAllowed(n);
    SanitizeStages(n + "%", n + "%", n, n);
  }

  /** A percentage in the middle, as in `50%+1`, is divided by 100:
      `(50/100)+1`. */
  lemma SanitizePercentBeforeOperator(n: string, op: char, m: string)
    requires |n| > 0 && AllDigits(n) && |m| > 0 && AllDigits(m)
    requires op == '+' || op == '-' || op == '*' || op == '/'
    ensures SanitizeForEval(n + "%" + [op] + m) == Some("(" + n + "/100)" + [op] + m)
  {
    var s := n + "%" + [op] + m;
    var b := [op] + m;
    var r := "(" + n + "/100)" + [op] + m;
    assert s == n + "%" + b;
    assert r == "(" + n + "/100)" + b;
    NumberLiteralForms(n, "");
    assert b[0] == op && b[1..] == m;
    PercentExample(s, n, b, r);
    PercentInputChars(n, op, m);
    PercentResultChars(n, op, m);
    PercentStages(s, r);
  }

  lemma PercentStages(s: string, r: string)
    requires PercentToDivision(s) == r && s != [] && !IsStrippable(s[|s| - 1])
    requires forall k :: 0 <= k < |s| ==> !IsGlyph(s[k])
    requires AllAllowed(r)
    ensures SanitizeForEval(s) == Some(r)
  {
    KeepExample(s);
    SanitizeStages(s, s, s, r);
  }

  lemma PercentInputChars(n: string, op: char, m: string)
    requires op == '+' || op == '-' || op == '*' || op == '/'
    requires |m| > 0 && AllDigits(n) && AllDigits(m)
    ensures var s := n + "%" + [op] + m;
      s != [] && !IsStrippable(s[|s| - 1]) && forall k :: 0 <= k < |s| ==> !IsGlyph(s[k])
  {
    var s := n + "%" + [op] + m;
    forall k | 0 <= k < |s| ensures IsDigit(s[k]) || s[k] in "%()/" || s[k] == op {
      if k < |n| {
        assert s[k] == n[k];
      } else if k > |n| + 1 {
        assert s[k] == m[k - |n| - 2];
      }
    }
    assert s[|s| - 1] == m[|m| - 1];
    DigitsAndSigns(s, op);
  }

  lemma PercentResultChars(n: string, op: char, m: string)
    requires op == '+' || op == '-' || op == '*' || op == '/'
    requires AllDigits(n) && AllDigits(m)
    ensures AllAllowed("(" + n + "/100)" + [op] + m)
  {
    var r := "(" + n + "/100)" + [op] + m;
    var w := "/100)";
    forall k | 0 <= k < |r| ensures IsDigit(r[k]) || r[k] in "%()/" || r[k] == op {
      if 1 <= k <= |n| {
        assert r[k] == n[k - 1];
      } else if |n| < k < |n| + 6 {
        assert r[k] == w[k - |n| - 1];
      } else if k > |n| + 6 {
        assert r[k] == m[k - |n| - 7];
      }
    }
    DigitsAndSigns(r, op);
  }

  /** Text made of digits, `%`, `(`, `)`, `/`, `1` and op only has no glyph and
      passes the allow-list. */
  lemma DigitsAndSigns(s: string, op: char)
    requires op == '+' || op == '-' || op == '*' || op == '/'
    requires s != [] && forall k :: 0 <= k < |s| ==> IsDigit(s[k]) || s[k] in "%()/" || s[k] == op
    ensures forall k :: 0 <= k < |s| ==> !IsGlyph(s[k])
    ensures AllAllowed(s)
  {
  }

  /** `^` is the power operator: `2^3` becomes `2**3`. */
  lemma SanitizePower(a: string, b: string)
    requires |a| > 0 && AllDigits(a) && |b| > 0 && AllDigits(b)
    ensures SanitizeForEval(a + "^" + b) == Some(a + "**" + b)
  {
    var s, r := a + "^" + b, a + "**" + b;
    assert s == a + ['^'] + b;
    PowerExample(s, a, b, r);
    PowerChars(a, b);
    PowerStages(s, r);
  }

  lemma PowerChars(a: string, b: string)
    requires |b| > 0 && AllDigits(a) && AllDigits(b)
    ensures var r := a + "**" + b;
      !IsStrippable(r[|r| - 1]) && '%' !in r && AllAllowed(r)
      && forall k :: 0 <= k < |r| ==> !IsGlyph(r[k])
  {
    var r := a + "**" + b;
    forall k | 0 <= k < |r| ensures IsDigit(r[k]) || r[k] in "%()/" || r[k] == '*' {
      if k < |a| {
        assert r[k] == a[k];
      } else if k > |a| + 1 {
        assert r[k] == b[k - |a| - 2];
      }
    }
    assert r[|r| - 1] == b[|b| - 1];
    DigitsAndSigns(r, '*');
  }

  lemma PowerStages(s: string, r: string)
    requires NormalizeGlyphs(s) == r && r != [] && !IsStrippable(r[|r| - 1])
    requires forall k :: 0 <= k < |r| ==> !IsGlyph(r[k])
    requires '%' !in r && AllAllowed(r)
    ensures SanitizeForEval(s) == Some(r)
  {
    KeepExample(r);
    PercentIdentity(r);
    SanitizeStages(s, r, r, r);
  }

  lemma PercentExample(s: string, t: string, b: string, r: string)
    requires IsNumberLiteral(t) && '%' !in b && s == t + "%" + b && r == "(" + t + "/100)" + b
    ensures PercentToDivision(s) == r
  {
    PercentRewrite([], t, b);
    PercentIdentity(b);
    PercentIdentity([]);
    assert [] + (t + "%" + b) == s;
    assert [] + ("(" + t + "/100)" + b) == r;
  }

  /** Text without glyphs that ends in neither an operator nor white space
      passes the first two stages unchanged. */
  lemma KeepExample(s: string)
    requires s != [] && !IsStrippable(s[|s| - 1])
    requires forall k :: 0 <= k < |s| ==> !IsGlyph(s[k])
    ensures NormalizeGlyphs(s) == s && StripTrailingOperators(s) == s
  {
  }

  lemma PowerExample(s: string, a: string, b: string, r: string)
    requires s == a + ['^'] + b && r == a + "**" + b
    requires forall k :: 0 <= k < |a| ==> !IsGlyph(a[k])
    requires forall k :: 0 <= k < |b| ==> !IsGlyph(b[k])
    ensures NormalizeGlyphs(s) == r
  {
    GlyphRewrite(a, '^', b);
  }
}
