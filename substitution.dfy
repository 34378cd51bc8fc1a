/** `prepareExpressionWithX` (calculator.js:391-403): how one side of an
    equation is made ready for evaluation at a value of x. The glyphs are
    normalised, four passes make implicit multiplication explicit, and every
    x is replaced by the parenthesised value. */
module Substitution {
  import opened Chars
  import opened Sanitizer

  /** The four implicit-multiplication passes, in the order they run:
      `2x`, `2(`, `)(` and `)2`. */
  datatype Pass = DigitBeforeX | DigitBeforeParen | ParenBeforeParen | ParenBeforeDigit

  /** The character a pass puts a `*` behind. */
  predicate Lead(p: Pass, c: char) {
    match p
    case DigitBeforeX => IsDigit(c)
    case DigitBeforeParen => IsDigit(c)
    case ParenBeforeParen => c == ')'
    case ParenBeforeDigit => c == ')'
  }

  /** The character that must come next, after white space, for the pass to
      act. */
  predicate Follow(p: Pass, c: char) {
    match p
    case DigitBeforeX => IsX(c)
    case DigitBeforeParen => c == '('
    case ParenBeforeParen => c == '('
    case ParenBeforeDigit => IsDigit(c)
  }

  /** A pass matches at the start of s: a lead character, white space, then
      a follow character (`(\d)\s*(?=x)` and its three siblings; `\s*` is
      greedy and backtracking it never helps, since a shorter run is followed
      by white space). */
  predicate StarAt(s: string, p: Pass) {
    |s| > 0 && Lead(p, s[0])
    && 1 + RunFrom(s, 1, IsSpace) < |s| && Follow(p, s[1 + RunFrom(s, 1, IsSpace)])
  }

  /** One pass. A match replaces the lead character and the white space by
      the lead character and `*`, and the scan goes on at the follow
      character; elsewhere characters are copied. Two of the source's
      patterns consume the `(` they look for, which is the same here, since
      `(` is never a lead character. */
  function InsertStar(s: string, p: Pass): string
    decreases |s|
  {
    if s == [] then []
    else if StarAt(s, p) then [s[0], '*'] + InsertStar(s[1 + RunFrom(s, 1, IsSpace)..], p)
    else [s[0]] + InsertStar(s[1..], p)
  }

  /** No position of r where the pass would insert a `*`. */
  predicate NoPair(r: string, p: Pass) {
    forall i :: 0 <= i < |r| ==> !StarAt(r[i..], p)
  }

  /** Whether a pass matches at the front depends only on the first
      character and on the first character after the white space behind it. */
  lemma StarAtCons(c: char, x: string, p: Pass)
    ensures StarAt([c] + x, p)
        <==> Lead(p, c) && RunFrom(x, 0, IsSpace) < |x| && Follow(p, x[RunFrom(x, 0, IsSpace)])
  {
    var s := [c] + x;
    assert s[1..] == x;
    RunFromShift(s, 1, 0, IsSpace);
    var w := RunFrom(x, 0, IsSpace);
    if w < |x| {
      assert s[1 + w] == x[w];
    }
  }

  lemma NoPairCons(c: char, x: string, p: Pass)
    ensures NoPair([c] + x, p) <==> !StarAt([c] + x, p) && NoPair(x, p)
  {
    var s := [c] + x;
    assert s[0..] == s;
    assert forall i :: 1 <= i <= |s| ==> s[i..] == x[i - 1..];
    if !StarAt(s, p) && NoPair(x, p) {
      forall i | 0 <= i < |s| ensures !StarAt(s[i..], p) {
        if i > 0 {
          assert s[i..] == x[i - 1..];
        }
      }
    }
    if NoPair(s, p) {
      forall i | 0 <= i < |x| ensures !StarAt(x[i..], p) {
        assert s[i + 1..] == x[i..];
      }
    }
  }

  /** A pass keeps the white space at the front of its input and the first
      character behind it. */
  lemma {:induction false} InsertStarFront(t: string, p: Pass)
    ensures var r, w := InsertStar(t, p), RunFrom(t, 0, IsSpace);
      && RunFrom(r, 0, IsSpace) == w
      && (w < |t| ==> w < |r| && r[w] == t[w])
      && (w == |t| ==> r == t)
    decreases |t|
  {
    if t != [] {
      var r := InsertStar(t, p);
      if IsSpace(t[0]) {
        var r', t' := InsertStar(t[1..], p), t[1..];
        assert r == [t[0]] + r';
        assert t == [t[0]] + t';
        InsertStarFront(t', p);
        RunFromCons(t[0], r', IsSpace);
        RunFromCons(t[0], t', IsSpace);
      } else {
        assert r[0] == t[0];
      }
    }
  }

  /** Text without a match passes unchanged. */
  lemma {:induction false} InsertStarIdentity(s: string, p: Pass)
    requires NoPair(s, p)
    ensures InsertStar(s, p) == s
    decreases |s|
  {
    if s != [] {
      assert s == [s[0]] + s[1..];
      NoPairCons(s[0], s[1..], p);
      assert s[0..] == s;
      InsertStarIdentity(s[1..], p);
    }
  }

  /** A pass leaves nothing for itself to do, and it does not create a match
      for another pass. */
  lemma {:induction false} InsertStarNoPair(s: string, q: Pass, p: Pass)
    requires p == q || NoPair(s, p)
    ensures NoPair(InsertStar(s, q), p)
    decreases |s|
  {
    if s != [] {
      if p != q {
        assert s[0..] == s;
      }
      if StarAt(s, q) {
        var j := 1 + RunFrom(s, 1, IsSpace);
        if p != q {
          NoPairTail(s, j, p);
        }
        InsertStarNoPair(s[j..], q, p);
        NoPairAfterStar(s[0], InsertStar(s[j..], q), p);
      } else {
        if p != q {
          NoPairTail(s, 1, p);
        }
        InsertStarNoPair(s[1..], q, p);
        assert s == [s[0]] + s[1..];
        NoPairAfterCopy(s[0], s[1..], InsertStar(s[1..], q), q, p);
      }
    }
  }

  /** A `*` just inserted cannot take part in a match. */
  lemma NoPairAfterStar(c: char, rest: string, p: Pass)
    requires NoPair(rest, p)
    ensures NoPair([c, '*'] + rest, p)
  {
    var x := ['*'] + rest;
    NoPairCons('*', rest, p);
    StarAtCons(c, x, p);
    assert x[0] == '*';
    NoPairCons(c, x, p);
    assert [c, '*'] + rest == [c] + x;
  }

  /** A copied character matches in the output exactly when it matched in
      the input, since the pass keeps what follows it up to the next
      character that is not white space. */
  lemma NoPairAfterCopy(c: char, t: string, rest: string, q: Pass, p: Pass)
    requires rest == InsertStar(t, q) && NoPair(rest, p) && !StarAt([c] + t, p)
    ensures NoPair([c] + rest, p)
  {
    InsertStarFront(t, q);
    StarAtCons(c, t, p);
    StarAtCons(c, rest, p);
    NoPairCons(c, rest, p);
  }

  lemma NoPairTail(s: string, k: nat, p: Pass)
    requires NoPair(s, p) && k <= |s|
    ensures NoPair(s[k..], p)
  {
    forall i | 0 <= i < |s| - k ensures !StarAt(s[k..][i..], p) {
      assert s[k..][i..] == s[k + i..];
    }
  }

  /** Applying a pass twice is applying it once. */
  lemma InsertStarIdempotent(s: string, p: Pass)
    ensures InsertStar(InsertStar(s, p), p) == InsertStar(s, p)
  {
    InsertStarNoPair(s, p, p);
    InsertStarIdentity(InsertStar(s, p), p);
  }

  /** The text with white space and `*` removed: what a pass never changes. */
  function Solid(s: string): string {
    if s == [] then []
    else (if IsSpace(s[0]) || s[0] == '*' then [] else [s[0]]) + Solid(s[1..])
  }

  lemma {:induction false} SolidConcat(a: string, b: string)
    ensures Solid(a + b) == Solid(a) + Solid(b)
  {
    if a == [] {
      assert a + b == b;
    } else {
      assert (a + b)[0] == a[0];
      assert (a + b)[1..] == a[1..] + b;
      SolidConcat(a[1..], b);
    }
  }

  lemma {:induction false} SolidSpaces(s: string)
    requires forall k :: 0 <= k < |s| ==> IsSpace(s[k])
    ensures Solid(s) == []
  {
    if s != [] {
      SolidSpaces(s[1..]);
    }
  }

  /** A pass only turns white space into `*` and inserts `*`: the other
      characters stay, in order. */
  lemma {:induction false} InsertStarKeepsSolid(s: string, p: Pass)
    ensures Solid(InsertStar(s, p)) == Solid(s)
    decreases |s|
  {
    if s != [] {
      if StarAt(s, p) {
        var j := 1 + RunFrom(s, 1, IsSpace);
        var rest := InsertStar(s[j..], p);
        InsertStarKeepsSolid(s[j..], p);
        assert InsertStar(s, p) == [s[0], '*'] + rest;
        SolidAfterStar(s, j, rest);
      } else {
        var rest := InsertStar(s[1..], p);
        InsertStarKeepsSolid(s[1..], p);
        assert InsertStar(s, p) == [s[0]] + rest;
        SolidCons(s[0], rest);
        SolidCons(s[0], s[1..]);
        assert [s[0]] + s[1..] == s;
      }
    }
  }

  lemma SolidCons(c: char, x: string)
    ensures Solid([c] + x) == (if IsSpace(c) || c == '*' then [] else [c]) + Solid(x)
  {
    assert ([c] + x)[0] == c && ([c] + x)[1..] == x;
  }

  /** A lead character, white space and the rest become the lead
      character, `*` and the rest rewritten, which has the same solid text. */
  lemma SolidAfterStar(s: string, j: nat, rest: string)
    requires 1 <= j <= |s| && forall k :: 1 <= k < j ==> IsSpace(s[k])
    requires Solid(rest) == Solid(s[j..])
    ensures Solid([s[0], '*'] + rest) == Solid(s)
  {
    var w := s[1..j];
    assert forall k :: 0 <= k < |w| ==> w[k] == s[k + 1];
    SolidSpaces(w);
    assert s == [s[0]] + (w + s[j..]);
    SolidCons(s[0], w + s[j..]);
    SolidConcat(w, s[j..]);
    assert [s[0], '*'] + rest == [s[0]] + (['*'] + rest);
    SolidCons(s[0], ['*'] + rest);
    SolidCons('*', rest);
  }

  /** The four passes of calculator.js:396-399, in order. */
  function InsertImplicitStars(t: string): string {
    var t1 := InsertStar(t, DigitBeforeX);
    var t2 := InsertStar(t1, DigitBeforeParen);
    var t3 := InsertStar(t2, ParenBeforeParen);
    InsertStar(t3, ParenBeforeDigit)
  }

  /** After the four passes no digit stands before an x or a `(`, and no `)`
      before a `(` or a digit, with only white space between. */
  lemma ImplicitStarsComplete(t: string)
    ensures forall p: Pass :: NoPair(InsertImplicitStars(t), p)
  {
    var t1 := InsertStar(t, DigitBeforeX);
    var t2 := InsertStar(t1, DigitBeforeParen);
    var t3 := InsertStar(t2, ParenBeforeParen);
    var t4 := InsertStar(t3, ParenBeforeDigit);
    InsertStarNoPair(t, DigitBeforeX, DigitBeforeX);
    InsertStarNoPair(t1, DigitBeforeParen, DigitBeforeX);
    InsertStarNoPair(t1, DigitBeforeParen, DigitBeforeParen);
    InsertStarNoPair(t2, ParenBeforeParen, DigitBeforeX);
    InsertStarNoPair(t2, ParenBeforeParen, DigitBeforeParen);
    InsertStarNoPair(t2, ParenBeforeParen, ParenBeforeParen);
    InsertStarNoPair(t3, ParenBeforeDigit, DigitBeforeX);
    InsertStarNoPair(t3, ParenBeforeDigit, DigitBeforeParen);
    InsertStarNoPair(t3, ParenBeforeDigit, ParenBeforeParen);
    InsertStarNoPair(t3, ParenBeforeDigit, ParenBeforeDigit);
    forall p: Pass ensures NoPair(t4, p) {
    }
  }

  /** The four passes keep every character other than white space and `*`. */
  lemma ImplicitStarsKeepSolid(t: string)
    ensures Solid(InsertImplicitStars(t)) == Solid(t)
  {
    var t1 := InsertStar(t, DigitBeforeX);
    var t2 := InsertStar(t1, DigitBeforeParen);
    var t3 := InsertStar(t2, ParenBeforeParen);
    InsertStarKeepsSolid(t, DigitBeforeX);
    InsertStarKeepsSolid(t1, DigitBeforeParen);
    InsertStarKeepsSolid(t2, ParenBeforeParen);
    InsertStarKeepsSolid(t3, ParenBeforeDigit);
  }

  /** `replace(/x/gi, '(' + v + ')')`. */
  function SubstituteX(s: string, v: string): (r: string)
    ensures !HasX(v) ==> !HasX(r)
    ensures !HasX(s) ==> r == s
  {
    if s == [] then []
    else
      assert !HasX(s) ==> !HasX(s[1..]) by {
        assert s == [s[0]] + s[1..];
      }
      (if IsX(s[0]) then "(" + v + ")" else [s[0]]) + SubstituteX(s[1..], v)
  }

  lemma {:induction false} SubstituteXConcat(a: string, b: string, v: string)
    ensures SubstituteX(a + b, v) == SubstituteX(a, v) + SubstituteX(b, v)
  {
    if a == [] {
      assert a + b == b;
    } else {
      assert (a + b)[0] == a[0];
      assert (a + b)[1..] == a[1..] + b;
      SubstituteXConcat(a[1..], b, v);
    }
  }

  /** Each x, whatever surrounds it, becomes the value in parentheses. */
  lemma SubstituteOne(a: string, c: char, b: string, v: string)
    requires IsX(c)
    ensures SubstituteX(a + ([c] + b), v) == SubstituteX(a, v) + ("(" + v + ")" + SubstituteX(b, v))
  {
    SubstituteXConcat(a, [c] + b, v);
    assert ([c] + b)[0] == c && ([c] + b)[1..] == b;
  }

  /** `prepareExpressionWithX(s, xValue)`; the empty side is returned as it is. */
  function PrepareExpressionWithX(s: string, xValue: string): (r: string)
    ensures s == "" ==> r == ""
    ensures !HasX(xValue) ==> !HasX(r)
  {
    if s == "" then s
    else SubstituteX(InsertImplicitStars(NormalizeGlyphs(s)), xValue)
  }

  /** Substitution commutes with dropping white space and `*`. */
  lemma {:induction false} SolidSubstitute(t: string, v: string)
    ensures Solid(SubstituteX(t, v)) == SubstituteX(Solid(t), Solid(v))
  {
    if t != [] {
      var piece := if IsX(t[0]) then "(" + v + ")" else [t[0]];
      var head := if IsSpace(t[0]) || t[0] == '*' then [] else [t[0]];
      SolidSubstitute(t[1..], v);
      SolidConcat(piece, SubstituteX(t[1..], v));
      SubstituteXConcat(head, Solid(t[1..]), Solid(v));
      SolidPiece(t[0], v);
      assert SubstituteX(t, v) == piece + SubstituteX(t[1..], v);
      assert Solid(t) == head + Solid(t[1..]);
      SolidSubstituteStep(Solid(piece), SubstituteX(head, Solid(v)),
                          Solid(SubstituteX(t[1..], v)), SubstituteX(Solid(t[1..]), Solid(v)));
    }
  }

  lemma SolidSubstituteStep(a: string, a': string, b: string, b': string)
    requires a == a' && b == b'
    ensures a + b == a' + b'
  {
  }

  /** The substitution of one character, with white space and `*` dropped. */
  lemma SolidPiece(c: char, v: string)
    ensures var piece := if IsX(c) then "(" + v + ")" else [c];
            var head := if IsSpace(c) || c == '*' then [] else [c];
            Solid(piece) == SubstituteX(head, Solid(v))
  {
    if IsX(c) {
      SolidConcat("(" + v, ")");
      SolidConcat("(", v);
      assert Solid("(") == "(" + Solid([]);
      assert Solid(")") == ")" + Solid([]);
      assert SubstituteX([c], Solid(v)) == "(" + Solid(v) + ")" + SubstituteX([], Solid(v));
    } else {
      assert Solid([c]) == (if IsSpace(c) || c == '*' then [] else [c]) + Solid([]);
    }
  }

  /** Ignoring white space and `*`, the prepared side is the input with the
      glyphs rewritten and each x replaced by the parenthesised value. */
  lemma PrepareKeepsSolid(s: string, v: string)
    requires s != ""
    ensures Solid(PrepareExpressionWithX(s, v)) == SubstituteX(Solid(NormalizeGlyphs(s)), Solid(v))
  {
    var t := InsertImplicitStars(NormalizeGlyphs(s));
    ImplicitStarsKeepSolid(NormalizeGlyphs(s));
    SolidSubstitute(t, v);
    SolidSubstituteCongruent(t, NormalizeGlyphs(s), v);
  }

  /** Texts equal up to white space and `*` substitute to texts equal up to
      white space and `*`. */
  lemma SolidSubstituteCongruent(t: string, u: string, v: string)
    requires Solid(t) == Solid(u)
    ensures Solid(SubstituteX(t, v)) == SubstituteX(Solid(u), Solid(v))
  {
    SolidSubstitute(t, v);
  }

  /** A digit written before x, as in `2x` at x = 3, is prepared as a product
      with the parenthesised value: `2*(3)`. */
  lemma PrepareDigitX(d: char, x: char, v: string)
    requires IsDigit(d) && IsX(x)
    ensures PrepareExpressionWithX([d, x], v) == [d, '*'] + "(" + v + ")"
  {
    GlyphFreeDigitX(d, x);
    StarsForDigitX(d, x);
    SubstituteExample([d, '*', x], [d, '*'], x, v);
    PrepareStages([d, x], v, [d, '*', x], [d, '*'] + "(" + v + ")");
  }

  lemma PrepareStages(s: string, v: string, t: string, r: string)
    requires s != "" && InsertImplicitStars(NormalizeGlyphs(s)) == t && SubstituteX(t, v) == r
    ensures PrepareExpressionWithX(s, v) == r
  {
  }

  lemma GlyphFreeDigitX(d: char, x: char)
    requires IsDigit(d) && IsX(x)
    ensures NormalizeGlyphs([d, x]) == [d, x]
  {
    var s := [d, x];
    assert forall k :: 0 <= k < |s| ==> !IsGlyph(s[k]);
  }

  /** A digit followed by an x gets a `*` in between, and nothing else. */
  lemma StarsForDigitX(d: char, x: char)
    requires IsDigit(d) && IsX(x)
    ensures InsertImplicitStars([d, x]) == [d, '*', x]
  {
    var t := [d, '*', x];
    StarExample([d, x], d, x);
    NoFollowIdentity(t, DigitBeforeParen);
    NoLeadIdentity(t, ParenBeforeParen);
    NoLeadIdentity(t, ParenBeforeDigit);
  }

  lemma StarExample(s: string, d: char, x: char)
    requires s == [d, x] && IsDigit(d) && IsX(x)
    ensures InsertStar(s, DigitBeforeX) == [d, '*', x]
  {
    assert StarAt(s, DigitBeforeX);
    assert s[1..] == [x];
    assert InsertStar([x], DigitBeforeX) == [x] + InsertStar([], DigitBeforeX);
  }

  /** A pass changes nothing when no character can follow its lead. */
  lemma NoFollowIdentity(s: string, p: Pass)
    requires forall k :: 0 <= k < |s| ==> !Follow(p, s[k])
    ensures InsertStar(s, p) == s
  {
    forall i | 0 <= i < |s| ensures !StarAt(s[i..], p) {
      var t := s[i..];
      if |t| > 0 && 1 + RunFrom(t, 1, IsSpace) < |t| {
        assert t[1 + RunFrom(t, 1, IsSpace)] == s[i + 1 + RunFrom(t, 1, IsSpace)];
      }
    }
    InsertStarIdentity(s, p);
  }

  /** A pass changes nothing when none of its lead characters occurs. */
  lemma NoLeadIdentity(s: string, p: Pass)
    requires forall k :: 0 <= k < |s| ==> !Lead(p, s[k])
    ensures InsertStar(s, p) == s
  {
    forall i | 0 <= i < |s| ensures !StarAt(s[i..], p) {
      assert s[i..][0] == s[i];
    }
    InsertStarIdentity(s, p);
  }

  lemma SubstituteExample(s: string, a: string, c: char, v: string)
    requires s == a + [c] && IsX(c) && !HasX(a)
    ensures SubstituteX(s, v) == a + "(" + v + ")"
  {
    assert s == a + ([c] + []);
    SubstituteOne(a, c, [], v);
  }
}
