/** Character classes and small string functions shared by the calculator's
    string logic: the classes the regular expressions of calculator.js use,
    comma deletion, counting, trimming and splitting at a character. */
module Chars {

  /** `\d` */
  predicate IsDigit(c: char) { '0' <= c <= '9' }

  /** `\w`, the class that decides where `\b` and `\B` match */
  predicate IsWordChar(c: char) {
    IsDigit(c) || ('a' <= c <= 'z') || ('A' <= c <= 'Z') || c == '_'
  }

  /** `\s`: ECMAScript WhiteSpace and LineTerminator, which is also exactly
      what `String.prototype.trim` removes. */
  predicate IsSpace(c: char) {
    c == ' ' || c == '\t' || c == '\n' || c == '\r' || c == '\U{0B}' || c == '\U{0C}'
    || c == '\U{A0}' || c == '\U{1680}' || ('\U{2000}' <= c <= '\U{200A}')
    || c == '\U{2028}' || c == '\U{2029}' || c == '\U{202F}' || c == '\U{205F}'
    || c == '\U{3000}' || c == '\U{FEFF}'
  }

  /** The variable token, matched case-insensitively by `/x/i`. */
  predicate IsX(c: char) { c == 'x' || c == 'X' }

  predicate AllDigits(s: string) { forall i :: 0 <= i < |s| ==> IsDigit(s[i]) }

  predicate HasX(s: string) { 'x' in s || 'X' in s }

  /** `s.replace(/,/g, '')`: how every handler recovers the raw expression
      from the display. Only the commas are deleted. */
  function RemoveCommas(s: string): (r: string)
    ensures ',' !in r
    ensures |r| == |s| - Count(s, ',')
    ensures ',' !in s ==> r == s
  {
    if s == [] then []
    else (if s[0] == ',' then [] else [s[0]]) + RemoveCommas(s[1..])
  }

  lemma {:induction false} RemoveCommasConcat(a: string, b: string)
    ensures RemoveCommas(a + b) == RemoveCommas(a) + RemoveCommas(b)
  {
    if a != [] {
      var x := a[1..];
      ConsConcat(a, b);
      RemoveCommasConcat(x, b);
      RemoveCommasCons(a[0], x + b);
      RemoveCommasCons(a[0], x);
      var h: string := if a[0] == ',' then [] else [a[0]];
      PrefixConcat(RemoveCommas(a + b), RemoveCommas(a), RemoveCommas(x + b), RemoveCommas(x), RemoveCommas(b), h);
    } else {
      assert a + b == b;
    }
  }

  lemma PrefixConcat(ab: string, a: string, xb: string, x: string, b: string, h: string)
    requires ab == h + xb && xb == x + b && a == h + x
    ensures ab == a + b
  {
  }

  lemma ConsConcat(a: string, b: string)
    requires a != []
    ensures a == [a[0]] + a[1..] && a + b == [a[0]] + (a[1..] + b)
  {
  }

  /** One step of comma deletion. */
  lemma RemoveCommasCons(c: char, s: string)
    ensures RemoveCommas([c] + s) == (if c == ',' then [] else [c]) + RemoveCommas(s)
  {
    assert ([c] + s)[1..] == s;
  }

  /** Number of occurrences of c in s. */
  function Count(s: string, c: char): (n: nat)
    ensures n <= |s|
    ensures n == 0 <==> c !in s
  {
    if s == [] then 0 else (if s[0] == c then 1 else 0) + Count(s[1..], c)
  }

  lemma {:induction false} CountConcat(a: string, b: string, c: char)
    ensures Count(a + b, c) == Count(a, c) + Count(b, c)
  {
    if a != [] {
      assert (a + b)[0] == a[0];
      assert (a + b)[1..] == a[1..] + b;
      CountConcat(a[1..], b, c);
    } else {
      assert a + b == b;
    }
  }

  /** Length of the run of characters satisfying p that starts at position i. */
  function RunFrom(s: string, i: nat, p: char -> bool): (n: nat)
    requires i <= |s|
    ensures i + n <= |s|
    ensures forall k :: i <= k < i + n ==> p(s[k])
    ensures i + n < |s| ==> !p(s[i + n])
    decreases |s| - i
  {
    if i < |s| && p(s[i]) then 1 + RunFrom(s, i + 1, p) else 0
  }

  /** Length of the maximal run of digits starting at position i (`\d+` is greedy). */
  function DigitRun(s: string, i: nat): (n: nat)
    requires i <= |s|
    ensures i + n <= |s|
    ensures forall k :: i <= k < i + n ==> IsDigit(s[k])
    ensures i + n < |s| ==> !IsDigit(s[i + n])
    decreases |s| - i
  {
    if i < |s| && IsDigit(s[i]) then 1 + DigitRun(s, i + 1) else 0
  }

  /** The run of digits at i does not change when a non-digit is appended. */
  lemma {:induction false} DigitRunAppend(s: string, c: char, i: nat)
    requires i <= |s| && !IsDigit(c)
    ensures DigitRun(s + [c], i) == DigitRun(s, i)
    decreases |s| - i
  {
    if i < |s| && IsDigit(s[i]) {
      DigitRunAppend(s, c, i + 1);
    }
  }

  /** The run of digits at i is determined by the characters from i on. */
  lemma DigitRunShift(s: string, i: nat)
    requires i <= |s|
    ensures DigitRun(s[i..], 0) == DigitRun(s, i)
  {
    var n, m := DigitRun(s[i..], 0), DigitRun(s, i);
    assert forall k :: 0 <= k < |s| - i ==> s[i..][k] == s[i + k];
  }

  /** Length of the match of `\d+(?:\.\d+)?` at the start of s (s starts with a
      digit): the greedy digit run, extended by a `.` and a second digit run
      when a digit follows the dot. */
  function NumberTokenLength(s: string): (n: nat)
    requires |s| > 0 && IsDigit(s[0])
    ensures DigitRun(s, 0) <= n <= |s|
    ensures n > 0
  {
    var d := DigitRun(s, 0);
    if d + 1 < |s| && s[d] == '.' && IsDigit(s[d + 1]) then d + 1 + DigitRun(s, d + 1) else d
  }

  /** The match is greedy: no digit follows it, and a dot followed by a digit
      behind the first digit run is always taken into it. */
  lemma NumberTokenGreedy(s: string)
    requires |s| > 0 && IsDigit(s[0])
    ensures var n := NumberTokenLength(s); n == |s| || !IsDigit(s[n])
    ensures var n, d := NumberTokenLength(s), DigitRun(s, 0);
      d + 1 < |s| && s[d] == '.' && IsDigit(s[d + 1]) ==> n > d + 1
  {
  }

  /** t is a whole match of `\d+(?:\.\d+)?`. */
  predicate IsNumberLiteral(t: string) {
    |t| > 0 && IsDigit(t[0]) && NumberTokenLength(t) == |t|
  }

  /** Digits, and digits with a dot and more digits, are number literals. */
  lemma NumberLiteralForms(i: string, f: string)
    requires |i| > 0 && AllDigits(i) && AllDigits(f)
    ensures IsNumberLiteral(i)
    ensures |f| > 0 ==> IsNumberLiteral(i + "." + f)
  {
    DigitRunTail(i, 0);
    if |f| > 0 {
      var t := i + "." + f;
      DigitRunAppend(i, '.', 0);
      DigitRunPrefix(i + ".", f, 0);
      assert t == (i + ".") + f;
      assert t[|i|] == '.' && t[|i| + 1] == f[0];
      assert forall k :: 0 <= k < |f| ==> t[|i| + 1 + k] == f[k];
      DigitRunTail(t, |i| + 1);
    }
  }

  /** A run of digits reaching the end of s has the length of the rest. */
  lemma {:induction false} DigitRunTail(s: string, i: nat)
    requires i <= |s| && forall k :: i <= k < |s| ==> IsDigit(s[k])
    ensures DigitRun(s, i) == |s| - i
    decreases |s| - i
  {
    if i < |s| {
      DigitRunTail(s, i + 1);
    }
  }

  /** A non-empty run of digits ends with a digit. */
  lemma {:induction false} DigitRunLast(s: string, i: nat)
    requires i <= |s| && DigitRun(s, i) > 0
    ensures IsDigit(s[i + DigitRun(s, i) - 1])
    decreases |s| - i
  {
    if DigitRun(s, i + 1) > 0 {
      DigitRunLast(s, i + 1);
    }
  }

  /** The number token ends with a digit. */
  lemma NumberTokenLastDigit(s: string)
    requires |s| > 0 && IsDigit(s[0])
    ensures IsDigit(s[NumberTokenLength(s) - 1])
  {
    var d := DigitRun(s, 0);
    if d + 1 < |s| && s[d] == '.' && IsDigit(s[d + 1]) {
      DigitRunLast(s, d + 1);
    } else {
      DigitRunLast(s, 0);
    }
  }

  /** The text before the first c (the whole of s when c does not occur):
      `s.split(c)[0]`. */
  function Before(s: string, c: char): (r: string)
    ensures r <= s && c !in r
    ensures c in s ==> |r| < |s| && s[|r|] == c
    ensures c !in s ==> r == s
  {
    if s == [] || s[0] == c then [] else [s[0]] + Before(s[1..], c)
  }

  /** The text after the first c. */
  function After(s: string, c: char): (r: string)
    requires c in s
    ensures s == Before(s, c) + [c] + r
  {
    s[|Before(s, c)| + 1..]
  }

  /** Before is the only prefix that stops at the first c. */
  lemma BeforeUnique(s: string, c: char, p: string)
    requires p <= s && c !in p && (|p| == |s| || s[|p|] == c)
    ensures Before(s, c) == p
  {
    var b := Before(s, c);
    assert b == s[..|b|] && p == s[..|p|];
    assert forall k :: 0 <= k < |b| ==> b[k] != c;
    assert forall k :: 0 <= k < |p| ==> p[k] != c;
  }

  /** `parts.join(c)`: the pieces with c between each two. */
  function Join(parts: seq<string>, c: char): string
    decreases |parts|
  {
    if parts == [] then []
    else if |parts| == 1 then parts[0]
    else parts[0] + [c] + Join(parts[1..], c)
  }

  /** `s.split(c)`: the pieces between the occurrences of c, which joined with
      c give s back. */
  function Split(s: string, c: char): (parts: seq<string>)
    ensures |parts| == Count(s, c) + 1
    ensures forall i :: 0 <= i < |parts| ==> c !in parts[i]
    ensures Join(parts, c) == s
    decreases |s|
  {
    if c !in s then [s]
    else
      var rest := After(s, c);
      CountConcat(Before(s, c), [c] + rest, c);
      CountConcat([c], rest, c);
      assert Count([c], c) == 1;
      assert s == Before(s, c) + ([c] + rest);
      var tail := Split(rest, c);
      assert ([Before(s, c)] + tail)[1..] == tail;
      [Before(s, c)] + tail
  }

  /** `s.trim()`: s without its leading and trailing white space. */
  function Trim(s: string): (r: string)
    ensures r == [] || (!IsSpace(r[0]) && !IsSpace(r[|r| - 1]))
    ensures exists i, j :: 0 <= i <= j <= |s| && r == s[i..j]
                           && (forall k :: 0 <= k < i ==> IsSpace(s[k]))
                           && (forall k :: j <= k < |s| ==> IsSpace(s[k]))
  {
    var i := RunFrom(s, 0, IsSpace);
    var j := |s| - RunFrom(Reverse(s), 0, IsSpace);
    if i == |s| then
      assert s[0..0] == [];
      [] 
    else
      ReverseRun(s);
      s[i..j]
  }

  /** Trimming keeps the first character when it is not white space. */
  lemma TrimStart(s: string)
    requires s != [] && !IsSpace(s[0])
    ensures Trim(s) == [] || Trim(s)[0] == s[0]
  {
    var r := Trim(s);
    var i, j :| 0 <= i <= j <= |s| && r == s[i..j]
                && (forall k :: 0 <= k < i ==> IsSpace(s[k]));
    assert i == 0;
  }

  /** Trimming keeps the last character when it is not white space. */
  lemma TrimEnd(s: string)
    requires s != [] && !IsSpace(s[|s| - 1])
    ensures Trim(s) == [] || Trim(s)[|Trim(s)| - 1] == s[|s| - 1]
  {
    var rs := Reverse(s);
    assert rs[0] == s[|s| - 1];
    assert RunFrom(rs, 0, IsSpace) == 0;
  }

  function Reverse(s: string): (r: string)
    ensures |r| == |s|
    ensures forall k :: 0 <= k < |s| ==> r[k] == s[|s| - 1 - k]
  {
    if s == [] then [] else Reverse(s[1..]) + [s[0]]
  }

  /** What a run of white space at the start of Reverse(s) says about the end of s. */
  lemma ReverseRun(s: string)
    requires RunFrom(s, 0, IsSpace) < |s|
    ensures RunFrom(s, 0, IsSpace) < |s| - RunFrom(Reverse(s), 0, IsSpace)
    ensures !IsSpace(s[|s| - 1 - RunFrom(Reverse(s), 0, IsSpace)])
    ensures forall k :: |s| - RunFrom(Reverse(s), 0, IsSpace) <= k < |s| ==> IsSpace(s[k])
  {
    var i := RunFrom(s, 0, IsSpace);
    var m := RunFrom(Reverse(s), 0, IsSpace);
    var r := Reverse(s);
    assert !IsSpace(s[i]);
    assert r[|s| - 1 - i] == s[i];
    assert r[m] == s[|s| - 1 - m];
    forall k | |s| - m <= k < |s| ensures IsSpace(s[k]) {
      assert r[|s| - 1 - k] == s[k];
    }
  }

  /** Cutting s[..n] at a position d holding c. */
  lemma SplitAt(s: string, d: nat, n: nat, c: char)
    requires d < n <= |s| && s[d] == c
    ensures s[..n] == s[..d] + [c] + s[d + 1..n]
    ensures s[d..n] == [c] + s[d + 1..n]
  {
  }

  /** A digit run that ends inside a does not change when b is appended. */
  lemma {:induction false} DigitRunPrefix(a: string, b: string, i: nat)
    requires i <= |a| && i + DigitRun(a, i) < |a|
    ensures DigitRun(a + b, i) == DigitRun(a, i)
    decreases |a| - i
  {
    assert (a + b)[i] == a[i];
    if IsDigit(a[i]) {
      DigitRunPrefix(a, b, i + 1);
    }
  }

  /** The number token at the start of a ends inside a when a ends with a
      character that is neither a digit nor a dot, and b behind it does not
      change it. */
  lemma NumberTokenPrefix(a: string, b: string)
    requires |a| > 0 && IsDigit(a[0]) && !IsDigit(a[|a| - 1]) && a[|a| - 1] != '.'
    ensures NumberTokenLength(a + b) == NumberTokenLength(a) < |a|
  {
    var d := DigitRun(a, 0);
    DigitRunPrefix(a, b, 0);
    if d + 1 < |a| {
      assert (a + b)[d] == a[d] && (a + b)[d + 1] == a[d + 1];
      DigitRunPrefix(a, b, d + 1);
    } else {
      assert (a + b)[d] == a[d];
    }
  }

  /** A number token does not change when a character that is not a digit is
      appended behind it. */
  lemma NumberTokenAppend(t: string, c: char)
    requires |t| > 0 && IsDigit(t[0]) && !IsDigit(c)
    ensures NumberTokenLength(t + [c]) == NumberTokenLength(t)
  {
    var d := DigitRun(t, 0);
    DigitRunAppend(t, c, 0);
    if d + 1 < |t| {
      DigitRunAppend(t, c, d + 1);
      assert (t + [c])[d] == t[d] && (t + [c])[d + 1] == t[d + 1];
    } else if d + 1 == |t| {
      assert (t + [c])[d + 1] == c;
    }
  }

  /** A run from position i of a suffix is the run from the matching
      position of the whole text. */
  lemma {:induction false} RunFromShift(s: string, k: nat, i: nat, p: char -> bool)
    requires k + i <= |s|
    ensures RunFrom(s[k..], i, p) == RunFrom(s, k + i, p)
    decreases |s| - k - i
  {
    if k + i < |s| {
      assert s[k..][i] == s[k + i];
      RunFromShift(s, k, i + 1, p);
    }
  }

  lemma RunFromCons(c: char, x: string, p: char -> bool)
    ensures RunFrom([c] + x, 0, p) == if p(c) then 1 + RunFrom(x, 0, p) else 0
  {
    RunFromShift([c] + x, 1, 0, p);
    assert ([c] + x)[1..] == x;
  }
}
