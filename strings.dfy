/** The Python `str` operations the scraper relies on, on `seq<char>`:
    `lower`, `strip`, `replace`, `startswith`, the cut of `split(':', 1)`,
    the decimal digits of an `int`, `int()` of a digit string, and
    code-point string ordering. `Count` is not called by the scraper; it
    only serves to state what `lower`, `strip` and `replace` keep. */
module Strings {
  import opened Wrappers

  predicate IsDigit(c: char) { '0' <= c <= '9' }

  predicate AllDigits(s: string) { forall i :: 0 <= i < |s| ==> IsDigit(s[i]) }

  /** The characters for which Python's `str.isspace()` holds; `str.strip()`
      with no argument removes exactly these. */
  predicate IsSpace(c: char) {
    var n := c as int;
    (9 <= n <= 13) || (28 <= n <= 32) || n == 0x85 || n == 0xA0 || n == 0x1680
    || (0x2000 <= n <= 0x200A) || n == 0x2028 || n == 0x2029 || n == 0x202F
    || n == 0x205F || n == 0x3000
  }

  /** `str.lower()` on one character, for the ASCII and Latin-1 capitals. */
  function LowerChar(c: char): char {
    var n := c as int;
    if 65 <= n <= 90 || (0xC0 <= n <= 0xDE && n != 0xD7) then (n + 32) as char else c
  }

  /** `s.lower()`: the same length, each character lowered on its own. */
  function Lower(s: string): (r: string)
    ensures |r| == |s|
    ensures forall i :: 0 <= i < |s| ==> r[i] == LowerChar(s[i])
  {
    if s == [] then [] else [LowerChar(s[0])] + Lower(s[1..])
  }

  /** Number of occurrences of `c` in `s`, used to state what the other
      operations keep. */
  function Count(s: string, c: char): nat {
    if s == [] then 0 else (if s[0] == c then 1 else 0) + Count(s[1..], c)
  }

  lemma {:induction false} CountConcat(a: string, b: string, c: char)
    ensures Count(a + b, c) == Count(a, c) + Count(b, c)
  {
    if a == [] {
      assert a + b == b;
    } else {
      assert (a + b)[1..] == a[1..] + b;
      CountConcat(a[1..], b, c);
    }
  }

  lemma {:induction false} CountZero(s: string, c: char)
    ensures Count(s, c) == 0 <==> forall i :: 0 <= i < |s| ==> s[i] != c
  {
    if s != [] {
      CountZero(s[1..], c);
      assert forall i :: 1 <= i < |s| ==> s[i] == s[1..][i - 1];
    }
  }

  /** Lowering never creates or removes a non-letter such as `,` or `.`. */
  lemma {:induction false} LowerKeepsCount(s: string, c: char)
    requires forall d :: LowerChar(d) == c <==> d == c
    ensures Count(Lower(s), c) == Count(s, c)
  {
    if s != [] {
      assert Lower(s)[1..] == Lower(s[1..]);
      LowerKeepsCount(s[1..], c);
    }
  }

  /** Text without capitals is its own lower case. */
  lemma LowerFixes(s: string)
    requires forall i :: 0 <= i < |s| ==> LowerChar(s[i]) == s[i]
    ensures Lower(s) == s
  {
  }

  /** Lowering twice is lowering once. */
  lemma LowerIdempotent(s: string)
    ensures Lower(Lower(s)) == Lower(s)
  {
    forall i | 0 <= i < |s|
      ensures Lower(Lower(s))[i] == Lower(s)[i]
    {
      var c := s[i];
      assert LowerChar(LowerChar(c)) == LowerChar(c);
    }
  }

  /** Lowering works piece by piece. */
  lemma LowerConcat(a: string, b: string)
    ensures Lower(a + b) == Lower(a) + Lower(b)
  {
    var r := Lower(a) + Lower(b);
    assert forall i | 0 <= i < |a + b| :: Lower(a + b)[i] == r[i];
  }

  // ---------------------------------------------------------------------
  // strip

  /** Length of the run of whitespace that starts `s`. */
  function LeadingSpaces(s: string): (n: nat)
    ensures n <= |s|
    ensures forall k :: 0 <= k < n ==> IsSpace(s[k])
    ensures n < |s| ==> !IsSpace(s[n])
  {
    if s != [] && IsSpace(s[0]) then 1 + LeadingSpaces(s[1..]) else 0
  }

  /** Length of the run of whitespace that ends `s`. */
  function TrailingSpaces(s: string): (n: nat)
    ensures n <= |s|
    ensures forall k :: |s| - n <= k < |s| ==> IsSpace(s[k])
    ensures n < |s| ==> !IsSpace(s[|s| - 1 - n])
  {
    if s != [] && IsSpace(s[|s| - 1]) then 1 + TrailingSpaces(s[..|s| - 1]) else 0
  }

  lemma {:induction false} CountOfSpaces(s: string, c: char)
    requires !IsSpace(c)
    requires forall k :: 0 <= k < |s| ==> IsSpace(s[k])
    ensures Count(s, c) == 0
  {
    CountZero(s, c);
  }

  /** `s.strip()`: whitespace removed at both ends. */
  function Strip(s: string): (r: string)
    ensures r == [] || (!IsSpace(r[0]) && !IsSpace(r[|r| - 1]))
    ensures (forall k :: 0 <= k < |s| ==> !IsSpace(s[k])) ==> r == s
  {
    var t := s[LeadingSpaces(s)..];
    t[..|t| - TrailingSpaces(t)]
  }

  /** `Strip` cuts whitespace at both ends and nothing else: its result is
      a slice of `s` with only whitespace before and after it. */
  lemma StripIsTrim(s: string)
    ensures exists i, j :: 0 <= i <= j <= |s| && Strip(s) == s[i..j]
                           && (forall k :: 0 <= k < i ==> IsSpace(s[k]))
                           && (forall k :: j <= k < |s| ==> IsSpace(s[k]))
  {
    var i := LeadingSpaces(s);
    var t := s[i..];
    var j := i + |t| - TrailingSpaces(t);
    StripSlice(s, i, t, TrailingSpaces(t));
    assert Strip(s) == s[i..j];
  }

  /** Cutting `n` trailing blanks from a suffix of `s` leaves a slice of
      `s` that only whitespace follows. */
  lemma StripSlice(s: string, i: nat, t: string, n: nat)
    requires i <= |s| && t == s[i..] && n <= |t|
    requires forall k :: |t| - n <= k < |t| ==> IsSpace(t[k])
    ensures t[..|t| - n] == s[i..i + |t| - n]
    ensures forall k :: i + |t| - n <= k < |s| ==> IsSpace(s[k])
  {
    forall k | i + |t| - n <= k < |s|
      ensures IsSpace(s[k])
    {
      assert s[k] == t[k - i];
    }
  }

  /** ... and nowhere else: every other character keeps its count. */
  lemma StripKeepsCount(s: string, c: char)
    requires !IsSpace(c)
    ensures Count(Strip(s), c) == Count(s, c)
  {
    var t := s[LeadingSpaces(s)..];
    LeadingSpacesKeepCount(s, c);
    TrailingSpacesKeepCount(t, c);
  }

  lemma LeadingSpacesKeepCount(s: string, c: char)
    requires !IsSpace(c)
    ensures Count(s[LeadingSpaces(s)..], c) == Count(s, c)
  {
    var a := LeadingSpaces(s);
    assert s == s[..a] + s[a..];
    CountConcat(s[..a], s[a..], c);
    CountOfSpaces(s[..a], c);
  }

  lemma TrailingSpacesKeepCount(t: string, c: char)
    requires !IsSpace(c)
    ensures Count(t[..|t| - TrailingSpaces(t)], c) == Count(t, c)
  {
    var m := |t| - TrailingSpaces(t);
    assert t == t[..m] + t[m..];
    CountConcat(t[..m], t[m..], c);
    CountOfSpaces(t[m..], c);
  }

  /** Text that neither starts nor ends with whitespace is already stripped,
      and one trailing blank after it is removed. */
  lemma StripTrimmed(s: string)
    requires s != [] && !IsSpace(s[0]) && !IsSpace(s[|s| - 1])
    ensures Strip(s) == s
    ensures Strip(s + " ") == s
  {
    var t := s + " ";
    assert t[0] == s[0];
    assert LeadingSpaces(t) == 0;
    assert t[..|t| - 1] == s;
    assert TrailingSpaces(t) == 1 + TrailingSpaces(s);
    assert t[..|t| - 1] == s;
  }

  // ---------------------------------------------------------------------
  // replace

  /** The four parts of `a + b + c + d` read back by slicing. */
  lemma SlicesOfConcat(a: string, b: string, c: string, d: string)
    ensures var s := a + b + c + d;
            && s[..|a|] == a
            && s[|a|..|a| + |b|] == b
            && s[|a| + |b|..] == c + d
            && s[|a| + |b| + |c|..|a| + |b| + |c| + |d|] == d
            && (c + d)[..|c|] == c
  {
  }

  /** Two strings that agree up to `n` agree on every slice before `n`. */
  lemma SlicesAgree(x: string, y: string, n: nat, e: nat, l: nat)
    requires n <= |x| && n <= |y| && x[..n] == y[..n] && e + l <= n
    ensures x[e..e + l] == y[e..e + l]
  {
    assert forall q :: e <= q < e + l ==> x[q] == x[..n][q] && y[q] == y[..n][q];
  }

  predicate StartsWith(s: string, prefix: string) {
    |prefix| <= |s| && s[..|prefix|] == prefix
  }

  /** `pat` occurs in `s` starting at index `i`. */
  predicate OccursAt(s: string, pat: string, i: int) {
    0 <= i && i + |pat| <= |s| && s[i..i + |pat|] == pat
  }

  /** `s.replace(pat, rep)`: scanning left to right, every non-overlapping
      occurrence of `pat` is replaced by `rep`. */
  function ReplaceAll(s: string, pat: string, rep: string): string
    requires |pat| > 0
    decreases |s|
  {
    if |s| < |pat| then s
    else if s[..|pat|] == pat then rep + ReplaceAll(s[|pat|..], pat, rep)
    else [s[0]] + ReplaceAll(s[1..], pat, rep)
  }

  lemma OccursAtShift(p: string, q: string, pat: string, i: nat)
    requires p != [] && OccursAt(p[1..] + q, pat, i)
    ensures OccursAt(p + q, pat, i + 1)
  {
    assert (p + q)[1..] == p[1..] + q;
    assert (p + q)[i + 1..i + 1 + |pat|] == (p[1..] + q)[i..i + |pat|];
  }

  /** A prefix `p` in which no occurrence of `pat` starts is copied as it is. */
  lemma {:induction false} ReplaceAllSkipsPrefix(p: string, q: string, pat: string, rep: string)
    requires |pat| > 0
    requires forall i :: 0 <= i < |p| ==> !OccursAt(p + q, pat, i)
    ensures ReplaceAll(p + q, pat, rep) == p + ReplaceAll(q, pat, rep)
  {
    var s := p + q;
    if p == [] {
      assert s == q;
    } else if |s| < |pat| {
      assert ReplaceAll(q, pat, rep) == q;
    } else {
      assert !OccursAt(s, pat, 0);
      assert s[1..] == p[1..] + q;
      forall i | 0 <= i < |p[1..]| ensures !OccursAt(p[1..] + q, pat, i) {
        if OccursAt(p[1..] + q, pat, i) {
          OccursAtShift(p, q, pat, i);
        }
      }
      ReplaceAllSkipsPrefix(p[1..], q, pat, rep);
      assert ReplaceAll(s, pat, rep) == [p[0]] + ReplaceAll(p[1..] + q, pat, rep);
      assert [p[0]] + p[1..] == p;
    }
  }

  /** An occurrence of `pat` at the front is replaced by `rep`, and the
      scan resumes after it. With `ReplaceAllSkipsPrefix` this fixes
      `replace` on every input. */
  lemma ReplaceAllAtMatch(pat: string, rest: string, rep: string)
    requires |pat| > 0
    ensures ReplaceAll(pat + rest, pat, rep) == rep + ReplaceAll(rest, pat, rep)
  {
    assert (pat + rest)[..|pat|] == pat;
    assert (pat + rest)[|pat|..] == rest;
  }

  /** Without an occurrence of `pat`, `replace` changes nothing. */
  lemma ReplaceAllAbsent(s: string, pat: string, rep: string)
    requires |pat| > 0
    requires forall i :: 0 <= i < |s| ==> !OccursAt(s, pat, i)
    ensures ReplaceAll(s, pat, rep) == s
  {
    assert s + [] == s;
    ReplaceAllSkipsPrefix(s, [], pat, rep);
  }

  /** A pattern whose first character is absent does not occur. */
  lemma ReplaceAllNoFirstChar(s: string, pat: string, rep: string)
    requires |pat| > 0
    requires forall i :: 0 <= i < |s| ==> s[i] != pat[0]
    ensures ReplaceAll(s, pat, rep) == s
  {
    forall i | 0 <= i < |s| ensures !OccursAt(s, pat, i) {
      assert i + |pat| <= |s| ==> s[i..i + |pat|][0] == s[i];
    }
    ReplaceAllAbsent(s, pat, rep);
  }

  /** Replacing one character works piece by piece. */
  lemma {:induction false} ReplaceCharConcat(a: string, b: string, c: char, rep: string)
    ensures ReplaceAll(a + b, [c], rep) == ReplaceAll(a, [c], rep) + ReplaceAll(b, [c], rep)
  {
    if a == [] {
      assert a + b == b;
    } else {
      assert (a + b)[1..] == a[1..] + b;
      assert (a + b)[..1] == a[..1];
      ReplaceCharConcat(a[1..], b, c, rep);
    }
  }

  /** A single occurrence of the character `c` is replaced by `rep`. */
  lemma ReplaceSingleChar(x: string, y: string, c: char, rep: string)
    requires forall i :: 0 <= i < |x| ==> x[i] != c
    requires forall i :: 0 <= i < |y| ==> y[i] != c
    ensures ReplaceAll(x + [c] + y, [c], rep) == x + rep + y
  {
    ReplaceCharConcat(x, [c] + y, c, rep);
    ReplaceCharConcat([c], y, c, rep);
    ReplaceAllNoFirstChar(x, [c], rep);
    ReplaceAllNoFirstChar(y, [c], rep);
    assert ReplaceAll([c], [c], rep) == rep;
    assert x + [c] + y == x + ([c] + y);
  }

  /** Replacing a pattern that `c` is not part of by text without `c`
      keeps the number of `c`s. */
  lemma {:induction false} ReplaceAllKeepsCount(s: string, pat: string, rep: string, c: char)
    requires |pat| > 0 && Count(pat, c) == 0 && Count(rep, c) == 0
    ensures Count(ReplaceAll(s, pat, rep), c) == Count(s, c)
    decreases |s|
  {
    if |s| < |pat| {
    } else if s[..|pat|] == pat {
      assert s == pat + s[|pat|..];
      CountConcat(pat, s[|pat|..], c);
      CountConcat(rep, ReplaceAll(s[|pat|..], pat, rep), c);
      ReplaceAllKeepsCount(s[|pat|..], pat, rep, c);
    } else {
      CountConcat([s[0]], ReplaceAll(s[1..], pat, rep), c);
      ReplaceAllKeepsCount(s[1..], pat, rep, c);
    }
  }

  /** Replacing the single character `c` by `rep`: the `c`s are gone and
      each one contributed the characters of `rep`. */
  lemma {:induction false} ReplaceCharCount(s: string, c: char, rep: string, d: char)
    ensures Count(ReplaceAll(s, [c], rep), d)
         == (if c == d then 0 else Count(s, d)) + Count(s, c) * Count(rep, d)
    decreases |s|
  {
    if s != [] {
      ReplaceCharCount(s[1..], c, rep, d);
      var k := Count(rep, d);
      if s[0] == c {
        assert s[..1] == [c];
        CountConcat(rep, ReplaceAll(s[1..], [c], rep), d);
        assert Count(s, c) * k == k + Count(s[1..], c) * k;
      } else {
        assert s[..1] != [c];
        CountConcat([s[0]], ReplaceAll(s[1..], [c], rep), d);
      }
    }
  }

  // ---------------------------------------------------------------------
  // digits

  function DigitChar(d: nat): (c: char)
    requires d < 10
    ensures IsDigit(c)
  {
    ('0' as int + d) as char
  }

  function DigitValue(c: char): (d: nat)
    requires IsDigit(c)
    ensures d < 10
  {
    c as int - '0' as int
  }

  /** Python `int()` of a string of decimal digits. */
  function DigitsValue(ds: string): nat
    requires AllDigits(ds)
  {
    if ds == [] then 0 else DigitsValue(ds[..|ds| - 1]) * 10 + DigitValue(ds[|ds| - 1])
  }

  /** The decimal digits of `n`, as `str(n)` writes them. */
  function NatToString(n: nat): (r: string)
    ensures |r| >= 1 && AllDigits(r)
    decreases n
  {
    if n < 10 then [DigitChar(n)] else NatToString(n / 10) + [DigitChar(n % 10)]
  }

  /** `str(n)` writes no leading zero: only `"0"` itself starts with `0`. */
  lemma {:induction false} NatToStringNoLeadingZero(n: nat)
    ensures |NatToString(n)| == 1 || NatToString(n)[0] != '0'
    decreases n
  {
    if n >= 10 {
      NatToStringNoLeadingZero(n / 10);
      assert NatToString(n)[0] == NatToString(n / 10)[0];
    }
  }

  /** `str(i)` for an `int`, with a leading `-` when negative. */
  function IntToString(i: int): string {
    if i < 0 then "-" + NatToString(-i) else NatToString(i)
  }

  /** Reading back the digits `str(n)` wrote gives `n`. */
  lemma {:induction false} NatToStringRoundTrip(n: nat)
    ensures DigitsValue(NatToString(n)) == n
    decreases n
  {
    var r := NatToString(n);
    if n < 10 {
      assert r[..0] == [];
    } else {
      NatToStringRoundTrip(n / 10);
      assert r[..|r| - 1] == NatToString(n / 10);
    }
  }

  /** Length of the run of digits that starts `s`. */
  function LeadingDigits(s: string): (n: nat)
    ensures n <= |s|
    ensures AllDigits(s[..n])
    ensures n < |s| ==> !IsDigit(s[n])
  {
    if s != [] && IsDigit(s[0]) then
      var n := 1 + LeadingDigits(s[1..]);
      assert forall k :: 1 <= k < n ==> s[..n][k] == s[1..][..n - 1][k - 1];
      n
    else 0
  }

  /** The run of leading digits stops at the first non-digit. */
  lemma {:induction false} LeadingDigitsBound(t: string, x: nat)
    requires x < |t| && !IsDigit(t[x])
    ensures LeadingDigits(t) <= x
  {
    if IsDigit(t[0]) {
      assert t[1..][x - 1] == t[x];
      LeadingDigitsBound(t[1..], x - 1);
    }
  }

  lemma {:induction false} LeadingDigitsOfDigitsThen(ds: string, rest: string)
    requires AllDigits(ds)
    requires rest == [] || !IsDigit(rest[0])
    ensures LeadingDigits(ds + rest) == |ds|
  {
    if ds != [] {
      assert (ds + rest)[1..] == ds[1..] + rest;
      LeadingDigitsOfDigitsThen(ds[1..], rest);
    } else {
      assert ds + rest == rest;
    }
  }

  /** Index of the first `c` in `s`, if any: where `s.split(c, 1)` cuts. */
  function IndexOf(s: string, c: char): (r: Option<nat>)
    ensures r.Some? ==>
              r.value < |s| && s[r.value] == c && forall k :: 0 <= k < r.value ==> s[k] != c
    ensures r.None? ==> forall k :: 0 <= k < |s| ==> s[k] != c
  {
    if s == [] then None
    else if s[0] == c then Some(0)
    else match IndexOf(s[1..], c)
      case None => None
      case Some(i) => Some(i + 1)
  }

  // ---------------------------------------------------------------------
  // ordering

  /** Python's `<` on `str`: lexicographic by code point, a proper prefix
      first. */
  predicate LexLt(a: string, b: string) {
    if a == [] then b != []
    else if b == [] then false
    else if a[0] != b[0] then a[0] < b[0]
    else LexLt(a[1..], b[1..])
  }

  lemma {:induction false} LexLtIrreflexive(a: string)
    ensures !LexLt(a, a)
  {
    if a != [] {
      LexLtIrreflexive(a[1..]);
    }
  }

  lemma {:induction false} LexLtTransitive(a: string, b: string, c: string)
    requires LexLt(a, b) && LexLt(b, c)
    ensures LexLt(a, c)
  {
    if a != [] && a[0] == b[0] && b[0] == c[0] {
      LexLtTransitive(a[1..], b[1..], c[1..]);
    }
  }

  lemma {:induction false} LexLtTotal(a: string, b: string)
    ensures a == b || LexLt(a, b) || LexLt(b, a)
  {
    if a != [] && b != [] && a[0] == b[0] {
      LexLtTotal(a[1..], b[1..]);
      if a[1..] == b[1..] {
        assert a == [a[0]] + a[1..] && b == [b[0]] + b[1..];
      }
    }
  }

  /** After a common prefix, the first differing character decides. */
  lemma {:induction false} LexLtAfterCommonPrefix(p: string, x: string, y: string)
    requires x != [] && y != [] && x[0] < y[0]
    ensures LexLt(p + x, p + y)
  {
    if p != [] {
      assert (p + x)[1..] == p[1..] + x && (p + y)[1..] == p[1..] + y;
      LexLtAfterCommonPrefix(p[1..], x, y);
    }
  }

  lemma LexLtAsymmetric(a: string, b: string)
    requires LexLt(a, b)
    ensures !LexLt(b, a)
  {
    if LexLt(b, a) {
      LexLtTransitive(a, b, a);
      LexLtIrreflexive(a);
    }
  }
}
