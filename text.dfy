/**
 * Character classes and hand-written string scanners shared by the
 * markdown reader, the copy-paste reconstructor and the bot.  Strings are
 * sequences of Unicode scalar values, as Python `str` indices are.
 */
module Text {

  /** Python's `str.isspace`, the test `str.strip()` uses. */
  predicate IsSpace(c: char)
  {
    var n := c as int;
    (0x09 <= n <= 0x0D) || (0x1C <= n <= 0x20) || n == 0x85 || n == 0xA0 ||
    n == 0x1680 || (0x2000 <= n <= 0x200A) || n == 0x2028 || n == 0x2029 ||
    n == 0x202F || n == 0x205F || n == 0x3000
  }

  /** The `\s` class of the `regex` package: the Unicode White_Space property. */
  predicate IsRegexSpace(c: char)
  {
    var n := c as int;
    (0x09 <= n <= 0x0D) || n == 0x20 || n == 0x85 || n == 0xA0 ||
    n == 0x1680 || (0x2000 <= n <= 0x200A) || n == 0x2028 || n == 0x2029 ||
    n == 0x202F || n == 0x205F || n == 0x3000
  }

  /** The Unicode general category Sc (currency symbols), `\p{Sc}`. */
  predicate IsCurrencySymbol(c: char)
  {
    var n := c as int;
    n == 0x24 || (0xA2 <= n <= 0xA5) || n == 0x58F || n == 0x60B ||
    (0x7FE <= n <= 0x7FF) || (0x9F2 <= n <= 0x9F3) || n == 0x9FB ||
    n == 0xAF1 || n == 0xBF9 || n == 0xE3F || n == 0x17DB ||
    (0x20A0 <= n <= 0x20C0) || n == 0xA838 || n == 0xFDFC || n == 0xFE69 ||
    n == 0xFF04 || (0xFFE0 <= n <= 0xFFE1) || (0xFFE5 <= n <= 0xFFE6) ||
    (0x11FDD <= n <= 0x11FE0) || n == 0x1E2FF || n == 0x1ECB0
  }

  /** The class `[0-9,\.]` of the currency pattern. */
  predicate IsAmountChar(c: char)
  {
    ('0' <= c <= '9') || c == ',' || c == '.'
  }

  /** `\w`: ASCII letters, digits and `_`; every other non-ASCII character
      that is neither white space nor a currency symbol counts as a word
      character. */
  predicate IsWordChar(c: char)
  {
    ('a' <= c <= 'z') || ('A' <= c <= 'Z') || ('0' <= c <= '9') || c == '_' ||
    (c as int >= 0x80 && !IsRegexSpace(c) && !IsCurrencySymbol(c))
  }

  /** `str.lower()` on ASCII letters; other characters are kept. */
  function LowerChar(c: char): char
  {
    if 'A' <= c <= 'Z' then (c as int + 32) as char else c
  }

  function Lower(s: string): (r: string)
    ensures |r| == |s|
    ensures forall i :: 0 <= i < |s| ==> r[i] == LowerChar(s[i])
  {
    seq(|s|, i requires 0 <= i < |s| => LowerChar(s[i]))
  }

  /** `s[i:i+len(p)] == p`, with `i + len(p)` inside `s`. */
  predicate StartsWithAt(s: string, i: nat, p: string)
  {
    i + |p| <= |s| && s[i..i + |p|] == p
  }

  /** Does `p` occur in `s` at or after position `i`? A left-to-right scan. */
  predicate ContainsFrom(s: string, i: nat, p: string)
    decreases |s| - i
  {
    i + |p| <= |s| && (StartsWithAt(s, i, p) || ContainsFrom(s, i + 1, p))
  }

  predicate Contains(s: string, p: string)
  {
    ContainsFrom(s, 0, p)
  }

  lemma {:induction false} ContainsFromIff(s: string, i: nat, p: string)
    ensures ContainsFrom(s, i, p) <==> exists k :: i <= k && StartsWithAt(s, k, p)
    decreases |s| - i
  {
    if i + |p| <= |s| {
      ContainsFromIff(s, i + 1, p);
      if !StartsWithAt(s, i, p) {
        forall k | i <= k && StartsWithAt(s, k, p)
          ensures i + 1 <= k
        {
          if k == i {}
        }
      }
    }
  }

  /** Number of occurrences of `c` in `s` (Python's `str.count` for one character). */
  function CountChar(s: string, c: char): nat
  {
    if |s| == 0 then 0 else (if s[0] == c then 1 else 0) + CountChar(s[1..], c)
  }

  /** The count is the multiplicity of `c` in the multiset of the string's characters. */
  lemma {:induction false} CountCharIsMultiplicity(s: string, c: char)
    ensures CountChar(s, c) == multiset(s)[c]
  {
    if |s| > 0 {
      CountCharIsMultiplicity(s[1..], c);
      assert s == [s[0]] + s[1..];
      assert multiset(s) == multiset([s[0]]) + multiset(s[1..]);
    }
  }

  lemma {:induction false} CountCharAppend(a: string, b: string, c: char)
    ensures CountChar(a + b, c) == CountChar(a, c) + CountChar(b, c)
  {
    if |a| == 0 {
      assert a + b == b;
    } else {
      assert (a + b)[1..] == a[1..] + b;
      CountCharAppend(a[1..], b, c);
    }
  }

  lemma {:induction false} NoCharNoCount(s: string, c: char)
    requires Lacks(s, c)
    ensures CountChar(s, c) == 0
  {
    if |s| > 0 {
      NoCharNoCount(s[1..], c);
    }
  }

  /** `x|y|z` built from pieces without a bar has two bars. */
  lemma CountBarred(x: string, y: string, z: string)
    requires Lacks(x, '|') && Lacks(y, '|') && Lacks(z, '|')
    ensures CountChar(x + "|" + y + "|" + z, '|') == 2
  {
    NoCharNoCount(x, '|');
    NoCharNoCount(y, '|');
    NoCharNoCount(z, '|');
    CountCharAppend(x + "|" + y + "|", z, '|');
    CountCharAppend(x + "|" + y, "|", '|');
    CountCharAppend(x + "|", y, '|');
    CountCharAppend(x, "|", '|');
  }

  lemma LacksAppend(x: string, y: string, c: char)
    requires Lacks(x, c) && Lacks(y, c)
    ensures Lacks(x + y, c)
  {
    forall k | 0 <= k < |x + y| ensures (x + y)[k] != c {
      if k >= |x| { assert (x + y)[k] == y[k - |x|]; }
    }
  }

  /** `x|y|z` lacks `c` when its pieces do and `c` is no bar. */
  lemma LacksBarred(x: string, y: string, z: string, c: char)
    requires c != '|' && Lacks(x, c) && Lacks(y, c) && Lacks(z, c)
    ensures Lacks(x + "|" + y + "|" + z, c)
  {
    LacksAppend(x, "|", c);
    LacksAppend(x + "|", y, c);
    LacksAppend(x + "|" + y, "|", c);
    LacksAppend(x + "|" + y + "|", z, c);
  }

  lemma LowerAppend(x: string, y: string)
    ensures Lower(x + y) == Lower(x) + Lower(y)
  {
    assert forall k :: 0 <= k < |x + y| ==> (x + y)[k] == if k < |x| then x[k] else y[k - |x|];
  }

  // ---------------------------------------------------------------------
  // str.strip()

  /** Index of the first character that is not white space. */
  function StripStart(s: string): (i: nat)
    ensures i <= |s|
    ensures forall k :: 0 <= k < i ==> IsSpace(s[k])
    ensures i < |s| ==> !IsSpace(s[i])
  {
    if |s| == 0 || !IsSpace(s[0]) then 0 else 1 + StripStart(s[1..])
  }

  /** Index just after the last character that is not white space. */
  function StripEnd(s: string): (j: nat)
    ensures j <= |s|
    ensures forall k :: j <= k < |s| ==> IsSpace(s[k])
    ensures j > 0 ==> !IsSpace(s[j - 1])
  {
    if |s| == 0 || !IsSpace(s[|s| - 1]) then |s| else StripEnd(s[..|s| - 1])
  }

  /** Python's `str.strip()`: drop leading and trailing white space. */
  function Strip(s: string): (r: string)
    ensures StripStart(s) <= StripEnd(s) ==> r == s[StripStart(s)..StripEnd(s)]
    ensures StripStart(s) > StripEnd(s) ==> r == []
    ensures forall k :: 0 <= k < |r| ==> (k == 0 || k == |r| - 1 ==> !IsSpace(r[k]))
  {
    var i := StripStart(s);
    var j := StripEnd(s);
    if i <= j then s[i..j] else []
  }

  /** A slice of a slice is a slice. */
  lemma SliceOfSlice(s: string, i: nat, j: nat, k: nat, n: nat)
    requires i <= j <= |s| && k + n <= j - i
    ensures s[i..j][k..k + n] == s[i + k..i + k + n]
  {
    var a, b := s[i..j][k..k + n], s[i + k..i + k + n];
    forall t | 0 <= t < n
      ensures a[t] == b[t]
    {
      assert a[t] == s[i..j][k + t] == s[i + k + t];
    }
  }

  /** A non-blank piece of `s` survives `Strip` unchanged. */
  lemma StripKeepsInner(s: string, k: nat, p: string)
    requires StartsWithAt(s, k, p)
    requires forall m :: 0 <= m < |p| ==> !IsSpace(p[m])
    requires |p| > 0
    ensures StripStart(s) <= k
    ensures StartsWithAt(Strip(s), k - StripStart(s), p)
  {
    assert s[k..k + |p|][0] == p[0];
    assert s[k..k + |p|][|p| - 1] == p[|p| - 1];
    NonSpaceAfterStripStart(s, k);
    NonSpaceBeforeStripEnd(s, k + |p| - 1);
    var i, j := StripStart(s), StripEnd(s);
    OccurrenceStaysInSlice(s, i, j, Strip(s), k, p);
  }

  /** An occurrence inside `s[i..j]` is one in the slice, shifted by `i`. */
  lemma OccurrenceStaysInSlice(s: string, i: nat, j: nat, r: string, k: nat, p: string)
    requires i <= k && k + |p| <= j <= |s|
    requires r == s[i..j]
    requires StartsWithAt(s, k, p)
    ensures StartsWithAt(r, k - i, p)
  {
    SliceOfSlice(s, i, j, k - i, |p|);
  }

  /** No non-space character precedes the start of the stripped text. */
  lemma NonSpaceAfterStripStart(s: string, k: nat)
    requires k < |s| && !IsSpace(s[k])
    ensures StripStart(s) <= k
  {
  }

  /** No non-space character follows the end of the stripped text. */
  lemma NonSpaceBeforeStripEnd(s: string, k: nat)
    requires k < |s| && !IsSpace(s[k])
    ensures k < StripEnd(s)
  {
  }

  /** Any occurrence in `Strip(s)` is an occurrence in `s`. */
  lemma StripIsSlice(s: string, k: nat, p: string)
    requires StartsWithAt(Strip(s), k, p)
    ensures StartsWithAt(s, k + StripStart(s), p)
  {
    OccurrenceInSlice(s, StripStart(s), StripEnd(s), Strip(s), k, p);
  }

  /** An occurrence in a slice (or in the empty text) is one in the whole. */
  lemma OccurrenceInSlice(s: string, i: nat, j: nat, r: string, k: nat, p: string)
    requires i <= |s| && j <= |s|
    requires i <= j ==> r == s[i..j]
    requires i > j ==> r == []
    requires StartsWithAt(r, k, p)
    ensures StartsWithAt(s, k + i, p)
  {
    if i <= j {
      SliceOfSlice(s, i, j, k, |p|);
    }
  }

  // ---------------------------------------------------------------------
  // Splitting and joining

  /** `sep.join(xs)`. */
  function Join(xs: seq<string>, sep: string): string
  {
    if |xs| == 0 then "" else if |xs| == 1 then xs[0] else xs[0] + sep + Join(xs[1..], sep)
  }

  /** `s.split(c)`: always at least one piece. */
  function Split(s: string, c: char): (r: seq<string>)
    ensures |r| >= 1
  {
    if |s| == 0 then [""]
    else
      var rest := Split(s[1..], c);
      if s[0] == c then [""] + rest else [[s[0]] + rest[0]] + rest[1..]
  }

  /** `s.splitlines()` for `\n` line ends: no trailing empty piece. */
  function SplitLines(s: string): (r: seq<string>)
    ensures forall k :: 0 <= k < |r| ==> Lacks(r[k], '\n')
  {
    if |s| == 0 then []
    else
      var parts := Split(s, '\n');
      SplitNoSep(s, '\n');
      if s[|s| - 1] == '\n' then parts[..|parts| - 1] else parts
  }

  predicate Lacks(s: string, c: char)
  {
    forall k :: 0 <= k < |s| ==> s[k] != c
  }

  lemma {:induction false} SplitNoSep(s: string, c: char)
    ensures forall k :: 0 <= k < |Split(s, c)| ==> Lacks(Split(s, c)[k], c)
  {
    if |s| > 0 {
      SplitNoSep(s[1..], c);
    }
  }

  lemma {:induction false} SplitFree(a: string, c: char)
    requires Lacks(a, c)
    ensures Split(a, c) == [a]
  {
    if |a| > 0 {
      SplitFree(a[1..], c);
      assert [a[0]] + a[1..] == a;
    }
  }

  lemma {:induction false} SplitAfterSep(a: string, b: string, c: char)
    requires Lacks(a, c)
    ensures Split(a + [c] + b, c) == [a] + Split(b, c)
  {
    if |a| == 0 {
      assert (a + [c] + b)[1..] == b;
    } else {
      assert (a + [c] + b)[1..] == a[1..] + [c] + b;
      SplitAfterSep(a[1..], b, c);
      assert [a[0]] + a[1..] == a;
    }
  }

  /** Splitting undoes joining when no piece holds the separator. */
  lemma {:induction false} SplitJoin(xs: seq<string>, c: char)
    requires |xs| > 0
    requires forall k :: 0 <= k < |xs| ==> Lacks(xs[k], c)
    ensures Split(Join(xs, [c]), c) == xs
  {
    if |xs| == 1 {
      SplitFree(xs[0], c);
    } else {
      SplitJoin(xs[1..], c);
      SplitAfterSep(xs[0], Join(xs[1..], [c]), c);
      assert [xs[0]] + xs[1..] == xs;
    }
  }

  /** A join ends with its last piece. */
  lemma {:induction false} JoinEndsWithLast(xs: seq<string>, sep: string)
    requires |xs| > 0
    ensures var j, l := Join(xs, sep), xs[|xs| - 1]; |l| <= |j| && j[|j| - |l|..] == l
  {
    if |xs| > 1 {
      JoinEndsWithLast(xs[1..], sep);
      var j := Join(xs[1..], sep);
      assert Join(xs, sep) == (xs[0] + sep) + j;
      assert xs[1..][|xs[1..]| - 1] == xs[|xs| - 1];
    }
  }

  /** `splitlines` undoes joining with `"\n"` when no piece holds a line
      break and the last piece is not empty. */
  lemma SplitLinesJoin(xs: seq<string>)
    requires |xs| > 0 && |xs[|xs| - 1]| > 0
    requires forall k :: 0 <= k < |xs| ==> Lacks(xs[k], '\n')
    ensures SplitLines(Join(xs, "\n")) == xs
  {
    SplitJoin(xs, '\n');
    JoinEndsWithLast(xs, "\n");
    var s, l := Join(xs, "\n"), xs[|xs| - 1];
    assert s[|s| - 1] == s[|s| - |l|..][|l| - 1] == l[|l| - 1] != '\n';
  }

  /** A non-empty line without a line break splits into itself. */
  lemma SplitOneLine(a: string)
    requires Lacks(a, '\n') && |a| > 0
    ensures SplitLines(a) == [a]
  {
    SplitLinesJoin([a]);
  }

  /** Two lines joined by a line break split back into the two. */
  lemma SplitTwoLines(a: string, b: string)
    requires Lacks(a, '\n') && Lacks(b, '\n') && |b| > 0
    ensures SplitLines(a + "\n" + b) == [a, b]
  {
    var xs := [a, b];
    assert Join(xs, "\n") == a + "\n" + b;
    SplitLinesJoin(xs);
  }

  // ---------------------------------------------------------------------
  // str.replace

  /** `s.replace(pat, rep)`: every left-to-right, non-overlapping occurrence. */
  function Replace(s: string, pat: string, rep: string): string
    requires |pat| > 0
  {
    if |s| < |pat| then s
    else if s[..|pat|] == pat then rep + Replace(s[|pat|..], pat, rep)
    else [s[0]] + Replace(s[1..], pat, rep)
  }

  /** Without an occurrence of the placeholder the text comes back unchanged. */
  lemma {:induction false} ReplaceAbsent(s: string, pat: string, rep: string)
    requires |pat| > 0
    requires !Contains(s, pat)
    ensures Replace(s, pat, rep) == s
  {
    ContainsFromIff(s, 0, pat);
    if |s| >= |pat| {
      assert !StartsWithAt(s, 0, pat);
      ContainsFromIff(s[1..], 0, pat);
      forall k | 0 <= k && StartsWithAt(s[1..], k, pat)
        ensures false
      {
        assert s[1..][k..k + |pat|] == s[k + 1..k + 1 + |pat|];
        assert StartsWithAt(s, k + 1, pat);
      }
      ReplaceAbsent(s[1..], pat, rep);
      assert [s[0]] + s[1..] == s;
    }
  }

  /** A template holding only the placeholder becomes the replacement. */
  lemma ReplaceWhole(pat: string, rep: string)
    requires |pat| > 0
    ensures Replace(pat, pat, rep) == rep
  {
    assert pat[..|pat|] == pat;
    assert Replace(pat[|pat|..], pat, rep) == [];
  }

  // ---------------------------------------------------------------------
  // Substring facts

  /** An occurrence at a known position. */
  lemma ContainsAt(s: string, k: nat, p: string)
    requires StartsWithAt(s, k, p)
    ensures Contains(s, p)
  {
    ContainsFromIff(s, 0, p);
  }

  /** Every text contains the empty text. */
  lemma ContainsEmpty(s: string)
    ensures Contains(s, "")
  {
    assert StartsWithAt(s, 0, "");
  }

  /** An occurrence in the middle piece is an occurrence in the whole. */
  lemma ContainsInside(a: string, p: string, b: string)
    ensures Contains(a + p + b, p)
  {
    assert (a + p + b)[|a|..|a| + |p|] == p;
    ContainsAt(a + p + b, |a|, p);
  }

  /** Containment is transitive. */
  lemma ContainsTrans(s: string, p: string, q: string)
    requires Contains(s, p) && Contains(p, q)
    ensures Contains(s, q)
  {
    ContainsFromIff(s, 0, p);
    ContainsFromIff(p, 0, q);
    var i :| 0 <= i && StartsWithAt(s, i, p);
    var j :| 0 <= j && StartsWithAt(p, j, q);
    SliceOfSlice(s, i, i + |p|, j, |q|);
    ContainsAt(s, i + j, q);
  }

  /** Filling a placeholder that occurs puts the replacement into the result. */
  lemma {:induction false} ReplaceInserts(s: string, pat: string, rep: string)
    requires |pat| > 0 && Contains(s, pat)
    ensures Contains(Replace(s, pat, rep), rep)
    decreases |s|
  {
    ContainsFromIff(s, 0, pat);
    var k :| 0 <= k && StartsWithAt(s, k, pat);
    if s[..|pat|] == pat {
      ContainsInside([], rep, Replace(s[|pat|..], pat, rep));
      assert [] + rep + Replace(s[|pat|..], pat, rep) == Replace(s, pat, rep);
    } else {
      assert k > 0;
      assert s[1..][k - 1..k - 1 + |pat|] == s[k..k + |pat|];
      ContainsAt(s[1..], k - 1, pat);
      ReplaceInserts(s[1..], pat, rep);
      var rest := Replace(s[1..], pat, rep);
      ContainsInside([s[0]], rest, []);
      ContainsTrans([s[0]] + rest + [], rest, rep);
      assert [s[0]] + rest + [] == Replace(s, pat, rep);
    }
  }
}
