/**
 * parse_md.py: repairs an existing but malformed markdown table.  The
 * line predicates and fix-ups are functions; reading a header, reading a
 * row, padding the footer and the scan over the lines are methods on a
 * `Table`, each proved against a function on `TableValue`.
 */
module MarkdownReader {
  import opened Text
  import opened Tables
  import opened Outcomes

  // ---------------------------------------------------------------------
  // Line predicates

  /** First word character at or after `i`. */
  function SkipNonWord(s: string, i: nat): (j: nat)
    requires i <= |s|
    ensures i <= j <= |s|
    ensures forall k :: i <= k < j ==> !IsWordChar(s[k])
    ensures j < |s| ==> IsWordChar(s[j])
    decreases |s| - i
  {
    if i < |s| && !IsWordChar(s[i]) then SkipNonWord(s, i + 1) else i
  }

  predicate HasBar(s: string, i: nat, j: nat)
    requires i <= j <= |s|
  {
    exists k :: i <= k < j && s[k] == '|'
  }

  /** `type\W*\|\W*item\W*\|\W*price` matches at `i` of the lowered line.
      Each `\W*\|\W*` is the whole run of non-word characters up to the
      next keyword, which starts with a word character. */
  predicate HeaderAt(s: string, i: nat)
  {
    StartsWithAt(s, i, "type") &&
    var a := SkipNonWord(s, i + 4);
    HasBar(s, i + 4, a) && StartsWithAt(s, a, "item") &&
    var b := SkipNonWord(s, a + 4);
    HasBar(s, a + 4, b) && StartsWithAt(s, b, "price")
  }

  /** `is_table_header`: the header regex found anywhere in the lowered line. */
  predicate IsTableHeader(line: string)
  {
    var s := Lower(line);
    exists i :: 0 <= i < |s| && HeaderAt(s, i)
  }

  /** The alignment regex `(\|?:\-+:?)|(\|?\-+:)` matches exactly where a
      `:-` or a `-:` occurs. */
  predicate HasAlignmentMarker(s: string)
  {
    Contains(s, ":-") || Contains(s, "-:")
  }

  /** `is_column_alignments`: the test on the stripped line. */
  predicate IsColumnAlignments(line: string)
  {
    HasAlignmentMarker(Strip(line))
  }

  /** `has_table_md`: the same test on the whole post. */
  predicate HasTableMd(postText: string)
  {
    HasAlignmentMarker(postText)
  }

  /** `is_table_row`: two to four vertical bars. */
  predicate IsTableRow(line: string)
  {
    2 <= CountChar(line, '|') <= 4
  }

  /** `fix_escaped_seq`: `re.subn(r"\\(\[|\*|\])", r"\1", line)`, a
      left-to-right scan that drops the backslash of each `\[`, `\*`, `\]`
      and counts the drops. */
  function FixEscapedSeq(s: string): (r: (string, nat))
    ensures |r.0| + r.1 == |s|
  {
    if |s| >= 2 && s[0] == '\\' && s[1] in "[*]" then
      var rest := FixEscapedSeq(s[2..]);
      ([s[1]] + rest.0, rest.1 + 1)
    else if |s| == 0 then ("", 0)
    else
      var rest := FixEscapedSeq(s[1..]);
      ([s[0]] + rest.0, rest.1)
  }

  // ---------------------------------------------------------------------
  // Properties of the predicates

  /** Stripping never changes the alignment test: `:-` and `-:` hold no
      white space, so each occurrence lies inside the stripped line. */
  lemma AlignmentIgnoresStrip(line: string)
    ensures IsColumnAlignments(line) == HasTableMd(line)
  {
    MarkerIgnoresStrip(line, ":-");
    MarkerIgnoresStrip(line, "-:");
  }

  lemma MarkerIgnoresStrip(s: string, p: string)
    requires |p| == 2 && !IsSpace(p[0]) && !IsSpace(p[1])
    ensures Contains(Strip(s), p) == Contains(s, p)
  {
    ContainsFromIff(s, 0, p);
    ContainsFromIff(Strip(s), 0, p);
    if Contains(s, p) {
      var k :| 0 <= k && StartsWithAt(s, k, p);
      StripKeepsInner(s, k, p);
    }
    if Contains(Strip(s), p) {
      var k :| 0 <= k && StartsWithAt(Strip(s), k, p);
      StripIsSlice(s, k, p);
    }
  }

  lemma CountAtLeastTwo(s: string, c: char, k1: nat, k2: nat)
    requires k1 < k2 < |s| && s[k1] == c && s[k2] == c
    ensures CountChar(s, c) >= 2
  {
    assert s == s[..k2] + s[k2..];
    CountCharAppend(s[..k2], s[k2..], c);
    assert s[..k2] == s[..k1] + s[k1..k2];
    CountCharAppend(s[..k1], s[k1..k2], c);
  }

  /** A header holds at least two vertical bars, so only a header with more
      than four bars fails the row test that is applied first. */
  lemma HeaderHasTwoBars(line: string)
    requires IsTableHeader(line)
    ensures CountChar(line, '|') >= 2
  {
    var s := Lower(line);
    var i :| 0 <= i < |s| && HeaderAt(s, i);
    var k1, k2 := HeaderBars(s, i);
    LowerKeepsBar(line, k1);
    LowerKeepsBar(line, k2);
    CountAtLeastTwo(line, '|', k1, k2);
  }

  /** The two bars a header match runs over. */
  lemma HeaderBars(s: string, i: nat) returns (k1: nat, k2: nat)
    requires HeaderAt(s, i)
    ensures k1 < k2 < |s| && s[k1] == '|' && s[k2] == '|'
  {
    var a := SkipNonWord(s, i + 4);
    var b := SkipNonWord(s, a + 4);
    k1 :| i + 4 <= k1 < a && s[k1] == '|';
    k2 :| a + 4 <= k2 < b && s[k2] == '|';
  }

  /** Lowering leaves a bar where it was and makes no new one. */
  lemma LowerKeepsBar(line: string, k: nat)
    requires k < |line| && Lower(line)[k] == '|'
    ensures line[k] == '|'
  {}

  /** The fix deletes backslashes only: every other character keeps its
      count, and the backslash count drops by the number of repairs. */
  lemma {:induction false} FixEscapedDeletesBackslashes(s: string, c: char)
    ensures c != '\\' ==> CountChar(FixEscapedSeq(s).0, c) == CountChar(s, c)
    ensures CountChar(FixEscapedSeq(s).0, '\\') + FixEscapedSeq(s).1 == CountChar(s, '\\')
  {
    if |s| >= 2 && s[0] == '\\' && s[1] in "[*]" {
      FixEscapedDeletesBackslashes(s[2..], c);
      FixEscapedDeletesBackslashes(s[2..], '\\');
      assert s[1..][1..] == s[2..];
    } else if |s| > 0 {
      FixEscapedDeletesBackslashes(s[1..], c);
      FixEscapedDeletesBackslashes(s[1..], '\\');
    }
  }

  /** An escape starts at `i`: a backslash followed by `[`, `*` or `]`.
      Two escapes never overlap, because the character after the
      backslash of one is never a backslash. */
  predicate EscapeAt(s: string, i: nat)
  {
    i + 1 < |s| && s[i] == '\\' && s[i + 1] in "[*]"
  }

  /** The positions in `[from, |s|)` where an escape starts. */
  ghost function EscapesFrom(s: string, from: nat): set<nat>
  {
    set i: nat | from <= i < |s| && EscapeAt(s, i)
  }

  /** The positions in `[from, |s|)` that start no escape, in increasing
      order: exactly the characters the repair keeps (`KeptFromAll` says
      that none is missing). */
  function KeptFrom(s: string, from: nat): (ks: seq<nat>)
    ensures forall j :: 0 <= j < |ks| ==> from <= ks[j] < |s| && !EscapeAt(s, ks[j])
    ensures forall j, k :: 0 <= j < k < |ks| ==> ks[j] < ks[k]
    decreases |s| - from
  {
    if from >= |s| then []
    else if EscapeAt(s, from) then KeptFrom(s, from + 1)
    else [from] + KeptFrom(s, from + 1)
  }

  /** Every position from `from` on that starts no escape is kept. */
  lemma {:induction false} KeptFromAll(s: string, from: nat)
    ensures forall i :: from <= i < |s| && !EscapeAt(s, i) ==> i in KeptFrom(s, from)
    decreases |s| - from
  {
    if from < |s| {
      KeptFromAll(s, from + 1);
    }
  }

  /** `fix_escaped_seq` deletes exactly the backslash of each escape: the
      result is `s` at the kept positions, in order, and the count is the
      number of escapes. */
  lemma FixEscapedSeqRemovesEscapes(s: string)
    ensures var r := FixEscapedSeq(s); var ks := KeptFrom(s, 0);
      && |r.0| == |ks| && (forall j :: 0 <= j < |ks| ==> r.0[j] == s[ks[j]])
      && r.1 == |EscapesFrom(s, 0)|
    ensures forall i :: 0 <= i < |s| && !EscapeAt(s, i) ==> i in KeptFrom(s, 0)
  {
    KeptFromAll(s, 0);
    FixEscapedFrom(s, 0);
    assert s[0..] == s;
  }

  /** `FixEscapedSeqRemovesEscapes` for the suffix from `from`. */
  ghost predicate RemovesEscapesFrom(s: string, from: nat)
    requires from <= |s|
  {
    var r := FixEscapedSeq(s[from..]); var ks := KeptFrom(s, from);
    && |r.0| == |ks| && (forall j :: 0 <= j < |ks| ==> r.0[j] == s[ks[j]])
    && r.1 == |EscapesFrom(s, from)|
  }

  lemma {:induction false} FixEscapedFrom(s: string, from: nat)
    requires from <= |s|
    ensures RemovesEscapesFrom(s, from)
    decreases |s| - from
  {
    if from == |s| {
      assert EscapesFrom(s, from) == {};
    } else if EscapeAt(s, from) {
      FixEscapedFrom(s, from + 2);
      EscapeStep(s, from);
    } else {
      FixEscapedFrom(s, from + 1);
      KeptStep(s, from);
    }
  }

  /** An escape at `from`: its backslash goes, its second character stays. */
  lemma EscapeStep(s: string, from: nat)
    requires EscapeAt(s, from) && RemovesEscapesFrom(s, from + 2)
    ensures RemovesEscapesFrom(s, from)
  {
    var t := s[from..];
    assert t[2..] == s[from + 2..];
    var r2 := FixEscapedSeq(s[from + 2..]);
    var r0 := [s[from + 1]] + r2.0;
    assert FixEscapedSeq(t) == (r0, r2.1 + 1);
    var ks2 := KeptAfterEscape(s, from);
    var ks := [from + 1] + ks2;
    forall j | 0 < j < |ks| ensures r0[j] == s[ks[j]] {
      assert r0[j] == r2.0[j - 1] && ks[j] == ks2[j - 1];
    }
    EscapesAfterEscape(s, from);
  }

  /** After an escape at `from` the kept positions are its second
      character and those from `from + 2`. */
  lemma KeptAfterEscape(s: string, from: nat) returns (ks2: seq<nat>)
    requires EscapeAt(s, from)
    ensures ks2 == KeptFrom(s, from + 2) && KeptFrom(s, from) == [from + 1] + ks2
  {
    assert !EscapeAt(s, from + 1);
    ks2 := KeptFrom(s, from + 2);
  }

  /** An escape at `from` adds one to the escapes from `from + 2`. */
  lemma EscapesAfterEscape(s: string, from: nat)
    requires EscapeAt(s, from)
    ensures |EscapesFrom(s, from)| == |EscapesFrom(s, from + 2)| + 1
  {
    assert !EscapeAt(s, from + 1);
    assert EscapesFrom(s, from) == {from} + EscapesFrom(s, from + 2);
    assert from !in EscapesFrom(s, from + 2);
  }

  /** No escape at `from`: its character stays. */
  lemma KeptStep(s: string, from: nat)
    requires from < |s| && !EscapeAt(s, from) && RemovesEscapesFrom(s, from + 1)
    ensures RemovesEscapesFrom(s, from)
  {
    var t := s[from..];
    assert t[0] == s[from] && t[1..] == s[from + 1..];
    assert |t| >= 2 ==> t[1] == s[from + 1];
    FixAtPlain(t);
    var r1 := FixEscapedSeq(s[from + 1..]);
    var r0 := [s[from]] + r1.0;
    assert FixEscapedSeq(t) == (r0, r1.1);
    var ks1 := KeptAtNonEscape(s, from);
    var ks := [from] + ks1;
    assert |r0| == |ks| && r0[0] == s[ks[0]];
    forall j | 0 < j < |ks| ensures r0[j] == s[ks[j]] {
      assert r0[j] == r1.0[j - 1] && ks[j] == ks1[j - 1];
    }
  }

  /** Without an escape at `from`, position `from` is kept and the escapes
      are those from `from + 1`. */
  lemma KeptAtNonEscape(s: string, from: nat) returns (ks1: seq<nat>)
    requires from < |s| && !EscapeAt(s, from)
    ensures ks1 == KeptFrom(s, from + 1) && KeptFrom(s, from) == [from] + ks1
    ensures EscapesFrom(s, from) == EscapesFrom(s, from + 1)
  {
    ks1 := KeptFrom(s, from + 1);
  }

  /** A line free of escapes comes back unchanged with no repair. */
  lemma {:induction false} NoEscapeUnchanged(s: string, from: nat)
    requires from <= |s|
    requires forall j :: from <= j < |s| ==> !EscapeAt(s, j)
    ensures FixEscapedSeq(s[from..]) == (s[from..], 0)
    decreases |s| - from
  {
    var t := s[from..];
    if from < |s| {
      assert !EscapeAt(s, from);
      assert t[1..] == s[from + 1..];
      NoEscapeUnchanged(s, from + 1);
      assert [s[from]] + s[from + 1..] == t;
    }
  }

  /** A line holding exactly one escape, at `i`, loses the backslash at `i`
      and nothing else, and counts one repair. */
  lemma {:induction false} OneEscapeRepaired(s: string, i: nat)
    requires EscapeAt(s, i)
    requires forall j :: 0 <= j < |s| && j != i ==> !EscapeAt(s, j)
    ensures FixEscapedSeq(s) == (s[..i] + s[i + 1..], 1)
  {
    OneEscapeFrom(s, 0, i);
    assert s[0..] == s && s[0..i] == s[..i];
  }

  lemma {:induction false} OneEscapeFrom(s: string, from: nat, i: nat)
    requires from <= i && EscapeAt(s, i)
    requires forall j :: from <= j < |s| && j != i ==> !EscapeAt(s, j)
    ensures FixEscapedSeq(s[from..]) == (s[from..i] + s[i + 1..], 1)
    decreases i - from
  {
    var t := s[from..];
    if from == i {
      EscapeThenClean(s, i);
      assert s[from..i] + s[i + 1..] == s[i + 1..];
    } else {
      assert !EscapeAt(s, from) && t[0] == s[from] && t[1] == s[from + 1];
      assert t[1..] == s[from + 1..];
      assert FixEscapedSeq(t) == ([s[from]] + FixEscapedSeq(t[1..]).0, FixEscapedSeq(t[1..]).1);
      OneEscapeFrom(s, from + 1, i);
      assert [s[from]] + s[from + 1..i] == s[from..i];
      assert [s[from]] + (s[from + 1..i] + s[i + 1..]) == s[from..i] + s[i + 1..];
    }
  }

  /** An escape at `i` with no escape after it: only its backslash goes. */
  lemma EscapeThenClean(s: string, i: nat)
    requires EscapeAt(s, i)
    requires forall j :: i < j < |s| ==> !EscapeAt(s, j)
    ensures FixEscapedSeq(s[i..]) == (s[i + 1..], 1)
  {
    var t := s[i..];
    assert t[0] == s[i] && t[1] == s[i + 1] && t[2..] == s[i + 2..];
    FixAtEscape(t);
    NoEscapeUnchanged(s, i + 2);
    assert [s[i + 1]] + s[i + 2..] == s[i + 1..];
  }

  /** The repair of a non-empty line that does not start with an escape. */
  lemma FixAtPlain(t: string)
    requires |t| > 0 && !(|t| >= 2 && t[0] == '\\' && t[1] in "[*]")
    ensures FixEscapedSeq(t) == ([t[0]] + FixEscapedSeq(t[1..]).0, FixEscapedSeq(t[1..]).1)
  {}

  /** The repair of a line that starts with an escape. */
  lemma FixAtEscape(t: string)
    requires |t| >= 2 && t[0] == '\\' && t[1] in "[*]"
    ensures FixEscapedSeq(t) == ([t[1]] + FixEscapedSeq(t[2..]).0, FixEscapedSeq(t[2..]).1 + 1)
  {}

  // ---------------------------------------------------------------------
  // The reading steps, on values

  /** `read_table_header` on a value. */
  function ReadHeaderStep(t: TableValue, idx: nat, lines: seq<string>): (r: TableValue)
    requires idx < |lines|
    ensures r.hasHeader && r.hasColumnAlignments == t.hasColumnAlignments
    ensures r.rows == Upsert(t.rows, idx, lines[idx])
    ensures r.errors == t.errors + (if idx != 0 && |Strip(lines[idx - 1])| != 0 then 1 else 0)
  {
    var t1 := t.(hasHeader := true).AddRow(idx, lines[idx]);
    if idx != 0 && |Strip(lines[idx - 1])| != 0 then t1.(errors := t1.errors + 1) else t1
  }

  /** `read_table_row` on a value. */
  function ReadRowStep(t: TableValue, idx: nat, line: string,
                       fixDoubleLink: string -> string): (r: TableValue)
    ensures r.hasHeader == t.hasHeader
    ensures r.hasColumnAlignments == (t.hasColumnAlignments || IsColumnAlignments(line))
    ensures r.rows == Upsert(t.rows, idx, fixDoubleLink(FixEscapedSeq(line).0))
    ensures r.errors == t.errors + FixEscapedSeq(line).1 +
                        (if |r.rows| > 1 && !HasKey(r.rows, idx - 1) then 1 else 0)
  {
    var fixed := FixEscapedSeq(line);
    var t1 := t.(errors := t.errors + fixed.1).AddRow(idx, fixDoubleLink(fixed.0));
    var t2 := if |t1.rows| > 1 && !HasKey(t1.rows, idx - 1) then t1.(errors := t1.errors + 1) else t1;
    if IsColumnAlignments(line) then t2.(hasColumnAlignments := true) else t2
  }

  /** The loop of `read_md_table` from line `idx` on. */
  function Scan(lines: seq<string>, idx: nat, inTable: bool, t: TableValue,
                fixDoubleLink: string -> string): (r: TableValue)
    requires idx <= |lines|
    ensures r.errors >= t.errors
    decreases |lines| - idx
  {
    if idx == |lines| then t
    else
      var line := Strip(lines[idx]);
      if IsTableRow(line) then
        if IsTableHeader(line) then
          if inTable then t
          else Scan(lines, idx + 1, true, ReadHeaderStep(t, idx, lines), fixDoubleLink)
        else Scan(lines, idx + 1, inTable, ReadRowStep(t, idx, line, fixDoubleLink), fixDoubleLink)
      else if inTable && |line| > 0 then t
      else Scan(lines, idx + 1, inTable, t, fixDoubleLink)
  }

  /** One step of the scan, by the kind of line. */
  lemma ScanUnfold(lines: seq<string>, idx: nat, inTable: bool, t: TableValue,
                   fixDoubleLink: string -> string)
    requires idx < |lines|
    ensures var line := Strip(lines[idx]);
      Scan(lines, idx, inTable, t, fixDoubleLink) ==
        if IsTableRow(line) then
          if IsTableHeader(line) then
            if inTable then t
            else Scan(lines, idx + 1, true, ReadHeaderStep(t, idx, lines), fixDoubleLink)
          else Scan(lines, idx + 1, inTable, ReadRowStep(t, idx, line, fixDoubleLink), fixDoubleLink)
        else if inTable && |line| > 0 then t
        else Scan(lines, idx + 1, inTable, t, fixDoubleLink)
  {}

  /** Where the loop stops: a second header, or the first non-blank,
      non-row line once a header was read; otherwise the end. */
  function StopIndex(lines: seq<string>, idx: nat, inTable: bool): (r: nat)
    requires idx <= |lines|
    ensures idx <= r <= |lines|
    ensures r < |lines| ==>
      var line := Strip(lines[r]);
      (IsTableRow(line) && IsTableHeader(line)) || (!IsTableRow(line) && |line| > 0)
    decreases |lines| - idx
  {
    if idx == |lines| then idx
    else
      var line := Strip(lines[idx]);
      if IsTableRow(line) && IsTableHeader(line) then
        if inTable then idx else StopIndex(lines, idx + 1, true)
      else if !IsTableRow(line) && inTable && |line| > 0 then idx
      else StopIndex(lines, idx + 1, inTable)
  }

  /** Line `j` is a header the loop reads as one: row-shaped first. */
  predicate HeaderRow(lines: seq<string>, j: nat)
    requires j < |lines|
  {
    var line := Strip(lines[j]);
    IsTableRow(line) && IsTableHeader(line)
  }

  /** Some header line lies in `[a, b)`. */
  predicate Seen(lines: seq<string>, a: nat, b: nat)
    requires a <= b <= |lines|
  {
    exists k :: a <= k < b && HeaderRow(lines, k)
  }

  /** Line `j` ends the table once a header has been seen: a second
      header, or a non-blank line that is no row. */
  predicate StopLine(lines: seq<string>, j: nat)
    requires j < |lines|
  {
    var line := Strip(lines[j]);
    HeaderRow(lines, j) || (!IsTableRow(line) && |line| > 0)
  }

  /** The loop stops at the FIRST line that ends the table, counting the
      headers met on the way; without one it runs to the end. */
  lemma {:induction false} StopIndexIsFirst(lines: seq<string>, idx: nat, inTable: bool)
    requires idx <= |lines|
    ensures var r := StopIndex(lines, idx, inTable);
      && (forall j :: idx <= j < r ==> !((inTable || Seen(lines, idx, j)) && StopLine(lines, j)))
      && (r < |lines| ==> (inTable || Seen(lines, idx, r)) && StopLine(lines, r))
    decreases |lines| - idx, 1
  {
    if idx < |lines| {
      var line := Strip(lines[idx]);
      if HeaderRow(lines, idx) {
        if inTable {
          assert StopIndex(lines, idx, inTable) == idx;
        } else {
          FirstAfterHeader(lines, idx);
        }
      } else if !IsTableRow(line) && inTable && |line| > 0 {
        assert StopIndex(lines, idx, inTable) == idx;
      } else {
        FirstAfterOther(lines, idx, inTable);
      }
    }
  }

  /** `StopIndexIsFirst` when line `idx` is the first header. */
  lemma FirstAfterHeader(lines: seq<string>, idx: nat)
    requires idx < |lines| && HeaderRow(lines, idx)
    ensures var r := StopIndex(lines, idx, false);
      && (forall j :: idx <= j < r ==> !(Seen(lines, idx, j) && StopLine(lines, j)))
      && (r < |lines| ==> Seen(lines, idx, r) && StopLine(lines, r))
    decreases |lines| - idx, 0
  {
    var r := StopIndex(lines, idx + 1, true);
    assert StopIndex(lines, idx, false) == r;
    StopIndexIsFirst(lines, idx + 1, true);
    forall j | idx <= j < r ensures !(Seen(lines, idx, j) && StopLine(lines, j)) {
      if j == idx {
        assert !Seen(lines, idx, idx);
      }
    }
    if r < |lines| {
      SeenFromHeader(lines, idx, r);
    }
  }

  /** A header at `a` is seen by every later line. */
  lemma SeenFromHeader(lines: seq<string>, a: nat, b: nat)
    requires a < b <= |lines| && HeaderRow(lines, a)
    ensures Seen(lines, a, b)
  {
    assert a <= a < b && HeaderRow(lines, a);
  }

  /** `StopIndexIsFirst` when line `idx` neither is a header nor ends the
      table. */
  lemma FirstAfterOther(lines: seq<string>, idx: nat, inTable: bool)
    requires idx < |lines| && !HeaderRow(lines, idx)
    requires !(!IsTableRow(Strip(lines[idx])) && inTable && |Strip(lines[idx])| > 0)
    ensures var r := StopIndex(lines, idx, inTable);
      && (forall j :: idx <= j < r ==> !((inTable || Seen(lines, idx, j)) && StopLine(lines, j)))
      && (r < |lines| ==> (inTable || Seen(lines, idx, r)) && StopLine(lines, r))
    decreases |lines| - idx, 0
  {
    var r := StopIndex(lines, idx + 1, inTable);
    assert StopIndex(lines, idx, inTable) == r;
    StopIndexIsFirst(lines, idx + 1, inTable);
    forall j | idx < j <= |lines| ensures Seen(lines, idx, j) == Seen(lines, idx + 1, j) {
      SeenPastNonHeader(lines, idx, j);
    }
    forall j | idx <= j < r ensures !((inTable || Seen(lines, idx, j)) && StopLine(lines, j)) {
      if j == idx {
        assert !Seen(lines, idx, idx);
      }
    }
    if r < |lines| {
      assert Seen(lines, idx, r) == Seen(lines, idx + 1, r);
    }
  }

  /** A line that is no header adds nothing to `Seen`. */
  lemma SeenPastNonHeader(lines: seq<string>, a: nat, b: nat)
    requires a < b <= |lines| && !HeaderRow(lines, a)
    ensures Seen(lines, a, b) == Seen(lines, a + 1, b)
  {
    if Seen(lines, a, b) {
      var k :| a <= k < b && HeaderRow(lines, k);
      assert k != a;
    }
  }

  /** The text `read_md_table` records for line `j`: the unstripped line
      for a header, the repaired stripped line otherwise. */
  function RecordedText(lines: seq<string>, j: nat, fixDoubleLink: string -> string): string
    requires j < |lines|
  {
    var line := Strip(lines[j]);
    if IsTableHeader(line) then lines[j] else fixDoubleLink(FixEscapedSeq(line).0)
  }

  /** Keys strictly increasing and all below `bound`. */
  ghost predicate OrderedBelow(rows: seq<Row>, bound: int)
  {
    (forall i :: 0 <= i < |rows| ==> rows[i].0 < bound) &&
    (forall i, j :: 0 <= i < j < |rows| ==> rows[i].0 < rows[j].0)
  }

  /** What the scan does with line `idx`. */
  datatype Action = Record | Skip | Stop

  function LineAction(lines: seq<string>, idx: nat, inTable: bool): Action
    requires idx < |lines|
  {
    var line := Strip(lines[idx]);
    if IsTableRow(line) then
      if IsTableHeader(line) && inTable then Stop else Record
    else if inTable && |line| > 0 then Stop
    else Skip
  }

  /** A recorded line appends one entry, keyed by its line number. */
  lemma RecordStep(lines: seq<string>, idx: nat, inTable: bool, t: TableValue,
                   fixDoubleLink: string -> string)
    requires idx < |lines| && OrderedBelow(t.rows, idx)
    requires LineAction(lines, idx, inTable) == Record
    ensures var line := Strip(lines[idx]);
      var t1 := if IsTableHeader(line) then ReadHeaderStep(t, idx, lines)
                else ReadRowStep(t, idx, line, fixDoubleLink);
      && IsTableRow(line)
      && t1.rows == t.rows + [(idx, RecordedText(lines, idx, fixDoubleLink))]
      && OrderedBelow(t1.rows, idx + 1)
      && Scan(lines, idx, inTable, t, fixDoubleLink)
         == Scan(lines, idx + 1, inTable || IsTableHeader(line), t1, fixDoubleLink)
      && StopIndex(lines, idx, inTable) == StopIndex(lines, idx + 1, inTable || IsTableHeader(line))
  {
    assert !HasKey(t.rows, idx);
    UpsertNewKey(t.rows, idx, RecordedText(lines, idx, fixDoubleLink));
  }

  lemma SkipStep(lines: seq<string>, idx: nat, inTable: bool, t: TableValue,
                 fixDoubleLink: string -> string)
    requires idx < |lines|
    requires LineAction(lines, idx, inTable) == Skip
    ensures !IsTableRow(Strip(lines[idx]))
    ensures Scan(lines, idx, inTable, t, fixDoubleLink) == Scan(lines, idx + 1, inTable, t, fixDoubleLink)
    ensures StopIndex(lines, idx, inTable) == StopIndex(lines, idx + 1, inTable)
  {}

  lemma StopStep(lines: seq<string>, idx: nat, inTable: bool, t: TableValue,
                 fixDoubleLink: string -> string)
    requires idx < |lines|
    requires LineAction(lines, idx, inTable) == Stop
    ensures Scan(lines, idx, inTable, t, fixDoubleLink) == t
    ensures StopIndex(lines, idx, inTable) == idx
  {}

  /** The scan keeps the old entries in front. */
  lemma {:induction false} ScanKeepsPrefix(lines: seq<string>, idx: nat, inTable: bool,
                                           t: TableValue, fixDoubleLink: string -> string)
    requires idx <= |lines| && OrderedBelow(t.rows, idx)
    ensures var r := Scan(lines, idx, inTable, t, fixDoubleLink);
      |r.rows| >= |t.rows| && r.rows[..|t.rows|] == t.rows && OrderedBelow(r.rows, |lines|)
    decreases |lines| - idx, 1
  {
    if idx < |lines| {
      match LineAction(lines, idx, inTable)
      case Record =>
        KeepsPrefixAfterRecord(lines, idx, inTable, t, fixDoubleLink);
      case Skip =>
        SkipStep(lines, idx, inTable, t, fixDoubleLink);
        ScanKeepsPrefix(lines, idx + 1, inTable, t, fixDoubleLink);
      case Stop =>
        StopStep(lines, idx, inTable, t, fixDoubleLink);
    }
  }

  /** `ScanKeepsPrefix` when line `idx` is recorded. */
  lemma KeepsPrefixAfterRecord(lines: seq<string>, idx: nat, inTable: bool,
                               t: TableValue, fixDoubleLink: string -> string)
    requires idx < |lines| && OrderedBelow(t.rows, idx)
    requires LineAction(lines, idx, inTable) == Record
    ensures var r := Scan(lines, idx, inTable, t, fixDoubleLink);
      |r.rows| >= |t.rows| && r.rows[..|t.rows|] == t.rows && OrderedBelow(r.rows, |lines|)
    decreases |lines| - idx, 0
  {
    var line := Strip(lines[idx]);
    RecordStep(lines, idx, inTable, t, fixDoubleLink);
    var t1 := if IsTableHeader(line) then ReadHeaderStep(t, idx, lines)
              else ReadRowStep(t, idx, line, fixDoubleLink);
    var in1 := inTable || IsTableHeader(line);
    ScanKeepsPrefix(lines, idx + 1, in1, t1, fixDoubleLink);
    PrefixOfPrefix(Scan(lines, idx + 1, in1, t1, fixDoubleLink).rows, t1.rows, t.rows);
  }

  /** A prefix of a prefix is a prefix. */
  lemma PrefixOfPrefix(r: seq<Row>, p: seq<Row>, q: seq<Row>)
    requires |p| <= |r| && r[..|p|] == p && |q| <= |p| && p[..|q|] == q
    ensures r[..|q|] == q
  {
    assert r[..|q|] == r[..|p|][..|q|];
  }

  /** Every entry the scan adds carries the recorded text of its line. */
  lemma {:induction false} ScanNewText(lines: seq<string>, idx: nat, inTable: bool,
                                       t: TableValue, fixDoubleLink: string -> string)
    requires idx <= |lines| && OrderedBelow(t.rows, idx)
    ensures var r := Scan(lines, idx, inTable, t, fixDoubleLink);
      forall i :: |t.rows| <= i < |r.rows| ==>
        idx <= r.rows[i].0 < |lines| && r.rows[i].1 == RecordedText(lines, r.rows[i].0, fixDoubleLink)
    decreases |lines| - idx, 1
  {
    if idx < |lines| {
      match LineAction(lines, idx, inTable)
      case Record =>
        NewTextAfterRecord(lines, idx, inTable, t, fixDoubleLink);
      case Skip =>
        SkipStep(lines, idx, inTable, t, fixDoubleLink);
        ScanNewText(lines, idx + 1, inTable, t, fixDoubleLink);
      case Stop =>
        StopStep(lines, idx, inTable, t, fixDoubleLink);
    }
  }

  /** `ScanNewText` when line `idx` is recorded. */
  lemma NewTextAfterRecord(lines: seq<string>, idx: nat, inTable: bool,
                           t: TableValue, fixDoubleLink: string -> string)
    requires idx < |lines| && OrderedBelow(t.rows, idx)
    requires LineAction(lines, idx, inTable) == Record
    ensures var r := Scan(lines, idx, inTable, t, fixDoubleLink);
      forall i :: |t.rows| <= i < |r.rows| ==>
        idx <= r.rows[i].0 < |lines| && r.rows[i].1 == RecordedText(lines, r.rows[i].0, fixDoubleLink)
    decreases |lines| - idx, 0
  {
    var t1, in1 := RecordedStep(lines, idx, inTable, t, fixDoubleLink);
    ScanNewText(lines, idx + 1, in1, t1, fixDoubleLink);
    ScanKeepsPrefix(lines, idx + 1, in1, t1, fixDoubleLink);
    var r := Scan(lines, idx + 1, in1, t1, fixDoubleLink);
    PrefixAt(r.rows, t1.rows, |t.rows|);
    NewTextJoin(r.rows, t1.rows, |t.rows|, lines, idx, fixDoubleLink);
    assert Scan(lines, idx, inTable, t, fixDoubleLink) == r;
  }

  /** `RecordStep`, naming the table and the flag the scan goes on with. */
  lemma RecordedStep(lines: seq<string>, idx: nat, inTable: bool, t: TableValue,
                     fixDoubleLink: string -> string) returns (t1: TableValue, in1: bool)
    requires idx < |lines| && OrderedBelow(t.rows, idx)
    requires LineAction(lines, idx, inTable) == Record
    ensures t1.rows == t.rows + [(idx, RecordedText(lines, idx, fixDoubleLink))]
    ensures OrderedBelow(t1.rows, idx + 1)
    ensures Scan(lines, idx, inTable, t, fixDoubleLink) == Scan(lines, idx + 1, in1, t1, fixDoubleLink)
    ensures StopIndex(lines, idx, inTable) == StopIndex(lines, idx + 1, in1)
    ensures IsTableHeader(Strip(lines[idx])) ==> in1 && t1 == ReadHeaderStep(t, idx, lines)
  {
    var line := Strip(lines[idx]);
    RecordStep(lines, idx, inTable, t, fixDoubleLink);
    t1 := if IsTableHeader(line) then ReadHeaderStep(t, idx, lines)
          else ReadRowStep(t, idx, line, fixDoubleLink);
    in1 := inTable || IsTableHeader(line);
  }

  /** The entry recorded for line `idx`, followed by the entries recorded
      after it, are all recorded text. */
  lemma NewTextJoin(r: seq<Row>, t1: seq<Row>, n: nat, lines: seq<string>, idx: nat,
                    fixDoubleLink: string -> string)
    requires |t1| == n + 1 && |t1| <= |r| && r[n] == t1[n] && idx < |lines|
    requires t1[n] == (idx, RecordedText(lines, idx, fixDoubleLink))
    requires forall i :: |t1| <= i < |r| ==>
      idx + 1 <= r[i].0 < |lines| && r[i].1 == RecordedText(lines, r[i].0, fixDoubleLink)
    ensures forall i :: n <= i < |r| ==>
      idx <= r[i].0 < |lines| && r[i].1 == RecordedText(lines, r[i].0, fixDoubleLink)
  {
    forall i | n <= i < |r|
      ensures idx <= r[i].0 < |lines| && r[i].1 == RecordedText(lines, r[i].0, fixDoubleLink)
    {
      if i == n {
        assert r[i] == (idx, RecordedText(lines, idx, fixDoubleLink));
      } else {
        assert |t1| <= i;
      }
    }
  }

  /** An entry of a prefix is the entry at the same place in the whole. */
  lemma PrefixAt(r: seq<Row>, p: seq<Row>, i: nat)
    requires |p| <= |r| && r[..|p|] == p && i < |p|
    ensures r[i] == p[i]
  {
    assert r[i] == r[..|p|][i];
  }

  /** The scan adds a key for line `j` exactly when that line is
      row-shaped and comes before the stop. */
  lemma {:induction false} ScanRecordsLine(lines: seq<string>, idx: nat, inTable: bool,
                                           t: TableValue, fixDoubleLink: string -> string, j: nat)
    requires idx <= j < |lines| && OrderedBelow(t.rows, idx)
    ensures HasKey(Scan(lines, idx, inTable, t, fixDoubleLink).rows, j) <==>
            j < StopIndex(lines, idx, inTable) && IsTableRow(Strip(lines[j]))
    decreases |lines| - idx, 1
  {
    match LineAction(lines, idx, inTable)
    case Record =>
      RecordsLineAfterRecord(lines, idx, inTable, t, fixDoubleLink, j);
    case Skip =>
      RecordsLineAfterSkip(lines, idx, inTable, t, fixDoubleLink, j);
    case Stop =>
      StopStep(lines, idx, inTable, t, fixDoubleLink);
      assert !HasKey(t.rows, j);
  }

  /** `ScanRecordsLine` when line `idx` is recorded. */
  lemma RecordsLineAfterRecord(lines: seq<string>, idx: nat, inTable: bool,
                               t: TableValue, fixDoubleLink: string -> string, j: nat)
    requires idx <= j < |lines| && OrderedBelow(t.rows, idx)
    requires LineAction(lines, idx, inTable) == Record
    ensures HasKey(Scan(lines, idx, inTable, t, fixDoubleLink).rows, j) <==>
            j < StopIndex(lines, idx, inTable) && IsTableRow(Strip(lines[j]))
    decreases |lines| - idx, 0
  {
    var line := Strip(lines[idx]);
    RecordStep(lines, idx, inTable, t, fixDoubleLink);
    var t1 := if IsTableHeader(line) then ReadHeaderStep(t, idx, lines)
              else ReadRowStep(t, idx, line, fixDoubleLink);
    var in1 := inTable || IsTableHeader(line);
    if j == idx {
      ScanKeepsPrefix(lines, idx + 1, in1, t1, fixDoubleLink);
      PrefixHasKey(Scan(lines, idx + 1, in1, t1, fixDoubleLink).rows, t1.rows, |t.rows|);
    } else {
      ScanRecordsLine(lines, idx + 1, in1, t1, fixDoubleLink, j);
    }
  }

  /** `ScanRecordsLine` when line `idx` is skipped. */
  lemma RecordsLineAfterSkip(lines: seq<string>, idx: nat, inTable: bool,
                             t: TableValue, fixDoubleLink: string -> string, j: nat)
    requires idx <= j < |lines| && OrderedBelow(t.rows, idx)
    requires LineAction(lines, idx, inTable) == Skip
    ensures HasKey(Scan(lines, idx, inTable, t, fixDoubleLink).rows, j) <==>
            j < StopIndex(lines, idx, inTable) && IsTableRow(Strip(lines[j]))
    decreases |lines| - idx, 0
  {
    SkipStep(lines, idx, inTable, t, fixDoubleLink);
    if j == idx {
      ScanKeepsPrefix(lines, idx + 1, inTable, t, fixDoubleLink);
      ScanNewText(lines, idx + 1, inTable, t, fixDoubleLink);
      KeyNeitherOldNorNew(Scan(lines, idx + 1, inTable, t, fixDoubleLink).rows, t.rows, idx);
    } else {
      ScanRecordsLine(lines, idx + 1, inTable, t, fixDoubleLink, j);
    }
  }

  /** A key of a prefix is a key of the whole. */
  lemma PrefixHasKey(r: seq<Row>, prefix: seq<Row>, i: nat)
    requires |prefix| <= |r| && r[..|prefix|] == prefix && i < |prefix|
    ensures HasKey(r, prefix[i].0)
  {
    PrefixAt(r, prefix, i);
  }

  /** A key below the new keys and above the old ones is absent. */
  lemma KeyNeitherOldNorNew(r: seq<Row>, old_: seq<Row>, k: int)
    requires |old_| <= |r| && r[..|old_|] == old_
    requires forall i :: 0 <= i < |old_| ==> old_[i].0 < k
    requires forall i :: |old_| <= i < |r| ==> k < r[i].0
    ensures !HasKey(r, k)
  {
    forall i | 0 <= i < |r| ensures r[i].0 != k {
      if i < |old_| { assert r[i] == r[..|old_|][i]; }
    }
  }

  /** The keys the scan adds are exactly the row-shaped lines before the
      stop: headers included, and rows before any header too. */
  lemma ScanRecords(lines: seq<string>, idx: nat, inTable: bool,
                    t: TableValue, fixDoubleLink: string -> string)
    requires idx <= |lines| && OrderedBelow(t.rows, idx)
    ensures forall j :: idx <= j < |lines| ==>
      (HasKey(Scan(lines, idx, inTable, t, fixDoubleLink).rows, j) <==>
         j < StopIndex(lines, idx, inTable) && IsTableRow(Strip(lines[j])))
  {
    forall j | idx <= j < |lines|
      ensures HasKey(Scan(lines, idx, inTable, t, fixDoubleLink).rows, j) <==>
              j < StopIndex(lines, idx, inTable) && IsTableRow(Strip(lines[j]))
    {
      ScanRecordsLine(lines, idx, inTable, t, fixDoubleLink, j);
    }
  }

  /** After the scan: one error for a missing header and one for a missing
      alignment row, if any row was recorded. */
  function Finish(t: TableValue): (r: TableValue)
    ensures r.rows == t.rows && r.hasHeader == t.hasHeader
    ensures r.hasColumnAlignments == t.hasColumnAlignments
    ensures r.errors == t.errors +
      (if |t.rows| > 0 then (if t.hasHeader then 0 else 1) + (if t.hasColumnAlignments then 0 else 1) else 0)
  {
    var t1 := if |t.rows| > 0 && !t.hasHeader then t.(errors := t.errors + 1) else t;
    if |t.rows| > 0 && !t.hasColumnAlignments then t1.(errors := t1.errors + 1) else t1
  }

  /** `fix_footer_columns`: the last `min(n, 3)` rows get one trailing
      space; keys, order and the earlier rows are unchanged. */
  function PadFooter(rows: seq<Row>): (r: seq<Row>)
    ensures |r| == |rows|
    ensures forall i :: 0 <= i < |rows| ==> r[i].0 == rows[i].0
    ensures forall i :: 0 <= i < |rows| - 3 ==> r[i] == rows[i]
    ensures forall i :: 0 <= i < |rows| && i >= |rows| - 3 ==> r[i].1 == rows[i].1 + " "
  {
    var m := if |rows| < 3 then 0 else |rows| - 3;
    rows[..m] + Padded(rows[m..])
  }

  /** Every entry with one space appended to its value. */
  function Padded(rows: seq<Row>): seq<Row>
  {
    seq(|rows|, k requires 0 <= k < |rows| => (rows[k].0, rows[k].1 + " "))
  }

  /** `read_md_table`: the scanned, finished table, padded, when it should
      be created; nothing otherwise. */
  function ReadMd(postMd: string, fixDoubleLink: string -> string): Option<TableValue>
  {
    var t := Finish(Scan(SplitLines(postMd), 0, false, EmptyTable, fixDoubleLink));
    if t.ShouldCreate() then Some(t.(rows := PadFooter(t.rows))) else None
  }

  /** A returned table is one worth fixing: it has rows and errors. */
  lemma ReadMdShouldCreate(postMd: string, fixDoubleLink: string -> string)
    requires ReadMd(postMd, fixDoubleLink).Some?
    ensures ReadMd(postMd, fixDoubleLink).value.ShouldCreate()
  {}

  /** A table line that is row-shaped, no header and has nothing to
      unescape. */
  predicate CleanLine(line: string)
  {
    var l := Strip(line);
    IsTableRow(l) && !IsTableHeader(l) && FixEscapedSeq(l).1 == 0
  }

  /** Line `j` is a clean line. */
  predicate CleanRow(lines: seq<string>, j: nat)
    requires j < |lines|
  {
    CleanLine(lines[j])
  }

  /** Line `j` is not row-shaped. */
  predicate NoRow(lines: seq<string>, j: nat)
    requires j < |lines|
  {
    !IsTableRow(Strip(lines[j]))
  }

  /** Some line in `[a, b)` is an alignment row. */
  predicate AlignmentIn(lines: seq<string>, a: nat, b: nat)
    requires a <= b <= |lines|
  {
    exists k :: a <= k < b && IsColumnAlignments(Strip(lines[k]))
  }

  /** After the rows, which end before line `e`, a table is closed by
      blank lines up to line `z` and then the end of the post or a
      non-blank line that is no row. */
  predicate TableEnd(lines: seq<string>, e: nat, z: nat)
    requires e <= z <= |lines|
  {
    && (forall j :: e <= j < z ==> |Strip(lines[j])| == 0)
    && (z == |lines| || (!IsTableRow(Strip(lines[z])) && |Strip(lines[z])| > 0))
  }

  /** A correctly formed table: no row-shaped line before the header on
      line `h`, which is the first line or follows a blank one; then clean
      rows up to line `e`, one of them the alignment row; then blank lines
      up to line `z`, and the end of the post or a non-blank line that is
      no row. */
  ghost predicate WellFormedTable(lines: seq<string>, h: nat, e: nat, z: nat)
  {
    && h < e <= z <= |lines|
    && (forall j :: 0 <= j < h ==> NoRow(lines, j))
    && TableAt(lines, h, e, z)
  }

  /** The part of `WellFormedTable` from the header on line `h` on. */
  ghost predicate TableAt(lines: seq<string>, h: nat, e: nat, z: nat)
    requires h < e <= z <= |lines|
  {
    && HeaderRow(lines, h) && (h == 0 || |Strip(lines[h - 1])| == 0)
    && (forall j :: h < j < e ==> CleanRow(lines, j))
    && AlignmentIn(lines, h + 1, e)
    && TableEnd(lines, e, z)
  }

  /** A correctly formed table is left alone: nothing is returned, whatever
      the double-link fix does. */
  lemma WellFormedTableNotReturned(postMd: string, fixDoubleLink: string -> string,
                                   h: nat, e: nat, z: nat)
    requires WellFormedTable(SplitLines(postMd), h, e, z)
    ensures ReadMd(postMd, fixDoubleLink).None?
  {
    WellFormedScanClean(SplitLines(postMd), fixDoubleLink, h, e, z);
  }

  /** A table value with a header, an alignment row, at least one entry
      and no error. */
  predicate CleanResult(r: TableValue)
  {
    r.errors == 0 && r.hasHeader && r.hasColumnAlignments && |r.rows| > 0
  }

  /** The scan of a correctly formed table records its header and an
      alignment row and counts no error. */
  lemma WellFormedScanClean(lines: seq<string>, fixDoubleLink: string -> string,
                            h: nat, e: nat, z: nat)
    requires WellFormedTable(lines, h, e, z)
    ensures CleanResult(Scan(lines, 0, false, EmptyTable, fixDoubleLink))
  {
    CleanFrom(lines, fixDoubleLink, 0, h, h + 1, e, z, EmptyTable);
  }

  /** The scan of a correctly formed table from line `k` on, up to the
      header on line `h`; `i` names the line after the header. */
  lemma {:induction false} CleanFrom(lines: seq<string>, fixDoubleLink: string -> string,
                                     k: nat, h: nat, i: nat, e: nat, z: nat, t: TableValue)
    requires k <= h && i == h + 1 && i <= e <= z <= |lines|
    requires forall j :: k <= j < h ==> NoRow(lines, j)
    requires TableAt(lines, h, e, z)
    requires OrderedBelow(t.rows, k) && t.errors == 0 && !t.hasColumnAlignments
    ensures CleanResult(Scan(lines, k, false, t, fixDoubleLink))
    decreases h - k
  {
    if k == h {
      HeaderAndRowsClean(lines, fixDoubleLink, h, i, e, z, t);
    } else {
      SkipNoRow(lines, k, t, fixDoubleLink);
      CleanFrom(lines, fixDoubleLink, k + 1, h, i, e, z, t);
    }
  }

  /** The scan from a first header on line `h` followed by clean rows, as
      in `WellFormedTable`, adds no error to a table without one. */
  lemma HeaderAndRowsClean(lines: seq<string>, fixDoubleLink: string -> string, h: nat, i: nat,
                           e: nat, z: nat, t: TableValue)
    requires i == h + 1 && i <= e <= z <= |lines|
    requires TableAt(lines, h, e, z)
    requires OrderedBelow(t.rows, h) && t.errors == 0 && !t.hasColumnAlignments
    ensures CleanResult(Scan(lines, h, false, t, fixDoubleLink))
  {
    var t1 := HeaderStartsClean(lines, h, i, t, fixDoubleLink);
    RowsAfterHeaderClean(lines, fixDoubleLink, i, e, z, t1);
  }

  /** Clean rows after the header keep a table without error so. */
  lemma RowsAfterHeaderClean(lines: seq<string>, fixDoubleLink: string -> string, i: nat, e: nat,
                             z: nat, t: TableValue)
    requires 0 < i <= e <= z <= |lines|
    requires forall j :: i <= j < e ==> CleanRow(lines, j)
    requires AlignmentIn(lines, i, e)
    requires TableEnd(lines, e, z)
    requires t.errors == 0 && t.hasHeader && |t.rows| > 0
    requires OrderedBelow(t.rows, i) && HasKey(t.rows, i - 1)
    ensures CleanResult(Scan(lines, i, true, t, fixDoubleLink))
  {
    CleanRowsKeepErrors(lines, i, e, z, t, fixDoubleLink);
  }

  /** The first header, on line `h`, the first line or one after a blank
      one, is recorded without an error. */
  lemma HeaderStartsClean(lines: seq<string>, h: nat, i: nat, t: TableValue,
                          fixDoubleLink: string -> string) returns (t1: TableValue)
    requires i == h + 1 && h < |lines| && HeaderRow(lines, h) && (h == 0 || |Strip(lines[h - 1])| == 0)
    requires OrderedBelow(t.rows, h) && t.errors == 0 && !t.hasColumnAlignments
    ensures Scan(lines, h, false, t, fixDoubleLink) == Scan(lines, i, true, t1, fixDoubleLink)
    ensures t1.errors == 0 && t1.hasHeader && !t1.hasColumnAlignments
    ensures |t1.rows| > 0 && OrderedBelow(t1.rows, i) && HasKey(t1.rows, i - 1)
  {
    var in1;
    t1, in1 := RecordedStep(lines, h, false, t, fixDoubleLink);
    assert t1.rows[|t.rows|].0 == h;
  }

  /** A line that is no row is skipped before the header. */
  lemma SkipNoRow(lines: seq<string>, i: nat, t: TableValue, fixDoubleLink: string -> string)
    requires i < |lines| && NoRow(lines, i)
    ensures Scan(lines, i, false, t, fixDoubleLink) == Scan(lines, i + 1, false, t, fixDoubleLink)
  {
    SkipStep(lines, i, false, t, fixDoubleLink);
  }

  /** Clean rows that follow each other add no error, and the scan stops
      where the table ends. */
  lemma {:induction false} CleanRowsKeepErrors(lines: seq<string>, i: nat, e: nat, z: nat,
                                               t: TableValue, fixDoubleLink: string -> string)
    requires 0 < i <= e <= z <= |lines|
    requires forall j :: i <= j < e ==> CleanRow(lines, j)
    requires TableEnd(lines, e, z)
    requires OrderedBelow(t.rows, i) && HasKey(t.rows, i - 1)
    ensures var r := Scan(lines, i, true, t, fixDoubleLink);
      && r.errors == t.errors && r.hasHeader == t.hasHeader && |r.rows| >= |t.rows|
      && r.hasColumnAlignments == (t.hasColumnAlignments || AlignmentIn(lines, i, e))
    decreases e - i
  {
    if i == e {
      BlankTailStops(lines, i, z, t, fixDoubleLink);
    } else {
      var t1 := CleanRowStep(lines, i, t, fixDoubleLink);
      CleanRowsKeepErrors(lines, i + 1, e, z, t1, fixDoubleLink);
      AlignmentStep(lines, i, e);
    }
  }

  /** Inside a table, blank lines are passed over and the scan stops at
      the line that closes the table, leaving the table as it is. */
  lemma {:induction false} BlankTailStops(lines: seq<string>, i: nat, z: nat, t: TableValue,
                                          fixDoubleLink: string -> string)
    requires i <= z <= |lines| && TableEnd(lines, i, z)
    ensures Scan(lines, i, true, t, fixDoubleLink) == t
    decreases z - i
  {
    if i < |lines| {
      ScanUnfold(lines, i, true, t, fixDoubleLink);
      if i < z {
        assert Strip(lines[i]) == "" && CountChar("", '|') == 0;
        BlankTailStops(lines, i + 1, z, t, fixDoubleLink);
      }
    }
  }

  /** One clean row right after the previous one: appended, no error. */
  lemma CleanRowStep(lines: seq<string>, i: nat, t: TableValue, fixDoubleLink: string -> string)
      returns (t1: TableValue)
    requires 0 < i < |lines| && CleanRow(lines, i)
    requires OrderedBelow(t.rows, i) && HasKey(t.rows, i - 1)
    ensures Scan(lines, i, true, t, fixDoubleLink) == Scan(lines, i + 1, true, t1, fixDoubleLink)
    ensures t1.errors == t.errors && t1.hasHeader == t.hasHeader && |t1.rows| > |t.rows|
    ensures t1.hasColumnAlignments == (t.hasColumnAlignments || IsColumnAlignments(Strip(lines[i])))
    ensures OrderedBelow(t1.rows, i + 1) && HasKey(t1.rows, i)
  {
    var line := Strip(lines[i]);
    ScanUnfold(lines, i, true, t, fixDoubleLink);
    var v := fixDoubleLink(FixEscapedSeq(line).0);
    assert !HasKey(t.rows, i);
    UpsertNewKey(t.rows, i, v);
    t1 := ReadRowStep(t, i, line, fixDoubleLink);
    var k :| 0 <= k < |t.rows| && t.rows[k].0 == i - 1;
    assert t1.rows[k].0 == i - 1;
    assert HasKey(t1.rows, i - 1);
    assert t1.rows[|t.rows|].0 == i;
  }

  lemma AlignmentStep(lines: seq<string>, a: nat, b: nat)
    requires a < b <= |lines|
    ensures AlignmentIn(lines, a, b) == (IsColumnAlignments(Strip(lines[a])) || AlignmentIn(lines, a + 1, b))
  {
    if AlignmentIn(lines, a, b) && !IsColumnAlignments(Strip(lines[a])) {
      var k :| a <= k < b && IsColumnAlignments(Strip(lines[k]));
      assert k != a;
    }
  }

  /** The returned table holds one entry per row-shaped line before the
      stop, in line order, each carrying its recorded text (with a space
      appended for the last three). */
  lemma ReadMdRows(postMd: string, fixDoubleLink: string -> string)
    requires ReadMd(postMd, fixDoubleLink).Some?
    ensures var lines, rows := SplitLines(postMd), ReadMd(postMd, fixDoubleLink).value.rows;
      && OrderedBelow(rows, |lines|)
      && (forall i :: 0 <= i < |rows| ==> 0 <= rows[i].0 < |lines|)
      && (forall j :: 0 <= j < |lines| ==>
            (HasKey(rows, j) <==> j < StopIndex(lines, 0, false) && IsTableRow(Strip(lines[j]))))
      && (forall i :: 0 <= i < |rows| - 3 ==> rows[i].1 == RecordedText(lines, rows[i].0, fixDoubleLink))
      && (forall i :: 0 <= i < |rows| && i >= |rows| - 3 ==>
            rows[i].1 == RecordedText(lines, rows[i].0, fixDoubleLink) + " ")
  {
    var lines := SplitLines(postMd);
    var s := Scan(lines, 0, false, EmptyTable, fixDoubleLink);
    ScanKeepsPrefix(lines, 0, false, EmptyTable, fixDoubleLink);
    ScanNewText(lines, 0, false, EmptyTable, fixDoubleLink);
    ScanRecords(lines, 0, false, EmptyTable, fixDoubleLink);
    var rows := ReadMd(postMd, fixDoubleLink).value.rows;
    assert rows == PadFooter(s.rows);
    forall j | 0 <= j < |lines| ensures HasKey(rows, j) <==> HasKey(s.rows, j) {
      if HasKey(rows, j) {
        var i :| 0 <= i < |rows| && rows[i].0 == j;
        assert s.rows[i].0 == j;
      }
      if HasKey(s.rows, j) {
        var i :| 0 <= i < |s.rows| && s.rows[i].0 == j;
        assert rows[i].0 == j;
      }
    }
  }

  /** Rows recorded without any header or alignment row: at least two errors,
      so the table is always returned. */
  lemma NoHeaderNoAlignmentsTwoErrors(postMd: string, fixDoubleLink: string -> string)
    requires var s := Scan(SplitLines(postMd), 0, false, EmptyTable, fixDoubleLink);
      |s.rows| > 0 && !s.hasHeader && !s.hasColumnAlignments
    ensures ReadMd(postMd, fixDoubleLink).Some?
    ensures ReadMd(postMd, fixDoubleLink).value.errors >= 2
  {}

  // ---------------------------------------------------------------------
  // Reading a repaired table back

  /** A line without `t` or `T` is no header. */
  lemma NoTNoHeader(line: string)
    requires Lacks(line, 't') && Lacks(line, 'T')
    ensures !IsTableHeader(line)
  {
    forall i | 0 <= i < |line| ensures !HeaderAt(Lower(line), i) {
      HeaderStartsWithT(line, i);
    }
  }

  /** A header match starts at a `t` or a `T`. */
  lemma HeaderStartsWithT(line: string, i: nat)
    requires i < |line|
    ensures HeaderAt(Lower(line), i) ==> line[i] == 't' || line[i] == 'T'
  {
    var s := Lower(line);
    if HeaderAt(s, i) {
      assert s[i..i + 4][0] == 't';
    }
  }

  /** A line without a backslash holds no escape. */
  lemma NoBackslashNoEscape(s: string)
    requires Lacks(s, '\\')
    ensures forall j :: 0 <= j < |s| ==> !EscapeAt(s, j)
  {}

  /** A line that starts and ends with a non-space character is its own
      strip. */
  lemma StripUnchanged(s: string)
    requires |s| > 0 && !IsSpace(s[0]) && !IsSpace(s[|s| - 1])
    ensures Strip(s) == s
  {
    assert StripStart(s) == 0 && StripEnd(s) == |s|;
    assert s[0..|s|] == s;
  }

  /** A line whose strip is row-shaped is not empty. */
  lemma RowNotEmpty(s: string)
    requires IsTableRow(Strip(s))
    ensures |s| > 0
  {}

  /** A post of one line that the reader takes as a header row, stripped
      as it stands and also with the footer padding after it. */
  predicate HeaderLine(p: string)
  {
    && Lacks(p, '\n') && Lacks(p + " ", '\n')
    && Strip(p) == p && Strip(p + " ") == p
    && IsTableRow(p) && IsTableHeader(p)
  }

  /** The default header line is such a line. */
  lemma DefaultHeaderLine()
    ensures HeaderLine(DefaultHeader)
  {
    DefaultHeaderLacks();
    DefaultHeaderStrip();
    DefaultHeaderIsHeader();
  }

  /** The default header line survives stripping, also with the padding
      space after it. */
  lemma DefaultHeaderStrip()
    ensures Strip(DefaultHeader) == DefaultHeader && Strip(DefaultHeader + " ") == DefaultHeader
  {
    StripUnchanged(DefaultHeader);
    var p := DefaultHeader + " ";
    assert p[..|p| - 1] == DefaultHeader;
  }

  /** The default header line is a header row. */
  lemma DefaultHeaderIsHeader()
    ensures IsTableRow(DefaultHeader) && IsTableHeader(DefaultHeader)
  {
    DefaultHeaderText();
    LoweredHeaderMatches(Lower(DefaultHeader));
  }

  /** The lowered default header matches the header pattern at 0. */
  lemma LoweredHeaderMatches(s: string)
    requires s == "type" + "|" + "item" + "|" + "price"
    ensures HeaderAt(s, 0)
  {
    assert s[4] == '|' && s[5] == 'i' && s[9] == '|' && s[10] == 'p';
    assert SkipNonWord(s, 5) == 5 && SkipNonWord(s, 10) == 10;
    assert SkipNonWord(s, 4) == 5 && SkipNonWord(s, 9) == 10;
    assert HasBar(s, 4, 5) && HasBar(s, 9, 10);
    assert s[0..4] == "type" && s[5..9] == "item" && s[10..15] == "price";
  }

  /** The default alignment line is a clean alignment row. */
  lemma DefaultAlignmentsClean()
    ensures Strip(DefaultAlignments) == DefaultAlignments
    ensures CleanLine(DefaultAlignments) && IsColumnAlignments(DefaultAlignments)
  {
    DefaultAlignmentsText();
    StripUnchanged(DefaultAlignments);
    NoTNoHeader(DefaultAlignments);
    DefaultAlignmentsUnescaped();
    DefaultAlignmentsMarker();
  }

  /** A line equal to the default alignment line is a clean alignment
      row. */
  lemma AlignmentsLineClean(line: string)
    requires line == DefaultAlignments
    ensures CleanLine(line) && IsColumnAlignments(Strip(line))
  {
    DefaultAlignmentsClean();
  }

  lemma DefaultAlignmentsUnescaped()
    ensures FixEscapedSeq(DefaultAlignments).1 == 0
  {
    var a := DefaultAlignments;
    DefaultAlignmentsText();
    NoBackslashNoEscape(a);
    NoEscapeUnchanged(a, 0);
    assert a[0..] == a;
  }

  lemma DefaultAlignmentsMarker()
    ensures Contains(DefaultAlignments, ":-")
  {
    var a := DefaultAlignments;
    assert a[0..2] == ":-";
    ContainsFromIff(a, 0, ":-");
  }

  /** The table read from the post `Type|Item|Price`: the header is there,
      the alignment row is missing, so one error and a padded row. */
  const HeaderOnlyRepaired := TableValue(true, false, [(0, DefaultHeader + " ")], 1)

  /** The table read from a post that is a single header line `p`. */
  function HeaderOnly(p: string): TableValue
  {
    TableValue(true, false, [(0, p + " ")], 1)
  }

  /** Re-reading the markdown `create_md` renders for a repaired table is
      not clean: the post `Type|Item|Price` is repaired into
      `HeaderOnlyRepaired`, whose rendering puts `:----|:----|:----` in
      front of the header, so the reader finds the header after a non-blank
      line and returns a table again.  The corrected rendering reads back
      as no table. */
  lemma HeaderOnlyReadAgain(fixDoubleLink: string -> string)
    ensures ReadMd(DefaultHeader, fixDoubleLink) == Some(HeaderOnlyRepaired)
    ensures HeaderOnlyRepaired.CreateMd() == DefaultAlignments + "\n" + (DefaultHeader + " ")
    ensures ReadMd(HeaderOnlyRepaired.CreateMd(), fixDoubleLink).Some?
    ensures ReadMd(HeaderOnlyRepaired.CreateMdCorrected(), fixDoubleLink).None?
  {
    DefaultHeaderLine();
    HeaderLineReadAgain(DefaultHeader, fixDoubleLink);
  }

  /** The same for every post that is a single header line. */
  lemma HeaderLineReadAgain(p: string, fixDoubleLink: string -> string)
    requires HeaderLine(p)
    ensures ReadMd(p, fixDoubleLink) == Some(HeaderOnly(p))
    ensures HeaderOnly(p).CreateMd() == DefaultAlignments + "\n" + (p + " ")
    ensures ReadMd(HeaderOnly(p).CreateMd(), fixDoubleLink).Some?
    ensures ReadMd(HeaderOnly(p).CreateMdCorrected(), fixDoubleLink).None?
  {
    HeaderLineRead(p, fixDoubleLink);
    HeaderOnlyReadBack(p, fixDoubleLink);
    HeaderOnlyCorrectedClean(p, fixDoubleLink);
  }

  /** The rendering of the table read from a single header line is read
      as a table again. */
  lemma HeaderOnlyReadBack(p: string, fixDoubleLink: string -> string)
    requires HeaderLine(p)
    ensures HeaderOnly(p).CreateMd() == DefaultAlignments + "\n" + (p + " ")
    ensures ReadMd(HeaderOnly(p).CreateMd(), fixDoubleLink).Some?
  {
    var lines := HeaderOnlyRendering(HeaderOnly(p));
    AlignmentsLineClean(lines[0]);
    assert Strip(lines[1]) == p;
    HeaderOnlyRereadScan(lines, fixDoubleLink);
  }

  /** Its corrected rendering is not. */
  lemma HeaderOnlyCorrectedClean(p: string, fixDoubleLink: string -> string)
    requires HeaderLine(p)
    ensures ReadMd(HeaderOnly(p).CreateMdCorrected(), fixDoubleLink).None?
  {
    var t := HeaderOnly(p);
    assert IsTableRow(Strip(t.rows[0].1)) && IsTableHeader(Strip(t.rows[0].1));
    CorrectedRenderingNotReturned(t, fixDoubleLink);
  }

  /** Reading a post that is a single header line. */
  lemma HeaderLineRead(p: string, fixDoubleLink: string -> string)
    requires HeaderLine(p)
    ensures ReadMd(p, fixDoubleLink) == Some(HeaderOnly(p))
  {
    RowNotEmpty(p);
    SplitOneLine(p);
    var s := HeaderLineScan([p], fixDoubleLink);
    PadOne(0, p);
  }

  /** The footer padding of a single row. */
  lemma PadOne(k: int, v: string)
    ensures PadFooter([(k, v)]) == [(k, v + " ")]
  {
    var r := PadFooter([(k, v)]);
    assert r[0] == (k, v + " ");
  }

  /** The scan of a single header line. */
  lemma HeaderLineScan(lines: seq<string>, fixDoubleLink: string -> string) returns (s: TableValue)
    requires |lines| == 1 && HeaderRow(lines, 0)
    ensures s == Finish(Scan(lines, 0, false, EmptyTable, fixDoubleLink))
    ensures s == TableValue(true, false, [(0, lines[0])], 1)
  {
    var t1 := ReadHeaderStep(EmptyTable, 0, lines);
    UpsertNewKey([], 0, lines[0]);
    assert t1 == TableValue(true, false, [(0, lines[0])], 0);
    ScanUnfold(lines, 0, false, EmptyTable, fixDoubleLink);
    assert Scan(lines, 0, false, EmptyTable, fixDoubleLink) == t1;
    s := Finish(t1);
  }

  /** The lines `create_md` renders for a repaired table whose only row is
      its header: the default alignment line, then the header. */
  lemma HeaderOnlyRendering(t: TableValue) returns (lines: seq<string>)
    requires t.hasHeader && !t.hasColumnAlignments && |t.rows| == 1
    requires |t.rows[0].1| > 0 && Lacks(t.rows[0].1, '\n')
    ensures lines == [DefaultAlignments, t.rows[0].1]
    ensures t.CreateMd() == DefaultAlignments + "\n" + t.rows[0].1
    ensures SplitLines(t.CreateMd()) == lines
  {
    lines := [DefaultAlignments, t.rows[0].1];
    assert t.HeaderLines() + Values(t.rows) == lines;
    assert Join(lines, "\n") == DefaultAlignments + "\n" + t.rows[0].1;
    DefaultAlignmentsLacks();
    SplitTwoLines(DefaultAlignments, t.rows[0].1);
  }

  /** The scan of that rendering: the alignment line is a row, then the
      header follows a non-blank line and counts an error. */
  lemma HeaderOnlyRereadScan(lines: seq<string>, fixDoubleLink: string -> string)
    requires |lines| == 2 && CleanLine(lines[0]) && HeaderRow(lines, 1)
    ensures Finish(Scan(lines, 0, false, EmptyTable, fixDoubleLink)).ShouldCreate()
  {
    var a := Strip(lines[0]);
    ScanUnfold(lines, 0, false, EmptyTable, fixDoubleLink);
    var t1 := ReadRowStep(EmptyTable, 0, a, fixDoubleLink);
    assert Scan(lines, 0, false, EmptyTable, fixDoubleLink) == Scan(lines, 1, false, t1, fixDoubleLink);
    RowNotEmpty(lines[0]);
    ScanUnfold(lines, 1, false, t1, fixDoubleLink);
    var t2 := ReadHeaderStep(t1, 1, lines);
    assert Scan(lines, 1, false, t1, fixDoubleLink) == Scan(lines, 2, true, t2, fixDoubleLink);
    assert t2.errors >= 1;
    assert |t2.rows| > 0 by {
      if !HasKey(t1.rows, 1) { UpsertNewKey(t1.rows, 1, lines[1]); }
      else { assert |Upsert(t1.rows, 1, lines[1])| > 0; }
    }
  }

  /** The corrected rendering of a repaired table whose header was read but
      whose alignment row was missing reads back as no table, for every
      double-link fix: the header is its first line, the default alignment
      line follows, and the other rows follow as clean rows. */
  lemma CorrectedRenderingNotReturned(t: TableValue, fixDoubleLink: string -> string)
    requires t.hasHeader && !t.hasColumnAlignments && |t.rows| > 0
    requires forall i :: 0 <= i < |t.rows| ==> Lacks(t.rows[i].1, '\n')
    requires IsTableRow(Strip(t.rows[0].1)) && IsTableHeader(Strip(t.rows[0].1))
    requires forall i :: 1 <= i < |t.rows| ==> CleanLine(t.rows[i].1)
    ensures ReadMd(t.CreateMdCorrected(), fixDoubleLink).None?
  {
    if |t.rows| > 1 {
      RowNotEmpty(t.rows[|t.rows| - 1].1);
    }
    var lines := CorrectedSplit(t);
    AlignmentsLineClean(lines[1]);
    forall j | 2 <= j < |lines| ensures CleanLine(lines[j]) {
      assert lines[j] == t.rows[j - 1].1 && CleanLine(t.rows[j - 1].1);
    }
    assert HeaderRow(lines, 0);
    HeaderThenCleanNotReturned(t.CreateMdCorrected(), fixDoubleLink, lines);
  }

  /** A post whose lines are a header line and then clean rows, the first
      of them an alignment row, is no table to fix. */
  lemma HeaderThenCleanNotReturned(postMd: string, fixDoubleLink: string -> string,
                                   lines: seq<string>)
    requires SplitLines(postMd) == lines
    requires |lines| >= 2 && HeaderRow(lines, 0)
    requires CleanLine(lines[1]) && IsColumnAlignments(Strip(lines[1]))
    requires forall j :: 2 <= j < |lines| ==> CleanLine(lines[j])
    ensures ReadMd(postMd, fixDoubleLink).None?
  {
    CorrectedWellFormed(lines);
    WellFormedTableNotReturned(postMd, fixDoubleLink, 0, |lines|, |lines|);
  }

  /** The lines of the corrected rendering, as the reader splits them. */
  lemma CorrectedSplit(t: TableValue) returns (lines: seq<string>)
    requires t.hasHeader && !t.hasColumnAlignments && |t.rows| > 0
    requires forall i :: 0 <= i < |t.rows| ==> Lacks(t.rows[i].1, '\n')
    requires |t.rows| > 1 ==> |t.rows[|t.rows| - 1].1| > 0
    ensures lines == t.CorrectedLines() && SplitLines(t.CreateMdCorrected()) == lines
    ensures |lines| == |t.rows| + 1 && lines[0] == t.rows[0].1 && lines[1] == DefaultAlignments
    ensures forall j :: 2 <= j < |lines| ==> lines[j] == t.rows[j - 1].1
  {
    var rest := t.rows[1..];
    forall i | 0 <= i < |rest| ensures Lacks(rest[i].1, '\n') {
      assert rest[i] == t.rows[i + 1];
    }
    if |rest| > 0 {
      assert rest[|rest| - 1] == t.rows[|t.rows| - 1];
    }
    DefaultAlignmentsLacks();
    lines := SplitAfterTwo(t.rows[0].1, DefaultAlignments, rest);
    forall j | 2 <= j < |lines| ensures lines[j] == t.rows[j - 1].1 {
      assert lines[j] == rest[j - 2].1 && rest[j - 2] == t.rows[j - 1];
    }
  }

  /** Two lines and then the values of some rows, none with a line break
      and the last not empty, split back into themselves once joined. */
  lemma SplitAfterTwo(h: string, a: string, rest: seq<Row>) returns (lines: seq<string>)
    requires Lacks(h, '\n') && Lacks(a, '\n') && |a| > 0
    requires forall i :: 0 <= i < |rest| ==> Lacks(rest[i].1, '\n')
    requires |rest| > 0 ==> |rest[|rest| - 1].1| > 0
    ensures lines == [h, a] + Values(rest) && SplitLines(Join(lines, "\n")) == lines
    ensures forall j :: 2 <= j < |lines| ==> lines[j] == rest[j - 2].1
  {
    lines := [h, a] + Values(rest);
    forall k | 0 <= k < |lines| ensures Lacks(lines[k], '\n') {
      if k >= 2 { assert lines[k] == rest[k - 2].1; }
    }
    assert |lines[|lines| - 1]| > 0 by {
      if |rest| > 0 { assert lines[|lines| - 1] == rest[|rest| - 1].1; }
    }
    SplitLinesJoin(lines);
  }

  /** A header line followed by clean rows, the first of them an alignment
      row, is a correctly formed table. */
  lemma CorrectedWellFormed(lines: seq<string>)
    requires |lines| >= 2 && HeaderRow(lines, 0)
    requires CleanLine(lines[1]) && IsColumnAlignments(Strip(lines[1]))
    requires forall j :: 2 <= j < |lines| ==> CleanLine(lines[j])
    ensures WellFormedTable(lines, 0, |lines|, |lines|)
  {
    var n := |lines|;
    forall j | 0 < j < n ensures CleanRow(lines, j) {
      if j == 1 { assert lines[j] == lines[1]; }
    }
    assert AlignmentIn(lines, 1, n);
    assert TableEnd(lines, n, n);
    assert TableAt(lines, 0, n, n);
  }

  // ---------------------------------------------------------------------
  // The methods

  /** `read_table_header`. */
  method ReadTableHeader(idx: nat, lines: seq<string>, table: Table)
    requires idx < |lines| && table.Valid()
    modifies table
    ensures table.Valid()
    ensures table.Value() == ReadHeaderStep(old(table.Value()), idx, lines)
  {
    table.hasHeader := true;
    table.AddRow(idx, lines[idx]);
    if idx != 0 {
      var prevLine := Strip(lines[idx - 1]);
      if |prevLine| != 0 {
        table.errors := table.errors + 1;
      }
    }
  }

  /** `read_table_row`; the change count of the double-link fix is dropped. */
  method ReadTableRow(idx: nat, line: string, table: Table, fixDoubleLink: string -> string)
    requires table.Valid()
    modifies table
    ensures table.Valid()
    ensures table.Value() == ReadRowStep(old(table.Value()), idx, line, fixDoubleLink)
  {
    var fixed := FixEscapedSeq(line);
    table.errors := table.errors + fixed.1;
    var fixedLine := fixDoubleLink(fixed.0);
    table.AddRow(idx, fixedLine);
    if |table.rows| > 1 && !HasKey(table.rows, idx - 1) {
      table.errors := table.errors + 1;
    }
    if IsColumnAlignments(line) {
      table.hasColumnAlignments := true;
    }
  }

  function Reversed<T>(s: seq<T>): (r: seq<T>)
    ensures |r| == |s|
    ensures forall i :: 0 <= i < |s| ==> r[i] == s[|s| - 1 - i]
  {
    seq(|s|, i requires 0 <= i < |s| => s[|s| - 1 - i])
  }

  lemma ReversedStep<T>(s: seq<T>, i: nat)
    requires 0 < i <= |s|
    ensures Reversed(s[i..]) + [s[i - 1]] == Reversed(s[i - 1..])
  {
    var a, b := Reversed(s[i..]) + [s[i - 1]], Reversed(s[i - 1..]);
    forall k | 0 <= k < |a| ensures a[k] == b[k] {
      if k < |s| - i {
        assert a[k] == s[i..][|s| - i - 1 - k];
      }
    }
  }

  lemma ReversedTwice<T>(s: seq<T>)
    ensures Reversed(Reversed(s)) == s
  {
    var r := Reversed(Reversed(s));
    assert |r| == |s|;
    forall k | 0 <= k < |s| ensures r[k] == s[k] {
      assert r[k] == Reversed(s)[|s| - 1 - k];
    }
  }

  /** The popping loop of `fix_footer_columns`: the last `count` entries,
      last one first. */
  method PopItems(table: Table, count: nat) returns (toFix: seq<Row>)
    requires table.Valid() && count <= |table.rows|
    modifies table
    ensures table.Valid()
    ensures table.rows == old(table.rows)[..|old(table.rows)| - count]
    ensures toFix == Reversed(old(table.rows)[|old(table.rows)| - count..])
    ensures table.hasHeader == old(table.hasHeader)
    ensures table.hasColumnAlignments == old(table.hasColumnAlignments)
    ensures table.errors == old(table.errors)
  {
    ghost var rows0 := table.rows;
    var n := |table.rows|;
    toFix := [];
    var i := 0;
    while i < count
      invariant 0 <= i <= count
      invariant table.Valid()
      invariant table.rows == rows0[..n - i]
      invariant toFix == Reversed(rows0[n - i..])
      invariant table.hasHeader == old(table.hasHeader)
      invariant table.hasColumnAlignments == old(table.hasColumnAlignments)
      invariant table.errors == old(table.errors)
    {
      var item := table.PopItem();
      assert item == rows0[n - i - 1];
      ReversedStep(rows0, n - i);
      toFix := toFix + [item];
      i := i + 1;
    }
  }

  /** `fix_footer_columns`: pop the last `min(n, 3)` entries, then re-add
      them in their old order with a trailing space. */
  method FixFooterColumns(table: Table)
    requires table.Valid()
    modifies table
    ensures table.Valid()
    ensures table.rows == PadFooter(old(table.rows))
    ensures table.hasHeader == old(table.hasHeader)
    ensures table.hasColumnAlignments == old(table.hasColumnAlignments)
    ensures table.errors == old(table.errors)
  {
    ghost var rows0 := table.rows;
    var n := |table.rows|;
    var lastRows := if n < 3 then n else 3;
    var toFix := PopItems(table, lastRows);
    ReversedTwice(rows0[n - lastRows..]);
    toFix := Reversed(toFix);
    AddPadded(table, toFix, rows0);
  }

  /** The re-adding loop of `fix_footer_columns`. */
  method AddPadded(table: Table, toFix: seq<Row>, ghost rows0: seq<Row>)
    requires table.Valid() && UniqueKeys(rows0)
    requires |toFix| <= |rows0|
    requires toFix == rows0[|rows0| - |toFix|..]
    requires table.rows == rows0[..|rows0| - |toFix|]
    modifies table
    ensures table.Valid()
    ensures table.rows == rows0[..|rows0| - |toFix|] + Padded(toFix)
    ensures table.hasHeader == old(table.hasHeader)
    ensures table.hasColumnAlignments == old(table.hasColumnAlignments)
    ensures table.errors == old(table.errors)
  {
    var m := |rows0| - |toFix|;
    var j := 0;
    while j < |toFix|
      invariant 0 <= j <= |toFix|
      invariant table.Valid()
      invariant table.rows == rows0[..m] + Padded(toFix[..j])
      invariant table.hasHeader == old(table.hasHeader)
      invariant table.hasColumnAlignments == old(table.hasColumnAlignments)
      invariant table.errors == old(table.errors)
    {
      var k, line := toFix[j].0, toFix[j].1;
      assert !HasKey(table.rows, k) by {
        assert toFix[j] == rows0[m + j];
        forall q | 0 <= q < |table.rows| ensures table.rows[q].0 != k {
          if q < m {
            assert table.rows[q] == rows0[q];
          } else {
            assert table.rows[q].0 == toFix[q - m].0 == rows0[q].0;
          }
          assert rows0[q].0 != rows0[m + j].0;
        }
      }
      UpsertNewKey(table.rows, k, line + " ");
      assert Padded(toFix[..j + 1]) == Padded(toFix[..j]) + [(k, line + " ")];
      table.AddRow(k, line + " ");
      j := j + 1;
    }
    assert toFix[..|toFix|] == toFix;
  }

  /** The error count after the scan (the closing lines of `read_md_table`). */
  method CountMissingLines(table: Table)
    requires table.Valid()
    modifies table
    ensures table.Valid()
    ensures table.Value() == Finish(old(table.Value()))
  {
    if |table.rows| > 0 {
      if !table.hasHeader {
        table.errors := table.errors + 1;
      }
      if !table.hasColumnAlignments {
        table.errors := table.errors + 1;
      }
    }
  }

  /** The body of the loop of `read_md_table` for line `idx`: `stop` is the
      `break`, taken with the table unchanged where the scan ends;
      otherwise the scan goes on from the next line with the new flag. */
  method ReadLine(idx: nat, lines: seq<string>, table: Table, inTable: bool,
                  fixDoubleLink: string -> string) returns (stop: bool, nowInTable: bool)
    requires idx < |lines| && table.Valid()
    modifies table
    ensures table.Valid()
    ensures stop ==> table.Value() == old(table.Value())
    ensures stop ==> Scan(lines, idx, inTable, old(table.Value()), fixDoubleLink) == old(table.Value())
    ensures !stop ==>
      Scan(lines, idx + 1, nowInTable, table.Value(), fixDoubleLink)
        == Scan(lines, idx, inTable, old(table.Value()), fixDoubleLink)
  {
    var line := Strip(lines[idx]);
    ScanUnfold(lines, idx, inTable, table.Value(), fixDoubleLink);
    stop, nowInTable := false, inTable;
    if IsTableRow(line) {
      if IsTableHeader(line) {
        if inTable {
          return true, inTable;
        }
        nowInTable := true;
        ReadTableHeader(idx, lines, table);
      } else {
        ReadTableRow(idx, line, table, fixDoubleLink);
      }
    } else if inTable && |line| > 0 {
      return true, inTable;
    }
  }

  /** `read_md_table`. */
  method ReadMdTable(postMd: string, fixDoubleLink: string -> string) returns (r: Option<Table>)
    ensures r.Some? <==> ReadMd(postMd, fixDoubleLink).Some?
    ensures r.Some? ==> fresh(r.value) && r.value.Valid()
    ensures r.Some? ==> r.value.Value() == ReadMd(postMd, fixDoubleLink).value
  {
    var table := new Table();
    var lines := SplitLines(postMd);
    var inTable := false;
    var idx := 0;
    while idx < |lines|
      invariant 0 <= idx <= |lines|
      invariant table.Valid()
      invariant Scan(lines, idx, inTable, table.Value(), fixDoubleLink)
             == Scan(lines, 0, false, EmptyTable, fixDoubleLink)
    {
      var stop, nowInTable := ReadLine(idx, lines, table, inTable, fixDoubleLink);
      if stop {
        break;
      }
      inTable := nowInTable;
      idx := idx + 1;
    }
    assert table.Value() == Scan(lines, 0, false, EmptyTable, fixDoubleLink);
    CountMissingLines(table);
    if table.ShouldCreate() {
      FixFooterColumns(table);
      r := Some(table);
    } else {
      r := None;
    }
  }
}
