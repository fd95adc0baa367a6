/**
 * The table-building half of parse_copy_paste_md.py: the end of the last
 * row, the `Total:` amount, `read_table`, `add_table_footer` and
 * `read_copy_paste`, built over the scanners of module CopyPaste.  The
 * loop of `read_table` and the footer are methods on a `Table`, each proved
 * against a function on `TableValue`.
 */
module CopyPasteTable {
  import opened Text
  import opened Tables
  import opened Outcomes
  import opened CopyPaste

  // ---------------------------------------------------------------------
  // Python slicing with non-negative bounds

  /** `s[a:]`. */
  function SliceFrom(s: string, a: nat): string
  {
    if a <= |s| then s[a..] else []
  }

  /** `s[a:b]`: both bounds clamped to the length, empty when they cross. */
  function Slice(s: string, a: nat, b: nat): string
  {
    var i := if a <= |s| then a else |s|;
    var j := if b <= |s| then b else |s|;
    if i <= j then s[i..j] else []
  }

  /** A literal seen in the suffix `s[a:]` at `k` is seen in `s` at `a + k`. */
  lemma StartsWithAtSuffix(s: string, a: nat, k: nat, p: string)
    requires a <= |s|
    ensures StartsWithAt(s[a..], k, p) <==> StartsWithAt(s, a + k, p)
  {
    if a + k + |p| <= |s| {
      assert s[a..][k..k + |p|] == s[a + k..a + k + |p|];
    }
  }

  // ---------------------------------------------------------------------
  // `remove_camera_emoji`

  function RemoveCameraEmoji(line: string): string
  {
    Replace(line, [Camera], " ")
  }

  /** Each camera becomes one space and every other character stays. */
  lemma {:induction false} RemoveCameraEmojiPointwise(line: string)
    ensures |RemoveCameraEmoji(line)| == |line|
    ensures forall k :: 0 <= k < |line| ==>
      RemoveCameraEmoji(line)[k] == (if line[k] == Camera then ' ' else line[k])
    decreases |line|
  {
    if |line| >= 1 {
      RemoveCameraEmojiPointwise(line[1..]);
      var rest := RemoveCameraEmoji(line[1..]);
      var head := if line[0] == Camera then ' ' else line[0];
      assert line[..1] == [line[0]];
      assert RemoveCameraEmoji(line) == [head] + rest;
      forall k | 0 < k < |line|
        ensures RemoveCameraEmoji(line)[k] == (if line[k] == Camera then ' ' else line[k])
      {
        assert line[1..][k - 1] == line[k];
      }
    }
  }

  /** No camera is left. */
  lemma RemoveCameraEmojiLacks(line: string)
    ensures Lacks(RemoveCameraEmoji(line), Camera)
  {
    RemoveCameraEmojiPointwise(line);
  }

  // ---------------------------------------------------------------------
  // `re_last_row_end`

  /** `(\[(\*\*)?Buy(\*\*)?\])|FREE|Purchased|No Prices Available|Base Total|Total|\\n`
      at `p`; the last alternative is a backslash followed by `n`. */
  predicate LastRowEndAt(s: string, p: nat)
  {
    BuyAt(s, p) || StartsWithAt(s, p, "FREE") || StartsWithAt(s, p, "Purchased") ||
    StartsWithAt(s, p, "No Prices Available") || StartsWithAt(s, p, "Base Total") ||
    StartsWithAt(s, p, "Total") || StartsWithAt(s, p, "\\n")
  }

  /** Start of the leftmost terminator at or after `from`. */
  function LastRowEnd(s: string, from: nat): (r: Option<nat>)
    ensures r.Some? ==> from <= r.value < |s| && LastRowEndAt(s, r.value)
    decreases |s| - from
  {
    if from >= |s| then None
    else if LastRowEndAt(s, from) then Some(from)
    else LastRowEnd(s, from + 1)
  }

  lemma {:induction false} LastRowEndLeftmost(s: string, from: nat, p: nat)
    requires from <= p
    requires LastRowEnd(s, from).None? || p < LastRowEnd(s, from).value
    ensures !LastRowEndAt(s, p)
    decreases |s| - from
  {
    if p > from && from < |s| {
      LastRowEndLeftmost(s, from + 1, p);
    }
  }

  /** A terminator in the suffix `s[a:]` at `k` is one in `s` at `a + k`. */
  lemma LastRowEndAtSuffix(s: string, a: nat, k: nat)
    requires a <= |s|
    ensures LastRowEndAt(s[a..], k) <==> LastRowEndAt(s, a + k)
  {
    StartsWithAtSuffix(s, a, k, "[Buy]");
    StartsWithAtSuffix(s, a, k, "[**Buy]");
    StartsWithAtSuffix(s, a, k, "[Buy**]");
    StartsWithAtSuffix(s, a, k, "[**Buy**]");
    StartsWithAtSuffix(s, a, k, "FREE");
    StartsWithAtSuffix(s, a, k, "Purchased");
    StartsWithAtSuffix(s, a, k, "No Prices Available");
    StartsWithAtSuffix(s, a, k, "Base Total");
    StartsWithAtSuffix(s, a, k, "Total");
    StartsWithAtSuffix(s, a, k, "\\n");
  }

  /** End of the last row: the terminator searched in `s[start:]`, shifted
      back by `start`; `None` where the source calls `start` on no match. */
  function LastEnd(s: string, start: nat): Option<nat>
  {
    match LastRowEnd(SliceFrom(s, start), 0)
    case None => None
    case Some(k) => Some(k + start)
  }

  /** Searching the suffix is searching `s` from `start`: the end found is
      the leftmost terminator at or after `start`, and none is found exactly
      when no terminator lies there. */
  lemma LastEndIsFirstTerminator(s: string, start: nat)
    ensures LastEnd(s, start).Some? ==>
      var e := LastEnd(s, start).value;
      start <= e < |s| && LastRowEndAt(s, e) && forall p :: start <= p < e ==> !LastRowEndAt(s, p)
    ensures LastEnd(s, start).None? <==> forall p :: start <= p < |s| ==> !LastRowEndAt(s, p)
  {
    if start <= |s| {
      match LastRowEnd(SliceFrom(s, start), 0)
      case Some(k) =>
        LastRowEndAtSuffix(s, start, k);
        NoTerminatorBelow(s, start, k + start);
      case None =>
        NoTerminatorBelow(s, start, |s|);
    }
  }

  /** No terminator lies in `s[start:e]` when the suffix search finds none
      before `e`. */
  lemma NoTerminatorBelow(s: string, start: nat, e: nat)
    requires start <= e <= |s|
    requires LastRowEnd(SliceFrom(s, start), 0).None? || e - start <= LastRowEnd(SliceFrom(s, start), 0).value
    ensures forall p :: start <= p < e ==> !LastRowEndAt(s, p)
  {
    forall p | start <= p < e ensures !LastRowEndAt(s, p) {
      NoTerminatorAt(s, start, p);
    }
  }

  lemma NoTerminatorAt(s: string, start: nat, p: nat)
    requires start <= p < |s|
    requires LastRowEnd(SliceFrom(s, start), 0).None? || p - start < LastRowEnd(SliceFrom(s, start), 0).value
    ensures !LastRowEndAt(s, p)
  {
    LastRowEndLeftmost(SliceFrom(s, start), 0, p - start);
    SuffixNoTerminator(s, start, p);
  }

  /** No terminator in the suffix `s[a:]` at `p - a`, none in `s` at `p`. */
  lemma SuffixNoTerminator(s: string, a: nat, p: nat)
    requires a <= p && a <= |s| && !LastRowEndAt(SliceFrom(s, a), p - a)
    ensures !LastRowEndAt(s, p)
  {
    LastRowEndAtSuffix(s, a, p - a);
  }

  // ---------------------------------------------------------------------
  // `re_total` and `get_total`

  /** `(?<!Base )Total:(\s+)?(?P<total>CURRENCY)` at `p`, giving the match
      of the `total` group.  The white space is taken greedily; giving some
      back cannot help, since no currency match starts with white space. */
  function TotalAt(s: string, p: nat): (r: Option<CurrencyMatch>)
    ensures r.Some? ==> StartsWithAt(s, p, "Total:") && (p < 5 || s[p - 5..p] != "Base ")
    ensures r.Some? ==> p + 6 <= r.value.start && CurrencyAt(s, r.value.start) == r
  {
    if StartsWithAt(s, p, "Total:") && (p < 5 || s[p - 5..p] != "Base ") then
      CurrencyAt(s, SkipRegexSpace(s, p + 6))
    else None
  }

  /** `re.search(re_total, s[from:])`, as the position of the match. */
  function TotalFrom(s: string, from: nat): (r: Option<nat>)
    ensures r.Some? ==> from <= r.value < |s| && TotalAt(s, r.value).Some?
    decreases |s| - from
  {
    if from >= |s| then None
    else if TotalAt(s, from).Some? then Some(from)
    else TotalFrom(s, from + 1)
  }

  lemma {:induction false} TotalFromLeftmost(s: string, from: nat, p: nat)
    requires from <= p
    requires TotalFrom(s, from).None? || p < TotalFrom(s, from).value
    ensures TotalAt(s, p).None?
    decreases |s| - from
  {
    if p > from && from < |s| {
      TotalFromLeftmost(s, from + 1, p);
    }
  }

  /** `get_total`: the `total` group with its `**`, or the exception raised
      by `.group` on a failed search. */
  function GetTotal(s: string): (r: Result<string>)
    ensures r.Fail? ==> r.failure == NoTotal
    ensures r.Ok? ==> |r.value| > 0
  {
    match TotalFrom(s, 0)
    case None => Fail(NoTotal)
    case Some(p) =>
      var c := TotalAt(s, p).value;
      Ok(s[c.start..c.end])
  }

  /** `get_total` raises exactly when no `Total:` followed by a price
      occurs; otherwise it returns the whole currency match of the leftmost
      such `Total:`. */
  lemma GetTotalFound(s: string)
    ensures GetTotal(s).Fail? <==> forall p: nat :: TotalAt(s, p).None?
    ensures GetTotal(s).Ok? ==>
      exists p: nat :: TotalAt(s, p).Some? &&
        GetTotal(s).value == s[TotalAt(s, p).value.start..TotalAt(s, p).value.end] &&
        forall q: nat :: q < p ==> TotalAt(s, q).None?
  {
    match TotalFrom(s, 0)
    case None =>
      forall p: nat ensures TotalAt(s, p).None? {
        TotalFromLeftmost(s, 0, p);
      }
    case Some(p) =>
      forall q: nat | q < p ensures TotalAt(s, q).None? {
        TotalFromLeftmost(s, 0, q);
      }
  }

  // ---------------------------------------------------------------------
  // The rows of `read_table`

  /** The data of a row: `s[dataStart:end]` without cameras, stripped. */
  function RowData(s: string, dataStart: nat, end: nat): string
  {
    Strip(RemoveCameraEmoji(Slice(s, dataStart, end)))
  }

  /** `f"**{part_type}** | {name} | {cost}"` for a row ending at `end`. */
  function RowText(s: string, info: PartTypeInfo, end: nat): string
  {
    var data := RowData(s, info.end, end);
    "**" + Strip(info.name) + "** | " + GetPartName(data) + " | " + GetCost(data)
  }

  /** Where row `i` of `n` ends: at the next part's start, or at `last`
      for the last row. */
  function RowSpanEnd(infos: seq<PartTypeInfo>, n: nat, i: nat, last: nat): nat
    requires i < n <= |infos|
  {
    if i == n - 1 then last else infos[i + 1].start
  }

  /** The texts of the `n` rows of `read_table` when the last row ends at
      `last`. */
  function RowTexts(s: string, infos: seq<PartTypeInfo>, n: nat, last: nat): (texts: seq<string>)
    requires n <= |infos|
    ensures |texts| == n
  {
    seq(n, i requires 0 <= i < n => RowText(s, infos[i], RowSpanEnd(infos, n, i, last)))
  }

  lemma RowTextsAt(s: string, infos: seq<PartTypeInfo>, n: nat, last: nat, i: nat)
    requires i < n <= |infos|
    ensures RowTexts(s, infos, n, last)[i] == RowText(s, infos[i], RowSpanEnd(infos, n, i, last))
  {
  }

  /** Texts keyed by their position, as `add_row(idx, row)` stores them
      for `idx` counting from zero. */
  function Numbered(texts: seq<string>): (rows: seq<Row>)
    ensures |rows| == |texts|
  {
    seq(|texts|, i requires 0 <= i < |texts| => (i, texts[i]))
  }

  /** The keys of numbered texts are their positions, each once. */
  lemma NumberedKeys(texts: seq<string>)
    ensures forall i :: 0 <= i < |texts| ==> Numbered(texts)[i] == (i, texts[i])
    ensures forall k :: HasKey(Numbered(texts), k) <==> 0 <= k < |texts|
    ensures UniqueKeys(Numbered(texts))
  {
    var rows := Numbered(texts);
    forall k | 0 <= k < |texts| ensures HasKey(rows, k) {
      assert rows[k].0 == k;
    }
  }

  /** One step of the loop: the next position is a new key, so adding it
      appends. */
  lemma NumberedExtend(texts: seq<string>, k: nat)
    requires k < |texts|
    ensures Upsert(Numbered(texts[..k]), k, texts[k]) == Numbered(texts[..k + 1])
  {
    NumberedKeys(texts[..k]);
    UpsertNewKey(Numbered(texts[..k]), k, texts[k]);
  }

  /** All `n` rows. */
  function Rows(s: string, infos: seq<PartTypeInfo>, n: nat, last: nat): (rows: seq<Row>)
    requires n <= |infos|
    ensures |rows| == n
  {
    Numbered(RowTexts(s, infos, n, last))
  }

  /** Row `i` of `Rows` is part type `i`'s text, and the keys are
      `0 .. n - 1`, each once. */
  lemma RowsKeys(s: string, infos: seq<PartTypeInfo>, n: nat, last: nat)
    requires n <= |infos|
    ensures forall i :: 0 <= i < n ==>
      Rows(s, infos, n, last)[i] == (i, RowText(s, infos[i], RowSpanEnd(infos, n, i, last)))
    ensures forall k :: HasKey(Rows(s, infos, n, last), k) <==> 0 <= k < n
    ensures UniqueKeys(Rows(s, infos, n, last))
  {
    NumberedKeys(RowTexts(s, infos, n, last));
  }

  /** `read_table` as a function: one error iff more than one part type,
      the rows, and where the last row ends (`None` without any part type). */
  function ReadTableSpec(s: string, infos: seq<PartTypeInfo>, n: nat): Result<(TableValue, Option<nat>)>
    requires n <= |infos|
  {
    var errors := if n > 1 then 1 else 0;
    if n == 0 then Ok((EmptyTable, None))
    else
      match LastEnd(s, infos[n - 1].start)
      case None => Fail(NoLastRowEnd)
      case Some(e) => Ok((TableValue(false, false, Rows(s, infos, n, e), errors), Some(e)))
  }

  /** `read_table` raises exactly when the last row has no terminator;
      otherwise the table holds one error iff there is more than one part
      type, neither flag, and rows `0 .. n - 1`, row `i` reading
      `**type** | name | cost` over the data between the end of part type
      `i` and the start of part type `i + 1` (for the last row, the first
      terminator searched from its start). */
  lemma ReadTableShape(s: string, infos: seq<PartTypeInfo>, n: nat)
    requires n <= |infos|
    ensures ReadTableSpec(s, infos, n).Fail? <==> n > 0 && LastEnd(s, infos[n - 1].start).None?
    ensures ReadTableSpec(s, infos, n).Fail? ==> ReadTableSpec(s, infos, n).failure == NoLastRowEnd
    ensures ReadTableSpec(s, infos, n).Ok? ==>
      var (t, end) := ReadTableSpec(s, infos, n).value;
      && t.errors == (if n > 1 then 1 else 0)
      && !t.hasHeader && !t.hasColumnAlignments
      && |t.rows| == n
      && (end.None? <==> n == 0)
      && (n > 0 ==> end == LastEnd(s, infos[n - 1].start))
      && forall i :: 0 <= i < n ==>
        var data := RowData(s, infos[i].end, if i == n - 1 then end.value else infos[i + 1].start);
        t.rows[i] == (i, "**" + Strip(infos[i].name) + "** | " + GetPartName(data) + " | " + GetCost(data))
  {
    if n > 0 && LastEnd(s, infos[n - 1].start).Some? {
      RowsKeys(s, infos, n, LastEnd(s, infos[n - 1].start).value);
    }
  }

  /** The body of the loop of `read_table` once the row's end is known. */
  method FormatRow(postMd: string, info: PartTypeInfo, end: nat) returns (row: string)
    ensures row == RowText(postMd, info, end)
  {
    var partType := Strip(info.name);
    var dataStart := info.end;
    var data := RemoveCameraEmoji(Slice(postMd, dataStart, end));
    data := Strip(data);
    var name := GetPartName(data);
    var cost := GetCost(data);
    row := "**" + partType + "** | " + name + " | " + cost;
  }

  /** The last row's end as the method sees it: the real one when there
      is one. */
  function LastOrZero(s: string, infos: seq<PartTypeInfo>, n: nat): nat
    requires n <= |infos|
  {
    if n > 0 && LastEnd(s, infos[n - 1].start).Some? then LastEnd(s, infos[n - 1].start).value else 0
  }

  /** The body of the loop of `read_table` for row `idx`: find where the
      row ends, raising for a last row without terminator, then add the
      row.  `rowEnd` is the new value of `end`. */
  method ReadRow(table: Table, postMd: string, infos: seq<PartTypeInfo>, partCount: nat, idx: nat)
    returns (rowEnd: Result<nat>)
    requires idx < partCount <= |infos|
    requires table.Valid()
    requires table.rows == Numbered(RowTexts(postMd, infos, partCount, LastOrZero(postMd, infos, partCount))[..idx])
    modifies table
    ensures rowEnd.Fail? <==> idx == partCount - 1 && LastEnd(postMd, infos[idx].start).None?
    ensures rowEnd.Fail? ==> rowEnd.failure == NoLastRowEnd
    ensures rowEnd.Ok? ==> idx == partCount - 1 ==> LastEnd(postMd, infos[idx].start) == Some(rowEnd.value)
    ensures rowEnd.Ok? ==>
      && table.Valid()
      && table.rows == Numbered(RowTexts(postMd, infos, partCount, LastOrZero(postMd, infos, partCount))[..idx + 1])
      && table.hasHeader == old(table.hasHeader)
      && table.hasColumnAlignments == old(table.hasColumnAlignments)
      && table.errors == old(table.errors)
  {
    ghost var texts := RowTexts(postMd, infos, partCount, LastOrZero(postMd, infos, partCount));
    var start := infos[idx].start;
    var end: nat;
    if idx == partCount - 1 {
      var fromLastRow := SliceFrom(postMd, start);
      var m := LastRowEnd(fromLastRow, 0);
      if m.None? {
        return Fail(NoLastRowEnd);
      }
      end := m.value + start;
    } else {
      end := infos[idx + 1].start;
    }
    assert end == RowSpanEnd(infos, partCount, idx, LastOrZero(postMd, infos, partCount));
    var row := FormatRow(postMd, infos[idx], end);
    RowTextsAt(postMd, infos, partCount, LastOrZero(postMd, infos, partCount), idx);
    assert row == texts[idx];
    NumberedExtend(texts, idx);
    table.AddRow(idx, row);
    return Ok(end);
  }

  /** `read_table`. */
  method ReadTable(postMd: string, infos: seq<PartTypeInfo>, partCount: nat)
    returns (r: Result<(Table, Option<nat>)>)
    requires partCount <= |infos|
    ensures r.Fail? <==> ReadTableSpec(postMd, infos, partCount).Fail?
    ensures r.Fail? ==> r.failure == ReadTableSpec(postMd, infos, partCount).failure
    ensures r.Ok? ==> fresh(r.value.0) && r.value.0.Valid()
    ensures r.Ok? ==> r.value.0.Value() == ReadTableSpec(postMd, infos, partCount).value.0
    ensures r.Ok? ==> r.value.1 == ReadTableSpec(postMd, infos, partCount).value.1
  {
    var table := new Table();
    var end: Option<nat> := None;
    if partCount > 1 {
      table.errors := table.errors + 1;
    }
    ghost var texts := RowTexts(postMd, infos, partCount, LastOrZero(postMd, infos, partCount));
    for idx := 0 to partCount
      invariant table.Valid()
      invariant !table.hasHeader && !table.hasColumnAlignments
      invariant table.errors == if partCount > 1 then 1 else 0
      invariant table.rows == Numbered(texts[..idx])
      invariant partCount == 0 ==> end.None?
      invariant idx == partCount && partCount > 0 ==>
        end.Some? && LastEnd(postMd, infos[partCount - 1].start) == end
    {
      var rowEnd := ReadRow(table, postMd, infos, partCount, idx);
      if rowEnd.Fail? {
        ReadTableRaises(postMd, infos, partCount);
        return Fail(rowEnd.failure);
      }
      end := Some(rowEnd.value);
    }
    assert texts[..partCount] == texts;
    ReadTableReturns(postMd, infos, partCount, table.Value(), end);
    return Ok((table, end));
  }

  /** The outcome of `read_table` when the last row has no terminator. */
  lemma ReadTableRaises(s: string, infos: seq<PartTypeInfo>, n: nat)
    requires 0 < n <= |infos| && LastEnd(s, infos[n - 1].start).None?
    ensures ReadTableSpec(s, infos, n) == Fail(NoLastRowEnd)
  {}

  /** The outcome of `read_table` once every row is read. */
  lemma ReadTableReturns(s: string, infos: seq<PartTypeInfo>, n: nat, t: TableValue, end: Option<nat>)
    requires n <= |infos|
    requires !t.hasHeader && !t.hasColumnAlignments && t.errors == (if n > 1 then 1 else 0)
    requires t.rows == Numbered(RowTexts(s, infos, n, LastOrZero(s, infos, n)))
    requires n == 0 ==> end.None?
    requires n > 0 ==> end.Some? && LastEnd(s, infos[n - 1].start) == end
    ensures ReadTableSpec(s, infos, n) == Ok((t, end))
  {}

  // ---------------------------------------------------------------------
  // `add_table_footer`

  const PriceInfo: string := "| *Prices (likely) include shipping, taxes, rebates, and discounts* | "

  function TotalRow(total: string): string
  {
    "| **Total** | " + total + " "
  }

  /** The text after the last row: `s[end:]`, or all of `s` when `end`
      was never set. */
  function AfterTable(s: string, end: Option<nat>): string
  {
    if end.None? then s else SliceFrom(s, end.value)
  }

  /** `add_table_footer` as a function on the table's value. */
  function FooterSpec(t: TableValue, s: string, n: nat, end: Option<nat>): Result<TableValue>
  {
    match GetTotal(AfterTable(s, end))
    case Fail(f) => Fail(f)
    case Ok(total) =>
      if |total| > 0 then Ok(t.AddRow(n, PriceInfo).AddRow(n + 1, TotalRow(total)))
      else Ok(t)
  }

  /** The footer raises exactly when no total follows the table; otherwise
      it appends the two rows `n` and `n + 1` (when those keys are new) and
      changes neither the error count nor the flags. */
  lemma FooterAddsTwo(t: TableValue, s: string, n: nat, end: Option<nat>)
    requires !HasKey(t.rows, n) && !HasKey(t.rows, n + 1)
    ensures FooterSpec(t, s, n, end).Fail? <==> GetTotal(AfterTable(s, end)).Fail?
    ensures FooterSpec(t, s, n, end).Fail? ==> FooterSpec(t, s, n, end).failure == NoTotal
    ensures FooterSpec(t, s, n, end).Ok? ==>
      var t2 := FooterSpec(t, s, n, end).value;
      && t2.errors == t.errors
      && t2.hasHeader == t.hasHeader && t2.hasColumnAlignments == t.hasColumnAlignments
      && t2.rows == t.rows + [(n, PriceInfo), (n + 1, TotalRow(GetTotal(AfterTable(s, end)).value))]
  {
    if GetTotal(AfterTable(s, end)).Ok? {
      AddTwoNewRows(t, n, PriceInfo, TotalRow(GetTotal(AfterTable(s, end)).value));
    }
  }

  /** Two rows under new keys `n` and `n + 1` land at the end, in order. */
  lemma AddTwoNewRows(t: TableValue, n: nat, a: string, b: string)
    requires !HasKey(t.rows, n) && !HasKey(t.rows, n + 1)
    ensures t.AddRow(n, a).AddRow(n + 1, b).rows == t.rows + [(n, a), (n + 1, b)]
  {
    UpsertNewKey(t.rows, n, a);
    var rows1 := t.rows + [(n, a)];
    assert !HasKey(rows1, n + 1) by {
      forall i | 0 <= i < |rows1| ensures rows1[i].0 != n + 1 {
        if i < |t.rows| { assert rows1[i] == t.rows[i]; }
      }
    }
    UpsertNewKey(rows1, n + 1, b);
    assert rows1 + [(n + 1, b)] == t.rows + [(n, a), (n + 1, b)];
  }

  /** `add_table_footer`; `failure` is the exception `get_total` raises. */
  method AddTableFooter(table: Table, postMd: string, partCount: nat, end: Option<nat>)
    returns (failure: Option<Failure>)
    requires table.Valid()
    modifies table
    ensures table.Valid()
    ensures failure.Some? <==> FooterSpec(old(table.Value()), postMd, partCount, end).Fail?
    ensures failure.Some? ==> failure.value == FooterSpec(old(table.Value()), postMd, partCount, end).failure
    ensures failure.Some? ==> table.Value() == old(table.Value())
    ensures failure.None? ==> table.Value() == FooterSpec(old(table.Value()), postMd, partCount, end).value
  {
    var total := GetTotal(AfterTable(postMd, end));
    if total.Fail? {
      return Some(total.failure);
    }
    if |total.value| > 0 {
      table.AddRow(partCount, PriceInfo);
      table.AddRow(partCount + 1, TotalRow(total.value));
    }
    return None;
  }

  // ---------------------------------------------------------------------
  // `read_copy_paste`

  /** `read_copy_paste` as a function: the table when it should be
      created, `None` otherwise, or the exception raised on the way. */
  function ReadCopyPasteSpec(s: string): Result<Option<TableValue>>
  {
    match AllPartTypes(s)
    case Fail(f) => Fail(f)
    case Ok(infos) =>
      match ReadTableSpec(s, infos, |infos|)
      case Fail(f) => Fail(f)
      case Ok((t, end)) =>
        match FooterSpec(t, s, |infos|, end)
        case Fail(f) => Fail(f)
        case Ok(t2) => Ok(if t2.ShouldCreate() then Some(t2) else None)
  }

  /** `read_copy_paste`. */
  method ReadCopyPaste(postMd: string) returns (r: Result<Option<Table>>)
    ensures r.Fail? <==> ReadCopyPasteSpec(postMd).Fail?
    ensures r.Fail? ==> r.failure == ReadCopyPasteSpec(postMd).failure
    ensures r.Ok? ==> (r.value.Some? <==> ReadCopyPasteSpec(postMd).value.Some?)
    ensures r.Ok? && r.value.Some? ==>
      fresh(r.value.value) && r.value.value.Valid() &&
      r.value.value.Value() == ReadCopyPasteSpec(postMd).value.value
  {
    var allPartTypeInfo := GetAllPartTypes(postMd);
    if allPartTypeInfo.Fail? {
      return Fail(allPartTypeInfo.failure);
    }
    var infos := allPartTypeInfo.value;
    var partTypeCount := |infos|;
    var read := ReadTable(postMd, infos, partTypeCount);
    if read.Fail? {
      return Fail(read.failure);
    }
    var table, end := read.value.0, read.value.1;
    var failure := AddTableFooter(table, postMd, partTypeCount, end);
    if failure.Some? {
      return Fail(failure.value);
    }
    if table.ShouldCreate() {
      return Ok(Some(table));
    }
    return Ok(None);
  }

  /** A single pasted part type never yields a table: the error count
      stays zero. */
  lemma OnePartNoTable(s: string)
    requires AllPartTypes(s).Ok? && |AllPartTypes(s).value| == 1
    ensures ReadCopyPasteSpec(s).Fail? || ReadCopyPasteSpec(s).value.None?
  {
    var infos := AllPartTypes(s).value;
    if ReadTableSpec(s, infos, 1).Ok? {
      var (t, end) := ReadTableSpec(s, infos, 1).value;
      RowsKeys(s, infos, 1, end.value);
      FooterAddsTwo(t, s, 1, end);
    }
  }

  /** Without any pasted part type there is no table either: the read
      returns nothing when a total occurs and raises otherwise. */
  lemma NoPartNoTable(s: string)
    requires AllPartTypes(s) == Ok([])
    ensures ReadCopyPasteSpec(s) == if GetTotal(s).Fail? then Fail(NoTotal) else Ok(None)
  {
    FooterAddsTwo(EmptyTable, s, 0, None);
  }

  /** A table comes back exactly when every step succeeds with more than
      one part type; it then holds the `n` part rows, the two footer rows
      and exactly one error. */
  lemma TableReturned(s: string)
    ensures ReadCopyPasteSpec(s).Ok? && ReadCopyPasteSpec(s).value.Some? <==>
      && AllPartTypes(s).Ok? && |AllPartTypes(s).value| > 1
      && LastEnd(s, AllPartTypes(s).value[|AllPartTypes(s).value| - 1].start).Some?
      && GetTotal(SliceFrom(s, LastEnd(s, AllPartTypes(s).value[|AllPartTypes(s).value| - 1].start).value)).Ok?
    ensures ReadCopyPasteSpec(s).Ok? && ReadCopyPasteSpec(s).value.Some? ==>
      var infos := AllPartTypes(s).value;
      var n := |infos|;
      var e := LastEnd(s, infos[n - 1].start).value;
      var t := ReadCopyPasteSpec(s).value.value;
      && t.errors == 1
      && t.rows == Rows(s, infos, n, e) +
           [(n, PriceInfo), (n + 1, TotalRow(GetTotal(SliceFrom(s, e)).value))]
  {
    if AllPartTypes(s).Ok? {
      var infos := AllPartTypes(s).value;
      var n := |infos|;
      if n > 0 && ReadTableSpec(s, infos, n).Ok? {
        var (t, end) := ReadTableSpec(s, infos, n).value;
        RowsKeys(s, infos, n, end.value);
        FooterAddsTwo(t, s, n, end);
      }
    }
  }

  /** The read raises only for the three reasons of the source, each
      exactly when it applies. */
  lemma ReadCopyPasteFailures(s: string)
    ensures ReadCopyPasteSpec(s).Fail? ==>
      ReadCopyPasteSpec(s).failure in {CustomPartType, NoLastRowEnd, NoTotal}
    ensures ReadCopyPasteSpec(s) == Fail(CustomPartType) <==> AllPartTypes(s).Fail?
    ensures ReadCopyPasteSpec(s) == Fail(NoLastRowEnd) <==>
      && AllPartTypes(s).Ok? && |AllPartTypes(s).value| > 0
      && LastEnd(s, AllPartTypes(s).value[|AllPartTypes(s).value| - 1].start).None?
  {
    PartTypesOutcome(s);
    if AllPartTypes(s).Ok? {
      var infos := AllPartTypes(s).value;
      var n := |infos|;
      if ReadTableSpec(s, infos, n).Ok? {
        var (t, end) := ReadTableSpec(s, infos, n).value;
        if n > 0 {
          RowsKeys(s, infos, n, end.value);
        }
        FooterAddsTwo(t, s, n, end);
      }
    }
  }
}
