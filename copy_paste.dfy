/**
 * parse_copy_paste_md.py: rebuilds a table from a parts list that was
 * copied from PCPartPicker's web page into Reddit's rich-text editor.
 * Each row starts at a part-type link followed by a camera emoji; the
 * text between one part type and the next is the row's data, split into
 * a part name and a cost.  The fixed regular expressions of the source are
 * written out as scanners over these shapes.
 */
module CopyPaste {
  import opened Text
  import opened Tables
  import opened Outcomes

  /** The camera emoji U+1F4F7 that follows every pasted part type. */
  const Camera: char := '\U{1F4F7}'

  /** The part-type vocabulary, in the order of the alternation (with
      "Fan Controller" twice, as written). */
  const PartTypes: seq<string> := [
    "CPU", "CPU Cooler", "Motherboard", "Memory", "Storage",
    "Video Card", "Case", "Power Supply", "Operating System",
    "Fan Controller", "Monitor", "Sound Cards",
    "Wired Network Adapter", "Wireless Network Adapter",
    "Headphones", "Keyboard", "Mouse", "Speakers", "Webcam",
    "Case Accessory", "Case Fan", "Fan Controller",
    "Thermal Compound", "External Storage", "Optical Drive",
    "UPS System"
  ]

  /** `PartTypeInfo`: the part type's label and the span of the match. */
  datatype PartTypeInfo = PartTypeInfo(name: string, start: nat, end: nat)

  // ---------------------------------------------------------------------
  // Small scanners

  /** End of the run of `\s` characters starting at `i`. */
  function SkipRegexSpace(s: string, i: nat): (r: nat)
    requires i <= |s|
    ensures i <= r <= |s|
    ensures r < |s| ==> !IsRegexSpace(s[r])
    decreases |s| - i
  {
    if i < |s| && IsRegexSpace(s[i]) then SkipRegexSpace(s, i + 1) else i
  }

  /** Index of the first `c` at or after `i`, or `|s|`. */
  function FirstFrom(s: string, i: nat, c: char): (r: nat)
    requires i <= |s|
    ensures i <= r <= |s|
    ensures r < |s| ==> s[r] == c
    decreases |s| - i
  {
    if i < |s| && s[i] != c then FirstFrom(s, i + 1, c) else i
  }

  predicate IsSlugChar(c: char)
  {
    ('a' <= c <= 'z') || c == '-'
  }

  /** Length of the run of `[a-z\-]` characters starting at `i`. */
  function SlugRun(s: string, i: nat): (n: nat)
    requires i <= |s|
    ensures i + n <= |s|
    ensures i + n < |s| ==> !IsSlugChar(s[i + n])
    decreases |s| - i
  {
    if i < |s| && IsSlugChar(s[i]) then 1 + SlugRun(s, i + 1) else 0
  }

  // ---------------------------------------------------------------------
  // The part-type pattern

  /** `\s?NAME\s?` for one name of the vocabulary. */
  predicate LabelFor(m: string, name: string)
  {
    m == name ||
    (|m| == |name| + 1 && IsRegexSpace(m[0]) && m[1..] == name) ||
    (|m| == |name| + 1 && IsRegexSpace(m[|m| - 1]) && m[..|m| - 1] == name) ||
    (|m| == |name| + 2 && IsRegexSpace(m[0]) && IsRegexSpace(m[|m| - 1]) && m[1..|m| - 1] == name)
  }

  /** The `part_type` alternation. */
  predicate IsPartLabel(m: string)
  {
    LabelIn(m, PartTypes)
  }

  predicate LabelIn(m: string, names: seq<string>)
  {
    |names| > 0 && (LabelFor(m, names[0]) || LabelIn(m, names[1..]))
  }

  /** The text between `[` and `]` without the optional `**` on either
      side (a label never starts or ends with `*`). */
  function LinkLabel(r: string): string
  {
    var a := if StartsWithAt(r, 0, "**") then r[2..] else r;
    if |a| >= 2 && a[|a| - 2..] == "**" then a[..|a| - 2] else a
  }

  const LinkHost: string := "(https://pcpartpicker"
  const LinkPath: string := "com/products/"

  /** `\[(\*{2})?(LABEL)(\*{2})?\]\(https:\/\/pcpartpicker.com\/products\/[a-z\-]+\/\)`
      at `p`: the label and the end of the link.  The `.` before `com` is
      unescaped in the pattern and matches any character but a newline. */
  function LinkAt(s: string, p: nat): (r: Option<(string, nat)>)
    ensures r.Some? ==> p < r.value.1 <= |s|
  {
    if p < |s| && s[p] == '[' then
      var q := FirstFrom(s, p + 1, ']');
      var partLabel := LinkLabel(s[p + 1..q]);
      var u := q + 2 + |LinkHost| + |LinkPath|;
      if q < |s| && IsPartLabel(partLabel) && ProductUrlAfter(s, q) then
        match SlugEnd(s, u)
        case Some(e) => Some((partLabel, e))
        case None => None
      else None
    else None
  }

  /** `\(https://pcpartpicker.com/products/` after the `]` at `q`, where
      the unescaped `.` is any character but a line break. */
  predicate ProductUrlAfter(s: string, q: nat)
  {
    && StartsWithAt(s, q + 1, LinkHost) && q + 1 + |LinkHost| < |s| && s[q + 1 + |LinkHost|] != '\n'
    && StartsWithAt(s, q + 2 + |LinkHost|, LinkPath)
  }

  /** `[a-z\-]+\/\)` at `u`: the end of the product slug and its
      closing `/)`. */
  function SlugEnd(s: string, u: nat): (r: Option<nat>)
    requires u <= |s|
    ensures r.Some? ==> u < r.value <= |s|
  {
    var n := SlugRun(s, u);
    if n > 0 && StartsWithAt(s, u + n, "/)") then Some(u + n + 2) else None
  }

  /** `(\s*)?📷` at `e`: white space, then the camera. */
  predicate CameraFollows(s: string, e: nat)
    decreases |s| - e
  {
    e < |s| && (s[e] == Camera || (IsRegexSpace(s[e]) && CameraFollows(s, e + 1)))
  }

  /** A match of the full pattern: the span of the `part` group and the
      `part_type` group, which `Custom` leaves unset. */
  datatype PartMatch = PartMatch(start: nat, end: nat, partType: Option<string>)

  /** The part-type pattern tried at `p`. */
  function MatchAt(s: string, p: nat): (r: Option<PartMatch>)
    ensures r.Some? ==> r.value.start == p && p < r.value.end <= |s|
    ensures r.Some? && r.value.partType.None? ==> StartsWithAt(s, p, "Custom")
  {
    match LinkAt(s, p)
    case Some((partLabel, e)) =>
      if CameraFollows(s, e) then Some(PartMatch(p, e, Some(partLabel))) else None
    case None =>
      if StartsWithAt(s, p, "Custom") && CameraFollows(s, p + 6) then Some(PartMatch(p, p + 6, None))
      else None
  }

  /** `l` is one of the vocabulary's names, with at most one white space
      character on each side. */
  ghost predicate VocabularyLabel(l: string)
  {
    exists i :: 0 <= i < |PartTypes| && LabelFor(l, PartTypes[i])
  }

  lemma {:induction false} LabelInMeans(m: string, names: seq<string>)
    ensures LabelIn(m, names) <==> exists i :: 0 <= i < |names| && LabelFor(m, names[i])
    decreases |names|
  {
    if |names| > 0 {
      LabelInMeans(m, names[1..]);
      if !LabelFor(m, names[0]) && exists i :: 0 <= i < |names| && LabelFor(m, names[i]) {
        var i :| 0 <= i < |names| && LabelFor(m, names[i]);
        assert names[1..][i - 1] == names[i];
      }
      if exists i :: 0 <= i < |names[1..]| && LabelFor(m, names[1..][i]) {
        var i :| 0 <= i < |names[1..]| && LabelFor(m, names[1..][i]);
        assert names[i + 1] == names[1..][i];
      }
    }
  }

  /** The bracketed text is the label, with or without `**` on each side. */
  lemma LinkLabelShape(r: string)
    ensures var l := LinkLabel(r);
      r == l || r == "**" + l || r == l + "**" || r == "**" + l + "**"
  {
    var a := if StartsWithAt(r, 0, "**") then r[2..] else r;
    if StartsWithAt(r, 0, "**") {
      assert r == r[..2] + a && r[..2] == "**";
    }
    if |a| >= 2 && a[|a| - 2..] == "**" {
      assert a == a[..|a| - 2] + "**";
    }
  }

  /** A part-type link from `p` to `e` with label `l`: `[`, the label
      with optional `**` on each side, `]`, the pcpartpicker product link
      (any character but a newline where the pattern leaves `.` unescaped),
      a non-empty `[a-z-]` slug, and `/)`. */
  ghost predicate LinkedPart(s: string, p: nat, e: nat, l: string)
  {
    exists q: nat :: LinkedPartAt(s, p, q, e, l)
  }

  /** `LinkedPart` with the closing bracket at `q`. */
  ghost predicate LinkedPartAt(s: string, p: nat, q: nat, e: nat, l: string)
  {
    LabelPartAt(s, p, q, l) && TailPartAt(s, q, e)
  }

  /** The bracketed label from `p` to `q`. */
  ghost predicate LabelPartAt(s: string, p: nat, q: nat, l: string)
  {
    && p < q < |s| && s[p] == '[' && s[q] == ']'
    && (s[p + 1..q] == l || s[p + 1..q] == "**" + l || s[p + 1..q] == l + "**" || s[p + 1..q] == "**" + l + "**")
    && VocabularyLabel(l)
  }

  /** The product link after the closing bracket at `q`, up to `e`. */
  ghost predicate TailPartAt(s: string, q: nat, e: nat)
  {
    var u := q + 2 + |LinkHost| + |LinkPath|;
    && ProductUrlAfter(s, q)
    && u < e - 2 && e <= |s| && (forall k :: u <= k < e - 2 ==> IsSlugChar(s[k]))
    && StartsWithAt(s, e - 2, "/)")
  }

  lemma {:induction false} SlugRunChars(s: string, i: nat, k: nat)
    requires i <= |s| && i <= k < i + SlugRun(s, i)
    ensures IsSlugChar(s[k])
    decreases k - i
  {
    if k > i {
      SlugRunChars(s, i + 1, k);
    }
  }

  lemma PartLabelInVocabulary(l: string)
    requires IsPartLabel(l)
    ensures VocabularyLabel(l)
  {
    LabelInMeans(l, PartTypes);
  }

  /** What the link scanner accepts. */
  lemma LinkAtMeans(s: string, p: nat)
    requires LinkAt(s, p).Some?
    ensures LinkedPart(s, p, LinkAt(s, p).value.1, LinkAt(s, p).value.0)
  {
    var q := FirstFrom(s, p + 1, ']');
    LinkLabelMeans(s, p, q);
    LinkTailMeans(s, p, q);
    assert LinkedPartAt(s, p, q, LinkAt(s, p).value.1, LinkAt(s, p).value.0);
  }

  /** The label part of `LinkAtMeans`. */
  lemma LinkLabelMeans(s: string, p: nat, q: nat)
    requires LinkAt(s, p).Some? && q == FirstFrom(s, p + 1, ']')
    ensures LabelPartAt(s, p, q, LinkAt(s, p).value.0)
  {
    var l := LinkAt(s, p).value.0;
    assert l == LinkLabel(s[p + 1..q]) && IsPartLabel(l);
    LinkLabelShape(s[p + 1..q]);
    PartLabelInVocabulary(l);
  }

  /** The link part of `LinkAtMeans`. */
  lemma LinkTailMeans(s: string, p: nat, q: nat)
    requires LinkAt(s, p).Some? && q == FirstFrom(s, p + 1, ']')
    ensures TailPartAt(s, q, LinkAt(s, p).value.1)
  {
    var u := q + 2 + |LinkHost| + |LinkPath|;
    var e := LinkAt(s, p).value.1;
    assert ProductUrlAfter(s, q);
    assert SlugEnd(s, u) == Some(e);
    SlugEndMeans(s, u, e);
  }

  /** The slug is slug characters, followed by `/)`. */
  lemma SlugEndMeans(s: string, u: nat, e: nat)
    requires u <= |s| && SlugEnd(s, u) == Some(e)
    ensures u < e - 2 && e <= |s| && (forall k :: u <= k < e - 2 ==> IsSlugChar(s[k]))
    ensures StartsWithAt(s, e - 2, "/)")
  {
    var n := SlugRun(s, u);
    assert n > 0 && StartsWithAt(s, u + n, "/)") && e == u + n + 2;
    forall k | u <= k < e - 2 ensures IsSlugChar(s[k]) {
      SlugRunChars(s, u, k);
    }
    assert e - 2 == u + n;
  }

  /** What a part-type match is: a vocabulary link or `Custom`, followed
      by the camera emoji. */
  lemma MatchAtMeans(s: string, p: nat)
    requires MatchAt(s, p).Some?
    ensures var m := MatchAt(s, p).value;
      && CameraFollows(s, m.end)
      && (m.partType.None? ==> m.end == p + 6 && StartsWithAt(s, p, "Custom"))
      && (m.partType.Some? ==> LinkedPart(s, p, m.end, m.partType.value))
  {
    if LinkAt(s, p).Some? {
      LinkAtMeans(s, p);
    }
  }

  /** The pattern tried at every position of `s`. */
  function PartMatches(s: string): (ms: seq<Option<PartMatch>>)
    ensures |ms| == |s| && WellPlaced(ms)
  {
    var f := (p: nat) => MatchAt(s, p);
    TabulatePlaced(f, |s|);
    Tabulate(f, 0, |s|)
  }

  /** Every entry of a table of matches is a match starting at its own
      position and ending inside the text. */
  predicate WellPlaced(ms: seq<Option<PartMatch>>)
  {
    forall p :: 0 <= p < |ms| && ms[p].Some? ==> ms[p].value.start == p && p < ms[p].value.end <= |ms|
  }

  lemma TabulatePlaced(f: nat -> Option<PartMatch>, n: nat)
    requires forall p: nat :: f(p).Some? ==> f(p).value.start == p && p < f(p).value.end <= n
    ensures WellPlaced(Tabulate(f, 0, n))
  {
    forall p | 0 <= p < n && Tabulate(f, 0, n)[p].Some?
      ensures Tabulate(f, 0, n)[p].value.start == p && p < Tabulate(f, 0, n)[p].value.end <= n
    {
      TabulateAt(f, 0, n, p);
    }
  }

  /** `[f(i), f(i + 1), ..., f(n - 1)]`. */
  function Tabulate<T>(f: nat -> T, i: nat, n: nat): (r: seq<T>)
    requires i <= n
    ensures |r| == n - i
    decreases n - i
  {
    if i == n then [] else [f(i)] + Tabulate(f, i + 1, n)
  }

  lemma {:induction false} TabulateAt<T>(f: nat -> T, i: nat, n: nat, p: nat)
    requires i <= p < n
    ensures Tabulate(f, i, n)[p - i] == f(p)
    decreases p - i
  {
    if i < p {
      TabulateAt(f, i + 1, n, p);
    }
  }

  /** Entry `p` of the table is the pattern tried at `p`. */
  lemma PartMatchesAt(s: string, p: nat)
    requires p < |s|
    ensures PartMatches(s)[p] == MatchAt(s, p)
  {
    TabulateAt((p: nat) => MatchAt(s, p), 0, |s|, p);
  }

  /** The leftmost position at or after `from` where the pattern matches. */
  function FindIn(ms: seq<Option<PartMatch>>, from: nat): (r: Option<nat>)
    ensures r.Some? ==> from <= r.value < |ms| && ms[r.value].Some?
    decreases |ms| - from
  {
    if from >= |ms| then None
    else if ms[from].Some? then Some(from)
    else FindIn(ms, from + 1)
  }

  /** No match before the one found, and none at all when nothing is found. */
  lemma {:induction false} FindInLeftmost(ms: seq<Option<PartMatch>>, from: nat, p: nat)
    requires from <= p < |ms|
    requires FindIn(ms, from).None? || p < FindIn(ms, from).value
    ensures ms[p].None?
    decreases |ms| - from
  {
    if p > from {
      FindInLeftmost(ms, from + 1, p);
    }
  }

  /** The leftmost match at or after `from` in a table of matches. */
  function FindEntry(ms: seq<Option<PartMatch>>, from: nat): (r: Option<PartMatch>)
    requires WellPlaced(ms)
    ensures r.None? <==> FindIn(ms, from).None?
    ensures r.Some? ==> FindIn(ms, from) == Some(r.value.start) && from <= r.value.start < |ms|
  {
    match FindIn(ms, from)
    case None => None
    case Some(q) => ms[q]
  }

  /** `re_part_type_pattern.search(s, from)`. */
  function FindPart(s: string, from: nat): (r: Option<PartMatch>)
    ensures r.Some? ==> from <= r.value.start < |s|
  {
    FindEntry(PartMatches(s), from)
  }

  /** What the search finds is a match of the pattern at its start. */
  lemma FindPartMatches(s: string, from: nat)
    requires FindPart(s, from).Some?
    ensures MatchAt(s, FindPart(s, from).value.start) == FindPart(s, from)
  {
    PartMatchesAt(s, FindPart(s, from).value.start);
  }

  /** The search finds the leftmost match: none lies before the one found,
      and none at all when nothing is found. */
  lemma FindPartLeftmost(s: string, from: nat, p: nat)
    requires from <= p < |s|
    requires FindPart(s, from).None? || p < FindPart(s, from).value.start
    ensures MatchAt(s, p).None?
  {
    FindInLeftmost(PartMatches(s), from, p);
    PartMatchesAt(s, p);
  }

  /** `has_copy_paste_table`. */
  predicate HasCopyPasteTable(s: string)
  {
    FindPart(s, 0).Some?
  }

  /** The loop of `get_all_part_types` over a table of matches, from the
      search position `from`: each search resumes one past the previous
      start; a `Custom` part type raises. */
  function PartsFrom(ms: seq<Option<PartMatch>>, from: nat): Result<seq<PartTypeInfo>>
    decreases |ms| - from
  {
    match FindIn(ms, from)
    case None => Ok([])
    case Some(q) =>
      var m := ms[q].value;
      if m.partType.None? then Fail(CustomPartType)
      else
        var rest := PartsFrom(ms, q + 1);
        if rest.Fail? then rest
        else Ok([PartTypeInfo(m.partType.value, q, m.end)] + rest.value)
  }

  /** `get_all_part_types` as a function. */
  function AllPartTypes(s: string): Result<seq<PartTypeInfo>>
  {
    PartsFrom(PartMatches(s), 0)
  }

  /** Over any table of matches, every reported part type sits where a
      labelled match is. */
  lemma {:induction false} PartsAreMatches(ms: seq<Option<PartMatch>>, from: nat)
    requires PartsFrom(ms, from).Ok?
    ensures var v := PartsFrom(ms, from).value;
      forall i :: 0 <= i < |v| ==>
        from <= v[i].start < |ms| && ms[v[i].start].Some? &&
        ms[v[i].start].value.end == v[i].end && ms[v[i].start].value.partType == Some(v[i].name)
    decreases |ms| - from
  {
    match FindIn(ms, from)
    case None =>
    case Some(q) =>
      PartsAreMatches(ms, q + 1);
      var v := PartsFrom(ms, from).value;
      var rest := PartsFrom(ms, q + 1).value;
      assert v == [PartTypeInfo(ms[q].value.partType.value, q, ms[q].value.end)] + rest;
      forall i | 0 < i < |v| ensures v[i] == rest[i - 1] {}
  }

  /** The search from one past the start of entry `i` finds entry `i + 1`. */
  predicate ResumesAt(ms: seq<Option<PartMatch>>, v: seq<PartTypeInfo>, i: nat)
    requires i + 1 < |v|
  {
    FindIn(ms, v[i].start + 1) == Some(v[i + 1].start)
  }

  /** The first part type is the leftmost match from `from`, each next one
      the leftmost from one past the previous start, and nothing is found
      after the last. */
  lemma {:induction false} PartsSearches(ms: seq<Option<PartMatch>>, from: nat)
    requires PartsFrom(ms, from).Ok?
    ensures var v := PartsFrom(ms, from).value;
      && (|v| == 0 <==> FindIn(ms, from).None?)
      && (|v| > 0 ==> FindIn(ms, from) == Some(v[0].start))
      && (forall i :: 0 <= i < |v| - 1 ==> ResumesAt(ms, v, i))
      && (|v| > 0 ==> FindIn(ms, v[|v| - 1].start + 1).None?)
    decreases |ms| - from
  {
    match FindIn(ms, from)
    case None =>
    case Some(q) =>
      PartsSearches(ms, q + 1);
      var v := PartsFrom(ms, from).value;
      var rest := PartsFrom(ms, q + 1).value;
      assert v == [PartTypeInfo(ms[q].value.partType.value, q, ms[q].value.end)] + rest;
      forall i | 0 <= i < |v| - 1 ensures ResumesAt(ms, v, i) {
        if i > 0 {
          assert ResumesAt(ms, rest, i - 1);
          assert v[i] == rest[i - 1] && v[i + 1] == rest[i];
        }
      }
  }

  /** The starts of the reported part types strictly increase. */
  lemma {:induction false} PartsIncreasing(ms: seq<Option<PartMatch>>, from: nat)
    requires PartsFrom(ms, from).Ok?
    ensures var v := PartsFrom(ms, from).value;
      forall i, j :: 0 <= i < j < |v| ==> v[i].start < v[j].start
    decreases |ms| - from
  {
    match FindIn(ms, from)
    case None =>
    case Some(q) =>
      PartsIncreasing(ms, q + 1);
      PartsAreMatches(ms, q + 1);
      var v := PartsFrom(ms, from).value;
      var rest := PartsFrom(ms, q + 1).value;
      assert v == [PartTypeInfo(ms[q].value.partType.value, q, ms[q].value.end)] + rest;
      forall i, j | 0 <= i < j < |v| ensures v[i].start < v[j].start {
        assert v[j] == rest[j - 1];
        if i > 0 { assert v[i] == rest[i - 1]; }
      }
  }

  /** The only way the loop raises is a `Custom` part type. */
  lemma {:induction false} PartsFailureIsCustom(ms: seq<Option<PartMatch>>, from: nat)
    ensures PartsFrom(ms, from).Fail? ==> PartsFrom(ms, from).failure == CustomPartType
    decreases |ms| - from
  {
    match FindIn(ms, from)
    case None =>
    case Some(q) =>
      if ms[q].value.partType.Some? {
        PartsFailureIsCustom(ms, q + 1);
      }
  }

  /** Every part type `get_all_part_types` reports is a labelled match of
      the pattern, and their starts strictly increase. */
  lemma PartTypesAreMatches(s: string)
    requires AllPartTypes(s).Ok?
    ensures var v := AllPartTypes(s).value;
      && (forall i :: 0 <= i < |v| ==>
            MatchAt(s, v[i].start) == Some(PartMatch(v[i].start, v[i].end, Some(v[i].name))))
      && (forall i, j :: 0 <= i < j < |v| ==> v[i].start < v[j].start < |s|)
  {
    var ms := PartMatches(s);
    PartsAreMatches(ms, 0);
    PartsIncreasing(ms, 0);
    var v := AllPartTypes(s).value;
    forall i | 0 <= i < |v|
      ensures MatchAt(s, v[i].start) == Some(PartMatch(v[i].start, v[i].end, Some(v[i].name)))
    {
      PartMatchesAt(s, v[i].start);
    }
  }

  /** `re_part_type_pattern.search(s, v[i].start + 1)` finds entry `i + 1`. */
  predicate SearchResumesAt(s: string, v: seq<PartTypeInfo>, i: nat)
    requires i + 1 < |v|
  {
    FindPart(s, v[i].start + 1).Some? && FindPart(s, v[i].start + 1).value.start == v[i + 1].start
  }

  /** The list is empty exactly when there is no copy-pasted table, and
      otherwise starts with what the first search finds. */
  lemma PartTypesFirst(s: string)
    requires AllPartTypes(s).Ok?
    ensures var v := AllPartTypes(s).value;
      && (|v| == 0 <==> !HasCopyPasteTable(s))
      && (|v| > 0 ==> FindPart(s, 0).Some? && FindPart(s, 0).value.start == v[0].start)
  {
    EntriesFirst(PartMatches(s), 0);
  }

  /** Over any table of matches, the collected list is empty exactly when
      the first search finds nothing, and otherwise starts with what it finds. */
  lemma EntriesFirst(ms: seq<Option<PartMatch>>, from: nat)
    requires WellPlaced(ms) && PartsFrom(ms, from).Ok?
    ensures var v := PartsFrom(ms, from).value;
      && (|v| == 0 <==> FindEntry(ms, from).None?)
      && (|v| > 0 ==> FindEntry(ms, from).Some? && FindEntry(ms, from).value.start == v[0].start)
  {
    PartsSearches(ms, from);
  }

  /** Each next part type is what the search from one past the previous
      start finds. */
  lemma PartTypesSearches(s: string)
    requires AllPartTypes(s).Ok?
    ensures var v := AllPartTypes(s).value;
      forall i :: 0 <= i < |v| - 1 ==> SearchResumesAt(s, v, i)
  {
    var ms := PartMatches(s);
    EntriesResume(ms, 0);
    var v := AllPartTypes(s).value;
    forall i | 0 <= i < |v| - 1 ensures SearchResumesAt(s, v, i) {
      assert EntryResumesAt(ms, v, i);
    }
  }

  /** The search over a table from one past the start of entry `i` finds
      entry `i + 1`. */
  predicate EntryResumesAt(ms: seq<Option<PartMatch>>, v: seq<PartTypeInfo>, i: nat)
    requires WellPlaced(ms) && i + 1 < |v|
  {
    FindEntry(ms, v[i].start + 1).Some? && FindEntry(ms, v[i].start + 1).value.start == v[i + 1].start
  }

  lemma EntriesResume(ms: seq<Option<PartMatch>>, from: nat)
    requires WellPlaced(ms) && PartsFrom(ms, from).Ok?
    ensures var v := PartsFrom(ms, from).value;
      forall i :: 0 <= i < |v| - 1 ==> EntryResumesAt(ms, v, i)
  {
    PartsSearches(ms, from);
    var v := PartsFrom(ms, from).value;
    forall i | 0 <= i < |v| - 1 ensures EntryResumesAt(ms, v, i) {
      assert ResumesAt(ms, v, i);
    }
  }

  /** The search after the last part type finds nothing. */
  lemma PartTypesLast(s: string)
    requires AllPartTypes(s).Ok? && |AllPartTypes(s).value| > 0
    ensures var v := AllPartTypes(s).value;
      FindPart(s, v[|v| - 1].start + 1).None?
  {
    var v := AllPartTypes(s).value;
    LastSearchFindsNothing(PartMatches(s), v[|v| - 1].start + 1);
  }

  lemma LastSearchFindsNothing(ms: seq<Option<PartMatch>>, after: nat)
    requires WellPlaced(ms) && PartsFrom(ms, 0).Ok? && |PartsFrom(ms, 0).value| > 0
    requires after == PartsFrom(ms, 0).value[|PartsFrom(ms, 0).value| - 1].start + 1
    ensures FindEntry(ms, after).None?
  {
    PartsLastExhausts(ms, 0);
  }

  /** Over any table of matches, nothing is found after the last entry. */
  lemma PartsLastExhausts(ms: seq<Option<PartMatch>>, from: nat)
    requires WellPlaced(ms) && PartsFrom(ms, from).Ok? && |PartsFrom(ms, from).value| > 0
    ensures var v := PartsFrom(ms, from).value;
      FindEntry(ms, v[|v| - 1].start + 1).None?
  {
    PartsSearches(ms, from);
  }

  /** The search raises only on a `Custom` part type, and without any
      pasted part type it finds nothing. */
  lemma PartTypesOutcome(s: string)
    ensures AllPartTypes(s).Fail? ==> AllPartTypes(s).failure == CustomPartType
    ensures !HasCopyPasteTable(s) ==> AllPartTypes(s) == Ok([])
  {
    PartsFailureIsCustom(PartMatches(s), 0);
  }

  /** A `Custom` part type met by the first search makes the read raise. */
  lemma CustomRaises(s: string)
    requires FindPart(s, 0).Some? && FindPart(s, 0).value.partType.None?
    ensures AllPartTypes(s) == Fail(CustomPartType)
    ensures StartsWithAt(s, FindPart(s, 0).value.start, "Custom")
  {
    EntryStep(PartMatches(s), 0);
    FindPartMatches(s, 0);
  }

  /** The results still to come prepended with the ones already found. */
  function Prepend(found: seq<PartTypeInfo>, r: Result<seq<PartTypeInfo>>): Result<seq<PartTypeInfo>>
  {
    if r.Fail? then r else Ok(found + r.value)
  }

  /** One step of the loop over a table of matches. */
  lemma PartsStep(ms: seq<Option<PartMatch>>, pos: nat)
    ensures FindIn(ms, pos).None? ==> PartsFrom(ms, pos) == Ok([])
    ensures FindIn(ms, pos).Some? && ms[FindIn(ms, pos).value].value.partType.None? ==>
      PartsFrom(ms, pos) == Fail(CustomPartType)
    ensures FindIn(ms, pos).Some? && ms[FindIn(ms, pos).value].value.partType.Some? ==>
      var q := FindIn(ms, pos).value;
      PartsFrom(ms, pos) ==
        Prepend([PartTypeInfo(ms[q].value.partType.value, q, ms[q].value.end)], PartsFrom(ms, q + 1))
  {}

  /** The same step told by what the search finds: nothing, and no part
      types are left; `Custom`, and the loop raises; a labelled part type,
      which is the next entry, the rest coming from the search one past
      its start. */
  lemma EntryStep(ms: seq<Option<PartMatch>>, pos: nat)
    requires WellPlaced(ms)
    ensures FindEntry(ms, pos).None? ==> PartsFrom(ms, pos) == Ok([])
    ensures FindEntry(ms, pos).Some? && FindEntry(ms, pos).value.partType.None? ==>
      PartsFrom(ms, pos) == Fail(CustomPartType)
    ensures FindEntry(ms, pos).Some? && FindEntry(ms, pos).value.partType.Some? ==>
      var m := FindEntry(ms, pos).value;
      PartsFrom(ms, pos) ==
        Prepend([PartTypeInfo(m.partType.value, m.start, m.end)], PartsFrom(ms, m.start + 1))
  {
    PartsStep(ms, pos);
  }

  lemma PrependTwice(a: seq<PartTypeInfo>, b: seq<PartTypeInfo>, r: Result<seq<PartTypeInfo>>)
    ensures Prepend(a, Prepend(b, r)) == Prepend(a + b, r)
  {
    if r.Ok? {
      assert a + (b + r.value) == (a + b) + r.value;
    }
  }

  /** `get_all_part_types`: the search runs over the table of matches of
      the post. */
  method GetAllPartTypes(s: string) returns (r: Result<seq<PartTypeInfo>>)
    ensures r == AllPartTypes(s)
  {
    r := CollectPartTypes(PartMatches(s));
  }

  /** The `while` loop of `get_all_part_types` over a table of matches:
      each search resumes one past the previous start, and a `Custom`
      part type raises. */
  method CollectPartTypes(ms: seq<Option<PartMatch>>) returns (r: Result<seq<PartTypeInfo>>)
    requires WellPlaced(ms)
    ensures r == PartsFrom(ms, 0)
  {
    var partTypes: seq<PartTypeInfo> := [];
    ghost var pos := 0;
    var m := FindEntry(ms, 0);
    assert Prepend([], PartsFrom(ms, 0)) == PartsFrom(ms, 0) by {
      if PartsFrom(ms, 0).Ok? { assert [] + PartsFrom(ms, 0).value == PartsFrom(ms, 0).value; }
    }
    while m.Some?
      invariant m == FindEntry(ms, pos)
      invariant Prepend(partTypes, PartsFrom(ms, pos)) == PartsFrom(ms, 0)
      decreases |ms| - pos
    {
      var start, end := m.value.start, m.value.end;
      var partType := m.value.partType;
      EntryStep(ms, pos);
      if partType.None? {
        return Fail(CustomPartType);
      }
      var info := PartTypeInfo(partType.value, start, end);
      PrependTwice(partTypes, [info], PartsFrom(ms, start + 1));
      partTypes := partTypes + [info];
      pos := start + 1;
      m := FindEntry(ms, start + 1);
    }
    EntryStep(ms, pos);
    assert partTypes + [] == partTypes;
    return Ok(partTypes);
  }

  // ---------------------------------------------------------------------
  // The currency pattern `(\*\*)?((\p{Sc}\s?[0-9,\.]+)|([0-9,\.]+\s?\p{Sc}))(\*\*)?`

  /** Length of the run of `[0-9,\.]` characters starting at `i`. */
  function AmountRun(s: string, i: nat): (n: nat)
    requires i <= |s|
    ensures i + n <= |s|
    ensures i + n < |s| ==> !IsAmountChar(s[i + n])
    decreases |s| - i
  {
    if i < |s| && IsAmountChar(s[i]) then 1 + AmountRun(s, i + 1) else 0
  }

  lemma {:induction false} AmountRunChars(s: string, i: nat, k: nat)
    requires i <= |s| && i <= k < i + AmountRun(s, i)
    ensures IsAmountChar(s[k])
    decreases k - i
  {
    if k > i {
      AmountRunChars(s, i + 1, k);
    }
  }

  /** A run inside a prefix of `s` is the run in `s`, cut at the prefix's
      end. */
  lemma AmountRunPrefix(s: string, n: nat, i: nat)
    requires i <= n <= |s|
    ensures AmountRun(s[..n], i) <= AmountRun(s, i)
    ensures i + AmountRun(s[..n], i) < n ==> AmountRun(s[..n], i) == AmountRun(s, i)
  {
    var a, b := AmountRun(s[..n], i), AmountRun(s, i);
    if b < a {
      AmountRunChars(s[..n], i, i + b);
    }
    if i + a < n && a < b {
      AmountRunChars(s, i, i + a);
    }
  }

  /** End of `\p{Sc}\s?[0-9,\.]+` or `[0-9,\.]+\s?\p{Sc}` matched at `q`.
      The runs are greedy and no currency symbol, white space character or
      amount character is another, so there is at most one way to match. */
  function CoreEnd(s: string, q: nat): (r: Option<nat>)
    requires q <= |s|
    ensures r.Some? ==> q < r.value <= |s|
  {
    if q < |s| && IsCurrencySymbol(s[q]) then
      var d := if q + 1 < |s| && IsRegexSpace(s[q + 1]) then q + 2 else q + 1;
      var n := AmountRun(s, d);
      if n > 0 then Some(d + n) else None
    else
      var n := AmountRun(s, q);
      if n == 0 then None
      else if q + n < |s| && IsCurrencySymbol(s[q + n]) then Some(q + n + 1)
      else if q + n + 1 < |s| && IsRegexSpace(s[q + n]) && IsCurrencySymbol(s[q + n + 1]) then Some(q + n + 2)
      else None
  }

  /** A currency match: its whole span and the span of group 2, the amount
      without the surrounding `**`. */
  datatype CurrencyMatch = CurrencyMatch(start: nat, coreStart: nat, coreEnd: nat, end: nat)

  /** The currency pattern tried at `p`.  A leading `**` not followed by an
      amount cannot be skipped, since the pattern would then start at `*`. */
  function CurrencyAt(s: string, p: nat): (r: Option<CurrencyMatch>)
    ensures r.Some? ==> r.value.start == p <= r.value.coreStart < r.value.coreEnd <= r.value.end <= |s|
  {
    if p >= |s| then None
    else
      var q := if StartsWithAt(s, p, "**") then p + 2 else p;
      match CoreEnd(s, q)
      case None => None
      case Some(e) => Some(CurrencyMatch(p, q, e, if StartsWithAt(s, e, "**") then e + 2 else e))
  }

  /** A non-empty run of `[0-9,.]`. */
  ghost predicate IsAmount(m: string)
  {
    |m| > 0 && forall k :: 0 <= k < |m| ==> IsAmountChar(m[k])
  }

  /** Group 2 of the currency pattern: a currency symbol, at most one white
      space character and an amount, or an amount, at most one white space
      character and a currency symbol. */
  ghost predicate IsPriceCore(m: string)
  {
    || (|m| >= 2 && IsCurrencySymbol(m[0]) &&
        (IsAmount(m[1..]) || (IsRegexSpace(m[1]) && IsAmount(m[2..]))))
    || (|m| >= 2 && IsCurrencySymbol(m[|m| - 1]) &&
        (IsAmount(m[..|m| - 1]) || (IsRegexSpace(m[|m| - 2]) && IsAmount(m[..|m| - 2]))))
  }

  lemma AmountRunIsAmount(s: string, i: nat)
    requires i <= |s| && AmountRun(s, i) > 0
    ensures IsAmount(s[i..i + AmountRun(s, i)])
  {
    var n := AmountRun(s, i);
    var m := s[i..i + n];
    forall k | 0 <= k < n ensures IsAmountChar(m[k]) {
      AmountRunChars(s, i, i + k);
    }
  }

  /** What the core scanner accepts. */
  lemma CoreEndMeans(s: string, q: nat)
    requires q <= |s| && CoreEnd(s, q).Some?
    ensures IsPriceCore(s[q..CoreEnd(s, q).value])
  {
    if q < |s| && IsCurrencySymbol(s[q]) {
      SymbolFirstCore(s, q);
    } else {
      AmountFirstCore(s, q);
    }
  }

  /** `\p{Sc}\s?[0-9,\.]+`. */
  lemma SymbolFirstCore(s: string, q: nat)
    requires q < |s| && IsCurrencySymbol(s[q]) && CoreEnd(s, q).Some?
    ensures IsPriceCore(s[q..CoreEnd(s, q).value])
  {
    var d := if q + 1 < |s| && IsRegexSpace(s[q + 1]) then q + 2 else q + 1;
    var e := d + AmountRun(s, d);
    assert CoreEnd(s, q).value == e;
    var m := s[q..e];
    AmountRunIsAmount(s, d);
    assert m[d - q..] == s[d..e];
    assert m[0] == s[q];
    if d == q + 2 {
      assert m[1] == s[q + 1];
    }
  }

  /** `[0-9,\.]+\s?\p{Sc}`. */
  lemma AmountFirstCore(s: string, q: nat)
    requires q <= |s| && !(q < |s| && IsCurrencySymbol(s[q])) && CoreEnd(s, q).Some?
    ensures IsPriceCore(s[q..CoreEnd(s, q).value])
  {
    var n := AmountRun(s, q);
    var e := CoreEnd(s, q).value;
    var m := s[q..e];
    AmountRunIsAmount(s, q);
    assert m[..n] == s[q..q + n];
    assert m[n] == s[q + n];
    assert m[|m| - 1] == s[e - 1];
  }

  /** What a currency match is: group 2 is a price core, and the optional
      `**` on each side is taken exactly when it is there. */
  lemma CurrencyAtMeans(s: string, p: nat)
    requires CurrencyAt(s, p).Some?
    ensures var c := CurrencyAt(s, p).value;
      && (c.coreStart == p + 2 <==> StartsWithAt(s, p, "**"))
      && (c.coreStart == p || c.coreStart == p + 2)
      && (c.end == c.coreEnd + 2 <==> StartsWithAt(s, c.coreEnd, "**"))
      && (c.end == c.coreEnd || c.end == c.coreEnd + 2)
      && IsPriceCore(s[c.coreStart..c.coreEnd])
  {
    var q := if StartsWithAt(s, p, "**") then p + 2 else p;
    CoreEndMeans(s, q);
  }

  /** A currency core inside a prefix of `s` is one in `s` too. */
  lemma CoreEndPrefix(s: string, n: nat, q: nat)
    requires q <= n <= |s| && CoreEnd(s[..n], q).Some?
    ensures CoreEnd(s, q).Some?
  {
    var t := s[..n];
    if q < n && IsCurrencySymbol(t[q]) {
      assert s[q] == t[q];
      var d := if q + 1 < n && IsRegexSpace(t[q + 1]) then q + 2 else q + 1;
      AmountRunPrefix(s, n, d);
    } else {
      AmountRunPrefix(s, n, q);
    }
  }

  /** A currency match inside a prefix of `s` is one in `s` too. */
  lemma CurrencyAtPrefix(s: string, n: nat, p: nat)
    requires n <= |s| && CurrencyAt(s[..n], p).Some?
    ensures CurrencyAt(s, p).Some?
  {
    var t := s[..n];
    if StartsWithAt(t, p, "**") {
      assert t[p..p + 2] == s[p..p + 2];
      CoreEndPrefix(s, n, p + 2);
    } else {
      CoreEndPrefix(s, n, p);
    }
  }

  /** The leftmost currency match at or after `from`. */
  function CurrencyFrom(s: string, from: nat): (r: Option<CurrencyMatch>)
    ensures r.Some? ==> from <= r.value.start && CurrencyAt(s, r.value.start) == r
    decreases |s| - from
  {
    if from >= |s| then None
    else if CurrencyAt(s, from).Some? then CurrencyAt(s, from)
    else CurrencyFrom(s, from + 1)
  }

  lemma {:induction false} CurrencyFromLeftmost(s: string, from: nat, p: nat)
    requires from <= p
    requires CurrencyFrom(s, from).None? || p < CurrencyFrom(s, from).value.start
    ensures CurrencyAt(s, p).None?
    decreases |s| - from
  {
    if p > from && from < |s| {
      CurrencyFromLeftmost(s, from + 1, p);
    }
  }

  /** `re.findall(re_currency, s[from..])`: non-overlapping matches, each
      search resuming where the previous match ended. */
  function Costs(s: string, from: nat): seq<CurrencyMatch>
    decreases |s| - from
  {
    match CurrencyFrom(s, from)
    case None => []
    case Some(c) => [c] + Costs(s, c.end)
  }

  /** Group 2 of match `c`: the amount between the `**`. */
  function Group2(s: string, c: CurrencyMatch): string
  {
    if c.coreStart <= c.coreEnd <= |s| then s[c.coreStart..c.coreEnd] else ""
  }

  /** `get_cost`: group 2 of the last match, or the empty string. */
  function GetCost(s: string): string
  {
    var cs := Costs(s, 0);
    if |cs| == 0 then "" else Group2(s, cs[|cs| - 1])
  }

  /** `cs` is what `findall` reports from `from`: the first entry is the
      leftmost match at or after `from`, each further entry is the leftmost
      match at or after the end of the one before, and no match starts at
      or after the end of the last entry. */
  predicate FindallChain(s: string, from: nat, cs: seq<CurrencyMatch>)
  {
    && (|cs| == 0 ==> CurrencyFrom(s, from).None?)
    && (|cs| > 0 ==> CurrencyFrom(s, from) == Some(cs[0]) && CurrencyFrom(s, cs[|cs| - 1].end).None?)
    && (forall i :: 0 <= i < |cs| - 1 ==> CurrencyFrom(s, cs[i].end) == Some(cs[i + 1]))
  }

  /** The list `Costs` builds is the `findall` chain. */
  lemma {:induction false} CostsFormFindallChain(s: string, from: nat)
    ensures FindallChain(s, from, Costs(s, from))
    decreases |s| - from
  {
    match CurrencyFrom(s, from)
    case None =>
    case Some(c) =>
      CostsFormFindallChain(s, c.end);
      var cs := Costs(s, from);
      var rest := Costs(s, c.end);
      assert cs == [c] + rest;
      forall i | 0 <= i < |cs| - 1 ensures CurrencyFrom(s, cs[i].end) == Some(cs[i + 1]) {
        if i > 0 {
          assert cs[i] == rest[i - 1] && cs[i + 1] == rest[i];
        } else {
          assert cs[1] == rest[0];
        }
      }
      assert cs[|cs| - 1] == if |rest| == 0 then c else rest[|rest| - 1];
  }

  /** There is only one `findall` chain from `from`, the one `Costs` builds. */
  lemma {:induction false} FindallChainUnique(s: string, from: nat, cs: seq<CurrencyMatch>)
    requires FindallChain(s, from, cs)
    ensures cs == Costs(s, from)
    decreases |cs|
  {
    if |cs| > 0 {
      var rest := cs[1..];
      assert FindallChain(s, cs[0].end, rest) by {
        if |rest| > 0 {
          assert rest[0] == cs[1] && rest[|rest| - 1] == cs[|cs| - 1];
          forall i | 0 <= i < |rest| - 1 ensures CurrencyFrom(s, rest[i].end) == Some(rest[i + 1]) {
            assert rest[i] == cs[i + 1] && rest[i + 1] == cs[i + 2];
          }
        }
      }
      FindallChainUnique(s, cs[0].end, rest);
      assert cs == [cs[0]] + rest;
    }
  }

  /** Every match `findall` reports is a match at or after `from`. */
  lemma {:induction false} CostsAreMatches(s: string, from: nat)
    ensures forall i :: 0 <= i < |Costs(s, from)| ==>
      from <= Costs(s, from)[i].start && CurrencyAt(s, Costs(s, from)[i].start) == Some(Costs(s, from)[i])
    decreases |s| - from
  {
    match CurrencyFrom(s, from)
    case None =>
    case Some(c) =>
      CostsAreMatches(s, c.end);
      var cs := Costs(s, from);
      var rest := Costs(s, c.end);
      assert cs == [c] + rest;
      forall i | 0 <= i < |cs|
        ensures from <= cs[i].start && CurrencyAt(s, cs[i].start) == Some(cs[i])
      {
        if i > 0 { assert cs[i] == rest[i - 1]; }
      }
  }

  /** Match `i + 1` starts at or after the end of match `i`. */
  predicate Apart(cs: seq<CurrencyMatch>, i: nat)
    requires i + 1 < |cs|
  {
    cs[i].end <= cs[i + 1].start
  }

  /** The matches of `findall` do not overlap. */
  lemma {:induction false} CostsApart(s: string, from: nat)
    ensures forall i :: 0 <= i < |Costs(s, from)| - 1 ==> Apart(Costs(s, from), i)
    decreases |s| - from
  {
    match CurrencyFrom(s, from)
    case None =>
    case Some(c) =>
      CostsApart(s, c.end);
      CostsAreMatches(s, c.end);
      var cs := Costs(s, from);
      var rest := Costs(s, c.end);
      assert cs == [c] + rest;
      forall i | 0 <= i < |cs| - 1 ensures Apart(cs, i) {
        if i > 0 {
          assert Apart(rest, i - 1);
          assert cs[i] == rest[i - 1] && cs[i + 1] == rest[i];
        } else {
          assert cs[1] == rest[0];
        }
      }
  }

  /** `findall` stops only when no match is left: none at all from `from`
      when it reports nothing, none after the last match otherwise. */
  lemma {:induction false} CostsExhaust(s: string, from: nat)
    ensures |Costs(s, from)| == 0 <==> CurrencyFrom(s, from).None?
    ensures |Costs(s, from)| > 0 ==> CurrencyFrom(s, Costs(s, from)[|Costs(s, from)| - 1].end).None?
    decreases |s| - from
  {
    match CurrencyFrom(s, from)
    case None =>
    case Some(c) =>
      CostsExhaust(s, c.end);
      var cs := Costs(s, from);
      var rest := Costs(s, c.end);
      assert cs == [c] + rest;
      assert cs[|cs| - 1] == if |rest| == 0 then c else rest[|rest| - 1];
  }

  /** `get_cost` is empty exactly when no currency match occurs; otherwise
      it is the amount of the last match `findall` reports, after which
      nothing matches. */
  lemma GetCostIsLastMatch(s: string)
    ensures GetCost(s) == "" <==> forall p :: 0 <= p < |s| ==> CurrencyAt(s, p).None?
    ensures GetCost(s) != "" ==>
      exists c: CurrencyMatch :: CurrencyAt(s, c.start) == Some(c) && GetCost(s) == s[c.coreStart..c.coreEnd]
             && CurrencyFrom(s, c.end).None?
    ensures forall cs :: FindallChain(s, 0, cs) ==>
      GetCost(s) == if |cs| == 0 then "" else Group2(s, cs[|cs| - 1])
  {
    forall cs | FindallChain(s, 0, cs)
      ensures GetCost(s) == if |cs| == 0 then "" else Group2(s, cs[|cs| - 1])
    {
      FindallChainUnique(s, 0, cs);
    }
    if |Costs(s, 0)| == 0 {
      NoCostsNoMatch(s);
    } else {
      LastCostIsMatch(s);
    }
  }

  /** `GetCostIsLastMatch` when `findall` reports nothing. */
  lemma NoCostsNoMatch(s: string)
    requires |Costs(s, 0)| == 0
    ensures GetCost(s) == "" && forall p :: 0 <= p < |s| ==> CurrencyAt(s, p).None?
  {
    CostsExhaust(s, 0);
    forall p | 0 <= p < |s| ensures CurrencyAt(s, p).None? {
      CurrencyFromLeftmost(s, 0, p);
    }
  }

  /** `GetCostIsLastMatch` when `findall` reports a last match `c`. */
  lemma LastCostIsMatch(s: string)
    requires |Costs(s, 0)| > 0
    ensures var c := Costs(s, 0)[|Costs(s, 0)| - 1];
      && c.start < |s| && CurrencyAt(s, c.start) == Some(c)
      && GetCost(s) == s[c.coreStart..c.coreEnd] != ""
      && CurrencyFrom(s, c.end).None?
  {
    CostsAreMatches(s, 0);
    CostsExhaust(s, 0);
  }

  // ---------------------------------------------------------------------
  // The end of the part name, and `get_part_name`

  /** `\[(\*\*)?Buy(\*\*)?\]` at `p`. */
  predicate BuyAt(s: string, p: nat)
  {
    StartsWithAt(s, p, "[Buy]") || StartsWithAt(s, p, "[**Buy]") ||
    StartsWithAt(s, p, "[Buy**]") || StartsWithAt(s, p, "[**Buy**]")
  }

  /** `re_end_name` at `p`: a price, `FREE`, `Purchased`,
      `No Prices Available` or a Buy link. */
  predicate EndNameAt(s: string, p: nat)
  {
    CurrencyAt(s, p).Some? || StartsWithAt(s, p, "FREE") || StartsWithAt(s, p, "Purchased") ||
    StartsWithAt(s, p, "No Prices Available") || BuyAt(s, p)
  }

  /** Start of the leftmost end-of-name match at or after `from`, or `|s|`. */
  function NameEnd(s: string, from: nat): (r: nat)
    requires from <= |s|
    ensures from <= r <= |s|
    ensures r < |s| ==> EndNameAt(s, r)
    decreases |s| - from
  {
    if from == |s| || EndNameAt(s, from) then from else NameEnd(s, from + 1)
  }

  lemma {:induction false} NameEndLeftmost(s: string, from: nat, p: nat)
    requires from <= |s| && from <= p < NameEnd(s, from)
    ensures !EndNameAt(s, p)
    decreases p - from
  {
    if p > from {
      NameEndLeftmost(s, from + 1, p);
    }
  }

  /** The furthest `**]` at or after `k` on the same line, or `best`. */
  function LastBoldClose(s: string, k: nat, best: Option<nat>): (r: Option<nat>)
    ensures best.Some? ==> r.Some?
    ensures r.Some? && r != best ==> k <= r.value && StartsWithAt(s, r.value, "**]")
    decreases |s| - k
  {
    if k >= |s| || s[k] == '\n' then best
    else LastBoldClose(s, k + 1, if StartsWithAt(s, k, "**]") then Some(k) else best)
  }

  /** Every `**]` on the line from `k` is at or before the one chosen. */
  lemma {:induction false} LastBoldCloseFurthest(s: string, k: nat, best: Option<nat>, j: nat)
    requires best.None? || best.value < k
    requires k <= j && StartsWithAt(s, j, "**]") && Lacks(s[k..j], '\n')
    ensures LastBoldClose(s, k, best).Some? && j <= LastBoldClose(s, k, best).value
    decreases |s| - k
  {
    assert s[k] != '\n' by {
      if k < j { assert s[k..j][0] == s[k]; } else { assert s[j..j + 3][0] == '*'; }
    }
    var next := if StartsWithAt(s, k, "**]") then Some(k) else best;
    if k < j {
      assert s[k + 1..j] == s[k..j][1..];
      LastBoldCloseFurthest(s, k + 1, next, j);
    } else {
      LastBoldCloseAtLeast(s, k + 1, next);
    }
  }

  lemma {:induction false} LastBoldCloseAtLeast(s: string, k: nat, best: Option<nat>)
    requires best.Some? && best.value < k
    ensures LastBoldClose(s, k, best).Some? && best.value <= LastBoldClose(s, k, best).value
    decreases |s| - k
  {
    if k < |s| && s[k] != '\n' {
      LastBoldCloseAtLeast(s, k + 1, if StartsWithAt(s, k, "**]") then Some(k) else best);
    }
  }

  /** `re.subn(r'(\[\*\*(.*)\*\*\])', r'[\2]', s)` from `i`: each `[**`
      whose line holds a later `**]` is rewritten up to the furthest such
      `**]`, with the two pairs of asterisks dropped. */
  function UnboldFrom(s: string, i: nat): string
    decreases |s| - i
  {
    if i >= |s| then []
    else if StartsWithAt(s, i, "[**") && LastBoldClose(s, i + 3, None).Some? then
      var j := LastBoldClose(s, i + 3, None).value;
      "[" + s[i + 3..j] + "]" + UnboldFrom(s, j + 3)
    else [s[i]] + UnboldFrom(s, i + 1)
  }

  function Unbold(s: string): string
  {
    UnboldFrom(s, 0)
  }

  lemma {:induction false} UnboldFromPlain(s: string, i: nat)
    requires i <= |s|
    requires forall k :: i <= k ==> !StartsWithAt(s, k, "[**")
    ensures UnboldFrom(s, i) == s[i..]
    decreases |s| - i
  {
    if i < |s| {
      UnboldFromPlain(s, i + 1);
      assert s[i..] == [s[i]] + s[i + 1..];
    }
  }

  /** Without a `[**` the name is left as it is. */
  lemma UnboldPlain(s: string)
    requires !Contains(s, "[**")
    ensures Unbold(s) == s
  {
    ContainsFromIff(s, 0, "[**");
    UnboldFromPlain(s, 0);
  }

  /** A bold link label on one line loses its asterisks: `[**X**]` becomes
      `[X]`. */
  lemma UnboldBold(x: string)
    requires Lacks(x, '\n')
    ensures Unbold("[**" + x + "**]") == "[" + x + "]"
  {
    var t := "[**" + x + "**]";
    var j := |x| + 3;
    assert t[..3] == "[**";
    assert t[j..j + 3] == "**]";
    assert t[3..j] == x;
    LastBoldCloseFurthest(t, 3, None, j);
    var r := LastBoldClose(t, 3, None).value;
    assert r == j;
    assert UnboldFrom(t, j + 3) == [];
  }

  /** `get_part_name`: the text before the leftmost end-of-name match (or
      all of it), with bold link labels unbolded. */
  function GetPartName(text: string): string
  {
    Unbold(text[..NameEnd(text, 0)])
  }

  /** The text kept as the name holds no complete currency match, and it
      is all of the text exactly when no end-of-name match occurs. */
  lemma NameHasNoPrice(text: string)
    ensures var pre := text[..NameEnd(text, 0)];
      forall p :: 0 <= p < |pre| ==> CurrencyAt(pre, p).None?
    ensures NameEnd(text, 0) == |text| <==> forall p :: 0 <= p < |text| ==> !EndNameAt(text, p)
  {
    var n := NameEnd(text, 0);
    forall p | 0 <= p < n ensures CurrencyAt(text[..n], p).None? {
      NameEndLeftmost(text, 0, p);
      if CurrencyAt(text[..n], p).Some? {
        CurrencyAtPrefix(text, n, p);
      }
    }
    if n == |text| {
      forall p | 0 <= p < |text| ensures !EndNameAt(text, p) {
        NameEndLeftmost(text, 0, p);
      }
    }
  }
}
