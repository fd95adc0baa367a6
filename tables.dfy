/**
 * The `Table` of data_classes.py: an insertion-ordered map from line
 * numbers to row texts, an error counter and two flags recording whether
 * a header and a column-alignment row were seen.  The ordered map is a
 * sequence of (key, value) pairs with unique keys; `TableValue` is the
 * value a `Table` object holds at one moment, and the pure reading of the
 * parsers is stated on it.
 */
module Tables {
  import opened Text

  type Row = (int, string)

  const DefaultHeader := "Type|Item|Price"
  const DefaultAlignments := ":----|:----|:----"

  /** The characters of the default header line. */
  lemma DefaultHeaderText()
    ensures Lower(DefaultHeader) == "type" + "|" + "item" + "|" + "price"
    ensures CountChar(DefaultHeader, '|') == 2
  {
    HeaderPiecesText();
    assert DefaultHeader == "Type" + "|" + "Item" + "|" + "Price";
    CountBarred("Type", "Item", "Price");
    LowerAppend("Type" + "|" + "Item" + "|", "Price");
    LowerAppend("Type" + "|" + "Item", "|");
    LowerAppend("Type" + "|", "Item");
    LowerAppend("Type", "|");
  }

  /** The default header line holds no line break, also with a space
      after it. */
  lemma DefaultHeaderLacks()
    ensures Lacks(DefaultHeader, '\n') && Lacks(DefaultHeader + " ", '\n')
  {
    HeaderPiecesText();
    assert DefaultHeader == "Type" + "|" + "Item" + "|" + "Price";
    LacksBarred("Type", "Item", "Price", '\n');
    LacksAppend(DefaultHeader, " ", '\n');
  }

  lemma HeaderPiecesText()
    ensures Lower("Type") == "type" && Lower("Item") == "item" && Lower("Price") == "price"
    ensures Lower("|") == "|"
    ensures Lacks("Type", '|') && Lacks("Item", '|') && Lacks("Price", '|')
    ensures Lacks("Type", '\n') && Lacks("Item", '\n') && Lacks("Price", '\n') && Lacks(" ", '\n')
  {}

  /** The characters of the default alignment line. */
  lemma DefaultAlignmentsText()
    ensures CountChar(DefaultAlignments, '|') == 2
    ensures Lacks(DefaultAlignments, 't') && Lacks(DefaultAlignments, 'T')
    ensures Lacks(DefaultAlignments, '\\') && Lacks(DefaultAlignments, '\n')
  {
    var c := ":----";
    AlignmentPieceText();
    assert DefaultAlignments == c + "|" + c + "|" + c;
    CountBarred(c, c, c);
    LacksBarred(c, c, c, 't');
    LacksBarred(c, c, c, 'T');
    LacksBarred(c, c, c, '\\');
    LacksBarred(c, c, c, '\n');
  }

  /** The default alignment line holds no line break. */
  lemma DefaultAlignmentsLacks()
    ensures Lacks(DefaultAlignments, '\n')
  {
    var c := ":----";
    AlignmentPieceText();
    assert DefaultAlignments == c + "|" + c + "|" + c;
    LacksBarred(c, c, c, '\n');
  }

  lemma AlignmentPieceText()
    ensures Lacks(":----", '|') && Lacks(":----", 't') && Lacks(":----", 'T')
    ensures Lacks(":----", '\\') && Lacks(":----", '\n')
  {}

  predicate HasKey(rows: seq<Row>, k: int)
  {
    exists i :: 0 <= i < |rows| && rows[i].0 == k
  }

  ghost predicate UniqueKeys(rows: seq<Row>)
  {
    forall i, j :: 0 <= i < j < |rows| ==> rows[i].0 != rows[j].0
  }

  /** The entries whose key is not `k`, in their order. */
  function Without(rows: seq<Row>, k: int): (r: seq<Row>)
    ensures !HasKey(r, k)
    ensures |r| <= |rows|
  {
    if |rows| == 0 then []
    else if rows[0].0 == k then Without(rows[1..], k)
    else [rows[0]] + Without(rows[1..], k)
  }

  /** `OrderedDict.update({k: v})` followed by `move_to_end(k)`. */
  function Upsert(rows: seq<Row>, k: int, v: string): seq<Row>
  {
    Without(rows, k) + [(k, v)]
  }

  function Values(rows: seq<Row>): (r: seq<string>)
    ensures |r| == |rows|
    ensures forall i :: 0 <= i < |rows| ==> r[i] == rows[i].1
  {
    seq(|rows|, i requires 0 <= i < |rows| => rows[i].1)
  }

  lemma {:induction false} WithoutAbsent(rows: seq<Row>, k: int)
    requires !HasKey(rows, k)
    ensures Without(rows, k) == rows
  {
    if |rows| > 0 {
      assert rows[0].0 != k;
      assert !HasKey(rows[1..], k) by {
        forall i | 0 <= i < |rows[1..]| ensures rows[1..][i].0 != k {
          assert rows[1..][i] == rows[i + 1];
        }
      }
      WithoutAbsent(rows[1..], k);
      assert [rows[0]] + rows[1..] == rows;
    }
  }

  lemma {:induction false} WithoutPresent(rows: seq<Row>, k: int, i: nat)
    requires UniqueKeys(rows)
    requires i < |rows| && rows[i].0 == k
    ensures Without(rows, k) == rows[..i] + rows[i + 1..]
  {
    if i == 0 {
      assert !HasKey(rows[1..], k) by {
        forall j | 0 <= j < |rows[1..]| ensures rows[1..][j].0 != k {
          assert rows[1..][j] == rows[j + 1];
        }
      }
      WithoutAbsent(rows[1..], k);
    } else {
      assert rows[0].0 != k;
      assert UniqueKeys(rows[1..]) by {
        forall a, b | 0 <= a < b < |rows[1..]| ensures rows[1..][a].0 != rows[1..][b].0 {
          assert rows[1..][a] == rows[a + 1] && rows[1..][b] == rows[b + 1];
        }
      }
      WithoutPresent(rows[1..], k, i - 1);
      assert rows[1..][..i - 1] == rows[1..i];
      assert rows[1..][i..] == rows[i + 1..];
      assert [rows[0]] + rows[1..i] == rows[..i];
    }
  }

  /** Every entry of `Without(rows, k)` comes from `rows`, in order. */
  lemma {:induction false} WithoutIsSubsequence(rows: seq<Row>, k: int)
    ensures forall e :: e in Without(rows, k) <==> e in rows && e.0 != k
    ensures UniqueKeys(rows) ==> UniqueKeys(Without(rows, k))
  {
    if |rows| > 0 {
      WithoutIsSubsequence(rows[1..], k);
      var tail := Without(rows[1..], k);
      if UniqueKeys(rows) {
        assert UniqueKeys(rows[1..]) by {
          forall a, b | 0 <= a < b < |rows[1..]| ensures rows[1..][a].0 != rows[1..][b].0 {
            assert rows[1..][a] == rows[a + 1] && rows[1..][b] == rows[b + 1];
          }
        }
        if rows[0].0 != k {
          forall j | 0 <= j < |tail| ensures tail[j].0 != rows[0].0 {
            assert tail[j] in rows[1..];
          }
          var r := [rows[0]] + tail;
          forall a, b | 0 <= a < b < |r| ensures r[a].0 != r[b].0 {
            if a == 0 {
              assert r[b] == tail[b - 1];
            } else {
              assert r[a] == tail[a - 1] && r[b] == tail[b - 1];
            }
          }
        }
      }
    }
  }

  /** Inserting a key that is not present appends the entry at the end. */
  lemma UpsertNewKey(rows: seq<Row>, k: int, v: string)
    requires !HasKey(rows, k)
    ensures Upsert(rows, k, v) == rows + [(k, v)]
    ensures |Upsert(rows, k, v)| == |rows| + 1
  {
    WithoutAbsent(rows, k);
  }

  /** Re-inserting a present key keeps the length, replaces the value and
      moves the entry to the end; the other entries keep their order. */
  lemma UpsertExistingKey(rows: seq<Row>, k: int, v: string, i: nat)
    requires UniqueKeys(rows)
    requires i < |rows| && rows[i].0 == k
    ensures Upsert(rows, k, v) == rows[..i] + rows[i + 1..] + [(k, v)]
    ensures |Upsert(rows, k, v)| == |rows|
  {
    WithoutPresent(rows, k, i);
  }

  /** Keys stay unique, and the key set grows by exactly `k`. */
  lemma UpsertKeepsUnique(rows: seq<Row>, k: int, v: string)
    requires UniqueKeys(rows)
    ensures UniqueKeys(Upsert(rows, k, v))
    ensures forall j :: HasKey(Upsert(rows, k, v), j) <==> HasKey(rows, j) || j == k
  {
    WithoutIsSubsequence(rows, k);
    var w := Without(rows, k);
    var r := w + [(k, v)];
    forall a, b | 0 <= a < b < |r| ensures r[a].0 != r[b].0 {
      if b == |w| {
        assert r[a] == w[a];
        assert w[a] in w;
      } else {
        assert r[a] == w[a] && r[b] == w[b];
      }
    }
    forall j ensures HasKey(r, j) <==> HasKey(rows, j) || j == k {
      if HasKey(rows, j) && j != k {
        var i :| 0 <= i < |rows| && rows[i].0 == j;
        assert rows[i] in w;
        var m :| 0 <= m < |w| && w[m] == rows[i];
        assert r[m] == w[m];
      }
      if HasKey(r, j) && j != k {
        var m :| 0 <= m < |r| && r[m].0 == j;
        assert r[m] == w[m] && w[m] in w;
        var i :| 0 <= i < |rows| && rows[i] == w[m];
      }
      if j == k {
        assert r[|w|].0 == k;
      }
    }
  }

  /** The value one `Table` object holds. */
  datatype TableValue = TableValue(hasHeader: bool, hasColumnAlignments: bool,
                                   rows: seq<Row>, errors: nat)
  {
    /** `add_row`. */
    function AddRow(k: int, v: string): TableValue
    {
      this.(rows := Upsert(rows, k, v))
    }

    /** The lines `create_md` puts before the rows. */
    function HeaderLines(): seq<string>
    {
      (if hasHeader then [] else [DefaultHeader]) +
      (if hasColumnAlignments then [] else [DefaultAlignments])
    }

    /** `create_md`: the inserted lines, then every row in stored order. */
    function CreateMd(): string
    {
      Join(HeaderLines() + Values(rows), "\n")
    }

    /** The lines `create_md` is evidently meant to produce.  When the
        header was read but no alignment row was, the default alignment
        line goes right after the first stored row instead of in front of
        it; that row is the header when no row-shaped line precedes it.
        In every other case they are `create_md`'s lines. */
    function CorrectedLines(): seq<string>
    {
      if hasHeader && !hasColumnAlignments && |rows| > 0 then
        [rows[0].1, DefaultAlignments] + Values(rows[1..])
      else HeaderLines() + Values(rows)
    }

    /** `create_md` with the alignment line after the first stored row. */
    function CreateMdCorrected(): string
    {
      Join(CorrectedLines(), "\n")
    }

    /** `should_create`. */
    predicate ShouldCreate()
    {
      |rows| > 0 && errors > 0
    }
  }

  const EmptyTable := TableValue(false, false, [], 0)

  /** Reading the markdown back line by line gives the header line exactly
      when the header was missing, the alignment line exactly when it was
      missing, and then the row values in stored order.  It covers only
      tables whose row values hold no line break; a pasted part name or
      the double-link fix can put one in a value, and such a table is not
      covered. */
  lemma CreateMdLines(t: TableValue)
    requires forall i :: 0 <= i < |t.rows| ==> Lacks(t.rows[i].1, '\n')
    requires !(t.hasHeader && t.hasColumnAlignments && |t.rows| == 0)
    ensures Split(t.CreateMd(), '\n') == t.HeaderLines() + Values(t.rows)
    ensures |t.HeaderLines()| == (if t.hasHeader then 0 else 1) + (if t.hasColumnAlignments then 0 else 1)
    ensures !t.hasHeader ==> t.HeaderLines()[0] == DefaultHeader
    ensures Split(t.CreateMd(), '\n')[|t.HeaderLines()|..] == Values(t.rows)
  {
    var xs := t.HeaderLines() + Values(t.rows);
    forall k | 0 <= k < |xs| ensures Lacks(xs[k], '\n') {
      if k >= |t.HeaderLines()| {
        assert xs[k] == t.rows[k - |t.HeaderLines()|].1;
      }
    }
    SplitJoin(xs, '\n');
  }

  /** The `Table` object of data_classes.py. */
  class Table {
    var hasHeader: bool
    var hasColumnAlignments: bool
    var rows: seq<Row>
    var errors: nat

    ghost predicate Valid()
      reads this
    {
      UniqueKeys(rows)
    }

    function Value(): TableValue
      reads this
    {
      TableValue(hasHeader, hasColumnAlignments, rows, errors)
    }

    /** A fresh table: no rows, no errors, neither flag set. */
    constructor ()
      ensures Valid()
      ensures Value() == EmptyTable
      ensures rows == [] && errors == 0 && !hasHeader && !hasColumnAlignments
    {
      hasHeader := false;
      hasColumnAlignments := false;
      rows := [];
      errors := 0;
    }

    /** `add_row`: insert or overwrite key `k`, then move it to the end. */
    method AddRow(k: int, v: string)
      requires Valid()
      modifies this
      ensures Valid()
      ensures rows == Upsert(old(rows), k, v)
      ensures Value() == old(Value()).AddRow(k, v)
    {
      UpsertKeepsUnique(rows, k, v);
      rows := Upsert(rows, k, v);
    }

    /** `OrderedDict.popitem()`: remove and return the last entry. */
    method PopItem() returns (item: Row)
      requires Valid() && |rows| > 0
      modifies this
      ensures Valid()
      ensures item == old(rows)[|old(rows)| - 1]
      ensures rows == old(rows)[..|old(rows)| - 1]
      ensures hasHeader == old(hasHeader) && hasColumnAlignments == old(hasColumnAlignments)
      ensures errors == old(errors)
    {
      item := rows[|rows| - 1];
      rows := rows[..|rows| - 1];
    }

    function CreateMd(): string
      reads this
    {
      Value().CreateMd()
    }

    predicate ShouldCreate()
      reads this
    {
      Value().ShouldCreate()
    }
  }
}
