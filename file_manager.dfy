/**
  `save_results_to_csv` of `src/file_manager.py`: the table that is written
  out, with its columns cut down to the canonical ones the records use. The
  DataFrame is modelled as a list of column names and one row of cells per
  record; an empty cell is `None`. Writing the file is not modelled.
 */
module FileManager {
  import opened Builtins

  /** One per-repository record: column name to value. */
  type Record = map<string, string>

  /** The written table: column names, and one row per record aligned with them. */
  datatype Table = Table(columns: seq<string>, rows: seq<seq<Option<string>>>)

  /** The canonical column order of the written table. */
  const ColumnsOrder: seq<string> := [
    "repo", "bugs", "vulnerabilities", "code_smells", "coverage",
    "test_coverage", "ncloc", "complexity", "duplicated_lines_density",
    "security_hotspots", "reliability_rating", "security_rating",
    "sqale_rating", "test_passed", "test_failed"
  ]

  lemma ColumnsOrderIsDistinct()
    ensures |ColumnsOrder| == 15 && Distinct(ColumnsOrder)
  {
  }

  /** `a` is `b` with some elements left out, the rest kept in order. */
  predicate IsSubsequence<T(==)>(a: seq<T>, b: seq<T>) {
    if a == [] then true
    else if b == [] then false
    else if a[0] == b[0] then IsSubsequence(a[1..], b[1..])
    else IsSubsequence(a, b[1..])
  }

  /** The DataFrame's column set: every key of every record. */
  function AllKeys(records: seq<Record>): (keys: set<string>)
    ensures forall k :: k in keys <==> exists i :: 0 <= i < |records| && k in records[i]
  {
    if records == [] then {}
    else
      var rest := AllKeys(records[1..]);
      assert forall k :: (exists i :: 1 <= i < |records| && k in records[i]) ==> k in rest by {
        forall k, i | 1 <= i < |records| && k in records[i] ensures k in rest {
          assert records[1..][i - 1] == records[i];
        }
      }
      records[0].Keys + rest
  }

  /** The list comprehension `[c for c in order if c in present]`. */
  function KeepPresent(order: seq<string>, present: set<string>): (kept: seq<string>)
    ensures forall c :: c in kept <==> c in order && c in present
    ensures IsSubsequence(kept, order)
    ensures Distinct(order) ==> Distinct(kept)
  {
    if order == [] then []
    else
      var rest := KeepPresent(order[1..], present);
      if order[0] in present then
        assert Distinct(order) ==> order[0] !in order[1..];
        [order[0]] + rest
      else
        rest
  }

  /** The canonical columns some record uses, in canonical order. */
  function ExistingColumns(records: seq<Record>): (columns: seq<string>)
    ensures forall c :: c in columns <==>
              c in ColumnsOrder && exists i :: 0 <= i < |records| && c in records[i]
    ensures IsSubsequence(columns, ColumnsOrder)
    ensures Distinct(columns)
  {
    ColumnsOrderIsDistinct();
    KeepPresent(ColumnsOrder, AllKeys(records))
  }

  /** A record's cells under the given columns; a key it lacks is an empty cell. */
  function Row(record: Record, columns: seq<string>): seq<Option<string>> {
    seq(|columns|, j requires 0 <= j < |columns| =>
      if columns[j] in record then Some(record[columns[j]]) else None)
  }

  /**
    `save_results_to_csv`: nothing for an empty list; otherwise one row per
    record, in input order, under the canonical columns the records use, with
    an empty cell wherever a record lacks that column.
   */
  function SaveResultsToCsv(results: seq<Record>): (table: Option<Table>)
    ensures table.None? <==> results == []
    ensures table.Some? ==> table.value.columns == ExistingColumns(results)
    ensures table.Some? ==> |table.value.rows| == |results|
    ensures table.Some? ==> forall i :: 0 <= i < |results| ==> |table.value.rows[i]| == |table.value.columns|
    ensures table.Some? ==> forall i, j :: 0 <= i < |results| && 0 <= j < |table.value.columns| ==>
              |table.value.rows[i]| == |table.value.columns| &&
              table.value.rows[i][j] == (if table.value.columns[j] in results[i]
                                         then Some(results[i][table.value.columns[j]]) else None)
  {
    if results == [] then None
    else
      var columns := ExistingColumns(results);
      Some(Table(columns, seq(|results|, i requires 0 <= i < |results| => Row(results[i], columns))))
  }

  /** A key outside the canonical list never becomes a column. */
  lemma NonCanonicalKeysAreDropped(results: seq<Record>, key: string)
    requires results != []
    requires key !in ColumnsOrder
    ensures key !in SaveResultsToCsv(results).value.columns
  {
  }

  /**
    The column layout depends only on which records there are: reordering or
    repeating records does not change it.
   */
  lemma ColumnsIgnoreRecordOrder(records1: seq<Record>, records2: seq<Record>)
    requires forall r :: r in records1 <==> r in records2
    ensures ExistingColumns(records1) == ExistingColumns(records2)
  {
    assert AllKeys(records1) == AllKeys(records2) by {
      forall k | k in AllKeys(records1) ensures k in AllKeys(records2) {
        var i :| 0 <= i < |records1| && k in records1[i];
        assert records1[i] in records2;
      }
      forall k | k in AllKeys(records2) ensures k in AllKeys(records1) {
        var i :| 0 <= i < |records2| && k in records2[i];
        assert records2[i] in records1;
      }
    }
  }

  /** When every record names its repository, `repo` is the first column. */
  lemma RepoColumnComesFirst(records: seq<Record>)
    requires records != []
    requires forall i :: 0 <= i < |records| ==> "repo" in records[i]
    ensures ExistingColumns(records) != [] && ExistingColumns(records)[0] == "repo"
  {
    assert "repo" in records[0];
    assert "repo" in AllKeys(records);
  }

  /** Every element of a subsequence occurs in the sequence it was taken from. */
  lemma {:induction false} SubsequenceElements<T>(a: seq<T>, b: seq<T>)
    requires IsSubsequence(a, b)
    ensures forall x :: x in a ==> x in b
  {
    if a != [] && b != [] {
      if a[0] == b[0] {
        SubsequenceElements(a[1..], b[1..]);
        assert a == [a[0]] + a[1..];
      } else {
        SubsequenceElements(a, b[1..]);
      }
    }
  }

  /** The first element of a non-empty list is one of its elements. */
  lemma FirstIsElement<T>(xs: seq<T>)
    ensures xs != [] ==> xs[0] in xs
  {
  }

  /**
    Within a list without repeats, a subsequence is fixed by its elements:
    there is one canonical ordering of any set of kept columns.
   */
  lemma {:induction false} SubsequenceDeterminedByElements<T>(a: seq<T>, b: seq<T>, order: seq<T>)
    requires Distinct(order)
    requires IsSubsequence(a, order) && IsSubsequence(b, order)
    requires forall x :: x in a <==> x in b
    ensures a == b
  {
    if a == [] || b == [] {
      // the other one is empty too, as both have the same elements
      FirstIsElement(a);
      FirstIsElement(b);
    } else {
      assert order != [];
      assert order[0] !in order[1..];
      var tail := order[1..];
      assert Distinct(tail);
      if a[0] == order[0] && b[0] == order[0] {
        SubsequenceElements(a[1..], tail);
        SubsequenceElements(b[1..], tail);
        assert a == [a[0]] + a[1..] && b == [b[0]] + b[1..];
        forall x ensures x in a[1..] <==> x in b[1..] {
          assert x in a[1..] ==> x in a && x != order[0];
          assert x in b[1..] ==> x in b && x != order[0];
        }
        SubsequenceDeterminedByElements(a[1..], b[1..], tail);
      } else if a[0] == order[0] {
        SubsequenceElements(b, tail);
        assert false;
      } else if b[0] == order[0] {
        SubsequenceElements(a, tail);
        assert false;
      } else {
        SubsequenceDeterminedByElements(a, b, tail);
      }
    }
  }

  /** Two records, the second without `bugs`. */
  function ExampleRecords(): seq<Record> {
    [map["repo" := "a", "bugs" := "2"], map["repo" := "b"]]
  }

  /** The example's DataFrame columns are `repo` and `bugs`. */
  lemma ExampleKeys()
    ensures AllKeys(ExampleRecords()) == {"repo", "bugs"}
  {
    var records := ExampleRecords();
    assert records[1..][1..] == [];
  }

  /** A filter that finds none of its names present keeps nothing. */
  lemma KeepNothing(order: seq<string>, present: set<string>)
    requires forall j :: 0 <= j < |order| ==> order[j] !in present
    ensures KeepPresent(order, present) == []
  {
    FirstIsElement(KeepPresent(order, present));
  }

  /** No canonical name after `repo` and `bugs` is one of them. */
  lemma ExampleTailDropped()
    ensures KeepPresent(ColumnsOrder[2..], {"repo", "bugs"}) == []
  {
    assert forall j :: 2 <= j < |ColumnsOrder| ==> ColumnsOrder[j] != "repo" && ColumnsOrder[j] != "bugs";
    KeepNothing(ColumnsOrder[2..], {"repo", "bugs"});
  }

  /** Filtering the canonical list by `repo` and `bugs` keeps just those two. */
  lemma ExampleKept()
    ensures KeepPresent(ColumnsOrder, {"repo", "bugs"}) == ["repo", "bugs"]
  {
    ExampleTailDropped();
    assert ColumnsOrder[1..][1..] == ColumnsOrder[2..];
  }

  /** The example's kept columns. */
  lemma ExampleColumns()
    ensures ExistingColumns(ExampleRecords()) == ["repo", "bugs"]
  {
    ExampleKeys();
    ExampleKept();
  }

  /** The example gives two rows, with an empty `bugs` cell in the second. */
  lemma TwoRecordExample()
    ensures SaveResultsToCsv(ExampleRecords()).Some?
    ensures SaveResultsToCsv(ExampleRecords()).value.columns == ["repo", "bugs"]
    ensures SaveResultsToCsv(ExampleRecords()).value.rows == [[Some("a"), Some("2")], [Some("b"), None]]
  {
    var records := ExampleRecords();
    var columns := ["repo", "bugs"];
    ExampleColumns();
    assert records == [records[0], records[1]];
    RowsOfTwoRecords(records[0], records[1], columns);
    RowOfTwoColumns(records[0], columns);
    RowOfTwoColumns(records[1], columns);
  }

  /** The table of two records: their rows under the kept columns. */
  lemma RowsOfTwoRecords(r0: Record, r1: Record, columns: seq<string>)
    requires ExistingColumns([r0, r1]) == columns
    ensures SaveResultsToCsv([r0, r1]).Some?
    ensures SaveResultsToCsv([r0, r1]).value.columns == columns
    ensures SaveResultsToCsv([r0, r1]).value.rows == [Row(r0, columns), Row(r1, columns)]
  {
  }

  /** A row under two columns, cell by cell. */
  lemma RowOfTwoColumns(record: Record, columns: seq<string>)
    requires |columns| == 2
    ensures Row(record, columns) ==
              [if columns[0] in record then Some(record[columns[0]]) else None,
               if columns[1] in record then Some(record[columns[1]]) else None]
  {
  }
}
