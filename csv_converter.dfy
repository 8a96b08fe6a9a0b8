/** `csv-converter.py`: one wide table whose rows are evidence tasks (column 0 the ET id,
    column 4 the SOC control, column 5 the ISO control) is turned into two frameworks, and each
    is compared against the ET ids of the other. */
module CsvConverter {
  import opened Frameworks

  /** `get_framework_ETs(fw1, fw2)`: the numbers of controls of `fw2` that the ET ids of `fw1`
      complete, partially complete and leave not done. */
  method GetFrameworkEts(fw1: Framework, fw2: Framework) returns (completed: nat, partial: nat, notDone: nat)
    ensures completed == |ClassifiedAs(fw2, EtIds(fw1), Collected)|
    ensures partial == |ClassifiedAs(fw2, EtIds(fw1), Partial)|
    ensures notDone == |ClassifiedAs(fw2, EtIds(fw1), Outstanding)|
    ensures completed + partial + notDone == |fw2.Keys|
    ensures fw1 == fw2 ==> completed == |fw2.Keys| && partial == 0 && notDone == 0
  {
    var fw1EtList := AddFrameworkEts(fw1, {});
    var completedList, partialList, notDoneList := [], [], [];
    var remaining := fw2.Keys;
    while remaining != {}
      invariant remaining <= fw2.Keys
      invariant forall c :: c in completedList <==>
                  c in fw2 && c !in remaining && Classify(fw2[c], fw1EtList) == Collected
      invariant forall c :: c in partialList <==>
                  c in fw2 && c !in remaining && Classify(fw2[c], fw1EtList) == Partial
      invariant forall c :: c in notDoneList <==>
                  c in fw2 && c !in remaining && Classify(fw2[c], fw1EtList) == Outstanding
      invariant NoDuplicates(completedList) && NoDuplicates(partialList) && NoDuplicates(notDoneList)
      decreases |remaining|
    {
      var control :| control in remaining;
      remaining := remaining - {control};
      var etList := fw2[control];
      if AllImplemented(etList, fw1EtList) {
        NoDuplicatesAppend(completedList, control);
        completedList := completedList + [control];
      } else if AnyImplemented(etList, fw1EtList) {
        NoDuplicatesAppend(partialList, control);
        partialList := partialList + [control];
      } else {
        NoDuplicatesAppend(notDoneList, control);
        notDoneList := notDoneList + [control];
      }
    }
    CountBuckets(fw2, fw1EtList, completedList, partialList, notDoneList);
    completed, partial, notDone := |completedList|, |partialList|, |notDoneList|;
    if fw1 == fw2 {
      SelfCovered(fw2);
    }
  }

  /** Duplicate-free lists holding exactly the three buckets are as long as the buckets. */
  lemma CountBuckets(fw: Framework, implemented: set<string>,
                     completed: seq<string>, partial: seq<string>, notDone: seq<string>)
    requires NoDuplicates(completed) && NoDuplicates(partial) && NoDuplicates(notDone)
    requires forall c :: c in completed <==> c in ClassifiedAs(fw, implemented, Collected)
    requires forall c :: c in partial <==> c in ClassifiedAs(fw, implemented, Partial)
    requires forall c :: c in notDone <==> c in ClassifiedAs(fw, implemented, Outstanding)
    ensures |completed| == |ClassifiedAs(fw, implemented, Collected)|
    ensures |partial| == |ClassifiedAs(fw, implemented, Partial)|
    ensures |notDone| == |ClassifiedAs(fw, implemented, Outstanding)|
    ensures |completed| + |partial| + |notDone| == |fw.Keys|
  {
    assert (set c | c in completed) == ClassifiedAs(fw, implemented, Collected);
    assert (set c | c in partial) == ClassifiedAs(fw, implemented, Partial);
    assert (set c | c in notDone) == ClassifiedAs(fw, implemented, Outstanding);
    NoDuplicatesCard(completed);
    NoDuplicatesCard(partial);
    NoDuplicatesCard(notDone);
    ClassifiedPartition(fw, implemented);
  }

  /** Every data row is read up to column `col`. */
  predicate RowsReach(rows: seq<seq<string>>, col: nat)
  {
    forall i :: 0 <= i < |rows| ==> col < |rows[i]|
  }

  /** The framework that the row loop of `main` builds from column `col`: one
      `add_to_framework_dict(row[0], row[col], framework)` per row, in row order. */
  function ColumnFramework(rows: seq<seq<string>>, col: nat): Framework
    requires RowsReach(rows, col)
    decreases |rows|
  {
    if rows == [] then map[]
    else
      var row := rows[|rows| - 1];
      Added(ColumnFramework(rows[..|rows| - 1], col), row[0], row[col])
  }

  /** The ET ids (column 0) of the rows whose column `col` holds `control`, in row order. */
  function IdsWithCell(rows: seq<seq<string>>, col: nat, control: string): seq<string>
    requires RowsReach(rows, col)
    decreases |rows|
  {
    if rows == [] then []
    else
      var row := rows[|rows| - 1];
      IdsWithCell(rows[..|rows| - 1], col, control) + (if row[col] == control then [row[0]] else [])
  }

  /** Some row holds `control` in column `col`. */
  ghost predicate CellOccurs(rows: seq<seq<string>>, col: nat, control: string)
    requires RowsReach(rows, col)
  {
    exists i :: 0 <= i < |rows| && rows[i][col] == control
  }

  lemma CellOccursPrefix(rows: seq<seq<string>>, col: nat, control: string)
    requires RowsReach(rows, col) && rows != []
    ensures RowsReach(rows[..|rows| - 1], col)
    ensures CellOccurs(rows, col, control) <==>
              CellOccurs(rows[..|rows| - 1], col, control) || rows[|rows| - 1][col] == control
  {
    var n := |rows| - 1;
    if CellOccurs(rows, col, control) {
      var i :| 0 <= i < |rows| && rows[i][col] == control;
      if i < n {
        assert rows[..n][i] == rows[i];
      }
    }
    if CellOccurs(rows[..n], col, control) {
      var i :| 0 <= i < n && rows[..n][i][col] == control;
      assert rows[i] == rows[..n][i];
    }
  }

  /** After the row loop a framework knows exactly the non-empty cells of its column, and maps
      each to the ids of the rows carrying it, in row order; empty cells contribute nothing. */
  lemma {:induction false} ColumnFrameworkContents(rows: seq<seq<string>>, col: nat, control: string)
    requires RowsReach(rows, col)
    ensures control in ColumnFramework(rows, col) <==> control != "" && CellOccurs(rows, col, control)
    ensures control in ColumnFramework(rows, col) ==>
              ColumnFramework(rows, col)[control] == IdsWithCell(rows, col, control)
    decreases |rows|
  {
    if rows != [] {
      var n := |rows| - 1;
      CellOccursPrefix(rows, col, control);
      ColumnFrameworkContents(rows[..n], col, control);
      if control != "" && control !in ColumnFramework(rows[..n], col) {
        IdsWithCellAbsent(rows[..n], col, control);
      }
    }
  }

  /** No row carries the cell: no ids. */
  lemma {:induction false} IdsWithCellAbsent(rows: seq<seq<string>>, col: nat, control: string)
    requires RowsReach(rows, col)
    requires !CellOccurs(rows, col, control)
    ensures IdsWithCell(rows, col, control) == []
    decreases |rows|
  {
    if rows != [] {
      CellOccursPrefix(rows, col, control);
      IdsWithCellAbsent(rows[..|rows| - 1], col, control);
    }
  }

  /** The ids listed for a cell are those of the rows carrying it. */
  lemma {:induction false} IdsWithCellMember(rows: seq<seq<string>>, col: nat, control: string, e: string)
    requires RowsReach(rows, col)
    ensures e in IdsWithCell(rows, col, control) <==>
              exists i :: 0 <= i < |rows| && rows[i][col] == control && rows[i][0] == e
    decreases |rows|
  {
    if rows != [] {
      var n := |rows| - 1;
      IdsWithCellMember(rows[..n], col, control, e);
      if exists i :: 0 <= i < |rows| && rows[i][col] == control && rows[i][0] == e {
        var i :| 0 <= i < |rows| && rows[i][col] == control && rows[i][0] == e;
        if i < n {
          assert rows[..n][i] == rows[i];
        }
      }
      if exists i :: 0 <= i < n && rows[..n][i][col] == control && rows[..n][i][0] == e {
        var i :| 0 <= i < n && rows[..n][i][col] == control && rows[..n][i][0] == e;
        assert rows[i] == rows[..n][i];
      }
    }
  }

  /** The row loop of `main` (after the header row is dropped): each row adds its ET id to the
      SOC framework under column 4 and to the ISO framework under column 5. */
  method BuildSocIso(rows: seq<seq<string>>) returns (soc: FrameworkTable, iso: FrameworkTable)
    requires RowsReach(rows, 5)
    ensures fresh(soc) && fresh(iso) && soc != iso
    ensures soc.controls == ColumnFramework(rows, 4)
    ensures iso.controls == ColumnFramework(rows, 5)
  {
    soc := new FrameworkTable();
    iso := new FrameworkTable();
    for i := 0 to |rows|
      invariant soc.controls == ColumnFramework(rows[..i], 4)
      invariant iso.controls == ColumnFramework(rows[..i], 5)
    {
      var row := rows[i];
      assert rows[..i + 1][..i] == rows[..i];
      var etId := row[0];
      var socControl := row[4];
      var isoControl := row[5];
      soc.Add(etId, socControl);
      iso.Add(etId, isoControl);
    }
    assert rows[..|rows|] == rows;
  }
}
