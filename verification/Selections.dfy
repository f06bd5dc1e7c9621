/** What it means to pick rows out of a list and columns out of a row, by
  * position: the reference for scans, filters and joins.
  */
module Selections {
  import opened Options
  import opened Values
  import opened Rows
  import opened Streams

  // ---------- positions ----------

  /** `ks` lists the positions in `kept`, in order. */
  ghost predicate Enumerates(ks: seq<nat>, kept: set<nat>) {
    && (forall a, b :: 0 <= a < b < |ks| ==> ks[a] < ks[b])
    && forall k :: k in ks <==> k in kept
  }

  function Shifted(ks: seq<nat>): seq<nat> {
    seq(|ks|, i requires 0 <= i < |ks| => ks[i] + 1)
  }

  /** The positions of a list, given those of its tail. */
  lemma ConsEnumerates(ks: seq<nat>, kept: set<nat>, first: bool, kept': set<nat>)
    requires Enumerates(ks, kept) && forall k: nat :: k in kept' <==> if k == 0 then first else k - 1 in kept
    ensures Enumerates((if first then [0] else []) + Shifted(ks), kept')
  {
    var front, back := if first then [0] else [], Shifted(ks);
    forall k: nat ensures k in back <==> k > 0 && k - 1 in kept {
      if k in back {
        var i :| 0 <= i < |back| && back[i] == k;
        assert ks[i] in ks;
      }
      if k > 0 && k - 1 in kept {
        var i :| 0 <= i < |ks| && ks[i] == k - 1;
        assert back[i] == k;
      }
    }
    assert forall k :: k in front + back <==> k in front || k in back;
  }

  /** The positions of a list, given those of all but its last element. */
  lemma SnocEnumerates(ks: seq<nat>, kept: set<nat>, n: nat, last: bool)
    requires Enumerates(ks, kept) && forall k :: k in kept ==> k < n
    ensures Enumerates(ks + if last then [n] else [], kept + if last then {n} else {})
  {
    assert forall i :: 0 <= i < |ks| ==> ks[i] in ks;
  }

  // ---------- columns ----------

  /** `out` has the named columns of `row`, NULL beyond its end; or all of `row` if
    * none is named. */
  predicate IsProjection(projection: seq<nat>, row: Row, out: Row) {
    if projection == [] then out == row
    else
      && |out| == |projection|
      && forall i :: 0 <= i < |out| ==>
           if projection[i] < |row| then out[i] == row[projection[i]] else out[i] == Null
  }

  lemma ProjectedIs(projection: seq<nat>, row: Row)
    ensures IsProjection(projection, row, Projected(projection, row))
  {
  }

  /** `values` has the columns found in `row`; NULL for one that was not found. */
  predicate HasColumns(columns: seq<Option<nat>>, row: Row, values: Row) {
    && |values| == |columns|
    && forall i :: 0 <= i < |values| ==>
         if columns[i].Some? && columns[i].value < |row| then values[i] == row[columns[i].value] else values[i] == Null
  }

  lemma SameColumns(columns: seq<Option<nat>>, row: Row, a: Row, b: Row)
    requires HasColumns(columns, row, a) && HasColumns(columns, row, b)
    ensures a == b
  {
    assert forall i :: 0 <= i < |a| ==> a[i] == b[i];
  }

  lemma ColumnValuesAre(columns: seq<Option<nat>>, row: Row)
    ensures HasColumns(columns, row, ColumnValues(row, columns))
    ensures ParamValues(columns, row).Some? <==> forall i :: 0 <= i < |columns| ==> columns[i].Some?
    ensures ParamValues(columns, row).Some? ==> HasColumns(columns, row, ParamValues(columns, row).value)
  {
    if None in columns {
      var i :| 0 <= i < |columns| && columns[i] == None;
    }
  }

  /** `out` has the rows at `ks`, projected. */
  ghost predicate AreProjections(projection: seq<nat>, rows: seq<Row>, ks: seq<nat>, out: seq<Row>) {
    |out| == |ks| && forall i :: 0 <= i < |ks| ==> ks[i] < |rows| && IsProjection(projection, rows[ks[i]], out[i])
  }

  // ---------- inputs ----------

  ghost predicate AreItems(items: seq<Item>, ks: seq<nat>, rows: seq<Row>) {
    |rows| == |ks| && forall i :: 0 <= i < |ks| ==> ks[i] < |items| && items[ks[i]] == RowItem(rows[i])
  }

  /** Draining an input gives the rows it hands over before its first error, in
    * order, and that error. */
  lemma {:induction false} RowsOfExactly(items: seq<Item>) returns (n: nat, ks: seq<nat>)
    ensures n <= |items| && (forall k :: 0 <= k < n ==> !items[k].FaultItem?)
    ensures n < |items| ==> items[n].FaultItem? && RowsOf(items).error == Some(items[n].error)
    ensures n == |items| ==> RowsOf(items).error == None
    ensures Enumerates(ks, set k | 0 <= k < n && items[k].RowItem?) && AreItems(items, ks, RowsOf(items).rows)
  {
    if items == [] || items[0].FaultItem? {
      n, ks := 0, [];
    } else {
      var n', ks' := RowsOfExactly(items[1..]);
      n, ks := n' + 1, (if items[0].RowItem? then [0] else []) + Shifted(ks');
      KeptItemsStep(items, n', ks');
      ItemsStep(items, ks');
      assert forall k :: 0 < k < n ==> items[k] == items[1..][k - 1];
      hide Enumerates, Shifted, AreItems, RowsOf;
    }
  }

  lemma KeptItemsStep(items: seq<Item>, n: nat, ks: seq<nat>)
    requires n < |items| && Enumerates(ks, set k | 0 <= k < n && items[1..][k].RowItem?)
    ensures Enumerates((if items[0].RowItem? then [0] else []) + Shifted(ks),
                       set k | 0 <= k < n + 1 && items[k].RowItem?)
  {
    var kept, kept' := set k | 0 <= k < n && items[1..][k].RowItem?, set k | 0 <= k < n + 1 && items[k].RowItem?;
    forall k: nat ensures k in kept' <==> if k == 0 then items[0].RowItem? else k - 1 in kept {
      assert 0 < k < n + 1 ==> items[k] == items[1..][k - 1];
    }
    ConsEnumerates(ks, kept, items[0].RowItem?, kept');
  }

  lemma ItemsStep(items: seq<Item>, ks: seq<nat>)
    requires items != [] && !items[0].FaultItem? && AreItems(items[1..], ks, RowsOf(items[1..]).rows)
    ensures RowsOf(items).error == RowsOf(items[1..]).error
    ensures AreItems(items, (if items[0].RowItem? then [0] else []) + Shifted(ks), RowsOf(items).rows)
  {
    var rows := RowsOf(items[1..]).rows;
    LaterItems(items, ks, rows);
    if items[0].RowItem? {
      FirstItem(items, Shifted(ks), rows);
    } else {
      assert [] + Shifted(ks) == Shifted(ks);
    }
  }

  lemma LaterItems(items: seq<Item>, ks: seq<nat>, rows: seq<Row>)
    requires items != [] && AreItems(items[1..], ks, rows)
    ensures AreItems(items, Shifted(ks), rows)
  {
    forall i | 0 <= i < |ks| ensures items[Shifted(ks)[i]] == RowItem(rows[i]) {
      assert items[ks[i] + 1] == items[1..][ks[i]];
    }
  }

  lemma FirstItem(items: seq<Item>, ks: seq<nat>, rows: seq<Row>)
    requires items != [] && items[0].RowItem? && AreItems(items, ks, rows)
    ensures AreItems(items, [0] + ks, [items[0].row] + rows)
  {
    forall i | 0 < i < |[0] + ks| ensures items[([0] + ks)[i]] == RowItem(([items[0].row] + rows)[i]) {
      assert ([0] + ks)[i] == ks[i - 1] && ([items[0].row] + rows)[i] == rows[i - 1];
    }
  }

  // ---------- filters ----------

  /** What becomes of a row. */
  datatype Fate = Keep | Leave | Stop(error: Error)

  /** The rows kept and projected, up to the first one that stops the operator. */
  function Sifted(rows: seq<Row>, fates: seq<Fate>, projection: seq<nat>, end: Option<Error>): Outcome
    requires |rows| == |fates|
  {
    if rows == [] then Outcome([], end)
    else match fates[0]
      case Keep => Prepend([Projected(projection, rows[0])], Sifted(rows[1..], fates[1..], projection, end))
      case Leave => Sifted(rows[1..], fates[1..], projection, end)
      case Stop(e) => Outcome([], Some(e))
  }

  /** The first `n` rows were looked at and the `n`th stopped the operator, if there
    * is one; the output is the rows at `ks`, the positions kept, projected. */
  ghost predicate Answers(o: Outcome, rows: seq<Row>, fates: seq<Fate>, projection: seq<nat>, end: Option<Error>,
                          n: nat, ks: seq<nat>)
    requires |rows| == |fates|
  {
    && n <= |rows| && (forall k :: 0 <= k < n ==> !fates[k].Stop?)
    && o.error == (if n == |rows| then end else if fates[n].Stop? then Some(fates[n].error) else None)
    && (n < |rows| ==> fates[n].Stop?)
    && Enumerates(ks, set k | 0 <= k < n && fates[k].Keep?)
    && AreProjections(projection, rows, ks, o.rows)
  }

  lemma {:induction false} SiftedAnswers(rows: seq<Row>, fates: seq<Fate>, projection: seq<nat>, end: Option<Error>)
    returns (n: nat, ks: seq<nat>)
    requires |rows| == |fates|
    ensures Answers(Sifted(rows, fates, projection, end), rows, fates, projection, end, n, ks)
  {
    if rows == [] || fates[0].Stop? {
      n, ks := 0, [];
    } else {
      var n', ks' := SiftedAnswers(rows[1..], fates[1..], projection, end);
      n, ks := n' + 1, (if fates[0].Keep? then [0] else []) + Shifted(ks');
      hide Sifted, AreProjections, Projected;
      KeptStep(fates, n', ks');
      RowsStep(rows, fates, projection, end, ks');
      assert forall k :: 0 < k < n ==> fates[k] == fates[1..][k - 1];
      hide Enumerates, Shifted;
    }
  }

  lemma KeptStep(fates: seq<Fate>, n: nat, ks: seq<nat>)
    requires n < |fates| && Enumerates(ks, set k | 0 <= k < n && fates[1..][k].Keep?)
    ensures Enumerates((if fates[0].Keep? then [0] else []) + Shifted(ks), set k | 0 <= k < n + 1 && fates[k].Keep?)
  {
    var kept, kept' := set k | 0 <= k < n && fates[1..][k].Keep?, set k | 0 <= k < n + 1 && fates[k].Keep?;
    forall k: nat ensures k in kept' <==> if k == 0 then fates[0].Keep? else k - 1 in kept {
      assert 0 < k < n + 1 ==> fates[k] == fates[1..][k - 1];
    }
    ConsEnumerates(ks, kept, fates[0].Keep?, kept');
  }

  lemma RowsStep(rows: seq<Row>, fates: seq<Fate>, projection: seq<nat>, end: Option<Error>, ks: seq<nat>)
    requires |rows| == |fates| > 0 && !fates[0].Stop?
    requires AreProjections(projection, rows[1..], ks, Sifted(rows[1..], fates[1..], projection, end).rows)
    ensures Sifted(rows, fates, projection, end).error == Sifted(rows[1..], fates[1..], projection, end).error
    ensures AreProjections(projection, rows, (if fates[0].Keep? then [0] else []) + Shifted(ks),
                           Sifted(rows, fates, projection, end).rows)
  {
    var out := Sifted(rows[1..], fates[1..], projection, end).rows;
    ShiftedProjections(projection, rows, ks, out);
    if fates[0].Keep? {
      ProjectedIs(projection, rows[0]);
      FirstProjection(projection, rows, Shifted(ks), out, Projected(projection, rows[0]));
    } else {
      assert [] + Shifted(ks) == Shifted(ks);
    }
  }

  lemma ShiftedProjections(projection: seq<nat>, rows: seq<Row>, ks: seq<nat>, out: seq<Row>)
    requires rows != [] && AreProjections(projection, rows[1..], ks, out)
    ensures AreProjections(projection, rows, Shifted(ks), out)
  {
    hide IsProjection;
    forall i | 0 <= i < |ks| ensures IsProjection(projection, rows[Shifted(ks)[i]], out[i]) {
      assert rows[ks[i] + 1] == rows[1..][ks[i]];
    }
  }

  lemma FirstProjection(projection: seq<nat>, rows: seq<Row>, ks: seq<nat>, out: seq<Row>, first: Row)
    requires rows != [] && AreProjections(projection, rows, ks, out) && IsProjection(projection, rows[0], first)
    ensures AreProjections(projection, rows, [0] + ks, [first] + out)
  {
    hide IsProjection;
    forall i | 0 <= i < |[0] + ks| ensures IsProjection(projection, rows[([0] + ks)[i]], ([first] + out)[i]) {
      if i > 0 {
        assert ([0] + ks)[i] == ks[i - 1] && ([first] + out)[i] == out[i - 1];
      }
    }
  }
}
