/**
 * A sample table of (event, count) rows, cleaned of substitutions and
 * collapsed so that every event occurs once, with the summed count, in
 * order of decreasing count.
 */
module Aggregation {
  import opened Substitutions

  /** One row of a read-count table: a barcode and its read support. */
  datatype Row = Row(event: string, count: nat)

  /** Sum of the counts of all rows. */
  function Total(rows: seq<Row>): nat
  {
    if rows == [] then 0 else rows[0].count + Total(rows[1..])
  }

  /** Sum of the counts of the rows whose event is `e`. */
  function SumFor(rows: seq<Row>, e: string): nat
  {
    if rows == [] then 0
    else (if rows[0].event == e then rows[0].count else 0) + SumFor(rows[1..], e)
  }

  /** The rows whose event is not `e`, in order (`df[df['event'] != e]`). */
  function RowsWithout(rows: seq<Row>, e: string): (r: seq<Row>)
    ensures forall i :: 0 <= i < |r| ==> r[i].event != e
  {
    if rows == [] then []
    else if rows[0].event == e then RowsWithout(rows[1..], e)
    else [rows[0]] + RowsWithout(rows[1..], e)
  }

  /** The events that occur in the table. */
  function Events(rows: seq<Row>): set<string>
  {
    set i | 0 <= i < |rows| :: rows[i].event
  }

  predicate DistinctEvents(rows: seq<Row>)
  {
    forall i, j :: 0 <= i < j < |rows| ==> rows[i].event != rows[j].event
  }

  predicate SortedByCount(rows: seq<Row>)
  {
    forall i, j :: 0 <= i < j < |rows| ==> rows[i].count >= rows[j].count
  }

  /** Every event of the table mapped to its summed count. */
  function Grouped(rows: seq<Row>): (m: map<string, nat>)
  {
    map e | e in Events(rows) :: SumFor(rows, e)
  }

  /** A row after the clean-up loop: rewritten when it holds a substitution. */
  function CleanRow(r: Row): Row
  {
    if MismatchExists(r.event) then Row(CleanBarcode(r.event), r.count) else r
  }

  function CleanRows(table: seq<Row>): (r: seq<Row>)
    ensures |r| == |table|
  {
    seq(|table|, i requires 0 <= i < |table| => CleanRow(table[i]))
  }

  /** Rewriting only the rows with a substitution is the same as cleaning
      every row, and keeps the count. */
  lemma CleanRowIsClean(r: Row)
    ensures CleanRow(r).event == CleanBarcode(r.event)
    ensures CleanRow(r).count == r.count
    ensures !MismatchExists(CleanRow(r).event)
  {
    CleanBarcodeHasNoMismatch(r.event);
    if !MismatchExists(r.event) {
      CleanBarcodeUnchanged(r.event);
    }
  }

  lemma {:induction false} TotalCleanRows(table: seq<Row>)
    ensures Total(CleanRows(table)) == Total(table)
    decreases |table|
  {
    if table != [] {
      TotalCleanRows(table[1..]);
      assert CleanRows(table)[1..] == CleanRows(table[1..]);
      CleanRowIsClean(table[0]);
    }
  }

  lemma {:induction false} SumForSnoc(rows: seq<Row>, r: Row, e: string)
    ensures SumFor(rows + [r], e) == SumFor(rows, e) + (if r.event == e then r.count else 0)
    decreases |rows|
  {
    if rows != [] {
      assert (rows + [r])[1..] == rows[1..] + [r];
      SumForSnoc(rows[1..], r, e);
    } else {
      assert [r][1..] == [];
    }
  }

  /** The events of a non-empty table: its first row's and the rest's. */
  lemma EventsCons(rows: seq<Row>)
    requires rows != []
    ensures Events(rows) == {rows[0].event} + Events(rows[1..])
  {
    forall x | x in Events(rows) ensures x in {rows[0].event} + Events(rows[1..]) {
      var i :| 0 <= i < |rows| && rows[i].event == x;
      if i > 0 { assert rows[1..][i - 1] == rows[i]; }
    }
    forall x | x in Events(rows[1..]) ensures x in Events(rows) {
      var i :| 0 <= i < |rows[1..]| && rows[1..][i].event == x;
      assert rows[i + 1] == rows[1..][i];
    }
  }

  /** In a table of distinct events the first event does not recur, and
      the rest is again distinct. */
  lemma DistinctTail(rows: seq<Row>)
    requires rows != [] && DistinctEvents(rows)
    ensures rows[0].event !in Events(rows[1..])
    ensures DistinctEvents(rows[1..])
  {
    forall x | x in Events(rows[1..]) ensures x != rows[0].event {
      var i :| 0 <= i < |rows[1..]| && rows[1..][i].event == x;
      assert rows[i + 1] == rows[1..][i];
    }
    forall i, j | 0 <= i < j < |rows[1..]| ensures rows[1..][i].event != rows[1..][j].event {
      assert rows[1..][i] == rows[i + 1] && rows[1..][j] == rows[j + 1];
    }
  }

  lemma {:induction false} SumForAbsent(rows: seq<Row>, e: string)
    requires e !in Events(rows)
    ensures SumFor(rows, e) == 0
    decreases |rows|
  {
    if rows != [] {
      EventsCons(rows);
      SumForAbsent(rows[1..], e);
    }
  }

  lemma EventsEmpty(rows: seq<Row>)
    ensures Events(rows) == {} <==> rows == []
  {
    if rows != [] {
      assert rows[0].event in Events(rows);
    }
  }

  lemma EventsSnoc(rows: seq<Row>, r: Row)
    ensures Events(rows + [r]) == Events(rows) + {r.event}
  {
    var s := rows + [r];
    forall e | e in Events(s) ensures e in Events(rows) + {r.event} {
      var i :| 0 <= i < |s| && s[i].event == e;
      if i < |rows| { assert rows[i] == s[i]; }
    }
    forall e | e in Events(rows) ensures e in Events(s) {
      var i :| 0 <= i < |rows| && rows[i].event == e;
      assert s[i] == rows[i];
    }
    assert s[|rows|] == r;
  }

  /** Adding a row to a table adds its count to its event's group. */
  lemma GroupedSnoc(rows: seq<Row>, r: Row)
    ensures Grouped(rows + [r]) ==
              Grouped(rows)[r.event := (if r.event in Grouped(rows) then Grouped(rows)[r.event] else 0) + r.count]
  {
    var s := rows + [r];
    var g, g2 := Grouped(rows), Grouped(s);
    var m := g[r.event := (if r.event in g then g[r.event] else 0) + r.count];
    EventsSnoc(rows, r);
    assert g2.Keys == m.Keys;
    forall e | e in m ensures g2[e] == m[e] {
      SumForSnoc(rows, r, e);
      if e == r.event && r.event !in Events(rows) {
        SumForAbsent(rows, r.event);
      }
    }
  }

  /** A table's total is the count of one event plus the total of the rest. */
  lemma {:induction false} TotalSplit(rows: seq<Row>, e: string)
    ensures Total(rows) == SumFor(rows, e) + Total(RowsWithout(rows, e))
    decreases |rows|
  {
    if rows != [] {
      TotalSplit(rows[1..], e);
    }
  }

  /** Dropping the rows of one event leaves the other events' sums alone. */
  lemma {:induction false} SumForWithout(rows: seq<Row>, e: string, other: string)
    requires other != e
    ensures SumFor(RowsWithout(rows, e), other) == SumFor(rows, other)
    decreases |rows|
  {
    if rows != [] {
      SumForWithout(rows[1..], e, other);
    }
  }

  lemma {:induction false} EventsWithout(rows: seq<Row>, e: string)
    ensures Events(RowsWithout(rows, e)) == Events(rows) - {e}
    decreases |rows|
  {
    if rows != [] {
      EventsWithout(rows[1..], e);
      EventsCons(rows);
      if rows[0].event != e {
        var w := RowsWithout(rows, e);
        assert w == [rows[0]] + RowsWithout(rows[1..], e);
        EventsCons(w);
        assert w[1..] == RowsWithout(rows[1..], e);
      }
    }
  }

  /** Any table with one row per event of `rows`, each carrying that event's
      summed count, has the same total as `rows`: grouping conserves reads. */
  lemma {:induction false} GroupingConservesTotal(grouped: seq<Row>, rows: seq<Row>)
    requires DistinctEvents(grouped)
    requires Events(grouped) == Events(rows)
    requires forall i :: 0 <= i < |grouped| ==> grouped[i].count == SumFor(rows, grouped[i].event)
    ensures Total(grouped) == Total(rows)
    decreases |grouped|
  {
    if grouped == [] {
      EventsEmpty(rows);
    } else {
      var e := grouped[0].event;
      var rest := RowsWithout(rows, e);
      TotalSplit(rows, e);
      EventsWithout(rows, e);
      assert Events(grouped[1..]) == Events(grouped) - {e} by {
        forall x | x in Events(grouped) && x != e ensures x in Events(grouped[1..]) {
          var i :| 0 <= i < |grouped| && grouped[i].event == x;
          assert grouped[1..][i - 1] == grouped[i];
        }
        forall x | x in Events(grouped[1..]) ensures x in Events(grouped) - {e} {
          var i :| 0 <= i < |grouped[1..]| && grouped[1..][i].event == x;
          assert grouped[i + 1] == grouped[1..][i];
        }
      }
      forall i | 0 <= i < |grouped[1..]| ensures grouped[1..][i].count == SumFor(rest, grouped[1..][i].event) {
        assert grouped[1..][i] == grouped[i + 1];
        SumForWithout(rows, e, grouped[i + 1].event);
      }
      GroupingConservesTotal(grouped[1..], rest);
    }
  }

  /** One of the given events with the largest count. */
  method MaxKey(m: map<string, nat>, keys: set<string>) returns (best: string)
    requires keys != {} && keys <= m.Keys
    ensures best in keys
    ensures forall k :: k in keys ==> m[k] <= m[best]
  {
    var todo := keys;
    best :| best in todo;
    while todo != {}
      invariant todo <= keys && best in keys
      invariant forall k :: k in keys && k !in todo ==> m[k] <= m[best]
      decreases todo
    {
      var k :| k in todo;
      if m[k] > m[best] {
        best := k;
      }
      todo := todo - {k};
    }
  }

  /** `groupby('event').agg('sum')`: every event with its summed count. */
  method GroupBySum(rows: seq<Row>) returns (groups: map<string, nat>)
    ensures groups == Grouped(rows)
  {
    groups := map[];
    for i := 0 to |rows|
      invariant groups == Grouped(rows[..i])
    {
      var r := rows[i];
      assert rows[..i + 1] == rows[..i] + [r];
      GroupedSnoc(rows[..i], r);
      groups := groups[r.event := (if r.event in groups then groups[r.event] else 0) + r.count];
    }
    assert rows[..|rows|] == rows;
  }

  /** `sort_values(by=['count'], ascending=False)` on the grouped table:
      one row per group, largest count first, ties in no particular order. */
  method SortByCountDescending(groups: map<string, nat>) returns (result: seq<Row>)
    ensures DistinctEvents(result)
    ensures Events(result) == groups.Keys
    ensures forall i :: 0 <= i < |result| ==> result[i].event in groups && result[i].count == groups[result[i].event]
    ensures SortedByCount(result)
  {
    var remaining := groups.Keys;
    result := [];
    while remaining != {}
      invariant remaining == groups.Keys - Events(result)
      invariant Events(result) <= groups.Keys
      invariant DistinctEvents(result)
      invariant forall i :: 0 <= i < |result| ==> result[i].event in groups && result[i].count == groups[result[i].event]
      invariant SortedByCount(result)
      invariant forall i, e :: 0 <= i < |result| && e in remaining ==> result[i].count >= groups[e]
      decreases remaining
    {
      var best := MaxKey(groups, remaining);
      var next := Row(best, groups[best]);
      EventsSnoc(result, next);
      result := result + [next];
      remaining := remaining - {best};
    }
    forall e | e in groups ensures e in Events(result) {
      assert e !in remaining;
    }
  }

  /** Modelled on `CleanSubstitutions`: rewrite the substitution rows of a
      copy of the table, group by event summing the counts, and order the
      groups by decreasing count. */
  method CleanSubstitutions(dataframe: seq<Row>) returns (result: seq<Row>)
    ensures DistinctEvents(result)
    ensures Events(result) == Events(CleanRows(dataframe))
    ensures forall i :: 0 <= i < |result| ==> result[i].count == SumFor(CleanRows(dataframe), result[i].event)
    ensures SortedByCount(result)
    ensures Total(result) == Total(dataframe)
    ensures forall i :: 0 <= i < |result| ==> !MismatchExists(result[i].event)
  {
    var cleaned := CleanedCopy(dataframe);
    var groups := GroupBySum(cleaned);
    result := SortByCountDescending(groups);
    CleanEventsHaveNoMismatch(dataframe);
    GroupingConservesTotal(result, cleaned);
    TotalCleanRows(dataframe);
  }

  /** `dfcopy = dataframe.copy()`, then every row whose event has a
      substitution gets the cleaned event. */
  method CleanedCopy(dataframe: seq<Row>) returns (cleaned: seq<Row>)
    ensures cleaned == CleanRows(dataframe)
  {
    var dfcopy := new Row[|dataframe|](i requires 0 <= i < |dataframe| => dataframe[i]);
    ghost var target := CleanRows(dataframe);
    for i := 0 to dfcopy.Length
      invariant dfcopy[..i] == target[..i]
      invariant dfcopy[i..] == dataframe[i..]
    {
      var row := dfcopy[i];
      assert row == dataframe[i] by {
        assert dfcopy[i..][0] == dataframe[i..][0];
      }
      if MismatchExists(row.event) {
        var newEvent := RemoveSubstitutions(row.event);
        dfcopy[i] := Row(newEvent, row.count);
      }
      assert dfcopy[i] == target[i];
      assert dfcopy[..i + 1] == target[..i + 1];
    }
    assert dfcopy[..] == dfcopy[..dfcopy.Length];
    assert target == target[..|target|];
    cleaned := dfcopy[..];
  }

  /** No event of a cleaned table carries a substitution. */
  lemma CleanEventsHaveNoMismatch(table: seq<Row>)
    ensures forall e :: e in Events(CleanRows(table)) ==> !MismatchExists(e)
  {
    var cleaned := CleanRows(table);
    forall e | e in Events(cleaned) ensures !MismatchExists(e) {
      var k :| 0 <= k < |cleaned| && cleaned[k].event == e;
      CleanRowIsClean(table[k]);
    }
  }

  /** Collapsing two rows of the unedited barcode gives one row of five reads. */
  lemma CollapseExample()
    ensures Grouped([Row("NONE_NONE", 3), Row("NONE_NONE", 2)]) == map["NONE_NONE" := 5]
  {
    var rows := [Row("NONE_NONE", 3), Row("NONE_NONE", 2)];
    assert Events(rows) == {"NONE_NONE"} by {
      assert rows[0].event == "NONE_NONE";
    }
    assert SumFor(rows, "NONE_NONE") == 5 by {
      assert rows[1..][1..] == [];
    }
  }
}
