/**
 * The pairwise comparison of two cleaned samples: drop the unedited
 * barcode, turn counts into proportions, lay both samples out as vectors
 * over the union of their events, and take dot products; then the
 * sample-by-sample matrix, filled on and above the diagonal and mirrored.
 */
module Cosim {
  import opened Wrappers
  import opened Text
  import opened Substitutions
  import opened Aggregation
  import opened EditCounts

  /** `n` unedited sites joined by `_`. */
  function NoneRun(n: nat): string
    requires n >= 1
  {
    if n == 1 then NoEdit else NoEdit + "_" + NoneRun(n - 1)
  }

  /** A run of `n` unedited sites splits into `n` copies of `NONE`. */
  lemma {:induction false} NoneRunSites(n: nat)
    requires n >= 1
    ensures |Split(NoneRun(n), '_')| == n
    ensures forall i :: 0 <= i < n ==> Split(NoneRun(n), '_')[i] == NoEdit
  {
    assert '_' !in NoEdit;
    SplitWithoutSep(NoEdit, '_');
    if n > 1 {
      NoneRunSites(n - 1);
      SplitAround(NoEdit, '_', NoneRun(n - 1));
    }
  }

  /** The unedited barcode of the fifteen-site assay: fifteen `NONE`s
      joined by `_`. */
  const UneditedBar: string := NoneRun(15)

  /** The unedited barcode has fifteen sites, all `NONE`, so it carries
      no edit of any kind. */
  lemma UneditedBarSites()
    ensures |Split(UneditedBar, '_')| == 15
    ensures forall i :: 0 <= i < 15 ==> Split(UneditedBar, '_')[i] == NoEdit
    ensures DistinctEdits(UneditedBar) == {} && AlleleSum(DistinctEdits(UneditedBar)) == 0
    ensures IndelEdits(UneditedBar) == {} && MultisiteEdits(UneditedBar) == {}
  {
    NoneRunSites(15);
    UneditedCountsZero(UneditedBar);
  }

  predicate Distinct(u: seq<string>)
  {
    forall i, j :: 0 <= i < j < |u| ==> u[i] != u[j]
  }

  // ---------------------------------------------------------------------
  // Removing the unedited barcode

  lemma {:induction false} WithoutAbsentEvent(rows: seq<Row>, e: string)
    requires e !in Events(rows)
    ensures RowsWithout(rows, e) == rows
    decreases |rows|
  {
    if rows != [] {
      EventsCons(rows);
      WithoutAbsentEvent(rows[1..], e);
      assert [rows[0]] + rows[1..] == rows;
    }
  }

  lemma {:induction false} WithoutKeepsDistinct(rows: seq<Row>, e: string)
    requires DistinctEvents(rows)
    ensures DistinctEvents(RowsWithout(rows, e))
    decreases |rows|
  {
    if rows != [] {
      WithoutKeepsDistinct(rows[1..], e);
      if rows[0].event != e {
        var t := RowsWithout(rows[1..], e);
        EventsWithout(rows[1..], e);
        DistinctTail(rows);
        forall i | 0 <= i < |t| ensures t[i].event != rows[0].event {
          assert t[i].event in Events(t);
        }
        var w := [rows[0]] + t;
        forall i, j | 0 <= i < j < |w| ensures w[i].event != w[j].event {
          if i > 0 { assert w[i] == t[i - 1]; }
          assert w[j] == t[j - 1];
        }
      }
    }
  }

  /** `if unedited_bar in eventset: table = table[table['event'] != unedited_bar];
      eventset.remove(unedited_bar)`. */
  method RemoveUnedited(table: seq<Row>, eventset: set<string>) returns (kept: seq<Row>, keptEvents: set<string>)
    requires eventset == Events(table)
    requires DistinctEvents(table)
    ensures kept == RowsWithout(table, UneditedBar)
    ensures keptEvents == Events(kept) == Events(table) - {UneditedBar}
    ensures UneditedBar !in keptEvents
    ensures DistinctEvents(kept)
  {
    kept, keptEvents := table, eventset;
    if UneditedBar in eventset {
      kept := RowsWithout(table, UneditedBar);
      keptEvents := keptEvents - {UneditedBar};
    } else {
      WithoutAbsentEvent(table, UneditedBar);
    }
    EventsWithout(table, UneditedBar);
    WithoutKeepsDistinct(table, UneditedBar);
  }

  // ---------------------------------------------------------------------
  // Proportions

  lemma {:induction false} SumForAtMostTotal(rows: seq<Row>, e: string)
    ensures SumFor(rows, e) <= Total(rows)
    decreases |rows|
  {
    if rows != [] {
      SumForAtMostTotal(rows[1..], e);
    }
  }

  /** In a table of distinct events, an event's sum is its row's count. */
  lemma {:induction false} SumForDistinct(rows: seq<Row>, k: nat)
    requires DistinctEvents(rows) && k < |rows|
    ensures SumFor(rows, rows[k].event) == rows[k].count
    decreases |rows|
  {
    var e := rows[k].event;
    DistinctTail(rows);
    if k == 0 {
      SumForAbsent(rows[1..], e);
    } else {
      assert rows[1..][k - 1] == rows[k];
      SumForDistinct(rows[1..], k - 1);
    }
  }

  /** Each event's share of the reads: `count / total`. */
  function Shares(rows: seq<Row>): (m: map<string, real>)
    requires Total(rows) > 0
    ensures m.Keys == Events(rows)
  {
    map e | e in Events(rows) :: SumFor(rows, e) as real / Total(rows) as real
  }

  lemma SharesOfRows(rows: seq<Row>)
    requires Total(rows) > 0 && DistinctEvents(rows)
    ensures forall i :: 0 <= i < |rows| ==> Shares(rows)[rows[i].event] == rows[i].count as real / Total(rows) as real
  {
    forall i | 0 <= i < |rows| ensures Shares(rows)[rows[i].event] == rows[i].count as real / Total(rows) as real {
      SumForDistinct(rows, i);
    }
  }

  lemma SharesInUnitInterval(rows: seq<Row>)
    requires Total(rows) > 0
    ensures forall e :: e in Shares(rows) ==> 0.0 <= Shares(rows)[e] <= 1.0
  {
    forall e | e in Shares(rows) ensures 0.0 <= Shares(rows)[e] <= 1.0 {
      SumForAtMostTotal(rows, e);
      ShareBounds(SumFor(rows, e), Total(rows));
    }
  }

  lemma ShareBounds(a: nat, t: nat)
    requires a <= t && t > 0
    ensures 0.0 <= a as real / t as real <= 1.0
  {
    var q, tr := a as real / t as real, t as real;
    assert q * tr == a as real;
    assert (1.0 - q) * tr == tr - a as real;
  }

  /** The `new_proportion` dictionary of a sample; no value when the table
      has rows but no reads, where the division is 0/0. A repeated event
      would get the sum of its rows' shares here, where a Python `dict`
      built from the columns keeps the last row's share; the two agree on
      tables with distinct events, which are the only ones the comparison
      passes in (its `requires`), and the per-row ensures is stated for
      those. */
  function Proportions(rows: seq<Row>): (p: Option<map<string, real>>)
    ensures p.None? <==> rows != [] && Total(rows) == 0
    ensures p.Some? ==> p.value.Keys == Events(rows)
    ensures p.Some? && DistinctEvents(rows) ==> forall i :: 0 <= i < |rows| ==>
              p.value[rows[i].event] == rows[i].count as real / Total(rows) as real
    ensures p.Some? ==> forall e :: e in p.value ==> 0.0 <= p.value[e] <= 1.0
  {
    if Total(rows) > 0 then
      SharesInUnitInterval(rows);
      if DistinctEvents(rows) then SharesOfRows(rows); Some(Shares(rows)) else Some(Shares(rows))
    else if rows == [] then
      Some(map[])
    else
      None
  }

  /** The proportions column summed over the table's rows. */
  function ColumnSum(rows: seq<Row>, p: map<string, real>): real
    requires Events(rows) <= p.Keys
  {
    if rows == [] then 0.0
    else
      EventsCons(rows);
      p[rows[0].event] + ColumnSum(rows[1..], p)
  }

  lemma AddShares(a: nat, b: nat, t: nat)
    requires t > 0
    ensures a as real / t as real + b as real / t as real == (a + b) as real / t as real
  {
  }

  lemma WholeShare(t: nat)
    requires t > 0
    ensures t as real / t as real == 1.0
  {
  }

  lemma {:induction false} ColumnSumIsShare(rows: seq<Row>, p: map<string, real>, total: nat)
    requires total > 0
    requires Events(rows) <= p.Keys
    requires forall i :: 0 <= i < |rows| ==> p[rows[i].event] == rows[i].count as real / total as real
    ensures ColumnSum(rows, p) == Total(rows) as real / total as real
    decreases |rows|
  {
    if rows != [] {
      var tail := rows[1..];
      forall i | 0 <= i < |tail| ensures p[tail[i].event] == tail[i].count as real / total as real {
        assert tail[i] == rows[i + 1];
      }
      EventsCons(rows);
      ColumnSumIsShare(tail, p, total);
      assert ColumnSum(rows, p) == p[rows[0].event] + ColumnSum(tail, p);
      AddShares(rows[0].count, Total(tail), total);
    }
  }

  /** With reads left, the proportions of a sample add up to one. */
  lemma ProportionsSumToOne(rows: seq<Row>)
    requires DistinctEvents(rows) && Total(rows) > 0
    ensures ColumnSum(rows, Proportions(rows).value) == 1.0
  {
    var t := Total(rows);
    ColumnSumIsShare(rows, Proportions(rows).value, t);
    WholeShare(t);
  }

  // ---------------------------------------------------------------------
  // Vectors over the union of events

  /** `uniqBarcodes.index(x)`: the first position of `x`. */
  method IndexOf(u: seq<string>, x: string) returns (k: nat)
    requires x in u
    ensures k < |u| && u[k] == x
    ensures forall j :: 0 <= j < k ==> u[j] != x
  {
    k := 0;
    while u[k] != x
      invariant k < |u| && x in u[k..]
      invariant forall j :: 0 <= j < k ==> u[j] != x
      decreases |u| - k
    {
      assert u[k..] == [u[k]] + u[k + 1..];
      k := k + 1;
    }
  }

  /** `list(eventsetA.union(eventsetB))`: the union in some order. */
  method UnionList(eventsA: set<string>, eventsB: set<string>) returns (u: seq<string>)
    ensures Distinct(u)
    ensures forall e :: e in u <==> e in eventsA || e in eventsB
    ensures |u| == |eventsA + eventsB|
  {
    var union := eventsA + eventsB;
    var todo := union;
    u := [];
    while todo != {}
      invariant todo <= union
      invariant Distinct(u)
      invariant forall e :: e in u <==> e in union && e !in todo
      invariant |u| + |todo| == |union|
      decreases todo
    {
      var e :| e in todo;
      u := u + [e];
      todo := todo - {e};
    }
  }

  /** Each event's coordinate is its proportion; absent events are 0. */
  function Vector(u: seq<string>, p: map<string, real>): (v: seq<real>)
    ensures |v| == |u|
  {
    seq(|u|, k requires 0 <= k < |u| => if u[k] in p then p[u[k]] else 0.0)
  }

  /** A zero vector over `u`, then for each event of the sample the
      coordinate at its position in `u` set to its proportion. */
  method FillVector(u: seq<string>, eventset: set<string>, dict: map<string, real>) returns (v: seq<real>)
    requires Distinct(u)
    requires eventset <= dict.Keys
    requires forall e :: e in eventset ==> e in u
    ensures |v| == |u|
    ensures forall k :: 0 <= k < |u| ==> v[k] == if u[k] in eventset then dict[u[k]] else 0.0
  {
    var vec := new real[|u|](_ => 0.0);
    var todo := eventset;
    while todo != {}
      invariant todo <= eventset
      invariant forall k :: 0 <= k < |u| ==>
                  vec[k] == if u[k] in eventset && u[k] !in todo then dict[u[k]] else 0.0
      decreases todo
    {
      var bb :| bb in todo;
      var k := IndexOf(u, bb);
      vec[k] := dict[bb];
      todo := todo - {bb};
    }
    v := vec[..];
  }

  /** A filled vector whose sample has exactly the dictionary's events is
      the sample's vector. */
  lemma FilledIsVector(u: seq<string>, dict: map<string, real>, v: seq<real>)
    requires |v| == |u|
    requires forall k :: 0 <= k < |u| ==> v[k] == if u[k] in dict.Keys then dict[u[k]] else 0.0
    ensures v == Vector(u, dict)
  {
  }

  /** `np.dot` on two vectors of one length. */
  function Dot(x: seq<real>, y: seq<real>): real
    requires |x| == |y|
  {
    if x == [] then 0.0 else x[0] * y[0] + Dot(x[1..], y[1..])
  }

  /** Vectors of proportions, which are never negative, have a
      non-negative dot product. */
  lemma {:induction false} DotNonNegative(x: seq<real>, y: seq<real>)
    requires |x| == |y|
    requires forall i :: 0 <= i < |x| ==> x[i] >= 0.0 && y[i] >= 0.0
    ensures Dot(x, y) >= 0.0
    decreases |x|
  {
    if x != [] {
      DotNonNegative(x[1..], y[1..]);
      assert x[0] * y[0] >= 0.0;
    }
  }

  /** What event `x` adds to the dot product: the product of its two
      proportions when both samples have it, otherwise nothing. */
  function Product(x: string, pA: map<string, real>, pB: map<string, real>): real
  {
    if x in pA && x in pB then pA[x] * pB[x] else 0.0
  }

  /** Sum, over the events of `u` present in both samples, of the product
      of their two proportions. */
  function Overlap(u: seq<string>, pA: map<string, real>, pB: map<string, real>): real
  {
    if u == [] then 0.0 else Product(u[0], pA, pB) + Overlap(u[1..], pA, pB)
  }

  /** The same sum over a set of events, in no particular order. */
  ghost function SharedSum(events: set<string>, pA: map<string, real>, pB: map<string, real>): real
  {
    if events == {} then 0.0
    else
      var x :| x in events;
      Product(x, pA, pB) + SharedSum(events - {x}, pA, pB)
  }

  /** The set sum can start from any of its events. */
  lemma SharedSumRemove(events: set<string>, y: string, pA: map<string, real>, pB: map<string, real>)
    requires y in events
    ensures SharedSum(events, pA, pB) == Product(y, pA, pB) + SharedSum(events - {y}, pA, pB)
  {
    var x :| x in events && SharedSum(events, pA, pB) == Product(x, pA, pB) + SharedSum(events - {x}, pA, pB);
    if x != y {
      SharedSumRemove(events - {x}, y, pA, pB);
      SharedSumRemove(events - {y}, x, pA, pB);
      assert events - {x} - {y} == events - {y} - {x};
    }
  }

  /** Along an index without repeats, the sum is the set sum over its
      events, so the order of the index does not matter. */
  lemma {:induction false} OverlapIsSharedSum(u: seq<string>, pA: map<string, real>, pB: map<string, real>)
    requires Distinct(u)
    ensures Overlap(u, pA, pB) == SharedSum((set x | x in u), pA, pB)
    decreases |u|
  {
    if u != [] {
      var rest := u[1..];
      assert Distinct(rest) by {
        forall i, j | 0 <= i < j < |rest| ensures rest[i] != rest[j] {
          assert rest[i] == u[i + 1] && rest[j] == u[j + 1];
        }
      }
      OverlapIsSharedSum(rest, pA, pB);
      assert (set x | x in u) - {u[0]} == set x | x in rest by {
        forall x | x in rest ensures x != u[0] {
          var i :| 0 <= i < |rest| && rest[i] == x;
          assert u[i + 1] == x;
        }
        forall x | x in u && x != u[0] ensures x in rest {
          var i :| 0 <= i < |u| && u[i] == x;
          assert rest[i - 1] == x;
        }
      }
      SharedSumRemove((set x | x in u), u[0], pA, pB);
    }
  }

  /** The same for any index that lists exactly the events of `events`. */
  lemma IndexSharedSum(u: seq<string>, events: set<string>, pA: map<string, real>, pB: map<string, real>)
    requires Distinct(u)
    requires forall e :: e in u <==> e in events
    ensures Overlap(u, pA, pB) == SharedSum(events, pA, pB)
  {
    OverlapIsSharedSum(u, pA, pB);
    assert (set x | x in u) == events;
  }

  /** The set sum is symmetric in the two samples. */
  lemma SharedSumSwap(events: set<string>, pA: map<string, real>, pB: map<string, real>)
    ensures SharedSum(events, pA, pB) == SharedSum(events, pB, pA)
  {
    if events != {} {
      var x :| x in events;
      SharedSumRemove(events, x, pA, pB);
      SharedSumRemove(events, x, pB, pA);
      SharedSumSwap(events - {x}, pA, pB);
      assert Product(x, pA, pB) == Product(x, pB, pA);
    }
  }

  /** The dot product of two sample vectors only sees shared events. */
  lemma {:induction false} DotIsOverlap(u: seq<string>, pA: map<string, real>, pB: map<string, real>)
    ensures Dot(Vector(u, pA), Vector(u, pB)) == Overlap(u, pA, pB)
    decreases |u|
  {
    if u != [] {
      DotIsOverlap(u[1..], pA, pB);
      assert Vector(u, pA)[1..] == Vector(u[1..], pA);
      assert Vector(u, pB)[1..] == Vector(u[1..], pB);
    }
  }

  lemma {:induction false} OverlapSwap(u: seq<string>, pA: map<string, real>, pB: map<string, real>)
    ensures Overlap(u, pA, pB) == Overlap(u, pB, pA)
    decreases |u|
  {
    if u != [] {
      OverlapSwap(u[1..], pA, pB);
      assert Product(u[0], pA, pB) == Product(u[0], pB, pA);
    }
  }

  /** Samples without a shared event have dot product 0. */
  lemma {:induction false} DisjointOverlapZero(u: seq<string>, pA: map<string, real>, pB: map<string, real>)
    requires pA.Keys !! pB.Keys
    ensures Overlap(u, pA, pB) == 0.0
    decreases |u|
  {
    if u != [] {
      DisjointOverlapZero(u[1..], pA, pB);
    }
  }

  /** Swapping the two samples leaves the dot product unchanged, even when
      the swapped comparison lists the union of events in another order. */
  lemma SwappedSamplesSameDot(u: seq<string>, u2: seq<string>, pA: map<string, real>, pB: map<string, real>)
    requires Distinct(u) && Distinct(u2)
    requires forall e :: e in u <==> e in u2
    ensures Dot(Vector(u, pA), Vector(u, pB)) == Dot(Vector(u2, pB), Vector(u2, pA))
  {
    DotIsOverlap(u, pA, pB);
    DotIsOverlap(u2, pB, pA);
    IndexSharedSum(u, (set x | x in u), pA, pB);
    IndexSharedSum(u2, (set x | x in u), pB, pA);
    SharedSumSwap((set x | x in u), pA, pB);
  }

  /** The cross dot products that two comparisons of the same pair, taken
      in either order, report through the set sum are equal. */
  lemma SwappedPairSameDot(eventsA: set<string>, eventsB: set<string>, pA: map<string, real>, pB: map<string, real>)
    ensures SharedSum(eventsA + eventsB, pA, pB) == SharedSum(eventsB + eventsA, pB, pA)
  {
    assert eventsA + eventsB == eventsB + eventsA;
    SharedSumSwap(eventsA + eventsB, pA, pB);
  }

  /** What the comparison of one pair yields: the shared index, both
      vectors, their dot product and both squared norms; `Undefined` stands
      for the NaN that a sample with rows but no reads produces. */
  datatype Comparison =
    | Defined(events: seq<string>, vA: seq<real>, vB: seq<real>, dotAB: real, dotAA: real, dotBB: real)
    | Undefined

  /** The vectors and dot products of two samples, given their event sets
      and proportion dictionaries. */
  method VectorsAndDots(eventsetA: set<string>, eventsetB: set<string>, dictA: map<string, real>, dictB: map<string, real>)
    returns (c: Comparison)
    requires eventsetA == dictA.Keys && eventsetB == dictB.Keys
    ensures c.Defined?
    ensures Distinct(c.events)
    ensures forall e :: e in c.events <==> e in eventsetA || e in eventsetB
    ensures |c.vA| == |c.events| && |c.vB| == |c.events|
    ensures c.vA == Vector(c.events, dictA) && c.vB == Vector(c.events, dictB)
    ensures c.dotAB == Dot(c.vA, c.vB) && c.dotAA == Dot(c.vA, c.vA) && c.dotBB == Dot(c.vB, c.vB)
    ensures c.dotAB == Overlap(c.events, dictA, dictB) && c.dotAB == Dot(c.vB, c.vA)
    ensures c.dotAB == SharedSum(eventsetA + eventsetB, dictA, dictB)
  {
    var uniqBarcodes := UnionList(eventsetA, eventsetB);
    var vA := FillVector(uniqBarcodes, eventsetA, dictA);
    var vB := FillVector(uniqBarcodes, eventsetB, dictB);
    FilledIsVector(uniqBarcodes, dictA, vA);
    FilledIsVector(uniqBarcodes, dictB, vB);
    c := Defined(uniqBarcodes, vA, vB, Dot(vA, vB), Dot(vA, vA), Dot(vB, vB));
    DotIsOverlap(uniqBarcodes, dictA, dictB);
    DotIsOverlap(uniqBarcodes, dictB, dictA);
    OverlapSwap(uniqBarcodes, dictA, dictB);
    IndexSharedSum(uniqBarcodes, eventsetA + eventsetB, dictA, dictB);
  }

  /** The body of the double loop for one pair of cleaned tables, up to the
      dot products that the cosine is formed from. */
  method ComparePair(newdf1: seq<Row>, newdf2: seq<Row>) returns (c: Comparison)
    requires DistinctEvents(newdf1) && DistinctEvents(newdf2)
    ensures var a, b := RowsWithout(newdf1, UneditedBar), RowsWithout(newdf2, UneditedBar);
      && (c.Undefined? <==> Proportions(a).None? || Proportions(b).None?)
      && (c.Defined? ==>
            && Distinct(c.events)
            && (forall e :: e in c.events <==> e in Events(a) || e in Events(b))
            && UneditedBar !in c.events
            && |c.vA| == |c.events| && |c.vB| == |c.events|
            && c.vA == Vector(c.events, Proportions(a).value)
            && c.vB == Vector(c.events, Proportions(b).value)
            && c.dotAB == Dot(c.vA, c.vB) && c.dotAA == Dot(c.vA, c.vA) && c.dotBB == Dot(c.vB, c.vB)
            && c.dotAB == Overlap(c.events, Proportions(a).value, Proportions(b).value)
            && c.dotAB == SharedSum(Events(a) + Events(b), Proportions(a).value, Proportions(b).value)
            && c.dotAB == Dot(c.vB, c.vA))
  {
    var rows1, eventsetA := RemoveUnedited(newdf1, Events(newdf1));
    var rows2, eventsetB := RemoveUnedited(newdf2, Events(newdf2));
    var dictA, dictB := Proportions(rows1), Proportions(rows2);
    if dictA.None? || dictB.None? {
      return Undefined;
    }
    c := VectorsAndDots(eventsetA, eventsetB, dictA.value, dictB.value);
  }

  /** One pass of the double loop's body from the raw read-count tables:
      clean both, then compare. */
  method CompareSamples(df1: seq<Row>, df2: seq<Row>) returns (c: Comparison)
    ensures c.Defined? ==>
              && Distinct(c.events)
              && (forall e :: e in c.events <==>
                    e != UneditedBar && (e in Events(CleanRows(df1)) || e in Events(CleanRows(df2))))
              && |c.vA| == |c.events| && |c.vB| == |c.events|
              && c.dotAB == Dot(c.vA, c.vB) && c.dotAB == Dot(c.vB, c.vA)
    ensures Total(df1) > 0 && Total(df2) > 0 ==> c.Defined? || UneditedBar in Events(CleanRows(df1)) + Events(CleanRows(df2))
  {
    var newdf1 := CleanSubstitutions(df1);
    var newdf2 := CleanSubstitutions(df2);
    EventsWithout(newdf1, UneditedBar);
    EventsWithout(newdf2, UneditedBar);
    c := ComparePair(newdf1, newdf2);
    if UneditedBar !in Events(newdf1) + Events(newdf2) {
      WithoutAbsentEvent(newdf1, UneditedBar);
      WithoutAbsentEvent(newdf2, UneditedBar);
    }
  }

  // ---------------------------------------------------------------------
  // The similarity matrix

  type Matrix = seq<seq<real>>

  predicate IsSquare(m: Matrix, n: nat)
  {
    |m| == n && forall i :: 0 <= i < n ==> |m[i]| == n
  }

  predicate IsSymmetric(m: Matrix)
    requires IsSquare(m, |m|)
  {
    forall i, j :: 0 <= i < |m| && 0 <= j < |m| ==> m[i][j] == m[j][i]
  }

  /** `A + A.T - np.diag(A.diagonal())`. */
  function Symmetrize(a: Matrix): (s: Matrix)
    requires IsSquare(a, |a|)
    ensures IsSquare(s, |a|)
    ensures forall i, j :: 0 <= i < |a| && 0 <= j < |a| ==>
              s[i][j] == if i == j then a[i][i] else a[i][j] + a[j][i]
  {
    var n := |a|;
    seq(n, i requires 0 <= i < n =>
      seq(n, j requires 0 <= j < n => a[i][j] + a[j][i] - (if i == j then a[i][i] else 0.0)))
  }

  /** Mirroring a matrix that is zero below the diagonal gives a symmetric
      matrix that agrees with it on and above the diagonal. */
  lemma SymmetrizeUpperTriangular(a: Matrix)
    requires IsSquare(a, |a|)
    requires forall i, j :: 0 <= j < i < |a| ==> a[i][j] == 0.0
    ensures IsSymmetric(Symmetrize(a))
    ensures forall i, j :: 0 <= i <= j < |a| ==> Symmetrize(a)[i][j] == a[i][j]
  {
    var s := Symmetrize(a);
    forall i, j | 0 <= i < |a| && 0 <= j < |a| ensures s[i][j] == s[j][i] {
    }
    forall i, j | 0 <= i <= j < |a| ensures s[i][j] == a[i][j] {
      if i < j {
        assert a[j][i] == 0.0;
      }
    }
  }

  /** The double loop: `cosim_arr` starts as zeros and only cells with
      `jj >= ii` are written, with the value `cell(ii, jj)` computed for the
      pair. */
  method FillUpperTriangle(n: nat, cell: (nat, nat) -> real) returns (grid: Matrix)
    ensures IsSquare(grid, n)
    ensures forall i, j :: 0 <= i < n && 0 <= j < n ==> grid[i][j] == if i <= j then cell(i, j) else 0.0
  {
    var cosimArr := new real[n, n]((i, j) => 0.0);
    for ii := 0 to n
      invariant forall i, j :: 0 <= i < n && 0 <= j < n ==>
                  cosimArr[i, j] == if i < ii && i <= j then cell(i, j) else 0.0
    {
      for jj := ii to n
        invariant forall i, j :: 0 <= i < n && 0 <= j < n ==>
                    cosimArr[i, j] == if (i < ii || (i == ii && j < jj)) && i <= j then cell(i, j) else 0.0
      {
        cosimArr[ii, jj] := cell(ii, jj);
      }
    }
    grid := seq(n, i requires 0 <= i < n reads cosimArr =>
                  seq(n, j requires 0 <= j < n reads cosimArr => cosimArr[i, j]));
  }

  /** The full matrix: filled on and above the diagonal, then mirrored, so
      every cell holds the value of its unordered pair. */
  method CosimMatrix(n: nat, cell: (nat, nat) -> real) returns (m: Matrix)
    ensures IsSquare(m, n)
    ensures IsSymmetric(m)
    ensures forall i, j :: 0 <= i < n && 0 <= j < n ==> m[i][j] == if i <= j then cell(i, j) else cell(j, i)
  {
    var upper := FillUpperTriangle(n, cell);
    SymmetrizeUpperTriangular(upper);
    m := Symmetrize(upper);
  }
}
