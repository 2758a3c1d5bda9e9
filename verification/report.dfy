/** The summary table (partidas_padroes.py, lines 92-171): one row per
    retained window, laid out as five groups of per-position counters
    followed by five row totals, the totals re-derived from the counter
    columns, and the rows ordered by their totals, highest first. */
module Report {
  import opened Wrappers
  import opened Text
  import opened Extraction
  import opened Scanner
  import opened Outcomes

  /** One row of the table: the window key (the "Partidas após" label), the
      counters at each window position, and the five row totals. */
  datatype ReportRow = ReportRow(key: Key, positions: seq<Counts>, totals: Counts)

  /** A retained window with the instances that are classified for it. */
  datatype Entry = Entry(key: Key, instances: seq<seq<Score>>)

  /** The goal-band sums of counters that each split their AM counter split it too. */
  lemma {:induction false} ColumnSumsBands(cs: seq<Counts>)
    requires forall i :: 0 <= i < |cs| ==> BandsSplitAm(cs[i])
    ensures BandsSplitAm(ColumnSums(cs))
  {
    if cs != [] {
      ColumnSumsBands(cs[1..]);
      PlusKeepsBands(cs[0], ColumnSums(cs[1..]));
    }
  }

  /** Lines 92-153: the row of one retained window. Its counters at each
      position count the instances recording each category there. Its totals
      are the sums of its counter lists (lines 148-152); they coincide with
      the per-instance flag totals kept at lines 137-141, so each total counts
      the instances ending with that flag raised: the AM total is the number
      of instances with a match where both teams scored, the AN total the
      number with a match where a side failed to score, and the goal-band
      totals add up to the AM total. */
  function BuildRow(key: Key, n: nat, instances: seq<seq<Score>>): (row: ReportRow)
    requires Fits(n, instances)
    ensures row.key == key && |row.positions| == n
    ensures forall i :: 0 <= i < n ==> row.positions[i] == AtPosition(instances, i)
    ensures row.totals == Flagged(instances)
    ensures row.totals == Aggregate(n, instances).totals
    ensures row.totals.am == CountWithBoth(instances)
    ensures row.totals.an == CountWithBlank(instances)
    ensures BandsSplitAm(row.totals)
  {
    var acc := Aggregate(n, instances);
    AggregateAm(n, instances);
    AggregateAn(n, instances);
    AggregateBands(n, instances);
    ColumnSumsBands(acc.positions);
    ReportRow(key, acc.positions, ColumnSums(acc.positions))
  }

  // ---------------------------------------------------------------------
  // Cell layout and the recomputed totals

  /** Counter `k` of the five, in column order: Over 1.5, Over 2.5, Over 3.5, AM, AN. */
  function Field(c: Counts, k: nat): nat
    requires k < 5
  {
    match k
    case 0 => c.over15
    case 1 => c.over25
    case 2 => c.over35
    case 3 => c.am
    case _ => c.an
  }

  /** Counter `k` at every position. */
  function Column(ps: seq<Counts>, k: nat): (col: seq<nat>)
    requires k < 5
    ensures |col| == |ps|
    ensures forall i :: 0 <= i < |ps| ==> col[i] == Field(ps[i], k)
  {
    if ps == [] then [] else [Field(ps[0], k)] + Column(ps[1..], k)
  }

  /** Python's `sum` of a list of counts. */
  function Sum(xs: seq<nat>): nat {
    if xs == [] then 0 else xs[0] + Sum(xs[1..])
  }

  /** The five row totals as cells, in column order. */
  function TotalCells(t: Counts): seq<nat> {
    [t.over15, t.over25, t.over35, t.am, t.an]
  }

  /** Lines 143-152 and the column list at line 155: the numeric cells of a row
      after its label, five blocks of one cell per position and then the five
      totals. */
  function Cells(row: ReportRow): (cells: seq<nat>)
    ensures |cells| == 5 * |row.positions| + 5
    ensures var n := |row.positions|;
      && cells[..n] == Column(row.positions, 0)
      && cells[n..2 * n] == Column(row.positions, 1)
      && cells[2 * n..3 * n] == Column(row.positions, 2)
      && cells[3 * n..4 * n] == Column(row.positions, 3)
      && cells[4 * n..5 * n] == Column(row.positions, 4)
      && cells[5 * n..] == TotalCells(row.totals)
  {
    var ps := row.positions;
    var c0, c1, c2, c3, c4 := Column(ps, 0), Column(ps, 1), Column(ps, 2), Column(ps, 3), Column(ps, 4);
    Blocks(c0, c1, c2, c3, c4, TotalCells(row.totals), |ps|);
    c0 + c1 + c2 + c3 + c4 + TotalCells(row.totals)
  }

  /** Five blocks of `n` cells and a tail, concatenated, are found again at
      their offsets. */
  lemma Blocks<T>(c0: seq<T>, c1: seq<T>, c2: seq<T>, c3: seq<T>, c4: seq<T>, tail: seq<T>, n: nat)
    requires |c0| == |c1| == |c2| == |c3| == |c4| == n
    ensures var cells := c0 + c1 + c2 + c3 + c4 + tail;
      && |cells| == 5 * n + |tail|
      && cells[..n] == c0 && cells[n..2 * n] == c1 && cells[2 * n..3 * n] == c2
      && cells[3 * n..4 * n] == c3 && cells[4 * n..5 * n] == c4 && cells[5 * n..] == tail
  {
  }

  /** Lines 158-162: each total cell is overwritten with the sum of its block
      of `n` position cells; the position cells are left as they are. */
  function Recompute(cells: seq<nat>, n: nat): (r: seq<nat>)
    requires |cells| == 5 * n + 5
    ensures |r| == |cells|
    ensures r[..5 * n] == cells[..5 * n]
  {
    cells[..5 * n]
      + [Sum(cells[..n]), Sum(cells[n..2 * n]), Sum(cells[2 * n..3 * n]), Sum(cells[3 * n..4 * n]), Sum(cells[4 * n..5 * n])]
  }

  lemma {:induction false} SumColumn(ps: seq<Counts>, k: nat)
    requires k < 5
    ensures Sum(Column(ps, k)) == Field(ColumnSums(ps), k)
  {
    if ps != [] {
      SumColumn(ps[1..], k);
    }
  }

  /** A row whose totals are the sums of its counter columns is left as it
      is when the totals are re-derived from those columns. */
  lemma RecomputeCells(row: ReportRow)
    requires row.totals == ColumnSums(row.positions)
    ensures Recompute(Cells(row), |row.positions|) == Cells(row)
  {
    var ps, n := row.positions, |row.positions|;
    var cells := Cells(row);
    SumColumn(ps, 0);
    SumColumn(ps, 1);
    SumColumn(ps, 2);
    SumColumn(ps, 3);
    SumColumn(ps, 4);
    assert cells == cells[..5 * n] + cells[5 * n..];
  }

  /** Re-deriving the totals from the counter columns (lines 158-162) changes
      nothing in a row built at lines 143-152: the redundant recomputation
      agrees with the appended sums. */
  lemma RecomputeKeepsRow(key: Key, n: nat, instances: seq<seq<Score>>)
    requires Fits(n, instances)
    ensures Recompute(Cells(BuildRow(key, n, instances)), n) == Cells(BuildRow(key, n, instances))
  {
    RecomputeCells(BuildRow(key, n, instances));
  }

  // ---------------------------------------------------------------------
  // Ordering

  /** Line 171: the sort columns in priority order. */
  function SortKey(row: ReportRow): seq<nat> {
    [row.totals.am, row.totals.an, row.totals.over15, row.totals.over25, row.totals.over35]
  }

  /** Lexicographic "at least" on equally long number sequences. */
  predicate LexGe(a: seq<nat>, b: seq<nat>)
    requires |a| == |b|
  {
    |a| == 0 || a[0] > b[0] || (a[0] == b[0] && LexGe(a[1..], b[1..]))
  }

  lemma {:induction false} LexGeReflexive(a: seq<nat>)
    ensures LexGe(a, a)
  {
    if |a| > 0 {
      LexGeReflexive(a[1..]);
    }
  }

  lemma {:induction false} LexGeTotal(a: seq<nat>, b: seq<nat>)
    requires |a| == |b|
    ensures LexGe(a, b) || LexGe(b, a)
  {
    if |a| > 0 && a[0] == b[0] {
      LexGeTotal(a[1..], b[1..]);
    }
  }

  lemma {:induction false} LexGeTransitive(a: seq<nat>, b: seq<nat>, c: seq<nat>)
    requires |a| == |b| == |c|
    requires LexGe(a, b) && LexGe(b, c)
    ensures LexGe(a, c)
  {
    if |a| > 0 && a[0] == b[0] == c[0] {
      LexGeTransitive(a[1..], b[1..], c[1..]);
    }
  }

  lemma {:induction false} LexGeAntisymmetric(a: seq<nat>, b: seq<nat>)
    requires |a| == |b|
    requires LexGe(a, b) && LexGe(b, a)
    ensures a == b
  {
    if |a| > 0 {
      LexGeAntisymmetric(a[1..], b[1..]);
      assert a == [a[0]] + a[1..] && b == [b[0]] + b[1..];
    }
  }

  /** `a` may be placed ahead of `b` in the descending order of line 171. */
  predicate RowGe(a: ReportRow, b: ReportRow) {
    LexGe(SortKey(a), SortKey(b))
  }

  predicate Sorted(rows: seq<ReportRow>) {
    forall i, j :: 0 <= i < j < |rows| ==> RowGe(rows[i], rows[j])
  }

  /** Inserts `x` in front of the first row it is at least as high as, so
      `x` goes ahead of the rows it ties with. */
  function Insert(x: ReportRow, ys: seq<ReportRow>): (r: seq<ReportRow>)
    ensures |r| == |ys| + 1
    ensures multiset(r) == multiset(ys) + multiset{x}
  {
    if ys == [] then [x]
    else if RowGe(x, ys[0]) then [x] + ys
    else
      assert ys == [ys[0]] + ys[1..];
      [ys[0]] + Insert(x, ys[1..])
  }

  /** Line 171: `sort_values(..., ascending=False)` over the five totals; rows
      with equal totals keep their relative order. */
  function SortRows(rows: seq<ReportRow>): (sorted: seq<ReportRow>)
    ensures |sorted| == |rows|
    ensures multiset(sorted) == multiset(rows)
  {
    if rows == [] then []
    else
      assert rows == [rows[0]] + rows[1..];
      Insert(rows[0], SortRows(rows[1..]))
  }

  lemma {:induction false} InsertSorted(x: ReportRow, ys: seq<ReportRow>)
    requires Sorted(ys)
    ensures Sorted(Insert(x, ys))
    decreases |ys|
  {
    if ys == [] {
    } else if RowGe(x, ys[0]) {
      var r := [x] + ys;
      forall j | 1 <= j < |r|
        ensures RowGe(x, r[j])
      {
        if j > 1 {
          LexGeTransitive(SortKey(x), SortKey(ys[0]), SortKey(ys[j - 1]));
        }
      }
    } else {
      LexGeTotal(SortKey(x), SortKey(ys[0]));
      var t := ys[1..];
      InsertSorted(x, t);
      var r' := Insert(x, t);
      forall j | 0 <= j < |r'|
        ensures RowGe(ys[0], r'[j])
      {
        assert r'[j] in multiset(r');
        if r'[j] != x {
          assert r'[j] in multiset(t);
          var m :| 0 <= m < |t| && t[m] == r'[j];
          assert ys[m + 1] == t[m];
        }
      }
      SortedCons(ys[0], r');
    }
  }

  /** A row at least as high as every row of a sorted list can go in front. */
  lemma SortedCons(h: ReportRow, t: seq<ReportRow>)
    requires Sorted(t)
    requires forall j :: 0 <= j < |t| ==> RowGe(h, t[j])
    ensures Sorted([h] + t)
  {
    var r := [h] + t;
    forall i, j | 0 <= i < j < |r|
      ensures RowGe(r[i], r[j])
    {
      if i > 0 {
        assert r[i] == t[i - 1] && r[j] == t[j - 1];
      }
    }
  }

  /** The sorted rows are in descending order of their totals. */
  lemma {:induction false} SortRowsSorted(rows: seq<ReportRow>)
    ensures Sorted(SortRows(rows))
  {
    if rows != [] {
      SortRowsSorted(rows[1..]);
      InsertSorted(rows[0], SortRows(rows[1..]));
    }
  }

  /** The rows whose five totals are `k`, in order. */
  function WithKey(rows: seq<ReportRow>, k: seq<nat>): seq<ReportRow> {
    if rows == [] then []
    else (if SortKey(rows[0]) == k then [rows[0]] else []) + WithKey(rows[1..], k)
  }

  lemma WithKeyCons(y: ReportRow, ys: seq<ReportRow>, k: seq<nat>)
    ensures WithKey([y] + ys, k) == (if SortKey(y) == k then [y] else []) + WithKey(ys, k)
  {
    assert ([y] + ys)[0] == y;
    assert ([y] + ys)[1..] == ys;
  }

  lemma {:induction false} InsertStable(x: ReportRow, ys: seq<ReportRow>, k: seq<nat>)
    ensures WithKey(Insert(x, ys), k) == (if SortKey(x) == k then [x] else []) + WithKey(ys, k)
    decreases |ys|
  {
    if ys == [] {
      WithKeyCons(x, [], k);
    } else if RowGe(x, ys[0]) {
      WithKeyCons(x, ys, k);
    } else {
      var y, t := ys[0], ys[1..];
      LexGeReflexive(SortKey(x));
      assert SortKey(x) != SortKey(y);
      InsertStable(x, t, k);
      WithKeyCons(y, Insert(x, t), k);
      WithKeyCons(y, t, k);
      assert ys == [y] + t;
    }
  }

  /** Sorting is stable: the rows sharing any one set of totals come out in
      the order they went in. */
  lemma {:induction false} SortRowsStable(rows: seq<ReportRow>, k: seq<nat>)
    ensures WithKey(SortRows(rows), k) == WithKey(rows, k)
  {
    if rows != [] {
      SortRowsStable(rows[1..], k);
      InsertStable(rows[0], SortRows(rows[1..]), k);
    }
  }

  /** Rows already in order are left as they are. */
  lemma {:induction false} SortRowsIdempotent(rows: seq<ReportRow>)
    requires Sorted(rows)
    ensures SortRows(rows) == rows
  {
    if rows != [] {
      assert Sorted(rows[1..]) by {
        forall i, j | 0 <= i < j < |rows[1..]|
          ensures RowGe(rows[1..][i], rows[1..][j])
        {
          assert rows[1..][i] == rows[i + 1] && rows[1..][j] == rows[j + 1];
        }
      }
      SortRowsIdempotent(rows[1..]);
      assert rows == [rows[0]] + rows[1..];
    }
  }

  // ---------------------------------------------------------------------
  // The table

  /** A firing at a position past the window increments a counter list out
      of range (`AM_counts[i]` at line 118 or `AN_counts[i]` at line 134
      raising IndexError). */
  datatype ReportError = CounterOutOfRange(key: Key)

  /** The index of the first entry holding an instance that fires past the
      window, or the number of entries when none does. */
  function FirstOutOfBounds(n: nat, entries: seq<Entry>): (i: nat)
    ensures i <= |entries|
    ensures forall j :: 0 <= j < i ==> Fits(n, entries[j].instances)
    ensures i < |entries| ==> !Fits(n, entries[i].instances)
  {
    if entries == [] then 0
    else if !Fits(n, entries[0].instances) then 0
    else 1 + FirstOutOfBounds(n, entries[1..])
  }

  /** Lines 92-153: one row per entry, in the order given; it fails at the
      first entry holding an instance that fires past the window. */
  function BuildRows(n: nat, entries: seq<Entry>): (r: Result<seq<ReportRow>, ReportError>)
    ensures r.Success? <==> forall i :: 0 <= i < |entries| ==> Fits(n, entries[i].instances)
    ensures r.Success? ==> |r.value| == |entries| && forall i :: 0 <= i < |entries| ==>
      r.value[i] == BuildRow(entries[i].key, n, entries[i].instances)
    ensures r.Failure? ==>
      exists i :: 0 <= i < |entries| && r.error.key == entries[i].key && !Fits(n, entries[i].instances) &&
        forall j :: 0 <= j < i ==> Fits(n, entries[j].instances)
  {
    var i := FirstOutOfBounds(n, entries);
    if i < |entries| then
      Failure(CounterOutOfRange(entries[i].key))
    else
      Success(seq(|entries|, j requires 0 <= j < |entries| && Fits(n, entries[j].instances) =>
        BuildRow(entries[j].key, n, entries[j].instances)))
  }

  /** Lines 92-171: the rows of every entry, ordered by their totals. */
  function BuildReport(n: nat, entries: seq<Entry>): (r: Result<seq<ReportRow>, ReportError>)
    ensures r.Failure? <==> BuildRows(n, entries).Failure?
    ensures r.Success? ==> multiset(r.value) == multiset(BuildRows(n, entries).value)
    ensures r.Failure? ==> r == BuildRows(n, entries)
  {
    var rows := BuildRows(n, entries);
    if rows.Failure? then rows else Success(SortRows(rows.value))
  }

  /** Line 92: one entry per key of the retained dict, in its order, with the
      instances `instancesOf` supplies for that window. */
  function EntriesFor(order: seq<Key>, instancesOf: Key -> seq<seq<Score>>): (es: seq<Entry>)
    ensures |es| == |order|
    ensures forall i :: 0 <= i < |order| ==> es[i].key == order[i] && es[i].instances == instancesOf(order[i])
  {
    seq(|order|, i requires 0 <= i < |order| => Entry(order[i], instancesOf(order[i])))
  }

  /** Every row of a successful report is the row built from its own window's
      instances. */
  lemma ReportRowsBuilt(n: nat, order: seq<Key>, instancesOf: Key -> seq<seq<Score>>)
    ensures var r := BuildReport(n, EntriesFor(order, instancesOf));
      r.Success? ==> forall i :: 0 <= i < |r.value| ==>
        && r.value[i].key in order
        && Fits(n, instancesOf(r.value[i].key))
        && r.value[i] == BuildRow(r.value[i].key, n, instancesOf(r.value[i].key))
  {
    var entries := EntriesFor(order, instancesOf);
    var r := BuildReport(n, entries);
    if r.Success? {
      var rows := BuildRows(n, entries).value;
      forall i | 0 <= i < |r.value|
        ensures && r.value[i].key in order
                && Fits(n, instancesOf(r.value[i].key))
                && r.value[i] == BuildRow(r.value[i].key, n, instancesOf(r.value[i].key))
      {
        assert r.value[i] in multiset(rows);
        var a :| 0 <= a < |rows| && rows[a] == r.value[i];
        assert entries[a].key == order[a] && entries[a].instances == instancesOf(order[a]);
      }
    }
  }

  /** Two rows with equal totals appear, in that order, among the rows with those totals. */
  lemma {:induction false} TieInWithKey(xs: seq<ReportRow>, i: nat, j: nat)
    requires i < j < |xs| && SortKey(xs[i]) == SortKey(xs[j])
    ensures Precedes(WithKey(xs, SortKey(xs[i])), xs[i], xs[j])
  {
    var k := SortKey(xs[i]);
    var t := xs[1..];
    WithKeyCons(xs[0], t, k);
    assert xs == [xs[0]] + t;
    assert t[j - 1] == xs[j];
    if i == 0 {
      WithKeyHas(t, j - 1);
      PrecedesHead(xs[0], WithKey(t, k), xs[j]);
    } else {
      assert t[i - 1] == xs[i];
      TieInWithKey(t, i - 1, j - 1);
      if SortKey(xs[0]) == k {
        PrecedesTail(xs[0], WithKey(t, k), xs[i], xs[j]);
      } else {
        assert WithKey(xs, k) == [] + WithKey(t, k) == WithKey(t, k);
      }
    }
  }

  /** A row appears among the rows with its own totals. */
  lemma {:induction false} WithKeyHas(xs: seq<ReportRow>, j: nat)
    requires j < |xs|
    ensures xs[j] in WithKey(xs, SortKey(xs[j]))
  {
    var k := SortKey(xs[j]);
    WithKeyCons(xs[0], xs[1..], k);
    assert xs == [xs[0]] + xs[1..];
    if j > 0 {
      assert xs[1..][j - 1] == xs[j];
      WithKeyHas(xs[1..], j - 1);
    }
  }

  /** Picking the rows with given totals keeps their relative order. */
  lemma {:induction false} WithKeyPrecedes(xs: seq<ReportRow>, k: seq<nat>, x: ReportRow, y: ReportRow)
    requires Precedes(WithKey(xs, k), x, y)
    ensures Precedes(xs, x, y)
  {
    var t := xs[1..];
    WithKeyCons(xs[0], t, k);
    assert xs == [xs[0]] + t;
    var w := WithKey(t, k);
    if SortKey(xs[0]) == k {
      PrecedesCons(xs[0], w, x, y);
      if Precedes(w, x, y) {
        WithKeyPrecedes(t, k, x, y);
        PrecedesTail(xs[0], t, x, y);
      } else {
        WithKeyMember(t, k, y);
        PrecedesHead(xs[0], t, y);
      }
    } else {
      assert WithKey(xs, k) == w;
      WithKeyPrecedes(t, k, x, y);
      PrecedesTail(xs[0], t, x, y);
    }
  }

  /** `x` before `y` in `[h] + t`: either both in `t` in that order, or `x` is `h` and `y` in `t`. */
  lemma PrecedesCons<T>(h: T, t: seq<T>, x: T, y: T)
    requires Precedes([h] + t, x, y)
    ensures Precedes(t, x, y) || (x == h && y in t)
  {
    var a, b :| 0 <= a < b < |[h] + t| && ([h] + t)[a] == x && ([h] + t)[b] == y;
    assert t[b - 1] == y;
    if a > 0 {
      assert t[a - 1] == x;
    }
  }

  lemma PrecedesTail<T>(h: T, t: seq<T>, x: T, y: T)
    requires Precedes(t, x, y)
    ensures Precedes([h] + t, x, y)
  {
    var a, b :| 0 <= a < b < |t| && t[a] == x && t[b] == y;
    assert ([h] + t)[a + 1] == x && ([h] + t)[b + 1] == y;
  }

  lemma PrecedesHead<T>(h: T, t: seq<T>, y: T)
    requires y in t
    ensures Precedes([h] + t, h, y)
  {
    var b :| 0 <= b < |t| && t[b] == y;
    assert ([h] + t)[0] == h && ([h] + t)[b + 1] == y;
  }

  lemma {:induction false} WithKeyMember(xs: seq<ReportRow>, k: seq<nat>, y: ReportRow)
    requires y in WithKey(xs, k)
    ensures y in xs
  {
    WithKeyCons(xs[0], xs[1..], k);
    assert xs == [xs[0]] + xs[1..];
    if y != xs[0] {
      WithKeyMember(xs[1..], k, y);
    }
  }

  /** A successful report is ordered by its totals, highest first, and rows
      with equal totals keep the order of their keys in the retained dict. */
  lemma BuildReportOrdered(n: nat, order: seq<Key>, instancesOf: Key -> seq<seq<Score>>, i: nat, j: nat)
    ensures var r := BuildReport(n, EntriesFor(order, instancesOf));
      r.Success? ==> Sorted(r.value)
    ensures var r := BuildReport(n, EntriesFor(order, instancesOf));
      r.Success? && i < j < |r.value| && SortKey(r.value[i]) == SortKey(r.value[j]) ==>
        Precedes(order, r.value[i].key, r.value[j].key)
  {
    var entries := EntriesFor(order, instancesOf);
    if BuildReport(n, entries).Success? {
      var rows := BuildRows(n, entries).value;
      assert BuildReport(n, entries).value == SortRows(rows);
      RowKeys(n, entries);
      SortRowsSorted(rows);
      SortedTiesKeepKeys(rows, order, i, j);
    }
  }

  /** After sorting rows keyed by `order` position by position, rows with
      equal totals keep the order of their keys. */
  lemma SortedTiesKeepKeys(rows: seq<ReportRow>, order: seq<Key>, i: nat, j: nat)
    requires |rows| == |order| && forall a :: 0 <= a < |rows| ==> rows[a].key == order[a]
    ensures var sorted := SortRows(rows);
      i < j < |sorted| && SortKey(sorted[i]) == SortKey(sorted[j]) ==>
        Precedes(order, sorted[i].key, sorted[j].key)
  {
    var sorted := SortRows(rows);
    if i < j < |sorted| && SortKey(sorted[i]) == SortKey(sorted[j]) {
      var k := SortKey(sorted[i]);
      TieInWithKey(sorted, i, j);
      SortRowsStable(rows, k);
      WithKeyPrecedes(rows, k, sorted[i], sorted[j]);
      var a, b :| 0 <= a < b < |rows| && rows[a] == sorted[i] && rows[b] == sorted[j];
      assert order[a] == sorted[i].key && order[b] == sorted[j].key;
    }
  }

  // ---------------------------------------------------------------------
  // Lines 80-171 together

  /** Why no table is produced. */
  datatype SummaryError = AnalysisFailed(analysis: AnalysisError) | ReportFailed(report: ReportError)

  /** Lines 80-171 with the glue read as intended: the retained windows in
      dict order, each with the instances `instancesOf` supplies, made into
      rows and sorted by their totals. */
  function Summary(recs: seq<Record>, firstHalf: string, fullTime: string, minMatches: int, n: nat,
                   instancesOf: Key -> seq<seq<Score>>): (r: Result<seq<ReportRow>, SummaryError>)
    ensures var retained := RetainedWindows(recs, firstHalf, fullTime, minMatches, n);
      retained.Failure? ==> r == Failure(AnalysisFailed(retained.error))
    ensures var retained := RetainedWindows(recs, firstHalf, fullTime, minMatches, n);
      retained.Success? ==>
        (r.Failure? <==> exists k :: k in retained.value.counts && !Fits(n, instancesOf(k)))
    ensures r.Success? ==> forall i :: 0 <= i < |r.value| ==>
      && Fits(n, instancesOf(r.value[i].key))
      && r.value[i] == BuildRow(r.value[i].key, n, instancesOf(r.value[i].key))
  {
    var retained := RetainedWindows(recs, firstHalf, fullTime, minMatches, n);
    if retained.Failure? then
      Failure(AnalysisFailed(retained.error))
    else
      var order := retained.value.order;
      RetainedOrder(recs, firstHalf, fullTime, minMatches, n, [], []);
      var report := BuildReport(n, EntriesFor(order, instancesOf));
      if report.Failure? then
        Failure(ReportFailed(report.error))
      else
        assert forall k :: k in order ==> Fits(n, instancesOf(k));
        ReportRowsBuilt(n, order, instancesOf);
        Success(report.value)
  }

  /** The table has exactly one row per retained window. */
  lemma SummaryKeys(recs: seq<Record>, firstHalf: string, fullTime: string, minMatches: int, n: nat,
                    instancesOf: Key -> seq<seq<Score>>, k: Key)
    ensures var table := Summary(recs, firstHalf, fullTime, minMatches, n, instancesOf);
      var retained := RetainedWindows(recs, firstHalf, fullTime, minMatches, n);
      table.Success? ==>
        && retained.Success?
        && |table.value| == |retained.value.order|
        && (k in retained.value.counts <==> exists i :: 0 <= i < |table.value| && table.value[i].key == k)
  {
    if Summary(recs, firstHalf, fullTime, minMatches, n, instancesOf).Success? {
      var retained := RetainedWindows(recs, firstHalf, fullTime, minMatches, n).value;
      var order := retained.order;
      var entries := EntriesFor(order, instancesOf);
      var table := Summary(recs, firstHalf, fullTime, minMatches, n, instancesOf).value;
      RetainedOrder(recs, firstHalf, fullTime, minMatches, n, k, k);
      assert table == BuildReport(n, entries).value;
      ReportKeys(n, order, instancesOf, k);
    }
  }

  /** The keys of a successful report are the keys of its entries. */
  lemma ReportKeys(n: nat, order: seq<Key>, instancesOf: Key -> seq<seq<Score>>, k: Key)
    ensures var r := BuildReport(n, EntriesFor(order, instancesOf));
      r.Success? ==>
        && |r.value| == |order|
        && (k in order <==> exists i :: 0 <= i < |r.value| && r.value[i].key == k)
  {
    var entries := EntriesFor(order, instancesOf);
    if BuildReport(n, entries).Success? {
      var rows := BuildRows(n, entries).value;
      var report := BuildReport(n, entries).value;
      RowKeys(n, entries);
      PermutedKeys(report, rows, order, k);
    }
  }

  /** The rows built from entries carry the entries' keys. */
  lemma RowKeys(n: nat, entries: seq<Entry>)
    ensures var r := BuildRows(n, entries);
      r.Success? ==> |r.value| == |entries| && forall a :: 0 <= a < |r.value| ==> r.value[a].key == entries[a].key
  {
  }

  /** A permutation of rows keyed by `order`, position by position, holds a
      row with key `k` exactly when `k` is in `order`. */
  lemma PermutedKeys(report: seq<ReportRow>, rows: seq<ReportRow>, order: seq<Key>, k: Key)
    requires multiset(report) == multiset(rows)
    requires |rows| == |order| && forall a :: 0 <= a < |rows| ==> rows[a].key == order[a]
    ensures |report| == |order|
    ensures k in order <==> exists i :: 0 <= i < |report| && report[i].key == k
  {
    assert |report| == |multiset(report)| == |multiset(rows)| == |rows|;
    if k in order {
      var a :| 0 <= a < |order| && order[a] == k;
      assert rows[a] in multiset(report);
      var i :| 0 <= i < |report| && report[i] == rows[a];
    }
    if exists i :: 0 <= i < |report| && report[i].key == k {
      var i :| 0 <= i < |report| && report[i].key == k;
      assert report[i] in multiset(rows);
      var b :| 0 <= b < |rows| && rows[b] == report[i];
    }
  }

  /** The table is ordered by its totals, highest first, and rows with equal
      totals are listed in the order their windows were first seen over the
      anchor matches. */
  lemma SummaryOrdered(recs: seq<Record>, firstHalf: string, fullTime: string, minMatches: int, n: nat,
                       instancesOf: Key -> seq<seq<Score>>, i: nat, j: nat)
    ensures var t := Summary(recs, firstHalf, fullTime, minMatches, n, instancesOf);
      t.Success? ==> Sorted(t.value)
    ensures var t := Summary(recs, firstHalf, fullTime, minMatches, n, instancesOf);
      t.Success? && i < j < |t.value| && SortKey(t.value[i]) == SortKey(t.value[j]) ==>
        SeenBefore(AnchorIds(recs, firstHalf, fullTime), n, t.value[i].key, t.value[j].key)
  {
    if Summary(recs, firstHalf, fullTime, minMatches, n, instancesOf).Success? {
      var retained := RetainedWindows(recs, firstHalf, fullTime, minMatches, n).value;
      var table := Summary(recs, firstHalf, fullTime, minMatches, n, instancesOf).value;
      assert table == BuildReport(n, EntriesFor(retained.order, instancesOf)).value;
      BuildReportOrdered(n, retained.order, instancesOf, i, j);
      if i < j < |table| {
        RetainedOrder(recs, firstHalf, fullTime, minMatches, n, table[i].key, table[j].key);
      }
    }
  }

  // ---------------------------------------------------------------------
  // The order as written: line 168 turns every cell into text first

  /** Line 168: a count as displayed, "<x>/<d> (<percentage>)". The
      percentage text is taken as given. */
  function ShowCell(x: nat, d: nat, pct: string): (cell: string)
    ensures |ShowNat(x)| < |cell| && cell[..|ShowNat(x)|] == ShowNat(x)
  {
    ShowNat(x) + "/" + ShowNat(d) + " (" + pct + ")"
  }

  /** Python's `a < b` on `str`: code points compared left to right, and a
      proper prefix is smaller. */
  predicate StrLess(a: string, b: string) {
    if |b| == 0 then false
    else if |a| == 0 then true
    else if a[0] != b[0] then a[0] < b[0]
    else StrLess(a[1..], b[1..])
  }

  /** Python's `a < b` on equally long tuples of `str`. */
  predicate StrTupleLess(a: seq<string>, b: seq<string>)
    requires |a| == |b|
  {
    |a| > 0 && (StrLess(a[0], b[0]) || (a[0] == b[0] && StrTupleLess(a[1..], b[1..])))
  }

  /** The sort columns of a row as line 171 sees them after line 168. */
  function ShownKey(row: ReportRow, d: nat, pct: nat -> string): seq<string> {
    var t := row.totals;
    [ShowCell(t.am, d, pct(t.am)), ShowCell(t.an, d, pct(t.an)), ShowCell(t.over15, d, pct(t.over15)),
     ShowCell(t.over25, d, pct(t.over25)), ShowCell(t.over35, d, pct(t.over35))]
  }

  /** As written, `a` is placed strictly ahead of `b` when its displayed sort
      columns compare greater as text. */
  predicate ShownAhead(a: ReportRow, b: ReportRow, d: nat, pct: nat -> string) {
    StrTupleLess(ShownKey(b, d, pct), ShownKey(a, d, pct))
  }

  /** Placed strictly ahead in the numeric order. */
  predicate RowAhead(a: ReportRow, b: ReportRow) {
    RowGe(a, b) && !RowGe(b, a)
  }

  /** As text, a count of 9 is greater than a count of 12, whatever follows the numerals. */
  lemma NineAboveTwelveAsText(d: nat, p9: string, p12: string)
    ensures StrLess(ShowCell(12, d, p12), ShowCell(9, d, p9))
    ensures !StrLess(ShowCell(9, d, p9), ShowCell(12, d, p12))
  {
    assert ShowNat(9) == "9";
    assert ShowNat(12) == ShowNat(1) + [DigitChar(2)] == "12";
    var a, b := ShowCell(9, d, p9), ShowCell(12, d, p12);
    assert a[0] == '9' && b[0] == '1';
  }

  /** A row with 9 AM instances and one with 12: compared as text, "9/…"
      is ahead of "12/…", so the row with fewer AM instances is listed
      first, while the numeric order lists the row with 12 first. */
  lemma TextOrderMisranks(d: nat, pct: nat -> string)
    ensures var nine := ReportRow([], [], Counts(0, 0, 9, 9, 0));
      var twelve := ReportRow([], [], Counts(0, 0, 12, 12, 0));
      && ShownAhead(nine, twelve, d, pct)
      && !ShownAhead(twelve, nine, d, pct)
      && RowAhead(twelve, nine)
      && SortRows([nine, twelve]) == [twelve, nine]
  {
    var nine := ReportRow([], [], Counts(0, 0, 9, 9, 0));
    var twelve := ReportRow([], [], Counts(0, 0, 12, 12, 0));
    NineAboveTwelveAsText(d, pct(9), pct(12));
    var k9, k12 := ShownKey(nine, d, pct), ShownKey(twelve, d, pct);
    assert k9[0] == ShowCell(9, d, pct(9)) && k12[0] == ShowCell(12, d, pct(12));
    assert StrTupleLess(k12, k9);
    assert !StrTupleLess(k9, k12);
    TwelveSortsFirst(nine, twelve);
  }

  lemma TwelveSortsFirst(nine: ReportRow, twelve: ReportRow)
    requires nine.totals.am == 9 && twelve.totals.am == 12
    ensures RowAhead(twelve, nine)
    ensures SortRows([nine, twelve]) == [twelve, nine]
  {
    assert !RowGe(nine, twelve) && RowGe(twelve, nine);
    assert [nine, twelve][1..] == [twelve];
    assert SortRows([twelve]) == Insert(twelve, []) == [twelve];
    assert Insert(nine, [twelve]) == [twelve] + Insert(nine, []);
  }
}
