/**
 * The simple table widget's data: cells stored row by row, ranges of cells
 * described by start, stride and count, and the per-row and per-column size
 * metrics. Drawing and font measurement are not modelled; the widget's
 * update requests are returned as flags.
 */
module SimpleTable {

  type Text = seq<char>

  /** A font request, carried but not interpreted. */
  datatype FontRequest = FontRequest(request: int)

  datatype Cell = Cell(text: Text, font: FontRequest, alignX: int, alignY: int, color: int, extraColumns: int)

  /** Size of a row or column, the padding after it, and whether the size is computed from the content. */
  datatype Metric = Metric(size: int, padAfter: int, isAuto: bool)

  /** The metric reported for a row or column that does not exist. */
  const DefaultMetric := Metric(0, 0, true)

  datatype Table = Table(numColumns: nat, numRows: nat, cells: seq<Cell>, rowMetrics: seq<Metric>, columnMetrics: seq<Metric>)

  predicate ValidTable(t: Table) {
    |t.cells| == t.numColumns * t.numRows && |t.rowMetrics| == t.numRows && |t.columnMetrics| == t.numColumns
  }

  /** A fresh table: all cells blank, all metrics default. */
  function NewTable(numColumns: nat, numRows: nat, blank: Cell): (t: Table)
    ensures ValidTable(t) && t.numColumns == numColumns && t.numRows == numRows
    ensures forall i | 0 <= i < |t.rowMetrics| :: t.rowMetrics[i] == DefaultMetric
    ensures forall i | 0 <= i < |t.columnMetrics| :: t.columnMetrics[i] == DefaultMetric
  {
    Table(numColumns, numRows, seq(numColumns * numRows, _ => blank),
          seq(numRows, _ => DefaultMetric), seq(numColumns, _ => DefaultMetric))
  }

  // ---- Ranges ----

  /** The cells start, start + stride, ..., count of them. */
  datatype Range = Range(start: nat, stride: nat, count: nat)

  const EmptyRange := Range(0, 0, 0)

  /** The i-th cell index of a range. */
  function Pos(r: Range, i: nat): nat {
    r.start + i * r.stride
  }

  /** Whether cell p is one of the range's cells. */
  predicate Covers(r: Range, p: nat) {
    exists i | 0 <= i < r.count :: Pos(r, i) == p
  }

  /** Every cell of the range lies in a table of n cells. */
  predicate InTable(r: Range, n: nat) {
    forall i | 0 <= i < r.count :: Pos(r, i) < n
  }

  lemma MulBound(a: nat, b: nat, c: nat)
    requires a < b
    ensures a * c + c <= b * c
  {
    var d: nat := b - a - 1;
    assert (a + 1) * c == a * c + c;
    assert b * c == (a + 1) * c + d * c;
  }

  /** The cell in column x of row y, or an empty range outside the table. */
  function CellRange(t: Table, x: nat, y: nat): (r: Range)
    requires ValidTable(t)
    ensures InTable(r, |t.cells|)
    ensures x < t.numColumns && y < t.numRows ==> r.count == 1 && Pos(r, 0) == x + y * t.numColumns
    ensures !(x < t.numColumns && y < t.numRows) ==> r.count == 0
  {
    if x < t.numColumns && y < t.numRows then
      MulBound(y, t.numRows, t.numColumns);
      Range(x + y * t.numColumns, 0, 1)
    else EmptyRange
  }

  /** All cells of row y from left to right, or an empty range. */
  function RowRange(t: Table, y: nat): (r: Range)
    requires ValidTable(t)
    ensures InTable(r, |t.cells|)
    ensures y < t.numRows ==> r.count == t.numColumns && forall i | 0 <= i < r.count :: Pos(r, i) == i + y * t.numColumns
    ensures y >= t.numRows ==> r.count == 0
  {
    if y < t.numRows then
      MulBound(y, t.numRows, t.numColumns);
      Range(y * t.numColumns, 1, t.numColumns)
    else EmptyRange
  }

  /** All cells of column x from top to bottom, or an empty range. */
  function ColumnRange(t: Table, x: nat): (r: Range)
    requires ValidTable(t)
    ensures InTable(r, |t.cells|)
    ensures x < t.numColumns ==> r.count == t.numRows && forall i | 0 <= i < r.count :: Pos(r, i) == x + i * t.numColumns
    ensures x >= t.numColumns ==> r.count == 0
  {
    if x < t.numColumns then
      assert forall i | 0 <= i < t.numRows :: x + i * t.numColumns < |t.cells| by {
        forall i | 0 <= i < t.numRows ensures x + i * t.numColumns < |t.cells| {
          MulBound(i, t.numRows, t.numColumns);
        }
      }
      Range(x, t.numColumns, t.numRows)
    else EmptyRange
  }

  function Min(a: nat, b: nat): nat {
    if a < b then a else b
  }

  /** The part of r from its start-th cell, at most count cells, clamped to r. */
  function Subrange(r: Range, start: nat, count: nat): (sub: Range)
    ensures sub.stride == r.stride && sub.count <= r.count
    ensures sub.count == Min(count, r.count - Min(start, r.count))
    ensures forall i | 0 <= i < sub.count :: Pos(sub, i) == Pos(r, Min(start, r.count) + i) && Min(start, r.count) + i < r.count
  {
    var effStart := Min(start, r.count);
    var effCount := Min(count, r.count - effStart);
    assert forall i | 0 <= i < effCount :: r.start + r.stride * effStart + i * r.stride == r.start + (effStart + i) * r.stride by {
      forall i | 0 <= i < effCount ensures r.start + r.stride * effStart + i * r.stride == r.start + (effStart + i) * r.stride {
        assert (effStart + i) * r.stride == effStart * r.stride + i * r.stride;
      }
    }
    Range(r.start + r.stride * effStart, r.stride, effCount)
  }

  /** A subrange covers only cells of its parent, so it stays inside the table. */
  lemma SubrangeInParent(r: Range, start: nat, count: nat, n: nat, p: nat)
    ensures Covers(Subrange(r, start, count), p) ==> Covers(r, p)
    ensures InTable(r, n) ==> InTable(Subrange(r, start, count), n)
  {
    var sub := Subrange(r, start, count);
    if Covers(sub, p) {
      var i :| 0 <= i < sub.count && Pos(sub, i) == p;
      assert Pos(r, Min(start, r.count) + i) == p;
    }
  }

  // ---- Setting cell attributes through a range ----

  /** One attribute change a range setter applies to each of its cells. */
  datatype Change =
    | SetText(text: Text)
    | SetFont(font: FontRequest)
    | SetTextAlign(x: int, y: int)
    | SetColor(color: int)
    | SetExtraColumns(n: int)

  /** The field a change names takes the new value; every other field keeps its old one. */
  function Apply(c: Cell, ch: Change): (r: Cell)
    ensures r.text == if ch.SetText? then ch.text else c.text
    ensures r.font == if ch.SetFont? then ch.font else c.font
    ensures r.alignX == (if ch.SetTextAlign? then ch.x else c.alignX) && r.alignY == (if ch.SetTextAlign? then ch.y else c.alignY)
    ensures r.color == if ch.SetColor? then ch.color else c.color
    ensures r.extraColumns == if ch.SetExtraColumns? then ch.n else c.extraColumns
  {
    match ch
    case SetText(text) => c.(text := text)
    case SetFont(font) => c.(font := font)
    case SetTextAlign(x, y) => c.(alignX := x, alignY := y)
    case SetColor(color) => c.(color := color)
    case SetExtraColumns(n) => c.(extraColumns := n)
  }

  /** Applying a change twice is applying it once. */
  lemma ApplyIdempotent(c: Cell, ch: Change)
    ensures Apply(Apply(c, ch), ch) == Apply(c, ch)
  {
  }

  /** Whether a change affects the column widths and row heights. */
  predicate ChangesMetrics(ch: Change) {
    ch.SetText? || ch.SetFont? || ch.SetExtraColumns?
  }

  /** What the widget asks for after a change. */
  datatype Requests = Requests(updateMetrics: bool, redraw: bool)

  const NoRequests := Requests(false, false)

  /**
   * Applies a change to every cell of the range, noting whether any cell
   * actually changed; only then does the widget ask for new metrics (for
   * text, font and column span) and a redraw.
   */
  method ApplyToRange(cells: seq<Cell>, r: Range, ch: Change) returns (out: seq<Cell>, req: Requests)
    requires InTable(r, |cells|)
    ensures |out| == |cells|
    ensures forall p | 0 <= p < |cells| :: out[p] == if Covers(r, p) then Apply(cells[p], ch) else cells[p]
    ensures var changed := exists i | 0 <= i < r.count :: Apply(cells[Pos(r, i)], ch) != cells[Pos(r, i)];
      req == Requests(changed && ChangesMetrics(ch), changed)
  {
    out := cells;
    var changed := false;
    var i := 0;
    while i < r.count
      invariant 0 <= i <= r.count
      invariant |out| == |cells|
      invariant forall p | 0 <= p < |cells| :: out[p] == if Seen(r, i, p) then Apply(cells[p], ch) else cells[p]
      invariant changed <==> ChangedBefore(cells, r, ch, i)
    {
      var pos := Pos(r, i);
      var updated := Apply(out[pos], ch);
      ApplyIdempotent(cells[pos], ch);
      if updated != out[pos] {
        changed := true;
      }
      ChangedStep(cells, r, ch, i);
      out := out[pos := updated];
      SeenStep(r, i, |cells|);
      i := i + 1;
    }
    req := Requests(changed && ChangesMetrics(ch), changed);
  }

  /** Whether cell p is among the first i cells of the range. */
  predicate Seen(r: Range, i: nat, p: nat) {
    exists j | 0 <= j < i :: Pos(r, j) == p
  }

  /** Whether the change alters one of the first i cells of the range. */
  predicate ChangedBefore(cells: seq<Cell>, r: Range, ch: Change, i: nat)
    requires i <= r.count && InTable(r, |cells|)
  {
    exists j | 0 <= j < i :: Apply(cells[Pos(r, j)], ch) != cells[Pos(r, j)]
  }

  lemma SeenStep(r: Range, i: nat, n: nat)
    ensures forall p | 0 <= p < n :: Seen(r, i + 1, p) <==> Seen(r, i, p) || Pos(r, i) == p
  {
  }

  lemma ChangedStep(cells: seq<Cell>, r: Range, ch: Change, i: nat)
    requires i < r.count && InTable(r, |cells|)
    ensures ChangedBefore(cells, r, ch, i + 1) <==> ChangedBefore(cells, r, ch, i) || Apply(cells[Pos(r, i)], ch) != cells[Pos(r, i)]
  {
  }

  /** Sets an attribute of the range's cells in the table. */
  method SetRange(t: Table, r: Range, ch: Change) returns (t': Table, req: Requests)
    requires ValidTable(t) && InTable(r, |t.cells|)
    ensures ValidTable(t') && t'.(cells := t.cells) == t
    ensures forall p | 0 <= p < |t.cells| :: t'.cells[p] == if Covers(r, p) then Apply(t.cells[p], ch) else t.cells[p]
    ensures !req.redraw ==> t' == t
  {
    var cells;
    cells, req := ApplyToRange(t.cells, r, ch);
    t' := t.(cells := cells);
    if !req.redraw {
      assert forall p | 0 <= p < |t.cells| :: cells[p] == t.cells[p] by {
        forall p | 0 <= p < |t.cells| ensures cells[p] == t.cells[p] {
          if Covers(r, p) {
            var i :| 0 <= i < r.count && Pos(r, i) == p;
          }
        }
      }
    }
  }

  // ---- Metrics ----

  /** The metric at index, or the default outside the list. */
  function GetMetric(ms: seq<Metric>, index: nat): (m: Metric)
    ensures index >= |ms| ==> m == DefaultMetric
  {
    if index < |ms| then ms[index] else DefaultMetric
  }

  /** A fixed size: no longer computed from content. Indexes outside the list are ignored. */
  function SetSize(ms: seq<Metric>, index: nat, size: int): (r: seq<Metric>)
    ensures |r| == |ms|
    ensures index < |ms| ==> r == ms[index := Metric(size, ms[index].padAfter, false)]
    ensures index >= |ms| ==> r == ms
  {
    if index < |ms| then ms[index := ms[index].(isAuto := false, size := size)] else ms
  }

  /** Back to a size computed from content, starting from 0. */
  function ClearSize(ms: seq<Metric>, index: nat): (r: seq<Metric>)
    ensures |r| == |ms|
    ensures index < |ms| ==> r == ms[index := Metric(0, ms[index].padAfter, true)]
    ensures index >= |ms| ==> r == ms
  {
    if index < |ms| then ms[index := ms[index].(isAuto := true, size := 0)] else ms
  }

  function SetPadding(ms: seq<Metric>, index: nat, pad: int): (r: seq<Metric>)
    ensures |r| == |ms|
    ensures index < |ms| ==> r == ms[index := Metric(ms[index].size, pad, ms[index].isAuto)]
    ensures index >= |ms| ==> r == ms
  {
    if index < |ms| then ms[index := ms[index].(padAfter := pad)] else ms
  }

  /** What reading back a metric after setting it gives. */
  lemma SetThenGet(ms: seq<Metric>, index: nat, k: nat, v: int)
    ensures GetMetric(SetSize(ms, index, v), index) == if index < |ms| then Metric(v, ms[index].padAfter, false) else DefaultMetric
    ensures GetMetric(ClearSize(ms, index), index) == if index < |ms| then Metric(0, ms[index].padAfter, true) else DefaultMetric
    ensures GetMetric(SetPadding(ms, index, v), index) == if index < |ms| then ms[index].(padAfter := v) else DefaultMetric
    ensures k != index ==>
              && GetMetric(SetSize(ms, index, v), k) == GetMetric(ms, k)
              && GetMetric(ClearSize(ms, index), k) == GetMetric(ms, k)
              && GetMetric(SetPadding(ms, index, v), k) == GetMetric(ms, k)
  {
  }

  /** Row height and column width setters on the table, with the widget's requests. */
  function SetRowHeight(t: Table, row: nat, height: int): (r: (Table, Requests))
    requires ValidTable(t)
    ensures ValidTable(r.0) && r.1 == Requests(false, true)
  {
    (t.(rowMetrics := SetSize(t.rowMetrics, row, height)), Requests(false, true))
  }

  function ClearRowHeight(t: Table, row: nat): (r: (Table, Requests))
    requires ValidTable(t)
    ensures ValidTable(r.0) && r.1 == Requests(true, true)
  {
    (t.(rowMetrics := ClearSize(t.rowMetrics, row)), Requests(true, true))
  }

  function SetRowPadding(t: Table, row: nat, height: int): (r: (Table, Requests))
    requires ValidTable(t)
    ensures ValidTable(r.0) && r.1 == Requests(false, true)
  {
    (t.(rowMetrics := SetPadding(t.rowMetrics, row, height)), Requests(false, true))
  }

  function SetColumnWidth(t: Table, column: nat, width: int): (r: (Table, Requests))
    requires ValidTable(t)
    ensures ValidTable(r.0) && r.1 == Requests(false, true)
  {
    (t.(columnMetrics := SetSize(t.columnMetrics, column, width)), Requests(false, true))
  }

  function ClearColumnWidth(t: Table, column: nat): (r: (Table, Requests))
    requires ValidTable(t)
    ensures ValidTable(r.0) && r.1 == Requests(true, true)
  {
    (t.(columnMetrics := ClearSize(t.columnMetrics, column)), Requests(true, true))
  }

  function SetColumnPadding(t: Table, column: nat, width: int): (r: (Table, Requests))
    requires ValidTable(t)
    ensures ValidTable(r.0) && r.1 == Requests(false, true)
  {
    (t.(columnMetrics := SetPadding(t.columnMetrics, column, width)), Requests(false, true))
  }

  /** Row setters leave the cells and the column metrics alone, and column setters the rows. */
  lemma MetricSettersAreSeparate(t: Table, i: nat, v: int)
    requires ValidTable(t)
    ensures SetRowHeight(t, i, v).0.(rowMetrics := t.rowMetrics) == t
    ensures ClearRowHeight(t, i).0.(rowMetrics := t.rowMetrics) == t
    ensures SetRowPadding(t, i, v).0.(rowMetrics := t.rowMetrics) == t
    ensures SetColumnWidth(t, i, v).0.(columnMetrics := t.columnMetrics) == t
    ensures ClearColumnWidth(t, i).0.(columnMetrics := t.columnMetrics) == t
    ensures SetColumnPadding(t, i, v).0.(columnMetrics := t.columnMetrics) == t
  {
  }

  /** Forgets the computed sizes before they are measured again. */
  function ResetMetric(ms: seq<Metric>): (r: seq<Metric>)
    ensures |r| == |ms|
    ensures forall i | 0 <= i < |ms| :: r[i] == if ms[i].isAuto then ms[i].(size := 0) else ms[i]
  {
    seq(|ms|, i requires 0 <= i < |ms| => if ms[i].isAuto then ms[i].(size := 0) else ms[i])
  }

  /** Widens a computed size to at least value; fixed sizes and indexes outside the list are left alone. */
  function UpdateAutoMetric(ms: seq<Metric>, index: nat, value: int): (r: seq<Metric>)
    ensures |r| == |ms|
  {
    if index < |ms| && ms[index].isAuto && value > ms[index].size then ms[index := ms[index].(size := value)] else ms
  }

  /**
   * Widening only raises the size of an automatic entry to the larger of the
   * two, touches nothing else, and doing it twice is doing it once.
   */
  lemma UpdateAutoMetricRaises(ms: seq<Metric>, index: nat, value: int)
    ensures var r := UpdateAutoMetric(ms, index, value);
      && (forall k | 0 <= k < |ms| && k != index :: r[k] == ms[k])
      && (index < |ms| ==> r[index].isAuto == ms[index].isAuto && r[index].padAfter == ms[index].padAfter)
      && (index < |ms| && ms[index].isAuto ==> r[index].size == if value > ms[index].size then value else ms[index].size)
      && (index < |ms| && !ms[index].isAuto ==> r[index] == ms[index])
      && (forall k | 0 <= k < |ms| :: r[k].size >= ms[k].size)
      && UpdateAutoMetric(r, index, value) == r
  {
  }

  /** The total of sizes and paddings. */
  function Total(ms: seq<Metric>): int {
    if ms == [] then 0 else Total(ms[..|ms| - 1]) + ms[|ms| - 1].size + ms[|ms| - 1].padAfter
  }

  /** Adds up sizes and paddings of all entries. */
  method SumMetric(ms: seq<Metric>) returns (sum: int)
    ensures sum == Total(ms)
  {
    sum := 0;
    var i := 0;
    while i < |ms|
      invariant 0 <= i <= |ms|
      invariant sum == Total(ms[..i])
    {
      assert ms[..i + 1][..i] == ms[..i];
      sum := sum + ms[i].size;
      sum := sum + ms[i].padAfter;
      i := i + 1;
    }
    assert ms[..|ms|] == ms;
  }

  /** Replacing one entry changes the total by the difference of the two entries. */
  lemma {:induction false} TotalAfterUpdate(ms: seq<Metric>, k: nat, m: Metric)
    requires k < |ms|
    ensures Total(ms[k := m]) == Total(ms) - (ms[k].size + ms[k].padAfter) + (m.size + m.padAfter)
  {
    var last := |ms| - 1;
    if k < last {
      assert ms[k := m][..last] == ms[..last][k := m];
      TotalAfterUpdate(ms[..last], k, m);
    } else {
      assert ms[k := m][..last] == ms[..last];
    }
  }

  /** So widening a computed size never shrinks the table. */
  lemma UpdateAutoMetricGrowsTotal(ms: seq<Metric>, index: nat, value: int)
    ensures Total(UpdateAutoMetric(ms, index, value)) >= Total(ms)
  {
    if index < |ms| && ms[index].isAuto && value > ms[index].size {
      TotalAfterUpdate(ms, index, ms[index].(size := value));
    }
  }
}
