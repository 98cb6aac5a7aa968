/**
 * The bar chart of UF/M2 per project: rows sorted by UF/M2, one trace per
 * developer coloured from a fixed palette in order of first appearance, the
 * bar of the cheapest UF/M2 recoloured and its label marked, and a height
 * that grows with the number of projects beyond twelve.
 */
module Chart {
  import opened Wrappers
  import opened Order
  import opened Listings

  /** The seven trace colours, used in turn by developer. */
  const Palette: seq<string> := ["#2E2E2E", "#6E6353", "#8B7F74", "#A69C8F", "#5A5049", "#BFB7AD", "#7F7F7F"]

  /** The colour of the bar with the lowest UF/M2. */
  const MinColor: string := "#E07A5F"

  const BaseHeight: int := 700
  const FlatRows: int := 12
  const RowHeight: int := 25

  /** A row of the "Desde" table with its wrapped project label (PROYECTO_WRAP). */
  datatype LabelledRow = LabelledRow(row: DesdeRow, wrapped: string)

  /**
   * One bar: its position in the chart rows, its category (the wrapped
   * label), its UF/M2 value, its colour and whether its value label carries
   * the highlight decoration.
   */
  datatype Bar = Bar(position: nat, category: string, value: real, color: string, marked: bool)

  /** One grouped-bar series: a developer and its bars. */
  datatype Trace = Trace(developer: string, bars: seq<Bar>)

  /** The chart: its rows in UF/M2 order, the x-axis category order, the traces and the height. */
  datatype Figure = Figure(rows: seq<LabelledRow>, categories: seq<string>, traces: seq<Trace>, height: int)

  function UfPerM2(r: LabelledRow): real {
    r.row.ufPerM2
  }

  function Developer(r: LabelledRow): string {
    r.row.developer
  }

  lemma PaletteAvoidsMinColor()
    ensures forall k :: 0 <= k < |Palette| ==> Palette[k] != MinColor
  {
    forall k | 0 <= k < |Palette| ensures Palette[k] != MinColor {
      assert Palette[k][1] != MinColor[1];
    }
  }

  /** The palette colour of the k-th developer: the palette is used in turn, wrapping after seven. */
  function TraceColor(k: nat): (c: string)
    ensures c in Palette && c != MinColor
    ensures k < |Palette| ==> c == Palette[k]
  {
    PaletteAvoidsMinColor();
    Palette[k % |Palette|]
  }

  /** The eighth developer gets the first developer's colour again, and so on. */
  lemma TraceColorCycles(k: nat)
    ensures TraceColor(k + |Palette|) == TraceColor(k)
  {
  }

  /** The plot height for `n` chart rows: 700, plus 25 for every row beyond 12. */
  function Height(n: nat): (h: int)
    ensures h >= BaseHeight
    ensures n <= FlatRows ==> h == BaseHeight
    ensures n > FlatRows ==> h == Height(n - 1) + RowHeight
  {
    BaseHeight + (if (n - FlatRows) * RowHeight > 0 then (n - FlatRows) * RowHeight else 0)
  }

  // ---------------------------------------------------------------------
  // Developers in order of first appearance
  // ---------------------------------------------------------------------

  function FirstIndex(col: seq<string>, d: string): (i: nat)
    requires d in col
    ensures i < |col| && col[i] == d
    ensures forall j :: 0 <= j < i ==> col[j] != d
  {
    if col[0] == d then 0 else 1 + FirstIndex(col[1..], d)
  }

  lemma FirstIndexPrefix(col: seq<string>, n: nat, d: string)
    requires n <= |col| && d in col[..n]
    ensures d in col && FirstIndex(col[..n], d) == FirstIndex(col, d)
  {
    var i := FirstIndex(col[..n], d);
    assert col[i] == d;
  }

  /** Series.unique(): every value once, in order of first appearance. */
  function Unique(col: seq<string>): (u: seq<string>)
    ensures forall i, j :: 0 <= i < j < |u| ==> u[i] != u[j]
    ensures forall d :: d in u <==> d in col
    ensures forall i, j :: 0 <= i < j < |u| ==> FirstIndex(col, u[i]) < FirstIndex(col, u[j])
  {
    if |col| == 0 then []
    else
      var n := |col| - 1;
      var d := col[n];
      var u := Unique(col[..n]);
      assert col == col[..n] + [d];
      forall e | e in u ensures FirstIndex(col, e) == FirstIndex(col[..n], e) < n {
        FirstIndexPrefix(col, n, e);
      }
      if d in u then u
      else
        assert FirstIndex(col, d) == n;
        u + [d]
  }

  function DeveloperColumn(rows: seq<LabelledRow>): (col: seq<string>)
    ensures |col| == |rows|
    ensures forall i :: 0 <= i < |rows| ==> col[i] == Developer(rows[i])
  {
    seq(|rows|, i requires 0 <= i < |rows| => Developer(rows[i]))
  }

  // ---------------------------------------------------------------------
  // Traces and bar colours
  // ---------------------------------------------------------------------

  /** The bar drawn for chart row `i` in a trace whose palette colour is `base`. */
  function BarFor(rows: seq<LabelledRow>, i: nat, base: string, minIdx: nat): Bar
    requires i < |rows|
  {
    Bar(i, rows[i].wrapped, UfPerM2(rows[i]), if i == minIdx then MinColor else base, i == minIdx)
  }

  predicate HasBarAt(bars: seq<Bar>, i: nat) {
    exists j :: 0 <= j < |bars| && bars[j].position == i
  }

  /** The bars of developer `dev` among the chart rows from position `from` on, in chart order. */
  function BarsFrom(rows: seq<LabelledRow>, dev: string, base: string, minIdx: nat, from: nat): (bars: seq<Bar>)
    ensures forall j :: 0 <= j < |bars| ==>
              && from <= bars[j].position < |rows|
              && Developer(rows[bars[j].position]) == dev
              && bars[j] == BarFor(rows, bars[j].position, base, minIdx)
    ensures forall j, k :: 0 <= j < k < |bars| ==> bars[j].position < bars[k].position
    decreases |rows| - from
  {
    if from >= |rows| then []
    else
      var rest := BarsFrom(rows, dev, base, minIdx, from + 1);
      if Developer(rows[from]) == dev then [BarFor(rows, from, base, minIdx)] + rest else rest
  }

  /** Every row of developer `dev` from position `from` on has its bar. */
  lemma {:induction false} BarsFromComplete(rows: seq<LabelledRow>, dev: string, base: string, minIdx: nat, from: nat, i: nat)
    requires from <= i < |rows| && Developer(rows[i]) == dev
    ensures HasBarAt(BarsFrom(rows, dev, base, minIdx, from), i)
    decreases |rows| - from
  {
    var bars := BarsFrom(rows, dev, base, minIdx, from);
    if i == from {
      assert bars[0].position == i;
    } else {
      BarsFromComplete(rows, dev, base, minIdx, from + 1, i);
      var rest := BarsFrom(rows, dev, base, minIdx, from + 1);
      var j :| 0 <= j < |rest| && rest[j].position == i;
      if Developer(rows[from]) == dev {
        assert bars[j + 1] == rest[j];
      } else {
        assert bars[j] == rest[j];
      }
    }
  }

  /**
   * The traces of the chart: for the k-th developer in order of first
   * appearance, its bars drawn in `TraceColor(k)`, except the bar at
   * `minIdx`, drawn in `MinColor`.
   */
  function Traces(rows: seq<LabelledRow>, minIdx: nat): (ts: seq<Trace>)
    ensures forall k, l :: 0 <= k < l < |ts| ==> ts[k].developer != ts[l].developer
    ensures forall k :: 0 <= k < |ts| ==> ts[k].developer in DeveloperColumn(rows)
    ensures forall k, l :: 0 <= k < l < |ts| ==>
              FirstIndex(DeveloperColumn(rows), ts[k].developer) < FirstIndex(DeveloperColumn(rows), ts[l].developer)
    ensures forall d :: d in DeveloperColumn(rows) ==> HasTraceFor(ts, d)
  {
    var devs := Unique(DeveloperColumn(rows));
    var ts := seq(|devs|, k requires 0 <= k < |devs| => Trace(devs[k], BarsFrom(rows, devs[k], TraceColor(k), minIdx, 0)));
    TracesCover(rows, devs, ts);
    ts
  }

  lemma TracesCover(rows: seq<LabelledRow>, devs: seq<string>, ts: seq<Trace>)
    requires forall d :: d in devs <==> d in DeveloperColumn(rows)
    requires |ts| == |devs| && forall k :: 0 <= k < |ts| ==> ts[k].developer == devs[k]
    ensures forall d :: d in DeveloperColumn(rows) ==> HasTraceFor(ts, d)
  {
    forall d | d in DeveloperColumn(rows) ensures HasTraceFor(ts, d) {
      var k :| 0 <= k < |devs| && devs[k] == d;
      assert ts[k].developer == devs[k];
    }
  }

  /** The bars of trace k are the rows of its developer, coloured with `TraceColor(k)`. */
  lemma TraceBars(rows: seq<LabelledRow>, minIdx: nat, k: nat)
    requires k < |Traces(rows, minIdx)|
    ensures Traces(rows, minIdx)[k].bars == BarsFrom(rows, Traces(rows, minIdx)[k].developer, TraceColor(k), minIdx, 0)
  {
  }

  predicate HasTraceFor(ts: seq<Trace>, dev: string) {
    exists k :: 0 <= k < |ts| && ts[k].developer == dev
  }

  /** How many bars are drawn in colour `c`. */
  function CountColor(bars: seq<Bar>, c: string): nat {
    if |bars| == 0 then 0 else (if bars[0].color == c then 1 else 0) + CountColor(bars[1..], c)
  }

  function TotalColor(ts: seq<Trace>, c: string): nat {
    if |ts| == 0 then 0 else CountColor(ts[0].bars, c) + TotalColor(ts[1..], c)
  }

  /** Within one trace, only the bar at `minIdx` can be drawn in `MinColor`. */
  lemma {:induction false} BarsFromMinCount(rows: seq<LabelledRow>, dev: string, base: string, minIdx: nat, from: nat)
    requires base != MinColor
    ensures CountColor(BarsFrom(rows, dev, base, minIdx, from), MinColor) ==
            if from <= minIdx < |rows| && Developer(rows[minIdx]) == dev then 1 else 0
    decreases |rows| - from
  {
    if from < |rows| {
      BarsFromMinCount(rows, dev, base, minIdx, from + 1);
      var rest := BarsFrom(rows, dev, base, minIdx, from + 1);
      if Developer(rows[from]) == dev {
        assert ([BarFor(rows, from, base, minIdx)] + rest)[1..] == rest;
      }
    }
  }

  /** Summing per-trace counts that are one only for the trace of `dev`. */
  lemma {:induction false} TotalFromOneTrace(ts: seq<Trace>, dev: string)
    requires forall k, l :: 0 <= k < l < |ts| ==> ts[k].developer != ts[l].developer
    requires forall k :: 0 <= k < |ts| ==> CountColor(ts[k].bars, MinColor) == if ts[k].developer == dev then 1 else 0
    ensures TotalColor(ts, MinColor) == if HasTraceFor(ts, dev) then 1 else 0
  {
    if |ts| > 0 {
      TotalFromOneTrace(ts[1..], dev);
      if ts[0].developer == dev {
        assert !HasTraceFor(ts[1..], dev);
      } else if HasTraceFor(ts, dev) {
        var k :| 0 <= k < |ts| && ts[k].developer == dev;
        assert ts[1..][k - 1].developer == dev;
      } else {
        assert !HasTraceFor(ts[1..], dev);
      }
    }
  }

  /** Exactly one bar of the whole chart is drawn in `MinColor`: the bar of row `minIdx`. */
  lemma ExactlyOneMinBar(rows: seq<LabelledRow>, minIdx: nat)
    requires minIdx < |rows|
    ensures TotalColor(Traces(rows, minIdx), MinColor) == 1
  {
    var ts := Traces(rows, minIdx);
    PaletteAvoidsMinColor();
    forall k | 0 <= k < |ts|
      ensures CountColor(ts[k].bars, MinColor) == if ts[k].developer == Developer(rows[minIdx]) then 1 else 0
    {
      TraceBars(rows, minIdx, k);
      BarsFromMinCount(rows, ts[k].developer, TraceColor(k), minIdx, 0);
    }
    TotalFromOneTrace(ts, Developer(rows[minIdx]));
  }

  /** Every chart row is drawn as a bar in the trace of its developer, and in no other trace. */
  lemma EveryRowOneBar(rows: seq<LabelledRow>, minIdx: nat, i: nat)
    requires i < |rows|
    ensures var ts := Traces(rows, minIdx);
            && (exists k :: 0 <= k < |ts| && ts[k].developer == Developer(rows[i]) && HasBarAt(ts[k].bars, i))
            && (forall k :: 0 <= k < |ts| && HasBarAt(ts[k].bars, i) ==> ts[k].developer == Developer(rows[i]))
  {
    var ts := Traces(rows, minIdx);
    assert DeveloperColumn(rows)[i] == Developer(rows[i]);
    assert HasTraceFor(ts, Developer(rows[i]));
    var k :| 0 <= k < |ts| && ts[k].developer == Developer(rows[i]);
    TraceBars(rows, minIdx, k);
    BarsFromComplete(rows, ts[k].developer, TraceColor(k), minIdx, 0, i);
    forall l | 0 <= l < |ts| && HasBarAt(ts[l].bars, i) ensures ts[l].developer == Developer(rows[i]) {
      TraceBars(rows, minIdx, l);
      var j :| 0 <= j < |ts[l].bars| && ts[l].bars[j].position == i;
    }
  }

  /** The colour rule of every bar: `MinColor` at `minIdx`, else the palette colour of its trace. */
  lemma BarColours(rows: seq<LabelledRow>, minIdx: nat, k: nat, j: nat)
    requires k < |Traces(rows, minIdx)| && j < |Traces(rows, minIdx)[k].bars|
    ensures var b := Traces(rows, minIdx)[k].bars[j];
            && b.color == (if b.position == minIdx then MinColor else TraceColor(k))
            && b.marked == (b.position == minIdx)
  {
    TraceBars(rows, minIdx, k);
  }

  // ---------------------------------------------------------------------
  // The figure
  // ---------------------------------------------------------------------

  /** The chart for the "Desde" rows, or nothing when there are no rows. */
  function BuildChart(labelled: seq<LabelledRow>): (fig: Option<Figure>)
    ensures fig.None? <==> |labelled| == 0
    ensures fig.Some? ==> SortedBy(fig.value.rows, UfPerM2) && multiset(fig.value.rows) == multiset(labelled)
    ensures fig.Some? ==> |fig.value.rows| == |fig.value.categories| == |labelled|
    ensures fig.Some? ==> forall i :: 0 <= i < |labelled| ==> fig.value.categories[i] == fig.value.rows[i].wrapped
    ensures fig.Some? ==> fig.value.height >= BaseHeight
    ensures fig.Some? ==> fig.value.height == Height(|labelled|)
  {
    if |labelled| == 0 then None
    else
      var rows := SortBy(labelled, UfPerM2);
      assert |rows| == |multiset(rows)| == |labelled|;
      var minIdx := ArgMin(rows, UfPerM2);
      var categories := seq(|rows|, i requires 0 <= i < |rows| => rows[i].wrapped);
      Some(Figure(rows, categories, Traces(rows, minIdx), Height(|rows|)))
  }

  /**
   * In a built chart exactly one bar is highlighted, and it is the first in
   * category order, the project with the lowest UF/M2.
   */
  lemma ChartHighlightsCheapest(labelled: seq<LabelledRow>)
    requires |labelled| > 0
    ensures var fig := BuildChart(labelled).value;
            && TotalColor(fig.traces, MinColor) == 1
            && fig.traces == Traces(fig.rows, 0)
            && forall i :: 0 <= i < |fig.rows| ==> UfPerM2(fig.rows[0]) <= UfPerM2(fig.rows[i])
  {
    var rows := SortBy(labelled, UfPerM2);
    SortedArgMin(rows, UfPerM2);
    ExactlyOneMinBar(rows, 0);
  }
}
