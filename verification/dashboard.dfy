/**
 * One render of the dashboard as a pure function of the spreadsheet rows
 * and the two selections: filter, "Desde" table, table view sorted by
 * starting price, and the chart of the same rows sorted by UF/M2.
 */
module Dashboard {
  import opened Wrappers
  import opened Text
  import opened Labels
  import opened Order
  import opened Listings
  import opened Chart

  /** What the page shows instead of the table when the selection matches nothing. */
  const NoDataMessage: string := "No hay datos para la selecci\U{F3}n actual."

  /**
   * The table as displayed: the placeholder message, or the sorted rows with
   * a flag per row saying whether the row is highlighted.
   */
  datatype TableView = Placeholder(message: string) | Grid(rows: seq<DesdeRow>, highlighted: seq<bool>)

  datatype Report = Report(table: TableView, chart: Option<Figure>)

  function DesdePrice(d: DesdeRow): real {
    d.desde
  }

  /**
   * PROYECTO_RAW (break tags turned into spaces) wrapped into PROYECTO_WRAP;
   * `WrapLabelRoundTrip` says the wrapped label keeps the name's words.
   */
  function Labelled(d: DesdeRow): (r: LabelledRow)
    ensures r.row == d
    ensures '<' !in NormalizeBreaks(d.project) ==>
              Split(NormalizeBreaks(r.wrapped)) == Split(NormalizeBreaks(d.project))
  {
    var raw := NormalizeBreaks(d.project);
    assert '<' !in raw ==> Split(NormalizeBreaks(WrapLabel(raw, DefaultMaxChars))) == Split(raw) by {
      if '<' !in raw {
        WrapLabelRoundTrip(raw, DefaultMaxChars);
      }
    }
    LabelledRow(d, WrapLabel(raw, DefaultMaxChars))
  }

  function LabelAll(table: seq<DesdeRow>): (ls: seq<LabelledRow>)
    ensures |ls| == |table|
    ensures forall i :: 0 <= i < |table| ==> ls[i] == Labelled(table[i])
  {
    seq(|table|, i requires 0 <= i < |table| => Labelled(table[i]))
  }

  /** Row `i` shows a Desde (UF) no larger than any other row's. */
  predicate ShowsLeast(rows: seq<DesdeRow>, shown: real -> real, i: nat)
    requires i < |rows|
  {
    forall j :: 0 <= j < |rows| ==> shown(rows[i].desde) <= shown(rows[j].desde)
  }

  /**
   * The rows whose displayed Desde (UF) equals the smallest displayed one.
   * `shown` is the value the table compares: the price after it has been
   * formatted with two decimals and read back as a number.
   */
  function HighlightRows(rows: seq<DesdeRow>, shown: real -> real): (marks: seq<bool>)
    requires |rows| > 0
    ensures |marks| == |rows|
    ensures forall i :: 0 <= i < |rows| ==> (marks[i] <==> ShowsLeast(rows, shown, i))
    ensures true in marks
  {
    var k := ArgMin(rows, (r: DesdeRow) => shown(r.desde));
    var least := shown(rows[k].desde);
    var marks := seq(|rows|, i requires 0 <= i < |rows| => shown(rows[i].desde) == least);
    assert marks[k];
    marks
  }

  /**
   * With the rows sorted by price and a display rounding that keeps order,
   * the first row is highlighted and the highlighted rows form a prefix:
   * several rows light up only when they tie with the first.
   */
  lemma HighlightedPrefix(rows: seq<DesdeRow>, shown: real -> real, i: nat, j: nat)
    requires |rows| > 0 && SortedBy(rows, DesdePrice)
    requires forall x: real, y: real :: x <= y ==> shown(x) <= shown(y)
    requires j <= i < |rows|
    ensures HighlightRows(rows, shown)[0]
    ensures HighlightRows(rows, shown)[i] ==> HighlightRows(rows, shown)[j]
  {
    var marks := HighlightRows(rows, shown);
    forall t | 0 <= t < |rows| ensures shown(rows[0].desde) <= shown(rows[t].desde) {
      assert DesdePrice(rows[0]) <= DesdePrice(rows[t]);
    }
    if marks[i] {
      forall t | 0 <= t < |rows| ensures shown(rows[j].desde) <= shown(rows[t].desde) {
        assert DesdePrice(rows[j]) <= DesdePrice(rows[i]);
        assert shown(rows[i].desde) <= shown(rows[t].desde);
      }
    }
  }

  /** The "Desde" table as displayed: sorted by Desde (UF), or the placeholder when empty. */
  function TableViewOf(table: seq<DesdeRow>, shown: real -> real): (v: TableView)
    ensures v.Placeholder? <==> |table| == 0
    ensures v.Placeholder? ==> v.message == NoDataMessage
    ensures v.Grid? ==> |v.rows| == |v.highlighted| == |table|
    ensures v.Grid? ==> SortedBy(v.rows, DesdePrice) && multiset(v.rows) == multiset(table)
    ensures v.Grid? ==> forall i :: 0 <= i < |table| ==> (v.highlighted[i] <==> ShowsLeast(v.rows, shown, i))
  {
    var sorted := SortBy(table, DesdePrice);
    assert |sorted| == |multiset(sorted)| == |table|;
    if |sorted| == 0 then Placeholder(NoDataMessage)
    else
      Grid(sorted, HighlightRows(sorted, shown))
  }

  /** One render for the selected COMUNA and TIPOLOGÍA. */
  function Render(data: seq<Listing>, comuna: string, tipologia: string, shown: real -> real): (rep: Report)
    ensures rep.table.Placeholder? <==> rep.chart.None?
    ensures rep.table.Placeholder? <==> forall i :: 0 <= i < |data| ==> !Selected(data[i], comuna, tipologia)
    ensures rep.table.Grid? ==> |rep.table.rows| == |ProjectSet(Filter(data, comuna, tipologia))|
    ensures rep.table.Grid? ==> SortedBy(rep.table.rows, DesdePrice)
    ensures rep.chart.Some? ==> |rep.chart.value.rows| == |rep.table.rows|
    ensures rep.table.Grid? ==> multiset(rep.table.rows) == multiset(Desde(Filter(data, comuna, tipologia)))
    ensures rep.chart.Some? ==> multiset(rep.chart.value.rows) == multiset(LabelAll(Desde(Filter(data, comuna, tipologia))))
  {
    var filtered := Filter(data, comuna, tipologia);
    var desde := Desde(filtered);
    NothingSelected(data, comuna, tipologia);
    DesdeEmpty(filtered);
    DesdeOnePerProject(filtered);
    var view := TableViewOf(desde, shown);
    var labelled := LabelAll(desde);
    var chart := BuildChart(labelled);
    assert view.Placeholder? <==> |desde| == 0;
    assert chart.None? <==> |desde| == 0;
    assert chart.Some? ==> |chart.value.rows| == |desde|;
    assert view.Grid? ==> |view.rows| == |desde|;
    Report(view, chart)
  }

  /** The filter keeps nothing exactly when no row matches both selections. */
  lemma NothingSelected(data: seq<Listing>, comuna: string, tipologia: string)
    ensures |Filter(data, comuna, tipologia)| == 0 <==> forall i :: 0 <= i < |data| ==> !Selected(data[i], comuna, tipologia)
  {
    var filtered := Filter(data, comuna, tipologia);
    if |filtered| > 0 {
      assert filtered[0] in filtered;
    } else {
      forall i | 0 <= i < |data| ensures !Selected(data[i], comuna, tipologia) {
        assert data[i] in data;
      }
    }
  }

  /** The "Desde" table is empty exactly when the filtered rows are. */
  lemma DesdeEmpty(rows: seq<Listing>)
    ensures |Desde(rows)| == 0 <==> |rows| == 0
  {
    if |rows| > 0 {
      assert rows[0].project in ProjectSet(rows);
    }
  }
}
