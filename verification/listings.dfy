/**
 * The unit listings of the spreadsheet, the district/typology filter and
 * the per-project "Desde" (starting price) table built with
 * `groupby("PROYECTO")["Real"].idxmin()`.
 */
module Listings {
  import opened Order

  /** One spreadsheet row: INMOBILIARIA, PROYECTO, N°, COMUNA, TIPOLOGÍA, SUP TOTAL (M2), UF/M2, Real. */
  datatype Listing = Listing(
    developer: string,
    project: string,
    unit: string,
    district: string,
    typology: string,
    area: real,
    ufPerM2: real,
    price: real)

  /** One row of the "Desde" table: INMOBILIARIA, PROYECTO, Dpto, SUP TOTAL (M2), UF/M2, Desde (UF). */
  datatype DesdeRow = DesdeRow(
    developer: string,
    project: string,
    dpto: string,
    area: real,
    ufPerM2: real,
    desde: real)

  /** The column selection and the renaming `N°` to `Dpto`, `Real` to `Desde (UF)`. */
  function AsDesde(x: Listing): DesdeRow {
    DesdeRow(x.developer, x.project, x.unit, x.area, x.ufPerM2, x.price)
  }

  predicate Selected(x: Listing, comuna: string, tipologia: string) {
    x.district == comuna && x.typology == tipologia
  }

  /** The boolean-mask filter on COMUNA and TIPOLOGÍA (exact, case-sensitive equality). */
  function Filter(rows: seq<Listing>, comuna: string, tipologia: string): (kept: seq<Listing>)
    ensures |kept| <= |rows|
    ensures forall x :: x in kept <==> x in rows && Selected(x, comuna, tipologia)
  {
    if |rows| == 0 then []
    else (if Selected(rows[0], comuna, tipologia) then [rows[0]] else []) + Filter(rows[1..], comuna, tipologia)
  }

  /** Filtering works row by row: it distributes over concatenation, so it keeps the original order. */
  lemma {:induction false} FilterConcat(a: seq<Listing>, b: seq<Listing>, comuna: string, tipologia: string)
    ensures Filter(a + b, comuna, tipologia) == Filter(a, comuna, tipologia) + Filter(b, comuna, tipologia)
  {
    if |a| > 0 {
      assert (a + b)[0] == a[0] && (a + b)[1..] == a[1..] + b;
      FilterConcat(a[1..], b, comuna, tipologia);
    } else {
      assert a + b == b;
    }
  }

  /** A selected row is kept as many times as it occurs; any other row not at all. */
  lemma {:induction false} FilterMultiplicity(rows: seq<Listing>, comuna: string, tipologia: string, x: Listing)
    ensures multiset(Filter(rows, comuna, tipologia))[x] ==
            if Selected(x, comuna, tipologia) then multiset(rows)[x] else 0
  {
    if |rows| > 0 {
      FilterMultiplicity(rows[1..], comuna, tipologia, x);
      assert rows == [rows[0]] + rows[1..];
    }
  }

  /** The distinct PROYECTO values of a table. */
  function ProjectSet(rows: seq<Listing>): set<string> {
    set i | 0 <= i < |rows| :: rows[i].project
  }

  /** Row `i` is what `idxmin` picks for its project: a minimum Real, and the first such row. */
  predicate IsFirstMin(rows: seq<Listing>, i: int) {
    && 0 <= i < |rows|
    && forall j :: 0 <= j < |rows| && rows[j].project == rows[i].project ==>
         rows[i].price <= rows[j].price && (j < i ==> rows[i].price < rows[j].price)
  }

  /** Each project has only one row that `idxmin` can pick. */
  lemma FirstMinUnique(rows: seq<Listing>, i: int, j: int)
    requires IsFirstMin(rows, i) && IsFirstMin(rows, j)
    requires rows[i].project == rows[j].project
    ensures i == j
  {
  }

  /** `idxmin` over the Real values of the rows of project `p`. */
  function FirstMinIndex(rows: seq<Listing>, p: string): (k: nat)
    requires p in ProjectSet(rows)
    ensures k < |rows| && rows[k].project == p
    ensures IsFirstMin(rows, k)
    decreases |rows|
  {
    var n := |rows| - 1;
    var init := rows[..n];
    if p !in ProjectSet(init) then
      assert forall j :: 0 <= j < n ==> rows[j].project != p by {
        forall j | 0 <= j < n ensures rows[j].project != p {
          assert init[j] == rows[j];
        }
      }
      n
    else
      var k := FirstMinIndex(init, p);
      assert forall j :: 0 <= j < n ==> init[j] == rows[j];
      if rows[n].project == p && rows[n].price < rows[k].price then n else k
  }

  /** Insert a group key into the strictly increasing list of keys seen so far. */
  function InsertKey(p: string, keys: seq<string>): (r: seq<string>)
    requires StrictlyIncreasing(keys)
    ensures StrictlyIncreasing(r)
    ensures forall q :: q in r <==> q in keys || q == p
  {
    if |keys| == 0 then [p]
    else if p == keys[0] then keys
    else if LexLess(p, keys[0]) then
      assert forall j :: 0 <= j < |keys| ==> LexLess(p, keys[j]) by {
        forall j | 0 < j < |keys| ensures LexLess(p, keys[j]) {
          LexLessTransitive(p, keys[0], keys[j]);
        }
      }
      [p] + keys
    else
      LexLessTotal(p, keys[0]);
      var tail := InsertKey(p, keys[1..]);
      assert forall q :: q in tail ==> LexLess(keys[0], q) by {
        forall q | q in tail ensures LexLess(keys[0], q) {
          if q != p {
            var j :| 0 <= j < |keys[1..]| && keys[1..][j] == q;
            assert keys[j + 1] == q;
          }
        }
      }
      assert keys == [keys[0]] + keys[1..];
      [keys[0]] + tail
  }

  /** The group keys of `groupby("PROYECTO")`: every distinct project once, in ascending order. */
  function GroupKeys(rows: seq<Listing>): (keys: seq<string>)
    ensures StrictlyIncreasing(keys)
    ensures forall q :: q in keys <==> q in ProjectSet(rows)
  {
    if |rows| == 0 then []
    else
      var keys := InsertKey(rows[0].project, GroupKeys(rows[1..]));
      assert ProjectSet(rows) == {rows[0].project} + ProjectSet(rows[1..]) by {
        forall q | q in ProjectSet(rows) ensures q in {rows[0].project} + ProjectSet(rows[1..]) {
          var i :| 0 <= i < |rows| && rows[i].project == q;
          if i > 0 {
            assert rows[1..][i - 1] == rows[i];
          }
        }
        forall q | q in ProjectSet(rows[1..]) ensures q in ProjectSet(rows) {
          var i :| 0 <= i < |rows[1..]| && rows[1..][i].project == q;
          assert rows[i + 1] == rows[1..][i];
        }
      }
      keys
  }

  /**
   * `groupby("PROYECTO")["Real"].idxmin()`: for each project, in ascending
   * project order, the index of its first row of minimum Real.
   */
  function IdxMin(rows: seq<Listing>): (idx: seq<nat>)
    ensures forall k :: 0 <= k < |idx| ==> idx[k] < |rows| && IsFirstMin(rows, idx[k])
    ensures forall j, k :: 0 <= j < k < |idx| ==> LexLess(rows[idx[j]].project, rows[idx[k]].project)
    ensures forall p :: p in ProjectSet(rows) ==> HasIndexFor(rows, idx, p)
  {
    var keys := GroupKeys(rows);
    var idx := seq(|keys|, k requires 0 <= k < |keys| => FirstMinIndex(rows, keys[k]));
    forall p | p in ProjectSet(rows) ensures HasIndexFor(rows, idx, p) {
      var k :| 0 <= k < |keys| && keys[k] == p;
      assert rows[idx[k]].project == keys[k];
    }
    idx
  }

  /** Some selected index points at a row of project `p`. */
  predicate HasIndexFor(rows: seq<Listing>, idx: seq<nat>, p: string) {
    exists k :: 0 <= k < |idx| && idx[k] < |rows| && rows[idx[k]].project == p
  }

  /** Some row of the table belongs to project `p`. */
  predicate HasRowFor(table: seq<DesdeRow>, p: string) {
    exists k :: 0 <= k < |table| && table[k].project == p
  }

  /** `d` is the renamed copy of the row `idxmin` picks for its project. */
  predicate PickedFrom(rows: seq<Listing>, d: DesdeRow) {
    exists i :: 0 <= i < |rows| && IsFirstMin(rows, i) && d == AsDesde(rows[i])
  }

  /** The "Desde" table: one row per project, its cheapest unit; empty when no row passed the filter. */
  function Desde(rows: seq<Listing>): (table: seq<DesdeRow>)
    ensures |rows| == 0 ==> table == []
    ensures forall k :: 0 <= k < |table| ==> PickedFrom(rows, table[k])
    ensures forall j, k :: 0 <= j < k < |table| ==> LexLess(table[j].project, table[k].project)
    ensures forall p :: p in ProjectSet(rows) ==> HasRowFor(table, p)
  {
    if |rows| == 0 then []
    else
      var idx := IdxMin(rows);
      var table := seq(|idx|, k requires 0 <= k < |idx| => AsDesde(rows[idx[k]]));
      SelectedRows(rows, idx, table);
      table
  }

  /** The `.loc` selection by the indices of `IdxMin` keeps their properties. */
  lemma SelectedRows(rows: seq<Listing>, idx: seq<nat>, table: seq<DesdeRow>)
    requires forall k :: 0 <= k < |idx| ==> idx[k] < |rows| && IsFirstMin(rows, idx[k])
    requires forall j, k :: 0 <= j < k < |idx| ==> LexLess(rows[idx[j]].project, rows[idx[k]].project)
    requires forall p :: p in ProjectSet(rows) ==> HasIndexFor(rows, idx, p)
    requires |table| == |idx| && forall k :: 0 <= k < |idx| ==> table[k] == AsDesde(rows[idx[k]])
    ensures forall k :: 0 <= k < |table| ==> PickedFrom(rows, table[k])
    ensures forall j, k :: 0 <= j < k < |table| ==> LexLess(table[j].project, table[k].project)
    ensures forall p :: p in ProjectSet(rows) ==> HasRowFor(table, p)
  {
    forall k | 0 <= k < |table| ensures PickedFrom(rows, table[k]) {
      assert IsFirstMin(rows, idx[k]) && table[k] == AsDesde(rows[idx[k]]);
    }
    forall p | p in ProjectSet(rows) ensures HasRowFor(table, p) {
      var k :| 0 <= k < |idx| && idx[k] < |rows| && rows[idx[k]].project == p;
      assert table[k].project == p;
    }
  }

  /** The projects of a table column, in table order. */
  function Projects(table: seq<DesdeRow>): seq<string> {
    seq(|table|, k requires 0 <= k < |table| => table[k].project)
  }

  lemma {:induction false} DistinctCard(s: seq<string>)
    requires forall i, j :: 0 <= i < j < |s| ==> s[i] != s[j]
    ensures |set x | x in s| == |s|
  {
    if |s| > 0 {
      DistinctCard(s[1..]);
      assert (set x | x in s) == {s[0]} + (set x | x in s[1..]);
      assert s[0] !in s[1..];
    }
  }

  /** The "Desde" table has exactly one row per distinct project of the filtered rows. */
  lemma DesdeOnePerProject(rows: seq<Listing>)
    ensures |Desde(rows)| == |ProjectSet(rows)|
  {
    var table := Desde(rows);
    var ps := Projects(table);
    DistinctProjects(table);
    DistinctCard(ps);
    SameProjects(rows, table);
  }

  lemma DistinctProjects(table: seq<DesdeRow>)
    requires forall j, k :: 0 <= j < k < |table| ==> LexLess(table[j].project, table[k].project)
    ensures forall i, j :: 0 <= i < j < |Projects(table)| ==> Projects(table)[i] != Projects(table)[j]
  {
    forall i, j | 0 <= i < j < |table| ensures table[i].project != table[j].project {
      LexLessIrreflexive(table[i].project);
    }
  }

  lemma SameProjects(rows: seq<Listing>, table: seq<DesdeRow>)
    requires forall k :: 0 <= k < |table| ==> PickedFrom(rows, table[k])
    requires forall p :: p in ProjectSet(rows) ==> HasRowFor(table, p)
    ensures (set x | x in Projects(table)) == ProjectSet(rows)
  {
    var ps := Projects(table);
    forall x | x in ps ensures x in ProjectSet(rows) {
      var k :| 0 <= k < |ps| && ps[k] == x;
      assert PickedFrom(rows, table[k]);
      var i :| 0 <= i < |rows| && IsFirstMin(rows, i) && table[k] == AsDesde(rows[i]);
      assert rows[i].project == x;
    }
    forall x | x in ProjectSet(rows) ensures x in ps {
      var k :| 0 <= k < |table| && table[k].project == x;
      assert ps[k] == x;
    }
  }

  /**
   * A "Desde" row picked by `idxmin` carries the minimum Real of its
   * project; with the contract of `Desde`, every row of the table does.
   */
  lemma PickedIsMinimum(rows: seq<Listing>, d: DesdeRow, i: nat)
    requires PickedFrom(rows, d)
    requires i < |rows| && rows[i].project == d.project
    ensures d.desde <= rows[i].price
  {
    var m :| 0 <= m < |rows| && IsFirstMin(rows, m) && d == AsDesde(rows[m]);
    assert rows[m].project == rows[i].project;
  }
}
