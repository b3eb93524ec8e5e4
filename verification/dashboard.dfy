/**
 The data logic behind the noise dashboard's callbacks: deriving the
 calendar fields of loaded rows, the day selector's options and their
 reconciliation with the current selection, the maximum-level gauge for a
 selected day, and the month-by-day heatmap of per-day maxima above a
 decibel threshold. Layout, figure construction and callback wiring are not
 modelled; every operation here is a total function of a record snapshot.
 */
module Dashboard {
  import opened Wrappers
  import opened Seqs
  import Text
  import Civil

  /** A loaded CSV row: `time` in epoch seconds and its `db_level`. */
  datatype Row = Row(time: int, level: real)

  /** A snapshot record with the `month` and `day` derived from `time`. */
  datatype Record = Record(time: int, month: int, day: int, level: real)

  /** One entry of the day selector: its `'label'` (here `caption`) and `'value'`. */
  datatype DayOption = DayOption(caption: string, value: int)

  /**
   The heatmap's data: the matrix `z` (rows are months, columns days) and the
   strings written along its x axis (`dayLabels`) and y axis (`monthLabels`).
   */
  datatype Heatmap = Heatmap(z: seq<seq<real>>, dayLabels: seq<string>, monthLabels: seq<string>)

  function DayLabel(d: int): string {
    Text.Label("Day ", d)
  }

  function MonthLabel(m: int): string {
    Text.Label("Month ", m)
  }

  /**
   `month` and `day` are those of the local date of epoch second `time`:
   the record keeps no year, so the year is left open.
   */
  ghost predicate LocalMonthDay(month: int, day: int, time: int) {
    exists y :: Civil.IsLocalDateOf(Civil.Date(y, month, day), time)
  }

  // ---------------------------------------------------------------------
  // Loading: derived calendar fields and day options

  /** The record of a loaded row: month and day of `time` shifted back five hours. */
  function Derive(row: Row): (r: Record)
    ensures r.time == row.time && r.level == row.level
    ensures LocalMonthDay(r.month, r.day, row.time)
  {
    var date := Civil.LocalDate(row.time);
    assert Civil.IsLocalDateOf(Civil.Date(date.year, date.month, date.day), row.time);
    Record(row.time, date.month, date.day, row.level)
  }

  /** Any date whose day contains `time - 5h` has the derived month and day. */
  lemma DeriveUnique(row: Row, e: Civil.Date)
    requires Civil.IsLocalDateOf(e, row.time)
    ensures e.month == Derive(row).month && e.day == Derive(row).day
  {
    Civil.LocalDateUnique(e, Civil.LocalDate(row.time), row.time);
  }

  function Days(rs: seq<Record>): seq<int> {
    seq(|rs|, i requires 0 <= i < |rs| => rs[i].day)
  }

  function Months(rs: seq<Record>): seq<int> {
    seq(|rs|, i requires 0 <= i < |rs| => rs[i].month)
  }

  function Values(options: seq<DayOption>): seq<int> {
    seq(|options|, i requires 0 <= i < |options| => options[i].value)
  }

  function Labels(prefix: string, ns: seq<int>): seq<string> {
    seq(|ns|, i requires 0 <= i < |ns| => Text.Label(prefix, ns[i]))
  }

  /**
   The selector options: one per distinct day of the records, in order of
   first appearance, each labelled "Day <d>".
   */
  function DayOptions(rs: seq<Record>): (r: seq<DayOption>)
    ensures forall i :: 0 <= i < |r| ==> r[i].caption == DayLabel(r[i].value)
    ensures forall d :: d in Values(r) <==> d in Days(rs)
    ensures NoDuplicates(Values(r))
    ensures FirstAppearanceOrder(Values(r), Days(rs))
  {
    var ds := Distinct(Days(rs));
    var r := seq(|ds|, i requires 0 <= i < |ds| => DayOption(DayLabel(ds[i]), ds[i]));
    assert Values(r) == ds;
    r
  }

  /**
   The refresh callback: derives the calendar fields of every loaded row and
   builds the day options from them.
   */
  function RefreshSnapshot(rows: seq<Row>): (r: (seq<Record>, seq<DayOption>))
    ensures |r.0| == |rows|
    ensures forall i :: 0 <= i < |rows| ==> r.0[i] == Derive(rows[i])
    ensures r.1 == DayOptions(r.0)
  {
    var records := seq(|rows|, i requires 0 <= i < |rows| => Derive(rows[i]));
    (records, DayOptions(records))
  }

  /**
   Every record of a refresh keeps its row's time and level and carries the
   month and day of its local date; the options are labelled "Day <d>",
   without repeats, in order of first appearance.
   */
  lemma RefreshSnapshotSpec(rows: seq<Row>)
    ensures forall i :: 0 <= i < |rows| ==>
              && RefreshSnapshot(rows).0[i].time == rows[i].time
              && RefreshSnapshot(rows).0[i].level == rows[i].level
              && LocalMonthDay(RefreshSnapshot(rows).0[i].month, RefreshSnapshot(rows).0[i].day, rows[i].time)
    ensures forall i :: 0 <= i < |RefreshSnapshot(rows).1| ==>
              RefreshSnapshot(rows).1[i].caption == DayLabel(RefreshSnapshot(rows).1[i].value)
    ensures NoDuplicates(Values(RefreshSnapshot(rows).1))
    ensures FirstAppearanceOrder(Values(RefreshSnapshot(rows).1), Days(RefreshSnapshot(rows).0))
  {
  }

  /** The options of a refresh offer exactly the days of the loaded rows. */
  lemma RefreshOptionDays(rows: seq<Row>)
    ensures forall d :: d in Values(RefreshSnapshot(rows).1) <==>
              exists i :: 0 <= i < |rows| && RefreshSnapshot(rows).0[i].day == d
  {
    var records := RefreshSnapshot(rows).0;
    forall d ensures d in Days(records) ==> exists i :: 0 <= i < |rows| && records[i].day == d {
      if d in Days(records) {
        var i :| 0 <= i < |records| && Days(records)[i] == d;
      }
    }
    forall d ensures (exists i :: 0 <= i < |rows| && records[i].day == d) ==> d in Days(records) {
      if i :| 0 <= i < |rows| && records[i].day == d {
        assert Days(records)[i] == d;
      }
    }
  }

  /** Different days get different option labels. */
  lemma DayOptionLabelsDistinct(rs: seq<Record>)
    ensures forall i, j :: 0 <= i < j < |DayOptions(rs)| ==>
              DayOptions(rs)[i].caption != DayOptions(rs)[j].caption
  {
    var r := DayOptions(rs);
    forall i, j | 0 <= i < j < |r|
      ensures r[i].caption != r[j].caption
    {
      assert Values(r)[i] != Values(r)[j];
      if r[i].caption == r[j].caption {
        Text.LabelInjective("Day ", r[i].value, r[j].value);
      }
    }
  }

  // ---------------------------------------------------------------------
  // Day selector

  /**
   The selector callback: keeps the current value when it is one of the
   option values, and otherwise clears the selection.
   */
  function ReconcileSelection(options: seq<DayOption>, current: Option<int>): (r: Option<int>)
    ensures r.Some? ==> r == current && current.value in Values(options)
    ensures current.Some? && current.value in Values(options) ==> r == current
    ensures |options| == 0 ==> r == None
  {
    if |options| == 0 then None
    else if current.Some? && current.value in Values(options) then current
    else None
  }

  /**
   Against the options of a snapshot, a selected day survives exactly when
   some record falls on that day.
   */
  lemma ReconcileKeepsRecordedDays(rs: seq<Record>, d: int)
    ensures ReconcileSelection(DayOptions(rs), Some(d)) == Some(d) <==>
            exists i :: 0 <= i < |rs| && rs[i].day == d
    ensures ReconcileSelection(DayOptions(rs), Some(d)) != Some(d) ==>
            ReconcileSelection(DayOptions(rs), Some(d)) == None
  {
    if exists i :: 0 <= i < |rs| && rs[i].day == d {
      var i :| 0 <= i < |rs| && rs[i].day == d;
      assert Days(rs)[i] == d;
    }
  }

  /** Reconciling an already reconciled selection changes nothing. */
  lemma ReconcileIdempotent(options: seq<DayOption>, current: Option<int>)
    ensures ReconcileSelection(options, ReconcileSelection(options, current)) ==
            ReconcileSelection(options, current)
  {
  }

  // ---------------------------------------------------------------------
  // Maximum of the matching levels, or zero

  // The record predicates below name single field comparisons. Contracts
  // quantifying over records use them instead of bare field accesses, which
  // would act as triggers on every record field in scope.

  /** A record whose level does not exceed `v`. */
  predicate LevelAtMost(rec: Record, v: real) {
    rec.level <= v
  }

  /** A record at or above the decibel threshold. */
  predicate AtOrAbove(rec: Record, threshold: real) {
    rec.level >= threshold
  }

  predicate HasMonth(rec: Record, m: int) {
    rec.month == m
  }

  predicate HasDay(rec: Record, d: int) {
    rec.day == d
  }

  /** A record of the selected day; no record matches an empty selection. */
  predicate OnDay(rec: Record, selected: Option<int>) {
    selected.Some? && rec.day == selected.value
  }

  /** A record counted in the heatmap cell of month `m` and day `d`. */
  predicate InCell(rec: Record, threshold: real, m: int, d: int) {
    AtOrAbove(rec, threshold) && HasMonth(rec, m) && HasDay(rec, d)
  }

  /**
   The records a callback filters on: those of the selected day (the
   gauge), those at or above a threshold (the heatmap's filter), or those
   of one heatmap cell (a group of the heatmap's group-by).
   */
  datatype Group =
    | SelectedDay(selected: Option<int>)
    | Loud(threshold: real)
    | Cell(threshold: real, month: int, day: int)

  predicate InGroup(rec: Record, g: Group) {
    match g
    case SelectedDay(selected) => OnDay(rec, selected)
    case Loud(threshold) => AtOrAbove(rec, threshold)
    case Cell(threshold, m, d) => InCell(rec, threshold, m, d)
  }

  /** The records of `rs` in group `g`, in their original order: a boolean mask. */
  function Select(rs: seq<Record>, g: Group): (r: seq<Record>)
    ensures |r| <= |rs|
    ensures forall rec :: rec in r <==> rec in rs && InGroup(rec, g)
  {
    if |rs| == 0 then []
    else
      var init, last := rs[..|rs| - 1], rs[|rs| - 1];
      assert rs == init + [last];
      var r := Select(init, g);
      if InGroup(last, g) then r + [last] else r
  }

  /** A single record is kept exactly when it is in the group. */
  lemma SelectSingle(rec: Record, g: Group)
    ensures Select([rec], g) == if InGroup(rec, g) then [rec] else []
  {
    assert [rec][..0] == [];
  }

  /**
   A mask keeps order and repeats: selecting from two stretches of records
   one after the other is selecting from each and joining the results.
   With `SelectSingle` this fixes the selection of every sequence.
   */
  lemma {:induction false} SelectAppend(a: seq<Record>, b: seq<Record>, g: Group)
    ensures Select(a + b, g) == Select(a, g) + Select(b, g)
    decreases |b|
  {
    if |b| == 0 {
      assert a + b == a;
    } else {
      var init, last := b[..|b| - 1], b[|b| - 1];
      var kept := if InGroup(last, g) then [last] else [];
      assert Select(b, g) == Select(init, g) + kept;
      assert (a + b)[..|a + b| - 1] == a + init;
      assert Select(a + b, g) == Select(a + init, g) + kept;
      SelectAppend(a, init, g);
    }
  }

  function LevelsOf(rs: seq<Record>): seq<real> {
    seq(|rs|, i requires 0 <= i < |rs| => rs[i].level)
  }

  /**
   The largest `db_level` among the records of group `g`, or 0 when the
   group is empty: a filtered group-by maximum with missing values filled
   by 0.
   */
  function MaxLevelOrZero(rs: seq<Record>, g: Group): (v: real)
    ensures (forall rec :: rec in rs ==> !InGroup(rec, g)) ==> v == 0.0
    ensures forall rec :: rec in rs && InGroup(rec, g) ==> LevelAtMost(rec, v)
    ensures (exists rec :: rec in rs && InGroup(rec, g)) ==>
              exists rec :: rec in rs && InGroup(rec, g) && rec.level == v
  {
    var group := Select(rs, g);
    if |group| == 0 then 0.0
    else
      var levels := LevelsOf(group);
      var m := MaxOf(levels);
      assert forall rec :: rec in group ==> rec.level in levels by {
        forall rec | rec in group ensures rec.level in levels {
          var i :| 0 <= i < |group| && group[i] == rec;
          assert levels[i] == rec.level;
        }
      }
      var k :| 0 <= k < |levels| && levels[k] == m;
      assert group[k] in group;
      m
  }

  // ---------------------------------------------------------------------
  // Gauge

  /**
   The gauge value: the maximum level among the records of the selected
   day, or 0 when there are none.
   */
  function Gauge(rs: seq<Record>, selected: Option<int>): (g: real)
    ensures (forall rec :: rec in rs ==> !OnDay(rec, selected)) ==> g == 0.0
    ensures selected == None ==> g == 0.0
    ensures forall rec :: rec in rs && OnDay(rec, selected) ==> LevelAtMost(rec, g)
    ensures (exists rec :: rec in rs && OnDay(rec, selected)) ==>
              exists rec :: rec in rs && OnDay(rec, selected) && rec.level == g
  {
    MaxLevelOrZero(rs, SelectedDay(selected))
  }

  // ---------------------------------------------------------------------
  // Heatmap

  /** The records at or above the threshold: `df[df.db_level >= threshold]`. */
  function Qualifying(rs: seq<Record>, threshold: real): (q: seq<Record>)
    ensures forall rec :: rec in q <==> rec in rs && AtOrAbove(rec, threshold)
  {
    Select(rs, Loud(threshold))
  }

  /**
   The heatmap's filter keeps the loaded order and repeats: the qualifying
   records of two stretches are those of the first followed by those of
   the second, and one record qualifies exactly when it is loud enough.
   The first-appearance order of `UniqueMonths` and `UniqueDays` is thus
   the order of the loaded records.
   */
  lemma QualifyingAppend(a: seq<Record>, b: seq<Record>, rec: Record, threshold: real)
    ensures Qualifying(a + b, threshold) == Qualifying(a, threshold) + Qualifying(b, threshold)
    ensures Qualifying([rec], threshold) == if AtOrAbove(rec, threshold) then [rec] else []
  {
    SelectAppend(a, b, Loud(threshold));
    SelectSingle(rec, Loud(threshold));
  }

  /**
   One heatmap cell: the maximum level of the qualifying records of month
   `m` and day `d`, or 0 when there are none.
   */
  function CellMax(rs: seq<Record>, threshold: real, m: int, d: int): (v: real)
    ensures (forall rec :: rec in rs ==> !InCell(rec, threshold, m, d)) ==> v == 0.0
    ensures forall rec :: rec in rs && InCell(rec, threshold, m, d) ==> LevelAtMost(rec, v)
    ensures (exists rec :: rec in rs && InCell(rec, threshold, m, d)) ==>
              exists rec :: rec in rs && InCell(rec, threshold, m, d) && rec.level == v
    ensures v == 0.0 || v >= threshold
  {
    MaxLevelOrZero(rs, Cell(threshold, m, d))
  }

  /** The month of some record at or above the threshold. */
  predicate QualifyingMonth(rs: seq<Record>, threshold: real, m: int) {
    exists rec :: rec in rs && AtOrAbove(rec, threshold) && HasMonth(rec, m)
  }

  /** The day of some record at or above the threshold. */
  predicate QualifyingDay(rs: seq<Record>, threshold: real, d: int) {
    exists rec :: rec in rs && AtOrAbove(rec, threshold) && HasDay(rec, d)
  }

  lemma MonthsMembership(q: seq<Record>, m: int)
    ensures m in Months(q) <==> exists rec :: rec in q && HasMonth(rec, m)
  {
    if m in Months(q) {
      var i :| 0 <= i < |q| && Months(q)[i] == m;
      assert q[i] in q;
    }
    if rec :| rec in q && HasMonth(rec, m) {
      var i :| 0 <= i < |q| && q[i] == rec;
      assert Months(q)[i] == m;
    }
  }

  lemma DaysMembership(q: seq<Record>, d: int)
    ensures d in Days(q) <==> exists rec :: rec in q && HasDay(rec, d)
  {
    if d in Days(q) {
      var i :| 0 <= i < |q| && Days(q)[i] == d;
      assert q[i] in q;
    }
    if rec :| rec in q && HasDay(rec, d) {
      var i :| 0 <= i < |q| && q[i] == rec;
      assert Days(q)[i] == d;
    }
  }

  /** The matrix rows: the qualifying months in ascending order, as the pivot's index. */
  function MonthAxis(rs: seq<Record>, threshold: real): (ms: seq<int>)
    ensures StrictlyIncreasing(ms)
    ensures forall m :: m in ms <==> QualifyingMonth(rs, threshold, m)
  {
    var q := Qualifying(rs, threshold);
    forall m ensures m in Months(q) <==> QualifyingMonth(rs, threshold, m) {
      MonthsMembership(q, m);
    }
    SortedDistinct(Months(q))
  }

  /** The matrix columns: the qualifying days in ascending order, as the pivot's columns. */
  function DayAxis(rs: seq<Record>, threshold: real): (ds: seq<int>)
    ensures StrictlyIncreasing(ds)
    ensures forall d :: d in ds <==> QualifyingDay(rs, threshold, d)
  {
    var q := Qualifying(rs, threshold);
    forall d ensures d in Days(q) <==> QualifyingDay(rs, threshold, d) {
      DaysMembership(q, d);
    }
    SortedDistinct(Days(q))
  }

  /**
   The months listed by `unique()` on the qualifying records: each
   qualifying month once, in order of first appearance among them.
   */
  function UniqueMonths(rs: seq<Record>, threshold: real): (ms: seq<int>)
    ensures NoDuplicates(ms)
    ensures forall m :: m in ms <==> QualifyingMonth(rs, threshold, m)
    ensures FirstAppearanceOrder(ms, Months(Qualifying(rs, threshold)))
  {
    var q := Qualifying(rs, threshold);
    forall m ensures m in Months(q) <==> QualifyingMonth(rs, threshold, m) {
      MonthsMembership(q, m);
    }
    Distinct(Months(q))
  }

  /**
   The days listed by `unique()` on the qualifying records: each qualifying
   day once, in order of first appearance among them.
   */
  function UniqueDays(rs: seq<Record>, threshold: real): (ds: seq<int>)
    ensures NoDuplicates(ds)
    ensures forall d :: d in ds <==> QualifyingDay(rs, threshold, d)
    ensures FirstAppearanceOrder(ds, Days(Qualifying(rs, threshold)))
  {
    var q := Qualifying(rs, threshold);
    forall d ensures d in Days(q) <==> QualifyingDay(rs, threshold, d) {
      DaysMembership(q, d);
    }
    Distinct(Days(q))
  }

  /**
   The matrix of cell maxima with one row per month of `ms` and one column
   per day of `ds`, zero where a month and day have no qualifying record.
   */
  function Grid(rs: seq<Record>, threshold: real, ms: seq<int>, ds: seq<int>): seq<seq<real>> {
    seq(|ms|, i requires 0 <= i < |ms| =>
      seq(|ds|, j requires 0 <= j < |ds| => CellMax(rs, threshold, ms[i], ds[j])))
  }

  /** The grid's shape follows the axes, and every entry is 0 or at least the threshold. */
  lemma GridSpec(rs: seq<Record>, threshold: real, ms: seq<int>, ds: seq<int>)
    ensures |Grid(rs, threshold, ms, ds)| == |ms|
    ensures forall i :: 0 <= i < |ms| ==> |Grid(rs, threshold, ms, ds)[i]| == |ds|
    ensures forall i, j :: 0 <= i < |ms| && 0 <= j < |ds| ==>
              Grid(rs, threshold, ms, ds)[i][j] == CellMax(rs, threshold, ms[i], ds[j])
    ensures forall i, j :: 0 <= i < |ms| && 0 <= j < |ds| ==>
              Grid(rs, threshold, ms, ds)[i][j] == 0.0 || Grid(rs, threshold, ms, ds)[i][j] >= threshold
  {
  }

  /**
   The heatmap callback as written: a grid whose rows and columns are the
   qualifying months and days in ascending order, zero-filled where a
   month and day have no qualifying record, labelled with the months and
   days in order of first appearance.
   */
  function HeatmapOf(rs: seq<Record>, threshold: real): Heatmap {
    var ms, ds := MonthAxis(rs, threshold), DayAxis(rs, threshold);
    Heatmap(Grid(rs, threshold, ms, ds), Labels("Day ", UniqueDays(rs, threshold)),
            Labels("Month ", UniqueMonths(rs, threshold)))
  }

  /**
   The as-written heatmap's matrix runs over the ascending axes, and there
   are as many labels as rows and columns.
   */
  lemma HeatmapOfSpec(rs: seq<Record>, threshold: real)
    ensures |HeatmapOf(rs, threshold).z| == |MonthAxis(rs, threshold)|
    ensures forall i :: 0 <= i < |MonthAxis(rs, threshold)| ==>
              |HeatmapOf(rs, threshold).z[i]| == |DayAxis(rs, threshold)|
    ensures forall i, j :: 0 <= i < |MonthAxis(rs, threshold)| && 0 <= j < |DayAxis(rs, threshold)| ==>
              HeatmapOf(rs, threshold).z[i][j] ==
              CellMax(rs, threshold, MonthAxis(rs, threshold)[i], DayAxis(rs, threshold)[j])
    ensures |HeatmapOf(rs, threshold).monthLabels| == |MonthAxis(rs, threshold)|
    ensures |HeatmapOf(rs, threshold).dayLabels| == |DayAxis(rs, threshold)|
  {
    GridSpec(rs, threshold, MonthAxis(rs, threshold), DayAxis(rs, threshold));
    AxesAsLongAsUniques(rs, threshold);
  }

  /**
   The as-written heatmap's labels name exactly the qualifying months and
   days, and no two rows, and no two columns, share a label.
   */
  lemma HeatmapLabelsSpec(rs: seq<Record>, threshold: real)
    ensures forall m :: MonthLabel(m) in HeatmapOf(rs, threshold).monthLabels <==> QualifyingMonth(rs, threshold, m)
    ensures forall d :: DayLabel(d) in HeatmapOf(rs, threshold).dayLabels <==> QualifyingDay(rs, threshold, d)
    ensures NoDuplicates(HeatmapOf(rs, threshold).monthLabels)
    ensures NoDuplicates(HeatmapOf(rs, threshold).dayLabels)
  {
    var um, ud := UniqueMonths(rs, threshold), UniqueDays(rs, threshold);
    LabelsMembership("Month ", um);
    LabelsMembership("Day ", ud);
    LabelsNoDuplicates("Month ", um);
    LabelsNoDuplicates("Day ", ud);
  }

  /**
   The sorted axes and the first-appearance lists hold the same values, so
   there are as many labels as rows and columns.
   */
  lemma AxesAsLongAsUniques(rs: seq<Record>, threshold: real)
    ensures |MonthAxis(rs, threshold)| == |UniqueMonths(rs, threshold)|
    ensures |DayAxis(rs, threshold)| == |UniqueDays(rs, threshold)|
  {
    SortedAsLongAsDistinct(MonthAxis(rs, threshold), UniqueMonths(rs, threshold));
    SortedAsLongAsDistinct(DayAxis(rs, threshold), UniqueDays(rs, threshold));
  }

  /** A label of the list names exactly the numbers of the list. */
  lemma LabelsMembership(prefix: string, ns: seq<int>)
    ensures forall n :: Text.Label(prefix, n) in Labels(prefix, ns) <==> n in ns
  {
    forall n ensures Text.Label(prefix, n) in Labels(prefix, ns) <==> n in ns {
      if Text.Label(prefix, n) in Labels(prefix, ns) {
        var i :| 0 <= i < |ns| && Labels(prefix, ns)[i] == Text.Label(prefix, n);
        Text.LabelInjective(prefix, ns[i], n);
      }
      if n in ns {
        var i :| 0 <= i < |ns| && ns[i] == n;
        assert Labels(prefix, ns)[i] == Text.Label(prefix, n);
      }
    }
  }

  /** Distinct numbers get distinct labels. */
  lemma LabelsNoDuplicates(prefix: string, ns: seq<int>)
    requires NoDuplicates(ns)
    ensures NoDuplicates(Labels(prefix, ns))
  {
    var ls := Labels(prefix, ns);
    forall i, j | 0 <= i < j < |ls|
      ensures ls[i] != ls[j]
    {
      if ls[i] == ls[j] {
        Text.LabelInjective(prefix, ns[i], ns[j]);
      }
    }
  }

  // ---------------------------------------------------------------------
  // Label alignment

  /**
   Every cell sits under the labels of its own month and day: whenever the
   row label names month `m` and the column label names day `d`, the cell
   holds the maximum for `m` and `d`.
   */
  ghost predicate LabelsMatchCells(rs: seq<Record>, threshold: real, h: Heatmap) {
    forall i, j, m, d ::
      0 <= i < |h.z| && i < |h.monthLabels| && 0 <= j < |h.z[i]| && j < |h.dayLabels| &&
      h.monthLabels[i] == MonthLabel(m) && h.dayLabels[j] == DayLabel(d) ==>
      h.z[i][j] == CellMax(rs, threshold, m, d)
  }

  /**
   The heatmap with its labels taken from the sorted axes the matrix is
   built on: the same matrix and the same label sets as `HeatmapOf`, but
   each label names the month or day of its own row or column.
   */
  function AlignedHeatmap(rs: seq<Record>, threshold: real): Heatmap {
    var ms, ds := MonthAxis(rs, threshold), DayAxis(rs, threshold);
    Heatmap(Grid(rs, threshold, ms, ds), Labels("Day ", ds), Labels("Month ", ms))
  }

  /**
   The aligned heatmap keeps the as-written matrix, and its labels name
   exactly the qualifying months and days.
   */
  lemma AlignedHeatmapSpec(rs: seq<Record>, threshold: real)
    ensures AlignedHeatmap(rs, threshold).z == HeatmapOf(rs, threshold).z
    ensures forall m :: MonthLabel(m) in AlignedHeatmap(rs, threshold).monthLabels <==> QualifyingMonth(rs, threshold, m)
    ensures forall d :: DayLabel(d) in AlignedHeatmap(rs, threshold).dayLabels <==> QualifyingDay(rs, threshold, d)
  {
    LabelsMembership("Month ", MonthAxis(rs, threshold));
    LabelsMembership("Day ", DayAxis(rs, threshold));
  }

  /** Every cell of the aligned heatmap lies under the labels of its own month and day. */
  lemma AlignedHeatmapAligned(rs: seq<Record>, threshold: real)
    ensures LabelsMatchCells(rs, threshold, AlignedHeatmap(rs, threshold))
  {
    var ms, ds := MonthAxis(rs, threshold), DayAxis(rs, threshold);
    var h := AlignedHeatmap(rs, threshold);
    GridSpec(rs, threshold, ms, ds);
    forall i, j, m, d |
      0 <= i < |h.z| && i < |h.monthLabels| && 0 <= j < |h.z[i]| && j < |h.dayLabels| &&
      h.monthLabels[i] == MonthLabel(m) && h.dayLabels[j] == DayLabel(d)
      ensures h.z[i][j] == CellMax(rs, threshold, m, d)
    {
      Text.LabelInjective("Month ", ms[i], m);
      Text.LabelInjective("Day ", ds[j], d);
    }
  }

  /**
   The as-written heatmap mislabels its cells whenever two qualifying
   records cross: the first has the earlier month but the later day (May
   31st and June 1st, say). The labels then list the first record's day
   first, while the sorted columns start with the second record's day, so
   the cell holding the second record's level sits under the first
   record's day label.
   */
  lemma HeatmapLabelsMisaligned(a: Record, b: Record, threshold: real)
    requires threshold > 0.0
    requires AtOrAbove(a, threshold) && AtOrAbove(b, threshold)
    requires a.month < b.month && b.day < a.day
    ensures !LabelsMatchCells([a, b], threshold, HeatmapOf([a, b], threshold))
  {
    var rs := [a, b];
    var h := HeatmapOf(rs, threshold);
    CrossingAxes(a, b, threshold);
    assert h.monthLabels[1] == MonthLabel(b.month);
    assert h.dayLabels[0] == DayLabel(a.day);
    CrossingCells(a, b, threshold);
    assert h.z[1][0] == CellMax(rs, threshold, b.month, b.day);
    MisalignedCell(rs, threshold, h, 1, 0, b.month, a.day);
  }

  /** One cell under labels that do not describe it refutes the alignment. */
  lemma MisalignedCell(rs: seq<Record>, threshold: real, h: Heatmap, i: int, j: int, m: int, d: int)
    requires 0 <= i < |h.z| && i < |h.monthLabels| && 0 <= j < |h.z[i]| && j < |h.dayLabels|
    requires h.monthLabels[i] == MonthLabel(m) && h.dayLabels[j] == DayLabel(d)
    requires h.z[i][j] != CellMax(rs, threshold, m, d)
    ensures !LabelsMatchCells(rs, threshold, h)
  {
  }

  /**
   The second record's own cell holds its level; the cell of its month
   and the first record's day is empty.
   */
  lemma CrossingCells(a: Record, b: Record, threshold: real)
    requires threshold > 0.0
    requires AtOrAbove(a, threshold) && AtOrAbove(b, threshold)
    requires a.month < b.month && b.day < a.day
    ensures CellMax([a, b], threshold, b.month, b.day) != 0.0
    ensures CellMax([a, b], threshold, b.month, a.day) == 0.0
  {
    var rs := [a, b];
    assert rs[1] in rs && InCell(rs[1], threshold, b.month, b.day);
    assert forall rec :: rec in rs ==> rec == a || rec == b;
  }

  /**
   Both records qualify, so the first-appearance lists follow the records
   while the sorted axes put the second record's day first.
   */
  lemma CrossingAxes(a: Record, b: Record, threshold: real)
    requires AtOrAbove(a, threshold) && AtOrAbove(b, threshold)
    requires a.month < b.month && b.day < a.day
    ensures UniqueDays([a, b], threshold) == [a.day, b.day]
    ensures UniqueMonths([a, b], threshold) == [a.month, b.month]
    ensures DayAxis([a, b], threshold) == [b.day, a.day]
    ensures MonthAxis([a, b], threshold) == [a.month, b.month]
  {
    BothQualify(a, b, threshold);
    CrossingDays(a, b, threshold);
    CrossingMonths(a, b, threshold);
  }

  lemma CrossingDays(a: Record, b: Record, threshold: real)
    requires Qualifying([a, b], threshold) == [a, b]
    requires b.day < a.day
    ensures UniqueDays([a, b], threshold) == [a.day, b.day]
    ensures DayAxis([a, b], threshold) == [b.day, a.day]
  {
    assert Days([a, b]) == [a.day, b.day];
    DistinctPair(a.day, b.day);
    SortedDistinctUnique([a.day, b.day], [b.day, a.day]);
  }

  lemma CrossingMonths(a: Record, b: Record, threshold: real)
    requires Qualifying([a, b], threshold) == [a, b]
    requires a.month < b.month
    ensures UniqueMonths([a, b], threshold) == [a.month, b.month]
    ensures MonthAxis([a, b], threshold) == [a.month, b.month]
  {
    assert Months([a, b]) == [a.month, b.month];
    DistinctPair(a.month, b.month);
    SortedDistinctUnique([a.month, b.month], [a.month, b.month]);
  }

  lemma BothQualify(a: Record, b: Record, threshold: real)
    requires AtOrAbove(a, threshold) && AtOrAbove(b, threshold)
    ensures Qualifying([a, b], threshold) == [a, b]
  {
    assert [a, b][..1] == [a];
    assert [a][..0] == [];
  }

  lemma DistinctPair(x: int, y: int)
    requires x != y
    ensures Distinct([x, y]) == [x, y]
  {
    assert [x, y][..1] == [x];
    assert Distinct([x]) == [x];
  }
}
