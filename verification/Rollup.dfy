/**
 * The aggregation behind the weekly and monthly recaps, as functions of the
 * rows read from a sheet. Each recap groups the rows by the id in column 0,
 * keeps the groups' keys in the order a JavaScript object would list them
 * (first appearance), counts the rows of every id, drops the ids with too
 * few rows, and turns each remaining group into a nine-cell summary row.
 */
module Rollup {
  import opened Js
  import opened Upsert

  /** `row._rawData[k]`, with a missing cell read as the empty text. */
  function Cell(row: Row, k: nat): string {
    if k < |row| then row[k] else ""
  }

  /** No text occurs twice. */
  predicate Distinct(s: seq<string>) {
    forall i, j :: 0 <= i < j < |s| ==> s[i] != s[j]
  }

  /** Object key order after assigning `id`: a new key goes last. */
  function Note(order: seq<string>, id: string): seq<string> {
    if id in order then order else order + [id]
  }

  /** Noting an id adds exactly that id to the order, and keeps it free of repeats. */
  lemma NoteKeys(order: seq<string>, id: string)
    ensures forall y :: y in Note(order, id) <==> y in order || y == id
    ensures Distinct(order) ==> Distinct(Note(order, id))
  {
  }

  /** The state of the grouping: `summary`, `counter` and the key order they share. */
  datatype Tally<V> = Tally(summary: map<string, V>, counter: map<string, nat>, order: seq<string>)

  /** The groups and the counters cover the same ids, and `order` lists exactly those ids. */
  ghost predicate Coherent<V>(t: Tally<V>) {
    && t.summary.Keys == t.counter.Keys
    && (forall x :: x in t.summary <==> x in t.order)
  }

  /**
   * The groups that survive `if (counter[id] < min) delete summary[id]`,
   * applied to the ids in `ids`.
   */
  function Prune<V>(summary: map<string, V>, counter: map<string, nat>, min: nat, ids: set<string>): map<string, V> {
    map x | x in summary && !(x in ids && x in counter && counter[x] < min) :: summary[x]
  }

  /** `Object.entries` of a map whose keys were added in `order`. */
  function Values<V>(order: seq<string>, m: map<string, V>): seq<(string, V)>
    decreases |order|
  {
    if order == [] then []
    else
      var x := order[|order| - 1];
      Values(order[..|order| - 1], m) + (if x in m then [(x, m[x])] else [])
  }

  /**
   * The entries are the keys of `order` that the map holds, each with its
   * value, once each when `order` has no repeats; an empty map has none.
   */
  lemma {:induction false} ValuesEntries<V>(order: seq<string>, m: map<string, V>)
    ensures var r := Values(order, m);
      && (forall k :: 0 <= k < |r| ==> r[k].0 in m && r[k].0 in order && r[k].1 == m[r[k].0])
      && (forall x :: x in order && x in m ==> exists k :: 0 <= k < |r| && r[k].0 == x)
      && (Distinct(order) ==> forall i, j :: 0 <= i < j < |r| ==> r[i].0 != r[j].0)
      && (m == map[] ==> r == [])
    decreases |order|
  {
    if order != [] {
      var init := order[..|order| - 1];
      var x := order[|order| - 1];
      ValuesEntries(init, m);
      assert forall y :: y in order <==> y in init || y == x;
      assert Distinct(order) ==> Distinct(init) && x !in init;
      var prev := Values(init, m);
      var r := Values(order, m);
      assert r == prev + (if x in m then [(x, m[x])] else []);
      assert forall k :: 0 <= k < |prev| ==> r[k] == prev[k];
      assert x in m ==> |r| == |prev| + 1 && r[|r| - 1] == (x, m[x]);
      assert x !in m ==> r == prev;
      forall y | y in order && y in m
        ensures exists k :: 0 <= k < |r| && r[k].0 == y
      {
        if y in init {
          var k :| 0 <= k < |prev| && prev[k].0 == y;
          assert r[k].0 == y;
        } else {
          assert r[|r| - 1].0 == y;
        }
      }
    }
  }

  /** Listing one more key adds its entry at the end, if the map holds it. */
  lemma ValuesStep<V>(order: seq<string>, k: nat, m: map<string, V>)
    requires k < |order|
    ensures Values(order[..k + 1], m)
            == Values(order[..k], m) + (if order[k] in m then [(order[k], m[order[k]])] else [])
  {
    assert order[..k + 1][..k] == order[..k];
  }

  /** Some entry of `kept` has the key `id`. */
  predicate Lists<V>(kept: seq<(string, V)>, id: string) {
    exists k :: 0 <= k < |kept| && kept[k].0 == id
  }

  /** An id has an entry once pruning is done exactly when it has a group whose counter reached `min`. */
  lemma KeptIds<V>(t: Tally<V>, min: nat, id: string)
    requires Coherent(t)
    ensures var kept := Values(t.order, Prune(t.summary, t.counter, min, t.summary.Keys));
      Lists(kept, id) <==> id in t.summary && t.counter[id] >= min
  {
    ValuesEntries(t.order, Prune(t.summary, t.counter, min, t.summary.Keys));
  }

  /** What one summary reports, before it becomes a row. */
  datatype Summary = Summary(id: string, nama: string, jabatan: string, masuk: Number, terlambat: Number,
                             lembur: Number, tidakMasuk: Number, persentase: string)

  /**
   * `((hadir / totalHariKerja) * 100).toFixed(2) + '%'`, as a parameter:
   * floating-point formatting is outside the model.
   */
  type Percent = (Number, Number) -> string

  /**
   * The upsert entry of a summary: columns 1 to 8 are nama, jabatan, the
   * run's `tanggal`, the four counts as `String(n)`, and the percentage.
   */
  function SummaryEntry(s: Summary, tanggal: string): (e: Entry)
    ensures WellFormed(e) && e.id == s.id
    ensures e.cells[0] == s.nama && e.cells[1] == s.jabatan && e.cells[2] == tanggal && e.cells[7] == s.persentase
    ensures ParseNumber(e.cells[3]) == s.masuk && ParseNumber(e.cells[4]) == s.terlambat
    ensures ParseNumber(e.cells[5]) == s.lembur && ParseNumber(e.cells[6]) == s.tidakMasuk
  {
    var masuk, terlambat := CountText(s.masuk), CountText(s.terlambat);
    var lembur, tidakMasuk := CountText(s.lembur), CountText(s.tidakMasuk);
    var cells := [s.nama, s.jabatan, tanggal, masuk, terlambat, lembur, tidakMasuk, s.persentase];
    assert cells[3] == masuk && cells[4] == terlambat && cells[5] == lembur && cells[6] == tidakMasuk;
    assert ParseNumber(cells[3]) == s.masuk && ParseNumber(cells[4]) == s.terlambat;
    assert ParseNumber(cells[5]) == s.lembur && ParseNumber(cells[6]) == s.tidakMasuk;
    Entry(s.id, cells)
  }

  /** `String(n)` of a count, which reads back as the count. */
  function CountText(n: Number): (t: string)
    ensures ParseNumber(t) == n
  {
    NumberRoundTrip(n);
    NumberToString(n)
  }

  function Entries(ss: seq<Summary>, tanggal: string): (es: seq<Entry>)
    ensures |es| == |ss| && AllWellFormed(es)
    ensures forall k :: 0 <= k < |es| ==> es[k].id == ss[k].id
  {
    seq(|ss|, k requires 0 <= k < |ss| => SummaryEntry(ss[k], tanggal))
  }

  // =====================================================================
  // Weekly recap: one row per attendance record in the daily sheet

  const WeeklyMinRows := 5

  /** The group of one id in the weekly recap. */
  datatype WeekAcc = WeekAcc(nama: string, jabatan: string, masuk: nat, terlambat: nat, lembur: nat,
                             hadirTanggal: set<string>)

  /** A daily row whose `waktu` cell exists; `waktu.split` throws on any other. */
  predicate Readable(row: Row) {
    |row| >= 4
  }

  predicate AllReadable(rows: seq<Row>) {
    forall j :: 0 <= j < |rows| ==> Readable(rows[j])
  }

  /** `waktu.split(' ')[0]`: the date part of a time stamp. */
  function DatePart(waktu: string): string {
    Split(waktu, ' ')[0]
  }

  /** `(row._rawData[4] || '').toLowerCase()`. */
  function StatusOf(row: Row): string {
    Lower(Cell(row, 4))
  }

  /** The statuses that mark the day as attended. */
  predicate Attended(status: string) {
    status == "masuk" || status == "terlambat"
  }

  /** What one daily row adds to its group. */
  function CountDaily(acc: WeekAcc, row: Row): (r: WeekAcc)
    requires Readable(row)
    ensures r.nama == acc.nama && r.jabatan == acc.jabatan
    ensures r.masuk == acc.masuk + (if StatusOf(row) == "masuk" then 1 else 0)
    ensures r.terlambat == acc.terlambat + (if StatusOf(row) == "terlambat" then 1 else 0)
    ensures r.lembur == acc.lembur + (if StatusOf(row) == "lembur" then 1 else 0)
    ensures r.masuk + r.terlambat + r.lembur
            == acc.masuk + acc.terlambat + acc.lembur + (if StatusOf(row) in {"masuk", "terlambat", "lembur"} then 1 else 0)
    ensures acc.hadirTanggal <= r.hadirTanggal <= acc.hadirTanggal + {DatePart(row[3])}
    ensures r.hadirTanggal != acc.hadirTanggal ==> Attended(StatusOf(row))
  {
    var status := StatusOf(row);
    acc.(masuk := acc.masuk + (if status == "masuk" then 1 else 0),
         terlambat := acc.terlambat + (if status == "terlambat" then 1 else 0),
         lembur := acc.lembur + (if status == "lembur" then 1 else 0),
         hadirTanggal := if Attended(status) then acc.hadirTanggal + {DatePart(row[3])} else acc.hadirTanggal)
  }

  /**
   * One call of the `forEach` callback on a daily row: a new id gets a
   * group made from this row and a zero counter; then the row is counted.
   */
  function TallyDaily(t: Tally<WeekAcc>, row: Row): Tally<WeekAcc>
    requires Readable(row) && Coherent(t)
  {
    var id := row[0];
    var isNew := id !in t.summary;
    var summary := if isNew then t.summary[id := WeekAcc(row[1], row[2], 0, 0, 0, {})] else t.summary;
    var counter := if isNew then t.counter[id := 0] else t.counter;
    Tally(summary[id := CountDaily(summary[id], row)], counter[id := counter[id] + 1], Note(t.order, id))
  }

  /** The grouping after the daily rows `rows`, processed in order. */
  function WeeklyTally(rows: seq<Row>): (t: Tally<WeekAcc>)
    requires AllReadable(rows)
    ensures Coherent(t)
    ensures forall x :: x in t.summary <==> HasRowOf(rows, x)
    decreases |rows|
  {
    if rows == [] then Tally(map[], map[], [])
    else
      var init := rows[..|rows| - 1];
      HasRowOfStep(rows);
      TallyDailyKeys(WeeklyTally(init), rows[|rows| - 1]);
      TallyDaily(WeeklyTally(init), rows[|rows| - 1])
  }

  /** Some row of `rows` belongs to `id`. */
  predicate HasRowOf(rows: seq<Row>, id: string) {
    exists j :: 0 <= j < |rows| && Cell(rows[j], 0) == id
  }

  lemma HasRowOfStep(rows: seq<Row>)
    requires |rows| > 0
    ensures var n := |rows| - 1;
      forall x :: HasRowOf(rows, x) <==> HasRowOf(rows[..n], x) || Cell(rows[n], 0) == x
  {
    var n := |rows| - 1;
    assert forall j :: 0 <= j < n ==> rows[..n][j] == rows[j];
  }

  /** Grouping one more daily row is one more call of the callback. */
  lemma WeeklyTallyStep(rows: seq<Row>, i: nat)
    requires i < |rows| && forall j :: 0 <= j <= i ==> Readable(rows[j])
    ensures AllReadable(rows[..i]) && AllReadable(rows[..i + 1]) && Readable(rows[i])
    ensures Coherent(WeeklyTally(rows[..i]))
    ensures WeeklyTally(rows[..i + 1]) == TallyDaily(WeeklyTally(rows[..i]), rows[i])
  {
    assert rows[..i + 1][..i] == rows[..i];
    assert rows[..i + 1][i] == rows[i];
  }

  /** The key order of the weekly grouping lists no id twice. */
  lemma {:induction false} WeeklyOrderDistinct(rows: seq<Row>)
    requires AllReadable(rows)
    ensures Distinct(WeeklyTally(rows).order)
    decreases |rows|
  {
    if rows != [] {
      var n := |rows| - 1;
      WeeklyTallyStep(rows, n);
      assert rows[..n + 1] == rows;
      WeeklyOrderDistinct(rows[..n]);
      NoteKeys(WeeklyTally(rows[..n]).order, rows[n][0]);
    }
  }

  /** Index of the first row of `id`, or `|rows|` when it has none. */
  function FirstRowOf(rows: seq<Row>, id: string): (f: nat)
    ensures f <= |rows|
    ensures f < |rows| ==> Cell(rows[f], 0) == id
    ensures forall j :: 0 <= j < f ==> Cell(rows[j], 0) != id
    decreases |rows|
  {
    if rows == [] then 0
    else if Cell(rows[0], 0) == id then 0
    else
      var f := FirstRowOf(rows[1..], id);
      assert forall j :: 1 <= j < |rows| ==> rows[j] == rows[1..][j - 1];
      1 + f
  }

  /** An id with a row among the first `n` rows has its first row there, whatever follows. */
  lemma FirstRowOfPrefix(rows: seq<Row>, n: nat, id: string)
    requires n <= |rows| && HasRowOf(rows[..n], id)
    ensures FirstRowOf(rows, id) == FirstRowOf(rows[..n], id) < n
  {
    var prev := rows[..n];
    var j :| 0 <= j < |prev| && Cell(prev[j], 0) == id;
    var f := FirstRowOf(prev, id);
    assert f < n;
    assert prev[f] == rows[f];
    var g := FirstRowOf(rows, id);
    assert g <= f;
    assert forall i :: 0 <= i < f ==> prev[i] == rows[i];
  }

  /**
   * The key order lists the ids by their first daily row: an id listed
   * earlier has its first row before the first row of any id listed later.
   */
  lemma {:induction false} WeeklyOrderFirst(rows: seq<Row>)
    requires AllReadable(rows)
    ensures var order := WeeklyTally(rows).order;
      forall k, l :: 0 <= k < l < |order| ==> FirstRowOf(rows, order[k]) < FirstRowOf(rows, order[l])
    decreases |rows|
  {
    if rows != [] {
      var n := |rows| - 1;
      var init := rows[..n];
      var id := rows[n][0];
      WeeklyOrderFirst(init);
      WeeklyOrderStep(rows);
      assert Cell(rows[n], 0) == id;
      FirstRowsOrdered(rows, WeeklyTally(init).order, WeeklyTally(rows).order);
    }
  }

  /**
   * Keys listed by their first row among all rows but the last stay so
   * ordered when the last row's id is appended only if it is new.
   */
  lemma FirstRowsOrdered(rows: seq<Row>, order0: seq<string>, order: seq<string>)
    requires |rows| > 0
    requires var n := |rows| - 1;
      && (forall x :: x in order0 ==> HasRowOf(rows[..n], x))
      && order == (if HasRowOf(rows[..n], Cell(rows[n], 0)) then order0 else order0 + [Cell(rows[n], 0)])
      && forall k, l :: 0 <= k < l < |order0| ==> FirstRowOf(rows[..n], order0[k]) < FirstRowOf(rows[..n], order0[l])
    ensures forall k, l :: 0 <= k < l < |order| ==> FirstRowOf(rows, order[k]) < FirstRowOf(rows, order[l])
  {
    var n := |rows| - 1;
    forall k, l | 0 <= k < l < |order|
      ensures FirstRowOf(rows, order[k]) < FirstRowOf(rows, order[l])
    {
      assert order[k] == order0[k] && order0[k] in order0;
      FirstRowOfPrefix(rows, n, order0[k]);
      if l < |order0| {
        assert order[l] == order0[l] && order0[l] in order0;
        FirstRowOfPrefix(rows, n, order0[l]);
      } else {
        FirstRowOfNew(rows, order[l]);
      }
    }
  }

  /** The last daily row appends its id to the key order exactly when no earlier row has it. */
  lemma WeeklyOrderStep(rows: seq<Row>)
    requires AllReadable(rows) && |rows| > 0
    ensures AllReadable(rows[..|rows| - 1])
    ensures var n := |rows| - 1;
      var order0 := WeeklyTally(rows[..n]).order;
      && (forall x :: x in order0 ==> HasRowOf(rows[..n], x))
      && WeeklyTally(rows).order == if HasRowOf(rows[..n], rows[n][0]) then order0 else order0 + [rows[n][0]]
  {
    var n := |rows| - 1;
    WeeklyTallyStep(rows, n);
    assert rows[..n + 1] == rows;
  }

  /** The first row of an id that no row before the last has is the last row. */
  lemma FirstRowOfNew(rows: seq<Row>, id: string)
    requires |rows| > 0 && Cell(rows[|rows| - 1], 0) == id && !HasRowOf(rows[..|rows| - 1], id)
    ensures FirstRowOf(rows, id) == |rows| - 1
  {
  }

  /** A daily row keeps the grouping coherent and adds its id to it. */
  lemma TallyDailyKeys(t: Tally<WeekAcc>, row: Row)
    requires Readable(row) && Coherent(t)
    ensures Coherent(TallyDaily(t, row))
    ensures forall x :: x in TallyDaily(t, row).summary <==> x in t.summary || x == row[0]
  {
    NoteKeys(t.order, row[0]);
  }

  /**
   * What one weekly summary reports: the day counts, the working days
   * without an attended date, and the attended share.
   */
  function FinishWeek(id: string, acc: WeekAcc, totalHariKerja: Number, percent: Percent): (s: Summary)
    ensures s.id == id && s.nama == acc.nama && s.jabatan == acc.jabatan
    ensures s.masuk == Finite(acc.masuk) && s.terlambat == Finite(acc.terlambat) && s.lembur == Finite(acc.lembur)
    ensures totalHariKerja.Finite? ==> Add(s.tidakMasuk, Finite(|acc.hadirTanggal|)) == totalHariKerja
    ensures totalHariKerja.NaN? ==> s.tidakMasuk.NaN?
  {
    var hadir := Finite(|acc.hadirTanggal|);
    Summary(id, acc.nama, acc.jabatan, Finite(acc.masuk), Finite(acc.terlambat), Finite(acc.lembur),
            Sub(totalHariKerja, hadir), percent(hadir, totalHariKerja))
  }

  /** The summaries of the groups that survive pruning, in key order. */
  function WeekSummaries(kept: seq<(string, WeekAcc)>, totalHariKerja: Number, percent: Percent): (r: seq<Summary>)
    ensures |r| == |kept|
    ensures forall k :: 0 <= k < |r| ==> r[k].id == kept[k].0
  {
    seq(|kept|, k requires 0 <= k < |kept| => FinishWeek(kept[k].0, kept[k].1, totalHariKerja, percent))
  }

  lemma WeekSummariesStep(kept: seq<(string, WeekAcc)>, p: (string, WeekAcc), totalHariKerja: Number, percent: Percent)
    ensures WeekSummaries(kept + [p], totalHariKerja, percent)
            == WeekSummaries(kept, totalHariKerja, percent) + [FinishWeek(p.0, p.1, totalHariKerja, percent)]
  {
  }

  /**
   * The summaries the weekly recap writes; a daily sheet of fewer than five
   * rows gives no id the five rows it needs, so nothing is reported.
   */
  function WeeklyReport(rows: seq<Row>, totalHariKerja: Number, percent: Percent): (r: seq<Summary>)
    requires AllReadable(rows)
    ensures |rows| < WeeklyMinRows ==> r == []
  {
    var t := WeeklyTally(rows);
    var kept := Prune(t.summary, t.counter, WeeklyMinRows, t.summary.Keys);
    WeeklyCounterAtMost(rows);
    assert |rows| < WeeklyMinRows ==> kept == map[];
    ValuesEntries(t.order, kept);
    WeekSummaries(Values(t.order, kept), totalHariKerja, percent)
  }

  /** No counter exceeds the number of daily rows. */
  lemma {:induction false} WeeklyCounterAtMost(rows: seq<Row>)
    requires AllReadable(rows)
    ensures forall x :: x in WeeklyTally(rows).counter ==> WeeklyTally(rows).counter[x] <= |rows|
    decreases |rows|
  {
    if rows != [] {
      var n := |rows| - 1;
      WeeklyTallyStep(rows, n);
      assert rows[..n + 1] == rows;
      WeeklyCounterAtMost(rows[..n]);
    }
  }

  // ---------------------------------------------------------------------
  // What the weekly grouping counts, defined row by row

  /** A daily row of another id leaves a group as it was. */
  lemma TallyDailyOther(t: Tally<WeekAcc>, row: Row, id: string)
    requires Readable(row) && Coherent(t) && row[0] != id
    ensures var r := TallyDaily(t, row);
      && (id in r.summary <==> id in t.summary)
      && (id in t.summary ==> r.summary[id] == t.summary[id] && r.counter[id] == t.counter[id])
  {
  }

  /** A daily row of `id` is counted into the group of `id`, created from it if new. */
  lemma TallyDailySame(t: Tally<WeekAcc>, row: Row)
    requires Readable(row) && Coherent(t)
    ensures var r := TallyDaily(t, row);
      var id := row[0];
      && id in r.summary
      && r.summary[id] == CountDaily(if id in t.summary then t.summary[id] else WeekAcc(row[1], row[2], 0, 0, 0, {}), row)
      && r.counter[id] == (if id in t.counter then t.counter[id] else 0) + 1
  {
  }

  /** Indices of the rows of `id`. */
  ghost function RowsOf(rows: seq<Row>, id: string): set<nat> {
    set j: nat | j < |rows| && Cell(rows[j], 0) == id
  }

  /** Indices of the rows of `id` with the given status. */
  ghost function RowsWithStatus(rows: seq<Row>, id: string, status: string): set<nat> {
    set j: nat | j < |rows| && Cell(rows[j], 0) == id && StatusOf(rows[j]) == status
  }

  /** The dates on which `id` has an attended row. */
  ghost function AttendedDates(rows: seq<Row>, id: string): set<string> {
    set j: nat | j < |rows| && Cell(rows[j], 0) == id && Attended(StatusOf(rows[j])) :: DatePart(Cell(rows[j], 3))
  }

  lemma RowsOfStep(rows: seq<Row>, id: string)
    requires |rows| > 0
    ensures var n := |rows| - 1;
      && RowsOf(rows, id) == RowsOf(rows[..n], id) + (if Cell(rows[n], 0) == id then {n} else {})
      && n !in RowsOf(rows[..n], id)
  {
    var n := |rows| - 1;
    assert forall j :: 0 <= j < n ==> rows[..n][j] == rows[j];
  }

  lemma RowsWithStatusStep(rows: seq<Row>, id: string, status: string)
    requires |rows| > 0
    ensures var n := |rows| - 1;
      && RowsWithStatus(rows, id, status)
         == RowsWithStatus(rows[..n], id, status) + (if Cell(rows[n], 0) == id && StatusOf(rows[n]) == status then {n} else {})
      && n !in RowsWithStatus(rows[..n], id, status)
      && |RowsWithStatus(rows, id, status)|
         == |RowsWithStatus(rows[..n], id, status)| + (if Cell(rows[n], 0) == id && StatusOf(rows[n]) == status then 1 else 0)
  {
    var n := |rows| - 1;
    assert forall j :: 0 <= j < n ==> rows[..n][j] == rows[j];
  }

  lemma AttendedDatesStep(rows: seq<Row>, id: string)
    requires |rows| > 0
    ensures var n := |rows| - 1;
      AttendedDates(rows, id)
      == AttendedDates(rows[..n], id)
         + (if Cell(rows[n], 0) == id && Attended(StatusOf(rows[n])) then {DatePart(Cell(rows[n], 3))} else {})
  {
    var n := |rows| - 1;
    assert forall j :: 0 <= j < n ==> rows[..n][j] == rows[j];
  }

  /** The weekly counter of an id is the number of its daily rows: no date filter applies. */
  lemma {:induction false} WeeklyCounter(rows: seq<Row>, id: string)
    requires AllReadable(rows)
    ensures id in WeeklyTally(rows).counter ==> WeeklyTally(rows).counter[id] == |RowsOf(rows, id)|
    ensures id !in WeeklyTally(rows).summary ==> RowsOf(rows, id) == {}
    decreases |rows|
  {
    if rows != [] {
      var init := rows[..|rows| - 1];
      assert forall j :: 0 <= j < |init| ==> init[j] == rows[j];
      WeeklyCounter(init, id);
      RowsOfStep(rows, id);
      var row := rows[|rows| - 1];
      if row[0] == id {
        TallyDailySame(WeeklyTally(init), row);
      } else {
        TallyDailyOther(WeeklyTally(init), row, id);
      }
    }
  }

  /** The count a group keeps for a status. */
  function StatusCount(acc: WeekAcc, status: string): nat {
    if status == "masuk" then acc.masuk
    else if status == "terlambat" then acc.terlambat
    else if status == "lembur" then acc.lembur
    else 0
  }

  lemma CountDailyStatus(acc: WeekAcc, row: Row, status: string)
    requires Readable(row)
    requires status == "masuk" || status == "terlambat" || status == "lembur"
    ensures StatusCount(CountDaily(acc, row), status) == StatusCount(acc, status) + (if StatusOf(row) == status then 1 else 0)
  {
  }

  /** A daily row's own group after it: counted into the old group, or into a new one named after it. */
  lemma WeeklyGroupSame(rows: seq<Row>)
    requires |rows| > 0 && AllReadable(rows)
    ensures AllReadable(rows[..|rows| - 1])
    ensures var row := rows[|rows| - 1];
      var t0 := WeeklyTally(rows[..|rows| - 1]);
      && row[0] in WeeklyTally(rows).summary
      && WeeklyTally(rows).summary[row[0]] == CountDaily(GroupBefore(t0, row), row)
  {
    var n := |rows| - 1;
    WeeklyTallyStep(rows, n);
    assert rows[..n + 1] == rows;
    TallyDailySame(WeeklyTally(rows[..n]), rows[n]);
  }

  /** The group a daily row is counted into: the existing one of its id, or a fresh one. */
  function GroupBefore(t: Tally<WeekAcc>, row: Row): WeekAcc
    requires Readable(row)
  {
    if row[0] in t.summary then t.summary[row[0]] else WeekAcc(row[1], row[2], 0, 0, 0, {})
  }

  /** A daily row leaves the groups of other ids as they were. */
  lemma WeeklyGroupOther(rows: seq<Row>, id: string)
    requires |rows| > 0 && AllReadable(rows) && rows[|rows| - 1][0] != id
    ensures AllReadable(rows[..|rows| - 1])
    ensures var t0 := WeeklyTally(rows[..|rows| - 1]);
      && (id in WeeklyTally(rows).summary <==> id in t0.summary)
      && (id in t0.summary ==> WeeklyTally(rows).summary[id] == t0.summary[id])
  {
    var n := |rows| - 1;
    WeeklyTallyStep(rows, n);
    assert rows[..n + 1] == rows;
    TallyDailyOther(WeeklyTally(rows[..n]), rows[n], id);
  }

  /** A group counts the daily rows of its id with each of the three counted statuses. */
  lemma {:induction false} WeeklyStatusCount(rows: seq<Row>, id: string, status: string)
    requires AllReadable(rows)
    requires status == "masuk" || status == "terlambat" || status == "lembur"
    ensures id in WeeklyTally(rows).summary ==>
      StatusCount(WeeklyTally(rows).summary[id], status) == |RowsWithStatus(rows, id, status)|
    ensures id !in WeeklyTally(rows).summary ==> RowsWithStatus(rows, id, status) == {}
    decreases |rows|
  {
    if rows != [] {
      var n := |rows| - 1;
      var row := rows[n];
      if row[0] == id {
        WeeklyGroupSame(rows);
        CountDailyStatus(GroupBefore(WeeklyTally(rows[..n]), row), row, status);
      } else {
        WeeklyGroupOther(rows, id);
      }
      WeeklyStatusCount(rows[..n], id, status);
      RowsWithStatusStep(rows, id, status);
    }
  }

  lemma CountDailyDates(acc: WeekAcc, row: Row)
    requires Readable(row)
    ensures CountDaily(acc, row).hadirTanggal
            == acc.hadirTanggal + (if Attended(StatusOf(row)) then {DatePart(Cell(row, 3))} else {})
  {
  }

  /** A group's attended dates are the distinct dates of its masuk and terlambat rows. */
  lemma {:induction false} WeeklyDates(rows: seq<Row>, id: string)
    requires AllReadable(rows)
    ensures id in WeeklyTally(rows).summary ==> WeeklyTally(rows).summary[id].hadirTanggal == AttendedDates(rows, id)
    ensures id !in WeeklyTally(rows).summary ==> AttendedDates(rows, id) == {}
    decreases |rows|
  {
    if rows != [] {
      var n := |rows| - 1;
      var row := rows[n];
      if row[0] == id {
        WeeklyGroupSame(rows);
        CountDailyDates(GroupBefore(WeeklyTally(rows[..n]), row), row);
      } else {
        WeeklyGroupOther(rows, id);
      }
      WeeklyDates(rows[..n], id);
      AttendedDatesStep(rows, id);
    }
  }

  /** The group of an id takes nama and jabatan from the first row of that id. */
  lemma {:induction false} WeeklyFirstRow(rows: seq<Row>, f: nat)
    requires AllReadable(rows)
    requires f < |rows| && forall j :: 0 <= j < f ==> rows[j][0] != rows[f][0]
    ensures rows[f][0] in WeeklyTally(rows).summary
    ensures var acc := WeeklyTally(rows).summary[rows[f][0]];
      acc.nama == rows[f][1] && acc.jabatan == rows[f][2]
    decreases |rows|
  {
    var n := |rows| - 1;
    var prev := rows[..n];
    assert forall j :: 0 <= j < n ==> prev[j] == rows[j];
    assert AllReadable(prev);
    if f < n {
      assert forall j :: 0 <= j < f ==> prev[j][0] != prev[f][0];
      WeeklyFirstRow(prev, f);
      WeeklyNameKept(rows, rows[f][0]);
    } else {
      assert !HasRowOf(prev, rows[n][0]);
      WeeklyNewName(rows);
    }
  }

  /** A row whose id is new to the grouping names its group. */
  lemma WeeklyNewName(rows: seq<Row>)
    requires |rows| > 0 && AllReadable(rows)
    requires !HasRowOf(rows[..|rows| - 1], rows[|rows| - 1][0])
    ensures var row := rows[|rows| - 1];
      && row[0] in WeeklyTally(rows).summary
      && WeeklyTally(rows).summary[row[0]].nama == row[1]
      && WeeklyTally(rows).summary[row[0]].jabatan == row[2]
  {
    WeeklyGroupSame(rows);
    CountDailyKeepsName(GroupBefore(WeeklyTally(rows[..|rows| - 1]), rows[|rows| - 1]), rows[|rows| - 1]);
  }

  lemma WeeklyNameKept(rows: seq<Row>, id: string)
    requires |rows| > 0 && AllReadable(rows)
    requires AllReadable(rows[..|rows| - 1]) && id in WeeklyTally(rows[..|rows| - 1]).summary
    ensures id in WeeklyTally(rows).summary
    ensures WeeklyTally(rows).summary[id].nama == WeeklyTally(rows[..|rows| - 1]).summary[id].nama
    ensures WeeklyTally(rows).summary[id].jabatan == WeeklyTally(rows[..|rows| - 1]).summary[id].jabatan
  {
    var n := |rows| - 1;
    if rows[n][0] == id {
      WeeklyGroupSame(rows);
      CountDailyKeepsName(GroupBefore(WeeklyTally(rows[..n]), rows[n]), rows[n]);
    } else {
      WeeklyGroupOther(rows, id);
    }
  }

  lemma CountDailyKeepsName(acc: WeekAcc, row: Row)
    requires Readable(row)
    ensures CountDaily(acc, row).nama == acc.nama && CountDaily(acc, row).jabatan == acc.jabatan
  {
  }

  /** The weekly recap reports no id twice. */
  lemma WeeklyReportDistinct(rows: seq<Row>, totalHariKerja: Number, percent: Percent)
    requires AllReadable(rows)
    ensures var r := WeeklyReport(rows, totalHariKerja, percent);
      forall i, j :: 0 <= i < j < |r| ==> r[i].id != r[j].id
  {
    var t := WeeklyTally(rows);
    WeeklyOrderDistinct(rows);
    ValuesEntries(t.order, Prune(t.summary, t.counter, WeeklyMinRows, t.summary.Keys));
  }

  /** `id` is reported by the weekly recap exactly when it has at least five daily rows. */
  ghost predicate WeeklyReported(rows: seq<Row>, totalHariKerja: Number, percent: Percent, id: string)
    requires AllReadable(rows)
  {
    var r := WeeklyReport(rows, totalHariKerja, percent);
    (exists k :: 0 <= k < |r| && r[k].id == id) <==> |RowsOf(rows, id)| >= WeeklyMinRows
  }

  /** The weekly recap reports exactly the ids with at least five daily rows. */
  lemma WeeklyReportIds(rows: seq<Row>, totalHariKerja: Number, percent: Percent)
    requires AllReadable(rows)
    ensures forall id :: WeeklyReported(rows, totalHariKerja, percent, id)
  {
    forall id ensures WeeklyReported(rows, totalHariKerja, percent, id) {
      WeeklyReportHas(rows, totalHariKerja, percent, id);
    }
  }

  /** The weekly recap reports one id exactly when that id has enough rows. */
  lemma WeeklyReportHas(rows: seq<Row>, totalHariKerja: Number, percent: Percent, id: string)
    requires AllReadable(rows)
    ensures WeeklyReported(rows, totalHariKerja, percent, id)
  {
    var t := WeeklyTally(rows);
    var kept := Values(t.order, Prune(t.summary, t.counter, WeeklyMinRows, t.summary.Keys));
    WeekSummariesIds(kept, totalHariKerja, percent, id);
    KeptIds(t, WeeklyMinRows, id);
    WeeklyCounter(rows, id);
  }

  /** The summaries carry the ids of the kept groups, and only those. */
  lemma WeekSummariesIds(kept: seq<(string, WeekAcc)>, totalHariKerja: Number, percent: Percent, id: string)
    ensures var r := WeekSummaries(kept, totalHariKerja, percent);
      (exists k :: 0 <= k < |r| && r[k].id == id) <==> Lists(kept, id)
  {
    var r := WeekSummaries(kept, totalHariKerja, percent);
    if exists k :: 0 <= k < |kept| && kept[k].0 == id {
      var k :| 0 <= k < |kept| && kept[k].0 == id;
      assert r[k].id == id;
    }
  }

  /**
   * Each weekly summary carries its id's counts of masuk, terlambat and
   * lembur rows, its working days without an attended date out of
   * `totalHariKerja`, and its attended share.
   */
  lemma WeeklyReportCounts(rows: seq<Row>, totalHariKerja: Number, percent: Percent, k: nat)
    requires AllReadable(rows)
    requires k < |WeeklyReport(rows, totalHariKerja, percent)|
    ensures var s := WeeklyReport(rows, totalHariKerja, percent)[k];
      var hadir := Finite(|AttendedDates(rows, s.id)|);
      && s.masuk == Finite(|RowsWithStatus(rows, s.id, "masuk")|)
      && s.terlambat == Finite(|RowsWithStatus(rows, s.id, "terlambat")|)
      && s.lembur == Finite(|RowsWithStatus(rows, s.id, "lembur")|)
      && s.tidakMasuk == Sub(totalHariKerja, hadir)
      && s.persentase == percent(hadir, totalHariKerja)
      && FirstRowOf(rows, s.id) < |rows|
      && s.nama == Cell(rows[FirstRowOf(rows, s.id)], 1)
      && s.jabatan == Cell(rows[FirstRowOf(rows, s.id)], 2)
  {
    var t := WeeklyTally(rows);
    var pruned := Prune(t.summary, t.counter, WeeklyMinRows, t.summary.Keys);
    var kept := Values(t.order, pruned);
    ValuesEntries(t.order, pruned);
    var id := kept[k].0;
    assert WeeklyReport(rows, totalHariKerja, percent)[k] == FinishWeek(id, t.summary[id], totalHariKerja, percent);
    WeeklyStatusCount(rows, id, "masuk");
    WeeklyStatusCount(rows, id, "terlambat");
    WeeklyStatusCount(rows, id, "lembur");
    WeeklyDates(rows, id);
    WeeklyFirstName(rows, id);
  }

  /** An id's group takes nama and jabatan from the id's first daily row. */
  lemma WeeklyFirstName(rows: seq<Row>, id: string)
    requires AllReadable(rows) && id in WeeklyTally(rows).summary
    ensures FirstRowOf(rows, id) < |rows|
    ensures var f := FirstRowOf(rows, id);
      && WeeklyTally(rows).summary[id].nama == Cell(rows[f], 1)
      && WeeklyTally(rows).summary[id].jabatan == Cell(rows[f], 2)
  {
    var f := FirstRowOf(rows, id);
    var j :| 0 <= j < |rows| && Cell(rows[j], 0) == id;
    assert f <= j;
    assert Readable(rows[f]) && rows[f][0] == id;
    assert forall i :: 0 <= i < f ==> Readable(rows[i]) && rows[i][0] != rows[f][0];
    WeeklyFirstRow(rows, f);
  }

  // =====================================================================
  // Monthly recap: one row per id and week in the weekly sheet

  const MonthlyMinRows := 22

  /** The group of one id in the monthly recap. */
  datatype MonthAcc = MonthAcc(nama: string, jabatan: string, masuk: Number, terlambat: Number,
                               lembur: Number, tidakMasuk: Number)

  /** `(row._rawData[3] || '').startsWith(bulan)`. */
  predicate InMonth(row: Row, bulan: string) {
    StartsWith(Cell(row, 3), bulan)
  }

  /** `Number(row._rawData[k] || 0)`. */
  function CellNumber(row: Row, k: nat): Number {
    ParseNumber(Cell(row, k))
  }

  /** What one weekly row adds to its group. */
  function AddWeekly(acc: MonthAcc, row: Row): (r: MonthAcc)
    ensures r.nama == acc.nama && r.jabatan == acc.jabatan
    ensures forall k :: 4 <= k <= 7 ==> Column(r, k) == Add(Column(acc, k), CellNumber(row, k))
  {
    acc.(masuk := Add(acc.masuk, CellNumber(row, 4)),
         terlambat := Add(acc.terlambat, CellNumber(row, 5)),
         lembur := Add(acc.lembur, CellNumber(row, 6)),
         tidakMasuk := Add(acc.tidakMasuk, CellNumber(row, 7)))
  }

  /**
   * One call of the `forEach` callback on a weekly row: a row outside
   * `bulan` is skipped; otherwise as for the weekly recap.
   */
  function TallyWeekly(t: Tally<MonthAcc>, row: Row, bulan: string): Tally<MonthAcc>
    requires Coherent(t)
  {
    if !InMonth(row, bulan) then t
    else
      var id := Cell(row, 0);
      var isNew := id !in t.summary;
      var summary := if isNew then t.summary[id := MonthAcc(Cell(row, 1), Cell(row, 2), Finite(0), Finite(0), Finite(0), Finite(0))]
                     else t.summary;
      var counter := if isNew then t.counter[id := 0] else t.counter;
      Tally(summary[id := AddWeekly(summary[id], row)], counter[id := counter[id] + 1], Note(t.order, id))
  }

  /** A weekly row inside `bulan` appends its id to the key order exactly when the id is new. */
  lemma TallyWeeklyOrder(t: Tally<MonthAcc>, row: Row, bulan: string)
    requires Coherent(t) && InMonth(row, bulan)
    ensures var id := Cell(row, 0);
      TallyWeekly(t, row, bulan).order == if id in t.summary then t.order else t.order + [id]
  {
  }

  /** The grouping after the weekly rows `rows`, processed in order. */
  function MonthlyTally(rows: seq<Row>, bulan: string): (t: Tally<MonthAcc>)
    ensures Coherent(t)
    ensures forall x :: x in t.summary <==> HasMonthRowOf(rows, bulan, x)
    decreases |rows|
  {
    if rows == [] then Tally(map[], map[], [])
    else
      var init := rows[..|rows| - 1];
      HasMonthRowOfStep(rows, bulan);
      TallyWeeklyKeys(MonthlyTally(init, bulan), rows[|rows| - 1], bulan);
      TallyWeekly(MonthlyTally(init, bulan), rows[|rows| - 1], bulan)
  }

  /** Some row of `rows` inside `bulan` belongs to `id`. */
  predicate HasMonthRowOf(rows: seq<Row>, bulan: string, id: string) {
    exists j :: 0 <= j < |rows| && InMonth(rows[j], bulan) && Cell(rows[j], 0) == id
  }

  lemma HasMonthRowOfStep(rows: seq<Row>, bulan: string)
    requires |rows| > 0
    ensures var n := |rows| - 1;
      forall x :: HasMonthRowOf(rows, bulan, x)
                  <==> HasMonthRowOf(rows[..n], bulan, x) || (InMonth(rows[n], bulan) && Cell(rows[n], 0) == x)
  {
    var n := |rows| - 1;
    assert forall j :: 0 <= j < n ==> rows[..n][j] == rows[j];
  }

  /** The key order of the monthly grouping lists no id twice. */
  lemma {:induction false} MonthlyOrderDistinct(rows: seq<Row>, bulan: string)
    ensures Distinct(MonthlyTally(rows, bulan).order)
    decreases |rows|
  {
    if rows != [] {
      var n := |rows| - 1;
      MonthlyOrderDistinct(rows[..n], bulan);
      NoteKeys(MonthlyTally(rows[..n], bulan).order, Cell(rows[n], 0));
    }
  }

  /** Index of the first row of `id` inside `bulan`, or `|rows|` when it has none. */
  function FirstMonthRowOf(rows: seq<Row>, bulan: string, id: string): (f: nat)
    ensures f <= |rows|
    ensures f < |rows| ==> InMonth(rows[f], bulan) && Cell(rows[f], 0) == id
    ensures forall j :: 0 <= j < f ==> !(InMonth(rows[j], bulan) && Cell(rows[j], 0) == id)
    decreases |rows|
  {
    if rows == [] then 0
    else if InMonth(rows[0], bulan) && Cell(rows[0], 0) == id then 0
    else
      var f := FirstMonthRowOf(rows[1..], bulan, id);
      assert forall j :: 1 <= j < |rows| ==> rows[j] == rows[1..][j - 1];
      1 + f
  }

  /** An id with a row of the month among the first `n` rows has its first such row there. */
  lemma FirstMonthRowOfPrefix(rows: seq<Row>, bulan: string, n: nat, id: string)
    requires n <= |rows| && HasMonthRowOf(rows[..n], bulan, id)
    ensures FirstMonthRowOf(rows, bulan, id) == FirstMonthRowOf(rows[..n], bulan, id) < n
  {
    var prev := rows[..n];
    var j :| 0 <= j < |prev| && InMonth(prev[j], bulan) && Cell(prev[j], 0) == id;
    var f := FirstMonthRowOf(prev, bulan, id);
    assert f < n;
    assert prev[f] == rows[f];
    var g := FirstMonthRowOf(rows, bulan, id);
    assert g <= f;
    assert forall i :: 0 <= i < f ==> prev[i] == rows[i];
  }

  /**
   * The key order lists the ids by their first weekly row inside the
   * month: an id listed earlier has its first such row before that of any
   * id listed later.
   */
  lemma {:induction false} MonthlyOrderFirst(rows: seq<Row>, bulan: string)
    ensures var order := MonthlyTally(rows, bulan).order;
      forall k, l :: 0 <= k < l < |order| ==> FirstMonthRowOf(rows, bulan, order[k]) < FirstMonthRowOf(rows, bulan, order[l])
    decreases |rows|
  {
    if rows != [] {
      var n := |rows| - 1;
      var init := rows[..n];
      MonthlyOrderFirst(init, bulan);
      MonthlyOrderStep(rows, bulan);
      FirstMonthRowsOrdered(rows, bulan, MonthlyTally(init, bulan).order, MonthlyTally(rows, bulan).order);
    }
  }

  /**
   * Keys listed by their first row of the month among all rows but the
   * last stay so ordered when the last row's id is appended only if that
   * row is its first of the month.
   */
  lemma FirstMonthRowsOrdered(rows: seq<Row>, bulan: string, order0: seq<string>, order: seq<string>)
    requires |rows| > 0
    requires var n := |rows| - 1;
      && (forall x :: x in order0 ==> HasMonthRowOf(rows[..n], bulan, x))
      && order == (if !InMonth(rows[n], bulan) || HasMonthRowOf(rows[..n], bulan, Cell(rows[n], 0)) then order0
                   else order0 + [Cell(rows[n], 0)])
      && forall k, l :: 0 <= k < l < |order0| ==>
           FirstMonthRowOf(rows[..n], bulan, order0[k]) < FirstMonthRowOf(rows[..n], bulan, order0[l])
    ensures forall k, l :: 0 <= k < l < |order| ==> FirstMonthRowOf(rows, bulan, order[k]) < FirstMonthRowOf(rows, bulan, order[l])
  {
    var n := |rows| - 1;
    forall k, l | 0 <= k < l < |order|
      ensures FirstMonthRowOf(rows, bulan, order[k]) < FirstMonthRowOf(rows, bulan, order[l])
    {
      assert order[k] == order0[k] && order0[k] in order0;
      FirstMonthRowOfPrefix(rows, bulan, n, order0[k]);
      if l < |order0| {
        assert order[l] == order0[l] && order0[l] in order0;
        FirstMonthRowOfPrefix(rows, bulan, n, order0[l]);
      } else {
        FirstMonthRowOfNew(rows, bulan, order[l]);
      }
    }
  }

  /** The last weekly row appends its id to the key order exactly when it is the id's first row of the month. */
  lemma MonthlyOrderStep(rows: seq<Row>, bulan: string)
    requires |rows| > 0
    ensures var n := |rows| - 1;
      var order0 := MonthlyTally(rows[..n], bulan).order;
      && (forall x :: x in order0 ==> HasMonthRowOf(rows[..n], bulan, x))
      && MonthlyTally(rows, bulan).order
         == if !InMonth(rows[n], bulan) || HasMonthRowOf(rows[..n], bulan, Cell(rows[n], 0)) then order0
            else order0 + [Cell(rows[n], 0)]
  {
    var n := |rows| - 1;
    if InMonth(rows[n], bulan) {
      TallyWeeklyOrder(MonthlyTally(rows[..n], bulan), rows[n], bulan);
    }
  }

  /** The first row of the month of an id that no row before the last has there is the last row. */
  lemma FirstMonthRowOfNew(rows: seq<Row>, bulan: string, id: string)
    requires |rows| > 0 && InMonth(rows[|rows| - 1], bulan) && Cell(rows[|rows| - 1], 0) == id
    requires !HasMonthRowOf(rows[..|rows| - 1], bulan, id)
    ensures FirstMonthRowOf(rows, bulan, id) == |rows| - 1
  {
  }

  /** A weekly row keeps the grouping coherent, adding its id when it lies inside the month. */
  lemma TallyWeeklyKeys(t: Tally<MonthAcc>, row: Row, bulan: string)
    requires Coherent(t)
    ensures Coherent(TallyWeekly(t, row, bulan))
    ensures forall x :: x in TallyWeekly(t, row, bulan).summary <==> x in t.summary || (InMonth(row, bulan) && x == Cell(row, 0))
  {
    NoteKeys(t.order, Cell(row, 0));
  }

  /** What one monthly summary reports; the attended share counts masuk and terlambat. */
  function FinishMonth(id: string, acc: MonthAcc, totalHariKerja: Number, percent: Percent): (s: Summary)
    ensures s.id == id && s.nama == acc.nama && s.jabatan == acc.jabatan
    ensures s.masuk == acc.masuk && s.terlambat == acc.terlambat && s.lembur == acc.lembur && s.tidakMasuk == acc.tidakMasuk
    ensures s.persentase == percent(Add(s.masuk, s.terlambat), totalHariKerja)
  {
    Summary(id, acc.nama, acc.jabatan, acc.masuk, acc.terlambat, acc.lembur, acc.tidakMasuk,
            percent(Add(acc.masuk, acc.terlambat), totalHariKerja))
  }

  function MonthSummaries(kept: seq<(string, MonthAcc)>, totalHariKerja: Number, percent: Percent): (r: seq<Summary>)
    ensures |r| == |kept|
    ensures forall k :: 0 <= k < |r| ==> r[k].id == kept[k].0
  {
    seq(|kept|, k requires 0 <= k < |kept| => FinishMonth(kept[k].0, kept[k].1, totalHariKerja, percent))
  }

  lemma MonthSummariesStep(kept: seq<(string, MonthAcc)>, p: (string, MonthAcc), totalHariKerja: Number, percent: Percent)
    ensures MonthSummaries(kept + [p], totalHariKerja, percent)
            == MonthSummaries(kept, totalHariKerja, percent) + [FinishMonth(p.0, p.1, totalHariKerja, percent)]
  {
  }

  /**
   * The summaries the monthly recap writes; a weekly sheet of fewer than
   * 22 rows gives no id the 22 rows it needs, so nothing is reported.
   */
  function MonthlyReport(rows: seq<Row>, bulan: string, totalHariKerja: Number, percent: Percent): (r: seq<Summary>)
    ensures |rows| < MonthlyMinRows ==> r == []
  {
    var t := MonthlyTally(rows, bulan);
    var kept := Prune(t.summary, t.counter, MonthlyMinRows, t.summary.Keys);
    MonthlyCounterAtMost(rows, bulan);
    assert |rows| < MonthlyMinRows ==> kept == map[];
    ValuesEntries(t.order, kept);
    MonthSummaries(Values(t.order, kept), totalHariKerja, percent)
  }

  /** No counter exceeds the number of weekly rows. */
  lemma MonthlyCounterAtMost(rows: seq<Row>, bulan: string)
    ensures forall x :: x in MonthlyTally(rows, bulan).counter ==> MonthlyTally(rows, bulan).counter[x] <= |rows|
  {
    forall x | x in MonthlyTally(rows, bulan).counter
      ensures MonthlyTally(rows, bulan).counter[x] <= |rows|
    {
      MonthlyCounter(rows, bulan, x);
    }
  }

  // ---------------------------------------------------------------------
  // What the monthly grouping sums, defined row by row

  /** A weekly row outside the month or of another id leaves a group as it was. */
  lemma TallyWeeklyOther(t: Tally<MonthAcc>, row: Row, bulan: string, id: string)
    requires Coherent(t) && !(InMonth(row, bulan) && Cell(row, 0) == id)
    ensures var r := TallyWeekly(t, row, bulan);
      && (id in r.summary <==> id in t.summary)
      && (id in t.summary ==> r.summary[id] == t.summary[id] && r.counter[id] == t.counter[id])
  {
    if InMonth(row, bulan) {
      assert Cell(row, 0) != id;
    }
  }

  /** A weekly row of `id` inside the month is added into the group of `id`. */
  lemma TallyWeeklySame(t: Tally<MonthAcc>, row: Row, bulan: string)
    requires Coherent(t) && InMonth(row, bulan)
    ensures var r := TallyWeekly(t, row, bulan);
      var id := Cell(row, 0);
      && id in r.summary
      && r.summary[id] == AddWeekly(if id in t.summary then t.summary[id]
                                    else MonthAcc(Cell(row, 1), Cell(row, 2), Finite(0), Finite(0), Finite(0), Finite(0)), row)
      && r.counter[id] == (if id in t.counter then t.counter[id] else 0) + 1
  {
  }

  /** The rows of `id` inside `bulan`, in sheet order. */
  function Select(rows: seq<Row>, bulan: string, id: string): (r: seq<Row>)
    ensures |r| <= |rows|
    decreases |rows|
  {
    if rows == [] then []
    else
      var prev := Select(rows[..|rows| - 1], bulan, id);
      var row := rows[|rows| - 1];
      if InMonth(row, bulan) && Cell(row, 0) == id then prev + [row] else prev
  }

  /** The JavaScript sum `0 + n1 + n2 + ...` of column `k` of `rs`. */
  function Total(rs: seq<Row>, k: nat): Number
    decreases |rs|
  {
    if rs == [] then Finite(0)
    else Add(Total(rs[..|rs| - 1], k), CellNumber(rs[|rs| - 1], k))
  }

  /** A sum is NaN exactly when one of its cells is not a number. */
  lemma {:induction false} TotalNaN(rs: seq<Row>, k: nat)
    ensures Total(rs, k) == NaN <==> exists j :: 0 <= j < |rs| && CellNumber(rs[j], k) == NaN
    decreases |rs|
  {
    if rs != [] {
      var init := rs[..|rs| - 1];
      assert forall j :: 0 <= j < |init| ==> init[j] == rs[j];
      TotalNaN(init, k);
    }
  }

  /** The monthly counter of an id is the number of its rows inside the month. */
  lemma {:induction false} MonthlyCounter(rows: seq<Row>, bulan: string, id: string)
    ensures id in MonthlyTally(rows, bulan).counter ==> MonthlyTally(rows, bulan).counter[id] == |Select(rows, bulan, id)|
    ensures id !in MonthlyTally(rows, bulan).summary ==> Select(rows, bulan, id) == []
    decreases |rows|
  {
    if rows != [] {
      MonthlyCounter(rows[..|rows| - 1], bulan, id);
    }
  }

  /** The sum a group keeps for column `k` (4 masuk, 5 terlambat, 6 lembur, 7 tidakMasuk). */
  function Column(acc: MonthAcc, k: nat): Number {
    if k == 4 then acc.masuk
    else if k == 5 then acc.terlambat
    else if k == 6 then acc.lembur
    else if k == 7 then acc.tidakMasuk
    else NaN
  }

  /** Each monthly sum is the sum of its column over the id's rows inside the month. */
  lemma {:induction false} MonthlySum(rows: seq<Row>, bulan: string, id: string, k: nat)
    requires 4 <= k <= 7
    ensures id in MonthlyTally(rows, bulan).summary ==>
      Column(MonthlyTally(rows, bulan).summary[id], k) == Total(Select(rows, bulan, id), k)
    decreases |rows|
  {
    if rows != [] {
      var init := rows[..|rows| - 1];
      var row := rows[|rows| - 1];
      MonthlySum(init, bulan, id, k);
      if InMonth(row, bulan) && Cell(row, 0) == id {
        MonthlyCounter(init, bulan, id);
        MonthlySumSame(rows, bulan, k);
      } else {
        TallyWeeklyOther(MonthlyTally(init, bulan), row, bulan, id);
      }
    }
  }

  /** A weekly row of the month adds its cell to its id's running sum. */
  lemma MonthlySumSame(rows: seq<Row>, bulan: string, k: nat)
    requires 4 <= k <= 7 && |rows| > 0
    requires var init := rows[..|rows| - 1];
      var id := Cell(rows[|rows| - 1], 0);
      && InMonth(rows[|rows| - 1], bulan)
      && (id in MonthlyTally(init, bulan).summary ==>
            Column(MonthlyTally(init, bulan).summary[id], k) == Total(Select(init, bulan, id), k))
      && (id !in MonthlyTally(init, bulan).summary ==> Select(init, bulan, id) == [])
    ensures var id := Cell(rows[|rows| - 1], 0);
      && id in MonthlyTally(rows, bulan).summary
      && Column(MonthlyTally(rows, bulan).summary[id], k) == Total(Select(rows, bulan, id), k)
  {
    var init := rows[..|rows| - 1];
    var row := rows[|rows| - 1];
    var id := Cell(row, 0);
    var t0 := MonthlyTally(init, bulan);
    var prev := Select(init, bulan, id);
    TotalStep(prev, row, k);
    TallyWeeklySame(t0, row, bulan);
    var acc0 := if id in t0.summary then t0.summary[id]
                else MonthAcc(Cell(row, 1), Cell(row, 2), Finite(0), Finite(0), Finite(0), Finite(0));
    assert Column(acc0, k) == Total(prev, k);
    ColumnAddWeekly(acc0, row, k);
  }

  lemma TotalStep(rs: seq<Row>, row: Row, k: nat)
    ensures Total(rs + [row], k) == Add(Total(rs, k), CellNumber(row, k))
  {
    assert (rs + [row])[..|rs|] == rs;
  }

  /** Adding a weekly row adds its cell `k` to column `k` of the sums. */
  lemma ColumnAddWeekly(acc: MonthAcc, row: Row, k: nat)
    requires 4 <= k <= 7
    ensures Column(AddWeekly(acc, row), k) == Add(Column(acc, k), CellNumber(row, k))
  {
    var n := CellNumber(row, k);
    if k == 4 {
      assert AddWeekly(acc, row).masuk == Add(acc.masuk, n);
    } else if k == 5 {
      assert AddWeekly(acc, row).terlambat == Add(acc.terlambat, n);
    } else if k == 6 {
      assert AddWeekly(acc, row).lembur == Add(acc.lembur, n);
    } else {
      assert AddWeekly(acc, row).tidakMasuk == Add(acc.tidakMasuk, n);
    }
  }

  /** The monthly recap reports no id twice. */
  lemma MonthlyReportDistinct(rows: seq<Row>, bulan: string, totalHariKerja: Number, percent: Percent)
    ensures var r := MonthlyReport(rows, bulan, totalHariKerja, percent);
      forall i, j :: 0 <= i < j < |r| ==> r[i].id != r[j].id
  {
    var t := MonthlyTally(rows, bulan);
    MonthlyOrderDistinct(rows, bulan);
    ValuesEntries(t.order, Prune(t.summary, t.counter, MonthlyMinRows, t.summary.Keys));
  }

  /** `id` is reported by the monthly recap exactly when it has at least 22 rows inside the month. */
  predicate MonthlyReported(rows: seq<Row>, bulan: string, totalHariKerja: Number, percent: Percent, id: string)
  {
    var r := MonthlyReport(rows, bulan, totalHariKerja, percent);
    (exists k :: 0 <= k < |r| && r[k].id == id) <==> |Select(rows, bulan, id)| >= MonthlyMinRows
  }

  /** The monthly recap reports exactly the ids with at least 22 rows inside the month. */
  lemma MonthlyReportIds(rows: seq<Row>, bulan: string, totalHariKerja: Number, percent: Percent)
    ensures forall id :: MonthlyReported(rows, bulan, totalHariKerja, percent, id)
  {
    forall id ensures MonthlyReported(rows, bulan, totalHariKerja, percent, id) {
      MonthlyReportHas(rows, bulan, totalHariKerja, percent, id);
    }
  }

  /** The monthly recap reports one id exactly when that id has enough rows. */
  lemma MonthlyReportHas(rows: seq<Row>, bulan: string, totalHariKerja: Number, percent: Percent, id: string)
    ensures MonthlyReported(rows, bulan, totalHariKerja, percent, id)
  {
    var t := MonthlyTally(rows, bulan);
    MonthSummariesIds(Values(t.order, Prune(t.summary, t.counter, MonthlyMinRows, t.summary.Keys)), totalHariKerja, percent, id);
    KeptIds(t, MonthlyMinRows, id);
    MonthlyCounter(rows, bulan, id);
    var r := MonthlyReport(rows, bulan, totalHariKerja, percent);
    assert (exists k :: 0 <= k < |r| && r[k].id == id) <==> id in t.summary && t.counter[id] >= MonthlyMinRows;
    assert id in t.summary ==> t.counter[id] == |Select(rows, bulan, id)|;
    assert id !in t.summary ==> |Select(rows, bulan, id)| == 0;
  }

  /** The summaries carry the ids of the kept groups, and only those. */
  lemma MonthSummariesIds(kept: seq<(string, MonthAcc)>, totalHariKerja: Number, percent: Percent, id: string)
    ensures var r := MonthSummaries(kept, totalHariKerja, percent);
      (exists k :: 0 <= k < |r| && r[k].id == id) <==> Lists(kept, id)
  {
    var r := MonthSummaries(kept, totalHariKerja, percent);
    if exists k :: 0 <= k < |kept| && kept[k].0 == id {
      var k :| 0 <= k < |kept| && kept[k].0 == id;
      assert r[k].id == id;
    }
  }

  /**
   * Each monthly summary carries the sums of the four count columns over
   * its id's rows inside the month, and the share of masuk plus terlambat.
   */
  lemma MonthlyReportSums(rows: seq<Row>, bulan: string, totalHariKerja: Number, percent: Percent, k: nat)
    requires k < |MonthlyReport(rows, bulan, totalHariKerja, percent)|
    ensures var s := MonthlyReport(rows, bulan, totalHariKerja, percent)[k];
      var rs := Select(rows, bulan, s.id);
      && s.masuk == Total(rs, 4)
      && s.terlambat == Total(rs, 5)
      && s.lembur == Total(rs, 6)
      && s.tidakMasuk == Total(rs, 7)
      && s.persentase == percent(Add(Total(rs, 4), Total(rs, 5)), totalHariKerja)
      && FirstMonthRowOf(rows, bulan, s.id) < |rows|
      && s.nama == Cell(rows[FirstMonthRowOf(rows, bulan, s.id)], 1)
      && s.jabatan == Cell(rows[FirstMonthRowOf(rows, bulan, s.id)], 2)
  {
    var t := MonthlyTally(rows, bulan);
    var kept := Values(t.order, Prune(t.summary, t.counter, MonthlyMinRows, t.summary.Keys));
    ValuesEntries(t.order, Prune(t.summary, t.counter, MonthlyMinRows, t.summary.Keys));
    var id := kept[k].0;
    var acc := t.summary[id];
    assert MonthlyReport(rows, bulan, totalHariKerja, percent)[k] == FinishMonth(id, acc, totalHariKerja, percent);
    MonthlySum(rows, bulan, id, 4);
    MonthlySum(rows, bulan, id, 5);
    MonthlySum(rows, bulan, id, 6);
    MonthlySum(rows, bulan, id, 7);
    assert acc.masuk == Column(acc, 4) && acc.terlambat == Column(acc, 5);
    assert acc.lembur == Column(acc, 6) && acc.tidakMasuk == Column(acc, 7);
    MonthlyFirstName(rows, bulan, id);
  }

  /** An id's group takes nama and jabatan from the id's first weekly row inside the month. */
  lemma {:induction false} MonthlyFirstName(rows: seq<Row>, bulan: string, id: string)
    requires id in MonthlyTally(rows, bulan).summary
    ensures FirstMonthRowOf(rows, bulan, id) < |rows|
    ensures var f := FirstMonthRowOf(rows, bulan, id);
      && MonthlyTally(rows, bulan).summary[id].nama == Cell(rows[f], 1)
      && MonthlyTally(rows, bulan).summary[id].jabatan == Cell(rows[f], 2)
    decreases |rows|
  {
    assert HasMonthRowOf(rows, bulan, id);
    var n := |rows| - 1;
    var init := rows[..n];
    var row := rows[n];
    var t0 := MonthlyTally(init, bulan);
    assert MonthlyTally(rows, bulan) == TallyWeekly(t0, row, bulan);
    if InMonth(row, bulan) && Cell(row, 0) == id {
      TallyWeeklySame(t0, row, bulan);
      if id in t0.summary {
        MonthlyFirstName(init, bulan, id);
        FirstMonthRowOfPrefix(rows, bulan, n, id);
        var f := FirstMonthRowOf(init, bulan, id);
        assert rows[f] == init[f];
      } else {
        FirstMonthRowOfNew(rows, bulan, id);
      }
    } else {
      TallyWeeklyOther(t0, row, bulan, id);
      MonthlyFirstName(init, bulan, id);
      FirstMonthRowOfPrefix(rows, bulan, n, id);
      var f := FirstMonthRowOf(init, bulan, id);
      assert rows[f] == init[f];
    }
  }

  /** Inside a month, an id has no more rows than the sheet holds for it. */
  lemma {:induction false} SelectAtMostKeyCount(rows: seq<Row>, bulan: string, id: string)
    requires forall j :: 0 <= j < |rows| ==> |rows[j]| >= 1
    ensures |Select(rows, bulan, id)| <= KeyCount(rows, id)
    decreases |rows|
  {
    if rows != [] {
      var init := rows[..|rows| - 1];
      assert forall j :: 0 <= j < |init| ==> init[j] == rows[j];
      SelectAtMostKeyCount(init, bulan, id);
    }
  }

  /**
   * On a weekly sheet with at most one row per id, no id reaches the 22
   * rows the monthly recap asks for, so the recap reports nothing.
   */
  lemma MonthlyReportEmpty(rows: seq<Row>, bulan: string, totalHariKerja: Number, percent: Percent)
    requires forall j :: 0 <= j < |rows| ==> |rows[j]| >= 1
    requires OneRowPerId(rows)
    ensures MonthlyReport(rows, bulan, totalHariKerja, percent) == []
  {
    var t := MonthlyTally(rows, bulan);
    forall id | id in t.counter ensures t.counter[id] < MonthlyMinRows {
      MonthlyCounter(rows, bulan, id);
      SelectAtMostKeyCount(rows, bulan, id);
      assert KeyCount(rows, id) <= 1;
    }
    assert Prune(t.summary, t.counter, MonthlyMinRows, t.summary.Keys) == map[];
    ValuesEntries(t.order, Prune(t.summary, t.counter, MonthlyMinRows, t.summary.Keys));
  }
}
