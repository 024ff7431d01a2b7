/**
 * The attendance workbook: a daily sheet that receives one row per
 * attendance record, and the weekly and monthly recap sheets rebuilt from
 * it. Each sheet is the sequence of its rows' raw cells; a sheet name
 * missing from the workbook is the "Sheet not found" failure, which writes
 * nothing.
 */
module Spreadsheets {
  import opened Js
  import opened Upsert
  import opened Rollup

  // ---------------------------------------------------------------------
  // The period stamp

  /**
   * `getTanggal()` on a clock reading: `${year}-${getMonth()}-${getDate()}`,
   * where the month index counts from 0 and `padStart(0, '2')` pads nothing.
   */
  function GetTanggal(year: nat, monthIndex: nat, date: nat): (r: string)
    ensures Split(r, '-') == [NatToDigits(year), NatToDigits(monthIndex), NatToDigits(date)]
  {
    var y, m, d := NatToDigits(year), NatToDigits(monthIndex), NatToDigits(date);
    NoDash(year);
    NoDash(monthIndex);
    NoDash(date);
    assert y + "-" + m + "-" + d == y + ['-'] + (m + ['-'] + d);
    SplitFirst(y, m + ['-'] + d, '-');
    SplitTwo(m, d, '-');
    y + "-" + m + "-" + d
  }

  /**
   * `${split[0]}-${split[1]}` of `today.split('-')`; a missing second piece
   * is rendered as the text "undefined".
   */
  function MonthStamp(today: string): (r: string)
    ensures '-' !in today ==> r == today + "-undefined"
  {
    var parts := Split(today, '-');
    parts[0] + "-" + (if |parts| > 1 then parts[1] else "undefined")
  }

  lemma NoDash(n: nat)
    ensures '-' !in NatToDigits(n)
  {
    var s := NatToDigits(n);
    assert !IsDigit('-');
    assert forall i :: 0 <= i < |s| ==> IsDigit(s[i]);
  }

  /** The stamp is the year and the zero-based month index, unpadded. */
  lemma MonthStampOfTanggal(year: nat, monthIndex: nat, date: nat)
    ensures MonthStamp(GetTanggal(year, monthIndex, date)) == NatToDigits(year) + "-" + NatToDigits(monthIndex)
  {
  }

  /**
   * Unpadded stamps are prefixes of one another: a monthly recap asked for
   * month index 1 also counts weekly rows stamped with month index 10 or 11.
   */
  lemma MonthFilterOverlaps(year: nat)
    ensures StartsWith(NatToDigits(year) + "-" + NatToDigits(10), NatToDigits(year) + "-" + NatToDigits(1))
    ensures StartsWith(NatToDigits(year) + "-" + NatToDigits(11), NatToDigits(year) + "-" + NatToDigits(1))
  {
    assert NatToDigits(10) == NatToDigits(1) + NatToDigits(0);
    assert NatToDigits(11) == NatToDigits(1) + NatToDigits(1);
  }

  // ---------------------------------------------------------------------
  // The daily record

  /** The fields of a daily record as sent; `None` is a missing field. */
  datatype Daily = Daily(id: Option<string>, nama: Option<string>, jabatan: Option<string>,
                         waktu: Option<string>, status: Option<string>)

  /** `field || ''` for a text field. */
  function OrEmpty(v: Option<string>): string {
    if v.Some? then v.value else ""
  }

  /** The five cells `addRow` sends for a record. */
  function DailyCells(d: Daily): seq<string> {
    [OrEmpty(d.id), OrEmpty(d.nama), OrEmpty(d.jabatan), OrEmpty(d.waktu), OrEmpty(d.status)]
  }

  /** A row as `getRows` reads it back: trailing empty cells are not returned. */
  function DropTrailingEmpty(cells: seq<string>): (r: Row)
    ensures |r| <= |cells| && r == cells[..|r|]
    ensures r == [] || r[|r| - 1] != ""
    ensures forall i :: |r| <= i < |cells| ==> cells[i] == ""
    decreases |cells|
  {
    if cells == [] || cells[|cells| - 1] != "" then cells
    else DropTrailingEmpty(cells[..|cells| - 1])
  }

  /**
   * The daily row a record becomes: its five cells up to the last one that
   * is not empty.
   */
  function DailyRow(d: Daily): (r: Row)
    ensures |r| <= 5 && forall i :: 0 <= i < |r| ==> r[i] == DailyCells(d)[i]
    ensures forall i :: |r| <= i < 5 ==> DailyCells(d)[i] == ""
    ensures r == [] || r[|r| - 1] != ""
  {
    DropTrailingEmpty(DailyCells(d))
  }

  /**
   * An appended record leaves the daily sheet readable by the weekly recap
   * exactly when it has a `waktu` or a `status`; without either it reads
   * back shorter than four cells and every later weekly recap fails. When
   * readable, it is one more row of its id, and one more row of its status
   * (in any letter case) when that is counted.
   */
  lemma DailyRowCounted(rows: seq<Row>, d: Daily, status: string)
    requires AllReadable(rows)
    ensures var after := rows + [DailyRow(d)];
      AllReadable(after) <==> OrEmpty(d.waktu) != "" || OrEmpty(d.status) != ""
    ensures var after := rows + [DailyRow(d)];
      AllReadable(after) ==>
      && |RowsOf(after, OrEmpty(d.id))| == |RowsOf(rows, OrEmpty(d.id))| + 1
      && (Lower(OrEmpty(d.status)) == status ==>
            |RowsWithStatus(after, OrEmpty(d.id), status)| == |RowsWithStatus(rows, OrEmpty(d.id), status)| + 1)
  {
    var row := DailyRow(d);
    var after := rows + [row];
    assert after[..|rows|] == rows;
    assert after[|rows|] == row;
    assert AllReadable(after) <==> Readable(row);
    if OrEmpty(d.status) != "" {
      assert |row| == 5;
    } else if OrEmpty(d.waktu) != "" {
      assert |row| == 4;
    } else {
      assert |row| < 4;
    }
    if Readable(row) {
      assert Cell(row, 0) == OrEmpty(d.id);
      assert Cell(row, 4) == OrEmpty(d.status);
      RowsOfStep(after, OrEmpty(d.id));
      RowsWithStatusStep(after, OrEmpty(d.id), status);
    }
  }

  // ---------------------------------------------------------------------
  // The loops of the recaps

  /**
   * The weekly `forEach` callback on one daily row with a `waktu` cell:
   * creates the group of a new id, then counts the row into its group.
   */
  method CountDailyRow(summary: map<string, WeekAcc>, counter: map<string, nat>, order: seq<string>, row: Row)
    returns (summary': map<string, WeekAcc>, counter': map<string, nat>, order': seq<string>)
    requires Readable(row) && Coherent(Tally(summary, counter, order))
    ensures Tally(summary', counter', order') == TallyDaily(Tally(summary, counter, order), row)
  {
    summary', counter', order' := summary, counter, order;
    var id := row[0];
    var status := Lower(Cell(row, 4));
    var tgl := Split(row[3], ' ')[0];
    if id !in summary' {
      summary' := summary'[id := WeekAcc(row[1], row[2], 0, 0, 0, {})];
      counter' := counter'[id := 0];
      order' := order' + [id];
    }
    counter' := counter'[id := counter'[id] + 1];
    var acc := summary'[id];
    if status == "masuk" {
      acc := acc.(masuk := acc.masuk + 1);
    }
    if status == "terlambat" {
      acc := acc.(terlambat := acc.terlambat + 1);
    }
    if status == "lembur" {
      acc := acc.(lembur := acc.lembur + 1);
    }
    if status == "masuk" || status == "terlambat" {
      acc := acc.(hadirTanggal := acc.hadirTanggal + {tgl});
    }
    summary' := summary'[id := acc];
  }

  /**
   * The weekly `forEach` over the daily rows, updating `summary`, `counter`
   * and the key order in place. It stops with `readable` false at the
   * first row without a `waktu` cell, where the source throws.
   */
  method TallyDays(rows: seq<Row>) returns (t: Tally<WeekAcc>, readable: bool)
    ensures readable <==> AllReadable(rows)
    ensures readable ==> t == WeeklyTally(rows)
  {
    var summary: map<string, WeekAcc> := map[];
    var counter: map<string, nat> := map[];
    var order: seq<string> := [];
    var i := 0;
    while i < |rows|
      invariant 0 <= i <= |rows|
      invariant forall j :: 0 <= j < i ==> Readable(rows[j])
      invariant AllReadable(rows[..i])
      invariant Tally(summary, counter, order) == WeeklyTally(rows[..i])
    {
      if |rows[i]| < 4 {
        assert !Readable(rows[i]);
        return Tally(summary, counter, order), false;
      }
      WeeklyTallyStep(rows, i);
      summary, counter, order := CountDailyRow(summary, counter, order, rows[i]);
      i := i + 1;
    }
    assert rows[..i] == rows;
    return Tally(summary, counter, order), true;
  }

  /** The monthly `forEach` callback on one weekly row; a row outside `bulan` returns early. */
  method CountWeeklyRow(summary: map<string, MonthAcc>, counter: map<string, nat>, order: seq<string>, row: Row,
                        bulan: string)
    returns (summary': map<string, MonthAcc>, counter': map<string, nat>, order': seq<string>)
    requires Coherent(Tally(summary, counter, order))
    ensures Tally(summary', counter', order') == TallyWeekly(Tally(summary, counter, order), row, bulan)
  {
    summary', counter', order' := summary, counter, order;
    var id := Cell(row, 0);
    var mingguTanggal := Cell(row, 3);
    if !StartsWith(mingguTanggal, bulan) {
      assert !InMonth(row, bulan);
      return;
    }
    if id !in summary' {
      summary' := summary'[id := MonthAcc(Cell(row, 1), Cell(row, 2), Finite(0), Finite(0), Finite(0), Finite(0))];
      counter' := counter'[id := 0];
      order' := order' + [id];
    }
    ghost var acc0 := summary'[id];
    TallyWeeklyOrder(Tally(summary, counter, order), row, bulan);
    counter' := counter'[id := counter'[id] + 1];
    var acc := summary'[id];
    acc := acc.(masuk := Add(acc.masuk, ParseNumber(Cell(row, 4))));
    acc := acc.(terlambat := Add(acc.terlambat, ParseNumber(Cell(row, 5))));
    acc := acc.(lembur := Add(acc.lembur, ParseNumber(Cell(row, 6))));
    acc := acc.(tidakMasuk := Add(acc.tidakMasuk, ParseNumber(Cell(row, 7))));
    assert acc == AddWeekly(acc0, row);
    summary' := summary'[id := acc];
  }

  /** The monthly `forEach` over the weekly rows. */
  method TallyWeeks(rows: seq<Row>, bulan: string) returns (t: Tally<MonthAcc>)
    ensures t == MonthlyTally(rows, bulan)
  {
    var summary: map<string, MonthAcc> := map[];
    var counter: map<string, nat> := map[];
    var order: seq<string> := [];
    for i := 0 to |rows|
      invariant Tally(summary, counter, order) == MonthlyTally(rows[..i], bulan)
    {
      assert rows[..i + 1][..i] == rows[..i];
      summary, counter, order := CountWeeklyRow(summary, counter, order, rows[i], bulan);
    }
    assert rows[..|rows|] == rows;
    return Tally(summary, counter, order);
  }

  /** `Object.keys(summary).forEach(id => { if (counter[id] < min) delete summary[id]; })`. */
  method PruneGroups<V>(t: Tally<V>, min: nat) returns (kept: map<string, V>)
    requires Coherent(t)
    ensures kept == Prune(t.summary, t.counter, min, t.summary.Keys)
    ensures forall x :: x in kept <==> x in t.summary && t.counter[x] >= min
  {
    kept := t.summary;
    assert kept == Prune(t.summary, t.counter, min, {});
    for k := 0 to |t.order|
      invariant kept == Prune(t.summary, t.counter, min, set x | x in t.order[..k])
    {
      var id := t.order[k];
      assert forall x :: x in t.order[..k + 1] <==> x in t.order[..k] || x == id;
      if t.counter[id] < min {
        kept := kept - {id};
      }
    }
    assert t.order[..|t.order|] == t.order;
    assert (set x | x in t.order) == t.summary.Keys;
  }

  /**
   * `Object.values(summary).forEach(...)` for the weekly recap: each
   * surviving group, in key order, gets its absences and attended share.
   */
  method FinishWeeks(order: seq<string>, kept: map<string, WeekAcc>, totalHariKerja: Number, percent: Percent)
    returns (data: seq<Summary>)
    ensures data == WeekSummaries(Values(order, kept), totalHariKerja, percent)
  {
    data := [];
    for k := 0 to |order|
      invariant data == WeekSummaries(Values(order[..k], kept), totalHariKerja, percent)
    {
      var id := order[k];
      ValuesStep(order, k, kept);
      if id in kept {
        WeekSummariesStep(Values(order[..k], kept), (id, kept[id]), totalHariKerja, percent);
        var s := kept[id];
        var totalHadirHari := Finite(|s.hadirTanggal|);
        var tidakMasuk := Sub(totalHariKerja, totalHadirHari);
        var persentase := percent(totalHadirHari, totalHariKerja);
        data := data + [Summary(id, s.nama, s.jabatan, Finite(s.masuk), Finite(s.terlambat), Finite(s.lembur),
                                tidakMasuk, persentase)];
      }
    }
    assert order[..|order|] == order;
  }

  /** The same for the monthly recap, whose attended share counts masuk and terlambat. */
  method FinishMonths(order: seq<string>, kept: map<string, MonthAcc>, totalHariKerja: Number, percent: Percent)
    returns (data: seq<Summary>)
    ensures data == MonthSummaries(Values(order, kept), totalHariKerja, percent)
  {
    data := [];
    for k := 0 to |order|
      invariant data == MonthSummaries(Values(order[..k], kept), totalHariKerja, percent)
    {
      var id := order[k];
      ValuesStep(order, k, kept);
      if id in kept {
        MonthSummariesStep(Values(order[..k], kept), (id, kept[id]), totalHariKerja, percent);
        var s := kept[id];
        var totalHadirHari := Add(s.masuk, s.terlambat);
        var persentase := percent(totalHadirHari, totalHariKerja);
        data := data + [Summary(id, s.nama, s.jabatan, s.masuk, s.terlambat, s.lembur, s.tidakMasuk, persentase)];
      }
    }
    assert order[..|order|] == order;
  }

  /**
   * `rows.find(r => r._rawData[0] === id)` over the first `n` rows: the
   * index of the first of them with that id, or `n` when there is none.
   */
  method FindLoaded(rows: seq<Row>, n: nat, id: string) returns (f: nat)
    requires n <= |rows|
    ensures f <= n
    ensures FindRow(rows[..n], id) == if f < n then Some(f) else None
  {
    f := 0;
    while f < n && !(|rows[f]| >= 1 && rows[f][0] == id)
      invariant 0 <= f <= n
      invariant forall j :: 0 <= j < f ==> !Keyed(rows[j], id)
    {
      f := f + 1;
    }
    assert forall j :: 0 <= j < n ==> rows[..n][j] == rows[j];
  }

  /**
   * The upsert pass: for each summary, `find` scans the rows loaded before
   * the pass, then the row found is overwritten or a new row appended.
   */
  method UpsertRows(rows: seq<Row>, es: seq<Entry>) returns (r: seq<Row>)
    requires AllWellFormed(es)
    ensures r == UpsertAll(rows, |rows|, es)
  {
    r := rows;
    var n := |rows|;
    for k := 0 to |es|
      invariant |r| >= n
      invariant r == UpsertAll(rows, n, es[..k])
    {
      var e := es[k];
      assert es[..k + 1][..k] == es[..k];
      var f := FindLoaded(r, n, e.id);
      if f < n {
        var existing := r[f];
        var cells := e.cells;
        r := r[f := [existing[0]] + cells + (if |existing| > 9 then existing[9..] else [])];
      } else {
        r := r + [[e.id] + e.cells];
      }
    }
    assert es[..|es|] == es;
  }

  // ---------------------------------------------------------------------
  // The workbook

  class Spreadsheet {
    /** Every sheet of the workbook by title, as the rows `getRows` returns. */
    var sheets: map<string, seq<Row>>
    /** The period stamp written to recap rows, fixed at construction. */
    const tanggal: string

    /** `new Spreadsheet()` with the clock reading the constructor takes. */
    constructor (sheets: map<string, seq<Row>>, year: nat, monthIndex: nat, date: nat)
      ensures this.sheets == sheets
      ensures tanggal == NatToDigits(year) + "-" + NatToDigits(monthIndex)
    {
      this.sheets := sheets;
      tanggal := MonthStamp(GetTanggal(year, monthIndex, date));
      MonthStampOfTanggal(year, monthIndex, date);
    }

    /**
     * `setRekapHarian(sheetName, data)`: appends the record's five cells to
     * the named sheet, which then reads back as `DailyRow`; a missing sheet
     * or a missing record writes nothing.
     */
    method SetRekapHarian(sheetName: string, data: Option<Daily>) returns (ok: bool)
      modifies this
      ensures ok <==> sheetName in old(sheets) && data.Some?
      ensures ok ==> sheets == old(sheets)[sheetName := old(sheets)[sheetName] + [DailyRow(data.value)]]
      ensures !ok ==> sheets == old(sheets)
    {
      if sheetName !in sheets || data.None? {
        return false;
      }
      var d := data.value;
      var row := DropTrailingEmpty([OrEmpty(d.id), OrEmpty(d.nama), OrEmpty(d.jabatan), OrEmpty(d.waktu), OrEmpty(d.status)]);
      sheets := sheets[sheetName := sheets[sheetName] + [row]];
      ok := true;
    }

    /**
     * `setRekapMingguan(sheetHarian, sheetMingguan, totalHariKerja)`: the
     * weekly summaries of the daily sheet, upserted into the weekly sheet.
     * It fails, writing nothing, when either sheet is missing or a daily row
     * has no `waktu` cell.
     */
    method SetRekapMingguan(sheetHarian: string, sheetMingguan: string, totalHariKerja: Number, percent: Percent)
      returns (ok: bool)
      modifies this
      ensures ok <==> sheetHarian in old(sheets) && AllReadable(old(sheets)[sheetHarian]) && sheetMingguan in old(sheets)
      ensures ok ==>
        var weekly := old(sheets)[sheetMingguan];
        sheets == old(sheets)[sheetMingguan :=
          UpsertAll(weekly, |weekly|, Entries(WeeklyReport(old(sheets)[sheetHarian], totalHariKerja, percent), tanggal))]
      ensures !ok ==> sheets == old(sheets)
    {
      if sheetHarian !in sheets {
        return false;
      }
      var t, readable := TallyDays(sheets[sheetHarian]);
      if !readable {
        return false;
      }
      var kept := PruneGroups(t, WeeklyMinRows);
      var data := FinishWeeks(t.order, kept, totalHariKerja, percent);
      if sheetMingguan !in sheets {
        return false;
      }
      var written := UpsertRows(sheets[sheetMingguan], Entries(data, tanggal));
      sheets := sheets[sheetMingguan := written];
      ok := true;
    }

    /**
     * `setRekapBulanan(sheetMingguan, sheetBulanan, bulan, totalHariKerja)`:
     * the monthly summaries of the weekly rows stamped with a period that
     * starts with `bulan`, upserted into the monthly sheet. It fails,
     * writing nothing, when either sheet is missing.
     */
    method SetRekapBulanan(sheetMingguan: string, sheetBulanan: string, bulan: string, totalHariKerja: Number,
                           percent: Percent)
      returns (ok: bool)
      modifies this
      ensures ok <==> sheetMingguan in old(sheets) && sheetBulanan in old(sheets)
      ensures ok ==>
        var monthly := old(sheets)[sheetBulanan];
        sheets == old(sheets)[sheetBulanan :=
          UpsertAll(monthly, |monthly|, Entries(MonthlyReport(old(sheets)[sheetMingguan], bulan, totalHariKerja, percent), tanggal))]
      ensures !ok ==> sheets == old(sheets)
    {
      if sheetMingguan !in sheets {
        return false;
      }
      var t := TallyWeeks(sheets[sheetMingguan], bulan);
      var kept := PruneGroups(t, MonthlyMinRows);
      var data := FinishMonths(t.order, kept, totalHariKerja, percent);
      if sheetBulanan !in sheets {
        return false;
      }
      var written := UpsertRows(sheets[sheetBulanan], Entries(data, tanggal));
      sheets := sheets[sheetBulanan := written];
      ok := true;
    }
  }

  // ---------------------------------------------------------------------
  // Properties of the recap writes

  /** The entries a weekly recap writes have distinct ids. */
  lemma WeeklyEntriesDistinct(daily: seq<Row>, totalHariKerja: Number, percent: Percent, tanggal: string)
    requires AllReadable(daily)
    ensures DistinctIds(Entries(WeeklyReport(daily, totalHariKerja, percent), tanggal))
  {
    WeeklyReportDistinct(daily, totalHariKerja, percent);
  }

  /**
   * Running the weekly recap again on the same daily rows leaves the
   * weekly sheet as the first run wrote it.
   */
  lemma WeeklyRerunIdempotent(daily: seq<Row>, weekly: seq<Row>, totalHariKerja: Number, percent: Percent,
                              tanggal: string)
    requires AllReadable(daily)
    ensures var es := Entries(WeeklyReport(daily, totalHariKerja, percent), tanggal);
      var once := UpsertAll(weekly, |weekly|, es);
      UpsertAll(once, |once|, es) == once
  {
    WeeklyEntriesDistinct(daily, totalHariKerja, percent, tanggal);
    UpsertIdempotent(weekly, Entries(WeeklyReport(daily, totalHariKerja, percent), tanggal));
  }

  /**
   * A weekly sheet with at most one row per id keeps that shape, and holds
   * exactly one row for each id the recap reports.
   */
  lemma WeeklyKeepsOneRowPerId(daily: seq<Row>, weekly: seq<Row>, totalHariKerja: Number, percent: Percent,
                               tanggal: string)
    requires AllReadable(daily) && OneRowPerId(weekly)
    ensures var es := Entries(WeeklyReport(daily, totalHariKerja, percent), tanggal);
      var after := UpsertAll(weekly, |weekly|, es);
      && OneRowPerId(after)
      && forall k :: 0 <= k < |es| ==> KeyCount(after, es[k].id) == 1
  {
    WeeklyEntriesDistinct(daily, totalHariKerja, percent, tanggal);
    UpsertKeepsOneRowPerId(weekly, Entries(WeeklyReport(daily, totalHariKerja, percent), tanggal));
  }

  /**
   * After a weekly recap into a weekly sheet with at most one row per id,
   * a monthly recap of that sheet, for any month, writes nothing: no id
   * can reach 22 weekly rows.
   */
  lemma MonthlyAfterWeeklyWritesNothing(daily: seq<Row>, weekly: seq<Row>, monthly: seq<Row>, bulan: string,
                                        totalHariKerja: Number, percent: Percent, tanggal: string)
    requires AllReadable(daily) && OneRowPerId(weekly)
    requires forall j :: 0 <= j < |weekly| ==> |weekly[j]| >= 1
    ensures var after := UpsertAll(weekly, |weekly|, Entries(WeeklyReport(daily, totalHariKerja, percent), tanggal));
      && MonthlyReport(after, bulan, totalHariKerja, percent) == []
      && UpsertAll(monthly, |monthly|, Entries(MonthlyReport(after, bulan, totalHariKerja, percent), tanggal)) == monthly
  {
    var es := Entries(WeeklyReport(daily, totalHariKerja, percent), tanggal);
    var after := UpsertAll(weekly, |weekly|, es);
    WeeklyKeepsOneRowPerId(daily, weekly, totalHariKerja, percent, tanggal);
    UpsertAllFrame(weekly, |weekly|, es);
    forall j | 0 <= j < |after| ensures |after[j]| >= 1 {
      if j < |weekly| {
        assert Key(after[j]) == Key(weekly[j]);
      }
    }
    MonthlyReportEmpty(after, bulan, totalHariKerja, percent);
  }
}
