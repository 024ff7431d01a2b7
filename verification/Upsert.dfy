/**
 * The upsert step shared by the weekly and monthly rollups. For each
 * summary, the first target row whose column 0 equals the summary's id has
 * columns 1 to 8 overwritten; when no loaded row has that id, a new
 * nine-column row is appended. Only the rows loaded before the pass are
 * searched.
 */
module Upsert {
  import opened Js

  /** A row's raw cells (`_rawData`). */
  type Row = seq<string>

  /** Column 0 of a row, if it has one. */
  function Key(row: Row): Option<string> {
    if |row| >= 1 then Some(row[0]) else None
  }

  /** `r._rawData[0] === id`. */
  predicate Keyed(row: Row, id: string) {
    Key(row) == Some(id)
  }

  /** `rows.find(r => r._rawData[0] === id)`, as the index of the row found. */
  function FindRow(rows: seq<Row>, id: string): (r: Option<nat>)
    ensures r.Some? ==> r.value < |rows| && Keyed(rows[r.value], id)
    ensures r.Some? ==> forall j :: 0 <= j < r.value ==> !Keyed(rows[j], id)
    ensures r.None? ==> forall j :: 0 <= j < |rows| ==> !Keyed(rows[j], id)
    decreases |rows|
  {
    if rows == [] then None
    else if Keyed(rows[0], id) then Some(0)
    else
      var rest := FindRow(rows[1..], id);
      assert forall j :: 1 <= j < |rows| ==> rows[j] == rows[1..][j - 1];
      match rest
      case None => None
      case Some(i) => Some(i + 1)
  }

  /** A summary to write: its id and the eight cells of columns 1 to 8. */
  datatype Entry = Entry(id: string, cells: seq<string>)

  predicate WellFormed(e: Entry) {
    |e.cells| == 8
  }

  predicate AllWellFormed(es: seq<Entry>) {
    forall k :: 0 <= k < |es| ==> WellFormed(es[k])
  }

  /** No two summaries share an id. */
  predicate DistinctIds(es: seq<Entry>) {
    forall k, l :: 0 <= k < l < |es| ==> es[k].id != es[l].id
  }

  /** The id of some summary in `es`. */
  predicate HasId(es: seq<Entry>, id: string) {
    exists k :: 0 <= k < |es| && es[k].id == id
  }

  /**
   * `existing._rawData[1..8] = ...`: columns 1 to 8 take the summary's cells;
   * column 0 and any column past 8 keep their values, and a shorter row grows.
   */
  function Overwrite(row: Row, cells: seq<string>): (r: Row)
    requires |row| >= 1 && |cells| == 8
    ensures |r| == if |row| > 9 then |row| else 9
    ensures Key(r) == Key(row) && r[0] == row[0] && r[1..9] == cells
    ensures forall k :: 9 <= k < |r| ==> r[k] == row[k]
  {
    [row[0]] + cells + (if |row| > 9 then row[9..] else [])
  }

  /** `addRow([id, ...cells])`: a row keyed by the summary's id, followed by its cells. */
  function NewRow(e: Entry): (r: Row)
    ensures Keyed(r, e.id) && |r| == |e.cells| + 1 && r[0] == e.id && r[1..] == e.cells
  {
    [e.id] + e.cells
  }

  /**
   * One step of the upsert for summary `e`, `find` searching the first `n`
   * rows (those loaded before the pass): the first row with the summary's id
   * is overwritten and nothing else changes, or, when none of them has that
   * id, exactly one nine-cell row is appended.
   */
  function UpsertOne(rows: seq<Row>, n: nat, e: Entry): (r: seq<Row>)
    requires n <= |rows| && WellFormed(e)
    ensures (exists j :: 0 <= j < n && Keyed(rows[j], e.id)) ==>
      && |r| == |rows|
      && exists i :: 0 <= i < n && Keyed(rows[i], e.id)
           && (forall j :: 0 <= j < i ==> !Keyed(rows[j], e.id))
           && r[i] == Overwrite(rows[i], e.cells)
           && (forall j :: 0 <= j < |rows| && j != i ==> r[j] == rows[j])
    ensures (forall j :: 0 <= j < n ==> !Keyed(rows[j], e.id)) ==>
      r == rows + [[e.id] + e.cells] && |r[|rows|]| == 9
  {
    assert forall j :: 0 <= j < n ==> rows[j] == rows[..n][j];
    match FindRow(rows[..n], e.id)
    case Some(i) =>
      var r := rows[i := Overwrite(rows[i], e.cells)];
      assert Keyed(rows[i], e.id) && r[i] == Overwrite(rows[i], e.cells);
      r
    case None => rows + [NewRow(e)]
  }

  /** The upsert pass over the summaries in order, with `find` over the `n` loaded rows. */
  function UpsertAll(rows: seq<Row>, n: nat, es: seq<Entry>): (r: seq<Row>)
    requires n <= |rows| && AllWellFormed(es)
    ensures |rows| <= |r| <= |rows| + |es|
    decreases |es|
  {
    if es == [] then rows
    else UpsertOne(UpsertAll(rows, n, es[..|es| - 1]), n, es[|es| - 1])
  }

  /** The same pass if `find` searched the live rows, appended ones included. */
  function UpsertLive(rows: seq<Row>, es: seq<Entry>): (r: seq<Row>)
    requires AllWellFormed(es)
    ensures |r| >= |rows|
    decreases |es|
  {
    if es == [] then rows
    else
      var prev := UpsertLive(rows, es[..|es| - 1]);
      UpsertOne(prev, |prev|, es[|es| - 1])
  }

  // ---------------------------------------------------------------------
  // What the pass leaves alone

  /**
   * The pass keeps every loaded row's column 0, leaves the rows of ids no
   * summary has exactly as they were, and only appends rows of summaries.
   */
  lemma {:induction false} UpsertAllFrame(rows: seq<Row>, n: nat, es: seq<Entry>)
    requires n <= |rows| && AllWellFormed(es)
    ensures var r := UpsertAll(rows, n, es);
      && (forall j :: 0 <= j < |rows| ==> Key(r[j]) == Key(rows[j]))
      && (forall j :: 0 <= j < |rows| && (forall k :: 0 <= k < |es| ==> !Keyed(rows[j], es[k].id)) ==> r[j] == rows[j])
      && (forall j :: |rows| <= j < |r| ==> exists k :: 0 <= k < |es| && r[j] == NewRow(es[k]))
    decreases |es|
  {
    if es != [] {
      var init := es[..|es| - 1];
      var e := es[|es| - 1];
      assert forall k :: 0 <= k < |init| ==> init[k] == es[k];
      UpsertAllFrame(rows, n, init);
      var prev := UpsertAll(rows, n, init);
      UpsertOneFrame(prev, n, e);
      var r := UpsertOne(prev, n, e);
      forall j | |rows| <= j < |r| ensures exists k :: 0 <= k < |es| && r[j] == NewRow(es[k]) {
        if j < |prev| {
          var k :| 0 <= k < |init| && prev[j] == NewRow(init[k]);
          assert r[j] == NewRow(es[k]);
        } else {
          assert r[j] == NewRow(es[|es| - 1]);
        }
      }
    }
  }

  /**
   * One step keeps every row's column 0, changes only a loaded row of the
   * summary's id, and appends nothing but the summary's own row.
   */
  lemma UpsertOneFrame(rows: seq<Row>, n: nat, e: Entry)
    requires n <= |rows| && WellFormed(e)
    ensures var r := UpsertOne(rows, n, e);
      && |rows| <= |r| <= |rows| + 1
      && (forall j :: 0 <= j < |rows| ==> Key(r[j]) == Key(rows[j]))
      && (forall j :: 0 <= j < |rows| && (n <= j || !Keyed(rows[j], e.id)) ==> r[j] == rows[j])
      && (forall j :: |rows| <= j < |r| ==> r[j] == NewRow(e))
  {
    var r := UpsertOne(rows, n, e);
    match FindRow(rows[..n], e.id)
    case Some(i) =>
      assert rows[..n][i] == rows[i];
      assert Key(r[i]) == Key(rows[i]);
    case None =>
      assert r == rows + [NewRow(e)];
  }

  // ---------------------------------------------------------------------
  // Searching the loaded rows is searching the live rows

  lemma FindRowPrefix(rows: seq<Row>, n: nat, id: string)
    requires n <= |rows|
    requires forall j :: n <= j < |rows| ==> !Keyed(rows[j], id)
    ensures FindRow(rows[..n], id) == FindRow(rows, id)
  {
    var a, b := FindRow(rows[..n], id), FindRow(rows, id);
    assert forall j :: 0 <= j < n ==> rows[..n][j] == rows[j];
    if a.Some? {
      assert b.Some? && b.value == a.value;
    } else {
      assert forall j :: 0 <= j < |rows| ==> !Keyed(rows[j], id);
    }
  }

  /**
   * With distinct ids, `find` over the loaded rows finds what a search of
   * the live rows would: the appended rows carry other summaries' ids.
   */
  lemma {:induction false} SnapshotIsLive(rows: seq<Row>, es: seq<Entry>)
    requires AllWellFormed(es) && DistinctIds(es)
    ensures UpsertAll(rows, |rows|, es) == UpsertLive(rows, es)
    decreases |es|
  {
    if es != [] {
      var n := |rows|;
      var init := es[..|es| - 1];
      var e := es[|es| - 1];
      assert forall k :: 0 <= k < |init| ==> init[k] == es[k];
      SnapshotIsLive(rows, init);
      var prev := UpsertAll(rows, n, init);
      UpsertAllFrame(rows, n, init);
      forall j | n <= j < |prev| ensures !Keyed(prev[j], e.id) {
        var k :| 0 <= k < |init| && prev[j] == NewRow(init[k]);
        assert init[k].id != e.id;
      }
      FindRowPrefix(prev, n, e.id);
      assert prev[..|prev|] == prev;
    }
  }

  // ---------------------------------------------------------------------
  // Idempotence

  /** The row of `e`'s id is already the one the upsert would write. */
  predicate Settled(rows: seq<Row>, e: Entry) {
    && WellFormed(e)
    && match FindRow(rows, e.id)
       case None => false
       case Some(i) => rows[i] == Overwrite(rows[i], e.cells)
  }

  lemma SettledIsFixed(rows: seq<Row>, e: Entry)
    requires Settled(rows, e)
    ensures UpsertOne(rows, |rows|, e) == rows
  {
    assert rows[..|rows|] == rows;
  }

  lemma UpsertSettles(rows: seq<Row>, e: Entry)
    requires WellFormed(e)
    ensures Settled(UpsertOne(rows, |rows|, e), e)
  {
    assert rows[..|rows|] == rows;
    var r := UpsertOne(rows, |rows|, e);
    match FindRow(rows, e.id)
    case Some(i) =>
      assert FindRow(r, e.id) == Some(i);
    case None =>
      assert FindRow(r, e.id) == Some(|rows|);
  }

  lemma SettledStays(rows: seq<Row>, settled: Entry, e: Entry)
    requires Settled(rows, settled) && WellFormed(e) && settled.id != e.id
    ensures Settled(UpsertOne(rows, |rows|, e), settled)
  {
    assert rows[..|rows|] == rows;
    var r := UpsertOne(rows, |rows|, e);
    var i1 := FindRow(rows, settled.id).value;
    match FindRow(rows, e.id)
    case Some(i2) =>
      assert i1 != i2;
      assert forall j :: 0 <= j < |rows| ==> Key(r[j]) == Key(rows[j]);
      assert FindRow(r, settled.id) == Some(i1);
    case None =>
      assert forall j :: 0 <= j < |rows| ==> r[j] == rows[j];
      assert FindRow(r, settled.id) == Some(i1);
  }

  /** After a pass over summaries with distinct ids, every one of them is settled. */
  lemma {:induction false} UpsertLiveSettlesAll(rows: seq<Row>, es: seq<Entry>)
    requires AllWellFormed(es) && DistinctIds(es)
    ensures forall k :: 0 <= k < |es| ==> Settled(UpsertLive(rows, es), es[k])
    decreases |es|
  {
    if es != [] {
      var init := es[..|es| - 1];
      var e := es[|es| - 1];
      assert forall k :: 0 <= k < |init| ==> init[k] == es[k];
      UpsertLiveSettlesAll(rows, init);
      var prev := UpsertLive(rows, init);
      assert UpsertLive(rows, es) == UpsertOne(prev, |prev|, e);
      forall k | 0 <= k < |es| ensures Settled(UpsertOne(prev, |prev|, e), es[k]) {
        if k < |init| {
          SettledStays(prev, init[k], e);
        } else {
          UpsertSettles(prev, e);
        }
      }
    }
  }

  /** A pass over summaries that are all settled changes nothing. */
  lemma {:induction false} SettledPassIsIdentity(rows: seq<Row>, es: seq<Entry>)
    requires AllWellFormed(es)
    requires forall k :: 0 <= k < |es| ==> Settled(rows, es[k])
    ensures UpsertLive(rows, es) == rows
    decreases |es|
  {
    if es != [] {
      var init := es[..|es| - 1];
      assert forall k :: 0 <= k < |init| ==> init[k] == es[k];
      SettledPassIsIdentity(rows, init);
      SettledIsFixed(rows, es[|es| - 1]);
    }
  }

  /**
   * Running the same upsert pass twice gives the sheet the first run gave:
   * the second run finds the rows the first one wrote or appended and
   * rewrites them with the same cells.
   */
  lemma UpsertIdempotent(rows: seq<Row>, es: seq<Entry>)
    requires AllWellFormed(es) && DistinctIds(es)
    ensures var once := UpsertAll(rows, |rows|, es);
      UpsertAll(once, |once|, es) == once
  {
    var once := UpsertAll(rows, |rows|, es);
    SnapshotIsLive(rows, es);
    SnapshotIsLive(once, es);
    UpsertLiveSettlesAll(rows, es);
    SettledPassIsIdentity(once, es);
  }

  // ---------------------------------------------------------------------
  // Rows per id

  /** How many rows have `id` in column 0. */
  function KeyCount(rows: seq<Row>, id: string): nat
    decreases |rows|
  {
    if rows == [] then 0
    else KeyCount(rows[..|rows| - 1], id) + (if Keyed(rows[|rows| - 1], id) then 1 else 0)
  }

  lemma {:induction false} KeyCountSameKeys(a: seq<Row>, b: seq<Row>, id: string)
    requires |a| == |b|
    requires forall j :: 0 <= j < |a| ==> Key(a[j]) == Key(b[j])
    ensures KeyCount(a, id) == KeyCount(b, id)
    decreases |a|
  {
    if a != [] {
      KeyCountSameKeys(a[..|a| - 1], b[..|b| - 1], id);
    }
  }

  lemma {:induction false} KeyCountFound(rows: seq<Row>, id: string)
    ensures FindRow(rows, id).None? <==> KeyCount(rows, id) == 0
    decreases |rows|
  {
    if rows != [] {
      var init := rows[..|rows| - 1];
      KeyCountFound(init, id);
      assert forall j :: 0 <= j < |init| ==> init[j] == rows[j];
      if FindRow(init, id).Some? {
        assert FindRow(rows, id).Some? by {
          assert Keyed(rows[FindRow(init, id).value], id);
        }
      }
    }
  }

  function Max1(c: nat): nat {
    if c == 0 then 1 else c
  }

  lemma UpsertOneCount(rows: seq<Row>, e: Entry, id: string)
    requires WellFormed(e)
    ensures KeyCount(UpsertOne(rows, |rows|, e), id)
            == if id == e.id then Max1(KeyCount(rows, id)) else KeyCount(rows, id)
  {
    assert rows[..|rows|] == rows;
    var r := UpsertOne(rows, |rows|, e);
    KeyCountFound(rows, e.id);
    match FindRow(rows, e.id)
    case Some(i) =>
      assert forall j :: 0 <= j < |rows| ==> Key(r[j]) == Key(rows[j]);
      KeyCountSameKeys(r, rows, id);
    case None =>
      assert r[..|r| - 1] == rows;
  }

  /**
   * After a pass over summaries with distinct ids, each summarised id has
   * as many rows as before, or exactly one if it had none; every other id
   * keeps its count.
   */
  lemma {:induction false} UpsertCounts(rows: seq<Row>, es: seq<Entry>, id: string)
    requires AllWellFormed(es) && DistinctIds(es)
    ensures KeyCount(UpsertAll(rows, |rows|, es), id)
            == if HasId(es, id) then Max1(KeyCount(rows, id)) else KeyCount(rows, id)
    decreases |es|
  {
    SnapshotIsLive(rows, es);
    UpsertLiveCounts(rows, es, id);
  }

  lemma {:induction false} UpsertLiveCounts(rows: seq<Row>, es: seq<Entry>, id: string)
    requires AllWellFormed(es) && DistinctIds(es)
    ensures KeyCount(UpsertLive(rows, es), id)
            == if HasId(es, id) then Max1(KeyCount(rows, id)) else KeyCount(rows, id)
    decreases |es|
  {
    if es != [] {
      var init := es[..|es| - 1];
      var e := es[|es| - 1];
      assert forall k :: 0 <= k < |init| ==> init[k] == es[k];
      UpsertLiveCounts(rows, init, id);
      var prev := UpsertLive(rows, init);
      assert UpsertLive(rows, es) == UpsertOne(prev, |prev|, e);
      UpsertOneCount(prev, e, id);
      HasIdStep(es, id);
    }
  }

  /** The ids of a list of summaries are those of its prefix and that of its last one, which is new to the prefix. */
  lemma HasIdStep(es: seq<Entry>, id: string)
    requires |es| > 0 && DistinctIds(es)
    ensures var init := es[..|es| - 1];
      && (HasId(es, id) <==> HasId(init, id) || es[|es| - 1].id == id)
      && (es[|es| - 1].id == id ==> !HasId(init, id))
  {
    var init := es[..|es| - 1];
    assert forall k :: 0 <= k < |init| ==> init[k] == es[k];
    if HasId(es, id) && es[|es| - 1].id != id {
      var k :| 0 <= k < |es| && es[k].id == id;
      assert init[k].id == id;
    }
  }

  /** At most one row per id. */
  ghost predicate OneRowPerId(rows: seq<Row>) {
    forall id :: KeyCount(rows, id) <= 1
  }

  /**
   * A sheet with at most one row per id keeps that shape through the
   * pass, and then holds exactly one row for each summarised id.
   */
  lemma UpsertKeepsOneRowPerId(rows: seq<Row>, es: seq<Entry>)
    requires AllWellFormed(es) && DistinctIds(es)
    requires OneRowPerId(rows)
    ensures OneRowPerId(UpsertAll(rows, |rows|, es))
    ensures forall k :: 0 <= k < |es| ==> KeyCount(UpsertAll(rows, |rows|, es), es[k].id) == 1
  {
    forall id ensures KeyCount(UpsertAll(rows, |rows|, es), id) <= 1 {
      UpsertCounts(rows, es, id);
    }
    forall k | 0 <= k < |es| ensures KeyCount(UpsertAll(rows, |rows|, es), es[k].id) == 1 {
      UpsertCounts(rows, es, es[k].id);
    }
  }
}
