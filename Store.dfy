/**
 * The `proxies` table of DatabaseManager (daili2/proxy_manager.py), held in
 * memory: its rows in rowid (= `id`) order and the AUTOINCREMENT counter.
 * Timestamps are the integer `now` each statement is run at.
 */
module Store {
  import opened Wrappers

  /** The columns `add_proxy` looks a row up by. */
  datatype Key = Key(ip: string, port: int, protocol: string)

  /** One row of `proxies`; `response_time` is nullable, `is_valid` an INTEGER. */
  datatype Row = Row(id: nat, ip: string, port: int, protocol: string,
                     responseTime: Option<real>, lastChecked: int, isValid: int)

  /** One result row of the two SELECTs: `ip, port, protocol, response_time`. */
  datatype Listing = Listing(ip: string, port: int, protocol: string, responseTime: Option<real>)

  /** The whole persistent state: the rows and the next id AUTOINCREMENT hands out. */
  datatype Table = Table(rows: seq<Row>, nextId: nat)

  function KeyOf(r: Row): Key {
    Key(r.ip, r.port, r.protocol)
  }

  function ListingOf(r: Row): Listing {
    Listing(r.ip, r.port, r.protocol, r.responseTime)
  }

  predicate HasKey(rows: seq<Row>, k: Key) {
    exists i :: 0 <= i < |rows| && KeyOf(rows[i]) == k
  }

  predicate UniqueKeys(rows: seq<Row>) {
    forall i, j :: 0 <= i < j < |rows| ==> KeyOf(rows[i]) != KeyOf(rows[j])
  }

  /**
   * The table invariant: rows are in strictly ascending id order (the order
   * a rowid table is scanned in), and every id is one AUTOINCREMENT has
   * already handed out (positive and below the counter, which starts at 1).
   */
  predicate WellFormed(t: Table) {
    && t.nextId >= 1
    && (forall i, j :: 0 <= i < j < |t.rows| ==> t.rows[i].id < t.rows[j].id)
    && (forall i :: 0 <= i < |t.rows| ==> 0 < t.rows[i].id < t.nextId)
  }

  /** The table that `init_db` creates on a fresh file. */
  const Empty: Table := Table([], 1)

  // ---------------------------------------------------------------------
  // Key lookup
  // ---------------------------------------------------------------------

  /** The index of the first row with key `k`, or `|rows|` when there is none. */
  function Find(rows: seq<Row>, k: Key): (j: nat)
    ensures j <= |rows|
    ensures j < |rows| ==> KeyOf(rows[j]) == k
    ensures forall i :: 0 <= i < j ==> KeyOf(rows[i]) != k
    decreases |rows|
  {
    if rows == [] then 0
    else if KeyOf(rows[0]) == k then 0
    else 1 + Find(rows[1..], k)
  }

  lemma FindHasKey(rows: seq<Row>, k: Key)
    ensures Find(rows, k) < |rows| <==> HasKey(rows, k)
  {
  }

  /** The key set of the rows. */
  function KeySet(rows: seq<Row>): (ks: set<Key>)
    decreases |rows|
  {
    if rows == [] then {} else KeySet(rows[..|rows| - 1]) + {KeyOf(rows[|rows| - 1])}
  }

  /** A table has at most as many keys as rows. */
  lemma {:induction false} KeySetBound(rows: seq<Row>)
    ensures |KeySet(rows)| <= |rows|
    decreases |rows|
  {
    if rows != [] {
      KeySetBound(rows[..|rows| - 1]);
    }
  }

  lemma {:induction false} KeySetHasKey(rows: seq<Row>)
    ensures forall k :: k in KeySet(rows) <==> HasKey(rows, k)
    decreases |rows|
  {
    if rows != [] {
      var init := rows[..|rows| - 1];
      KeySetHasKey(init);
      forall k ensures HasKey(init, k) ==> HasKey(rows, k) {
        if HasKey(init, k) {
          var i :| 0 <= i < |init| && KeyOf(init[i]) == k;
          assert KeyOf(rows[i]) == k;
        }
      }
      forall k | HasKey(rows, k) ensures k in KeySet(rows) {
        var i :| 0 <= i < |rows| && KeyOf(rows[i]) == k;
        if i < |init| {
          assert KeyOf(init[i]) == k;
        }
      }
    }
  }

  /** Rows with pairwise distinct keys have exactly as many keys as rows. */
  lemma {:induction false} UniqueKeySetSize(rows: seq<Row>)
    requires UniqueKeys(rows)
    ensures |KeySet(rows)| == |rows|
    decreases |rows|
  {
    if rows != [] {
      var init := rows[..|rows| - 1];
      UniqueKeySetSize(init);
      KeySetHasKey(init);
      assert forall i :: 0 <= i < |init| ==> init[i] == rows[i];
      assert !HasKey(init, KeyOf(rows[|rows| - 1]));
    }
  }

  // ---------------------------------------------------------------------
  // add_proxy
  // ---------------------------------------------------------------------

  /**
   * `add_proxy`: the key is looked up, and only when it is absent a row is
   * inserted with the next id, `last_checked = now` and the column default
   * `is_valid = 1`.
   */
  function Add(t: Table, ip: string, port: int, protocol: string, rt: Option<real>, now: int): Table {
    if HasKey(t.rows, Key(ip, port, protocol)) then t
    else Table(t.rows + [Row(t.nextId, ip, port, protocol, rt, now, 1)], t.nextId + 1)
  }

  /** After an add the key is present, and the table still has one row per key. */
  lemma AddKeepsUnique(t: Table, ip: string, port: int, protocol: string, rt: Option<real>, now: int)
    requires UniqueKeys(t.rows)
    ensures var r := Add(t, ip, port, protocol, rt, now);
      UniqueKeys(r.rows) && HasKey(r.rows, Key(ip, port, protocol))
      && KeySet(r.rows) == KeySet(t.rows) + {Key(ip, port, protocol)}
  {
    var r := Add(t, ip, port, protocol, rt, now);
    var k := Key(ip, port, protocol);
    KeySetHasKey(t.rows);
    if !HasKey(t.rows, k) {
      assert r.rows[..|r.rows| - 1] == t.rows;
      assert KeyOf(r.rows[|r.rows| - 1]) == k;
    }
  }

  lemma AddKeepsWellFormed(t: Table, ip: string, port: int, protocol: string, rt: Option<real>, now: int)
    requires WellFormed(t)
    ensures WellFormed(Add(t, ip, port, protocol, rt, now))
  {
    var r := Add(t, ip, port, protocol, rt, now);
    if !HasKey(t.rows, Key(ip, port, protocol)) {
      assert forall i :: 0 <= i < |t.rows| ==> r.rows[i] == t.rows[i];
    }
  }

  /** An add appends at most one row behind the old ones. */
  lemma AddExtends(t: Table, ip: string, port: int, protocol: string, rt: Option<real>, now: int)
    ensures var r := Add(t, ip, port, protocol, rt, now);
      |t.rows| <= |r.rows| <= |t.rows| + 1 && r.rows[..|t.rows|] == t.rows
  {
    var r := Add(t, ip, port, protocol, rt, now);
    if !HasKey(t.rows, Key(ip, port, protocol)) {
      assert r.rows[..|t.rows|] == t.rows;
    }
  }

  /** A second identical add inserts nothing. */
  lemma AddTwice(t: Table, ip: string, port: int, protocol: string, rt: Option<real>, rt': Option<real>, now: int, now': int)
    ensures var once := Add(t, ip, port, protocol, rt, now);
      Add(once, ip, port, protocol, rt', now') == once
  {
    var once := Add(t, ip, port, protocol, rt, now);
    if !HasKey(t.rows, Key(ip, port, protocol)) {
      assert KeyOf(once.rows[|once.rows| - 1]) == Key(ip, port, protocol);
    }
  }

  // ---------------------------------------------------------------------
  // update_proxy_status
  // ---------------------------------------------------------------------

  predicate AtAddress(r: Row, ip: string, port: int) {
    r.ip == ip && r.port == port
  }

  /** The `UPDATE ... WHERE ip = ? AND port = ?` applied to one row. */
  function Stamp(r: Row, valid: bool, rt: Option<real>, now: int): Row {
    r.(isValid := if valid then 1 else 0, responseTime := rt, lastChecked := now)
  }

  /**
   * `update_proxy_status`: every row at `(ip, port)`, whatever its protocol,
   * gets the new status, response time and timestamp; no other row and no
   * other column changes.
   */
  function Updated(rows: seq<Row>, ip: string, port: int, valid: bool, rt: Option<real>, now: int): (r: seq<Row>)
    ensures |r| == |rows|
    ensures forall i :: 0 <= i < |rows| ==>
      r[i] == if AtAddress(rows[i], ip, port) then Stamp(rows[i], valid, rt, now) else rows[i]
    decreases |rows|
  {
    if rows == [] then []
    else
      var last := rows[|rows| - 1];
      Updated(rows[..|rows| - 1], ip, port, valid, rt, now)
        + [if AtAddress(last, ip, port) then Stamp(last, valid, rt, now) else last]
  }

  /** An update that matches no row changes nothing. */
  lemma UpdatedNoMatch(rows: seq<Row>, ip: string, port: int, valid: bool, rt: Option<real>, now: int)
    requires forall i :: 0 <= i < |rows| ==> !AtAddress(rows[i], ip, port)
    ensures Updated(rows, ip, port, valid, rt, now) == rows
  {
  }

  /** Ids and keys survive an update, so the table invariants do too. */
  lemma UpdatedKeepsKeys(t: Table, ip: string, port: int, valid: bool, rt: Option<real>, now: int)
    ensures var r := Updated(t.rows, ip, port, valid, rt, now);
      forall i :: 0 <= i < |r| ==> r[i].id == t.rows[i].id && KeyOf(r[i]) == KeyOf(t.rows[i])
    ensures WellFormed(t) ==> WellFormed(Table(Updated(t.rows, ip, port, valid, rt, now), t.nextId))
    ensures UniqueKeys(t.rows) ==> UniqueKeys(Updated(t.rows, ip, port, valid, rt, now))
  {
  }

  /** An update keeps one row per key. */
  lemma UpdatedUnique(rows: seq<Row>, ip: string, port: int, valid: bool, rt: Option<real>, now: int)
    requires UniqueKeys(rows)
    ensures UniqueKeys(Updated(rows, ip, port, valid, rt, now))
  {
    var r := Updated(rows, ip, port, valid, rt, now);
    assert forall i :: 0 <= i < |r| ==> KeyOf(r[i]) == KeyOf(rows[i]);
  }

  /** Of two updates at one address only the later one is visible. */
  lemma UpdatedTwice(rows: seq<Row>, ip: string, port: int, v1: bool, rt1: Option<real>, now1: int,
                     v2: bool, rt2: Option<real>, now2: int)
    ensures Updated(Updated(rows, ip, port, v1, rt1, now1), ip, port, v2, rt2, now2)
         == Updated(rows, ip, port, v2, rt2, now2)
  {
    var a := Updated(Updated(rows, ip, port, v1, rt1, now1), ip, port, v2, rt2, now2);
    var b := Updated(rows, ip, port, v2, rt2, now2);
    assert forall i :: 0 <= i < |rows| ==> a[i] == b[i];
  }

  // ---------------------------------------------------------------------
  // deduplicate_proxies
  // ---------------------------------------------------------------------

  /** SQL `MAX` over a nullable column: NULLs are ignored, all-NULL gives NULL. */
  function MaxRt(a: Option<real>, b: Option<real>): (m: Option<real>)
    ensures m.None? <==> a.None? && b.None?
    ensures m.Some? ==> m == a || m == b
    ensures a.Some? ==> a.value <= m.value
    ensures b.Some? ==> b.value <= m.value
  {
    match (a, b)
    case (None, _) => b
    case (_, None) => a
    case (Some(x), Some(y)) => if x >= y then a else b
  }

  function Min(a: int, b: int): int { if a <= b then a else b }
  function Max(a: int, b: int): int { if a >= b then a else b }

  /** Folding one more row of the same group into the group's summary row. */
  function Merge(s: Row, r: Row): Row
    requires KeyOf(s) == KeyOf(r)
  {
    Row(Min(s.id, r.id), s.ip, s.port, s.protocol,
        MaxRt(s.responseTime, r.responseTime),
        Max(s.lastChecked, r.lastChecked), Max(s.isValid, r.isValid))
  }

  /** The step of `Compact`: the last row is merged into its summary or starts one. */
  function CompactStep(c: seq<Row>, last: Row): seq<Row> {
    var j := Find(c, KeyOf(last));
    if j < |c| then c[j := Merge(c[j], last)] else c + [last]
  }

  /**
   * The table after `deduplicate_proxies`: the temporary table holds one row
   * per `(ip, port, protocol)` group with `MIN(id)` and the `MAX` of the
   * other columns, and is copied back with those ids, so the result is in
   * id order. Here the groups are summarised row by row: a row whose key
   * already has a summary is merged into it, any other starts one.
   */
  function Compact(rows: seq<Row>): (r: seq<Row>)
    ensures |r| <= |rows|
    decreases |rows|
  {
    if rows == [] then [] else CompactStep(Compact(rows[..|rows| - 1]), rows[|rows| - 1])
  }

  lemma HasKeySnoc(init: seq<Row>, last: Row, k: Key)
    ensures HasKey(init + [last], k) <==> HasKey(init, k) || KeyOf(last) == k
  {
    var r := init + [last];
    if HasKey(init, k) {
      var i :| 0 <= i < |init| && KeyOf(init[i]) == k;
      assert r[i] == init[i];
    }
    if HasKey(r, k) {
      var i :| 0 <= i < |r| && KeyOf(r[i]) == k;
      if i < |init| {
        assert r[i] == init[i];
      }
    }
    if KeyOf(last) == k {
      assert r[|init|] == last;
    }
  }

  /** One step keeps one row per key and adds exactly the last row's key. */
  lemma CompactStepKeys(c: seq<Row>, last: Row)
    requires UniqueKeys(c)
    ensures var r := CompactStep(c, last);
      UniqueKeys(r) && forall k :: HasKey(r, k) <==> HasKey(c, k) || KeyOf(last) == k
  {
    var j := Find(c, KeyOf(last));
    FindHasKey(c, KeyOf(last));
    var r := CompactStep(c, last);
    if j < |c| {
      assert forall i :: 0 <= i < |r| ==> KeyOf(r[i]) == KeyOf(c[i]);
      forall k ensures HasKey(r, k) <==> HasKey(c, k) || KeyOf(last) == k {
        if HasKey(r, k) {
          var i :| 0 <= i < |r| && KeyOf(r[i]) == k;
          assert KeyOf(c[i]) == k;
        }
        if HasKey(c, k) {
          var i :| 0 <= i < |c| && KeyOf(c[i]) == k;
          assert KeyOf(r[i]) == k;
        }
        if KeyOf(last) == k {
          assert KeyOf(r[j]) == k;
        }
      }
    } else {
      forall k ensures HasKey(r, k) <==> HasKey(c, k) || KeyOf(last) == k {
        HasKeySnoc(c, last, k);
      }
      forall a, b | 0 <= a < b < |r| ensures KeyOf(r[a]) != KeyOf(r[b]) {
        assert r[a] == c[a];
        if b < |c| {
          assert r[b] == c[b];
        }
      }
    }
  }

  /** Compaction leaves exactly one row per key, and the same keys. */
  lemma {:induction false} CompactKeys(rows: seq<Row>)
    ensures UniqueKeys(Compact(rows))
    ensures forall k :: HasKey(Compact(rows), k) <==> HasKey(rows, k)
    decreases |rows|
  {
    if rows != [] {
      var init, last := rows[..|rows| - 1], rows[|rows| - 1];
      CompactKeys(init);
      CompactStepKeys(Compact(init), last);
      assert rows == init + [last];
      forall k ensures HasKey(Compact(rows), k) <==> HasKey(rows, k) {
        HasKeySnoc(init, last, k);
      }
    }
  }

  /** `s` is at least every row of its group in `rows`, column by column, as `MIN`/`MAX` are. */
  predicate Bounds(rows: seq<Row>, s: Row) {
    forall j :: 0 <= j < |rows| && KeyOf(rows[j]) == KeyOf(s) ==>
      && s.id <= rows[j].id
      && s.isValid >= rows[j].isValid
      && s.lastChecked >= rows[j].lastChecked
      && (rows[j].responseTime.Some? ==> s.responseTime.Some? && rows[j].responseTime.value <= s.responseTime.value)
  }

  /** Each aggregated column of `s` is the value of some row of its group. */
  predicate Attained(rows: seq<Row>, s: Row) {
    && (exists j :: 0 <= j < |rows| && KeyOf(rows[j]) == KeyOf(s) && rows[j].id == s.id)
    && (exists j :: 0 <= j < |rows| && KeyOf(rows[j]) == KeyOf(s) && rows[j].isValid == s.isValid)
    && (exists j :: 0 <= j < |rows| && KeyOf(rows[j]) == KeyOf(s) && rows[j].lastChecked == s.lastChecked)
    && (s.responseTime.Some? ==>
          exists j :: 0 <= j < |rows| && KeyOf(rows[j]) == KeyOf(s) && rows[j].responseTime == s.responseTime)
  }

  lemma BoundsSnoc(init: seq<Row>, last: Row, s: Row)
    requires Bounds(init, s)
    requires KeyOf(last) != KeyOf(s)
    ensures Bounds(init + [last], s)
  {
    var rows := init + [last];
    forall j | 0 <= j < |rows| && KeyOf(rows[j]) == KeyOf(s) ensures j < |init| {
    }
  }

  lemma BoundsMerge(init: seq<Row>, last: Row, s: Row)
    requires Bounds(init, s)
    requires KeyOf(last) == KeyOf(s)
    ensures Bounds(init + [last], Merge(s, last))
  {
    var rows := init + [last];
    var m := Merge(s, last);
    forall j | 0 <= j < |rows| && KeyOf(rows[j]) == KeyOf(m)
      ensures m.id <= rows[j].id && m.isValid >= rows[j].isValid && m.lastChecked >= rows[j].lastChecked
      ensures rows[j].responseTime.Some? ==> m.responseTime.Some? && rows[j].responseTime.value <= m.responseTime.value
    {
      if j < |init| {
        assert rows[j] == init[j];
      }
    }
  }

  lemma BoundsFresh(init: seq<Row>, last: Row)
    requires !HasKey(init, KeyOf(last))
    ensures Bounds(init + [last], last)
  {
    var rows := init + [last];
    assert forall j :: 0 <= j < |init| ==> KeyOf(init[j]) != KeyOf(last);
    assert forall j :: 0 <= j < |init| ==> rows[j] == init[j];
  }

  /** Every survivor of the compaction has its group's `MIN(id)` and `MAX` of each other column. */
  lemma {:induction false} CompactBounds(rows: seq<Row>)
    ensures forall i :: 0 <= i < |Compact(rows)| ==> Bounds(rows, Compact(rows)[i])
    decreases |rows|
  {
    if rows != [] {
      var init, last := rows[..|rows| - 1], rows[|rows| - 1];
      assert rows == init + [last];
      var c := Compact(init);
      CompactBounds(init);
      CompactKeys(init);
      var j := Find(c, KeyOf(last));
      FindHasKey(c, KeyOf(last));
      var r := Compact(rows);
      if j < |c| {
        forall i | 0 <= i < |r| ensures Bounds(rows, r[i]) {
          if i == j {
            BoundsMerge(init, last, c[j]);
          } else {
            BoundsSnoc(init, last, c[i]);
          }
        }
      } else {
        CompactKeys(init);
        forall i | 0 <= i < |r| ensures Bounds(rows, r[i]) {
          if i < |c| {
            assert KeyOf(c[i]) != KeyOf(last);
            BoundsSnoc(init, last, c[i]);
          } else {
            BoundsFresh(init, last);
          }
        }
      }
    }
  }

  lemma AttainedSnoc(init: seq<Row>, last: Row, s: Row)
    requires Attained(init, s)
    ensures Attained(init + [last], s)
  {
    var rows := init + [last];
    assert forall j :: 0 <= j < |init| ==> rows[j] == init[j];
  }

  lemma AttainedMerge(init: seq<Row>, last: Row, s: Row)
    requires Attained(init, s)
    requires KeyOf(last) == KeyOf(s)
    ensures Attained(init + [last], Merge(s, last))
  {
    var rows := init + [last];
    var m := Merge(s, last);
    assert forall j :: 0 <= j < |init| ==> rows[j] == init[j];
    assert rows[|init|] == last;
    assert KeyOf(m) == KeyOf(s);
    // every aggregated column comes from the old summary or from `last`
    if m.id == s.id {
      var j :| 0 <= j < |init| && KeyOf(init[j]) == KeyOf(s) && init[j].id == s.id;
      assert KeyOf(rows[j]) == KeyOf(m) && rows[j].id == m.id;
    } else {
      assert KeyOf(rows[|init|]) == KeyOf(m) && rows[|init|].id == m.id;
    }
    if m.isValid == s.isValid {
      var j :| 0 <= j < |init| && KeyOf(init[j]) == KeyOf(s) && init[j].isValid == s.isValid;
      assert KeyOf(rows[j]) == KeyOf(m) && rows[j].isValid == m.isValid;
    } else {
      assert KeyOf(rows[|init|]) == KeyOf(m) && rows[|init|].isValid == m.isValid;
    }
    if m.lastChecked == s.lastChecked {
      var j :| 0 <= j < |init| && KeyOf(init[j]) == KeyOf(s) && init[j].lastChecked == s.lastChecked;
      assert KeyOf(rows[j]) == KeyOf(m) && rows[j].lastChecked == m.lastChecked;
    } else {
      assert KeyOf(rows[|init|]) == KeyOf(m) && rows[|init|].lastChecked == m.lastChecked;
    }
    if m.responseTime.Some? {
      if m.responseTime == s.responseTime {
        var j :| 0 <= j < |init| && KeyOf(init[j]) == KeyOf(s) && init[j].responseTime == s.responseTime;
        assert KeyOf(rows[j]) == KeyOf(m) && rows[j].responseTime == m.responseTime;
      } else {
        assert KeyOf(rows[|init|]) == KeyOf(m) && rows[|init|].responseTime == m.responseTime;
      }
    }
  }

  lemma AttainedFresh(init: seq<Row>, last: Row)
    ensures Attained(init + [last], last)
  {
    var rows := init + [last];
    assert rows[|init|] == last;
  }

  /** Every aggregated column of a survivor is the value of one of its group's rows. */
  lemma {:induction false} CompactAttained(rows: seq<Row>)
    ensures forall i :: 0 <= i < |Compact(rows)| ==> Attained(rows, Compact(rows)[i])
    decreases |rows|
  {
    if rows != [] {
      var init, last := rows[..|rows| - 1], rows[|rows| - 1];
      assert rows == init + [last];
      var c := Compact(init);
      CompactAttained(init);
      var j := Find(c, KeyOf(last));
      var r := Compact(rows);
      forall i | 0 <= i < |r| ensures Attained(rows, r[i]) {
        if i < |c| && i == j {
          AttainedMerge(init, last, c[j]);
        } else if i < |c| {
          AttainedSnoc(init, last, c[i]);
        } else {
          AttainedFresh(init, last);
        }
      }
    }
  }

  /** `removed_count`: the compaction drops exactly the rows beyond one per distinct key. */
  lemma CompactCount(rows: seq<Row>)
    ensures |Compact(rows)| == |KeySet(rows)|
    ensures KeySet(Compact(rows)) == KeySet(rows)
  {
    var c := Compact(rows);
    CompactKeys(rows);
    KeySetHasKey(rows);
    KeySetHasKey(c);
    assert KeySet(c) == KeySet(rows) by {
      forall k ensures k in KeySet(c) <==> k in KeySet(rows) {
        assert HasKey(c, k) <==> HasKey(rows, k);
      }
    }
    UniqueKeySetSize(c);
  }

  /** A table that already has one row per key is left as it is. */
  lemma {:induction false} CompactUnique(rows: seq<Row>)
    requires UniqueKeys(rows)
    ensures Compact(rows) == rows
    decreases |rows|
  {
    if rows != [] {
      var init, last := rows[..|rows| - 1], rows[|rows| - 1];
      CompactUnique(init);
      assert !HasKey(init, KeyOf(last)) by {
        forall i | 0 <= i < |init| ensures KeyOf(init[i]) != KeyOf(last) {
          assert init[i] == rows[i];
        }
      }
      FindHasKey(init, KeyOf(last));
    }
  }

  /** Deduplicating twice is deduplicating once. */
  lemma CompactIdempotent(rows: seq<Row>)
    ensures Compact(Compact(rows)) == Compact(rows)
  {
    CompactKeys(rows);
    CompactUnique(Compact(rows));
  }

  /** The ids of the survivors are ids of rows of the input. */
  lemma CompactIdsBelow(rows: seq<Row>, bound: int)
    requires forall i :: 0 <= i < |rows| ==> rows[i].id < bound
    ensures forall i :: 0 <= i < |Compact(rows)| ==> Compact(rows)[i].id < bound
  {
    CompactAttained(rows);
    var c := Compact(rows);
    forall i | 0 <= i < |c| ensures c[i].id < bound {
      assert Attained(rows, c[i]);
      var j :| 0 <= j < |rows| && KeyOf(rows[j]) == KeyOf(c[i]) && rows[j].id == c[i].id;
    }
  }

  /** One compaction step keeps the rows in id order under the counter. */
  lemma CompactStepWellFormed(c: seq<Row>, last: Row, nextId: nat)
    requires WellFormed(Table(c, nextId)) && 0 < last.id < nextId
    requires forall i :: 0 <= i < |c| ==> c[i].id < last.id
    ensures WellFormed(Table(CompactStep(c, last), nextId))
  {
    var j := Find(c, KeyOf(last));
    if j < |c| {
      assert Merge(c[j], last).id == c[j].id;
    }
  }

  /** In a well-formed table the rows before the last have smaller ids. */
  lemma InitBelowLast(t: Table)
    requires WellFormed(t) && t.rows != []
    ensures var n := |t.rows| - 1;
      WellFormed(Table(t.rows[..n], t.nextId)) && 0 < t.rows[n].id < t.nextId
      && forall i :: 0 <= i < n ==> t.rows[..n][i].id < t.rows[n].id
  {
  }

  /** The last row of a well-formed table, folded into a well-formed compaction of the others. */
  lemma CompactLastWellFormed(t: Table)
    requires WellFormed(t) && t.rows != []
    requires WellFormed(Table(Compact(t.rows[..|t.rows| - 1]), t.nextId))
    ensures WellFormed(Table(Compact(t.rows), t.nextId))
  {
    var rows := t.rows;
    var init, last := rows[..|rows| - 1], rows[|rows| - 1];
    InitBelowLast(t);
    CompactIdsBelow(init, last.id);
    CompactStepWellFormed(Compact(init), last, t.nextId);
    assert Compact(rows) == CompactStep(Compact(init), last);
  }

  /** The compacted table is still in id order with ids below the counter. */
  lemma {:induction false} CompactWellFormed(t: Table)
    requires WellFormed(t)
    ensures WellFormed(Table(Compact(t.rows), t.nextId))
    decreases |t.rows|
  {
    if t.rows != [] {
      InitBelowLast(t);
      CompactWellFormed(Table(t.rows[..|t.rows| - 1], t.nextId));
      CompactLastWellFormed(t);
    }
  }

  // ---------------------------------------------------------------------
  // The two SELECTs
  // ---------------------------------------------------------------------

  /** `SELECT ip, port, protocol, response_time FROM proxies WHERE is_valid = 1`. */
  function ValidListing(rows: seq<Row>): (r: seq<Listing>)
    ensures |r| <= |rows|
    decreases |rows|
  {
    if rows == [] then []
    else
      var init := ValidListing(rows[..|rows| - 1]);
      var last := rows[|rows| - 1];
      if last.isValid == 1 then init + [ListingOf(last)] else init
  }

  /** `... WHERE is_valid = 1 AND protocol = ?`. */
  function TypedListing(rows: seq<Row>, protocol: string): (r: seq<Listing>)
    ensures |r| <= |rows|
    decreases |rows|
  {
    if rows == [] then []
    else
      var init := TypedListing(rows[..|rows| - 1], protocol);
      var last := rows[|rows| - 1];
      if last.isValid == 1 && last.protocol == protocol then init + [ListingOf(last)] else init
  }

  /** The listings of one protocol, in order. */
  function OfProtocol(ls: seq<Listing>, protocol: string): (r: seq<Listing>)
    ensures |r| <= |ls|
    decreases |ls|
  {
    if ls == [] then []
    else
      var init := OfProtocol(ls[..|ls| - 1], protocol);
      if ls[|ls| - 1].protocol == protocol then init + [ls[|ls| - 1]] else init
  }

  /** A row is listed iff it is marked valid. */
  lemma {:induction false} ValidListingMembers(rows: seq<Row>)
    ensures forall x :: x in ValidListing(rows) <==>
      exists i :: 0 <= i < |rows| && rows[i].isValid == 1 && ListingOf(rows[i]) == x
    decreases |rows|
  {
    if rows != [] {
      var init := rows[..|rows| - 1];
      ValidListingMembers(init);
      forall x ensures x in ValidListing(rows) <==>
        exists i :: 0 <= i < |rows| && rows[i].isValid == 1 && ListingOf(rows[i]) == x
      {
        if x in ValidListing(init) {
          var i :| 0 <= i < |init| && init[i].isValid == 1 && ListingOf(init[i]) == x;
          assert rows[i] == init[i];
        }
        if exists i :: 0 <= i < |rows| && rows[i].isValid == 1 && ListingOf(rows[i]) == x {
          var i :| 0 <= i < |rows| && rows[i].isValid == 1 && ListingOf(rows[i]) == x;
          if i < |init| {
            assert init[i] == rows[i];
          }
        }
      }
    }
  }

  /** The typed query is the valid listing narrowed to one protocol. */
  lemma {:induction false} TypedIsNarrowed(rows: seq<Row>, protocol: string)
    ensures TypedListing(rows, protocol) == OfProtocol(ValidListing(rows), protocol)
    decreases |rows|
  {
    if rows != [] {
      var init, last := rows[..|rows| - 1], rows[|rows| - 1];
      TypedIsNarrowed(init, protocol);
      if last.isValid == 1 {
        var v := ValidListing(init) + [ListingOf(last)];
        assert v[..|v| - 1] == ValidListing(init);
      }
    }
  }

  // ---------------------------------------------------------------------
  // DatabaseManager
  // ---------------------------------------------------------------------

  class ProxyStore {
    var rows: seq<Row>
    var nextId: nat

    function Snapshot(): Table
      reads this
    {
      Table(rows, nextId)
    }

    predicate Valid()
      reads this
    {
      WellFormed(Snapshot())
    }

    /**
     * `__init__` and `init_db` over the table `proxies.db` holds:
     * `CREATE TABLE IF NOT EXISTS` keeps an existing table as it is, rows
     * with repeated keys included, and creates `Empty` on a fresh file.
     */
    constructor (t: Table)
      requires WellFormed(t)
      ensures Snapshot() == t && Valid()
    {
      rows := t.rows;
      nextId := t.nextId;
    }

    /** `add_proxy`: inserts unless `(ip, port, protocol)` is present; returns whether it did. */
    method AddProxy(ip: string, port: int, protocol: string, rt: Option<real>, now: int) returns (inserted: bool)
      requires Valid()
      modifies this
      ensures Valid()
      ensures inserted <==> !HasKey(old(rows), Key(ip, port, protocol))
      ensures Snapshot() == Add(old(Snapshot()), ip, port, protocol, rt, now)
    {
      if HasKey(rows, Key(ip, port, protocol)) {
        inserted := false;
      } else {
        rows := rows + [Row(nextId, ip, port, protocol, rt, now, 1)];
        nextId := nextId + 1;
        inserted := true;
      }
    }

    /** `deduplicate_proxies`: compacts the groups and returns how many rows went. */
    method DeduplicateProxies() returns (removed: int)
      requires Valid()
      modifies this
      ensures Valid()
      ensures rows == Compact(old(rows)) && nextId == old(nextId)
      ensures removed == |old(rows)| - |KeySet(old(rows))|
    {
      var originalCount := |rows|;
      CompactWellFormed(Snapshot());
      CompactCount(rows);
      rows := Compact(rows);
      var newCount := |rows|;
      removed := originalCount - newCount;
    }

    method GetAllProxies() returns (r: seq<Listing>)
      ensures r == ValidListing(rows)
    {
      r := ValidListing(rows);
    }

    method GetProxiesByType(protocol: string) returns (r: seq<Listing>)
      ensures r == TypedListing(rows, protocol)
    {
      r := TypedListing(rows, protocol);
    }

    /** `clear_all_proxies`: `DELETE FROM proxies`; the AUTOINCREMENT counter is kept. */
    method ClearAllProxies()
      requires Valid()
      modifies this
      ensures Valid()
      ensures rows == [] && nextId == old(nextId)
    {
      rows := [];
    }

    /** `update_proxy_status`, keyed on `(ip, port)` only. */
    method UpdateProxyStatus(ip: string, port: int, valid: bool, rt: Option<real>, now: int)
      requires Valid()
      modifies this
      ensures Valid()
      ensures rows == Updated(old(rows), ip, port, valid, rt, now) && nextId == old(nextId)
    {
      UpdatedKeepsKeys(Snapshot(), ip, port, valid, rt, now);
      rows := Updated(rows, ip, port, valid, rt, now);
    }
  }
}
