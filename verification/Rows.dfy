/**
 * The table of tracked active windows, one row for each server epoch and window.
 * (internal/state/active.go)
 */
module Rows {
  import opened Text

  datatype RowState = Tracked | Orphaned

  datatype Row = Row(
    serverKey: string, sourceSession: string, windowName: string,
    promotedAt: int, lastSelectedAt: int, expiresAt: int, state: RowState, orphanedAt: Option<int>)

  /** Server epoch and window id. */
  type Key = (string, string)

  type Table = map<Key, Row>

  function Upserted(rows: Table, key: Key, serverKey: string, source: string, name: string, now: int, ttl: int): Table {
    var promotedAt := if key in rows then rows[key].promotedAt else now;
    var kept := if key in rows then rows[key].serverKey else serverKey;
    rows[key := Row(kept, source, name, promotedAt, now, now + ttl, Tracked, None)]
  }

  /** A touch older than the last selection is ignored. */
  function TouchedRow(row: Row, now: int, ttl: int): Row {
    if row.lastSelectedAt <= now then row.(lastSelectedAt := now, expiresAt := now + ttl) else row
  }

  function OrphanedRow(row: Row, now: int): Row {
    row.(state := Orphaned, orphanedAt := if row.orphanedAt.Some? then row.orphanedAt else Some(now))
  }

  predicate Stale(key: Key, row: Row, serverKey: string, epoch: string) {
    row.serverKey == serverKey && key.0 != epoch
  }

  /** The rows left once those of the server's other epochs are gone. */
  function Current(rows: Table, serverKey: string, epoch: string): Table {
    map k | k in rows && !Stale(k, rows[k], serverKey, epoch) :: rows[k]
  }

  // ---- the table ---------------------------------------------------------------------------

  class Store {
    /** No other process writes. */
    const calm: bool
    /** No statement fails but for its arguments. */
    const reliable: bool
    var rows: Table

    /** Other processes may write anything. */
    method Interfere()
      modifies this
      ensures calm ==> rows == old(rows)
    {
      var others: Table := *;
      if !calm { rows := others; }
    }

    method Fault() returns (failed: bool)
      ensures reliable ==> !failed
    {
      failed := *;
      if reliable { failed := false; }
    }

    method Upsert(serverKey: string, epoch: string, window: string, source: string, name: string, now: int, ttl: int) returns (ok: bool)
      modifies this
      ensures ok ==> serverKey != "" && epoch != "" && window != "" && ttl > 0
      ensures reliable ==> (ok <==> serverKey != "" && epoch != "" && window != "" && ttl > 0)
      ensures calm && !ok ==> rows == old(rows)
      ensures calm && ok ==> rows == Upserted(old(rows), (epoch, window), serverKey, source, name, now, ttl)
    {
      if serverKey == "" || epoch == "" || window == "" || ttl <= 0 { return false; }
      Interfere();
      var failed := Fault();
      if failed { return false; }
      rows := Upserted(rows, (epoch, window), serverKey, source, name, now, ttl);
      return true;
    }

    /** Whether a row was refreshed; nothing if the write failed. */
    method Touch(epoch: string, window: string, now: int, ttl: int) returns (touched: Option<bool>)
      modifies this
      ensures calm && touched.None? ==> rows == old(rows)
      ensures reliable ==> (touched.Some? <==> epoch != "" && window != "" && ttl > 0)
      ensures calm && touched.Some? ==>
                && (touched.value <==> (epoch, window) in old(rows) && old(rows)[(epoch, window)].lastSelectedAt <= now)
                && rows == if touched.value then old(rows)[(epoch, window) := TouchedRow(old(rows)[(epoch, window)], now, ttl)] else old(rows)
    {
      if epoch == "" || window == "" || ttl <= 0 { return None; }
      Interfere();
      var failed := Fault();
      if failed { return None; }
      var key := (epoch, window);
      if key !in rows || rows[key].lastSelectedAt > now { return Some(false); }
      rows := rows[key := rows[key].(lastSelectedAt := now, expiresAt := now + ttl)];
      return Some(true);
    }

    method MarkOrphaned(epoch: string, window: string, now: int) returns (ok: bool)
      modifies this
      ensures calm && !ok ==> rows == old(rows)
      ensures reliable ==> (ok <==> epoch != "" && window != "")
      ensures calm && ok ==> rows == if (epoch, window) in old(rows) then old(rows)[(epoch, window) := OrphanedRow(old(rows)[(epoch, window)], now)] else old(rows)
    {
      if epoch == "" || window == "" { return false; }
      Interfere();
      var failed := Fault();
      if failed { return false; }
      var key := (epoch, window);
      if key in rows { rows := rows[key := OrphanedRow(rows[key], now)]; }
      return true;
    }

    method Delete(epoch: string, window: string) returns (ok: bool)
      modifies this
      ensures calm && !ok ==> rows == old(rows)
      ensures calm && ok ==> rows == old(rows) - {(epoch, window)}
      ensures reliable ==> (ok <==> epoch != "" && window != "")
    {
      if epoch == "" || window == "" { return false; }
      Interfere();
      var failed := Fault();
      if failed { return false; }
      rows := rows - {(epoch, window)};
      return true;
    }

    /** The rows of one epoch, each once. */
    method List(epoch: string) returns (r: Option<seq<(string, Row)>>)
      modifies this
      ensures calm ==> rows == old(rows)
      ensures r.Some? ==> Lists(r.value, rows, epoch)
      ensures reliable ==> (r.Some? <==> epoch != "")
    {
      if epoch == "" { return None; }
      Interfere();
      var failed := Fault();
      if failed { return None; }
      var out: seq<(string, Row)> := [];
      var left := set k | k in rows && k.0 == epoch;
      while left != {}
        invariant left <= (set k | k in rows && k.0 == epoch)
        invariant forall i :: 0 <= i < |out| ==> (epoch, out[i].0) in rows && (epoch, out[i].0) !in left && rows[(epoch, out[i].0)] == out[i].1
        invariant forall i, j :: 0 <= i < j < |out| ==> out[i].0 != out[j].0
        invariant forall k :: k in rows && k.0 == epoch && k !in left ==> (k.1, rows[k]) in out
        decreases |left|
      {
        var k :| k in left;
        left := left - {k};
        out := out + [(k.1, rows[k])];
        assert out[|out| - 1] == (k.1, rows[k]);
      }
      return Some(out);
    }

    /** Drops the rows a restarted server left behind; rows of other servers stay. */
    method DeleteStaleEpochs(key: string, current: string) returns (ok: bool)
      modifies this
      ensures calm && !ok ==> rows == old(rows)
      ensures calm && ok ==> rows == Current(old(rows), key, current)
      ensures reliable ==> (ok <==> key != "")
    {
      if key == "" { return false; }
      Interfere();
      var failed := Fault();
      if failed { return false; }
      rows := map k | k in rows && !Stale(k, rows[k], key, current) :: rows[k];
      return true;
    }
  }

  /** The list has every row of the epoch, under its window id, once. */
  predicate Lists(out: seq<(string, Row)>, rows: Table, epoch: string) {
    && (forall i :: 0 <= i < |out| ==> (epoch, out[i].0) in rows && rows[(epoch, out[i].0)] == out[i].1)
    && (forall i, j :: 0 <= i < j < |out| ==> out[i].0 != out[j].0)
    && (forall k :: k in rows && k.0 == epoch ==> (k.1, rows[k]) in out)
  }

  // ---- touches in any order -----------------------------------------------------------------------

  function Touches(row: Row, times: seq<int>, ttl: int): Row {
    if times == [] then row else TouchedRow(Touches(row, times[..|times| - 1], ttl), times[|times| - 1], ttl)
  }

  function Latest(times: seq<int>, start: int): int {
    if times == [] then start
    else
      var m := Latest(times[..|times| - 1], start);
      if times[|times| - 1] > m then times[|times| - 1] else m
  }

  lemma {:induction false} LatestSpec(times: seq<int>, start: int)
    ensures Latest(times, start) >= start && (Latest(times, start) == start || Latest(times, start) in times)
    ensures forall i :: 0 <= i < |times| ==> times[i] <= Latest(times, start)
  {
    if times != [] {
      var n := |times| - 1;
      LatestSpec(times[..n], start);
      assert times == times[..n] + [times[n]];
      assert forall i :: 0 <= i < n ==> times[i] == times[..n][i];
    }
  }

  /** The last selection is the latest time seen and never goes back; the expiry is exactly ttl later once a touch took hold. */
  lemma {:induction false} TouchesEnd(row: Row, times: seq<int>, ttl: int)
    ensures var r, m := Touches(row, times, ttl), Latest(times, row.lastSelectedAt);
            && r.lastSelectedAt == m >= row.lastSelectedAt
            && r == row.(lastSelectedAt := m, expiresAt := if exists i :: 0 <= i < |times| && times[i] >= row.lastSelectedAt then m + ttl else row.expiresAt)
  {
    LatestSpec(times, row.lastSelectedAt);
    if times != [] {
      var n := |times| - 1;
      var t := times[..n];
      TouchesEnd(row, t, ttl);
      LatestSpec(t, row.lastSelectedAt);
      assert forall i :: 0 <= i < n ==> times[i] == t[i];
      if exists i :: 0 <= i < |t| && t[i] >= row.lastSelectedAt {
        var i :| 0 <= i < |t| && t[i] >= row.lastSelectedAt;
        assert times[i] >= row.lastSelectedAt;
      } else if exists i :: 0 <= i < |times| && times[i] >= row.lastSelectedAt {
        assert times[n] >= row.lastSelectedAt;
      }
    }
  }

  /** The expiry is no later than a touch at the last selection would set it. */
  predicate WithinTtl(row: Row, ttl: int) { row.expiresAt <= row.lastSelectedAt + ttl }

  /** No touches move the expiry back exactly if the row was not promised a longer life than this ttl gives. */
  lemma ExpiryKept(row: Row, ttl: int)
    ensures (forall times :: Touches(row, times, ttl).expiresAt >= row.expiresAt) <==> WithinTtl(row, ttl)
  {
    if WithinTtl(row, ttl) {
      forall times ensures Touches(row, times, ttl).expiresAt >= row.expiresAt {
        TouchesEnd(row, times, ttl);
        LatestSpec(times, row.lastSelectedAt);
      }
    } else {
      var once := [row.lastSelectedAt];
      assert once[..0] == [];
      assert Touches(row, once, ttl).expiresAt < row.expiresAt;
    }
  }

  /** A row within its ttl stays so, and then no later touch ever moves the expiry back. */
  lemma {:induction false} ExpiryGrows(row: Row, times: seq<int>, ttl: int, n: nat)
    requires WithinTtl(row, ttl) && n <= |times|
    ensures WithinTtl(Touches(row, times, ttl), ttl)
    ensures Touches(row, times[..n], ttl).expiresAt <= Touches(row, times, ttl).expiresAt
    decreases |times|
  {
    if n == |times| { assert times[..n] == times; }
    if times != [] {
      var m := |times| - 1;
      if n <= m { assert times[..m][..n] == times[..n]; }
      ExpiryGrows(row, times[..m], ttl, if n <= m then n else m);
    }
  }

  /**
   * Promoting a window again, whatever happened to its row: it is tracked anew from now on, any mark as an orphan is
   * gone, the time of the first promotion and the server stay, and no other row changes.
   */
  lemma PromotedAgain(rows: Table, key: Key, other: Key, serverKey: string, source: string, name: string, now: int, ttl: int)
    ensures var r := Upserted(rows, key, serverKey, source, name, now, ttl);
            && key in r && r[key].state == Tracked && r[key].orphanedAt == None
            && r[key].lastSelectedAt == now && r[key].expiresAt == now + ttl
            && r[key].sourceSession == source && r[key].windowName == name
            && (if key in rows then r[key].promotedAt == rows[key].promotedAt && r[key].serverKey == rows[key].serverKey
                else r[key].promotedAt == now && r[key].serverKey == serverKey)
            && (other != key ==> (other in r <==> other in rows) && (other in r ==> r[other] == rows[other]))
  {
  }

  /** A promotion under the same ttl leaves its row within it. */
  lemma UpsertWithinTtl(rows: Table, key: Key, serverKey: string, source: string, name: string, now: int, ttl: int)
    ensures WithinTtl(Upserted(rows, key, serverKey, source, name, now, ttl)[key], ttl)
  {
  }

  /** Otherwise it does go back: a row promoted for 1000 seconds, touched at once after the ttl was lowered to 10. */
  lemma LoweredTtl()
    ensures var row := Row("server", "work", "edit", 0, 0, 1000, Tracked, None);
            Touches(row, [0], 10).lastSelectedAt == 0 && Touches(row, [0], 10).expiresAt == 10
  {
    var row := Row("server", "work", "edit", 0, 0, 1000, Tracked, None);
    assert [0][..0] == [];
    assert Touches(row, [], 10) == row;
  }

  /** Delivering the same touches in another order ends in the same row. */
  lemma TouchOrder(row: Row, a: seq<int>, b: seq<int>, ttl: int)
    requires multiset(a) == multiset(b)
    ensures Touches(row, a, ttl) == Touches(row, b, ttl)
  {
    hide Touches, Latest;
    TouchesEnd(row, a, ttl);
    TouchesEnd(row, b, ttl);
    LatestSpec(a, row.lastSelectedAt);
    LatestSpec(b, row.lastSelectedAt);
    SameElements(a, b);
  }

  lemma SameElements(a: seq<int>, b: seq<int>)
    requires multiset(a) == multiset(b)
    ensures forall x :: x in a <==> x in b
    ensures forall i :: 0 <= i < |a| ==> exists j :: 0 <= j < |b| && b[j] == a[i]
    ensures forall i :: 0 <= i < |b| ==> exists j :: 0 <= j < |a| && a[j] == b[i]
  {
    forall x ensures x in a <==> x in b { assert x in multiset(a) <==> x in multiset(b); }
    forall i | 0 <= i < |a| ensures exists j :: 0 <= j < |b| && b[j] == a[i] { assert a[i] in b; }
    forall i | 0 <= i < |b| ensures exists j :: 0 <= j < |a| && a[j] == b[i] { assert b[i] in a; }
  }
}
