/**
 * The persistent tombstone store: a `tombstones` table of records and a
 * `tombstone_items` table of serialized item rows, kept by either the
 * SQLite or the MySQL backend. The tables are sequences in insertion
 * order; an `SQLException` is a boolean input, and a statement or a
 * transaction that throws leaves both tables as they were.
 */
module Store {
  import opened Common

  datatype Backend = SQLite | MySQL

  /** One row of the `tombstones` table. */
  datatype TombstoneData = TombstoneData(
    id: int, owner: Uuid, world: string, x: int, y: int, z: int,
    deathTime: int, protectionExpire: int, experience: int)

  /** The stored bytes of an item: either they deserialize to an item or they do not. */
  datatype Payload = Serialized(item: ItemStack) | Corrupt

  /** One row of the `tombstone_items` table. */
  datatype ItemRow = ItemRow(tombstoneId: int, slot: int, data: Payload)

  /** A loaded item together with the inventory slot it was saved from. */
  datatype TombstoneItemData = TombstoneItemData(originalSlotIndex: int, item: ItemStack)

  const SQLITE_PREFIX := ""
  const MYSQL_DEFAULT_PREFIX := "pdm_"

  // ---------------------------------------------------------------------
  // Item serialization and the rows a save writes

  /** The items a save keeps: the non-null, non-air entries, in array order. */
  function SerializeItemStacks(items: seq<Option<ItemStack>>): (r: seq<ItemStack>)
    ensures |r| <= |items|
    ensures forall k :: 0 <= k < |r| ==> !IsAir(r[k].material)
  {
    if |items| == 0 then []
    else
      var last := items[|items| - 1];
      SerializeItemStacks(items[..|items| - 1]) + (if Present(last) then [last.value] else [])
  }

  /** The item rows a save writes: slot index `i` for array entry `i`, skipping null and air. */
  function SavedRows(tid: int, items: seq<Option<ItemStack>>): seq<ItemRow>
  {
    if |items| == 0 then []
    else
      var i := |items| - 1;
      SavedRows(tid, items[..i]) + (if Present(items[i]) then [ItemRow(tid, i, Serialized(items[i].value))] else [])
  }

  /** What loading a freshly saved array should give back: present entries with their array index. */
  function SlotItems(items: seq<Option<ItemStack>>): seq<TombstoneItemData>
  {
    if |items| == 0 then []
    else
      var i := |items| - 1;
      SlotItems(items[..i]) + (if Present(items[i]) then [TombstoneItemData(i, items[i].value)] else [])
  }

  function ItemsOf(data: seq<TombstoneItemData>): seq<ItemStack>
  {
    if |data| == 0 then [] else ItemsOf(data[..|data| - 1]) + [data[|data| - 1].item]
  }

  lemma {:induction false} SavedRowsShape(tid: int, items: seq<Option<ItemStack>>)
    ensures forall k :: 0 <= k < |SavedRows(tid, items)| ==>
      SavedRows(tid, items)[k].tombstoneId == tid && 0 <= SavedRows(tid, items)[k].slot < |items|
    ensures forall k, l :: 0 <= k < l < |SavedRows(tid, items)| ==>
      SavedRows(tid, items)[k].slot < SavedRows(tid, items)[l].slot
    ensures forall k :: 0 <= k < |SavedRows(tid, items)| ==> SavedRows(tid, items)[k].data.Serialized?
  {
    if |items| > 0 {
      SavedRowsShape(tid, items[..|items| - 1]);
    }
  }

  // ---------------------------------------------------------------------
  // Loading

  /** The rows of one tombstone that deserialize, in table order. */
  function Decoded(rows: seq<ItemRow>, tid: int): seq<TombstoneItemData>
  {
    if |rows| == 0 then []
    else
      var r := rows[|rows| - 1];
      Decoded(rows[..|rows| - 1], tid)
        + (if r.tombstoneId == tid && r.data.Serialized? then [TombstoneItemData(r.slot, r.data.item)] else [])
  }

  predicate HasCorrupt(rows: seq<ItemRow>, tid: int)
  {
    exists k :: 0 <= k < |rows| && rows[k].tombstoneId == tid && rows[k].data.Corrupt?
  }

  /**
   * The result of loading a tombstone's items: SQLite lets a failed
   * deserialization escape, MySQL skips the row.
   */
  function LoadedItems(rows: seq<ItemRow>, tid: int, backend: Backend): Result<seq<TombstoneItemData>>
  {
    if backend == SQLite && HasCorrupt(rows, tid) then Err(DeserializeFault) else Ok(Decoded(rows, tid))
  }

  lemma {:induction false} DecodedAppend(a: seq<ItemRow>, b: seq<ItemRow>, tid: int)
    ensures Decoded(a + b, tid) == Decoded(a, tid) + Decoded(b, tid)
  {
    if |b| > 0 {
      assert (a + b)[..|a + b| - 1] == a + b[..|b| - 1];
      DecodedAppend(a, b[..|b| - 1], tid);
    } else {
      assert a + b == a;
    }
  }

  lemma {:induction false} DecodedAbsent(rows: seq<ItemRow>, tid: int)
    requires forall k :: 0 <= k < |rows| ==> rows[k].tombstoneId != tid
    ensures Decoded(rows, tid) == []
  {
    if |rows| > 0 {
      DecodedAbsent(rows[..|rows| - 1], tid);
    }
  }

  lemma {:induction false} DecodedSavedRows(tid: int, items: seq<Option<ItemStack>>)
    ensures Decoded(SavedRows(tid, items), tid) == SlotItems(items)
    ensures !HasCorrupt(SavedRows(tid, items), tid)
  {
    if |items| > 0 {
      var i := |items| - 1;
      var tail := if Present(items[i]) then [ItemRow(tid, i, Serialized(items[i].value))] else [];
      DecodedSavedRows(tid, items[..i]);
      DecodedAppend(SavedRows(tid, items[..i]), tail, tid);
      if Present(items[i]) {
        assert [ItemRow(tid, i, Serialized(items[i].value))][..0] == [];
      }
    }
    SavedRowsShape(tid, items);
  }

  lemma {:induction false} ItemsOfAppend(a: seq<TombstoneItemData>, b: seq<TombstoneItemData>)
    ensures ItemsOf(a + b) == ItemsOf(a) + ItemsOf(b)
  {
    if |b| > 0 {
      assert (a + b)[..|a + b| - 1] == a + b[..|b| - 1];
      ItemsOfAppend(a, b[..|b| - 1]);
    } else {
      assert a + b == a;
    }
  }

  /** The loaded items are exactly the serialized (non-null, non-air) ones, in array order. */
  lemma {:induction false} SlotItemsAreSerialized(items: seq<Option<ItemStack>>)
    ensures ItemsOf(SlotItems(items)) == SerializeItemStacks(items)
    ensures forall k :: 0 <= k < |SlotItems(items)| ==>
      var d := SlotItems(items)[k];
      0 <= d.originalSlotIndex < |items| && items[d.originalSlotIndex] == Some(d.item) && !IsAir(d.item.material)
  {
    SlotItemsItems(items);
    SlotItemsSlots(items);
  }

  lemma {:induction false} SlotItemsItems(items: seq<Option<ItemStack>>)
    ensures ItemsOf(SlotItems(items)) == SerializeItemStacks(items)
  {
    if |items| > 0 {
      var i := |items| - 1;
      SlotItemsItems(items[..i]);
      var tail := if Present(items[i]) then [TombstoneItemData(i, items[i].value)] else [];
      ItemsOfAppend(SlotItems(items[..i]), tail);
      if Present(items[i]) {
        assert ItemsOf(tail) == [items[i].value] by {
          assert tail[..0] == [];
        }
      }
    }
  }

  lemma {:induction false} SlotItemsSlots(items: seq<Option<ItemStack>>)
    ensures forall k :: 0 <= k < |SlotItems(items)| ==>
      var d := SlotItems(items)[k];
      0 <= d.originalSlotIndex < |items| && items[d.originalSlotIndex] == Some(d.item) && !IsAir(d.item.material)
  {
    if |items| > 0 {
      var i := |items| - 1;
      var init := items[..i];
      SlotItemsSlots(init);
      var prefix := SlotItems(init);
      forall k | 0 <= k < |SlotItems(items)|
        ensures var d := SlotItems(items)[k];
          0 <= d.originalSlotIndex < |items| && items[d.originalSlotIndex] == Some(d.item) && !IsAir(d.item.material)
      {
        if k < |prefix| {
          var d := prefix[k];
          assert SlotItems(items)[k] == d;
          assert items[d.originalSlotIndex] == init[d.originalSlotIndex];
        }
      }
    }
  }

  // ---------------------------------------------------------------------
  // The tables and their invariant

  function Ids(records: seq<TombstoneData>): set<int>
  {
    set r | r in records :: r.id
  }

  /** Within one tombstone, the rows appear in strictly increasing slot order. */
  predicate SlotsAscending(rows: seq<ItemRow>)
  {
    forall k, l :: 0 <= k < l < |rows| && rows[k].tombstoneId == rows[l].tombstoneId ==> rows[k].slot < rows[l].slot
  }

  /**
   * Ids are positive, below the auto-increment counter and increasing in
   * table order; every item row belongs to an existing record; the rows of
   * one tombstone appear in strictly increasing slot order.
   */
  ghost predicate WellFormed(records: seq<TombstoneData>, rows: seq<ItemRow>, nextId: int)
  {
    nextId >= 1
    && (forall i :: 0 <= i < |records| ==> 0 < records[i].id < nextId)
    && (forall i, j :: 0 <= i < j < |records| ==> records[i].id < records[j].id)
    && (forall k :: 0 <= k < |rows| ==> rows[k].tombstoneId in Ids(records))
    && SlotsAscending(rows)
  }

  /** Every loaded item comes from a row of that tombstone with that slot. */
  lemma {:induction false} DecodedFromRows(rows: seq<ItemRow>, tid: int)
    ensures forall d :: d in Decoded(rows, tid) ==> ItemRow(tid, d.originalSlotIndex, Serialized(d.item)) in rows
  {
    if |rows| > 0 {
      var n := |rows| - 1;
      DecodedFromRows(rows[..n], tid);
      assert rows == rows[..n] + [rows[n]];
    }
  }

  /** Loaded items come back in strictly ascending slot order (the `ORDER BY slot_index`). */
  lemma {:induction false} DecodedAscending(rows: seq<ItemRow>, tid: int)
    requires SlotsAscending(rows)
    ensures forall k, l :: 0 <= k < l < |Decoded(rows, tid)| ==>
      Decoded(rows, tid)[k].originalSlotIndex < Decoded(rows, tid)[l].originalSlotIndex
  {
    if |rows| > 0 {
      var n := |rows| - 1;
      DecodedAscending(rows[..n], tid);
      DecodedFromRows(rows[..n], tid);
      var prev := Decoded(rows[..n], tid);
      forall k | 0 <= k < |prev| && rows[n].tombstoneId == tid
        ensures prev[k].originalSlotIndex < rows[n].slot
      {
        var row := ItemRow(tid, prev[k].originalSlotIndex, Serialized(prev[k].item));
        assert prev[k] in prev;
        var m :| 0 <= m < n && rows[..n][m] == row;
        assert rows[m] == row;
      }
    }
  }

  // ---------------------------------------------------------------------
  // Record-level table edits

  /** The table without the records whose id is in `ids`. */
  function WithoutIds(records: seq<TombstoneData>, ids: set<int>): seq<TombstoneData>
  {
    if |records| == 0 then []
    else
      var n := |records| - 1;
      WithoutIds(records[..n], ids) + (if records[n].id in ids then [] else [records[n]])
  }

  /** The item rows without those belonging to a tombstone whose id is in `ids`. */
  function RowsWithoutIds(rows: seq<ItemRow>, ids: set<int>): seq<ItemRow>
  {
    if |rows| == 0 then []
    else
      var n := |rows| - 1;
      RowsWithoutIds(rows[..n], ids) + (if rows[n].tombstoneId in ids then [] else [rows[n]])
  }

  /** The item rows without the one item `(tid, slot)`. */
  function RowsWithoutSlot(rows: seq<ItemRow>, tid: int, slot: int): seq<ItemRow>
  {
    if |rows| == 0 then []
    else
      var n := |rows| - 1;
      RowsWithoutSlot(rows[..n], tid, slot)
        + (if rows[n].tombstoneId == tid && rows[n].slot == slot then [] else [rows[n]])
  }

  /** The loaded items of a tombstone without the one from `slot`. */
  function DropSlot(data: seq<TombstoneItemData>, slot: int): (r: seq<TombstoneItemData>)
    ensures forall x :: x in r <==> x in data && x.originalSlotIndex != slot
  {
    if |data| == 0 then []
    else
      var n := |data| - 1;
      DropSlot(data[..n], slot) + (if data[n].originalSlotIndex == slot then [] else [data[n]])
  }

  /** The table with the experience of record `id` set to zero. */
  function ZeroExperience(records: seq<TombstoneData>, id: int): (r: seq<TombstoneData>)
    ensures |r| == |records|
    ensures forall i :: 0 <= i < |r| ==>
      r[i] == if records[i].id == id then records[i].(experience := 0) else records[i]
  {
    if |records| == 0 then []
    else
      var n := |records| - 1;
      ZeroExperience(records[..n], id) + [if records[n].id == id then records[n].(experience := 0) else records[n]]
  }

  lemma {:induction false} WithoutIdsMembers(records: seq<TombstoneData>, ids: set<int>)
    ensures forall x :: x in WithoutIds(records, ids) <==> x in records && x.id !in ids
  {
    if |records| > 0 {
      var n := |records| - 1;
      WithoutIdsMembers(records[..n], ids);
      assert records == records[..n] + [records[n]];
    }
  }

  lemma {:induction false} RowsWithoutIdsMembers(rows: seq<ItemRow>, ids: set<int>)
    ensures forall x :: x in RowsWithoutIds(rows, ids) <==> x in rows && x.tombstoneId !in ids
  {
    if |rows| > 0 {
      var n := |rows| - 1;
      RowsWithoutIdsMembers(rows[..n], ids);
      assert rows == rows[..n] + [rows[n]];
    }
  }

  lemma {:induction false} RowsWithoutSlotMembers(rows: seq<ItemRow>, tid: int, slot: int)
    ensures forall x :: x in RowsWithoutSlot(rows, tid, slot) <==> x in rows && !(x.tombstoneId == tid && x.slot == slot)
  {
    if |rows| > 0 {
      var n := |rows| - 1;
      RowsWithoutSlotMembers(rows[..n], tid, slot);
      assert rows == rows[..n] + [rows[n]];
    }
  }

  lemma {:induction false} WithoutIdsTwice(records: seq<TombstoneData>, a: set<int>, b: set<int>)
    ensures WithoutIds(WithoutIds(records, a), b) == WithoutIds(records, a + b)
  {
    if |records| > 0 {
      var n := |records| - 1;
      WithoutIdsTwice(records[..n], a, b);
      var tail := if records[n].id in a then [] else [records[n]];
      var w := WithoutIds(records[..n], a);
      assert WithoutIds(records, a) == w + tail;
      WithoutIdsAppend(w, tail, b);
    }
  }

  lemma {:induction false} WithoutIdsAppend(x: seq<TombstoneData>, y: seq<TombstoneData>, ids: set<int>)
    ensures WithoutIds(x + y, ids) == WithoutIds(x, ids) + WithoutIds(y, ids)
  {
    if |y| > 0 {
      assert (x + y)[..|x + y| - 1] == x + y[..|y| - 1];
      WithoutIdsAppend(x, y[..|y| - 1], ids);
    } else {
      assert x + y == x;
    }
  }

  lemma {:induction false} RowsWithoutIdsTwice(rows: seq<ItemRow>, a: set<int>, b: set<int>)
    ensures RowsWithoutIds(RowsWithoutIds(rows, a), b) == RowsWithoutIds(rows, a + b)
  {
    if |rows| > 0 {
      var n := |rows| - 1;
      RowsWithoutIdsTwice(rows[..n], a, b);
      var tail := if rows[n].tombstoneId in a then [] else [rows[n]];
      RowsWithoutIdsAppend(RowsWithoutIds(rows[..n], a), tail, b);
    }
  }

  lemma {:induction false} RowsWithoutIdsAppend(x: seq<ItemRow>, y: seq<ItemRow>, ids: set<int>)
    ensures RowsWithoutIds(x + y, ids) == RowsWithoutIds(x, ids) + RowsWithoutIds(y, ids)
  {
    if |y| > 0 {
      assert (x + y)[..|x + y| - 1] == x + y[..|y| - 1];
      RowsWithoutIdsAppend(x, y[..|y| - 1], ids);
    } else {
      assert x + y == x;
    }
  }

  /** Removing an item row removes exactly that slot from the tombstone's loaded items. */
  lemma {:induction false} RemoveItemDropsSlot(rows: seq<ItemRow>, tid: int, slot: int)
    ensures Decoded(RowsWithoutSlot(rows, tid, slot), tid) == DropSlot(Decoded(rows, tid), slot)
  {
    if |rows| > 0 {
      var n := |rows| - 1;
      RemoveItemDropsSlot(rows[..n], tid, slot);
      var kept := if rows[n].tombstoneId == tid && rows[n].slot == slot then [] else [rows[n]];
      DecodedAppend(RowsWithoutSlot(rows[..n], tid, slot), kept, tid);
      if kept != [] {
        assert kept[..0] == [];
      }
      var tail := if rows[n].tombstoneId == tid && rows[n].data.Serialized? then [TombstoneItemData(rows[n].slot, rows[n].data.item)] else [];
      assert Decoded(rows, tid) == Decoded(rows[..n], tid) + tail;
      DropSlotAppend(Decoded(rows[..n], tid), tail, slot);
    }
  }

  lemma {:induction false} DropSlotAppend(x: seq<TombstoneItemData>, y: seq<TombstoneItemData>, slot: int)
    ensures DropSlot(x + y, slot) == DropSlot(x, slot) + DropSlot(y, slot)
  {
    if |y| > 0 {
      assert (x + y)[..|x + y| - 1] == x + y[..|y| - 1];
      DropSlotAppend(x, y[..|y| - 1], slot);
    } else {
      assert x + y == x;
    }
  }

  /** Removing an item of one tombstone leaves every other tombstone's items as they were. */
  lemma {:induction false} RemoveItemKeepsOthers(rows: seq<ItemRow>, tid: int, slot: int, other: int)
    requires other != tid
    ensures Decoded(RowsWithoutSlot(rows, tid, slot), other) == Decoded(rows, other)
  {
    if |rows| > 0 {
      var n := |rows| - 1;
      RemoveItemKeepsOthers(rows[..n], tid, slot, other);
      var kept := if rows[n].tombstoneId == tid && rows[n].slot == slot then [] else [rows[n]];
      DecodedAppend(RowsWithoutSlot(rows[..n], tid, slot), kept, other);
      if kept != [] {
        assert kept[..0] == [];
      }
    }
  }

  // ---------------------------------------------------------------------
  // Expiry and ordering

  /** SQLite selects `death_time + despawn < now`. */
  predicate ExpiredSQLite(r: TombstoneData, now: int, despawnMillis: int)
  {
    r.deathTime + despawnMillis < now
  }

  /** MySQL selects `death_time < now - despawn`. */
  predicate ExpiredMySQL(r: TombstoneData, now: int, despawnMillis: int)
  {
    r.deathTime < now - despawnMillis
  }

  predicate Expired(backend: Backend, r: TombstoneData, now: int, despawnMillis: int)
  {
    if backend == SQLite then ExpiredSQLite(r, now, despawnMillis) else ExpiredMySQL(r, now, despawnMillis)
  }

  /** Without 64-bit overflow the two backends' expiry conditions select the same records. */
  lemma ExpiryFormsAgree(r: TombstoneData, now: int, despawnMillis: int)
    ensures ExpiredSQLite(r, now, despawnMillis) <==> ExpiredMySQL(r, now, despawnMillis)
  {
  }

  function ExpiredRecords(records: seq<TombstoneData>, backend: Backend, now: int, despawnMillis: int): seq<TombstoneData>
  {
    if |records| == 0 then []
    else
      var n := |records| - 1;
      assert records == records[..n] + [records[n]];
      ExpiredRecords(records[..n], backend, now, despawnMillis)
        + (if Expired(backend, records[n], now, despawnMillis) then [records[n]] else [])
  }

  lemma {:induction false} ExpiredRecordsMembers(records: seq<TombstoneData>, backend: Backend, now: int, despawnMillis: int)
    ensures forall x :: x in ExpiredRecords(records, backend, now, despawnMillis) <==>
      x in records && Expired(backend, x, now, despawnMillis)
  {
    if |records| > 0 {
      var n := |records| - 1;
      ExpiredRecordsMembers(records[..n], backend, now, despawnMillis);
      assert records == records[..n] + [records[n]];
    }
  }

  /** The ids a cleanup run deletes: expired records whose delete does not throw. */
  function CleanupIds(records: seq<TombstoneData>, backend: Backend, now: int, despawnMillis: int, failing: set<int>): set<int>
  {
    set x | x in records && Expired(backend, x, now, despawnMillis) && x.id !in failing :: x.id
  }

  /** The ids the cleanup deletes are those of the expired records whose delete does not throw. */
  lemma ExpiredSucceeded(records: seq<TombstoneData>, backend: Backend, now: int, despawnMillis: int, failing: set<int>)
    ensures SucceededIds(ExpiredRecords(records, backend, now, despawnMillis), failing)
      == CleanupIds(records, backend, now, despawnMillis, failing)
  {
    SucceededIdsMembers(ExpiredRecords(records, backend, now, despawnMillis), failing);
    ExpiredRecordsMembers(records, backend, now, despawnMillis);
  }

  lemma {:induction false} ExpiredRecordsOrdered(records: seq<TombstoneData>, backend: Backend, now: int, despawnMillis: int)
    requires forall i, j :: 0 <= i < j < |records| ==> records[i].id < records[j].id
    ensures forall i, j :: 0 <= i < j < |ExpiredRecords(records, backend, now, despawnMillis)| ==>
      ExpiredRecords(records, backend, now, despawnMillis)[i].id < ExpiredRecords(records, backend, now, despawnMillis)[j].id
  {
    if |records| > 0 {
      var n := |records| - 1;
      ExpiredRecordsOrdered(records[..n], backend, now, despawnMillis);
      var prev := ExpiredRecords(records[..n], backend, now, despawnMillis);
      ExpiredRecordsMembers(records[..n], backend, now, despawnMillis);
      forall i | 0 <= i < |prev|
        ensures prev[i].id < records[n].id
      {
        assert prev[i] in prev;
        var m :| 0 <= m < n && records[..n][m] == prev[i];
        assert records[m] == prev[i];
      }
      var tail := if Expired(backend, records[n], now, despawnMillis) then [records[n]] else [];
      assert ExpiredRecords(records, backend, now, despawnMillis) == prev + tail;
    }
  }

  /** The ids of the records in `es` whose delete does not throw. */
  function SucceededIds(es: seq<TombstoneData>, failing: set<int>): set<int>
  {
    if |es| == 0 then {}
    else
      var n := |es| - 1;
      SucceededIds(es[..n], failing) + (if es[n].id in failing then {} else {es[n].id})
  }

  lemma SucceededIdsSnoc(es: seq<TombstoneData>, i: int, failing: set<int>)
    requires 0 <= i < |es|
    ensures SucceededIds(es[..i + 1], failing) == SucceededIds(es[..i], failing) + (if es[i].id in failing then {} else {es[i].id})
  {
    assert es[..i + 1][..i] == es[..i];
  }

  lemma {:induction false} SucceededIdsBelow(es: seq<TombstoneData>, failing: set<int>, bound: int)
    requires forall i :: 0 <= i < |es| ==> es[i].id < bound
    ensures bound !in SucceededIds(es, failing)
  {
    if |es| > 0 {
      SucceededIdsBelow(es[..|es| - 1], failing, bound);
    }
  }

  lemma {:induction false} SucceededIdsMembers(es: seq<TombstoneData>, failing: set<int>)
    ensures SucceededIds(es, failing) == set x | x in es && x.id !in failing :: x.id
  {
    if |es| > 0 {
      var n := |es| - 1;
      SucceededIdsMembers(es[..n], failing);
      assert es == es[..n] + [es[n]];
    }
  }

  function OwnedBy(records: seq<TombstoneData>, owner: Uuid): (r: seq<TombstoneData>)
    ensures forall x :: x in r <==> x in records && x.owner == owner
    ensures multiset(r) <= multiset(records)
  {
    if |records| == 0 then []
    else
      var n := |records| - 1;
      assert records == records[..n] + [records[n]];
      OwnedBy(records[..n], owner) + (if records[n].owner == owner then [records[n]] else [])
  }

  predicate SortedByDeathDesc(s: seq<TombstoneData>)
  {
    forall i, j :: 0 <= i < j < |s| ==> s[i].deathTime >= s[j].deathTime
  }

  function InsertByDeathDesc(x: TombstoneData, s: seq<TombstoneData>): (r: seq<TombstoneData>)
    ensures |r| == |s| + 1
  {
    if |s| == 0 || x.deathTime >= s[0].deathTime then [x] + s
    else [s[0]] + InsertByDeathDesc(x, s[1..])
  }

  /** `ORDER BY death_time DESC` (records with equal death times in some fixed order). */
  function ByDeathDesc(s: seq<TombstoneData>): (r: seq<TombstoneData>)
    ensures |r| == |s|
  {
    if |s| == 0 then [] else InsertByDeathDesc(s[0], ByDeathDesc(s[1..]))
  }

  /** Inserting adds exactly the one record. */
  lemma {:induction false} InsertByDeathDescPerm(x: TombstoneData, s: seq<TombstoneData>)
    ensures multiset(InsertByDeathDesc(x, s)) == multiset(s) + multiset{x}
  {
    if |s| > 0 && x.deathTime < s[0].deathTime {
      InsertByDeathDescPerm(x, s[1..]);
      assert s == [s[0]] + s[1..];
    }
  }

  lemma {:induction false} InsertByDeathDescSorted(x: TombstoneData, s: seq<TombstoneData>)
    requires SortedByDeathDesc(s)
    ensures SortedByDeathDesc(InsertByDeathDesc(x, s))
    ensures multiset(InsertByDeathDesc(x, s)) == multiset(s) + multiset{x}
  {
    InsertByDeathDescPerm(x, s);
    if |s| > 0 && x.deathTime < s[0].deathTime {
      var rest := InsertByDeathDesc(x, s[1..]);
      InsertByDeathDescSorted(x, s[1..]);
      forall k | 0 <= k < |rest|
        ensures rest[k].deathTime <= s[0].deathTime
      {
        assert rest[k] in multiset(rest);
        assert rest[k] == x || rest[k] in s[1..];
      }
    }
  }

  /** The ordering is sorted by death time, latest first, and is a permutation of its input. */
  lemma {:induction false} ByDeathDescSorted(s: seq<TombstoneData>)
    ensures SortedByDeathDesc(ByDeathDesc(s))
    ensures multiset(ByDeathDesc(s)) == multiset(s)
  {
    if |s| > 0 {
      ByDeathDescSorted(s[1..]);
      InsertByDeathDescSorted(s[0], ByDeathDesc(s[1..]));
      assert s == [s[0]] + s[1..];
    }
  }

  /** The last record of the descending order has the earliest death time. */
  lemma LastIsOldest(s: seq<TombstoneData>)
    requires |s| > 0
    ensures forall x :: x in s ==> ByDeathDesc(s)[|s| - 1].deathTime <= x.deathTime
  {
    ByDeathDescSorted(s);
    var o := ByDeathDesc(s);
    forall x | x in s
      ensures o[|s| - 1].deathTime <= x.deathTime
    {
      assert x in multiset(o);
      var i :| 0 <= i < |o| && o[i] == x;
    }
  }

  // ---------------------------------------------------------------------
  // UUID text

  predicate IsHexDigit(c: char)
  {
    '0' <= c <= '9' || 'a' <= c <= 'f' || 'A' <= c <= 'F'
  }

  /** The canonical 8-4-4-4-12 hexadecimal form of a UUID. */
  predicate CanonicalUuid(s: string)
  {
    |s| == 36
    && (forall i :: 0 <= i < 36 ==> (s[i] == '-' <==> i in {8, 13, 18, 23}))
    && (forall i :: 0 <= i < 36 && s[i] != '-' ==> IsHexDigit(s[i]))
  }

  /** `isValidUUID`: null and whitespace-only text are rejected before parsing. */
  function IsValidUuid(s: Option<string>): (ok: bool)
    ensures s.None? ==> !ok
    ensures s.Some? && Blank(s.value) ==> !ok
    ensures ok <==> s.Some? && CanonicalUuid(s.value)
  {
    if s.None? then false
    else
      CanonicalNotBlank(s.value);
      if Blank(s.value) then false else CanonicalUuid(s.value)
  }

  lemma CanonicalNotBlank(s: string)
    ensures CanonicalUuid(s) ==> !Blank(s)
  {
    if CanonicalUuid(s) {
      assert s[0] > ' ';
    }
  }

  /** `SELECT COUNT(*) FROM tombstone_items WHERE tombstone_id = ?`. */
  function ItemCount(rows: seq<ItemRow>, tid: int): nat
  {
    if |rows| == 0 then 0
    else ItemCount(rows[..|rows| - 1], tid) + (if rows[|rows| - 1].tombstoneId == tid then 1 else 0)
  }

  /** The count is zero exactly when no row belongs to the tombstone. */
  lemma {:induction false} ItemCountZero(rows: seq<ItemRow>, tid: int)
    ensures ItemCount(rows, tid) == 0 <==> forall k :: 0 <= k < |rows| ==> rows[k].tombstoneId != tid
  {
    if |rows| > 0 {
      ItemCountZero(rows[..|rows| - 1], tid);
      assert forall k :: 0 <= k < |rows| - 1 ==> rows[..|rows| - 1][k] == rows[k];
    }
  }

  /** `SELECT experience FROM tombstones WHERE id = ?`: the first matching record's experience. */
  function ExperienceOf(records: seq<TombstoneData>, tid: int): Option<int>
  {
    if |records| == 0 then None
    else if records[0].id == tid then Some(records[0].experience)
    else ExperienceOf(records[1..], tid)
  }

  /** The query finds nothing exactly when no record has the id, and otherwise reads the first such record. */
  lemma {:induction false} ExperienceOfSpec(records: seq<TombstoneData>, tid: int)
    ensures ExperienceOf(records, tid).None? <==> forall i :: 0 <= i < |records| ==> records[i].id != tid
    ensures ExperienceOf(records, tid).Some? ==>
      exists i :: 0 <= i < |records| && records[i].id == tid && records[i].experience == ExperienceOf(records, tid).value
  {
    if |records| > 0 && records[0].id != tid {
      ExperienceOfSpec(records[1..], tid);
      assert forall i :: 1 <= i < |records| ==> records[1..][i - 1] == records[i];
      if ExperienceOf(records[1..], tid).Some? {
        var j :| 0 <= j < |records[1..]| && records[1..][j].id == tid && records[1..][j].experience == ExperienceOf(records, tid).value;
        assert records[j + 1] == records[1..][j];
      }
    }
  }

  // ---------------------------------------------------------------------
  // The store

  class Store {
    const backend: Backend
    /** The `tombstones` table, in insertion (id) order. */
    var records: seq<TombstoneData>
    /** The `tombstone_items` table, in insertion order. */
    var rows: seq<ItemRow>
    /** The next auto-increment id. */
    var nextId: int
    var tablePrefix: string
    /** Whether the JDBC connection is open and valid. */
    var connected: bool
    var autoCommit: bool

    ghost predicate Valid()
      reads this
    {
      WellFormed(records, rows, nextId)
    }

    /**
     * Opens a store over the existing tables. SQLite tables have no
     * prefix; MySQL uses the configured prefix, by default `pdm_`.
     */
    constructor (backend: Backend, configuredPrefix: Option<string>,
                 records: seq<TombstoneData>, rows: seq<ItemRow>, nextId: int)
      requires WellFormed(records, rows, nextId)
      ensures Valid()
      ensures this.backend == backend && this.records == records && this.rows == rows
      ensures backend == SQLite ==> tablePrefix == SQLITE_PREFIX
      ensures backend == MySQL ==> tablePrefix == (if configuredPrefix.Some? then configuredPrefix.value else MYSQL_DEFAULT_PREFIX)
      ensures connected && autoCommit
    {
      this.backend := backend;
      this.records := records;
      this.rows := rows;
      this.nextId := nextId;
      connected := true;
      autoCommit := true;
      tablePrefix := if backend == SQLite then SQLITE_PREFIX
        else if configuredPrefix.Some? then configuredPrefix.value else MYSQL_DEFAULT_PREFIX;
    }

    /**
     * `closeDatabase`: the connection is closed; a failing close is only
     * logged, and the connection counts as closed either way.
     */
    method CloseDatabase()
      modifies this
      ensures !connected
      ensures records == old(records) && rows == old(rows) && nextId == old(nextId)
      ensures autoCommit == old(autoCommit) && tablePrefix == old(tablePrefix)
    {
      connected := false;
    }

    /** A null prefix is stored as the empty prefix. */
    method SetTablePrefix(prefix: Option<string>)
      modifies this
      ensures tablePrefix == (if prefix.Some? then prefix.value else "")
      ensures TableName("tombstones") == (if prefix.Some? then prefix.value else "") + "tombstones"
      ensures records == old(records) && rows == old(rows) && nextId == old(nextId)
      ensures connected == old(connected) && autoCommit == old(autoCommit)
    {
      tablePrefix := if prefix.Some? then prefix.value else "";
    }

    function TableName(name: string): (r: string)
      reads this
      ensures |r| == |tablePrefix| + |name|
      ensures r[..|tablePrefix|] == tablePrefix && r[|tablePrefix|..] == name
    {
      tablePrefix + name
    }

    /** Closes and re-opens the connection when it is not valid; `opens` says whether opening succeeds. */
    method ReconnectDatabase(opens: bool) returns (ok: bool)
      modifies this
      ensures ok <==> old(connected) || opens
      ensures connected == ok
      ensures records == old(records) && rows == old(rows) && nextId == old(nextId)
      ensures tablePrefix == old(tablePrefix) && autoCommit == old(autoCommit)
    {
      if !connected {
        if opens {
          connected := true;
        } else {
          connected := false;
        }
      }
      ok := connected;
    }

    /**
     * Inserts the record and its item rows in one transaction and returns
     * the generated id. A failing reconnect or a failing statement rolls
     * everything back.
     */
    method SaveTombstone(owner: Uuid, world: string, x: int, y: int, z: int,
                         deathTime: int, protectionExpire: int, experience: int,
                         items: seq<Option<ItemStack>>, opens: bool, fails: bool)
      returns (r: Result<int>)
      requires Valid()
      modifies this
      ensures Valid()
      ensures autoCommit == old(autoCommit) && tablePrefix == old(tablePrefix)
      ensures r.Err? <==> (!old(connected) && !opens) || fails
      ensures r.Err? ==> records == old(records) && rows == old(rows) && nextId == old(nextId)
      ensures r.Ok? ==> r.value == old(nextId) && r.value > 0 && r.value !in Ids(old(records))
      ensures r.Ok? ==> records == old(records)
                          + [TombstoneData(r.value, owner, world, x, y, z, deathTime, protectionExpire, experience)]
      ensures r.Ok? ==> rows == old(rows) + SavedRows(r.value, items)
      ensures r.Ok? ==> LoadedItems(rows, r.value, backend) == Ok(SlotItems(items))
    {
      var ok := ReconnectDatabase(opens);
      if !ok {
        return Err(SqlFault);
      }
      var saved := autoCommit;
      autoCommit := false;
      if fails {
        // rollback: nothing of the transaction remains
        autoCommit := saved;
        return Err(SqlFault);
      }
      var id := InsertRecord(owner, world, x, y, z, deathTime, protectionExpire, experience, items);
      autoCommit := saved;
      r := Ok(id);
    }

    /** The statements of the transaction: the record, then its item rows, under a fresh id. */
    method InsertRecord(owner: Uuid, world: string, x: int, y: int, z: int,
                        deathTime: int, protectionExpire: int, experience: int,
                        items: seq<Option<ItemStack>>)
      returns (id: int)
      requires Valid()
      modifies this
      ensures Valid()
      ensures autoCommit == old(autoCommit) && tablePrefix == old(tablePrefix) && connected == old(connected)
      ensures id == old(nextId) && id > 0 && id !in Ids(old(records))
      ensures records == old(records) + [TombstoneData(id, owner, world, x, y, z, deathTime, protectionExpire, experience)]
      ensures rows == old(rows) + SavedRows(id, items)
      ensures LoadedItems(rows, id, backend) == Ok(SlotItems(items))
    {
      id := nextId;
      var record := TombstoneData(id, owner, world, x, y, z, deathTime, protectionExpire, experience);
      NewIdHasNoRows(records, rows, nextId);
      AppendRecordKeepsWellFormed(records, rows, nextId, record);
      records := records + [record];
      nextId := nextId + 1;
      if id > 0 && (backend == SQLite || |items| > 0) {
        SaveItems(id, items);
      } else {
        assert SavedRows(id, items) == [] by {
          SavedRowsShape(id, items);
        }
        assert rows == rows + [];
      }
      SaveThenLoad(old(rows), id, items, backend);
    }

    /** Appends one row per present item, with the item's array index as its slot. */
    method SaveItems(id: int, items: seq<Option<ItemStack>>)
      requires WellFormed(records, rows, nextId)
      requires id in Ids(records) && id == nextId - 1
      requires forall k :: 0 <= k < |rows| ==> rows[k].tombstoneId != id
      modifies this
      ensures WellFormed(records, rows, nextId)
      ensures rows == old(rows) + SavedRows(id, items)
      ensures records == old(records) && nextId == old(nextId)
      ensures autoCommit == old(autoCommit) && connected == old(connected) && tablePrefix == old(tablePrefix)
    {
      var i := 0;
      while i < |items|
        invariant 0 <= i <= |items|
        invariant rows == old(rows) + SavedRows(id, items[..i])
        invariant records == old(records) && nextId == old(nextId)
        invariant autoCommit == old(autoCommit) && connected == old(connected) && tablePrefix == old(tablePrefix)
      {
        assert items[..i + 1][..i] == items[..i];
        if Present(items[i]) {
          rows := rows + [ItemRow(id, i, Serialized(items[i].value))];
        }
        i := i + 1;
      }
      assert items[..i] == items;
      SavedRowsShape(id, items);
      SavedRowsAfterOldRows(old(rows), SavedRows(id, items), id, records);
    }

    /**
     * Reads a tombstone's item rows in slot order and deserializes them.
     * `queryFails` is the statement throwing `SQLException`.
     */
    method LoadTombstoneItems(tid: int, queryFails: bool) returns (r: Result<seq<TombstoneItemData>>)
      requires Valid()
      ensures r == Err(SqlFault) <==> !connected || queryFails
      ensures connected && !queryFails ==> r == LoadedItems(rows, tid, backend)
      ensures r.Ok? ==> forall k, l :: 0 <= k < l < |r.value| ==>
        r.value[k].originalSlotIndex < r.value[l].originalSlotIndex
    {
      if !connected || queryFails {
        return Err(SqlFault);
      }
      var acc: seq<TombstoneItemData> := [];
      var i := 0;
      while i < |rows|
        invariant 0 <= i <= |rows|
        invariant acc == Decoded(rows[..i], tid)
        invariant backend == SQLite ==> !HasCorrupt(rows[..i], tid)
      {
        assert rows[..i + 1][..i] == rows[..i];
        var row := rows[i];
        if row.tombstoneId == tid {
          match row.data {
            case Corrupt =>
              if backend == SQLite {
                assert rows[..i + 1][i] == row;
                r := Err(DeserializeFault);
                assert HasCorrupt(rows, tid) by {
                  assert rows[i].tombstoneId == tid && rows[i].data.Corrupt?;
                }
                return;
              }
            case Serialized(item) =>
              acc := acc + [TombstoneItemData(row.slot, item)];
          }
        }
        i := i + 1;
      }
      assert rows[..i] == rows;
      r := Ok(acc);
      DecodedAscending(rows, tid);
    }

    /** Deletes the row `(tid, slot)` and nothing else. */
    method RemoveTombstoneItem(tid: int, slot: int, fails: bool) returns (ok: bool)
      requires Valid()
      modifies this
      ensures Valid()
      ensures ok <==> old(connected) && !fails
      ensures ok ==> rows == RowsWithoutSlot(old(rows), tid, slot)
      ensures !ok ==> rows == old(rows)
      ensures records == old(records) && nextId == old(nextId)
      ensures connected == old(connected) && autoCommit == old(autoCommit) && tablePrefix == old(tablePrefix)
    {
      if !connected || fails {
        return false;
      }
      RowsWithoutSlotKeepsOrder(rows, tid, slot, records);
      rows := RowsWithoutSlot(rows, tid, slot);
      ok := true;
    }

    /** Sets the experience of record `tid` to zero. */
    method RemoveTombstoneExperience(tid: int, fails: bool) returns (ok: bool)
      requires Valid()
      modifies this
      ensures Valid()
      ensures ok <==> old(connected) && !fails
      ensures ok ==> records == ZeroExperience(old(records), tid)
      ensures !ok ==> records == old(records)
      ensures rows == old(rows) && nextId == old(nextId)
      ensures connected == old(connected) && autoCommit == old(autoCommit) && tablePrefix == old(tablePrefix)
    {
      if !connected || fails {
        return false;
      }
      ZeroExperienceKeepsIds(records, tid);
      records := ZeroExperience(records, tid);
      ok := true;
    }

    /**
     * `isTombstoneEmpty`. SQLite counts the item rows and, when there are
     * none, reads the record's experience; a missing record counts as
     * empty. MySQL counts only the item rows and ignores the experience.
     * `countFails` and `experienceFails` stand for the two statements
     * throwing `SQLException`; the second runs only on SQLite and only
     * when the count is zero.
     */
    method IsTombstoneEmpty(tid: int, countFails: bool, experienceFails: bool) returns (r: Result<bool>)
      requires Valid()
      ensures backend == MySQL ==> (r == Err(SqlFault) <==> !connected || countFails)
      ensures backend == SQLite ==> (r == Err(SqlFault) <==>
        !connected || countFails || (experienceFails && forall k :: 0 <= k < |rows| ==> rows[k].tombstoneId != tid))
      ensures r.Ok? && backend == MySQL ==> (r.value <==> forall k :: 0 <= k < |rows| ==> rows[k].tombstoneId != tid)
      ensures r.Ok? && backend == SQLite ==>
        (r.value <==> (forall k :: 0 <= k < |rows| ==> rows[k].tombstoneId != tid)
                      && forall i :: 0 <= i < |records| && records[i].id == tid ==> records[i].experience <= 0)
    {
      if !connected || countFails {
        return Err(SqlFault);
      }
      var count := ItemCount(rows, tid);
      ItemCountZero(rows, tid);
      if backend == MySQL {
        return Ok(count == 0);
      }
      if count > 0 {
        return Ok(false);
      }
      if experienceFails {
        return Err(SqlFault);
      }
      var experience := ExperienceOf(records, tid);
      ExperienceOfSpec(records, tid);
      if experience.Some? && experience.value > 0 {
        return Ok(false);
      }
      return Ok(true);
    }

    /**
     * Deletes the record and its item rows. SQLite deletes the rows and
     * then the record inside a transaction; MySQL deletes the record and
     * the foreign key's cascade deletes the rows. Both end in the same state.
     */
    method DeleteTombstone(tid: int, opens: bool, fails: bool) returns (ok: bool)
      requires Valid()
      modifies this
      ensures Valid()
      ensures backend == SQLite ==> (ok <==> (old(connected) || opens) && !fails)
      ensures backend == MySQL ==> (ok <==> old(connected) && !fails)
      ensures ok ==> records == WithoutIds(old(records), {tid}) && rows == RowsWithoutIds(old(rows), {tid})
      ensures !ok ==> records == old(records) && rows == old(rows)
      ensures old(connected) ==> connected
      ensures nextId == old(nextId) && autoCommit == old(autoCommit) && tablePrefix == old(tablePrefix)
    {
      if backend == SQLite {
        var open := ReconnectDatabase(opens);
        if !open || fails {
          return false;
        }
        var saved := autoCommit;
        autoCommit := false;
        RemoveRecordAndRows(tid);
        autoCommit := saved;
        ok := true;
      } else {
        if !connected || fails {
          return false;
        }
        RemoveRecordAndRows(tid);
        ok := true;
      }
    }

    /** The deletes themselves: the record and every item row of it go. */
    method RemoveRecordAndRows(tid: int)
      requires Valid()
      modifies this
      ensures Valid()
      ensures records == WithoutIds(old(records), {tid}) && rows == RowsWithoutIds(old(rows), {tid})
      ensures nextId == old(nextId) && autoCommit == old(autoCommit) && tablePrefix == old(tablePrefix)
      ensures connected == old(connected)
    {
      DeleteKeepsWellFormed(records, rows, nextId, {tid});
      records := WithoutIds(records, {tid});
      rows := RowsWithoutIds(rows, {tid});
    }

    /**
     * Selects the records whose despawn time has passed and deletes each
     * one separately; a delete that throws is skipped. Returns the number
     * of records deleted. `failing` names the ids whose delete throws.
     */
    method CleanupExpiredTombstones(now: int, despawnHours: int, queryFails: bool, failing: set<int>)
      returns (r: Result<int>)
      requires Valid()
      modifies this
      ensures Valid()
      ensures r.Err? <==> !old(connected) || queryFails
      ensures r.Err? ==> records == old(records) && rows == old(rows)
      ensures r.Ok? ==> r.value == |CleanupIds(old(records), backend, now, despawnHours * 3_600_000, failing)|
      ensures r.Ok? ==> records == WithoutIds(old(records), CleanupIds(old(records), backend, now, despawnHours * 3_600_000, failing))
      ensures r.Ok? ==> rows == RowsWithoutIds(old(rows), CleanupIds(old(records), backend, now, despawnHours * 3_600_000, failing))
      ensures nextId == old(nextId) && autoCommit == old(autoCommit) && tablePrefix == old(tablePrefix)
    {
      if !connected || queryFails {
        return Err(SqlFault);
      }
      var despawnMillis := despawnHours * 3_600_000;
      var expired := ExpiredRecords(records, backend, now, despawnMillis);
      ExpiredRecordsOrdered(records, backend, now, despawnMillis);
      ExpiredSucceeded(records, backend, now, despawnMillis, failing);
      ghost var records0, rows0 := records, rows;
      ghost var gone: set<int> := {};
      var deleted := 0;
      var i := 0;
      WithoutIdsEmpty(records);
      RowsWithoutIdsEmpty(rows);
      while i < |expired|
        invariant 0 <= i <= |expired|
        invariant forall a, b :: 0 <= a < b < |expired| ==> expired[a].id < expired[b].id
        invariant Valid() && connected
        invariant gone == SucceededIds(expired[..i], failing)
        invariant deleted == |gone|
        invariant records == WithoutIds(records0, gone) && rows == RowsWithoutIds(rows0, gone)
        invariant nextId == old(nextId) && autoCommit == old(autoCommit) && tablePrefix == old(tablePrefix)
      {
        var ok;
        ok, gone := DeleteExpired(expired, i, failing, gone, records0, rows0);
        if ok {
          deleted := deleted + 1;
        }
        i := i + 1;
      }
      assert expired[..i] == expired;
      r := Ok(deleted);
    }

    /** One round of the cleanup: the delete of `expired[i]`, skipped when it throws. */
    method DeleteExpired(expired: seq<TombstoneData>, i: int, failing: set<int>, ghost gone: set<int>,
                         ghost records0: seq<TombstoneData>, ghost rows0: seq<ItemRow>)
      returns (ok: bool, ghost gone': set<int>)
      requires Valid() && connected && 0 <= i < |expired|
      requires forall a, b :: 0 <= a < b < |expired| ==> expired[a].id < expired[b].id
      requires gone == SucceededIds(expired[..i], failing)
      requires records == WithoutIds(records0, gone) && rows == RowsWithoutIds(rows0, gone)
      modifies this
      ensures Valid() && connected
      ensures gone' == SucceededIds(expired[..i + 1], failing)
      ensures |gone'| == |gone| + (if ok then 1 else 0)
      ensures records == WithoutIds(records0, gone') && rows == RowsWithoutIds(rows0, gone')
      ensures nextId == old(nextId) && autoCommit == old(autoCommit) && tablePrefix == old(tablePrefix)
    {
      var e := expired[i];
      CleanupStep(expired, i, failing, gone, records0, rows0);
      ok := DeleteTombstone(e.id, true, e.id in failing);
      gone' := if ok then gone + {e.id} else gone;
    }

    /** `getPlayerTombstones`: the owner's records, latest death first. */
    function PlayerTombstones(owner: Uuid): (r: seq<TombstoneData>)
      reads this
    {
      ByDeathDesc(OwnedBy(records, owner))
    }

    /** `getAllTombstones`: every record, latest death first. */
    function AllTombstones(): (r: seq<TombstoneData>)
      reads this
    {
      ByDeathDesc(records)
    }
  }

  /** One cleanup iteration: the id deleted is new, and deleting it extends the deleted set. */
  lemma CleanupStep(expired: seq<TombstoneData>, i: int, failing: set<int>, gone: set<int>,
                    records: seq<TombstoneData>, rows: seq<ItemRow>)
    requires 0 <= i < |expired|
    requires forall a, b :: 0 <= a < b < |expired| ==> expired[a].id < expired[b].id
    requires gone == SucceededIds(expired[..i], failing)
    ensures expired[i].id in failing ==> SucceededIds(expired[..i + 1], failing) == gone
    ensures expired[i].id !in failing ==>
      SucceededIds(expired[..i + 1], failing) == gone + {expired[i].id}
      && |gone + {expired[i].id}| == |gone| + 1
      && WithoutIds(WithoutIds(records, gone), {expired[i].id}) == WithoutIds(records, gone + {expired[i].id})
      && RowsWithoutIds(RowsWithoutIds(rows, gone), {expired[i].id}) == RowsWithoutIds(rows, gone + {expired[i].id})
  {
    SucceededIdsSnoc(expired, i, failing);
    var id := expired[i].id;
    if id !in failing {
      assert forall a :: 0 <= a < i ==> expired[..i][a].id < id;
      SucceededIdsBelow(expired[..i], failing, id);
      WithoutIdsTwice(records, gone, {id});
      RowsWithoutIdsTwice(rows, gone, {id});
    }
  }

  /** The owner's list holds exactly the owner's records, latest death first. */
  lemma PlayerTombstonesSpec(records: seq<TombstoneData>, owner: Uuid)
    ensures SortedByDeathDesc(ByDeathDesc(OwnedBy(records, owner)))
    ensures forall x :: x in ByDeathDesc(OwnedBy(records, owner)) <==> x in records && x.owner == owner
    ensures |ByDeathDesc(OwnedBy(records, owner))| == |OwnedBy(records, owner)|
  {
    ByDeathDescSorted(OwnedBy(records, owner));
    var o := ByDeathDesc(OwnedBy(records, owner));
    assert |multiset(o)| == |multiset(OwnedBy(records, owner))|;
    forall x
      ensures x in o <==> x in OwnedBy(records, owner)
    {
      assert x in o <==> x in multiset(o);
    }
  }

  // ---------------------------------------------------------------------
  // Invariant bookkeeping

  lemma AppendRecordKeepsWellFormed(records: seq<TombstoneData>, rows: seq<ItemRow>, nextId: int, record: TombstoneData)
    requires WellFormed(records, rows, nextId)
    requires record.id == nextId
    ensures WellFormed(records + [record], rows, nextId + 1)
    ensures record.id in Ids(records + [record])
  {
    assert Ids(records) <= Ids(records + [record]);
    assert record in records + [record];
  }

  /** Loading the tombstone right after saving it gives back the present items with their slots. */
  lemma SaveThenLoad(prior: seq<ItemRow>, id: int, items: seq<Option<ItemStack>>, backend: Backend)
    requires forall k :: 0 <= k < |prior| ==> prior[k].tombstoneId != id
    ensures LoadedItems(prior + SavedRows(id, items), id, backend) == Ok(SlotItems(items))
  {
    DecodedAbsent(prior, id);
    DecodedAppend(prior, SavedRows(id, items), id);
    DecodedSavedRows(id, items);
    SavedRowsShape(id, items);
    var all := prior + SavedRows(id, items);
    forall k | 0 <= k < |all| && all[k].tombstoneId == id
      ensures all[k].data.Serialized?
    {
      assert k >= |prior|;
      assert all[k] == SavedRows(id, items)[k - |prior|];
    }
    assert !HasCorrupt(all, id);
    assert Decoded(all, id) == SlotItems(items);
  }

  lemma NewIdHasNoRows(records: seq<TombstoneData>, rows: seq<ItemRow>, nextId: int)
    requires WellFormed(records, rows, nextId)
    ensures forall k :: 0 <= k < |rows| ==> rows[k].tombstoneId != nextId
    ensures nextId !in Ids(records)
  {
    forall k | 0 <= k < |rows|
      ensures rows[k].tombstoneId != nextId
    {
      assert rows[k].tombstoneId in Ids(records);
      var x :| x in records && x.id == rows[k].tombstoneId;
      var i :| 0 <= i < |records| && records[i] == x;
    }
  }

  lemma SavedRowsAfterOldRows(prior: seq<ItemRow>, added: seq<ItemRow>, id: int, records: seq<TombstoneData>)
    requires forall k :: 0 <= k < |prior| ==> prior[k].tombstoneId != id && prior[k].tombstoneId in Ids(records)
    requires SlotsAscending(prior)
    requires forall k :: 0 <= k < |added| ==> added[k].tombstoneId == id
    requires forall k, l :: 0 <= k < l < |added| ==> added[k].slot < added[l].slot
    requires id in Ids(records)
    ensures forall k :: 0 <= k < |prior + added| ==> (prior + added)[k].tombstoneId in Ids(records)
    ensures SlotsAscending(prior + added)
  {
  }

  lemma RowsWithoutSlotKeepsOrder(rows: seq<ItemRow>, tid: int, slot: int, records: seq<TombstoneData>)
    requires forall k :: 0 <= k < |rows| ==> rows[k].tombstoneId in Ids(records)
    requires SlotsAscending(rows)
    ensures forall k :: 0 <= k < |RowsWithoutSlot(rows, tid, slot)| ==> RowsWithoutSlot(rows, tid, slot)[k].tombstoneId in Ids(records)
    ensures SlotsAscending(RowsWithoutSlot(rows, tid, slot))
  {
    var r := RowsWithoutSlot(rows, tid, slot);
    RowsWithoutSlotMembers(rows, tid, slot);
    forall k | 0 <= k < |r|
      ensures r[k].tombstoneId in Ids(records)
    {
      assert r[k] in rows;
    }
    SubsequenceKeepsOrder(rows, tid, slot);
  }

  lemma {:induction false} SubsequenceKeepsOrder(rows: seq<ItemRow>, tid: int, slot: int)
    requires SlotsAscending(rows)
    ensures SlotsAscending(RowsWithoutSlot(rows, tid, slot))
  {
    if |rows| > 0 {
      var n := |rows| - 1;
      SubsequenceKeepsOrder(rows[..n], tid, slot);
      var prev := RowsWithoutSlot(rows[..n], tid, slot);
      RowsWithoutSlotMembers(rows[..n], tid, slot);
      forall k | 0 <= k < |prev| && prev[k].tombstoneId == rows[n].tombstoneId
        ensures prev[k].slot < rows[n].slot
      {
        assert prev[k] in rows[..n];
        var m :| 0 <= m < n && rows[..n][m] == prev[k];
        assert rows[m] == prev[k];
      }
    }
  }

  lemma ZeroExperienceKeepsIds(records: seq<TombstoneData>, tid: int)
    ensures Ids(ZeroExperience(records, tid)) == Ids(records)
  {
    var z := ZeroExperience(records, tid);
    forall id | id in Ids(records)
      ensures id in Ids(z)
    {
      var x :| x in records && x.id == id;
      var i :| 0 <= i < |records| && records[i] == x;
      assert z[i].id == id;
    }
    forall id | id in Ids(z)
      ensures id in Ids(records)
    {
      var x :| x in z && x.id == id;
      var i :| 0 <= i < |z| && z[i] == x;
      assert records[i].id == id;
    }
  }

  lemma DeleteKeepsWellFormed(records: seq<TombstoneData>, rows: seq<ItemRow>, nextId: int, ids: set<int>)
    requires WellFormed(records, rows, nextId)
    ensures WellFormed(WithoutIds(records, ids), RowsWithoutIds(rows, ids), nextId)
  {
    WithoutIdsOrdered(records, ids);
    RowsWithoutIdsOrdered(rows, ids);
    var rs := WithoutIds(records, ids);
    var ws := RowsWithoutIds(rows, ids);
    WithoutIdsMembers(records, ids);
    RowsWithoutIdsMembers(rows, ids);
    forall k | 0 <= k < |ws|
      ensures ws[k].tombstoneId in Ids(rs)
    {
      assert ws[k] in rows;
      var m :| 0 <= m < |rows| && rows[m] == ws[k];
      var x :| x in records && x.id == rows[m].tombstoneId;
      assert x in rs;
    }
    forall i | 0 <= i < |rs|
      ensures 0 < rs[i].id < nextId
    {
      assert rs[i] in records;
    }
  }

  lemma {:induction false} WithoutIdsOrdered(records: seq<TombstoneData>, ids: set<int>)
    requires forall i, j :: 0 <= i < j < |records| ==> records[i].id < records[j].id
    ensures forall i, j :: 0 <= i < j < |WithoutIds(records, ids)| ==> WithoutIds(records, ids)[i].id < WithoutIds(records, ids)[j].id
  {
    if |records| > 0 {
      var n := |records| - 1;
      WithoutIdsOrdered(records[..n], ids);
      var prev := WithoutIds(records[..n], ids);
      WithoutIdsMembers(records[..n], ids);
      forall i | 0 <= i < |prev|
        ensures prev[i].id < records[n].id
      {
        assert prev[i] in records[..n];
        var m :| 0 <= m < n && records[..n][m] == prev[i];
        assert records[m] == prev[i];
      }
    }
  }

  lemma {:induction false} RowsWithoutIdsOrdered(rows: seq<ItemRow>, ids: set<int>)
    requires SlotsAscending(rows)
    ensures SlotsAscending(RowsWithoutIds(rows, ids))
  {
    if |rows| > 0 {
      var n := |rows| - 1;
      RowsWithoutIdsOrdered(rows[..n], ids);
      var prev := RowsWithoutIds(rows[..n], ids);
      RowsWithoutIdsMembers(rows[..n], ids);
      forall k | 0 <= k < |prev| && prev[k].tombstoneId == rows[n].tombstoneId
        ensures prev[k].slot < rows[n].slot
      {
        assert prev[k] in rows[..n];
        var m :| 0 <= m < n && rows[..n][m] == prev[k];
        assert rows[m] == prev[k];
      }
    }
  }

  lemma {:induction false} WithoutIdsEmpty(records: seq<TombstoneData>)
    ensures WithoutIds(records, {}) == records
  {
    if |records| > 0 {
      WithoutIdsEmpty(records[..|records| - 1]);
      assert records == records[..|records| - 1] + [records[|records| - 1]];
    }
  }

  lemma {:induction false} RowsWithoutIdsEmpty(rows: seq<ItemRow>)
    ensures RowsWithoutIds(rows, {}) == rows
  {
    if |rows| > 0 {
      RowsWithoutIdsEmpty(rows[..|rows| - 1]);
      assert rows == rows[..|rows| - 1] + [rows[|rows| - 1]];
    }
  }
}
