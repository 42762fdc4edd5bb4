/**
 * One run of the notifier against its store: every scanned section is
 * compared with the stored row of the same `order_id`, rows are overwritten
 * or marked sold, new items are staged and inserted in one batch, and every
 * stored key the scan did not mention is deleted. The `item` table is a
 * `Table` and the notifications are a list of `Event`s, dispatched only when
 * the run completes.
 */
module Reconciler {
  import opened Wrappers
  import opened Models
  import opened Parsers

  /** The four notifications, each with the item it names and, for a price change, both prices. */
  datatype Event =
    | PriceChanged(item: Item, oldPrice: int, newPrice: int)
    | Sold(item: Item)
    | Added(item: Item)
    | Removed(item: Item)

  /**
   * Why a run stops early: the batch insert hits a key that is already
   * taken, a listed key has no row when the deletion pass reads it, or the
   * page parser panicked on the price line of the block at `marker`.
   */
  datatype Failure = DuplicateKey(orderId: int) | ItemNotFound | PricePanic(marker: nat)

  /**
   * The state of the scan loop: the store, the notifications queued so far,
   * the `order_ids` seen and the `new_items` staged for insertion.
   */
  datatype Pass = Pass(store: Table, events: seq<Event>, seen: seq<int>, staged: seq<Item>)

  /** The loop before its first section. */
  function Start(store: Table): Pass {
    Pass(store, [], [], [])
  }

  /**
   * One iteration of the loop over the scanned sections: record the id, then
   * act on the stored row with that id, if any.
   */
  function Visit(p: Pass, s: ItemSection): (r: Pass)
    ensures r.seen == p.seen + [s.orderId]
    ensures r.store.Keys == p.store.Keys
    ensures |p.events| <= |r.events| <= |p.events| + 1 && r.events[..|p.events|] == p.events
    ensures s.orderId !in p.store ==> r.store == p.store
    ensures s.orderId in p.store || s.item.None? ==> r.staged == p.staged
  {
    var seen := p.seen + [s.orderId];
    if s.orderId in p.store then
      var row := p.store[s.orderId];
      if s.item.Some? then
        var it := s.item.value;
        var ev := if it.price != row.price then [PriceChanged(it, row.price, it.price)] else [];
        Pass(UpdateRow(p.store, it), p.events + ev, seen, p.staged)
      else if !row.hasSold then
        Pass(UpdateRow(p.store, row.(hasSold := true, price := s.price)), p.events + [Sold(row)], seen, p.staged)
      else
        p.(seen := seen)
    else if s.item.Some? then
      Pass(p.store, p.events + [Added(s.item.value)], seen, p.staged + [s.item.value])
    else
      p.(seen := seen)
  }

  /** The loop over `sections`, in scan order. */
  function Walk(p: Pass, sections: seq<ItemSection>): Pass
    decreases |sections|
  {
    if sections == [] then p else Walk(Visit(p, sections[0]), sections[1..])
  }

  /** The outcome of the batch insert: the table with the new rows, or the key that was already taken. */
  datatype Insertion = Inserted(store: Table) | Duplicate(orderId: int)

  /**
   * The multi-row `INSERT` of the staged items, row after row; one clash on
   * the primary key fails the whole statement and the table keeps none of
   * the rows.
   */
  function InsertBatch(t: Table, staged: seq<Item>): (r: Insertion)
    ensures r.Inserted? ==> r.store.Keys == t.Keys + set i | 0 <= i < |staged| :: staged[i].orderId
    ensures r.Inserted? ==> forall k :: k in t ==> r.store[k] == t[k]
    ensures r.Duplicate? ==> exists i :: 0 <= i < |staged| && staged[i].orderId == r.orderId
    decreases |staged|
  {
    if staged == [] then Inserted(t)
    else
      var it := staged[0];
      if it.orderId in t then Duplicate(it.orderId)
      else
        var r := InsertBatch(t[it.orderId := it], staged[1..]);
        assert forall i :: 0 < i < |staged| ==> staged[i] == staged[1..][i - 1];
        assert r.Duplicate? ==> staged[1..][0] == staged[1];
        r
  }

  /** `deleted_items.retain(|x| !order_ids.contains(x))`: the listed keys the scan never saw, in listing order. */
  function Unseen(listed: seq<int>, seen: seq<int>): (r: seq<int>)
    ensures forall k :: k in r <==> k in listed && k !in seen
    ensures forall i :: 0 <= i < |r| ==> r[i] in listed
    ensures |r| <= |listed|
  {
    if listed == [] then []
    else (if listed[0] in seen then [] else [listed[0]]) + Unseen(listed[1..], seen)
  }

  /** How a run ends: the final store and the notifications to send, or the failure and the store as it was left. */
  datatype Run = Completed(store: Table, events: seq<Event>) | Aborted(failure: Failure, store: Table)

  /**
   * The deletion pass over `ids`: read the row, delete by key, and queue a
   * removal; a key without a row fails the run after its delete was issued.
   */
  function DeleteAll(t: Table, events: seq<Event>, ids: seq<int>): (r: Run)
    ensures r.Completed? ==> r.store.Keys == t.Keys - set i | 0 <= i < |ids| :: ids[i]
    ensures r.Completed? ==> forall k :: k in r.store ==> r.store[k] == t[k]
    ensures r.Completed? ==> |r.events| == |events| + |ids|
    ensures r.Aborted? ==> r.failure == ItemNotFound && r.store.Keys <= t.Keys
    decreases |ids|
  {
    if ids == [] then Completed(t, events)
    else
      var id := ids[0];
      var rest := t - {id};
      assert forall i :: 0 < i < |ids| ==> ids[i] == ids[1..][i - 1];
      if id in t then DeleteAll(rest, events + [Removed(t[id])], ids[1..])
      else Aborted(ItemNotFound, rest)
  }

  /**
   * The run from the scanned sections on: the loop, the batch insert when
   * something was staged, then the deletion of the keys the database lists
   * (`listed`, its answer after the insert) that the scan did not see.
   */
  function Reconcile(sections: seq<ItemSection>, store: Table, listed: seq<int>): Run {
    var p := Walk(Start(store), sections);
    var ins := if |p.staged| > 0 then InsertBatch(p.store, p.staged) else Inserted(p.store);
    match ins
    case Duplicate(id) => Aborted(DuplicateKey(id), p.store)
    case Inserted(t) => DeleteAll(t, p.events, Unseen(listed, p.seen))
  }

  /** The table the deletion pass starts from, when the insert goes through. */
  function AfterInsert(sections: seq<ItemSection>, store: Table): Option<Table> {
    var p := Walk(Start(store), sections);
    var ins := if |p.staged| > 0 then InsertBatch(p.store, p.staged) else Inserted(p.store);
    if ins.Inserted? then Some(ins.store) else None
  }

  /**
   * The loop and the deletion pass as `main` runs them, statement by
   * statement, over the same store and listing.
   */
  method ReconcileSteps(sections: seq<ItemSection>, store: Table, listed: seq<int>) returns (r: Run)
    ensures r == Reconcile(sections, store, listed)
  {
    var p := Start(store);
    var i := 0;
    while i < |sections|
      invariant i <= |sections|
      invariant Walk(p, sections[i..]) == Walk(Start(store), sections)
    {
      assert sections[i..][1..] == sections[i + 1..];
      p := Visit(p, sections[i]);
      i := i + 1;
    }
    assert sections[i..] == [];
    var t := p.store;
    if |p.staged| > 0 {
      var ins := InsertBatch(p.store, p.staged);
      if ins.Duplicate? {
        return Aborted(DuplicateKey(ins.orderId), p.store);
      }
      t := ins.store;
    }
    var ids := Unseen(listed, p.seen);
    var events := p.events;
    ghost var goal := Reconcile(sections, store, listed);
    assert DeleteAll(t, events, ids[0..]) == goal by {
      assert ids[0..] == ids;
    }
    var j := 0;
    while j < |ids|
      invariant j <= |ids|
      invariant DeleteAll(t, events, ids[j..]) == goal
    {
      assert ids[j..][1..] == ids[j + 1..];
      var id := ids[j];
      var row := if id in t then Some(t[id]) else None;
      var rest := t - {id};
      if row.None? {
        assert DeleteAll(t, events, ids[j..]) == Aborted(ItemNotFound, rest);
        return Aborted(ItemNotFound, rest);
      }
      assert DeleteAll(t, events, ids[j..]) == DeleteAll(rest, events + [Removed(row.value)], ids[j + 1..]);
      t := rest;
      events := events + [Removed(row.value)];
      j := j + 1;
    }
    assert ids[j..] == [];
    return Completed(t, events);
  }

  /**
   * A whole run over a page: `parse_items` reads every block before the loop
   * starts, so a panic on a price line ends the run before the store is
   * touched; otherwise the sections are reconciled.
   */
  function RunOnce(lines: seq<string>, store: Table, listed: seq<int>): (r: Run)
    ensures r.Aborted? && r.failure.PricePanic? <==> ScanPage(lines).Crashed?
    ensures r.Aborted? && r.failure.PricePanic? ==> r.store == store && r.failure.marker == ScanPage(lines).marker
  {
    match ScanPage(lines)
    case Crashed(m) => Aborted(PricePanic(m), store)
    case Done(ss) => Reconcile(ss, store, listed)
  }
}
