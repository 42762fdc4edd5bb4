/**
 * What a run does, stated without the loop: with distinct ids in the scan,
 * each section is judged against the store as it was before the run, every
 * seen row ends up as that judgement says, the unseen rows are deleted, and
 * running again over the result changes nothing.
 */
module ReconcilerLemmas {
  import opened Wrappers
  import opened Models
  import opened Parsers
  import opened Reconciler
  import ScannerLemmas
  import Text

  // ---- Reference definitions ----

  /** The ids of the sections, in scan order. */
  function Ids(ss: seq<ItemSection>): (r: seq<int>)
    ensures |r| == |ss|
    ensures forall i :: 0 <= i < |ss| ==> r[i] == ss[i].orderId
  {
    if ss == [] then [] else [ss[0].orderId] + Ids(ss[1..])
  }

  /** No two sections of the scan share an `order_id`. */
  predicate DistinctIds(ss: seq<ItemSection>) {
    forall i, j :: 0 <= i < j < |ss| ==> ss[i].orderId != ss[j].orderId
  }

  /** Every section is coherent, as the page parser makes them. */
  predicate AllCoherent(ss: seq<ItemSection>) {
    forall i :: 0 <= i < |ss| ==> Coherent(ss[i])
  }

  /** The notifications one section calls for, judged against the row `store` holds for it. */
  function SectionEvents(store: Table, s: ItemSection): seq<Event> {
    if s.orderId !in store then
      if s.item.Some? then [Added(s.item.value)] else []
    else
      var row := store[s.orderId];
      match s.item
      case Some(it) => if it.price == row.price then [] else [PriceChanged(it, row.price, it.price)]
      case None => if row.hasSold then [] else [Sold(row)]
  }

  /** The notifications of every section, each judged against the same store. */
  function AllEvents(store: Table, ss: seq<ItemSection>): seq<Event> {
    if ss == [] then [] else SectionEvents(store, ss[0]) + AllEvents(store, ss[1..])
  }

  /** The section's item, if it is a detail section `store` has no row for. */
  function Fresh(store: Table, s: ItemSection): seq<Item> {
    if s.orderId !in store && s.item.Some? then [s.item.value] else []
  }

  /** The detail items of the sections `store` has no row for: the new items, in scan order. */
  function NewItems(store: Table, ss: seq<ItemSection>): seq<Item> {
    if ss == [] then [] else Fresh(store, ss[0]) + NewItems(store, ss[1..])
  }

  /**
   * The stored row after a section for it: a detail section replaces it
   * whole; a sold section marks an unsold row sold at the scanned price and
   * leaves a sold row alone.
   */
  function Settled(row: Item, s: ItemSection): Item {
    if s.item.Some? then s.item.value
    else if row.hasSold then row
    else row.(hasSold := true, price := s.price)
  }

  /** The row a completed run leaves for a section: the settled stored row, or the new item. */
  function Expected(store: Table, s: ItemSection): Item
    requires s.orderId in store || s.item.Some?
  {
    if s.orderId in store then Settled(store[s.orderId], s) else s.item.value
  }

  /** `listed` lists every key of `t` exactly once, as a primary-key column does. */
  predicate Enumerates(listed: seq<int>, t: Table) {
    && (forall k :: k in listed ==> k in t)
    && (forall k :: k in t ==> k in listed)
    && (forall i, j :: 0 <= i < j < |listed| ==> listed[i] != listed[j])
  }

  /** The database lists the table the insert leaves, if the insert goes through. */
  predicate ListsAfterInsert(listed: seq<int>, ss: seq<ItemSection>, store: Table) {
    match AfterInsert(ss, store)
    case None => true
    case Some(t) => Enumerates(listed, t)
  }

  /** The removal notifications for `ids`, each naming the row it deletes. */
  function Removals(t: Table, ids: seq<int>): seq<Event>
    requires forall i :: 0 <= i < |ids| ==> ids[i] in t
  {
    if ids == [] then [] else [Removed(t[ids[0]])] + Removals(t, ids[1..])
  }

  // ---- One iteration ----

  lemma IdsMembership(ss: seq<ItemSection>, k: int)
    ensures k in Ids(ss) <==> exists i :: 0 <= i < |ss| && ss[i].orderId == k
  {
    if k in Ids(ss) {
      var i :| 0 <= i < |ss| && Ids(ss)[i] == k;
    }
  }

  /**
   * On a store keyed by `order_id`, one iteration settles the row of the
   * section's id, queues that section's notifications, and stages it
   * exactly when it is a new item.
   */
  lemma VisitEffect(p: Pass, s: ItemSection)
    requires KeyedByOrderId(p.store) && Coherent(s)
    ensures Visit(p, s).store == if s.orderId in p.store then p.store[s.orderId := Settled(p.store[s.orderId], s)] else p.store
    ensures Visit(p, s).events == p.events + SectionEvents(p.store, s)
    ensures Visit(p, s).staged == p.staged + Fresh(p.store, s)
    ensures KeyedByOrderId(Visit(p, s).store)
  {
  }

  /** The loop over a non-empty scan is one iteration, then the loop over the rest. */
  lemma WalkStep(p: Pass, ss: seq<ItemSection>)
    requires ss != []
    ensures Walk(p, ss) == Walk(Visit(p, ss[0]), ss[1..])
  {
  }

  /** One iteration queues exactly the section's notifications. */
  lemma VisitEvents(p: Pass, s: ItemSection)
    ensures Visit(p, s).events == p.events + SectionEvents(p.store, s)
  {
  }

  /** One iteration keeps every row stored under its own `order_id`. */
  lemma VisitKeyed(p: Pass, s: ItemSection)
    requires KeyedByOrderId(p.store) && Coherent(s)
    ensures KeyedByOrderId(Visit(p, s).store)
  {
  }

  /** One iteration stages exactly the section's new item, if any. */
  lemma VisitStaged(p: Pass, s: ItemSection)
    ensures Visit(p, s).staged == p.staged + Fresh(p.store, s)
  {
  }

  // ---- The loop ----

  /** Every section's id is recorded as seen, whatever its branch, in scan order. */
  lemma {:induction false} WalkSeen(p: Pass, ss: seq<ItemSection>)
    ensures Walk(p, ss).seen == p.seen + Ids(ss)
    decreases |ss|
  {
    if ss != [] {
      var p1 := Visit(p, ss[0]);
      assert Walk(p, ss) == Walk(p1, ss[1..]);
      WalkSeen(p1, ss[1..]);
      assert Ids(ss) == [ss[0].orderId] + Ids(ss[1..]);
      assert p1.seen + Ids(ss[1..]) == p.seen + Ids(ss);
    }
  }

  /** The loop adds no row and removes none: new items wait for the batch insert. */
  lemma {:induction false} WalkKeys(p: Pass, ss: seq<ItemSection>)
    ensures Walk(p, ss).store.Keys == p.store.Keys
    decreases |ss|
  {
    if ss != [] {
      WalkKeys(Visit(p, ss[0]), ss[1..]);
    }
  }

  /** The loop keeps every row under its own `order_id`. */
  lemma {:induction false} WalkKeyed(p: Pass, ss: seq<ItemSection>)
    requires KeyedByOrderId(p.store) && AllCoherent(ss)
    ensures KeyedByOrderId(Walk(p, ss).store)
    decreases |ss|
  {
    if ss != [] {
      VisitEffect(p, ss[0]);
      WalkKeyed(Visit(p, ss[0]), ss[1..]);
    }
  }

  /** A row no section mentions comes through the loop unchanged. */
  lemma {:induction false} WalkUntouched(p: Pass, ss: seq<ItemSection>, k: int)
    requires KeyedByOrderId(p.store) && AllCoherent(ss)
    requires k in p.store && forall i :: 0 <= i < |ss| ==> ss[i].orderId != k
    ensures k in Walk(p, ss).store && Walk(p, ss).store[k] == p.store[k]
    decreases |ss|
  {
    if ss != [] {
      VisitEffect(p, ss[0]);
      WalkUntouched(Visit(p, ss[0]), ss[1..], k);
    }
  }

  /** Two stores that agree on the sections' ids judge the sections alike. */
  lemma {:induction false} JudgedAlike(a: Table, b: Table, ss: seq<ItemSection>)
    requires forall i :: 0 <= i < |ss| ==> (ss[i].orderId in a <==> ss[i].orderId in b)
    requires forall i :: 0 <= i < |ss| && ss[i].orderId in a ==> a[ss[i].orderId] == b[ss[i].orderId]
    ensures AllEvents(a, ss) == AllEvents(b, ss)
    ensures NewItems(a, ss) == NewItems(b, ss)
    decreases |ss|
  {
    if ss != [] {
      JudgedAlike(a, b, ss[1..]);
    }
  }

  /** After the first section, the rest of the scan meets the same rows it would have met before it. */
  lemma TailJudgedAlike(p: Pass, ss: seq<ItemSection>)
    requires KeyedByOrderId(p.store) && AllCoherent(ss) && DistinctIds(ss) && ss != []
    ensures AllEvents(Visit(p, ss[0]).store, ss[1..]) == AllEvents(p.store, ss[1..])
    ensures NewItems(Visit(p, ss[0]).store, ss[1..]) == NewItems(p.store, ss[1..])
  {
    VisitEffect(p, ss[0]);
    var tail := ss[1..];
    assert forall i :: 0 <= i < |tail| ==> tail[i] == ss[i + 1];
    JudgedAlike(Visit(p, ss[0]).store, p.store, tail);
  }

  /** Dropping the first section keeps the scan coherent and its ids distinct. */
  lemma TailInvariants(ss: seq<ItemSection>)
    requires ss != []
    ensures AllCoherent(ss) ==> AllCoherent(ss[1..])
    ensures DistinctIds(ss) ==> DistinctIds(ss[1..])
  {
    var tail := ss[1..];
    assert forall i :: 0 <= i < |tail| ==> tail[i] == ss[i + 1];
  }

  /**
   * With distinct ids, the loop's notifications are those of each section
   * judged against the store as it was before the loop.
   */
  lemma {:induction false} WalkEvents(p: Pass, ss: seq<ItemSection>)
    requires KeyedByOrderId(p.store) && AllCoherent(ss) && DistinctIds(ss)
    ensures Walk(p, ss).events == p.events + AllEvents(p.store, ss)
    decreases |ss|
  {
    if ss != [] {
      VisitKeyed(p, ss[0]);
      TailInvariants(ss);
      WalkEvents(Visit(p, ss[0]), ss[1..]);
      TailJudgedAlike(p, ss);
      WalkEventsStep(p, ss);
    }
  }

  /** The inductive step of `WalkEvents`, once the rest of the scan is judged alike before and after the first section. */
  lemma WalkEventsStep(p: Pass, ss: seq<ItemSection>)
    requires ss != []
    requires AllEvents(Visit(p, ss[0]).store, ss[1..]) == AllEvents(p.store, ss[1..])
    requires Walk(Visit(p, ss[0]), ss[1..]).events == Visit(p, ss[0]).events + AllEvents(Visit(p, ss[0]).store, ss[1..])
    ensures Walk(p, ss).events == p.events + AllEvents(p.store, ss)
  {
    var tail := ss[1..];
    WalkStep(p, ss);
    VisitEvents(p, ss[0]);
    assert AllEvents(p.store, ss) == SectionEvents(p.store, ss[0]) + AllEvents(p.store, tail);
    Text.Associative(p.events, SectionEvents(p.store, ss[0]), AllEvents(p.store, tail));
  }


  /** With distinct ids, the loop stages exactly the new items, in scan order. */
  lemma {:induction false} WalkStaged(p: Pass, ss: seq<ItemSection>)
    requires KeyedByOrderId(p.store) && AllCoherent(ss) && DistinctIds(ss)
    ensures Walk(p, ss).staged == p.staged + NewItems(p.store, ss)
    decreases |ss|
  {
    if ss != [] {
      VisitKeyed(p, ss[0]);
      TailInvariants(ss);
      WalkStaged(Visit(p, ss[0]), ss[1..]);
      TailJudgedAlike(p, ss);
      WalkStagedStep(p, ss);
    }
  }

  /** The inductive step of `WalkStaged`, once the rest of the scan is judged alike before and after the first section. */
  lemma WalkStagedStep(p: Pass, ss: seq<ItemSection>)
    requires ss != []
    requires NewItems(Visit(p, ss[0]).store, ss[1..]) == NewItems(p.store, ss[1..])
    requires Walk(Visit(p, ss[0]), ss[1..]).staged == Visit(p, ss[0]).staged + NewItems(Visit(p, ss[0]).store, ss[1..])
    ensures Walk(p, ss).staged == p.staged + NewItems(p.store, ss)
  {
    var tail := ss[1..];
    WalkStep(p, ss);
    VisitStaged(p, ss[0]);
    assert NewItems(p.store, ss) == Fresh(p.store, ss[0]) + NewItems(p.store, tail);
    Text.Associative(p.staged, Fresh(p.store, ss[0]), NewItems(p.store, tail));
  }

  /** With distinct ids, the loop leaves each stored row that a section mentions settled by that section. */
  lemma {:induction false} WalkRows(p: Pass, ss: seq<ItemSection>, i: nat)
    requires KeyedByOrderId(p.store) && AllCoherent(ss) && DistinctIds(ss)
    requires i < |ss| && ss[i].orderId in p.store
    ensures ss[i].orderId in Walk(p, ss).store
    ensures Walk(p, ss).store[ss[i].orderId] == Settled(p.store[ss[i].orderId], ss[i])
    decreases |ss|
  {
    var s := ss[0];
    var p1 := Visit(p, s);
    var tail := ss[1..];
    VisitEffect(p, s);
    assert forall j :: 0 <= j < |tail| ==> tail[j] == ss[j + 1];
    if i == 0 {
      WalkUntouched(p1, tail, s.orderId);
    } else {
      WalkRows(p1, tail, i - 1);
    }
  }

  // ---- The batch insert ----

  /** The keys listed in `ids`. */
  function KeySet(ids: seq<int>): set<int> {
    set k | k in ids
  }

  /** Distinct keys: no two entries of `ids` are equal. */
  predicate Distinct(ids: seq<int>) {
    forall i, j :: 0 <= i < j < |ids| ==> ids[i] != ids[j]
  }

  /** The keys of the staged items, in order. */
  function StagedKeys(staged: seq<Item>): (r: seq<int>)
    ensures |r| == |staged|
    ensures forall i :: 0 <= i < |staged| ==> r[i] == staged[i].orderId
  {
    if staged == [] then [] else [staged[0].orderId] + StagedKeys(staged[1..])
  }

  /**
   * The batch insert goes through exactly when no staged key is taken,
   * either by a stored row or by an earlier staged item.
   */
  lemma {:induction false} InsertBatchSucceeds(t: Table, staged: seq<Item>)
    ensures InsertBatch(t, staged).Inserted? <==>
              (forall i :: 0 <= i < |staged| ==> staged[i].orderId !in t) && Distinct(StagedKeys(staged))
    decreases |staged|
  {
    if staged != [] {
      var it := staged[0];
      var tail := staged[1..];
      assert forall i :: 0 < i < |staged| ==> staged[i] == tail[i - 1];
      if it.orderId !in t {
        assert InsertBatch(t, staged) == InsertBatch(t[it.orderId := it], tail);
        InsertBatchSucceeds(t[it.orderId := it], tail);
        DistinctKeysStep(staged);
      }
    }
  }

  /** The staged keys are distinct iff the tail's are and none of them is the first key. */
  lemma DistinctKeysStep(staged: seq<Item>)
    requires staged != []
    ensures Distinct(StagedKeys(staged)) <==>
              Distinct(StagedKeys(staged[1..])) && forall i :: 0 <= i < |staged| - 1 ==> staged[1..][i].orderId != staged[0].orderId
  {
    var kt := StagedKeys(staged[1..]);
    assert StagedKeys(staged) == [staged[0].orderId] + kt;
    DistinctCons(staged[0].orderId, kt);
  }

  /** A key put in front of distinct keys keeps them distinct iff it is not among them. */
  lemma DistinctCons(x: int, r: seq<int>)
    ensures Distinct([x] + r) <==> Distinct(r) && forall i :: 0 <= i < |r| ==> r[i] != x
  {
    var s := [x] + r;
    assert forall i :: 0 <= i < |r| ==> s[i + 1] == r[i];
    if Distinct(s) {
      forall i, j | 0 <= i < j < |r| ensures r[i] != r[j] {
        assert s[i + 1] != s[j + 1];
      }
      forall i | 0 <= i < |r| ensures r[i] != x {
        assert s[0] != s[i + 1];
      }
    }
    if Distinct(r) && forall i :: 0 <= i < |r| ==> r[i] != x {
      forall i, j | 0 <= i < j < |s| ensures s[i] != s[j] {
        if i > 0 {
          assert s[i] == r[i - 1] && s[j] == r[j - 1];
        } else {
          assert s[j] == r[j - 1];
        }
      }
    }
  }

  /** A batch that goes through adds each staged item under its own key. */
  lemma {:induction false} InsertBatchRows(t: Table, staged: seq<Item>)
    requires InsertBatch(t, staged).Inserted?
    ensures forall i :: 0 <= i < |staged| ==> InsertBatch(t, staged).store[staged[i].orderId] == staged[i]
    ensures KeyedByOrderId(t) ==> KeyedByOrderId(InsertBatch(t, staged).store)
    decreases |staged|
  {
    if staged != [] {
      var it := staged[0];
      var tail := staged[1..];
      assert forall i :: 0 < i < |staged| ==> staged[i] == tail[i - 1];
      InsertBatchRows(t[it.orderId := it], tail);
    }
  }

  // ---- The deletion pass ----

  /**
   * The deletion pass completes exactly when every key it is given has a
   * row and no key comes twice; otherwise it fails with `ItemNotFound`.
   */
  lemma {:induction false} DeleteAllCompletes(t: Table, events: seq<Event>, ids: seq<int>)
    ensures DeleteAll(t, events, ids).Completed? <==> (forall i :: 0 <= i < |ids| ==> ids[i] in t) && Distinct(ids)
    decreases |ids|
  {
    if ids != [] {
      var id := ids[0];
      var tail := ids[1..];
      assert forall i :: 0 < i < |ids| ==> ids[i] == tail[i - 1];
      if id in t {
        DeleteAllCompletes(t - {id}, events + [Removed(t[id])], tail);
      }
    }
  }

  /** Two tables that agree on `ids` name the same rows in their removals. */
  lemma {:induction false} RemovalsAlike(a: Table, b: Table, ids: seq<int>)
    requires forall i :: 0 <= i < |ids| ==> ids[i] in a && ids[i] in b && a[ids[i]] == b[ids[i]]
    ensures Removals(a, ids) == Removals(b, ids)
    decreases |ids|
  {
    if ids != [] {
      RemovalsAlike(a, b, ids[1..]);
    }
  }

  /** Rows the pass over `ids[1..]` found after deleting `ids[0]` are rows the pass over `ids` found. */
  lemma ShiftedPrefixes(t: Table, ids: seq<int>, j: nat)
    requires j < |ids| && ids[0] in t
    requires forall i :: 0 <= i < j ==> ids[1..][i] in t - {ids[0]} - KeySet(ids[1..][..i])
    ensures forall i :: 0 <= i < j + 1 ==> ids[i] in t - KeySet(ids[..i])
  {
    assert ids[..0] == [];
    forall i | 0 < i < j + 1 ensures ids[i] in t - KeySet(ids[..i]) {
      KeySetShift(ids, i - 1);
      MinusTwice(t, ids[0], KeySet(ids[1..][..i - 1]));
    }
  }

  /** The first key of a deletion pass that has a row: delete it, queue its removal, go on. */
  lemma DeleteAllStep(t: Table, events: seq<Event>, ids: seq<int>)
    requires ids != [] && ids[0] in t
    ensures DeleteAll(t, events, ids) == DeleteAll(t - {ids[0]}, events + [Removed(t[ids[0]])], ids[1..])
  {
  }

  /** A completed deletion pass queues one removal per key, naming the row it deleted, in order. */
  lemma {:induction false} DeleteAllEvents(t: Table, events: seq<Event>, ids: seq<int>)
    requires forall i :: 0 <= i < |ids| ==> ids[i] in t
    requires Distinct(ids)
    ensures DeleteAll(t, events, ids).Completed?
    ensures DeleteAll(t, events, ids).events == events + Removals(t, ids)
    decreases |ids|
  {
    if ids != [] {
      var rest := t - {ids[0]};
      var ev := events + [Removed(t[ids[0]])];
      DeletedTail(t, ids);
      DeleteAllEvents(rest, ev, ids[1..]);
      RemovalsAlike(rest, t, ids[1..]);
      DeleteAllEventsStep(t, events, ids);
    }
  }

  /** After the first delete the remaining distinct keys are still distinct and all still have rows. */
  lemma DeletedTail(t: Table, ids: seq<int>)
    requires ids != [] && (forall i :: 0 <= i < |ids| ==> ids[i] in t) && Distinct(ids)
    ensures forall i :: 0 <= i < |ids| - 1 ==> ids[1..][i] in t - {ids[0]} && ids[1..][i] in t
    ensures Distinct(ids[1..])
  {
    var tail := ids[1..];
    assert forall i :: 0 <= i < |tail| ==> tail[i] == ids[i + 1];
  }

  /** The inductive step of `DeleteAllEvents`, given its claim for the remaining keys. */
  lemma DeleteAllEventsStep(t: Table, events: seq<Event>, ids: seq<int>)
    requires ids != [] && ids[0] in t
    requires forall i :: 0 <= i < |ids| ==> ids[i] in t
    requires forall i :: 0 <= i < |ids| - 1 ==> ids[1..][i] in t - {ids[0]} && ids[1..][i] in t
    requires DeleteAll(t - {ids[0]}, events + [Removed(t[ids[0]])], ids[1..]).Completed?
    requires DeleteAll(t - {ids[0]}, events + [Removed(t[ids[0]])], ids[1..]).events
             == events + [Removed(t[ids[0]])] + Removals(t - {ids[0]}, ids[1..])
    requires Removals(t - {ids[0]}, ids[1..]) == Removals(t, ids[1..])
    ensures DeleteAll(t, events, ids).Completed?
    ensures DeleteAll(t, events, ids).events == events + Removals(t, ids)
  {
    DeleteAllStep(t, events, ids);
    assert Removals(t, ids) == [Removed(t[ids[0]])] + Removals(t, ids[1..]);
    Text.Associative(events, [Removed(t[ids[0]])], Removals(t, ids[1..]));
  }

  /**
   * A failed deletion pass has issued the delete of every key up to and
   * including the one without a row: that key had no row left once the
   * deletes before it were done.
   */
  lemma {:induction false} DeleteAllAborted(t: Table, events: seq<Event>, ids: seq<int>)
    requires DeleteAll(t, events, ids).Aborted?
    ensures exists j :: 0 <= j < |ids|
              && (forall i :: 0 <= i < j ==> ids[i] in t - KeySet(ids[..i]))
              && ids[j] !in t - KeySet(ids[..j])
              && DeleteAll(t, events, ids).store == t - KeySet(ids[..j + 1])
    decreases |ids|
  {
    var id := ids[0];
    var tail := ids[1..];
    if id in t {
      var rest := t - {id};
      var ev := events + [Removed(t[id])];
      DeleteAllStep(t, events, ids);
      DeleteAllAborted(rest, ev, tail);
      AbortedCons(t, ids, DeleteAll(rest, ev, tail).store);
    } else {
      assert ids[..0] == [] && ids[..1] == [id];
      assert KeySet(ids[..0]) == {} && KeySet(ids[..1]) == {id};
      AbortWitness(t, ids, 0, DeleteAll(t, events, ids).store);
    }
  }

  /** The index at which a pass stopped, with the store it left, witnesses the shape of an aborted pass. */
  lemma AbortWitness(t: Table, ids: seq<int>, j: nat, st: Table)
    requires j < |ids|
    requires forall i :: 0 <= i < j ==> ids[i] in t - KeySet(ids[..i])
    requires ids[j] !in t - KeySet(ids[..j])
    requires st == t - KeySet(ids[..j + 1])
    ensures exists j :: 0 <= j < |ids|
              && (forall i :: 0 <= i < j ==> ids[i] in t - KeySet(ids[..i]))
              && ids[j] !in t - KeySet(ids[..j])
              && st == t - KeySet(ids[..j + 1])
  {
  }

  /** A pass over the rest of the ids that stopped somewhere, after the first id was deleted, stopped one index later in all of them. */
  lemma AbortedCons(t: Table, ids: seq<int>, st: Table)
    requires ids != [] && ids[0] in t
    requires exists j :: 0 <= j < |ids[1..]|
               && (forall i :: 0 <= i < j ==> ids[1..][i] in t - {ids[0]} - KeySet(ids[1..][..i]))
               && ids[1..][j] !in t - {ids[0]} - KeySet(ids[1..][..j])
               && st == t - {ids[0]} - KeySet(ids[1..][..j + 1])
    ensures exists j :: 0 <= j < |ids|
              && (forall i :: 0 <= i < j ==> ids[i] in t - KeySet(ids[..i]))
              && ids[j] !in t - KeySet(ids[..j])
              && st == t - KeySet(ids[..j + 1])
  {
    var j :| 0 <= j < |ids[1..]|
             && (forall i :: 0 <= i < j ==> ids[1..][i] in t - {ids[0]} - KeySet(ids[1..][..i]))
             && ids[1..][j] !in t - {ids[0]} - KeySet(ids[1..][..j])
             && st == t - {ids[0]} - KeySet(ids[1..][..j + 1]);
    AbortedShift(t, ids, j, st);
    AbortWitness(t, ids, j + 1, st);
  }

  /** An abort at index `j` of the rest of the ids, after the first was deleted, is an abort at index `j + 1` of all of them. */
  lemma AbortedShift(t: Table, ids: seq<int>, j: nat, st: Table)
    requires j + 1 < |ids| && ids[0] in t
    requires forall i :: 0 <= i < j ==> ids[1..][i] in t - {ids[0]} - KeySet(ids[1..][..i])
    requires ids[1..][j] !in t - {ids[0]} - KeySet(ids[1..][..j])
    requires st == t - {ids[0]} - KeySet(ids[1..][..j + 1])
    ensures forall i :: 0 <= i < j + 1 ==> ids[i] in t - KeySet(ids[..i])
    ensures ids[j + 1] !in t - KeySet(ids[..j + 1])
    ensures st == t - KeySet(ids[..j + 2])
  {
    KeySetShift(ids, j);
    KeySetShift(ids, j + 1);
    MinusTwice(t, ids[0], KeySet(ids[1..][..j]));
    MinusTwice(t, ids[0], KeySet(ids[1..][..j + 1]));
    assert ids[j + 1] == ids[1..][j];
    ShiftedPrefixes(t, ids, j);
  }

  /** The keys of the first `j + 1` ids are the first id and the first `j` keys of the rest. */
  lemma KeySetShift(ids: seq<int>, j: nat)
    requires j < |ids|
    ensures KeySet(ids[..j + 1]) == {ids[0]} + KeySet(ids[1..][..j])
  {
    assert ids[..j + 1] == [ids[0]] + ids[1..][..j];
  }

  /** Deleting one key and then a set of keys deletes their union. */
  lemma MinusTwice(t: Table, id: int, ks: set<int>)
    ensures t - {id} - ks == t - ({id} + ks)
  {
  }

  // ---- The table the insert leaves ----

  /** Each new item is the detail item of a section the store has no row for. */
  lemma {:induction false} NewItemsFrom(store: Table, ss: seq<ItemSection>)
    ensures forall j :: 0 <= j < |NewItems(store, ss)| ==>
              exists i :: 0 <= i < |ss| && ss[i].item == Some(NewItems(store, ss)[j]) && ss[i].orderId !in store
    decreases |ss|
  {
    if ss != [] {
      var tail := ss[1..];
      NewItemsFrom(store, tail);
      var n := NewItems(store, ss);
      var f := Fresh(store, ss[0]);
      assert n == f + NewItems(store, tail);
      forall j | 0 <= j < |n|
        ensures exists i :: 0 <= i < |ss| && ss[i].item == Some(n[j]) && ss[i].orderId !in store
      {
        if j < |f| {
          assert f == [ss[0].item.value] && n[j] == ss[0].item.value;
          assert ss[0].item == Some(n[j]) && ss[0].orderId !in store;
        } else {
          assert n[j] == NewItems(store, tail)[j - |f|];
          var i :| 0 <= i < |tail| && tail[i].item == Some(NewItems(store, tail)[j - |f|]) && tail[i].orderId !in store;
          assert ss[i + 1] == tail[i];
          assert ss[i + 1].item == Some(n[j]) && ss[i + 1].orderId !in store;
        }
      }
    } else {
      assert NewItems(store, ss) == [];
    }
  }

  /** The detail item of each section the store has no row for is among the new items. */
  lemma {:induction false} NewItemsCover(store: Table, ss: seq<ItemSection>, i: nat)
    requires i < |ss| && ss[i].orderId !in store && ss[i].item.Some?
    ensures ss[i].item.value in NewItems(store, ss)
    decreases |ss|
  {
    if i > 0 {
      NewItemsCover(store, ss[1..], i - 1);
    }
  }

  /** With distinct, coherent sections, no two new items share a key. */
  lemma {:induction false} NewItemsDistinct(store: Table, ss: seq<ItemSection>)
    requires AllCoherent(ss) && DistinctIds(ss)
    ensures Distinct(StagedKeys(NewItems(store, ss)))
    decreases |ss|
  {
    if ss != [] {
      var m := NewItems(store, ss[1..]);
      TailInvariants(ss);
      NewItemsDistinct(store, ss[1..]);
      var n := NewItems(store, ss);
      assert n == Fresh(store, ss[0]) + m;
      if Fresh(store, ss[0]) != [] {
        LaterItemsOtherKeys(store, ss);
        assert n[0] == ss[0].item.value && n[1..] == m;
        DistinctKeysStep(n);
      } else {
        assert n == m;
      }
    }
  }

  /** No new item of the later sections carries the first section's id. */
  lemma LaterItemsOtherKeys(store: Table, ss: seq<ItemSection>)
    requires ss != [] && AllCoherent(ss) && DistinctIds(ss)
    ensures forall j :: 0 <= j < |NewItems(store, ss[1..])| ==> NewItems(store, ss[1..])[j].orderId != ss[0].orderId
  {
    var tail := ss[1..];
    var m := NewItems(store, tail);
    NewItemsFrom(store, tail);
    forall j | 0 <= j < |m| ensures m[j].orderId != ss[0].orderId {
      var i :| 0 <= i < |tail| && tail[i].item == Some(m[j]) && tail[i].orderId !in store;
      assert tail[i] == ss[i + 1] && Coherent(ss[i + 1]);
    }
  }

  /**
   * With distinct, coherent sections and a keyed store, the loop stages
   * exactly the new items and the batch insert of them goes through.
   */
  lemma AfterInsertIs(ss: seq<ItemSection>, store: Table)
    requires KeyedByOrderId(store) && AllCoherent(ss) && DistinctIds(ss)
    ensures Walk(Start(store), ss).staged == NewItems(store, ss)
    ensures InsertBatch(Walk(Start(store), ss).store, NewItems(store, ss)).Inserted?
    ensures AfterInsert(ss, store) == Some(InsertBatch(Walk(Start(store), ss).store, NewItems(store, ss)).store)
  {
    var p := Walk(Start(store), ss);
    WalkStaged(Start(store), ss);
    assert p.staged == NewItems(store, ss);
    WalkKeys(Start(store), ss);
    NewItemsFrom(store, ss);
    NewItemsDistinct(store, ss);
    InsertBatchSucceeds(p.store, p.staged);
    assert InsertBatch(p.store, []) == Inserted(p.store);
  }

  /**
   * A section's key is in the table the insert leaves exactly when the
   * store had it or the section has detail, and its row is the one the
   * section calls for.
   */
  lemma AfterInsertSeenRow(ss: seq<ItemSection>, store: Table, i: nat)
    requires KeyedByOrderId(store) && AllCoherent(ss) && DistinctIds(ss) && i < |ss|
    ensures AfterInsert(ss, store).Some?
    ensures ss[i].orderId in AfterInsert(ss, store).value <==> ss[i].orderId in store || ss[i].item.Some?
    ensures ss[i].orderId in AfterInsert(ss, store).value ==>
              AfterInsert(ss, store).value[ss[i].orderId] == Expected(store, ss[i])
  {
    AfterInsertIs(ss, store);
    var p := Walk(Start(store), ss);
    var n := NewItems(store, ss);
    var t := InsertBatch(p.store, n).store;
    var k := ss[i].orderId;
    WalkKeys(Start(store), ss);
    if k in store {
      WalkRows(Start(store), ss, i);
    } else if ss[i].item.Some? {
      NewItemsCover(store, ss, i);
      InsertBatchRows(p.store, n);
    } else {
      NewItemsFrom(store, ss);
    }
  }

  /** A stored row no section mentions comes through the loop and the insert unchanged, and nothing else unmentioned appears. */
  lemma AfterInsertUnseenRow(ss: seq<ItemSection>, store: Table, k: int)
    requires KeyedByOrderId(store) && AllCoherent(ss) && DistinctIds(ss) && k !in Ids(ss)
    ensures AfterInsert(ss, store).Some?
    ensures k in AfterInsert(ss, store).value <==> k in store
    ensures k in store ==> AfterInsert(ss, store).value[k] == store[k]
  {
    AfterInsertIs(ss, store);
    var p := Walk(Start(store), ss);
    var n := NewItems(store, ss);
    WalkKeys(Start(store), ss);
    NewItemsFrom(store, ss);
    if k in store {
      WalkUntouched(Start(store), ss, k);
    }
  }

  /** The table the insert leaves keeps every row under its own `order_id`. */
  lemma AfterInsertKeyed(ss: seq<ItemSection>, store: Table)
    requires KeyedByOrderId(store) && AllCoherent(ss) && DistinctIds(ss)
    ensures AfterInsert(ss, store).Some? && KeyedByOrderId(AfterInsert(ss, store).value)
  {
    AfterInsertIs(ss, store);
    WalkKeyed(Start(store), ss);
    InsertBatchRows(Walk(Start(store), ss).store, NewItems(store, ss));
  }

  // ---- The whole run ----

  /** `retain` filters the listing piecewise: what it keeps of `a + b` is what it keeps of `a`, then of `b`. */
  lemma {:induction false} UnseenAppend(a: seq<int>, b: seq<int>, seen: seq<int>)
    ensures Unseen(a + b, seen) == Unseen(a, seen) + Unseen(b, seen)
    decreases |a|
  {
    if a == [] {
      assert a + b == b;
    } else {
      var h := if a[0] in seen then [] else [a[0]];
      assert (a + b)[0] == a[0] && (a + b)[1..] == a[1..] + b;
      UnseenHead(a + b, seen);
      UnseenHead(a, seen);
      UnseenAppend(a[1..], b, seen);
      Text.Associative(h, Unseen(a[1..], seen), Unseen(b, seen));
    }
  }

  /** The first listed key is kept or dropped, then the rest are retained. */
  lemma UnseenHead(a: seq<int>, seen: seq<int>)
    requires a != []
    ensures Unseen(a, seen) == (if a[0] in seen then [] else [a[0]]) + Unseen(a[1..], seen)
  {
  }

  /** One listed key: kept exactly when the scan did not see it. */
  lemma UnseenOne(k: int, seen: seq<int>)
    ensures Unseen([k], seen) == if k in seen then [] else [k]
  {
    assert [k][1..] == [];
  }

  /** Retaining keeps a listing free of repeats. */
  lemma {:induction false} UnseenDistinct(listed: seq<int>, seen: seq<int>)
    requires Distinct(listed)
    ensures Distinct(Unseen(listed, seen))
    decreases |listed|
  {
    if listed != [] {
      var tail := listed[1..];
      assert forall i :: 0 <= i < |tail| ==> tail[i] == listed[i + 1];
      UnseenDistinct(tail, seen);
      assert listed[0] !in tail;
    }
  }

  /** Once the insert has gone through, the run is the deletion pass over the listed keys the scan did not see. */
  lemma ReconcileUnfolds(ss: seq<ItemSection>, store: Table, listed: seq<int>)
    requires AfterInsert(ss, store).Some?
    ensures Reconcile(ss, store, listed)
            == DeleteAll(AfterInsert(ss, store).value, Walk(Start(store), ss).events, Unseen(listed, Ids(ss)))
  {
    WalkSeen(Start(store), ss);
    assert Walk(Start(store), ss).seen == Ids(ss);
  }

  /**
   * With the keys listed as the table holds them, the run completes; it
   * deletes exactly the keys the scan did not see, keeps every seen row as
   * the insert left it, and queues one removal per deleted row after the
   * loop's notifications.
   */
  lemma ReconcileDeletes(ss: seq<ItemSection>, store: Table, listed: seq<int>)
    requires AfterInsert(ss, store).Some? && Enumerates(listed, AfterInsert(ss, store).value)
    ensures Reconcile(ss, store, listed).Completed?
    ensures forall k :: k in Reconcile(ss, store, listed).store <==> k in AfterInsert(ss, store).value && k in Ids(ss)
    ensures forall k :: k in Reconcile(ss, store, listed).store ==>
              Reconcile(ss, store, listed).store[k] == AfterInsert(ss, store).value[k]
    ensures Reconcile(ss, store, listed).events
            == Walk(Start(store), ss).events + Removals(AfterInsert(ss, store).value, Unseen(listed, Ids(ss)))
  {
    var t := AfterInsert(ss, store).value;
    var ids := Unseen(listed, Ids(ss));
    ReconcileUnfolds(ss, store, listed);
    UnseenDistinct(listed, Ids(ss));
    DeleteAllEvents(t, Walk(Start(store), ss).events, ids);
    assert forall k :: k in KeySet(ids) <==> k in ids;
  }

  /**
   * When a listed key the scan did not see has no row once the insert is
   * done, the run fails with `ItemNotFound`.
   */
  lemma ReconcileItemNotFound(ss: seq<ItemSection>, store: Table, listed: seq<int>, k: int)
    requires AfterInsert(ss, store).Some?
    requires k in listed && k !in Ids(ss) && k !in AfterInsert(ss, store).value
    ensures Reconcile(ss, store, listed).Aborted?
    ensures Reconcile(ss, store, listed).failure == ItemNotFound
  {
    var ids := Unseen(listed, Ids(ss));
    ReconcileUnfolds(ss, store, listed);
    DeleteAllCompletes(AfterInsert(ss, store).value, Walk(Start(store), ss).events, ids);
    var i :| 0 <= i < |ids| && ids[i] == k;
  }

  /**
   * A new item scanned twice is staged twice, and the batch insert fails on
   * its key: the run stops with `DuplicateKey` and the store is as before.
   */
  lemma NewItemTwiceIsDuplicate(s: ItemSection, store: Table, listed: seq<int>)
    requires s.item.Some? && s.orderId !in store && Coherent(s)
    ensures Reconcile([s, s], store, listed) == Aborted(DuplicateKey(s.orderId), store)
  {
    var it := s.item.value;
    var p1 := Visit(Start(store), s);
    assert p1 == Pass(store, [Added(it)], [s.orderId], [it]);
    var p2 := Visit(p1, s);
    assert p2.staged == [it, it] && p2.store == store;
    assert [s, s][1..] == [s] && [s][1..] == [];
    assert Walk(p1, [s]) == Walk(p2, []) == p2;
    assert Walk(Start(store), [s, s]) == Walk(p1, [s]);
    assert InsertBatch(store[it.orderId := it], [it]) == Duplicate(it.orderId);
  }

  /** The row one section's key ends up with in a completed run. */
  lemma ReconcileRow(ss: seq<ItemSection>, store: Table, listed: seq<int>, i: nat)
    requires KeyedByOrderId(store) && AllCoherent(ss) && DistinctIds(ss) && ListsAfterInsert(listed, ss, store)
    requires i < |ss|
    ensures Reconcile(ss, store, listed).Completed?
    ensures ss[i].orderId in Reconcile(ss, store, listed).store <==> ss[i].orderId in store || ss[i].item.Some?
    ensures ss[i].orderId in Reconcile(ss, store, listed).store ==>
              Reconcile(ss, store, listed).store[ss[i].orderId] == Expected(store, ss[i])
  {
    AfterInsertKeyed(ss, store);
    ReconcileDeletes(ss, store, listed);
    AfterInsertSeenRow(ss, store, i);
    assert Ids(ss)[i] == ss[i].orderId;
  }

  /**
   * With distinct ids, coherent sections, a keyed store and the keys listed
   * as the table holds them, the run completes, and each section's key ends
   * up present exactly when the store had it or the section has detail,
   * holding the row that section calls for; every key left was seen.
   */
  lemma ReconcileRows(ss: seq<ItemSection>, store: Table, listed: seq<int>)
    requires KeyedByOrderId(store) && AllCoherent(ss) && DistinctIds(ss) && ListsAfterInsert(listed, ss, store)
    ensures Reconcile(ss, store, listed).Completed?
    ensures forall i :: 0 <= i < |ss| ==>
              (ss[i].orderId in Reconcile(ss, store, listed).store <==> ss[i].orderId in store || ss[i].item.Some?)
    ensures forall i :: 0 <= i < |ss| && ss[i].orderId in Reconcile(ss, store, listed).store ==>
              Reconcile(ss, store, listed).store[ss[i].orderId] == Expected(store, ss[i])
    ensures forall k :: k in Reconcile(ss, store, listed).store ==> k in Ids(ss)
    ensures KeyedByOrderId(Reconcile(ss, store, listed).store)
  {
    var r := Reconcile(ss, store, listed);
    AfterInsertKeyed(ss, store);
    ReconcileDeletes(ss, store, listed);
    forall i | 0 <= i < |ss|
      ensures ss[i].orderId in r.store <==> ss[i].orderId in store || ss[i].item.Some?
      ensures ss[i].orderId in r.store ==> r.store[ss[i].orderId] == Expected(store, ss[i])
    {
      ReconcileRow(ss, store, listed, i);
    }
  }

  /**
   * Under the same conditions, the run queues each section's notifications
   * judged against the store as it was before the run, in scan order, then
   * one removal for each listed key the scan did not see, naming its stored
   * row.
   */
  lemma ReconcileEvents(ss: seq<ItemSection>, store: Table, listed: seq<int>)
    requires KeyedByOrderId(store) && AllCoherent(ss) && DistinctIds(ss) && ListsAfterInsert(listed, ss, store)
    ensures Reconcile(ss, store, listed).Completed?
    ensures forall i :: 0 <= i < |Unseen(listed, Ids(ss))| ==> Unseen(listed, Ids(ss))[i] in store
    ensures Reconcile(ss, store, listed).events == AllEvents(store, ss) + Removals(store, Unseen(listed, Ids(ss)))
  {
    AfterInsertKeyed(ss, store);
    ReconcileDeletes(ss, store, listed);
    WalkEvents(Start(store), ss);
    var t := AfterInsert(ss, store).value;
    var ids := Unseen(listed, Ids(ss));
    forall i | 0 <= i < |ids| ensures ids[i] in store && ids[i] in t && t[ids[i]] == store[ids[i]] {
      assert ids[i] in ids;
      AfterInsertUnseenRow(ss, store, ids[i]);
    }
    RemovalsAlike(t, store, ids);
    assert [] + AllEvents(store, ss) == AllEvents(store, ss);
  }

  // ---- A second run ----

  /**
   * The store already says what the scan says: every detail section's item
   * is stored as scanned, and every stored row a sold section names is sold.
   */
  predicate Reflects(t: Table, ss: seq<ItemSection>) {
    forall i :: 0 <= i < |ss| ==>
      && (ss[i].item.Some? ==> ss[i].orderId in t && t[ss[i].orderId] == ss[i].item.value)
      && (ss[i].item.None? && ss[i].orderId in t ==> t[ss[i].orderId].hasSold)
  }

  /** A store that reflects the scan calls for no notification and has no new item. */
  lemma {:induction false} ReflectsQuiet(t: Table, ss: seq<ItemSection>)
    requires Reflects(t, ss)
    ensures AllEvents(t, ss) == []
    ensures NewItems(t, ss) == []
    decreases |ss|
  {
    if ss != [] {
      assert forall i :: 0 <= i < |ss[1..]| ==> ss[1..][i] == ss[i + 1];
      ReflectsQuiet(t, ss[1..]);
      assert SectionEvents(t, ss[0]) == [] && Fresh(t, ss[0]) == [];
    }
  }

  /** A completed run leaves a store that reflects its scan. */
  lemma RunReflects(ss: seq<ItemSection>, store: Table, listed: seq<int>)
    requires KeyedByOrderId(store) && AllCoherent(ss) && DistinctIds(ss) && ListsAfterInsert(listed, ss, store)
    ensures Reconcile(ss, store, listed).Completed?
    ensures Reflects(Reconcile(ss, store, listed).store, ss)
  {
    ReconcileRows(ss, store, listed);
    var r := Reconcile(ss, store, listed);
    SettledRowsReflect(ss, store, r.store);
  }

  /** A table holding the settled row of every section it keys reflects the sections. */
  lemma SettledRowsReflect(ss: seq<ItemSection>, store: Table, u: Table)
    requires forall i :: 0 <= i < |ss| ==> (ss[i].orderId in u <==> ss[i].orderId in store || ss[i].item.Some?)
    requires forall i :: 0 <= i < |ss| && ss[i].orderId in u ==> u[ss[i].orderId] == Expected(store, ss[i])
    ensures Reflects(u, ss)
  {
  }

  /** Every key of `t` is the id of some section. */
  predicate OnlySeen(t: Table, ss: seq<ItemSection>) {
    forall k :: k in t ==> k in Ids(ss)
  }

  /** Over a store that reflects the scan and holds only seen keys, a run queues no notification. */
  lemma QuietEvents(ss: seq<ItemSection>, t: Table, listed: seq<int>)
    requires KeyedByOrderId(t) && AllCoherent(ss) && DistinctIds(ss) && ListsAfterInsert(listed, ss, t)
    requires Reflects(t, ss) && OnlySeen(t, ss)
    ensures Reconcile(ss, t, listed).Completed?
    ensures Reconcile(ss, t, listed).events == []
  {
    ReflectsQuiet(t, ss);
    ReconcileEvents(ss, t, listed);
    NothingUnseen(listed, ss, t);
  }

  /** When every stored key was seen, no listed key of the store is left unseen. */
  lemma NothingUnseen(listed: seq<int>, ss: seq<ItemSection>, t: Table)
    requires OnlySeen(t, ss)
    requires forall i :: 0 <= i < |Unseen(listed, Ids(ss))| ==> Unseen(listed, Ids(ss))[i] in t
    ensures Unseen(listed, Ids(ss)) == []
  {
    var u := Unseen(listed, Ids(ss));
    assert forall i :: 0 <= i < |u| ==> u[i] !in Ids(ss);
    NoneLeft(u, Ids(ss), t);
  }

  /** Keys of `t` that are all seen leave nothing to list as stored and unseen. */
  lemma NoneLeft(u: seq<int>, seen: seq<int>, t: Table)
    requires forall k :: k in t ==> k in seen
    requires forall i :: 0 <= i < |u| ==> u[i] in t && u[i] !in seen
    ensures u == []
  {
    var k := if |u| > 0 then u[0] else 0;
    assert |u| > 0 ==> k in t;
  }

  /** Over a store that reflects the scan and holds only seen keys, a run leaves the store as it was. */
  lemma QuietStore(ss: seq<ItemSection>, t: Table, listed: seq<int>)
    requires KeyedByOrderId(t) && AllCoherent(ss) && DistinctIds(ss) && ListsAfterInsert(listed, ss, t)
    requires Reflects(t, ss) && OnlySeen(t, ss)
    ensures Reconcile(ss, t, listed).Completed?
    ensures Reconcile(ss, t, listed).store == t
  {
    ReconcileRows(ss, t, listed);
    var r := Reconcile(ss, t, listed);
    SettledTableIs(ss, t, r.store);
  }

  /** A table holding exactly the settled rows of the sections, over a store that reflects them, is that store. */
  lemma SettledTableIs(ss: seq<ItemSection>, t: Table, u: Table)
    requires Reflects(t, ss) && OnlySeen(t, ss)
    requires forall i :: 0 <= i < |ss| ==> (ss[i].orderId in u <==> ss[i].orderId in t || ss[i].item.Some?)
    requires forall i :: 0 <= i < |ss| && ss[i].orderId in u ==> u[ss[i].orderId] == Expected(t, ss[i])
    requires forall k :: k in u ==> k in Ids(ss)
    ensures u == t
  {
    forall k | k in t ensures k in u && u[k] == t[k] {
      IdsMembership(ss, k);
      var i :| 0 <= i < |ss| && ss[i].orderId == k;
    }
    forall k | k in u ensures k in t {
      IdsMembership(ss, k);
      var i :| 0 <= i < |ss| && ss[i].orderId == k;
    }
  }

  /**
   * Running again with the same scan over the store a completed run left,
   * with the keys listed as that store holds them, queues no notification
   * and leaves the store as it was.
   */
  lemma SecondPassQuiet(ss: seq<ItemSection>, store: Table, listed: seq<int>, listed2: seq<int>)
    requires KeyedByOrderId(store) && AllCoherent(ss) && DistinctIds(ss) && ListsAfterInsert(listed, ss, store)
    requires ListsAfterInsert(listed2, ss, Reconcile(ss, store, listed).store)
    ensures Reconcile(ss, store, listed).Completed?
    ensures Reconcile(ss, Reconcile(ss, store, listed).store, listed2) == Completed(Reconcile(ss, store, listed).store, [])
  {
    var t1 := Reconcile(ss, store, listed).store;
    ReconcileRows(ss, store, listed);
    RunReflects(ss, store, listed);
    QuietEvents(ss, t1, listed2);
    QuietStore(ss, t1, listed2);
  }

  // ---- From the page ----

  /**
   * A page that scans without a panic and whose sections have distinct ids
   * is reconciled in full: the run completes with the notifications of each
   * section judged against the store before the run, then the removals.
   */
  lemma PageRunCompletes(lines: seq<string>, store: Table, listed: seq<int>)
    requires ScanPage(lines).Done? && KeyedByOrderId(store) && DistinctIds(ScanPage(lines).sections)
    requires ListsAfterInsert(listed, ScanPage(lines).sections, store)
    ensures RunOnce(lines, store, listed).Completed?
    ensures forall i :: 0 <= i < |Unseen(listed, Ids(ScanPage(lines).sections))| ==>
              Unseen(listed, Ids(ScanPage(lines).sections))[i] in store
    ensures RunOnce(lines, store, listed).events
            == AllEvents(store, ScanPage(lines).sections) + Removals(store, Unseen(listed, Ids(ScanPage(lines).sections)))
  {
    var ss := ScanPage(lines).sections;
    ScannerLemmas.ScannedSections(lines);
    assert AllCoherent(ss) by {
      forall i | 0 <= i < |ss| ensures Coherent(ss[i]) {
        assert ss[i] in ss;
      }
    }
    ReconcileEvents(ss, store, listed);
  }
}
