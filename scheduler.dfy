/**
 * The poll loop of `ReminderDaemon.run`: each pass fetches the earliest item and, when it
 * is due, notifies and moves it to history. The clock reading of each pass is a parameter,
 * the notification is the returned entry, and the sleep between passes is not modelled.
 */
module Scheduler {
  import opened Results
  import opened Calendar
  import opened Encoding
  import opened Store

  /**
   * One pass of the loop at clock reading `now`. It fires at most one item: an earliest
   * one, and only when it is due (`now >= whento` on encodings); otherwise nothing changes,
   * and then no item at all is due.
   */
  method Tick(db: ReminderDb, now: DateTime) returns (fired: Option<Entry>)
    requires db.Valid() && ValidDateTime(now)
    modifies db
    ensures db.Valid()
    ensures fired.None? ==>
      && db.items == old(db.items) && db.history == old(db.history)
      && db.nextItemId == old(db.nextItemId) && db.nextHistoryId == old(db.nextHistoryId)
      && forall id :: id in old(db.items) ==> old(db.items)[id].whento > Date2Int(now)
    ensures fired.Some? ==>
      var e := fired.value;
      && IsEarliest(old(db.items), e.id) && old(db.items)[e.id] == e.row
      && e.row.whento <= Date2Int(now)
      && db.items == old(db.items) - {e.id} && db.nextItemId == old(db.nextItemId)
      && db.history == old(db.history)[old(db.nextHistoryId) := e.row]
      && old(db.nextHistoryId) !in old(db.history)
      && db.nextHistoryId == old(db.nextHistoryId) + 1
  {
    ValidFitsWidths(now);
    var item := db.SelectOne();
    if item.Some? && Date2Int(now) >= item.value.row.whento {
      var e := item.value;
      db.Move(e.id, e.row.whento, e.row.msg, e.row.repeat);
      return Some(e);
    }
    return None;
  }

  /** `history` is `base` plus the rows of `fired`, in firing order, under ids `first`, `first + 1`, ... */
  ghost predicate Archived(base: map<nat, Row>, first: nat, history: map<nat, Row>, fired: seq<Entry>) {
    && (forall i :: 0 <= i < |fired| ==> first + i in history && history[first + i] == fired[i].row)
    && (forall id :: id in history <==> id in base || first <= id < first + |fired|)
    && (forall id :: id in base ==> history[id] == base[id])
  }

  lemma ArchiveNext(base: map<nat, Row>, first: nat, history: map<nat, Row>, fired: seq<Entry>, e: Entry)
    requires Archived(base, first, history, fired) && forall id :: id in base ==> id < first
    ensures Archived(base, first, history[first + |fired| := e.row], fired + [e])
  {
    var h', f' := history[first + |fired| := e.row], fired + [e];
    forall i | 0 <= i < |f'| ensures first + i in h' && h'[first + i] == f'[i].row {
      if i < |fired| {
        assert f'[i] == fired[i];
      }
    }
  }

  predicate ValidClock(clock: seq<DateTime>) {
    forall k :: 0 <= k < |clock| ==> ValidDateTime(clock[k])
  }

  /** The encoding `date2int(now)` of the clock reading of pass k. */
  function Reading(clock: seq<DateTime>, k: nat): int
    requires ValidClock(clock) && k < |clock|
  {
    ValidFitsWidths(clock[k]);
    Date2Int(clock[k])
  }

  /**
   * Pass `at[i]` fired `fired[i]`: the passes are distinct readings of `clock`, taken in
   * order, and each entry was due (`now >= whento`) at the reading of its pass.
   */
  predicate FiredWhenDue(clock: seq<DateTime>, fired: seq<Entry>, at: seq<nat>)
    requires ValidClock(clock)
  {
    && |at| == |fired|
    && (forall i :: 0 <= i < |at| ==> at[i] < |clock|)
    && (forall i, j :: 0 <= i < j < |at| ==> at[i] < at[j])
    && (forall i :: 0 <= i < |at| ==> fired[i].row.whento <= Reading(clock, at[i]))
  }

  /**
   * No item waiting at pass k was due at its reading: neither one still in `items` nor one
   * that a later pass fired.
   */
  predicate NothingDueAt(clock: seq<DateTime>, k: nat, items: map<nat, Row>, fired: seq<Entry>, at: seq<nat>)
    requires k < |clock| && |at| == |fired|
    requires ValidClock(clock)
  {
    && (forall id :: id in items ==> items[id].whento > Reading(clock, k))
    && (forall i :: 0 <= i < |at| && at[i] > k ==> fired[i].row.whento > Reading(clock, k))
  }

  /** Every pass before `n` that fired nothing found no waiting item due. */
  predicate IdleWhenNothingDue(clock: seq<DateTime>, n: nat, items: map<nat, Row>, fired: seq<Entry>, at: seq<nat>)
    requires n <= |clock| && |at| == |fired|
    requires ValidClock(clock)
  {
    forall k :: 0 <= k < n && k !in at ==> NothingDueAt(clock, k, items, fired, at)
  }

  /** The firing record of the first n passes. */
  predicate PassesSoFar(clock: seq<DateTime>, n: nat, items: map<nat, Row>, fired: seq<Entry>, at: seq<nat>)
    requires ValidClock(clock) && n <= |clock|
  {
    && FiredWhenDue(clock, fired, at)
    && (forall i :: 0 <= i < |at| ==> at[i] < n)
    && IdleWhenNothingDue(clock, n, items, fired, at)
  }

  /**
   * The loop run for one pass per clock reading in `clock`. Every fired entry is an item
   * that was waiting at the start, none fires twice, they fire in order of due time, each
   * is gone from `items` and recorded in `history` under the next history ids, in firing
   * order, and nothing else changes. `at` gives the pass that fired each entry: it was due
   * at that reading, and a pass that fired nothing found no waiting item due.
   */
  method Run(db: ReminderDb, clock: seq<DateTime>) returns (fired: seq<Entry>, at: seq<nat>)
    requires db.Valid() && ValidClock(clock)
    modifies db
    ensures db.Valid()
    ensures |fired| <= |clock|
    ensures FiredWhenDue(clock, fired, at)
    ensures IdleWhenNothingDue(clock, |clock|, db.items, fired, at)
    ensures ListedSoFar(old(db.items), db.items, fired)
    ensures db.nextItemId == old(db.nextItemId)
    ensures db.nextHistoryId == old(db.nextHistoryId) + |fired|
    ensures Archived(old(db.history), old(db.nextHistoryId), db.history, fired)
  {
    fired, at := [], [];
    var k: nat := 0;
    while k < |clock|
      invariant 0 <= k <= |clock| && |fired| <= k
      invariant db.Valid()
      invariant PassesSoFar(clock, k, db.items, fired, at)
      invariant ListedSoFar(old(db.items), db.items, fired)
      invariant db.nextItemId == old(db.nextItemId)
      invariant db.nextHistoryId == old(db.nextHistoryId) + |fired|
      invariant Archived(old(db.history), old(db.nextHistoryId), db.history, fired)
    {
      fired, at := Pass(db, clock, k, old(db.items), old(db.history), old(db.nextHistoryId), fired, at);
      k := k + 1;
    }
  }

  /**
   * Pass k of `Run`, given what the earlier passes did since the tables were `items0` and
   * `history0` and the history sequence stood at `first`: `Tick` at reading k, with the
   * records extended by what it fired.
   */
  method Pass(db: ReminderDb, clock: seq<DateTime>, k: nat, ghost items0: map<nat, Row>,
              ghost history0: map<nat, Row>, ghost first: nat, fired: seq<Entry>, at: seq<nat>)
    returns (fired': seq<Entry>, at': seq<nat>)
    requires db.Valid() && ValidClock(clock) && k < |clock| && |fired| <= k
    requires PassesSoFar(clock, k, db.items, fired, at)
    requires ListedSoFar(items0, db.items, fired)
    requires db.nextHistoryId == first + |fired|
    requires Archived(history0, first, db.history, fired) && forall id :: id in history0 ==> id < first
    modifies db
    ensures db.Valid() && |fired'| <= k + 1
    ensures PassesSoFar(clock, k + 1, db.items, fired', at')
    ensures ListedSoFar(items0, db.items, fired')
    ensures db.nextItemId == old(db.nextItemId)
    ensures db.nextHistoryId == first + |fired'|
    ensures Archived(history0, first, db.history, fired')
  {
    var items, history := db.items, db.history;
    var e := Tick(db, clock[k]);
    if e.Some? {
      ListNext(items0, items, fired, e.value.id);
      ArchiveNext(history0, first, history, fired, e.value);
      FiringPass(clock, k, items, db.items, fired, at, e.value);
      fired', at' := fired + [e.value], at + [k];
    } else {
      IdlePass(clock, k, db.items, fired, at);
      fired', at' := fired, at;
    }
  }

  /**
   * A pass at reading k that fires `e`, an item then waiting and due: the record of the
   * first k + 1 passes is the old one with `e` fired at k, and the items left are a part
   * of those waiting before.
   */
  lemma FiringPass(clock: seq<DateTime>, k: nat, items: map<nat, Row>, items': map<nat, Row>,
                   fired: seq<Entry>, at: seq<nat>, e: Entry)
    requires ValidClock(clock) && k < |clock|
    requires PassesSoFar(clock, k, items, fired, at)
    requires e.id in items && items[e.id] == e.row && e.row.whento <= Reading(clock, k)
    requires forall id :: id in items' ==> id in items && items'[id] == items[id]
    ensures PassesSoFar(clock, k + 1, items', fired + [e], at + [k])
  {
    FiredNext(clock, k, fired, at, e);
    IdleAfterFiring(clock, k, items, items', fired, at, e);
  }

  /** Firing `e` at pass k keeps every earlier idle pass idle: `e` was waiting then too. */
  lemma IdleAfterFiring(clock: seq<DateTime>, k: nat, items: map<nat, Row>, items': map<nat, Row>,
                        fired: seq<Entry>, at: seq<nat>, e: Entry)
    requires k < |clock| && |at| == |fired|
    requires ValidClock(clock)
    requires forall i :: 0 <= i < |at| ==> at[i] < k
    requires IdleWhenNothingDue(clock, k, items, fired, at)
    requires e.id in items && items[e.id] == e.row
    requires forall id :: id in items' ==> id in items && items'[id] == items[id]
    ensures IdleWhenNothingDue(clock, k + 1, items', fired + [e], at + [k])
  {
    var fired', at' := fired + [e], at + [k];
    forall j | 0 <= j < k + 1 && j !in at' ensures NothingDueAt(clock, j, items', fired', at') {
      assert j != k && j !in at by {
        assert at'[|at|] == k;
        assert forall i :: 0 <= i < |at| ==> at'[i] == at[i];
      }
      StillNothingDue(clock, j, k, items, items', fired, at, e);
    }
  }

  /** An idle pass j before k stays idle once `e`, then waiting, fires at pass k. */
  lemma StillNothingDue(clock: seq<DateTime>, j: nat, k: nat, items: map<nat, Row>, items': map<nat, Row>,
                        fired: seq<Entry>, at: seq<nat>, e: Entry)
    requires ValidClock(clock) && j < k < |clock| && |at| == |fired|
    requires NothingDueAt(clock, j, items, fired, at)
    requires e.id in items && items[e.id] == e.row
    requires forall id :: id in items' ==> id in items && items'[id] == items[id]
    ensures NothingDueAt(clock, j, items', fired + [e], at + [k])
  {
    var fired', at' := fired + [e], at + [k];
    assert e.row.whento > Reading(clock, j);
    forall i | 0 <= i < |at'| && at'[i] > j ensures fired'[i].row.whento > Reading(clock, j) {
      if i < |at| {
        assert fired'[i] == fired[i] && at'[i] == at[i];
      }
    }
  }

  /** Firing `e`, due at reading k, after passes that all came before k. */
  lemma FiredNext(clock: seq<DateTime>, k: nat, fired: seq<Entry>, at: seq<nat>, e: Entry)
    requires ValidClock(clock) && k < |clock|
    requires FiredWhenDue(clock, fired, at) && forall i :: 0 <= i < |at| ==> at[i] < k
    requires e.row.whento <= Reading(clock, k)
    ensures FiredWhenDue(clock, fired + [e], at + [k])
    ensures forall i :: 0 <= i < |at + [k]| ==> (at + [k])[i] < k + 1
  {
    PassesAppend(at, k);
    DueAppend(clock, k, fired, at, e);
  }

  /** Appending a pass later than all others keeps the passes strictly increasing. */
  lemma PassesAppend(at: seq<nat>, k: nat)
    requires forall i, j :: 0 <= i < j < |at| ==> at[i] < at[j]
    requires forall i :: 0 <= i < |at| ==> at[i] < k
    ensures forall i, j :: 0 <= i < j < |at + [k]| ==> (at + [k])[i] < (at + [k])[j]
    ensures forall i :: 0 <= i < |at + [k]| ==> (at + [k])[i] <= k
  {
    var at' := at + [k];
    forall i | 0 <= i < |at'| ensures at'[i] <= k {
      if i < |at| {
        assert at'[i] == at[i];
      }
    }
    forall i, j | 0 <= i < j < |at'| ensures at'[i] < at'[j] {
      assert at'[i] == at[i];
    }
  }

  /** Appending an entry due at reading k, fired at pass k, keeps every entry due at its pass. */
  lemma DueAppend(clock: seq<DateTime>, k: nat, fired: seq<Entry>, at: seq<nat>, e: Entry)
    requires ValidClock(clock) && k < |clock| && |at| == |fired|
    requires forall i :: 0 <= i < |at| ==> at[i] < |clock|
    requires forall i :: 0 <= i < |at| ==> fired[i].row.whento <= Reading(clock, at[i])
    requires e.row.whento <= Reading(clock, k)
    ensures forall i :: 0 <= i < |at| + 1 ==> (fired + [e])[i].row.whento <= Reading(clock, (at + [k])[i])
  {
    forall i | 0 <= i < |at| + 1 ensures (fired + [e])[i].row.whento <= Reading(clock, (at + [k])[i]) {
      if i < |at| {
        assert (fired + [e])[i] == fired[i] && (at + [k])[i] == at[i];
      }
    }
  }

  /** A pass at reading k that fires nothing, because no waiting item is due, is idle. */
  lemma IdlePass(clock: seq<DateTime>, k: nat, items: map<nat, Row>, fired: seq<Entry>, at: seq<nat>)
    requires ValidClock(clock) && k < |clock|
    requires PassesSoFar(clock, k, items, fired, at)
    requires forall id :: id in items ==> items[id].whento > Reading(clock, k)
    ensures PassesSoFar(clock, k + 1, items, fired, at)
  {
    forall j | 0 <= j < k + 1 && j !in at
      ensures forall id :: id in items ==> items[id].whento > Reading(clock, j)
      ensures forall i :: 0 <= i < |at| && at[i] > j ==> fired[i].row.whento > Reading(clock, j)
    {
      if j == k {
        assert forall i :: 0 <= i < |at| ==> !(at[i] > j);
      }
    }
  }
}
