/**
 * The `DB` class of reminder.py: two tables, `items` (reminders still to fire) and
 * `history` (reminders already fired), each `(id, whento, msg, repeat)` with its own
 * AUTOINCREMENT id sequence. The SQL is replaced by two id-to-row maps and the two
 * counters sqlite keeps for AUTOINCREMENT; an id once handed out is never handed out again.
 */
module Store {
  import opened Results
  import opened Calendar
  import opened Encoding

  datatype Table = Items | History

  /** A row without its id: due time (a `date2int` encoding), message, repeat count. */
  datatype Row = Row(whento: int, msg: string, repeat: int)

  /** A row as `select_one` returns it, with its id. */
  datatype Entry = Entry(id: nat, row: Row)

  /** CONFIG['sleep']: seconds the daemon sleeps between two polls. */
  const Sleep := 40

  /** What `clean_all` subtracts from the encoding of "now": three poll periods. */
  const Grace := Sleep * 3

  function Other(t: Table): Table {
    if t == Items then History else Items
  }

  /** `id` names a row of `rows` that no other row is due before. */
  predicate IsEarliest(rows: map<nat, Row>, id: nat) {
    id in rows && forall j :: j in rows ==> rows[id].whento <= rows[j].whento
  }

  /** Every non-empty table has a row that is due first (ties are possible). */
  lemma {:induction false} EarliestExists(rows: map<nat, Row>)
    requires rows != map[]
    ensures exists id: nat :: IsEarliest(rows, id)
    decreases |rows.Keys|
  {
    var k :| k in rows;
    var rest := rows - {k};
    assert rest.Keys == rows.Keys - {k};
    assert forall j :: j in rows ==> j == k || (j in rest && rest[j] == rows[j]);
    if rest == map[] {
      assert IsEarliest(rows, k);
    } else {
      EarliestExists(rest);
      var j: nat :| IsEarliest(rest, j);
      if rows[k].whento <= rest[j].whento {
        assert IsEarliest(rows, k);
      } else {
        assert IsEarliest(rows, j);
      }
    }
  }

  predicate SortedByDue(s: seq<Entry>) {
    forall i, j :: 0 <= i < j < |s| ==> s[i].row.whento <= s[j].row.whento
  }

  predicate Listed(s: seq<Entry>, id: nat) {
    exists i :: 0 <= i < |s| && s[i].id == id
  }

  /** `s` lists every row of `rows` exactly once, each with its own id. */
  predicate ListsExactly(s: seq<Entry>, rows: map<nat, Row>) {
    && (forall i :: 0 <= i < |s| ==> s[i].id in rows && rows[s[i].id] == s[i].row)
    && (forall i, j :: 0 <= i < j < |s| ==> s[i].id != s[j].id)
    && (forall id :: id in rows ==> Listed(s, id))
  }

  /** What `DELETE FROM items WHERE whento < cutoff` leaves. */
  function KeepFrom(rows: map<nat, Row>, cutoff: int): (r: map<nat, Row>)
    ensures forall id :: id in r <==> id in rows && rows[id].whento >= cutoff
    ensures forall id :: id in r ==> r[id] == rows[id]
  {
    map id | id in rows && rows[id].whento >= cutoff :: rows[id]
  }

  /** Deleting up to one cutoff and then up to another is deleting up to the later one. */
  lemma KeepFromTwice(rows: map<nat, Row>, c1: int, c2: int)
    ensures KeepFrom(KeepFrom(rows, c1), c2) == KeepFrom(rows, if c1 <= c2 then c2 else c1)
  {
    var lhs, rhs := KeepFrom(KeepFrom(rows, c1), c2), KeepFrom(rows, if c1 <= c2 then c2 else c1);
    assert lhs.Keys == rhs.Keys;
  }

  /**
   * The cutoff of `clean_all` as written: 120 taken off the encoding of "now". In the
   * digits YYYYMMDDhhmmss that is one minute and twenty seconds back, not two minutes.
   */
  function RawCutoff(now: DateTime): (r: int)
    requires NonNegative(now)
    ensures FitsWidths(now) ==> r == Pack(now) - Grace
    ensures FitsWidths(now) && now.minute >= 1 && now.second >= 20 ==>
      Unpack(r) == now.(minute := now.minute - 1, second := now.second - 20)
  {
    var r := Date2Int(now) - Grace;
    assert FitsWidths(now) && now.minute >= 1 && now.second >= 20 ==>
      Unpack(r) == now.(minute := now.minute - 1, second := now.second - 20) by {
      if FitsWidths(now) && now.minute >= 1 && now.second >= 20 {
        var earlier := now.(minute := now.minute - 1, second := now.second - 20);
        assert Pack(earlier) == r;
        UnpackPack(earlier);
      }
    }
    r
  }

  /** The `date2int` encoding of the instant n seconds after 0001-01-01 00:00:00. */
  function EncodingAt(n: int): (r: int)
    requires 0 <= n <= MaxSeconds
    ensures ValidDateTime(Unpack(r)) && ToSeconds(Unpack(r)) == n && Date2Int(Unpack(r)) == r
  {
    var t := FromSeconds(n);
    ValidFitsWidths(t);
    UnpackPack(t);
    Date2Int(t)
  }

  /**
   * The intended cutoff: the encoding of the instant 120 seconds before "now".
   * Within the first two minutes of year 1 no such instant exists and nothing is old enough.
   */
  function GraceCutoff(now: DateTime): (r: int)
    requires ValidDateTime(now)
    ensures ToSeconds(now) >= Grace ==>
      ValidDateTime(Unpack(r)) && ToSeconds(Unpack(r)) == ToSeconds(now) - Grace && Date2Int(Unpack(r)) == r
    ensures ToSeconds(now) < Grace ==> r == 0
  {
    if ToSeconds(now) >= Grace then EncodingAt(ToSeconds(now) - Grace) else 0
  }

  /**
   * With the intended cutoff, a reminder due at a valid date-time `w` is dropped exactly
   * when it was due more than 120 seconds before "now".
   */
  lemma GraceCutoffDropsOnlyStale(now: DateTime, w: DateTime)
    requires ValidDateTime(now) && ValidDateTime(w)
    ensures Date2Int(w) < GraceCutoff(now) <==> ToSeconds(w) < ToSeconds(now) - Grace
  {
    if ToSeconds(now) >= Grace {
      var c := Unpack(GraceCutoff(now));
      EncodingIsChronological(w, c);
    } else {
      assert ToSeconds(w) >= 0 by {
      }
      assert Date2Int(w) >= 0 by {
        ValidFitsWidths(w);
      }
    }
  }

  /**
   * The cutoff as written drops a reminder that is one second overdue: at 10:00:00 the
   * encoding minus 120 reads 09:98:80, later than 09:59:59.
   */
  lemma RawCutoffDropsFreshItem(now: DateTime, w: DateTime)
    requires now == DateTime(2024, 1, 1, 10, 0, 0) && w == DateTime(2024, 1, 1, 9, 59, 59)
    ensures ValidDateTime(now) && ValidDateTime(w)
    ensures ToSeconds(w) == ToSeconds(now) - 1
    ensures Date2Int(w) < RawCutoff(now)
    ensures Date2Int(w) >= GraceCutoff(now)
  {
    assert Ordinal(w) == Ordinal(now);
    ValidFitsWidths(now);
    ValidFitsWidths(w);
    GraceCutoffDropsOnlyStale(now, w);
  }

  /**
   * Halfway through listing `rows` by due time: `listing` holds, in order, the rows taken
   * out so far, `rest` the others, and nothing in `rest` is due before what was listed.
   */
  predicate ListedSoFar(rows: map<nat, Row>, rest: map<nat, Row>, listing: seq<Entry>) {
    && (forall id :: id in rest ==> id in rows && rest[id] == rows[id])
    && (forall i :: 0 <= i < |listing| ==> listing[i].id in rows && rows[listing[i].id] == listing[i].row)
    && (forall i :: 0 <= i < |listing| ==> listing[i].id !in rest)
    && (forall i, j :: 0 <= i < j < |listing| ==> listing[i].id != listing[j].id)
    && (forall id :: id in rows ==> id in rest || Listed(listing, id))
    && SortedByDue(listing)
    && (forall i, id :: 0 <= i < |listing| && id in rest ==> listing[i].row.whento <= rest[id].whento)
  }

  /** Taking out an earliest remaining row and listing it next keeps the listing in order. */
  lemma ListNext(rows: map<nat, Row>, rest: map<nat, Row>, listing: seq<Entry>, id: nat)
    requires ListedSoFar(rows, rest, listing) && IsEarliest(rest, id)
    ensures ListedSoFar(rows, rest - {id}, listing + [Entry(id, rest[id])])
  {
    var e := Entry(id, rest[id]);
    var listing', rest' := listing + [e], rest - {id};
    assert listing'[|listing|] == e;
    forall x | x in rows ensures x in rest' || Listed(listing', x) {
      if x == id {
        assert listing'[|listing|].id == x;
      } else if x !in rest {
        var i :| 0 <= i < |listing| && listing[i].id == x;
        assert listing'[i].id == x;
      }
    }
  }

  class ReminderDb {
    var items: map<nat, Row>
    var history: map<nat, Row>
    /** The next AUTOINCREMENT id of each table. */
    var nextItemId: nat
    var nextHistoryId: nat

    ghost predicate Valid()
      reads this
    {
      && 1 <= nextItemId && 1 <= nextHistoryId
      && (forall id :: id in items ==> 1 <= id < nextItemId)
      && (forall id :: id in history ==> 1 <= id < nextHistoryId)
    }

    function Rows(t: Table): map<nat, Row>
      reads this
    {
      if t == Items then items else history
    }

    function NextId(t: Table): nat
      reads this
    {
      if t == Items then nextItemId else nextHistoryId
    }

    /** `create_table` on a fresh database: both tables empty. */
    constructor()
      ensures Valid() && items == map[] && history == map[]
      ensures nextItemId == 1 && nextHistoryId == 1
    {
      items, history := map[], map[];
      nextItemId, nextHistoryId := 1, 1;
    }

    /**
     * `insert(table, when, msg, repeat)`: one new row, under an id above every id the
     * table has ever handed out; the other table is untouched.
     */
    method Insert(t: Table, whento: int, msg: string, repeat: int) returns (id: nat)
      requires Valid()
      modifies this
      ensures Valid()
      ensures id == old(NextId(t)) && id !in old(Rows(t))
      ensures Rows(t) == old(Rows(t))[id := Row(whento, msg, repeat)]
      ensures NextId(t) == id + 1
      ensures Rows(Other(t)) == old(Rows(Other(t))) && NextId(Other(t)) == old(NextId(Other(t)))
    {
      if t == Items {
        id := nextItemId;
        items := items[id := Row(whento, msg, repeat)];
        nextItemId := nextItemId + 1;
      } else {
        id := nextHistoryId;
        history := history[id := Row(whento, msg, repeat)];
        nextHistoryId := nextHistoryId + 1;
      }
    }

    /** `delete(table, id)`: removes that row if present; nothing else changes. */
    method Delete(t: Table, id: nat)
      requires Valid()
      modifies this
      ensures Valid()
      ensures Rows(t) == old(Rows(t)) - {id}
      ensures Rows(Other(t)) == old(Rows(Other(t)))
      ensures nextItemId == old(nextItemId) && nextHistoryId == old(nextHistoryId)
    {
      if t == Items {
        items := items - {id};
      } else {
        history := history - {id};
      }
    }

    /**
     * `move(id, when, msg, repeat)`: a history row with the given fields under a fresh
     * history id, then the items row `id` deleted.
     */
    method Move(id: nat, whento: int, msg: string, repeat: int)
      requires Valid()
      modifies this
      ensures Valid()
      ensures history == old(history)[old(nextHistoryId) := Row(whento, msg, repeat)]
      ensures old(nextHistoryId) !in old(history) && nextHistoryId == old(nextHistoryId) + 1
      ensures items == old(items) - {id} && nextItemId == old(nextItemId)
    {
      var hid := Insert(History, whento, msg, repeat);
      Delete(Items, id);
    }

    /**
     * `select_one`: None exactly when `items` is empty, otherwise a row that no other row
     * is due before. Among rows due at the same time any one may come back.
     */
    method SelectOne() returns (e: Option<Entry>)
      ensures e.None? <==> items == map[]
      ensures e.Some? ==> IsEarliest(items, e.value.id) && items[e.value.id] == e.value.row
    {
      if items == map[] {
        return None;
      }
      EarliestExists(items);
      var id: nat :| IsEarliest(items, id);
      return Some(Entry(id, items[id]));
    }

    /** The order `show_all` prints a table in: every row once, by ascending due time. */
    method ShowAll(t: Table) returns (listing: seq<Entry>)
      ensures SortedByDue(listing) && ListsExactly(listing, Rows(t))
    {
      var rows := Rows(t);
      var rest := rows;
      listing := [];
      while rest != map[]
        invariant ListedSoFar(rows, rest, listing)
        decreases |rest.Keys|
      {
        EarliestExists(rest);
        var id: nat :| IsEarliest(rest, id);
        ListNext(rows, rest, listing, id);
        listing := listing + [Entry(id, rest[id])];
        rest := rest - {id};
      }
    }

    /**
     * `clean_all(table, now)`: the table argument plays no part; items due before the
     * cutoff are deleted and then all of history. The cutoff is the intended one, 120
     * seconds before "now" (see `RawCutoffDropsFreshItem` for the one as written).
     */
    method CleanAll(t: Table, now: DateTime)
      requires Valid() && ValidDateTime(now)
      modifies this
      ensures Valid()
      ensures items == KeepFrom(old(items), GraceCutoff(now))
      ensures history == map[]
      ensures nextItemId == old(nextItemId) && nextHistoryId == old(nextHistoryId)
    {
      items := KeepFrom(items, GraceCutoff(now));
      history := map[];
    }
  }
}
