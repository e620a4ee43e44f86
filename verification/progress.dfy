/**
 * The progress reconstructor of `getProgress`: from a participant's join day
 * and the challenge duration it rebuilds a gap-filled daily ledger, asks the
 * store to persist a "missed" row for every day nobody logged, splices the
 * stored rows back in and returns the ledger most recent day first.
 *
 * Calendar days are integer day numbers. The store is not called: the rows
 * it returned for the fetch and the rows it returned for the batch insert
 * are parameters (`None` when the call reported an error).
 */
module Progress {
  import opened Wrappers
  import Sorting

  /** The note that marks a row the system inferred rather than one a user logged. */
  const Missed: string := "missed"

  /** A stored progress row: one participant's outcome on one day. */
  datatype Entry = Entry(
    id: int,
    challengeId: int,
    userId: string,
    date: int,
    completed: bool,
    notes: Option<string>)

  /** A row sent to the store's batch insert; the store assigns the id. */
  datatype NewRow = NewRow(
    challengeId: int,
    userId: string,
    date: int,
    completed: bool,
    notes: Option<string>)

  /** What the backfill wrote and what the store handed back for it. */
  datatype Backfill = Backfill(written: seq<NewRow>, inserted: seq<Entry>)

  /** The returned ledger, and the rows the call asked the store to insert (`[]` when it wrote nothing). */
  datatype Reconstruction = Reconstruction(ledger: seq<Entry>, written: seq<NewRow>)

  /**
   * Which placeholder ids the walk hands out. `AsWritten` uses `-i`, so the
   * placeholder for the join day gets id 0 (JS `-0`), which the splice's
   * `id < 0` test does not pick up. `Corrected` uses `-(i + 1)`, negative
   * for every day.
   */
  datatype Variant = AsWritten | Corrected

  /** Store-assigned ids are positive (a serial key). */
  ghost predicate StoreIds(fetched: seq<Entry>) {
    forall k :: 0 <= k < |fetched| ==> fetched[k].id > 0
  }

  /** The number of days walked: `min(daysPassed, duration)`, or none when that is not positive. */
  function DayCount(daysPassed: int, duration: int): (n: nat)
    ensures n <= daysPassed || n == 0
    ensures n <= duration || n == 0
    ensures n == daysPassed || n == duration || n == 0
    ensures n == 0 <==> daysPassed <= 0 || duration <= 0
  {
    if daysPassed <= 0 || duration <= 0 then 0
    else if daysPassed < duration then daysPassed
    else duration
  }

  /**
   * The fetched entry for `day`, as the `Map` built from the fetched rows
   * answers it: when two rows share a day the later one wins.
   */
  function LookupDay(fetched: seq<Entry>, day: int): (r: Option<Entry>)
    ensures r.None? <==> forall k :: 0 <= k < |fetched| ==> fetched[k].date != day
    ensures r.Some? ==> r.value in fetched && r.value.date == day
  {
    if fetched == [] then None
    else if fetched[|fetched| - 1].date == day then Some(fetched[|fetched| - 1])
    else
      var r := LookupDay(fetched[..|fetched| - 1], day);
      assert r.Some? ==> r.value in fetched[..|fetched| - 1];
      r
  }

  /** The entry `LookupDay` finds is the last fetched row for that day. */
  lemma {:induction false} LookupDayIsLast(fetched: seq<Entry>, day: int, k: nat)
    requires k < |fetched| && fetched[k].date == day
    requires forall j :: k < j < |fetched| ==> fetched[j].date != day
    ensures LookupDay(fetched, day) == Some(fetched[k])
  {
    if k < |fetched| - 1 {
      LookupDayIsLast(fetched[..|fetched| - 1], day, k);
    }
  }

  function PlaceholderId(v: Variant, i: nat): (id: int)
    ensures v == Corrected ==> id < 0
    ensures v == AsWritten ==> (id < 0 <==> i > 0)
  {
    match v
    case AsWritten => -(i as int)
    case Corrected => -(i + 1)
  }

  /** The temporary "missed" entry shown for day `start + i` until the store returns a real row. */
  function Placeholder(v: Variant, challengeId: int, userId: string, start: int, i: nat): Entry {
    Entry(PlaceholderId(v, i), challengeId, userId, start + i, false, Some(Missed))
  }

  /** Day `start + i` of the walk: the fetched entry for that day, else a placeholder. */
  function Slot(v: Variant, fetched: seq<Entry>, challengeId: int, userId: string, start: int, i: nat): (e: Entry)
    ensures e.date == start + i
  {
    match LookupDay(fetched, start + i)
    case Some(found) => found
    case None => Placeholder(v, challengeId, userId, start, i)
  }

  /** The list the walk builds before the splice: one slot per day, join day first. */
  function Ledger(v: Variant, fetched: seq<Entry>, challengeId: int, userId: string, start: int, n: nat): (r: seq<Entry>)
    ensures |r| == n
    ensures forall i :: 0 <= i < n ==> r[i] == Slot(v, fetched, challengeId, userId, start, i)
    ensures forall i :: 0 <= i < n ==> r[i].date == start + i
    ensures forall i :: 0 <= i < n ==> r[i] in fetched || r[i] == Placeholder(v, challengeId, userId, start, i)
    ensures forall i :: 0 <= i < n && r[i] !in fetched ==>
      forall k :: 0 <= k < |fetched| ==> fetched[k].date != start + i
  {
    if n == 0 then []
    else Ledger(v, fetched, challengeId, userId, start, n - 1) + [Slot(v, fetched, challengeId, userId, start, n - 1)]
  }

  /** The days among the first `n` from `start` that have no fetched entry, in the walk's order. */
  function MissingDates(fetched: seq<Entry>, start: int, n: nat): (r: seq<int>)
    ensures |r| <= n
  {
    if n == 0 then []
    else
      var earlier := MissingDates(fetched, start, n - 1);
      if LookupDay(fetched, start + n - 1).None? then earlier + [start + n - 1] else earlier
  }

  /**
   * The missing dates are exactly the walked days without a fetched row,
   * in ascending order.
   */
  lemma {:induction false} MissingDatesExact(fetched: seq<Entry>, start: int, n: nat)
    ensures forall k :: 0 <= k < |MissingDates(fetched, start, n)| ==>
      start <= MissingDates(fetched, start, n)[k] < start + n &&
      LookupDay(fetched, MissingDates(fetched, start, n)[k]).None?
    ensures forall d :: start <= d < start + n && LookupDay(fetched, d).None? ==>
      d in MissingDates(fetched, start, n)
    ensures forall k, l :: 0 <= k < l < |MissingDates(fetched, start, n)| ==>
      MissingDates(fetched, start, n)[k] < MissingDates(fetched, start, n)[l]
  {
    if n > 0 {
      MissingDatesExact(fetched, start, n - 1);
    }
  }

  /** The rows `insertMissedEntries` sends: one not-completed "missed" row per date, in order. */
  function MissedRows(challengeId: int, userId: string, dates: seq<int>): (rows: seq<NewRow>)
    ensures |rows| == |dates|
    ensures forall k :: 0 <= k < |rows| ==>
      rows[k] == NewRow(challengeId, userId, dates[k], false, Some(Missed))
  {
    if dates == [] then []
    else MissedRows(challengeId, userId, dates[..|dates| - 1]) + [NewRow(challengeId, userId, dates[|dates| - 1], false, Some(Missed))]
  }

  /**
   * `insertMissedEntries`: no dates means no write and no rows; otherwise one
   * batch insert, whose returned rows come back, or `[]` when the store
   * reported an error (`response == None`).
   */
  function InsertMissedEntries(challengeId: int, userId: string, dates: seq<int>, response: Option<seq<Entry>>): (b: Backfill)
    ensures dates == [] ==> b.written == [] && b.inserted == []
    ensures dates != [] ==> b.written == MissedRows(challengeId, userId, dates)
    ensures response.None? ==> b.inserted == []
    ensures dates != [] && response.Some? ==> b.inserted == response.value
  {
    if |dates| == 0 then Backfill([], [])
    else Backfill(MissedRows(challengeId, userId, dates), response.GetOr([]))
  }

  /** How many of the first `i` entries carry a negative id. */
  function NegBefore(xs: seq<Entry>, i: nat): (c: nat)
    requires i <= |xs|
    ensures c <= i
  {
    if i == 0 then 0
    else NegBefore(xs, i - 1) + (if xs[i - 1].id < 0 then 1 else 0)
  }

  /**
   * The `forEach` splice: walking left to right, every entry with a negative
   * id takes the next returned row, if there is one, and advances the cursor
   * `next` either way; other entries are left alone.
   */
  function Splice(xs: seq<Entry>, inserted: seq<Entry>, next: nat): (r: seq<Entry>)
    ensures |r| == |xs|
    ensures forall i :: 0 <= i < |xs| && xs[i].id >= 0 ==> r[i] == xs[i]

  {
    if xs == [] then []
    else if xs[0].id < 0 then
      [if next < |inserted| then inserted[next] else xs[0]] + Splice(xs[1..], inserted, next + 1)
    else
      [xs[0]] + Splice(xs[1..], inserted, next)
  }

  /** The final sort's comparator `b.date - a.date`: the later day may come first. */
  function ByDateDesc(a: Entry, b: Entry): bool {
    a.date >= b.date
  }

  /** The walk, the backfill and the splice, before the final sort. */
  function Spliced(v: Variant, challengeId: int, userId: string, start: int, n: nat, fetched: seq<Entry>, response: Option<seq<Entry>>): seq<Entry> {
    var all := Ledger(v, fetched, challengeId, userId, start, n);
    var missing := MissingDates(fetched, start, n);
    if |missing| > 0 then
      Splice(all, InsertMissedEntries(challengeId, userId, missing, response).inserted, 0)
    else all
  }

  /** `getProgress` with the given placeholder ids; `fetched == None` is a failed fetch. */
  function Reconstruct(
    v: Variant, challengeId: int, userId: string, start: int, daysPassed: int, duration: int,
    fetched: Option<seq<Entry>>, response: Option<seq<Entry>>): (r: Reconstruction)
    ensures fetched.None? ==> r == Reconstruction([], [])
    ensures fetched.Some? ==> |r.ledger| == DayCount(daysPassed, duration)
    ensures forall i, j :: 0 <= i < j < |r.ledger| ==> r.ledger[i].date >= r.ledger[j].date
    ensures fetched.Some? ==>
      (r.written == [] <==>
        forall d :: start <= d < start + DayCount(daysPassed, duration) ==> LookupDay(fetched.value, d).Some?)
  {
    match fetched
    case None => Reconstruction([], [])
    case Some(f) =>
      var n := DayCount(daysPassed, duration);
      var spliced := Spliced(v, challengeId, userId, start, n, f, response);
      var written := InsertMissedEntries(challengeId, userId, MissingDates(f, start, n), response).written;
      SortByDateDescSorted(spliced);
      NothingMissing(f, start, n);
      Reconstruction(Sorting.Sort(spliced, ByDateDesc), written)
  }

  /** `getProgress` as the source writes it. */
  function GetProgress(
    challengeId: int, userId: string, start: int, daysPassed: int, duration: int,
    fetched: Option<seq<Entry>>, response: Option<seq<Entry>>): Reconstruction
  {
    Reconstruct(AsWritten, challengeId, userId, start, daysPassed, duration, fetched, response)
  }

  /** `getProgress` with every placeholder id negative, so each returned row meets its own day. */
  function GetProgressCorrected(
    challengeId: int, userId: string, start: int, daysPassed: int, duration: int,
    fetched: Option<seq<Entry>>, response: Option<seq<Entry>>): Reconstruction
  {
    Reconstruct(Corrected, challengeId, userId, start, daysPassed, duration, fetched, response)
  }

  lemma NothingMissing(fetched: seq<Entry>, start: int, n: nat)
    ensures MissingDates(fetched, start, n) == [] <==>
      forall d :: start <= d < start + n ==> LookupDay(fetched, d).Some?
  {
    var missing := MissingDates(fetched, start, n);
    MissingDatesExact(fetched, start, n);
    if missing != [] {
      assert LookupDay(fetched, missing[0]).None?;
    }
  }

  lemma SortByDateDescSorted(xs: seq<Entry>)
    ensures forall i, j :: 0 <= i < j < |xs| ==> Sorting.Sort(xs, ByDateDesc)[i].date >= Sorting.Sort(xs, ByDateDesc)[j].date
  {
    Sorting.SortSorted(xs, ByDateDesc);
  }
}
