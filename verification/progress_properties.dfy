/**
 * Properties of the progress reconstructor: the exact splice, the ledger's
 * coverage of the walked days, what survives a failed insert, the join-day
 * misalignment of the splice as written, and the idempotence of the backfill.
 */
module ProgressProperties {
  import opened Wrappers
  import opened Progress
  import Sorting

  /** `e` is the stored copy of the requested row `row`, with some id. */
  predicate Stored(e: Entry, row: NewRow) {
    && e.challengeId == row.challengeId
    && e.userId == row.userId
    && e.date == row.date
    && e.completed == row.completed
    && e.notes == row.notes
  }

  /** The insert returned stored copies of (a prefix of) the requested rows, in request order. */
  ghost predicate Echoes(inserted: seq<Entry>, rows: seq<NewRow>) {
    |inserted| <= |rows| &&
    forall k :: 0 <= k < |inserted| ==> Stored(inserted[k], rows[k])
  }

  /** Either the insert failed, or it echoed the requested rows. */
  ghost predicate Answers(response: Option<seq<Entry>>, rows: seq<NewRow>) {
    response.Some? ==> Echoes(response.value, rows)
  }

  /** Every negative-id slot is a missing day: always for `Corrected`, and for `AsWritten` when the join day was logged. */
  ghost predicate Aligned(v: Variant, fetched: seq<Entry>, start: int) {
    v == Corrected || LookupDay(fetched, start).Some?
  }

  /** 1 when the join-day placeholder is among the first `i` slots but has id 0. */
  function Skipped(v: Variant, fetched: seq<Entry>, start: int, i: nat): nat {
    if v == AsWritten && i > 0 && LookupDay(fetched, start).None? then 1 else 0
  }

  lemma {:induction false} NegBeforeTail(xs: seq<Entry>, i: nat)
    requires 1 <= i <= |xs|
    ensures NegBefore(xs, i) == (if xs[0].id < 0 then 1 else 0) + NegBefore(xs[1..], i - 1)
  {
    if i > 1 {
      NegBeforeTail(xs, i - 1);
      assert xs[1..][i - 2] == xs[i - 1];
    }
  }

  /**
   * The splice, position by position: a negative-id entry is replaced by the
   * returned row whose index is the number of negative-id entries before it,
   * when the insert returned that many rows; everything else stays.
   */
  lemma {:induction false} SpliceAt(xs: seq<Entry>, inserted: seq<Entry>, next: nat, i: nat)
    requires i < |xs|
    ensures Splice(xs, inserted, next)[i] ==
      if xs[i].id < 0 && next + NegBefore(xs, i) < |inserted| then inserted[next + NegBefore(xs, i)] else xs[i]
  {
    if i > 0 {
      var c := if xs[0].id < 0 then 1 else 0;
      var rest := Splice(xs[1..], inserted, next + c);
      assert Splice(xs, inserted, next)[i] == rest[i - 1];
      SpliceAt(xs[1..], inserted, next + c, i - 1);
      NegBeforeTail(xs, i);
      assert xs[1..][i - 1] == xs[i];
    }
  }

  /** The negative-id slots before day `i` are the missing days before it, less the join day when its id is 0. */
  lemma {:induction false} NegBeforeLedger(v: Variant, fetched: seq<Entry>, challengeId: int, userId: string, start: int, n: nat, i: nat)
    requires StoreIds(fetched)
    requires i <= n
    ensures NegBefore(Ledger(v, fetched, challengeId, userId, start, n), i) + Skipped(v, fetched, start, i)
      == |MissingDates(fetched, start, i)|
  {
    if i > 0 {
      NegBeforeLedger(v, fetched, challengeId, userId, start, n, i - 1);
      var all := Ledger(v, fetched, challengeId, userId, start, n);
      assert all[i - 1] == Slot(v, fetched, challengeId, userId, start, i - 1);
      var found := LookupDay(fetched, start + (i - 1));
      if found.Some? {
        assert all[i - 1].id > 0;
      }
    }
  }

  lemma {:induction false} MissingPrefix(fetched: seq<Entry>, start: int, m: nat, n: nat)
    requires m <= n
    ensures MissingDates(fetched, start, m) <= MissingDates(fetched, start, n)
  {
    if m < n {
      MissingPrefix(fetched, start, m, n - 1);
      var a := MissingDates(fetched, start, m);
      var b := MissingDates(fetched, start, n - 1);
      var c := MissingDates(fetched, start, n);
      assert b <= c;
      assert a == b[..|a|] && b == c[..|b|];
      assert c[..|b|][..|a|] == c[..|a|];
    }
  }

  /** A missing day `start + i` sits in the missing list right after the missing days before it. */
  lemma MissingIndex(fetched: seq<Entry>, start: int, n: nat, i: nat)
    requires i < n
    requires LookupDay(fetched, start + i).None?
    ensures |MissingDates(fetched, start, i)| < |MissingDates(fetched, start, n)|
    ensures MissingDates(fetched, start, n)[|MissingDates(fetched, start, i)|] == start + i
  {
    MissingPrefix(fetched, start, i + 1, n);
    assert MissingDates(fetched, start, i + 1) == MissingDates(fetched, start, i) + [start + i];
  }

  /** One slot of the aligned splice: it carries its own day. */
  lemma SplicedDateAt(v: Variant, challengeId: int, userId: string, start: int, n: nat, fetched: seq<Entry>, ins: seq<Entry>, i: nat)
    requires StoreIds(fetched) && Aligned(v, fetched, start)
    requires Echoes(ins, MissedRows(challengeId, userId, MissingDates(fetched, start, n)))
    requires i < n
    ensures Splice(Ledger(v, fetched, challengeId, userId, start, n), ins, 0)[i].date == start + i
  {
    var all := Ledger(v, fetched, challengeId, userId, start, n);
    SpliceAt(all, ins, 0, i);
    if all[i].id < 0 && NegBefore(all, i) < |ins| {
      var missing := MissingDates(fetched, start, n);
      var rows := MissedRows(challengeId, userId, missing);
      assert all[i] == Slot(v, fetched, challengeId, userId, start, i);
      assert LookupDay(fetched, start + i).None?;
      NegBeforeLedger(v, fetched, challengeId, userId, start, n, i);
      MissingIndex(fetched, start, n, i);
      var k := NegBefore(all, i);
      assert Stored(ins[k], rows[k]);
    }
  }

  /** When the splice lines up, slot `i` of the spliced list carries day `start + i`. */
  lemma SplicedDates(v: Variant, challengeId: int, userId: string, start: int, n: nat, fetched: seq<Entry>, response: Option<seq<Entry>>)
    requires StoreIds(fetched) && Aligned(v, fetched, start)
    requires Answers(response, InsertMissedEntries(challengeId, userId, MissingDates(fetched, start, n), response).written)
    ensures |Spliced(v, challengeId, userId, start, n, fetched, response)| == n
    ensures forall i :: 0 <= i < n ==> Spliced(v, challengeId, userId, start, n, fetched, response)[i].date == start + i
  {
    var missing := MissingDates(fetched, start, n);
    if |missing| > 0 {
      var ins := InsertMissedEntries(challengeId, userId, missing, response).inserted;
      forall i | 0 <= i < n
        ensures Splice(Ledger(v, fetched, challengeId, userId, start, n), ins, 0)[i].date == start + i
      {
        SplicedDateAt(v, challengeId, userId, start, n, fetched, ins, i);
      }
    }
  }

  /**
   * When the splice lines up, the ledger holds exactly one entry per walked
   * day, most recent first: entry `j` is for day `start + n - 1 - j`.
   */
  lemma CoverageWhenAligned(v: Variant, challengeId: int, userId: string, start: int, daysPassed: int, duration: int, fetched: seq<Entry>, response: Option<seq<Entry>>)
    requires StoreIds(fetched) && Aligned(v, fetched, start)
    requires Answers(response, Reconstruct(v, challengeId, userId, start, daysPassed, duration, Some(fetched), response).written)
    ensures var r := Reconstruct(v, challengeId, userId, start, daysPassed, duration, Some(fetched), response);
      forall j :: 0 <= j < |r.ledger| ==> r.ledger[j].date == start + |r.ledger| - 1 - j
  {
    var n := DayCount(daysPassed, duration);
    var spliced := Spliced(v, challengeId, userId, start, n, fetched, response);
    SplicedDates(v, challengeId, userId, start, n, fetched, response);
    Sorting.SortReversesOpposite(spliced, ByDateDesc);
  }

  /**
   * The corrected reconstructor returns exactly `min(daysPassed, duration)`
   * entries (none when that is not positive), one per day from the join day,
   * most recent first, and no day past the challenge's end.
   */
  lemma CorrectedLedgerCoversEveryDay(challengeId: int, userId: string, start: int, daysPassed: int, duration: int, fetched: seq<Entry>, response: Option<seq<Entry>>)
    requires StoreIds(fetched)
    requires Answers(response, GetProgressCorrected(challengeId, userId, start, daysPassed, duration, Some(fetched), response).written)
    ensures var r := GetProgressCorrected(challengeId, userId, start, daysPassed, duration, Some(fetched), response);
      && |r.ledger| == DayCount(daysPassed, duration)
      && forall j :: 0 <= j < |r.ledger| ==> r.ledger[j].date == start + |r.ledger| - 1 - j
  {
    CoverageWhenAligned(Corrected, challengeId, userId, start, daysPassed, duration, fetched, response);
  }

  /** As written, the ledger covers every walked day once, most recent first, whenever the join day itself was logged. */
  lemma LedgerCoversEveryDayWhenJoinDayLogged(challengeId: int, userId: string, start: int, daysPassed: int, duration: int, fetched: seq<Entry>, response: Option<seq<Entry>>)
    requires StoreIds(fetched)
    requires exists k :: 0 <= k < |fetched| && fetched[k].date == start
    requires Answers(response, GetProgress(challengeId, userId, start, daysPassed, duration, Some(fetched), response).written)
    ensures var r := GetProgress(challengeId, userId, start, daysPassed, duration, Some(fetched), response);
      && |r.ledger| == DayCount(daysPassed, duration)
      && forall j :: 0 <= j < |r.ledger| ==> r.ledger[j].date == start + |r.ledger| - 1 - j
  {
    CoverageWhenAligned(AsWritten, challengeId, userId, start, daysPassed, duration, fetched, response);
  }

  /** One slot after the splice, for any placeholder ids: its day is a walked day. */
  lemma SplicedSlotWithinWalk(v: Variant, challengeId: int, userId: string, start: int, n: nat, fetched: seq<Entry>, response: Option<seq<Entry>>, i: nat)
    requires Answers(response, InsertMissedEntries(challengeId, userId, MissingDates(fetched, start, n), response).written)
    requires i < n
    ensures |Spliced(v, challengeId, userId, start, n, fetched, response)| == n
    ensures start <= Spliced(v, challengeId, userId, start, n, fetched, response)[i].date < start + n
  {
    var all := Ledger(v, fetched, challengeId, userId, start, n);
    var missing := MissingDates(fetched, start, n);
    if |missing| > 0 {
      var ins := InsertMissedEntries(challengeId, userId, missing, response).inserted;
      var rows := MissedRows(challengeId, userId, missing);
      assert Echoes(ins, rows);
      SpliceAt(all, ins, 0, i);
      var c := NegBefore(all, i);
      if all[i].id < 0 && c < |ins| {
        assert Stored(ins[c], rows[c]);
        MissingDatesExact(fetched, start, n);
        assert ins[c].date == missing[c];
      }
    }
  }

  /**
   * Whatever the placeholder ids and whatever the store answered, no returned
   * row lies outside the walk: every day is between the join day and the
   * last walked day, so none is past the challenge's duration.
   */
  lemma LedgerWithinWalk(v: Variant, challengeId: int, userId: string, start: int, daysPassed: int, duration: int, fetched: seq<Entry>, response: Option<seq<Entry>>)
    requires Answers(response, Reconstruct(v, challengeId, userId, start, daysPassed, duration, Some(fetched), response).written)
    ensures forall e :: e in Reconstruct(v, challengeId, userId, start, daysPassed, duration, Some(fetched), response).ledger ==>
      start <= e.date < start + DayCount(daysPassed, duration)
  {
    var n := DayCount(daysPassed, duration);
    var spliced := Spliced(v, challengeId, userId, start, n, fetched, response);
    forall i | 0 <= i < |spliced|
      ensures start <= spliced[i].date < start + n
    {
      SplicedSlotWithinWalk(v, challengeId, userId, start, n, fetched, response, i);
    }
    Sorting.SortSameElements(spliced, ByDateDesc);
  }

  /**
   * For every walked day, the fetched row the lookup settles on (the last one
   * fetched for that day) is returned unchanged: a logged day is never
   * covered by a "missed" row.
   */
  lemma KeepsLoggedDays(v: Variant, challengeId: int, userId: string, start: int, daysPassed: int, duration: int, fetched: seq<Entry>, response: Option<seq<Entry>>, k: nat)
    requires StoreIds(fetched)
    requires k < |fetched|
    requires start <= fetched[k].date < start + DayCount(daysPassed, duration)
    requires forall j :: k < j < |fetched| ==> fetched[j].date != fetched[k].date
    ensures fetched[k] in Reconstruct(v, challengeId, userId, start, daysPassed, duration, Some(fetched), response).ledger
  {
    var n := DayCount(daysPassed, duration);
    var i: nat := fetched[k].date - start;
    var all := Ledger(v, fetched, challengeId, userId, start, n);
    LookupDayIsLast(fetched, start + i, k);
    assert all[i] == fetched[k];
    var spliced := Spliced(v, challengeId, userId, start, n, fetched, response);
    assert spliced[i] == fetched[k];
    var ledger := Sorting.Sort(spliced, ByDateDesc);
    assert fetched[k] in multiset(spliced);
  }

  /**
   * When the insert fails (the store answers with an error, so no rows come
   * back), every walked day without a fetched row keeps its placeholder.
   */
  lemma FailedInsertKeepsPlaceholders(v: Variant, challengeId: int, userId: string, start: int, daysPassed: int, duration: int, fetched: seq<Entry>, i: nat)
    requires i < DayCount(daysPassed, duration)
    requires forall k :: 0 <= k < |fetched| ==> fetched[k].date != start + i
    ensures Placeholder(v, challengeId, userId, start, i) in Reconstruct(v, challengeId, userId, start, daysPassed, duration, Some(fetched), None).ledger
  {
    var n := DayCount(daysPassed, duration);
    var all := Ledger(v, fetched, challengeId, userId, start, n);
    var spliced := Spliced(v, challengeId, userId, start, n, fetched, None);
    assert all[i] == Slot(v, fetched, challengeId, userId, start, i);
    if |MissingDates(fetched, start, n)| > 0 {
      SpliceAt(all, [], 0, i);
    }
    assert spliced[i] == Placeholder(v, challengeId, userId, start, i);
    assert spliced[i] in multiset(spliced);
  }

  /**
   * As written, the join day's placeholder carries id 0, which the splice's
   * negative-id test skips: when the join day was not logged, that
   * placeholder is returned whatever the insert answered.
   */
  lemma DayZeroPlaceholderSurvives(challengeId: int, userId: string, start: int, daysPassed: int, duration: int, fetched: seq<Entry>, response: Option<seq<Entry>>)
    requires DayCount(daysPassed, duration) > 0
    requires forall k :: 0 <= k < |fetched| ==> fetched[k].date != start
    ensures Placeholder(AsWritten, challengeId, userId, start, 0).id == 0
    ensures Placeholder(AsWritten, challengeId, userId, start, 0)
      in GetProgress(challengeId, userId, start, daysPassed, duration, Some(fetched), response).ledger
  {
    var n := DayCount(daysPassed, duration);
    var all := Ledger(AsWritten, fetched, challengeId, userId, start, n);
    var spliced := Spliced(AsWritten, challengeId, userId, start, n, fetched, response);
    assert all[0] == Slot(AsWritten, fetched, challengeId, userId, start, 0);
    assert spliced[0] == all[0];
    assert spliced[0] in multiset(spliced);
  }

  /** One slot of the misaligned splice: a replaced slot gets the row of an earlier missing day. */
  lemma AsWrittenSlotShifted(challengeId: int, userId: string, start: int, n: nat, fetched: seq<Entry>, inserted: seq<Entry>, i: nat)
    requires StoreIds(fetched)
    requires LookupDay(fetched, start).None?
    requires var w := MissedRows(challengeId, userId, MissingDates(fetched, start, n));
      |inserted| == |w| && Echoes(inserted, w)
    requires 0 < i < n && LookupDay(fetched, start + i).None?
    ensures 0 < |MissingDates(fetched, start, i)| < |MissingDates(fetched, start, n)|
    ensures Splice(Ledger(AsWritten, fetched, challengeId, userId, start, n), inserted, 0)[i].date
      == MissingDates(fetched, start, n)[|MissingDates(fetched, start, i)| - 1]
  {
    var all := Ledger(AsWritten, fetched, challengeId, userId, start, n);
    var m := MissingDates(fetched, start, n);
    var rows := MissedRows(challengeId, userId, m);
    var c := |MissingDates(fetched, start, i)|;
    AsWrittenCursor(challengeId, userId, start, n, fetched, i);
    SpliceTakesRow(all, inserted, m, rows, i, c);
  }

  /**
   * Where the misaligned splice stands at an unlogged slot `i > 0`: the slot
   * is replaced, and the id-0 join day is not counted among the earlier ones.
   */
  lemma AsWrittenCursor(challengeId: int, userId: string, start: int, n: nat, fetched: seq<Entry>, i: nat)
    requires StoreIds(fetched)
    requires LookupDay(fetched, start).None?
    requires 0 < i < n && LookupDay(fetched, start + i).None?
    ensures Ledger(AsWritten, fetched, challengeId, userId, start, n)[i].id < 0
    ensures NegBefore(Ledger(AsWritten, fetched, challengeId, userId, start, n), i) + 1
      == |MissingDates(fetched, start, i)|
    ensures 0 < |MissingDates(fetched, start, i)| < |MissingDates(fetched, start, n)|
  {
    var all := Ledger(AsWritten, fetched, challengeId, userId, start, n);
    var c := |MissingDates(fetched, start, i)|;
    assert all[i].id < 0 by {
      assert all[i] == Slot(AsWritten, fetched, challengeId, userId, start, i);
    }
    assert NegBefore(all, i) + 1 == c by {
      NegBeforeLedger(AsWritten, fetched, challengeId, userId, start, n, i);
    }
    assert c < |MissingDates(fetched, start, n)| by {
      MissingIndex(fetched, start, n, i);
    }
  }

  /** The splice hands a negative-id slot the row of the `c`-th missing day when `c - 1` negative ids precede it. */
  lemma SpliceTakesRow(all: seq<Entry>, inserted: seq<Entry>, m: seq<int>, rows: seq<NewRow>, i: nat, c: nat)
    requires i < |all| && all[i].id < 0
    requires NegBefore(all, i) + 1 == c && c <= |m|
    requires |rows| == |m| && forall k :: 0 <= k < |rows| ==> rows[k].date == m[k]
    requires |inserted| == |rows| && Echoes(inserted, rows)
    ensures Splice(all, inserted, 0)[i].date == m[c - 1]
  {
    SpliceAt(all, inserted, 0, i);
    assert Stored(inserted[c - 1], rows[c - 1]);
  }

  /** Across the misaligned splice, no slot carries the latest missing day. */
  lemma AsWrittenSplicedMissesLast(challengeId: int, userId: string, start: int, n: nat, fetched: seq<Entry>, inserted: seq<Entry>)
    requires StoreIds(fetched)
    requires LookupDay(fetched, start).None?
    requires var w := MissedRows(challengeId, userId, MissingDates(fetched, start, n));
      |inserted| == |w| && Echoes(inserted, w)
    requires |MissingDates(fetched, start, n)| >= 2
    ensures var m := MissingDates(fetched, start, n);
      forall i :: 0 <= i < n ==>
        Splice(Ledger(AsWritten, fetched, challengeId, userId, start, n), inserted, 0)[i].date != m[|m| - 1]
  {
    var all := Ledger(AsWritten, fetched, challengeId, userId, start, n);
    var m := MissingDates(fetched, start, n);
    MissingDatesExact(fetched, start, n);
    var last := m[|m| - 1];
    assert start in m;
    assert m[0] == start;
    assert m[0] < last;
    forall i | 0 <= i < n
      ensures Splice(all, inserted, 0)[i].date != last
    {
      assert all[i] == Slot(AsWritten, fetched, challengeId, userId, start, i);
      if i > 0 && LookupDay(fetched, start + i).None? {
        AsWrittenSlotShifted(challengeId, userId, start, n, fetched, inserted, i);
        assert m[|MissingDates(fetched, start, i)| - 1] < last;
      } else {
        SpliceAt(all, inserted, 0, i);
        assert LookupDay(fetched, last).None?;
      }
    }
  }

  /**
   * The misalignment as written: when the join day and some later walked day
   * were both unlogged and the insert stored every requested row, each
   * returned row lands one placeholder too late, so a stored row's day (the
   * latest unlogged one) is missing from the ledger.
   */
  lemma AsWrittenDropsLastMissingDay(challengeId: int, userId: string, start: int, daysPassed: int, duration: int, fetched: seq<Entry>, inserted: seq<Entry>, later: int)
    requires StoreIds(fetched)
    requires forall k :: 0 <= k < |fetched| ==> fetched[k].date != start
    requires start < later < start + DayCount(daysPassed, duration)
    requires forall k :: 0 <= k < |fetched| ==> fetched[k].date != later
    requires var w := GetProgress(challengeId, userId, start, daysPassed, duration, Some(fetched), Some(inserted)).written;
      |inserted| == |w| && Echoes(inserted, w)
    ensures exists s ::
      && 0 <= s < |inserted|
      && start < inserted[s].date < start + DayCount(daysPassed, duration)
      && (forall k :: 0 <= k < |fetched| ==> fetched[k].date != inserted[s].date)
      && forall e :: e in GetProgress(challengeId, userId, start, daysPassed, duration, Some(fetched), Some(inserted)).ledger ==>
           e.date != inserted[s].date
  {
    var n := DayCount(daysPassed, duration);
    var m := MissingDates(fetched, start, n);
    assert LookupDay(fetched, start).None? && LookupDay(fetched, later).None?;
    assert GetProgress(challengeId, userId, start, daysPassed, duration, Some(fetched), Some(inserted)).written
      == MissedRows(challengeId, userId, m) by {
      MissingDatesExact(fetched, start, n);
      assert start in m;
    }
    AsWrittenSplicedLacksLast(challengeId, userId, start, n, fetched, inserted, later);
    var s := |m| - 1;
    var spliced := Spliced(AsWritten, challengeId, userId, start, n, fetched, Some(inserted));
    SortKeepsDateAbsent(spliced, m[s]);
    assert GetProgress(challengeId, userId, start, daysPassed, duration, Some(fetched), Some(inserted)).ledger
      == Sorting.Sort(spliced, ByDateDesc);
  }

  /**
   * The misaligned splice before the sort: the latest unlogged day is a
   * later walked day, the insert stored a row for it, and no slot holds it.
   */
  lemma AsWrittenSplicedLacksLast(challengeId: int, userId: string, start: int, n: nat, fetched: seq<Entry>, inserted: seq<Entry>, later: int)
    requires StoreIds(fetched)
    requires LookupDay(fetched, start).None?
    requires start < later < start + n && LookupDay(fetched, later).None?
    requires var w := MissedRows(challengeId, userId, MissingDates(fetched, start, n));
      |inserted| == |w| && Echoes(inserted, w)
    ensures var m := MissingDates(fetched, start, n);
      && 2 <= |m| == |inserted|
      && start < m[|m| - 1] < start + n
      && inserted[|m| - 1].date == m[|m| - 1]
      && (forall k :: 0 <= k < |fetched| ==> fetched[k].date != m[|m| - 1])
      && forall i :: 0 <= i < n ==> Spliced(AsWritten, challengeId, userId, start, n, fetched, Some(inserted))[i].date != m[|m| - 1]
  {
    var m := MissingDates(fetched, start, n);
    var rows := MissedRows(challengeId, userId, m);
    assert |m| >= 2 && m[0] < m[|m| - 1] by {
      MissingDatesExact(fetched, start, n);
      assert start in m && later in m;
    }
    var s := |m| - 1;
    assert Stored(inserted[s], rows[s]);
    assert start < m[s] < start + n && LookupDay(fetched, m[s]).None? by {
      MissingDatesExact(fetched, start, n);
    }
    AsWrittenSplicedMissesLast(challengeId, userId, start, n, fetched, inserted);
  }

  /** Sorting by date never brings in a day the list lacked. */
  lemma SortKeepsDateAbsent(xs: seq<Entry>, day: int)
    requires forall i :: 0 <= i < |xs| ==> xs[i].date != day
    ensures forall e :: e in Sorting.Sort(xs, ByDateDesc) ==> e.date != day
  {
    Sorting.SortSameElements(xs, ByDateDesc);
  }

  /**
   * A two-day instance: nothing logged, both "missed" rows stored with ids
   * 101 and 102. As written, the ledger shows the join day twice (the id-0
   * placeholder and row 101) and never shows day 1; corrected, it shows
   * rows 102 and 101.
   */
  lemma AsWrittenShiftExample()
    ensures var stored := [Entry(101, 7, "u", 0, false, Some(Missed)), Entry(102, 7, "u", 1, false, Some(Missed))];
      && GetProgress(7, "u", 0, 2, 30, Some([]), Some(stored)).ledger
           == [Entry(0, 7, "u", 0, false, Some(Missed)), stored[0]]
      && GetProgressCorrected(7, "u", 0, 2, 30, Some([]), Some(stored)).ledger == [stored[1], stored[0]]
  {
    var stored := [Entry(101, 7, "u", 0, false, Some(Missed)), Entry(102, 7, "u", 1, false, Some(Missed))];
    assert MissingDates([], 0, 2) == [0, 1];
    var asWritten := Ledger(AsWritten, [], 7, "u", 0, 2);
    assert asWritten == [Entry(0, 7, "u", 0, false, Some(Missed)), Entry(-1, 7, "u", 1, false, Some(Missed))];
    assert Splice(asWritten, stored, 0) == [Entry(0, 7, "u", 0, false, Some(Missed)), stored[0]];
    var corrected := Ledger(Corrected, [], 7, "u", 0, 2);
    assert corrected == [Entry(-1, 7, "u", 0, false, Some(Missed)), Entry(-2, 7, "u", 1, false, Some(Missed))];
    assert Splice(corrected, stored, 0) == stored;
    assert Sorting.Sort([stored[1]], ByDateDesc) == [stored[1]];
    assert Sorting.Sort([stored[0]], ByDateDesc) == [stored[0]];
  }

  /**
   * The same call made again once the store holds the echoed rows: both days are
   * logged, so it returns the stored rows, and not what the first call returned.
   */
  lemma AsWrittenSecondCallDiffers(response: Option<seq<Entry>>)
    ensures var stored := [Entry(101, 7, "u", 0, false, Some(Missed)), Entry(102, 7, "u", 1, false, Some(Missed))];
      var first := GetProgress(7, "u", 0, 2, 30, Some([]), Some(stored)).ledger;
      var second := GetProgress(7, "u", 0, 2, 30, Some(stored), response).ledger;
      && second == [stored[1], stored[0]]
      && second != first
  {
    var stored := [Entry(101, 7, "u", 0, false, Some(Missed)), Entry(102, 7, "u", 1, false, Some(Missed))];
    SecondCallLedger(stored, response);
    AsWrittenShiftExample();
    assert GetProgress(7, "u", 0, 2, 30, Some(stored), response).ledger[0].id
      != GetProgress(7, "u", 0, 2, 30, Some([]), Some(stored)).ledger[0].id;
  }

  /** With both walked days logged, `getProgress` returns the stored rows, later day first. */
  lemma SecondCallLedger(stored: seq<Entry>, response: Option<seq<Entry>>)
    requires stored == [Entry(101, 7, "u", 0, false, Some(Missed)), Entry(102, 7, "u", 1, false, Some(Missed))]
    ensures GetProgress(7, "u", 0, 2, 30, Some(stored), response).ledger == [stored[1], stored[0]]
  {
    SecondCallSpliced(stored, response);
    SortTwoByDate(stored[0], stored[1]);
    assert stored == [stored[0], stored[1]];
  }

  /** Both walked days are logged, so the walk is the stored rows and nothing is spliced. */
  lemma SecondCallSpliced(stored: seq<Entry>, response: Option<seq<Entry>>)
    requires stored == [Entry(101, 7, "u", 0, false, Some(Missed)), Entry(102, 7, "u", 1, false, Some(Missed))]
    ensures Spliced(AsWritten, 7, "u", 0, 2, stored, response) == stored
  {
    assert LookupDay(stored, 0) == Some(stored[0]);
    assert LookupDay(stored, 1) == Some(stored[1]);
    NothingMissing(stored, 0, 2);
    LedgerAt(AsWritten, stored, 7, "u", 0, 2, 0, stored[0]);
    LedgerAt(AsWritten, stored, 7, "u", 0, 2, 1, stored[1]);
  }

  /** Two rows, the later day second: the date sort swaps them. */
  lemma SortTwoByDate(a: Entry, b: Entry)
    requires a.date < b.date
    ensures Sorting.Sort([a, b], ByDateDesc) == [b, a]
  {
    assert [a, b][1..] == [b];
    assert Sorting.Sort([b], ByDateDesc) == [b];
  }

  /** Once the store also holds the echoed rows, every walked day has a stored row. */
  lemma StoredRowsCoverWalk(challengeId: int, userId: string, start: int, n: nat, fetched: seq<Entry>, inserted: seq<Entry>)
    requires var w := MissedRows(challengeId, userId, MissingDates(fetched, start, n));
      |inserted| == |w| && Echoes(inserted, w)
    ensures forall d :: start <= d < start + n ==> LookupDay(fetched + inserted, d).Some?
  {
    var m := MissingDates(fetched, start, n);
    MissingDatesExact(fetched, start, n);
    var store := fetched + inserted;
    forall d | start <= d < start + n
      ensures LookupDay(store, d).Some?
    {
      if LookupDay(fetched, d).Some? {
        var k :| 0 <= k < |fetched| && fetched[k].date == d;
        assert store[k].date == d;
      } else {
        var k :| 0 <= k < |m| && m[k] == d;
        var rows := MissedRows(challengeId, userId, m);
        assert Stored(inserted[k], rows[k]);
        assert store[|fetched| + k].date == d;
      }
    }
  }

  /** When every walked day has a stored row, the walk only picks stored rows. */
  lemma LedgerFromStore(v: Variant, challengeId: int, userId: string, start: int, n: nat, store: seq<Entry>)
    requires forall d :: start <= d < start + n ==> LookupDay(store, d).Some?
    ensures forall i :: 0 <= i < n ==> Ledger(v, store, challengeId, userId, start, n)[i] in store
  {
    var all := Ledger(v, store, challengeId, userId, start, n);
    forall i | 0 <= i < n
      ensures all[i] in store
    {
      assert all[i] == Slot(v, store, challengeId, userId, start, i);
      assert LookupDay(store, start + i).Some?;
    }
  }

  /**
   * The backfill is idempotent: once the store holds every row the first
   * call asked for, a second call over the same days finds every day logged,
   * writes nothing, and returns only stored rows.
   */
  lemma BackfillIdempotent(v: Variant, challengeId: int, userId: string, start: int, daysPassed: int, duration: int, fetched: seq<Entry>, inserted: seq<Entry>, response: Option<seq<Entry>>)
    requires var w := Reconstruct(v, challengeId, userId, start, daysPassed, duration, Some(fetched), Some(inserted)).written;
      |inserted| == |w| && Echoes(inserted, w)
    ensures var again := Reconstruct(v, challengeId, userId, start, daysPassed, duration, Some(fetched + inserted), response);
      && again.written == []
      && forall e :: e in again.ledger ==> e in fetched + inserted
  {
    var n := DayCount(daysPassed, duration);
    var store := fetched + inserted;
    assert MissingDates(fetched, start, n) == [] ==> MissedRows(challengeId, userId, MissingDates(fetched, start, n)) == [];
    StoredRowsCoverWalk(challengeId, userId, start, n, fetched, inserted);
    NothingMissing(store, start, n);
    LedgerFromStore(v, challengeId, userId, start, n, store);
    var all := Ledger(v, store, challengeId, userId, start, n);
    assert Spliced(v, challengeId, userId, start, n, store, response) == all;
    var ledger := Reconstruct(v, challengeId, userId, start, daysPassed, duration, Some(store), response).ledger;
    assert ledger == Sorting.Sort(all, ByDateDesc);
    forall e | e in ledger
      ensures e in store
    {
      assert e in multiset(ledger);
      assert e in multiset(all);
    }
  }

  /** Rows appended for other days do not change what the lookup finds. */
  lemma {:induction false} LookupAppendMiss(fetched: seq<Entry>, inserted: seq<Entry>, day: int)
    requires forall k :: 0 <= k < |inserted| ==> inserted[k].date != day
    ensures LookupDay(fetched + inserted, day) == LookupDay(fetched, day)
  {
    if inserted == [] {
      assert fetched + inserted == fetched;
    } else {
      var init := inserted[..|inserted| - 1];
      LookupAppendMiss(fetched, init, day);
      assert (fetched + inserted)[..|fetched + inserted| - 1] == fetched + init;
    }
  }

  /** The last appended row for a day is what the lookup finds. */
  lemma LookupAppendHit(fetched: seq<Entry>, inserted: seq<Entry>, day: int, k: nat)
    requires k < |inserted| && inserted[k].date == day
    requires forall j :: k < j < |inserted| ==> inserted[j].date != day
    ensures LookupDay(fetched + inserted, day) == Some(inserted[k])
  {
    var store := fetched + inserted;
    assert store[|fetched| + k] == inserted[k];
    assert forall j :: |fetched| + k < j < |store| ==> store[j] == inserted[j - |fetched|];
    LookupDayIsLast(store, day, |fetched| + k);
  }

  /** A full echo of the missed rows carries the missing dates, in order. */
  lemma EchoedDates(challengeId: int, userId: string, m: seq<int>, inserted: seq<Entry>)
    requires |inserted| == |m|
    requires Echoes(inserted, MissedRows(challengeId, userId, m))
    ensures forall k :: 0 <= k < |inserted| ==> inserted[k].date == m[k]
  {
    var w := MissedRows(challengeId, userId, m);
    forall k | 0 <= k < |inserted|
      ensures inserted[k].date == m[k]
    {
      assert Stored(inserted[k], w[k]);
    }
  }

  /** A logged day keeps its fetched row in the first call, and the second call finds the same row. */
  lemma LoggedSlotAgain(challengeId: int, userId: string, start: int, n: nat, fetched: seq<Entry>, inserted: seq<Entry>, i: nat)
    requires StoreIds(fetched)
    requires |inserted| == |MissingDates(fetched, start, n)|
    requires forall k :: 0 <= k < |inserted| ==> inserted[k].date == MissingDates(fetched, start, n)[k]
    requires i < n && LookupDay(fetched, start + i).Some?
    ensures Splice(Ledger(Corrected, fetched, challengeId, userId, start, n), inserted, 0)[i]
      == Ledger(Corrected, fetched + inserted, challengeId, userId, start, n)[i]
  {
    var found := LookupDay(fetched, start + i).value;
    LoggedFirstCall(challengeId, userId, start, n, fetched, inserted, i);
    assert forall k :: 0 <= k < |inserted| ==> inserted[k].date != start + i by {
      MissingDaysUnlogged(fetched, start, n, start + i);
    }
    LoggedSecondCall(challengeId, userId, start, n, fetched, inserted, i);
  }

  /** In the second call, the rows added for other days leave a logged day's row in place. */
  lemma LoggedSecondCall(challengeId: int, userId: string, start: int, n: nat, fetched: seq<Entry>, inserted: seq<Entry>, i: nat)
    requires i < n && LookupDay(fetched, start + i).Some?
    requires forall k :: 0 <= k < |inserted| ==> inserted[k].date != start + i
    ensures Ledger(Corrected, fetched + inserted, challengeId, userId, start, n)[i] == LookupDay(fetched, start + i).value
  {
    LookupAppendMiss(fetched, inserted, start + i);
    LedgerAt(Corrected, fetched + inserted, challengeId, userId, start, n, i, LookupDay(fetched, start + i).value);
  }

  /** In the first call, a logged day keeps the row the lookup found. */
  lemma LoggedFirstCall(challengeId: int, userId: string, start: int, n: nat, fetched: seq<Entry>, inserted: seq<Entry>, i: nat)
    requires StoreIds(fetched)
    requires i < n && LookupDay(fetched, start + i).Some?
    ensures Splice(Ledger(Corrected, fetched, challengeId, userId, start, n), inserted, 0)[i]
      == LookupDay(fetched, start + i).value
  {
    var all := Ledger(Corrected, fetched, challengeId, userId, start, n);
    var found := LookupDay(fetched, start + i).value;
    LedgerSlot(Corrected, fetched, challengeId, userId, start, n, i);
    assert all[i] == found;
    var k :| 0 <= k < |fetched| && fetched[k] == found;
    assert found.id > 0;
  }

  /** A logged day is not among the missing dates. */
  lemma MissingDaysUnlogged(fetched: seq<Entry>, start: int, n: nat, day: int)
    requires LookupDay(fetched, day).Some?
    ensures forall k :: 0 <= k < |MissingDates(fetched, start, n)| ==> MissingDates(fetched, start, n)[k] != day
  {
    MissingDatesExact(fetched, start, n);
  }

  /** The missing dates after position `c` are all different from the one at `c`. */
  lemma MissingLaterDiffer(fetched: seq<Entry>, start: int, n: nat, c: nat)
    requires c < |MissingDates(fetched, start, n)|
    ensures forall j :: c < j < |MissingDates(fetched, start, n)| ==>
      MissingDates(fetched, start, n)[j] != MissingDates(fetched, start, n)[c]
  {
    MissingDatesExact(fetched, start, n);
  }

  /** An unlogged day takes its own echoed row in the first call, and the second call finds that row. */
  lemma UnloggedSlotAgain(challengeId: int, userId: string, start: int, n: nat, fetched: seq<Entry>, inserted: seq<Entry>, i: nat)
    requires StoreIds(fetched)
    requires |inserted| == |MissingDates(fetched, start, n)|
    requires forall k :: 0 <= k < |inserted| ==> inserted[k].date == MissingDates(fetched, start, n)[k]
    requires i < n && LookupDay(fetched, start + i).None?
    ensures Splice(Ledger(Corrected, fetched, challengeId, userId, start, n), inserted, 0)[i]
      == Ledger(Corrected, fetched + inserted, challengeId, userId, start, n)[i]
  {
    MissingIndex(fetched, start, n, i);
    UnloggedFirstCall(challengeId, userId, start, n, fetched, inserted, i);
    UnloggedSecondCall(challengeId, userId, start, n, fetched, inserted, i);
  }

  /** In the first call, unlogged day `i` takes the echoed row at its place in the missing list. */
  lemma UnloggedFirstCall(challengeId: int, userId: string, start: int, n: nat, fetched: seq<Entry>, inserted: seq<Entry>, i: nat)
    requires StoreIds(fetched)
    requires i < n && LookupDay(fetched, start + i).None?
    requires |MissingDates(fetched, start, i)| < |inserted|
    ensures Splice(Ledger(Corrected, fetched, challengeId, userId, start, n), inserted, 0)[i]
      == inserted[|MissingDates(fetched, start, i)|]
  {
    var all := Ledger(Corrected, fetched, challengeId, userId, start, n);
    var c := |MissingDates(fetched, start, i)|;
    LedgerSlot(Corrected, fetched, challengeId, userId, start, n, i);
    assert all[i] == Placeholder(Corrected, challengeId, userId, start, i);
    assert all[i].id < 0;
    NegBeforeLedger(Corrected, fetched, challengeId, userId, start, n, i);
    assert Skipped(Corrected, fetched, start, i) == 0;
    assert NegBefore(all, i) == c;
    SpliceNegAt(all, inserted, i);
  }

  /** A negative-id entry takes the returned row whose index counts the negative ids before it. */
  lemma SpliceNegAt(xs: seq<Entry>, inserted: seq<Entry>, i: nat)
    requires i < |xs| && xs[i].id < 0
    requires NegBefore(xs, i) < |inserted|
    ensures Splice(xs, inserted, 0)[i] == inserted[NegBefore(xs, i)]
  {
    SpliceAt(xs, inserted, 0, i);
  }

  /** In the second call, the lookup for unlogged day `i` finds its echoed row. */
  lemma UnloggedSecondCall(challengeId: int, userId: string, start: int, n: nat, fetched: seq<Entry>, inserted: seq<Entry>, i: nat)
    requires |inserted| == |MissingDates(fetched, start, n)|
    requires forall k :: 0 <= k < |inserted| ==> inserted[k].date == MissingDates(fetched, start, n)[k]
    requires i < n
    requires |MissingDates(fetched, start, i)| < |inserted|
    requires MissingDates(fetched, start, n)[|MissingDates(fetched, start, i)|] == start + i
    ensures Ledger(Corrected, fetched + inserted, challengeId, userId, start, n)[i]
      == inserted[|MissingDates(fetched, start, i)|]
  {
    var c := |MissingDates(fetched, start, i)|;
    MissingLaterDiffer(fetched, start, n, c);
    LookupAppendHit(fetched, inserted, start + i, c);
    LedgerAt(Corrected, fetched + inserted, challengeId, userId, start, n, i, inserted[c]);
  }

  /** A walked day with a stored row shows that row. */
  lemma LedgerAt(v: Variant, store: seq<Entry>, challengeId: int, userId: string, start: int, n: nat, i: nat, e: Entry)
    requires i < n && LookupDay(store, start + i) == Some(e)
    ensures Ledger(v, store, challengeId, userId, start, n)[i] == e
  {
    LedgerSlot(v, store, challengeId, userId, start, n, i);
  }

  /** Slot `i` of the walk, as a fact on its own. */
  lemma LedgerSlot(v: Variant, fetched: seq<Entry>, challengeId: int, userId: string, start: int, n: nat, i: nat)
    requires i < n
    ensures Ledger(v, fetched, challengeId, userId, start, n)[i] == Slot(v, fetched, challengeId, userId, start, i)
  {
  }

  /**
   * The corrected reconstructor is idempotent: once the store holds every
   * row the first call asked for, a second call with no new logs in between
   * returns exactly the same ledger, whatever the store would answer to an
   * insert.
   */
  lemma CorrectedReconstructIdempotent(challengeId: int, userId: string, start: int, daysPassed: int, duration: int, fetched: seq<Entry>, inserted: seq<Entry>, response: Option<seq<Entry>>)
    requires StoreIds(fetched)
    requires var w := Reconstruct(Corrected, challengeId, userId, start, daysPassed, duration, Some(fetched), Some(inserted)).written;
      |inserted| == |w| && Echoes(inserted, w)
    ensures Reconstruct(Corrected, challengeId, userId, start, daysPassed, duration, Some(fetched + inserted), response).ledger
      == Reconstruct(Corrected, challengeId, userId, start, daysPassed, duration, Some(fetched), Some(inserted)).ledger
  {
    var n := DayCount(daysPassed, duration);
    var m := MissingDates(fetched, start, n);
    var store := fetched + inserted;
    var all := Ledger(Corrected, fetched, challengeId, userId, start, n);
    var again := Ledger(Corrected, store, challengeId, userId, start, n);
    assert m == [] ==> MissedRows(challengeId, userId, m) == [];
    StoredRowsCoverWalk(challengeId, userId, start, n, fetched, inserted);
    NothingMissing(store, start, n);
    assert Spliced(Corrected, challengeId, userId, start, n, store, response) == again;
    if m == [] {
      assert store == fetched;
    } else {
      var first := Splice(all, inserted, 0);
      EchoedDates(challengeId, userId, m, inserted);
      forall i | 0 <= i < n
        ensures first[i] == again[i]
      {
        if LookupDay(fetched, start + i).Some? {
          LoggedSlotAgain(challengeId, userId, start, n, fetched, inserted, i);
        } else {
          UnloggedSlotAgain(challengeId, userId, start, n, fetched, inserted, i);
        }
      }
      assert Spliced(Corrected, challengeId, userId, start, n, fetched, Some(inserted)) == first == again;
    }
  }
}
