/**
 * The leaderboard aggregator of `getLeaderboard`: it groups a challenge's
 * progress rows by user, counts each user's rows and completions, remembers
 * the day of the last completion, measures the current streak backwards
 * from that day, and ranks users by completion rate, then streak.
 *
 * A row's `created_at` timestamp is modelled as the calendar day it falls on,
 * and "today" is a parameter. The store call is replaced by a `Query` value.
 */
module Leaderboard {
  import opened Wrappers
  import opened Profiles
  import Sorting

  /** A fetched progress row joined with its owner's profile. */
  datatype Row = Row(userId: string, completed: bool, createdAt: int, profile: Profile)

  /** A day count that is at least one: a user is only tallied from one of their rows. */
  type TotalDays = n: nat | n >= 1 witness 1

  /** One user's line on the leaderboard. */
  datatype Standing = Standing(
    userId: string,
    profile: Profile,
    completedCount: nat,
    totalDays: TotalDays,
    streak: nat,
    lastCompleted: Option<int>)

  /** What the store answered: an error (which `getLeaderboard` rethrows), no data, or the rows. */
  datatype Query = QueryFailed(error: string) | NoData | Rows(rows: seq<Row>)

  // ----- Grouping -----------------------------------------------------------

  /** Where `userId` sits in the accumulator, if it has been seen. */
  function IndexOfUser(g: seq<Standing>, userId: string): (r: Option<nat>)
    ensures r.Some? ==> r.value < |g| && g[r.value].userId == userId
    ensures r.None? <==> forall i :: 0 <= i < |g| ==> g[i].userId != userId
  {
    if g == [] then None
    else if g[|g| - 1].userId == userId then Some(|g| - 1)
    else IndexOfUser(g[..|g| - 1], userId)
  }

  /** A user's standing after one more of their rows. */
  function Count(s: Standing, row: Row): Standing {
    if row.completed then
      s.(totalDays := s.totalDays + 1, completedCount := s.completedCount + 1, lastCompleted := Some(row.createdAt))
    else
      s.(totalDays := s.totalDays + 1)
  }

  /** A new user's standing after their first row: created with zero counts, then counted. */
  function Fresh(row: Row): Standing {
    Standing(
      row.userId, row.profile,
      if row.completed then 1 else 0, 1, 0,
      if row.completed then Some(row.createdAt) else None)
  }

  /** One step of the `reduce`: add the user if new (at the end), then count the row. */
  function Tally(g: seq<Standing>, row: Row): seq<Standing> {
    match IndexOfUser(g, row.userId)
    case None => g + [Fresh(row)]
    case Some(i) => g[i := Count(g[i], row)]
  }

  /** The `reduce` over the fetched rows, in their order; users in order of first appearance. */
  function Group(rows: seq<Row>): seq<Standing> {
    if rows == [] then [] else Tally(Group(rows[..|rows| - 1]), rows[|rows| - 1])
  }

  // ----- Reference counts ---------------------------------------------------

  ghost predicate Mentions(rows: seq<Row>, userId: string) {
    exists k :: 0 <= k < |rows| && rows[k].userId == userId
  }

  /** The number of `userId`'s rows. */
  function RowsOf(rows: seq<Row>, userId: string): nat {
    if rows == [] then 0
    else RowsOf(rows[..|rows| - 1], userId) + (if rows[|rows| - 1].userId == userId then 1 else 0)
  }

  /** The number of `userId`'s completed rows. */
  function CompletedOf(rows: seq<Row>, userId: string): nat {
    if rows == [] then 0
    else
      var last := rows[|rows| - 1];
      CompletedOf(rows[..|rows| - 1], userId) + (if last.userId == userId && last.completed then 1 else 0)
  }

  /** The day of `userId`'s last completed row in input order, if any. */
  function LastCompleted(rows: seq<Row>, userId: string): Option<int> {
    if rows == [] then None
    else
      var last := rows[|rows| - 1];
      if last.userId == userId && last.completed then Some(last.createdAt)
      else LastCompleted(rows[..|rows| - 1], userId)
  }

  /** The profile on `userId`'s first row, if any. */
  function FirstProfile(rows: seq<Row>, userId: string): Option<Profile> {
    if rows == [] then None
    else if rows[0].userId == userId then Some(rows[0].profile)
    else FirstProfile(rows[1..], userId)
  }

  /** The position of `userId`'s first row; `|rows|` when they have none. */
  function FirstAt(rows: seq<Row>, userId: string): (k: nat)
    ensures k <= |rows|
  {
    if rows == [] then 0
    else if rows[0].userId == userId then 0
    else 1 + FirstAt(rows[1..], userId)
  }

  /** `FirstAt` is the first row of the user: that row is theirs, and no earlier one is. */
  lemma {:induction false} FirstAtIsFirst(rows: seq<Row>, userId: string)
    ensures FirstAt(rows, userId) < |rows| ==> rows[FirstAt(rows, userId)].userId == userId
    ensures forall j :: 0 <= j < FirstAt(rows, userId) ==> rows[j].userId != userId
  {
    if rows != [] && rows[0].userId != userId {
      FirstAtIsFirst(rows[1..], userId);
      assert forall j :: 1 <= j < |rows| ==> rows[j] == rows[1..][j - 1];
    }
  }

  // ----- Streak -------------------------------------------------------------

  /** The `some(...)` test of the streak loop: does `userId` have a completed row created on `day`? */
  function CompletedOn(rows: seq<Row>, userId: string, day: int): (b: bool)
    ensures b <==> exists k :: 0 <= k < |rows| && rows[k].userId == userId && rows[k].completed && rows[k].createdAt == day
  {
    if rows == [] then false
    else
      var last := rows[|rows| - 1];
      (last.userId == userId && last.completed && last.createdAt == day) || CompletedOn(rows[..|rows| - 1], userId, day)
  }

  /** The earliest creation day among the rows (0 when there are none). */
  function Floor(rows: seq<Row>): (f: int)
    ensures forall k :: 0 <= k < |rows| ==> f <= rows[k].createdAt
  {
    if rows == [] then 0
    else
      var rest := Floor(rows[..|rows| - 1]);
      var day := rows[|rows| - 1].createdAt;
      if |rows| == 1 || day < rest then day else rest
  }

  /**
   * The streak loop: the number of consecutive days, counting back from
   * `day`, on each of which `userId` has a completed row. It stops because
   * no row is created before `Floor(rows)`.
   */
  function RunBack(rows: seq<Row>, userId: string, day: int): (r: nat)
    decreases day - Floor(rows)
    ensures forall d :: day - r < d <= day ==> CompletedOn(rows, userId, d)
    ensures !CompletedOn(rows, userId, day - r)
  {
    if CompletedOn(rows, userId, day) then 1 + RunBack(rows, userId, day - 1) else 0
  }

  /**
   * The streak: 0 unless the last completion is at most one day before
   * today; then 1 for that day plus the unbroken run of completed days
   * immediately before it.
   */
  function Streak(rows: seq<Row>, userId: string, lastCompleted: Option<int>, today: int): (s: nat)
    ensures lastCompleted.None? ==> s == 0
    ensures lastCompleted.Some? && today - lastCompleted.value > 1 ==> s == 0
    ensures lastCompleted.Some? && today - lastCompleted.value <= 1 ==>
      && s >= 1
      && (forall d :: lastCompleted.value - s < d < lastCompleted.value ==> CompletedOn(rows, userId, d))
      && !CompletedOn(rows, userId, lastCompleted.value - s)
  {
    match lastCompleted
    case None => 0
    case Some(last) =>
      if today - last <= 1 then
        1 + RunBack(rows, userId, last - 1)
      else 0
  }

  /** Every standing with its streak filled in. */
  function WithStreaks(g: seq<Standing>, rows: seq<Row>, today: int): (r: seq<Standing>)
    ensures |r| == |g|
    ensures forall i :: 0 <= i < |g| ==>
      r[i] == g[i].(streak := Streak(rows, g[i].userId, g[i].lastCompleted, today))
  {
    if g == [] then []
    else WithStreaks(g[..|g| - 1], rows, today) + [g[|g| - 1].(streak := Streak(rows, g[|g| - 1].userId, g[|g| - 1].lastCompleted, today))]
  }

  // ----- Ranking ------------------------------------------------------------

  /**
   * The comparator: a higher completion rate first, and on equal rates the
   * longer streak first. Rates `completed / total` are compared by
   * cross-multiplication, which is exact because both totals are positive.
   */
  function Ranks(a: Standing, b: Standing): bool {
    var x := a.completedCount * b.totalDays;
    var y := b.completedCount * a.totalDays;
    x > y || (x == y && a.streak >= b.streak)
  }

  /** `getLeaderboard`. */
  function GetLeaderboard(query: Query, today: int): (r: Result<seq<Standing>>)
    ensures query.QueryFailed? ==> r == Failure(query.error)
    ensures query.NoData? ==> r == Success([])
    ensures query.Rows? && query.rows == [] ==> r == Success([])
    ensures query.Rows? ==> r.Success? && multiset(r.value) == multiset(WithStreaks(Group(query.rows), query.rows, today))
  {
    match query
    case QueryFailed(e) => Failure(e)
    case NoData => Success([])
    case Rows(rows) => Success(Sorting.Sort(WithStreaks(Group(rows), rows, today), Ranks))
  }
}
