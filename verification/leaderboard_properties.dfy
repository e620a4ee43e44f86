/**
 * Properties of the leaderboard aggregator: the grouping summarises each
 * user's rows exactly once, the streak never exceeds the completions, and
 * the ranking is a sorted permutation of the grouped users.
 */
module LeaderboardProperties {
  import opened Wrappers
  import opened Leaderboard
  import Sorting

  /** `s` is the summary of its user's rows, before streaks are filled in. */
  ghost predicate Summarises(s: Standing, rows: seq<Row>) {
    && s.totalDays == RowsOf(rows, s.userId)
    && s.completedCount == CompletedOf(rows, s.userId)
    && s.lastCompleted == LastCompleted(rows, s.userId)
    && s.streak == 0
    && FirstProfile(rows, s.userId) == Some(s.profile)
  }

  function UserIdOf(s: Standing): string {
    s.userId
  }

  /** What the grouping keeps true after every row. */
  ghost predicate GroupInv(g: seq<Standing>, rows: seq<Row>) {
    && Sorting.DistinctKeys(g, UserIdOf)
    && (forall u :: IndexOfUser(g, u).Some? <==> Mentions(rows, u))
    && (forall i :: 0 <= i < |g| ==> Summarises(g[i], rows))
  }

  lemma {:induction false} FirstProfileSnoc(rows: seq<Row>, row: Row, userId: string)
    ensures Mentions(rows, userId) ==> FirstProfile(rows + [row], userId) == FirstProfile(rows, userId) && FirstProfile(rows, userId).Some?
    ensures !Mentions(rows, userId) ==> FirstProfile(rows, userId) == None
    ensures !Mentions(rows, userId) ==>
      FirstProfile(rows + [row], userId) == if row.userId == userId then Some(row.profile) else None
  {
    if rows != [] {
      assert (rows + [row])[1..] == rows[1..] + [row];
      FirstProfileSnoc(rows[1..], row, userId);
      if rows[0].userId != userId {
        if Mentions(rows, userId) {
          var k :| 0 <= k < |rows| && rows[k].userId == userId;
          assert rows[1..][k - 1].userId == userId;
        }
      }
    }
  }

  lemma {:induction false} Unmentioned(rows: seq<Row>, userId: string)
    requires !Mentions(rows, userId)
    ensures RowsOf(rows, userId) == 0 && CompletedOf(rows, userId) == 0 && LastCompleted(rows, userId) == None
  {
    if rows != [] {
      var init := rows[..|rows| - 1];
      Unmentioned(init, userId);
    }
  }

  /** How one more row changes each reference count. */
  lemma SnocCounts(rows: seq<Row>, row: Row, userId: string)
    ensures RowsOf(rows + [row], userId) == RowsOf(rows, userId) + (if row.userId == userId then 1 else 0)
    ensures CompletedOf(rows + [row], userId) == CompletedOf(rows, userId) + (if row.userId == userId && row.completed then 1 else 0)
    ensures LastCompleted(rows + [row], userId) ==
      if row.userId == userId && row.completed then Some(row.createdAt) else LastCompleted(rows, userId)
    ensures Mentions(rows + [row], userId) <==> Mentions(rows, userId) || row.userId == userId
  {
    var all := rows + [row];
    assert all[..|all| - 1] == rows;
    if Mentions(rows, userId) {
      var k :| 0 <= k < |rows| && rows[k].userId == userId;
      assert all[k].userId == userId;
    }
    if row.userId == userId {
      assert all[|rows|].userId == userId;
    }
    if Mentions(all, userId) && !Mentions(rows, userId) {
      var k :| 0 <= k < |all| && all[k].userId == userId;
      assert k == |rows|;
    }
  }

  lemma IndexOfUserSnoc(g: seq<Standing>, s: Standing, userId: string)
    ensures IndexOfUser(g + [s], userId).Some? <==> IndexOfUser(g, userId).Some? || s.userId == userId
  {
    var all := g + [s];
    assert all[..|g|] == g;
    if IndexOfUser(g, userId).Some? {
      var i := IndexOfUser(g, userId).value;
      assert all[i].userId == userId;
    }
  }

  /** A row from a user not seen yet appends that user's fresh standing. */
  lemma TallyNewUser(g: seq<Standing>, rows: seq<Row>, row: Row)
    requires GroupInv(g, rows)
    requires IndexOfUser(g, row.userId).None?
    ensures GroupInv(Tally(g, row), rows + [row])
  {
    var g' := g + [Fresh(row)];
    var all := rows + [row];
    assert Tally(g, row) == g';
    forall i, j | 0 <= i < j < |g'|
      ensures UserIdOf(g'[i]) != UserIdOf(g'[j])
    {
      if j < |g| {
        assert UserIdOf(g[i]) != UserIdOf(g[j]);
      }
    }
    forall u
      ensures IndexOfUser(g', u).Some? <==> Mentions(all, u)
    {
      IndexOfUserSnoc(g, Fresh(row), u);
      SnocCounts(rows, row, u);
    }
    forall j | 0 <= j < |g|
      ensures Summarises(g'[j], all)
    {
      assert Summarises(g[j], rows);
      assert g[j].userId != row.userId;
      SnocCounts(rows, row, g[j].userId);
      FirstProfileSnoc(rows, row, g[j].userId);
      assert FirstProfile(rows, g[j].userId).Some?;
    }
    assert !Mentions(rows, row.userId);
    Unmentioned(rows, row.userId);
    SnocCounts(rows, row, row.userId);
    FirstProfileSnoc(rows, row, row.userId);
    assert Summarises(g'[|g|], all);
  }

  /** A row from a user already seen updates that user's standing only. */
  lemma TallyKnownUser(g: seq<Standing>, rows: seq<Row>, row: Row)
    requires GroupInv(g, rows)
    requires IndexOfUser(g, row.userId).Some?
    ensures GroupInv(Tally(g, row), rows + [row])
  {
    var i := IndexOfUser(g, row.userId).value;
    var g' := g[i := Count(g[i], row)];
    var all := rows + [row];
    assert Tally(g, row) == g';
    assert forall j :: 0 <= j < |g| ==> UserIdOf(g'[j]) == UserIdOf(g[j]);
    assert Sorting.DistinctKeys(g', UserIdOf);
    forall u
      ensures IndexOfUser(g', u).Some? <==> Mentions(all, u)
    {
      SnocCounts(rows, row, u);
    }
    forall j | 0 <= j < |g'|
      ensures Summarises(g'[j], all)
    {
      assert Summarises(g[j], rows);
      SnocCounts(rows, row, g[j].userId);
      FirstProfileSnoc(rows, row, g[j].userId);
      assert FirstProfile(rows, g[j].userId).Some?;
      if j != i {
        assert UserIdOf(g[j]) != UserIdOf(g[i]);
      }
    }
  }

  lemma TallyStep(g: seq<Standing>, rows: seq<Row>, row: Row)
    requires GroupInv(g, rows)
    ensures GroupInv(Tally(g, row), rows + [row])
  {
    if IndexOfUser(g, row.userId).None? {
      TallyNewUser(g, rows, row);
    } else {
      TallyKnownUser(g, rows, row);
    }
  }

  /**
   * The `reduce`: every user with a row appears exactly once (no one else
   * does), with the number of their rows as `total_days`, the number of
   * completed ones as `completed_count`, the day of the last completed one
   * in input order (none iff there is none), and the profile of their first
   * row. No rows give no users.
   */
  lemma {:induction false} GroupSummarises(rows: seq<Row>)
    ensures GroupInv(Group(rows), rows)
    ensures rows == [] ==> Group(rows) == []
  {
    if rows != [] {
      var init := rows[..|rows| - 1];
      GroupSummarises(init);
      assert init + [rows[|rows| - 1]] == rows;
      TallyStep(Group(init), init, rows[|rows| - 1]);
    } else {
      forall u
        ensures !Mentions(rows, u)
      {
      }
    }
  }

  /** The users of `g` are listed in the order of their first rows. */
  ghost predicate InFirstAppearanceOrder(g: seq<Standing>, rows: seq<Row>) {
    forall i, j :: 0 <= i < j < |g| ==> FirstAt(rows, g[i].userId) < FirstAt(rows, g[j].userId)
  }

  /** A user has a row exactly when their first row is inside the rows. */
  lemma MentionsFirstAt(rows: seq<Row>, userId: string)
    ensures Mentions(rows, userId) <==> FirstAt(rows, userId) < |rows|
  {
    FirstAtIsFirst(rows, userId);
    if Mentions(rows, userId) {
      var k :| 0 <= k < |rows| && rows[k].userId == userId;
      assert FirstAt(rows, userId) <= k;
    }
  }

  /** One more row leaves every earlier first appearance alone, and a new user first appears at it. */
  lemma FirstAtSnoc(rows: seq<Row>, row: Row, userId: string)
    ensures FirstAt(rows, userId) < |rows| ==> FirstAt(rows + [row], userId) == FirstAt(rows, userId)
    ensures FirstAt(rows, userId) == |rows| && row.userId == userId ==> FirstAt(rows + [row], userId) == |rows|
  {
    var all := rows + [row];
    var k := FirstAt(rows, userId);
    var k' := FirstAt(all, userId);
    FirstAtIsFirst(rows, userId);
    FirstAtIsFirst(all, userId);
    if k < |rows| {
      assert all[k] == rows[k];
      assert k' <= k;
      assert k' < |rows| ==> all[k'] == rows[k'];
    } else if row.userId == userId {
      assert all[|rows|] == row;
      assert forall j :: 0 <= j < |rows| ==> all[j] == rows[j];
    }
  }

  /** Every grouped user has a row, so their first row is inside the rows. */
  lemma GroupedUsersAppear(rows: seq<Row>)
    ensures forall i :: 0 <= i < |Group(rows)| ==> FirstAt(rows, Group(rows)[i].userId) < |rows|
  {
    var g := Group(rows);
    GroupSummarises(rows);
    forall i | 0 <= i < |g|
      ensures FirstAt(rows, g[i].userId) < |rows|
    {
      assert IndexOfUser(g, g[i].userId).Some?;
      MentionsFirstAt(rows, g[i].userId);
    }
  }

  /** Appending a user whose first row is the new one keeps the order. */
  lemma AppendKeepsOrder(g: seq<Standing>, rows: seq<Row>, row: Row)
    requires InFirstAppearanceOrder(g, rows)
    requires forall i :: 0 <= i < |g| ==> FirstAt(rows, g[i].userId) < |rows|
    requires FirstAt(rows, row.userId) == |rows|
    ensures InFirstAppearanceOrder(g + [Fresh(row)], rows + [row])
  {
    var g' := g + [Fresh(row)];
    forall i | 0 <= i < |g|
      ensures FirstAt(rows + [row], g'[i].userId) == FirstAt(rows, g[i].userId)
    {
      assert g'[i] == g[i];
      FirstAtSnoc(rows, row, g[i].userId);
    }
    assert FirstAt(rows + [row], g'[|g|].userId) == |rows| by {
      FirstAtSnoc(rows, row, row.userId);
    }
    OrderCarries(g, rows, g', rows + [row]);
  }

  /** Counting a row of a listed user changes no user, so it keeps the order. */
  lemma UpdateKeepsOrder(g: seq<Standing>, rows: seq<Row>, row: Row, k: nat)
    requires k < |g|
    requires InFirstAppearanceOrder(g, rows)
    requires forall i :: 0 <= i < |g| ==> FirstAt(rows, g[i].userId) < |rows|
    ensures InFirstAppearanceOrder(g[k := Count(g[k], row)], rows + [row])
  {
    var g' := g[k := Count(g[k], row)];
    forall i | 0 <= i < |g|
      ensures FirstAt(rows + [row], g'[i].userId) == FirstAt(rows, g[i].userId)
    {
      assert g'[i].userId == g[i].userId;
      FirstAtSnoc(rows, row, g[i].userId);
    }
    OrderCarries(g, rows, g', rows + [row]);
  }

  /**
   * The order carries over to longer rows when the users already listed keep
   * their first rows and a user listed after them first appears later.
   */
  lemma OrderCarries(g: seq<Standing>, rows: seq<Row>, g': seq<Standing>, all: seq<Row>)
    requires |g| <= |g'| <= |g| + 1
    requires InFirstAppearanceOrder(g, rows)
    requires forall i :: 0 <= i < |g| ==> FirstAt(all, g'[i].userId) == FirstAt(rows, g[i].userId) < |rows|
    requires forall i :: |g| <= i < |g'| ==> FirstAt(all, g'[i].userId) >= |rows|
    ensures InFirstAppearanceOrder(g', all)
  {
    forall i, j | 0 <= i < j < |g'|
      ensures FirstAt(all, g'[i].userId) < FirstAt(all, g'[j].userId)
    {
      if j < |g| {
        assert FirstAt(rows, g[i].userId) < FirstAt(rows, g[j].userId);
      }
    }
  }

  /**
   * The `reduce` lists the users in the order of their first rows: it only
   * ever appends a user, on that user's first row.
   */
  lemma {:induction false} GroupFirstAppearance(rows: seq<Row>)
    ensures InFirstAppearanceOrder(Group(rows), rows)
  {
    if rows != [] {
      var init := rows[..|rows| - 1];
      var row := rows[|rows| - 1];
      assert init + [row] == rows;
      var g := Group(init);
      GroupFirstAppearance(init);
      GroupedUsersAppear(init);
      match IndexOfUser(g, row.userId)
      case None =>
        assert FirstAt(init, row.userId) == |init| by {
          GroupSummarises(init);
          MentionsFirstAt(init, row.userId);
        }
        AppendKeepsOrder(g, init, row);
      case Some(k) =>
        UpdateKeepsOrder(g, init, row, k);
    }
  }

  /** Keeping only the ties of `z` keeps the first-appearance order. */
  lemma {:induction false} TiesInFirstAppearanceOrder(xs: seq<Standing>, z: Standing, rows: seq<Row>)
    requires InFirstAppearanceOrder(xs, rows)
    ensures InFirstAppearanceOrder(Sorting.TiesOf(xs, z, Ranks), rows)
  {
    if xs != [] {
      var rest := Sorting.TiesOf(xs[1..], z, Ranks);
      TiesInFirstAppearanceOrder(xs[1..], z, rows);
      forall j | 0 <= j < |rest|
        ensures FirstAt(rows, xs[0].userId) < FirstAt(rows, rest[j].userId)
      {
        assert rest[j] in xs[1..];
        var k :| 0 <= k < |xs[1..]| && xs[1..][k] == rest[j];
        assert xs[k + 1] == rest[j];
      }
    }
  }

  /** The last completion day really is a completed row's day, and it is absent exactly when nothing was completed. */
  lemma {:induction false} LastCompletedFacts(rows: seq<Row>, userId: string)
    ensures LastCompleted(rows, userId).None? <==> CompletedOf(rows, userId) == 0
    ensures LastCompleted(rows, userId).Some? ==> CompletedOn(rows, userId, LastCompleted(rows, userId).value)
    ensures CompletedOf(rows, userId) <= RowsOf(rows, userId)
  {
    if rows != [] {
      LastCompletedFacts(rows[..|rows| - 1], userId);
    }
  }

  /** The number of `userId`'s completed rows created between `lo` and `hi`. */
  function CompletedBetween(rows: seq<Row>, userId: string, lo: int, hi: int): nat {
    if rows == [] then 0
    else
      var last := rows[|rows| - 1];
      CompletedBetween(rows[..|rows| - 1], userId, lo, hi)
        + (if last.userId == userId && last.completed && lo <= last.createdAt <= hi then 1 else 0)
  }

  lemma {:induction false} CompletedBetweenBounds(rows: seq<Row>, userId: string, lo: int, hi: int)
    ensures CompletedBetween(rows, userId, lo, hi) <= CompletedOf(rows, userId)
    ensures lo <= hi ==>
      (CompletedBetween(rows, userId, lo, hi) ==
         CompletedBetween(rows, userId, lo, hi - 1) + CompletedBetween(rows, userId, hi, hi))
    ensures CompletedOn(rows, userId, hi) ==> CompletedBetween(rows, userId, hi, hi) >= 1
  {
    if rows != [] {
      CompletedBetweenBounds(rows[..|rows| - 1], userId, lo, hi);
    }
  }

  /** When every day from `lo` to `hi` has a completed row, there are at least that many completed rows. */
  lemma {:induction false} CompletedDaysCounted(rows: seq<Row>, userId: string, lo: int, hi: int)
    requires lo <= hi + 1
    requires forall d :: lo <= d <= hi ==> CompletedOn(rows, userId, d)
    ensures CompletedBetween(rows, userId, lo, hi) >= hi - lo + 1
    decreases hi - lo
  {
    if lo <= hi {
      CompletedDaysCounted(rows, userId, lo, hi - 1);
      CompletedBetweenBounds(rows, userId, lo, hi);
    }
  }

  /** A streak counts distinct days that each hold a completed row, so it never exceeds `completed_count`. */
  lemma StreakAtMostCompleted(rows: seq<Row>, userId: string, today: int)
    ensures Streak(rows, userId, LastCompleted(rows, userId), today) <= CompletedOf(rows, userId)
  {
    LastCompletedFacts(rows, userId);
    var s := Streak(rows, userId, LastCompleted(rows, userId), today);
    if s > 0 {
      var last := LastCompleted(rows, userId).value;
      CompletedDaysCounted(rows, userId, last - s + 1, last);
      CompletedBetweenBounds(rows, userId, last - s + 1, last);
    }
  }

  /** `a * b` keeps the sign of `b` when `a` is positive. */
  lemma PositiveScale(a: int, b: int)
    requires a > 0
    ensures b > 0 <==> a * b > 0
    ensures b == 0 <==> a * b == 0
  {
    if b > 0 {
      assert a * b > 0;
    } else if b < 0 {
      assert a * (-b) > 0;
      assert a * b == -(a * (-b));
    } else {
      assert a * b == 0;
    }
  }

  /** The algebra behind transitivity: `bt * (ac * ct - cc * at)` splits into the two neighbouring comparisons. */
  lemma CrossIdentity(ac: int, at: int, bc: int, bt: int, cc: int, ct: int)
    ensures bt * (ac * ct - cc * at) == ct * (ac * bt - bc * at) + at * (bc * ct - cc * bt)
  {
    calc {
      bt * (ac * ct - cc * at);
      bt * (ac * ct) - bt * (cc * at);
      { assert bt * (ac * ct) == ct * (ac * bt); assert bt * (cc * at) == at * (cc * bt); }
      ct * (ac * bt) - at * (cc * bt);
      { assert ct * (bc * at) == at * (bc * ct); }
      ct * (ac * bt) - ct * (bc * at) + at * (bc * ct) - at * (cc * bt);
      ct * (ac * bt - bc * at) + at * (bc * ct - cc * bt);
    }
  }

  /** Comparing rates by cross-multiplication is transitive, and strictly so when either step is strict. */
  lemma RateTransitive(a: Standing, b: Standing, c: Standing)
    requires a.completedCount * b.totalDays >= b.completedCount * a.totalDays
    requires b.completedCount * c.totalDays >= c.completedCount * b.totalDays
    ensures a.completedCount * c.totalDays >= c.completedCount * a.totalDays
    ensures a.completedCount * b.totalDays > b.completedCount * a.totalDays ||
            b.completedCount * c.totalDays > c.completedCount * b.totalDays ==>
            a.completedCount * c.totalDays > c.completedCount * a.totalDays
  {
    var ab := a.completedCount * b.totalDays - b.completedCount * a.totalDays;
    var bc := b.completedCount * c.totalDays - c.completedCount * b.totalDays;
    var ac := a.completedCount * c.totalDays - c.completedCount * a.totalDays;
    CrossIdentity(a.completedCount, a.totalDays, b.completedCount, b.totalDays, c.completedCount, c.totalDays);
    PositiveScale(c.totalDays, ab);
    PositiveScale(a.totalDays, bc);
    PositiveScale(b.totalDays, ac);
  }

  /** The ranking comparator is a total preorder, so the sort really ranks. */
  lemma RanksIsOrder()
    ensures Sorting.Total(Ranks)
    ensures Sorting.Transitive(Ranks)
  {
    forall a, b, c | Ranks(a, b) && Ranks(b, c)
      ensures Ranks(a, c)
    {
      RateTransitive(a, b, c);
    }
  }

  /**
   * A board line that reports its user truthfully: the row count, the
   * completion count and last completion day of that user's rows, and the
   * streak from that day, which is at most the completions.
   */
  ghost predicate Reports(s: Standing, rows: seq<Row>, today: int) {
    && s.totalDays == RowsOf(rows, s.userId)
    && s.completedCount == CompletedOf(rows, s.userId)
    && s.completedCount <= s.totalDays
    && s.lastCompleted == LastCompleted(rows, s.userId)
    && (s.lastCompleted.None? <==> s.completedCount == 0)
    && s.streak == Streak(rows, s.userId, s.lastCompleted, today)
    && s.streak <= s.completedCount
  }

  /** Some line of `board` is for `userId`. */
  ghost predicate Lists(board: seq<Standing>, userId: string) {
    exists i :: 0 <= i < |board| && board[i].userId == userId
  }

  /** Before ranking: one truthful line per user with a row. */
  lemma StandingsReport(rows: seq<Row>, today: int)
    ensures var w := WithStreaks(Group(rows), rows, today);
      && Sorting.DistinctKeys(w, UserIdOf)
      && (forall k :: 0 <= k < |rows| ==> Lists(w, rows[k].userId))
      && forall i :: 0 <= i < |w| ==> Reports(w[i], rows, today)
  {
    var g := Group(rows);
    GroupSummarises(rows);
    var w := WithStreaks(g, rows, today);
    forall i, j | 0 <= i < j < |w|
      ensures UserIdOf(w[i]) != UserIdOf(w[j])
    {
      assert UserIdOf(g[i]) != UserIdOf(g[j]);
    }
    forall k | 0 <= k < |rows|
      ensures Lists(w, rows[k].userId)
    {
      assert Mentions(rows, rows[k].userId);
      var j := IndexOfUser(g, rows[k].userId).value;
      assert w[j].userId == rows[k].userId;
    }
    forall i | 0 <= i < |w|
      ensures Reports(w[i], rows, today)
    {
      assert Summarises(g[i], rows);
      StreakAtMostCompleted(rows, g[i].userId, today);
      LastCompletedFacts(rows, g[i].userId);
    }
  }

  /** The board is ranked and lists no user twice. */
  lemma BoardRanked(rows: seq<Row>, today: int)
    ensures var r := GetLeaderboard(Rows(rows), today).value;
      Sorting.SortedBy(r, Ranks) && Sorting.DistinctKeys(r, UserIdOf)
  {
    var w := WithStreaks(Group(rows), rows, today);
    StandingsReport(rows, today);
    RanksIsOrder();
    Sorting.SortSorted(w, Ranks);
    Sorting.SortKeepsKeysDistinct(w, Ranks, UserIdOf);
  }

  /** Two lists with the same elements list the same users. */
  lemma SameUsers(w: seq<Standing>, r: seq<Standing>, rows: seq<Row>)
    requires forall x :: x in r <==> x in w
    requires forall k :: 0 <= k < |rows| ==> Lists(w, rows[k].userId)
    ensures forall k :: 0 <= k < |rows| ==> Lists(r, rows[k].userId)
  {
    forall k | 0 <= k < |rows|
      ensures Lists(r, rows[k].userId)
    {
      assert Lists(w, rows[k].userId);
      var j :| 0 <= j < |w| && w[j].userId == rows[k].userId;
      assert w[j] in r;
      var i :| 0 <= i < |r| && r[i] == w[j];
      assert r[i].userId == rows[k].userId;
    }
  }

  /** Every user with a row is on the board. */
  lemma BoardComplete(rows: seq<Row>, today: int)
    ensures var r := GetLeaderboard(Rows(rows), today).value;
      forall k :: 0 <= k < |rows| ==> Lists(r, rows[k].userId)
  {
    var w := WithStreaks(Group(rows), rows, today);
    StandingsReport(rows, today);
    Sorting.SortSameElements(w, Ranks);
    SameUsers(w, Sorting.Sort(w, Ranks), rows);
  }

  /** A list made of truthful lines has only truthful lines. */
  lemma SameReports(w: seq<Standing>, r: seq<Standing>, rows: seq<Row>, today: int)
    requires forall x :: x in r ==> x in w
    requires forall i :: 0 <= i < |w| ==> Reports(w[i], rows, today)
    ensures forall i :: 0 <= i < |r| ==> Reports(r[i], rows, today)
  {
    forall i | 0 <= i < |r|
      ensures Reports(r[i], rows, today)
    {
      assert r[i] in w;
    }
  }

  /** Every line of the board reports its user truthfully. */
  lemma BoardTruthful(rows: seq<Row>, today: int)
    ensures var r := GetLeaderboard(Rows(rows), today).value;
      forall i :: 0 <= i < |r| ==> Reports(r[i], rows, today)
  {
    var w := WithStreaks(Group(rows), rows, today);
    StandingsReport(rows, today);
    Sorting.SortSameElements(w, Ranks);
    SameReports(w, Sorting.Sort(w, Ranks), rows, today);
  }

  /**
   * `getLeaderboard` over fetched rows: the result ranks users by
   * completion rate, highest first, and on equal rates by streak, longest
   * first; every user with a row appears exactly once, on a line that
   * reports that user truthfully.
   */
  lemma LeaderboardRanked(rows: seq<Row>, today: int)
    ensures var r := GetLeaderboard(Rows(rows), today).value;
      && Sorting.SortedBy(r, Ranks)
      && Sorting.DistinctKeys(r, UserIdOf)
      && (forall k :: 0 <= k < |rows| ==> Lists(r, rows[k].userId))
      && forall i :: 0 <= i < |r| ==> Reports(r[i], rows, today)
  {
    BoardRanked(rows, today);
    BoardComplete(rows, today);
    BoardTruthful(rows, today);
  }

  /** The comparator ties two entries exactly when their rates and their streaks are equal. */
  lemma RanksTied(a: Standing, b: Standing)
    ensures Sorting.Tied(Ranks, a, b) <==>
      a.completedCount * b.totalDays == b.completedCount * a.totalDays && a.streak == b.streak
  {
  }

  /** Filling in the streaks keeps the users, so it keeps their first-appearance order. */
  lemma StandingsInFirstAppearanceOrder(rows: seq<Row>, today: int)
    ensures InFirstAppearanceOrder(WithStreaks(Group(rows), rows, today), rows)
  {
    var g := Group(rows);
    var w := WithStreaks(g, rows, today);
    GroupFirstAppearance(rows);
    forall i, j | 0 <= i < j < |w|
      ensures FirstAt(rows, w[i].userId) < FirstAt(rows, w[j].userId)
    {
      assert w[i].userId == g[i].userId && w[j].userId == g[j].userId;
    }
  }

  /**
   * Entries with equal rates and equal streaks keep the order in which their
   * users first appear in the rows: the grouping lists users that way and
   * the sort is stable.
   */
  lemma LeaderboardTiesKeepOrder(rows: seq<Row>, today: int, s: Standing)
    ensures Sorting.TiesOf(GetLeaderboard(Rows(rows), today).value, s, Ranks) ==
      Sorting.TiesOf(WithStreaks(Group(rows), rows, today), s, Ranks)
    ensures InFirstAppearanceOrder(Sorting.TiesOf(GetLeaderboard(Rows(rows), today).value, s, Ranks), rows)
  {
    var w := WithStreaks(Group(rows), rows, today);
    assert Sorting.TiesOf(Sorting.Sort(w, Ranks), s, Ranks) == Sorting.TiesOf(w, s, Ranks) by {
      RanksIsOrder();
      Sorting.SortStable(w, Ranks, s);
    }
    StandingsInFirstAppearanceOrder(rows, today);
    TiesInFirstAppearanceOrder(w, s, rows);
  }
}
