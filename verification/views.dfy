/** The lists the record, history and chart tabs show, derived from the
    records as the store lists them (newest first). */
module Views {
  import opened Wrappers
  import opened Records

  /** How many records the record tab shows. */
  const RecentCount: nat := 10

  // ----- the record tab -----

  /** `records.slice(0, 10)`: the first ten records listed, or all of them
      when there are fewer. */
  function RecentRecords(all: seq<Record>): (r: seq<Record>)
    ensures |r| == if |all| < RecentCount then |all| else RecentCount
    ensures forall i | 0 <= i < |r| :: r[i] == all[i]
  {
    if |all| < RecentCount then all else all[..RecentCount]
  }

  /** Over a newest-first listing, the record tab shows the newest records:
      none left out is newer than any shown, and it leaves out none when
      there are at most ten. */
  lemma RecentAreNewest(all: seq<Record>)
    requires NewestFirst(all)
    ensures var r := RecentRecords(all);
            forall i, j | 0 <= i < |r| <= j < |all| :: r[i].measuredAt >= all[j].measuredAt
    ensures |all| <= RecentCount ==> RecentRecords(all) == all
    ensures NewestFirst(RecentRecords(all))
  {
  }

  // ----- filtering by measurement time -----

  /** `t` lies at or after `from` (when given) and before `until` (when given). */
  predicate InWindow(t: Timestamp, from: Option<Timestamp>, until: Option<Timestamp>) {
    (from.None? || t >= from.value) && (until.None? || t < until.value)
  }

  /** `a` is `b` with some entries dropped and the rest kept in their order
      (matching each entry of `a` to the earliest entry of `b` it can take). */
  predicate Subsequence(a: seq<Record>, b: seq<Record>)
    decreases |b|
  {
    |a| <= |b| &&
    (|a| == 0 || if a[0] == b[0] then Subsequence(a[1..], b[1..]) else Subsequence(a, b[1..]))
  }

  /** The records measured inside the window, in their listed order. */
  function Window(rs: seq<Record>, from: Option<Timestamp>, until: Option<Timestamp>): (r: seq<Record>)
    ensures |r| <= |rs|
    ensures forall x :: x in r <==> x in rs && InWindow(x.measuredAt, from, until)
    decreases |rs|
  {
    if |rs| == 0 then []
    else
      var rest := Window(rs[1..], from, until);
      assert forall x | x in rs[1..] :: x in rs;
      if InWindow(rs[0].measuredAt, from, until) then [rs[0]] + rest else rest
  }

  /** The window keeps every record inside it as often as it is listed, and
      none outside it. */
  lemma {:induction false} WindowKeepsCounts(rs: seq<Record>, from: Option<Timestamp>, until: Option<Timestamp>)
    ensures var r := Window(rs, from, until);
            forall x :: multiset(r)[x] == if InWindow(x.measuredAt, from, until) then multiset(rs)[x] else 0
    decreases |rs|
  {
    if |rs| > 0 {
      WindowKeepsCounts(rs[1..], from, until);
      assert rs == [rs[0]] + rs[1..];
    }
  }

  /** The window only drops entries: the ones it keeps stay in their order. */
  lemma {:induction false} WindowKeepsOrder(rs: seq<Record>, from: Option<Timestamp>, until: Option<Timestamp>)
    ensures Subsequence(Window(rs, from, until), rs)
    decreases |rs|
  {
    if |rs| > 0 {
      var rest := Window(rs[1..], from, until);
      WindowKeepsOrder(rs[1..], from, until);
      if InWindow(rs[0].measuredAt, from, until) {
        assert ([rs[0]] + rest)[1..] == rest;
      } else if |rest| > 0 {
        assert rest[0] in rest;
      }
    }
  }

  /** Every record of `rs` is measured no later than `t`. */
  predicate NoneAfter(rs: seq<Record>, t: Timestamp) {
    forall i | 0 <= i < |rs| :: rs[i].measuredAt <= t
  }

  /** Every record of `rs` is measured no earlier than `t`. */
  predicate NoneBefore(rs: seq<Record>, t: Timestamp) {
    forall i | 0 <= i < |rs| :: rs[i].measuredAt >= t
  }

  /** Filtering keeps a bound every record meets. */
  lemma WindowKeepsBounds(rs: seq<Record>, from: Option<Timestamp>, until: Option<Timestamp>, t: Timestamp)
    ensures NoneAfter(rs, t) ==> NoneAfter(Window(rs, from, until), t)
    ensures NoneBefore(rs, t) ==> NoneBefore(Window(rs, from, until), t)
  {
    var r := Window(rs, from, until);
    forall i | 0 <= i < |r|
      ensures exists j | 0 <= j < |rs| :: rs[j] == r[i]
    {
      assert r[i] in rs;
    }
  }

  /** A record no older than all of a newest-first listing can head it. */
  lemma ConsKeepsNewestFirst(x: Record, rest: seq<Record>)
    requires NewestFirst(rest) && NoneAfter(rest, x.measuredAt)
    ensures NewestFirst([x] + rest)
  {
    var r := [x] + rest;
    forall i, j | 0 <= i < j < |r|
      ensures r[i].measuredAt >= r[j].measuredAt
    {
      assert r[j] == rest[j - 1];
      if i > 0 {
        assert r[i] == rest[i - 1];
      }
    }
  }

  /** A record no newer than all of an oldest-first listing can head it. */
  lemma ConsKeepsOldestFirst(x: Record, rest: seq<Record>)
    requires OldestFirst(rest) && NoneBefore(rest, x.measuredAt)
    ensures OldestFirst([x] + rest)
  {
    var r := [x] + rest;
    forall i, j | 0 <= i < j < |r|
      ensures r[i].measuredAt <= r[j].measuredAt
    {
      assert r[j] == rest[j - 1];
      if i > 0 {
        assert r[i] == rest[i - 1];
      }
    }
  }

  /** Filtering keeps a newest-first listing newest first. */
  lemma {:induction false} WindowKeepsNewestFirst(rs: seq<Record>, from: Option<Timestamp>, until: Option<Timestamp>)
    requires NewestFirst(rs)
    ensures NewestFirst(Window(rs, from, until))
    decreases |rs|
  {
    if |rs| > 0 {
      var tail := rs[1..];
      var rest := Window(tail, from, until);
      WindowKeepsNewestFirst(tail, from, until);
      assert NoneAfter(tail, rs[0].measuredAt);
      WindowKeepsBounds(tail, from, until, rs[0].measuredAt);
      if InWindow(rs[0].measuredAt, from, until) {
        assert Window(rs, from, until) == [rs[0]] + rest;
        ConsKeepsNewestFirst(rs[0], rest);
      } else {
        assert Window(rs, from, until) == rest;
      }
    }
  }

  /** Filtering keeps an oldest-first listing oldest first. */
  lemma {:induction false} WindowKeepsOldestFirst(rs: seq<Record>, from: Option<Timestamp>, until: Option<Timestamp>)
    requires OldestFirst(rs)
    ensures OldestFirst(Window(rs, from, until))
    decreases |rs|
  {
    if |rs| > 0 {
      var tail := rs[1..];
      var rest := Window(tail, from, until);
      WindowKeepsOldestFirst(tail, from, until);
      assert NoneBefore(tail, rs[0].measuredAt);
      WindowKeepsBounds(tail, from, until, rs[0].measuredAt);
      if InWindow(rs[0].measuredAt, from, until) {
        assert Window(rs, from, until) == [rs[0]] + rest;
        ConsKeepsOldestFirst(rs[0], rest);
      } else {
        assert Window(rs, from, until) == rest;
      }
    }
  }

  /** A window open at both ends keeps every record. */
  lemma {:induction false} OpenWindowKeepsAll(rs: seq<Record>)
    ensures Window(rs, None, None) == rs
    decreases |rs|
  {
    if |rs| > 0 {
      OpenWindowKeepsAll(rs[1..]);
      assert rs == [rs[0]] + rs[1..];
    }
  }

  // ----- the history tab -----

  /** `refreshHistory`: with a start day, only records measured at or after
      its start; with an end day, only records measured before the start of
      the following day, so the whole end day is included. The order is the
      store's. */
  function HistoryRecords(all: seq<Record>, from: Option<Timestamp>, to: Option<Timestamp>): (r: seq<Record>)
    ensures forall x :: x in r <==>
              && x in all
              && (from.Some? ==> x.measuredAt >= from.value)
              && (to.Some? ==> x.measuredAt < to.value + DayMs)
    ensures forall x :: multiset(r)[x] ==
              if (from.Some? ==> x.measuredAt >= from.value) && (to.Some? ==> x.measuredAt < to.value + DayMs)
              then multiset(all)[x] else 0
    ensures Subsequence(r, all)
  {
    WindowKeepsCounts(all, from, if to.Some? then Some(to.value + DayMs) else None);
    WindowKeepsOrder(all, from, if to.Some? then Some(to.value + DayMs) else None);
    Window(all, from, if to.Some? then Some(to.value + DayMs) else None)
  }

  /** The history tab keeps the store's newest-first order. */
  lemma HistoryKeepsOrder(all: seq<Record>, from: Option<Timestamp>, to: Option<Timestamp>)
    requires NewestFirst(all)
    ensures NewestFirst(HistoryRecords(all, from, to))
  {
    WindowKeepsNewestFirst(all, from, if to.Some? then Some(to.value + DayMs) else None);
  }

  /** With neither day chosen the history tab shows every record. */
  lemma HistoryUnfilteredIsAll(all: seq<Record>)
    ensures HistoryRecords(all, None, None) == all
  {
    OpenWindowKeepsAll(all);
  }

  /** A record measured during the end day itself is shown. */
  lemma HistoryIncludesEndDay(all: seq<Record>, to: Timestamp, x: Record)
    requires x in all && to <= x.measuredAt < to + DayMs
    ensures x in HistoryRecords(all, None, Some(to))
    ensures x !in HistoryRecords(all, None, Some(to - DayMs))
  {
  }

  // ----- the chart tab -----

  /** `[...records].reverse()`. */
  function Reverse(rs: seq<Record>): (r: seq<Record>)
    ensures |r| == |rs|
    ensures forall i | 0 <= i < |rs| :: r[i] == rs[|rs| - 1 - i]
    decreases |rs|
  {
    if |rs| == 0 then [] else Reverse(rs[1..]) + [rs[0]]
  }

  /** Reversing keeps exactly the records listed, each as often. */
  lemma {:induction false} ReverseKeepsRecords(rs: seq<Record>)
    ensures multiset(Reverse(rs)) == multiset(rs)
    ensures forall x :: x in Reverse(rs) <==> x in rs
    decreases |rs|
  {
    if |rs| > 0 {
      ReverseKeepsRecords(rs[1..]);
      assert rs == [rs[0]] + rs[1..];
    }
  }

  /** Reversing turns a newest-first listing into an oldest-first one, and
      reversing twice gives the listing back. */
  lemma ReverseFlipsOrder(rs: seq<Record>)
    ensures NewestFirst(rs) ==> OldestFirst(Reverse(rs))
    ensures Reverse(Reverse(rs)) == rs
  {
  }

  /** `refreshChart`: the records oldest first and, unless the period is
      "all", only those measured at or after the cutoff, the same time of day
      `period` days before `now`. */
  function ChartRecords(all: seq<Record>, period: Option<nat>, now: Timestamp): (r: seq<Record>)
    ensures forall x :: x in r <==>
              && x in all
              && (period.Some? ==> x.measuredAt >= now - period.value * DayMs)
    ensures forall x :: multiset(r)[x] ==
              if period.Some? ==> x.measuredAt >= now - period.value * DayMs then multiset(all)[x] else 0
    ensures Subsequence(r, Reverse(all))
  {
    ReverseKeepsRecords(all);
    WindowKeepsCounts(Reverse(all), if period.Some? then Some(now - period.value * DayMs) else None, None);
    WindowKeepsOrder(Reverse(all), if period.Some? then Some(now - period.value * DayMs) else None, None);
    Window(Reverse(all), if period.Some? then Some(now - period.value * DayMs) else None, None)
  }

  /** Over a newest-first listing the chart runs oldest first, and with the
      period "all" it shows every record. */
  lemma ChartRunsOldestFirst(all: seq<Record>, period: Option<nat>, now: Timestamp)
    requires NewestFirst(all)
    ensures OldestFirst(ChartRecords(all, period, now))
    ensures ChartRecords(all, None, now) == Reverse(all)
  {
    ReverseFlipsOrder(all);
    WindowKeepsOldestFirst(Reverse(all), if period.Some? then Some(now - period.value * DayMs) else None, None);
    OpenWindowKeepsAll(Reverse(all));
  }
}
