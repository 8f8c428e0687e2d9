/** The bot's daily push statistics: a date, a total and a count per feed, reset when the
    day changes. The current day is a parameter. */
module Stats {

  /** The statistics as a value. */
  datatype Snapshot = Snapshot(date: string, total: int, byRss: map<string, int>)

  /** The sum of the per-feed counts. */
  ghost function Sum(m: map<string, int>): int
    decreases |m|
  {
    if m == map[] then 0
    else
      var k :| k in m;
      m[k] + Sum(m - {k})
  }

  /** Any key may be taken out first. */
  lemma {:induction false} SumRemove(m: map<string, int>, k: string)
    requires k in m
    ensures Sum(m) == m[k] + Sum(m - {k})
    decreases |m|
  {
    var j :| j in m && Sum(m) == m[j] + Sum(m - {j});
    if j != k {
      var mj := m - {j};
      var mk := m - {k};
      assert |mj| < |m|;
      SumRemove(mj, k);
      assert mj - {k} == mk - {j};
      assert |mk| < |m|;
      SumRemove(mk, j);
    }
  }

  /** Setting one key changes the sum by the difference at that key. */
  lemma SumUpdate(m: map<string, int>, k: string, v: int)
    ensures Sum(m[k := v]) == Sum(m) - (if k in m then m[k] else 0) + v
  {
    var m' := m[k := v];
    SumRemove(m', k);
    assert m' - {k} == m - {k};
    if k in m {
      SumRemove(m, k);
    } else {
      assert m - {k} == m;
    }
  }

  /** The counters agree: the total is the sum of the per-feed counts, all positive. */
  ghost predicate Consistent(s: Snapshot) {
    s.total == Sum(s.byRss) && forall k :: k in s.byRss ==> s.byRss[k] > 0
  }

  /** resetPushStatsIfNeeded on a value. */
  function Reset(s: Snapshot, today: string): Snapshot {
    if s.date != today then Snapshot(today, 0, map[]) else s
  }

  /** recordPush on a value: reset when the day changed, then count one push for the feed. */
  function Record(s: Snapshot, name: string, today: string): Snapshot {
    var t := Reset(s, today);
    var old_ := if name in t.byRss then t.byRss[name] else 0;
    Snapshot(t.date, t.total + 1, t.byRss[name := old_ + 1])
  }

  /** The statistics object the bot keeps in memory. */
  class PushStats {
    var date: string
    var totalPush: int
    var byRss: map<string, int>

    function Snap(): Snapshot
      reads this
    {
      Snapshot(date, totalPush, byRss)
    }

    ghost predicate Valid()
      reads this
    {
      Consistent(Snap())
    }

    /** The statistics at start-up: today's date and nothing pushed. */
    constructor (today: string)
      ensures Snap() == Snapshot(today, 0, map[])
      ensures Valid()
    {
      date := today;
      totalPush := 0;
      byRss := map[];
    }

    /** resetPushStatsIfNeeded */
    method ResetIfNeeded(today: string)
      requires Valid()
      modifies this
      ensures Snap() == Reset(old(Snap()), today)
      ensures Valid()
    {
      if date != today {
        date := today;
        totalPush := 0;
        byRss := map[];
      }
    }

    /** recordPush */
    method RecordPush(name: string, today: string)
      requires Valid()
      modifies this
      ensures Snap() == Record(old(Snap()), name, today)
      ensures Valid()
    {
      ghost var before := Snap();
      if date != today {
        date := today;
        totalPush := 0;
        byRss := map[];
      }
      var count := if name in byRss then byRss[name] else 0;
      totalPush := totalPush + 1;
      byRss := byRss[name := count + 1];
      RecordConsistent(before, name, today);
    }
  }

  // ---------------------------------------------------------------- properties

  /** The start-up value is consistent. */
  lemma InitialConsistent(today: string)
    ensures Consistent(Snapshot(today, 0, map[]))
  {
  }

  /** A reset keeps the counters consistent. */
  lemma ResetConsistent(s: Snapshot, today: string)
    requires Consistent(s)
    ensures Consistent(Reset(s, today))
  {
  }

  /** Recording keeps the total equal to the sum of the per-feed counts. */
  lemma RecordConsistent(s: Snapshot, name: string, today: string)
    requires Consistent(s)
    ensures Consistent(Record(s, name, today))
  {
    var t := Reset(s, today);
    SumUpdate(t.byRss, name, (if name in t.byRss then t.byRss[name] else 0) + 1);
  }

  /** A second reset on the same day changes nothing. */
  lemma ResetIdempotent(s: Snapshot, today: string)
    ensures Reset(Reset(s, today), today) == Reset(s, today)
  {
  }

  /** On a new day a push starts the day over with that one push. */
  lemma RecordOnNewDay(s: Snapshot, name: string, today: string)
    requires s.date != today
    ensures Record(s, name, today) == Snapshot(today, 1, map[name := 1])
  {
  }

  /** On the same day a push adds one to the total and to its feed and nothing else. */
  lemma RecordSameDay(s: Snapshot, name: string, today: string)
    requires s.date == today
    ensures var r := Record(s, name, today);
      && r.date == today
      && r.total == s.total + 1
      && name in r.byRss
      && r.byRss[name] == (if name in s.byRss then s.byRss[name] else 0) + 1
      && (forall k :: k != name ==> (k in r.byRss <==> k in s.byRss))
      && (forall k :: k != name && k in s.byRss ==> r.byRss[k] == s.byRss[k])
  {
  }
}
