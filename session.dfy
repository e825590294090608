/**
 * The session state of the tracker page: its `history` list and the three
 * functions of app.py that change it in place, plus one render cycle of the
 * check-in column. The day is a parameter wherever the page asks the clock.
 */
module App {
  import opened Optional
  import opened Habits
  import opened Ledger

  /**
   * `_init_demo_history`: one record per demo day, counting down from six
   * days ago, each built by zipping the habit keys with the pattern row;
   * then today's blank record.
   */
  method InitDemoHistory(today: int) returns (demo: seq<Entry>)
    ensures demo == DemoHistory(today)
  {
    PatternsShape();
    demo := [];
    var i := 6;
    while i > 0
      invariant 0 <= i <= 6
      invariant demo == DemoRows(today, 6 - i)
    {
      var d := today - i;
      var p := Patterns[6 - i];
      var checks := ZipFlags(p.bits);
      DemoRowsStep(today, 6 - i, checks);
      assert d == today - 6 + (6 - i);
      demo := demo + [Entry(d, p.mood, checks)];
      i := i - 1;
    }
    demo := demo + [Blank(today)];
  }

  /**
   * The comprehension over `zip(HABITS, checks)`: each habit key, in table
   * order, gets `bool` of its pattern flag; zip stops at the shorter side.
   */
  method ZipFlags(bits: seq<int>) returns (checks: map<Habit, bool>)
    ensures checks == ZipChecks(bits, Min(|bits|, TotalHabits))
  {
    checks := map[];
    ZipChecksEmpty(bits);
    var j := 0;
    while j < |HabitOrder| && j < |bits|
      invariant 0 <= j <= |HabitOrder| && j <= |bits|
      invariant checks == ZipChecks(bits, j)
    {
      ZipChecksStep(bits, j);
      checks := checks[HabitOrder[j] := bits[j] != 0];
      j := j + 1;
    }
  }

  class SessionState {
    /** `st.session_state.history`, oldest record first. */
    var history: seq<Entry>

    /** What the page keeps true of the history between render cycles. */
    ghost predicate Valid()
      reads this
    {
      |history| <= Window && DistinctDates(history) && AllComplete(history)
    }

    /** First visit of the session: the history is the demo seed. */
    constructor (today: int)
      ensures Valid() && history == DemoHistory(today)
      ensures Ascending(history) && NotAfter(history, today)
    {
      var demo := InitDemoHistory(today);
      history := demo;
      DemoHistoryShape(today);
    }

    /**
     * `_get_today_entry`: scan for a record dated today; if none, append a
     * blank one and keep the last seven records.
     */
    method GetTodayEntry(today: int) returns (e: Entry)
      modifies this
      ensures FindOrCreate(old(history), today) == Lookup(history, e)
      ensures old(Valid()) ==> Valid()
    {
      var i := 0;
      while i < |history|
        invariant 0 <= i <= |history| && history == old(history)
        invariant forall k :: 0 <= k < i ==> history[k].date != today
      {
        if history[i].date == today {
          FindOrCreateAt(history, today, i);
          e := history[i];
          return;
        }
        i := i + 1;
      }
      FindOrCreateNone(history, today);
      e := Blank(today);
      history := history + [e];
      history := KeepLast(history, Window);
      if old(Valid()) {
        FindOrCreateKeepsDistinct(old(history), today);
        FindOrCreateKeepsComplete(old(history), today);
      }
    }

    /**
     * `_save_today(entry)`: overwrite the first record dated today, or
     * append the entry when there is none; then keep the last seven records.
     */
    method SaveToday(today: int, entry: Entry)
      modifies this
      ensures history == Upsert(old(history), today, entry)
      ensures old(Valid()) && entry.date == today && Complete(entry) ==> Valid()
    {
      var replaced := false;
      var i := 0;
      while i < |history|
        invariant 0 <= i <= |history| && history == old(history)
        invariant forall k :: 0 <= k < i ==> history[k].date != today
      {
        if history[i].date == today {
          UpsertAt(history, today, entry, i);
          history := history[i := entry];
          replaced := true;
          break;
        }
        i := i + 1;
      }
      if !replaced {
        UpsertNone(history, today, entry);
        history := history + [entry];
      }
      history := KeepLast(history, Window);
      if old(Valid()) && entry.date == today && Complete(entry) {
        UpsertKeepsDistinct(old(history), today, entry);
        UpsertKeepsComplete(old(history), today, entry);
      }
    }

    /**
     * One render of the check-in column: fetch today's record, write the
     * ticked habits and the mood into it, save it, and compute today's
     * figures. `ticked` is the set of habits whose checkbox is on.
     */
    method CheckIn(today: int, ticked: set<Habit>, mood: int) returns (s: TodaySummary)
      modifies this
      ensures var l := FindOrCreate(old(history), today);
              history == Upsert(l.history, today, Tick(l.entry, ticked, mood))
      ensures s.checked == |ticked| && s.total == TotalHabits
      ensures s.pct == 20 * |ticked| && s.mood == mood
      ensures old(Valid()) ==> Valid()
      ensures old(Valid()) ==>
                && FirstWithDate(history, today).Some?
                && ChartSeries(history)[FirstWithDate(history, today).value] == s.pct
      ensures old(Ascending(history) && NotAfter(history, today)) ==>
                && Ascending(history) && NotAfter(history, today) && |history| > 0
                && history[|history| - 1].date == today
                && ChartSeries(history)[|history| - 1] == s.pct
    {
      ghost var h0 := history;
      var e := GetTodayEntry(today);
      ghost var h1 := history;
      var updated := Tick(e, ticked, mood);
      SaveToday(today, updated);
      s := Summarize(updated);
      if old(Valid()) {
        UpsertFinds(h1, today, updated);
      }
      if old(Ascending(history) && NotAfter(history, today)) {
        FindOrCreateNewest(h0, today);
        UpsertNewest(h1, today, updated);
      }
    }
  }

  /** A client of the session: first visit, then one check-in on the same day. */
  method FirstVisit(today: int) returns (s: TodaySummary)
    ensures s == TodaySummary(3, 5, 60, 8)
  {
    var session := new SessionState(today);
    s := session.CheckIn(today, {Wake, Water, Sleep}, 8);
    SeededCheckIn(today);
    assert |{Wake, Water, Sleep}| == 3;
    assert ChartSeries(session.history) == [60, 60, 60, 60, 80, 60, 60];
  }
}
