/**
 * The fixed habit schema of the tracker, one daily record of the session
 * history, and the achievement figures derived from a record.
 */
module Habits {

  /** The five habits, in the order of the HABITS table. */
  datatype Habit = Wake | Water | Study | Workout | Sleep

  const HabitOrder: seq<Habit> := [Wake, Water, Study, Workout, Sleep]
  const AllHabits: set<Habit> := {Wake, Water, Study, Workout, Sleep}

  /** `len(HABITS)` */
  const TotalHabits: nat := |HabitOrder|

  /** The mood given to a record the tracker creates itself. */
  const DefaultMood: int := 6

  /** Where a habit sits in the HABITS table. */
  function Position(h: Habit): (i: nat)
    ensures i < |HabitOrder| && HabitOrder[i] == h
  {
    match h
    case Wake => 0
    case Water => 1
    case Study => 2
    case Workout => 3
    case Sleep => 4
  }

  /**
   * One daily record: the day (a day number standing for the ISO date
   * string), the mood and one flag per habit key. The flags are a map so
   * that a record lacking a key can be represented, as a dict can.
   */
  datatype Entry = Entry(date: int, mood: int, checks: map<Habit, bool>)

  /** The record carries a flag for every habit key, and for nothing else. */
  predicate Complete(e: Entry) {
    e.checks.Keys == AllHabits
  }

  /** Truthiness of `entry.get(key)`: a missing key reads as unchecked. */
  predicate IsChecked(e: Entry, h: Habit) {
    h in e.checks && e.checks[h]
  }

  /** The habits a record marks as done. */
  function CheckedSet(e: Entry): set<Habit> {
    set h | h in AllHabits && IsChecked(e, h)
  }

  /** The record made for a day that has none yet: every habit unchecked, mood 6. */
  function Blank(d: int): (e: Entry)
    ensures Complete(e) && e.date == d && e.mood == DefaultMood
    ensures forall h :: !IsChecked(e, h)
  {
    Entry(d, DefaultMood, map h | h in AllHabits :: false)
  }

  /**
   * The record after the check-in widgets have written into it: every habit
   * key is set from its checkbox and the mood from the slider; the date stays.
   */
  function Tick(e: Entry, ticked: set<Habit>, mood: int): (r: Entry)
    ensures Complete(r) && r.date == e.date && r.mood == mood
    ensures forall h :: IsChecked(r, h) <==> h in ticked
    ensures CheckedSet(r) == ticked
  {
    var r := Entry(e.date, mood, map h | h in AllHabits :: h in ticked);
    assert forall h :: h in r.checks ==> h in AllHabits;
    assert forall h :: h in AllHabits by { forall h ensures h in AllHabits { Listed(h); } }
    r
  }

  /** The habit at position i of the table sits at position i. */
  lemma PositionOf(i: nat)
    requires i < |HabitOrder|
    ensures Position(HabitOrder[i]) == i
  {
  }

  /** Every value of the type is a habit of the table. */
  lemma Listed(h: Habit)
    ensures h in AllHabits && h in HabitOrder
  {
  }

  lemma AllHabitsIsEverything(hs: set<Habit>)
    ensures hs <= AllHabits && |hs| <= TotalHabits
  {
    forall h | h in hs ensures h in AllHabits { Listed(h); }
    assert |AllHabits| == 5 by {
      assert AllHabits == {Wake} + {Water} + {Study} + {Workout} + {Sleep};
    }
    SubsetCard(hs, AllHabits);
  }

  lemma SubsetCard<T>(a: set<T>, b: set<T>)
    requires a <= b
    ensures |a| <= |b|
    ensures |a| == |b| ==> a == b
  {
    assert b == a + (b - a);
    assert |b| == |a| + |b - a|;
    if |a| == |b| {
      assert b - a == {};
    }
  }

  /** The number of habits among `hs` that the record marks as done. */
  function CountIn(e: Entry, hs: seq<Habit>): (n: nat)
    ensures n <= |hs|
  {
    if hs == [] then 0
    else (if IsChecked(e, hs[0]) then 1 else 0) + CountIn(e, hs[1..])
  }

  /** Counting along a list of distinct habits counts the set of checked ones. */
  lemma {:induction false} CountInIsCardinality(e: Entry, hs: seq<Habit>)
    requires forall i, j :: 0 <= i < j < |hs| ==> hs[i] != hs[j]
    ensures CountIn(e, hs) == |set h | h in hs && IsChecked(e, h)|
  {
    if hs != [] {
      CountInIsCardinality(e, hs[1..]);
      var rest := set h | h in hs[1..] && IsChecked(e, h);
      var all := set h | h in hs && IsChecked(e, h);
      assert hs[0] !in hs[1..] by {
        assert forall j :: 0 <= j < |hs[1..]| ==> hs[1..][j] == hs[j + 1] != hs[0];
      }
      if IsChecked(e, hs[0]) {
        assert all == rest + {hs[0]};
      } else {
        assert all == rest;
      }
    }
  }

  /** `checked_count`: how many habit flags of the record are true. */
  function CheckedCount(e: Entry): (n: nat)
    ensures n == |CheckedSet(e)|
    ensures n <= TotalHabits
  {
    CountInIsCardinality(e, HabitOrder);
    assert (set h | h in HabitOrder && IsChecked(e, h)) == CheckedSet(e) by {
      forall h ensures h in HabitOrder <==> h in AllHabits { Listed(h); }
    }
    CountIn(e, HabitOrder)
  }

  /** All five done exactly when the count is five; none done exactly when it is zero. */
  lemma {:induction false} CheckedCountExtremes(e: Entry)
    ensures CheckedCount(e) == TotalHabits <==> forall h :: IsChecked(e, h)
    ensures CheckedCount(e) == 0 <==> forall h :: !IsChecked(e, h)
  {
    AllHabitsIsEverything(CheckedSet(e));
    assert |AllHabits| == 5 by {
      assert AllHabits == {Wake} + {Water} + {Study} + {Workout} + {Sleep};
    }
    if CheckedCount(e) == TotalHabits {
      SubsetCard(CheckedSet(e), AllHabits);
      forall h ensures IsChecked(e, h) {
        Listed(h);
      }
    }
    if forall h :: IsChecked(e, h) {
      forall h | h in AllHabits ensures h in CheckedSet(e) { }
      assert CheckedSet(e) == AllHabits;
    }
    if CheckedCount(e) == 0 {
      forall h ensures !IsChecked(e, h) {
        Listed(h);
        assert h !in CheckedSet(e);
      }
    }
    if forall h :: !IsChecked(e, h) {
      assert CheckedSet(e) == {};
    }
  }

  /**
   * Python's round() of n / d: the nearest integer, and on a tie the even
   * one. Computed exactly on integers.
   */
  function RoundHalfEven(n: nat, d: nat): (r: nat)
    requires d > 0
    ensures 2 * (r * d) <= 2 * n + d && 2 * n <= 2 * (r * d) + d
    ensures (2 * n == 2 * (r * d) + d || 2 * n + d == 2 * (r * d)) ==> r % 2 == 0
  {
    var qm := DivMod(n, d);
    var up := 2 * qm.1 > d || (2 * qm.1 == d && qm.0 % 2 == 1);
    NearestAt(n, d, qm.0, qm.1, up);
    if up then qm.0 + 1 else qm.0
  }

  /** Quotient and remainder of n by d. */
  function DivMod(n: nat, d: nat): (qm: (nat, nat))
    requires d > 0
    ensures qm.0 * d + qm.1 == n && qm.1 < d
  {
    (n / d, n % d)
  }

  /**
   * With n = q * d + m, rounding down (q) when 2m <= d or up (q + 1) when
   * 2m >= d lands within half of d, and on a tie exactly when 2m = d.
   */
  lemma NearestAt(n: nat, d: nat, q: nat, m: nat, up: bool)
    requires d > 0 && q * d + m == n && m < d
    requires up ==> 2 * m >= d
    requires !up ==> 2 * m <= d
    ensures var r := if up then q + 1 else q;
            && 2 * (r * d) <= 2 * n + d && 2 * n <= 2 * (r * d) + d
            && ((2 * n == 2 * (r * d) + d || 2 * n + d == 2 * (r * d)) <==> 2 * m == d)
  {
    assert (q + 1) * d == q * d + d;
  }

  /**
   * `achievement = round(checked_count / total * 100)`. Five divides a
   * hundred, so nothing is rounded: every habit is worth exactly 20 points.
   */
  function AchievementPct(count: nat): (p: nat)
    requires count <= TotalHabits
    ensures p == 20 * count && p <= 100
    ensures p * TotalHabits == count * 100
  {
    assert count * 100 == (20 * count) * 5;
    RoundHalfEven(count * 100, TotalHabits)
  }

  /** Today's figures: checked habits, total habits, percentage and mood. */
  datatype TodaySummary = TodaySummary(checked: nat, total: nat, pct: nat, mood: int)

  function Summarize(e: Entry): (s: TodaySummary)
    ensures s.checked == |CheckedSet(e)| && s.checked <= s.total == 5
    ensures s.pct == 20 * s.checked && s.pct <= 100
    ensures s.mood == e.mood
  {
    var n := CheckedCount(e);
    TodaySummary(n, TotalHabits, AchievementPct(n), e.mood)
  }

  /**
   * The bar chart's `achievement_pct` column: one bar per record of the
   * history, in history order, by the same formula as today's figure.
   */
  function ChartSeries(history: seq<Entry>): (bars: seq<nat>)
    ensures |bars| == |history|
    ensures forall i :: 0 <= i < |history| ==>
              bars[i] == 20 * |CheckedSet(history[i])| && bars[i] <= 100
    ensures forall i :: 0 <= i < |history| ==> bars[i] == Summarize(history[i]).pct
  {
    seq(|history|, i requires 0 <= i < |history| => AchievementPct(CheckedCount(history[i])))
  }
}
