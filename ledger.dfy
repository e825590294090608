/**
 * The session history as a value: the demo seed, the lookup that creates
 * today's record when it is missing, and the save that replaces or appends
 * today's record, both keeping only the last seven records. These functions
 * specify the methods of App.SessionState; the lemmas state what the
 * history guarantees.
 */
module Ledger {
  import opened Optional
  import opened Habits

  /** How many records the history keeps (`history[-7:]`). */
  const Window: nat := 7

  function Min(a: int, b: int): int {
    if a <= b then a else b
  }

  /** Python's `s[-n:]` for n > 0: the last n elements, or all of s when shorter. */
  function KeepLast<T>(s: seq<T>, n: nat): (r: seq<T>)
    requires n > 0
    ensures |r| == Min(|s|, n)
    ensures r == s[|s| - |r|..]
  {
    if |s| <= n then s else s[|s| - n..]
  }

  /** No two records of the history share a date. */
  predicate DistinctDates(h: seq<Entry>) {
    forall i, j :: 0 <= i < j < |h| ==> h[i].date != h[j].date
  }

  /** The records are in strictly increasing date order. */
  predicate Ascending(h: seq<Entry>) {
    forall i, j :: 0 <= i < j < |h| ==> h[i].date < h[j].date
  }

  /** Every record carries a flag for every habit. */
  predicate AllComplete(h: seq<Entry>) {
    forall e :: e in h ==> Complete(e)
  }

  /** No record is dated after `today`. */
  predicate NotAfter(h: seq<Entry>, today: int) {
    forall i :: 0 <= i < |h| ==> h[i].date <= today
  }

  /** The first position whose record has the given date, as the scan from the front finds it. */
  function FirstWithDate(h: seq<Entry>, d: int): (r: Option<nat>)
    ensures r.Some? ==> r.value < |h| && h[r.value].date == d
    ensures r.Some? ==> forall k :: 0 <= k < r.value ==> h[k].date != d
    ensures r.None? <==> forall k :: 0 <= k < |h| ==> h[k].date != d
  {
    if h == [] then None
    else if h[0].date == d then Some(0)
    else match FirstWithDate(h[1..], d)
         case None => None
         case Some(i) => Some(i + 1)
  }

  /** Any position holding the date, with none before it, is the one the scan finds. */
  lemma FirstWithDateAt(h: seq<Entry>, d: int, i: nat)
    requires i < |h| && h[i].date == d
    requires forall k :: 0 <= k < i ==> h[k].date != d
    ensures FirstWithDate(h, d) == Some(i)
  {
  }

  /** What `_get_today_entry` leaves in the history, and the record it hands back. */
  datatype Lookup = Lookup(history: seq<Entry>, entry: Entry)

  /**
   * `_get_today_entry`: the first record dated today, history untouched;
   * otherwise a blank record for today, appended, and the history cut to
   * its last seven records.
   */
  function FindOrCreate(h: seq<Entry>, today: int): (r: Lookup)
    ensures r.entry.date == today
  {
    match FirstWithDate(h, today)
    case Some(i) => Lookup(h, h[i])
    case None => Lookup(KeepLast(h + [Blank(today)], Window), Blank(today))
  }

  /**
   * What the lookup promises: a record dated today comes back unchanged with
   * the history untouched; otherwise the history gains a blank record for
   * today at the end and loses its oldest records beyond seven.
   */
  lemma FindOrCreateSpec(h: seq<Entry>, today: int)
    ensures var r := FindOrCreate(h, today);
            FirstWithDate(h, today).Some? ==>
              r.history == h && r.entry == h[FirstWithDate(h, today).value]
    ensures var r := FindOrCreate(h, today);
            FirstWithDate(h, today).None? ==>
              && r.entry == Blank(today)
              && |r.history| == Min(|h| + 1, Window)
              && r.history[|r.history| - 1] == r.entry
              && r.history[..|r.history| - 1] == h[|h| + 1 - |r.history|..]
  {
    if FirstWithDate(h, today).None? {
      var r := KeepLast(h + [Blank(today)], Window);
      assert r[..|r| - 1] == h[|h| + 1 - |r|..];
    }
  }

  /**
   * `_save_today(entry)`: the first record dated today is replaced in place,
   * or, when there is none, the entry is appended; then the history is cut
   * to its last seven records.
   */
  function Upsert(h: seq<Entry>, today: int, e: Entry): (r: seq<Entry>)
    ensures 0 < |r| <= Window
  {
    match FirstWithDate(h, today)
    case Some(i) => KeepLast(h[i := e], Window)
    case None => KeepLast(h + [e], Window)
  }

  /**
   * What the save promises: within the window, the first record dated today
   * is replaced and every other record stays where it was; with no record
   * dated today the entry becomes the newest record and only the oldest
   * records beyond seven drop out.
   */
  lemma UpsertSpec(h: seq<Entry>, today: int, e: Entry)
    ensures var r := Upsert(h, today, e);
            FirstWithDate(h, today).Some? && |h| <= Window ==>
              var i := FirstWithDate(h, today).value;
              && |r| == |h| && r[i] == e
              && forall k :: 0 <= k < |h| && k != i ==> r[k] == h[k]
    ensures var r := Upsert(h, today, e);
            FirstWithDate(h, today).None? ==>
              && |r| == Min(|h| + 1, Window)
              && r[|r| - 1] == e
              && r[..|r| - 1] == h[|h| + 1 - |r|..]
  {
    if FirstWithDate(h, today).None? {
      var r := KeepLast(h + [e], Window);
      assert r[..|r| - 1] == h[|h| + 1 - |r|..];
    }
  }

  /** The save when the scan stops at position i: that record is overwritten. */
  lemma UpsertAt(h: seq<Entry>, today: int, e: Entry, i: nat)
    requires i < |h| && h[i].date == today
    requires forall k :: 0 <= k < i ==> h[k].date != today
    ensures Upsert(h, today, e) == KeepLast(h[i := e], Window)
  {
    FirstWithDateAt(h, today, i);
  }

  /** The save when no record is dated today: the entry is appended. */
  lemma UpsertNone(h: seq<Entry>, today: int, e: Entry)
    requires forall k :: 0 <= k < |h| ==> h[k].date != today
    ensures Upsert(h, today, e) == KeepLast(h + [e], Window)
  {
  }

  /** The lookup when the scan stops at position i: that record, history untouched. */
  lemma FindOrCreateAt(h: seq<Entry>, today: int, i: nat)
    requires i < |h| && h[i].date == today
    requires forall k :: 0 <= k < i ==> h[k].date != today
    ensures FindOrCreate(h, today) == Lookup(h, h[i])
  {
    FirstWithDateAt(h, today, i);
  }

  /** The lookup when no record is dated today: a blank record is appended. */
  lemma FindOrCreateNone(h: seq<Entry>, today: int)
    requires forall k :: 0 <= k < |h| ==> h[k].date != today
    ensures FindOrCreate(h, today) == Lookup(KeepLast(h + [Blank(today)], Window), Blank(today))
  {
  }

  /** Every record the save leaves is one of the old records or the saved one. */
  lemma UpsertKeepsComplete(h: seq<Entry>, today: int, e: Entry)
    requires AllComplete(h) && Complete(e)
    ensures AllComplete(Upsert(h, today, e))
  {
    var s := match FirstWithDate(h, today) case Some(i) => h[i := e] case None => h + [e];
    assert forall x :: x in s ==> x == e || x in h;
    assert Upsert(h, today, e) == s[|s| - |Upsert(h, today, e)|..];
  }

  /** Every record the lookup leaves is one of the old records or today's blank one. */
  lemma FindOrCreateKeepsComplete(h: seq<Entry>, today: int)
    requires AllComplete(h)
    ensures AllComplete(FindOrCreate(h, today).history)
  {
    var s := h + [Blank(today)];
    assert forall x :: x in s ==> x == Blank(today) || x in h;
  }

  /** Cutting to the last n elements keeps distinct dates distinct. */
  lemma KeepLastDistinct(s: seq<Entry>, n: nat)
    requires n > 0 && DistinctDates(s)
    ensures DistinctDates(KeepLast(s, n))
  {
    var r := KeepLast(s, n);
    forall i, j | 0 <= i < j < |r| ensures r[i].date != r[j].date {
      assert r[i] == s[|s| - |r| + i] && r[j] == s[|s| - |r| + j];
    }
  }

  /** Cutting to the last n elements keeps ascending order. */
  lemma KeepLastAscending(s: seq<Entry>, n: nat)
    requires n > 0 && Ascending(s)
    ensures Ascending(KeepLast(s, n))
  {
    var r := KeepLast(s, n);
    forall i, j | 0 <= i < j < |r| ensures r[i].date < r[j].date {
      assert r[i] == s[|s| - |r| + i] && r[j] == s[|s| - |r| + j];
    }
  }

  /** Looking up today's record never creates a second record for a date. */
  lemma {:induction false} FindOrCreateKeepsDistinct(h: seq<Entry>, today: int)
    requires DistinctDates(h)
    ensures DistinctDates(FindOrCreate(h, today).history)
    ensures |h| <= Window ==> |FindOrCreate(h, today).history| <= Window
  {
    if FirstWithDate(h, today).None? {
      var s := h + [Blank(today)];
      assert DistinctDates(s) by {
        forall i, j | 0 <= i < j < |s| ensures s[i].date != s[j].date {
          if j == |h| { assert s[i] == h[i]; } else { assert s[i] == h[i] && s[j] == h[j]; }
        }
      }
      KeepLastDistinct(s, Window);
    }
  }

  /** Saving today's record never creates a second record for a date. */
  lemma {:induction false} UpsertKeepsDistinct(h: seq<Entry>, today: int, e: Entry)
    requires DistinctDates(h) && e.date == today
    ensures DistinctDates(Upsert(h, today, e))
  {
    match FirstWithDate(h, today)
    case Some(i) =>
      var s := h[i := e];
      assert DistinctDates(s) by {
        forall a, b | 0 <= a < b < |s| ensures s[a].date != s[b].date {
          assert s[a].date == h[a].date && s[b].date == h[b].date;
        }
      }
      KeepLastDistinct(s, Window);
    case None =>
      var s := h + [e];
      assert DistinctDates(s) by {
        forall a, b | 0 <= a < b < |s| ensures s[a].date != s[b].date {
          if b == |h| { assert s[a] == h[a]; } else { assert s[a] == h[a] && s[b] == h[b]; }
        }
      }
      KeepLastDistinct(s, Window);
  }

  /**
   * Saving the same record for today twice leaves the history as saving it
   * once, for any history within the window.
   */
  lemma {:induction false} UpsertIdempotent(h: seq<Entry>, today: int, e: Entry)
    requires |h| <= Window && e.date == today
    ensures Upsert(Upsert(h, today, e), today, e) == Upsert(h, today, e)
  {
    var r := Upsert(h, today, e);
    UpsertFinds(h, today, e);
    var j := FirstWithDate(r, today).value;
    UpsertAt(r, today, e, j);
    assert r[j := e] == r;
    assert KeepLast(r, Window) == r[0..] == r;
  }

  /**
   * Looking up today's record a second time finds the record the first
   * lookup returned or created, and changes nothing more.
   */
  lemma {:induction false} FindOrCreateIdempotent(h: seq<Entry>, today: int)
    ensures var l := FindOrCreate(h, today);
            FindOrCreate(l.history, today) == l
  {
    FindOrCreateSpec(h, today);
    var l := FindOrCreate(h, today);
    match FirstWithDate(h, today)
    case Some(i) =>
      FindOrCreateAt(h, today, i);
    case None =>
      var r := l.history;
      var last := |r| - 1;
      forall k | 0 <= k < last ensures r[k].date != today {
        assert r[k] == r[..last][k] == h[|h| + 1 - |r| + k];
      }
      FindOrCreateAt(r, today, last);
  }

  /**
   * After a save within the window, the scan for today finds the saved
   * record: in the slot it replaced, or last when it was appended.
   */
  lemma {:induction false} UpsertFinds(h: seq<Entry>, today: int, e: Entry)
    requires |h| <= Window && e.date == today
    ensures var r := Upsert(h, today, e);
            && FirstWithDate(r, today).Some?
            && r[FirstWithDate(r, today).value] == e
            && (FirstWithDate(h, today).Some? ==> FirstWithDate(r, today) == FirstWithDate(h, today))
            && (FirstWithDate(h, today).None? ==> FirstWithDate(r, today) == Some(|r| - 1))
  {
    UpsertSpec(h, today, e);
    var r := Upsert(h, today, e);
    match FirstWithDate(h, today)
    case Some(i) =>
      FirstWithDateAt(r, today, i);
    case None =>
      var last := |r| - 1;
      forall k | 0 <= k < last ensures r[k].date != today {
        assert r[k] == r[..last][k] == h[|h| + 1 - |r| + k];
      }
      FirstWithDateAt(r, today, last);
  }

  /**
   * With a clock that does not go backwards (no record after today) and
   * records in date order, the lookup keeps the order and today's record
   * is the newest one.
   */
  lemma {:induction false} FindOrCreateNewest(h: seq<Entry>, today: int)
    requires Ascending(h) && NotAfter(h, today)
    ensures var r := FindOrCreate(h, today).history;
            Ascending(r) && NotAfter(r, today) && |r| > 0 && r[|r| - 1] == FindOrCreate(h, today).entry
  {
    match FirstWithDate(h, today)
    case Some(i) =>
      assert i == |h| - 1 by {
        assert h[|h| - 1].date <= today == h[i].date;
      }
    case None =>
      var s := h + [Blank(today)];
      assert Ascending(s) by {
        forall a, b | 0 <= a < b < |s| ensures s[a].date < s[b].date {
          if b == |h| { assert s[a] == h[a]; } else { assert s[a] == h[a] && s[b] == h[b]; }
        }
      }
      KeepLastNewest(s, today);
  }

  /**
   * With a clock that does not go backwards and records in date order,
   * saving today's record keeps the order and leaves that record last.
   */
  lemma {:induction false} UpsertNewest(h: seq<Entry>, today: int, e: Entry)
    requires Ascending(h) && NotAfter(h, today) && e.date == today
    ensures var r := Upsert(h, today, e);
            Ascending(r) && NotAfter(r, today) && |r| > 0 && r[|r| - 1] == e
  {
    match FirstWithDate(h, today)
    case Some(i) =>
      assert i == |h| - 1 by {
        assert h[|h| - 1].date <= today == h[i].date;
      }
      var s := h[i := e];
      assert forall k :: 0 <= k < |s| ==> s[k].date == h[k].date;
      KeepLastNewest(s, today);
    case None =>
      var s := h + [e];
      assert Ascending(s) by {
        forall a, b | 0 <= a < b < |s| ensures s[a].date < s[b].date {
          if b == |h| { assert s[a] == h[a]; } else { assert s[a] == h[a] && s[b] == h[b]; }
        }
      }
      KeepLastNewest(s, today);
  }

  /** Cutting to the window keeps order, the clock bound and the newest record. */
  lemma KeepLastNewest(s: seq<Entry>, today: int)
    requires Ascending(s) && NotAfter(s, today) && |s| > 0
    ensures var r := KeepLast(s, Window);
            Ascending(r) && NotAfter(r, today) && |r| > 0 && r[|r| - 1] == s[|s| - 1]
  {
    KeepLastAscending(s, Window);
  }

  /** Saving a list of records one after the other, each under its own date. */
  function SaveDays(h: seq<Entry>, es: seq<Entry>): (r: seq<Entry>)
    ensures |h| <= Window || es != [] ==> |r| <= Window
    decreases |es|
  {
    if es == [] then h else SaveDays(Upsert(h, es[0].date, es[0]), es[1..])
  }

  /** Cutting twice to the last n elements is cutting once. */
  lemma KeepLastAbsorbs<T>(s: seq<T>, t: seq<T>, n: nat)
    requires n > 0
    ensures KeepLast(KeepLast(s, n) + t, n) == KeepLast(s + t, n)
  {
    var ks := KeepLast(s, n);
    var u := ks + t;
    assert u == (s + t)[|s| - |ks|..];
    var a := KeepLast(u, n);
    assert a == (s + t)[|s| - |ks| + |u| - |a|..];
  }

  /**
   * Saving records for days the history has never seen: the history is the
   * last seven of all the records, in the order they were saved.
   */
  lemma {:induction false} SaveFreshDays(h: seq<Entry>, es: seq<Entry>)
    requires |h| <= Window && DistinctDates(h + es)
    ensures SaveDays(h, es) == KeepLast(h + es, Window)
    decreases |es|
  {
    if es == [] {
      assert h + es == h;
    } else {
      var e := es[0];
      var rest := es[1..];
      assert h + es == (h + [e]) + rest;
      FreshSave(h, rest, e);
      var h' := KeepLast(h + [e], Window);
      DistinctSuffix(h + es, |h| + 1 - |h'|);
      assert h' + rest == (h + es)[|h| + 1 - |h'|..];
      SaveFreshDays(h', rest);
      KeepLastAbsorbs(h + [e], rest, Window);
    }
  }

  /** Saving a record whose date the history lacks appends it and cuts to the window. */
  lemma FreshSave(h: seq<Entry>, rest: seq<Entry>, e: Entry)
    requires DistinctDates(h + [e] + rest)
    ensures Upsert(h, e.date, e) == KeepLast(h + [e], Window)
  {
    assert FirstWithDate(h, e.date).None? by {
      forall k | 0 <= k < |h| ensures h[k].date != e.date {
        assert (h + [e] + rest)[k] == h[k] && (h + [e] + rest)[|h|] == e;
      }
    }
  }

  /** A suffix of a history with distinct dates has distinct dates. */
  lemma DistinctSuffix(s: seq<Entry>, off: nat)
    requires off <= |s| && DistinctDates(s)
    ensures DistinctDates(s[off..])
  {
    var u := s[off..];
    forall i, j | 0 <= i < j < |u| ensures u[i].date != u[j].date {
      assert u[i] == s[off + i] && u[j] == s[off + j];
    }
  }

  /** One row of the demo pattern table: the five habit flags as 0/1, and a mood. */
  datatype Pattern = Pattern(bits: seq<int>, mood: int)

  /** The fixed demo table, oldest day first. */
  const Patterns: seq<Pattern> := [
    Pattern([1, 1, 0, 0, 1], 6),
    Pattern([1, 0, 1, 0, 1], 7),
    Pattern([1, 1, 1, 0, 0], 5),
    Pattern([0, 1, 1, 1, 0], 8),
    Pattern([1, 1, 1, 1, 0], 9),
    Pattern([0, 0, 1, 1, 1], 7)
  ]

  /** Every pattern row has one flag per habit. */
  lemma PatternsShape()
    ensures forall k :: 0 <= k < |Patterns| ==> |Patterns[k].bits| == TotalHabits
  {
  }

  /** The flags `zip(HABITS, checks)` writes for the first n pairs: `bool(c)` per habit. */
  function ZipChecks(bits: seq<int>, n: nat): (m: map<Habit, bool>)
    requires n <= |bits| && n <= TotalHabits
    ensures forall h :: h in m <==> Position(h) < n
    ensures forall h :: h in m ==> m[h] == (bits[Position(h)] != 0)
  {
    map h | h in AllHabits && Position(h) < n :: bits[Position(h)] != 0
  }

  /** Before the zip, no habit key is set. */
  lemma ZipChecksEmpty(bits: seq<int>)
    ensures ZipChecks(bits, 0) == map[]
  {
  }

  /** One more pair of the zip sets one more habit key. */
  lemma ZipChecksStep(bits: seq<int>, n: nat)
    requires n < |bits| && n < TotalHabits
    ensures ZipChecks(bits, n + 1) == ZipChecks(bits, n)[HabitOrder[n] := bits[n] != 0]
  {
    var a := ZipChecks(bits, n + 1);
    var b := ZipChecks(bits, n)[HabitOrder[n] := bits[n] != 0];
    forall h ensures (h in a <==> h in b) && (h in a ==> a[h] == b[h]) {
      assert Position(HabitOrder[n]) == n by { Listed(HabitOrder[n]); }
      if h == HabitOrder[n] { } else { assert Position(h) != n; }
    }
    assert a.Keys == b.Keys;
  }

  /** The demo record for day d built from pattern row k. */
  function PatternEntry(d: int, k: nat): (e: Entry)
    requires k < |Patterns|
    ensures e.date == d && Complete(e)
  {
    PatternsShape();
    var e := Entry(d, Patterns[k].mood, ZipChecks(Patterns[k].bits, TotalHabits));
    assert e.checks.Keys == AllHabits by {
      forall h ensures h in e.checks <==> h in AllHabits { Listed(h); }
    }
    e
  }

  /** The demo record of row k has the row's mood, and a habit is done exactly when its flag is nonzero. */
  lemma PatternEntryFlags(d: int, k: nat)
    requires k < |Patterns|
    ensures PatternEntry(d, k).mood == Patterns[k].mood
    ensures forall h :: IsChecked(PatternEntry(d, k), h) <==> Patterns[k].bits[Position(h)] != 0
  {
    PatternsShape();
  }

  /** The first n demo rows: pattern k dated today - 6 + k. */
  function DemoRows(today: int, n: nat): (r: seq<Entry>)
    requires n <= |Patterns|
    ensures |r| == n && forall k :: 0 <= k < n ==> r[k] == PatternEntry(today - 6 + k, k)
  {
    seq(n, k requires 0 <= k < n => PatternEntry(today - 6 + k, k))
  }

  lemma DemoRowsStep(today: int, n: nat, checks: map<Habit, bool>)
    requires n < |Patterns| && |Patterns[n].bits| == TotalHabits
    requires checks == ZipChecks(Patterns[n].bits, TotalHabits)
    ensures DemoRows(today, n + 1) == DemoRows(today, n) + [Entry(today - 6 + n, Patterns[n].mood, checks)]
  {
    assert Entry(today - 6 + n, Patterns[n].mood, checks) == PatternEntry(today - 6 + n, n);
  }

  /**
   * `_init_demo_history`: seven records dated today-6 ... today, the six
   * past ones from the pattern table in order, today's blank.
   */
  function DemoHistory(today: int): (r: seq<Entry>)
    ensures |r| == Window
    ensures forall k :: 0 <= k < 6 ==> r[k] == PatternEntry(today - 6 + k, k)
    ensures r[6] == Blank(today)
  {
    DemoRows(today, 6) + [Blank(today)]
  }

  /**
   * The demo seed is a valid history: one complete record per day from
   * today-6 to today, in date order, none after today, with the moods of
   * the pattern table.
   */
  lemma DemoHistoryShape(today: int)
    ensures var r := DemoHistory(today);
            && (forall k :: 0 <= k < |r| ==> r[k].date == today - 6 + k && Complete(r[k]))
            && AllComplete(r)
            && (forall k :: 0 <= k < 6 ==> r[k].mood == Patterns[k].mood)
            && Ascending(r) && DistinctDates(r) && NotAfter(r, today)
  {
    var r := DemoHistory(today);
    forall k | 0 <= k < 6 ensures r[k].mood == Patterns[k].mood {
      PatternEntryFlags(today - 6 + k, k);
    }
    assert forall k :: 0 <= k < |r| ==> r[k].date == today - 6 + k;
  }

  /** How many flags of a pattern row are set. */
  function NonZero(bits: seq<int>): nat {
    if bits == [] then 0 else (if bits[0] != 0 then 1 else 0) + NonZero(bits[1..])
  }

  /** A record whose flags follow a pattern row counts the row's set flags. */
  lemma {:induction false} CountMatchesBits(e: Entry, bits: seq<int>, i: nat)
    requires |bits| == TotalHabits && i <= TotalHabits
    requires forall h :: IsChecked(e, h) <==> bits[Position(h)] != 0
    ensures CountIn(e, HabitOrder[i..]) == NonZero(bits[i..])
    decreases TotalHabits - i
  {
    if i < TotalHabits {
      CountMatchesBits(e, bits, i + 1);
      var h := HabitOrder[i];
      PositionOf(i);
      assert HabitOrder[i..][0] == h && HabitOrder[i..][1..] == HabitOrder[i + 1..];
      assert bits[i..][0] == bits[i] && bits[i..][1..] == bits[i + 1..];
    }
  }

  /** The set flags of each demo pattern row. */
  lemma PatternCounts()
    ensures NonZero(Patterns[0].bits) == 3 && NonZero(Patterns[1].bits) == 3
    ensures NonZero(Patterns[2].bits) == 3 && NonZero(Patterns[3].bits) == 3
    ensures NonZero(Patterns[4].bits) == 4 && NonZero(Patterns[5].bits) == 3
  {
  }

  /** A demo record checks as many habits as its pattern row sets. */
  lemma PatternChecked(d: int, k: nat, e: Entry)
    requires k < |Patterns| && e == PatternEntry(d, k)
    ensures |CheckedSet(e)| == NonZero(Patterns[k].bits)
  {
    PatternsShape();
    PatternEntryFlags(d, k);
    CountMatchesBits(e, Patterns[k].bits, 0);
    assert HabitOrder[0..] == HabitOrder && Patterns[k].bits[0..] == Patterns[k].bits;
    assert CheckedCount(e) == CountIn(e, HabitOrder);
  }

  /** Demo day k checks as many habits as its pattern row sets. */
  lemma DemoBar(today: int, k: nat)
    requires k < 6
    ensures |CheckedSet(DemoHistory(today)[k])| == NonZero(Patterns[k].bits)
  {
    DemoEntry(today, k);
    PatternChecked(today - 6 + k, k, DemoHistory(today)[k]);
  }

  /**
   * Past demo day k (k < 6) is dated today-6+k and takes its mood and its
   * habit flags from row k of the pattern table: a habit is done exactly
   * when its flag in the row is nonzero.
   */
  lemma DemoPastDay(today: int, k: nat)
    requires k < 6
    ensures var e := DemoHistory(today)[k];
            && e.date == today - 6 + k && e.mood == Patterns[k].mood && Complete(e)
            && forall h :: IsChecked(e, h) <==> Patterns[k].bits[Position(h)] != 0
  {
    DemoEntry(today, k);
    PatternEntryFlags(today - 6 + k, k);
  }

  /** Demo day k is the record of pattern row k. */
  lemma DemoEntry(today: int, k: nat)
    requires k < 6
    ensures DemoHistory(today)[k] == PatternEntry(today - 6 + k, k)
  {
  }

  /**
   * The first save on a new day after the demo seed: the oldest demo day
   * drops out, the six newer ones stay in order, the new record is last.
   */
  lemma {:induction false} SeedThenNewDay(today: int, e: Entry)
    requires e.date > today || e.date < today - 6
    ensures Upsert(DemoHistory(today), e.date, e) == DemoHistory(today)[1..] + [e]
    ensures FindOrCreate(DemoHistory(today), e.date).history == DemoHistory(today)[1..] + [Blank(e.date)]
  {
    var h := DemoHistory(today);
    DemoLacks(today, e.date);
    UpsertNone(h, e.date, e);
    FindOrCreateNone(h, e.date);
    KeepLastFull(h, e);
    KeepLastFull(h, Blank(e.date));
  }

  /** Appending to a full window drops exactly the oldest element. */
  lemma KeepLastFull<T>(s: seq<T>, x: T)
    requires |s| == Window
    ensures KeepLast(s + [x], Window) == s[1..] + [x]
  {
    assert (s + [x])[1..] == s[1..] + [x];
  }

  /** The demo seed has no record for a day outside today-6 ... today. */
  lemma DemoLacks(today: int, d: int)
    requires d > today || d < today - 6
    ensures forall k :: 0 <= k < |DemoHistory(today)| ==> DemoHistory(today)[k].date != d
  {
    DemoHistoryShape(today);
  }

  /**
   * The check-in on the seeded history: wake, water and sleep ticked,
   * mood 8. Today shows 3 of 5 habits, 60 percent, mood 8, as the last of
   * seven bars; the six demo bars read 60, 60, 60, 60, 80, 60.
   */
  lemma SeededCheckIn(today: int)
    ensures var l := FindOrCreate(DemoHistory(today), today);
            var h := Upsert(l.history, today, Tick(l.entry, {Wake, Water, Sleep}, 8));
            && |h| == 7 && h[6].date == today
            && Summarize(h[6]) == TodaySummary(3, 5, 60, 8)
            && ChartSeries(h) == [60, 60, 60, 60, 80, 60, 60]
  {
    var t := Tick(Blank(today), {Wake, Water, Sleep}, 8);
    SeededSave(today, t);
    SeededToday(today);
    SeededBars(today, t);
  }

  /** Today's figures after ticking wake, water and sleep with mood 8. */
  lemma SeededToday(today: int)
    ensures Summarize(Tick(Blank(today), {Wake, Water, Sleep}, 8)) == TodaySummary(3, 5, 60, 8)
  {
    assert |{Wake, Water, Sleep}| == 3;
  }

  /** On the seeded history today's record exists; saving it overwrites the last slot. */
  lemma SeededSave(today: int, t: Entry)
    requires t.date == today
    ensures var d := DemoHistory(today);
            var l := FindOrCreate(d, today);
            l.entry == Blank(today) && Upsert(l.history, today, Tick(l.entry, {Wake, Water, Sleep}, 8)) == d[6 := Tick(Blank(today), {Wake, Water, Sleep}, 8)]
  {
    var d := DemoHistory(today);
    FirstWithDateAt(d, today, 6);
  }

  /** The bars of the six demo days: 60, 60, 60, 60, 80, 60. */
  lemma DemoBars(today: int)
    ensures var d := DemoHistory(today);
            && 20 * |CheckedSet(d[0])| == 60 && 20 * |CheckedSet(d[1])| == 60
            && 20 * |CheckedSet(d[2])| == 60 && 20 * |CheckedSet(d[3])| == 60
            && 20 * |CheckedSet(d[4])| == 80 && 20 * |CheckedSet(d[5])| == 60
            && 20 * |CheckedSet(d[6])| == 0
  {
    assert CheckedSet(DemoHistory(today)[6]) == {};
    DemoBar(today, 0);
    DemoBar(today, 1);
    DemoBar(today, 2);
    DemoBar(today, 3);
    DemoBar(today, 4);
    DemoBar(today, 5);
    PatternCounts();
  }

  /** The chart of the seeded history with today's record replaced by t. */
  lemma SeededBars(today: int, t: Entry)
    requires |CheckedSet(t)| == 3
    ensures ChartSeries(DemoHistory(today)[6 := t]) == [60, 60, 60, 60, 80, 60, 60]
  {
    DemoChart(today);
    ChartUpdate(DemoHistory(today), 6, t);
  }

  /** The chart of the demo seed as it is first shown: today's bar is empty. */
  lemma DemoChart(today: int)
    ensures ChartSeries(DemoHistory(today)) == [60, 60, 60, 60, 80, 60, 0]
  {
    DemoBars(today);
    ChartBars(DemoHistory(today), 60, 60, 60, 60, 80, 60, 0);
  }

  /** Replacing one record of a history replaces exactly its bar. */
  lemma ChartUpdate(h: seq<Entry>, i: nat, e: Entry)
    requires i < |h|
    ensures ChartSeries(h[i := e]) == ChartSeries(h)[i := 20 * |CheckedSet(e)|]
  {
  }

  /** A seven-day chart is determined by the bars of its records. */
  lemma ChartBars(h: seq<Entry>, b0: nat, b1: nat, b2: nat, b3: nat, b4: nat, b5: nat, b6: nat)
    requires |h| == 7
    requires 20 * |CheckedSet(h[0])| == b0 && 20 * |CheckedSet(h[1])| == b1
    requires 20 * |CheckedSet(h[2])| == b2 && 20 * |CheckedSet(h[3])| == b3
    requires 20 * |CheckedSet(h[4])| == b4 && 20 * |CheckedSet(h[5])| == b5
    requires 20 * |CheckedSet(h[6])| == b6
    ensures ChartSeries(h) == [b0, b1, b2, b3, b4, b5, b6]
  {
    var bars := ChartSeries(h);
    var want := [b0, b1, b2, b3, b4, b5, b6];
    assert forall i :: 0 <= i < 7 ==> bars[i] == want[i];
  }

}
