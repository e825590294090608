# Habit tracker session ledger

A Dafny model of the logic in `app.py` of the habit tracker, a Streamlit
page. Each day the user ticks five habits and sets a mood.

The page keeps a session history of daily records in
`st.session_state.history`. It starts as a demo seed of six fixed past days
plus a blank record for today. Two functions change the history in place:

- `_get_today_entry` finds today's record, or creates a blank one.
- `_save_today` overwrites today's record, or appends it.

`_save_today` then cuts the history to its last seven records;
`_get_today_entry` does so only after appending. From the history the page
computes two figures:

- today's achievement: checked habits out of five, as a rounded percentage;
- one percentage bar per record for the seven-day chart.

The page also asks the Dog CEO service for a picture. It reads the breed out
of the picture's URL: the path segment after `/breeds/`, with hyphens and
underscores turned into spaces, then title-cased.

Files:

- `habits.dfy` (module `Habits`):
  - the five habits of the `HABITS` table;
  - one daily record (`Entry`: day number, mood, one flag per habit key);
  - the blank record;
  - the record after the check-in widgets have written into it;
  - the checked count, Python's `round` as exact integer half-even
    rounding, today's summary and the chart column.
- `ledger.dfy` (module `Ledger`):
  - the history as a value;
  - the lookup (`FindOrCreate`), the save (`Upsert`) and the seven-record
    cut (`KeepLast`, Python's `[-7:]`) as functions;
  - the demo seed;
  - the lemmas about all of these.
- `session.dfy` (module `App`):
  - a class `SessionState` whose field `history` is updated in place by
    loops that mirror the Python ones, each proved to compute the
    corresponding `Ledger` function;
  - the demo seeding loop;
  - one render of the check-in column (`CheckIn`).
- `breed.dfy` (module `DogBreed`):
  - Python's `str.split` for a non-empty separator, with its round trip
    through `join`;
  - `str.replace` for one character;
  - the breed extraction of `get_dog_image`.
- `optional.dfy`: an `Option` type standing for the `None` results.

Modelling choices:

- Dates are integer day numbers.
- `date.today()` is a parameter `today`.
- The ISO date strings compare equal exactly when the day numbers do.
- In the source, the record returned by `_get_today_entry` is the same dict
  object as the one stored in the history, and the widgets mutate it before
  `_save_today` stores it again. The model uses values instead: `Tick`
  builds the updated record, and `Upsert` stores it.
- `.title()` is a function parameter `title`.

The save's key: `_save_today` (app.py:289-299) matches the first record
dated with the clock's date, whatever the entry's own date. So the
no-duplicate-dates guarantee (`Ledger.UpsertKeepsDistinct`) holds when the
saved record is dated today, which is what the page passes.

## Model

| member | source | states |
|---|---|---|
| Habits.Position | app.py:179-185 | every habit has a place in the HABITS table, and the table holds that habit there |
| Habits.Blank | app.py:242-244 | the record created for a day carries every habit key, the given date and mood 6, and no habit is checked |
| Habits.Tick | app.py:266-282 | after the five checkboxes and the mood slider write into a record, it carries every habit key, keeps its date, has the slider's mood, and a habit is checked exactly when its box is ticked; its checked set is the ticked set |
| Habits.CountInIsCardinality | app.py:305 | counting the truthy flags along a list of distinct habit keys gives the number of checked habits among them |
| Habits.CheckedCount | app.py:305 | `checked_count` is the number of habits whose flag is truthy (a missing key counts as unchecked), and is at most five |
| Habits.CheckedCountExtremes | app.py:305-306 | the count is five exactly when every habit is checked, and zero exactly when none is |
| Habits.RoundHalfEven | app.py:307 | Python's `round` of n/d: the result is within half of the exact quotient, and on a tie it is even |
| Habits.AchievementPct | app.py:305-307 | the achievement is exactly 20 points per checked habit, so it lies in 0..100 and no rounding takes place (p * 5 == count * 100) |
| Habits.Summarize | app.py:305-315 | today's figures: checked count = number of checked habits, total 5, percentage = 20 * checked, and the record's mood |
| Habits.ChartSeries | app.py:326-327 | the chart has one bar per record in history order; each bar is 20 points per checked habit of its record, at most 100, and equals the figure today's summary uses |
| Ledger.KeepLast | app.py:247 | for n > 0, `[-n:]` keeps min(len, n) elements, and they are the last ones of the list in order |
| Ledger.FirstWithDate | app.py:238-240 | the scan finds the first record with the date; it finds none exactly when no record has the date |
| Ledger.FindOrCreate | app.py:236-248 | the lookup that `SessionState.GetTodayEntry` is proved to compute; the record it hands back is dated today (its full behaviour is stated by the lemmas below) |
| Ledger.FindOrCreateSpec | app.py:236-248 | when a record is dated today, the lookup returns the first such record and leaves the history untouched; otherwise it returns a blank record for today, which is now the last record; the length is min(old + 1, 7), and the records dropped are the oldest |
| Ledger.FindOrCreateIdempotent | app.py:236-248 | looking up today's record a second time returns the same record and leaves the same history |
| Ledger.FindOrCreateKeepsDistinct | app.py:242-247 | the lookup never creates a second record for a date, and a history of at most seven records stays at most seven long |
| Ledger.FindOrCreateKeepsComplete | app.py:242-247 | if every record carries all habit keys, it still does after the lookup |
| Ledger.FindOrCreateNewest | app.py:236-248 | if the records are in date order and none is dated after today, they stay so and today's record is the newest |
| Ledger.Upsert | app.py:289-299 | the save that `SessionState.SaveToday` is proved to compute; the history it leaves is non-empty and at most seven records long (its full behaviour is stated by the lemmas below) |
| Ledger.UpsertSpec | app.py:289-299 | within the window, when a record is dated today only the first such record is overwritten, and every other position and the length are unchanged; otherwise the entry is appended as the last record, the length becomes min(old + 1, 7) and only the oldest records drop out |
| Ledger.UpsertKeepsDistinct | app.py:289-299 | saving a record dated today never creates a second record for a date |
| Ledger.UpsertKeepsComplete | app.py:289-299 | if every record and the saved entry carry all habit keys, every record still does after the save |
| Ledger.UpsertFinds | app.py:292-299 | after a save within the window, the scan for today finds the saved record, in the slot it overwrote or last when it was appended |
| Ledger.UpsertIdempotent | app.py:289-299 | saving the same record for today twice gives the same history as saving it once |
| Ledger.UpsertNewest | app.py:289-299 | if the records are in date order and none is dated after today, the save keeps date order and leaves the saved record last |
| Ledger.SaveDays | app.py:289-299 | saving records one after another, each under its own date: once anything is saved, or when the history starts within the window, at most seven records remain |
| Ledger.KeepLastAbsorbs | app.py:299 | cutting to the last seven, appending, and cutting again is one cut of the whole list |
| Ledger.SaveFreshDays | app.py:297-299 | saving records for days the history has never seen, one after another, leaves the last seven of all the records in the order they were saved |
| Ledger.PatternsShape | app.py:196-203 | every row of the fixed demo table has one flag per habit |
| Ledger.ZipChecks | app.py:208-209 | the flags written by `zip(HABITS, checks)` for the first n pairs: exactly the first n habit keys, each set to whether its flag is nonzero |
| Ledger.PatternEntry | app.py:205-210 | the demo record built from a pattern row carries the given date and every habit key |
| Ledger.PatternEntryFlags | app.py:206-209 | the demo record of row k has the row's mood, and a habit is checked exactly when its flag in the row is nonzero |
| Ledger.DemoRows | app.py:204-210 | the first n demo records: record k is pattern row k dated today-6+k |
| Ledger.DemoHistory | app.py:191-217 | the seed has seven records: past day k is the record of pattern row k, and the last one is today's blank record |
| Ledger.DemoHistoryShape | app.py:191-217 | the seed is dated today-6 … today, one record per day, in ascending order and none after today; every record carries all habit keys, and the past days have the moods of the pattern table |
| Ledger.DemoPastDay | app.py:196-210 | past demo day k is dated today-6+k, has mood and habit flags from row k of the pattern table, and carries every habit key |
| Ledger.CountMatchesBits | app.py:208-209 | a record whose flags follow a pattern row checks as many habits as the row has nonzero flags |
| Ledger.DemoBar | app.py:196-209 | demo day k checks as many habits as row k of the pattern table sets |
| Ledger.DemoChart | app.py:326-327 | the chart of the fresh seed reads 60, 60, 60, 60, 80, 60, 0 |
| Ledger.SeedThenNewDay | app.py:289-299 | the first save (or lookup) for a day outside the seeded week drops the oldest demo day; the six newer ones stay in order and the new record is last |
| Ledger.SeededCheckIn | app.py:251-327 | on the seeded history, ticking wake, water and sleep with mood 8 gives 3 of 5 habits, 60 percent and mood 8 for today; the chart has seven bars reading 60, 60, 60, 60, 80, 60, 60 |
| App.InitDemoHistory | app.py:191-217 | the seeding loop builds exactly the demo seed |
| App.ZipFlags | app.py:208-209 | the zip loop sets the habit keys in table order, stopping at the shorter of the two lists |
| App.SessionState.constructor | app.py:220-221 | the first visit of a session stores the demo seed, which is a valid history |
| App.SessionState.GetTodayEntry | app.py:236-248 | the scan-and-append method returns the lookup's record and leaves the lookup's history; it keeps the history valid (at most seven records, one per date, every habit key present) |
| App.SessionState.SaveToday | app.py:289-299 | the overwrite-or-append method leaves the save's history; it keeps the history valid when the saved record is complete and dated today |
| App.SessionState.CheckIn | app.py:251-307 | one render of the check-in column: the history becomes the save of the ticked lookup record; today's figures are the number of ticked habits, 20 points each, and the slider's mood; validity is kept; today's record is found and its bar equals today's percentage, and it is the last bar when the history is in date order |
| App.FirstVisit | app.py:220-307 | a first visit followed by one check-in with wake, water and sleep ticked and mood 8 shows 3 of 5 habits, 60 percent, mood 8 |
| DogBreed.FindFrom | app.py:90 | the scan for the separator used by `split`: what it reports lies at or after its start and is an occurrence |
| DogBreed.Find | app.py:90 | `split`'s search for the separator: what it reports is an occurrence |
| DogBreed.FindFromSpec | app.py:90 | the scan reports the first occurrence at or after its start, and none only when there is none |
| DogBreed.FindSpec | app.py:90 | the search reports the first occurrence of the separator, and none exactly when it does not occur |
| DogBreed.Split | app.py:90 | `str.split` with a non-empty separator gives at least one piece |
| DogBreed.Join | app.py:90 | `sep.join` starts with the first piece and ends with the last one |
| DogBreed.SplitJoin | app.py:90 | splitting loses nothing: joining the pieces with the separator gives back the original string |
| DogBreed.SplitPiecesFree | app.py:90 | no piece of a split contains the separator |
| DogBreed.SplitHead | app.py:90 | the first piece runs up to the first occurrence of the separator, or is the whole string |
| DogBreed.ReplaceChar | app.py:92 | `replace` of one character keeps the length and swaps exactly the matching characters |
| DogBreed.Spaced | app.py:92 | the two replacements keep the length, turn every hyphen and underscore into a space, leave every other character, and leave no hyphen or underscore |
| DogBreed.ParseDog | app.py:88-95 | the result is None exactly when `/breeds/` does not occur in the URL (the IndexError path); otherwise it carries the URL |
| DogBreed.BreedSegment | app.py:90 | `url.split("/breeds/")[1].split("/")[0]`: no segment (the IndexError) exactly when the search for `/breeds/` finds nothing; a segment holds no slash |
| DogBreed.ParseDogIs | app.py:88-93 | for every URL `pre + "/breeds/" + seg + tail` with no earlier `/breeds/`, a slash-free seg and a tail that is empty or starts with a slash, the result carries the URL and seg with hyphens and underscores spaced, then title-cased |
| DogBreed.BreedSegmentNone | app.py:90 | indexing piece 1 of the split fails exactly when `/breeds/` does not occur in the URL |
| DogBreed.BreedSegmentIs | app.py:90 | the breed segment is the text after the first `/breeds/` up to the next slash or the end of the URL |
| DogBreed.TwoWordBreed | app.py:88-92 | a hyphenated two-word breed such as `hound-afghan` in `.../breeds/hound-afghan/...` is handed to title-casing as the two words with a space between |

## Left out

- Streamlit layout, widgets and the `st.session_state` plumbing other than `history` are not modelled. The check-in widgets appear only as `CheckIn`'s parameters (the ticked set and the mood).
- Network I/O is not modelled: `safe_get_json`, `get_weather`, the request and status check of `get_dog_image`, and `generate_report` (the OpenAI call).
- The prompt text of `_build_system_prompt` and the share-text block are fixed-string templating, with nothing to state beyond the text itself.
- pandas is not modelled: building the DataFrame, filling missing columns and `strftime("%m/%d")`. Only the integer percentage of each row is kept.
- Floating point is not modelled. `round(count / 5 * 100)` and the chart's `.round(0)` are computed exactly on integers.
- The calendar is not modelled. `date.today()`, `timedelta` and ISO date strings become integer day numbers, with today as a parameter.
- `_get_today_entry` and `_save_today` each call `date.today()`. The model hands both the same `today`, so a render that crosses midnight between the two calls is not modelled.
- Python's Unicode `str.title()` is not modelled; it is an uninterpreted function parameter.
- The mood slider's range 1..10 is not enforced; the mood is any integer.
- Records are not general dicts: the `date` and `mood` keys are always present. Habit keys may be missing.
- Ledger.UpsertSpec: the overwrite-in-place clause is stated only for histories of at most seven records. Every history the page can reach is that short (`SessionState.Valid`). For a longer list, the overwritten list is cut to its last seven.
- Ledger.UpsertKeepsDistinct: requires the saved record to be dated today, because `_save_today` matches on the clock's date rather than on the record's own date.
- DogBreed.ParseDog: the `except Exception` around a response without a `message` key, or one that is not a string, is not modelled. The URL is given as a string.
- DogBreed.TwoWordBreed: the literal URL of the source comment is not worked through character by character. The lemma covers every URL of that shape, given that the text before `/breeds/` contains no `/breeds/`.
