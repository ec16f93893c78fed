# Daily slot generation of the bookings service

This project models the daily cron job of the bookings service, `add_slots_every_day`. The job reads every row of the `resources` table and takes the target date 90 days ahead. For each resource it looks up that weekday's opening-hours string (such as `"08:00-12:00-12:30-16:00"`) and counts and splits the string on `-`. It parses every `H:MM` token and partitions the boundaries into slot start times with `generate_timeslots_dict`. For every start it inserts and commits one row into the `slots` table.

Modules:

- `Wrappers`: the `Option` type.
- `OpeningHours`: Python's `str.count` and `str.split` for one separator character, with `Join` as the inverse of `Split`. Also the `strptime` parse of one `H:MM` token into minutes since midnight, and the list comprehension over all tokens.
- `Timeslots`: `generate_timeslots_dict` and what it relies on.
  - `Steps` is `DateTimeRange(start, end).range(interval)`, which includes `end` when the interval divides the range.
  - A Python dict is modelled as its entries in insertion order. `Put` is item assignment, which keeps an existing key in place. `Update` is `dict.update`, a left fold of assignments, so the last write of a key wins. `Comprehension` is a dict comprehension.
- `SlotGeneration`: the resource and slot rows, and the run as a specification function (`Run`).
  - The job itself is the imperative `AddSlotsEveryDay`. It has the source's nested loops, and `SlotStore.Insert` stands for `session.add` followed by `session.commit`.
  - Its postcondition ties the committed rows to `Run`. The lemmas state what `Run` promises: row shape, capacity, flags, abort on a bad token, and independence from `active`.
- `Fixtures`: the three resource rows of the repository's test data (`tests/test_resources_positive.py`), and what a Monday run does with them.
  - Resource 1 gets 33 rows: 08:00 to 16:00 every 15 minutes, with 12:00 and 12:15 blocked.
  - The one-interval resource 2 and the closed resource 3 get none.

Times are whole minutes since midnight of the target date. Rendering a time as text (`strftime`) is a parameter `format` of the job.

The model follows the code as written, including its known quirks:

- A range includes its own end when the interval divides the range. This is the `TODO: bug` at `src/cron/add_slots_every_day.py:113`: a slot starts at closing time. With a break, a break start or break end on the step grid of the range before it is then taken over by the following range's flag, in place. Off that grid no slot starts at the range's end: the following range's first start is appended, and the last slot of the range before it overlaps it. `OverlappingSlots` proves this for the last free morning slot and the first blocked break slot, and `OverlappingBreakEnd` for the last blocked break slot and the first free afternoon slot.
- Only one boundary (a string without a dash never gets there) or exactly four boundaries produce slots. A string with one dash, such as `"08:00-12:00"`, or with two dashes produces an empty dict: no slots and no error.
- A token that does not parse aborts the whole run. So do four boundaries out of order, such as `"16:00-12:00-12:30-08:00"`: `DateTimeRange(start, end).range` raises `ValueError` on an inverted range with a positive step, and `generate_timeslots_dict` builds all three ranges before merging them (`RangeRaises`). In both cases the slots already committed for earlier resources stay.

## Model

| member | source | states |
|---|---|---|
| OpeningHours.Count | src/cron/add_slots_every_day.py:102 | the dash count of a string is never larger than its length |
| OpeningHours.CountMultiset | src/cron/add_slots_every_day.py:102 | the dash count is the number of occurrences of '-' in the string, its multiplicity in the string's multiset |
| OpeningHours.CountZeroIff | src/cron/add_slots_every_day.py:102-106 | the dash count is zero exactly when the string has no dash, so the "does not work this day" branch is taken exactly for dash-free strings |
| OpeningHours.Split | src/cron/add_slots_every_day.py:103 | `split('-')` yields one more piece than there are dashes, and no piece contains a dash |
| OpeningHours.JoinSplit | src/cron/add_slots_every_day.py:103 | joining the pieces of a split with `-` gives back the original string |
| OpeningHours.SplitJoin | src/cron/add_slots_every_day.py:103 | splitting a `-`-join of dash-free pieces gives back those pieces |
| OpeningHours.ParseFields | src/cron/add_slots_every_day.py:107 | a parsed hour and minute give a time of day in [0, 1440) |
| OpeningHours.ParseClock | src/cron/add_slots_every_day.py:107 | a token that parses contains ':', is 3 to 5 characters long and denotes a time of day in [0, 1440) |
| OpeningHours.ParseClockPadded | src/cron/add_slots_every_day.py:107 | every zero-padded "HH:MM" of a valid time parses back to h*60+m |
| OpeningHours.ParseAll | src/cron/add_slots_every_day.py:107-108 | the comprehension succeeds exactly when every token parses, and then yields one time per token, in order |
| OpeningHours.ParseAllSome | src/cron/add_slots_every_day.py:107-108 | when each token parses to a given time, the comprehension yields exactly those times |
| Timeslots.Lookup | src/cron/add_slots_every_day.py:59-61 | a key has a flag in the dict exactly when it is one of the dict's keys |
| Timeslots.Put | src/cron/add_slots_every_day.py:59-61 | item assignment gives the key the new flag, leaves every other key's flag alone, keeps keys distinct, and grows the dict only for a new key |
| Timeslots.PutNew | src/cron/add_slots_every_day.py:59-61 | assigning a key that is not present appends it at the end of the insertion order |
| Timeslots.PutLast | src/cron/add_slots_every_day.py:59-61 | assigning the key of the last entry replaces that entry in place |
| Timeslots.Update | src/cron/add_slots_every_day.py:59-61 | `dict.update` keeps the keys distinct |
| Timeslots.UpdateLookup | src/cron/add_slots_every_day.py:59-61 | after `update(src)` the keys of `src` have `src`'s flags and every other key keeps its old flag |
| Timeslots.UpdateItemsLookup | src/cron/add_slots_every_day.py:47-48 | assigning every value of a sequence with one flag flags exactly those values and leaves other keys alone |
| Timeslots.UpdateFresh | src/cron/add_slots_every_day.py:59-61 | updating with increasing keys not yet present appends them in order |
| Timeslots.PutAfter | src/cron/add_slots_every_day.py:59-61 | assigning a key no smaller than every present key replaces the last entry if it has that key, and otherwise appends |
| Timeslots.PutChronological | src/cron/add_slots_every_day.py:59-61 | such an assignment keeps the dict chronological, with no key above the assigned one |
| Timeslots.UpdateChronological | src/cron/add_slots_every_day.py:59-61 | updating a chronological dict with a later chronological one keeps it chronological |
| Timeslots.UpdateAfter | src/cron/add_slots_every_day.py:59-61 | updating a chronological dict with a later range replaces the dict's last entry when the range starts at that key, and appends the range |
| Timeslots.Comprehension | src/cron/add_slots_every_day.py:47-48 | a dict comprehension has distinct keys |
| Timeslots.ComprehensionLookup | src/cron/add_slots_every_day.py:47-58 | a key has the comprehension's flag exactly when it is one of the values iterated over |
| Timeslots.Steps | src/cron/add_slots_every_day.py:46-48 | the range has (end-start)/step+1 values when start <= end and none otherwise, the j-th being start + j*step |
| Timeslots.StepsMembership | src/cron/add_slots_every_day.py:46-48 | a time is produced exactly when it lies between start and end, both included, on the step grid from start |
| Timeslots.StepsIncreasing | src/cron/add_slots_every_day.py:46-48 | the range's values strictly increase |
| Timeslots.ComprehensionOfSteps | src/cron/add_slots_every_day.py:47-58 | a comprehension over a range lists its values in order, all with one flag, chronologically |
| Timeslots.GenerateTimeslotsDict | src/cron/add_slots_every_day.py:34-62 | distinct keys; one boundary gives that single start flagged free; any count other than one or four gives the empty dict |
| Timeslots.BreakScheduleLookup | src/cron/add_slots_every_day.py:49-61 | with four boundaries a start's flag is the afternoon's if it is an afternoon step, else the break's, else the morning's |
| Timeslots.BreakScheduleKeys | src/cron/add_slots_every_day.py:49-58 | the four-boundary starts are exactly the grid points of the three ranges, each range including its end |
| Timeslots.BreakScheduleBlocked | src/cron/add_slots_every_day.py:49-61 | with ordered boundaries a start is blocked exactly when it is a break step strictly before the break end; every other start is free |
| Timeslots.BreakEdgesFlags | src/cron/add_slots_every_day.py:53-61 | the break start is blocked and the break end is free |
| Timeslots.OverlappingSlots | src/cron/add_slots_every_day.py:49-61 | when the interval does not divide the morning, the last free morning slot starts less than one interval before the blocked break start, so the two slots overlap |
| Timeslots.OverlappingBreakEnd | src/cron/add_slots_every_day.py:49-61 | when the interval does not divide the break, the last blocked break slot starts less than one interval before the free break end, so the two slots overlap |
| Timeslots.BreakScheduleChronological | src/cron/add_slots_every_day.py:49-61 | with ordered boundaries the dict's starts are in strictly increasing insertion order |
| Timeslots.BreakScheduleLayout | src/cron/add_slots_every_day.py:49-61 | with ordered boundaries the dict is the morning steps flagged free, then the break steps flagged blocked, then the afternoon steps flagged free, a range's last step dropped where the next range starts on it |
| Timeslots.DistinctKeysCount | src/cron/add_slots_every_day.py:112 | a dict with distinct keys has one entry per key |
| SlotGeneration.OpeningHoursFor | src/cron/add_slots_every_day.py:88-103 | the day's string is the `days_culumns_dict` entry under the weekday's English name, which is always a key, so the lookup never fails |
| SlotGeneration.ResourceTimeslots | src/cron/add_slots_every_day.py:102-109 | a resource's dict, when its tokens parse and no date range raises, has distinct keys |
| SlotGeneration.SlotRows | src/cron/add_slots_every_day.py:112-123 | one row per dict entry, in the dict's iteration order: it starts at the entry's key, ends one interval later, carries the entry's flag, both times rendered, "2" and the capacity; with distinct keys the rows' starts are distinct and each row's flag is what the dict holds for its start |
| SlotGeneration.SlotStore.Insert | src/cron/add_slots_every_day.py:124-125 | the committed rows gain exactly the new row at the end |
| SlotGeneration.InsertSlots | src/cron/add_slots_every_day.py:112-125 | the inner loop appends exactly the rows of the dict, in order |
| SlotGeneration.AddResourceSlots | src/cron/add_slots_every_day.py:93-125 | one resource's iteration reports whether it got a dict (its tokens parsed and no date range raised) and appends its rows, or nothing when it did not |
| SlotGeneration.AddSlotsEveryDay | src/cron/add_slots_every_day.py:78-125 | the job appends exactly the rows of `Run` to the slots table and completes exactly when `Run` does |
| SlotGeneration.NoDashNoSlots | src/cron/add_slots_every_day.py:102-106 | a day string without a dash, the empty one included, yields no slots and no error |
| SlotGeneration.OneOrTwoDashesNoSlots | src/cron/add_slots_every_day.py:45-62 | a day string with one or two dashes yields no slots, and aborts exactly when one of its tokens does not parse |
| SlotGeneration.ResourceRows | src/cron/add_slots_every_day.py:112-123 | a resource writes one row per distinct start; each ends one interval after its start, carries the dict's flag, the formatted times, "2" and the capacity |
| SlotGeneration.RunRows | src/cron/add_slots_every_day.py:112-123 | every row of a run carries "2", the capacity, and an end one of the resources' intervals after its start |
| SlotGeneration.Run | src/cron/add_slots_every_day.py:89-125 | the job's run completes exactly when every resource's tokens parse and, with four boundaries, are in order, writes one row per distinct start of every resource it gets through, and every row carries "2" and the number of resource rows read as its maximum capacity, whatever their flag or schedule |
| SlotGeneration.RunCompleted | src/cron/add_slots_every_day.py:92-109 | a run completes exactly when every resource's tokens parse and, with four boundaries, are in order |
| SlotGeneration.RunStopsAtFailure | src/cron/add_slots_every_day.py:107-109 | a resource whose tokens do not parse, or whose four boundaries are out of order, ends the run: the rows are those of the resources before it, and the run does not complete |
| SlotGeneration.RunIgnoresActive | src/cron/add_slots_every_day.py:92-101 | resources that differ only in id, title or active flag produce the same run |
| SlotGeneration.RunRowCount | src/cron/add_slots_every_day.py:92-125 | a run writes exactly one row per distinct start of the dicts of the resources before the first one whose tokens do not parse or whose four boundaries are out of order (of all of them when none fails) |
| Fixtures.SplitBreakSchedule | src/cron/add_slots_every_day.py:102-103 | "08:00-12:00-12:30-16:00" has three dashes and splits into its four tokens |
| Fixtures.ParseBreakSchedule | src/cron/add_slots_every_day.py:107-108 | its tokens parse to 480, 720, 750 and 960 |
| Fixtures.BreakScheduleSlots | src/cron/add_slots_every_day.py:49-61 | with 15-minute slots it gives 33 starts from 08:00 to 16:00 inclusive, 12:00 and 12:15 blocked and all others free |
| Fixtures.SampleResourceMonday | src/cron/add_slots_every_day.py:93-109 | test resource 1 on a Monday gets the dict of those boundaries |
| Fixtures.SplitReversedSchedule | src/cron/add_slots_every_day.py:102-103 | "16:00-12:00-12:30-08:00" has three dashes and splits into its four tokens |
| Fixtures.ParseReversedSchedule | src/cron/add_slots_every_day.py:107-108 | its tokens parse to 960, 720, 750 and 480 |
| Fixtures.ReversedScheduleMonday | src/cron/add_slots_every_day.py:49-58 | a Monday schedule whose four boundaries parse but run backwards gives no dict, and a run over that resource alone aborts with nothing written |
| Fixtures.SingleIntervalMonday | src/cron/add_slots_every_day.py:45-62 | test resource 2's "08:00-12:00" parses but gives no slots |
| Fixtures.ClosedMonday | src/cron/add_slots_every_day.py:105-106 | test resource 3's empty Monday string gives no slots |
| Fixtures.MondayRun | src/cron/add_slots_every_day.py:78-125 | a Monday run over the three test resources completes and writes exactly resource 1's 33 rows, with capacity 3 |
| Fixtures.RunWithoutSlots | src/cron/add_slots_every_day.py:92-109 | resources that all get an empty dict write nothing, and the run goes through them |

## Left out

- `ensure_cron_service_is_running` starts the cron service via `subprocess`. `add_cron_jobs.py` and the crontab entry are also left out. Both are process and operating-system I/O.
- Reading the table through SQLAlchemy reflection, the module-level connection and session, and `resultproxy_to_dict_list` are left out. The resources arrive as a sequence of rows, and the capacity is their number.
- The `print` of the resource rows is output only.
- `datetime.today()` and the 90-day offset are left out. The weekday of the target date is an input, its `%A` name is `DayName`, and times are minutes since that date's midnight.
- `strftime` rendering is the `format` parameter.
- Timestamps are not full datetimes. A slot that would run past midnight is simply a time beyond 1440.
- Timeslots.Steps: an inverted range (start after end) produces nothing, where `DateTimeRange.range` raises `ValueError`. The job never steps through an inverted range in the model: `ResourceTimeslots` returns the abort (`None`) for exactly the schedules whose ranges would raise (`RangeRaises`). The date-range library itself is not part of this model.
- OpeningHours.ParseClock: models `strptime` for ASCII digits only. Leading whitespace and non-ASCII digits, which `strptime` also accepts, are not modelled.
- SlotGeneration.Resource: its interval is a positive integer. A non-numeric or non-positive `intervals` column, where `int()` or the date range raises, is not modelled.
- A database error on insert or commit is not modelled. It would abort the run with the earlier rows committed, like a bad token.
- The job is not idempotent: running it twice appends the rows twice. `AddSlotsEveryDay`'s postcondition shows this, and no separate lemma states it.
- The HTTP API, the other tables and the other modules of the repository are not part of this model. The same goes for concurrency between the job and the API.
