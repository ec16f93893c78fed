/**
  The three resource rows of the repository's test data, and what one
  Monday run of the job does with them.
 */
module Fixtures {
  import opened Wrappers
  import OpeningHours
  import Timeslots
  import opened SlotGeneration

  /** Resource 1: 15-minute slots on weekdays, with a break from 12:00 to 12:30. */
  const SampleResource := Resource(1, "Sample Resource", true, 15,
    "08:00-12:00-12:30-16:00", "08:00-12:00-12:30-16:00", "08:00-12:00-12:30-16:00",
    "08:00-12:00-12:30-16:00", "08:00-12:00-12:30-16:00", "", "")

  /** Resource 2: inactive, one working interval from Monday to Saturday. */
  const JohnnyBravo := Resource(2, "Johnny Bravo", false, 30,
    "08:00-12:00", "08:00-12:00", "08:00-12:00", "08:00-12:00", "08:00-12:00", "08:00-12:00", "")

  /** Resource 3: one working interval at weekends only. */
  const AdamMalysz := Resource(3, "Adam Malysz", true, 60,
    "", "", "", "", "", "08:00-16:00", "08:00-16:00")

  const TestResources := [SampleResource, JohnnyBravo, AdamMalysz]

  /** Splitting a four-boundary schedule string on its dashes. */
  lemma SplitBreakSchedule()
    ensures OpeningHours.Split("08:00-12:00-12:30-16:00", '-') == ["08:00", "12:00", "12:30", "16:00"]
    ensures OpeningHours.Count("08:00-12:00-12:30-16:00", '-') == 3
  {
    var parts := ["08:00", "12:00", "12:30", "16:00"];
    assert OpeningHours.Join(parts[3..], '-') == "16:00";
    assert OpeningHours.Join(parts[2..], '-') == "12:30-16:00";
    assert OpeningHours.Join(parts[1..], '-') == "12:00-12:30-16:00";
    assert OpeningHours.Join(parts, '-') == "08:00-12:00-12:30-16:00";
    OpeningHours.SplitJoin(parts, '-');
  }

  /** Parsing the tokens of the four-boundary schedule. */
  lemma ParseBreakSchedule()
    ensures OpeningHours.ParseAll(["08:00", "12:00", "12:30", "16:00"]) == Some([480, 720, 750, 960])
  {
    var tokens, times := ["08:00", "12:00", "12:30", "16:00"], [480, 720, 750, 960];
    forall i | 0 <= i < 4 ensures OpeningHours.ParseClock(tokens[i]) == Some(times[i]) {
      if i == 0 {
        PaddedToken(tokens[i], 8, 0);
      } else if i == 1 {
        PaddedToken(tokens[i], 12, 0);
      } else if i == 2 {
        PaddedToken(tokens[i], 12, 30);
      } else {
        PaddedToken(tokens[i], 16, 0);
      }
    }
    OpeningHours.ParseAllSome(tokens, times);
  }

  /** A zero-padded "HH:MM" token parses to its time. */
  lemma PaddedToken(token: string, h: nat, m: nat)
    requires h < 24 && m < 60 && token == OpeningHours.Pad2(h) + ":" + OpeningHours.Pad2(m)
    ensures OpeningHours.ParseClock(token) == Some(h * 60 + m)
  {
    OpeningHours.ParseClockPadded(h, m);
  }

  /**
    The break schedule with 15-minute slots: 33 starts every 15 minutes from
    08:00 to 16:00 inclusive, the two of 12:00 and 12:15 blocked, all others
    free.
   */
  lemma BreakScheduleSlots(bounds: seq<int>, interval: Interval)
    requires bounds == [480, 720, 750, 960] && interval == 15
    ensures var d := Timeslots.GenerateTimeslotsDict(bounds, interval);
      |d| == 33 &&
      forall j :: 0 <= j < 33 ==>
        d[j] == Timeslots.Entry(480 + 15 * j, if 16 <= j < 18 then Timeslots.Blocked else Timeslots.Free)
  {
    Timeslots.BreakScheduleLayout(bounds, interval);
    TrimmedRange(480, 16, Timeslots.Free);
    TrimmedRange(720, 2, Timeslots.Blocked);
    FullRange(750, 14, Timeslots.Free);
    ConcatRanges(
      Timeslots.DropLastKey(Timeslots.Items(Timeslots.Steps(480, 720, 15), Timeslots.Free), 720),
      Timeslots.DropLastKey(Timeslots.Items(Timeslots.Steps(720, 750, 15), Timeslots.Blocked), 750),
      Timeslots.Items(Timeslots.Steps(750, 960, 15), Timeslots.Free));
  }

  /** The 15-minute starts of a range `n` intervals long, its end included. */
  lemma FullRange(start: int, n: nat, flag: int)
    ensures var r := Timeslots.Items(Timeslots.Steps(start, start + 15 * n, 15), flag);
      |r| == n + 1 && forall j :: 0 <= j <= n ==> r[j] == Timeslots.Entry(start + 15 * j, flag)
  {
    Timeslots.DivModUnique(15 * n, 15, n, 0);
  }

  /**
    A range of `n` 15-minute intervals followed by a range starting at its
    end contributes its first `n` starts.
   */
  lemma TrimmedRange(start: int, n: nat, flag: int)
    ensures var r := Timeslots.DropLastKey(Timeslots.Items(Timeslots.Steps(start, start + 15 * n, 15), flag), start + 15 * n);
      |r| == n && forall j :: 0 <= j < n ==> r[j] == Timeslots.Entry(start + 15 * j, flag)
  {
    var s := Timeslots.Steps(start, start + 15 * n, 15);
    Timeslots.DivModUnique(15 * n, 15, n, 0);
    assert |s| == n + 1 && s[n] == start + 15 * n;
  }

  /** The three ranges of the 15-minute break schedule, one after the other. */
  lemma ConcatRanges(a: Timeslots.Dict, m: Timeslots.Dict, c: Timeslots.Dict)
    requires |a| == 16 && |m| == 2 && |c| == 15
    requires forall j :: 0 <= j < 16 ==> a[j] == Timeslots.Entry(480 + 15 * j, Timeslots.Free)
    requires forall j :: 0 <= j < 2 ==> m[j] == Timeslots.Entry(720 + 15 * j, Timeslots.Blocked)
    requires forall j :: 0 <= j < 15 ==> c[j] == Timeslots.Entry(750 + 15 * j, Timeslots.Free)
    ensures |a + m + c| == 33
    ensures forall j :: 0 <= j < 33 ==>
      (a + m + c)[j] == Timeslots.Entry(480 + 15 * j, if 16 <= j < 18 then Timeslots.Blocked else Timeslots.Free)
  {
  }

  /** Resource 1 on a Monday: the break schedule above. */
  lemma SampleResourceMonday()
    ensures ResourceTimeslots(SampleResource, Monday) ==
      Some(Timeslots.GenerateTimeslotsDict([480, 720, 750, 960], 15))
  {
    SplitBreakSchedule();
    ParseBreakSchedule();
  }

  /**
    A schedule whose four boundaries parse but run backwards: the morning
    range from 16:00 to 12:00 is inverted and raises, so the resource gets
    no dict and a run over it alone aborts with nothing written.
   */
  lemma ReversedScheduleMonday(r: Resource, format: int -> string)
    requires r.openingHoursMon == "16:00-12:00-12:30-08:00"
    ensures ResourceTimeslots(r, Monday).None?
    ensures Run([r], Monday, format) == RunResult([], false)
  {
    var parts := ["16:00", "12:00", "12:30", "08:00"];
    SplitReversedSchedule(r.openingHoursMon, parts);
    ParseReversedSchedule(parts);
    assert [r][0] == r;
  }

  /** Splitting the reversed schedule string on its dashes. */
  lemma SplitReversedSchedule(hours: string, parts: seq<string>)
    requires hours == "16:00-12:00-12:30-08:00" && parts == ["16:00", "12:00", "12:30", "08:00"]
    ensures OpeningHours.Split(hours, '-') == parts
    ensures OpeningHours.Count(hours, '-') == 3
  {
    assert OpeningHours.Join(parts[3..], '-') == "08:00";
    assert OpeningHours.Join(parts[2..], '-') == "12:30-08:00";
    assert OpeningHours.Join(parts[1..], '-') == "12:00-12:30-08:00";
    assert OpeningHours.Join(parts, '-') == hours;
    OpeningHours.SplitJoin(parts, '-');
  }

  /** Parsing the tokens of the reversed schedule. */
  lemma ParseReversedSchedule(tokens: seq<string>)
    requires tokens == ["16:00", "12:00", "12:30", "08:00"]
    ensures OpeningHours.ParseAll(tokens) == Some([960, 720, 750, 480])
  {
    var times := [960, 720, 750, 480];
    forall i | 0 <= i < 4 ensures OpeningHours.ParseClock(tokens[i]) == Some(times[i]) {
      if i == 0 {
        PaddedToken(tokens[i], 16, 0);
      } else if i == 1 {
        PaddedToken(tokens[i], 12, 0);
      } else if i == 2 {
        PaddedToken(tokens[i], 12, 30);
      } else {
        PaddedToken(tokens[i], 8, 0);
      }
    }
    OpeningHours.ParseAllSome(tokens, times);
  }

  /**
    Resource 2 on a Monday: its single working interval "08:00-12:00" parses
    but yields no slots at all.
   */
  lemma SingleIntervalMonday()
    ensures ResourceTimeslots(JohnnyBravo, Monday) == Some([])
  {
    SplitSingleInterval();
    ParseSingleInterval();
  }

  /** Splitting a one-interval schedule string on its dash. */
  lemma SplitSingleInterval()
    ensures OpeningHours.Split("08:00-12:00", '-') == ["08:00", "12:00"]
    ensures OpeningHours.Count("08:00-12:00", '-') == 1
  {
    var parts := ["08:00", "12:00"];
    assert OpeningHours.Join(parts, '-') == "08:00-12:00";
    OpeningHours.SplitJoin(parts, '-');
  }

  /** Parsing the tokens of the one-interval schedule. */
  lemma ParseSingleInterval()
    ensures OpeningHours.ParseAll(["08:00", "12:00"]) == Some([480, 720])
  {
    var tokens := ["08:00", "12:00"];
    assert OpeningHours.Pad2(8) + ":" + OpeningHours.Pad2(0) == tokens[0];
    assert OpeningHours.Pad2(12) + ":" + OpeningHours.Pad2(0) == tokens[1];
    OpeningHours.ParseClockPadded(8, 0);
    OpeningHours.ParseClockPadded(12, 0);
    var r := OpeningHours.ParseAll(tokens);
    assert r.Some?;
    assert r.value == [480, 720];
  }

  /** Resource 3 on a Monday: an empty string, no slots. */
  lemma ClosedMonday()
    ensures ResourceTimeslots(AdamMalysz, Monday) == Some([])
  {
    NoDashNoSlots(AdamMalysz, Monday);
  }

  /**
    A Monday run over the three test resources completes and writes exactly
    resource 1's 33 rows, each with capacity 3.
   */
  lemma MondayRun(format: int -> string)
    ensures var run := Run(TestResources, Monday, format);
      run.completed && |run.rows| == 33 &&
      run.rows == SlotRows(Timeslots.GenerateTimeslotsDict([480, 720, 750, 960], 15), 15, 3, format)
  {
    SampleResourceMonday();
    var d := Timeslots.GenerateTimeslotsDict([480, 720, 750, 960], 15);
    BreakScheduleSlots([480, 720, 750, 960], 15);
    var rs := TestResources;
    assert rs[1..] == [JohnnyBravo, AdamMalysz];
    NothingAfterSample(rs[1..], format);
    assert RunFrom(rs, Monday, 3, format) == RunResult(SlotRows(d, 15, 3, format) + [], true);
  }

  /** Resources 2 and 3 write nothing on a Monday, and the run goes through them. */
  lemma NothingAfterSample(rs: seq<Resource>, format: int -> string)
    requires rs == [JohnnyBravo, AdamMalysz]
    ensures RunFrom(rs, Monday, 3, format) == RunResult([], true)
  {
    forall j | 0 <= j < |rs| ensures ResourceTimeslots(rs[j], Monday) == Some([]) {
      if j == 0 {
        SingleIntervalMonday();
      } else {
        ClosedMonday();
      }
    }
    RunWithoutSlots(rs, Monday, 3, format);
  }

  /** Resources that all get an empty dict write nothing, and the run goes through them. */
  lemma {:induction false} RunWithoutSlots(rs: seq<Resource>, day: Weekday, capacity: int, format: int -> string)
    requires forall j :: 0 <= j < |rs| ==> ResourceTimeslots(rs[j], day) == Some([])
    ensures RunFrom(rs, day, capacity, format) == RunResult([], true)
  {
    if rs != [] {
      assert forall j :: 1 <= j < |rs| ==> rs[1..][j - 1] == rs[j];
      RunWithoutSlots(rs[1..], day, capacity, format);
    }
  }
}
