/**
  The daily job `add_slots_every_day`: for the target date (90 days ahead,
  whose weekday is given), every resource row's opening hours for that
  weekday are parsed and partitioned, and one slot row per timeslot is
  inserted and committed. Times are minutes since midnight of the target
  date; the human-readable rendering of a time is the `format` parameter.
 */
module SlotGeneration {
  import opened Wrappers
  import OpeningHours
  import Timeslots

  datatype Weekday = Monday | Tuesday | Wednesday | Thursday | Friday | Saturday | Sunday

  /** `int(resource_data.intervals)` of a row whose interval is a positive number of minutes. */
  type Interval = i: int | i > 0 witness 1

  /** One row of the resources table, as the job reads it. */
  datatype Resource = Resource(
    id: int,
    title: string,
    active: bool,
    intervals: Interval,
    openingHoursMon: string,
    openingHoursTue: string,
    openingHoursWed: string,
    openingHoursThu: string,
    openingHoursFri: string,
    openingHoursSat: string,
    openingHoursSun: string)

  /** One row of the slots table. */
  datatype Slot = Slot(
    timestamp: int,
    timestampEnd: int,
    formattedTimestamp: string,
    formattedTimestampEnd: string,
    free: int,
    availableResources: string,
    maximumCapacity: int)

  /** The fixed placeholder written into every slot's available resources. */
  const AvailableResources := "2"

  /** The English weekday name that `strftime("%A")` gives. */
  function DayName(day: Weekday): string {
    match day
    case Monday => "Monday"
    case Tuesday => "Tuesday"
    case Wednesday => "Wednesday"
    case Thursday => "Thursday"
    case Friday => "Friday"
    case Saturday => "Saturday"
    case Sunday => "Sunday"
  }

  /** `days_culumns_dict`: the resource's opening-hours columns keyed by weekday name. */
  function DaysColumns(r: Resource): map<string, string> {
    map["Monday" := r.openingHoursMon, "Tuesday" := r.openingHoursTue,
        "Wednesday" := r.openingHoursWed, "Thursday" := r.openingHoursThu,
        "Friday" := r.openingHoursFri, "Saturday" := r.openingHoursSat,
        "Sunday" := r.openingHoursSun]
  }

  /**
    `days_culumns_dict[day_name]`: the resource's opening hours for the
    weekday; the lookup never misses, since every weekday's name is a key.
   */
  function OpeningHoursFor(r: Resource, day: Weekday): (hours: string)
    ensures DayName(day) in DaysColumns(r) && hours == DaysColumns(r)[DayName(day)]
  {
    match day
    case Monday => r.openingHoursMon
    case Tuesday => r.openingHoursTue
    case Wednesday => r.openingHoursWed
    case Thursday => r.openingHoursThu
    case Friday => r.openingHoursFri
    case Saturday => r.openingHoursSat
    case Sunday => r.openingHoursSun
  }

  /**
    The timeslot dict of one resource: empty when the day's string has no
    dash; None, on which the run aborts, when one of its tokens is not a
    time or when four boundaries are out of order, so that one of the date
    ranges raises; and otherwise the partition of the parsed boundaries.
   */
  function ResourceTimeslots(r: Resource, day: Weekday): (d: Option<Timeslots.Dict>)
    ensures d.Some? ==> Timeslots.DistinctKeys(d.value)
  {
    var hours := OpeningHoursFor(r, day);
    if OpeningHours.Count(hours, '-') == 0 then Some([])
    else
      match OpeningHours.ParseAll(OpeningHours.Split(hours, '-'))
      case None => None
      case Some(dates) =>
        if Timeslots.RangeRaises(dates) then None
        else Some(Timeslots.GenerateTimeslotsDict(dates, r.intervals))
  }

  /**
    The row written for one dict entry: it starts at the entry's key, lasts
    one interval, carries the entry's flag, the rendered times, the
    placeholder "2" and the capacity.
   */
  predicate RowFor(row: Slot, e: Timeslots.Entry, interval: Interval, capacity: int, format: int -> string) {
    row.timestamp == e.key && row.free == e.flag &&
    row.timestampEnd == row.timestamp + interval &&
    row.formattedTimestamp == format(row.timestamp) &&
    row.formattedTimestampEnd == format(row.timestampEnd) &&
    row.availableResources == AvailableResources &&
    row.maximumCapacity == capacity
  }

  /**
    The rows written for a dict, one per entry in the dict's iteration order.
    When the keys are distinct, so are the rows' starts, and each row's flag
    is what the dict holds for its start.
   */
  function SlotRows(d: Timeslots.Dict, interval: Interval, capacity: int, format: int -> string): (rows: seq<Slot>)
    ensures |rows| == |d|
    ensures forall j :: 0 <= j < |d| ==> RowFor(rows[j], d[j], interval, capacity, format)
    ensures Timeslots.DistinctKeys(d) ==>
      (forall j, k :: 0 <= j < k < |rows| ==> rows[j].timestamp != rows[k].timestamp) &&
      (forall j :: 0 <= j < |rows| ==> Timeslots.Lookup(d, rows[j].timestamp) == Some(rows[j].free))
  {
    LookupAll(d);
    seq(|d|, j requires 0 <= j < |d| =>
      Slot(d[j].key, d[j].key + interval, format(d[j].key), format(d[j].key + interval),
           d[j].flag, AvailableResources, capacity))
  }

  /** In a dict with distinct keys, every entry's key looks up its own flag. */
  lemma LookupAll(d: Timeslots.Dict)
    ensures Timeslots.DistinctKeys(d) ==>
      forall j :: 0 <= j < |d| ==> Timeslots.Lookup(d, d[j].key) == Some(d[j].flag)
  {
    if Timeslots.DistinctKeys(d) {
      forall j | 0 <= j < |d| ensures Timeslots.Lookup(d, d[j].key) == Some(d[j].flag) {
        LookupAt(d, j);
      }
    }
  }

  /** The rows a run writes, and whether it got through every resource. */
  datatype RunResult = RunResult(rows: seq<Slot>, completed: bool)

  /** The run over the resources `rs`, with `capacity` the number of rows read at its start. */
  function RunFrom(rs: seq<Resource>, day: Weekday, capacity: int, format: int -> string): (run: RunResult)
  {
    if rs == [] then RunResult([], true)
    else
      match ResourceTimeslots(rs[0], day)
      case None => RunResult([], false)
      case Some(d) =>
        var rest := RunFrom(rs[1..], day, capacity, format);
        RunResult(SlotRows(d, rs[0].intervals, capacity, format) + rest.rows, rest.completed)
  }

  /** The run from the `i`th resource on, one resource further. */
  lemma RunFromAt(rs: seq<Resource>, i: nat, day: Weekday, capacity: int, format: int -> string)
    requires i < |rs|
    ensures ResourceTimeslots(rs[i], day).None? ==> RunFrom(rs[i..], day, capacity, format) == RunResult([], false)
    ensures ResourceTimeslots(rs[i], day).Some? ==>
      var d := ResourceTimeslots(rs[i], day).value;
      var rest := RunFrom(rs[i + 1..], day, capacity, format);
      RunFrom(rs[i..], day, capacity, format) == RunResult(SlotRows(d, rs[i].intervals, capacity, format) + rest.rows, rest.completed)
  {
    assert rs[i..][0] == rs[i] && rs[i..][1..] == rs[i + 1..];
  }

  /**
    One run of the job. It completes exactly when every resource's opening
    hours for the day give a dict (its tokens parse and, with four
    boundaries, they are in order); it writes one row per distinct slot
    start of every resource it gets through; every row's `maximum_capacity`
    is the number of all resource rows read, whatever their flag or
    schedule, and every row carries the placeholder "2".
   */
  function Run(resources: seq<Resource>, day: Weekday, format: int -> string): (run: RunResult)
    ensures run.completed <==> forall j :: 0 <= j < |resources| ==> ResourceTimeslots(resources[j], day).Some?
    ensures |run.rows| == TotalSlots(resources, day)
    ensures forall s :: s in run.rows ==>
      s.maximumCapacity == |resources| && s.availableResources == AvailableResources
  {
    var run := RunFrom(resources, day, |resources|, format);
    RunCompleted(resources, day, |resources|, format);
    RunRowCount(resources, day, |resources|, format);
    assert forall s :: s in run.rows ==>
      s.maximumCapacity == |resources| && s.availableResources == AvailableResources
    by {
      RunRows(resources, day, |resources|, format);
      forall s | s in run.rows
        ensures s.maximumCapacity == |resources| && s.availableResources == AvailableResources
      {
        var j :| 0 <= j < |run.rows| && run.rows[j] == s;
      }
    }
    run
  }

  /** The slots table, written through a session that commits every insert. */
  class SlotStore {
    var rows: seq<Slot>

    constructor ()
      ensures rows == []
    {
      rows := [];
    }

    /** `session.add(slot)` followed by `session.commit()`. */
    method Insert(slot: Slot)
      modifies this
      ensures rows == old(rows) + [slot]
    {
      rows := rows + [slot];
    }
  }

  /**
    The inner loop of the job: one insert and commit per dict entry, in the
    dict's iteration order.
   */
  method InsertSlots(store: SlotStore, timeslots: Timeslots.Dict, interval: Interval, capacity: int, format: int -> string)
    modifies store
    ensures store.rows == old(store.rows) + SlotRows(timeslots, interval, capacity, format)
  {
    ghost var written := SlotRows(timeslots, interval, capacity, format);
    var k := 0;
    while k < |timeslots|
      invariant 0 <= k <= |timeslots|
      invariant store.rows == old(store.rows) + written[..k]
    {
      var timestamp, free := timeslots[k].key, timeslots[k].flag;
      var timestampEnd := timestamp + interval;
      store.Insert(Slot(timestamp, timestampEnd, format(timestamp), format(timestampEnd),
                        free, AvailableResources, capacity));
      assert written[..k + 1] == written[..k] + [written[k]];
      k := k + 1;
    }
    assert written[..k] == written;
  }

  /**
    The body of the job's loop for one resource: looks up the day's opening
    hours, counts and splits on dashes, parses the tokens and inserts the
    rows of the resulting dict. False, with nothing inserted, when a token
    does not parse or a date range raises.
   */
  method AddResourceSlots(store: SlotStore, resource: Resource, day: Weekday, capacity: int, format: int -> string)
    returns (parsed: bool)
    modifies store
    ensures parsed == ResourceTimeslots(resource, day).Some?
    ensures store.rows == old(store.rows) +
      if parsed then SlotRows(ResourceTimeslots(resource, day).value, resource.intervals, capacity, format) else []
  {
    var hours := OpeningHoursFor(resource, day);
    var dashCount := OpeningHours.Count(hours, '-');
    var parts := OpeningHours.Split(hours, '-');
    if dashCount != 0 {
      var dates := OpeningHours.ParseAll(parts);
      if dates.None? || Timeslots.RangeRaises(dates.value) {
        return false;
      }
      var timeslots := Timeslots.GenerateTimeslotsDict(dates.value, resource.intervals);
      InsertSlots(store, timeslots, resource.intervals, capacity, format);
    }
    return true;
  }

  /**
    `add_slots_every_day`: appends to the store exactly the rows of `Run`;
    the result is false when a token failed to parse or a date range raised,
    in which case the rows of the resources before it stay committed.
   */
  method AddSlotsEveryDay(store: SlotStore, resources: seq<Resource>, day: Weekday, format: int -> string)
    returns (completed: bool)
    modifies store
    ensures completed == Run(resources, day, format).completed
    ensures store.rows == old(store.rows) + Run(resources, day, format).rows
  {
    var resourcesNum := |resources|;
    ghost var run := RunFrom(resources, day, resourcesNum, format);
    var i := 0;
    assert resources[i..] == resources;
    while i < |resources|
      invariant 0 <= i <= |resources|
      invariant old(store.rows) + run.rows == store.rows + RunFrom(resources[i..], day, resourcesNum, format).rows
      invariant run.completed == RunFrom(resources[i..], day, resourcesNum, format).completed
    {
      var resource := resources[i];
      ghost var before := store.rows;
      RunFromAt(resources, i, day, resourcesNum, format);
      var parsed := AddResourceSlots(store, resource, day, resourcesNum, format);
      if !parsed {
        return false;
      }
      Timeslots.AppendAssoc(before, SlotRows(ResourceTimeslots(resource, day).value, resource.intervals, resourcesNum, format),
                            RunFrom(resources[i + 1..], day, resourcesNum, format).rows);
      i := i + 1;
    }
    assert resources[i..] == [];
    return true;
  }

  /** A resource whose string for the day has no dash, the empty string included, gets no slots. */
  lemma NoDashNoSlots(r: Resource, day: Weekday)
    requires '-' !in OpeningHoursFor(r, day)
    ensures ResourceTimeslots(r, day) == Some([])
  {
    OpeningHours.CountZeroIff(OpeningHoursFor(r, day), '-');
  }

  /**
    One or two dashes (two or three boundaries) produce no slots either:
    `generate_timeslots_dict` has no branch for them. Only a bad token
    makes such a string abort the run instead.
   */
  lemma OneOrTwoDashesNoSlots(r: Resource, day: Weekday)
    requires 1 <= OpeningHours.Count(OpeningHoursFor(r, day), '-') <= 2
    ensures ResourceTimeslots(r, day) == Some([]) || ResourceTimeslots(r, day) == None
    ensures ResourceTimeslots(r, day) == None <==>
      exists i :: 0 <= i < |OpeningHours.Split(OpeningHoursFor(r, day), '-')| &&
        OpeningHours.ParseClock(OpeningHours.Split(OpeningHoursFor(r, day), '-')[i]) == None
  {
    var parts := OpeningHours.Split(OpeningHoursFor(r, day), '-');
    match OpeningHours.ParseAll(parts)
    case None =>
    case Some(dates) =>
      assert |dates| == 2 || |dates| == 3;
      assert Timeslots.GenerateTimeslotsDict(dates, r.intervals) == [];
  }

  /** Every row written for a resource: its interval long, flagged as in the dict, one per distinct start. */
  lemma ResourceRows(r: Resource, day: Weekday, capacity: int, format: int -> string)
    requires ResourceTimeslots(r, day).Some?
    ensures var d := ResourceTimeslots(r, day).value;
      var rows := SlotRows(d, r.intervals, capacity, format);
      |rows| == |Timeslots.Keys(d)| &&
      (forall j :: 0 <= j < |rows| ==>
        rows[j].timestampEnd == rows[j].timestamp + r.intervals &&
        rows[j].formattedTimestamp == format(rows[j].timestamp) &&
        rows[j].formattedTimestampEnd == format(rows[j].timestampEnd) &&
        Timeslots.Lookup(d, rows[j].timestamp) == Some(rows[j].free) &&
        rows[j].availableResources == AvailableResources &&
        rows[j].maximumCapacity == capacity) &&
      (forall j, k :: 0 <= j < k < |rows| ==> rows[j].timestamp != rows[k].timestamp)
  {
    Timeslots.DistinctKeysCount(ResourceTimeslots(r, day).value);
  }

  /** In a dict with distinct keys, looking up the key of an entry finds that entry's flag. */
  lemma {:induction false} LookupAt(d: Timeslots.Dict, j: nat)
    requires Timeslots.DistinctKeys(d) && j < |d|
    ensures Timeslots.Lookup(d, d[j].key) == Some(d[j].flag)
  {
    if j > 0 {
      assert d[1..][j - 1] == d[j];
      assert Timeslots.DistinctKeys(d[1..]);
      LookupAt(d[1..], j - 1);
    }
  }

  /** The intervals of a list of resources. */
  ghost function IntervalsOf(rs: seq<Resource>): set<int> {
    set r | r in rs :: r.intervals as int
  }

  /**
    Rows carrying the placeholder "2", the given capacity, and an end one of
    the given intervals after their start.
   */
  ghost predicate RowsShaped(rows: seq<Slot>, capacity: int, intervals: set<int>) {
    forall j :: 0 <= j < |rows| ==>
      rows[j].availableResources == AvailableResources &&
      rows[j].maximumCapacity == capacity &&
      rows[j].timestampEnd - rows[j].timestamp in intervals
  }

  lemma RowsShapedConcat(a: seq<Slot>, b: seq<Slot>, capacity: int, intervals: set<int>)
    requires RowsShaped(a, capacity, intervals) && RowsShaped(b, capacity, intervals)
    ensures RowsShaped(a + b, capacity, intervals)
  {
    forall j | |a| <= j < |a + b| ensures (a + b)[j] == b[j - |a|] {}
  }

  /**
    Every row of a run carries the placeholder "2", the capacity read at the
    start, and an end one resource interval after its start.
   */
  lemma {:induction false} RunRows(rs: seq<Resource>, day: Weekday, capacity: int, format: int -> string)
    ensures RowsShaped(RunFrom(rs, day, capacity, format).rows, capacity, IntervalsOf(rs))
  {
    if rs != [] && ResourceTimeslots(rs[0], day).Some? {
      var first := SlotRows(ResourceTimeslots(rs[0], day).value, rs[0].intervals, capacity, format);
      var rest := RunFrom(rs[1..], day, capacity, format).rows;
      assert RunFrom(rs, day, capacity, format).rows == first + rest;
      RunRows(rs[1..], day, capacity, format);
      IntervalsOfTail(rs);
      assert RowsShaped(rest, capacity, IntervalsOf(rs));
      assert rs[0] in rs;
      SlotRowsShaped(ResourceTimeslots(rs[0], day).value, rs[0].intervals, capacity, format, IntervalsOf(rs));
      RowsShapedConcat(first, rest, capacity, IntervalsOf(rs));
    }
  }

  lemma SlotRowsShaped(d: Timeslots.Dict, interval: Interval, capacity: int, format: int -> string, intervals: set<int>)
    requires interval as int in intervals
    ensures RowsShaped(SlotRows(d, interval, capacity, format), capacity, intervals)
  {
    var rows := SlotRows(d, interval, capacity, format);
    forall j | 0 <= j < |rows| ensures rows[j].timestampEnd - rows[j].timestamp == interval as int {
      assert RowFor(rows[j], d[j], interval, capacity, format);
    }
  }

  lemma IntervalsOfTail(rs: seq<Resource>)
    requires rs != []
    ensures IntervalsOf(rs[1..]) <= IntervalsOf(rs)
  {
    forall x | x in IntervalsOf(rs[1..]) ensures x in IntervalsOf(rs) {
      var r :| r in rs[1..] && r.intervals as int == x;
      assert r in rs;
    }
  }

  /**
    A run completes exactly when every resource's tokens parse and, with
    four boundaries, are in order.
   */
  lemma {:induction false} RunCompleted(rs: seq<Resource>, day: Weekday, capacity: int, format: int -> string)
    ensures RunFrom(rs, day, capacity, format).completed <==>
      forall j :: 0 <= j < |rs| ==> ResourceTimeslots(rs[j], day).Some?
  {
    if rs != [] {
      RunCompleted(rs[1..], day, capacity, format);
      assert forall j :: 1 <= j < |rs| ==> rs[1..][j - 1] == rs[j];
    }
  }

  /**
    A resource whose tokens do not parse, or whose four boundaries are out
    of order, stops the run: nothing after it is written, and what the
    resources before it wrote stays.
   */
  lemma {:induction false} RunStopsAtFailure(rs: seq<Resource>, k: nat, day: Weekday, capacity: int, format: int -> string)
    requires k < |rs| && ResourceTimeslots(rs[k], day).None?
    ensures RunFrom(rs, day, capacity, format).rows == RunFrom(rs[..k], day, capacity, format).rows
    ensures !RunFrom(rs, day, capacity, format).completed
  {
    if k == 0 {
      assert rs[..k] == [];
    } else if ResourceTimeslots(rs[0], day).Some? {
      RunStopsAtFailure(rs[1..], k - 1, day, capacity, format);
      assert rs[..k][0] == rs[0] && rs[..k][1..] == rs[1..][..k - 1];
    } else {
      assert rs[..k][0] == rs[0];
    }
  }

  /** Two resource rows with the same interval and opening hours; id, title and active may differ. */
  predicate SameSchedule(r: Resource, r': Resource) {
    r.intervals == r'.intervals &&
    r.openingHoursMon == r'.openingHoursMon && r.openingHoursTue == r'.openingHoursTue &&
    r.openingHoursWed == r'.openingHoursWed && r.openingHoursThu == r'.openingHoursThu &&
    r.openingHoursFri == r'.openingHoursFri && r.openingHoursSat == r'.openingHoursSat &&
    r.openingHoursSun == r'.openingHoursSun
  }

  /** The `active` flag (and the id and title) play no part: inactive resources get slots too. */
  lemma {:induction false} RunIgnoresActive(rs: seq<Resource>, rs': seq<Resource>, day: Weekday, format: int -> string)
    requires |rs| == |rs'| && forall j :: 0 <= j < |rs| ==> SameSchedule(rs[j], rs'[j])
    ensures Run(rs, day, format) == Run(rs', day, format)
  {
    SameScheduleRun(rs, rs', day, |rs|, format);
  }

  lemma {:induction false} SameScheduleRun(rs: seq<Resource>, rs': seq<Resource>, day: Weekday, capacity: int, format: int -> string)
    requires |rs| == |rs'| && forall j :: 0 <= j < |rs| ==> SameSchedule(rs[j], rs'[j])
    ensures RunFrom(rs, day, capacity, format) == RunFrom(rs', day, capacity, format)
  {
    if rs != [] {
      assert OpeningHoursFor(rs[0], day) == OpeningHoursFor(rs'[0], day);
      assert ResourceTimeslots(rs[0], day) == ResourceTimeslots(rs'[0], day);
      SameScheduleRun(rs[1..], rs'[1..], day, capacity, format);
    }
  }

  /**
    The number of distinct slot starts of the resources' dicts, counted up
    to the first resource whose tokens do not parse or whose four
    boundaries are out of order.
   */
  ghost function TotalSlots(rs: seq<Resource>, day: Weekday): nat {
    if rs == [] then 0
    else match ResourceTimeslots(rs[0], day)
      case None => 0
      case Some(d) => |Timeslots.Keys(d)| + TotalSlots(rs[1..], day)
  }

  /**
    A run writes one row per distinct slot start of every resource it gets
    through; a completed run gets through all of them.
   */
  lemma {:induction false} RunRowCount(rs: seq<Resource>, day: Weekday, capacity: int, format: int -> string)
    ensures |RunFrom(rs, day, capacity, format).rows| == TotalSlots(rs, day)
  {
    if rs != [] && ResourceTimeslots(rs[0], day).Some? {
      Timeslots.DistinctKeysCount(ResourceTimeslots(rs[0], day).value);
      RunRowCount(rs[1..], day, capacity, format);
    }
  }
}
