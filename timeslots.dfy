/**
  The partition of a day's boundary times into slot start times
  (`generate_timeslots_dict`). Python's insertion-ordered `dict` from start
  time to availability flag is modelled as a sequence of entries in
  insertion order, with assignment to an existing key keeping the key's
  place and replacing its flag.
 */
module Timeslots {
  import opened Wrappers

  /** The flag of a slot inside working hours. */
  const Free := 1
  /** The flag of a slot inside the midday break. */
  const Blocked := 0

  datatype Entry = Entry(key: int, flag: int)

  /** A Python dict from start time to flag, in insertion order. */
  type Dict = seq<Entry>

  ghost function Keys(d: Dict): set<int> {
    set i | 0 <= i < |d| :: d[i].key
  }

  predicate DistinctKeys(d: Dict) {
    forall i, j :: 0 <= i < j < |d| ==> d[i].key != d[j].key
  }

  /** Keys strictly increasing in insertion order: chronological slots. */
  predicate Chronological(d: Dict) {
    forall i, j :: 0 <= i < j < |d| ==> d[i].key < d[j].key
  }

  /** `d.get(k)`. */
  function Lookup(d: Dict, k: int): (r: Option<int>)
    ensures r.Some? <==> k in Keys(d)
  {
    if d == [] then None
    else if d[0].key == k then Some(d[0].flag)
    else
      assert Keys(d) == {d[0].key} + Keys(d[1..]) by {
        forall x | x in Keys(d) ensures x in {d[0].key} + Keys(d[1..]) {
          var i :| 0 <= i < |d| && d[i].key == x;
          if i > 0 { assert d[1..][i - 1].key == x; }
        }
      }
      Lookup(d[1..], k)
  }

  /** `d[k] = v`: replaces the flag of an existing key in place, else appends. */
  function Put(d: Dict, k: int, v: int): (r: Dict)
    ensures Lookup(r, k) == Some(v)
    ensures forall k' :: k' != k ==> Lookup(r, k') == Lookup(d, k')
    ensures DistinctKeys(d) ==> DistinctKeys(r)
    ensures |r| == if Lookup(d, k).Some? then |d| else |d| + 1
  {
    if d == [] then [Entry(k, v)]
    else if d[0].key == k then [Entry(k, v)] + d[1..]
    else
      var r := [d[0]] + Put(d[1..], k, v);
      assert DistinctKeys(d) ==> DistinctKeys(r) by {
        if DistinctKeys(d) {
          forall j | 1 <= j < |r| ensures r[j].key != d[0].key {
            var rest := Put(d[1..], k, v);
            assert r[j] == rest[j - 1];
            if Lookup(rest, r[j].key) != Lookup(d[1..], r[j].key) {
              assert r[j].key == k;
            } else {
              assert Lookup(rest, r[j].key).Some? by {
                assert rest[j - 1].key in Keys(rest);
              }
              var i :| 0 <= i < |d[1..]| && d[1..][i].key == r[j].key;
              assert d[i + 1].key == r[j].key;
            }
          }
        }
      }
      r
  }

  /** `d.update(items)`: assigns every item in order, so the last write of a key wins. */
  function Update(d: Dict, items: seq<Entry>): (r: Dict)
    ensures DistinctKeys(d) ==> DistinctKeys(r)
    decreases |items|
  {
    if items == [] then d else Update(Put(d, items[0].key, items[0].flag), items[1..])
  }

  /** The items `(x, flag)` for every `x` of `xs`, in order. */
  function Items(xs: seq<int>, flag: int): (items: seq<Entry>)
    ensures |items| == |xs|
    ensures forall i :: 0 <= i < |xs| ==> items[i] == Entry(xs[i], flag)
  {
    seq(|xs|, i requires 0 <= i < |xs| => Entry(xs[i], flag))
  }

  lemma ItemsCons(xs: seq<int>, flag: int)
    requires xs != []
    ensures Items(xs, flag) == [Entry(xs[0], flag)] + Items(xs[1..], flag)
  {
  }

  /** `{x: flag for x in xs}`. */
  function Comprehension(xs: seq<int>, flag: int): (d: Dict)
    ensures DistinctKeys(d)
  {
    Update([], Items(xs, flag))
  }

  /**
    `DateTimeRange(start, end).range(step)`: start, start + step, ... for as
    long as the value is at most `end`, so `end` itself is produced when
    `step` divides `end - start`.
   */
  function Steps(start: int, end: int, step: int): (r: seq<int>)
    requires step > 0
    ensures |r| == if start <= end then (end - start) / step + 1 else 0
    ensures forall j :: 0 <= j < |r| ==> r[j] == start + j * step
    decreases end - start + step
  {
    if start > end then []
    else
      var rest := Steps(start + step, end, step);
      assert |rest| == (end - start) / step by {
        if start + step <= end {
          DivShift(end - start - step, step);
        } else {
          assert (end - start) / step == 0;
        }
      }
      [start] + rest
  }

  lemma MulAtLeast(d: int, b: int)
    requires b > 0 && d >= 1
    ensures d * b >= b
  {
    assert d * b == (d - 1) * b + b;
  }

  lemma MulAtMost(d: int, b: int)
    requires b > 0 && d <= -1
    ensures d * b <= -b
  {
    assert d * b == (d + 1) * b - b;
    assert (d + 1) * b <= 0;
  }

  /** Euclidean division is determined by its quotient-remainder equation. */
  lemma DivModUnique(a: int, b: int, q: int, r: int)
    requires b > 0 && a == q * b + r && 0 <= r < b
    ensures a / b == q && a % b == r
  {
    var q0, r0 := a / b, a % b;
    var d := q - q0;
    assert d * b == q * b - q0 * b;
    if d >= 1 { MulAtLeast(d, b); }
    if d <= -1 { MulAtMost(d, b); }
  }

  lemma DivModDef(a: int, b: int)
    requires b > 0
    ensures a == a / b * b + a % b && 0 <= a % b < b
  {
  }

  lemma DivShift(a: int, b: int)
    requires a >= 0 && b > 0
    ensures (a + b) / b == a / b + 1
  {
    assert (a / b + 1) * b == a / b * b + b;
    DivModUnique(a + b, b, a / b + 1, a % b);
  }

  lemma DivMonotone(a: int, b: int, d: int)
    requires 0 <= a <= b && d > 0
    ensures a / d <= b / d
  {
    var qa, qb := a / d, b / d;
    if qa > qb {
      assert (qa - qb) * d == qa * d - qb * d;
      MulAtLeast(qa - qb, d);
    }
  }

  lemma MulMonotone(a: int, b: int, c: int)
    requires 0 <= a <= b && c > 0
    ensures a * c <= b * c
  {
    assert b * c - a * c == (b - a) * c;
    if b - a >= 1 { MulAtLeast(b - a, c); }
  }

  /** The values `Steps` produces are exactly the multiples of `step` past `start` up to `end`. */
  lemma StepsMembership(start: int, end: int, step: int, x: int)
    requires step > 0
    ensures x in Steps(start, end, step) <==> start <= x <= end && (x - start) % step == 0
  {
    if start <= x <= end && (x - start) % step == 0 {
      OnGridInSteps(start, end, step, x);
    }
    if x in Steps(start, end, step) {
      InStepsOnGrid(start, end, step, x);
    }
  }

  lemma OnGridInSteps(start: int, end: int, step: int, x: int)
    requires step > 0 && start <= x <= end && (x - start) % step == 0
    ensures x in Steps(start, end, step)
  {
    var r := Steps(start, end, step);
    var j := (x - start) / step;
    DivModDef(x - start, step);
    assert x == start + j * step;
    DivMonotone(x - start, end - start, step);
    assert 0 <= j < |r|;
    assert r[j] == x;
  }

  lemma InStepsOnGrid(start: int, end: int, step: int, x: int)
    requires step > 0 && x in Steps(start, end, step)
    ensures start <= x <= end && (x - start) % step == 0
  {
    var r := Steps(start, end, step);
    var j :| 0 <= j < |r| && r[j] == x;
    var q := (end - start) / step;
    assert x - start == j * step;
    DivModUnique(x - start, step, j, 0);
    assert j <= q;
    MulMonotone(j, q, step);
    DivModDef(end - start, step);
  }

  /** Python keeps the flag of the last item written for a key. */
  lemma {:induction false} UpdateItemsLookup(d: Dict, xs: seq<int>, flag: int, k: int)
    ensures Lookup(Update(d, Items(xs, flag)), k) == if k in xs then Some(flag) else Lookup(d, k)
    decreases |xs|
  {
    if xs != [] {
      var p := Put(d, xs[0], flag);
      UpdateItemsCons(d, xs, flag);
      UpdateItemsLookup(p, xs[1..], flag, k);
      assert Lookup(p, k) == if k == xs[0] then Some(flag) else Lookup(d, k);
      InCons(xs, k);
    }
  }

  lemma InCons(xs: seq<int>, k: int)
    requires xs != []
    ensures k in xs <==> k == xs[0] || k in xs[1..]
  {
    assert xs == [xs[0]] + xs[1..];
  }

  lemma ComprehensionLookup(xs: seq<int>, flag: int, k: int)
    ensures Lookup(Comprehension(xs, flag), k) == if k in xs then Some(flag) else None
  {
    UpdateItemsLookup([], xs, flag, k);
  }

  /** Updating with a dict: its keys take their flags from it, all other keys keep theirs. */
  lemma {:induction false} UpdateLookup(d: Dict, src: Dict, k: int)
    requires DistinctKeys(src)
    ensures Lookup(Update(d, src), k) == if Lookup(src, k).Some? then Lookup(src, k) else Lookup(d, k)
    decreases |src|
  {
    if src != [] {
      UpdateLookup(Put(d, src[0].key, src[0].flag), src[1..], k);
      if k == src[0].key {
        assert Lookup(src, k) == Some(src[0].flag);
        forall i | 0 <= i < |src[1..]| ensures src[1..][i].key != k {
          assert src[1..][i] == src[i + 1];
        }
      }
    }
  }

  /**
    `generate_timeslots_dict` as written: one boundary gives the single
    start flagged free; four boundaries `[open, breakStart, breakEnd, close]`
    give the free range, then the blocked break range, then the free
    afternoon range, merged with `dict.update`; any other number of
    boundaries gives the empty dict. This is the dict it returns when it
    does not raise (see `RangeRaises`).
   */
  function GenerateTimeslotsDict(bounds: seq<int>, interval: int): (d: Dict)
    requires interval > 0
    ensures DistinctKeys(d)
    ensures |bounds| == 1 ==> d == [Entry(bounds[0], Free)]
    ensures |bounds| != 1 && |bounds| != 4 ==> d == []
  {
    if |bounds| == 1 then
      var only := Entry(bounds[0], Free);
      assert Items(Steps(bounds[0], bounds[0], interval), Free) == [only];
      assert [only][1..] == [];
      assert Update([], [only]) == Update(Put([], bounds[0], Free), []) == [only];
      Comprehension(Steps(bounds[0], bounds[0], interval), Free)
    else if |bounds| == 4 then
      var first := Comprehension(Steps(bounds[0], bounds[1], interval), Free);
      var second := Comprehension(Steps(bounds[1], bounds[2], interval), Blocked);
      var third := Comprehension(Steps(bounds[2], bounds[3], interval), Free);
      Update(Update(Update([], first), second), third)
    else
      []
  }

  /**
    Whether `generate_timeslots_dict` raises: `DateTimeRange(start, end).range`
    with a positive step raises `ValueError` when the range is inverted
    (start after end), and the three ranges of a four-boundary schedule are
    all built before the first `update`. One boundary gives the range from a
    time to itself, and other counts build no range, so neither raises.
   */
  predicate RangeRaises(bounds: seq<int>) {
    |bounds| == 4 && !(bounds[0] <= bounds[1] <= bounds[2] <= bounds[3])
  }

  /** The flag a four-boundary schedule gives `k`: the afternoon overrides the break, the break the morning. */
  function BreakScheduleFlag(bounds: seq<int>, interval: int, k: int): Option<int>
    requires |bounds| == 4 && interval > 0
  {
    if k in Steps(bounds[2], bounds[3], interval) then Some(Free)
    else if k in Steps(bounds[1], bounds[2], interval) then Some(Blocked)
    else if k in Steps(bounds[0], bounds[1], interval) then Some(Free)
    else None
  }

  /** Last-write-wins merge of the three ranges of a four-boundary schedule. */
  lemma BreakScheduleLookup(bounds: seq<int>, interval: int, k: int)
    requires |bounds| == 4 && interval > 0
    ensures Lookup(GenerateTimeslotsDict(bounds, interval), k) == BreakScheduleFlag(bounds, interval, k)
  {
    var s1 := Steps(bounds[0], bounds[1], interval);
    var s2 := Steps(bounds[1], bounds[2], interval);
    var s3 := Steps(bounds[2], bounds[3], interval);
    var first := Comprehension(s1, Free);
    var second := Comprehension(s2, Blocked);
    var third := Comprehension(s3, Free);
    ComprehensionLookup(s1, Free, k);
    ComprehensionLookup(s2, Blocked, k);
    ComprehensionLookup(s3, Free, k);
    UpdateLookup([], first, k);
    UpdateLookup(Update([], first), second, k);
    UpdateLookup(Update(Update([], first), second), third, k);
  }

  /**
    The keys of a four-boundary schedule: the stepped times of the morning,
    the break and the afternoon, each range up to and including its end.
   */
  lemma BreakScheduleKeys(bounds: seq<int>, interval: int, k: int)
    requires |bounds| == 4 && interval > 0
    ensures k in Keys(GenerateTimeslotsDict(bounds, interval)) <==>
      (bounds[0] <= k <= bounds[1] && (k - bounds[0]) % interval == 0) ||
      (bounds[1] <= k <= bounds[2] && (k - bounds[1]) % interval == 0) ||
      (bounds[2] <= k <= bounds[3] && (k - bounds[2]) % interval == 0)
  {
    BreakScheduleLookup(bounds, interval, k);
    StepsMembership(bounds[0], bounds[1], interval, k);
    StepsMembership(bounds[1], bounds[2], interval, k);
    StepsMembership(bounds[2], bounds[3], interval, k);
  }

  /**
    With ordered boundaries, a start is blocked exactly when it is a step of
    the break strictly before the break's end; every other start is free.
    In particular the break start is blocked and the break end is free.
   */
  lemma BreakScheduleBlocked(bounds: seq<int>, interval: int, k: int)
    requires |bounds| == 4 && interval > 0
    requires bounds[0] <= bounds[1] <= bounds[2] <= bounds[3]
    ensures Lookup(GenerateTimeslotsDict(bounds, interval), k) == Some(Blocked) <==>
      bounds[1] <= k < bounds[2] && (k - bounds[1]) % interval == 0
    ensures Lookup(GenerateTimeslotsDict(bounds, interval), k) == Some(Free) <==>
      k in Keys(GenerateTimeslotsDict(bounds, interval)) && !(bounds[1] <= k < bounds[2] && (k - bounds[1]) % interval == 0)
  {
    BreakScheduleLookup(bounds, interval, k);
    StepsMembership(bounds[0], bounds[1], interval, k);
    StepsMembership(bounds[1], bounds[2], interval, k);
    StepsMembership(bounds[2], bounds[3], interval, k);
  }

  lemma BreakEdgesFlags(bounds: seq<int>, interval: int)
    requires |bounds| == 4 && interval > 0
    requires bounds[0] <= bounds[1] < bounds[2] <= bounds[3]
    ensures Lookup(GenerateTimeslotsDict(bounds, interval), bounds[1]) == Some(Blocked)
    ensures Lookup(GenerateTimeslotsDict(bounds, interval), bounds[2]) == Some(Free)
  {
    BreakScheduleBlocked(bounds, interval, bounds[1]);
    BreakScheduleBlocked(bounds, interval, bounds[2]);
    BreakScheduleKeys(bounds, interval, bounds[2]);
  }

  /**
    Slots do not tile the day when the interval does not divide the morning:
    the last free morning slot starts less than one interval before the
    break, so it runs past the start of the first blocked slot.
   */
  lemma OverlappingSlots(bounds: seq<int>, interval: int)
    requires |bounds| == 4 && interval > 0
    requires bounds[0] <= bounds[1] < bounds[2] <= bounds[3]
    requires (bounds[1] - bounds[0]) % interval != 0
    ensures var d := GenerateTimeslotsDict(bounds, interval);
      var last := bounds[1] - (bounds[1] - bounds[0]) % interval;
      Lookup(d, last) == Some(Free) && Lookup(d, bounds[1]) == Some(Blocked) &&
      last < bounds[1] < last + interval
  {
    var last := bounds[1] - (bounds[1] - bounds[0]) % interval;
    LastOnGrid(bounds[0], bounds[1], interval);
    BreakScheduleKeys(bounds, interval, last);
    BreakScheduleBlocked(bounds, interval, last);
    BreakEdgesFlags(bounds, interval);
  }

  /**
    The same at the end of the break when the interval does not divide the
    break: the last blocked slot starts less than one interval before the
    break end, so it runs past the start of the first free afternoon slot.
   */
  lemma OverlappingBreakEnd(bounds: seq<int>, interval: int)
    requires |bounds| == 4 && interval > 0
    requires bounds[0] <= bounds[1] < bounds[2] <= bounds[3]
    requires (bounds[2] - bounds[1]) % interval != 0
    ensures var d := GenerateTimeslotsDict(bounds, interval);
      var last := bounds[2] - (bounds[2] - bounds[1]) % interval;
      Lookup(d, last) == Some(Blocked) && Lookup(d, bounds[2]) == Some(Free) &&
      last < bounds[2] < last + interval
  {
    var last := bounds[2] - (bounds[2] - bounds[1]) % interval;
    LastOnGrid(bounds[1], bounds[2], interval);
    BreakScheduleBlocked(bounds, interval, last);
    BreakEdgesFlags(bounds, interval);
  }

  /** The last grid point of a range lies within one step of the range's end. */
  lemma LastOnGrid(start: int, end: int, step: int)
    requires start <= end && step > 0
    ensures var last := end - (end - start) % step;
      start <= last <= end < last + step && (last - start) % step == 0
  {
    var last := end - (end - start) % step;
    DivModDef(end - start, step);
    DivModUnique(last - start, step, (end - start) / step, 0);
  }

  predicate Increasing(xs: seq<int>) {
    forall i, j :: 0 <= i < j < |xs| ==> xs[i] < xs[j]
  }

  predicate KeysAtMost(d: Dict, bound: int) {
    forall i :: 0 <= i < |d| ==> d[i].key <= bound
  }

  /** A key not yet present is appended at the end. */
  lemma {:induction false} PutNew(d: Dict, k: int, v: int)
    requires k !in Keys(d)
    ensures Put(d, k, v) == d + [Entry(k, v)]
  {
    if d != [] {
      assert d[0].key in Keys(d);
      assert k !in Keys(d[1..]) by {
        forall i | 0 <= i < |d[1..]| ensures d[1..][i].key != k {
          assert d[1..][i] == d[i + 1];
        }
      }
      PutNew(d[1..], k, v);
      assert Put(d, k, v) == [d[0]] + Put(d[1..], k, v);
      assert d == [d[0]] + d[1..];
      AppendAssoc([d[0]], d[1..], [Entry(k, v)]);
    }
  }

  lemma KeysAppend(d: Dict, e: Entry)
    ensures Keys(d + [e]) == Keys(d) + {e.key}
  {
    var d' := d + [e];
    forall x | x in Keys(d') ensures x in Keys(d) + {e.key} {
      var j :| 0 <= j < |d'| && d'[j].key == x;
      if j < |d| { assert d[j].key in Keys(d); }
    }
    forall x | x in Keys(d) ensures x in Keys(d') {
      var j :| 0 <= j < |d| && d[j].key == x;
      assert d'[j].key == x;
    }
    assert d'[|d|].key == e.key;
  }

  lemma AppendAssoc<T>(a: seq<T>, b: seq<T>, c: seq<T>)
    ensures (a + b) + c == a + (b + c)
  {
  }

  /** Updating with fresh, distinct keys appends them in order. */
  lemma {:induction false} UpdateFresh(d: Dict, xs: seq<int>, flag: int)
    requires Increasing(xs)
    requires forall i :: 0 <= i < |xs| ==> xs[i] !in Keys(d)
    ensures Update(d, Items(xs, flag)) == d + Items(xs, flag)
    decreases |xs|
  {
    if xs != [] {
      var rest := Items(xs[1..], flag);
      var d' := d + [Entry(xs[0], flag)];
      UpdateItemsCons(d, xs, flag);
      PutNew(d, xs[0], flag);
      FreshAfterAppend(d, xs, flag);
      UpdateFresh(d', xs[1..], flag);
      ItemsCons(xs, flag);
      AppendAssoc(d, [Entry(xs[0], flag)], rest);
    }
  }

  lemma FreshAfterAppend(d: Dict, xs: seq<int>, flag: int)
    requires Increasing(xs) && xs != []
    requires forall i :: 0 <= i < |xs| ==> xs[i] !in Keys(d)
    ensures forall i :: 0 <= i < |xs[1..]| ==> xs[1..][i] !in Keys(d + [Entry(xs[0], flag)])
  {
    KeysAppend(d, Entry(xs[0], flag));
    forall i | 0 <= i < |xs[1..]| ensures xs[1..][i] !in Keys(d + [Entry(xs[0], flag)]) {
      assert xs[1..][i] == xs[i + 1] && xs[0] < xs[i + 1];
    }
  }

  /** Assigning a key no smaller than every present key keeps the dict chronological. */
  lemma PutChronological(d: Dict, k: int, v: int)
    requires Chronological(d) && KeysAtMost(d, k)
    ensures Chronological(Put(d, k, v)) && KeysAtMost(Put(d, k, v), k)
  {
    PutAfter(d, k, v);
    KeptBelow(d, k);
    var kept := DropLastKey(d, k);
    assert Chronological(kept + [Entry(k, v)]) && KeysAtMost(kept + [Entry(k, v)], k);
  }

  /** What stays of a chronological dict once a key at least as large as all is set aside. */
  lemma KeptBelow(d: Dict, k: int)
    requires Chronological(d) && KeysAtMost(d, k)
    ensures Chronological(DropLastKey(d, k))
    ensures forall i :: 0 <= i < |DropLastKey(d, k)| ==> DropLastKey(d, k)[i].key < k
  {
    var kept := DropLastKey(d, k);
    forall i | 0 <= i < |kept| ensures kept[i].key < k {
      assert kept[i] == d[i];
      if i < |d| - 1 {
        assert d[i].key < d[|d| - 1].key;
      }
    }
  }

  /** Updating a chronological dict with a later chronological one keeps it chronological. */
  lemma {:induction false} UpdateChronological(d: Dict, src: Dict)
    requires Chronological(d) && Chronological(src)
    requires src != [] ==> KeysAtMost(d, src[0].key)
    ensures Chronological(Update(d, src))
    ensures src != [] ==> KeysAtMost(Update(d, src), src[|src| - 1].key)
    decreases |src|
  {
    if src != [] {
      var p := Put(d, src[0].key, src[0].flag);
      PutChronological(d, src[0].key, src[0].flag);
      assert Update(d, src) == Update(p, src[1..]);
      var rest := src[1..];
      ChronologicalTail(src);
      if rest == [] {
        assert Update(p, rest) == p;
      } else {
        assert rest[0] == src[1] && rest[|rest| - 1] == src[|src| - 1];
        assert src[0].key < src[1].key;
        UpdateChronological(p, rest);
      }
    }
  }

  lemma ChronologicalTail(src: Dict)
    requires Chronological(src) && src != []
    ensures Chronological(src[1..])
  {
    var rest := src[1..];
    forall i, j | 0 <= i < j < |rest| ensures rest[i].key < rest[j].key {
      assert rest[i] == src[i + 1] && rest[j] == src[j + 1];
    }
  }

  lemma StepsIncreasing(start: int, end: int, step: int)
    requires step > 0
    ensures Increasing(Steps(start, end, step))
  {
    var r := Steps(start, end, step);
    forall i, j | 0 <= i < j < |r| ensures r[i] < r[j] {
      MulAtLeast(j - i, step);
      assert r[j] - r[i] == (j - i) * step;
    }
  }

  /** A comprehension over a range is the range's steps, in order, all with one flag. */
  lemma ComprehensionOfSteps(start: int, end: int, step: int, flag: int)
    requires step > 0
    ensures Comprehension(Steps(start, end, step), flag) == Items(Steps(start, end, step), flag)
    ensures Chronological(Items(Steps(start, end, step), flag))
  {
    StepsIncreasing(start, end, step);
    UpdateFresh([], Steps(start, end, step), flag);
  }

  /**
    With ordered boundaries the dict lists its starts in chronological
    order, so slots are inserted from the earliest to the latest.
   */
  lemma BreakScheduleChronological(bounds: seq<int>, interval: int)
    requires |bounds| == 4 && interval > 0
    requires bounds[0] <= bounds[1] <= bounds[2] <= bounds[3]
    ensures Chronological(GenerateTimeslotsDict(bounds, interval))
  {
    var s1 := Steps(bounds[0], bounds[1], interval);
    var s2 := Steps(bounds[1], bounds[2], interval);
    var s3 := Steps(bounds[2], bounds[3], interval);
    ComprehensionOfSteps(bounds[0], bounds[1], interval, Free);
    ComprehensionOfSteps(bounds[1], bounds[2], interval, Blocked);
    ComprehensionOfSteps(bounds[2], bounds[3], interval, Free);
    var first := Items(s1, Free);
    var second := Items(s2, Blocked);
    var third := Items(s3, Free);
    UpdateChronological([], first);
    InStepsOnGrid(bounds[0], bounds[1], interval, s1[|s1| - 1]);
    UpdateChronological(Update([], first), second);
    InStepsOnGrid(bounds[1], bounds[2], interval, s2[|s2| - 1]);
    UpdateChronological(Update(Update([], first), second), third);
  }

  /** A dict with distinct keys has one entry per key. */
  lemma {:induction false} DistinctKeysCount(d: Dict)
    requires DistinctKeys(d)
    ensures |Keys(d)| == |d|
  {
    if d != [] {
      var rest := d[1..];
      assert Keys(d) == {d[0].key} + Keys(rest) by {
        forall x | x in Keys(d) ensures x in {d[0].key} + Keys(rest) {
          var i :| 0 <= i < |d| && d[i].key == x;
          if i > 0 { assert rest[i - 1].key == x; }
        }
        forall x | x in Keys(rest) ensures x in Keys(d) {
          var i :| 0 <= i < |rest| && rest[i].key == x;
          assert d[i + 1].key == x;
        }
        assert d[0].key in Keys(d);
      }
      forall i | 0 <= i < |rest| ensures rest[i].key != d[0].key {
        assert rest[i] == d[i + 1];
      }
      assert DistinctKeys(rest);
      DistinctKeysCount(rest);
    }
  }

  /** `d` without its last entry when that entry's key is `k`. */
  function DropLastKey(d: Dict, k: int): (r: Dict)
    ensures |r| == if d != [] && d[|d| - 1].key == k then |d| - 1 else |d|
  {
    if d != [] && d[|d| - 1].key == k then d[..|d| - 1] else d
  }

  lemma DistinctKeysTail(d: Dict)
    requires DistinctKeys(d) && d != []
    ensures DistinctKeys(d[1..])
  {
    forall i, j | 0 <= i < j < |d[1..]| ensures d[1..][i].key != d[1..][j].key {
      assert d[1..][i] == d[i + 1] && d[1..][j] == d[j + 1];
    }
  }

  /** Assigning the key of the last entry replaces that entry in place. */
  lemma {:induction false} PutLast(d: Dict, k: int, v: int)
    requires DistinctKeys(d) && d != [] && d[|d| - 1].key == k
    ensures Put(d, k, v) == d[..|d| - 1] + [Entry(k, v)]
  {
    if |d| == 1 {
      assert Put(d, k, v) == [Entry(k, v)] + d[1..];
      assert d[1..] == [] && d[..|d| - 1] == [];
    } else {
      assert d[0].key != d[|d| - 1].key;
      var rest := d[1..];
      assert rest[|rest| - 1] == d[|d| - 1];
      DistinctKeysTail(d);
      assert Put(d, k, v) == [d[0]] + Put(rest, k, v);
      PutLast(rest, k, v);
      ConsDropLast(d, Entry(k, v));
    }
  }

  lemma ConsDropLast(d: Dict, e: Entry)
    requires |d| > 1
    ensures [d[0]] + (d[1..][..|d| - 2] + [e]) == d[..|d| - 1] + [e]
  {
    assert d[1..][..|d| - 2] == d[1..|d| - 1];
    assert d[..|d| - 1] == [d[0]] + d[1..|d| - 1];
  }

  /** Assigning a key no smaller than every present key: it replaces the last entry or is appended. */
  lemma PutAfter(d: Dict, k: int, v: int)
    requires Chronological(d) && KeysAtMost(d, k)
    ensures Put(d, k, v) == DropLastKey(d, k) + [Entry(k, v)]
    ensures forall x :: x in Keys(DropLastKey(d, k)) ==> x <= k
  {
    var kept := DropLastKey(d, k);
    if d != [] && d[|d| - 1].key == k {
      PutLast(d, k, v);
    } else {
      forall i | 0 <= i < |d| ensures d[i].key != k {
        if i < |d| - 1 { assert d[i].key < d[|d| - 1].key; }
      }
      PutNew(d, k, v);
    }
    forall x | x in Keys(kept) ensures x <= k {
      var j :| 0 <= j < |kept| && kept[j].key == x;
      assert kept[j] == d[j];
    }
  }

  /**
    Updating a chronological dict with a later range: the range's first key
    takes over the dict's last entry if they coincide, and the range is
    appended after what remains.
   */
  lemma UpdateAfter(d: Dict, xs: seq<int>, flag: int)
    requires Chronological(d) && Increasing(xs) && xs != [] && KeysAtMost(d, xs[0])
    ensures Update(d, Items(xs, flag)) == DropLastKey(d, xs[0]) + Items(xs, flag)
  {
    var kept := DropLastKey(d, xs[0]);
    var p := kept + [Entry(xs[0], flag)];
    PutAfter(d, xs[0], flag);
    UpdateItemsCons(d, xs, flag);
    AfterFirstFresh(kept, xs, flag);
    UpdateFresh(p, xs[1..], flag);
    ItemsCons(xs, flag);
    AppendAssoc(kept, [Entry(xs[0], flag)], Items(xs[1..], flag));
  }

  lemma UpdateItemsCons(d: Dict, xs: seq<int>, flag: int)
    requires xs != []
    ensures Update(d, Items(xs, flag)) == Update(Put(d, xs[0], flag), Items(xs[1..], flag))
  {
    assert Items(xs, flag)[1..] == Items(xs[1..], flag);
  }

  lemma AfterFirstFresh(kept: Dict, xs: seq<int>, flag: int)
    requires Increasing(xs) && xs != []
    requires forall x :: x in Keys(kept) ==> x <= xs[0]
    ensures forall i :: 0 <= i < |xs[1..]| ==> xs[1..][i] !in Keys(kept + [Entry(xs[0], flag)])
  {
    KeysAppend(kept, Entry(xs[0], flag));
    forall i | 0 <= i < |xs[1..]| ensures xs[1..][i] !in Keys(kept + [Entry(xs[0], flag)]) {
      assert xs[1..][i] == xs[i + 1] && xs[0] < xs[i + 1];
    }
  }

  /**
    The layout of a four-boundary schedule with ordered boundaries, in
    insertion order: the morning's starts flagged free, then the break's
    flagged blocked, then the afternoon's flagged free; a range's last start
    is dropped when the next range starts there, since the next range's
    flag overwrites it in place.
   */
  lemma BreakScheduleLayout(bounds: seq<int>, interval: int)
    requires |bounds| == 4 && interval > 0
    requires bounds[0] <= bounds[1] <= bounds[2] <= bounds[3]
    ensures GenerateTimeslotsDict(bounds, interval) ==
      DropLastKey(Items(Steps(bounds[0], bounds[1], interval), Free), bounds[1]) +
      DropLastKey(Items(Steps(bounds[1], bounds[2], interval), Blocked), bounds[2]) +
      Items(Steps(bounds[2], bounds[3], interval), Free)
  {
    var s1 := Steps(bounds[0], bounds[1], interval);
    var s2 := Steps(bounds[1], bounds[2], interval);
    var s3 := Steps(bounds[2], bounds[3], interval);
    var first, second, third := Items(s1, Free), Items(s2, Blocked), Items(s3, Free);
    RangeItems(bounds[0], bounds[1], interval, Free);
    RangeItems(bounds[1], bounds[2], interval, Blocked);
    RangeItems(bounds[2], bounds[3], interval, Free);
    UpdateFresh([], s1, Free);
    assert Update([], first) == first;
    UpdateAfter(first, s2, Blocked);
    var d2 := DropLastKey(first, bounds[1]) + second;
    UpdateChronological(first, second);
    UpdateAfter(d2, s3, Free);
    DropLastKeyAppend(DropLastKey(first, bounds[1]), second, bounds[2]);
  }

  /** The items of a non-empty range: chronological, starting at its start, none past its end. */
  lemma RangeItems(start: int, end: int, step: int, flag: int)
    requires step > 0 && start <= end
    ensures Comprehension(Steps(start, end, step), flag) == Items(Steps(start, end, step), flag)
    ensures Chronological(Items(Steps(start, end, step), flag))
    ensures Increasing(Steps(start, end, step))
    ensures Steps(start, end, step) != [] && Steps(start, end, step)[0] == start
    ensures KeysAtMost(Items(Steps(start, end, step), flag), end)
  {
    var r := Steps(start, end, step);
    ComprehensionOfSteps(start, end, step, flag);
    StepsIncreasing(start, end, step);
    assert r[0] == start + 0 * step;
    forall j | 0 <= j < |r| ensures r[j] <= end {
      InStepsOnGrid(start, end, step, r[j]);
    }
  }

  lemma DropLastKeyAppend(a: Dict, b: Dict, k: int)
    requires b != []
    ensures DropLastKey(a + b, k) == a + DropLastKey(b, k)
  {
    if b[|b| - 1].key == k {
      assert (a + b)[..|a + b| - 1] == a + b[..|b| - 1];
    }
  }
}
