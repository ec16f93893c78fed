/**
  Reading one weekday's opening-hours string: counting its dashes, splitting
  it on '-' and turning every "H:MM" token into a time of day, in minutes
  since midnight of the target date.
 */
module OpeningHours {
  import opened Wrappers

  const MinutesPerDay := 24 * 60

  /** Number of occurrences of `c` in `s` (Python's `str.count` for one character). */
  function Count(s: string, c: char): (n: nat)
    ensures n <= |s|
  {
    if s == [] then 0 else (if s[0] == c then 1 else 0) + Count(s[1..], c)
  }

  /** `str.count` of a single character is its multiplicity in the string. */
  lemma {:induction false} CountMultiset(s: string, c: char)
    ensures Count(s, c) == multiset(s)[c]
  {
    if s != [] {
      assert s == [s[0]] + s[1..];
      CountMultiset(s[1..], c);
    }
  }

  lemma {:induction false} CountZeroIff(s: string, c: char)
    ensures Count(s, c) == 0 <==> c !in s
  {
    if s != [] {
      CountZeroIff(s[1..], c);
      assert s == [s[0]] + s[1..];
    }
  }

  /**
    Python's `str.split(sep)` for a one-character separator: the pieces
    between the separators, empty pieces included, so that "" gives [""]
    and "-" gives ["", ""].
   */
  function Split(s: string, sep: char): (parts: seq<string>)
    ensures |parts| == Count(s, sep) + 1
    ensures forall i :: 0 <= i < |parts| ==> sep !in parts[i]
  {
    if s == [] then [[]]
    else
      var rest := Split(s[1..], sep);
      if s[0] == sep then [[]] + rest
      else [[s[0]] + rest[0]] + rest[1..]
  }

  /** Python's `sep.join(parts)`, the inverse of `Split`. */
  function Join(parts: seq<string>, sep: char): string
    requires parts != []
  {
    if |parts| == 1 then parts[0] else parts[0] + [sep] + Join(parts[1..], sep)
  }

  lemma {:induction false} JoinSplit(s: string, sep: char)
    ensures Join(Split(s, sep), sep) == s
  {
    if s != [] {
      var rest := Split(s[1..], sep);
      JoinSplit(s[1..], sep);
      if s[0] == sep {
        calc {
          Join(Split(s, sep), sep);
          Join([[]] + rest, sep);
          { assert ([[]] + rest)[1..] == rest; }
          [sep] + Join(rest, sep);
          [s[0]] + s[1..];
          s;
        }
      } else if |rest| == 1 {
        assert Split(s, sep) == [[s[0]] + rest[0]];
        assert Join(rest, sep) == rest[0];
        assert s == [s[0]] + s[1..];
      } else {
        var parts := [[s[0]] + rest[0]] + rest[1..];
        assert parts[1..] == rest[1..];
        calc {
          Join(parts, sep);
          [s[0]] + rest[0] + [sep] + Join(rest[1..], sep);
          [s[0]] + (rest[0] + [sep] + Join(rest[1..], sep));
          [s[0]] + Join(rest, sep);
          [s[0]] + s[1..];
          s;
        }
      }
    }
  }

  /** A piece without the separator splits to itself. */
  lemma {:induction false} SplitSingle(p: string, sep: char)
    requires sep !in p
    ensures Split(p, sep) == [p]
  {
    if p != [] {
      SplitSingle(p[1..], sep);
      assert [p[0]] + p[1..] == p;
    }
  }

  /** Splitting at the first separator. */
  lemma {:induction false} SplitCons(p: string, rest: string, sep: char)
    requires sep !in p
    ensures Split(p + [sep] + rest, sep) == [p] + Split(rest, sep)
  {
    var s := p + [sep] + rest;
    if p == [] {
      assert s[1..] == rest;
    } else {
      assert s[1..] == p[1..] + [sep] + rest;
      SplitCons(p[1..], rest, sep);
      assert [p[0]] + p[1..] == p;
    }
  }

  /** Splitting a join of separator-free pieces gives the pieces back. */
  lemma {:induction false} SplitJoin(parts: seq<string>, sep: char)
    requires parts != []
    requires forall i :: 0 <= i < |parts| ==> sep !in parts[i]
    ensures Split(Join(parts, sep), sep) == parts
  {
    if |parts| == 1 {
      SplitSingle(parts[0], sep);
    } else {
      SplitJoin(parts[1..], sep);
      SplitCons(parts[0], Join(parts[1..], sep), sep);
      assert [parts[0]] + parts[1..] == parts;
    }
  }

  predicate IsDigit(c: char) {
    '0' <= c <= '9'
  }

  predicate AllDigits(s: string) {
    forall i :: 0 <= i < |s| ==> IsDigit(s[i])
  }

  /** The decimal value of a string of digits. */
  function DigitsValue(s: string): (v: nat)
    requires AllDigits(s)
  {
    if s == [] then 0 else DigitsValue(s[..|s| - 1]) * 10 + (s[|s| - 1] - '0') as nat
  }

  /**
    The hour and minute fields of the pattern "%H:%M" that `strptime` matches
    against each token (a ":00" seconds field is appended by the caller, so
    nothing may follow the minutes): one or two digits each, an hour of at
    most 23 and a minute of at most 59.
   */
  function ParseFields(hour: string, minute: string): (r: Option<int>)
    ensures r.Some? ==> 0 <= r.value < MinutesPerDay
  {
    if 1 <= |hour| <= 2 && AllDigits(hour) && 1 <= |minute| <= 2 && AllDigits(minute)
       && DigitsValue(hour) <= 23 && DigitsValue(minute) <= 59
    then Some(DigitsValue(hour) * 60 + DigitsValue(minute))
    else None
  }

  /**
    One "H:MM" token as minutes since midnight, or None where `strptime`
    raises (which aborts the whole run).
   */
  function ParseClock(token: string): (r: Option<int>)
    ensures r.Some? ==> 0 <= r.value < MinutesPerDay
    ensures r.Some? ==> ':' in token && 3 <= |token| <= 5
  {
    if |token| >= 2 && token[1] == ':' then ParseFields(token[..1], token[2..])
    else if |token| >= 3 && token[2] == ':' then ParseFields(token[..2], token[3..])
    else None
  }

  /** The two-digit, zero-padded rendering of `n` used in the stored schedule strings. */
  function Pad2(n: nat): (s: string)
    requires n < 100
  {
    ['0' + (n / 10) as char, '0' + (n % 10) as char]
  }

  /** Every zero-padded "HH:MM" of a time of day parses back to that time. */
  lemma ParseClockPadded(h: nat, m: nat)
    requires h < 24 && m < 60
    ensures ParseClock(Pad2(h) + ":" + Pad2(m)) == Some(h * 60 + m)
  {
    var token := Pad2(h) + ":" + Pad2(m);
    assert token[..2] == Pad2(h) && token[3..] == Pad2(m);
    assert DigitsValue(Pad2(h)[..1]) == h / 10;
    assert DigitsValue(Pad2(m)[..1]) == m / 10;
  }

  /**
    The list comprehension that parses every token: a result exactly when
    every token parses, and then the tokens' times in order.
   */
  function ParseAll(tokens: seq<string>): (r: Option<seq<int>>)
    ensures r.Some? <==> forall i :: 0 <= i < |tokens| ==> ParseClock(tokens[i]).Some?
    ensures r.Some? ==> |r.value| == |tokens|
    ensures r.Some? ==> forall i :: 0 <= i < |tokens| ==> r.value[i] == ParseClock(tokens[i]).value
  {
    if tokens == [] then Some([])
    else
      match (ParseClock(tokens[0]), ParseAll(tokens[1..]))
      case (Some(t), Some(ts)) => Some([t] + ts)
      case _ => None
  }

  /** The comprehension yields given times when each token parses to its time. */
  lemma ParseAllSome(tokens: seq<string>, times: seq<int>)
    requires |tokens| == |times|
    requires forall i :: 0 <= i < |tokens| ==> ParseClock(tokens[i]) == Some(times[i])
    ensures ParseAll(tokens) == Some(times)
  {
    var r := ParseAll(tokens);
    assert r.Some?;
    assert r.value == times;
  }
}
