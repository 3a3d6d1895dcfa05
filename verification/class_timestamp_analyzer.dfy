/** ClassTimestampAnalyzer: a date-shaped version candidate from the day on which
    most of a jar's classes were created or last modified. Timestamps are
    milliseconds since the epoch; the date formatter is a parameter taking the day
    number (days since 1970-01-01, UTC) and the pattern. */
module ClassTimestampAnalyzer {
  import opened Wrappers
  import opened Text
  import opened MavenUid
  import opened ValueCandidate
  import opened StringUtil

  const MillisPerDay: int := 86400000

  const DateToVersion: string := "yyyy.MM.dd"
  const DatePrinter: string := "yyyy-MM-dd"

  /** LocalDate.ofInstant(instant, UTC) as a day number: division rounding down, so
      instants before the epoch fall on negative days. */
  function Day(millis: int): (d: int)
    ensures d * MillisPerDay <= millis < (d + 1) * MillisPerDay
  {
    millis / MillisPerDay
  }

  /** d is the day of one of the timestamps. */
  ghost predicate IsDayOf(d: int, stamps: seq<Option<int>>) {
    exists i :: 0 <= i < |stamps| && stamps[i].Some? && d == Day(stamps[i].value)
  }

  /** The days of the classes that carry a timestamp, in entry order. */
  function DaysOf(stamps: seq<Option<int>>): (days: seq<int>)
    ensures |days| <= |stamps|
    ensures |days| == StampCount(stamps)
    ensures forall k :: 0 <= k < |days| ==> IsDayOf(days[k], stamps)
    ensures forall i :: 0 <= i < |stamps| && stamps[i].Some? ==> Day(stamps[i].value) in days
    decreases |stamps|
  {
    if |stamps| == 0 then []
    else
      var init, last := stamps[..|stamps| - 1], stamps[|stamps| - 1];
      var prev := DaysOf(init);
      var days := prev + (if last.Some? then [Day(last.value)] else []);
      StampCountSnoc(init, last);
      assert stamps == init + [last];
      DaysOfStep(init, last, prev);
      days
  }

  /** The days of the classes before the last one, followed by the last one's day
      if it has a timestamp, are exactly the days of all the classes. */
  lemma DaysOfStep(init: seq<Option<int>>, last: Option<int>, prev: seq<int>)
    requires forall k :: 0 <= k < |prev| ==> IsDayOf(prev[k], init)
    requires forall i :: 0 <= i < |init| && init[i].Some? ==> Day(init[i].value) in prev
    ensures var stamps, days := init + [last], prev + (if last.Some? then [Day(last.value)] else []);
      (forall k :: 0 <= k < |days| ==> IsDayOf(days[k], stamps))
      && (forall i :: 0 <= i < |stamps| && stamps[i].Some? ==> Day(stamps[i].value) in days)
  {
    var stamps, days := init + [last], prev + (if last.Some? then [Day(last.value)] else []);
    forall k | 0 <= k < |days| ensures IsDayOf(days[k], stamps) {
      if k < |prev| {
        assert IsDayOf(prev[k], init);
        var i :| 0 <= i < |init| && init[i].Some? && prev[k] == Day(init[i].value);
        assert stamps[i] == init[i];
      } else {
        assert stamps[|init|] == last;
      }
    }
    forall i | 0 <= i < |stamps| && stamps[i].Some? ensures Day(stamps[i].value) in days {
      if i < |init| {
        assert stamps[i] == init[i];
      } else {
        assert days[|days| - 1] == Day(last.value);
      }
    }
  }

  /** Reference definition: how many classes carry a timestamp. */
  function StampCount(stamps: seq<Option<int>>): nat
    decreases |stamps|
  {
    if |stamps| == 0 then 0 else (if stamps[0].Some? then 1 else 0) + StampCount(stamps[1..])
  }

  lemma {:induction false} StampCountSnoc(init: seq<Option<int>>, last: Option<int>)
    ensures StampCount(init + [last]) == StampCount(init) + (if last.Some? then 1 else 0)
    decreases |init|
  {
    if |init| == 0 {
      assert ([] + [last])[1..] == [];
    } else {
      assert (init + [last])[1..] == init[1..] + [last];
      StampCountSnoc(init[1..], last);
    }
  }

  /** The days of consecutive runs of classes are those of each run in turn. */
  lemma {:induction false} DaysOfAppend(a: seq<Option<int>>, b: seq<Option<int>>)
    ensures DaysOf(a + b) == DaysOf(a) + DaysOf(b)
    decreases |b|
  {
    if |b| == 0 {
      assert a + b == a;
    } else {
      var b' := b[..|b| - 1];
      assert (a + b)[..|a + b| - 1] == a + b';
      assert (a + b)[|a + b| - 1] == b[|b| - 1];
      DaysOfAppend(a, b');
    }
  }

  /** A single class contributes its day exactly when it has a timestamp. */
  lemma DaysOfOne(stamp: Option<int>)
    ensures DaysOf([stamp]) == if stamp.Some? then [Day(stamp.value)] else []
  {
    assert [stamp][..0] == [];
  }

  /** Reference definition: how many classes fall on day d. */
  function Occurrences(days: seq<int>, d: int): nat
    decreases |days|
  {
    if |days| == 0 then 0
    else Occurrences(days[..|days| - 1], d) + (if days[|days| - 1] == d then 1 else 0)
  }

  lemma {:induction false} OccurrencesBounds(days: seq<int>, d: int)
    ensures Occurrences(days, d) <= |days|
    ensures Occurrences(days, d) == 0 <==> d !in days
    decreases |days|
  {
    if |days| > 0 {
      OccurrencesBounds(days[..|days| - 1], d);
      assert d in days <==> d in days[..|days| - 1] || d == days[|days| - 1];
    }
  }

  /** One entry of the date histogram. */
  datatype Tally = Tally(day: int, count: nat)

  function FindDay(h: seq<Tally>, d: int): (k: int)
    ensures -1 <= k < |h|
    ensures k >= 0 ==> h[k].day == d
    ensures k < 0 ==> forall i :: 0 <= i < |h| ==> h[i].day != d
    decreases |h|
  {
    if |h| == 0 then -1
    else if h[|h| - 1].day == d then |h| - 1
    else FindDay(h[..|h| - 1], d)
  }

  /** The datesToOccurence map, its entries in order of first occurrence: one
      entry per distinct day, holding the number of classes on that day. */
  function Histogram(days: seq<int>): (h: seq<Tally>)
    ensures forall i, j :: 0 <= i < j < |h| ==> h[i].day != h[j].day
    ensures forall i :: 0 <= i < |h| ==> h[i].count == Occurrences(days, h[i].day)
    ensures forall d :: d in days <==> exists i :: 0 <= i < |h| && h[i].day == d
    decreases |days|
  {
    if |days| == 0 then []
    else
      var init := days[..|days| - 1];
      var h := Histogram(init);
      var d := days[|days| - 1];
      assert forall x :: x in days <==> x in init || x == d;
      var k := FindDay(h, d);
      if k < 0 then
        OccurrencesBounds(init, d);
        var h' := h + [Tally(d, 1)];
        assert h'[|h|].day == d;
        assert forall i :: 0 <= i < |h| ==> h'[i] == h[i];
        h'
      else
        var h' := h[k := Tally(d, h[k].count + 1)];
        assert forall i :: 0 <= i < |h| ==> h'[i].day == h[i].day;
        h'
  }

  /** The first entry with the highest count (sorting by count, descending, and
      taking the first). */
  function Highest(h: seq<Tally>): (r: Option<Tally>)
    ensures r.None? <==> |h| == 0
    ensures r.Some? ==> (exists k :: 0 <= k < |h| && h[k] == r.value
                           && forall i :: 0 <= i < k ==> h[i].count < r.value.count)
    ensures r.Some? ==> forall i :: 0 <= i < |h| ==> h[i].count <= r.value.count
    decreases |h|
  {
    if |h| == 0 then None
    else
      match Highest(h[1..])
      case None => Some(h[0])
      case Some(t) =>
        if h[0].count >= t.count then Some(h[0])
        else
          ghost var k :| 0 <= k < |h[1..]| && h[1..][k] == t && forall i :: 0 <= i < k ==> h[1..][i].count < t.count;
          assert h[k + 1] == t;
          Some(t)
  }

  function Details(percent: nat, day: int, format: (int, string) -> string): string {
    LeftPad(NatToString(percent), 3) + "% of classes have created/modified date: " + format(day, DatePrinter)
  }

  /** ClassTimestampAnalyzer.analyze over the timestamps of the class entries (None
      where an entry has neither a creation nor a modification time). A candidate is
      emitted only when some day holds more than one class; it is the most frequent
      day, formatted as a version, scoring 1 when that day holds more than 60 percent
      of the timestamped classes and 0 otherwise. */
  function Analyze(stamps: seq<Option<int>>, format: (int, string) -> string): (r: seq<Emitted>)
    ensures |r| <= 1
    ensures |r| == 1 <==> exists d :: Occurrences(DaysOf(stamps), d) > 1
    ensures |r| == 1 ==> exists d :: IsModeCandidate(r[0], DaysOf(stamps), d, format)
  {
    var days := DaysOf(stamps);
    var h := Histogram(days);
    match Highest(h)
    case None =>
      NoneOccurMoreThanOnce(days, h, 0);
      []
    case Some(top) =>
      MaxIsHighest(days, h, top);
      if top.count > 1 then
        var e := ModeCandidate(days, top, format);
        assert Occurrences(days, top.day) > 1;
        assert [e][0] == e;
        assert IsModeCandidate([e][0], DaysOf(stamps), top.day, format);
        [e]
      else
        NoneOccurMoreThanOnce(days, h, top.count);
        []
  }

  /** The candidate for day d: a version made of the date, scoring 1 exactly when
      more than 60 percent of the timestamped classes fall on d, where d is a day
      no other day outnumbers. */
  ghost predicate IsModeCandidate(e: Emitted, days: seq<int>, d: int, format: (int, string) -> string) {
    |days| > 0
    && e == Emitted(Version, Some(format(d, DateToVersion)), e.score,
                    Details(100 * Occurrences(days, d) / |days|, d, format))
    && (forall x :: Occurrences(days, x) <= Occurrences(days, d))
    && (e.score == 1 <==> 100 * Occurrences(days, d) >= 61 * |days|)
    && (e.score == 0 <==> 100 * Occurrences(days, d) < 61 * |days|)
  }

  function ModeCandidate(days: seq<int>, top: Tally, format: (int, string) -> string): (e: Emitted)
    requires top.count > 1 && top.count == Occurrences(days, top.day)
    requires forall x :: Occurrences(days, x) <= top.count
    ensures IsModeCandidate(e, days, top.day, format)
  {
    OccurrencesBounds(days, top.day);
    var percent := 100 * top.count / |days|;
    PercentAbove60(top.count, |days|);
    Emitted(Version, Some(format(top.day, DateToVersion)), if percent > 60 then 1 else 0,
            Details(percent, top.day, format))
  }

  /** The truncated percentage exceeds 60 exactly when the share reaches 61%. */
  lemma PercentAbove60(count: nat, total: nat)
    requires total > 0
    ensures 100 * count / total > 60 <==> 100 * count >= 61 * total
  {
    DivAtLeast(100 * count, total, 61);
  }

  /** Integer division rounds down: x / t reaches k exactly when x reaches k * t. */
  lemma DivAtLeast(x: nat, t: nat, k: nat)
    requires t > 0
    ensures x / t >= k <==> x >= k * t
  {
    var q := x / t;
    var r := x % t;
    assert x == q * t + r && 0 <= r < t;
    if q >= k {
      assert q * t >= k * t;
    } else {
      assert q + 1 <= k;
      assert (q + 1) * t <= k * t;
    }
  }

  /** The histogram's highest entry bounds every day's count. */
  lemma MaxIsHighest(days: seq<int>, h: seq<Tally>, top: Tally)
    requires h == Histogram(days) && Highest(h) == Some(top)
    ensures top.count == Occurrences(days, top.day)
    ensures forall e :: Occurrences(days, e) <= top.count
  {
    forall e ensures Occurrences(days, e) <= top.count {
      OccurrencesBounds(days, e);
    }
  }

  lemma NoneOccurMoreThanOnce(days: seq<int>, h: seq<Tally>, bound: nat)
    requires h == Histogram(days) && bound <= 1
    requires forall i :: 0 <= i < |h| ==> h[i].count <= bound
    ensures forall e :: Occurrences(days, e) <= 1
  {
    forall e ensures Occurrences(days, e) <= 1 {
      OccurrencesBounds(days, e);
    }
  }

  /** Entries without any timestamp are ignored. */
  lemma MissingTimestampIgnored(stamps: seq<Option<int>>, format: (int, string) -> string)
    ensures Analyze(stamps + [None], format) == Analyze(stamps, format)
  {
    assert (stamps + [None])[..|stamps|] == stamps;
    assert DaysOf(stamps + [None]) == DaysOf(stamps);
  }
}
