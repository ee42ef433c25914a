/** The run statistics of components/stats.cjs (copied into index.cjs):
    total pulls, a histogram of five-star counts per cycle, and pulls per
    local hour. JSON reading and writing are not modelled; a record that is
    missing from the document is `None`. */
module Stats {
  import opened Wrappers
  import opened Text

  type Counts = map<string, int>

  datatype Stats = Stats(pulls: int, fiveStars: Option<Counts>, hourlyPulls: Option<Counts>)

  /** What `loadStats` returns when the log file cannot be read or parsed. */
  const DefaultStats := Stats(0, Some(map[]), Some(map[]))

  /** `loadStats`: the parsed document, or the empty record on any failure. */
  function LoadStats(parsed: Option<Stats>): (s: Stats)
    ensures parsed.Some? ==> s == parsed.value
    ensures parsed.None? ==> s.pulls == 0 && s.fiveStars == Some(map[]) && s.hourlyPulls == Some(map[])
  {
    parsed.GetOr(DefaultStats)
  }

  /** `hour % 12 || 12`. */
  function DisplayHour(h: nat): (d: nat)
    requires h < 24
    ensures 1 <= d <= 12
    ensures d % 12 == h % 12
  {
    if h % 12 == 0 then 12 else h % 12
  }

  function Suffix(h: nat): string {
    if h >= 12 then "pm" else "am"
  }

  /** `getCurrentHourKey`, with the `toLocaleDateString('en-US')` text and
      `getHours()` passed in. */
  function HourKey(date: string, h: nat): (k: string)
    requires h < 24
    ensures StartsWith(k, date + "-")
    ensures EndsWith(k, "pm") <==> h >= 12
    ensures EndsWith(k, "am") <==> h < 12
  {
    date + "-" + NatToString(DisplayHour(h)) + Suffix(h)
  }

  /** Reads the hour back from a key for `date`: the inverse of `HourKey`. */
  function DecodeHourKey(date: string, k: string): Option<nat> {
    var n := |date| + 1;
    if |k| < n + 3 || k[..n] != date + "-" then None
    else DecodeClock(k[n..|k| - 2], k[|k| - 2..])
  }

  /** Reads the hour back from the 12-hour reading and the suffix. */
  function DecodeClock(digits: string, suffix: string): Option<nat> {
    if !AllDigits(digits) then None
    else
      var d := DigitsValue(digits);
      if d < 1 || d > 12 then None
      else if suffix == "am" then Some(if d == 12 then 0 else d)
      else if suffix == "pm" then Some(if d == 12 then 12 else d + 12)
      else None
  }

  /** A key for `date` splits back into its reading and its suffix. */
  lemma DecodeSplits(date: string, digits: string, suffix: string)
    requires |digits| >= 1 && |suffix| == 2
    ensures DecodeHourKey(date, date + "-" + digits + suffix) == DecodeClock(digits, suffix)
  {
    var k := date + "-" + digits + suffix;
    var n := |date| + 1;
    assert k == (date + "-") + digits + suffix;
    assert k[..n] == date + "-";
    assert k[n..|k| - 2] == digits;
    assert k[|k| - 2..] == suffix;
  }

  lemma ClockRoundTrip(h: nat)
    requires h < 24
    ensures DecodeClock(NatToString(DisplayHour(h)), Suffix(h)) == Some(h)
  {
    NatToStringRoundTrip(DisplayHour(h));
    TwelveHourInverse(h);
  }

  lemma HourKeyRoundTrip(date: string, h: nat)
    requires h < 24
    ensures DecodeHourKey(date, HourKey(date, h)) == Some(h)
  {
    var digits := NatToString(DisplayHour(h));
    NatToStringRoundTrip(DisplayHour(h));
    DecodeSplits(date, digits, Suffix(h));
    ClockRoundTrip(h);
  }

  /** The 12-hour clock reading and the suffix determine the hour. */
  lemma TwelveHourInverse(h: nat)
    requires h < 24
    ensures h < 12 ==> h == (if DisplayHour(h) == 12 then 0 else DisplayHour(h))
    ensures h >= 12 ==> h == (if DisplayHour(h) == 12 then 12 else DisplayHour(h) + 12)
  {
    if h >= 12 {
      assert h % 12 == h - 12;
    }
  }

  /** Distinct hours of one day get distinct keys. */
  lemma HourKeyInjective(date: string, h1: nat, h2: nat)
    requires h1 < 24 && h2 < 24
    requires HourKey(date, h1) == HourKey(date, h2)
    ensures h1 == h2
  {
    HourKeyRoundTrip(date, h1);
    HourKeyRoundTrip(date, h2);
  }

  /** `m[key] = (m[key] || 0) + 1` on a map that `if (!m) m = {}` created
      when it was missing. */
  function Bump(m: Option<Counts>, key: string): (r: Counts)
    ensures key in r
    ensures r[key] == (if m.Some? && key in m.value then m.value[key] else 0) + 1
    ensures r.Keys == (if m.Some? then m.value.Keys else {}) + {key}
    ensures m.Some? ==> forall k :: k in m.value && k != key ==> r[k] == m.value[k]
  {
    var c := m.GetOr(map[]);
    c[key := (if key in c then c[key] else 0) + 1]
  }

  /** `increaseStats(stats)` for the pull made in hour `hourKey`. */
  function IncreaseStats(s: Stats, hourKey: string): (r: Stats)
    ensures r.pulls == s.pulls + 1
    ensures r.fiveStars == s.fiveStars
    ensures r.hourlyPulls.Some?
    ensures r.hourlyPulls.value == Bump(s.hourlyPulls, hourKey)
  {
    s.(pulls := s.pulls + 1, hourlyPulls := Some(Bump(s.hourlyPulls, hourKey)))
  }

  /** The in-memory part of `saveStats(stats, n)`: bucket `String(n)` of the
      five-star histogram gains one. */
  function RecordFiveStars(s: Stats, n: nat): (r: Stats)
    ensures r.pulls == s.pulls && r.hourlyPulls == s.hourlyPulls
    ensures r.fiveStars.Some?
    ensures r.fiveStars.value == Bump(s.fiveStars, NatToString(n))
  {
    s.(fiveStars := Some(Bump(s.fiveStars, NatToString(n))))
  }

  ghost function Pick(keys: set<string>): (k: string)
    requires keys != {}
    ensures k in keys
  {
    var k :| k in keys; k
  }

  /** The sum of all counts. */
  ghost function Sum(m: Counts): int
    decreases |m|
  {
    if m == map[] then 0
    else
      var k := Pick(m.Keys);
      m[k] + Sum(m - {k})
  }

  ghost function SumOf(m: Option<Counts>): int {
    if m.Some? then Sum(m.value) else 0
  }

  /** The sum does not depend on the order keys are taken in. */
  lemma {:induction false} SumRemove(m: Counts, k: string)
    requires k in m
    ensures Sum(m) == m[k] + Sum(m - {k})
    decreases |m|
  {
    var j := Pick(m.Keys);
    if j != k {
      SumRemove(m - {j}, k);
      SumRemove(m - {k}, j);
      assert m - {j} - {k} == m - {k} - {j};
    }
  }

  /** Bumping a bucket adds exactly one to the sum. */
  lemma BumpSum(m: Option<Counts>, key: string)
    ensures Sum(Bump(m, key)) == SumOf(m) + 1
  {
    var c := m.GetOr(map[]);
    var r := Bump(m, key);
    SumRemove(r, key);
    if key in c {
      SumRemove(c, key);
      assert r - {key} == c - {key};
    } else {
      assert r - {key} == c;
    }
  }

  /** Every pull is attributed to exactly one hour. */
  ghost predicate HourlyConsistent(s: Stats) {
    s.pulls == SumOf(s.hourlyPulls)
  }

  lemma IncreaseKeepsHourlyConsistent(s: Stats, hourKey: string)
    requires HourlyConsistent(s)
    ensures HourlyConsistent(IncreaseStats(s, hourKey))
  {
    BumpSum(s.hourlyPulls, hourKey);
  }

  /** Whether the record is consistent depends only on its pull counters. */
  lemma SamePullsConsistent(a: Stats, b: Stats)
    requires a.pulls == b.pulls && a.hourlyPulls == b.hourlyPulls
    ensures HourlyConsistent(a) ==> HourlyConsistent(b)
  {
  }

  /** Each recorded cycle adds one to the histogram's total. */
  lemma RecordAddsOneCycle(s: Stats, n: nat)
    ensures SumOf(RecordFiveStars(s, n).fiveStars) == SumOf(s.fiveStars) + 1
  {
    BumpSum(s.fiveStars, NatToString(n));
  }
}
