/** The timing-statistics engine of libkdt.c: latency (time deltas), dwell
    and flight times in unsigned 64-bit milliseconds, and the routine that
    stores one of them into a session. */
module Statistics {
  import opened Machine
  import opened Kdt

  const MS_PER_SEC: int := 1000
  const NS_PER_MS: int := 1_000_000

  /** The signed millisecond difference from `a` to `b` that the C
      expressions compute before conversion to `unsigned long`: whole
      seconds scaled by 1000 plus the nanosecond difference divided by 10^6
      with truncation toward zero. */
  function SignedMs(a: Timespec, b: Timespec): int {
    MS_PER_SEC * (b.sec - a.sec) + TruncDiv(b.nsec - a.nsec, NS_PER_MS)
  }

  /** `whole_seconds_difference_in_ms + nanoseconds_difference_in_ms`, an
      `unsigned long` sum, so the signed difference modulo 2^64. */
  function Ms(a: Timespec, b: Timespec): U64 {
    ToU64(SignedMs(a, b))
  }

  /** A timestamp in nanoseconds. */
  function Nanos(t: Timespec): int {
    t.sec * NS_PER_SEC + t.nsec
  }

  /** The elapsed time from `a` to `b`, truncated to whole milliseconds:
      the independent reference the C formula approximates. */
  function ElapsedMs(a: Timespec, b: Timespec): int {
    TruncDiv(Nanos(b) - Nanos(a), NS_PER_MS)
  }

  /** The nanosecond part of a difference of valid timestamps contributes
      strictly less than one second. */
  lemma NanoPartBounds(a: Timespec, b: Timespec)
    requires ValidNsec(a) && ValidNsec(b)
    ensures -1000 < TruncDiv(b.nsec - a.nsec, NS_PER_MS) < 1000
    ensures b.nsec >= a.nsec ==> TruncDiv(b.nsec - a.nsec, NS_PER_MS) >= 0
  {
  }

  /** For timestamps in order, the C formula never goes negative and, when
      the nanoseconds do not borrow, equals the truncated elapsed time;
      when they borrow it exceeds it by at most one millisecond. */
  lemma SignedMsVersusElapsed(a: Timespec, b: Timespec)
    requires ValidNsec(a) && ValidNsec(b) && NotAfter(a, b)
    ensures 0 <= SignedMs(a, b)
    ensures ElapsedMs(a, b) <= SignedMs(a, b) <= ElapsedMs(a, b) + 1
    ensures b.nsec >= a.nsec ==> SignedMs(a, b) == ElapsedMs(a, b)
  {
    NanoPartBounds(a, b);
    var ds := b.sec - a.sec;
    var dn := b.nsec - a.nsec;
    assert Nanos(b) - Nanos(a) == ds * NS_PER_SEC + dn;
    var t := TruncDiv(dn, NS_PER_MS);
    if dn >= 0 {
      assert ds >= 0;
      assert ds * NS_PER_SEC + dn == (ds * MS_PER_SEC + t) * NS_PER_MS + (dn - t * NS_PER_MS);
      DivUnique(ds * NS_PER_SEC + dn, ds * MS_PER_SEC + t);
    } else {
      assert ds >= 1;
      var e := ElapsedMs(a, b);
      assert ds * NS_PER_SEC + dn > 0;
      assert e * NS_PER_MS <= ds * NS_PER_SEC + dn < e * NS_PER_MS + NS_PER_MS;
      assert t * NS_PER_MS - NS_PER_MS < dn <= t * NS_PER_MS;
    }
  }

  /** The quotient of a non-negative dividend is the one multiple that brackets it. */
  lemma DivUnique(x: int, q: int)
    requires x >= 0
    requires q * NS_PER_MS <= x < q * NS_PER_MS + NS_PER_MS
    ensures TruncDiv(x, NS_PER_MS) == q
  {
  }

  /** A borrow shows the difference: half a millisecond apart across a
      second boundary, the formula reports one millisecond. */
  lemma BorrowOverReports()
    ensures ElapsedMs(Timespec(0, 999_500_000), Timespec(1, 0)) == 0
    ensures SignedMs(Timespec(0, 999_500_000), Timespec(1, 0)) == 1
  {
    DivUnique(500_000, 0);
    assert TruncDiv(-999_500_000, NS_PER_MS) == -999;
  }

  /** For timestamps in order the unsigned result is exactly the signed
      formula, unless the latter does not fit 64 bits. */
  lemma MsInOrder(a: Timespec, b: Timespec)
    requires ValidNsec(a) && ValidNsec(b) && NotAfter(a, b)
    requires SignedMs(a, b) < TWO_64
    ensures Ms(a, b) == SignedMs(a, b)
  {
    SignedMsVersusElapsed(a, b);
  }

  /** The flight time from the release of one key to the press of the next,
      exactly as the loop body of `get_flight_times_in_milliseconds`
      computes it: the first branch when the press seconds OR the press
      nanoseconds are larger (not a lexicographic comparison). */
  function FlightMs(release: Timespec, press: Timespec): U64 {
    if press.sec > release.sec || press.nsec > release.nsec then Ms(release, press)
    else Ms(press, release)
  }

  /** Within one second the flight time is the absolute nanosecond gap in whole milliseconds. */
  lemma FlightSameSecond(release: Timespec, press: Timespec)
    requires ValidNsec(release) && ValidNsec(press)
    requires press.sec == release.sec
    ensures press.nsec >= release.nsec ==> FlightMs(release, press) == (press.nsec - release.nsec) / NS_PER_MS
    ensures press.nsec < release.nsec ==> FlightMs(release, press) == (release.nsec - press.nsec) / NS_PER_MS
  {
  }

  /** A press in a later second gives at least one millisecond (when the
      formula fits 64 bits). */
  lemma FlightForward(release: Timespec, press: Timespec)
    requires ValidNsec(release) && ValidNsec(press)
    requires press.sec > release.sec
    requires SignedMs(release, press) < TWO_64
    ensures FlightMs(release, press) == SignedMs(release, press) >= 1
  {
    NanoPartBounds(release, press);
  }

  /** A press in an earlier second with larger nanoseconds takes the first
      branch: the negative difference wraps to the top of the unsigned range. */
  lemma FlightWraps(release: Timespec, press: Timespec)
    requires ValidNsec(release) && ValidNsec(press)
    requires press.sec < release.sec && press.nsec > release.nsec
    requires MS_PER_SEC * (release.sec - press.sec) <= TWO_64
    ensures SignedMs(release, press) < 0
    ensures FlightMs(release, press) == TWO_64 + SignedMs(release, press)
    ensures TWO_64 - MS_PER_SEC * (release.sec - press.sec) <= FlightMs(release, press) < TWO_64
    ensures release.sec - press.sec == 1 ==> FlightMs(release, press) >= TWO_64 - 1000
  {
    NanoPartBounds(release, press);
  }

  /** A press in an earlier second with no larger nanoseconds takes the
      second branch and gives the gap the other way round, at least one second. */
  lemma FlightBackward(release: Timespec, press: Timespec)
    requires ValidNsec(release) && ValidNsec(press)
    requires press.sec < release.sec && press.nsec <= release.nsec
    requires SignedMs(press, release) < TWO_64
    ensures FlightMs(release, press) == SignedMs(press, release) >= 1000
  {
    NanoPartBounds(press, release);
  }

  /** The concrete wrap: release at 5 s + 100 ns, next press at 4 s + 200 ns. */
  lemma FlightWrapExample()
    ensures FlightMs(Timespec(5, 100), Timespec(4, 200)) == TWO_64 - 1000
  {
    assert TruncDiv(100, NS_PER_MS) == 0;
  }

  /** `get_time_deltas_in_milliseconds`: NULL for a NULL buffer or fewer than
      two keystrokes, otherwise one latency per adjacent pair of presses. */
  method GetTimeDeltas(keystrokes: Option<seq<Keystroke>>) returns (deltas: Option<seq<U64>>)
    ensures deltas.None? <==> keystrokes.None? || |keystrokes.value| < 2
    ensures deltas.Some? ==> |deltas.value| == |keystrokes.value| - 1
    ensures deltas.Some? ==> forall i :: 0 <= i < |deltas.value| ==>
              deltas.value[i] == Ms(keystrokes.value[i].press, keystrokes.value[i + 1].press)
  {
    if keystrokes.None? {
      return None;
    }
    var ks := keystrokes.value;
    if |ks| < 2 {
      return None;
    }
    var out: seq<U64> := [];
    var i := 0;
    while i < |ks| - 1
      invariant 0 <= i <= |ks| - 1
      invariant |out| == i
      invariant forall j :: 0 <= j < i ==> out[j] == Ms(ks[j].press, ks[j + 1].press)
    {
      out := out + [Ms(ks[i].press, ks[i + 1].press)];
      i := i + 1;
    }
    return Some(out);
  }

  /** `get_dwell_times_in_milliseconds`: NULL for a NULL buffer or no
      keystrokes, otherwise one hold time per keystroke. */
  method GetDwellTimes(keystrokes: Option<seq<Keystroke>>) returns (dwells: Option<seq<U64>>)
    ensures dwells.None? <==> keystrokes.None? || |keystrokes.value| < 1
    ensures dwells.Some? ==> |dwells.value| == |keystrokes.value|
    ensures dwells.Some? ==> forall i :: 0 <= i < |dwells.value| ==>
              dwells.value[i] == Ms(keystrokes.value[i].press, keystrokes.value[i].release)
  {
    if keystrokes.None? {
      return None;
    }
    var ks := keystrokes.value;
    if |ks| < 1 {
      return None;
    }
    var out: seq<U64> := [];
    var i := 0;
    while i < |ks|
      invariant 0 <= i <= |ks|
      invariant |out| == i
      invariant forall j :: 0 <= j < i ==> out[j] == Ms(ks[j].press, ks[j].release)
    {
      out := out + [Ms(ks[i].press, ks[i].release)];
      i := i + 1;
    }
    return Some(out);
  }

  /** `get_flight_times_in_milliseconds`: NULL for a NULL buffer or fewer
      than two keystrokes, otherwise one flight time per adjacent pair. */
  method GetFlightTimes(keystrokes: Option<seq<Keystroke>>) returns (flights: Option<seq<U64>>)
    ensures flights.None? <==> keystrokes.None? || |keystrokes.value| < 2
    ensures flights.Some? ==> |flights.value| == |keystrokes.value| - 1
    ensures flights.Some? ==> forall i :: 0 <= i < |flights.value| ==>
              flights.value[i] == FlightMs(keystrokes.value[i].release, keystrokes.value[i + 1].press)
  {
    if keystrokes.None? {
      return None;
    }
    var ks := keystrokes.value;
    if |ks| < 2 {
      return None;
    }
    var out: seq<U64> := [];
    var i := 0;
    while i < |ks| - 1
      invariant 0 <= i <= |ks| - 1
      invariant |out| == i
      invariant forall j :: 0 <= j < i ==> out[j] == FlightMs(ks[j].release, ks[j + 1].press)
    {
      out := out + [FlightMs(ks[i].release, ks[i + 1].press)];
      i := i + 1;
    }
    return Some(out);
  }

  /** The array a statistic code selects. */
  function Selected(s: Session, statistic: Statistic): seq<U64>
    requires !statistic.UnknownStatistic?
  {
    match statistic
    case TimeDeltasStatistic => s.timeDeltas
    case DwellTimesStatistic => s.dwellTimes
    case FlightTimesStatistic => s.flightTimes
  }

  /** Replaces the array a statistic code selects, leaving the rest of the session. */
  function WithSelected(s: Session, statistic: Statistic, values: seq<U64>): (r: Session)
    requires !statistic.UnknownStatistic?
    ensures Selected(r, statistic) == values
    ensures r.keystrokes == s.keystrokes
  {
    match statistic
    case TimeDeltasStatistic => s.(timeDeltas := values)
    case DwellTimesStatistic => s.(dwellTimes := values)
    case FlightTimesStatistic => s.(flightTimes := values)
  }

  /** `set_session_statistic_data`: computes the selected statistic over the
      session's keystrokes and stores it (NULL, with length 0, when the
      statistic function returns NULL).  A NULL session or an unknown code is
      rejected without any change. */
  method SetSessionStatisticData(s: Option<Session>, statistic: Statistic) returns (err: KdtError, s': Option<Session>)
    ensures s.None? || statistic.UnknownStatistic? ==> err == InvalidArgumentValue && s' == s
    ensures s.Some? && !statistic.UnknownStatistic? ==>
      var n := |s.value.keystrokes|;
      var enough := if statistic == DwellTimesStatistic then n >= 1 else n >= 2;
      && s'.Some?
      && s'.value == WithSelected(s.value, statistic, Selected(s'.value, statistic))
      && (enough <==> err == NoError)
      && (!enough <==> err == NullError)
      && (!enough ==> Selected(s'.value, statistic) == [])
      && (enough && statistic == DwellTimesStatistic ==> |Selected(s'.value, statistic)| == n)
      && (enough && statistic != DwellTimesStatistic ==> |Selected(s'.value, statistic)| == n - 1)
    ensures s.Some? && statistic == TimeDeltasStatistic && s'.Some? ==>
      forall i :: 0 <= i < |s'.value.timeDeltas| ==>
        s'.value.timeDeltas[i] == Ms(s.value.keystrokes[i].press, s.value.keystrokes[i + 1].press)
    ensures s.Some? && statistic == DwellTimesStatistic && s'.Some? ==>
      forall i :: 0 <= i < |s'.value.dwellTimes| ==>
        s'.value.dwellTimes[i] == Ms(s.value.keystrokes[i].press, s.value.keystrokes[i].release)
    ensures s.Some? && statistic == FlightTimesStatistic && s'.Some? ==>
      forall i :: 0 <= i < |s'.value.flightTimes| ==>
        s'.value.flightTimes[i] == FlightMs(s.value.keystrokes[i].release, s.value.keystrokes[i + 1].press)
  {
    if s.None? {
      return InvalidArgumentValue, s;
    }
    var session := s.value;
    var values: Option<seq<U64>>;
    match statistic {
      case TimeDeltasStatistic =>
        values := GetTimeDeltas(Some(session.keystrokes));
      case DwellTimesStatistic =>
        values := GetDwellTimes(Some(session.keystrokes));
      case FlightTimesStatistic =>
        values := GetFlightTimes(Some(session.keystrokes));
      case UnknownStatistic(_) =>
        return InvalidArgumentValue, s;
    }
    if values.None? {
      return NullError, Some(WithSelected(session, statistic, []));
    }
    return NoError, Some(WithSelected(session, statistic, values.value));
  }
}
