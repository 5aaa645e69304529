/** The two raw terminal collectors (kdt.c and get_raw_input.c, whose
    capture loops and time-delta routines are the same): each reads single
    bytes from standard input until 64 are recorded, stamps each with one
    monotonic clock reading, echoes it, and reports the latency between
    consecutive bytes. */
module ByteCapture {
  import opened Machine
  import opened Kdt
  import opened Statistics

  /** Capacity of the fixed keystroke array. */
  const CAPACITY: int := 64

  /** A recorded byte and the clock reading taken right after it was read. */
  datatype ByteStroke = ByteStroke(c: Byte, timestamp: Timespec)

  /** One call of `read(STDIN_FILENO, &c, 1)`: its return value (1, 0 or -1),
      the byte it stores into `c` when it returns 1, and the clock reading
      that follows it when the loop goes on to record. */
  datatype ReadOutcome = ReadOutcome(result: int, b: Byte, time: Timespec)

  predicate WellFormed(r: ReadOutcome) {
    r.result == 1 || r.result == 0 || r.result == -1
  }

  /** The return value as it lands in the `unsigned char` variable `bytes_read`. */
  function AsUnsignedChar(x: int): Byte {
    x % TWO_8
  }

  /** The loop's skip test as written: `bytes_read <= 0` on an unsigned
      char, which holds only for 0, so a failed read (-1, stored as 255) is
      recorded. */
  predicate SkippedAsWritten(r: ReadOutcome) {
    AsUnsignedChar(r.result) <= 0
  }

  /** The skip test as evidently intended: no byte was read. */
  predicate SkippedIntended(r: ReadOutcome) {
    r.result <= 0
  }

  /** The value of `c` after a run of outcomes: the byte of the last successful
      read, or `initial` (the variable's prior content) when there was none. */
  function LastByte(outcomes: seq<ReadOutcome>, initial: Byte): Byte
    decreases |outcomes|
  {
    if |outcomes| == 0 then initial
    else if outcomes[|outcomes| - 1].result == 1 then outcomes[|outcomes| - 1].b
    else LastByte(outcomes[..|outcomes| - 1], initial)
  }

  /** Reference log of the loop as written, over an unbounded array: each
      read that passes the skip test records the current `c`. */
  function AsWrittenLog(outcomes: seq<ReadOutcome>, initial: Byte): seq<ByteStroke>
    decreases |outcomes|
  {
    if |outcomes| == 0 then []
    else
      var r := outcomes[|outcomes| - 1];
      var prior := AsWrittenLog(outcomes[..|outcomes| - 1], initial);
      if SkippedAsWritten(r) then prior
      else prior + [ByteStroke(LastByte(outcomes, initial), r.time)]
  }

  /** Reference log of the intended loop: the bytes actually read, in order. */
  function IntendedLog(outcomes: seq<ReadOutcome>): seq<ByteStroke>
    decreases |outcomes|
  {
    if |outcomes| == 0 then []
    else
      var r := outcomes[|outcomes| - 1];
      var prior := IntendedLog(outcomes[..|outcomes| - 1]);
      if SkippedIntended(r) then prior else prior + [ByteStroke(r.b, r.time)]
  }

  /** What the switch echoes for a recorded byte: "\b \b" for 127, nothing
      for a newline, the byte itself otherwise. */
  function EchoOf(c: Byte): (out: seq<Byte>)
    ensures c == BACKSPACE ==> out == [ASCII_BS, ' ' as int, ASCII_BS]
    ensures c == ENTER ==> out == []
    ensures c != BACKSPACE && c != ENTER ==> out == [c]
  {
    if c == BACKSPACE then [ASCII_BS, ' ' as int, ASCII_BS]
    else if c == ENTER then []
    else [c]
  }

  /** The terminal output for a whole log. */
  function EchoAll(ks: seq<ByteStroke>): seq<Byte>
    decreases |ks|
  {
    if |ks| == 0 then [] else EchoAll(ks[..|ks| - 1]) + EchoOf(ks[|ks| - 1].c)
  }

  /** No newline is ever echoed: the terminal shows the bytes typed with
      newlines suppressed and each DEL rendered as an erase sequence. */
  lemma {:induction false} EchoHasNoNewline(ks: seq<ByteStroke>)
    ensures forall i :: 0 <= i < |EchoAll(ks)| ==> EchoAll(ks)[i] != ENTER
    decreases |ks|
  {
    if |ks| > 0 {
      EchoHasNoNewline(ks[..|ks| - 1]);
    }
  }

  /** One more outcome extends the as-written log by at most the current `c`. */
  lemma AsWrittenStep(outcomes: seq<ReadOutcome>, consumed: nat, initial: Byte)
    requires consumed < |outcomes|
    ensures LastByte(outcomes[..consumed + 1], initial)
            == if outcomes[consumed].result == 1 then outcomes[consumed].b else LastByte(outcomes[..consumed], initial)
    ensures AsWrittenLog(outcomes[..consumed + 1], initial)
            == if SkippedAsWritten(outcomes[consumed]) then AsWrittenLog(outcomes[..consumed], initial)
               else AsWrittenLog(outcomes[..consumed], initial)
                    + [ByteStroke(LastByte(outcomes[..consumed + 1], initial), outcomes[consumed].time)]
  {
    assert outcomes[..consumed + 1][..consumed] == outcomes[..consumed];
  }

  lemma IntendedStep(outcomes: seq<ReadOutcome>, consumed: nat)
    requires consumed < |outcomes|
    ensures IntendedLog(outcomes[..consumed + 1])
            == if SkippedIntended(outcomes[consumed]) then IntendedLog(outcomes[..consumed])
               else IntendedLog(outcomes[..consumed]) + [ByteStroke(outcomes[consumed].b, outcomes[consumed].time)]
  {
    assert outcomes[..consumed + 1][..consumed] == outcomes[..consumed];
  }

  lemma EchoAppend(ks: seq<ByteStroke>, k: ByteStroke)
    ensures EchoAll(ks + [k]) == EchoAll(ks) + EchoOf(k.c)
  {
    assert (ks + [k])[..|ks|] == ks;
  }

  /** The capture loop as written.  The C loop spins until 64 bytes are
      recorded; over a finite stream of outcomes it either fills the array
      (`complete`), stopping at the read that records the 64th byte, or runs
      out of outcomes first.  `initial` is the content of
      the uninitialised `c` before the first successful read. */
  method CaptureAsWritten(outcomes: seq<ReadOutcome>, initial: Byte)
    returns (ks: seq<ByteStroke>, echo: seq<Byte>, consumed: nat, complete: bool)
    ensures consumed <= |outcomes|
    ensures ks == AsWrittenLog(outcomes[..consumed], initial)
    ensures consumed > 0 ==> |AsWrittenLog(outcomes[..consumed - 1], initial)| < CAPACITY
    ensures echo == EchoAll(ks)
    ensures complete <==> |ks| == CAPACITY
    ensures |ks| <= CAPACITY
    ensures !complete ==> consumed == |outcomes|
  {
    ks, echo, consumed := [], [], 0;
    var c := initial;
    ghost var before: seq<ByteStroke> := [];
    while |ks| < CAPACITY && consumed < |outcomes|
      invariant consumed <= |outcomes|
      invariant |ks| <= CAPACITY
      invariant ks == AsWrittenLog(outcomes[..consumed], initial)
      invariant consumed > 0 ==> |before| < CAPACITY
      invariant consumed > 0 ==> before == AsWrittenLog(outcomes[..consumed - 1], initial)
      invariant c == LastByte(outcomes[..consumed], initial)
      invariant echo == EchoAll(ks)
    {
      var r := outcomes[consumed];
      AsWrittenStep(outcomes, consumed, initial);
      before := ks;
      consumed := consumed + 1;
      if r.result == 1 {
        c := r.b;
      }
      if !SkippedAsWritten(r) {
        EchoAppend(ks, ByteStroke(c, r.time));
        ks := ks + [ByteStroke(c, r.time)];
        echo := echo + EchoOf(c);
      }
    }
    complete := |ks| == CAPACITY;
  }

  /** The capture loop with the intended skip test. */
  method CaptureIntended(outcomes: seq<ReadOutcome>)
    returns (ks: seq<ByteStroke>, echo: seq<Byte>, consumed: nat, complete: bool)
    ensures consumed <= |outcomes|
    ensures ks == IntendedLog(outcomes[..consumed])
    ensures consumed > 0 ==> |IntendedLog(outcomes[..consumed - 1])| < CAPACITY
    ensures echo == EchoAll(ks)
    ensures complete <==> |ks| == CAPACITY
    ensures |ks| <= CAPACITY
    ensures !complete ==> consumed == |outcomes|
  {
    ks, echo, consumed := [], [], 0;
    ghost var before: seq<ByteStroke> := [];
    while |ks| < CAPACITY && consumed < |outcomes|
      invariant consumed <= |outcomes|
      invariant |ks| <= CAPACITY
      invariant ks == IntendedLog(outcomes[..consumed])
      invariant consumed > 0 ==> |before| < CAPACITY
      invariant consumed > 0 ==> before == IntendedLog(outcomes[..consumed - 1])
      invariant echo == EchoAll(ks)
    {
      var r := outcomes[consumed];
      IntendedStep(outcomes, consumed);
      before := ks;
      consumed := consumed + 1;
      if !SkippedIntended(r) {
        EchoAppend(ks, ByteStroke(r.b, r.time));
        ks := ks + [ByteStroke(r.b, r.time)];
        echo := echo + EchoOf(r.b);
      }
    }
    complete := |ks| == CAPACITY;
  }

  /** The intended log holds exactly the successful outcomes: one entry per
      read returning 1, carrying its byte and time. */
  lemma {:induction false} IntendedLogIsSuccessfulReads(outcomes: seq<ReadOutcome>)
    requires forall i :: 0 <= i < |outcomes| ==> WellFormed(outcomes[i])
    ensures forall k :: 0 <= k < |IntendedLog(outcomes)| ==>
      exists i :: 0 <= i < |outcomes| && outcomes[i].result == 1 && IntendedLog(outcomes)[k] == ByteStroke(outcomes[i].b, outcomes[i].time)
    ensures |IntendedLog(outcomes)| <= |outcomes|
    decreases |outcomes|
  {
    if |outcomes| > 0 {
      var prefix := outcomes[..|outcomes| - 1];
      IntendedLogIsSuccessfulReads(prefix);
      var log := IntendedLog(outcomes);
      forall k | 0 <= k < |log|
        ensures exists i :: 0 <= i < |outcomes| && outcomes[i].result == 1 && log[k] == ByteStroke(outcomes[i].b, outcomes[i].time)
      {
        if k < |IntendedLog(prefix)| {
          var i :| 0 <= i < |prefix| && prefix[i].result == 1 && IntendedLog(prefix)[k] == ByteStroke(prefix[i].b, prefix[i].time);
          assert outcomes[i] == prefix[i];
        } else {
          assert outcomes[|outcomes| - 1].result == 1;
        }
      }
    } else {
      assert IntendedLog(outcomes) == [];
    }
  }

  /** Without failed outcomes the loop as written records exactly what the
      intended loop records. */
  lemma {:induction false} AsWrittenAgreesWithoutFailures(outcomes: seq<ReadOutcome>, initial: Byte)
    requires forall i :: 0 <= i < |outcomes| ==> outcomes[i].result == 0 || outcomes[i].result == 1
    ensures AsWrittenLog(outcomes, initial) == IntendedLog(outcomes)
    decreases |outcomes|
  {
    if |outcomes| > 0 {
      AsWrittenAgreesWithoutFailures(outcomes[..|outcomes| - 1], initial);
    }
  }

  /** A failed read after a successful one is recorded as a second copy of
      the previous byte: `read` returns -1, `bytes_read` holds 255, and the
      stale `c` is stored with a new time stamp. */
  lemma FailedReadRepeatsByte()
    ensures var outcomes := [ReadOutcome(1, 'a' as int, Timespec(0, 0)), ReadOutcome(-1, 0, Timespec(0, 5))];
      && AsWrittenLog(outcomes, 0) == [ByteStroke('a' as int, Timespec(0, 0)), ByteStroke('a' as int, Timespec(0, 5))]
      && IntendedLog(outcomes) == [ByteStroke('a' as int, Timespec(0, 0))]
  {
    var outcomes := [ReadOutcome(1, 'a' as int, Timespec(0, 0)), ReadOutcome(-1, 0, Timespec(0, 5))];
    var first := outcomes[..1];
    assert first[..0] == [];
    assert first == [outcomes[0]];
    assert LastByte(first, 0) == 'a' as int;
    assert AsWrittenLog(first, 0) == [ByteStroke('a' as int, Timespec(0, 0))];
    assert IntendedLog(first) == [ByteStroke('a' as int, Timespec(0, 0))];
    assert LastByte(outcomes, 0) == 'a' as int;
  }

  /** The local `get_time_deltas_in_milliseconds` of both collectors: NULL
      for a NULL array; otherwise `keystrokes_length - 1` latencies between
      consecutive time stamps.  It has no length guard: with no keystrokes
      the requested size wraps to 2^64 - 8 bytes, whose allocation fails, so
      that case is NULL as well. */
  method TimeDeltasSingle(keystrokes: Option<seq<ByteStroke>>) returns (deltas: Option<seq<U64>>)
    ensures deltas.None? <==> keystrokes.None? || |keystrokes.value| == 0
    ensures deltas.Some? ==> |deltas.value| == |keystrokes.value| - 1
    ensures deltas.Some? ==> forall i :: 0 <= i < |deltas.value| ==>
      deltas.value[i] == Ms(keystrokes.value[i].timestamp, keystrokes.value[i + 1].timestamp)
  {
    if keystrokes.None? || |keystrokes.value| == 0 {
      return None;
    }
    var ks := keystrokes.value;
    var out: seq<U64> := [];
    var i := 0;
    while i < |ks| - 1
      invariant 0 <= i <= |ks| - 1
      invariant |out| == i
      invariant forall j :: 0 <= j < i ==> out[j] == Ms(ks[j].timestamp, ks[j + 1].timestamp)
    {
      out := out + [Ms(ks[i].timestamp, ks[i + 1].timestamp)];
      i := i + 1;
    }
    return Some(out);
  }

  /** Time stamps in clock order with valid nanosecond fields. */
  predicate ClockOrdered(ks: seq<ByteStroke>) {
    && (forall i :: 0 <= i < |ks| ==> ValidNsec(ks[i].timestamp))
    && (forall i :: 0 <= i < |ks| - 1 ==> NotAfter(ks[i].timestamp, ks[i + 1].timestamp))
  }

  /** Over clock-ordered stamps (and gaps below 2^64 ms) each reported
      latency is the elapsed time truncated to milliseconds, or one more
      when the nanosecond subtraction borrows. */
  lemma LatenciesTrackElapsed(ks: seq<ByteStroke>, deltas: seq<U64>)
    requires ClockOrdered(ks)
    requires |deltas| == |ks| - 1
    requires forall i :: 0 <= i < |deltas| ==> deltas[i] == Ms(ks[i].timestamp, ks[i + 1].timestamp)
    requires forall i :: 0 <= i < |deltas| ==> SignedMs(ks[i].timestamp, ks[i + 1].timestamp) < TWO_64
    ensures forall i :: 0 <= i < |deltas| ==>
      ElapsedMs(ks[i].timestamp, ks[i + 1].timestamp) <= deltas[i] <= ElapsedMs(ks[i].timestamp, ks[i + 1].timestamp) + 1
  {
    forall i | 0 <= i < |deltas|
      ensures ElapsedMs(ks[i].timestamp, ks[i + 1].timestamp) <= deltas[i] <= ElapsedMs(ks[i].timestamp, ks[i + 1].timestamp) + 1
    {
      SignedMsVersusElapsed(ks[i].timestamp, ks[i + 1].timestamp);
      MsInOrder(ks[i].timestamp, ks[i + 1].timestamp);
    }
  }
}
