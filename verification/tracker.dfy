/** The device collector's capture loop (kdt-keystroke-collection/kdt.c):
    the EV_KEY handling body as a pure step over the tracker state, the
    press-time sort of the finished buffer, and the per-session statistics. */
module Tracker {
  import opened Machine
  import opened Kdt
  import opened Keycodes
  import opened Statistics

  const EV_KEY: int := 1

  /** A `struct input_event` together with the time `clock_gettime` reads
      while the event is handled. */
  datatype Event = Event(kind: int, code: int, value: int, time: Timespec)

  /** A slot of `active_keys`: the character assigned at the press (0 while
      none is assigned) and the press time. */
  datatype Pending = Pending(c: Byte, press: Timespec)

  /** The loop's state: the shift and caps-lock flags, the pending slots
      (an absent code is a slot whose character is 0) and the session buffer. */
  datatype State = State(shift: int, capsLock: bool, active: map<int, Pending>, buffer: seq<Keystroke>)

  /** The state at the start of a session: flags cleared, no pending key, an empty buffer. */
  const Initial: State := State(0, false, map[], [])

  function PendingChar(s: State, code: int): Byte {
    if code in s.active then s.active[code].c else 0
  }

  predicate IsShiftKey(code: int) {
    code == KEY_LEFTSHIFT || code == KEY_RIGHTSHIFT
  }

  /** The character a key press stores in its slot.  A backspace over a
      non-empty buffer is stored as 127 and any other character as itself,
      but only while the buffer holds fewer than 255 keystrokes; otherwise
      the slot keeps its character.  With `boundBackspace` false this is the
      collector as written, whose backspace branch has no such bound. */
  function PressCharOf(s: State, code: int, boundBackspace: bool): Byte {
    var ascii := KeycodeToAscii(code, s.shift, if s.capsLock then 1 else 0);
    if ascii == ASCII_BS && |s.buffer| > 0 && (!boundBackspace || |s.buffer| < BUFFER_SIZE - 1) then BACKSPACE
    else if ascii != 0 && |s.buffer| < BUFFER_SIZE - 1 then ascii
    else PendingChar(s, code)
  }

  /** One pass of the loop body for an event that was read. */
  function StepOf(s: State, e: Event, boundBackspace: bool): State {
    if e.kind != EV_KEY then s
    else if IsShiftKey(e.code) then s.(shift := e.value)
    else if e.code == KEY_CAPSLOCK && e.value == 1 then s.(capsLock := !s.capsLock)
    else if e.value == 1 then
      s.(active := s.active[e.code := Pending(PressCharOf(s, e.code, boundBackspace), e.time)])
    else if e.value == 0 && PendingChar(s, e.code) != 0 then
      var p := s.active[e.code];
      s.(active := s.active[e.code := p.(c := 0)],
         buffer := s.buffer + [Keystroke(p.c, p.press, e.time)])
    else s
  }

  /** The loop body as written: a backspace over a non-empty buffer is
      always stored, whatever the buffer's length (`BackspacesOverrun`). */
  function Step(s: State, e: Event): State {
    StepOf(s, e, false)
  }

  /** The loop body with the buffer bound applied to backspaces too, so that
      the buffer stays inside its 2048-entry allocation (`RunWithinCapacity`). */
  function StepBounded(s: State, e: Event): State {
    StepOf(s, e, true)
  }

  /** The loop as written over a stream of events, in order. */
  function Run(s: State, events: seq<Event>): State
    decreases |events|
  {
    if |events| == 0 then s else Step(Run(s, events[..|events| - 1]), events[|events| - 1])
  }

  predicate IsRelease(e: Event) {
    e.kind == EV_KEY && e.value == 0
  }

  lemma StepIgnoresOtherEvents(s: State, e: Event)
    requires e.kind != EV_KEY
    ensures Step(s, e) == s
  {
  }

  /** A shift event records its value as the shift state and touches nothing else. */
  lemma StepShift(s: State, e: Event)
    requires e.kind == EV_KEY && IsShiftKey(e.code)
    ensures Step(s, e).shift == e.value
    ensures Step(s, e).active == s.active && Step(s, e).buffer == s.buffer && Step(s, e).capsLock == s.capsLock
  {
  }

  /** A caps-lock press toggles the flag and produces nothing. */
  lemma StepCapsLock(s: State, e: Event)
    requires e.kind == EV_KEY && e.code == KEY_CAPSLOCK && e.value == 1
    ensures Step(s, e).capsLock == !s.capsLock
    ensures Step(s, e).active == s.active && Step(s, e).buffer == s.buffer && Step(s, e).shift == s.shift
  {
  }

  /** A press always records its time in the key's slot; a backspace over a
      non-empty buffer is stored as 127, whatever the buffer's length; any
      other non-zero character is stored only while the buffer holds fewer
      than 255 keystrokes (so a backspace on an empty buffer is stored as 8);
      otherwise the slot keeps its character.  Nothing is appended. */
  lemma StepPress(s: State, e: Event)
    requires e.kind == EV_KEY && !IsShiftKey(e.code) && e.code != KEY_CAPSLOCK && e.value == 1
    ensures var t := Step(s, e);
      var ascii := KeycodeToAscii(e.code, s.shift, if s.capsLock then 1 else 0);
      && e.code in t.active && t.active[e.code].press == e.time
      && (ascii == ASCII_BS && |s.buffer| > 0 ==> t.active[e.code].c == BACKSPACE)
      && (ascii == ASCII_BS && |s.buffer| == 0 ==> t.active[e.code].c == ASCII_BS)
      && (ascii != 0 && ascii != ASCII_BS && |s.buffer| < BUFFER_SIZE - 1 ==> t.active[e.code].c == ascii)
      && (ascii == 0 || (ascii != ASCII_BS && |s.buffer| >= BUFFER_SIZE - 1) ==> t.active[e.code].c == PendingChar(s, e.code))
      && t.buffer == s.buffer
      && (forall code :: code != e.code ==> PendingChar(t, code) == PendingChar(s, code))
  {
  }

  /** A release of a key holding a character appends exactly that keystroke,
      with the release time, and clears the slot's character; a release of a
      key holding none changes nothing. */
  lemma StepRelease(s: State, e: Event)
    requires e.kind == EV_KEY && !IsShiftKey(e.code) && e.value == 0
    ensures PendingChar(s, e.code) != 0 ==>
      && Step(s, e).buffer == s.buffer + [Keystroke(PendingChar(s, e.code), s.active[e.code].press, e.time)]
      && PendingChar(Step(s, e), e.code) == 0
    ensures PendingChar(s, e.code) == 0 ==> Step(s, e) == s
  {
  }

  /** Auto-repeat (value 2) and any other value on a non-shift key change nothing. */
  lemma StepRepeatIgnored(s: State, e: Event)
    requires e.kind == EV_KEY && !IsShiftKey(e.code) && e.value != 0 && e.value != 1
    ensures Step(s, e) == s
  {
  }

  /** Every keystroke the loop appends has a non-zero character. */
  predicate BufferChars(s: State) {
    forall i :: 0 <= i < |s.buffer| ==> s.buffer[i].c != 0
  }

  lemma {:induction false} RunKeepsCharsNonZero(s: State, events: seq<Event>)
    requires BufferChars(s)
    ensures BufferChars(Run(s, events))
    decreases |events|
  {
    if |events| > 0 {
      RunKeepsCharsNonZero(s, events[..|events| - 1]);
    }
  }

  /** The loop only ever appends: the buffer it started with stays a prefix. */
  lemma {:induction false} RunOnlyAppends(s: State, events: seq<Event>)
    ensures |s.buffer| <= |Run(s, events).buffer|
    ensures Run(s, events).buffer[..|s.buffer|] == s.buffer
    decreases |events|
  {
    if |events| > 0 {
      RunOnlyAppends(s, events[..|events| - 1]);
    }
  }

  /** A step either leaves the buffer alone or, on a release, appends one
      keystroke carrying the event's time. */
  lemma StepBuffer(s: State, e: Event)
    ensures Step(s, e).buffer == s.buffer
      || (IsRelease(e) && |Step(s, e).buffer| == |s.buffer| + 1
          && Step(s, e).buffer[..|s.buffer|] == s.buffer
          && Step(s, e).buffer[|s.buffer|].release == e.time)
  {
  }

  /** Some release event of the stream happened at time t. */
  predicate ReleasedAt(events: seq<Event>, t: Timespec) {
    exists i :: 0 <= i < |events| && IsRelease(events[i]) && events[i].time == t
  }

  lemma ReleasedAtExtends(events: seq<Event>, n: nat, t: Timespec)
    requires n <= |events| && ReleasedAt(events[..n], t)
    ensures ReleasedAt(events, t)
  {
    var i :| 0 <= i < n && IsRelease(events[..n][i]) && events[..n][i].time == t;
    assert events[i] == events[..n][i];
  }

  /** Every appended keystroke was completed by a release event of the
      stream and carries that event's time as its release time; so a key
      still pending when the stream stops is never appended. */
  lemma {:induction false} RunAppendsOnlyOnRelease(s: State, events: seq<Event>)
    ensures forall j :: |s.buffer| <= j < |Run(s, events).buffer| ==> ReleasedAt(events, Run(s, events).buffer[j].release)
    decreases |events|
  {
    if |events| > 0 {
      var n := |events| - 1;
      var prefix := events[..n];
      var e := events[n];
      RunAppendsOnlyOnRelease(s, prefix);
      RunOnlyAppends(s, prefix);
      var before := Run(s, prefix);
      var after := Run(s, events);
      assert after == Step(before, e);
      StepBuffer(before, e);
      forall j | |s.buffer| <= j < |after.buffer|
        ensures ReleasedAt(events, after.buffer[j].release)
      {
        if j < |before.buffer| {
          assert after.buffer[j] == before.buffer[j];
          ReleasedAtExtends(events, n, before.buffer[j].release);
        } else {
          assert IsRelease(events[n]) && events[n].time == after.buffer[j].release;
        }
      }
    } else {
      assert Run(s, events) == s;
    }
  }

  /** A stream with no release events appends nothing, whatever keys it presses. */
  lemma {:induction false} NoReleaseNoKeystroke(s: State, events: seq<Event>)
    requires forall i :: 0 <= i < |events| ==> !IsRelease(events[i])
    ensures Run(s, events).buffer == s.buffer
    decreases |events|
  {
    if |events| > 0 {
      NoReleaseNoKeystroke(s, events[..|events| - 1]);
    }
  }

  /** Valid nanoseconds everywhere in the state. */
  predicate StateValidNsec(s: State) {
    && AllValidNsec(s.buffer)
    && (forall code :: code in s.active ==> ValidNsec(s.active[code].press))
  }

  predicate EventsValidNsec(events: seq<Event>) {
    forall i :: 0 <= i < |events| ==> ValidNsec(events[i].time)
  }

  lemma {:induction false} RunKeepsValidNsec(s: State, events: seq<Event>)
    requires StateValidNsec(s) && EventsValidNsec(events)
    ensures StateValidNsec(Run(s, events))
    decreases |events|
  {
    if |events| > 0 {
      RunKeepsValidNsec(s, events[..|events| - 1]);
    }
  }

  /** Event times never go backwards (the clock is monotonic). */
  predicate Monotone(events: seq<Event>) {
    forall i, j :: 0 <= i < j < |events| ==> NotAfter(events[i].time, events[j].time)
  }

  /** Everything the state remembers happened no later than `now`, and every
      buffered keystroke was released no earlier than it was pressed. */
  predicate TimesConsistent(s: State, now: Timespec) {
    && (forall code :: code in s.active ==> NotAfter(s.active[code].press, now))
    && (forall i :: 0 <= i < |s.buffer| ==> NotAfter(s.buffer[i].press, s.buffer[i].release))
  }

  lemma NotAfterTransitive(a: Timespec, b: Timespec, c: Timespec)
    requires NotAfter(a, b) && NotAfter(b, c)
    ensures NotAfter(a, c)
  {
  }

  /** With a monotonic clock, every keystroke the loop completes is released
      no earlier than it was pressed. */
  lemma {:induction false} RunReleasesAfterPress(events: seq<Event>)
    requires |events| > 0 && Monotone(events)
    ensures TimesConsistent(Run(Initial, events), events[|events| - 1].time)
    decreases |events|
  {
    var e := events[|events| - 1];
    var prefix := events[..|events| - 1];
    if |prefix| > 0 {
      RunReleasesAfterPress(prefix);
      var before := Run(Initial, prefix);
      var last := prefix[|prefix| - 1];
      assert NotAfter(last.time, e.time);
      forall code | code in before.active
        ensures NotAfter(before.active[code].press, e.time)
      {
        NotAfterTransitive(before.active[code].press, last.time, e.time);
      }
    } else {
      assert Run(Initial, prefix) == Initial;
    }
  }

  // ------------------------------------------------------- buffer capacity

  /** Entries `malloc`'d for the session buffer. */
  const KEYSTROKE_CAPACITY: int := 2048

  /** The number of key codes below n whose slot holds a character. */
  function Held(s: State, n: nat): (h: nat)
    ensures h <= n
  {
    if n == 0 then 0 else Held(s, n - 1) + (if PendingChar(s, n - 1) != 0 then 1 else 0)
  }

  /** Changing one slot changes the count by that slot alone. */
  lemma {:induction false} HeldUpdate(s: State, t: State, c: int, n: nat)
    requires forall k :: k != c ==> PendingChar(t, k) == PendingChar(s, k)
    ensures Held(t, n) + (if 0 <= c < n && PendingChar(s, c) != 0 then 1 else 0)
      == Held(s, n) + (if 0 <= c < n && PendingChar(t, c) != 0 then 1 else 0)
    decreases n
  {
    if n > 0 {
      HeldUpdate(s, t, c, n - 1);
    }
  }

  /** Only codes the resolver knows can hold a character. */
  ghost predicate HeldInRange(s: State) {
    forall code :: PendingChar(s, code) != 0 ==> 0 <= code <= KEY_MAX
  }

  /** Every buffered keystroke and every held character was admitted while
      the buffer held fewer than 255 keystrokes, one per slot. */
  ghost predicate WithinBound(s: State) {
    && HeldInRange(s)
    && |s.buffer| + Held(s, KEY_MAX + 1) <= BUFFER_SIZE - 1 + KEY_MAX
  }

  lemma StepKeepsWithinBound(s: State, e: Event)
    requires WithinBound(s)
    ensures WithinBound(StepBounded(s, e))
  {
    var t := StepBounded(s, e);
    var c := if e.kind == EV_KEY && !IsShiftKey(e.code) && !(e.code == KEY_CAPSLOCK && e.value == 1) then e.code else -1;
    assert forall k :: k != c ==> PendingChar(t, k) == PendingChar(s, k);
    HeldUpdate(s, t, c, KEY_MAX + 1);
    if c != -1 && e.value == 1 && PendingChar(s, c) == 0 && PendingChar(t, c) != 0 {
      assert |s.buffer| < BUFFER_SIZE - 1;
    }
    forall code | PendingChar(t, code) != 0
      ensures 0 <= code <= KEY_MAX
    {
      if PendingChar(s, code) == 0 {
        assert KeycodeToAscii(code, s.shift, if s.capsLock then 1 else 0) != 0;
      }
    }
  }

  /** The loop with backspaces bounded. */
  function RunBounded(s: State, events: seq<Event>): State
    decreases |events|
  {
    if |events| == 0 then s else StepBounded(RunBounded(s, events[..|events| - 1]), events[|events| - 1])
  }

  lemma {:induction false} RunKeepsWithinBound(s: State, events: seq<Event>)
    requires WithinBound(s)
    ensures WithinBound(RunBounded(s, events))
    decreases |events|
  {
    if |events| > 0 {
      RunKeepsWithinBound(s, events[..|events| - 1]);
      StepKeepsWithinBound(RunBounded(s, events[..|events| - 1]), events[|events| - 1]);
    }
  }

  lemma {:induction false} HeldNone(s: State, n: nat)
    requires forall k :: PendingChar(s, k) == 0
    ensures Held(s, n) == 0
    decreases n
  {
    if n > 0 {
      HeldNone(s, n - 1);
    }
  }

  /** With backspaces bounded, a session never stores more keystrokes than
      254 plus one per key code, far inside the 2048 entries allocated for it. */
  lemma RunWithinCapacity(events: seq<Event>)
    ensures |RunBounded(Initial, events).buffer| <= BUFFER_SIZE - 1 + KEY_MAX
    ensures |RunBounded(Initial, events).buffer| <= KEYSTROKE_CAPACITY
  {
    HeldNone(Initial, KEY_MAX + 1);
    RunKeepsWithinBound(Initial, events);
  }

  /** The two steps differ only in a backspace press over a buffer that
      already holds 255 keystrokes or more. */
  lemma StepsAgreeBelowBound(s: State, e: Event)
    requires |s.buffer| < BUFFER_SIZE - 1
    ensures StepBounded(s, e) == Step(s, e)
  {
  }

  /** n taps of the backspace key, all read at time t. */
  function BackspaceTaps(n: nat, t: Timespec): (events: seq<Event>)
    ensures |events| == 2 * n
  {
    if n == 0 then []
    else BackspaceTaps(n - 1, t) + [Event(EV_KEY, KEY_BACKSPACE, 1, t), Event(EV_KEY, KEY_BACKSPACE, 0, t)]
  }

  /** As written, a backspace tap on a cleared slot always appends one keystroke. */
  lemma BackspaceTap(s: State, t: Timespec)
    requires PendingChar(s, KEY_BACKSPACE) == 0 && s.shift == 0 && !s.capsLock
    ensures var after := Step(Step(s, Event(EV_KEY, KEY_BACKSPACE, 1, t)), Event(EV_KEY, KEY_BACKSPACE, 0, t));
      && |after.buffer| == |s.buffer| + 1
      && PendingChar(after, KEY_BACKSPACE) == 0 && after.shift == 0 && !after.capsLock
  {
    assert KeycodeToAscii(KEY_BACKSPACE, 0, 0) == ASCII_BS;
  }

  /** As written, every backspace tap is stored, however full the buffer. */
  lemma {:induction false} BackspaceTapsStored(n: nat, t: Timespec)
    ensures |Run(Initial, BackspaceTaps(n, t)).buffer| == n
    ensures PendingChar(Run(Initial, BackspaceTaps(n, t)), KEY_BACKSPACE) == 0
    ensures Run(Initial, BackspaceTaps(n, t)).shift == 0
    ensures !Run(Initial, BackspaceTaps(n, t)).capsLock
    decreases n
  {
    if n > 0 {
      var before := BackspaceTaps(n - 1, t);
      var press := Event(EV_KEY, KEY_BACKSPACE, 1, t);
      var release := Event(EV_KEY, KEY_BACKSPACE, 0, t);
      var all := BackspaceTaps(n, t);
      var pressed := before + [press];
      assert all == pressed + [release];
      assert all[..|all| - 1] == pressed;
      assert pressed[..|pressed| - 1] == before;
      BackspaceTapsStored(n - 1, t);
      var s := Run(Initial, before);
      assert Run(Initial, pressed) == Step(s, press);
      BackspaceTap(s, t);
    }
  }

  /** 2049 backspace taps leave 2049 keystrokes in a buffer allocated for
      2048: the last release stores past the end of the array. */
  lemma BackspacesOverrun(t: Timespec)
    ensures |Run(Initial, BackspaceTaps(KEYSTROKE_CAPACITY + 1, t)).buffer| > KEYSTROKE_CAPACITY
  {
    BackspaceTapsStored(KEYSTROKE_CAPACITY + 1, t);
  }

  /** The buffer is in press-time order by the comparator. */
  predicate SortedByPress(ks: seq<Keystroke>) {
    forall i, j :: 0 <= i < j < |ks| ==> CompareKeystrokes(ks[i], ks[j]) <= 0
  }

  /** A keystroke not after the head of a sorted buffer may go in front. */
  lemma InsertFrontSorted(k: Keystroke, ks: seq<Keystroke>)
    requires SortedByPress(ks) && |ks| > 0 && CompareKeystrokes(k, ks[0]) <= 0
    ensures SortedByPress([k] + ks)
  {
    forall j | 0 <= j < |ks|
      ensures CompareKeystrokes(k, ks[j]) <= 0
    {
      if j > 0 {
        CompareTransitive(k, ks[0], ks[j]);
      }
    }
  }

  /** The head of a sorted buffer stays in front of a sorted insertion into its tail. */
  lemma InsertBehindSorted(k: Keystroke, ks: seq<Keystroke>, rest: seq<Keystroke>)
    requires SortedByPress(ks) && |ks| > 0 && CompareKeystrokes(k, ks[0]) > 0
    requires SortedByPress(rest) && multiset(rest) == multiset(ks[1..]) + multiset{k}
    ensures SortedByPress([ks[0]] + rest)
  {
    CompareIsLexicographic(k, ks[0]);
    forall j | 0 <= j < |rest|
      ensures CompareKeystrokes(ks[0], rest[j]) <= 0
    {
      var x := rest[j];
      assert x in multiset(rest);
      if x != k {
        assert x in multiset(ks[1..]);
        var i :| 0 <= i < |ks[1..]| && ks[1..][i] == x;
        assert ks[i + 1] == x;
      }
    }
  }

  /** Inserts a keystroke before the first one it does not come after. */
  function InsertByPress(k: Keystroke, ks: seq<Keystroke>): (r: seq<Keystroke>)
    requires SortedByPress(ks)
    ensures SortedByPress(r)
    ensures multiset(r) == multiset(ks) + multiset{k}
  {
    if |ks| == 0 then [k]
    else if CompareKeystrokes(k, ks[0]) <= 0 then
      InsertFrontSorted(k, ks);
      [k] + ks
    else
      var rest := InsertByPress(k, ks[1..]);
      assert ks == [ks[0]] + ks[1..];
      InsertBehindSorted(k, ks, rest);
      [ks[0]] + rest
  }

  /** The ordering step: the buffer sorted by `compare_keystrokes`.  `qsort`
      is not stable, so all that is promised is a sorted permutation. */
  function SortByPress(ks: seq<Keystroke>): (r: seq<Keystroke>)
    ensures SortedByPress(r)
    ensures multiset(r) == multiset(ks)
    ensures |r| == |ks|
  {
    if |ks| == 0 then []
    else
      assert ks == [ks[0]] + ks[1..];
      InsertByPress(ks[0], SortByPress(ks[1..]))
  }

  /** A permutation keeps every per-keystroke property of the buffer. */
  lemma PermutationKeeps(sorted: seq<Keystroke>, buffer: seq<Keystroke>)
    requires multiset(sorted) == multiset(buffer)
    requires AllValidNsec(buffer)
    requires forall i :: 0 <= i < |buffer| ==> buffer[i].c != 0
    ensures AllValidNsec(sorted)
    ensures forall i :: 0 <= i < |sorted| ==> sorted[i].c != 0
  {
    forall i | 0 <= i < |sorted|
      ensures KeystrokeValidNsec(sorted[i]) && sorted[i].c != 0
    {
      assert sorted[i] in multiset(buffer);
      var j :| 0 <= j < |buffer| && buffer[j] == sorted[i];
    }
  }

  /** Over a press-sorted sequence with valid nanoseconds no latency is negative. */
  lemma SortedLatenciesNonNegative(ks: seq<Keystroke>)
    requires SortedByPress(ks) && AllValidNsec(ks)
    ensures forall i :: 0 <= i < |ks| - 1 ==> SignedMs(ks[i].press, ks[i + 1].press) >= 0
  {
    forall i | 0 <= i < |ks| - 1
      ensures SignedMs(ks[i].press, ks[i + 1].press) >= 0
    {
      CompareIsLexicographic(ks[i], ks[i + 1]);
      SignedMsVersusElapsed(ks[i].press, ks[i + 1].press);
    }
  }

  /** One session of the device collector: the loop over its events from a
      cleared state, the sort of the buffer, then time deltas, dwell and
      flight times stored in that order. */
  method CaptureSession(events: seq<Event>) returns (session: Session)
    requires EventsValidNsec(events)
    ensures multiset(session.keystrokes) == multiset(Run(Initial, events).buffer)
    ensures SortedByPress(session.keystrokes)
    ensures forall i :: 0 <= i < |session.keystrokes| ==> session.keystrokes[i].c != 0
    ensures var n := |session.keystrokes|;
      && |session.timeDeltas| == (if n < 2 then 0 else n - 1)
      && |session.dwellTimes| == n
      && |session.flightTimes| == (if n < 2 then 0 else n - 1)
    ensures forall i :: 0 <= i < |session.timeDeltas| ==>
      var a := session.keystrokes[i].press;
      var b := session.keystrokes[i + 1].press;
      && SignedMs(a, b) >= 0
      && (SignedMs(a, b) < TWO_64 ==> session.timeDeltas[i] == SignedMs(a, b))
    ensures forall i :: 0 <= i < |session.dwellTimes| ==>
      session.dwellTimes[i] == Ms(session.keystrokes[i].press, session.keystrokes[i].release)
    ensures forall i :: 0 <= i < |session.flightTimes| ==>
      session.flightTimes[i] == FlightMs(session.keystrokes[i].release, session.keystrokes[i + 1].press)
  {
    var loop := Run(Initial, events);
    RunKeepsValidNsec(Initial, events);
    RunKeepsCharsNonZero(Initial, events);
    var sorted := SortByPress(loop.buffer);
    PermutationKeeps(sorted, loop.buffer);
    SortedLatenciesNonNegative(sorted);
    var err: KdtError;
    var s1, s2, s3: Option<Session>;
    err, s1 := SetSessionStatisticData(Some(Session(sorted, [], [], [])), TimeDeltasStatistic);
    err, s2 := SetSessionStatisticData(s1, DwellTimesStatistic);
    err, s3 := SetSessionStatisticData(s2, FlightTimesStatistic);
    session := s3.value;
    assert session.keystrokes == sorted;
    assert session.timeDeltas == s1.value.timeDeltas;
    assert session.dwellTimes == s2.value.dwellTimes;
  }
}
