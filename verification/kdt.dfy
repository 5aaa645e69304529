/** The collector's data model (the types of libkdt.h as libkdt.c and the
    device collector actually use them). */
module Kdt {
  import opened Machine

  /** Capacity bound of the session buffer used by the press guard. */
  const BUFFER_SIZE: int := 256
  const ENTER: int := 10
  /** The character a backspace is recorded as once something has been typed. */
  const BACKSPACE: int := 127
  /** The character the key table gives for the backspace key. */
  const ASCII_BS: int := 8

  const NS_PER_SEC: int := 1_000_000_000

  /** A `struct timespec`. */
  datatype Timespec = Timespec(sec: int, nsec: int)

  /** The nanosecond field is a proper fraction of a second, as `clock_gettime` delivers it. */
  predicate ValidNsec(t: Timespec) {
    0 <= t.nsec < NS_PER_SEC
  }

  /** Both fields fit the `long` fields of the C struct. */
  predicate Fits(t: Timespec) {
    IsI64(t.sec) && IsI64(t.nsec)
  }

  /** Lexicographic order on (seconds, nanoseconds). */
  predicate NotAfter(a: Timespec, b: Timespec) {
    a.sec < b.sec || (a.sec == b.sec && a.nsec <= b.nsec)
  }

  /** A completed keystroke: the character (as the byte stored in the C
      `char`), and its press and release times. */
  datatype Keystroke = Keystroke(c: Byte, press: Timespec, release: Timespec)

  predicate KeystrokeValidNsec(k: Keystroke) {
    ValidNsec(k.press) && ValidNsec(k.release)
  }

  predicate AllValidNsec(ks: seq<Keystroke>) {
    forall i :: 0 <= i < |ks| ==> KeystrokeValidNsec(ks[i])
  }

  /** A session: its keystrokes and the three statistic arrays.  A NULL
      array (whose length field is then 0) is the empty sequence; in every
      state the C code reaches, a length field equals the number of values
      its array holds. */
  datatype Session = Session(
    keystrokes: seq<Keystroke>,
    timeDeltas: seq<U64>,
    dwellTimes: seq<U64>,
    flightTimes: seq<U64>)

  /** A session as the collector initialises it: every pointer NULL, every length 0. */
  const EmptySession: Session := Session([], [], [], [])

  /** `struct user_info`: three fixed 64-byte character fields (not
      necessarily NUL-terminated) and the typing duration as a `short`. */
  datatype UserInfo = UserInfo(user: seq<Byte>, email: seq<Byte>, major: seq<Byte>, typingDuration: int)

  const FIELD_SIZE: int := 64

  predicate ValidUserInfo(u: UserInfo) {
    |u.user| == FIELD_SIZE && |u.email| == FIELD_SIZE && |u.major| == FIELD_SIZE && IsI16(u.typingDuration)
  }

  /** `enum kdt_error`, with the `KDT_NULL_ERROR` that libkdt.c returns. */
  datatype KdtError =
    | NoError
    | InvalidParameter
    | InvalidArgumentValue
    | InvalidOutputFile
    | InsufficientArguments
    | UnhandledError
    | NullError

  /** `enum kdt_statistic`; any other code is `Unknown`. */
  datatype Statistic = TimeDeltasStatistic | DwellTimesStatistic | FlightTimesStatistic | UnknownStatistic(code: int)
}
