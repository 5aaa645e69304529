/** The two Python readers of the session file: `read_keystroke_logger_output`
    in ak24-data-analysis/read_binary.py (keys decoded to characters, flight
    times sign-repaired by `convert_to_signed`) and in
    classifiers/read_binary.py (everything verbatim).  Both read exactly the
    layout of the shared parser; any exception (`struct.error` on a short
    read, `UnicodeDecodeError`) is `None`, so no partial result escapes. */
module PyReaders {
  import opened Machine
  import opened Kdt
  import opened Statistics
  import opened SessionCodec

  /** The header as both readers return it: decoded, NUL-stripped text fields
      and the signed duration. */
  datatype PyUserInfo = PyUserInfo(user: string, email: string, major: string, typingDuration: int)

  /** A keystroke of the ak24 reader: the key as a one-character string. */
  datatype PyKeystroke = PyKeystroke(key: char, press: Timespec, release: Timespec)

  /** A session of the ak24 reader; its flight times are Python integers after the repair. */
  datatype PySession = PySession(keystrokes: seq<PyKeystroke>, timeDeltas: seq<int>, dwellTimes: seq<int>, flightTimes: seq<int>)

  /** What a reader returns: the header and the sessions in file order. */
  datatype PyFile<S> = PyFile(info: PyUserInfo, sessions: seq<S>)

  const NUL: char := '\0'

  /** `bytes.decode('utf-8')` restricted to ASCII: every byte below 0x80 is
      its own character; any other byte is treated as a decoding failure. */
  function DecodeAscii(bs: seq<Byte>): (r: Option<string>)
    ensures r.Some? <==> forall i :: 0 <= i < |bs| ==> bs[i] < 128
    ensures r.Some? ==> |r.value| == |bs| && forall i :: 0 <= i < |bs| ==> r.value[i] as int == bs[i]
    decreases |bs|
  {
    if |bs| == 0 then Some([])
    else if bs[0] >= 128 then None
    else match DecodeAscii(bs[1..])
      case None => None
      case Some(t) => Some([bs[0] as char] + t)
  }

  function StripLeadingNul(s: string): (r: string)
    ensures |r| <= |s| && r == s[|s| - |r|..]
    ensures |r| > 0 ==> r[0] != NUL
    ensures forall k :: 0 <= k < |s| - |r| ==> s[k] == NUL
    decreases |s|
  {
    if |s| > 0 && s[0] == NUL then
      var t := s[1..];
      var r := StripLeadingNul(t);
      assert forall k :: 0 < k < |s| ==> s[k] == t[k - 1];
      r
    else s
  }

  function StripTrailingNul(s: string): (r: string)
    ensures |r| <= |s| && r == s[..|r|]
    ensures |r| > 0 ==> r[|r| - 1] != NUL
    ensures forall k :: |r| <= k < |s| ==> s[k] == NUL
    decreases |s|
  {
    if |s| > 0 && s[|s| - 1] == NUL then StripTrailingNul(s[..|s| - 1]) else s
  }

  /** The number of NULs `str.strip` removes from the front. */
  function LeadingNuls(s: string): nat {
    |s| - |StripLeadingNul(s)|
  }

  /** `str.strip('\x00')`: the slice left after removing NULs from both
      ends only; it neither starts nor ends with a NUL. */
  function StripNul(s: string): (r: string)
    ensures LeadingNuls(s) + |r| <= |s|
    ensures r == s[LeadingNuls(s)..LeadingNuls(s) + |r|]
    ensures forall k :: 0 <= k < LeadingNuls(s) ==> s[k] == NUL
    ensures forall k :: LeadingNuls(s) + |r| <= k < |s| ==> s[k] == NUL
    ensures |r| > 0 ==> r[0] != NUL && r[|r| - 1] != NUL
  {
    StripTrailingNul(StripLeadingNul(s))
  }

  function Nuls(n: nat): (r: string)
    ensures |r| == n && forall k :: 0 <= k < n ==> r[k] == NUL
  {
    seq(n, _ => NUL)
  }

  lemma {:induction false} StripTrailingPad(name: string, pad: nat)
    requires |name| > 0 ==> name[|name| - 1] != NUL
    ensures StripTrailingNul(name + Nuls(pad)) == name
    decreases pad
  {
    var s := name + Nuls(pad);
    if pad > 0 {
      assert s[..|s| - 1] == name + Nuls(pad - 1);
      StripTrailingPad(name, pad - 1);
    } else {
      assert s == name;
    }
  }

  lemma {:induction false} StripLeadingAllNul(pad: nat)
    ensures StripLeadingNul(Nuls(pad)) == []
    decreases pad
  {
    if pad > 0 {
      assert Nuls(pad)[1..] == Nuls(pad - 1);
      StripLeadingAllNul(pad - 1);
    }
  }

  /** A NUL-padded field whose text neither starts nor ends with a NUL (the
      usual content of a fixed 64-byte C buffer) reads back as the text itself. */
  lemma StripPaddedName(name: string, pad: nat)
    requires |name| > 0 ==> name[0] != NUL && name[|name| - 1] != NUL
    ensures StripNul(name + Nuls(pad)) == name
  {
    var s := name + Nuls(pad);
    if |name| > 0 {
      assert s[0] == name[0];
      assert StripLeadingNul(s) == s;
      StripTrailingPad(name, pad);
    } else {
      assert s == Nuls(pad);
      StripLeadingAllNul(pad);
    }
  }

  /** A header field: 64 bytes decoded and stripped of NULs at both ends. */
  function DecodeField(bs: seq<Byte>): Option<string> {
    match DecodeAscii(bs)
    case None => None
    case Some(t) => Some(StripNul(t))
  }

  function PyHeader(u: UserInfo): Option<PyUserInfo> {
    match DecodeField(u.user)
    case None => None
    case Some(user) =>
      match DecodeField(u.email)
      case None => None
      case Some(email) =>
        match DecodeField(u.major)
        case None => None
        case Some(major) => Some(PyUserInfo(user, email, major, u.typingDuration))
  }

  /** `read_keystroke_logger_output` of classifiers/read_binary.py: the
      header decoded, every session verbatim (raw key byte, signed
      timestamps, unsigned statistic values, no sign repair). */
  function ClassifiersRead(bs: seq<Byte>): (r: Option<PyFile<Session>>)
    ensures r.Some? ==> ReadStore(bs).Some? && r.value.sessions == ReadStore(bs).value.value.sessions
    ensures ReadStore(bs).None? ==> r.None?
  {
    match ReadStore(bs)
    case None => None
    case Some(p) =>
      match PyHeader(p.value.info)
      case None => None
      case Some(h) => Some(PyFile(h, p.value.sessions))
  }

  /** `convert_to_signed` with its default threshold: values above 500000
      are taken to be wrapped negatives. */
  const THRESHOLD: int := 500000

  function ConvertToSigned(x: int): int {
    if x > THRESHOLD then x - TWO_64 else x
  }

  function Abs(x: int): nat {
    if x < 0 then -x else x
  }

  /** The ak24 reader's flight-time repair `abs(convert_to_signed(x))`. */
  function RepairFlight(x: U64): (r: nat)
    ensures x <= THRESHOLD ==> r == x
    ensures x > THRESHOLD ==> r == TWO_64 - x
  {
    Abs(ConvertToSigned(x))
  }

  /** The repair undoes the C wrap-around: a wrapped `2^64 - d` comes back
      as `d`, and small values pass unchanged. */
  lemma RepairUndoesWrap(d: int)
    requires 0 < d < TWO_64 - THRESHOLD
    ensures RepairFlight(TWO_64 - d) == d
  {
  }

  /** Combined with the flight-time branch: a flight the C code wraps (next
      press earlier in seconds, later in nanoseconds than the release)
      reaches the ak24 user as the magnitude of the signed difference. */
  lemma RepairOfWrappedFlight(release: Timespec, press: Timespec)
    requires ValidNsec(release) && ValidNsec(press)
    requires press.sec < release.sec && press.nsec > release.nsec
    requires MS_PER_SEC * (release.sec - press.sec) < TWO_64 - THRESHOLD
    ensures RepairFlight(FlightMs(release, press)) == -SignedMs(release, press)
  {
    FlightWraps(release, press);
    NanoPartBounds(release, press);
  }

  /** A single key byte decoded as UTF-8: a byte below 0x80 is its
      character; any other lone byte is not valid UTF-8 and raises. */
  function KeyChar(b: Byte): (r: Option<char>)
    ensures r.Some? <==> b < 128
    ensures r.Some? ==> r.value as int == b
  {
    if b < 128 then Some(b as char) else None
  }

  function PyKeystrokes(ks: seq<Keystroke>): (r: Option<seq<PyKeystroke>>)
    ensures r.Some? <==> forall i :: 0 <= i < |ks| ==> ks[i].c < 128
    ensures r.Some? ==> |r.value| == |ks| && forall i :: 0 <= i < |ks| ==>
      r.value[i] == PyKeystroke(ks[i].c as char, ks[i].press, ks[i].release)
    decreases |ks|
  {
    if |ks| == 0 then Some([])
    else match KeyChar(ks[0].c)
      case None => None
      case Some(c) =>
        match PyKeystrokes(ks[1..])
        case None => None
        case Some(rest) => Some([PyKeystroke(c, ks[0].press, ks[0].release)] + rest)
  }

  function RepairFlights(xs: seq<U64>): (r: seq<int>)
    ensures |r| == |xs| && forall i :: 0 <= i < |xs| ==> r[i] == RepairFlight(xs[i])
    decreases |xs|
  {
    if |xs| == 0 then [] else [RepairFlight(xs[0]) as int] + RepairFlights(xs[1..])
  }

  /** One session as the ak24 reader builds it. */
  function PySessionOf(s: Session): Option<PySession> {
    match PyKeystrokes(s.keystrokes)
    case None => None
    case Some(ks) => Some(PySession(ks, s.timeDeltas, s.dwellTimes, RepairFlights(s.flightTimes)))
  }

  function PySessions(ss: seq<Session>): (r: Option<seq<PySession>>)
    ensures r.Some? ==> |r.value| == |ss|
    decreases |ss|
  {
    if |ss| == 0 then Some([])
    else match PySessionOf(ss[0])
      case None => None
      case Some(p) =>
        match PySessions(ss[1..])
        case None => None
        case Some(rest) => Some([p] + rest)
  }

  /** `read_keystroke_logger_output` of ak24-data-analysis/read_binary.py. */
  function Ak24Read(bs: seq<Byte>): (r: Option<PyFile<PySession>>)
    ensures ReadStore(bs).None? ==> r.None?
    ensures r.Some? ==> |r.value.sessions| == |ReadStore(bs).value.value.sessions|
  {
    match ReadStore(bs)
    case None => None
    case Some(p) =>
      match PyHeader(p.value.info)
      case None => None
      case Some(h) =>
        match PySessions(p.value.sessions)
        case None => None
        case Some(ss) => Some(PyFile(h, ss))
  }

  /** Keys below 0x80 only. */
  predicate AsciiSessionKeys(s: Session) {
    forall j :: 0 <= j < |s.keystrokes| ==> s.keystrokes[j].c < 128
  }

  predicate AsciiKeys(ss: seq<Session>) {
    forall i :: 0 <= i < |ss| ==> AsciiSessionKeys(ss[i])
  }

  /** A session with ASCII keys converts: every keystroke keeps its key (as
      the character of its byte) and both times, deltas and dwell times are
      verbatim, and every flight time is repaired. */
  lemma PySessionOfAscii(s: Session)
    requires AsciiSessionKeys(s)
    ensures PySessionOf(s).Some?
    ensures var p := PySessionOf(s).value;
      && |p.keystrokes| == |s.keystrokes|
      && (forall j :: 0 <= j < |s.keystrokes| ==>
            && p.keystrokes[j].key as int == s.keystrokes[j].c
            && p.keystrokes[j].press == s.keystrokes[j].press
            && p.keystrokes[j].release == s.keystrokes[j].release)
      && p.timeDeltas == s.timeDeltas
      && p.dwellTimes == s.dwellTimes
      && |p.flightTimes| == |s.flightTimes|
      && (forall j :: 0 <= j < |s.flightTimes| ==> p.flightTimes[j] == RepairFlight(s.flightTimes[j]))
  {
    var ks := PyKeystrokes(s.keystrokes);
    assert ks.Some?;
    forall j | 0 <= j < |s.keystrokes|
      ensures ks.value[j].key as int == s.keystrokes[j].c
    {
      assert ks.value[j] == PyKeystroke(s.keystrokes[j].c as char, s.keystrokes[j].press, s.keystrokes[j].release);
    }
  }

  /** Every session of an all-ASCII sequence converts, and the converted
      sequence is the per-session conversion, position by position. */
  lemma {:induction false} PySessionsOfAscii(ss: seq<Session>)
    requires AsciiKeys(ss)
    ensures PySessions(ss).Some?
    ensures |PySessions(ss).value| == |ss|
    ensures forall i :: 0 <= i < |ss| ==>
      PySessionOf(ss[i]).Some? && PySessions(ss).value[i] == PySessionOf(ss[i]).value
    decreases |ss|
  {
    if |ss| > 0 {
      assert AsciiKeys(ss[1..]) by {
        forall i | 0 <= i < |ss[1..]| ensures AsciiSessionKeys(ss[1..][i]) {
          assert ss[1..][i] == ss[i + 1];
        }
      }
      PySessionsOfAscii(ss[1..]);
      PySessionOfAscii(ss[0]);
      var rest := PySessions(ss[1..]).value;
      var p := PySessionOf(ss[0]).value;
      assert PySessions(ss).value == [p] + rest;
      forall i | 0 <= i < |ss|
        ensures PySessionOf(ss[i]).Some? && PySessions(ss).value[i] == PySessionOf(ss[i]).value
      {
        if i > 0 {
          assert ss[i] == ss[1..][i - 1];
        }
      }
    }
  }

  /** Header fields as a C collector leaves them: ASCII text padded with NULs. */
  predicate AsciiHeader(u: UserInfo) {
    && (forall i :: 0 <= i < |u.user| ==> u.user[i] < 128)
    && (forall i :: 0 <= i < |u.email| ==> u.email[i] < 128)
    && (forall i :: 0 <= i < |u.major| ==> u.major[i] < 128)
  }

  /** Bytes below 0x80 read as the characters with those codes. */
  function AsciiText(bs: seq<Byte>): (t: string)
    ensures |t| == |bs|
  {
    seq(|bs|, i requires 0 <= i < |bs| => bs[i] as char)
  }

  /** The header a reader returns for ASCII fields: each field's text with
      the NULs at both ends removed, and the duration. */
  function HeaderText(u: UserInfo): PyUserInfo {
    PyUserInfo(StripNul(AsciiText(u.user)), StripNul(AsciiText(u.email)),
      StripNul(AsciiText(u.major)), u.typingDuration)
  }

  lemma DecodeAsciiText(bs: seq<Byte>)
    requires forall i :: 0 <= i < |bs| ==> bs[i] < 128
    ensures DecodeAscii(bs) == Some(AsciiText(bs))
  {
    var r := DecodeAscii(bs);
    assert r.Some?;
    assert r.value == AsciiText(bs) by {
      forall i | 0 <= i < |bs| ensures r.value[i] == AsciiText(bs)[i] {
        assert r.value[i] as int == bs[i];
      }
    }
  }

  /** An all-ASCII header always decodes, to its NUL-stripped texts and
      the duration. */
  lemma PyHeaderOfAscii(u: UserInfo)
    requires AsciiHeader(u)
    ensures PyHeader(u) == Some(HeaderText(u))
  {
    DecodeAsciiText(u.user);
    DecodeAsciiText(u.email);
    DecodeAsciiText(u.major);
    assert DecodeField(u.user) == Some(StripNul(AsciiText(u.user)));
    assert DecodeField(u.email) == Some(StripNul(AsciiText(u.email)));
    assert DecodeField(u.major) == Some(StripNul(AsciiText(u.major)));
  }

  /** The classifiers reader consumes exactly the saved layout: it returns
      the decoded header and every session written, verbatim and in order. */
  lemma ClassifiersReadsSavedFile(u: UserInfo, ss: seq<Session>, more: seq<Byte>)
    requires ValidUserInfo(u) && AllStorable(ss) && AsciiHeader(u)
    ensures ClassifiersRead(SaveFile(u, ss) + more) == Some(PyFile(HeaderText(u), ss))
  {
    ReadStoreOfSaved(u, ss, more);
    PyHeaderOfAscii(u);
    assert ReadStore(SaveFile(u, ss) + more) == Some(Parsed(Store(u, ss), more));
  }

  /** The ak24 reader on a saved file with ASCII header and keys: the decoded
      header, and one converted session per session written, in order. */
  lemma Ak24ReadsSavedFile(u: UserInfo, ss: seq<Session>, more: seq<Byte>)
    requires ValidUserInfo(u) && AllStorable(ss) && AsciiHeader(u) && AsciiKeys(ss)
    ensures Ak24Read(SaveFile(u, ss) + more).Some?
    ensures var r := Ak24Read(SaveFile(u, ss) + more).value;
      && r.info == HeaderText(u)
      && |r.sessions| == |ss|
      && forall i :: 0 <= i < |ss| ==> PySessionOf(ss[i]) == Some(r.sessions[i])
  {
    ReadStoreOfSaved(u, ss, more);
    PyHeaderOfAscii(u);
    PySessionsOfAscii(ss);
    var bs := SaveFile(u, ss) + more;
    assert ReadStore(bs) == Some(Parsed(Store(u, ss), more));
    assert Ak24Read(bs) == Some(PyFile(HeaderText(u), PySessions(ss).value));
  }

  /** A key byte of 0x80 or above makes the ak24 reader raise. */
  lemma Ak24RejectsNonAsciiKey(u: UserInfo, ss: seq<Session>, i: nat, j: nat)
    requires ValidUserInfo(u) && AllStorable(ss)
    requires i < |ss| && j < |ss[i].keystrokes| && ss[i].keystrokes[j].c >= 128
    ensures Ak24Read(SaveFile(u, ss)).None?
  {
    ReadStoreOfSaved(u, ss, []);
    assert SaveFile(u, ss) + [] == SaveFile(u, ss);
    PySessionsNoneOnBadKey(ss, i, j);
  }

  lemma {:induction false} PySessionsNoneOnBadKey(ss: seq<Session>, i: nat, j: nat)
    requires i < |ss| && j < |ss[i].keystrokes| && ss[i].keystrokes[j].c >= 128
    ensures PySessions(ss).None?
    decreases |ss|
  {
    if i > 0 {
      assert ss[1..][i - 1] == ss[i];
      PySessionsNoneOnBadKey(ss[1..], i - 1, j);
    }
  }

  /** Truncated input raises in both readers: no partial result is returned. */
  lemma ReadersRejectTruncated(u: UserInfo, ss: seq<Session>, m: nat)
    requires ValidUserInfo(u) && AllStorable(ss)
    requires m < |SaveFile(u, ss)|
    ensures ClassifiersRead(SaveFile(u, ss)[..m]).None?
    ensures Ak24Read(SaveFile(u, ss)[..m]).None?
  {
    TruncatedStoreRejected(u, ss, m);
  }
}
