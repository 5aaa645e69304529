/** The binary session file: the encoder `save_sessions` of libkdt.c (with
    the user header the collector writes in front of it), the decoder
    `load_sessions` of kdt-keystroke-collection/deserialization.c, and the
    byte-level parser both Python readers share.  All integers are
    little-endian with LP64 widths. */
module SessionCodec {
  import opened Machine
  import opened Kdt

  /** One keystroke on disk: the character byte and four 8-byte longs. */
  const KEYSTROKE_SIZE: int := 33
  /** The user header: three 64-byte fields and a 2-byte `short`. */
  const HEADER_SIZE: int := 194

  /** A session file's content: the user header and the sessions in file order. */
  datatype Store = Store(info: UserInfo, sessions: seq<Session>)

  /** A decoded value and the bytes that follow it. */
  datatype Parsed<T> = Parsed(value: T, rest: seq<Byte>)

  // ---------------------------------------------------------------- encoder

  /** A `long`, `time_t` or `size_t` count as `fwrite` stores it: its low 64 bits. */
  function EncodeLong(x: int): (bs: seq<Byte>)
    ensures |bs| == 8
  {
    EncodeU64(ToU64(x))
  }

  /** Key byte, press seconds, press nanoseconds, release seconds, release nanoseconds. */
  function EncodeKeystroke(k: Keystroke): (bs: seq<Byte>)
    ensures |bs| == KEYSTROKE_SIZE
    ensures bs[0] == k.c
  {
    [k.c] + EncodeLong(k.press.sec) + EncodeLong(k.press.nsec)
      + EncodeLong(k.release.sec) + EncodeLong(k.release.nsec)
  }

  function EncodeKeystrokes(ks: seq<Keystroke>): (bs: seq<Byte>)
    ensures |bs| == KEYSTROKE_SIZE * |ks|
    decreases |ks|
  {
    if |ks| == 0 then [] else EncodeKeystroke(ks[0]) + EncodeKeystrokes(ks[1..])
  }

  function EncodeValues(xs: seq<U64>): (bs: seq<Byte>)
    ensures |bs| == 8 * |xs|
    decreases |xs|
  {
    if |xs| == 0 then [] else EncodeU64(xs[0]) + EncodeValues(xs[1..])
  }

  /** A statistic array: its count, then its values only when the count is
      positive (an empty or NULL array is its count alone). */
  function EncodeArray(xs: seq<U64>): (bs: seq<Byte>)
    ensures |bs| == 8 + 8 * |xs|
    ensures |xs| == 0 ==> bs == EncodeLong(0)
  {
    EncodeLong(|xs|) + (if |xs| > 0 then EncodeValues(xs) else [])
  }

  /** The number of bytes a session occupies. */
  function SessionSize(s: Session): nat {
    8 + KEYSTROKE_SIZE * |s.keystrokes|
      + 8 + 8 * |s.timeDeltas| + 8 + 8 * |s.dwellTimes| + 8 + 8 * |s.flightTimes|
  }

  function SessionsSize(ss: seq<Session>): nat
    decreases |ss|
  {
    if |ss| == 0 then 0 else SessionSize(ss[0]) + SessionsSize(ss[1..])
  }

  /** One session in `save_sessions` field order: keystroke count, the
      keystrokes, then time deltas, dwell times and flight times. */
  function EncodeSession(s: Session): (bs: seq<Byte>)
    ensures |bs| == SessionSize(s)
  {
    EncodeLong(|s.keystrokes|) + EncodeKeystrokes(s.keystrokes)
      + EncodeArray(s.timeDeltas) + EncodeArray(s.dwellTimes) + EncodeArray(s.flightTimes)
  }

  function EncodeSessions(ss: seq<Session>): (bs: seq<Byte>)
    ensures |bs| == SessionsSize(ss)
    decreases |ss|
  {
    if |ss| == 0 then [] else EncodeSession(ss[0]) + EncodeSessions(ss[1..])
  }

  /** Everything `save_sessions` writes: the session count, then each session. */
  function SessionsBody(ss: seq<Session>): (bs: seq<Byte>)
    ensures |bs| == 8 + SessionsSize(ss)
  {
    EncodeLong(|ss|) + EncodeSessions(ss)
  }

  /** The outcome of `save_sessions`: its return value and the file content after it. */
  datatype Saved = Saved(status: int, file: Option<seq<Byte>>)

  /** `save_sessions`: -1 and nothing written for a NULL file; otherwise 0,
      with the session count and every session appended to what the file
      already holds. */
  function SaveSessions(file: Option<seq<Byte>>, ss: seq<Session>): (r: Saved)
    ensures file.None? <==> r.status == -1
    ensures file.None? ==> r.file.None?
    ensures file.Some? ==>
      && r.status == 0 && r.file.Some?
      && |r.file.value| == |file.value| + 8 + SessionsSize(ss)
      && r.file.value[..|file.value|] == file.value
  {
    if file.None? then Saved(-1, None)
    else Saved(0, Some(file.value + SessionsBody(ss)))
  }

  /** The user header: the three 64-byte fields verbatim, then the duration. */
  function EncodeUserInfo(u: UserInfo): (bs: seq<Byte>)
    requires ValidUserInfo(u)
    ensures |bs| == HEADER_SIZE
  {
    u.user + u.email + u.major + EncodeI16(u.typingDuration)
  }

  /** A whole session file: the header, then the `save_sessions` body. */
  function SaveFile(u: UserInfo, ss: seq<Session>): (bs: seq<Byte>)
    requires ValidUserInfo(u)
    ensures |bs| == HEADER_SIZE + 8 + SessionsSize(ss)
  {
    EncodeUserInfo(u) + SessionsBody(ss)
  }

  // ---------------------------------------------------------------- decoder

  function ReadU64(bs: seq<Byte>): Option<Parsed<U64>> {
    if |bs| < 8 then None else Some(Parsed(DecodeU64(bs[..8]), bs[8..]))
  }

  /** One 33-byte keystroke; the longs are read as signed. */
  function ReadKeystroke(bs: seq<Byte>): Option<Parsed<Keystroke>> {
    if |bs| < KEYSTROKE_SIZE then None
    else
      var press := Timespec(DecodeI64(bs[1..9]), DecodeI64(bs[9..17]));
      var release := Timespec(DecodeI64(bs[17..25]), DecodeI64(bs[25..33]));
      Some(Parsed(Keystroke(bs[0], press, release), bs[33..]))
  }

  /** n items, each read with `read` where the previous one ended. */
  function ReadMany<T>(read: seq<Byte> -> Option<Parsed<T>>, bs: seq<Byte>, n: nat): Option<Parsed<seq<T>>>
    decreases n
  {
    if n == 0 then Some(Parsed([], bs))
    else match read(bs)
      case None => None
      case Some(p) =>
        match ReadMany(read, p.rest, n - 1)
        case None => None
        case Some(q) => Some(Parsed([p.value] + q.value, q.rest))
  }

  function ReadKeystrokes(bs: seq<Byte>, n: nat): Option<Parsed<seq<Keystroke>>> {
    ReadMany(ReadKeystroke, bs, n)
  }

  function ReadValues(bs: seq<Byte>, n: nat): Option<Parsed<seq<U64>>> {
    ReadMany(ReadU64, bs, n)
  }

  /** A statistic array: its count, then (only when positive) that many values. */
  function ReadArray(bs: seq<Byte>): Option<Parsed<seq<U64>>> {
    match ReadU64(bs)
    case None => None
    case Some(c) =>
      if c.value > 0 then ReadValues(c.rest, c.value) else Some(Parsed([], c.rest))
  }

  function ReadSession(bs: seq<Byte>): Option<Parsed<Session>> {
    match ReadU64(bs)
    case None => None
    case Some(n) =>
      match ReadKeystrokes(n.rest, n.value)
      case None => None
      case Some(ks) =>
        match ReadArray(ks.rest)
        case None => None
        case Some(td) =>
          match ReadArray(td.rest)
          case None => None
          case Some(dw) =>
            match ReadArray(dw.rest)
            case None => None
            case Some(ft) => Some(Parsed(Session(ks.value, td.value, dw.value, ft.value), ft.rest))
  }

  function ReadSessions(bs: seq<Byte>, n: nat): Option<Parsed<seq<Session>>> {
    ReadMany(ReadSession, bs, n)
  }

  /** The header: three verbatim 64-byte fields (no terminator assumed) and a signed 2-byte duration. */
  function ReadUserInfo(bs: seq<Byte>): (r: Option<Parsed<UserInfo>>)
    ensures r.Some? ==> ValidUserInfo(r.value.value)
  {
    if |bs| < HEADER_SIZE then None
    else Some(Parsed(UserInfo(bs[..64], bs[64..128], bs[128..192], DecodeI16(bs[192..194])), bs[194..]))
  }

  /** A whole file: the header, the session count, then that many sessions. */
  function ReadStore(bs: seq<Byte>): Option<Parsed<Store>> {
    match ReadUserInfo(bs)
    case None => None
    case Some(h) =>
      match ReadU64(h.rest)
      case None => None
      case Some(n) =>
        match ReadSessions(n.rest, n.value)
        case None => None
        case Some(ss) => Some(Parsed(Store(h.value, ss.value), ss.rest))
  }

  // ------------------------------------------------------------ round trips

  /** Every field fits its on-disk width. */
  predicate Storable(s: Session) {
    && |s.keystrokes| < TWO_64
    && (forall i :: 0 <= i < |s.keystrokes| ==> Fits(s.keystrokes[i].press) && Fits(s.keystrokes[i].release))
    && |s.timeDeltas| < TWO_64 && |s.dwellTimes| < TWO_64 && |s.flightTimes| < TWO_64
  }

  predicate AllStorable(ss: seq<Session>) {
    |ss| < TWO_64 && forall i :: 0 <= i < |ss| ==> Storable(ss[i])
  }

  lemma ReadU64OfEncode(x: U64, more: seq<Byte>)
    ensures ReadU64(EncodeU64(x) + more) == Some(Parsed(x, more))
  {
    var bs := EncodeU64(x) + more;
    assert bs[..8] == EncodeU64(x);
    assert bs[8..] == more;
    DecodeEncodeU64(x);
  }

  lemma DecodeLong(x: int, bs: seq<Byte>)
    requires IsI64(x) && bs == EncodeLong(x)
    ensures DecodeI64(bs) == x
  {
    DecodeEncodeI64(x);
  }

  lemma ReadKeystrokeOfEncode(k: Keystroke, more: seq<Byte>)
    requires Fits(k.press) && Fits(k.release)
    ensures ReadKeystroke(EncodeKeystroke(k) + more) == Some(Parsed(k, more))
  {
    var bs := EncodeKeystroke(k) + more;
    assert bs[1..9] == EncodeLong(k.press.sec);
    assert bs[9..17] == EncodeLong(k.press.nsec);
    assert bs[17..25] == EncodeLong(k.release.sec);
    assert bs[25..33] == EncodeLong(k.release.nsec);
    assert bs[33..] == more;
    DecodeLong(k.press.sec, bs[1..9]);
    DecodeLong(k.press.nsec, bs[9..17]);
    DecodeLong(k.release.sec, bs[17..25]);
    DecodeLong(k.release.nsec, bs[25..33]);
  }

  /** Items written one after another with `encode`. */
  function EncodeMany<T>(encode: T -> seq<Byte>, xs: seq<T>): seq<Byte>
    decreases |xs|
  {
    if |xs| == 0 then [] else encode(xs[0]) + EncodeMany(encode, xs[1..])
  }

  /** `read` takes back what `encode` wrote for each of xs, whatever follows. */
  ghost predicate Inverts<T>(read: seq<Byte> -> Option<Parsed<T>>, encode: T -> seq<Byte>, xs: seq<T>) {
    forall i, m :: 0 <= i < |xs| ==> read(encode(xs[i]) + m) == Some(Parsed(xs[i], m))
  }

  lemma {:induction false} ReadManyOfEncode<T>(read: seq<Byte> -> Option<Parsed<T>>, encode: T -> seq<Byte>,
                                               xs: seq<T>, more: seq<Byte>)
    requires Inverts(read, encode, xs)
    ensures ReadMany(read, EncodeMany(encode, xs) + more, |xs|) == Some(Parsed(xs, more))
    decreases |xs|
  {
    var bs := EncodeMany(encode, xs) + more;
    if |xs| > 0 {
      var tail := EncodeMany(encode, xs[1..]) + more;
      assert bs == encode(xs[0]) + tail;
      assert read(encode(xs[0]) + tail) == Some(Parsed(xs[0], tail));
      assert Inverts(read, encode, xs[1..]) by {
        forall i, m | 0 <= i < |xs[1..]|
          ensures read(encode(xs[1..][i]) + m) == Some(Parsed(xs[1..][i], m))
        {
          assert xs[1..][i] == xs[i + 1];
        }
      }
      ReadManyOfEncode(read, encode, xs[1..], more);
      assert [xs[0]] + xs[1..] == xs;
    } else {
      assert bs == more;
    }
  }

  lemma {:induction false} EncodeKeystrokesIsMany(ks: seq<Keystroke>)
    ensures EncodeKeystrokes(ks) == EncodeMany(EncodeKeystroke, ks)
    decreases |ks|
  {
    if |ks| > 0 {
      EncodeKeystrokesIsMany(ks[1..]);
    }
  }

  lemma {:induction false} EncodeValuesIsMany(xs: seq<U64>)
    ensures EncodeValues(xs) == EncodeMany(EncodeU64, xs)
    decreases |xs|
  {
    if |xs| > 0 {
      EncodeValuesIsMany(xs[1..]);
    }
  }

  lemma {:induction false} EncodeSessionsIsMany(ss: seq<Session>)
    ensures EncodeSessions(ss) == EncodeMany(EncodeSession, ss)
    decreases |ss|
  {
    if |ss| > 0 {
      EncodeSessionsIsMany(ss[1..]);
    }
  }

  lemma ReadKeystrokesOfEncode(ks: seq<Keystroke>, more: seq<Byte>)
    requires forall i :: 0 <= i < |ks| ==> Fits(ks[i].press) && Fits(ks[i].release)
    ensures ReadKeystrokes(EncodeKeystrokes(ks) + more, |ks|) == Some(Parsed(ks, more))
  {
    forall i, m | 0 <= i < |ks|
      ensures ReadKeystroke(EncodeKeystroke(ks[i]) + m) == Some(Parsed(ks[i], m))
    {
      ReadKeystrokeOfEncode(ks[i], m);
    }
    EncodeKeystrokesIsMany(ks);
    ReadManyOfEncode(ReadKeystroke, EncodeKeystroke, ks, more);
  }

  lemma ReadValuesOfEncode(xs: seq<U64>, more: seq<Byte>)
    ensures ReadValues(EncodeValues(xs) + more, |xs|) == Some(Parsed(xs, more))
  {
    forall i, m | 0 <= i < |xs|
      ensures ReadU64(EncodeU64(xs[i]) + m) == Some(Parsed(xs[i], m))
    {
      ReadU64OfEncode(xs[i], m);
    }
    EncodeValuesIsMany(xs);
    ReadManyOfEncode(ReadU64, EncodeU64, xs, more);
  }

  lemma ReadArrayOfEncode(xs: seq<U64>, more: seq<Byte>)
    requires |xs| < TWO_64
    ensures ReadArray(EncodeArray(xs) + more) == Some(Parsed(xs, more))
  {
    var tail := (if |xs| > 0 then EncodeValues(xs) else []) + more;
    assert EncodeArray(xs) + more == EncodeLong(|xs|) + tail;
    ReadU64OfEncode(|xs|, tail);
    if |xs| > 0 {
      ReadValuesOfEncode(xs, more);
    }
  }

  lemma EncodeSessionSplits(s: Session, more: seq<Byte>)
    ensures EncodeSession(s) + more
      == EncodeLong(|s.keystrokes|) + (EncodeKeystrokes(s.keystrokes) + (EncodeArray(s.timeDeltas)
         + (EncodeArray(s.dwellTimes) + (EncodeArray(s.flightTimes) + more))))
  {
    var a, b, c, d, e := EncodeLong(|s.keystrokes|), EncodeKeystrokes(s.keystrokes),
      EncodeArray(s.timeDeltas), EncodeArray(s.dwellTimes), EncodeArray(s.flightTimes);
    assert EncodeSession(s) == a + b + c + d + e;
    Assoc(a + b + c + d, e, more);
    Assoc(a + b + c, d, e + more);
    Assoc(a + b, c, d + (e + more));
    Assoc(a, b, c + (d + (e + more)));
  }

  lemma Assoc(p: seq<Byte>, q: seq<Byte>, r: seq<Byte>)
    ensures p + q + r == p + (q + r)
  {
  }

  lemma ReadSessionOfEncode(s: Session, more: seq<Byte>)
    requires Storable(s)
    ensures ReadSession(EncodeSession(s) + more) == Some(Parsed(s, more))
  {
    var afterFt := more;
    var afterDw := EncodeArray(s.flightTimes) + afterFt;
    var afterTd := EncodeArray(s.dwellTimes) + afterDw;
    var afterKs := EncodeArray(s.timeDeltas) + afterTd;
    var afterN := EncodeKeystrokes(s.keystrokes) + afterKs;
    EncodeSessionSplits(s, more);
    ReadU64OfEncode(|s.keystrokes|, afterN);
    ReadKeystrokesOfEncode(s.keystrokes, afterKs);
    ReadArrayOfEncode(s.timeDeltas, afterTd);
    ReadArrayOfEncode(s.dwellTimes, afterDw);
    ReadArrayOfEncode(s.flightTimes, afterFt);
  }

  lemma ReadSessionsOfEncode(ss: seq<Session>, more: seq<Byte>)
    requires forall i :: 0 <= i < |ss| ==> Storable(ss[i])
    ensures ReadSessions(EncodeSessions(ss) + more, |ss|) == Some(Parsed(ss, more))
  {
    forall i, m | 0 <= i < |ss|
      ensures ReadSession(EncodeSession(ss[i]) + m) == Some(Parsed(ss[i], m))
    {
      ReadSessionOfEncode(ss[i], m);
    }
    EncodeSessionsIsMany(ss);
    ReadManyOfEncode(ReadSession, EncodeSession, ss, more);
  }

  lemma ReadUserInfoOfEncode(u: UserInfo, more: seq<Byte>)
    requires ValidUserInfo(u)
    ensures ReadUserInfo(EncodeUserInfo(u) + more) == Some(Parsed(u, more))
  {
    var bs := EncodeUserInfo(u) + more;
    assert bs[..64] == u.user;
    assert bs[64..128] == u.email;
    assert bs[128..192] == u.major;
    assert bs[192..194] == EncodeI16(u.typingDuration);
    assert bs[194..] == more;
    DecodeEncodeI16(u.typingDuration);
  }

  /** Round trip: reading back a saved file, followed by anything at all,
      yields exactly the header and the sessions written (every keystroke
      and every statistic value, whatever the array lengths), and stops
      where the saved bytes end. */
  lemma ReadStoreOfSaved(u: UserInfo, ss: seq<Session>, more: seq<Byte>)
    requires ValidUserInfo(u) && AllStorable(ss)
    ensures ReadStore(SaveFile(u, ss) + more) == Some(Parsed(Store(u, ss), more))
  {
    var afterCount := EncodeSessions(ss) + more;
    var afterHeader := EncodeLong(|ss|) + afterCount;
    assert SaveFile(u, ss) + more == EncodeUserInfo(u) + afterHeader;
    ReadUserInfoOfEncode(u, afterHeader);
    ReadU64OfEncode(|ss|, afterCount);
    ReadSessionsOfEncode(ss, more);
  }

  // ------------------------------------------------------------- truncation

  /** A parser result that survives appending bytes to its input. */
  predicate Extends<T(==)>(r: Option<Parsed<T>>, r': Option<Parsed<T>>, more: seq<Byte>) {
    r.Some? ==> r' == Some(Parsed(r.value.value, r.value.rest + more))
  }

  lemma ReadU64Extends(bs: seq<Byte>, more: seq<Byte>)
    ensures Extends(ReadU64(bs), ReadU64(bs + more), more)
  {
    if |bs| >= 8 {
      assert (bs + more)[..8] == bs[..8];
      assert (bs + more)[8..] == bs[8..] + more;
    }
  }

  lemma ReadKeystrokeExtends(bs: seq<Byte>, more: seq<Byte>)
    ensures Extends(ReadKeystroke(bs), ReadKeystroke(bs + more), more)
  {
    if |bs| >= KEYSTROKE_SIZE {
      assert (bs + more)[..33] == bs[..33];
      assert (bs + more)[1..9] == bs[1..9];
      assert (bs + more)[9..17] == bs[9..17];
      assert (bs + more)[17..25] == bs[17..25];
      assert (bs + more)[25..33] == bs[25..33];
      assert (bs + more)[33..] == bs[33..] + more;
    }
  }

  /** Appending bytes never changes what `read` returns, only what follows it. */
  ghost predicate ExtendsAll<T>(read: seq<Byte> -> Option<Parsed<T>>, more: seq<Byte>) {
    forall bs :: Extends(read(bs), read(bs + more), more)
  }

  lemma {:induction false} ReadManyExtends<T>(read: seq<Byte> -> Option<Parsed<T>>, bs: seq<Byte>, n: nat,
                                                  more: seq<Byte>)
    requires ExtendsAll(read, more)
    ensures Extends(ReadMany(read, bs, n), ReadMany(read, bs + more, n), more)
    decreases n
  {
    if n > 0 {
      var p := read(bs);
      assert Extends(p, read(bs + more), more);
      if p.Some? {
        ReadManyExtends(read, p.value.rest, n - 1, more);
      }
    }
  }

  lemma ReadKeystrokesExtends(bs: seq<Byte>, n: nat, more: seq<Byte>)
    ensures Extends(ReadKeystrokes(bs, n), ReadKeystrokes(bs + more, n), more)
  {
    forall b
      ensures Extends(ReadKeystroke(b), ReadKeystroke(b + more), more)
    {
      ReadKeystrokeExtends(b, more);
    }
    ReadManyExtends(ReadKeystroke, bs, n, more);
  }

  lemma ReadValuesExtends(bs: seq<Byte>, n: nat, more: seq<Byte>)
    ensures Extends(ReadValues(bs, n), ReadValues(bs + more, n), more)
  {
    forall b
      ensures Extends(ReadU64(b), ReadU64(b + more), more)
    {
      ReadU64Extends(b, more);
    }
    ReadManyExtends(ReadU64, bs, n, more);
  }

  lemma ReadArrayExtends(bs: seq<Byte>, more: seq<Byte>)
    ensures Extends(ReadArray(bs), ReadArray(bs + more), more)
  {
    ReadU64Extends(bs, more);
    var c := ReadU64(bs);
    if c.Some? && c.value.value > 0 {
      ReadValuesExtends(c.value.rest, c.value.value, more);
    }
  }

  lemma ReadSessionExtends(bs: seq<Byte>, more: seq<Byte>)
    ensures Extends(ReadSession(bs), ReadSession(bs + more), more)
  {
    ReadU64Extends(bs, more);
    var n := ReadU64(bs);
    if n.Some? {
      ReadKeystrokesExtends(n.value.rest, n.value.value, more);
      var ks := ReadKeystrokes(n.value.rest, n.value.value);
      if ks.Some? {
        ReadArrayExtends(ks.value.rest, more);
        var td := ReadArray(ks.value.rest);
        if td.Some? {
          ReadArrayExtends(td.value.rest, more);
          var dw := ReadArray(td.value.rest);
          if dw.Some? {
            ReadArrayExtends(dw.value.rest, more);
          }
        }
      }
    }
  }

  lemma ReadSessionsExtends(bs: seq<Byte>, n: nat, more: seq<Byte>)
    ensures Extends(ReadSessions(bs, n), ReadSessions(bs + more, n), more)
  {
    forall b
      ensures Extends(ReadSession(b), ReadSession(b + more), more)
    {
      ReadSessionExtends(b, more);
    }
    ReadManyExtends(ReadSession, bs, n, more);
  }

  /** A parse that consumes all of a longer input cannot already succeed on a
      prefix of it. */
  lemma ConsumedAllOnlyOnce<T>(r: Option<Parsed<T>>, r': Option<Parsed<T>>, more: seq<Byte>)
    requires Extends(r, r', more) && r'.Some? && r'.value.rest == [] && |more| > 0
    ensures r.None?
  {
  }

  lemma ReadStoreExtends(bs: seq<Byte>, more: seq<Byte>)
    ensures Extends(ReadStore(bs), ReadStore(bs + more), more)
  {
    if |bs| >= HEADER_SIZE {
      assert (bs + more)[..64] == bs[..64];
      assert (bs + more)[64..128] == bs[64..128];
      assert (bs + more)[128..192] == bs[128..192];
      assert (bs + more)[192..194] == bs[192..194];
      assert (bs + more)[194..] == bs[194..] + more;
      var h := ReadUserInfo(bs);
      ReadU64Extends(h.value.rest, more);
      var n := ReadU64(h.value.rest);
      if n.Some? {
        ReadSessionsExtends(n.value.rest, n.value.value, more);
      }
    }
  }

  /** A saved file cut short anywhere does not decode: every strict prefix is rejected. */
  lemma TruncatedStoreRejected(u: UserInfo, ss: seq<Session>, m: nat)
    requires ValidUserInfo(u) && AllStorable(ss)
    requires m < |SaveFile(u, ss)|
    ensures ReadStore(SaveFile(u, ss)[..m]) == None
  {
    var full := SaveFile(u, ss);
    var prefix := full[..m];
    var missing := full[m..];
    assert prefix + missing == full;
    assert full + [] == full;
    ReadStoreOfSaved(u, ss, []);
    ReadStoreExtends(prefix, missing);
    ConsumedAllOnlyOnce(ReadStore(prefix), ReadStore(full), missing);
  }

  // ------------------------------------------------------------- C loader

  /** Which of the two checked allocations of `load_sessions` succeed. */
  datatype Allocation = AllocationOk | UserInfoAllocationFails | SessionsAllocationFails

  /** The outcome of `load_sessions`: its return value and the loaded
      content when that content is determined by the file (None: NULL, or
      left indeterminate by short reads). */
  datatype Loaded = Loaded(status: int, store: Option<Store>)

  /** `load_sessions`: -1 for a NULL file or a failed allocation; otherwise
      0, whether or not the file held enough bytes (short reads are not
      checked; the fields they should have filled are then indeterminate). */
  function LoadSessions(file: Option<seq<Byte>>, alloc: Allocation): (r: Loaded)
    ensures r.status == -1 <==> file.None? || alloc != AllocationOk
    ensures r.status == 0 <==> file.Some? && alloc == AllocationOk
    ensures r.store.Some? ==>
      && r.status == 0 && ReadStore(file.value).Some?
      && r.store.value == ReadStore(file.value).value.value
    ensures file.Some? && alloc == AllocationOk && ReadStore(file.value).Some? ==>
      r.store == Some(ReadStore(file.value).value.value)
  {
    if file.None? || alloc != AllocationOk then Loaded(-1, None)
    else match ReadStore(file.value)
      case None => Loaded(0, None)
      case Some(p) => Loaded(0, Some(p.value))
  }

  /** Loading a saved file (trailing bytes ignored) restores the header and the sessions. */
  lemma LoadSavedFile(u: UserInfo, ss: seq<Session>, more: seq<Byte>)
    requires ValidUserInfo(u) && AllStorable(ss)
    ensures LoadSessions(Some(SaveFile(u, ss) + more), AllocationOk) == Loaded(0, Some(Store(u, ss)))
  {
    ReadStoreOfSaved(u, ss, more);
  }

  /** A truncated file still loads with status 0: the loader never reports short reads. */
  lemma LoadTruncatedFile(u: UserInfo, ss: seq<Session>, m: nat)
    requires ValidUserInfo(u) && AllStorable(ss)
    requires m < |SaveFile(u, ss)|
    ensures LoadSessions(Some(SaveFile(u, ss)[..m]), AllocationOk) == Loaded(0, None)
  {
    TruncatedStoreRejected(u, ss, m);
  }

  /** Array lengths come from their own count fields only: a session whose
      statistic arrays disagree with its keystroke count loads unchanged. */
  lemma CountsNotCrossChecked(u: UserInfo)
    requires ValidUserInfo(u)
    ensures var odd := Session([], [1, 2, 3], [], [7]);
      LoadSessions(Some(SaveFile(u, [odd])), AllocationOk) == Loaded(0, Some(Store(u, [odd])))
  {
    var odd := Session([], [1, 2, 3], [], [7]);
    LoadSavedFile(u, [odd], []);
    assert SaveFile(u, [odd]) + [] == SaveFile(u, [odd]);
  }
}
