/** binary_processor.py: the reader of the older session layout (17-byte
    keystrokes with unsigned press and release stamps, one delta array with
    an ignored capacity word) and `generate_keystroke_hashmap`, which keys
    the timing differences of adjacent keystrokes by their key pair. */
module LegacyLayout {
  import opened Machine
  import opened SessionCodec

  const LEGACY_KEYSTROKE_SIZE: int := 17

  /** A keystroke tuple `(key, press_time, release_time)`. */
  datatype LegacyKeystroke = LegacyKeystroke(key: Byte, press: U64, release: U64)

  /** A session dictionary: its keystrokes and its deltas. */
  datatype LegacySession = LegacySession(keystrokes: seq<LegacyKeystroke>, deltas: seq<U64>)

  // ----------------------------------------------------------------- reader

  /** One keystroke: an unsigned byte, then two unsigned 8-byte stamps. */
  function ReadLegacyKeystroke(bs: seq<Byte>): Option<Parsed<LegacyKeystroke>> {
    if |bs| < LEGACY_KEYSTROKE_SIZE then None
    else Some(Parsed(LegacyKeystroke(bs[0], DecodeU64(bs[1..9]), DecodeU64(bs[9..17])), bs[17..]))
  }

  function ReadLegacyKeystrokes(bs: seq<Byte>, n: nat): Option<Parsed<seq<LegacyKeystroke>>> {
    ReadMany(ReadLegacyKeystroke, bs, n)
  }

  /** One session: keystroke count, keystrokes, delta count, a capacity word
      that is read and discarded, then the deltas. */
  function ReadLegacySession(bs: seq<Byte>): Option<Parsed<LegacySession>> {
    match ReadU64(bs)
    case None => None
    case Some(n) =>
      match ReadLegacyKeystrokes(n.rest, n.value)
      case None => None
      case Some(ks) =>
        match ReadU64(ks.rest)
        case None => None
        case Some(len) =>
          match ReadU64(len.rest)
          case None => None
          case Some(capacity) =>
            match ReadValues(capacity.rest, len.value)
            case None => None
            case Some(ds) => Some(Parsed(LegacySession(ks.value, ds.value), ds.rest))
  }

  function ReadLegacySessions(bs: seq<Byte>, n: nat): Option<Parsed<seq<LegacySession>>>
    decreases n
  {
    if n == 0 then Some(Parsed([], bs))
    else match ReadLegacySession(bs)
      case None => None
      case Some(p) =>
        match ReadLegacySessions(p.rest, n - 1)
        case None => None
        case Some(q) => Some(Parsed([p.value] + q.value, q.rest))
  }

  /** `read_keystroke_logger`: the session count, then that many sessions in
      file order (bytes after the last session are never read); a short
      read raises. */
  function ReadKeystrokeLogger(bs: seq<Byte>): Option<seq<LegacySession>> {
    match ReadU64(bs)
    case None => None
    case Some(n) =>
      match ReadLegacySessions(n.rest, n.value)
      case None => None
      case Some(ss) => Some(ss.value)
  }

  // ------------------------------------------- reference writer and round trip

  /** The layout this reader expects, as a writer would produce it; `capacity`
      is the value stored in the ignored capacity word. */
  function EncodeLegacyKeystroke(k: LegacyKeystroke): (bs: seq<Byte>)
    ensures |bs| == LEGACY_KEYSTROKE_SIZE
  {
    [k.key] + EncodeU64(k.press) + EncodeU64(k.release)
  }

  function EncodeLegacyKeystrokes(ks: seq<LegacyKeystroke>): (bs: seq<Byte>)
    ensures |bs| == LEGACY_KEYSTROKE_SIZE * |ks|
    decreases |ks|
  {
    if |ks| == 0 then [] else EncodeLegacyKeystroke(ks[0]) + EncodeLegacyKeystrokes(ks[1..])
  }

  function EncodeLegacySession(s: LegacySession, capacity: U64): seq<Byte> {
    EncodeLong(|s.keystrokes|) + (EncodeLegacyKeystrokes(s.keystrokes)
      + (EncodeLong(|s.deltas|) + (EncodeU64(capacity) + EncodeValues(s.deltas))))
  }

  /** Sessions with one capacity word each. */
  function EncodeLegacySessions(ss: seq<LegacySession>, capacities: seq<U64>): seq<Byte>
    requires |capacities| == |ss|
    decreases |ss|
  {
    if |ss| == 0 then []
    else EncodeLegacySession(ss[0], capacities[0]) + EncodeLegacySessions(ss[1..], capacities[1..])
  }

  function EncodeLegacyFile(ss: seq<LegacySession>, capacities: seq<U64>): seq<Byte>
    requires |capacities| == |ss|
  {
    EncodeLong(|ss|) + EncodeLegacySessions(ss, capacities)
  }

  predicate LegacyStorable(s: LegacySession) {
    |s.keystrokes| < TWO_64 && |s.deltas| < TWO_64
  }

  lemma ReadLegacyKeystrokeOfEncode(k: LegacyKeystroke, more: seq<Byte>)
    ensures ReadLegacyKeystroke(EncodeLegacyKeystroke(k) + more) == Some(Parsed(k, more))
  {
    var bs := EncodeLegacyKeystroke(k) + more;
    assert bs[1..9] == EncodeU64(k.press);
    assert bs[9..17] == EncodeU64(k.release);
    assert bs[17..] == more;
    DecodeEncodeU64(k.press);
    DecodeEncodeU64(k.release);
  }

  lemma {:induction false} EncodeLegacyKeystrokesIsMany(ks: seq<LegacyKeystroke>)
    ensures EncodeLegacyKeystrokes(ks) == EncodeMany(EncodeLegacyKeystroke, ks)
    decreases |ks|
  {
    if |ks| > 0 {
      EncodeLegacyKeystrokesIsMany(ks[1..]);
    }
  }

  lemma ReadLegacyKeystrokesOfEncode(ks: seq<LegacyKeystroke>, more: seq<Byte>)
    ensures ReadLegacyKeystrokes(EncodeLegacyKeystrokes(ks) + more, |ks|) == Some(Parsed(ks, more))
  {
    forall i, m | 0 <= i < |ks|
      ensures ReadLegacyKeystroke(EncodeLegacyKeystroke(ks[i]) + m) == Some(Parsed(ks[i], m))
    {
      ReadLegacyKeystrokeOfEncode(ks[i], m);
    }
    EncodeLegacyKeystrokesIsMany(ks);
    ReadManyOfEncode(ReadLegacyKeystroke, EncodeLegacyKeystroke, ks, more);
  }

  lemma ReadLegacySessionOfEncode(s: LegacySession, capacity: U64, more: seq<Byte>)
    requires LegacyStorable(s)
    ensures ReadLegacySession(EncodeLegacySession(s, capacity) + more) == Some(Parsed(s, more))
  {
    var afterCap := EncodeValues(s.deltas) + more;
    var afterLen := EncodeU64(capacity) + afterCap;
    var afterKs := EncodeLong(|s.deltas|) + afterLen;
    var afterN := EncodeLegacyKeystrokes(s.keystrokes) + afterKs;
    var a, b, c, d, e := EncodeLong(|s.keystrokes|), EncodeLegacyKeystrokes(s.keystrokes),
      EncodeLong(|s.deltas|), EncodeU64(capacity), EncodeValues(s.deltas);
    assert EncodeLegacySession(s, capacity) == a + (b + (c + (d + e)));
    Assoc(d, e, more);
    Assoc(c, d + e, more);
    Assoc(b, c + (d + e), more);
    Assoc(a, b + (c + (d + e)), more);
    ReadU64OfEncode(|s.keystrokes|, afterN);
    ReadLegacyKeystrokesOfEncode(s.keystrokes, afterKs);
    ReadU64OfEncode(|s.deltas|, afterLen);
    ReadU64OfEncode(capacity, afterCap);
    ReadValuesOfEncode(s.deltas, more);
  }

  lemma StorableTail(ss: seq<LegacySession>)
    requires |ss| > 0
    requires forall i :: 0 <= i < |ss| ==> LegacyStorable(ss[i])
    ensures forall i :: 0 <= i < |ss[1..]| ==> LegacyStorable(ss[1..][i])
  {
    forall i | 0 <= i < |ss[1..]| ensures LegacyStorable(ss[1..][i]) {
      assert ss[1..][i] == ss[i + 1];
    }
  }

  /** The first session's bytes, then the rest of the file. */
  lemma EncodeLegacySessionsCons(ss: seq<LegacySession>, capacities: seq<U64>, more: seq<Byte>)
    requires |capacities| == |ss| > 0
    ensures EncodeLegacySessions(ss, capacities) + more
         == EncodeLegacySession(ss[0], capacities[0]) + (EncodeLegacySessions(ss[1..], capacities[1..]) + more)
  {
    Assoc(EncodeLegacySession(ss[0], capacities[0]), EncodeLegacySessions(ss[1..], capacities[1..]), more);
  }

  /** One session read in front of the remaining n - 1. */
  lemma ReadLegacySessionsCons(bs: seq<Byte>, n: nat, s: LegacySession, tail: seq<Byte>,
                               rest: seq<LegacySession>, more: seq<Byte>)
    requires n > 0
    requires ReadLegacySession(bs) == Some(Parsed(s, tail))
    requires ReadLegacySessions(tail, n - 1) == Some(Parsed(rest, more))
    ensures ReadLegacySessions(bs, n) == Some(Parsed([s] + rest, more))
  {
  }

  lemma {:induction false} ReadLegacySessionsOfEncode(ss: seq<LegacySession>, capacities: seq<U64>, more: seq<Byte>)
    requires |capacities| == |ss|
    requires forall i :: 0 <= i < |ss| ==> LegacyStorable(ss[i])
    ensures ReadLegacySessions(EncodeLegacySessions(ss, capacities) + more, |ss|) == Some(Parsed(ss, more))
    decreases |ss|
  {
    if |ss| > 0 {
      var tail := EncodeLegacySessions(ss[1..], capacities[1..]) + more;
      ReadLegacySessionOfEncode(ss[0], capacities[0], tail);
      StorableTail(ss);
      ReadLegacySessionsOfEncode(ss[1..], capacities[1..], more);
      EncodeLegacySessionsCons(ss, capacities, more);
      ReadLegacySessionsCons(EncodeLegacySessions(ss, capacities) + more, |ss|, ss[0], tail, ss[1..], more);
      assert [ss[0]] + ss[1..] == ss;
    } else {
      assert EncodeLegacySessions(ss, capacities) + more == more;
    }
  }

  /** Round trip: the reader returns every session written, in order, with
      exactly the counts written, whatever the capacity words hold and
      whatever follows the last session. */
  lemma ReadLegacyFileOfEncode(ss: seq<LegacySession>, capacities: seq<U64>, more: seq<Byte>)
    requires |capacities| == |ss| && |ss| < TWO_64
    requires forall i :: 0 <= i < |ss| ==> LegacyStorable(ss[i])
    ensures ReadKeystrokeLogger(EncodeLegacyFile(ss, capacities) + more) == Some(ss)
  {
    var rest := EncodeLegacySessions(ss, capacities) + more;
    assert EncodeLegacyFile(ss, capacities) + more == EncodeLong(|ss|) + rest;
    ReadU64OfEncode(|ss|, rest);
    ReadLegacySessionsOfEncode(ss, capacities, more);
  }

  // --------------------------------------------------------------- hashmap

  /** The four differences stored for an adjacent pair (Python integers, so
      they may be negative). */
  datatype PairTimes = PairTimes(betweenPress: int, betweenRelease: int, releaseToPress: int, pressToRelease: int)

  function TimesOf(first: LegacyKeystroke, second: LegacyKeystroke): PairTimes {
    PairTimes(
      second.press - first.press,
      second.release - first.release,
      second.press - first.release,
      second.release - first.press)
  }

  /** A dictionary key: the keys of two adjacent keystrokes. */
  datatype KeyPair = KeyPair(first: Byte, second: Byte)

  /** The key pair of the adjacent keystrokes at i and i + 1. */
  function PairAt(ks: seq<LegacyKeystroke>, i: nat): KeyPair
    requires i + 1 < |ks|
  {
    KeyPair(ks[i].key, ks[i + 1].key)
  }

  /** The dictionary after the loop over the pairs of `ks`, in order, each
      assignment overwriting an earlier entry for the same key pair. */
  function PairMap(ks: seq<LegacyKeystroke>): map<KeyPair, PairTimes>
    decreases |ks|
  {
    if |ks| < 2 then map[]
    else PairMap(ks[..|ks| - 1])[PairAt(ks, |ks| - 2) := TimesOf(ks[|ks| - 2], ks[|ks| - 1])]
  }

  /** `generate_keystroke_hashmap`: one dictionary per session, in order. */
  method GenerateKeystrokeHashmap(sessions: seq<LegacySession>) returns (maps: seq<map<KeyPair, PairTimes>>)
    ensures |maps| == |sessions|
    ensures forall j :: 0 <= j < |sessions| ==> maps[j] == PairMap(sessions[j].keystrokes)
  {
    maps := [];
    var j := 0;
    while j < |sessions|
      invariant 0 <= j <= |sessions|
      invariant |maps| == j
      invariant forall t :: 0 <= t < j ==> maps[t] == PairMap(sessions[t].keystrokes)
    {
      var ks := sessions[j].keystrokes;
      var hashmap: map<KeyPair, PairTimes> := map[];
      var i := 0;
      while i + 1 < |ks|
        invariant 0 <= i
        invariant |ks| == 0 ==> hashmap == map[]
        invariant |ks| > 0 ==> i < |ks| && hashmap == PairMap(ks[..i + 1])
      {
        var window := ks[..i + 2];
        assert window[..i + 1] == ks[..i + 1];
        assert PairAt(window, i) == PairAt(ks, i);
        hashmap := hashmap[PairAt(ks, i) := TimesOf(ks[i], ks[i + 1])];
        i := i + 1;
      }
      if |ks| > 0 {
        assert ks[..i + 1] == ks;
      }
      maps := maps + [hashmap];
      j := j + 1;
    }
  }

  /** The keys are exactly the adjacent key pairs of the session. */
  lemma {:induction false} PairMapKeys(ks: seq<LegacyKeystroke>, k: KeyPair)
    ensures k in PairMap(ks) <==> exists i :: 0 <= i && i + 1 < |ks| && PairAt(ks, i) == k
    decreases |ks|
  {
    if |ks| >= 2 {
      var prefix := ks[..|ks| - 1];
      PairMapKeys(prefix, k);
      if exists i :: 0 <= i && i + 1 < |prefix| && PairAt(prefix, i) == k {
        var i :| 0 <= i && i + 1 < |prefix| && PairAt(prefix, i) == k;
        assert PairAt(ks, i) == k;
      }
      if exists i :: 0 <= i && i + 1 < |ks| && PairAt(ks, i) == k {
        var i :| 0 <= i && i + 1 < |ks| && PairAt(ks, i) == k;
        if i + 1 < |prefix| {
          assert PairAt(prefix, i) == k;
        }
      }
    }
  }

  /** i is the last position whose adjacent key pair is k. */
  predicate LastPairAt(ks: seq<LegacyKeystroke>, k: KeyPair, i: nat) {
    i + 1 < |ks| && PairAt(ks, i) == k
    && forall j :: i < j && j + 1 < |ks| ==> PairAt(ks, j) != k
  }

  /** A last occurrence in all but the final keystroke stays the last
      occurrence when the final pair is a different one. */
  lemma LastPairAtExtends(ks: seq<LegacyKeystroke>, k: KeyPair, i: nat)
    requires |ks| >= 2 && LastPairAt(ks[..|ks| - 1], k, i) && PairAt(ks, |ks| - 2) != k
    ensures LastPairAt(ks, k, i)
  {
    var prefix := ks[..|ks| - 1];
    assert PairAt(ks, i) == PairAt(prefix, i);
    forall j | i < j && j + 1 < |ks|
      ensures PairAt(ks, j) != k
    {
      if j + 1 < |prefix| {
        assert PairAt(prefix, j) == PairAt(ks, j);
      }
    }
  }

  /** A repeated pair keeps the differences of its last occurrence. */
  lemma {:induction false} PairMapLastWins(ks: seq<LegacyKeystroke>, k: KeyPair)
    requires k in PairMap(ks)
    ensures exists i: nat :: LastPairAt(ks, k, i) && PairMap(ks)[k] == TimesOf(ks[i], ks[i + 1])
    decreases |ks|
  {
    var n := |ks|;
    assert n >= 2;
    var prefix := ks[..n - 1];
    var last := PairAt(ks, n - 2);
    assert PairMap(ks) == PairMap(prefix)[last := TimesOf(ks[n - 2], ks[n - 1])];
    if last == k {
      assert LastPairAt(ks, k, n - 2);
    } else {
      PairMapLastWins(prefix, k);
      var i: nat :| LastPairAt(prefix, k, i) && PairMap(prefix)[k] == TimesOf(prefix[i], prefix[i + 1]);
      LastPairAtExtends(ks, k, i);
      assert prefix[i] == ks[i] && prefix[i + 1] == ks[i + 1];
      assert LastPairAt(ks, k, i) && PairMap(ks)[k] == TimesOf(ks[i], ks[i + 1]);
    }
  }

  /** At most one entry per adjacent pair; sessions of fewer than two keystrokes give an empty dictionary. */
  lemma {:induction false} PairMapSize(ks: seq<LegacyKeystroke>)
    ensures |ks| < 2 ==> PairMap(ks) == map[]
    ensures |ks| >= 2 ==> |PairMap(ks)| <= |ks| - 1
    decreases |ks|
  {
    if |ks| >= 2 {
      var prefix := ks[..|ks| - 1];
      PairMapSize(prefix);
      var m := PairMap(prefix);
      var k := PairAt(ks, |ks| - 2);
      assert PairMap(ks).Keys == m.Keys + {k};
      assert |m.Keys + {k}| <= |m.Keys| + 1;
    }
  }
}
