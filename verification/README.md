# Keystroke dynamics toolkit — a Dafny model

The toolkit records how a person types and stores the timings. A C collector
reads key events from an input device. It pairs each press with its release,
sorts the keystrokes of a session by press time, and computes three
millisecond statistics:

- latency: the time between consecutive presses;
- dwell: the time from press to release of one key;
- flight: the time from one release to the next press.

It writes the sessions into a fixed little-endian binary file. A C loader
and two Python readers decode that file. Python helpers then reshape the
data:

- sliding-window n-grams over keys and statistics;
- a table padded with -1 that collects the sessions;
- per-pair timing dictionaries over an older file layout.

Two smaller terminal tools capture raw bytes from standard input and report
the latency between them.

The model is written as pure functions over immutable datatypes. Integers
use the LP64 widths. The C expression
`1000 * (b.tv_sec - a.tv_sec) + (b.tv_nsec - a.tv_nsec) / 1000000`,
stored in an `unsigned long`, is modelled exactly as written. Division
truncates toward zero (`Machine.TruncDiv`) and the sum is reduced modulo
2^64 (`Machine.ToU64`). A NULL pointer and a raised Python exception are
both `Option.None`. Every `tv_nsec` is taken to lie in [0, 10^9).

| file | module | models |
|---|---|---|
| machine.dfy | Machine | truncating division, 2^64 wrap-around, two's complement, little-endian bytes |
| kdt.dfy | Kdt | keystrokes, sessions, the user header, error and statistic codes |
| statistics.dfy | Statistics | latency, dwell and flight formulas; `set_session_statistic_data` |
| keycodes.dfy | Keycodes | `keycode_to_ascii` and `compare_keystrokes` |
| tracker.dfy | Tracker | the EV_KEY loop body as a pure step, the press-time sort, one whole session |
| bytecapture.dfy | ByteCapture | the byte-capture loop of kdt.c and get_raw_input.c and their time deltas |
| sessioncodec.dfy | SessionCodec | `save_sessions` plus the header, the shared parser, `load_sessions` |
| pyreaders.dfy | PyReaders | both `read_keystroke_logger_output` readers and `convert_to_signed` |
| legacylayout.dfy | LegacyLayout | `read_keystroke_logger` (17-byte keystrokes) and `generate_keystroke_hashmap` |
| graphemes.dfy | Graphemes | both `get_combinations`, and `create_grapheme_map` in both copies |
| masterdictionary.dfy | MasterDictionary | `find_max_values_array_length`, `fill_in_empty_values`, `update_master_dictionary` |

Where the documented intent and the code disagree, the model follows the
code:

- **Flight time.** It is meant to be an absolute value. The branch test at
  libkdt.c:107 compares seconds and nanoseconds separately, not
  lexicographically, so it can wrap
  (`Statistics.FlightWraps`, `Statistics.FlightWrapExample`).
- **Too few keystrokes.** The statistic routines return NULL. The length
  field is then set to 0, not left at N-1.
- **Sorting.** Ordering is meant to be stable, but `qsort` is not.
  `Tracker.SortByPress` promises only a sorted permutation.
- **Truncated files.** They are meant to be rejected. The C loader never
  checks short reads; only the Python readers raise.
- **Full buffer.** The code stops storing characters once 255 keystrokes
  are buffered, but it exempts the backspace. Backspace taps therefore keep
  being stored and eventually write past the 2048-entry array. `Tracker.Step`
  and everything built on it keep that branch as written. The bounded
  `Tracker.StepBounded` exists only as the correction (see "## Findings").
- **Session struct.** The struct in libkdt.h is stale. The model uses the
  fields libkdt.c and deserialization.c actually touch. `KDT_NULL_ERROR`,
  which libkdt.c returns, is part of the model's `Kdt.KdtError`, although
  the header enum lacks it.
- **User header.** The shown `save_sessions` writes no user header, but
  every decoder expects one. `SessionCodec.SaveFile` therefore models the
  file as the 194-byte header followed by the `save_sessions` body. The
  code that writes the header is not part of this model.

## Model

| member | source | states |
|---|---|---|
| Machine.TruncDiv | libkdt.c:59 | C's signed `/` truncates toward zero: the quotient times the divisor lies between 0 and the dividend, within one divisor of it |
| Machine.TruncDivOdd | libkdt.c:59 | Truncating division commutes with negation, unlike Euclidean division |
| Machine.ToU64 | libkdt.c:58-60 | Storing a signed value in `unsigned long` reduces it modulo 2^64; values in range are unchanged and small negatives gain 2^64 |
| Machine.ToI64 | kdt-keystroke-collection/deserialization.c:51-54 | Eight bytes read as `long` give the two's-complement value in the `long` range whose unsigned form is those bytes |
| Machine.ToI64OfToU64 | kdt-keystroke-collection/deserialization.c:51-54 | Two's-complement reinterpretation undoes the unsigned conversion on the whole `long` range |
| Machine.FromLEOfLE | libkdt.c:815 | Reading back n little-endian bytes recovers every value below 256^n |
| Machine.LEOfFromLE | kdt-keystroke-collection/deserialization.c:34 | Every n-byte string is the encoding of the value it decodes to |
| Machine.DecodeEncodeU64 | kdt-keystroke-collection/deserialization.c:34 | An 8-byte `size_t` or `unsigned long` reads back as the value written |
| Machine.DecodeEncodeI64 | kdt-keystroke-collection/deserialization.c:51-54 | An 8-byte `long` or `time_t` reads back as the value written, negatives included |
| Machine.DecodeEncodeI16 | kdt-keystroke-collection/deserialization.c:31 | The 2-byte `short` typing duration reads back as the value written |
| Statistics.SignedMsVersusElapsed | libkdt.c:58-60 | For timestamps in order, the C formula is non-negative and equals the elapsed whole milliseconds, or one more when the nanoseconds borrow |
| Statistics.BorrowOverReports | libkdt.c:58-60 | Half a millisecond apart across a second boundary, the C formula reports 1 ms where the elapsed time is 0 ms |
| Statistics.MsInOrder | libkdt.c:58-60 | For ordered timestamps whose gap fits, the unsigned result equals the signed difference (no wrap) |
| Statistics.FlightSameSecond | libkdt.c:106-117 | Within one second, a flight time is the absolute nanosecond gap in whole milliseconds, so it is never negative |
| Statistics.FlightForward | libkdt.c:107-111 | A next press in a later second than the release gives the signed difference, at least 1 |
| Statistics.FlightWraps | libkdt.c:107-111 | A next press in an earlier second but with larger nanoseconds takes the first branch; the negative difference wraps to 2^64 minus up to 1000 ms per second, and to at least 2^64-1000 for one second |
| Statistics.FlightBackward | libkdt.c:112-116 | A next press in an earlier second with no larger nanoseconds takes the second branch and gives the reverse difference, at least 1000 |
| Statistics.FlightWrapExample | libkdt.c:107-111 | Release at 5 s + 100 ns and next press at 4 s + 200 ns give a flight time of 2^64 - 1000 |
| Statistics.GetTimeDeltas | libkdt.c:41-63 | NULL exactly for NULL input or fewer than 2 keystrokes; otherwise N-1 values, each the wrapped C formula over consecutive press times |
| Statistics.GetDwellTimes | libkdt.c:66-88 | NULL exactly for NULL input or no keystrokes; otherwise N values, each the wrapped formula from a key's press to its release |
| Statistics.GetFlightTimes | libkdt.c:91-120 | NULL exactly for NULL input or fewer than 2 keystrokes; otherwise N-1 values, each the two-branch flight formula from release i to press i+1 |
| Statistics.WithSelected | libkdt.c:133-162 | Storing a statistic replaces exactly the selected array and keeps the keystrokes |
| Statistics.SetSessionStatisticData | libkdt.c:123-178 | NULL session or unknown code: invalid-argument error and nothing changes. Otherwise only the selected array changes: on success it holds N-1 (deltas, flight) or N (dwell) values from the formulas; when the routine returns NULL it is empty with the NULL error |
| Keycodes.KeycodeToAscii | libkdt.c:703-782 | The result is a 7-bit character, and non-zero only for codes within [0, KEY_MAX] |
| Keycodes.TablesAgree | libkdt.c:712-755 | Both tables list the same keys; a letter key's shifted character is its capital, and no other key shifts to a capital |
| Keycodes.UnknownKeysGiveZero | libkdt.c:758 | Out-of-range codes and codes in neither table give 0 under every modifier combination |
| Keycodes.TableKeysResolve | libkdt.c:758-781 | A key in the tables always resolves to a non-zero character |
| Keycodes.ModifierCombinations | libkdt.c:760-781 | On a letter key, exactly one of caps lock and shift gives the capital (the small letter minus 32); both or neither give the small letter. On any other key caps lock changes nothing |
| Keycodes.SampleResolutions | libkdt.c:712-781 | Concrete entries: 'a'/'A' under the four modifier combinations, '!' and '1' on the 1 key, backspace gives 8, shift gives 0 |
| Keycodes.CompareIsLexicographic | libkdt.c:784-801 | The comparator answers -1, 0 or 1; 0 exactly for equal press times; it is antisymmetric; it is at most 0 exactly when the first press is not after the second in (seconds, nanoseconds) order |
| Keycodes.CompareTransitive | libkdt.c:784-801 | "Not after" by the comparator is transitive |
| Tracker.StepIgnoresOtherEvents | kdt-keystroke-collection/kdt.c:175 | Non-EV_KEY events leave the state unchanged |
| Tracker.StepShift | kdt-keystroke-collection/kdt.c:177-181 | A shift event sets the shift state to the event value and touches nothing else |
| Tracker.StepCapsLock | kdt-keystroke-collection/kdt.c:183-187 | A caps-lock press toggles caps and changes nothing else |
| Tracker.StepPress | kdt-keystroke-collection/kdt.c:193-211 | A press always records its time in the key's slot. A backspace over a non-empty buffer stores 127 whatever the buffer's length, and over an empty one stores 8. Other characters are stored only while fewer than 255 keystrokes are buffered; otherwise the slot keeps its old character. No other slot and not the buffer changes |
| Tracker.StepRelease | kdt-keystroke-collection/kdt.c:213-223 | A release of a key holding a character appends exactly that keystroke with the release time and clears the slot; a release of an empty slot changes nothing |
| Tracker.StepRepeatIgnored | kdt-keystroke-collection/kdt.c:193-223 | Auto-repeat and other values on non-shift keys change nothing |
| Tracker.RunKeepsCharsNonZero | kdt-keystroke-collection/kdt.c:205-217 | Every keystroke the loop appends has a non-zero character |
| Tracker.RunOnlyAppends | kdt-keystroke-collection/kdt.c:217-218 | The loop only appends: the starting buffer stays a prefix |
| Tracker.StepBuffer | kdt-keystroke-collection/kdt.c:213-223 | A step leaves the buffer alone or, on a release, appends one keystroke carrying the release time |
| Tracker.RunAppendsOnlyOnRelease | kdt-keystroke-collection/kdt.c:213-223 | Every appended keystroke was completed by a release event of the stream at its release time, so presses still pending at the end are never appended |
| Tracker.NoReleaseNoKeystroke | kdt-keystroke-collection/kdt.c:193-223 | A stream without release events appends nothing, whatever it presses |
| Tracker.RunKeepsValidNsec | kdt-keystroke-collection/kdt.c:194-214 | Valid clock readings give keystrokes with valid nanosecond fields |
| Tracker.RunReleasesAfterPress | kdt-keystroke-collection/kdt.c:194-214 | With a monotonic clock, every buffered keystroke is pressed no later than released, and everything recorded is no later than the last event |
| Tracker.StepsAgreeBelowBound | kdt-keystroke-collection/kdt.c:197-211 | Below 255 buffered keystrokes the bounded step and the step as written agree on every event |
| Tracker.StepKeepsWithinBound | kdt-keystroke-collection/kdt.c:193-223 | With backspaces bounded, every step keeps buffered plus held keystrokes at most 254 plus one per key code, and only known codes hold a character |
| Tracker.RunKeepsWithinBound | kdt-keystroke-collection/kdt.c:169-223 | The same bound holds after any stream of events |
| Tracker.RunWithinCapacity | kdt-keystroke-collection/kdt.c:98-100 | With backspaces bounded, a session never holds more than 254 + KEY_MAX keystrokes, inside the 2048 entries allocated |
| Tracker.BackspaceTap | kdt-keystroke-collection/kdt.c:197-218 | A backspace tap on a cleared slot appends one keystroke whatever the buffer's length |
| Tracker.BackspaceTapsStored | kdt-keystroke-collection/kdt.c:197-218 | n backspace taps from the initial state leave n keystrokes |
| Tracker.BackspacesOverrun | kdt-keystroke-collection/kdt.c:197-218 | 2049 backspace taps leave more keystrokes than the 2048 entries allocated |
| Tracker.InsertByPress | kdt-keystroke-collection/kdt.c:230 | Inserting into a press-sorted buffer keeps it sorted and adds exactly that keystroke |
| Tracker.SortByPress | kdt-keystroke-collection/kdt.c:230 | The sorted buffer is a permutation of the captured one, ordered by `compare_keystrokes` |
| Tracker.PermutationKeeps | kdt-keystroke-collection/kdt.c:230 | Sorting keeps every per-keystroke property: valid nanoseconds and non-zero characters |
| Tracker.SortedLatenciesNonNegative | kdt-keystroke-collection/kdt.c:230-285 | After the sort, no latency between consecutive presses is negative |
| Tracker.CaptureSession | kdt-keystroke-collection/kdt.c:161-309 | One session starting from an empty buffer holds a sorted permutation of the released keystrokes, all non-zero. Its time deltas are the non-negative, unwrapped latencies. Dwell and flight times follow the formulas, with lengths N, N-1 and N-1 (0 below two keystrokes) |
| ByteCapture.EchoOf | kdt.c:122-135 | The echo of a byte is "\b \b" for 127, nothing for 10, and the byte itself otherwise |
| ByteCapture.EchoHasNoNewline | get_raw_input.c:94-105 | The echo of a whole capture never contains a newline |
| ByteCapture.CaptureAsWritten | kdt.c:112-136 | The loop as written stops exactly when 64 entries are recorded, at the read that records the 64th. The entries are the reference log of the as-written skip test over the reads consumed, and the echo is the echo of those entries |
| ByteCapture.FailedReadRepeatsByte | kdt.c:104-114 | Under the as-written skip test, a failed read (-1) after reading 'a' records a second 'a'; the intended loop records one |
| ByteCapture.CaptureIntended | get_raw_input.c:84-106 | The loop with the intended skip test records exactly the bytes read, in order, up to 64, with their timestamps and echo, and stops at the read that records the 64th |
| ByteCapture.IntendedLogIsSuccessfulReads | get_raw_input.c:85-91 | Every recorded entry is the byte and time of a successful read, and there are no more entries than reads |
| ByteCapture.AsWrittenAgreesWithoutFailures | kdt.c:113-119 | When no read fails, the loop as written records exactly what the intended loop records |
| ByteCapture.TimeDeltasSingle | kdt.c:49-65 | NULL for a NULL array (or no entries, whose wrapped allocation size fails); otherwise N-1 wrapped latencies between consecutive timestamps |
| ByteCapture.LatenciesTrackElapsed | get_raw_input.c:56-60 | Over timestamps in clock order, each reported latency is the elapsed whole milliseconds or one more |
| SessionCodec.EncodeKeystroke | libkdt.c:822-828 | A keystroke takes 33 bytes and starts with its character |
| SessionCodec.EncodeArray | libkdt.c:830-849 | A statistic array takes 8 + 8·len bytes; an empty one is its count alone |
| SessionCodec.EncodeSessions | libkdt.c:817-850 | The sessions take exactly the sum of 8 + 33·k + three arrays of 8 + 8·len bytes each |
| SessionCodec.SaveSessions | libkdt.c:807-853 | NULL file: -1 and nothing written. Otherwise 0, and the file grows by 8 plus the sessions' size, its old content kept |
| SessionCodec.SaveFile | kdt-keystroke-collection/kdt.c:373 | A whole file is 194 header bytes, 8 count bytes and the sessions |
| SessionCodec.ReadUserInfo | kdt-keystroke-collection/deserialization.c:28-31 | The header is three verbatim 64-byte fields and a 2-byte duration; any decoded header is well-formed |
| SessionCodec.ReadKeystrokeOfEncode | kdt-keystroke-collection/deserialization.c:49-55 | One 33-byte keystroke (char, press sec, press nsec, release sec, release nsec) reads back exactly |
| SessionCodec.ReadArrayOfEncode | kdt-keystroke-collection/deserialization.c:58-85 | A statistic array reads back exactly; count 0 consumes only the count |
| SessionCodec.ReadSessionOfEncode | kdt-keystroke-collection/deserialization.c:43-85 | One session reads back exactly, whatever follows it |
| SessionCodec.ReadSessionsOfEncode | kdt-keystroke-collection/deserialization.c:41-86 | n sessions read back in file order, whatever follows them |
| SessionCodec.ReadStoreOfSaved | kdt-keystroke-collection/deserialization.c:28-86 | Decoding a saved file, followed by anything, gives back the header and every session, keystroke and statistic value |
| SessionCodec.ReadStoreExtends | kdt-keystroke-collection/deserialization.c:28-86 | Appending bytes never changes what the parser decodes, only what remains |
| SessionCodec.TruncatedStoreRejected | kdt-keystroke-collection/deserialization.c:28-86 | Every strict prefix of a saved file fails to parse |
| SessionCodec.LoadSessions | kdt-keystroke-collection/deserialization.c:14-89 | -1 exactly for a NULL file or a failed allocation, 0 otherwise. Any content it yields is the parse of the file, and a file that parses is always loaded with that content |
| SessionCodec.LoadSavedFile | kdt-keystroke-collection/deserialization.c:14-89 | Loading a saved file (trailing bytes ignored) returns 0 and restores the header and the sessions |
| SessionCodec.LoadTruncatedFile | kdt-keystroke-collection/deserialization.c:28-88 | A truncated file still returns 0, with no determinate content: short reads are not reported |
| SessionCodec.CountsNotCrossChecked | kdt-keystroke-collection/deserialization.c:43-85 | A session whose arrays disagree with its keystroke count loads unchanged |
| PyReaders.DecodeAscii | ak24-data-analysis/read_binary.py:15-17 | Decoding succeeds exactly when every byte is ASCII, character for byte |
| PyReaders.StripNul | ak24-data-analysis/read_binary.py:15-17 | `strip('\x00')` removes NULs from both ends only: the result is a slice with NULs on either side, and it neither starts nor ends with NUL |
| PyReaders.StripPaddedName | classifiers/read_binary.py:15-17 | A NUL-padded field whose text neither starts nor ends with NUL strips back to that text |
| PyReaders.PyHeaderOfAscii | ak24-data-analysis/read_binary.py:15-18 | An ASCII header decodes to each field's text, character for byte, with NULs stripped from both ends, and the signed duration |
| PyReaders.ClassifiersRead | classifiers/read_binary.py:5-68 | The raw reader succeeds only when the shared parser does and returns its sessions verbatim; it fails whenever the parser fails |
| PyReaders.ClassifiersReadsSavedFile | classifiers/read_binary.py:5-68 | On a saved file with an ASCII header, the raw reader returns the decoded header and exactly the sessions written, with raw keys and unrepaired arrays |
| PyReaders.RepairFlight | ak24-data-analysis/read_binary.py:61-73 | `abs(convert_to_signed(x))` leaves values up to 500000 and maps larger ones to 2^64 - x |
| PyReaders.RepairUndoesWrap | ak24-data-analysis/read_binary.py:70-73 | A wrapped 2^64 - d comes back as d |
| PyReaders.RepairOfWrappedFlight | ak24-data-analysis/read_binary.py:61-63 | A C flight time that wrapped comes back as the magnitude of the true signed difference |
| PyReaders.KeyChar | ak24-data-analysis/read_binary.py:34 | A key byte decodes exactly when it is ASCII, to the character of that code |
| PyReaders.PyKeystrokes | ak24-data-analysis/read_binary.py:33-47 | Keystrokes convert exactly when every key is ASCII, keeping order and the signed times |
| PyReaders.PySessionOfAscii | ak24-data-analysis/read_binary.py:29-63 | A session with ASCII keys converts: every keystroke keeps its key as the character of its byte and both times, deltas and dwell times are verbatim, and each flight time is repaired |
| PyReaders.PySessionsOfAscii | ak24-data-analysis/read_binary.py:24-65 | With ASCII keys every session converts, and the result is the per-session conversion in file order |
| PyReaders.Ak24Read | ak24-data-analysis/read_binary.py:5-68 | The ak24 reader fails whenever the shared parser fails, and otherwise returns one session per session parsed |
| PyReaders.Ak24ReadsSavedFile | ak24-data-analysis/read_binary.py:5-68 | On a saved file with ASCII header and keys: the decoded header, and one converted session per session written, in order |
| PyReaders.Ak24RejectsNonAsciiKey | ak24-data-analysis/read_binary.py:34 | A key byte of 0x80 or above makes the ak24 reader raise |
| PyReaders.ReadersRejectTruncated | ak24-data-analysis/read_binary.py:15-62 | Both readers raise on every strict prefix of a saved file: no partial result |
| LegacyLayout.ReadLegacyKeystrokeOfEncode | binary_processor.py:24-28 | A 17-byte keystroke (unsigned key, unsigned press, unsigned release) reads back exactly |
| LegacyLayout.ReadLegacySessionOfEncode | binary_processor.py:19-39 | A session reads back exactly, whatever the ignored capacity word holds |
| LegacyLayout.ReadLegacyFileOfEncode | binary_processor.py:7-48 | The old-layout reader returns every session written, in order, with exactly the counts written, whatever the capacity words and trailing bytes |
| LegacyLayout.GenerateKeystrokeHashmap | binary_processor.py:50-67 | One dictionary per session, in order, each the result of the loop over adjacent pairs |
| LegacyLayout.PairMapKeys | binary_processor.py:55-59 | The keys are exactly the key pairs of adjacent keystrokes |
| LegacyLayout.PairMapLastWins | binary_processor.py:59-65 | Each entry holds the four differences (press-press, release-release, release-press, press-release) of the last occurrence of its pair |
| LegacyLayout.PairMapSize | binary_processor.py:55-65 | Fewer than two keystrokes give an empty dictionary; otherwise at most n-1 entries |
| Graphemes.WindowsShape | ak24-data-analysis/pylibgrapheme.py:61-67 | There are n-k+1 windows and window i is content[i..i+k) |
| Graphemes.RejoinWindows | ak24-data-analysis/pylibgrapheme.py:61-67 | The windows lose nothing: joining their overlap gives back the content |
| Graphemes.GetCombinations | ak24-data-analysis/pylibgrapheme.py:34-101 | None gives (EMPTY_CONTENT, []). Too short raises NameError. Length 1 gives the elements. NUMBER of equal length gives the bare content, and NUMBER above 3 raises UnboundLocalError. Windows are the sliding windows. Every other error carries its code with [] |
| Graphemes.GetCombinationsOld | pylibgrapheme.py:7-66 | The same raising and bare-content cases as the newer version; non-empty windows are the sliding windows |
| Graphemes.OldIsNewWithoutCodes | pylibgrapheme.py:7-66 | The older version is the newer one with the error codes dropped |
| Graphemes.StatisticColumnCases | ak24-data-analysis/pylibgrapheme.py:160-164 | A statistic column is a window list exactly when the list is longer than k. Shorter raises NameError; equal length raises TypeError (k=2) or ValueError (k=3) on unpacking; it is never the empty list |
| Graphemes.CreateGraphemeMap | ak24-data-analysis/pylibgrapheme.py:115-185 | On success the grapheme type was DIGRAPH or TRIGRAPH. `#` is 1..(number of dwell windows), the graphemes are the windows of the joined keys, and the statistic columns are their windows |
| Graphemes.GraphemeMapOutcomes | ak24-data-analysis/pylibgrapheme.py:124-164 | The only error return is INVALID_GRAPHEME_TYPE, exactly for other types. Success exactly when there are at least k keys and every statistic list is longer than k; the empty-list error returns are unreachable |
| Graphemes.GraphemeMapOfCollectedSession | ak24-data-analysis/pylibgrapheme.py:139-185 | For a session as collected (N keys, N-1 deltas, N dwell, N-1 flights) the map succeeds exactly when N >= k+2; at N = k+1 it raises |
| Graphemes.CreateGraphemeMapOld | pylibgrapheme.py:78-91 | The older `create_grapheme_map` always yields None |
| MasterDictionary.Pads | ak24-data-analysis/masterDictionaryBuilder.py:55 | `[-1] * n` is n padding markers, none for n <= 0 |
| MasterDictionary.FindMaxValuesArrayLength | ak24-data-analysis/masterDictionaryBuilder.py:10-23 | -1 for an empty dictionary; otherwise a length attained by some list and bounding all of them |
| MasterDictionary.FillInEmptyValues | ak24-data-analysis/masterDictionaryBuilder.py:34-42 | Same keys; each list is its old content followed only by -1 up to the maximum length, so all lengths agree; a longest list is unchanged |
| MasterDictionary.UpdateMasterDictionary | ak24-data-analysis/masterDictionaryBuilder.py:45-66 | Keys become the union and all lengths agree. An existing key gets its value appended. A new key gets size -1s then its value. At size 0 every combined key becomes [value]. On an empty master each list is exactly [value]. A rectangular master of h >= 1 rows gains one row holding each combined value, with -1 for absent keys |
| MasterDictionary.AddCombinedValues | ak24-data-analysis/masterDictionaryBuilder.py:51-63 | After the loop each key holds the list its branch builds: appended, padded-and-appended, or replaced |

## Left out

- Terminal mode switching, the timer thread and its unsynchronised flag,
  device and standard-input reads, `clock_gettime`, printing and the
  session memcpy/free paths are left out. Events and read outcomes are
  parameters that carry their clock readings.
- Command-line parsing, help text and environment display in libkdt.c are
  left out: this is file-system glue.
- kdtV2.c, test.c, libphoneme.c and libphoneme.h are not part of this
  model. The first two do not build against the shown headers, and nothing
  calls the last two.
- Allocation failures in the statistic routines are not modelled separately.
  `malloc` is assumed to succeed, except in the loader, where both checked
  allocations are a parameter.
- The C slot table has KEY_MAX + 1 entries, and a larger event code would
  index past it. The model keeps the slots in a map that accepts any code;
  such a code resolves to character 0 and is never recorded.
- The float averaging in `create_grapheme_map` (the `sum / k` per window) is
  left out. `Graphemes.CreateGraphemeMap` keeps the windows themselves.
- The `time_delta`, `dwell_time` and `flight_time` keys written at the end
  of `create_grapheme_map` are kept. The three space-named columns it also
  returns stay empty and are not represented.
- pandas/CSV code, `__main__` blocks, and the analysis and ML scripts are
  left out: they are floating point, external libraries and glue.
- Graphemes.GetCombinations: the ak24 combination types are an `IntEnum`.
  The model compares them as a three-valued datatype, so an arbitrary
  integer equal to 0 or 1 is not represented.
- PyReaders.DecodeAscii: header bytes are accepted only when ASCII. A
  header holding valid multi-byte UTF-8 decodes in Python but is `None`
  here.
- PyReaders.PyHeaderOfAscii: stated for ASCII headers only, for the same
  reason.
- ByteCapture.CaptureAsWritten: the C loop spins until it has 64 entries.
  The model consumes a finite list of read outcomes and also stops when
  that list runs out.
- ByteCapture.TimeDeltasSingle: with no entries, the C allocation size
  `8 * (0 - 1)` wraps to 2^64 - 8 bytes. The model takes that allocation to
  fail and returns NULL. The collectors call this routine only after 64
  entries.
- SessionCodec.LoadSessions: after a short read the C struct fields hold
  indeterminate values. The model reports status 0 with no content instead
  of guessing those values.
- Tracker.Initial: the C `active_keys` array (kdt-keystroke-collection/kdt.c:165)
  is never cleared, so its slots start with whatever the stack held. The
  model starts every slot empty, which is what the release test at line 213
  relies on.
- Tracker.SortByPress: `qsort` may order keystrokes with equal press times
  in any way. The model uses an insertion sort, but its contract promises
  only a sorted permutation, which every `qsort` result satisfies.

## Findings

| source | as written | input that shows it | evidently intended | confidence | as-written member | corrected member |
|---|---|---|---|---|---|---|
| kdt.c:104-114 | `bytes_read` is an `unsigned char` (also get_raw_input.c:75, tested at 85-86), so a `read` result of -1 becomes 255 and passes the `bytes_read <= 0` skip test; the stale `c` is recorded again with a new timestamp | a read of 'a' followed by a failed read (-1) records 'a' twice | skip every read that returned no byte (result <= 0) | not executed | ByteCapture.CaptureAsWritten (shown by ByteCapture.FailedReadRepeatsByte) | ByteCapture.CaptureIntended (with ByteCapture.IntendedLogIsSuccessfulReads) |
| kdt-keystroke-collection/kdt.c:197-218 | once 255 keystrokes are buffered only non-backspace presses are refused; a backspace over a non-empty buffer is always given a slot and its release is stored without any check, into an array `malloc`'d for 2048 entries (kdt.c:99-100) | 2049 backspace taps in one session store a 2049th keystroke past the end of the array | refuse backspaces at the same bound, so the buffer stays inside its allocation | not executed | Tracker.Step (shown by Tracker.BackspacesOverrun) | Tracker.StepBounded (with Tracker.RunWithinCapacity) |
