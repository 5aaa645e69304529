/** Both copies of pylibgrapheme.py: the sliding-window `get_combinations`
    (the error-coded version in ak24-data-analysis/ and the older list-only
    one at the repository root) and the shape logic of
    `create_grapheme_map`. Content is generic: a string for TEXT, a list of
    numbers for NUMBER; a `None` argument is `Option.None`. */
module Graphemes {
  import opened Machine
  import opened PyReaders

  /** `CombinationType` (TEXT, or STRING in the older copy, and NUMBER), or any other value. */
  datatype CombinationType = Text | Number | InvalidType

  /** The exceptions the code raises on its own paths. */
  datatype PyException = NameError | UnboundLocalError | TypeError | ValueError

  // `LibGraphemeError` codes.
  const ERROR_NONE: int := 0
  const ERROR_COMBINATION_LENGTH_NON_POSITIVE: int := 1
  const ERROR_COMBINATION_LENGTH_TOO_LARGE: int := 2
  const ERROR_COMBINATION_LENGTH_UNHANDLED: int := 3
  const ERROR_EMPTY_CONTENT: int := 4
  const ERROR_EMPTY_GRAPHEME_LIST: int := 5
  const ERROR_EMPTY_STATISTIC_LIST: int := 6
  const ERROR_INVALID_COMBINATION_TYPE: int := 7
  const ERROR_INVALID_GRAPHEME_TYPE: int := 8

  // `GraphemeType` values accepted by `create_grapheme_map`.
  const DIGRAPH: int := 1
  const TRIGRAPH: int := 2

  // ----------------------------------------------------------------- windows

  /** The list comprehension over `range(0, n)`, from position x on: each
      position below n - (k - 1) contributes the window starting there. */
  function Comprehension<T>(content: seq<T>, k: nat, x: nat): seq<seq<T>>
    requires k >= 1 && x <= |content|
    decreases |content| - x
  {
    if x == |content| then []
    else (if x < |content| - (k - 1) then [content[x..x + k]] else []) + Comprehension(content, k, x + 1)
  }

  function Windows<T>(content: seq<T>, k: nat): seq<seq<T>>
    requires k >= 1
  {
    Comprehension(content, k, 0)
  }

  lemma {:induction false} ComprehensionShape<T>(content: seq<T>, k: nat, x: nat)
    requires k >= 1 && x <= |content|
    ensures |Comprehension(content, k, x)| == if x + k <= |content| then |content| - k + 1 - x else 0
    ensures forall i :: 0 <= i < |Comprehension(content, k, x)| ==>
              x + i + k <= |content| && Comprehension(content, k, x)[i] == content[x + i..x + i + k]
    decreases |content| - x
  {
    if x < |content| {
      ComprehensionShape(content, k, x + 1);
      var rest := Comprehension(content, k, x + 1);
      if x < |content| - (k - 1) {
        assert Comprehension(content, k, x) == [content[x..x + k]] + rest;
      } else {
        assert Comprehension(content, k, x) == rest;
      }
    }
  }

  /** There are n - k + 1 windows, and window i is `content[i..i + k]`. */
  lemma WindowsShape<T>(content: seq<T>, k: nat)
    requires 1 <= k <= |content|
    ensures |Windows(content, k)| == |content| - k + 1
    ensures forall i :: 0 <= i < |Windows(content, k)| ==> Windows(content, k)[i] == content[i..i + k]
  {
    ComprehensionShape(content, k, 0);
  }

  /** Joins overlapping windows back together: the first element of every
      window but the last, then the whole last window. */
  function Rejoin<T>(ws: seq<seq<T>>): seq<T>
    decreases |ws|
  {
    if |ws| == 0 then []
    else if |ws| == 1 then ws[0]
    else (if ws[0] == [] then [] else [ws[0][0]]) + Rejoin(ws[1..])
  }

  lemma SliceShift<T>(s: seq<T>, i: nat, k: nat)
    requires 1 + i + k <= |s|
    ensures s[1..][i..i + k] == s[1 + i..1 + i + k]
  {
  }

  /** Dropping the first window leaves the windows of the content's tail. */
  lemma WindowsOfTail<T>(content: seq<T>, k: nat)
    requires 1 <= k < |content|
    ensures Windows(content, k)[1..] == Windows(content[1..], k)
  {
    var ws := Windows(content, k);
    var ws' := Windows(content[1..], k);
    WindowsShape(content, k);
    WindowsShape(content[1..], k);
    forall i | 0 <= i < |ws'|
      ensures ws[1..][i] == ws'[i]
    {
      assert ws[1..][i] == ws[i + 1] == content[i + 1..i + 1 + k];
      assert ws'[i] == content[1..][i..i + k];
      SliceShift(content, i, k);
    }
  }

  /** The windows lose nothing: rejoining them gives back the content. */
  lemma {:induction false} RejoinWindows<T>(content: seq<T>, k: nat)
    requires 1 <= k <= |content|
    ensures Rejoin(Windows(content, k)) == content
    decreases |content|
  {
    var ws := Windows(content, k);
    WindowsShape(content, k);
    if |content| == k {
      assert ws[0] == content[0..k] == content;
    } else {
      var tail := content[1..];
      WindowsOfTail(content, k);
      RejoinWindows(tail, k);
      assert ws[0] == content[0..k];
      assert Rejoin(ws) == [content[0]] + Rejoin(ws[1..]);
      assert [content[0]] + tail == content;
    }
  }

  // -------------------------------------------------------- get_combinations

  /** What the ak24 `get_combinations` hands back: an `(error, list)` tuple of
      windows or of single elements, the content itself (not a tuple), or
      an exception. */
  datatype Combinations<T> =
    | Listed(code: int, windows: seq<seq<T>>)
    | ListedElements(code: int, elements: seq<T>)
    | BareContent(content: seq<T>)
    | Raised(exception: PyException)

  /** ak24-data-analysis `get_combinations`. The too-short branch formats an
      undefined name, so it raises before its error return. */
  function GetCombinations<T>(content: Option<seq<T>>, k: int, t: CombinationType): (r: Combinations<T>)
    ensures content.None? ==> r == Listed(ERROR_EMPTY_CONTENT, [])
    ensures r.Raised? <==> content.Some? && (|content.value| < k || (t.Number? && k > 3 && |content.value| != k))
    ensures r.Raised? ==> r.exception == (if |content.value| < k then NameError else UnboundLocalError)
    ensures r.BareContent? <==> content.Some? && t.Number? && k >= 2 && |content.value| == k
    ensures r.BareContent? ==> r.content == content.value
    ensures r.ListedElements? <==> content.Some? && k == 1 && |content.value| >= 1
    ensures r.ListedElements? ==> r == ListedElements(ERROR_NONE, content.value)
    ensures r.Listed? ==> (r.code == ERROR_NONE <==> r.windows != [])
    ensures r.Listed? && r.code == ERROR_NONE ==>
              content.Some? && 2 <= k <= |content.value| && |r.windows| == |content.value| - k + 1
              && forall i :: 0 <= i < |r.windows| ==> r.windows[i] == content.value[i..i + k]
    ensures r.Listed? && r.code != ERROR_NONE ==>
              r.code == (if content.None? then ERROR_EMPTY_CONTENT
                         else if k <= 0 then ERROR_COMBINATION_LENGTH_NON_POSITIVE
                         else if t.Text? then ERROR_COMBINATION_LENGTH_UNHANDLED
                         else ERROR_INVALID_COMBINATION_TYPE)
  {
    if content.None? then Listed(ERROR_EMPTY_CONTENT, [])
    else
      var c := content.value;
      var n := |c|;
      if n < k then Raised(NameError)
      else if k <= 0 then Listed(ERROR_COMBINATION_LENGTH_NON_POSITIVE, [])
      else if k == 1 then ListedElements(ERROR_NONE, c)
      else
        match t
        case Text =>
          if n == k then Listed(ERROR_NONE, [c])
          else if k == 2 || k == 3 then WindowsShape(c, k); Listed(ERROR_NONE, Windows(c, k))
          else Listed(ERROR_COMBINATION_LENGTH_UNHANDLED, [])
        case Number =>
          if n == k then BareContent(c)
          else if k == 2 || k == 3 then WindowsShape(c, k); Listed(ERROR_NONE, Windows(c, k))
          else Raised(UnboundLocalError)
        case InvalidType => Listed(ERROR_INVALID_COMBINATION_TYPE, [])
  }

  /** What the older root `get_combinations` returns: a plain list (of
      windows or of elements), the content itself, or an exception. */
  datatype OldCombinations<T> =
    | OldWindows(windows: seq<seq<T>>)
    | OldElements(elements: seq<T>)
    | OldBare(content: seq<T>)
    | OldRaised(exception: PyException)

  /** pylibgrapheme.py `get_combinations`: every failure is an empty list,
      except the too-short content (NameError) and NUMBER beyond length 3
      (the result variable is never bound). */
  function GetCombinationsOld<T>(content: Option<seq<T>>, k: int, t: CombinationType): (r: OldCombinations<T>)
    ensures r.OldRaised? <==> content.Some? && (|content.value| < k || (t.Number? && k > 3 && |content.value| != k))
    ensures r.OldBare? <==> content.Some? && t.Number? && k >= 2 && |content.value| == k
    ensures r.OldWindows? && r.windows != [] ==>
              content.Some? && 2 <= k <= |content.value| && |r.windows| == |content.value| - k + 1
              && forall i :: 0 <= i < |r.windows| ==> r.windows[i] == content.value[i..i + k]
  {
    if content.None? then OldWindows([])
    else
      var c := content.value;
      var n := |c|;
      if n < k then OldRaised(NameError)
      else if k <= 0 then OldWindows([])
      else if k == 1 then OldElements(c)
      else
        match t
        case Text =>
          if n == k then OldWindows([c])
          else if k == 2 || k == 3 then WindowsShape(c, k); OldWindows(Windows(c, k))
          else OldWindows([])
        case Number =>
          if n == k then OldBare(c)
          else if k == 2 || k == 3 then WindowsShape(c, k); OldWindows(Windows(c, k))
          else OldRaised(UnboundLocalError)
        case InvalidType => OldWindows([])
  }

  /** The older result, read off the newer one by dropping the error code. */
  function DropCode<T>(r: Combinations<T>): OldCombinations<T> {
    match r
    case Listed(_, ws) => OldWindows(ws)
    case ListedElements(_, es) => OldElements(es)
    case BareContent(c) => OldBare(c)
    case Raised(e) => OldRaised(e)
  }

  /** The error codes are the only difference between the two versions. */
  lemma OldIsNewWithoutCodes<T>(content: Option<seq<T>>, k: int, t: CombinationType)
    ensures GetCombinationsOld(content, k, t) == DropCode(GetCombinations(content, k, t))
  {
  }

  // ----------------------------------------------------- create_grapheme_map

  /** One column after `(error_code, column) = get_combinations(...)`: the
      windows, an empty list (the error return), or the exception raised by
      the unpacking or by the averaging that follows. */
  datatype Column<T> = Column(windows: seq<seq<T>>) | EmptyColumn | ColumnRaised(exception: PyException)

  /** Unpacks a result for a window length of 2 or 3. Bare content of two
      items unpacks into an integer, which the averaging then fails to
      iterate; any other bare content cannot unpack into two names. */
  function ColumnOf<T>(r: Combinations<T>): (col: Column<T>)
    requires !r.ListedElements?
  {
    match r
    case Listed(_, ws) => if ws == [] then EmptyColumn else Column(ws)
    case BareContent(c) => ColumnRaised(if |c| == 2 then TypeError else ValueError)
    case Raised(e) => ColumnRaised(e)
  }

  /** The table, one entry per column name, with the averaged statistic
      columns kept as the windows that would be averaged. */
  datatype GraphemeTable = GraphemeTable(
    number: seq<int>,
    grapheme: seq<string>,
    timeDelta: seq<seq<int>>,
    dwellTime: seq<seq<int>>,
    flightTime: seq<seq<int>>)

  datatype MapOutcome = MapOk(table: GraphemeTable) | MapError(code: int) | MapRaised(exception: PyException)

  function GraphemeLength(g: int): (k: nat)
    requires g == DIGRAPH || g == TRIGRAPH
  {
    if g == DIGRAPH then 2 else 3
  }

  function KeyText(s: PySession): (text: string)
    ensures |text| == |s.keystrokes|
    ensures forall i :: 0 <= i < |text| ==> text[i] == s.keystrokes[i].key
  {
    seq(|s.keystrokes|, i requires 0 <= i < |s.keystrokes| => s.keystrokes[i].key)
  }

  function StatisticColumn(xs: seq<int>, k: nat): Column<int>
    requires k == 2 || k == 3
  {
    ColumnOf(GetCombinations(Some(xs), k, Number))
  }

  /** ak24-data-analysis `create_grapheme_map` for one session dictionary. */
  function CreateGraphemeMap(s: PySession, g: int): (r: MapOutcome)
    ensures r.MapOk? ==> g == DIGRAPH || g == TRIGRAPH
    ensures r.MapOk? ==>
              var k := GraphemeLength(g);
              |r.table.number| == |r.table.dwellTime| == |s.dwellTimes| - k + 1
              && (forall i :: 0 <= i < |r.table.number| ==> r.table.number[i] == i + 1)
              && (|s.keystrokes| == k ==> r.table.grapheme == [KeyText(s)])
              && (|s.keystrokes| > k ==> r.table.grapheme == Windows(KeyText(s), k))
              && r.table.timeDelta == Windows(s.timeDeltas, k)
              && r.table.dwellTime == Windows(s.dwellTimes, k)
              && r.table.flightTime == Windows(s.flightTimes, k)
  {
    if g != DIGRAPH && g != TRIGRAPH then MapError(ERROR_INVALID_GRAPHEME_TYPE)
    else
      var k := GraphemeLength(g);
      match ColumnOf(GetCombinations(Some(KeyText(s)), k, Text))
      case ColumnRaised(e) => MapRaised(e)
      case EmptyColumn => MapError(ERROR_EMPTY_GRAPHEME_LIST)
      case Column(graphemes) =>
        match StatisticColumn(s.timeDeltas, k)
        case ColumnRaised(e) => MapRaised(e)
        case EmptyColumn => MapError(ERROR_EMPTY_STATISTIC_LIST)
        case Column(timeDelta) =>
          match StatisticColumn(s.dwellTimes, k)
          case ColumnRaised(e) => MapRaised(e)
          case EmptyColumn => MapError(ERROR_EMPTY_STATISTIC_LIST)
          case Column(dwellTime) =>
            match StatisticColumn(s.flightTimes, k)
            case ColumnRaised(e) => MapRaised(e)
            case EmptyColumn => MapError(ERROR_EMPTY_STATISTIC_LIST)
            case Column(flightTime) =>
              MapOk(GraphemeTable(seq(|dwellTime|, i => i + 1), graphemes, timeDelta, dwellTime, flightTime))
  }

  /** A window column is produced exactly when the list is longer than the
      window; otherwise the call raises, so it is never empty. */
  lemma StatisticColumnCases(xs: seq<int>, k: nat)
    requires k == 2 || k == 3
    ensures StatisticColumn(xs, k).Column? <==> |xs| > k
    ensures !StatisticColumn(xs, k).EmptyColumn?
    ensures |xs| < k ==> StatisticColumn(xs, k) == ColumnRaised(NameError)
    ensures |xs| == k ==> StatisticColumn(xs, k) == ColumnRaised(if k == 2 then TypeError else ValueError)
  {
  }

  /** The two "empty list" error returns cannot be reached: the only error
      code returned is the invalid grapheme type, and a table is returned
      exactly when every list is long enough. */
  lemma GraphemeMapOutcomes(s: PySession, g: int)
    ensures CreateGraphemeMap(s, g).MapError? <==> g != DIGRAPH && g != TRIGRAPH
    ensures CreateGraphemeMap(s, g).MapError? ==> CreateGraphemeMap(s, g).code == ERROR_INVALID_GRAPHEME_TYPE
    ensures CreateGraphemeMap(s, g).MapOk? <==>
              (g == DIGRAPH || g == TRIGRAPH)
              && |s.keystrokes| >= GraphemeLength(g)
              && |s.timeDeltas| > GraphemeLength(g)
              && |s.dwellTimes| > GraphemeLength(g)
              && |s.flightTimes| > GraphemeLength(g)
  {
    if g == DIGRAPH || g == TRIGRAPH {
      var k := GraphemeLength(g);
      StatisticColumnCases(s.timeDeltas, k);
      StatisticColumnCases(s.dwellTimes, k);
      StatisticColumnCases(s.flightTimes, k);
    }
  }

  /** For a session as the collector stores it (n keystrokes, n - 1 time
      deltas, n dwell times, n - 1 flight times) a table is produced exactly
      when n is at least the window length plus two; one keystroke fewer
      makes the time-delta column raise. */
  lemma GraphemeMapOfCollectedSession(s: PySession, g: int)
    requires g == DIGRAPH || g == TRIGRAPH
    requires |s.keystrokes| >= 1
    requires |s.timeDeltas| == |s.keystrokes| - 1 && |s.dwellTimes| == |s.keystrokes|
    requires |s.flightTimes| == |s.keystrokes| - 1
    ensures CreateGraphemeMap(s, g).MapOk? <==> |s.keystrokes| >= GraphemeLength(g) + 2
    ensures |s.keystrokes| == GraphemeLength(g) + 1 ==>
              CreateGraphemeMap(s, g) == MapRaised(if g == DIGRAPH then TypeError else ValueError)
  {
    GraphemeMapOutcomes(s, g);
    var k := GraphemeLength(g);
    StatisticColumnCases(s.timeDeltas, k);
  }

  /** pylibgrapheme.py `create_grapheme_map`: its loop body is `pass` and it
      has no return statement, so every call yields None. */
  function CreateGraphemeMapOld(sessions: seq<PySession>): (r: Option<GraphemeTable>)
    ensures r.None?
  {
    None
  }
}
