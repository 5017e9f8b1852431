/**
 * The minute gap filler of parser/main.py. A per-day step export has one row per
 * minute but leaves out the minutes with zero steps; the filler starts from
 * midnight of the day named in the file name and, before the first data row,
 * synthesises a zero-step row for every missing minute.
 */
module GapFiller {
  import opened Wrappers
  import opened Calendar
  import opened TimestampText
  import opened Sequences

  /** The exceptions the modelled code can raise. */
  datatype Error =
    | NoDateInName           // IndexError: `date[0]` on an empty match list
    | MissingHeader          // StopIteration: `next(reader)` on an empty file
    | EmptyRow               // IndexError: `row[0]` on a blank CSV line
    | BadTimestamp(text: string)  // ValueError: `strptime` rejects the text
    | Overflow               // OverflowError: a minute past the last representable one

  /** A CSV record as `csv.reader` yields it: its fields as text. */
  type Row = seq<string>

  /** A synthesised record `[next_time, 0]`. */
  datatype FilledRow = FilledRow(timestamp: string, steps: int)

  /** What `main` has produced when it stops: the synthesised rows and the final `last_timestamp`. */
  datatype Outcome = Outcome(synthetic: seq<FilledRow>, lastTimestamp: string)

  // ---------------------------------------------------------------------------
  // get_first_timestamp

  /** `os.path.basename` on POSIX: the text after the last '/'. */
  function Basename(path: string): (b: string)
    ensures '/' !in b
    ensures |b| <= |path| && path[|path| - |b|..] == b
    ensures |b| < |path| ==> path[|path| - |b| - 1] == '/'
    decreases |path|
  {
    if |path| == 0 || path[|path| - 1] == '/' then ""
    else Basename(path[..|path| - 1]) + [path[|path| - 1]]
  }

  /** The pattern `\d{4}-\d{2}-\d{2}` matches at position `i` of `s`. */
  predicate DateAt(s: string, i: int) {
    0 <= i && i + 10 <= |s| &&
    AllDigits(s[i..i + 4]) && s[i + 4] == '-' &&
    AllDigits(s[i + 5..i + 7]) && s[i + 7] == '-' &&
    AllDigits(s[i + 8..i + 10])
  }

  /** The leftmost match of the date pattern at or after `i`: the first element of `re.findall`. */
  function FirstDateFrom(s: string, i: nat): (r: Option<nat>)
    ensures r.Some? ==> i <= r.value && DateAt(s, r.value)
    ensures r.Some? ==> forall j :: i <= j < r.value ==> !DateAt(s, j)
    ensures r.None? ==> forall j :: i <= j ==> !DateAt(s, j)
    decreases |s| - i
  {
    if i + 10 > |s| then None
    else if DateAt(s, i) then Some(i)
    else FirstDateFrom(s, i + 1)
  }

  /** The date pattern matches at `i` and nowhere before it. */
  predicate FirstDateAt(s: string, i: int) {
    DateAt(s, i) && forall j :: 0 <= j < i ==> !DateAt(s, j)
  }

  /** The baseline `YYYY-MM-DDT00:00:00Z` taken from the first date in the file's base name. */
  function GetFirstTimestamp(path: string): (r: Result<string, Error>)
    ensures r.Failure? <==> forall j :: !DateAt(Basename(path), j)
    ensures r.Failure? ==> r.error == NoDateInName
    ensures r.Success? ==>
      exists i :: FirstDateAt(Basename(path), i) && r.value == Basename(path)[i..i + 10] + "T00:00:00Z"
  {
    var name := Basename(path);
    match FirstDateFrom(name, 0)
    case None => Failure(NoDateInName)
    case Some(i) =>
      assert FirstDateAt(name, i);
      Success(name[i..i + 10] + "T00:00:00Z")
  }

  /** Directory components of the path are never searched for the date. */
  lemma DirectoryIgnored(dir: string, name: string)
    requires '/' !in name
    ensures GetFirstTimestamp(dir + "/" + name) == GetFirstTimestamp(name)
  {
    BasenameAfterSlash(dir, name);
    PlainName(name);
  }

  /** The base name of `dir/name` is `name`, whatever `dir` is. */
  lemma {:induction false} BasenameAfterSlash(dir: string, name: string)
    requires '/' !in name
    ensures Basename(dir + "/" + name) == name
    decreases |name|
  {
    if |name| > 0 {
      var path := dir + "/" + name;
      var init := name[..|name| - 1];
      assert path[..|path| - 1] == dir + "/" + init;
      assert path[|path| - 1] == name[|name| - 1] != '/';
      assert Basename(path) == Basename(dir + "/" + init) + [name[|name| - 1]];
      BasenameAfterSlash(dir, init);
      assert name == init + [name[|name| - 1]];
    }
  }

  /** A name without '/' is its own base name. */
  lemma {:induction false} PlainName(name: string)
    requires '/' !in name
    ensures Basename(name) == name
    decreases |name|
  {
    if |name| > 0 {
      var init := name[..|name| - 1];
      PlainName(init);
      assert name == init + [name[|name| - 1]];
    }
  }

  /** For a name without '/', the baseline is read from the name's first date. */
  lemma FirstTimestampOfPlainName(name: string, i: nat)
    requires '/' !in name && FirstDateFrom(name, 0) == Some(i)
    ensures GetFirstTimestamp(name) == Success(name[i..i + 10] + "T00:00:00Z")
  {
    PlainName(name);
  }

  // ---------------------------------------------------------------------------
  // need_complement and next_timestamp

  /**
   * `need_complement(last_timestamp, current_timestamp)`: both texts are parsed,
   * the current one first, and the answer is whether the current instant lies
   * more than one minute after the last one.
   */
  function NeedComplement(lastTs: string, currentTs: string): (r: Result<bool, Error>)
    ensures ParseTimestamp(currentTs).None? ==> r == Failure(BadTimestamp(currentTs))
    ensures ParseTimestamp(currentTs).Some? && ParseTimestamp(lastTs).None? ==> r == Failure(BadTimestamp(lastTs))
    ensures r.Success? <==> ParseTimestamp(currentTs).Some? && ParseTimestamp(lastTs).Some?
  {
    match ParseTimestamp(currentTs)
    case None => Failure(BadTimestamp(currentTs))
    case Some(current) =>
      match ParseTimestamp(lastTs)
      case None => Failure(BadTimestamp(lastTs))
      case Some(last) => Success(Seconds(current) - Seconds(last) > 60)
  }

  /**
   * In calendar terms, a gap exists exactly when the minute after `last` exists
   * and still comes strictly before `current`.
   */
  lemma NeedComplementByCalendar(lastTs: string, currentTs: string)
    requires ParseTimestamp(lastTs).Some? && ParseTimestamp(currentTs).Some?
    ensures
      var last, current := ParseTimestamp(lastTs).value, ParseTimestamp(currentTs).value;
      NeedComplement(lastTs, currentTs) ==
        Success(PlusOneMinute(last).Some? && Before(PlusOneMinute(last).value, current))
  {
    var last, current := ParseTimestamp(lastTs).value, ParseTimestamp(currentTs).value;
    PlusOneMinuteAdvances(last);
    if Seconds(current) - Seconds(last) > 60 {
      PlusOneMinuteDefined(last, current);
    }
    if PlusOneMinute(last).Some? {
      SecondsOrder(PlusOneMinute(last).value, current);
    }
  }

  /** Equal instants and instants one minute apart are no gap. */
  lemma NoGapWithinAMinute(lastTs: string, currentTs: string)
    requires ParseTimestamp(lastTs).Some? && ParseTimestamp(currentTs).Some?
    requires
      var last, current := ParseTimestamp(lastTs).value, ParseTimestamp(currentTs).value;
      current == last || PlusOneMinute(last) == Some(current)
    ensures NeedComplement(lastTs, currentTs) == Success(false)
  {
    PlusOneMinuteAdvances(ParseTimestamp(lastTs).value);
  }

  /** A row earlier than `last` (out of order) is no gap either, and raises nothing. */
  lemma OutOfOrderIsNoGap(lastTs: string, currentTs: string)
    requires ParseTimestamp(lastTs).Some? && ParseTimestamp(currentTs).Some?
    requires Before(ParseTimestamp(currentTs).value, ParseTimestamp(lastTs).value)
    ensures NeedComplement(lastTs, currentTs) == Success(false)
  {
    SecondsOrder(ParseTimestamp(currentTs).value, ParseTimestamp(lastTs).value);
  }

  /**
   * `next_timestamp(timestamp)`: the text of the instant one minute later, with
   * the seconds kept; fails on unparsable text and past the last representable minute.
   */
  function NextTimestamp(ts: string): (r: Result<string, Error>)
    ensures ParseTimestamp(ts).None? ==> r == Failure(BadTimestamp(ts))
    ensures ParseTimestamp(ts).Some? ==>
      var t := ParseTimestamp(ts).value;
      (r.Failure? <==> IsLastMinute(t)) && (r.Failure? ==> r.error == Overflow)
    ensures r.Success? ==>
      var t := ParseTimestamp(ts).value;
      ParseTimestamp(r.value).Some? &&
      Seconds(ParseTimestamp(r.value).value) == Seconds(t) + 60 &&
      ParseTimestamp(r.value).value.second == t.second
  {
    match ParseTimestamp(ts)
    case None => Failure(BadTimestamp(ts))
    case Some(t) =>
      PlusOneMinuteAdvances(t);
      match PlusOneMinute(t)
      case None => Failure(Overflow)
      case Some(u) =>
        ParseFormat(u);
        Success(FormatTimestamp(u))
  }

  /** Consecutive minutes are never a gap. */
  lemma NextIsNoGap(ts: string)
    requires NextTimestamp(ts).Success?
    ensures NeedComplement(ts, NextTimestamp(ts).value) == Success(false)
  {
  }

  // ---------------------------------------------------------------------------
  // The fill loop of main

  /**
   * The instants the `while need_complement(...)` loop fills in between `last`
   * and `current`: the minute after `last`, and so on, while `current` is still
   * more than a minute ahead.
   */
  function FillInstants(last: DateTime, current: DateTime): (instants: seq<DateTime>)
    requires Valid(last) && Valid(current)
    ensures forall i :: 0 <= i < |instants| ==> Valid(instants[i])
    decreases Seconds(current) - Seconds(last)
  {
    if Seconds(current) - Seconds(last) > 60 then
      PlusOneMinuteDefined(last, current);
      PlusOneMinuteAdvances(last);
      var next := PlusOneMinute(last).value;
      [next] + FillInstants(next, current)
    else
      []
  }

  /** The rows `[t, 0]` the loop emits for the instants `t`. */
  function ZeroRows(instants: seq<DateTime>): (rows: seq<FilledRow>)
    ensures |rows| == |instants|
    decreases |instants|
  {
    if |instants| == 0 then []
    else
      var n := |instants| - 1;
      ZeroRows(instants[..n]) + [FilledRow(FormatTimestamp(instants[n]), 0)]
  }

  /** The rows synthesised between `last` and `current`. */
  function SyntheticRows(last: DateTime, current: DateTime): seq<FilledRow>
    requires Valid(last) && Valid(current)
  {
    ZeroRows(FillInstants(last, current))
  }

  /** The i-th filled instant (from 0) is exactly i + 1 minutes after `last`. */
  lemma {:induction false} FillInstantAt(last: DateTime, current: DateTime, i: nat)
    requires Valid(last) && Valid(current) && i < |FillInstants(last, current)|
    ensures Seconds(FillInstants(last, current)[i]) == Seconds(last) + 60 * (i + 1)
    decreases i
  {
    FillStep(last, current);
    if i > 0 {
      var next := PlusOneMinute(last).value;
      FillInstantAt(next, current, i - 1);
    }
  }

  /** The filled instants are spaced one minute apart, the first one a minute after `last`. */
  lemma FillInstantsSpaced(last: DateTime, current: DateTime)
    requires Valid(last) && Valid(current)
    ensures var instants := FillInstants(last, current);
      forall i :: 0 <= i < |instants| ==> Seconds(instants[i]) == Seconds(last) + 60 * (i + 1)
  {
    forall i | 0 <= i < |FillInstants(last, current)|
      ensures Seconds(FillInstants(last, current)[i]) == Seconds(last) + 60 * (i + 1)
    {
      FillInstantAt(last, current, i);
    }
  }

  /**
   * How many instants are filled: none unless `current` is more than a minute
   * ahead; afterwards `current` lies at most one minute (and, when it is later
   * than `last` at all, strictly) after the last filled instant.
   */
  lemma {:induction false} FillInstantsCount(last: DateTime, current: DateTime)
    requires Valid(last) && Valid(current)
    ensures
      var gap := Seconds(current) - Seconds(last);
      |FillInstants(last, current)| == (if gap > 60 then (gap - 1) / 60 else 0)
    ensures
      var gap := Seconds(current) - Seconds(last);
      gap > 0 ==> 0 < gap - 60 * |FillInstants(last, current)| <= 60
    decreases Seconds(current) - Seconds(last)
  {
    var gap := Seconds(current) - Seconds(last);
    if gap > 60 {
      PlusOneMinuteDefined(last, current);
      PlusOneMinuteAdvances(last);
      var next := PlusOneMinute(last).value;
      FillInstantsCount(next, current);
      var rest := gap - 60;
      if rest > 60 {
        assert (gap - 1) / 60 == (rest - 1) / 60 + 1;
      }
    }
  }

  /** For minute-aligned input k >= 1 minutes apart, exactly k - 1 rows are synthesised. */
  lemma AlignedGapCount(last: DateTime, current: DateTime, k: int)
    requires Valid(last) && Valid(current) && k >= 1
    requires Seconds(current) == Seconds(last) + 60 * k
    ensures |SyntheticRows(last, current)| == k - 1
  {
    FillInstantsCount(last, current);
    if k > 1 {
      assert 60 * k - 1 == 60 * (k - 1) + 59;
    }
  }

  /** The synthesised rows close the gap: the real row is no longer a gap after the last of them. */
  lemma SyntheticRowsCloseGap(last: DateTime, current: DateTime)
    requires Valid(last) && Valid(current)
    requires |SyntheticRows(last, current)| > 0
    ensures
      var rows := SyntheticRows(last, current);
      NeedComplement(rows[|rows| - 1].timestamp, FormatTimestamp(current)) == Success(false)
  {
    FillInstantsCount(last, current);
    FillInstantsSpaced(last, current);
    var instants := FillInstants(last, current);
    var final := instants[|instants| - 1];
    ParseFormat(current);
    ParseFormat(final);
    assert Seconds(current) - Seconds(final) <= 60;
  }

  /** One turn of the fill loop: the minute after `last` exists, is filled first, and the rest follows from it. */
  lemma FillStep(last: DateTime, current: DateTime)
    requires Valid(last) && Valid(current) && Seconds(current) - Seconds(last) > 60
    ensures PlusOneMinute(last).Some?
    ensures
      var next := PlusOneMinute(last).value;
      Valid(next) && Seconds(next) == Seconds(last) + 60 &&
      FillInstants(last, current) == [next] + FillInstants(next, current)
  {
    PlusOneMinuteDefined(last, current);
    PlusOneMinuteAdvances(last);
  }

  /** What the fill loop yields for `last_timestamp` and `row[0]`. */
  function ExpectedFill(lastTs: string, rowTs: string): Result<seq<FilledRow>, Error> {
    match ParseTimestamp(rowTs)
    case None => Failure(BadTimestamp(rowTs))
    case Some(current) =>
      match ParseTimestamp(lastTs)
      case None => Failure(BadTimestamp(lastTs))
      case Some(last) => Success(SyntheticRows(last, current))
  }

  /** From midnight to 00:03 of the same day, the instants 00:01 and 00:02 are filled. */
  lemma MidnightInstants(midnight: DateTime)
    requires Valid(midnight) && midnight.hour == 0 && midnight.minute == 0 && midnight.second == 0
    ensures FillInstants(midnight, midnight.(minute := 3)) == [midnight.(minute := 1), midnight.(minute := 2)]
  {
    var m1, m2, m3 := midnight.(minute := 1), midnight.(minute := 2), midnight.(minute := 3);
    assert Seconds(m1) == Seconds(midnight) + 60;
    assert Seconds(m2) == Seconds(midnight) + 120;
    assert Seconds(m3) == Seconds(midnight) + 180;
    FillStep(midnight, m3);
    FillStep(m1, m3);
    assert FillInstants(m2, m3) == [];
  }

  /** On formatted instants, the fill is the one between the instants themselves. */
  lemma ExpectedFillOfFormatted(last: DateTime, current: DateTime)
    requires Valid(last) && Valid(current)
    ensures ExpectedFill(FormatTimestamp(last), FormatTimestamp(current)) == Success(SyntheticRows(last, current))
  {
    ParseFormat(last);
    ParseFormat(current);
  }

  /** The rows for two instants, spelt out. */
  lemma ZeroRowsPair(a: DateTime, b: DateTime)
    ensures ZeroRows([a, b]) == [FilledRow(FormatTimestamp(a), 0), FilledRow(FormatTimestamp(b), 0)]
  {
    assert [a, b][..1] == [a];
    assert [a][..0] == [];
  }

  /**
   * For every day: with the baseline at midnight and the first row at 00:03,
   * the rows 00:01 and 00:02 are synthesised.
   */
  lemma MidnightExample(midnight: DateTime)
    requires Valid(midnight) && midnight.hour == 0 && midnight.minute == 0 && midnight.second == 0
    ensures
      ExpectedFill(FormatTimestamp(midnight), FormatTimestamp(midnight.(minute := 3))) ==
      Success([FilledRow(FormatTimestamp(midnight.(minute := 1)), 0),
               FilledRow(FormatTimestamp(midnight.(minute := 2)), 0)])
  {
    ExpectedFillOfFormatted(midnight, midnight.(minute := 3));
    MidnightInstants(midnight);
    ZeroRowsPair(midnight.(minute := 1), midnight.(minute := 2));
  }

  /** On a text that parses, `next_timestamp` gives a text that parses to the minute after it. */
  lemma NextOfParsed(ts: string, last: DateTime)
    requires ParseTimestamp(ts) == Some(last) && !IsLastMinute(last)
    ensures PlusOneMinute(last).Some?
    ensures NextTimestamp(ts).Success? && ParseTimestamp(NextTimestamp(ts).value) == PlusOneMinute(last)
  {
    PlusOneMinuteAdvances(last);
    SecondsOrder(ParseTimestamp(NextTimestamp(ts).value).value, PlusOneMinute(last).value);
  }

  /** One turn of the loop moves the minute after `last` from the instants still to fill to those emitted. */
  lemma FillInstantsTurn(first: DateTime, current: DateTime, last: DateTime, emitted: seq<DateTime>)
    requires Valid(first) && Valid(current) && Valid(last)
    requires Seconds(current) - Seconds(last) > 60
    requires FillInstants(first, current) == emitted + FillInstants(last, current)
    ensures PlusOneMinute(last).Some?
    ensures
      var next := PlusOneMinute(last).value;
      Valid(next) && Seconds(next) == Seconds(last) + 60 && !IsLastMinute(last) &&
      FillInstants(first, current) == (emitted + [next]) + FillInstants(next, current)
  {
    FillStep(last, current);
    PlusOneMinuteAdvances(last);
    var next := PlusOneMinute(last).value;
    AppendAssoc(emitted, [next], FillInstants(next, current));
  }

  /** `rows` are rows `[t, 0]` whose texts parse to the instants `t` of `instants`, in order. */
  predicate Stamps(rows: seq<FilledRow>, instants: seq<DateTime>)
    decreases |rows|
  {
    |rows| == |instants| &&
    (|rows| > 0 ==>
      Stamps(rows[..|rows| - 1], instants[..|instants| - 1]) &&
      rows[|rows| - 1].steps == 0 &&
      ParseTimestamp(rows[|rows| - 1].timestamp) == Some(instants[|instants| - 1]))
  }

  /** Emitting a row for one more instant keeps the rows stamped. */
  lemma StampsAppend(rows: seq<FilledRow>, instants: seq<DateTime>, ts: string, t: DateTime)
    requires Stamps(rows, instants) && ParseTimestamp(ts) == Some(t)
    ensures Stamps(rows + [FilledRow(ts, 0)], instants + [t])
  {
    AppendPrefix(rows, FilledRow(ts, 0));
    AppendPrefix(instants, t);
  }

  /** Rows stamped with parsable texts are exactly the rows the instants format to. */
  lemma {:induction false} StampsAreZeroRows(rows: seq<FilledRow>, instants: seq<DateTime>)
    requires Stamps(rows, instants)
    ensures rows == ZeroRows(instants)
    decreases |rows|
  {
    if |rows| > 0 {
      var n := |rows| - 1;
      LastSplit(rows);
      LastSplit(instants);
      StampsAreZeroRows(rows[..n], instants[..n]);
      FormatParse(rows[n].timestamp);
      var row := FilledRow(FormatTimestamp(instants[n]), 0);
      assert rows[n] == row;
      assert ZeroRows(instants) == ZeroRows(instants[..n]) + [row];
    }
  }

  /**
   * The state of the fill loop: the row parses to `current`, `last_timestamp`
   * parses to `last`, the rows emitted so far are stamped with the instants
   * `emitted`, and those are the first of the instants to fill after `first`.
   */
  ghost predicate Filling(first: DateTime, current: DateTime, rowTs: string,
                          lastTimestamp: string, last: DateTime,
                          synthetic: seq<FilledRow>, emitted: seq<DateTime>)
  {
    ParseTimestamp(rowTs) == Some(current) && Valid(first) &&
    ParseTimestamp(lastTimestamp) == Some(last) &&
    Stamps(synthetic, emitted) &&
    FillInstants(first, current) == emitted + FillInstants(last, current)
  }

  /** One turn of the loop body keeps the loop state, one minute further on. */
  lemma FillTurn(first: DateTime, current: DateTime, rowTs: string,
                 lastTimestamp: string, last: DateTime,
                 synthetic: seq<FilledRow>, emitted: seq<DateTime>)
    requires Filling(first, current, rowTs, lastTimestamp, last, synthetic, emitted)
    requires Seconds(current) - Seconds(last) > 60
    ensures PlusOneMinute(last).Some? && NextTimestamp(lastTimestamp).Success?
    ensures
      var nextTime, next := NextTimestamp(lastTimestamp).value, PlusOneMinute(last).value;
      Filling(first, current, rowTs, nextTime, next, synthetic + [FilledRow(nextTime, 0)], emitted + [next]) &&
      Seconds(next) == Seconds(last) + 60 &&
      NeedComplement(nextTime, rowTs) == Success(Seconds(current) - Seconds(next) > 60)
  {
    FillInstantsTurn(first, current, last, emitted);
    NextOfParsed(lastTimestamp, last);
    StampsAppend(synthetic, emitted, NextTimestamp(lastTimestamp).value, PlusOneMinute(last).value);
  }

  /**
   * The `while need_complement(last_timestamp, row[0])` loop: it emits
   * `[next_timestamp(last_timestamp), 0]` and advances `last_timestamp` for as
   * long as the row is more than a minute ahead.
   */
  method FillGap(lastTs: string, rowTs: string) returns (r: Result<seq<FilledRow>, Error>)
    ensures r == ExpectedFill(lastTs, rowTs)
  {
    var lastTimestamp := lastTs;
    var synthetic: seq<FilledRow> := [];
    var gap := NeedComplement(lastTimestamp, rowTs);
    if gap.Failure? {
      return Failure(gap.error);
    }
    ghost var first := ParseTimestamp(lastTs).value;
    ghost var current := ParseTimestamp(rowTs).value;
    ghost var last := first;
    ghost var emitted: seq<DateTime> := [];
    AppendEmptyLeft(FillInstants(first, current));
    while gap.value
      invariant Filling(first, current, rowTs, lastTimestamp, last, synthetic, emitted)
      invariant gap == Success(Seconds(current) - Seconds(last) > 60)
      decreases Seconds(current) - Seconds(last)
    {
      FillTurn(first, current, rowTs, lastTimestamp, last, synthetic, emitted);
      ghost var next := PlusOneMinute(last).value;
      var nextTime := NextTimestamp(lastTimestamp).value;
      var complementRow := FilledRow(nextTime, 0);
      synthetic := synthetic + [complementRow];
      lastTimestamp := nextTime;
      emitted := emitted + [next];
      last := next;
      gap := NeedComplement(lastTimestamp, rowTs);
    }
    AppendEmpty(emitted);
    StampsAreZeroRows(synthetic, emitted);
    return Success(synthetic);
  }

  /**
   * The body of `main` after the file is open: derive the baseline from the
   * path, drop the header line, and run the fill loop for the first data row
   * only (the loop over the rows breaks after one iteration).
   */
  method ProcessExport(path: string, lines: seq<Row>) returns (r: Result<Outcome, Error>)
    ensures GetFirstTimestamp(path).Failure? ==> r == Failure(NoDateInName)
    ensures GetFirstTimestamp(path).Success? && |lines| == 0 ==> r == Failure(MissingHeader)
    ensures GetFirstTimestamp(path).Success? && |lines| == 1 ==>
      r == Success(Outcome([], GetFirstTimestamp(path).value))
    ensures GetFirstTimestamp(path).Success? && |lines| >= 2 && |lines[1]| == 0 ==> r == Failure(EmptyRow)
    ensures GetFirstTimestamp(path).Success? && |lines| >= 2 && |lines[1]| > 0 ==>
      var fill := ExpectedFill(GetFirstTimestamp(path).value, lines[1][0]);
      r == if fill.Failure? then Failure(fill.error) else Success(Outcome(fill.value, lines[1][0]))
  {
    var firstTimestamp := GetFirstTimestamp(path);
    if firstTimestamp.Failure? {
      return Failure(firstTimestamp.error);
    }
    if |lines| == 0 {
      return Failure(MissingHeader);
    }
    var rows := lines[1..];
    var lastTimestamp := firstTimestamp.value;
    var synthetic: seq<FilledRow> := [];
    if |rows| > 0 {
      var row := rows[0];
      if |row| == 0 {
        return Failure(EmptyRow);
      }
      var fill := FillGap(lastTimestamp, row[0]);
      if fill.Failure? {
        return Failure(fill.error);
      }
      synthetic := fill.value;
      lastTimestamp := row[0];
    }
    return Success(Outcome(synthetic, lastTimestamp));
  }
}
