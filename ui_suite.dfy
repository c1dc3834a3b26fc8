/** The `UITests` browser tests with the browser taken out: what the page shows is given as
    input (the roster's birthplace cells, the successive texts of the progress bar, two clock
    samples), and the actions the progress-bar test performs on the page are returned as a
    trace. */
module UiSuite {
  import opened Outcomes
  import opened Sequences
  import opened IntParsing

  // ---------------------------------------------------------------------------------------
  // ScrapeRosterCanadiens
  // ---------------------------------------------------------------------------------------

  /** The text of one row's eighth cell is there and long enough for `Substring(Length - 3)`. */
  predicate Readable(cell: Option<string>)
  {
    cell.Some? && |cell.value| >= 3
  }

  /** The exception reading `cell` throws: a null cell or text fails on the member access, a
      text shorter than three characters on `Substring`. */
  function CellFailure(cell: Option<string>): Failure
  {
    if cell.None? then NullReference else ArgumentOutOfRange
  }

  /** `place` is made of exactly the last three characters of `text`. */
  predicate IsLastThree(place: string, text: string)
  {
    |place| == 3 && |text| >= 3 && text == text[..|text| - 3] + place
  }

  /** The `foreach` over the roster rows: one birthplace code per row, or the exception of the
      first row that cannot be read. */
  method ExtractBirthPlaces(cells: seq<Option<string>>) returns (r: Result<seq<string>>)
    ensures r.Success? <==> forall i :: 0 <= i < |cells| ==> Readable(cells[i])
    ensures r.Success? ==> |r.value| == |cells|
                           && forall i :: 0 <= i < |cells| ==> IsLastThree(r.value[i], cells[i].value)
    ensures r.Failure? ==> exists k :: 0 <= k < |cells| && !Readable(cells[k])
                                       && (forall i :: 0 <= i < k ==> Readable(cells[i]))
                                       && r.error == CellFailure(cells[k])
  {
    var birthPlaces: seq<string> := [];
    var i := 0;
    while i < |cells|
      invariant 0 <= i <= |cells|
      invariant |birthPlaces| == i
      invariant forall j :: 0 <= j < i ==> Readable(cells[j]) && IsLastThree(birthPlaces[j], cells[j].value)
    {
      var cellText := cells[i];
      if cellText.None? {
        return Failure(NullReference);
      }
      var text := cellText.value;
      if |text| < 3 {
        return Failure(ArgumentOutOfRange);
      }
      birthPlaces := birthPlaces + [text[|text| - 3..]];
      i := i + 1;
    }
    return Success(birthPlaces);
  }

  /** The assertion `canCount > usaCount` over the extracted codes. */
  function RosterVerdict(birthPlaces: seq<string>): (v: Verdict)
    ensures v == Passed <==> multiset(birthPlaces)["CAN"] > multiset(birthPlaces)["USA"]
    ensures v != Passed ==> v == AssertionFailed
  {
    var canCount := Occurrences(birthPlaces, "CAN");
    var usaCount := Occurrences(birthPlaces, "USA");
    if canCount > usaCount then Passed else AssertionFailed
  }

  /** The two counts never add up to more than the number of rows, so a roster in which more
      than half of the rows are "CAN" passes. */
  lemma RosterMajorityPasses(birthPlaces: seq<string>)
    ensures Occurrences(birthPlaces, "CAN") + Occurrences(birthPlaces, "USA") <= |birthPlaces|
    ensures 2 * Occurrences(birthPlaces, "CAN") > |birthPlaces| ==> RosterVerdict(birthPlaces) == Passed
  {
    OccurrencesOfTwo(birthPlaces, "CAN", "USA");
  }

  method ScrapeRosterCanadiens(cells: seq<Option<string>>) returns (v: Verdict)
    ensures v.Threw? <==> exists i :: 0 <= i < |cells| && !Readable(cells[i])
    ensures v.Threw? ==> exists k :: 0 <= k < |cells| && !Readable(cells[k])
                                     && (forall i :: 0 <= i < k ==> Readable(cells[i]))
                                     && v.error == CellFailure(cells[k])
    ensures v == Passed <==>
      && (forall i :: 0 <= i < |cells| ==> Readable(cells[i]))
      && exists places: seq<string> ::
           && |places| == |cells|
           && (forall i :: 0 <= i < |cells| ==> IsLastThree(places[i], cells[i].value))
           && RosterVerdict(places) == Passed
  {
    var extracted := ExtractBirthPlaces(cells);
    if extracted.Failure? {
      return Threw(extracted.error);
    }
    var birthPlaces := extracted.value;
    v := RosterVerdict(birthPlaces);
    forall places: seq<string> |
      && |places| == |cells|
      && (forall i :: 0 <= i < |cells| ==> IsLastThree(places[i], cells[i].value))
      ensures places == birthPlaces
    {
      LastThreeUnique(cells, places, birthPlaces);
    }
  }

  lemma LastThreeUnique(cells: seq<Option<string>>, a: seq<string>, b: seq<string>)
    requires |a| == |b| == |cells|
    requires forall i :: 0 <= i < |cells| ==> cells[i].Some? && IsLastThree(a[i], cells[i].value)
    requires forall i :: 0 <= i < |cells| ==> IsLastThree(b[i], cells[i].value)
    ensures a == b
  {
    forall i | 0 <= i < |cells| ensures a[i] == b[i] {
      var text := cells[i].value;
      assert a[i] == text[|text| - 3..];
      assert b[i] == text[|text| - 3..];
    }
  }

  // ---------------------------------------------------------------------------------------
  // SampleLoadDelayPage
  // ---------------------------------------------------------------------------------------

  const MaxLoadTimeMs := 10000
  /** `DateTime` counts time in ticks of 100 ns. */
  const TicksPerMillisecond := 10000

  /** `(endTime - startTime).TotalMilliseconds < expected_maxLoadTime` for two clock samples
      given in ticks. */
  function LoadDelayVerdict(startTicks: int, endTicks: int): (v: Verdict)
    ensures v == Passed <==> endTicks - startTicks < MaxLoadTimeMs * TicksPerMillisecond
    ensures v != Passed ==> v == AssertionFailed
  {
    var totalMilliseconds := (endTicks - startTicks) as real / TicksPerMillisecond as real;
    if totalMilliseconds < MaxLoadTimeMs as real then Passed else AssertionFailed
  }

  /** A page that loads in 500 ms passes; 10000 ms is already over the budget. */
  lemma LoadDelayBoundary(start: int)
    ensures LoadDelayVerdict(start, start + 500 * TicksPerMillisecond) == Passed
    ensures LoadDelayVerdict(start, start + 10000 * TicksPerMillisecond) == AssertionFailed
    ensures LoadDelayVerdict(start, start + 10001 * TicksPerMillisecond) == AssertionFailed
  {
  }

  // ---------------------------------------------------------------------------------------
  // SampleProgressBarPage
  // ---------------------------------------------------------------------------------------

  const ProgressLimit := 75

  /** What the test does to the page after pressing Start: read `div#progressBar`, click
      `#stopButton`, read `p#result`. */
  datatype PageAction = ReadProgressBar | ClickStop | ReadResult

  function NotPercent(c: char): bool
  {
    c != '%'
  }

  /** `pbText?.Replace("%", "")`: a null text stays null. */
  function StripPercent(text: Option<string>): (r: Option<string>)
    ensures r.None? <==> text.None?
  {
    match text
    case None => None
    case Some(t) => Some(RemovePercent(t))
  }

  /** `Replace("%", "")` on a present text: every `%` removed, one character after another.
      Written out rather than as `Filter(t, NotPercent)` so that the polling proofs, which see
      it through `ProgressValue`, do not also see `Filter`'s quantified contract;
      `RemovePercentIsFilter` proves the two equal. */
  function RemovePercent(t: string): string
  {
    if t == [] then [] else (if t[0] == '%' then [] else [t[0]]) + RemovePercent(t[1..])
  }

  /** Removing the `%` signs is the order-keeping filter that keeps every other character. */
  lemma {:induction false} RemovePercentIsFilter(t: string)
    ensures RemovePercent(t) == Filter(t, NotPercent)
  {
    if t != [] {
      RemovePercentIsFilter(t[1..]);
    }
  }

  /** The stripped text has no `%` left, keeps every other character in order, and stripping
      again changes nothing. */
  lemma StripPercentRemovesEverySign(t: string)
    ensures StripPercent(None) == None
    ensures StripPercent(Some(t)).Some?
    ensures '%' !in StripPercent(Some(t)).value
    ensures forall i :: 0 <= i < |t| && t[i] != '%' ==> t[i] in StripPercent(Some(t)).value
    ensures StripPercent(StripPercent(Some(t))) == StripPercent(Some(t))
    ensures '%' !in t ==> StripPercent(Some(t)) == Some(t)
  {
    RemovePercentIsFilter(t);
    var r := Filter(t, NotPercent);
    RemovePercentIsFilter(r);
    assert forall i :: 0 <= i < |r| ==> NotPercent(r[i]);
    FilterKeepsAll(r, NotPercent);
    if '%' !in t {
      FilterKeepsAll(t, NotPercent);
    }
  }

  /** Stripping works piece by piece: the characters that are kept stay in their order. */
  lemma StripPercentConcat(a: string, b: string)
    ensures StripPercent(Some(a + b)).value == StripPercent(Some(a)).value + StripPercent(Some(b)).value
  {
    RemovePercentIsFilter(a);
    RemovePercentIsFilter(b);
    RemovePercentIsFilter(a + b);
    FilterConcat(a, b, NotPercent);
  }

  /** `int.TryParse(pbText, out pb)`: `pb` is the parsed value, or 0 when parsing fails. */
  function ProgressValue(text: Option<string>): (v: int)
    ensures text.None? ==> v == 0
  {
    match TryParseInt32(StripPercent(text))
    case None => 0
    case Some(n) => n
  }

  /** A progress text `n%` reads as `n`. */
  lemma PercentTextReadsAsNumber(n: int)
    requires Int32Min <= n <= Int32Max
    ensures ProgressValue(Some(Int32Text(n) + "%")) == n
  {
    var t := Int32Text(n);
    Int32TextCharacters(n);
    assert forall i :: 0 <= i < |t| ==> NotPercent(t[i]);
    FilterSnoc(t, '%', NotPercent);
    assert !NotPercent('%');
    FilterKeepsAll(t, NotPercent);
    assert Filter(t + "%", NotPercent) == t + [];
    assert t + [] == t;
    RemovePercentIsFilter(t + "%");
    assert StripPercent(Some(t + "%")).value == Filter(t + "%", NotPercent);
    assert StripPercent(Some(t + "%")) == Some(t);
    ParsesInt32Text(n);
  }

  /** A null text, or one holding a character that is neither white space, a digit, a sign nor
      `%`, reads as 0 instead of failing the test. */
  lemma UnparsableReadsAsZero(text: Option<string>, i: nat)
    requires text.Some? ==> i < |text.value|
    requires text.Some? ==> var c := text.value[i];
      !IsWhite(c) && !IsDigit(c) && c != '-' && c != '+' && c != '%'
    ensures ProgressValue(text) == 0
  {
    if text.Some? {
      var c := text.value[i];
      var stripped := StripPercent(text).value;
      RemovePercentIsFilter(text.value);
      assert NotPercent(c);
      assert c in stripped;
      var k :| 0 <= k < |stripped| && stripped[k] == c;
      RejectsNonNumeric(stripped, k);
    }
  }

  /** The value `pb` takes for each reading in turn. */
  function ProgressValues(readings: seq<Option<string>>): (values: seq<int>)
    ensures |values| == |readings|
    ensures forall i :: 0 <= i < |readings| ==> values[i] == ProgressValue(readings[i])
  {
    seq(|readings|, i requires 0 <= i < |readings| => ProgressValue(readings[i]))
  }

  /** The index of the first value at or above `limit`, or the number of values. */
  function FirstAtLeast(values: seq<int>, limit: int): (k: nat)
    ensures k <= |values|
    ensures forall j :: 0 <= j < k ==> values[j] < limit
    ensures k < |values| ==> values[k] >= limit
  {
    if values == [] then 0
    else if values[0] >= limit then 0
    else 1 + FirstAtLeast(values[1..], limit)
  }

  /** The number of readings before the first one that reaches `limit`, or all of them. */
  function FirstReached(readings: seq<Option<string>>, limit: int): (k: nat)
    ensures k <= |readings|
    ensures forall j :: 0 <= j < k ==> ProgressValue(readings[j]) < limit
    ensures k < |readings| ==> ProgressValue(readings[k]) >= limit
  {
    FirstAtLeast(ProgressValues(readings), limit)
  }

  function Reads(n: nat): (r: seq<PageAction>)
    ensures |r| == n && forall i :: 0 <= i < n ==> r[i] == ReadProgressBar
  {
    seq(n, _ => ReadProgressBar)
  }

  /** The actions of the polling loop when `pb` takes the successive `values`: read until a
      value reaches `limit`, then click Stop and read the result. */
  function Trace(values: seq<int>, limit: int): (trace: seq<PageAction>)
    ensures |trace| <= |values| + 2
    ensures trace == Reads(|trace|) || (|trace| >= 3 && trace == Reads(|trace| - 2) + [ClickStop, ReadResult])
    ensures ClickStop !in trace ==> trace == Reads(|values|)
  {
    var k := FirstAtLeast(values, limit);
    if k < |values| then Reads(k + 1) + [ClickStop, ReadResult] else Reads(|values|)
  }

  /** Stop is clicked at most once, right after the first value that reaches the limit, and
      only when some value does. */
  lemma StopOnlyAfterLimit(values: seq<int>, limit: int)
    ensures var trace := Trace(values, limit);
      forall i :: 0 <= i < |trace| && trace[i] == ClickStop ==>
        && 1 <= i <= |values|
        && i == |trace| - 2
        && values[i - 1] >= limit
        && forall j :: 0 <= j < i - 1 ==> values[j] < limit
    ensures ClickStop in Trace(values, limit) <==> exists j :: 0 <= j < |values| && values[j] >= limit
  {
    var k := FirstAtLeast(values, limit);
    var trace := Trace(values, limit);
    if k < |values| {
      assert trace[k + 1] == ClickStop;
      forall i | 0 <= i < |trace| && trace[i] == ClickStop ensures i == k + 1 {
      }
    } else {
      forall i | 0 <= i < |trace| ensures trace[i] == ReadProgressBar {
      }
    }
  }

  /** The actions of `SampleProgressBarPage` after Start, when the progress bar shows `readings`
      one after another. The loop has no bound of its own: when the readings run out before
      one reaches the limit, the test is still polling and the test runner's timeout ends it. */
  function PollTrace(readings: seq<Option<string>>, limit: int): (trace: seq<PageAction>)
    ensures |trace| <= |readings| + 2
    ensures trace == Reads(|trace|) || (|trace| >= 3 && trace == Reads(|trace| - 2) + [ClickStop, ReadResult])
    ensures ClickStop !in trace ==> trace == Reads(|readings|)
  {
    Trace(ProgressValues(readings), limit)
  }

  /** The stop button is clicked at most once and only right after the first reading that
      reaches the limit; every reading before it is below the limit. Without such a reading
      nothing but reads happens. */
  lemma StopOnlyAfterThreshold(readings: seq<Option<string>>, limit: int)
    ensures var trace := PollTrace(readings, limit);
      forall i :: 0 <= i < |trace| && trace[i] == ClickStop ==>
        && 1 <= i <= |readings|
        && i == |trace| - 2
        && ProgressValue(readings[i - 1]) >= limit
        && forall j :: 0 <= j < i - 1 ==> ProgressValue(readings[j]) < limit
    ensures ClickStop in PollTrace(readings, limit)
        <==> exists j :: 0 <= j < |readings| && ProgressValue(readings[j]) >= limit
  {
    var values := ProgressValues(readings);
    StopOnlyAfterLimit(values, limit);
    assert forall j :: 0 <= j < |readings| ==> ProgressValue(readings[j]) == values[j];
  }

  /** The progress bar showing `n%` for each value `n` in turn. */
  function PercentReadings(values: seq<int>): (readings: seq<Option<string>>)
    ensures |readings| == |values|
    ensures forall i :: 0 <= i < |values| ==> readings[i] == Some(Int32Text(values[i]) + "%")
  {
    seq(|values|, i requires 0 <= i < |values| => Some(Int32Text(values[i]) + "%"))
  }

  /** The first reading at or above the limit is the one `FirstReached` finds. */
  lemma FirstReachedIsFirst(readings: seq<Option<string>>, limit: int, k: nat)
    requires k < |readings| && ProgressValue(readings[k]) >= limit
    requires forall j :: 0 <= j < k ==> ProgressValue(readings[j]) < limit
    ensures FirstReached(readings, limit) == k
  {
  }

  /** When the bar shows percentages and the first one at or above the limit is at index `k`,
      the test reads `k + 1` times, clicks Stop once and reads the result. */
  lemma PollPercentReadings(values: seq<int>, limit: int, k: nat)
    requires forall i :: 0 <= i < |values| ==> Int32Min <= values[i] <= Int32Max
    requires k < |values| && values[k] >= limit
    requires forall j :: 0 <= j < k ==> values[j] < limit
    ensures PollTrace(PercentReadings(values), limit) == Reads(k + 1) + [ClickStop, ReadResult]
  {
    var readings := PercentReadings(values);
    forall j | 0 <= j <= k ensures ProgressValue(readings[j]) == values[j] {
      PercentTextReadsAsNumber(values[j]);
    }
    FirstReachedIsFirst(readings, limit, k);
  }

  /** One pass of the loop body after the read: strip the `%` signs and parse. The loop calls
      this method, whose contract is `ProgressValue`, so that the parse is verified once here
      rather than inside the loop's proof. */
  method ReadProgress(text: Option<string>) returns (pb: int)
    ensures pb == ProgressValue(text)
  {
    var pbText := StripPercent(text);
    pb := match TryParseInt32(pbText) case None => 0 case Some(n) => n;
  }

  /** `SampleProgressBarPage` after Start: poll until a reading reaches `pbLimit`, then click
      Stop and read the result. */
  method SampleProgressBarPage(readings: seq<Option<string>>) returns (actions: seq<PageAction>)
    ensures actions == PollTrace(readings, ProgressLimit)
  {
    actions := [];
    var i := 0;
    var reached := false;
    ghost var values := ProgressValues(readings);
    ghost var first := FirstAtLeast(values, ProgressLimit);
    while i < |readings|
      invariant i <= first
      invariant !reached && actions == Reads(i)
    {
      var pbText := readings[i];
      assert Reads(i) + [ReadProgressBar] == Reads(i + 1);
      actions := actions + [ReadProgressBar];
      var pb := ReadProgress(pbText);
      if pb >= ProgressLimit {
        reached := true;
        break;
      }
      i := i + 1;
    }
    if reached {
      assert first == i < |readings|;
      actions := actions + [ClickStop, ReadResult];
      assert actions == Reads(first + 1) + [ClickStop, ReadResult];
      return;
    }
    assert first == |readings|;
  }
}
