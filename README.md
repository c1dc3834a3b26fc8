# NHL API and UI test suites, modelled in Dafny

The repository is two MSTest suites. `APITests` fetches the NHL team list from a REST
endpoint and checks four things about it: the number of teams, the oldest team, the one city
that has two teams, and the eight teams of the Metropolitan division. `UITests` drives a
browser against a roster page and the UI Testing Playground.

This project models the logic of both suites. The HTTP client, the JSON deserializer, the
browser and the clock are taken out and become inputs.

- `outcomes.dfy` (`Outcomes`): `Option`, `Result`, the exceptions the tests can raise, and
  the verdict of a test (`Passed`, `AssertionFailed`, `Threw`).
- `sequences.dfy` (`Sequences`): `Filter` (the order-keeping `Where`) and `Occurrences` (the
  `Count(p => p == x)` tally), with their lemmas.
- `team_model.dfy` (`TeamModel`): the `Team` and `Division` records and the defaults their
  constructors give. It also holds what `GetTeamsAsync` returns for a given response and a
  given behaviour of the deserializer.
- `team_views.dfy` (`TeamViews`): the views the API tests compute over the fetched list.
  - `OrderBy(firstYearOfPlay).First()` is a stable insertion sort. It is proved sorted, a
    permutation and stable, and its first element is the earliest team of minimal year.
  - `GroupBy(location)` is the lookup fold the LINQ implementation performs. It is proved
    equal to a reference definition: one group per distinct location, in order of first
    occurrence, holding exactly the teams at that location, in input order.
  - The shared-location groups, `First(Count == 2)`, the division filter and `CompareCollections`.
- `api_suite.dfy` (`ApiSuite`): the `APITests` class. Its `_teams` field is the `teams` field
  that each test method reassigns. The module also holds the fetch helper, the four test
  methods and the verdict each one reaches.
- `int_parsing.dfy` (`IntParsing`): `int.TryParse(string, out int)` with `NumberStyles.Integer`.
  .NET parses in the current culture; the model takes the invariant culture, with a round-trip lemma against `ToString()`.
- `ui_suite.dfy` (`UiSuite`): the birthplace extraction and CAN/USA tally, the load-time budget,
  and the progress-bar polling loop. The poller is modelled as the trace of page actions it
  performs for a given sequence of progress-bar texts.

Behaviour of the code worth knowing, which the model follows:

- `CompareCollections` compares the counts before comparing contents. So `["a","a"]` against
  `["a"]` is false, although the two lists hold the same distinct names.
- `GetTeamsAsync` returns an empty list when the body is missing or empty. It does not fail.
- The city test takes the first group of exactly two teams with `First`. It does not require
  that group to be the only one of size two. Separately, it asserts that exactly one location
  is shared.
- A team's `division` is never null when the JSON object leaves the member out, because the
  `Team` constructor creates it. An explicit `"division": null` does null it, so `division` is
  an `Option`. The Metropolitan filter then throws `NullReferenceException`.

## Model

| member | source | states |
|---|---|---|
| TeamModel.MaterializeTeam | APITests.cs:164-183 | the division is missing only when the JSON says `null` explicitly; an absent member leaves the default `new Division()` (id 0, null name) |
| TeamModel.Fetched | APITests.cs:131-144 | no response or an empty body gives an empty list; otherwise a deserialized `teams` list is returned as it is, a `null` document gives an empty list, malformed JSON fails with `JsonError` and only it, and a `null` teams list fails with `ArgumentNull` and only it |
| ApiSuite.ApiTests.constructor | APITests.cs:14-19 | the test class starts with an empty team list |
| ApiSuite.ApiTests.GetTeams | APITests.cs:131-144 | building `result` with `AddRange` returns what `Fetched` specifies |
| ApiSuite.ApiTests.Refresh | APITests.cs:25 | `_teams = await GetTeamsAsync()` stores the fetched list, and a throwing fetch leaves `_teams` unchanged |
| ApiSuite.ApiTests.CountOfTeams | APITests.cs:22-37 | a fetch failure is rethrown with `_teams` unchanged; otherwise the test passes iff 32 teams were fetched |
| ApiSuite.ApiTests.OldestTeamIsMontreal | APITests.cs:39-55 | an empty list throws `NoElements`; the test passes iff the earliest team of minimal `firstYearOfPlay` is the Montreal Canadiens, and otherwise fails its assertion |
| ApiSuite.ApiTests.CityWithTwoTeams | APITests.cs:57-90 | a fetch failure is rethrown; otherwise the verdict is `CityWithTwoTeamsVerdict` of the fetched list |
| ApiSuite.ApiTests.MetropolitanDivision | APITests.cs:92-122 | a fetch failure is rethrown; otherwise the verdict is `MetropolitanVerdict` of the fetched list |
| ApiSuite.CityWithTwoTeamsVerdict | APITests.cs:71-89 | passes iff exactly one location is shared, its first group has two teams at New York, and both New York teams are in it; throws `NoElements` (from `First`) iff no shared group has exactly two teams |
| ApiSuite.MetropolitanVerdict | APITests.cs:113-121 | throws `NullReference` iff some team has no division; passes iff every division is present, 8 teams are in Metropolitan and their names compare equal to the expected eight; any other outcome is a failed assertion |
| ApiSuite.Names | APITests.cs:79 | `Select(t => t.name)` has one name per team, in the same order |
| TeamViews.OrderByFirstYear | APITests.cs:50 | `OrderBy(firstYearOfPlay)` yields a list sorted by year that is a permutation of the input |
| TeamViews.OrderByFirstYearStable | APITests.cs:50 | teams that share a year keep their input order after `OrderBy` |
| TeamViews.FirstOldestUnique | APITests.cs:50 | at most one position holds the earliest team of minimal year |
| TeamViews.OldestTeam | APITests.cs:50 | `OrderBy(...).First()` throws iff the list is empty and otherwise returns one of its teams |
| TeamViews.OldestTeamIsFirstMinimal | APITests.cs:50 | `First()` fails with `NoElements` iff the list is empty; otherwise it is the earliest team, in input order, of minimal year |
| TeamViews.GroupByLocation | APITests.cs:75 | `GroupBy(location)` yields no group exactly when the list is empty; `GroupByLocationCorrect` characterises the groups |
| TeamViews.LocationsDistinctAndComplete | APITests.cs:75 | the group keys are distinct, every team's location is a key, and every key is some team's location |
| TeamViews.GroupByLocationCorrect | APITests.cs:75 | `GroupBy(location)` gives one group per distinct location, in order of first occurrence, each holding exactly the teams at that location in input order |
| TeamViews.LocationsInFirstOccurrenceOrder | APITests.cs:75 | the group keys appear in the order in which their locations first occur in the list |
| TeamViews.SharedLocationGroups | APITests.cs:75 | `Where(g => g.Count() > 1)` keeps only groups of more than one team, and no more groups than `GroupBy` made |
| TeamViews.SharedGroupsAreColocated | APITests.cs:75 | every group kept by `Where(Count > 1)` has more than one team, all at one location, and it is exactly the teams at that location in input order |
| TeamViews.SharedGroupsInFirstOccurrenceOrder | APITests.cs:75 | the kept groups come out in order of the first occurrence of their location |
| TeamViews.SharedGroupsAreDisjoint | APITests.cs:75 | no team is in two kept groups |
| TeamViews.SharedGroupsAreComplete | APITests.cs:75 | two teams at the same location are in one kept group together |
| TeamViews.FirstPair | APITests.cs:78 | `First(g => g.Count() == 2)` succeeds iff some group has two teams, and then it is the earliest such group; otherwise it throws `NoElements` |
| TeamViews.TeamsInDivision | APITests.cs:116 | fails with `NullReference` iff some team has no division; otherwise it keeps exactly the teams whose division name matches, in input order |
| TeamViews.ExceptWith | APITests.cs:155-156 | `Except` yields the distinct elements of the first list that are absent from the second |
| TeamViews.Except | APITests.cs:155-156 | `first.Except(second)` holds exactly the elements of `first` missing from `second`, each once |
| TeamViews.ExceptEmptyIffContained | APITests.cs:155-156 | `!a.Except(b).Any()` holds iff every element of `a` is in `b` |
| TeamViews.CompareCollections | APITests.cs:152-157 | true iff the counts are equal and both lists contain the same distinct elements, which is symmetric in its arguments |
| TeamViews.CompareCollectionsIgnoresOrder | APITests.cs:152-157 | two permutations of one list compare equal, in both directions |
| TeamViews.CompareCollectionsIgnoresMultiplicity | APITests.cs:152-157 | `["a","a","b"]` and `["a","b","b"]` differ as multisets but compare equal |
| TeamViews.CompareCollectionsCountsFirst | APITests.cs:154 | any two lists of different lengths compare unequal, `["a","a"]` against `["a"]` included, although they hold the same distinct elements |
| Sequences.Filter | APITests.cs:116 | `Where(p)` keeps exactly the elements that satisfy `p`, and no more elements than the input has |
| Sequences.Occurrences | UITests.cs:32-33 | `Count(p => p == x)` is the multiplicity of `x` and at most the length |
| Sequences.OccurrencesOfTwo | UITests.cs:32-33 | the counts of two different values add up to at most the length |
| UiSuite.ExtractBirthPlaces | UITests.cs:24-30 | one code per row, made of that row's last three characters; otherwise the exception of the first unreadable row (null text, or shorter than three characters) |
| UiSuite.RosterVerdict | UITests.cs:32-35 | passes iff "CAN" occurs more often than "USA" |
| UiSuite.RosterMajorityPasses | UITests.cs:32-35 | `canCount + usaCount` is at most the number of rows, and a roster with more than half CAN passes |
| UiSuite.ScrapeRosterCanadiens | UITests.cs:24-35 | throws iff some cell is unreadable, and then with the exception of the first unreadable cell; passes iff every cell is readable and the last-three-character codes have more CAN than USA |
| UiSuite.LoadDelayVerdict | UITests.cs:96-98 | passes iff the elapsed ticks are under 10000 ms, and fails otherwise |
| UiSuite.LoadDelayBoundary | UITests.cs:82 | 500 ms passes, and 10000 ms and 10001 ms fail, since the comparison is strict |
| UiSuite.StripPercent | UITests.cs:118 | `pbText?.Replace("%", "")` is null iff the text is null |
| UiSuite.StripPercentRemovesEverySign | UITests.cs:118 | `Replace("%", "")` leaves no `%`, keeps every other character, is idempotent and is the identity on text without `%`; a null text stays null |
| UiSuite.RemovePercentIsFilter | UITests.cs:118 | removing every `%` is the order-keeping filter that keeps exactly the other characters |
| UiSuite.StripPercentConcat | UITests.cs:118 | stripping a concatenation is the concatenation of the stripped parts, so the kept characters keep their order |
| UiSuite.ProgressValue | UITests.cs:120-121 | `pb` after `int.TryParse` is 0 for a null text |
| UiSuite.PercentTextReadsAsNumber | UITests.cs:117-121 | the text `n%` reads as `n` for every 32-bit `n` |
| UiSuite.UnparsableReadsAsZero | UITests.cs:120-121 | a null text, or one holding a character that is not white space, a digit, a sign or `%`, reads as 0 instead of failing |
| UiSuite.FirstAtLeast | UITests.cs:123-126 | the index of the first value at or above the limit, every earlier value being below it, or the number of values |
| UiSuite.FirstReached | UITests.cs:114-125 | the index of the first reading at or above the limit, with every earlier reading below it, or the number of readings |
| UiSuite.PollTrace | UITests.cs:114-131 | the test only reads the bar, at most once per reading, and may end by clicking Stop and reading the result; without a Stop click it reads every reading exactly once |
| UiSuite.Trace | UITests.cs:114-131 | for the successive values of `pb`, the test only reads, at most once per value, and may end by clicking Stop and reading the result; without a Stop click it reads once per value |
| UiSuite.StopOnlyAfterLimit | UITests.cs:114-129 | over the values of `pb`, Stop is clicked at most once, right after the first value at or above the limit, and iff such a value exists |
| UiSuite.StopOnlyAfterThreshold | UITests.cs:114-129 | Stop is clicked at most once, right after the first reading at or above the limit, and every earlier reading is below it; Stop is clicked iff some reading reaches the limit |
| UiSuite.PollPercentReadings | UITests.cs:114-129 | for readings `n%` whose first value at or above the limit is at index `k`, the test reads `k + 1` times, then clicks Stop and reads the result |
| UiSuite.SampleProgressBarPage | UITests.cs:113-129 | the polling loop performs exactly the action trace `PollTrace` with limit 75 |
| IntParsing.TrimStartSpec | UITests.cs:121 | leading-white-space trimming drops exactly the white space at the front and leaves a suffix that does not start with white space |
| IntParsing.TrimEndSpec | UITests.cs:121 | trailing-white-space trimming drops exactly the white space at the end and leaves a prefix that does not end with white space |
| IntParsing.TryParseInt32 | UITests.cs:121 | a successful parse is within the 32-bit range |
| IntParsing.ParsedTextHasDigit | UITests.cs:121 | a null text never parses, and a text that parses contains a digit |
| IntParsing.RejectsNonNumeric | UITests.cs:121 | a text with a character that is not white space, a digit or a sign does not parse |
| IntParsing.ParsesInt32Text | UITests.cs:121 | every 32-bit value parses back from its invariant-culture text |

## Left out

- The HTTP request (RestSharp) and JSON deserialization (Newtonsoft.Json) are foreign
  library calls. The response and the deserializer's result for a body are parameters
  (`Response`, `Deserialized`), and `MaterializeTeam` states what the deserializer does to
  a single team.
- Every Playwright call is browser I/O: navigation, load-state waits, clicks, fills and selector
  queries. The roster cells and the progress-bar texts are inputs. The clicks and reads after
  Start are recorded as `PageAction`s.
- The `SampleAppPage` login/logout flow compares fixed strings against page text. It has no logic
  of its own.
- async/await, the MSTest wiring, `PageTest` and `TestContext.WriteLine` are framework
  concerns.
- `DateTime.Now` is a wall clock. The two clock samples are inputs in 100 ns ticks, and
  `TotalMilliseconds` is computed with exact real division, not in double precision.
- `UiSuite.SampleProgressBarPage`: the source loop is `while (true)` with no bound. The model runs
  over a finite sequence of readings. When the readings run out without reaching the limit, it
  stops with only reads. That stands for the test runner's timeout ending a test that is still
  polling.
- `IntParsing.TryParseInt32`: the sign is the invariant culture's `+` or `-`. Culture-specific
  sign strings and the trailing `\0` characters that .NET also tolerates are not modelled.
- A null team `name` or `location` is not modelled; both are strings taken to be present.
  Nulls would change verdicts, not only exceptions: `GroupBy` files the teams with a null
  location under a null key of their own, and `Contains`, `Except` and `Assert.AreEqual` compare
  null names without throwing.
- UiSuite.ExtractBirthPlaces, UiSuite.ScrapeRosterCanadiens: a Dafny `char` is a Unicode scalar
  value, while C#'s `Length` and `Substring` count UTF-16 code units. A cell holding `a` and then U+1F600 (one emoji) has
  length 3 in C# and reads without error, but length 2 in the model, which then reports
  `ArgumentOutOfRange`; for cells outside the Basic Multilingual Plane the last three characters
  differ likewise.
- TeamModel.Fetched: a `null` element inside the `teams` array (`{"teams":[null]}`) cannot be
  represented, since `Document` holds a sequence of `Team` values. In .NET that element makes
  `OrderBy`, `GroupBy` and the division `Where` throw `NullReferenceException`.
