/** The API response model of APITests.cs: `Team`, `Division`, the defaults their C#
    constructors give, and what `GetTeamsAsync` makes of one HTTP response. */
module TeamModel {
  import opened Outcomes

  /** `Division { int id; string name; }`; `name` is a reference and may be null. */
  datatype Division = Division(id: int, name: Option<string>)

  /** `Team`; the `division` reference is null only when the JSON says so explicitly. */
  datatype Team = Team(
    name: string,
    location: string,
    founded: int,
    firstYearOfPlay: int,
    division: Option<Division>,
    officialSiteUrl: string)

  /** `new Division()`: id 0 and a null name. */
  const DefaultDivision: Division := Division(0, None)

  /** What a JSON object says about one member: nothing, an explicit `null`, or a value. */
  datatype JsonMember<+T> = Absent | JsonNull | Present(value: T)

  /** The deserializer first runs `new Team()`, which sets `division = new Division()`, and then
      assigns the members the JSON object carries; only an explicit `null` leaves no division. */
  function MaterializeTeam(name: string, location: string, founded: int, firstYearOfPlay: int,
                           division: JsonMember<Division>, officialSiteUrl: string): (t: Team)
    ensures t.division.None? <==> division.JsonNull?
    ensures division.Absent? ==> t.division == Some(DefaultDivision)
    ensures division.Present? ==> t.division == Some(division.value)
    ensures t.name == name && t.location == location && t.firstYearOfPlay == firstYearOfPlay
  {
    var constructed := Team(name, location, founded, firstYearOfPlay, Some(DefaultDivision), officialSiteUrl);
    match division
    case Absent => constructed
    case JsonNull => constructed.(division := None)
    case Present(d) => constructed.(division := Some(d))
  }

  /** An HTTP response; `content` is the body text, null when there is none. */
  datatype Response = Response(content: Option<string>)

  /** What `JsonConvert.DeserializeObject<Teams>` does with a non-empty body: it throws on
      malformed text, returns null for the JSON literal `null`, or returns a `Teams` object whose
      `teams` list is null only when the JSON says `"teams": null`. */
  datatype Deserialized = Malformed | NullDocument | Document(teams: Option<seq<Team>>)

  /** True when `GetTeamsAsync` skips deserialization: no response, or a null or empty body. */
  predicate NoContent(response: Option<Response>)
  {
    response.None? || response.value.content.None? || response.value.content.value == ""
  }

  /** The list `GetTeamsAsync` returns, or the exception it throws. */
  function Fetched(response: Option<Response>, deserialize: string -> Deserialized): (r: Result<seq<Team>>)
    ensures NoContent(response) ==> r == Success([])
    ensures r.Failure? ==> !NoContent(response) && r.error in {JsonError, ArgumentNull}
    ensures r.Success? && r.value != [] ==>
      !NoContent(response) && deserialize(response.value.content.value) == Document(Some(r.value))
    ensures !NoContent(response) ==> var parsed := deserialize(response.value.content.value);
      && (parsed.Document? && parsed.teams.Some? ==> r == Success(parsed.teams.value))
      && (parsed == NullDocument ==> r == Success([]))
      && (r == Failure(JsonError) <==> parsed == Malformed)
      && (r == Failure(ArgumentNull) <==> parsed == Document(None))
  {
    if NoContent(response) then Success([])
    else
      match deserialize(response.value.content.value)
      case Malformed => Failure(JsonError)
      case NullDocument => Success([])            // `?? new Teams()`: an empty list
      case Document(None) => Failure(ArgumentNull) // `AddRange(null)`
      case Document(Some(ts)) => Success(ts)
  }
}
