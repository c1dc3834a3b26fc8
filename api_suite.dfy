/** The `APITests` test class: the `_teams` field each test refills from the endpoint, the
    fetch helper `GetTeamsAsync`, and the four test methods with their expected values. The
    HTTP exchange is a parameter: the response the client returned and what the JSON
    deserializer makes of a body. */
module ApiSuite {
  import opened Outcomes
  import opened Sequences
  import opened TeamModel
  import opened TeamViews

  const ExpectedTeamCount := 32
  const ExpectedOldestTeam := "Montreal Canadiens"
  const ExpectedSharedLocation := "New York"
  const ExpectedSharedTeams := ["New York Islanders", "New York Rangers"]
  const ExpectedMetropolitanCount := 8
  const ExpectedMetropolitanTeams := [
    "Carolina Hurricanes", "Columbus Blue Jackets", "New Jersey Devils", "New York Islanders",
    "New York Rangers", "Philadelphia Flyers", "Pittsburgh Penguins", "Washington Capitals"]

  /** `Select(t => t.name).ToList()`. */
  function Names(teams: seq<Team>): (names: seq<string>)
    ensures |names| == |teams| && forall i :: 0 <= i < |teams| ==> names[i] == teams[i].name
  {
    seq(|teams|, i requires 0 <= i < |teams| => teams[i].name)
  }

  /** What `Test_CityWithTwoTeams_ReturnsOK` concludes from a team list. */
  function CityWithTwoTeamsVerdict(teams: seq<Team>): (v: Verdict)
    ensures v == Passed <==>
      && |SharedLocationGroups(teams)| == 1
      && |SharedLocationGroups(teams)[0]| == 2
      && SharedLocationGroups(teams)[0][0].location == ExpectedSharedLocation
      && forall n :: n in ExpectedSharedTeams ==> n in Names(SharedLocationGroups(teams)[0])
    ensures v.Threw? <==> forall i :: 0 <= i < |SharedLocationGroups(teams)| ==> |SharedLocationGroups(teams)[i]| != 2
    ensures v.Threw? ==> v == Threw(NoElements)
  {
    var groups := SharedLocationGroups(teams);
    match FirstPair(groups)
    case Failure(e) => Threw(e)
    case Success(firstGroup) =>
      var names := Names(firstGroup);
      var location := firstGroup[0].location;
      if |groups| == 1 && ExpectedSharedTeams[0] in names && ExpectedSharedTeams[1] in names
         && location == ExpectedSharedLocation
      then Passed
      else AssertionFailed
  }

  /** What `Test_MetropolitanDivision_ReturnsOK` concludes from a team list. */
  function MetropolitanVerdict(teams: seq<Team>): (v: Verdict)
    ensures v == Threw(NullReference) <==> exists i :: 0 <= i < |teams| && teams[i].division.None?
    ensures v == Passed <==>
      && (forall i :: 0 <= i < |teams| ==> teams[i].division.Some?)
      && |Filter(teams, InDivision("Metropolitan"))| == ExpectedMetropolitanCount
      && CompareCollections(Names(Filter(teams, InDivision("Metropolitan"))), ExpectedMetropolitanTeams)
    ensures v == Passed || v == AssertionFailed || v == Threw(NullReference)
  {
    match TeamsInDivision(teams, "Metropolitan")
    case Failure(e) => Threw(e)
    case Success(received) =>
      if |received| == ExpectedMetropolitanCount
         && CompareCollections(Names(received), ExpectedMetropolitanTeams)
      then Passed
      else AssertionFailed
  }

  class ApiTests {
    /** `_teams`: the list the latest test fetched. */
    var teams: seq<Team>

    constructor ()
      ensures teams == []
    {
      teams := [];
    }

    /** `GetTeamsAsync`: starts from an empty list and appends the deserialized teams when the
        response has a non-empty body. */
    method GetTeams(response: Option<Response>, deserialize: string -> Deserialized)
      returns (r: Result<seq<Team>>)
      ensures r == Fetched(response, deserialize)
    {
      var result: seq<Team> := [];
      if response.Some? && response.value.content.Some? && response.value.content.value != "" {
        var parsed := deserialize(response.value.content.value);
        if parsed.Malformed? {
          return Failure(JsonError);
        }
        var document := if parsed.NullDocument? then Document(Some([])) else parsed;
        if document.teams.None? {
          return Failure(ArgumentNull);
        }
        result := result + document.teams.value;
        assert result == document.teams.value;
      }
      return Success(result);
    }

    /** `_teams = await GetTeamsAsync();` — an exception leaves `_teams` as it was. */
    method Refresh(response: Option<Response>, deserialize: string -> Deserialized)
      returns (fetched: Result<seq<Team>>)
      modifies this
      ensures fetched == Fetched(response, deserialize)
      ensures teams == if fetched.Success? then fetched.value else old(teams)
    {
      fetched := GetTeams(response, deserialize);
      if fetched.Success? {
        teams := fetched.value;
      }
    }

    method CountOfTeams(response: Option<Response>, deserialize: string -> Deserialized)
      returns (v: Verdict)
      modifies this
      ensures var fetched := Fetched(response, deserialize);
        && (fetched.Failure? ==> v == Threw(fetched.error) && teams == old(teams))
        && (fetched.Success? ==> teams == fetched.value
                                 && v == if |teams| == ExpectedTeamCount then Passed else AssertionFailed)
    {
      var fetched := Refresh(response, deserialize);
      if fetched.Failure? {
        return Threw(fetched.error);
      }
      var received := |teams|;
      v := if received == ExpectedTeamCount then Passed else AssertionFailed;
    }

    method OldestTeamIsMontreal(response: Option<Response>, deserialize: string -> Deserialized)
      returns (v: Verdict)
      modifies this
      ensures var fetched := Fetched(response, deserialize);
        && (fetched.Failure? ==> v == Threw(fetched.error) && teams == old(teams))
        && (fetched.Success? ==> teams == fetched.value
                                 && (teams == [] <==> v == Threw(NoElements))
                                 && (v == Passed || v == AssertionFailed || v == Threw(NoElements))
                                 && (v == Passed <==> exists i :: IsFirstOldest(teams, i)
                                                                && teams[i].name == ExpectedOldestTeam))
    {
      var fetched := Refresh(response, deserialize);
      if fetched.Failure? {
        return Threw(fetched.error);
      }
      OldestTeamIsFirstMinimal(teams);
      match OldestTeam(teams)
      case Failure(e) =>
        v := Threw(e);
      case Success(oldest) =>
        v := if oldest.name == ExpectedOldestTeam then Passed else AssertionFailed;
        FirstOldestUnique(teams);
    }

    method CityWithTwoTeams(response: Option<Response>, deserialize: string -> Deserialized)
      returns (v: Verdict)
      modifies this
      ensures var fetched := Fetched(response, deserialize);
        && (fetched.Failure? ==> v == Threw(fetched.error) && teams == old(teams))
        && (fetched.Success? ==> teams == fetched.value && v == CityWithTwoTeamsVerdict(teams))
    {
      var fetched := Refresh(response, deserialize);
      if fetched.Failure? {
        return Threw(fetched.error);
      }
      var received: seq<seq<Team>> := [];
      received := received + SharedLocationGroups(teams);
      assert received == SharedLocationGroups(teams);
      match FirstPair(received)
      case Failure(e) =>
        v := Threw(e);
      case Success(firstGroup) =>
        var names := Names(firstGroup);
        var location := firstGroup[0].location;
        if |received| != 1 {
          v := AssertionFailed;
        } else if ExpectedSharedTeams[0] !in names || ExpectedSharedTeams[1] !in names {
          v := AssertionFailed;
        } else if location != ExpectedSharedLocation {
          v := AssertionFailed;
        } else {
          v := Passed;
        }
    }

    method MetropolitanDivision(response: Option<Response>, deserialize: string -> Deserialized)
      returns (v: Verdict)
      modifies this
      ensures var fetched := Fetched(response, deserialize);
        && (fetched.Failure? ==> v == Threw(fetched.error) && teams == old(teams))
        && (fetched.Success? ==> teams == fetched.value && v == MetropolitanVerdict(teams))
    {
      var fetched := Refresh(response, deserialize);
      if fetched.Failure? {
        return Threw(fetched.error);
      }
      var selected := TeamsInDivision(teams, "Metropolitan");
      if selected.Failure? {
        return Threw(selected.error);
      }
      var received: seq<Team> := [];
      received := received + selected.value;
      assert received == selected.value;
      if |received| != ExpectedMetropolitanCount {
        v := AssertionFailed;
      } else if !CompareCollections(Names(received), ExpectedMetropolitanTeams) {
        v := AssertionFailed;
      } else {
        v := Passed;
      }
    }
  }
}
