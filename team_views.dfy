/** The derived views APITests.cs computes over a fetched team list: the oldest team
    (`OrderBy(firstYearOfPlay).First()`), the teams that share a location
    (`GroupBy(location).Where(Count > 1)` and `First(Count == 2)`), the division filter
    (`Where(division.name == "Metropolitan")`) and the `CompareCollections` oracle. */
module TeamViews {
  import opened Outcomes
  import opened Sequences
  import opened TeamModel

  // ---------------------------------------------------------------------------------------
  // Oldest team: a stable sort by firstYearOfPlay, then its first element
  // ---------------------------------------------------------------------------------------

  ghost predicate SortedByYear(s: seq<Team>)
  {
    forall i, j :: 0 <= i < j < |s| ==> s[i].firstYearOfPlay <= s[j].firstYearOfPlay
  }

  /** Inserts `t` ahead of the first team that is not older than it, so that `t`, which came
      earlier in the input, stays ahead of teams with the same year. */
  function InsertByYear(t: Team, sorted: seq<Team>): (r: seq<Team>)
    ensures multiset(r) == multiset(sorted) + multiset{t}
    ensures r[0] == t || (sorted != [] && r[0] == sorted[0])
  {
    if sorted == [] || t.firstYearOfPlay <= sorted[0].firstYearOfPlay then [t] + sorted
    else
      assert sorted == [sorted[0]] + sorted[1..];
      [sorted[0]] + InsertByYear(t, sorted[1..])
  }

  lemma InsertByYearHead(t: Team, sorted: seq<Team>)
    ensures InsertByYear(t, sorted)[0]
         == if sorted == [] || t.firstYearOfPlay <= sorted[0].firstYearOfPlay then t else sorted[0]
  {
  }

  lemma {:induction false} InsertByYearSorted(t: Team, sorted: seq<Team>)
    requires SortedByYear(sorted)
    ensures SortedByYear(InsertByYear(t, sorted))
  {
    if sorted != [] && t.firstYearOfPlay > sorted[0].firstYearOfPlay {
      var rest := InsertByYear(t, sorted[1..]);
      InsertByYearSorted(t, sorted[1..]);
      InsertByYearHead(t, sorted[1..]);
      // the head of `rest` is `t` or `sorted[1]`, neither older than `sorted[0]`
      assert sorted[0].firstYearOfPlay <= rest[0].firstYearOfPlay;
      SortedCons(sorted[0], rest);
    }
  }

  /** A team not younger than the head of a sorted list can go in front of it. */
  lemma SortedCons(t: Team, sorted: seq<Team>)
    requires SortedByYear(sorted)
    requires sorted != [] ==> t.firstYearOfPlay <= sorted[0].firstYearOfPlay
    ensures SortedByYear([t] + sorted)
  {
    var r := [t] + sorted;
    forall i, j | 0 <= i < j < |r| ensures r[i].firstYearOfPlay <= r[j].firstYearOfPlay {
      assert r[j] == sorted[j - 1];
      if i > 0 {
        assert r[i] == sorted[i - 1];
      }
    }
  }

  /** `OrderBy(t => t.firstYearOfPlay)`: a sorted permutation of the input. */
  function OrderByFirstYear(s: seq<Team>): (r: seq<Team>)
    ensures SortedByYear(r)
    ensures multiset(r) == multiset(s)
  {
    if s == [] then []
    else
      assert s == [s[0]] + s[1..];
      InsertByYearSorted(s[0], OrderByFirstYear(s[1..]));
      InsertByYear(s[0], OrderByFirstYear(s[1..]))
  }

  function FirstYearIs(year: int): Team -> bool
  {
    (t: Team) => t.firstYearOfPlay == year
  }

  lemma {:induction false} InsertByYearStable(t: Team, sorted: seq<Team>, year: int)
    ensures Filter(InsertByYear(t, sorted), FirstYearIs(year))
         == (if t.firstYearOfPlay == year then [t] else []) + Filter(sorted, FirstYearIs(year))
  {
    var p := FirstYearIs(year);
    if sorted == [] || t.firstYearOfPlay <= sorted[0].firstYearOfPlay {
      FilterCons(t, sorted, p);
    } else {
      var rest := InsertByYear(t, sorted[1..]);
      assert InsertByYear(t, sorted) == [sorted[0]] + rest;
      FilterCons(sorted[0], rest, p);
      InsertByYearStable(t, sorted[1..], year);
      FilterCons(sorted[0], sorted[1..], p);
      assert [sorted[0]] + sorted[1..] == sorted;
      // sorted[0] is strictly older than t, so at most one of the two is kept
      SwapAroundEmpty(if p(sorted[0]) then [sorted[0]] else [], if p(t) then [t] else [], Filter(sorted[1..], p));
    }
  }

  /** `OrderBy` is stable: the teams that share one firstYearOfPlay keep their input order. */
  lemma {:induction false} OrderByFirstYearStable(s: seq<Team>, year: int)
    ensures Filter(OrderByFirstYear(s), FirstYearIs(year)) == Filter(s, FirstYearIs(year))
  {
    if s != [] {
      OrderByFirstYearStable(s[1..], year);
      InsertByYearStable(s[0], OrderByFirstYear(s[1..]), year);
    }
  }

  /** Position `i` holds a team of minimal firstYearOfPlay and no earlier team has that year. */
  ghost predicate IsFirstOldest(s: seq<Team>, i: int)
  {
    && 0 <= i < |s|
    && (forall j :: 0 <= j < |s| ==> s[i].firstYearOfPlay <= s[j].firstYearOfPlay)
    && (forall j :: 0 <= j < i ==> s[j].firstYearOfPlay != s[i].firstYearOfPlay)
  }

  /** At most one position is the first oldest. */
  lemma FirstOldestUnique(s: seq<Team>)
    ensures forall i, j :: IsFirstOldest(s, i) && IsFirstOldest(s, j) ==> i == j
  {
    forall i, j | IsFirstOldest(s, i) && IsFirstOldest(s, j) ensures i == j {
      assert s[i].firstYearOfPlay <= s[j].firstYearOfPlay <= s[i].firstYearOfPlay;
    }
  }

  /** `_teams.OrderBy(t => t.firstYearOfPlay).First()`; `First` throws on an empty list. */
  function OldestTeam(s: seq<Team>): (r: Result<Team>)
    ensures r.Failure? <==> s == []
    ensures r.Success? ==> r.value in s
  {
    var ordered := OrderByFirstYear(s);
    if ordered == [] then Failure(NoElements)
    else
      assert ordered[0] in multiset(ordered);
      Success(ordered[0])
  }

  /** Putting a team in front of a list: it is the first oldest when it is not younger than the
      list's first oldest, and otherwise that team, one position further on, still is. */
  lemma FirstOldestCons(s: seq<Team>, k: nat)
    requires s != [] && IsFirstOldest(s[1..], k)
    ensures s[0].firstYearOfPlay <= s[k + 1].firstYearOfPlay ==> IsFirstOldest(s, 0)
    ensures s[0].firstYearOfPlay > s[k + 1].firstYearOfPlay ==> IsFirstOldest(s, k + 1)
  {
    var tail := s[1..];
    assert forall j :: 1 <= j < |s| ==> s[j] == tail[j - 1];
    if s[0].firstYearOfPlay > s[k + 1].firstYearOfPlay {
      var m := tail[k];
      forall j | 0 <= j < |s| ensures m.firstYearOfPlay <= s[j].firstYearOfPlay {
        if j > 0 { assert s[j] == tail[j - 1]; }
      }
      forall j | 0 <= j < k + 1 ensures s[j].firstYearOfPlay != m.firstYearOfPlay {
        if j > 0 { assert s[j] == tail[j - 1]; }
      }
    }
  }

  /** The oldest team is the first team, in input order, whose firstYearOfPlay is minimal; the
      only failure is an empty list. */
  lemma {:induction false} OldestTeamIsFirstMinimal(s: seq<Team>)
    ensures OldestTeam(s).Failure? <==> s == []
    ensures OldestTeam(s).Failure? ==> OldestTeam(s).error == NoElements
    ensures s != [] ==> exists i :: IsFirstOldest(s, i) && OldestTeam(s).value == s[i]
  {
    if s != [] {
      var tail := s[1..];
      var rest := OrderByFirstYear(tail);
      assert OrderByFirstYear(s) == InsertByYear(s[0], rest);
      InsertByYearHead(s[0], rest);
      if tail == [] {
        assert IsFirstOldest(s, 0);
      } else {
        OldestTeamIsFirstMinimal(tail);
        var k :| IsFirstOldest(tail, k) && rest[0] == tail[k];
        FirstOldestCons(s, k);
        assert s[k + 1] == tail[k];
      }
    }
  }

  // ---------------------------------------------------------------------------------------
  // Teams that share a location: GroupBy, Where(Count > 1), First(Count == 2)
  // ---------------------------------------------------------------------------------------

  /** An `IGrouping<string, Team>`: a key and the teams filed under it. */
  datatype Grouping = Grouping(key: string, elements: seq<Team>)

  function LocatedIn(location: string): Team -> bool
  {
    (t: Team) => t.location == location
  }

  /** The lookup step of `GroupBy`: file `t` under the grouping with its location, or open a
      new grouping at the end. */
  function AddToLookup(groups: seq<Grouping>, t: Team): (r: seq<Grouping>)
    ensures r != []
  {
    if groups == [] then [Grouping(t.location, [t])]
    else if groups[0].key == t.location then [groups[0].(elements := groups[0].elements + [t])] + groups[1..]
    else [groups[0]] + AddToLookup(groups[1..], t)
  }

  /** `GroupBy(t => t.location)`: the teams are filed one after another, in input order. */
  function GroupByLocation(s: seq<Team>): (r: seq<Grouping>)
    ensures r == [] <==> s == []
  {
    if s == [] then [] else AddToLookup(GroupByLocation(s[..|s| - 1]), s[|s| - 1])
  }

  /** The distinct locations of `s`, in the order in which each first occurs. */
  function Locations(s: seq<Team>): seq<string>
  {
    if s == [] then []
    else
      var keys := Locations(s[..|s| - 1]);
      if s[|s| - 1].location in keys then keys else keys + [s[|s| - 1].location]
  }

  /** The keys are distinct, every team's location is one of them, and each is some team's. */
  lemma {:induction false} LocationsDistinctAndComplete(s: seq<Team>)
    ensures forall i, j :: 0 <= i < j < |Locations(s)| ==> Locations(s)[i] != Locations(s)[j]
    ensures forall p :: 0 <= p < |s| ==> s[p].location in Locations(s)
    ensures forall i :: 0 <= i < |Locations(s)| ==> exists p :: 0 <= p < |s| && s[p].location == Locations(s)[i]
  {
    if s != [] {
      var prefix := s[..|s| - 1];
      LocationsDistinctAndComplete(prefix);
      var keys := Locations(prefix);
      assert forall p :: 0 <= p < |prefix| ==> s[p] == prefix[p];
      forall i | 0 <= i < |Locations(s)| ensures exists p :: 0 <= p < |s| && s[p].location == Locations(s)[i] {
        if i < |keys| {
          var p :| 0 <= p < |prefix| && prefix[p].location == keys[i];
          assert s[p].location == Locations(s)[i];
        } else {
          assert s[|s| - 1].location == Locations(s)[i];
        }
      }
    } else {
      assert Locations(s) == [];
    }
  }

  /** The position of the first team at `location`, or `|s|` when there is none. */
  function FirstIndexAt(s: seq<Team>, location: string): (p: nat)
    ensures p <= |s|
    ensures p < |s| ==> s[p].location == location
    ensures forall q :: 0 <= q < p ==> s[q].location != location
  {
    if s == [] then 0
    else if s[0].location == location then 0
    else 1 + FirstIndexAt(s[1..], location)
  }

  /** The reference meaning of `GroupBy`: one grouping per distinct location, in order of first
      occurrence, holding exactly the teams at that location in input order. */
  ghost predicate GroupsOf(s: seq<Team>, groups: seq<Grouping>)
  {
    var keys := Locations(s);
    && |groups| == |keys|
    && forall i :: 0 <= i < |groups| ==> groups[i] == Grouping(keys[i], Filter(s, LocatedIn(keys[i])))
  }

  lemma {:induction false} AddToExisting(groups: seq<Grouping>, t: Team, j: nat)
    requires j < |groups| && groups[j].key == t.location
    requires forall i :: 0 <= i < j ==> groups[i].key != t.location
    ensures AddToLookup(groups, t) == groups[j := groups[j].(elements := groups[j].elements + [t])]
  {
    if j > 0 {
      AddToExisting(groups[1..], t, j - 1);
    }
  }

  lemma {:induction false} AddToNew(groups: seq<Grouping>, t: Team)
    requires forall i :: 0 <= i < |groups| ==> groups[i].key != t.location
    ensures AddToLookup(groups, t) == groups + [Grouping(t.location, [t])]
  {
    if groups != [] {
      AddToNew(groups[1..], t);
    }
  }

  lemma GroupStepExisting(prefix: seq<Team>, t: Team, before: seq<Grouping>, j: nat)
    requires GroupsOf(prefix, before)
    requires j < |Locations(prefix)| && Locations(prefix)[j] == t.location
    ensures GroupsOf(prefix + [t], before[j := before[j].(elements := before[j].elements + [t])])
  {
    var s := prefix + [t];
    var keys := Locations(prefix);
    var groups := before[j := before[j].(elements := before[j].elements + [t])];
    LocationsDistinctAndComplete(prefix);
    assert s[..|s| - 1] == prefix;
    assert Locations(s) == keys;
    forall i | 0 <= i < |groups|
      ensures groups[i] == Grouping(keys[i], Filter(s, LocatedIn(keys[i])))
    {
      FilterSnoc(prefix, t, LocatedIn(keys[i]));
      if i != j {
        assert keys[i] != t.location && groups[i] == before[i];
      }
    }
  }

  /** A team at a location not seen before adds that location at the end of the keys. */
  lemma LocationsSnocNew(prefix: seq<Team>, t: Team)
    requires t.location !in Locations(prefix)
    ensures Locations(prefix + [t]) == Locations(prefix) + [t.location]
  {
    var s := prefix + [t];
    assert s[..|s| - 1] == prefix;
  }

  /** The teams at a location not seen before are the new team alone. */
  lemma FilterNewLocation(prefix: seq<Team>, t: Team)
    requires t.location !in Locations(prefix)
    ensures Filter(prefix + [t], LocatedIn(t.location)) == [t]
  {
    var k := t.location;
    LocationsDistinctAndComplete(prefix);
    forall q | 0 <= q < |prefix| ensures !LocatedIn(k)(prefix[q]) {
      assert prefix[q].location in Locations(prefix);
    }
    NoneKept(prefix, LocatedIn(k));
    FilterSnoc(prefix, t, LocatedIn(k));
  }

  /** The teams at another location are unchanged by appending `t`. */
  lemma FilterOtherLocation(prefix: seq<Team>, t: Team, key: string)
    requires key != t.location
    ensures Filter(prefix + [t], LocatedIn(key)) == Filter(prefix, LocatedIn(key))
  {
    FilterSnoc(prefix, t, LocatedIn(key));
  }

  lemma GroupStepNew(prefix: seq<Team>, t: Team, before: seq<Grouping>)
    requires GroupsOf(prefix, before)
    requires t.location !in Locations(prefix)
    ensures GroupsOf(prefix + [t], before + [Grouping(t.location, [t])])
  {
    var s := prefix + [t];
    var keys := Locations(prefix);
    var groups := before + [Grouping(t.location, [t])];
    var newKeys := keys + [t.location];
    LocationsSnocNew(prefix, t);
    FilterNewLocation(prefix, t);
    forall i | 0 <= i < |groups|
      ensures groups[i] == Grouping(newKeys[i], Filter(s, LocatedIn(newKeys[i])))
    {
      if i < |keys| {
        assert groups[i] == before[i] && newKeys[i] == keys[i];
        assert keys[i] in keys;
        FilterOtherLocation(prefix, t, keys[i]);
      } else {
        assert groups[i] == Grouping(t.location, [t]) && newKeys[i] == t.location;
      }
    }
    assert |groups| == |Locations(s)|;
  }

  /** Filing the teams one by one yields the reference grouping. */
  lemma {:induction false} GroupByLocationCorrect(s: seq<Team>)
    ensures GroupsOf(s, GroupByLocation(s))
  {
    if s != [] {
      var prefix, t := s[..|s| - 1], s[|s| - 1];
      assert s == prefix + [t];
      GroupByLocationCorrect(prefix);
      var before := GroupByLocation(prefix);
      var keys := Locations(prefix);
      LocationsDistinctAndComplete(prefix);
      if t.location in keys {
        var j :| 0 <= j < |keys| && keys[j] == t.location;
        AddToExisting(before, t, j);
        GroupStepExisting(prefix, t, before, j);
      } else {
        AddToNew(before, t);
        GroupStepNew(prefix, t, before);
      }
    }
  }

  lemma {:induction false} LocationsInFirstOccurrenceOrder(s: seq<Team>)
    ensures forall i, j :: 0 <= i < j < |Locations(s)| ==>
      FirstIndexAt(s, Locations(s)[i]) < FirstIndexAt(s, Locations(s)[j]) < |s|
  {
    if s != [] {
      var prefix, t := s[..|s| - 1], s[|s| - 1];
      assert s == prefix + [t];
      LocationsInFirstOccurrenceOrder(prefix);
      KnownLocationsKeepFirstIndex(prefix, t);
      var keys := Locations(prefix);
      if t.location in keys {
        LocationsSnocKnown(prefix, t);
      } else {
        LocationsSnocNew(prefix, t);
        NewLocationFirstIndex(prefix, t);
      }
      var all := Locations(s);
      forall i, j | 0 <= i < j < |all| ensures FirstIndexAt(s, all[i]) < FirstIndexAt(s, all[j]) < |s| {
        assert all[i] == keys[i] && all[i] in keys;
        if j < |keys| {
          assert all[j] == keys[j] && all[j] in keys;
        }
      }
    }
  }

  /** Appending a team does not move the first occurrence of a location already present. */
  lemma KnownLocationsKeepFirstIndex(prefix: seq<Team>, t: Team)
    ensures forall k :: k in Locations(prefix) ==>
      FirstIndexAt(prefix + [t], k) == FirstIndexAt(prefix, k) < |prefix|
  {
    LocationsDistinctAndComplete(prefix);
    forall k | k in Locations(prefix) ensures FirstIndexAt(prefix + [t], k) == FirstIndexAt(prefix, k) < |prefix| {
      FirstIndexSnoc(prefix, t, k);
    }
  }

  /** A new location first occurs at the appended team. */
  lemma NewLocationFirstIndex(prefix: seq<Team>, t: Team)
    requires t.location !in Locations(prefix)
    ensures FirstIndexAt(prefix + [t], t.location) == |prefix|
  {
    LocationsDistinctAndComplete(prefix);
    FirstIndexSnoc(prefix, t, t.location);
  }

  /** A team at a location already present leaves the keys as they are. */
  lemma LocationsSnocKnown(prefix: seq<Team>, t: Team)
    requires t.location in Locations(prefix)
    ensures Locations(prefix + [t]) == Locations(prefix)
  {
    var s := prefix + [t];
    assert s[..|s| - 1] == prefix;
  }

  lemma {:induction false} FirstIndexSnoc(s: seq<Team>, t: Team, location: string)
    ensures FirstIndexAt(s, location) < |s| ==> FirstIndexAt(s + [t], location) == FirstIndexAt(s, location)
    ensures FirstIndexAt(s, location) == |s| && t.location == location ==> FirstIndexAt(s + [t], location) == |s|
    ensures (exists p :: 0 <= p < |s| && s[p].location == location) ==> FirstIndexAt(s, location) < |s|
  {
    if s != [] {
      assert (s + [t])[1..] == s[1..] + [t];
      FirstIndexSnoc(s[1..], t, location);
      if s[0].location != location {
        assert forall p :: 1 <= p < |s| ==> s[p] == s[1..][p - 1];
      }
    }
  }

  function IsShared(g: Grouping): bool
  {
    |g.elements| > 1
  }

  function ElementLists(groups: seq<Grouping>): (r: seq<seq<Team>>)
    ensures |r| == |groups| && forall i :: 0 <= i < |r| ==> r[i] == groups[i].elements
  {
    seq(|groups|, i requires 0 <= i < |groups| => groups[i].elements)
  }

  /** `received_teamsGroups`: `GroupBy(location).Where(g => g.Count() > 1).Select(g => g.ToList())`. */
  function SharedLocationGroups(s: seq<Team>): (r: seq<seq<Team>>)
    ensures |r| <= |GroupByLocation(s)|
    ensures forall i :: 0 <= i < |r| ==> |r[i]| > 1
  {
    ElementLists(Filter(GroupByLocation(s), IsShared))
  }

  /** Order-preserving subsequence: a relation that holds between every earlier and later element
      of `s` still holds in `Filter(s, p)`. */
  lemma {:induction false} FilterKeepsOrder<T>(s: seq<T>, p: T -> bool, before: (T, T) -> bool)
    requires forall i, j :: 0 <= i < j < |s| ==> before(s[i], s[j])
    ensures forall i, j :: 0 <= i < j < |Filter(s, p)| ==> before(Filter(s, p)[i], Filter(s, p)[j])
  {
    if s != [] {
      FilterKeepsOrder(s[1..], p, before);
      var rest := Filter(s[1..], p);
      forall j | 0 <= j < |rest| ensures before(s[0], rest[j]) {
        var q :| 0 <= q < |s[1..]| && s[1..][q] == rest[j];
        assert s[q + 1] == rest[j];
      }
    }
  }

  lemma {:induction false} FilterHasTwo<T>(s: seq<T>, p: T -> bool, a: nat, b: nat)
    requires a < b < |s| && p(s[a]) && p(s[b])
    ensures |Filter(s, p)| >= 2
  {
    if a > 0 {
      FilterHasTwo(s[1..], p, a - 1, b - 1);
    } else {
      assert s[1..][b - 1] in Filter(s[1..], p);
    }
  }

  /** The location under which the `i`-th shared group was filed. */
  lemma SharedGroupKey(s: seq<Team>, i: nat) returns (key: string)
    requires i < |SharedLocationGroups(s)|
    ensures Filter(GroupByLocation(s), IsShared)[i].key == key
    ensures SharedLocationGroups(s)[i] == Filter(s, LocatedIn(key))
    ensures |SharedLocationGroups(s)[i]| > 1
  {
    GroupByLocationCorrect(s);
    var groups := GroupByLocation(s);
    var kept := Filter(groups, IsShared);
    assert kept[i] in groups && IsShared(kept[i]);
    var n :| 0 <= n < |groups| && groups[n] == kept[i];
    key := Locations(s)[n];
  }

  /** Every group has more than one member, all members share its location, and the group is
      exactly the teams at that location in input order. */
  lemma SharedGroupsAreColocated(s: seq<Team>)
    ensures forall i :: 0 <= i < |SharedLocationGroups(s)| ==>
      var g := SharedLocationGroups(s)[i];
      && |g| > 1
      && (forall m :: m in g ==> m.location == g[0].location)
      && g == Filter(s, LocatedIn(g[0].location))
  {
    forall i | 0 <= i < |SharedLocationGroups(s)|
      ensures var g := SharedLocationGroups(s)[i];
        && |g| > 1
        && (forall m :: m in g ==> m.location == g[0].location)
        && g == Filter(s, LocatedIn(g[0].location))
    {
      var key := SharedGroupKey(s, i);
      var g := SharedLocationGroups(s)[i];
      assert forall m :: m in g ==> m.location == key;
      assert g[0] in g;
    }
  }

  /** Groups come out in the order in which their locations first occur, so no two groups share a
      location and no team is in two groups. */
  lemma SharedGroupsInFirstOccurrenceOrder(s: seq<Team>)
    ensures forall i, j :: 0 <= i < j < |SharedLocationGroups(s)| ==>
      FirstIndexAt(s, SharedLocationGroups(s)[i][0].location)
        < FirstIndexAt(s, SharedLocationGroups(s)[j][0].location)
  {
    GroupByLocationCorrect(s);
    LocationsInFirstOccurrenceOrder(s);
    SharedGroupsAreColocated(s);
    var groups := GroupByLocation(s);
    var before := (g: Grouping, h: Grouping) => FirstIndexAt(s, g.key) < FirstIndexAt(s, h.key);
    forall i, j | 0 <= i < j < |groups| ensures before(groups[i], groups[j]) {
    }
    FilterKeepsOrder(groups, IsShared, before);
    var kept := Filter(groups, IsShared);
    forall i | 0 <= i < |kept| ensures kept[i].elements[0].location == kept[i].key {
      var n :| 0 <= n < |groups| && groups[n] == kept[i];
      assert kept[i].elements[0] in kept[i].elements;
    }
    assert forall i :: 0 <= i < |kept| ==> SharedLocationGroups(s)[i] == kept[i].elements;
  }

  /** No team is in two groups. */
  lemma SharedGroupsAreDisjoint(s: seq<Team>)
    ensures forall i: int, j: int, t: Team ::
      0 <= i < j < |SharedLocationGroups(s)| && t in SharedLocationGroups(s)[i] ==> t !in SharedLocationGroups(s)[j]
  {
    var groups: seq<seq<Team>> := SharedLocationGroups(s);
    SharedGroupsAreColocated(s);
    SharedGroupsInFirstOccurrenceOrder(s);
    forall i: int, j: int, t: Team | 0 <= i < j < |groups| && t in groups[i] ensures t !in groups[j] {
      assert t.location == groups[i][0].location;
      if t in groups[j] {
        assert false;
      }
    }
  }

  /** Every team whose location is shared with another team of the list is in some group. */
  lemma SharedGroupsAreComplete(s: seq<Team>, a: nat, b: nat)
    requires a < b < |s| && s[a].location == s[b].location
    ensures exists g :: g in SharedLocationGroups(s) && s[a] in g && s[b] in g
  {
    GroupByLocationCorrect(s);
    var groups := GroupByLocation(s);
    var keys := Locations(s);
    LocationsDistinctAndComplete(s);
    var n :| 0 <= n < |keys| && keys[n] == s[a].location;
    var g := Filter(s, LocatedIn(keys[n]));
    FilterHasTwo(s, LocatedIn(keys[n]), a, b);
    assert IsShared(groups[n]);
    var kept := Filter(groups, IsShared);
    assert groups[n] in kept;
    var i :| 0 <= i < |kept| && kept[i] == groups[n];
    assert SharedLocationGroups(s)[i] == g;
  }

  /** `received_teamsGroups.First(g => g.Count() == 2)`: the first group of exactly two teams;
      `First` throws when there is none. */
  function FirstPair(groups: seq<seq<Team>>): (r: Result<seq<Team>>)
    ensures r.Success? <==> exists i :: 0 <= i < |groups| && |groups[i]| == 2
    ensures r.Failure? ==> r.error == NoElements
    ensures r.Success? ==> exists i :: 0 <= i < |groups| && groups[i] == r.value && |r.value| == 2
                                    && forall j :: 0 <= j < i ==> |groups[j]| != 2
  {
    if groups == [] then Failure(NoElements)
    else if |groups[0]| == 2 then Success(groups[0])
    else
      var r := FirstPair(groups[1..]);
      if r.Success? then
        assert forall i :: 1 <= i < |groups| ==> groups[i] == groups[1..][i - 1];
        r
      else r
  }

  // ---------------------------------------------------------------------------------------
  // Division filter
  // ---------------------------------------------------------------------------------------

  function InDivision(name: string): Team -> bool
  {
    (t: Team) => t.division.Some? && t.division.value.name == Some(name)
  }

  /** `Where(t => t.division.name == name).ToList()`: reading `division.name` through a null
      `division` throws, and `ToList` visits every team. */
  function TeamsInDivision(s: seq<Team>, name: string): (r: Result<seq<Team>>)
    ensures r.Failure? <==> exists i :: 0 <= i < |s| && s[i].division.None?
    ensures r.Failure? ==> r.error == NullReference
    ensures r.Success? ==> r.value == Filter(s, InDivision(name))
  {
    if s == [] then Success([])
    else if s[0].division.None? then Failure(NullReference)
    else
      match TeamsInDivision(s[1..], name)
      case Failure(e) =>
        assert exists i :: 1 <= i < |s| && s[i].division.None? by {
          var i :| 0 <= i < |s[1..]| && s[1..][i].division.None?;
          assert s[i + 1] == s[1..][i];
        }
        Failure(e)
      case Success(rest) =>
        assert forall i :: 1 <= i < |s| ==> s[i] == s[1..][i - 1];
        Success((if s[0].division.value.name == Some(name) then [s[0]] else []) + rest)
  }

  // ---------------------------------------------------------------------------------------
  // CompareCollections
  // ---------------------------------------------------------------------------------------

  /** The iterator behind `Enumerable.Except`: yields each element of `a` that is neither excluded
      nor already yielded. */
  function ExceptWith(a: seq<string>, excluded: set<string>): (r: seq<string>)
    ensures forall x :: x in r <==> x in a && x !in excluded
    ensures forall i, j :: 0 <= i < j < |r| ==> r[i] != r[j]
  {
    if a == [] then []
    else if a[0] in excluded then ExceptWith(a[1..], excluded)
    else [a[0]] + ExceptWith(a[1..], excluded + {a[0]})
  }

  /** `first.Except(second)`: the distinct elements of `first` missing from `second`. */
  function Except(first: seq<string>, second: seq<string>): (r: seq<string>)
    ensures forall x :: x in r <==> x in first && x !in second
    ensures forall i, j :: 0 <= i < j < |r| ==> r[i] != r[j]
  {
    ExceptWith(first, set x | x in second)
  }

  /** `!first.Except(second).Any()` says that every element of `first` is in `second`. */
  lemma ExceptEmptyIffContained(first: seq<string>, second: seq<string>)
    ensures Except(first, second) == [] <==> forall x :: x in first ==> x in second
  {
    if Except(first, second) != [] {
      assert Except(first, second)[0] in Except(first, second);
    }
  }

  /** `CompareCollections`: same count and neither list has an element the other lacks. */
  function CompareCollections(c1: seq<string>, c2: seq<string>): (r: bool)
    ensures r <==> |c1| == |c2| && (forall x :: x in c1 <==> x in c2)
  {
    ExceptEmptyIffContained(c1, c2);
    ExceptEmptyIffContained(c2, c1);
    && |c1| == |c2|
    && Except(c1, c2) == []
    && Except(c2, c1) == []
  }

  /** The comparison ignores order: a permutation always compares equal. */
  lemma CompareCollectionsIgnoresOrder(c1: seq<string>, c2: seq<string>)
    requires multiset(c1) == multiset(c2)
    ensures CompareCollections(c1, c2) && CompareCollections(c2, c1)
  {
    assert |c1| == |multiset(c1)| == |multiset(c2)| == |c2|;
    forall x ensures x in c1 <==> x in c2 {
      assert x in c1 <==> x in multiset(c1);
      assert x in c2 <==> x in multiset(c2);
    }
  }

  /** The comparison is blind to how often an element repeats: these lists differ as multisets
      yet compare equal. */
  lemma CompareCollectionsIgnoresMultiplicity()
    ensures multiset(["a", "a", "b"]) != multiset(["a", "b", "b"])
    ensures CompareCollections(["a", "a", "b"], ["a", "b", "b"])
  {
    assert multiset(["a", "a", "b"])["a"] == 2;
    assert multiset(["a", "b", "b"])["a"] == 1;
  }

  /** Lists of different lengths never compare equal, even with the same distinct elements. */
  lemma CompareCollectionsCountsFirst(c1: seq<string>, c2: seq<string>)
    ensures |c1| != |c2| ==> !CompareCollections(c1, c2)
    ensures !CompareCollections(["a", "a"], ["a"])
  {
  }
}
