/** The seven queries of cohort_data.py. Each takes the lines of the roster
    file, as iterating over the open file yields them, and scans them in a
    loop the way the Python function does. */
module CohortData {
  import opened Text
  import opened Order
  import opened Roster

  /** all_houses: the set of non-empty third fields. Indexes [2] of the
      unstripped line, so a line with fewer than three fields raises. */
  method AllHouses(lines: seq<string>) returns (r: Result<set<string>>)
    ensures r.Ok? <==> AllFit(lines, HouseIndexed)
    ensures r.Err? ==> r.failure.IndexError? && FirstMisfit(lines, HouseIndexed, r.failure.line)
    ensures r.Ok? ==> "" !in r.value
    ensures r.Ok? ==> forall h :: h in r.value <==>
      h != "" && exists i :: 0 <= i < |lines| && Fits(lines[i], HouseIndexed) && Split(lines[i], '|')[2] == h
  {
    var houses: set<string> := {};
    for i := 0 to |lines|
      invariant AllFit(lines[..i], HouseIndexed)
      invariant forall h :: h in houses <==>
        h != "" && exists j :: 0 <= j < i && Fits(lines[j], HouseIndexed) && Split(lines[j], '|')[2] == h
    {
      var fields := Split(lines[i], '|');
      if |fields| <= 2 {
        MisfitStops(lines, HouseIndexed, i);
        return Err(IndexError(i));
      }
      var house := fields[2];
      if house != "" {
        houses := houses + {house};
      }
      assert lines[..i + 1] == lines[..i] + [lines[i]];
    }
    assert lines[..|lines|] == lines;
    return Ok(houses);
  }

  /** students_by_cohort: the sorted full names of the lines whose fifth
      field is neither I nor G (cohort "All") or equals cohort (otherwise).
      Indexes [4], so a line with fewer than five fields raises. */
  method StudentsByCohort(lines: seq<string>, cohort: string) returns (r: Result<seq<string>>)
    ensures r.Ok? <==> AllFit(lines, FlagIndexed)
    ensures r.Err? ==> r.failure.IndexError? && FirstMisfit(lines, FlagIndexed, r.failure.line)
    ensures r.Ok? ==> IsSorted(r.value) && multiset(r.value) == multiset(CohortNames(lines, cohort))
  {
    var students: seq<string> := [];
    for i := 0 to |lines|
      invariant AllFit(lines[..i], FlagIndexed)
      invariant students == CohortNames(lines[..i], cohort)
    {
      var cleanLine := Fields(lines[i]);
      if |cleanLine| <= 4 {
        MisfitStops(lines, FlagIndexed, i);
        return Err(IndexError(i));
      }
      CohortNamesStep(lines, i, cohort);
      if InCohort(cleanLine[4], cohort) {
        students := students + [FullName(cleanLine[0], cleanLine[1])];
      }
    }
    assert lines[..|lines|] == lines;
    return Ok(Sort(students));
  }

  /** The closing step of all_names_by_house: every list is sorted and keeps
      its position in the outer list. */
  function SortEach(lists: seq<seq<string>>): (r: seq<seq<string>>)
    ensures |r| == |lists|
    ensures forall k :: 0 <= k < |lists| ==> IsSorted(r[k]) && multiset(r[k]) == multiset(lists[k])
  {
    seq(|lists|, k requires 0 <= k < |lists| => Sort(lists[k]))
  }

  /** all_names_by_house: seven sorted rosters (Dumbledore's Army,
      Gryffindor, Hufflepuff, Ravenclaw, Slytherin, Ghosts, Instructors).
      Unpacks five fields, so any other field count raises. */
  method AllNamesByHouse(lines: seq<string>) returns (r: Result<seq<seq<string>>>)
    ensures r.Ok? <==> AllFit(lines, Unpacked)
    ensures r.Err? ==> r.failure.UnpackError? && FirstMisfit(lines, Unpacked, r.failure.line)
    ensures r.Ok? ==> |r.value| == 7
    ensures r.Ok? ==> forall k :: 0 <= k < 7 ==>
      IsSorted(r.value[k]) && multiset(r.value[k]) == multiset(RosterNames(lines, k))
  {
    var rosters := ReadRosters(lines);
    if rosters.Err? {
      return Err(rosters.failure);
    }
    return Ok(SortEach(rosters.value));
  }

  /** The reading loop of all_names_by_house: each line's name is appended to
      every roster it belongs to, in file order. */
  method ReadRosters(lines: seq<string>) returns (r: Result<seq<seq<string>>>)
    ensures r.Ok? <==> AllFit(lines, Unpacked)
    ensures r.Err? ==> r.failure.UnpackError? && FirstMisfit(lines, Unpacked, r.failure.line)
    ensures r.Ok? ==> |r.value| == 7 && forall k :: 0 <= k < 7 ==> r.value[k] == RosterNames(lines, k)
  {
    var dumbledoresArmy, gryffindor, hufflepuff, ravenclaw, slytherin := [], [], [], [], [];
    var ghosts, instructors := [], [];
    for i := 0 to |lines|
      invariant AllFit(lines[..i], Unpacked)
      invariant dumbledoresArmy == RosterNames(lines[..i], 0)
      invariant gryffindor == RosterNames(lines[..i], 1)
      invariant hufflepuff == RosterNames(lines[..i], 2)
      invariant ravenclaw == RosterNames(lines[..i], 3)
      invariant slytherin == RosterNames(lines[..i], 4)
      invariant ghosts == RosterNames(lines[..i], 5)
      invariant instructors == RosterNames(lines[..i], 6)
    {
      if !Fits(lines[i], Unpacked) {
        MisfitStops(lines, Unpacked, i);
        return Err(UnpackError(i));
      }
      RosterNamesStep(lines, i);
      var row := ParseRow(lines[i]);
      var name := RowName(row);
      var house := Lower(row.house);
      if house == HouseKeys[0] { dumbledoresArmy := dumbledoresArmy + [name]; }
      if house == HouseKeys[1] { gryffindor := gryffindor + [name]; }
      if house == HouseKeys[2] { hufflepuff := hufflepuff + [name]; }
      if house == HouseKeys[3] { ravenclaw := ravenclaw + [name]; }
      if house == HouseKeys[4] { slytherin := slytherin + [name]; }
      if row.flag == "G" { ghosts := ghosts + [name]; }
      if row.flag == "I" { instructors := instructors + [name]; }
    }
    assert lines[..|lines|] == lines;
    return Ok([dumbledoresArmy, gryffindor, hufflepuff, ravenclaw, slytherin, ghosts, instructors]);
  }

  /** all_data: one (full name, house, advisor, cohort) tuple per line, in
      file order. Unpacks five fields, so any other field count raises. */
  method AllData(lines: seq<string>) returns (r: Result<seq<Entry>>)
    ensures r.Ok? <==> AllFit(lines, Unpacked)
    ensures r.Err? ==> r.failure.UnpackError? && FirstMisfit(lines, Unpacked, r.failure.line)
    ensures r.Ok? ==> |r.value| == |lines|
    ensures r.Ok? ==> forall i :: 0 <= i < |lines| ==>
      var row := ParseRow(lines[i]);
      r.value[i] == Entry(RowName(row), row.house, row.advisor, row.flag)
  {
    var entries: seq<Entry> := [];
    for i := 0 to |lines|
      invariant AllFit(lines[..i], Unpacked)
      invariant |entries| == i
      invariant forall j :: 0 <= j < i ==>
        var row := ParseRow(lines[j]);
        entries[j] == Entry(RowName(row), row.house, row.advisor, row.flag)
    {
      if !Fits(lines[i], Unpacked) {
        MisfitStops(lines, Unpacked, i);
        return Err(UnpackError(i));
      }
      var row := ParseRow(lines[i]);
      entries := entries + [Entry(RowName(row), row.house, row.advisor, row.flag)];
      assert lines[..i + 1] == lines[..i] + [lines[i]];
    }
    assert lines[..|lines|] == lines;
    return Ok(entries);
  }

  /** get_cohort_for: the fifth field of the first line whose full name is
      name, or None. Unpacks five fields of each line it reads, and stops
      reading at the first match. */
  method GetCohortFor(lines: seq<string>, name: string) returns (r: Result<Option<string>>)
    ensures r == LookupFrom(lines, name, 0)
    ensures r == Ok(None) <==> NoMatchBefore(lines, name, |lines|)
    ensures r.Err? ==>
      r.failure.UnpackError? && NoMatchBefore(lines, name, r.failure.line) && FirstMisfit(lines, Unpacked, r.failure.line)
    ensures r.Ok? && r.value.Some? ==>
      exists i :: 0 <= i < |lines| && NoMatchBefore(lines, name, i) && Fits(lines[i], Unpacked)
        && RowName(ParseRow(lines[i])) == name && r.value.value == ParseRow(lines[i]).flag
  {
    for i := 0 to |lines|
      invariant NoMatchBefore(lines, name, i)
      invariant LookupFrom(lines, name, 0) == LookupFrom(lines, name, i)
    {
      if !Fits(lines[i], Unpacked) {
        MisfitStops(lines, Unpacked, i);
        return Err(UnpackError(i));
      }
      var row := ParseRow(lines[i]);
      if RowName(row) == name {
        return Ok(Some(row.flag));
      }
    }
    return Ok(None);
  }

  /** find_duped_last_names: the last names that two different lines carry,
      each once. Unpacks five fields, so any other field count raises. */
  method FindDupedLastNames(lines: seq<string>) returns (r: Result<set<string>>)
    ensures r.Ok? <==> AllFit(lines, Unpacked)
    ensures r.Err? ==> r.failure.UnpackError? && FirstMisfit(lines, Unpacked, r.failure.line)
    ensures r.Ok? ==> forall x :: x in r.value <==> Duplicated(lines, x)
  {
    var allNames: seq<string> := [];
    for i := 0 to |lines|
      invariant AllFit(lines[..i], Unpacked)
      invariant |allNames| == i && forall j :: 0 <= j < i ==> allNames[j] == LastName(lines[j])
    {
      if !Fits(lines[i], Unpacked) {
        MisfitStops(lines, Unpacked, i);
        return Err(UnpackError(i));
      }
      allNames := allNames + [ParseRow(lines[i]).last];
      assert lines[..i + 1] == lines[..i] + [lines[i]];
    }
    assert lines[..|lines|] == lines;
    assert allNames == LastNames(lines);

    // Every position but the last is tested against the names after it.
    var repeatedNames: set<string> := {};
    var idx := 0;
    while idx + 1 < |allNames|
      invariant idx <= |allNames|
      invariant allNames != [] ==> idx < |allNames|
      invariant forall x :: x in repeatedNames <==> RepeatedBefore(allNames, idx, x)
    {
      RepeatedBeforeStep(allNames, idx);
      if allNames[idx] in allNames[idx + 1..] {
        repeatedNames := repeatedNames + {allNames[idx]};
      }
      idx := idx + 1;
    }
    forall x ensures x in repeatedNames <==> Duplicated(lines, x) {
      DuplicatedIffCountTwo(lines, x);
      if allNames != [] {
        ScanFindsTwice(allNames, x);
      }
    }
    return Ok(repeatedNames);
  }

  /** The first phase of get_housemates_for: one list of (full name, cohort)
      tuples per house, by case-insensitive match, in the order
      Dumbledore's Army, Gryffindor, Hufflepuff, Ravenclaw, Slytherin.
      Unpacks five fields, so any other field count raises. */
  method SortIntoHouses(lines: seq<string>) returns (r: Result<seq<seq<Member>>>)
    ensures r.Ok? <==> AllFit(lines, Unpacked)
    ensures r.Err? ==> r.failure.UnpackError? && FirstMisfit(lines, Unpacked, r.failure.line)
    ensures r.Ok? ==> |r.value| == 5 && forall k :: 0 <= k < 5 ==> r.value[k] == HouseMembers(lines, k)
  {
    var dumbledoresArmy, gryffindor, hufflepuff, ravenclaw, slytherin := [], [], [], [], [];
    for i := 0 to |lines|
      invariant AllFit(lines[..i], Unpacked)
      invariant dumbledoresArmy == HouseMembers(lines[..i], 0)
      invariant gryffindor == HouseMembers(lines[..i], 1)
      invariant hufflepuff == HouseMembers(lines[..i], 2)
      invariant ravenclaw == HouseMembers(lines[..i], 3)
      invariant slytherin == HouseMembers(lines[..i], 4)
    {
      if !Fits(lines[i], Unpacked) {
        MisfitStops(lines, Unpacked, i);
        return Err(UnpackError(i));
      }
      HouseMembersStep(lines, i);
      var row := ParseRow(lines[i]);
      var member := Member(RowName(row), row.flag);
      var house := Lower(row.house);
      if house == HouseKeys[0] { dumbledoresArmy := dumbledoresArmy + [member]; }
      if house == HouseKeys[1] { gryffindor := gryffindor + [member]; }
      if house == HouseKeys[2] { hufflepuff := hufflepuff + [member]; }
      if house == HouseKeys[3] { ravenclaw := ravenclaw + [member]; }
      if house == HouseKeys[4] { slytherin := slytherin + [member]; }
    }
    assert lines[..|lines|] == lines;
    return Ok([dumbledoresArmy, gryffindor, hufflepuff, ravenclaw, slytherin]);
  }

  /** The search of get_housemates_for over its house lists: each list is
      scanned up to its first tuple carrying name, but the outer loop goes on,
      so the last list holding name wins. None when no list holds it. */
  method LocateInHouses(houseLists: seq<seq<Member>>, name: string)
    returns (currentList: Option<seq<Member>>, currentCohort: Option<string>)
    ensures currentList.None? <==> forall k :: 0 <= k < |houseLists| ==> !NameIn(houseLists[k], name)
    ensures currentList.Some? ==>
      exists k: nat :: LastHolder(houseLists, name, k)
        && currentList.value == houseLists[k] && currentCohort == Some(FirstCohort(houseLists[k], name))
  {
    currentCohort := None;
    currentList := None;
    ghost var chosen: int := -1;
    for k := 0 to |houseLists|
      invariant -1 <= chosen < k
      invariant chosen == -1 <==> forall k' :: 0 <= k' < k ==> !NameIn(houseLists[k'], name)
      invariant chosen == -1 ==> currentList == None
      invariant chosen >= 0 ==>
        && NameIn(houseLists[chosen], name)
        && (forall k' :: chosen < k' < k ==> !NameIn(houseLists[k'], name))
        && currentList == Some(houseLists[chosen])
        && currentCohort == Some(FirstCohort(houseLists[chosen], name))
    {
      var ls := houseLists[k];
      for t := 0 to |ls|
        invariant forall u :: 0 <= u < t ==> ls[u].name != name
      {
        if ls[t].name == name {
          FirstCohortAt(ls, name, t);
          currentCohort := Some(ls[t].cohort);
          currentList := Some(ls);
          chosen := k;
          break;
        }
      }
    }
    assert chosen >= 0 ==> LastHolder(houseLists, name, chosen);
  }

  /** The names of the tuples of a house list that carry the cohort. */
  method CollectClassmates(members: seq<Member>, cohort: string) returns (classmates: set<string>)
    ensures forall x :: x in classmates <==> Member(x, cohort) in members
  {
    classmates := {};
    for t := 0 to |members|
      invariant forall x :: x in classmates <==> Member(x, cohort) in members[..t]
    {
      assert members[..t + 1] == members[..t] + [members[t]];
      if members[t].cohort == cohort {
        classmates := classmates + {members[t].name};
      }
    }
    assert members[..|members|] == members;
  }

  /** get_housemates_for: the other students on name's house list who share
      name's cohort. The last house list that holds name decides; within it
      the first tuple carrying name gives the cohort. A name on no house list
      leaves current_ls None, and iterating over it raises. */
  method GetHousematesFor(lines: seq<string>, name: string) returns (r: Result<set<string>>)
    ensures !AllFit(lines, Unpacked) ==> r.Err? && r.failure.UnpackError? && FirstMisfit(lines, Unpacked, r.failure.line)
    ensures AllFit(lines, Unpacked) ==> (r.Err? <==> !OnSomeHouseList(lines, name))
    ensures AllFit(lines, Unpacked) && r.Err? ==> r.failure == NotInAnyHouse(name)
    ensures r.Ok? ==> name !in r.value
    ensures r.Ok? ==> AllFit(lines, Unpacked)
    ensures r.Ok? ==>
      exists k: nat :: k < 5 && LastHolder(HouseLists(lines), name, k)
        && forall x :: x in r.value <==>
             x != name && Member(x, FirstCohort(HouseMembers(lines, k), name)) in HouseMembers(lines, k)
  {
    var sorted := SortIntoHouses(lines);
    if sorted.Err? {
      return Err(sorted.failure);
    }
    var houseLists := sorted.value;
    assert houseLists == HouseLists(lines);
    r := HousematesIn(houseLists, name);
    if r.Err? {
      assert !OnSomeHouseList(lines, name) by {
        forall k | 0 <= k < 5 ensures !NameIn(HouseMembers(lines, k), name) {
          assert houseLists[k] == HouseMembers(lines, k);
        }
      }
    } else {
      ghost var k: nat :| LastHolder(houseLists, name, k)
        && forall x :: x in r.value <==> x != name && Member(x, FirstCohort(houseLists[k], name)) in houseLists[k];
      assert houseLists[k] == HouseMembers(lines, k);
      assert NameIn(HouseMembers(lines, k), name);
    }
  }

  /** The rest of get_housemates_for, once the five house lists are built:
      the search settles on the last list holding name and the cohort of its
      first tuple carrying name; the result is every other name of that list
      with that cohort. No list holding name leaves the search with None. */
  method HousematesIn(houseLists: seq<seq<Member>>, name: string) returns (r: Result<set<string>>)
    ensures r.Err? <==> forall k :: 0 <= k < |houseLists| ==> !NameIn(houseLists[k], name)
    ensures r.Err? ==> r.failure == NotInAnyHouse(name)
    ensures r.Ok? ==> name !in r.value
    ensures r.Ok? ==>
      exists k: nat :: LastHolder(houseLists, name, k)
        && forall x :: x in r.value <==> x != name && Member(x, FirstCohort(houseLists[k], name)) in houseLists[k]
  {
    var currentList, currentCohort := LocateInHouses(houseLists, name);
    if currentList == None {
      return Err(NotInAnyHouse(name));
    }
    ghost var house: nat :| LastHolder(houseLists, name, house)
      && currentList.value == houseLists[house] && currentCohort == Some(FirstCohort(houseLists[house], name));
    var members := currentList.value;
    var cohort := currentCohort.value;
    var classmateSet := CollectClassmates(members, cohort);
    // Removing name would raise if name were missing from the set; it never is.
    assert name in classmateSet;
    classmateSet := classmateSet - {name};
    return Ok(classmateSet);
  }
}
