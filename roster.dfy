/** The roster file's records, the failures its queries raise, and the
    declarative specification of what each query computes. */
module Roster {
  import opened Text

  datatype Option<T> = None | Some(value: T)

  /** The Python exception a query raises, with the index of the line that
      raised it. */
  datatype Failure =
    | IndexError(line: nat)        // IndexError: the third or the fifth field is missing
    | UnpackError(line: nat)       // ValueError: the line does not unpack into exactly five fields
    | NotInAnyHouse(name: string)  // TypeError: get_housemates_for iterates over None

  datatype Result<T> = Ok(value: T) | Err(failure: Failure)

  /** One line: first|last|house|advisor|cohort_or_flag. */
  datatype Row = Row(first: string, last: string, house: string, advisor: string, flag: string)

  /** One tuple of all_data: (full name, house, advisor, cohort). */
  datatype Entry = Entry(name: string, house: string, advisor: string, cohort: string)

  /** One tuple of a house list in get_housemates_for: (full name, cohort). */
  datatype Member = Member(name: string, cohort: string)

  /** The fields of a line: trailing whitespace stripped, then split at every '|'. */
  function Fields(line: string): (fields: seq<string>)
    ensures |fields| >= 1
    ensures forall k :: 0 <= k < |fields| ==> '|' !in fields[k]
  {
    Split(RStrip(line), '|')
  }

  /** Joining the fields of a line with '|' gives back the stripped line. */
  lemma FieldsRejoin(line: string)
    ensures Join(Fields(line), '|') == RStrip(line)
  {
    JoinSplit(RStrip(line), '|');
  }

  /** How much of a line a query touches before it can fail. */
  datatype Shape =
    | HouseIndexed  // reads the third field of the unstripped line: needs three or more
    | FlagIndexed   // reads the fifth field of the stripped line: needs five or more
    | Unpacked      // unpacks the stripped line into five names: needs exactly five

  predicate Fits(line: string, shape: Shape) {
    match shape
    case HouseIndexed => |Split(line, '|')| > 2
    case FlagIndexed => |Fields(line)| > 4
    case Unpacked => |Fields(line)| == 5
  }

  predicate AllFit(lines: seq<string>, shape: Shape) {
    forall i :: 0 <= i < |lines| ==> Fits(lines[i], shape)
  }

  /** Line i is the first line a query of this shape fails on. */
  predicate FirstMisfit(lines: seq<string>, shape: Shape, i: nat) {
    i < |lines| && !Fits(lines[i], shape) && forall j :: 0 <= j < i ==> Fits(lines[j], shape)
  }

  /** A query stops at the first line that does not fit. */
  lemma MisfitStops(lines: seq<string>, shape: Shape, i: nat)
    requires i < |lines| && AllFit(lines[..i], shape) && !Fits(lines[i], shape)
    ensures FirstMisfit(lines, shape, i) && !AllFit(lines, shape)
  {
    assert forall j :: 0 <= j < i ==> lines[..i][j] == lines[j];
  }

  function FullName(first: string, last: string): string {
    first + " " + last
  }

  /** The five fields, joined back with the separator. */
  function Format(row: Row): string {
    Join([row.first, row.last, row.house, row.advisor, row.flag], '|')
  }

  /** No field of the row holds the separator. */
  predicate SeparatorFree(row: Row) {
    && '|' !in row.first && '|' !in row.last && '|' !in row.house
    && '|' !in row.advisor && '|' !in row.flag
  }

  /** Tuple unpacking of a five-field line: none of the five names holds the
      separator (ParseRowRejoins: they rejoin to the stripped line). */
  function ParseRow(line: string): (row: Row)
    requires Fits(line, Unpacked)
    ensures SeparatorFree(row)
  {
    var f := Fields(line);
    Row(f[0], f[1], f[2], f[3], f[4])
  }

  /** The unpacked fields hold no separator and rejoin to the stripped line. */
  lemma ParseRowRejoins(line: string)
    requires Fits(line, Unpacked)
    ensures Format(ParseRow(line)) == RStrip(line)
    ensures Writable(ParseRow(line))
  {
    var f := Fields(line);
    var row := ParseRow(line);
    JoinSplit(RStrip(line), '|');
    assert [f[0], f[1], f[2], f[3], f[4]] == f;
    FormatEndsWithFlag(row);
  }

  /** The formatted line is everything up to the last separator, then the flag. */
  lemma FormatEndsWithFlag(row: Row)
    ensures Format(row) == row.first + "|" + row.last + "|" + row.house + "|" + row.advisor + "|" + row.flag
  {
    var parts := [row.first, row.last, row.house, row.advisor, row.flag];
    var p1, p2, p3 := parts[1..], parts[1..][1..], parts[1..][1..][1..];
    assert p3 == [row.advisor, row.flag] && p3[1..] == [row.flag];
    assert Join(p3, '|') == row.advisor + "|" + row.flag;
    assert p2 == [row.house, row.advisor, row.flag] && p2[1..] == p3;
    assert Join(p2, '|') == row.house + "|" + row.advisor + "|" + row.flag;
    assert p1[1..] == p2;
    assert Join(p1, '|') == row.last + "|" + row.house + "|" + row.advisor + "|" + row.flag;
  }

  /** A row that survives a write-then-read: no field holds the separator and
      the line does not end in whitespace that rstrip would eat. */
  predicate Writable(row: Row) {
    SeparatorFree(row) && (row.flag == [] || !IsSpace(row.flag[|row.flag| - 1]))
  }

  /** Writing a row as a line, with any whitespace line ending, and reading it
      back gives the row. */
  lemma ParseFormat(row: Row, eol: string)
    requires Writable(row)
    requires forall k :: 0 <= k < |eol| ==> IsSpace(eol[k])
    ensures Fits(Format(row) + eol, Unpacked)
    ensures ParseRow(Format(row) + eol) == row
  {
    var parts := [row.first, row.last, row.house, row.advisor, row.flag];
    var text := Format(row);
    var front := row.first + "|" + row.last + "|" + row.house + "|" + row.advisor + "|";
    FormatEndsWithFlag(row);
    assert text == front + row.flag;
    assert text[|text| - 1] == if row.flag == [] then '|' else row.flag[|row.flag| - 1];
    RStripLineEnding(text, eol);
    SplitJoin(parts, '|');
  }

  /** Which branch of students_by_cohort keeps a line with this fifth field. */
  predicate InCohort(flag: string, cohort: string) {
    if cohort == "All" then flag != "I" && flag != "G" else flag == cohort
  }

  /** Full names of the lines students_by_cohort keeps, in file order. */
  function CohortNames(lines: seq<string>, cohort: string): seq<string>
    requires AllFit(lines, FlagIndexed)
    decreases |lines|
  {
    if lines == [] then []
    else
      var f := Fields(lines[|lines| - 1]);
      CohortNames(lines[..|lines| - 1], cohort) + (if InCohort(f[4], cohort) then [FullName(f[0], f[1])] else [])
  }

  /** Reading one more line appends its name when its branch keeps it. */
  lemma CohortNamesStep(lines: seq<string>, i: nat, cohort: string)
    requires i < |lines| && AllFit(lines[..i], FlagIndexed) && Fits(lines[i], FlagIndexed)
    ensures AllFit(lines[..i + 1], FlagIndexed)
    ensures var f := Fields(lines[i]);
      CohortNames(lines[..i + 1], cohort) ==
        CohortNames(lines[..i], cohort) + (if InCohort(f[4], cohort) then [FullName(f[0], f[1])] else [])
  {
    assert lines[..i + 1][..i] == lines[..i];
    assert lines[..i + 1][i] == lines[i];
  }

  /** A name is listed iff some line of the cohort carries it. */
  lemma {:induction false} CohortNamesMembers(lines: seq<string>, cohort: string, x: string)
    requires AllFit(lines, FlagIndexed)
    ensures x in CohortNames(lines, cohort) <==>
      exists i :: 0 <= i < |lines| && InCohort(Fields(lines[i])[4], cohort) && FullName(Fields(lines[i])[0], Fields(lines[i])[1]) == x
    decreases |lines|
  {
    if lines != [] {
      var init := lines[..|lines| - 1];
      CohortNamesMembers(init, cohort, x);
      assert forall i :: 0 <= i < |init| ==> init[i] == lines[i];
    }
  }

  /** Every name listed for a real cohort is also listed under "All", as often. */
  lemma {:induction false} CohortWithinAll(lines: seq<string>, cohort: string)
    requires AllFit(lines, FlagIndexed)
    requires cohort != "I" && cohort != "G"
    ensures multiset(CohortNames(lines, cohort)) <= multiset(CohortNames(lines, "All"))
    decreases |lines|
  {
    if lines != [] {
      CohortWithinAll(lines[..|lines| - 1], cohort);
    }
  }

  /** No cohort is named twice. */
  predicate Distinct(cohorts: seq<string>) {
    forall i, j :: 0 <= i < j < |cohorts| ==> cohorts[i] != cohorts[j]
  }

  /** The names students_by_cohort lists for each cohort of cohorts, as
      multisets, in the order of cohorts. */
  function CohortLists(lines: seq<string>, cohorts: seq<string>): (lists: seq<multiset<string>>)
    requires AllFit(lines, FlagIndexed)
    ensures |lists| == |cohorts|
    ensures forall i :: 0 <= i < |cohorts| ==> lists[i] == multiset(CohortNames(lines, cohorts[i]))
  {
    seq(|cohorts|, i requires 0 <= i < |cohorts| => multiset(CohortNames(lines, cohorts[i])))
  }

  /** The union of the lists, each element counted as often as in all of them. */
  function Pool(lists: seq<multiset<string>>): multiset<string>
    decreases |lists|
  {
    if lists == [] then multiset{} else lists[0] + Pool(lists[1..])
  }

  /** Adding one name to the list of the one cohort that equals flag, when
      there is one, adds it to the pool once. */
  lemma {:induction false} PoolStep(before: seq<multiset<string>>, after: seq<multiset<string>>,
                                    cohorts: seq<string>, flag: string, added: multiset<string>)
    requires |before| == |after| == |cohorts| && Distinct(cohorts)
    requires forall i :: 0 <= i < |cohorts| ==>
      after[i] == before[i] + (if cohorts[i] == flag then added else multiset{})
    ensures Pool(after) == Pool(before) + (if flag in cohorts then added else multiset{})
    decreases |cohorts|
  {
    if cohorts != [] {
      var rest := cohorts[1..];
      assert forall j :: 0 <= j < |rest| ==> rest[j] == cohorts[j + 1];
      assert Distinct(rest) && cohorts[0] !in rest;
      PoolStep(before[1..], after[1..], rest, flag, added);
      assert flag in cohorts <==> flag == cohorts[0] || flag in rest by {
        assert cohorts == [cohorts[0]] + rest;
      }
    }
  }

  /** When every fifth field is I, G or one of the cohorts, and "All" is not
      among them, "All" lists exactly the names the cohorts list between them,
      each as often: the cohorts partition the "All" list. A line whose fifth
      field is literally "All" is listed under "All" but under no cohort. */
  lemma {:induction false} CohortsPartitionAll(lines: seq<string>, cohorts: seq<string>)
    requires AllFit(lines, FlagIndexed)
    requires Distinct(cohorts) && "All" !in cohorts && "I" !in cohorts && "G" !in cohorts
    requires forall i :: 0 <= i < |lines| ==>
      Fields(lines[i])[4] in cohorts || Fields(lines[i])[4] == "I" || Fields(lines[i])[4] == "G"
    ensures multiset(CohortNames(lines, "All")) == Pool(CohortLists(lines, cohorts))
    decreases |lines|
  {
    if lines == [] {
      PoolOfEmpty(CohortLists(lines, cohorts));
    } else {
      var init := lines[..|lines| - 1];
      var f := Fields(lines[|lines| - 1]);
      assert forall i :: 0 <= i < |init| ==> init[i] == lines[i];
      CohortsPartitionAll(init, cohorts);
      CohortListsStep(lines, cohorts);
      PoolStep(CohortLists(init, cohorts), CohortLists(lines, cohorts), cohorts, f[4], multiset{FullName(f[0], f[1])});
    }
  }

  /** Reading one more line adds its name to the list of its own cohort only. */
  lemma CohortListsStep(lines: seq<string>, cohorts: seq<string>)
    requires lines != [] && AllFit(lines, FlagIndexed) && "All" !in cohorts
    ensures var f := Fields(lines[|lines| - 1]);
      forall i :: 0 <= i < |cohorts| ==>
        CohortLists(lines, cohorts)[i] == CohortLists(lines[..|lines| - 1], cohorts)[i]
          + (if cohorts[i] == f[4] then multiset{FullName(f[0], f[1])} else multiset{})
  {
  }

  lemma {:induction false} PoolOfEmpty(lists: seq<multiset<string>>)
    requires forall i :: 0 <= i < |lists| ==> lists[i] == multiset{}
    ensures Pool(lists) == multiset{}
    decreases |lists|
  {
    if lists != [] { PoolOfEmpty(lists[1..]); }
  }

  /** Two different cohorts other than I, G and "All" draw on disjoint lines:
      together they list no more of a name than "All" does. */
  lemma {:induction false} CohortsDisjoint(lines: seq<string>, c1: string, c2: string)
    requires AllFit(lines, FlagIndexed)
    requires c1 != c2
    requires c1 !in {"All", "I", "G"} && c2 !in {"All", "I", "G"}
    ensures multiset(CohortNames(lines, c1)) + multiset(CohortNames(lines, c2)) <= multiset(CohortNames(lines, "All"))
    decreases |lines|
  {
    if lines != [] {
      CohortsDisjoint(lines[..|lines| - 1], c1, c2);
    }
  }

  /** The lowered house names of the five house rosters, in roster order. */
  const HouseKeys: seq<string> := ["dumbledore's army", "gryffindor", "hufflepuff", "ravenclaw", "slytherin"]

  /** Roster k of all_names_by_house: 0-4 the houses by case-insensitive
      match, 5 the Ghosts (flag G), 6 the Instructors (flag I). */
  predicate InRoster(row: Row, k: nat)
    requires k < 7
  {
    if k < 5 then Lower(row.house) == HouseKeys[k]
    else if k == 5 then row.flag == "G"
    else row.flag == "I"
  }

  /** A line is on house roster k exactly when its house spells that house's
      key in any mix of upper and lower case. */
  lemma HouseMatchIgnoresCase(row: Row, k: nat)
    requires k < 5
    ensures InRoster(row, k) <==>
      |row.house| == |HouseKeys[k]| && forall i :: 0 <= i < |row.house| ==> SameUpToCase(row.house[i], HouseKeys[k][i])
  {
    var key := HouseKeys[k];
    assert forall i :: 0 <= i < |key| ==> !IsUpper(key[i]);
    LowerMatches(row.house, key);
  }

  function RowName(row: Row): string {
    FullName(row.first, row.last)
  }

  /** Roster k before sorting: the full names of its lines in file order. */
  function RosterNames(lines: seq<string>, k: nat): seq<string>
    requires AllFit(lines, Unpacked) && k < 7
    decreases |lines|
  {
    if lines == [] then []
    else
      var row := ParseRow(lines[|lines| - 1]);
      RosterNames(lines[..|lines| - 1], k) + (if InRoster(row, k) then [RowName(row)] else [])
  }

  /** Reading one more line appends its name to each roster it belongs to. */
  lemma RosterNamesStep(lines: seq<string>, i: nat)
    requires i < |lines| && AllFit(lines[..i], Unpacked) && Fits(lines[i], Unpacked)
    ensures AllFit(lines[..i + 1], Unpacked)
    ensures forall k :: 0 <= k < 7 ==>
      RosterNames(lines[..i + 1], k) == RosterNames(lines[..i], k) + (if InRoster(ParseRow(lines[i]), k) then [RowName(ParseRow(lines[i]))] else [])
  {
    assert lines[..i + 1][..i] == lines[..i];
    assert lines[..i + 1][i] == lines[i];
  }

  /** A name is on roster k iff some line that belongs to roster k carries it. */
  lemma {:induction false} RosterNamesMembers(lines: seq<string>, k: nat, x: string)
    requires AllFit(lines, Unpacked) && k < 7
    ensures x in RosterNames(lines, k) <==>
      exists i :: 0 <= i < |lines| && InRoster(ParseRow(lines[i]), k) && RowName(ParseRow(lines[i])) == x
    decreases |lines|
  {
    if lines != [] {
      var init := lines[..|lines| - 1];
      RosterNamesMembers(init, k, x);
      assert forall i :: 0 <= i < |init| ==> init[i] == lines[i];
    }
  }

  /** The line is on a house roster or carries the ghost or instructor flag. */
  predicate Classified(row: Row) {
    Lower(row.house) in HouseKeys || row.flag == "G" || row.flag == "I"
  }

  function ClassifiedCount(lines: seq<string>): nat
    requires AllFit(lines, Unpacked)
    decreases |lines|
  {
    if lines == [] then 0
    else ClassifiedCount(lines[..|lines| - 1]) + (if Classified(ParseRow(lines[|lines| - 1])) then 1 else 0)
  }

  function HouseTotal(lines: seq<string>): nat
    requires AllFit(lines, Unpacked)
  {
    |RosterNames(lines, 0)| + |RosterNames(lines, 1)| + |RosterNames(lines, 2)|
      + |RosterNames(lines, 3)| + |RosterNames(lines, 4)|
  }

  function FlagTotal(lines: seq<string>): nat
    requires AllFit(lines, Unpacked)
  {
    |RosterNames(lines, 5)| + |RosterNames(lines, 6)|
  }

  /** Each line lands on at most one house roster and on at most one of
      Ghosts and Instructors, and every classified line lands somewhere. */
  lemma {:induction false} RosterTotals(lines: seq<string>)
    requires AllFit(lines, Unpacked)
    ensures HouseTotal(lines) <= |lines|
    ensures FlagTotal(lines) <= |lines|
    ensures HouseTotal(lines) + FlagTotal(lines) >= ClassifiedCount(lines)
    decreases |lines|
  {
    if lines != [] {
      var init := lines[..|lines| - 1];
      RosterTotals(init);
    }
  }

  /** One house list of get_housemates_for: (full name, cohort) in file order. */
  function HouseMembers(lines: seq<string>, k: nat): seq<Member>
    requires AllFit(lines, Unpacked) && k < 5
    decreases |lines|
  {
    if lines == [] then []
    else
      var row := ParseRow(lines[|lines| - 1]);
      HouseMembers(lines[..|lines| - 1], k) + (if InRoster(row, k) then [Member(RowName(row), row.flag)] else [])
  }

  /** Reading one more line appends its tuple to the house list it belongs to. */
  lemma HouseMembersStep(lines: seq<string>, i: nat)
    requires i < |lines| && AllFit(lines[..i], Unpacked) && Fits(lines[i], Unpacked)
    ensures AllFit(lines[..i + 1], Unpacked)
    ensures forall k :: 0 <= k < 5 ==>
      HouseMembers(lines[..i + 1], k) == HouseMembers(lines[..i], k)
        + (if InRoster(ParseRow(lines[i]), k) then [Member(RowName(ParseRow(lines[i])), ParseRow(lines[i]).flag)] else [])
  {
    assert lines[..i + 1][..i] == lines[..i];
    assert lines[..i + 1][i] == lines[i];
  }

  /** The five house lists, in the order the search visits them. */
  function HouseLists(lines: seq<string>): (lists: seq<seq<Member>>)
    requires AllFit(lines, Unpacked)
    ensures |lists| == 5 && forall k :: 0 <= k < 5 ==> lists[k] == HouseMembers(lines, k)
  {
    seq(5, k requires 0 <= k < 5 => HouseMembers(lines, k))
  }

  function Names(ms: seq<Member>): seq<string> {
    seq(|ms|, i requires 0 <= i < |ms| => ms[i].name)
  }

  /** get_housemates_for's house lists hold exactly the names of
      all_names_by_house's house rosters, in file order. */
  lemma {:induction false} HouseMembersNames(lines: seq<string>, k: nat)
    requires AllFit(lines, Unpacked) && k < 5
    ensures Names(HouseMembers(lines, k)) == RosterNames(lines, k)
    decreases |lines|
  {
    if lines != [] {
      HouseMembersNames(lines[..|lines| - 1], k);
    }
  }

  predicate NameIn(ms: seq<Member>, name: string) {
    exists i :: 0 <= i < |ms| && ms[i].name == name
  }

  /** The cohort of the first tuple carrying name: the inner loop's break. */
  function FirstCohort(ms: seq<Member>, name: string): (c: string)
    requires NameIn(ms, name)
    ensures Member(name, c) in ms
    decreases |ms|
  {
    if ms[0].name == name then ms[0].cohort
    else
      assert NameIn(ms[1..], name) by {
        var i :| 0 <= i < |ms| && ms[i].name == name;
        assert ms[1..][i - 1].name == name;
      }
      FirstCohort(ms[1..], name)
  }

  /** When tuple t is the first one carrying name, its cohort is the one kept. */
  lemma {:induction false} FirstCohortAt(ms: seq<Member>, name: string, t: nat)
    requires t < |ms| && ms[t].name == name
    requires forall u :: 0 <= u < t ==> ms[u].name != name
    ensures NameIn(ms, name) && FirstCohort(ms, name) == ms[t].cohort
    decreases t
  {
    if t > 0 {
      FirstCohortAt(ms[1..], name, t - 1);
    }
  }

  /** Some house list of get_housemates_for carries name. */
  predicate OnSomeHouseList(lines: seq<string>, name: string)
    requires AllFit(lines, Unpacked)
  {
    exists k :: 0 <= k < 5 && NameIn(HouseMembers(lines, k), name)
  }

  /** List k holds name and no later list does: the list the search of
      get_housemates_for settles on, since it does not stop at the first hit. */
  predicate LastHolder(lists: seq<seq<Member>>, name: string, k: nat) {
    k < |lists| && NameIn(lists[k], name)
    && forall k' :: k < k' < |lists| ==> !NameIn(lists[k'], name)
  }

  /** get_cohort_for's scan from line i: the cohort of the first line whose
      full name is name, or None; lines past that one are never read. */
  function LookupFrom(lines: seq<string>, name: string, i: nat): Result<Option<string>>
    requires i <= |lines|
    decreases |lines| - i
  {
    if i == |lines| then Ok(None)
    else if !Fits(lines[i], Unpacked) then Err(UnpackError(i))
    else if RowName(ParseRow(lines[i])) == name then Ok(Some(ParseRow(lines[i]).flag))
    else LookupFrom(lines, name, i + 1)
  }

  /** Lines appended after the first match, or after the line that fails, do
      not change the answer. */
  lemma {:induction false} LookupIgnoresLaterLines(lines: seq<string>, more: seq<string>, name: string, i: nat)
    requires i <= |lines|
    requires LookupFrom(lines, name, i) != Ok(None)
    ensures LookupFrom(lines + more, name, i) == LookupFrom(lines, name, i)
    decreases |lines| - i
  {
    assert (lines + more)[i] == lines[i];
    if Fits(lines[i], Unpacked) && RowName(ParseRow(lines[i])) != name {
      LookupIgnoresLaterLines(lines, more, name, i + 1);
    }
  }

  /** No line before i fails to unpack or carries name. */
  predicate NoMatchBefore(lines: seq<string>, name: string, i: nat) {
    i <= |lines| && forall j :: 0 <= j < i ==> Fits(lines[j], Unpacked) && RowName(ParseRow(lines[j])) != name
  }

  function LastName(line: string): string
    requires Fits(line, Unpacked)
  {
    ParseRow(line).last
  }

  /** x occurs at two different positions of names. */
  predicate Twice(names: seq<string>, x: string) {
    exists i, j :: 0 <= i < j < |names| && names[i] == x && names[j] == x
  }

  /** x is the last name of two different lines. */
  predicate Duplicated(lines: seq<string>, x: string)
    requires AllFit(lines, Unpacked)
  {
    exists i, j :: 0 <= i < j < |lines| && LastName(lines[i]) == x && LastName(lines[j]) == x
  }

  /** The test of the duplicate scan: x is at some position before idx and
      again somewhere after that position. */
  predicate RepeatedBefore(names: seq<string>, idx: nat, x: string)
    requires idx <= |names|
  {
    exists k :: 0 <= k < idx && names[k] == x && x in names[k + 1..]
  }

  /** One more step of the scan adds names[idx] when it occurs again later. */
  lemma RepeatedBeforeStep(names: seq<string>, idx: nat)
    requires idx < |names|
    ensures forall x :: RepeatedBefore(names, idx + 1, x) <==>
      RepeatedBefore(names, idx, x) || (x == names[idx] && x in names[idx + 1..])
  {
    forall x ensures RepeatedBefore(names, idx + 1, x) <==>
      RepeatedBefore(names, idx, x) || (x == names[idx] && x in names[idx + 1..])
    {
      if RepeatedBefore(names, idx + 1, x) && !RepeatedBefore(names, idx, x) {
        var k :| 0 <= k < idx + 1 && names[k] == x && x in names[k + 1..];
        assert k == idx;
      }
      if x == names[idx] && x in names[idx + 1..] {
        assert 0 <= idx < idx + 1 && names[idx] == x;
      }
    }
  }

  /** Scanning every position but the last finds exactly the names that occur
      twice: the last position has nothing after it. */
  lemma ScanFindsTwice(names: seq<string>, x: string)
    requires names != []
    ensures RepeatedBefore(names, |names| - 1, x) <==> Twice(names, x)
  {
    if RepeatedBefore(names, |names| - 1, x) {
      var k :| 0 <= k < |names| - 1 && names[k] == x && x in names[k + 1..];
      var d :| 0 <= d < |names[k + 1..]| && names[k + 1..][d] == x;
      assert names[k + 1 + d] == x;
    }
    if Twice(names, x) {
      var i, j :| 0 <= i < j < |names| && names[i] == x && names[j] == x;
      assert names[i + 1..][j - i - 1] == x;
    }
  }

  function LastNames(lines: seq<string>): (names: seq<string>)
    requires AllFit(lines, Unpacked)
    ensures |names| == |lines| && forall i :: 0 <= i < |lines| ==> names[i] == LastName(lines[i])
  {
    seq(|lines|, i requires 0 <= i < |lines| => LastName(lines[i]))
  }

  /** Two occurrences at distinct positions iff a count of at least two. */
  lemma {:induction false} PairIffTwice(names: seq<string>, x: string)
    ensures Twice(names, x) <==> multiset(names)[x] >= 2
    decreases |names|
  {
    if names != [] {
      var init := names[..|names| - 1];
      var y := names[|names| - 1];
      PairIffTwice(init, x);
      assert names == init + [y];
      if Twice(names, x) {
        var i, j :| 0 <= i < j < |names| && names[i] == x && names[j] == x;
        if j < |init| {
          assert init[i] == x && init[j] == x;
        } else {
          assert init[i] == x && x in init;
        }
      }
      if multiset(names)[x] >= 2 && multiset(init)[x] < 2 {
        assert y == x && x in multiset(init);
        var i :| 0 <= i < |init| && init[i] == x;
        assert names[i] == x && names[|names| - 1] == x;
      }
    }
  }

  /** Duplicated agrees with counting: a last name occurring at least twice. */
  lemma DuplicatedIffCountTwo(lines: seq<string>, x: string)
    requires AllFit(lines, Unpacked)
    ensures Duplicated(lines, x) <==> Twice(LastNames(lines), x)
    ensures Duplicated(lines, x) <==> multiset(LastNames(lines))[x] >= 2
  {
    var names := LastNames(lines);
    if Twice(names, x) {
      var i, j :| 0 <= i < j < |names| && names[i] == x && names[j] == x;
      assert LastName(lines[i]) == x && LastName(lines[j]) == x;
    }
    PairIffTwice(names, x);
  }
}
