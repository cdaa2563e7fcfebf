# Roster queries of cohort_data.py

`cohort_data.py` reads a pipe-delimited roster file. Each line has the form
`first|last|house|advisor|cohort_or_flag`, and the module answers seven
read-only queries over it:

- all house names;
- students by cohort;
- the seven rosters (five houses, Ghosts, Instructors);
- all rows as tuples;
- the cohort of a named person;
- duplicated last names;
- the housemates of a student.

This model replaces the open file by the sequence of lines its iterator
yields, trailing `"\n"` included. Each query is then a method with the loop
the Python function has. Each method's contract ties its result to a
specification over the lines. For students_by_cohort, all_names_by_house,
get_cohort_for and the house lists of get_housemates_for, that specification
is a recursive function. For all_houses, all_data and find_duped_last_names,
it is a statement quantified over line positions.

- `text.dfy` (module `Text`): the line-parsing idiom. It covers `rstrip()`
  (ASCII whitespace), `lower()` (ASCII) and `split('|')`. It proves that
  `split` and `join` are inverses.
- `order.dfy` (module `Order`): Python's string order and `sorted()`. Sorting
  is specified as "ascending and a permutation". A lemma shows that this
  specification admits exactly one result.
- `roster.dfy` (module `Roster`): the row and failure datatypes, the field
  count each query needs, and the specification functions of the queries.
  It also holds the lemmas about them.
- `cohort_data.dfy` (module `CohortData`): the seven queries as methods.

Each query needs a certain number of fields on every line:

- `all_houses` indexes `[2]` of the unstripped split, so it needs at least 3
  fields (`HouseIndexed`).
- `students_by_cohort` indexes `[4]` after `rstrip`, so it needs at least 5
  fields (`FlagIndexed`).
- The other queries unpack the line into exactly 5 fields (`Unpacked`).

A line that breaks this makes the query return `Err` instead of raising.
The `Err` carries the index of the first such line:

- `IndexError` where Python raises `IndexError`, on a missing third or
  fifth field;
- `UnpackError` where Python raises `ValueError`, on a line that does not
  unpack into exactly five names.

A query that stops early reports only the failures it reaches.
`get_cohort_for` returns at its first match, so it never reads the lines
after that match.

`get_housemates_for` iterates over `None` when the name is on no house list.
Python raises `TypeError` there; the model returns `NotInAnyHouse`. The model proves that the
`classmate_set.remove(name)` at line 262 never raises: the name is always in
the set.

Two behaviours of the code are worth stating outright:

- The docstring of `get_cohort_for` (cohort_data.py:164) mentions only a
  cohort or None. The function still raises on a line that does not unpack,
  provided no earlier line matched. `GetCohortFor` returns `UnpackError` in
  that case.
- An empty fifth field is an ordinary cohort for `get_housemates_for`.

Cohort "All" of `students_by_cohort` lists the names of every line whose
fifth field is neither I nor G. When the file uses the fifth fields I, G and
a set of real cohorts only, the real cohorts split that list between them
(`CohortsPartitionAll`). A line whose fifth field is literally "All" is the
exception: it is listed under "All" and under no real cohort.

## Model

| member | source | states |
|---|---|---|
| Text.RStrip | cohort_data.py:59 | the result is a prefix of the line; it does not end in whitespace; everything stripped is whitespace |
| Text.RStripLineEnding | cohort_data.py:59 | stripping text that does not end in whitespace, followed by any whitespace line ending, gives back the text |
| Text.Split | cohort_data.py:23 | split yields at least one piece, and no piece contains the separator |
| Text.Lower | cohort_data.py:115 | lower() keeps the length and lower-cases each ASCII letter, leaving every other character |
| Text.LowerMatches | cohort_data.py:115 | lower-casing a string gives a key without upper-case letters iff the string spells the key letter by letter in either case |
| Text.JoinSplit | cohort_data.py:23 | joining the pieces of a split with the separator gives back the string |
| Text.SplitJoin | cohort_data.py:59 | splitting a join of separator-free pieces gives back the pieces |
| Order.LessEq | cohort_data.py:70 | a <= b in Python's string order iff a is a prefix of b or, at the first position where they differ, a has the smaller code point |
| Order.Insert | cohort_data.py:70 | inserting into an ascending list keeps it ascending and adds exactly the one element |
| Order.Sort | cohort_data.py:70 | sorted() returns an ascending permutation of its argument |
| Order.SortedUnique | cohort_data.py:70 | two ascending lists with the same elements are equal, so any correct sort returns what Sort returns |
| Roster.Fields | cohort_data.py:59 | the fields of the stripped line: at least one, and none holds the separator |
| Roster.FieldsRejoin | cohort_data.py:59 | joining the fields with '\|' gives back the stripped line |
| Roster.ParseRow | cohort_data.py:155 | the five names of an unpacked line hold no separator |
| Roster.ParseRowRejoins | cohort_data.py:155 | the five unpacked fields hold no separator and rejoin with '\|' to the stripped line |
| Roster.ParseFormat | cohort_data.py:155 | writing a row as a line with any whitespace ending and unpacking it gives back the row |
| Roster.CohortNamesMembers | cohort_data.py:56-68 | a name is collected iff some line qualifies for the cohort and carries that full name; with "All" a line qualifies iff its fifth field is neither I nor G, otherwise iff it equals the cohort |
| Roster.CohortWithinAll | cohort_data.py:56-68 | for any cohort other than I and G, every name collected is collected under "All" at least as often |
| Roster.CohortsPartitionAll | cohort_data.py:56-68 | when every fifth field is I, G or one of a list of distinct cohorts other than "All", the "All" list holds exactly the names those cohorts list, each as often |
| Roster.CohortsDisjoint | cohort_data.py:63-68 | two different cohorts other than I, G and "All" draw on disjoint lines: together they list no name more often than "All" does |
| Roster.RosterNamesMembers | cohort_data.py:113-128 | a name is on roster k iff some line carries it and belongs to roster k: a case-insensitive house match for the five houses, flag G for Ghosts, flag I for Instructors |
| Roster.HouseMatchIgnoresCase | cohort_data.py:115-124 | a line is on house roster k iff its house spells that house's name in any mix of upper and lower case |
| Roster.RosterTotals | cohort_data.py:113-128 | the five house rosters together, and Ghosts with Instructors together, hold at most one name per line; together they hold at least one name per line with a known house or a G or I flag |
| Roster.HouseMembersNames | cohort_data.py:235-246 | the names on each house list of get_housemates_for are exactly the house roster of all_names_by_house, in file order |
| Roster.FirstCohort | cohort_data.py:252-256 | the cohort the inner loop keeps belongs to a tuple of that list carrying the name |
| Roster.FirstCohortAt | cohort_data.py:252-256 | when tuple t is the first to carry the name, the kept cohort is that tuple's cohort |
| Roster.LookupIgnoresLaterLines | cohort_data.py:184-187 | once the scan has matched or failed, appending lines does not change the answer |
| Roster.RepeatedBeforeStep | cohort_data.py:212-214 | one more step of the scan adds a name exactly when the name at that position occurs again later |
| Roster.ScanFindsTwice | cohort_data.py:212-214 | scanning every position but the last finds exactly the names at two different positions |
| Roster.DuplicatedIffCountTwo | cohort_data.py:206-215 | a last name is on two different lines iff it occurs twice in the last-name list, iff its count there is at least two |
| CohortData.AllHouses | cohort_data.py:18-26 | fails at the first line with fewer than three fields; otherwise the set holds exactly the non-empty third fields and never "" |
| CohortData.StudentsByCohort | cohort_data.py:55-70 | fails at the first line with fewer than five fields after rstrip; otherwise the result is an ascending permutation of the qualifying full names |
| CohortData.SortEach | cohort_data.py:129 | each list comes back ascending and as a permutation of itself, in the same position |
| CohortData.ReadRosters | cohort_data.py:104-128 | fails at the first line that does not unpack; otherwise the seven lists are the rosters in file order |
| CohortData.AllNamesByHouse | cohort_data.py:104-129 | fails at the first line that does not unpack; otherwise there are exactly seven lists, in the fixed order, each an ascending permutation of its roster |
| CohortData.AllData | cohort_data.py:150-158 | fails at the first line that does not unpack; otherwise there is one tuple per line, and tuple i is (full name, house, advisor, cohort) of line i |
| CohortData.GetCohortFor | cohort_data.py:182-187 | returns the fifth field of the first line whose full name matches, or None iff every line unpacks and none matches; fails on a line that does not unpack before any match |
| CohortData.FindDupedLastNames | cohort_data.py:204-215 | fails at the first line that does not unpack; otherwise a last name is in the result iff two different lines carry it |
| CohortData.SortIntoHouses | cohort_data.py:228-246 | fails at the first line that does not unpack; otherwise the five lists hold the (full name, cohort) tuples of each house in file order |
| CohortData.LocateInHouses | cohort_data.py:248-256 | None iff no list holds the name; otherwise the last list holding the name, with the cohort of its first tuple carrying the name |
| CohortData.CollectClassmates | cohort_data.py:258-261 | a name is collected iff the list has a tuple with that name and the cohort |
| CohortData.HousematesIn | cohort_data.py:248-264 | fails iff no house list holds the name; otherwise the result never holds the name and holds exactly the other names with the kept cohort on the last list holding the name |
| CohortData.GetHousematesFor | cohort_data.py:217-264 | fails at the first line that does not unpack; fails iff the name is on no house list; otherwise the result never holds the name and holds exactly the other names sharing the cohort on the last house list that holds the name |

## Left out

- Opening the file and the handles that are never closed (lines 20, 55, 112, 152, 182, 204, 234): a query receives the file's lines instead.
- The doctest runner under `__main__` (lines 270-280): it is test plumbing.
- Text.RStrip and Text.Lower: only ASCII whitespace and ASCII letters are covered, not Python's full Unicode tables.
- FindDupedLastNames: returns a set. The source returns `list(repeated_names)`, whose order is not modelled; the docstring promises a set.
- The default argument `cohort='All'` of students_by_cohort (line 28): StudentsByCohort always takes the cohort, and a caller passes "All" for the default.
- The two `if` blocks of students_by_cohort (lines 56-68) are modelled as one loop that picks its test by the cohort argument. Exactly one of the two blocks runs for any cohort, so nothing is lost.
