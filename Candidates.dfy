/** The candidate lists the results page derives, on every render, from the
    fetched records and the current selection (src/app/results/page.tsx). */
module Candidates {
  import opened Seqs
  import opened Strings
  import opened Records

  /** `[...new Set(courses.map(c => c.instructor1))]`: every instructor once,
      in the order of first appearance. */
  function Professors(courses: seq<Section>): (r: seq<string>)
    ensures forall c :: c in courses ==> c.instructor in r
    ensures forall p :: p in r ==> exists c :: c in courses && c.instructor == p
    ensures NoDuplicates(r)
  {
    var names := Map(courses, (c: Section) => c.instructor);
    forall p ensures p in names <==> exists c :: c in courses && c.instructor == p {
      MapMembership(courses, (c: Section) => c.instructor, p);
    }
    Distinct(names)
  }

  /** Professors are listed in the order their first record appears. */
  lemma ProfessorsFirstSeen(courses: seq<Section>)
    ensures var names := Map(courses, (c: Section) => c.instructor);
      forall i, j :: 0 <= i < j < |Professors(courses)| ==>
        IndexOf(names, Professors(courses)[i]) < IndexOf(names, Professors(courses)[j])
  {
    DistinctFirstSeen(Map(courses, (c: Section) => c.instructor));
  }

  /** The record is taught by the selected professor (who must be truthy). */
  predicate TaughtBy(c: Section, professor: Option<string>)
  {
    Truthy(professor) && c.instructor == professor.value
  }

  /** `filteredCourses`: no records while no professor is selected, otherwise
      exactly the records of that professor. */
  function FilteredCourses(courses: seq<Section>, professor: Option<string>): (r: seq<Section>)
    ensures !Truthy(professor) ==> r == []
    ensures forall c :: multiset(r)[c] == if TaughtBy(c, professor) then multiset(courses)[c] else 0
  {
    if Truthy(professor) then Filter(courses, (c: Section) => c.instructor == professor.value)
    else []
  }

  /** The selected professor's records keep their original order. */
  lemma FilteredCoursesInOrder(courses: seq<Section>, professor: Option<string>)
    ensures Subsequence(FilteredCourses(courses, professor), courses)
  {
    if Truthy(professor) {
      FilterIsSubsequence(courses, (c: Section) => c.instructor == professor.value);
    }
  }

  /** Year-stage filter: any record while no course is selected, otherwise a
      record whose subject and number equal the two pieces of the course key. */
  predicate InYearStage(c: Section, course: Option<string>)
  {
    !Truthy(course) || MatchesSplitKey(c, course.value)
  }

  /** The comparator `(a, b) => b - a` on year strings: later years first. */
  predicate YearDescending(a: string, b: string)
  {
    YearValue(a) >= YearValue(b)
  }

  lemma YearDescendingIsPreorder()
    ensures TotalPreorder(YearDescending)
  {
  }

  /** `years`: the distinct years of the selected professor's records in the
      year stage, most recent first. */
  function Years(courses: seq<Section>, professor: Option<string>, course: Option<string>): (r: seq<string>)
    ensures NoDuplicates(r)
    ensures forall i, j :: 0 <= i < j < |r| ==> YearValue(r[i]) >= YearValue(r[j])
    ensures forall y :: y in r <==>
      exists c :: c in courses && TaughtBy(c, professor) && InYearStage(c, course) && c.year == y
  {
    var stage := Filter(FilteredCourses(courses, professor), (c: Section) => InYearStage(c, course));
    var years := Map(stage, (c: Section) => c.year);
    YearDescendingIsPreorder();
    var sorted := SortBy(years, YearDescending);
    DistinctKeepsSorted(sorted, YearDescending);
    forall y ensures y in sorted <==> exists c :: c in stage && c.year == y {
      assert y in sorted <==> y in multiset(sorted);
      MapMembership(stage, (c: Section) => c.year, y);
    }
    forall c ensures c in stage <==> c in courses && TaughtBy(c, professor) && InYearStage(c, course) {
      assert c in stage <==> multiset(stage)[c] > 0;
    }
    Distinct(sorted)
  }

  /** Semester-stage filter: any record while no course is selected,
      otherwise a record of that course in the selected year (so none while
      the year is unset). */
  predicate InSemesterStage(c: Section, course: Option<string>, year: Option<string>)
  {
    !Truthy(course) || (MatchesSplitKey(c, course.value) && year == Some(c.year))
  }

  /** The semester stage's records, in original order. */
  function SemesterStage(courses: seq<Section>, professor: Option<string>,
                         course: Option<string>, year: Option<string>): seq<Section>
  {
    Filter(FilteredCourses(courses, professor), (c: Section) => InSemesterStage(c, course, year))
  }

  /** The semester of each record of the semester stage, in stage order. */
  function StageSemesters(courses: seq<Section>, professor: Option<string>,
                          course: Option<string>, year: Option<string>): seq<string>
  {
    Map(SemesterStage(courses, professor, course, year), (c: Section) => c.semester)
  }

  /** `semesters`: the stage's semesters, each listed once. */
  function Semesters(courses: seq<Section>, professor: Option<string>,
                     course: Option<string>, year: Option<string>): (r: seq<string>)
    ensures NoDuplicates(r)
    ensures forall s :: s in r <==> s in StageSemesters(courses, professor, course, year)
  {
    Distinct(StageSemesters(courses, professor, course, year))
  }

  /** A semester is offered exactly when one of the professor's records of
      the semester stage is in it. */
  lemma SemestersMembers(courses: seq<Section>, professor: Option<string>,
                         course: Option<string>, year: Option<string>, s: string)
    ensures s in Semesters(courses, professor, course, year) <==>
      exists c :: c in courses && TaughtBy(c, professor) && InSemesterStage(c, course, year) && c.semester == s
  {
    var stage := SemesterStage(courses, professor, course, year);
    MapMembership(stage, (c: Section) => c.semester, s);
    forall c ensures c in stage <==> c in courses && TaughtBy(c, professor) && InSemesterStage(c, course, year) {
      assert c in stage <==> multiset(stage)[c] > 0;
    }
  }

  /** Semesters are ranked by first appearance in the stage, not by any
      calendar order. */
  lemma SemestersFirstSeen(courses: seq<Section>, professor: Option<string>,
                           course: Option<string>, year: Option<string>)
    ensures var names := StageSemesters(courses, professor, course, year);
      var r := Semesters(courses, professor, course, year);
      forall i, j :: 0 <= i < j < |r| ==> IndexOf(names, r[i]) < IndexOf(names, r[j])
  {
    DistinctFirstSeen(StageSemesters(courses, professor, course, year));
  }

  /** Once a course is selected, no semester is offered until a year is. */
  lemma SemestersEmptyWithoutYear(courses: seq<Section>, professor: Option<string>, course: Option<string>)
    requires Truthy(course)
    ensures Semesters(courses, professor, course, None) == []
  {
    var r := Semesters(courses, professor, course, None);
    if r != [] {
      SemestersMembers(courses, professor, course, None, r[0]);
    }
  }

  /** The year and semester conditions of `finalFilteredCourses`; an unset
      (falsy) choice does not filter. */
  predicate InTerm(c: Section, year: Option<string>, semester: Option<string>)
  {
    (!Truthy(year) || c.year == year.value) && (!Truthy(semester) || c.semester == semester.value)
  }

  /** The comparator `a.section_number.localeCompare(b.section_number)`. */
  predicate BySectionNumber(a: Section, b: Section)
  {
    LexLe(a.sectionNumber, b.sectionNumber)
  }

  lemma BySectionNumberIsPreorder()
    ensures TotalPreorder(BySectionNumber)
  {
    forall a: Section, b: Section ensures LexLe(a.sectionNumber, b.sectionNumber) || LexLe(b.sectionNumber, a.sectionNumber) {
      LexLeTotal(a.sectionNumber, b.sectionNumber);
    }
    forall a: Section, b: Section, c: Section
      | LexLe(a.sectionNumber, b.sectionNumber) && LexLe(b.sectionNumber, c.sectionNumber)
      ensures LexLe(a.sectionNumber, c.sectionNumber)
    {
      LexLeTransitive(a.sectionNumber, b.sectionNumber, c.sectionNumber);
    }
  }

  /** `finalFilteredCourses`: a permutation of the professor's records in the
      selected term, sorted by section number. The course selection plays
      no part. */
  function FinalFilteredCourses(courses: seq<Section>, professor: Option<string>,
                                year: Option<string>, semester: Option<string>): (r: seq<Section>)
    ensures forall c :: (multiset(r)[c] ==
      if TaughtBy(c, professor) && InTerm(c, year, semester) then multiset(courses)[c] else 0)
    ensures forall i, j :: 0 <= i < j < |r| ==> LexLe(r[i].sectionNumber, r[j].sectionNumber)
  {
    var inTerm := Filter(FilteredCourses(courses, professor), (c: Section) => InTerm(c, year, semester));
    BySectionNumberIsPreorder();
    var r := SortBy(inTerm, BySectionNumber);
    assert SortedBy(r, BySectionNumber);
    r
  }

  /** The record's course is already represented in `acc` (`acc.some(...)`). */
  predicate HasIdentifier(acc: seq<Section>, id: string)
  {
    exists c :: c in acc && CourseIdentifier(c) == id
  }

  function Identifiers(s: seq<Section>): seq<string>
  {
    Map(s, CourseIdentifier)
  }

  /** The `uniqueFilteredCourses` reduce, as a value: the last record is
      kept unless a kept record already has its identifier. */
  function FirstPerCourse(s: seq<Section>): seq<Section>
  {
    if s == [] then []
    else
      var d := FirstPerCourse(s[..|s| - 1]);
      if HasIdentifier(d, CourseIdentifier(s[|s| - 1])) then d else d + [s[|s| - 1]]
  }

  lemma IdentifiersSnoc(init: seq<Section>, last: Section)
    ensures Identifiers(init + [last]) == Identifiers(init) + [CourseIdentifier(last)]
  {
    MapAppend(init, [last], CourseIdentifier);
  }

  lemma HasIdentifierIff(acc: seq<Section>, id: string)
    ensures HasIdentifier(acc, id) <==> id in Identifiers(acc)
  {
    MapMembership(acc, CourseIdentifier, id);
  }

  /** The kept records carry each identifier of the input exactly once, in
      order of first appearance. */
  lemma {:induction false} FirstPerCourseIdentifiers(s: seq<Section>)
    ensures Identifiers(FirstPerCourse(s)) == Distinct(Identifiers(s))
  {
    if s != [] {
      var init, last := s[..|s| - 1], s[|s| - 1];
      FirstPerCourseIdentifiers(init);
      var d := FirstPerCourse(init);
      var id := CourseIdentifier(last);
      assert s == init + [last];
      IdentifiersSnoc(init, last);
      DistinctSnoc(Identifiers(init), id);
      HasIdentifierIff(d, id);
      if !HasIdentifier(d, id) {
        IdentifiersSnoc(d, last);
      }
    }
  }

  /** First wins: each kept record is the first input record with its
      identifier. */
  lemma {:induction false} FirstPerCourseFirstWins(s: seq<Section>, c: Section)
    requires c in FirstPerCourse(s)
    ensures CourseIdentifier(c) in Identifiers(s)
    ensures s[IndexOf(Identifiers(s), CourseIdentifier(c))] == c
  {
    var init, last := s[..|s| - 1], s[|s| - 1];
    var d := FirstPerCourse(init);
    var id := CourseIdentifier(last);
    assert s == init + [last];
    IdentifiersSnoc(init, last);
    if c in d {
      FirstPerCourseFirstWins(init, c);
      IndexOfAppend(Identifiers(init), [id], CourseIdentifier(c));
    } else {
      assert c == last && !HasIdentifier(d, id);
      FirstPerCourseIdentifiers(init);
      HasIdentifierIff(d, id);
      IndexOfAppendNew(Identifiers(init), id);
    }
  }

  /** The kept records keep their original relative order. */
  lemma {:induction false} FirstPerCourseInOrder(s: seq<Section>)
    ensures Subsequence(FirstPerCourse(s), s)
  {
    if s != [] {
      var init, last := s[..|s| - 1], s[|s| - 1];
      FirstPerCourseInOrder(init);
      SubsequenceExtend(FirstPerCourse(init), init, last);
      assert init + [last] == s;
    }
  }

  lemma {:induction false} SubsequenceExtend(r: seq<Section>, s: seq<Section>, x: Section)
    requires Subsequence(r, s)
    ensures Subsequence(r, s + [x]) && Subsequence(r + [x], s + [x])
  {
    if r == [] {
      assert r + [x] == [x];
      SubsequenceOfAny(s + [x]);
      assert Subsequence([x], [x]);
      SingletonSubsequence(s, x);
    } else if s != [] {
      assert (s + [x])[1..] == s[1..] + [x];
      assert (r + [x])[1..] == r[1..] + [x];
      if r[0] == s[0] && Subsequence(r[1..], s[1..]) {
        SubsequenceExtend(r[1..], s[1..], x);
      } else {
        SubsequenceExtend(r, s[1..], x);
      }
    }
  }

  lemma {:induction false} SubsequenceOfAny(s: seq<Section>)
    ensures Subsequence([], s)
  {
  }

  lemma {:induction false} SingletonSubsequence(s: seq<Section>, x: Section)
    ensures Subsequence([x], s + [x])
  {
    if s != [] {
      assert (s + [x])[1..] == s[1..] + [x];
      SingletonSubsequence(s[1..], x);
    } else {
      assert Subsequence([x][1..], [x][1..]);
    }
  }

  /** `filteredCourses.reduce(...)` pushing each record whose identifier the
      accumulator does not yet hold. */
  method UniqueByCourse(filtered: seq<Section>) returns (acc: seq<Section>)
    ensures acc == FirstPerCourse(filtered)
  {
    acc := [];
    var i := 0;
    while i < |filtered|
      invariant 0 <= i <= |filtered|
      invariant acc == FirstPerCourse(filtered[..i])
    {
      var course := filtered[i];
      assert filtered[..i + 1][..i] == filtered[..i];
      if !HasIdentifier(acc, CourseIdentifier(course)) {
        acc := acc + [course];
      }
      i := i + 1;
    }
    assert filtered[..i] == filtered;
  }

  /** The stale-closure filter applied to a professor search's results: it
      reads the professor and course chosen before the fetch, and compares
      the course key with `subject_id` alone. */
  function ProfessorSearchFilter(data: seq<Section>, staleProfessor: Option<string>,
                                 staleCourse: Option<string>): (r: seq<Section>)
    ensures forall c :: (multiset(r)[c] ==
      if (!Truthy(staleProfessor) || c.instructor == staleProfessor.value) &&
         (!Truthy(staleCourse) || c.subjectId == staleCourse.value)
      then multiset(data)[c] else 0)
  {
    Filter(data, (c: Section) =>
      (!Truthy(staleProfessor) || c.instructor == staleProfessor.value) &&
      (!Truthy(staleCourse) || c.subjectId == staleCourse.value))
  }
}
