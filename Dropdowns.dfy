/** The pure logic of the year / semester / section dropdowns
    (src/app/components/SelectionDropdowns.tsx): which record the default
    effect picks as the "latest", which fields it fills, how a section
    number is resolved to a record, and which section options are offered. */
module Dropdowns {
  import opened Seqs
  import opened Strings
  import opened Records

  /** The five selection fields of the results page. Unset is `None`; a
      present but empty string is set yet falsy, as in JavaScript. */
  datatype Selection = Selection(
    professor: Option<string>,
    course: Option<string>,
    year: Option<string>,
    semester: Option<string>,
    section: Option<Section>)

  /** `courseMatches`: the records whose composed course key equals the
      selected course (an unset course matches nothing). */
  function CourseMatches(ff: seq<Section>, course: Option<string>): (r: seq<Section>)
    ensures forall c :: c in r <==> c in ff && course == Some(CourseKey(c))
    ensures forall c :: (multiset(r)[c] == if course == Some(CourseKey(c)) then multiset(ff)[c] else 0)
  {
    Filter(ff, (c: Section) => course == Some(CourseKey(c)))
  }

  /** When every record is of the selected course, all of them match, in
      their order. */
  lemma {:induction false} CourseMatchesAll(ff: seq<Section>, course: Option<string>)
    requires forall k :: 0 <= k < |ff| ==> course == Some(CourseKey(ff[k]))
    ensures CourseMatches(ff, course) == ff
  {
    if ff != [] {
      CourseMatchesAll(ff[1..], course);
      assert ff == [ff[0]] + ff[1..];
      FilterCons(ff[0], ff[1..], (c: Section) => course == Some(CourseKey(c)));
    }
  }

  /** The matches keep the order they have in `finalFilteredCourses`. */
  lemma CourseMatchesInOrder(ff: seq<Section>, course: Option<string>)
    ensures Subsequence(CourseMatches(ff, course), ff)
  {
    FilterIsSubsequence(ff, (c: Section) => course == Some(CourseKey(c)));
  }

  /** `a` sorts strictly before `b` under the comparator
      `parseInt(b.year) - parseInt(a.year) || semesters.indexOf(b.semester) - semesters.indexOf(a.semester)`:
      a later year, or the same year and a semester listed later in
      `semesters` (a semester missing from the list ranks as -1). */
  predicate Newer(a: Section, b: Section, sems: seq<string>)
  {
    YearValue(a.year) > YearValue(b.year) ||
    (YearValue(a.year) == YearValue(b.year) && IndexOf(sems, a.semester) > IndexOf(sems, b.semester))
  }

  /** The comparator read as "may come first": the comparator's result is
      not positive. */
  function AtLeastAsNew(sems: seq<string>): (Section, Section) -> bool
  {
    (a: Section, b: Section) => !Newer(b, a, sems)
  }

  lemma AtLeastAsNewIsPreorder(sems: seq<string>)
    ensures TotalPreorder(AtLeastAsNew(sems))
  {
    var le := AtLeastAsNew(sems);
    forall a: Section, b: Section ensures le(a, b) || le(b, a) {
      assert !(Newer(a, b, sems) && Newer(b, a, sems));
    }
    forall a: Section, b: Section, c: Section | le(a, b) && le(b, c) ensures le(a, c) {
      assert !Newer(b, a, sems) && !Newer(c, b, sems);
    }
  }

  /** The first match of maximal rank: nothing ranks above it and everything
      before it ranks strictly below it. */
  function LatestIndex(m: seq<Section>, sems: seq<string>): (i: nat)
    requires m != []
    ensures i < |m|
    ensures forall j :: 0 <= j < |m| ==> !Newer(m[j], m[i], sems)
    ensures forall j :: 0 <= j < i ==> Newer(m[i], m[j], sems)
  {
    if |m| == 1 then 0
    else
      var k := 1 + LatestIndex(m[1..], sems);
      assert forall j :: 1 <= j < |m| ==> m[j] == m[1..][j - 1];
      if Newer(m[k], m[0], sems) then k else 0
  }

  /** The head of the stable sort is the first match of maximal rank. */
  lemma {:induction false} SortHeadIsLatest(m: seq<Section>, sems: seq<string>)
    requires m != []
    ensures TotalPreorder(AtLeastAsNew(sems)) &&
            SortBy(m, AtLeastAsNew(sems))[0] == m[LatestIndex(m, sems)]
  {
    var le := AtLeastAsNew(sems);
    AtLeastAsNewIsPreorder(sems);
    assert m == [m[0]] + m[1..];
    if |m| > 1 {
      SortHeadIsLatest(m[1..], sems);
      var t := SortBy(m[1..], le);
      assert t != [] by {
        assert |multiset(t)| == |multiset(m[1..])|;
      }
      assert SortBy(m, le) == Insert(m[0], t, le);
    }
  }

  /** `[...courseMatches].sort(comparator)`: a stable sort, latest first,
      whose head is the first match of maximal rank. */
  function SortLatestFirst(m: seq<Section>, sems: seq<string>): (r: seq<Section>)
    ensures multiset(r) == multiset(m)
    ensures forall i, j :: 0 <= i < j < |r| ==> !Newer(r[j], r[i], sems)
    ensures m != [] ==> |r| > 0 && r[0] == m[LatestIndex(m, sems)]
  {
    AtLeastAsNewIsPreorder(sems);
    var r := SortBy(m, AtLeastAsNew(sems));
    assert |multiset(r)| == |multiset(m)|;
    assert forall i, j :: 0 <= i < j < |r| ==> AtLeastAsNew(sems)(r[i], r[j]);
    if m == [] then r else (SortHeadIsLatest(m, sems); r)
  }

  /** `sortedCourses[0]`: the latest matching record, or `None` when no
      record matches the selected course. */
  function LatestCourse(ff: seq<Section>, course: Option<string>, sems: seq<string>): (r: Option<Section>)
    ensures r.None? <==> forall c :: c in ff ==> course != Some(CourseKey(c))
    ensures r.Some? ==> r.value in ff && course == Some(CourseKey(r.value))
  {
    var m := CourseMatches(ff, course);
    if m == [] then None
    else
      var i := LatestIndex(m, sems);
      assert m[i] in m;
      Some(SortLatestFirst(m, sems)[0])
  }

  /** The record chosen is of maximal rank among the matches, and the first
      of that rank in `finalFilteredCourses` order: every earlier match is
      strictly older. */
  lemma LatestCourseRank(ff: seq<Section>, course: Option<string>, sems: seq<string>)
    requires LatestCourse(ff, course, sems).Some?
    ensures var r := LatestCourse(ff, course, sems).value;
      forall c :: c in ff && course == Some(CourseKey(c)) ==> !Newer(c, r, sems)
    ensures var r := LatestCourse(ff, course, sems).value; var m := CourseMatches(ff, course);
      exists i :: 0 <= i < |m| && m[i] == r && forall j :: 0 <= j < i ==> Newer(r, m[j], sems)
  {
    var m := CourseMatches(ff, course);
    var i := LatestIndex(m, sems);
    assert forall c :: c in m ==> !Newer(c, m[i], sems);
  }

  /** The ranking of semesters within a year follows their order in the
      `semesters` list, which is first-seen order, not a calendar order:
      the same two records give opposite winners under the two orders. */
  lemma LatestSemesterFollowsListOrder(fall: Section, spring: Section)
    requires fall.semester == "Fall" && spring.semester == "Spring"
    requires fall.year == spring.year
    requires CourseKey(fall) == CourseKey(spring)
    ensures LatestCourse([fall, spring], Some(CourseKey(fall)), ["Spring", "Fall"]) == Some(fall)
    ensures LatestCourse([fall, spring], Some(CourseKey(fall)), ["Fall", "Spring"]) == Some(spring)
  {
    var ff, key := [fall, spring], Some(CourseKey(fall));
    assert fall in ff && spring in ff;
    assert IndexOf(["Spring", "Fall"], "Fall") == 1;
    assert IndexOf(["Fall", "Spring"], "Spring") == 1;
    assert Newer(fall, spring, ["Spring", "Fall"]);
    assert Newer(spring, fall, ["Fall", "Spring"]);
  }

  /** The effect's three conditional writes from the latest record: each
      of year, semester and section is written only where it is unset,
      independently of the others. */
  function FillUnset(sel: Selection, latest: Section): (r: Selection)
    ensures r.professor == sel.professor && r.course == sel.course
    ensures Truthy(sel.year) ==> r.year == sel.year
    ensures Truthy(sel.semester) ==> r.semester == sel.semester
    ensures sel.section.Some? ==> r.section == sel.section
    ensures !Truthy(sel.year) ==> r.year == Some(latest.year)
    ensures !Truthy(sel.semester) ==> r.semester == Some(latest.semester)
    ensures sel.section.None? ==> r.section == Some(latest)
  {
    sel.(year := if Truthy(sel.year) then sel.year else Some(latest.year),
         semester := if Truthy(sel.semester) then sel.semester else Some(latest.semester),
         section := if sel.section.Some? then sel.section else Some(latest))
  }

  /** The section dropdown's lookup condition on the record's subject: none
      when no subject is given. */
  predicate SubjectAllowed(c: Section, courseSubject: Option<string>)
  {
    !Truthy(courseSubject) || c.subjectId == courseSubject.value
  }

  /** The record has the chosen section number and the selected term. */
  predicate SectionWanted(c: Section, n: string, year: Option<string>, semester: Option<string>)
  {
    c.sectionNumber == n && year == Some(c.year) && semester == Some(c.semester)
  }

  /** The section `onChange` lookup: the first record of
      `finalFilteredCourses` with the subject, section number and term, or
      `None` (which the handler stores as `null`). */
  function FindSection(ff: seq<Section>, courseSubject: Option<string>, n: string,
                       year: Option<string>, semester: Option<string>): (r: Option<Section>)
    ensures r.None? <==> forall k :: 0 <= k < |ff| ==>
      !(SubjectAllowed(ff[k], courseSubject) && SectionWanted(ff[k], n, year, semester))
  {
    var p := (c: Section) => SubjectAllowed(c, courseSubject);
    var q := (c: Section) => SectionWanted(c, n, year, semester);
    FindAfterFilter(ff, p, q);
    Find(Filter(ff, p), q)
  }

  /** A record the section lookup finds is the first record of
      `finalFilteredCourses` with the subject, number and term. */
  lemma FindSectionFirstMatch(ff: seq<Section>, courseSubject: Option<string>, n: string,
                              year: Option<string>, semester: Option<string>)
    ensures var r := FindSection(ff, courseSubject, n, year, semester);
      r.Some? ==> exists i :: (0 <= i < |ff| && ff[i] == r.value &&
        SubjectAllowed(ff[i], courseSubject) && SectionWanted(ff[i], n, year, semester) &&
        forall k :: 0 <= k < i ==> !(SubjectAllowed(ff[k], courseSubject) && SectionWanted(ff[k], n, year, semester)))
  {
    var p := (c: Section) => SubjectAllowed(c, courseSubject);
    var q := (c: Section) => SectionWanted(c, n, year, semester);
    FindAfterFilter(ff, p, q);
  }

  /** The condition of the section option list: the record belongs to the
      two pieces of the course key and to the selected term. */
  predicate IsOption(c: Section, course: string, year: Option<string>, semester: Option<string>)
  {
    MatchesSplitKey(c, course) && year == Some(c.year) && semester == Some(c.semester)
  }

  /** The section options: offered only when both year and semester are
      truthy, and then exactly the records of `finalFilteredCourses` for the
      course and term. */
  function SectionOptions(ff: seq<Section>, course: string, year: Option<string>,
                          semester: Option<string>): (r: Option<seq<Section>>)
    ensures r.Some? <==> Truthy(year) && Truthy(semester)
    ensures r.Some? ==> forall c :: (multiset(r.value)[c] ==
      if IsOption(c, course, year, semester) then multiset(ff)[c] else 0)
  {
    if Truthy(year) && Truthy(semester) then
      Some(Filter(ff, (c: Section) => IsOption(c, course, year, semester)))
    else None
  }

  /** The options keep the order of `finalFilteredCourses`. */
  lemma SectionOptionsInOrder(ff: seq<Section>, course: string, year: Option<string>, semester: Option<string>)
    requires Truthy(year) && Truthy(semester)
    ensures Subsequence(SectionOptions(ff, course, year, semester).value, ff)
  {
    FilterIsSubsequence(ff, (c: Section) => IsOption(c, course, year, semester));
  }

  /** Choosing an offered option always resolves to a record with that
      option's section number and term, provided the subject restriction
      admits the option's subject. */
  lemma ChosenOptionIsFound(ff: seq<Section>, course: string, courseSubject: Option<string>,
                            year: Option<string>, semester: Option<string>, c: Section)
    requires Truthy(year) && Truthy(semester)
    requires c in SectionOptions(ff, course, year, semester).value
    requires SubjectAllowed(c, courseSubject)
    ensures var r := FindSection(ff, courseSubject, c.sectionNumber, year, semester);
      r.Some? && r.value.sectionNumber == c.sectionNumber &&
      r.value.year == c.year && r.value.semester == c.semester
  {
    FindSectionFirstMatch(ff, courseSubject, c.sectionNumber, year, semester);
    var opts := SectionOptions(ff, course, year, semester).value;
    assert multiset(opts)[c] > 0;
    var k :| 0 <= k < |ff| && ff[k] == c;
    assert SubjectAllowed(ff[k], courseSubject) && SectionWanted(ff[k], c.sectionNumber, year, semester);
  }

  /** The lookup restricts by subject but not by course number: with two
      courses of one subject sharing a section number in one term, choosing
      the second course's option resolves to the first course's record. */
  lemma SectionLookupIgnoresCourseNumber(a: Section, b: Section)
    requires a.subjectId == b.subjectId && a.courseNumber != b.courseNumber
    requires NoSpace(b.subjectId) && NoSpace(b.courseNumber)
    requires a.sectionNumber == b.sectionNumber && a.year == b.year && a.semester == b.semester
    requires a.year != "" && a.semester != ""
    ensures b in SectionOptions([a, b], CourseKey(b), Some(b.year), Some(b.semester)).value
    ensures FindSection([a, b], Some(b.subjectId), b.sectionNumber, Some(b.year), Some(b.semester)) == Some(a)
  {
    var ff := [a, b];
    FindSectionFirstMatch(ff, Some(b.subjectId), b.sectionNumber, Some(b.year), Some(b.semester));
    CourseKeyAgreesWithSplit(b, CourseKey(b));
    assert multiset(ff)[b] > 0;
    assert SubjectAllowed(ff[0], Some(b.subjectId));
    assert SectionWanted(ff[0], b.sectionNumber, Some(b.year), Some(b.semester));
  }
}
