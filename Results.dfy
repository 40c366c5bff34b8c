/** The state of the results page (src/app/results/page.tsx) and the
    handlers that update it, including the dropdowns' default effect and
    `onChange` transitions (src/app/components/SelectionDropdowns.tsx),
    which write the same state through its setters. */
module Results {
  import opened Seqs
  import opened Records
  import opened Candidates
  import opened Dropdowns
  import opened Stats

  /** `routeType`: which search produced the records. */
  datatype Route = NoRoute | CourseRoute | ProfessorRoute

  /** A pending `fetchCourses` call: the URL parameters it was started
      with and the professor and course its closure captured then. */
  datatype Search = Search(courseParam: Option<string>, professorParam: Option<string>,
                           capturedProfessor: Option<string>, capturedCourse: Option<string>)

  /** Every record has a non-empty year and semester. */
  predicate WellFormed(courses: seq<Section>)
  {
    forall c :: c in courses ==> c.year != "" && c.semester != ""
  }

  /** Year and semester are chosen (truthy) and a section is selected. */
  predicate TermAndSectionSet(sel: Selection)
  {
    Truthy(sel.year) && Truthy(sel.semester) && sel.section.Some?
  }

  /** A selected section belongs to the selected (truthy) year and semester. */
  predicate SectionInTerm(sel: Selection)
  {
    sel.section.Some? ==>
      sel.year == Some(sel.section.value.year) && sel.section.value.year != "" &&
      sel.semester == Some(sel.section.value.semester) && sel.section.value.semester != ""
  }

  /** The record is a candidate of the default effect: the selected
      professor's, in the selected term, of the selected course. */
  predicate DefaultCandidate(c: Section, sel: Selection, courses: seq<Section>)
  {
    c in courses && TaughtBy(c, sel.professor) && InTerm(c, sel.year, sel.semester) &&
    sel.course == Some(CourseKey(c))
  }

  /** A record is in `finalFilteredCourses` exactly when it is one of the
      selected professor's records in the selected term. */
  lemma InFinalFiltered(courses: seq<Section>, sel: Selection, c: Section)
    ensures c in FinalFilteredCourses(courses, sel.professor, sel.year, sel.semester) <==>
      c in courses && TaughtBy(c, sel.professor) && InTerm(c, sel.year, sel.semester)
  {
    var ff := FinalFilteredCourses(courses, sel.professor, sel.year, sel.semester);
    assert c in ff <==> multiset(ff)[c] > 0;
  }

  /** The record the dropdowns' default effect fills from: the latest
      record of the selected course among `finalFilteredCourses`, ranked
      with the `semesters` list, both derived from the same state. */
  function DefaultSource(sel: Selection, courses: seq<Section>): Option<Section>
  {
    LatestCourse(FinalFilteredCourses(courses, sel.professor, sel.year, sel.semester), sel.course,
                 Semesters(courses, sel.professor, sel.course, sel.year))
  }

  /** The default effect's result: unchanged without a source record,
      otherwise the unset fields filled from it. */
  function DefaultEffect(sel: Selection, courses: seq<Section>): Selection
  {
    match DefaultSource(sel, courses)
    case None => sel
    case Some(latest) => FillUnset(sel, latest)
  }

  /** The source record exists exactly when a candidate does, and is one. */
  lemma DefaultSourceIsCandidate(sel: Selection, courses: seq<Section>)
    ensures DefaultSource(sel, courses).Some? ==> DefaultCandidate(DefaultSource(sel, courses).value, sel, courses)
    ensures DefaultSource(sel, courses).None? ==> forall c :: !DefaultCandidate(c, sel, courses)
  {
    var ff := FinalFilteredCourses(courses, sel.professor, sel.year, sel.semester);
    var l := DefaultSource(sel, courses);
    if l.Some? {
      InFinalFiltered(courses, sel, l.value);
    } else {
      forall c ensures !DefaultCandidate(c, sel, courses) {
        InFinalFiltered(courses, sel, c);
      }
    }
  }

  /** Without a candidate record the default effect changes nothing. */
  lemma DefaultEffectWithoutCandidate(sel: Selection, courses: seq<Section>)
    requires forall c :: !DefaultCandidate(c, sel, courses)
    ensures DefaultEffect(sel, courses) == sel
  {
    DefaultSourceIsCandidate(sel, courses);
  }

  /** When the default effect changes anything, it fills the unset fields
      from one candidate record that no other candidate outranks. */
  lemma DefaultEffectFromLatest(sel: Selection, courses: seq<Section>)
    requires DefaultEffect(sel, courses) != sel
    ensures exists c :: (DefaultCandidate(c, sel, courses) && DefaultEffect(sel, courses) == FillUnset(sel, c) &&
      forall d :: DefaultCandidate(d, sel, courses) ==>
        !Newer(d, c, Semesters(courses, sel.professor, sel.course, sel.year)))
  {
    var ff := FinalFilteredCourses(courses, sel.professor, sel.year, sel.semester);
    var sems := Semesters(courses, sel.professor, sel.course, sel.year);
    DefaultSourceIsCandidate(sel, courses);
    LatestCourseRank(ff, sel.course, sems);
    var c := DefaultSource(sel, courses).value;
    forall d | DefaultCandidate(d, sel, courses) ensures !Newer(d, c, sems) {
      InFinalFiltered(courses, sel, d);
    }
    assert DefaultCandidate(c, sel, courses) && DefaultEffect(sel, courses) == FillUnset(sel, c);
  }

  /** With well-formed records, a step that finds a candidate leaves year,
      semester and section all set. */
  lemma DefaultEffectFillsAll(sel: Selection, courses: seq<Section>, c: Section)
    requires WellFormed(courses) && DefaultCandidate(c, sel, courses)
    ensures TermAndSectionSet(DefaultEffect(sel, courses))
  {
    DefaultSourceIsCandidate(sel, courses);
    var l := DefaultSource(sel, courses).value;
    FillUnsetFromWellFormed(sel, l, courses);
  }

  /** Filling from a well-formed record sets the term and the section. */
  lemma FillUnsetFromWellFormed(sel: Selection, latest: Section, courses: seq<Section>)
    requires WellFormed(courses) && latest in courses
    ensures TermAndSectionSet(FillUnset(sel, latest))
  {
  }

  /** Filling a selection whose term and section are already set changes
      nothing. */
  lemma FillUnsetWhenSet(sel: Selection, latest: Section)
    requires TermAndSectionSet(sel)
    ensures FillUnset(sel, latest) == sel
  {
  }

  /** With well-formed records the default effect is idempotent: running
      it a second time changes nothing. */
  lemma DefaultEffectIdempotent(sel: Selection, courses: seq<Section>)
    requires WellFormed(courses)
    ensures DefaultEffect(DefaultEffect(sel, courses), courses) == DefaultEffect(sel, courses)
  {
    var r := DefaultEffect(sel, courses);
    DefaultSourceIsCandidate(sel, courses);
    if DefaultSource(sel, courses).Some? {
      DefaultEffectFillsAll(sel, courses, DefaultSource(sel, courses).value);
      var l2 := DefaultSource(r, courses);
      if l2.Some? {
        FillUnsetWhenSet(r, l2.value);
      }
    }
  }

  /** With well-formed records, the default effect keeps a selected
      section within the selected term. */
  lemma DefaultEffectKeepsSectionInTerm(sel: Selection, courses: seq<Section>)
    requires WellFormed(courses) && SectionInTerm(sel)
    ensures SectionInTerm(DefaultEffect(sel, courses))
  {
    DefaultSourceIsCandidate(sel, courses);
    if DefaultSource(sel, courses).Some? {
      var l := DefaultSource(sel, courses).value;
      assert l in courses;
    }
  }

  /** On the effect's first run for a chosen course no year is set, so
      `semesters` is empty and every semester ranks -1: records of one year
      tie, and the default is the first of them in `finalFilteredCourses`,
      the one with the lower section number, whatever the semesters. */
  lemma FirstDefaultFollowsSectionOrder(p: string, fall: Section, spring: Section)
    requires p != "" && fall.instructor == p && spring.instructor == p
    requires fall.semester == "Fall" && spring.semester == "Spring"
    requires fall.year == spring.year && CourseKey(fall) == CourseKey(spring)
    requires BySectionNumber(spring, fall) && !BySectionNumber(fall, spring)
    ensures DefaultSource(Selection(Some(p), Some(CourseKey(fall)), None, None, None), [fall, spring]) == Some(spring)
  {
    var sel := Selection(Some(p), Some(CourseKey(fall)), None, None, None);
    var courses := [fall, spring];
    TwoRecordsBySectionNumber(p, fall, spring);
    SemestersEmptyWithoutYear(courses, sel.professor, sel.course);
    TiedRecordsFirstWins(spring, fall, sel.course);
  }

  /** Both records of the professor, with no term chosen, sorted by section
      number. */
  lemma TwoRecordsBySectionNumber(p: string, fall: Section, spring: Section)
    requires p != "" && fall.instructor == p && spring.instructor == p
    requires fall.semester != spring.semester
    requires BySectionNumber(spring, fall) && !BySectionNumber(fall, spring)
    ensures FinalFilteredCourses([fall, spring], Some(p), None, None) == [spring, fall]
  {
    var courses := [fall, spring];
    assert forall k :: 0 <= k < |courses| ==> courses[k].instructor == p;
    AllTaughtNoTerm(courses, p);
    var ff := FinalFilteredCourses(courses, Some(p), None, None);
    assert spring != fall;
    SortedPairOrder(ff, spring, fall);
  }

  /** With no term chosen and every record the professor's,
      `finalFilteredCourses` is a permutation of the records. */
  lemma AllTaughtNoTerm(courses: seq<Section>, p: string)
    requires p != "" && forall k :: 0 <= k < |courses| ==> courses[k].instructor == p
    ensures multiset(FinalFilteredCourses(courses, Some(p), None, None)) == multiset(courses)
  {
    var ff := FinalFilteredCourses(courses, Some(p), None, None);
    forall c ensures multiset(ff)[c] == multiset(courses)[c] {
      if c in courses {
        assert TaughtBy(c, Some(p)) && InTerm(c, None, None);
      }
    }
  }

  /** A list of two distinct records sorted by section number, where the
      first sorts strictly before the second, is the two in that order. */
  lemma SortedPairOrder(r: seq<Section>, a: Section, b: Section)
    requires a != b && multiset(r) == multiset([b, a])
    requires forall i, j :: 0 <= i < j < |r| ==> BySectionNumber(r[i], r[j])
    requires !BySectionNumber(b, a)
    ensures r == [a, b]
  {
    assert |r| == |multiset(r)| == 2;
    assert r[0] in multiset(r) && r[1] in multiset(r);
    assert BySectionNumber(r[0], r[1]);
  }

  /** With an empty `semesters` list, two matching records of one year tie,
      and the first one wins. */
  lemma TiedRecordsFirstWins(first: Section, second: Section, course: Option<string>)
    requires first.year == second.year
    requires course == Some(CourseKey(first)) && course == Some(CourseKey(second))
    ensures LatestCourse([first, second], course, []) == Some(first)
  {
    var ff := [first, second];
    CourseMatchesAll(ff, course);
    assert !Newer(second, first, []);
    assert LatestIndex(ff, []) == 0;
  }

  /** The record the section lookup finds is one of the selected
      professor's records, with the chosen number and the selected term. */
  lemma FoundSectionIsCandidate(courses: seq<Section>, sel: Selection, courseSubject: Option<string>, n: string)
    ensures var r := FindSection(FinalFilteredCourses(courses, sel.professor, sel.year, sel.semester),
                                 courseSubject, n, sel.year, sel.semester);
      r.Some? ==> r.value in courses && TaughtBy(r.value, sel.professor) &&
                  SectionWanted(r.value, n, sel.year, sel.semester) && SubjectAllowed(r.value, courseSubject)
  {
    var ff := FinalFilteredCourses(courses, sel.professor, sel.year, sel.semester);
    var r := FindSection(ff, courseSubject, n, sel.year, sel.semester);
    FindSectionFirstMatch(ff, courseSubject, n, sel.year, sel.semester);
    if r.Some? {
      InFinalFiltered(courses, sel, r.value);
    }
  }

  /** The map handed to the stats card: `selectedItems` when it has
      entries, otherwise the single entry `"selectedProfessor"` holding the
      selected section (possibly `null`). */
  function StatsInput(selectedItems: seq<Entry>, section: Option<Section>): (r: seq<Entry>)
    ensures |r| >= 1
    ensures IsComparingMode(|r|) <==> IsComparingMode(|selectedItems|)
    ensures |selectedItems| == 0 ==> r[0].item == section
    ensures |selectedItems| > 0 ==> r == selectedItems
  {
    if |selectedItems| > 0 then selectedItems else [Entry("selectedProfessor", section)]
  }

  /** With no comparison entries, the card shows exactly the selected
      section in the single layout, or the placeholder when none is set. */
  lemma EmptyComparisonShowsSection(section: Option<Section>, professor: Option<string>)
    ensures var v := StatsView(StatsInput([], section), professor);
      (v.Placeholder? <==> section.None?) &&
      (section.Some? ==> v.SingleView? && v.card == SingleCard(section.value))
  {
  }

  /** The results page's state: the fetched records, the five selection
      fields, the route and the comparison map. */
  class ResultsState {
    var courses: seq<Section>
    var coursesToDisplay: seq<Section>
    var professor: Option<string>
    var course: Option<string>
    var year: Option<string>
    var semester: Option<string>
    var section: Option<Section>
    var routeType: Route
    var selectedItems: seq<Entry>

    /** The selection fields as one value. */
    function Current(): Selection
      reads this
    {
      Selection(professor, course, year, semester, section)
    }

    /** The initial `useState` values. */
    constructor()
      ensures courses == [] && coursesToDisplay == []
      ensures Current() == Selection(None, None, None, None, None)
      ensures routeType == NoRoute && selectedItems == []
    {
      courses, coursesToDisplay := [], [];
      professor, course, year, semester, section := None, None, None, None, None;
      routeType, selectedItems := NoRoute, [];
    }

    /** The search effect starting `fetchCourses` for `?course=` or
        `?professor=`: the comparison map is cleared before the fetch, and
        the returned search holds the professor and course the call's
        closure sees for as long as it runs. Without either parameter no
        fetch starts. */
    method SearchStarted(courseParam: Option<string>, professorParam: Option<string>)
      returns (search: Search)
      modifies this
      ensures search == Search(courseParam, professorParam, old(professor), old(course))
      ensures !Truthy(courseParam) && !Truthy(professorParam) ==> unchanged(this)
      ensures Truthy(courseParam) || Truthy(professorParam) ==> selectedItems == []
      ensures courses == old(courses) && coursesToDisplay == old(coursesToDisplay)
      ensures Current() == old(Current()) && routeType == old(routeType)
    {
      search := Search(courseParam, professorParam, professor, course);
      if Truthy(courseParam) || Truthy(professorParam) {
        selectedItems := [];
      }
    }

    /** The rest of `fetchCourses` once its fetch has returned `data`. A
        course search stores the records as they are; a professor search
        applies the filter that reads the professor and course captured
        when the search started, however the selection has changed since,
        then keeps the first record of each course for the side bar. */
    method SearchCompleted(search: Search, data: seq<Section>)
      modifies this
      ensures !Truthy(search.courseParam) && !Truthy(search.professorParam) ==> unchanged(this)
      ensures Truthy(search.courseParam) ==>
        routeType == CourseRoute && course == search.courseParam && courses == data &&
        professor == old(professor) && coursesToDisplay == old(coursesToDisplay)
      ensures !Truthy(search.courseParam) && Truthy(search.professorParam) ==>
        routeType == ProfessorRoute && professor == search.professorParam && course == old(course) &&
        courses == ProfessorSearchFilter(data, search.capturedProfessor, search.capturedCourse) &&
        coursesToDisplay == FirstPerCourse(courses)
      ensures year == old(year) && semester == old(semester) && section == old(section)
      ensures selectedItems == old(selectedItems)
    {
      if Truthy(search.courseParam) {
        CourseSearchCompleted(search.courseParam, data);
      } else if Truthy(search.professorParam) {
        ProfessorSearchCompleted(search.professorParam, search.capturedProfessor, search.capturedCourse, data);
      }
    }

    /** The course branch: the records and the course are stored as fetched. */
    method CourseSearchCompleted(courseParam: Option<string>, data: seq<Section>)
      modifies this
      ensures routeType == CourseRoute && course == courseParam && courses == data
      ensures professor == old(professor) && coursesToDisplay == old(coursesToDisplay)
      ensures year == old(year) && semester == old(semester) && section == old(section)
      ensures selectedItems == old(selectedItems)
    {
      routeType, course, courses := CourseRoute, courseParam, data;
    }

    /** The professor branch: the records are filtered by the captured
        professor and course, and the first record of each course is kept
        for the side bar. */
    method ProfessorSearchCompleted(professorParam: Option<string>, capturedProfessor: Option<string>,
                                    capturedCourse: Option<string>, data: seq<Section>)
      modifies this
      ensures routeType == ProfessorRoute && professor == professorParam && course == old(course)
      ensures courses == ProfessorSearchFilter(data, capturedProfessor, capturedCourse)
      ensures coursesToDisplay == FirstPerCourse(courses)
      ensures year == old(year) && semester == old(semester) && section == old(section)
      ensures selectedItems == old(selectedItems)
    {
      var filtered := ProfessorSearchFilter(data, capturedProfessor, capturedCourse);
      var unique := UniqueByCourse(filtered);
      routeType, professor, courses, coursesToDisplay := ProfessorRoute, professorParam, filtered, unique;
    }

    /** `handleProfessorClick`: sets the professor and clears year,
        semester and section; the course stays. */
    method ProfessorClicked(p: Option<string>)
      modifies this
      ensures Current() == old(Current()).(professor := p, year := None, semester := None, section := None)
      ensures courses == old(courses) && coursesToDisplay == old(coursesToDisplay)
      ensures routeType == old(routeType) && selectedItems == old(selectedItems)
      ensures SectionInTerm(Current())
    {
      professor := p;
      year := None;
      semester := None;
      section := None;
    }

    /** `handleCourseClick`: sets the course and clears year, semester and
        section; the professor stays. */
    method CourseClicked(c: Option<string>)
      modifies this
      ensures Current() == old(Current()).(course := c, year := None, semester := None, section := None)
      ensures courses == old(courses) && coursesToDisplay == old(coursesToDisplay)
      ensures routeType == old(routeType) && selectedItems == old(selectedItems)
      ensures SectionInTerm(Current())
    {
      course := c;
      year := None;
      semester := None;
      section := None;
    }

    /** `resetState`: clears all five selection fields and both record
        lists; the route and the comparison map stay. */
    method Reset()
      modifies this
      ensures Current() == Selection(None, None, None, None, None)
      ensures courses == [] && coursesToDisplay == []
      ensures routeType == old(routeType) && selectedItems == old(selectedItems)
    {
      professor := None;
      course := None;
      year := None;
      semester := None;
      section := None;
      courses := [];
      coursesToDisplay := [];
    }

    /** The year dropdown's `onChange`: sets the year, clears section and
        semester. */
    method YearChosen(y: string)
      modifies this
      ensures Current() == old(Current()).(year := Some(y), semester := None, section := None)
      ensures courses == old(courses) && coursesToDisplay == old(coursesToDisplay)
      ensures routeType == old(routeType) && selectedItems == old(selectedItems)
      ensures SectionInTerm(Current())
    {
      year := Some(y);
      section := None;
      semester := None;
    }

    /** The semester dropdown's `onChange`: sets the semester, clears the
        section; the year stays. */
    method SemesterChosen(s: string)
      modifies this
      ensures Current() == old(Current()).(semester := Some(s), section := None)
      ensures courses == old(courses) && coursesToDisplay == old(coursesToDisplay)
      ensures routeType == old(routeType) && selectedItems == old(selectedItems)
      ensures SectionInTerm(Current())
    {
      semester := Some(s);
      section := None;
    }

    /** The section dropdown's `onChange`: looks the number up in
        `finalFilteredCourses` and stores the record found, or `null`. */
    method SectionChosen(n: string, courseSubject: Option<string>)
      modifies this
      ensures section == FindSection(FinalFilteredCourses(courses, professor, year, semester),
                                     courseSubject, n, year, semester)
      ensures Current() == old(Current()).(section := section)
      ensures courses == old(courses) && coursesToDisplay == old(coursesToDisplay)
      ensures routeType == old(routeType) && selectedItems == old(selectedItems)
      ensures section.Some? ==> (section.value.sectionNumber == n && section.value in courses &&
        TaughtBy(section.value, professor))
      ensures WellFormed(courses) ==> SectionInTerm(Current())
    {
      FoundSectionIsCandidate(courses, Current(), courseSubject, n);
      var found := FindSection(FinalFilteredCourses(courses, professor, year, semester), courseSubject, n, year, semester);
      section := found;
    }

    /** The dropdowns' default effect: sort the records of the selected
        course latest first and fill year, semester and section from the
        first one, each only where it is unset. */
    method ApplyLatestDefault()
      modifies this
      ensures Current() == DefaultEffect(old(Current()), courses)
      ensures courses == old(courses) && coursesToDisplay == old(coursesToDisplay)
      ensures routeType == old(routeType) && selectedItems == old(selectedItems)
    {
      ghost var before := Current();
      var ff := FinalFilteredCourses(courses, professor, year, semester);
      var sems := Semesters(courses, professor, course, year);
      var latest := LatestCourse(ff, course, sems);
      var y, t, sec := year, semester, section;
      if latest.Some? {
        if !Truthy(y) {
          y := Some(latest.value.year);
        }
        if !Truthy(t) {
          t := Some(latest.value.semester);
        }
        if sec.None? {
          sec := Some(latest.value);
        }
      }
      year, semester, section := y, t, sec;
    }

    /** The entries the stats card receives. */
    function StatsItems(): (r: seq<Entry>)
      reads this
      ensures |r| >= 1
      ensures selectedItems == [] ==> r == [Entry("selectedProfessor", section)]
      ensures selectedItems != [] ==> r == selectedItems
    {
      StatsInput(selectedItems, section)
    }
  }
}
