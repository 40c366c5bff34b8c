/** The course-section record returned by a search, and the keys the UI
    builds from it. */
module Records {
  import opened Seqs
  import opened Strings

  /** One offering of a course: identity, instructor, term, grade counts
      and the course GPA. Counts are non-negative integers. */
  datatype Section = Section(
    subjectId: string,
    courseNumber: string,
    sectionNumber: string,
    courseTitle: string,
    instructor: string,
    year: string,
    semester: string,
    gradesA: nat,
    gradesB: nat,
    gradesC: nat,
    gradesP: nat,
    gradesW: nat,
    gradesQ: nat,
    gradesCount: nat,
    courseGpa: real)

  /** JavaScript truthiness of an optional string: present and non-empty. */
  predicate Truthy(o: Option<string>)
  {
    o.Some? && o.value != ""
  }

  /** `${subject_id} ${course_number}`: the text a course is selected by. */
  function CourseKey(c: Section): string
  {
    c.subjectId + " " + c.courseNumber
  }

  /** `${subject_id}-${course_number}`: the identifier courses are
      de-duplicated by on the professor route. */
  function CourseIdentifier(c: Section): string
  {
    c.subjectId + "-" + c.courseNumber
  }

  /** `const [subjectId, courseNumber] = key.split(" ")` followed by a
      comparison of both fields; a key with one piece leaves `courseNumber`
      undefined, which matches no record. */
  predicate MatchesSplitKey(c: Section, key: string)
  {
    var parts := Split(key);
    c.subjectId == parts[0] && |parts| >= 2 && c.courseNumber == parts[1]
  }

  /** For records whose subject and number hold no space, comparing the
      composed key and comparing the split pieces agree exactly on keys of
      two pieces. */
  lemma CourseKeyAgreesWithSplit(c: Section, key: string)
    requires NoSpace(c.subjectId) && NoSpace(c.courseNumber)
    ensures CourseKey(c) == key <==> MatchesSplitKey(c, key) && |Split(key)| == 2
  {
    var pieces := [c.subjectId, c.courseNumber];
    assert Join(pieces) == CourseKey(c) by {
      assert pieces[1..] == [c.courseNumber];
    }
    SplitJoin(pieces);
    var parts := Split(key);
    if MatchesSplitKey(c, key) && |parts| == 2 {
      JoinSplit(key);
      assert parts[1..] == [parts[1]];
      assert Join(parts) == parts[0] + " " + parts[1];
    }
  }
}
