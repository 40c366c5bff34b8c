# mavgrades selection and statistics core, in Dafny

mavgrades shows historical grade distributions of university course
sections. A search by course or by professor returns a list of section
records. The results page narrows them step by step: professor or course,
then year, then semester, then section. The statistics card then shows
the rates of one section, or one row per section when several sections
are compared.

This project models the logic behind that page:

- **Records** (`Records.dfy`): the section record, JavaScript truthiness of
  an optional string, and the two course keys. `"SUBJ 1234"` selects a
  course. `"SUBJ-1234"` de-duplicates courses on the professor route.
- **Candidates** (`Candidates.dfy`): the lists the results page derives on
  every render (`src/app/results/page.tsx`). These are the professors,
  `filteredCourses`, `years`, `semesters` and `finalFilteredCourses`. The
  module also holds the `uniqueFilteredCourses` reduce, written as a loop,
  and the filter a professor search applies to the fetched records.
- **Dropdowns** (`Dropdowns.dfy`): the logic of the year, semester and
  section dropdowns (`src/app/components/SelectionDropdowns.tsx`). It
  finds the records of the selected course and ranks them latest first
  with a stable sort. It fills unset fields from the latest record. It
  also holds the section lookup and the section option list.
- **Stats** (`Stats.dfy`): the statistics card
  (`src/app/components/StatsCard.tsx`). It has the pass, withdrawal and
  average-grade boxes, the single and comparison layouts, and the cyclic
  row colours. It also has `extractLastName` and the first-match lookup in
  the instructor directory.
- **Results** (`Results.dfy`): the page state as a class, `ResultsState`.
  Its fields are the fetched records, `coursesToDisplay`, the five
  selection fields, `routeType` and `selectedItems`. Each handler is a
  method that changes those fields. This includes the dropdowns' default
  effect and their `onChange` handlers, which write the page state through
  its setters. `Results.dfy` also holds the specification of the default
  effect and the lemmas about it.
- **Seqs** and **Strings**: the array and string operations the code
  uses. Among them are `filter`, `map`, `indexOf`, `find`, a stable sort,
  `[...new Set(xs)]`, `split(" ")`, `trim`, `toLowerCase` and `includes`.

### Behaviours of the code worth knowing

The model follows the code, including where the code does something a
reader would not expect. The lemmas named below show each behaviour on the
model.

- The default effect fills year, semester and section independently.
  Each is written only where it is unset. It is not one atomic fill made
  only when all three are unset. See `Dropdowns.FillUnset` and
  `Results.DefaultEffectFromLatest`.
- Within a year, the default ranks semesters by their position in the
  `semesters` list, which is first-seen order, not a fixed calendar order.
  The same two records can produce either winner. See
  `Dropdowns.LatestSemesterFollowsListOrder`.
- The common case is the effect's first run for a newly chosen course. No
  year is set then, so `semesters` is empty (page.tsx:139-145) and every
  semester ranks -1. Records of the latest year tie, and the winner is the
  first of them in `finalFilteredCourses`, which is section-number order.
  Take a Spring 2023 section "001" and a Fall 2023 section "002" of one
  course. The default is the Spring section, not the later Fall one. See
  `Results.FirstDefaultFollowsSectionOrder`.
- When `grades_count` is 0, one would expect "not available". The
  single-section pass rate instead shows NaN (0/0) or Infinity. The
  withdrawal box is not rendered in that case. See `Stats.ZeroCountRates`.
- The comparison pass rate leaves out `grades_P`; the single one counts
  it. See `Stats.ComparisonRateAtMostSingle`.
- After a professor search, the filter reads the professor and course
  that were selected when that search started, because its closure
  captured them then. When searches overlap, each one filters by its own
  captured values, whatever has been selected since. The filter compares
  `subject_id` with the whole course key. See
  `Candidates.ProfessorSearchFilter`, `Results.ResultsState.SearchStarted`
  and `Results.ResultsState.SearchCompleted`.
- The section lookup filters by subject and not by course number. Two
  courses of one subject can share a section number in the same term.
  Choosing the second course's option then selects the first course's
  record. See `Dropdowns.SectionLookupIgnoresCourseNumber`.
- A `course_gpa` of 0 means no average-grade box is rendered, because 0 is
  falsy. See `Stats.AverageGrade`. The same holds for a `grades_count` of
  0. In both cases the JSX `{0 && ...}` renders a literal `0` where the box
  would be; the model records only that the box is absent.
- In the pure `find` over a directory list, an empty last name matches
  the first entry, because every name contains the empty string. See
  `Stats.BlankNameMatchesFirst`. In the app this case does not show an
  entry. A blank `instructor1` is skipped before any lookup
  (StatsCard.tsx:106). A whitespace-only name gives an empty first letter.
  The directory route answers an empty `alpha` with an error
  (api/uta-professors/route.ts:7-12), so the lookup yields `null`
  (StatsCard.tsx:80-98). The fetch path is not part of this model.
- A completed search does not clear year, semester or section. See
  `Results.ResultsState.SearchCompleted`.

## Model

| member | source | states |
|---|---|---|
| Records.CourseKeyAgreesWithSplit | src/app/results/page.tsx:116-130 | for subject ids and course numbers without spaces, the composed key `"SUBJ NUM"` equals a key exactly when the split key has two pieces and they match the record's fields |
| Seqs.Filter | src/app/results/page.tsx:120-122 | `filter` keeps exactly the elements satisfying the predicate, each with its multiplicity, and nothing else |
| Seqs.FilterIsSubsequence | src/app/results/page.tsx:120-122 | `filter` keeps the original relative order |
| Seqs.Map | src/app/results/page.tsx:132 | `map` has the input's length and the image of each element at its index |
| Seqs.MapMembership | src/app/results/page.tsx:132 | a value is in a mapped list exactly when it is the image of some element |
| Seqs.MapAppend | src/app/results/page.tsx:132 | mapping a concatenation is concatenating the mapped parts |
| Seqs.IndexOf | src/app/components/SelectionDropdowns.tsx:65 | `indexOf` returns -1 exactly when the element is absent, and otherwise its first occurrence |
| Seqs.IndexOfAppend | src/app/components/SelectionDropdowns.tsx:65 | appending never moves the first occurrence of an element already present |
| Seqs.IndexOfAppendNew | src/app/components/SelectionDropdowns.tsx:65 | an element new to a list is found at the position where it was appended |
| Seqs.Distinct | src/app/results/page.tsx:119 | `[...new Set(xs)]` holds exactly the elements of `xs`, each once |
| Seqs.DistinctFirstSeen | src/app/results/page.tsx:119 | `[...new Set(xs)]` lists the elements in the order of their first occurrence in `xs` |
| Seqs.DistinctKeepsSorted | src/app/results/page.tsx:123-135 | de-duplicating a sorted list keeps it sorted |
| Seqs.FindIndex | src/app/components/StatsCard.tsx:90-92 | the index of the first element satisfying the predicate, or -1 exactly when none does |
| Seqs.Find | src/app/components/StatsCard.tsx:90-92 | `find` returns nothing exactly when no element satisfies the predicate, and otherwise the first element that does |
| Seqs.FindAfterFilter | src/app/components/SelectionDropdowns.tsx:163-172 | `filter(p).find(q)` finds the same element as `find` with `p` and `q` together |
| Seqs.SortBy | src/app/components/SelectionDropdowns.tsx:62-66 | the sort returns a permutation of its input that is ordered by the comparator |
| Seqs.InsertStable | src/app/components/SelectionDropdowns.tsx:62-66 | inserting an element into a sorted list puts it before every element the comparator ties with it, and leaves their order unchanged |
| Seqs.SortByStable | src/app/components/SelectionDropdowns.tsx:62-66 | the sort is stable: for every key, the elements the comparator ties with it keep their input order |
| Strings.Split | src/app/results/page.tsx:116-118 | `split(" ")` always returns at least one piece |
| Strings.SplitPiecesHaveNoSpace | src/app/results/page.tsx:116-118 | no piece produced by `split(" ")` contains a space |
| Strings.JoinSplit | src/app/results/page.tsx:116-118 | joining the pieces of `split(" ")` with single spaces gives the string back |
| Strings.SplitJoin | src/app/results/page.tsx:116-118 | joining space-free pieces and splitting the result gives the same pieces back |
| Strings.LastPieceIsSuffix | src/app/components/StatsCard.tsx:62-63 | the last piece of `split(" ")` is the longest space-free suffix: it is a suffix, has no space, and is preceded by a space unless it is the whole string |
| Strings.TrimStart | src/app/components/StatsCard.tsx:62 | leading trim removes a whitespace-only prefix and leaves a suffix that starts with a non-whitespace character |
| Strings.TrimEnd | src/app/components/StatsCard.tsx:62 | trailing trim removes a whitespace-only suffix and leaves a prefix that ends with a non-whitespace character |
| Strings.Trim | src/app/components/StatsCard.tsx:62 | `trim` never lengthens a string, and its result neither starts nor ends with whitespace |
| Strings.TrimRemovesOnlyWhitespace | src/app/components/StatsCard.tsx:62 | the result of `trim` occurs in the input with only whitespace before and after it |
| Strings.Lower | src/app/components/StatsCard.tsx:91 | `toLowerCase` keeps the length and lower-cases each character |
| Strings.ContainsIff | src/app/components/StatsCard.tsx:91 | `includes` holds exactly when the needle occurs at some position of the haystack |
| Strings.Contains | src/app/components/StatsCard.tsx:91 | `includes` as a left-to-right scan of start positions; `Strings.ContainsIff` proves it holds exactly when the needle occurs at some position |
| Strings.LexLeTotal | src/app/results/page.tsx:158-161 | any two section numbers are ordered one way or the other by the section comparator |
| Strings.LexLeTransitive | src/app/results/page.tsx:158-161 | the section comparator's order is transitive |
| Strings.LexLe | src/app/results/page.tsx:158-161 | the order the section comparator sorts by; `Strings.LexLeTotal` and `Strings.LexLeTransitive` prove it total and transitive, so the sort is well defined |
| Strings.LeadingDigits | src/app/components/SelectionDropdowns.tsx:64 | the run of digits `parseInt` reads: all digits, ending at the first non-digit |
| Strings.YearValueDecimal | src/app/components/SelectionDropdowns.tsx:64 | reading a year written in decimal gives back the number |
| Candidates.Professors | src/app/results/page.tsx:119 | every instructor of the records is listed, only instructors of the records are listed, and each is listed once |
| Candidates.ProfessorsFirstSeen | src/app/results/page.tsx:119 | professors are listed in the order their first record appears |
| Candidates.FilteredCourses | src/app/results/page.tsx:120-122 | no records while no professor is selected; otherwise exactly the selected professor's records, each with its multiplicity |
| Candidates.FilteredCoursesInOrder | src/app/results/page.tsx:120-122 | the professor's records keep their original order |
| Candidates.YearDescendingIsPreorder | src/app/results/page.tsx:133 | the year comparator `b - a` is a total preorder, a valid sort comparator |
| Candidates.Years | src/app/results/page.tsx:123-135 | the years offered are exactly those of the professor's records for the selected course (or of all their records when no course is selected), each once, latest first |
| Candidates.Semesters | src/app/results/page.tsx:136-148 | the semesters offered are exactly the semesters of the semester stage's records, each once |
| Candidates.SemestersMembers | src/app/results/page.tsx:136-148 | a semester is offered exactly when a record of the professor, in the course and the selected year, has it |
| Candidates.SemestersFirstSeen | src/app/results/page.tsx:136-148 | semesters are listed in the order of their first appearance among the stage's records |
| Candidates.SemestersEmptyWithoutYear | src/app/results/page.tsx:139-145 | once a course is selected, no semester is offered until a year is selected |
| Candidates.BySectionNumberIsPreorder | src/app/results/page.tsx:158-161 | the section-number comparator is a total preorder, a valid sort comparator |
| Candidates.FinalFilteredCourses | src/app/results/page.tsx:150-161 | a permutation of the professor's records in the selected year and semester (an unset one matches all), ordered by section number |
| Candidates.FirstPerCourseIdentifiers | src/app/results/page.tsx:75-89 | the records the reduce keeps carry each course identifier of the input exactly once, in first-seen order |
| Candidates.FirstPerCourseFirstWins | src/app/results/page.tsx:75-89 | each kept record is the first input record with its identifier |
| Candidates.FirstPerCourseInOrder | src/app/results/page.tsx:75-89 | the kept records keep their original relative order |
| Candidates.FirstPerCourse | src/app/results/page.tsx:75-89 | the reduce as a value: a record is kept when no kept record has its identifier; the three `FirstPerCourse` lemmas prove it keeps each identifier once, keeps the first record of each, and keeps order |
| Candidates.UniqueByCourse | src/app/results/page.tsx:75-89 | the reduce loop returns exactly the first record of each course identifier, as the specification function defines |
| Candidates.ProfessorSearchFilter | src/app/results/page.tsx:65-73 | exactly the fetched records matching the professor and course selected before the fetch (an unset one matches all), with the course key compared to `subject_id` |
| Dropdowns.CourseMatches | src/app/components/SelectionDropdowns.tsx:55-58 | exactly the records whose composed course key equals the selected course, with multiplicities |
| Dropdowns.CourseMatchesInOrder | src/app/components/SelectionDropdowns.tsx:55-58 | the matches keep their order |
| Dropdowns.CourseMatchesAll | src/app/components/SelectionDropdowns.tsx:55-58 | when every record is of the selected course, the matches are all the records, in order |
| Dropdowns.AtLeastAsNewIsPreorder | src/app/components/SelectionDropdowns.tsx:62-66 | the latest-first comparator (year, then position in `semesters`) is a total preorder |
| Dropdowns.Newer | src/app/components/SelectionDropdowns.tsx:63-65 | the comparator is negative: a later year, or the same year and a semester later in `semesters` (a missing one ranks -1); `Dropdowns.AtLeastAsNewIsPreorder` proves it a valid comparator |
| Dropdowns.LatestIndex | src/app/components/SelectionDropdowns.tsx:62-68 | no match ranks above the chosen one, and every earlier match ranks below it |
| Dropdowns.SortHeadIsLatest | src/app/components/SelectionDropdowns.tsx:62-68 | the head of the stable latest-first sort is the first match of maximal rank |
| Dropdowns.SortLatestFirst | src/app/components/SelectionDropdowns.tsx:62-66 | the sorted copy is a permutation of the matches, latest first, headed by the first match of maximal rank |
| Dropdowns.LatestCourse | src/app/components/SelectionDropdowns.tsx:55-68 | nothing exactly when no record of `finalFilteredCourses` matches the course; otherwise one of the matches |
| Dropdowns.LatestCourseRank | src/app/components/SelectionDropdowns.tsx:62-68 | the chosen record has maximal rank among the matches, and no earlier match ties with it |
| Dropdowns.LatestSemesterFollowsListOrder | src/app/components/SelectionDropdowns.tsx:62-66 | within a year, the winner depends on the order of the `semesters` list: Fall beats Spring under one order and loses under the other |
| Dropdowns.FillUnset | src/app/components/SelectionDropdowns.tsx:70-73 | year, semester and section are each taken from the latest record only where unset, and otherwise kept; professor and course never change |
| Dropdowns.FindSection | src/app/components/SelectionDropdowns.tsx:161-173 | the lookup finds nothing exactly when no record has the subject, the section number and the selected term |
| Dropdowns.FindSectionFirstMatch | src/app/components/SelectionDropdowns.tsx:163-172 | a found record is the first record of `finalFilteredCourses` with the subject, section number and term |
| Dropdowns.SectionOptions | src/app/components/SelectionDropdowns.tsx:150-190 | options exist exactly when year and semester are both truthy, and are then the records of the split course key in that term, with multiplicities |
| Dropdowns.SectionOptionsInOrder | src/app/components/SelectionDropdowns.tsx:180-190 | the options keep the order of `finalFilteredCourses` |
| Dropdowns.ChosenOptionIsFound | src/app/components/SelectionDropdowns.tsx:161-190 | choosing an offered option whose subject the subject restriction admits (none given, or the option's own subject) finds a record with that section number and term |
| Dropdowns.SectionLookupIgnoresCourseNumber | src/app/components/SelectionDropdowns.tsx:161-190 | with two courses of one subject sharing a section number and a term, the second course's option resolves to the first course's record |
| Stats.CeilPercent | src/app/components/StatsCard.tsx:288-295 | the least whole percentage at or above `100 * n / d` |
| Stats.CeilPercentBounds | src/app/components/StatsCard.tsx:288-295 | for a numerator within the count, the percentage lies in 0..100, is 0 exactly for a zero numerator, and is 100 for the whole count |
| Stats.CeilPercentMonotone | src/app/components/StatsCard.tsx:288-295 | a larger numerator never gives a smaller percentage |
| Stats.JsPercent | src/app/components/StatsCard.tsx:288-295 | NaN exactly for 0/0, Infinity exactly for a positive numerator over 0, and otherwise the ceiling percentage |
| Stats.SinglePassRate | src/app/components/StatsCard.tsx:285-298 | shown exactly when the section number is truthy; it is ceil(100·(A+B+C+P)/count) for a positive count and not a number for a zero count |
| Stats.ComparisonPassRate | src/app/components/StatsCard.tsx:354-366 | shown exactly when the section number is truthy; it is ceil(100·(A+B+C)/count) for a positive count and not a number for a zero count |
| Stats.WithdrawalRate | src/app/components/StatsCard.tsx:306-317 | shown exactly when the count is non-zero, and then ceil(100·(W+Q)/count) |
| Stats.RatesArePercentages | src/app/components/StatsCard.tsx:285-317 | with a positive count and grade counts within it, every rate is a whole percentage in 0..100 |
| Stats.ComparisonRateAtMostSingle | src/app/components/StatsCard.tsx:285-366 | the comparison pass rate never exceeds the single one, and equals it when there are no P grades |
| Stats.ZeroCountRates | src/app/components/StatsCard.tsx:285-317 | with a zero count the withdrawal box is hidden and the pass rate is NaN or Infinity |
| Stats.AverageGrade | src/app/components/StatsCard.tsx:299-305 | hidden exactly when the GPA is 0, and otherwise floor(25·GPA) |
| Stats.AverageGradeBounds | src/app/components/StatsCard.tsx:299-305 | on the 0..4 GPA scale the average grade is in 0..100, and 4.0 gives 100 |
| Stats.WorkedExample | src/app/components/StatsCard.tsx:285-305 | A=10, B=5, C=3, P=0 out of 20 with GPA 3.0 shows a pass rate of 90 and an average grade of 75 |
| Stats.ColorFor | src/app/components/StatsCard.tsx:323 | a row's colour is always one of the six colour classes |
| Stats.ColorCycle | src/app/components/StatsCard.tsx:41-48 | colours repeat every six rows, and any six consecutive rows have six different colours |
| Stats.StatsView | src/app/components/StatsCard.tsx:220-384 | the placeholder shows exactly when there is no first value; otherwise there are comparison rows exactly when there is more than one entry; the single layout shows the first section's boxes and has a rating panel exactly when a professor is selected; the comparison layout has one row per entry, coloured by index, each row `RowFor` of its own entry; both layouts carry the `Heading` of the first entry |
| Stats.SingleCard | src/app/components/StatsCard.tsx:258-317 | the single layout's boxes, each present under its own guard; `Stats.StatsView` shows it for a single entry |
| Stats.RowFor | src/app/components/StatsCard.tsx:322-373 | one comparison row: the colour of its index and the boxes of its entry, with the pass rate that leaves out P; `Stats.StatsView` makes each row `RowFor` of its own entry and `Stats.RowsAreIndependent` shows a row ignores the other entries |
| Stats.Heading | src/app/components/StatsCard.tsx:245-254 | the title from the first entry: subject, number and title when subject and number are truthy, otherwise "Course Information"; used for both layouts by `Stats.StatsView` |
| Stats.SectionLabel | src/app/components/StatsCard.tsx:269-275 | `"<semester> <year>-<section>"`, present exactly when the year is truthy; part of `Stats.SingleCard` and `Stats.RowFor` |
| Stats.IsComparingMode | src/app/components/StatsCard.tsx:220 | comparing mode means more than one entry; `Stats.StatsView` shows comparison rows exactly then, and `Results.StatsInput` proves the single-entry substitute never changes it |
| Stats.RowsAreIndependent | src/app/components/StatsCard.tsx:322-373 | a comparison row depends only on its own entry and position, never on the other entries |
| Stats.ExtractLastName | src/app/components/StatsCard.tsx:61-64 | the last name is the longest space-free suffix of the trimmed name |
| Stats.NameContainsIff | src/app/components/StatsCard.tsx:91 | a directory name matches exactly when the lower-cased last name occurs in the lower-cased name |
| Stats.FindDirectoryEntry | src/app/components/StatsCard.tsx:89-92 | nothing exactly when no directory name contains the last name; otherwise the first entry whose name does |
| Stats.BlankNameMatchesFirst | src/app/components/StatsCard.tsx:61-92 | for a blank professor name, the pure `find` returns the first entry of the list it is given (in the app the fetch for an empty initial fails before this) |
| Results.InFinalFiltered | src/app/results/page.tsx:150-161 | a record is in `finalFilteredCourses` exactly when it is the professor's and in the selected term |
| Results.DefaultSource | src/app/components/SelectionDropdowns.tsx:55-68 | the record the effect fills from: the latest match among `finalFilteredCourses`, ranked with `semesters`; `Results.DefaultSourceIsCandidate` proves it exists exactly when a candidate does and is one |
| Results.DefaultEffect | src/app/components/SelectionDropdowns.tsx:54-74 | the selection after the effect; `ResultsState.ApplyLatestDefault` is proved to compute it, and the `DefaultEffect` lemmas prove what it does |
| Results.AllTaughtNoTerm | src/app/results/page.tsx:150-161 | with no term chosen and every record the professor's, `finalFilteredCourses` is a permutation of the records |
| Results.SortedPairOrder | src/app/results/page.tsx:158-161 | two distinct records sorted by section number, the first strictly lower, come out in that order |
| Results.TwoRecordsBySectionNumber | src/app/results/page.tsx:150-161 | a professor's two records, with no term chosen, are listed lower section number first |
| Results.TiedRecordsFirstWins | src/app/components/SelectionDropdowns.tsx:62-68 | with an empty `semesters` list, two matching records of one year tie and the first is the default |
| Results.FirstDefaultFollowsSectionOrder | src/app/components/SelectionDropdowns.tsx:54-74 | on the first run for a chosen course, a Spring record with the lower section number is the default over a Fall record of the same year |
| Results.DefaultSourceIsCandidate | src/app/components/SelectionDropdowns.tsx:55-68 | the default effect has a source record exactly when a record of the professor, in the term and of the course, exists; the source is one of them |
| Results.DefaultEffectWithoutCandidate | src/app/components/SelectionDropdowns.tsx:60 | without a matching record the default effect changes nothing |
| Results.DefaultEffectFromLatest | src/app/components/SelectionDropdowns.tsx:54-74 | whenever the default effect changes the selection, it fills the unset fields from a matching record that no other match ranks above |
| Results.DefaultEffectFillsAll | src/app/components/SelectionDropdowns.tsx:71-73 | with well-formed records, once a matching record exists, the effect leaves year, semester and section all set |
| Results.FillUnsetFromWellFormed | src/app/components/SelectionDropdowns.tsx:71-73 | filling from a record with a non-empty year and semester sets year, semester and section |
| Results.FillUnsetWhenSet | src/app/components/SelectionDropdowns.tsx:70-73 | filling a selection whose term and section are already set changes nothing |
| Results.DefaultEffectIdempotent | src/app/components/SelectionDropdowns.tsx:54-86 | with well-formed records, running the effect again after its own writes changes nothing |
| Results.DefaultEffectKeepsSectionInTerm | src/app/components/SelectionDropdowns.tsx:71-73 | with well-formed records, the effect keeps a selected section inside the selected year and semester |
| Results.FoundSectionIsCandidate | src/app/components/SelectionDropdowns.tsx:161-173 | a section the lookup finds is a fetched record of the selected professor, with the chosen number, the selected term and the allowed subject |
| Results.StatsInput | src/app/results/page.tsx:262-266 | the card receives `selectedItems` when it is non-empty, and otherwise one entry holding the selected section; comparing mode is unchanged by the substitution |
| Results.EmptyComparisonShowsSection | src/app/results/page.tsx:262-266 | with no comparison entries the card shows the placeholder exactly when no section is selected, and otherwise the selected section's single layout |
| Results.ResultsState.constructor | src/app/results/page.tsx:28-45 | no records, an empty selection, no route and an empty comparison map |
| Results.ResultsState.SearchStarted | src/app/results/page.tsx:47-49 | starting a search clears the comparison map and returns the URL parameters with the professor and course selected at that moment, the values the call's closure keeps; with neither parameter no fetch starts and nothing changes; records, route and selection are untouched |
| Results.ResultsState.SearchCompleted | src/app/results/page.tsx:50-94 | a course search stores the records and the course. A professor search stores the records filtered by the professor and course captured when it started (not the current ones), their first record per course, and the professor. With neither parameter nothing changes; year, semester, section and the comparison map are never touched |
| Results.ResultsState.CourseSearchCompleted | src/app/results/page.tsx:51-58 | the course branch: route, course and records set as fetched, everything else kept |
| Results.ResultsState.ProfessorSearchCompleted | src/app/results/page.tsx:59-94 | the professor branch: records filtered by the captured professor and course, the first record per course for the side bar, route and professor set, everything else kept |
| Results.ResultsState.ProfessorClicked | src/app/results/page.tsx:163-168 | sets the professor and clears year, semester and section; nothing else changes |
| Results.ResultsState.CourseClicked | src/app/results/page.tsx:170-175 | sets the course and clears year, semester and section; nothing else changes |
| Results.ResultsState.Reset | src/app/results/page.tsx:177-185 | clears all five selection fields and both record lists; the route and the comparison map stay |
| Results.ResultsState.YearChosen | src/app/components/SelectionDropdowns.tsx:104-108 | sets the year and clears semester and section |
| Results.ResultsState.SemesterChosen | src/app/components/SelectionDropdowns.tsx:132-135 | sets the semester and clears the section |
| Results.ResultsState.SectionChosen | src/app/components/SelectionDropdowns.tsx:161-173 | stores the lookup's result: the first fitting record of the professor, with the chosen number and the selected term, or none; with well-formed records the section stays in the selected term |
| Results.ResultsState.ApplyLatestDefault | src/app/components/SelectionDropdowns.tsx:54-74 | the new selection is the default effect applied to the old one; records, route and comparison map are unchanged |
| Results.ResultsState.StatsItems | src/app/results/page.tsx:262-266 | the card always receives at least one entry: `selectedItems` unchanged when it is non-empty, and otherwise exactly the selected section under the key `"selectedProfessor"` |

## Left out

- Fetching: the network calls, JSON decoding and the error path of the searches and of the directory lookup are left out. A search is split at its `await`: `SearchStarted` runs up to the fetch and `SearchCompleted` receives the fetched records as a parameter, so overlapping searches may complete in any order the caller chooses. The directory lookup, likewise, receives the directory list as a parameter.
- JSX output is left out, including the literal `0` React renders for `{0 && ...}`.
- The `loading` flag, the `utaProfessors` cache, `Promise.all`, the info box and its click-outside listener, the bar chart, the side bar and all markup beyond the boxes each layout shows are left out.
- Where `selectedCourseSubject` comes from is left out. The side bar supplies it; the section lookup takes it as a parameter.
- The side bar is not part of this model. The model assumes it passes `finalFilteredCourses`, `years`, `semesters` and the setters from the results page to the dropdowns unchanged, and `selectedCourse` only once a course is selected (see the next line).
- Dropdowns.SectionOptions: it takes the course key as a string, as the dropdowns declare it (SelectionDropdowns.tsx:18). The results page holds `string | undefined` (page.tsx:35), and it is undefined on the professor route until a course is clicked, while years and semesters are still offered then (page.tsx:128, 141). If an undefined course reached the dropdowns with a year and semester chosen, `selectedCourse.split(" ")` (SelectionDropdowns.tsx:182-183) would throw a TypeError as soon as there is a record to filter. That crash is not modelled; the model assumes the side bar renders the dropdowns only with a selected course.
- React batching is left out. Each handler's setter calls become one method whose writes all take effect. The default effect is one method call, and re-running it after a render is modelled by `Results.DefaultEffectIdempotent`.
- `selectedItems` is a sequence of key and value entries in insertion order. The keys are not checked for uniqueness, and the side bar's code that adds comparison entries is not part of this model.
- Stats.CeilPercent: it computes the exact ceiling of 100·n/d. JavaScript computes it in binary floating point, which can round above a whole percentage: 7 of 100 gives 8.
- Stats.AverageGrade: it uses exact real arithmetic for floor(25·GPA), not IEEE-754 doubles.
- Strings.LexLe: it models `localeCompare` as plain lexicographic order on character codes. Locale collation rules are not modelled.
- Strings.Lower: it lower-cases ASCII letters only. Unicode case mapping is not modelled.
- Strings.LeadingDigits: it models year parsing by the value of the leading decimal digits. `parseInt` (the latest-record sort) also skips leading whitespace and reads a sign, and returns NaN for text without leading digits. `b - a` (the years sort) converts with `Number`: 0 for an empty or blank year, NaN for other text that is not a numeral, surrounding whitespace ignored. The model ranks every year by its leading digits, and by 0 when there are none. Years in the data are digit strings.
- Candidates.Years: it assumes the comparator orders year strings by the value of their leading digits. The `Number` conversion of `b - a` differs for years that are not plain numerals, and JavaScript's sort with a NaN-producing comparator is not modelled.
- Grade counts are unbounded naturals and the GPA is a real. The `Number(...)` coercions of text fields are not modelled.
- The route handlers under `src/app/api/` and the page layout are not part of this model.
