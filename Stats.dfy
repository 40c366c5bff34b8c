/** The statistics card (src/app/components/StatsCard.tsx): per-section
    rates, the average grade, the single / comparison layouts, the cyclic
    colour of comparison rows, and the pure part of the instructor-directory
    lookup. Rates are exact integer ceilings (see README). */
module Stats {
  import opened Seqs
  import opened Strings
  import opened Records

  /** The value `Math.ceil(n / d * 100)` takes in JavaScript: a whole
      percentage, or NaN (0 / 0) or Infinity (n / 0 with n > 0). */
  datatype Ratio = Percent(value: int) | NotANumber | Infinite

  /** One entry of the `selectedItems` map: its key and its value, a
      section record or `null`. Entries are in insertion order. */
  datatype Entry = Entry(key: string, item: Option<Section>)

  lemma CeilDivBounds(m: nat, d: nat)
    requires d > 0
    ensures ((m + d - 1) / d - 1) * d < m <= ((m + d - 1) / d) * d
  {
    var q, rem := (m + d - 1) / d, (m + d - 1) % d;
    assert m + d - 1 == q * d + rem && 0 <= rem < d;
    assert (q - 1) * d == q * d - d;
  }

  /** `Math.ceil(n / d * 100)` over exact integers: the least whole
      percentage that is at least `100 * n / d`. */
  function CeilPercent(n: nat, d: nat): (r: nat)
    requires d > 0
    ensures (r - 1) * d < 100 * n <= r * d
  {
    CeilDivBounds(100 * n, d);
    (100 * n + d - 1) / d
  }

  /** `a * d < b * d` with `d > 0` gives `a < b`. */
  lemma CancelPositive(a: int, b: int, d: int)
    requires d > 0 && a * d < b * d
    ensures a < b
  {
  }

  /** For a numerator within the count, the percentage lies in 0..100; it
      is 0 exactly for a zero numerator, and a full count gives 100. */
  lemma {:induction false} CeilPercentBounds(n: nat, d: nat)
    requires 0 < d && n <= d
    ensures 0 <= CeilPercent(n, d) <= 100
    ensures CeilPercent(n, d) == 0 <==> n == 0
    ensures n == d ==> CeilPercent(n, d) == 100
  {
    var r := CeilPercent(n, d);
    assert (r - 1) * d < 100 * n <= 100 * d;
    CancelPositive(r - 1, 100, d);
    if r == 0 {
      assert 100 * n <= 0 * d;
    }
    if n == 0 {
      CancelPositive(r - 1, 0, d);
    }
    if n == d {
      CancelPositive(99, r, d);
    }
  }

  /** A larger numerator never gives a smaller percentage. */
  lemma {:induction false} CeilPercentMonotone(n1: nat, n2: nat, d: nat)
    requires 0 < d && n1 <= n2
    ensures CeilPercent(n1, d) <= CeilPercent(n2, d)
  {
    var r1, r2 := CeilPercent(n1, d), CeilPercent(n2, d);
    assert (r1 - 1) * d < 100 * n1 <= 100 * n2 <= r2 * d;
    CancelPositive(r1 - 1, r2, d);
  }

  /** `Math.ceil(n / d * 100)` with JavaScript's division by zero. */
  function JsPercent(n: nat, d: nat): (r: Ratio)
    ensures r == NotANumber <==> d == 0 && n == 0
    ensures r == Infinite <==> d == 0 && n > 0
    ensures d > 0 ==> r.Percent? && (r.value - 1) * d < 100 * n <= r.value * d
  {
    if d == 0 then (if n == 0 then NotANumber else Infinite)
    else Percent(CeilPercent(n, d))
  }

  /** The single-section PASS RATE: shown when `section_number` is truthy,
      counting A, B, C and P, with no guard on a zero count. */
  function SinglePassRate(s: Section): (r: Option<Ratio>)
    ensures r.Some? <==> s.sectionNumber != ""
    ensures r.Some? && s.gradesCount > 0 ==> (r.value.Percent? &&
      (r.value.value - 1) * s.gradesCount < 100 * (s.gradesA + s.gradesB + s.gradesC + s.gradesP) <=
        r.value.value * s.gradesCount)
    ensures r.Some? && s.gradesCount == 0 ==> !r.value.Percent?
  {
    if s.sectionNumber == "" then None
    else Some(JsPercent(s.gradesA + s.gradesB + s.gradesC + s.gradesP, s.gradesCount))
  }

  /** The comparison-row PASS RATE: the same guard, but `grades_P` is not
      counted. */
  function ComparisonPassRate(s: Section): (r: Option<Ratio>)
    ensures r.Some? <==> s.sectionNumber != ""
    ensures r.Some? && s.gradesCount > 0 ==> (r.value.Percent? &&
      (r.value.value - 1) * s.gradesCount < 100 * (s.gradesA + s.gradesB + s.gradesC) <=
        r.value.value * s.gradesCount)
    ensures r.Some? && s.gradesCount == 0 ==> !r.value.Percent?
  {
    if s.sectionNumber == "" then None
    else Some(JsPercent(s.gradesA + s.gradesB + s.gradesC, s.gradesCount))
  }

  /** The WITHDRAWAL RATE, counting W and Q: shown only when `grades_count`
      is truthy, so it never divides by zero. */
  function WithdrawalRate(s: Section): (r: Option<nat>)
    ensures r.Some? <==> s.gradesCount != 0
    ensures r.Some? ==> (r.value - 1) * s.gradesCount < 100 * (s.gradesW + s.gradesQ) <= r.value * s.gradesCount
  {
    if s.gradesCount == 0 then None else Some(CeilPercent(s.gradesW + s.gradesQ, s.gradesCount))
  }

  /** With a positive count and grade counts within it, every rate the
      card shows is a percentage in 0..100. */
  lemma RatesArePercentages(s: Section)
    requires s.gradesCount > 0 && s.sectionNumber != ""
    requires s.gradesA + s.gradesB + s.gradesC + s.gradesP <= s.gradesCount
    requires s.gradesW + s.gradesQ <= s.gradesCount
    ensures SinglePassRate(s).value.Percent? && 0 <= SinglePassRate(s).value.value <= 100
    ensures ComparisonPassRate(s).value.Percent? && 0 <= ComparisonPassRate(s).value.value <= 100
    ensures 0 <= WithdrawalRate(s).value <= 100
  {
    CeilPercentBounds(s.gradesA + s.gradesB + s.gradesC + s.gradesP, s.gradesCount);
    CeilPercentBounds(s.gradesA + s.gradesB + s.gradesC, s.gradesCount);
    CeilPercentBounds(s.gradesW + s.gradesQ, s.gradesCount);
  }

  /** Leaving out `grades_P` makes the comparison pass rate at most the
      single-section one; they agree when there are no P grades. */
  lemma ComparisonRateAtMostSingle(s: Section)
    requires s.gradesCount > 0 && s.sectionNumber != ""
    ensures ComparisonPassRate(s).value.value <= SinglePassRate(s).value.value
    ensures s.gradesP == 0 ==> ComparisonPassRate(s) == SinglePassRate(s)
  {
    CeilPercentMonotone(s.gradesA + s.gradesB + s.gradesC, s.gradesA + s.gradesB + s.gradesC + s.gradesP, s.gradesCount);
  }

  /** A section with no students: the withdrawal rate is hidden, but the
      single-section pass rate still shows NaN (no grades) or Infinity. */
  lemma ZeroCountRates(s: Section)
    requires s.gradesCount == 0 && s.sectionNumber != ""
    ensures WithdrawalRate(s).None?
    ensures SinglePassRate(s) == Some(if s.gradesA + s.gradesB + s.gradesC + s.gradesP == 0 then NotANumber else Infinite)
  {
  }

  /** AVERAGE GRADE, `Math.floor(course_gpa * 25)`: shown only when the GPA
      is truthy (non-zero). */
  function AverageGrade(gpa: real): (r: Option<int>)
    ensures r.None? <==> gpa == 0.0
    ensures r.Some? ==> r.value as real <= gpa * 25.0 < r.value as real + 1.0
  {
    if gpa == 0.0 then None else Some((gpa * 25.0).Floor)
  }

  /** On the 0..4 GPA scale the average grade is a percentage, and 4.0
      maps to exactly 100. */
  lemma AverageGradeBounds(gpa: real)
    requires 0.0 < gpa <= 4.0
    ensures 0 <= AverageGrade(gpa).value <= 100
    ensures gpa == 4.0 ==> AverageGrade(gpa) == Some(100)
  {
  }

  /** A section with A=10, B=5, C=3, P=0 out of 20 and GPA 3.0 shows a
      90% pass rate and a 75% average grade. */
  lemma WorkedExample(s: Section)
    requires s.gradesA == 10 && s.gradesB == 5 && s.gradesC == 3 && s.gradesP == 0
    requires s.gradesCount == 20 && s.courseGpa == 3.0 && s.sectionNumber != ""
    ensures SinglePassRate(s) == Some(Percent(90))
    ensures AverageGrade(s.courseGpa) == Some(75)
  {
    assert CeilPercent(18, 20) == 90;
  }

  /** `selectedItems.size > 1`. */
  predicate IsComparingMode(size: nat)
  {
    size > 1
  }

  /** `colorClasses`. */
  const ColorClasses: seq<string> := [
    "border-t-blue-400", "border-t-green-400", "border-t-orange-400",
    "border-t-teal-400", "border-t-rose-400", "border-t-yellow-400"]

  /** `colorClasses[index % colorClasses.length]`: always a listed colour. */
  function ColorFor(index: nat): (c: string)
    ensures c in ColorClasses
  {
    ColorClasses[index % |ColorClasses|]
  }

  /** Colours repeat every six rows, and any six consecutive rows have six
      different colours. */
  lemma ColorCycle(i: nat, j: nat)
    ensures ColorFor(i + |ColorClasses|) == ColorFor(i)
    ensures i < j < i + |ColorClasses| ==> ColorFor(i) != ColorFor(j)
  {
    var n := |ColorClasses|;
    assert (i + n) % n == i % n;
    if i < j < i + n {
      var a, b := i % n, j % n;
      assert a != b;
      assert ColorClasses[a] != ColorClasses[b];
    }
  }

  /** The boxes of the single-section layout; an absent box is `None`. */
  datatype Card = Card(
    professor: Option<string>,
    sectionLabel: Option<string>,
    totalStudents: Option<nat>,
    passRate: Option<Ratio>,
    averageGrade: Option<int>,
    withdrawalRate: Option<nat>)

  /** One comparison row: its colour and its boxes (no withdrawal rate). */
  datatype Row = Row(
    color: string,
    professor: Option<string>,
    sectionLabel: Option<string>,
    totalStudents: Option<nat>,
    passRate: Option<Ratio>,
    averageGrade: Option<int>)

  /** What the card renders: the placeholder, one section with the optional
      rating panel, or one row per entry. */
  datatype View =
    | Placeholder
    | SingleView(heading: string, card: Card, rating: Option<string>)
    | ComparisonView(heading: string, rows: seq<Row>)

  /** `${semester} ${year}-${section_number}`, shown when the year is truthy. */
  function SectionLabel(s: Section): Option<string>
  {
    if s.year == "" then None else Some(s.semester + " " + s.year + "-" + s.sectionNumber)
  }

  /** The title line, from the first entry. */
  function Heading(s: Section): string
  {
    if s.subjectId != "" && s.courseNumber != "" then s.subjectId + " " + s.courseNumber + " " + s.courseTitle
    else "Course Information"
  }

  function SingleCard(s: Section): Card
  {
    Card(if s.instructor == "" then None else Some(s.instructor),
         SectionLabel(s),
         if s.gradesCount == 0 then None else Some(s.gradesCount),
         SinglePassRate(s),
         AverageGrade(s.courseGpa),
         WithdrawalRate(s))
  }

  function RowFor(item: Option<Section>, index: nat): Row
  {
    match item
    case None => Row(ColorFor(index), None, None, None, None, None)
    case Some(s) =>
      Row(ColorFor(index),
          if s.instructor == "" then None else Some(s.instructor),
          SectionLabel(s),
          if s.gradesCount == 0 then None else Some(s.gradesCount),
          ComparisonPassRate(s),
          AverageGrade(s.courseGpa))
  }

  /** The card for the entries of `selectedItems`. The placeholder shows
      when there is no first value; one entry gives the single layout and
      the rating panel (when a professor is selected); more give one row per
      entry and no rating panel. */
  function StatsView(items: seq<Entry>, selectedProfessor: Option<string>): (v: View)
    ensures v.Placeholder? <==> |items| == 0 || items[0].item.None?
    ensures !v.Placeholder? ==> (v.ComparisonView? <==> IsComparingMode(|items|))
    ensures !v.Placeholder? ==> v.heading == Heading(items[0].item.value)
    ensures v.SingleView? ==> v.card == SingleCard(items[0].item.value)
    ensures v.SingleView? ==> (v.rating.Some? <==> Truthy(selectedProfessor))
    ensures v.ComparisonView? ==> (|v.rows| == |items| &&
      forall i :: 0 <= i < |items| ==> v.rows[i].color == ColorClasses[i % 6])
    ensures v.ComparisonView? ==> forall i :: 0 <= i < |items| ==> v.rows[i] == RowFor(items[i].item, i)
  {
    if |items| == 0 || items[0].item.None? then Placeholder
    else
      var heading := Heading(items[0].item.value);
      if |items| == 1 then
        SingleView(heading, SingleCard(items[0].item.value),
                   if !IsComparingMode(|items|) && Truthy(selectedProfessor) then selectedProfessor else None)
      else
        ComparisonView(heading, seq(|items|, i requires 0 <= i < |items| => RowFor(items[i].item, i)))
  }

  /** Comparison rows are never pooled: a row depends only on its own entry
      and position, whatever the other entries and the professor are. */
  lemma RowsAreIndependent(items1: seq<Entry>, items2: seq<Entry>, p1: Option<string>, p2: Option<string>, i: nat)
    requires StatsView(items1, p1).ComparisonView? && StatsView(items2, p2).ComparisonView?
    requires i < |items1| && i < |items2| && items1[i].item == items2[i].item
    ensures StatsView(items1, p1).rows[i] == StatsView(items2, p2).rows[i]
  {
  }

  /** A UTA directory record. */
  datatype DirectoryEntry = DirectoryEntry(
    userName: string,
    instructorName: string,
    nameProfileLink: string,
    email: string,
    workingTitle: string)

  /** `extractLastName`: the last space-separated piece of the trimmed
      name, that is its longest space-free suffix (the whole trimmed name
      when it holds no space). */
  function ExtractLastName(fullName: string): (r: string)
    ensures NoSpace(r)
    ensures var t := Trim(fullName); |r| <= |t| && t[|t| - |r|..] == r
    ensures var t := Trim(fullName); |r| < |t| ==> t[|t| - |r| - 1] == ' '
  {
    var t := Trim(fullName);
    LastPieceIsSuffix(t);
    LastPiece(t)
  }

  /** `p.instructor_name.toLowerCase().includes(lastName.toLowerCase())`. */
  predicate NameContains(p: DirectoryEntry, lastName: string)
  {
    Contains(Lower(p.instructorName), Lower(lastName))
  }

  /** The directory name contains the last name exactly when the lower-cased
      last name occurs somewhere in the lower-cased directory name. */
  lemma NameContainsIff(p: DirectoryEntry, lastName: string)
    ensures NameContains(p, lastName) <==> exists i :: OccursAt(Lower(p.instructorName), Lower(lastName), i)
  {
    ContainsIff(Lower(p.instructorName), Lower(lastName));
  }

  /** `professors.find(...)`: the first directory record whose name contains
      the professor's last name, ignoring ASCII case, or none. */
  function FindDirectoryEntry(profs: seq<DirectoryEntry>, professorName: string): (r: Option<DirectoryEntry>)
    ensures var last := ExtractLastName(professorName);
      r.None? <==> forall k :: 0 <= k < |profs| ==> !NameContains(profs[k], last)
    ensures var last := ExtractLastName(professorName);
      r.Some? ==> exists i :: (0 <= i < |profs| && profs[i] == r.value && NameContains(profs[i], last) &&
        forall k :: 0 <= k < i ==> !NameContains(profs[k], last))
  {
    var last := ExtractLastName(professorName);
    Find(profs, (p: DirectoryEntry) => NameContains(p, last))
  }

  /** A blank professor name gives an empty last name, which every
      directory name contains: the first record is returned. */
  lemma BlankNameMatchesFirst(profs: seq<DirectoryEntry>, professorName: string)
    requires Trim(professorName) == ""
    ensures FindDirectoryEntry(profs, professorName) == if profs == [] then None else Some(profs[0])
  {
    assert ExtractLastName(professorName) == "";
    if profs != [] {
      assert OccursAt(Lower(profs[0].instructorName), Lower(""), 0);
      NameContainsIff(profs[0], "");
    }
  }
}
