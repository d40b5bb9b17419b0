/**
 * The plan: years of quarters of courses, plus two bookmark sets, and the
 * value-level operations the planner applies to it — the quarter ordering
 * the planner re-establishes after every insertion, removal of one course
 * from a quarter, the credit total of a quarter, the duplicate lookup, and
 * the soft confirmation policy that precedes an insertion.
 */
module Plan {
  import opened Wrappers

  /** A course as the plan stores it: its catalog id, its units (already parsed), and the two policy flags. */
  datatype Course = Course(id: string, units: real, placeholder: bool, repeatable: bool)

  /** A place in the plan. A negative year means the bookmarks; `quarter == 1` then selects the for-credit set. */
  datatype Location = Location(year: int, quarter: int)

  type Quarter = seq<Course>

  /** Years of quarters of courses. */
  type Schedule = seq<seq<Quarter>>

  /** Everything that is persisted about a plan. */
  datatype PlanData = PlanData(courses: Schedule, forCredit: set<Course>, noCredit: set<Course>)

  predicate InSchedule(courses: Schedule, year: int, quarter: int) {
    0 <= year < |courses| && 0 <= quarter < |courses[year]|
  }

  /** A schedule of `years` years, each of `quarters` empty quarters. */
  function EmptySchedule(years: nat, quarters: nat): (courses: Schedule)
    ensures |courses| == years
    ensures forall y :: 0 <= y < years ==> courses[y] == EmptyYear(quarters)
  {
    seq(years, _ => EmptyYear(quarters))
  }

  function EmptyYear(quarters: nat): (year: seq<Quarter>)
    ensures |year| == quarters && forall q :: 0 <= q < quarters ==> year[q] == []
  {
    seq(quarters, _ => [])
  }

  // ---------------------------------------------------------------------------
  // Ordering within a quarter
  // ---------------------------------------------------------------------------

  /**
   * Lexicographic order on course ids, character by character: an id, or
   * any prefix of it, comes no later than the id itself.
   */
  predicate IdLe(a: string, b: string)
    ensures a <= b ==> IdLe(a, b)
    decreases |a|
  {
    a == [] || (b != [] && (a[0] < b[0] || (a[0] == b[0] && IdLe(a[1..], b[1..]))))
  }

  /** Two ids that each come no later than the other are the same id. */
  lemma {:induction false} IdLeAntisymmetric(a: string, b: string)
    requires IdLe(a, b) && IdLe(b, a)
    ensures a == b
    decreases |a|
  {
    if a != [] && b != [] && a[0] == b[0] {
      IdLeAntisymmetric(a[1..], b[1..]);
      assert a == [a[0]] + a[1..] && b == [b[0]] + b[1..];
    }
  }

  lemma {:induction false} IdLeTotal(a: string, b: string)
    ensures IdLe(a, b) || IdLe(b, a)
    decreases |a|
  {
    if a != [] && b != [] && a[0] == b[0] {
      IdLeTotal(a[1..], b[1..]);
    }
  }

  lemma {:induction false} IdLeTransitive(a: string, b: string, c: string)
    requires IdLe(a, b) && IdLe(b, c)
    ensures IdLe(a, c)
    decreases |a|
  {
    if a != [] && b != [] && c != [] && a[0] == b[0] && b[0] == c[0] {
      IdLeTransitive(a[1..], b[1..], c[1..]);
    }
  }

  /**
   * Course `a` may stand before course `b` in a sorted quarter: placeholders
   * go last, and among non-placeholders ids ascend. Nothing is said about
   * the order of two placeholders.
   */
  predicate Before(a: Course, b: Course)
    ensures !a.placeholder && b.placeholder ==> Before(a, b)
    ensures a.placeholder && !b.placeholder ==> !Before(a, b)
    ensures !a.placeholder && !b.placeholder && a.id == b.id ==> Before(a, b)
  {
    b.placeholder || (!a.placeholder && IdLe(a.id, b.id))
  }

  /**
   * `localeCompare` on ids, taken as plain character order: negative, zero or
   * positive as `a` sorts before, with or after `b`.
   */
  function LocaleCompare(a: string, b: string): (c: int)
    ensures c == -1 || c == 0 || c == 1
    ensures c == 0 <==> a == b
    ensures c <= 0 <==> IdLe(a, b)
    decreases |a|
  {
    if a == [] then (if b == [] then 0 else -1)
    else if b == [] then 1
    else if a[0] < b[0] then -1
    else if a[0] > b[0] then 1
    else
      var c := LocaleCompare(a[1..], b[1..]);
      assert c == 0 ==> a == [a[0]] + a[1..] && b == [b[0]] + b[1..];
      c
  }

  /**
   * The comparator the quarter is sorted with: a placeholder sorts after
   * anything, a non-placeholder before any placeholder, and two other courses
   * by id. For two placeholders it answers "after" both ways round, so it is
   * not a consistent order there; for every other pair, "not after" is
   * exactly the order `Before` that sorted quarters keep.
   */
  function Comparator(a: Course, b: Course): (r: int)
    ensures a.placeholder ==> r > 0
    ensures !a.placeholder && b.placeholder ==> r < 0
    ensures !a.placeholder && !b.placeholder ==> (r == 0 <==> a.id == b.id)
    ensures !(a.placeholder && b.placeholder) ==> (r <= 0 <==> Before(a, b))
  {
    if a.placeholder then 1
    else if b.placeholder then -1
    else LocaleCompare(a.id, b.id)
  }

  lemma BeforeTotal(a: Course, b: Course)
    ensures Before(a, b) || Before(b, a)
  {
    IdLeTotal(a.id, b.id);
  }

  lemma BeforeTransitive(a: Course, b: Course, c: Course)
    requires Before(a, b) && Before(b, c)
    ensures Before(a, c)
  {
    if !c.placeholder {
      IdLeTransitive(a.id, b.id, c.id);
    }
  }

  /** The ordering the planner keeps in a quarter it has just sorted. */
  ghost predicate Ordered(q: Quarter) {
    forall i, j :: 0 <= i < j < |q| ==> Before(q[i], q[j])
  }

  /** What the ordering means: no placeholder precedes a non-placeholder, and non-placeholder ids ascend. */
  lemma OrderedMeans(q: Quarter, i: int, j: int)
    requires Ordered(q) && 0 <= i < j < |q|
    ensures q[i].placeholder ==> q[j].placeholder
    ensures !q[j].placeholder ==> !q[i].placeholder && IdLe(q[i].id, q[j].id)
  {
  }

  /** Every course of `q` may follow `c`. */
  ghost predicate AllAfter(c: Course, q: Quarter) {
    forall d :: d in q ==> Before(c, d)
  }

  lemma OrderedCons(c: Course, q: Quarter)
    requires AllAfter(c, q) && Ordered(q)
    ensures Ordered([c] + q)
  {
    var r := [c] + q;
    forall i, j | 0 <= i < j < |r| ensures Before(r[i], r[j]) {
      if i > 0 {
        assert r[i] == q[i - 1] && r[j] == q[j - 1];
      } else {
        assert r[j] in q;
      }
    }
  }

  lemma OrderedTail(q: Quarter)
    requires Ordered(q) && q != []
    ensures AllAfter(q[0], q[1..]) && Ordered(q[1..])
  {
    forall d | d in q[1..] ensures Before(q[0], d) {
      var j :| 0 <= j < |q[1..]| && q[1..][j] == d;
      assert q[j + 1] == d;
    }
    forall i, j | 0 <= i < j < |q[1..]| ensures Before(q[1..][i], q[1..][j]) {
      assert q[1..][i] == q[i + 1] && q[1..][j] == q[j + 1];
    }
  }

  /** Inserts one course into an ordered quarter, before the first course it may precede. */
  function {:induction false} Insert(c: Course, q: Quarter): (r: Quarter)
    requires Ordered(q)
    ensures Ordered(r)
    ensures multiset(r) == multiset(q) + multiset{c}
    ensures |r| == |q| + 1
  {
    if q == [] then [c]
    else
      OrderedTail(q);
      assert q == [q[0]] + q[1..];
      if Before(c, q[0]) then
        assert AllAfter(c, q) by {
          forall d | d in q ensures Before(c, d) {
            if d != q[0] { BeforeTransitive(c, q[0], d); }
          }
        }
        OrderedCons(c, q);
        [c] + q
      else
        var rest := Insert(c, q[1..]);
        BeforeTotal(c, q[0]);
        assert AllAfter(q[0], rest) by {
          forall d | d in rest ensures Before(q[0], d) {
            assert d in multiset(rest);
          }
        }
        OrderedCons(q[0], rest);
        [q[0]] + rest
  }

  /**
   * The quarter after `sort` with the planner's comparator: a permutation of
   * the input in which placeholders come last and the other courses ascend
   * by id.
   */
  function {:induction false} SortQuarter(q: Quarter): (r: Quarter)
    ensures Ordered(r)
    ensures multiset(r) == multiset(q)
    ensures |r| == |q|
  {
    if q == [] then []
    else
      assert q == [q[0]] + q[1..];
      Insert(q[0], SortQuarter(q[1..]))
  }

  // ---------------------------------------------------------------------------
  // Removing from a quarter
  // ---------------------------------------------------------------------------

  /** `indexOf`: the position of the first occurrence of `c`, or -1. */
  function IndexOf(q: Quarter, c: Course): (i: int)
    ensures -1 <= i < |q|
    ensures i == -1 <==> c !in q
    ensures 0 <= i ==> q[i] == c && c !in q[..i]
  {
    if q == [] then -1
    else if q[0] == c then 0
    else
      var i := IndexOf(q[1..], c);
      assert c in q[1..] ==> c in q;
      if i == -1 then -1
      else
        assert q[..i + 1] == [q[0]] + q[1..][..i];
        i + 1
  }

  /** `splice(start, 1)`: removes the element at `start`, counting a negative start from the end. */
  function SpliceOne(q: Quarter, start: int): (r: Quarter)
    ensures 0 <= start < |q| ==> r == q[..start] + q[start + 1..]
    ensures start < 0 && 0 <= |q| + start ==> r == q[..|q| + start] + q[|q| + start + 1..]
    ensures start < 0 && |q| + start < 0 ==> r == if q == [] then [] else q[1..]
    ensures start >= |q| ==> r == q
  {
    var at := if start < 0 then (if |q| + start < 0 then 0 else |q| + start) else start;
    if at < |q| then q[..at] + q[at + 1..]
    else q
  }

  /**
   * `splice(indexOf(c), 1)`: removes the first occurrence of `c`. When `c`
   * is absent, `indexOf` is -1 and the splice removes the LAST course instead
   * (nothing, from an empty quarter).
   */
  function SpliceOut(q: Quarter, c: Course): (r: Quarter)
    ensures c in q ==> r == q[..IndexOf(q, c)] + q[IndexOf(q, c) + 1..]
    ensures c in q ==> multiset(r) == multiset(q) - multiset{c} && |r| == |q| - 1
    ensures c !in q && q != [] ==> r == q[..|q| - 1]
    ensures q == [] ==> r == []
  {
    var i := IndexOf(q, c);
    if c in q then
      assert q == q[..i] + [q[i]] + q[i + 1..];
      SpliceOne(q, i)
    else
      SpliceOne(q, i)
  }

  /** Removing keeps a sorted quarter sorted. */
  lemma SpliceOutOrdered(q: Quarter, c: Course)
    requires Ordered(q)
    ensures Ordered(SpliceOut(q, c))
  {
    var r := SpliceOut(q, c);
    if c in q {
      var k := IndexOf(q, c);
      forall i, j | 0 <= i < j < |r| ensures Before(r[i], r[j]) {
        var i', j' := if i < k then i else i + 1, if j < k then j else j + 1;
        assert r[i] == q[i'] && r[j] == q[j'];
      }
    }
  }

  // ---------------------------------------------------------------------------
  // Credits
  // ---------------------------------------------------------------------------

  /** The credit total of a quarter: the sum of its courses' units. */
  function QuarterCredits(q: Quarter): (total: real)
    ensures q == [] ==> total == 0.0
    ensures (forall i :: 0 <= i < |q| ==> q[i].units >= 0.0) ==>
      (total >= 0.0 && forall i :: 0 <= i < |q| ==> q[i].units <= total)
  {
    if q == [] then 0.0 else q[0].units + QuarterCredits(q[1..])
  }

  lemma {:induction false} CreditsInsert(c: Course, q: Quarter)
    requires Ordered(q)
    ensures QuarterCredits(Insert(c, q)) == QuarterCredits(q) + c.units
  {
    if q != [] && !Before(c, q[0]) {
      CreditsInsert(c, q[1..]);
    }
  }

  /** Sorting a quarter does not change its credit total. */
  lemma {:induction false} CreditsSort(q: Quarter)
    ensures QuarterCredits(SortQuarter(q)) == QuarterCredits(q)
  {
    if q != [] {
      CreditsSort(q[1..]);
      CreditsInsert(q[0], SortQuarter(q[1..]));
    }
  }

  /** The credits of two quarters' courses together are the sum of their credits. */
  lemma {:induction false} CreditsAppend(a: Quarter, b: Quarter)
    ensures QuarterCredits(a + b) == QuarterCredits(a) + QuarterCredits(b)
  {
    if a == [] {
      assert a + b == b;
    } else {
      assert (a + b)[1..] == a[1..] + b;
      CreditsAppend(a[1..], b);
    }
  }

  /**
   * The credits of a quarter after a course is added and the quarter re-sorted
   * are its old credits plus the course's units: the very sum the credit
   * ceiling is checked against.
   */
  lemma AddedCourseCredits(q: Quarter, c: Course)
    ensures QuarterCredits(SortQuarter(q + [c])) == QuarterCredits(q) + c.units
  {
    CreditsSort(q + [c]);
    CreditsAppend(q, [c]);
  }

  // ---------------------------------------------------------------------------
  // Duplicates
  // ---------------------------------------------------------------------------

  predicate HasId(q: Quarter, id: string) {
    exists i :: 0 <= i < |q| && q[i].id == id
  }

  /** Some quarter of the schedule holds a course with this id. */
  ghost predicate Planned(courses: Schedule, id: string) {
    exists y, q :: InSchedule(courses, y, q) && HasId(courses[y][q], id)
  }

  function FindInYear(year: seq<Quarter>, id: string, from: nat): (q: Option<nat>)
    requires from <= |year|
    ensures q.Some? ==> from <= q.value < |year| && HasId(year[q.value], id)
    ensures q.None? ==> forall k :: from <= k < |year| ==> !HasId(year[k], id)
    decreases |year| - from
  {
    if from == |year| then None
    else if HasId(year[from], id) then Some(from)
    else FindInYear(year, id, from + 1)
  }

  function FindInYears(courses: Schedule, id: string, from: nat): (loc: Option<Location>)
    requires from <= |courses|
    ensures loc.Some? ==> (from <= loc.value.year && InSchedule(courses, loc.value.year, loc.value.quarter)
                           && HasId(courses[loc.value.year][loc.value.quarter], id))
    ensures loc.None? ==> forall y, q :: from <= y && InSchedule(courses, y, q) ==> !HasId(courses[y][q], id)
    decreases |courses| - from
  {
    if from == |courses| then None
    else match FindInYear(courses[from], id, 0)
      case Some(q) => Some(Location(from, q))
      case None => FindInYears(courses, id, from + 1)
  }

  /**
   * The duplicate lookup: a location of the schedule that holds a course with
   * the same id, or none exactly when no quarter holds one.
   */
  function DuplicateCourse(course: Course, courses: Schedule): (loc: Option<Location>)
    ensures loc.Some? ==> (InSchedule(courses, loc.value.year, loc.value.quarter)
                           && HasId(courses[loc.value.year][loc.value.quarter], course.id))
    ensures loc.None? <==> !Planned(courses, course.id)
  {
    FindInYears(courses, course.id, 0)
  }

  // ---------------------------------------------------------------------------
  // The confirmation policy
  // ---------------------------------------------------------------------------

  /** The per-quarter credit ceiling above which an insertion asks for confirmation. */
  const CreditCeiling: real := 7.5

  /** The outcome of the policy: go ahead, or ask first (with what the prompt reports). */
  datatype Prompt = NoPrompt | DuplicateWarning(at: Location) | CreditWarning(total: real)

  /** The duplicate rule: a non-repeatable, non-placeholder course already planned, unless the check is waived. */
  ghost predicate DuplicateRule(courses: Schedule, course: Course, ignoreExistCheck: bool) {
    !course.repeatable && Planned(courses, course.id) && !course.placeholder && !ignoreExistCheck
  }

  /**
   * The soft policy applied before a course goes into quarter `loc`: the
   * duplicate warning comes first and fires exactly when the duplicate rule
   * holds; only otherwise does the credit warning fire, exactly when the
   * quarter's credits plus the course's units exceed the ceiling (a total
   * equal to the ceiling passes).
   */
  function CoursePrompt(courses: Schedule, course: Course, loc: Location, ignoreExistCheck: bool): (p: Prompt)
    requires InSchedule(courses, loc.year, loc.quarter)
    ensures p.DuplicateWarning? <==> DuplicateRule(courses, course, ignoreExistCheck)
    ensures p.DuplicateWarning? ==> (InSchedule(courses, p.at.year, p.at.quarter)
                                     && HasId(courses[p.at.year][p.at.quarter], course.id))
    ensures p.CreditWarning? <==> (!DuplicateRule(courses, course, ignoreExistCheck)
                                   && QuarterCredits(courses[loc.year][loc.quarter]) + course.units > CreditCeiling)
    ensures p.CreditWarning? ==> p.total == QuarterCredits(courses[loc.year][loc.quarter]) + course.units
    ensures p == NoPrompt <==> (!DuplicateRule(courses, course, ignoreExistCheck)
                                && QuarterCredits(courses[loc.year][loc.quarter]) + course.units <= CreditCeiling)
  {
    var exists_ := DuplicateCourse(course, courses);
    if !course.repeatable && exists_.Some? && !course.placeholder && !ignoreExistCheck then
      DuplicateWarning(exists_.value)
    else
      var unitCount := QuarterCredits(courses[loc.year][loc.quarter]) + course.units;
      if unitCount > CreditCeiling then CreditWarning(unitCount)
      else NoPrompt
  }

  /** A move waives the duplicate check, so it can only ever raise the credit warning. */
  lemma MovePromptNeverDuplicate(courses: Schedule, course: Course, loc: Location)
    requires InSchedule(courses, loc.year, loc.quarter)
    ensures !CoursePrompt(courses, course, loc, true).DuplicateWarning?
  {
  }

  // ---------------------------------------------------------------------------
  // All scheduled courses
  // ---------------------------------------------------------------------------

  function YearBag(year: seq<Quarter>): multiset<Course> {
    if year == [] then multiset{} else multiset(year[0]) + YearBag(year[1..])
  }

  /** Every course of every quarter, with multiplicity. */
  function ScheduleBag(courses: Schedule): multiset<Course> {
    if courses == [] then multiset{} else YearBag(courses[0]) + ScheduleBag(courses[1..])
  }

  lemma MultisetCancel<T>(a: multiset<T>, b: multiset<T>, c: multiset<T>)
    requires a + c == b + c
    ensures a == b
  {
    assert forall x :: a[x] == (a + c)[x] - c[x];
  }

  lemma {:induction false} YearBagUpdate(year: seq<Quarter>, k: nat, q: Quarter)
    requires k < |year|
    ensures YearBag(year[k := q]) + multiset(year[k]) == YearBag(year) + multiset(q)
  {
    var updated := year[k := q];
    assert YearBag(updated) == multiset(updated[0]) + YearBag(updated[1..]);
    assert YearBag(year) == multiset(year[0]) + YearBag(year[1..]);
    if k == 0 {
      assert updated[1..] == year[1..];
    } else {
      assert updated[1..] == year[1..][k - 1 := q] && updated[0] == year[0] && year[1..][k - 1] == year[k];
      YearBagUpdate(year[1..], k - 1, q);
      assert YearBag(updated) + multiset(year[k])
        == multiset(year[0]) + (YearBag(updated[1..]) + multiset(year[1..][k - 1]));
    }
  }

  lemma {:induction false} ScheduleBagUpdate(courses: Schedule, y: nat, k: nat, q: Quarter)
    requires y < |courses| && k < |courses[y]|
    ensures ScheduleBag(courses[y := courses[y][k := q]]) + multiset(courses[y][k])
      == ScheduleBag(courses) + multiset(q)
  {
    var updated := courses[y := courses[y][k := q]];
    assert ScheduleBag(updated) == YearBag(updated[0]) + ScheduleBag(updated[1..]);
    assert ScheduleBag(courses) == YearBag(courses[0]) + ScheduleBag(courses[1..]);
    if y == 0 {
      assert updated[1..] == courses[1..] && updated[0] == courses[0][k := q];
      YearBagUpdate(courses[0], k, q);
      assert ScheduleBag(updated) + multiset(courses[0][k])
        == (YearBag(courses[0][k := q]) + multiset(courses[0][k])) + ScheduleBag(courses[1..]);
    } else {
      assert updated[1..] == courses[1..][y - 1 := courses[1..][y - 1][k := q]];
      assert updated[0] == courses[0] && courses[1..][y - 1] == courses[y];
      ScheduleBagUpdate(courses[1..], y - 1, k, q);
      assert ScheduleBag(updated) + multiset(courses[y][k])
        == YearBag(courses[0]) + (ScheduleBag(updated[1..]) + multiset(courses[1..][y - 1][k]));
    }
  }

  // ---------------------------------------------------------------------------
  // Schedule updates
  // ---------------------------------------------------------------------------

  /** Every quarter other than (`year`, `quarter`) is the same in both schedules, and so is the shape. */
  ghost predicate SameElsewhere(a: Schedule, b: Schedule, year: int, quarter: int) {
    && |a| == |b|
    && (forall y :: 0 <= y < |a| ==> |a[y]| == |b[y]|)
    && (forall y, q :: InSchedule(a, y, q) && (y != year || q != quarter) ==> a[y][q] == b[y][q])
  }

  function SetQuarter(courses: Schedule, year: int, quarter: int, q: Quarter): (r: Schedule)
    requires InSchedule(courses, year, quarter)
    ensures InSchedule(r, year, quarter) && r[year][quarter] == q
    ensures SameElsewhere(courses, r, year, quarter)
  {
    courses[year := courses[year][quarter := q]]
  }

  /**
   * Adding a course: the target quarter receives the course and is re-sorted,
   * so it holds its old courses plus this one, in order; every other quarter
   * and the shape stay as they were; its credits grow by the course's units.
   */
  function AddToQuarter(courses: Schedule, course: Course, year: int, quarter: int): (r: Schedule)
    requires InSchedule(courses, year, quarter)
    ensures InSchedule(r, year, quarter)
    ensures multiset(r[year][quarter]) == multiset(courses[year][quarter]) + multiset{course}
    ensures Ordered(r[year][quarter])
    ensures QuarterCredits(r[year][quarter]) == QuarterCredits(courses[year][quarter]) + course.units
    ensures SameElsewhere(courses, r, year, quarter)
    ensures ScheduleBag(r) == ScheduleBag(courses) + multiset{course}
  {
    var q := courses[year][quarter];
    var sorted := SortQuarter(q + [course]);
    AddedCourseCredits(q, course);
    ScheduleBagUpdate(courses, year, quarter, sorted);
    var r := SetQuarter(courses, year, quarter, sorted);
    assert r == courses[year := courses[year][quarter := sorted]];
    assert ScheduleBag(r) + multiset(q) == (ScheduleBag(courses) + multiset{course}) + multiset(q);
    MultisetCancel(ScheduleBag(r), ScheduleBag(courses) + multiset{course}, multiset(q));
    r
  }

  /** Removing a course from one quarter: that quarter loses it (see SpliceOut), nothing else changes. */
  function RemoveFromQuarter(courses: Schedule, course: Course, year: int, quarter: int): (r: Schedule)
    requires InSchedule(courses, year, quarter)
    ensures InSchedule(r, year, quarter)
    ensures r[year][quarter] == SpliceOut(courses[year][quarter], course)
    ensures course in courses[year][quarter] ==>
      multiset(r[year][quarter]) == multiset(courses[year][quarter]) - multiset{course}
    ensures SameElsewhere(courses, r, year, quarter)
    ensures course in courses[year][quarter] ==> ScheduleBag(r) + multiset{course} == ScheduleBag(courses)
    ensures courses[year][quarter] != [] ==> |ScheduleBag(r)| + 1 == |ScheduleBag(courses)|
    ensures courses[year][quarter] == [] ==> r == courses
  {
    var q := courses[year][quarter];
    var q' := SpliceOut(q, course);
    ScheduleBagUpdate(courses, year, quarter, q');
    var r := SetQuarter(courses, year, quarter, q');
    assert r == courses[year := courses[year][quarter := q']];
    assert |ScheduleBag(r) + multiset(q)| == |ScheduleBag(courses) + multiset(q')|;
    assert course in q ==> ScheduleBag(r) + multiset{course} == ScheduleBag(courses) by {
      if course in q {
        assert multiset(q) == multiset(q') + multiset{course};
        assert (ScheduleBag(r) + multiset{course}) + multiset(q') == ScheduleBag(courses) + multiset(q');
        MultisetCancel(ScheduleBag(r) + multiset{course}, ScheduleBag(courses), multiset(q'));
      }
    }
    assert q != [] ==> |multiset(q')| + 1 == |multiset(q)|;
    assert q == [] ==> courses[year][quarter := q'] == courses[year];
    r
  }

  /**
   * A move of `course` from a schedule quarter to a different quarter:
   * removed from the old quarter first, then added to the new one, which is
   * re-sorted. From a bookmark location (negative year) it is only the add.
   */
  function MoveSchedule(courses: Schedule, course: Course, from: Location, to: Location): (r: Schedule)
    requires from != to
    requires InSchedule(courses, to.year, to.quarter)
    requires from.year < 0 || InSchedule(courses, from.year, from.quarter)
    ensures InSchedule(r, to.year, to.quarter) && Ordered(r[to.year][to.quarter])
    ensures course in r[to.year][to.quarter]
    ensures from.year < 0 ==> r == AddToQuarter(courses, course, to.year, to.quarter)
    ensures from.year >= 0 ==> r == AddToQuarter(RemoveFromQuarter(courses, course, from.year, from.quarter),
                                                 course, to.year, to.quarter)
  {
    var start := if from.year >= 0 then RemoveFromQuarter(courses, course, from.year, from.quarter) else courses;
    var r := AddToQuarter(start, course, to.year, to.quarter);
    assert course in multiset(r[to.year][to.quarter]);
    r
  }

  /** A move out of a schedule quarter that holds the course keeps the multiset of scheduled courses. */
  lemma MovePreservesCourses(courses: Schedule, course: Course, from: Location, to: Location)
    requires from != to && from.year >= 0
    requires InSchedule(courses, to.year, to.quarter) && InSchedule(courses, from.year, from.quarter)
    requires course in courses[from.year][from.quarter]
    ensures ScheduleBag(MoveSchedule(courses, course, from, to)) == ScheduleBag(courses)
  {
  }

  /** Any move out of a non-empty schedule quarter keeps the number of scheduled courses. */
  lemma MovePreservesCount(courses: Schedule, course: Course, from: Location, to: Location)
    requires from != to && from.year >= 0
    requires InSchedule(courses, to.year, to.quarter) && InSchedule(courses, from.year, from.quarter)
    requires courses[from.year][from.quarter] != []
    ensures |ScheduleBag(MoveSchedule(courses, course, from, to))| == |ScheduleBag(courses)|
  {
  }

  /** A move from a bookmark location adds exactly the course to the schedule. */
  lemma MoveFromBookmarksAddsCourse(courses: Schedule, course: Course, from: Location, to: Location)
    requires from != to && from.year < 0
    requires InSchedule(courses, to.year, to.quarter)
    ensures ScheduleBag(MoveSchedule(courses, course, from, to)) == ScheduleBag(courses) + multiset{course}
  {
  }
}
