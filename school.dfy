/** A school: a name and an ordered list of Student objects, looked up by id (School.java). */
module Schools {
  import opened Wrappers
  import opened Text
  import opened Numbers
  import opened Sequences
  import opened Sorting
  import opened Disciplines
  import opened Students

  /** The ids a list of students holds at one moment, in list order. */
  function Ids(ss: seq<Student>): seq<int32>
    reads ss
  {
    seq(|ss|, k requires 0 <= k < |ss| reads ss => ss[k].id)
  }

  /** Every Discipline object reachable from a list of students. */
  function Footprint(ss: seq<Student>): set<Discipline>
    reads ss
  {
    set s, d | s in ss && d in s.disciplines :: d
  }

  /** Each student's average grade, in list order. */
  function Averages(ss: seq<Student>): seq<real>
    reads ss, Footprint(ss)
  {
    seq(|ss|, k requires 0 <= k < |ss| reads ss, Footprint(ss) =>
      assert forall d :: d in ss[k].disciplines ==> d in Footprint(ss);
      ss[k].AverageGrade())
  }

  /** The filter of calculateSchoolAverageGrade: true for the averages strictly above 0.0. */
  function Graded(avgs: seq<real>): seq<bool> {
    seq(|avgs|, k requires 0 <= k < |avgs| => avgs[k] > 0.0)
  }

  /** The mean of the averages above 0.0; 0.0 when there are none, or no students at all. */
  function MeanOfPositive(avgs: seq<real>): real {
    if |avgs| == 0 then 0.0
    else
      var graded := Select(avgs, Graded(avgs));
      if |graded| == 0 then 0.0 else SumReal(graded) / |graded| as real
  }

  /** A student's profile paired with the student, the form in which the list is sorted. */
  function Tagged(ss: seq<Student>): (ps: seq<(Profile, Student)>)
    reads ss, Footprint(ss)
  {
    seq(|ss|, k requires 0 <= k < |ss| reads ss, Footprint(ss) =>
      assert forall d :: d in ss[k].disciplines ==> d in Footprint(ss);
      (ss[k].AsProfile(), ss[k]))
  }

  /** The "not after" relation of a Java comparator. */
  function LeOf(cmp: (Profile, Profile) -> int): (Profile, Profile) -> bool {
    (a, b) => cmp(a, b) <= 0
  }

  /**
   * The Comparator contract: "not after" is a total preorder, and the signs of `cmp(a, b)` and
   * `cmp(b, a)` are opposite. Together these are equivalent to the contract's three rules.
   */
  ghost predicate IsComparator(cmp: (Profile, Profile) -> int) {
    TotalPreorder(LeOf(cmp)) && forall a, b :: cmp(a, b) < 0 <==> cmp(b, a) > 0
  }

  function Sgn(x: int): int {
    if x < 0 then -1 else if x > 0 then 1 else 0
  }

  /** `java.util.Comparator`'s contract in its own three rules. */
  ghost predicate ComparatorContract(cmp: (Profile, Profile) -> int) {
    (forall x, y :: Sgn(cmp(x, y)) == -Sgn(cmp(y, x))) &&
    (forall x, y, z :: cmp(x, y) > 0 && cmp(y, z) > 0 ==> cmp(x, z) > 0) &&
    (forall x, y, z :: cmp(x, y) == 0 ==> Sgn(cmp(x, z)) == Sgn(cmp(y, z)))
  }

  class School {
    var name: string
    var students: seq<Student>

    /** The invariant every validated School keeps: its name is not blank. */
    predicate Valid()
      reads this
    {
      !IsBlank(name)
    }

    /** The state the validating constructor produces once its check has passed. */
    constructor (name: string)
      requires !IsBlank(name)
      ensures this.name == name && students == []
      ensures Valid()
    {
      this.name := name;
      this.students := [];
    }

    /** `new School(name)`: throws for a blank name; a new school has no students. */
    static method Create(name: string) returns (r: Result<School>)
      ensures r.Err? <==> IsBlank(name)
      ensures r.Err? ==> r.error == IllegalArgument
      ensures r.Ok? ==> fresh(r.value) && r.value.name == name && r.value.students == []
      ensures r.Ok? ==> r.value.Valid()
    {
      if IsBlank(name) {
        return Err(IllegalArgument);
      }
      var school := new School(name);
      return Ok(school);
    }

    method SetName(newName: string) returns (o: Outcome)
      modifies this`name
      ensures o.Fail? <==> IsBlank(newName)
      ensures name == if o.Fail? then old(name) else newName
      ensures Valid() <==> o.Pass? || old(Valid())
    {
      if IsBlank(newName) {
        return Fail(IllegalArgument);
      }
      name := newName;
      return Pass;
    }

    /** A read-only view of the list: a sequence value that no caller can change. */
    method GetStudents() returns (r: seq<Student>)
      ensures r == students
    {
      r := students;
    }

    /** The bulk-load entry point: takes a copy of the list and does not re-check id uniqueness. */
    method SetStudents(ss: seq<Student>)
      modifies this`students
      ensures students == ss
    {
      students := ss;
    }

    /** Refuses null and an id already present; otherwise appends, so unique ids stay unique. */
    method AddStudent(s: Student?) returns (added: bool)
      modifies this`students
      ensures added <==> s != null && s.id !in Ids(old(students))
      ensures added ==> students == old(students) + [s]
      ensures !added ==> students == old(students)
      ensures Distinct(Ids(old(students))) ==> Distinct(Ids(students))
    {
      if s == null {
        return false;
      }
      if s.id in Ids(students) {
        return false;
      }
      ghost var before := Ids(students);
      students := students + [s];
      assert Ids(students) == before + [s.id];
      if Distinct(before) {
        DistinctAppend(before, s.id);
      }
      return true;
    }

    /** getStudentById: the first student holding the id, or nothing when no student does. */
    function StudentById(id: int32): (r: Option<Student>)
      reads this, students
      ensures r.None? <==> forall k :: 0 <= k < |students| ==> students[k].id != id
      ensures r.Some? ==> r.value.id == id
      ensures r.Some? ==> exists k :: (0 <= k < |students| && students[k] == r.value &&
                                       forall j :: 0 <= j < k ==> students[j].id != id)
    {
      assert forall k :: 0 <= k < |students| ==> Ids(students)[k] == students[k].id;
      match IndexOf(Ids(students), id)
      case None => None
      case Some(k) =>
        assert forall j :: 0 <= j < k ==> Ids(students)[..k][j] == students[j].id;
        Some(students[k])
    }

    /**
     * null or an absent id: false, nothing changes. Otherwise the stored student with that id
     * is removed and the argument appended, so the updated student moves to the end.
     */
    method UpdateStudent(u: Student?) returns (found: bool)
      modifies this`students
      ensures found <==> u != null && u.id in Ids(old(students))
      ensures !found ==> students == old(students)
      ensures found ==> var i := IndexOf(Ids(old(students)), u.id).value;
        students == old(students)[..i] + old(students)[i + 1..] + [u]
      ensures found && Distinct(Ids(old(students))) ==>
        Distinct(Ids(students)) && StudentById(u.id) == Some(u)
    {
      if u == null {
        return false;
      }
      var existing := StudentById(u.id);
      if existing.None? {
        return false;
      }
      // students.remove(existing) drops the first element equal to it; Student equality is
      // id equality (Student.Equals), so that is the first position holding u.id.
      var i := IndexOf(Ids(students), u.id).value;
      ghost var before := Ids(students);
      students := students[..i] + students[i + 1..] + [u];
      assert Ids(students) == before[..i] + before[i + 1..] + [u.id];
      if Distinct(before) {
        DistinctMoveToEnd(before, i);
        assert Ids(students)[|students| - 1] == u.id;
      }
      return true;
    }

    /** removeIf by id: drops every student holding it, keeps the rest in order, reports a change. */
    method RemoveStudent(id: int32) returns (removed: bool)
      modifies this`students
      ensures students == Select(old(students), AllBut(Ids(old(students)), id))
      ensures id !in Ids(students)
      ensures removed <==> id in Ids(old(students))
      ensures removed <==> |students| < |old(students)|
      ensures Distinct(Ids(old(students))) ==> Distinct(Ids(students))
    {
      var keep := AllBut(Ids(students), id);
      IdsSelect(students, keep);
      SelectMembers(Ids(students), keep, id);
      if Distinct(Ids(students)) {
        SelectPairwise(Ids(students), keep, Differ);
      }
      if id in Ids(students) {
        var k :| 0 <= k < |students| && Ids(students)[k] == id;
        assert !keep[k];
      }
      var kept := Select(students, keep);
      removed := |kept| < |students|;
      students := kept;
    }

    /** calculateSchoolAverageGrade: the mean of the student averages above 0.0. */
    function AverageGrade(): (r: real)
      reads this, students, Footprint(students)
      ensures r >= 0.0
      ensures r == 0.0 <==> forall k :: 0 <= k < |students| ==> students[k].AverageGrade() <= 0.0
    {
      MeanOfPositiveZeroIffNoneGraded(Averages(students));
      assert forall k, d :: 0 <= k < |students| && d in students[k].disciplines ==> d in Footprint(students);
      assert forall k :: 0 <= k < |students| ==> Averages(students)[k] == students[k].AverageGrade();
      MeanOfPositive(Averages(students))
    }

    /**
     * A null comparator changes nothing. Otherwise the list is rearranged; with a comparator that
     * keeps the Comparator contract it is the stable sort of the old list, in comparator order.
     */
    method SortStudents(cmp: Option<(Profile, Profile) -> int>)
      modifies this`students
      ensures cmp.None? ==> students == old(students)
      ensures multiset(students) == multiset(old(students))
      ensures cmp.Some? && IsComparator(cmp.value) ==>
        students == Values(SortByKey(old(Tagged(students)), LeOf(cmp.value)))
      ensures cmp.Some? && IsComparator(cmp.value) ==>
        forall i, j :: 0 <= i < j < |students| ==> cmp.value(students[i].AsProfile(), students[j].AsProfile()) <= 0
    {
      if cmp.None? {
        return;
      }
      SortedStudents(students, cmp.value);
      var sorted := SortByKey(Tagged(students), LeOf(cmp.value));
      students := Values(sorted);
    }
  }

  /** IsComparator is the Comparator contract, in both directions. */
  lemma IsComparatorIffContract(cmp: (Profile, Profile) -> int)
    ensures IsComparator(cmp) <==> ComparatorContract(cmp)
  {
    var le := LeOf(cmp);
    if IsComparator(cmp) {
      forall x, y ensures Sgn(cmp(x, y)) == -Sgn(cmp(y, x)) {
        assert cmp(x, y) < 0 <==> cmp(y, x) > 0;
        assert cmp(y, x) < 0 <==> cmp(x, y) > 0;
      }
      forall x, y, z | cmp(x, y) > 0 && cmp(y, z) > 0 ensures cmp(x, z) > 0 {
        assert le(y, x) || le(x, y);
        assert le(y, x) && !le(y, z);
        assert le(y, x) && le(x, z) ==> le(y, z);
      }
      forall x, y, z | cmp(x, y) == 0 ensures Sgn(cmp(x, z)) == Sgn(cmp(y, z)) {
        assert cmp(y, x) < 0 <==> cmp(x, y) > 0;
        assert cmp(y, x) > 0 <==> cmp(x, y) < 0;
        assert le(x, y) && le(y, x);
        assert le(x, z) <==> le(y, z);
        assert le(z, x) <==> le(z, y);
        assert cmp(x, z) < 0 <==> cmp(z, x) > 0;
        assert cmp(y, z) < 0 <==> cmp(z, y) > 0;
      }
    }
    if ComparatorContract(cmp) {
      forall a, b ensures le(a, b) || le(b, a) {
        assert Sgn(cmp(a, b)) == -Sgn(cmp(b, a));
      }
      forall a, b, c | le(a, b) && le(b, c) ensures le(a, c) {
        assert Sgn(cmp(a, b)) == -Sgn(cmp(b, a));
        assert Sgn(cmp(b, c)) == -Sgn(cmp(c, b));
        assert Sgn(cmp(a, c)) == -Sgn(cmp(c, a));
        if cmp(a, b) == 0 {
          assert Sgn(cmp(a, c)) == Sgn(cmp(b, c));
        } else if cmp(b, c) == 0 {
          assert Sgn(cmp(b, a)) == Sgn(cmp(c, a));
        } else {
          assert cmp(c, b) > 0 && cmp(b, a) > 0;
        }
      }
      forall a, b ensures cmp(a, b) < 0 <==> cmp(b, a) > 0 {
        assert Sgn(cmp(a, b)) == -Sgn(cmp(b, a));
      }
    }
  }

  /**
   * A comparator that calls every pair "less" is not a valid one: `cmp(a, a)` must be 0.
   * For such a comparator SortStudents promises only a rearrangement.
   */
  lemma ConstantLessIsNoComparator()
    ensures !IsComparator((a: Profile, b: Profile) => -1)
  {
    var p := Profile(1, "", "", 0.0);
    var cmp := (a: Profile, b: Profile) => -1;
    assert !(cmp(p, p) < 0 <==> cmp(p, p) > 0);
  }

  /** Some position is kept exactly when the selection is not empty. */
  lemma SelectEmptyIffNoneKept(avgs: seq<real>)
    ensures Select(avgs, Graded(avgs)) == [] <==> forall k :: 0 <= k < |avgs| ==> avgs[k] <= 0.0
    ensures forall k :: 0 <= k < |Select(avgs, Graded(avgs))| ==> Select(avgs, Graded(avgs))[k] > 0.0
  {
    var graded := Select(avgs, Graded(avgs));
    if k :| 0 <= k < |avgs| && avgs[k] > 0.0 {
      SelectMembers(avgs, Graded(avgs), avgs[k]);
    }
    forall k | 0 <= k < |graded| ensures graded[k] > 0.0 {
      SelectMembers(avgs, Graded(avgs), graded[k]);
    }
    if graded != [] {
      SelectMembers(avgs, Graded(avgs), graded[0]);
    }
  }

  /**
   * The school average is never negative, and it is 0.0 exactly when no student's average is
   * above 0.0 (including when there are no students).
   */
  lemma MeanOfPositiveZeroIffNoneGraded(avgs: seq<real>)
    ensures MeanOfPositive(avgs) >= 0.0
    ensures MeanOfPositive(avgs) == 0.0 <==> forall k :: 0 <= k < |avgs| ==> avgs[k] <= 0.0
  {
    var graded := Select(avgs, Graded(avgs));
    SelectEmptyIffNoneKept(avgs);
    if graded != [] {
      SumRealPositive(graded);
      QuotientPositive(SumReal(graded), |graded| as real);
    }
  }

  /** A student whose average is not above 0.0 does not move the school average, wherever it stands. */
  lemma MeanOfPositiveIgnoresUngraded(a: seq<real>, x: real, b: seq<real>)
    requires x <= 0.0
    ensures MeanOfPositive(a + [x] + b) == MeanOfPositive(a + b)
  {
    assert Graded(a + [x] + b) == Graded(a) + [false] + Graded(b);
    assert Graded(a + b) == Graded(a) + Graded(b);
    SelectAppend(a + [x], Graded(a) + [false], b, Graded(b));
    SelectAppend(a, Graded(a), [x], [false]);
    SelectAppend(a, Graded(a), b, Graded(b));
    assert Select([x], [false]) == [];
    assert Select(a + [x] + b, Graded(a + [x] + b)) == Select(a + b, Graded(a + b));
    if a + b == [] {
      assert Select(a + b, Graded(a + b)) == [];
    }
  }

  /** When some average is above 0.0, the school average lies within the bounds of those averages. */
  lemma MeanOfPositiveWithinBounds(avgs: seq<real>, lo: real, hi: real)
    requires exists k :: 0 <= k < |avgs| && avgs[k] > 0.0
    requires forall k :: 0 <= k < |avgs| && avgs[k] > 0.0 ==> lo <= avgs[k] <= hi
    ensures lo <= MeanOfPositive(avgs) <= hi
  {
    var graded := Select(avgs, Graded(avgs));
    SelectEmptyIffNoneKept(avgs);
    forall k | 0 <= k < |graded| ensures lo <= graded[k] <= hi {
      SelectMembers(avgs, Graded(avgs), graded[k]);
    }
    SumRealBounds(graded, lo, hi);
    QuotientBounds(SumReal(graded), |graded| as real, lo, hi);
  }

  /**
   * When every grade in the school is on the 1-12 scale, the school average is 0.0 exactly when
   * no student has a discipline, and otherwise lies on the scale.
   */
  lemma SchoolAverageOnScale(school: School)
    requires forall s :: s in school.students ==>
      forall k :: 0 <= k < |s.disciplines| ==> MIN_GRADE <= s.disciplines[k].grade <= MAX_GRADE
    ensures school.AverageGrade() == 0.0 <==> forall s :: s in school.students ==> s.disciplines == []
    ensures school.AverageGrade() != 0.0 ==> MIN_GRADE as real <= school.AverageGrade() <= MAX_GRADE as real
  {
    var ss := school.students;
    var avgs := Averages(ss);
    forall k | 0 <= k < |ss| ensures (avgs[k] > 0.0 <==> ss[k].disciplines != [])
      && (avgs[k] > 0.0 ==> MIN_GRADE as real <= avgs[k] <= MAX_GRADE as real)
    {
      if ss[k].disciplines != [] {
        AverageOnScale(ss[k]);
      }
    }
    MeanOfPositiveZeroIffNoneGraded(avgs);
    if exists k :: 0 <= k < |avgs| && avgs[k] > 0.0 {
      MeanOfPositiveWithinBounds(avgs, MIN_GRADE as real, MAX_GRADE as real);
    }
  }

  /**
   * Sorting the tagged list and dropping the tags rearranges the students, and with a valid
   * comparator puts them in its order.
   */
  lemma SortedStudents(ss: seq<Student>, cmp: (Profile, Profile) -> int)
    ensures multiset(Values(SortByKey(Tagged(ss), LeOf(cmp)))) == multiset(ss)
    ensures IsComparator(cmp) ==> var vs := Values(SortByKey(Tagged(ss), LeOf(cmp)));
      forall i, j :: 0 <= i < j < |vs| ==> cmp(vs[i].AsProfile(), vs[j].AsProfile()) <= 0
  {
    var tagged := Tagged(ss);
    var sorted := SortByKey(tagged, LeOf(cmp));
    assert Values(tagged) == ss;
    ValuesPermutation(sorted, tagged);
    forall k | 0 <= k < |sorted| ensures sorted[k].0 == sorted[k].1.AsProfile() {
      assert sorted[k] in multiset(tagged);
    }
    if IsComparator(cmp) {
      SortByKeySorted(tagged, LeOf(cmp));
      var vs := Values(sorted);
      forall i, j | 0 <= i < j < |vs| ensures cmp(vs[i].AsProfile(), vs[j].AsProfile()) <= 0 {
        assert LeOf(cmp)(sorted[i].0, sorted[j].0);
      }
    }
  }

  /** Selecting students and then taking ids is taking ids and then selecting. */
  lemma {:induction false} IdsSelect(ss: seq<Student>, keep: seq<bool>)
    requires |keep| == |ss|
    ensures Ids(Select(ss, keep)) == Select(Ids(ss), keep)
    decreases |ss|
  {
    if ss != [] {
      IdsSelect(ss[1..], keep[1..]);
      assert Ids(ss)[1..] == Ids(ss[1..]);
      var head: seq<Student> := if keep[0] then [ss[0]] else [];
      assert Ids(head + Select(ss[1..], keep[1..])) == Ids(head) + Ids(Select(ss[1..], keep[1..]));
    }
  }

  lemma DistinctAppend(xs: seq<int32>, x: int32)
    requires Distinct(xs) && x !in xs
    ensures Distinct(xs + [x])
  {
    var ys := xs + [x];
    forall i, j | 0 <= i < j < |ys| ensures Differ(ys[i], ys[j]) {
      if j < |xs| {
        assert ys[i] == xs[i] && ys[j] == xs[j];
      } else {
        assert ys[i] == xs[i];
      }
    }
  }

  /** Moving one value of a duplicate-free list to its end keeps it duplicate-free and the value's only place is the end. */
  lemma DistinctMoveToEnd(xs: seq<int32>, i: nat)
    requires i < |xs| && Distinct(xs)
    ensures Distinct(xs[..i] + xs[i + 1..] + [xs[i]])
    ensures xs[i] !in xs[..i] + xs[i + 1..]
  {
    var rest := xs[..i] + xs[i + 1..];
    forall k | 0 <= k < |rest| ensures rest[k] != xs[i] && (k < i ==> rest[k] == xs[k]) && (k >= i ==> rest[k] == xs[k + 1]) {
      if k < i {
        assert rest[k] == xs[k] && Differ(xs[k], xs[i]);
      } else {
        assert rest[k] == xs[k + 1] && Differ(xs[i], xs[k + 1]);
      }
    }
    forall a, b | 0 <= a < b < |rest| ensures Differ(rest[a], rest[b]) {
      var a', b' := if a < i then a else a + 1, if b < i then b else b + 1;
      assert rest[a] == xs[a'] && rest[b] == xs[b'];
    }
    DistinctAppend(rest, xs[i]);
  }
}
