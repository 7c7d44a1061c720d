/**
 * A student: an id, two names and an ordered list of Discipline objects (Student.java),
 * with the pure rules behind its list operations stated over snapshots of that list.
 */
module Students {
  import opened Wrappers
  import opened Text
  import opened Numbers
  import opened Sequences
  import opened Disciplines

  /** The entries a list of Discipline objects holds at one moment. */
  function Snapshot(ds: seq<Discipline>): seq<Entry>
    reads ds
  {
    seq(|ds|, k requires 0 <= k < |ds| reads ds => ds[k].Value())
  }

  function Grades(es: seq<Entry>): seq<int> {
    seq(|es|, k requires 0 <= k < |es| => es[k].grade as int)
  }

  function NamesDiffer(a: Entry, b: Entry): bool {
    !EqualsIgnoreCase(a.name, b.name)
  }

  /** The student invariant the list operations keep: no two names match ignoring case. */
  predicate UniqueNames(es: seq<Entry>) {
    Pairwise(es, NamesDiffer)
  }

  /** The position `findFirst` reaches when filtering by a case-insensitive name match. */
  function FirstMatch(es: seq<Entry>, name: string): (r: Option<nat>)
    ensures r.Some? ==> r.value < |es| && EqualsIgnoreCase(es[r.value].name, name)
    ensures r.Some? ==> forall k :: 0 <= k < r.value ==> !EqualsIgnoreCase(es[k].name, name)
    ensures r.None? ==> forall k :: 0 <= k < |es| ==> !EqualsIgnoreCase(es[k].name, name)
    decreases |es|
  {
    if es == [] then None
    else if EqualsIgnoreCase(es[0].name, name) then Some(0)
    else
      match FirstMatch(es[1..], name)
      case None => None
      case Some(k) => Some(k + 1)
  }

  /** The list after add-or-update: the first match takes the new grade and keeps its own name; no match appends. */
  function Upsert(es: seq<Entry>, e: Entry): seq<Entry> {
    match FirstMatch(es, e.name)
    case Some(i) => es[i := Entry(es[i].name, e.grade)]
    case None => es + [e]
  }

  /** The `removeIf` mask: true for the entries whose name does not match. */
  function Unmatched(es: seq<Entry>, name: string): seq<bool> {
    seq(|es|, k requires 0 <= k < |es| => !EqualsIgnoreCase(es[k].name, name))
  }

  /** The list after removing every entry whose name matches ignoring case. */
  function Drop(es: seq<Entry>, name: string): seq<Entry> {
    Select(es, Unmatched(es, name))
  }

  /** The arithmetic mean of the grades, 0.0 for none (no division by zero). */
  function Mean(xs: seq<int>): (m: real)
    ensures |xs| == 0 ==> m == 0.0
    ensures |xs| > 0 ==> m * |xs| as real == Sum(xs) as real
  {
    if |xs| == 0 then 0.0 else Sum(xs) as real / |xs| as real
  }

  /** What a comparator passed to School's sort can look at: the student's id, names and average. */
  datatype Profile = Profile(id: int32, firstName: string, lastName: string, average: real)

  class Student {
    var id: int32
    var firstName: string
    var lastName: string
    var disciplines: seq<Discipline>

    /** The invariant every validated Student keeps: a positive id and two non-blank names. */
    predicate Valid()
      reads this
    {
      id > 0 && !IsBlank(firstName) && !IsBlank(lastName)
    }

    /** The state the validating constructor produces once its checks have passed. */
    constructor (id: int32, firstName: string, lastName: string)
      requires id > 0 && !IsBlank(firstName) && !IsBlank(lastName)
      ensures this.id == id && this.firstName == firstName && this.lastName == lastName
      ensures disciplines == []
      ensures Valid()
    {
      this.id := id;
      this.firstName := firstName;
      this.lastName := lastName;
      this.disciplines := [];
    }

    /** `new Student(id, firstName, lastName)`: throws for a non-positive id or a blank name. */
    static method Create(id: int32, firstName: string, lastName: string) returns (r: Result<Student>)
      ensures r.Err? <==> id <= 0 || IsBlank(firstName) || IsBlank(lastName)
      ensures r.Err? ==> r.error == IllegalArgument
      ensures r.Ok? ==> fresh(r.value) && r.value.id == id && r.value.firstName == firstName
      ensures r.Ok? ==> r.value.lastName == lastName && r.value.disciplines == []
      ensures r.Ok? ==> r.value.Valid()
    {
      if id <= 0 {
        return Err(IllegalArgument);
      }
      if IsBlank(firstName) || IsBlank(lastName) {
        return Err(IllegalArgument);
      }
      var s := new Student(id, firstName, lastName);
      return Ok(s);
    }

    /** The student's disciplines as values, in list order. */
    function Entries(): seq<Entry>
      reads this, disciplines
    {
      Snapshot(disciplines)
    }

    /**
     * A copy of the list: a sequence value, so nothing done to it reaches this student's list.
     * The Discipline objects in it are the student's own (a shallow copy, as in Java).
     */
    method GetDisciplines() returns (r: seq<Discipline>)
      ensures r == disciplines
    {
      r := disciplines;
    }

    method SetId(newId: int32) returns (o: Outcome)
      modifies this`id
      ensures o.Fail? <==> newId <= 0
      ensures id == if o.Fail? then old(id) else newId
      ensures old(Valid()) ==> Valid()
    {
      if newId <= 0 {
        return Fail(IllegalArgument);
      }
      id := newId;
      return Pass;
    }

    method SetFirstName(newName: string) returns (o: Outcome)
      modifies this`firstName
      ensures o.Fail? <==> IsBlank(newName)
      ensures firstName == if o.Fail? then old(firstName) else newName
      ensures old(Valid()) ==> Valid()
    {
      if IsBlank(newName) {
        return Fail(IllegalArgument);
      }
      firstName := newName;
      return Pass;
    }

    method SetLastName(newName: string) returns (o: Outcome)
      modifies this`lastName
      ensures o.Fail? <==> IsBlank(newName)
      ensures lastName == if o.Fail? then old(lastName) else newName
      ensures old(Valid()) ==> Valid()
    {
      if IsBlank(newName) {
        return Fail(IllegalArgument);
      }
      lastName := newName;
      return Pass;
    }

    /** Replaces the list by a copy of the argument; the uniqueness of names is not re-checked. */
    method SetDisciplines(ds: seq<Discipline>)
      modifies this`disciplines
      ensures disciplines == ds
    {
      disciplines := ds;
    }

    /**
     * A null argument changes nothing. Otherwise the first discipline whose name matches the
     * argument's ignoring case takes the argument's grade in place (that object, and only it, is
     * written), or, when none matches, the argument object itself is appended.
     */
    method AddOrUpdateDiscipline(d: Discipline?)
      modifies this`disciplines, disciplines
      ensures d == null ==> disciplines == old(disciplines) && unchanged(disciplines)
      ensures d != null && FirstMatch(old(Entries()), old(d.name)).None? ==>
        disciplines == old(disciplines) + [d] && Entries() == old(Entries()) + [old(d.Value())]
      ensures d != null && FirstMatch(old(Entries()), old(d.name)).Some? ==>
        var i := FirstMatch(old(Entries()), old(d.name)).value;
        && disciplines == old(disciplines)
        && disciplines[i].Value() == Entry(old(disciplines[i].name), old(d.grade))
        && forall k :: 0 <= k < |disciplines| && disciplines[k] != disciplines[i] ==>
             disciplines[k].Value() == old(disciplines[k].Value())
      ensures d != null && UniqueNames(old(Entries())) ==>
        Entries() == Upsert(old(Entries()), old(d.Value())) && UniqueNames(Entries())
    {
      if d == null {
        return;
      }
      ghost var before := Entries();
      var found := FirstMatch(Entries(), d.name);
      if found.Some? {
        var i := found.value;
        if UniqueNames(before) {
          UniqueNamesDistinctObjects(disciplines);
        }
        disciplines[i].SetGrade(d.grade);
        if UniqueNames(before) {
          assert Entries() == before[i := Entry(before[i].name, old(d.grade))];
          UpsertPreservesUnique(before, old(d.Value()));
        }
      } else {
        disciplines := disciplines + [d];
        if UniqueNames(before) {
          UpsertPreservesUnique(before, d.Value());
        }
      }
    }

    /**
     * A blank name returns false and changes nothing. Otherwise every discipline whose name
     * matches ignoring case is removed, the rest keep their order, and the result says whether
     * the list shrank.
     */
    method RemoveDiscipline(name: string) returns (removed: bool)
      modifies this`disciplines
      ensures IsBlank(name) ==> !removed && disciplines == old(disciplines)
      ensures !IsBlank(name) ==> disciplines == Select(old(disciplines), Unmatched(old(Entries()), name))
      ensures !IsBlank(name) ==> Entries() == Drop(old(Entries()), name)
      ensures removed <==> !IsBlank(name) && FirstMatch(old(Entries()), name).Some?
      ensures removed <==> |disciplines| < |old(disciplines)|
    {
      if IsBlank(name) {
        return false;
      }
      var keep := Unmatched(Entries(), name);
      SnapshotSelect(disciplines, keep);
      DropShrinksIffMatch(Entries(), name);
      var kept := Select(disciplines, keep);
      removed := |kept| < |disciplines|;
      disciplines := kept;
    }

    /** calculateAverageGrade: the mean of all grades, whatever their range; 0.0 with no disciplines. */
    function AverageGrade(): (r: real)
      reads this, disciplines
      ensures disciplines == [] ==> r == 0.0
      ensures disciplines != [] ==> r * |disciplines| as real == Sum(Grades(Entries())) as real
    {
      Mean(Grades(Entries()))
    }

    function AsProfile(): Profile
      reads this, disciplines
    {
      Profile(id, firstName, lastName, AverageGrade())
    }

    /** `equals`: the same object, or another Student with the same id; names and grades are ignored. */
    predicate Equals(other: Student?)
      reads this, other
      ensures Equals(other) <==> other != null && id == other.id
    {
      other != null && (this == other || id == other.id)
    }
  }

  /** Selecting objects and then taking their values is taking values and then selecting. */
  lemma {:induction false} SnapshotSelect(ds: seq<Discipline>, keep: seq<bool>)
    requires |keep| == |ds|
    ensures Snapshot(Select(ds, keep)) == Select(Snapshot(ds), keep)
    decreases |ds|
  {
    if ds != [] {
      SnapshotSelect(ds[1..], keep[1..]);
      assert Snapshot(ds)[1..] == Snapshot(ds[1..]);
      var head: seq<Discipline> := if keep[0] then [ds[0]] else [];
      assert Snapshot(head + Select(ds[1..], keep[1..])) == Snapshot(head) + Snapshot(Select(ds[1..], keep[1..]));
    }
  }

  /** Add-or-update keeps the names unique ignoring case. */
  lemma UpsertPreservesUnique(es: seq<Entry>, e: Entry)
    requires UniqueNames(es)
    ensures UniqueNames(Upsert(es, e))
  {
    var r := Upsert(es, e);
    match FirstMatch(es, e.name)
    case Some(i) =>
      forall a, b | 0 <= a < b < |r| ensures NamesDiffer(r[a], r[b]) {
        assert r[a].name == es[a].name && r[b].name == es[b].name;
      }
    case None =>
      forall a, b | 0 <= a < b < |r| ensures NamesDiffer(r[a], r[b]) {
        if b == |es| {
          assert r[a] == es[a] && r[b] == e;
        } else {
          assert r[a] == es[a] && r[b] == es[b];
        }
      }
  }

  /** After add-or-update, looking the name up finds the new grade; a match keeps the length, no match adds one. */
  lemma UpsertThenLookup(es: seq<Entry>, e: Entry)
    ensures |Upsert(es, e)| == if FirstMatch(es, e.name).Some? then |es| else |es| + 1
    ensures FirstMatch(Upsert(es, e), e.name).Some?
    ensures Upsert(es, e)[FirstMatch(Upsert(es, e), e.name).value].grade == e.grade
  {
    var r := Upsert(es, e);
    match FirstMatch(es, e.name)
    case Some(i) =>
      FirstMatchSameNames(es, r, e.name);
    case None =>
      assert EqualsIgnoreCase(e.name, e.name);
      assert r[|es|] == e;
      FirstMatchAppend(es, e, e.name);
  }

  /** Add-or-update leaves the entry found under any name that does not match the argument's. */
  lemma UpsertKeepsOthers(es: seq<Entry>, e: Entry, other: string)
    requires !EqualsIgnoreCase(other, e.name)
    ensures FirstMatch(Upsert(es, e), other) == FirstMatch(es, other)
    ensures FirstMatch(es, other).Some? ==>
      Upsert(es, e)[FirstMatch(es, other).value] == es[FirstMatch(es, other).value]
  {
    var r := Upsert(es, e);
    EqualsIgnoreCaseIffFold(other, e.name);
    match FirstMatch(es, e.name)
    case Some(i) =>
      EqualsIgnoreCaseIffFold(es[i].name, other);
      EqualsIgnoreCaseIffFold(es[i].name, e.name);
      FirstMatchSameNames(es, r, other);
    case None =>
      EqualsIgnoreCaseSymmetric(other, e.name);
      FirstMatchAppend(es, e, other);
  }

  /**
   * Adding or updating twice under names that match ignoring case leaves one entry with the
   * latest grade, exactly as one add-or-update with that grade would.
   */
  lemma UpsertLatestWins(es: seq<Entry>, a: Entry, b: Entry)
    requires EqualsIgnoreCase(a.name, b.name)
    ensures Upsert(Upsert(es, a), b) == Upsert(es, Entry(a.name, b.grade))
  {
    var once := Upsert(es, a);
    FirstMatchSameMatchers(es, a.name, b.name);
    match FirstMatch(es, a.name)
    case Some(i) =>
      FirstMatchSameNames(es, once, b.name);
    case None =>
      FirstMatchAppend(es, a, b.name);
      EqualsIgnoreCaseSymmetric(a.name, b.name);
  }

  /** The first match depends only on the names. */
  lemma {:induction false} FirstMatchSameNames(es: seq<Entry>, fs: seq<Entry>, name: string)
    requires |es| == |fs| && forall k :: 0 <= k < |es| ==> es[k].name == fs[k].name
    ensures FirstMatch(es, name) == FirstMatch(fs, name)
    decreases |es|
  {
    if es != [] {
      FirstMatchSameNames(es[1..], fs[1..], name);
    }
  }

  /** Names that match each other ignoring case have the same first match. */
  lemma FirstMatchSameMatchers(es: seq<Entry>, a: string, b: string)
    requires EqualsIgnoreCase(a, b)
    ensures FirstMatch(es, a) == FirstMatch(es, b)
  {
    forall k | 0 <= k < |es| ensures EqualsIgnoreCase(es[k].name, a) <==> EqualsIgnoreCase(es[k].name, b) {
      EqualsIgnoreCaseIffFold(es[k].name, a);
      EqualsIgnoreCaseIffFold(es[k].name, b);
      EqualsIgnoreCaseIffFold(a, b);
    }
  }

  /** Appending an entry can only add a match at the end. */
  lemma {:induction false} FirstMatchAppend(es: seq<Entry>, e: Entry, name: string)
    ensures FirstMatch(es + [e], name) ==
      if FirstMatch(es, name).Some? then FirstMatch(es, name)
      else if EqualsIgnoreCase(e.name, name) then Some(|es|)
      else None
    decreases |es|
  {
    if es != [] {
      assert (es + [e])[1..] == es[1..] + [e];
      FirstMatchAppend(es[1..], e, name);
    }
  }

  /** Unique names rule out the same Discipline object appearing twice in a list. */
  lemma UniqueNamesDistinctObjects(ds: seq<Discipline>)
    requires UniqueNames(Snapshot(ds))
    ensures forall i, j :: 0 <= i < j < |ds| ==> ds[i] != ds[j]
  {
    forall i, j | 0 <= i < j < |ds| ensures ds[i] != ds[j] {
      var es := Snapshot(ds);
      assert NamesDiffer(es[i], es[j]);
      assert EqualsIgnoreCase(es[i].name, es[i].name);
    }
  }

  /** Removal keeps exactly the entries whose name does not match. */
  lemma DropMembers(es: seq<Entry>, name: string)
    ensures forall e :: e in Drop(es, name) <==> e in es && !EqualsIgnoreCase(e.name, name)
  {
    forall e ensures e in Drop(es, name) <==> e in es && !EqualsIgnoreCase(e.name, name) {
      SelectMembers(es, Unmatched(es, name), e);
    }
  }

  /** removeIf reports true exactly when some entry matched, which is exactly when the list shrank. */
  lemma DropShrinksIffMatch(es: seq<Entry>, name: string)
    ensures |Drop(es, name)| < |es| <==> FirstMatch(es, name).Some?
  {
    var r := FirstMatch(es, name);
    if r.Some? {
      assert !Unmatched(es, name)[r.value];
    }
  }

  /** Removal works piecewise, so the remaining entries keep their order. */
  lemma DropAppend(a: seq<Entry>, b: seq<Entry>, name: string)
    ensures Drop(a + b, name) == Drop(a, name) + Drop(b, name)
  {
    assert Unmatched(a + b, name) == Unmatched(a, name) + Unmatched(b, name);
    SelectAppend(a, Unmatched(a, name), b, Unmatched(b, name));
  }

  lemma DropPreservesUnique(es: seq<Entry>, name: string)
    requires UniqueNames(es)
    ensures UniqueNames(Drop(es, name))
  {
    SelectPairwise(es, Unmatched(es, name), NamesDiffer);
  }

  /** The mean of grades that all lie in [lo, hi] lies in [lo, hi]. */
  lemma MeanWithinBounds(xs: seq<int>, lo: int, hi: int)
    requires |xs| > 0 && forall k :: 0 <= k < |xs| ==> lo <= xs[k] <= hi
    ensures lo as real <= Mean(xs) <= hi as real
  {
    SumBounds(xs, lo, hi);
    var n := |xs| as real;
    MulToReal(|xs|, lo);
    MulToReal(|xs|, hi);
    QuotientBounds(Sum(xs) as real, n, lo as real, hi as real);
  }

  /** A student whose every grade is on the 1-12 scale has an average on that scale, and so above 0. */
  lemma AverageOnScale(s: Student)
    requires s.disciplines != []
    requires forall k :: 0 <= k < |s.disciplines| ==> MIN_GRADE <= s.disciplines[k].grade <= MAX_GRADE
    ensures MIN_GRADE as real <= s.AverageGrade() <= MAX_GRADE as real
  {
    var xs := Grades(s.Entries());
    MeanWithinBounds(xs, MIN_GRADE, MAX_GRADE);
  }

  /**
   * calculateAverageGrade as written: `IntStream.sum()` adds the grades in 32-bit `int`, so the
   * sum wraps before it is converted to double and divided.
   */
  function MeanAsWritten(xs: seq<int>): (r: real)
    ensures |xs| == 0 ==> r == 0.0
    ensures |xs| > 0 ==> r * |xs| as real == Wrap32(Sum(xs)) as real
  {
    if |xs| == 0 then 0.0 else Wrap32(Sum(xs)) as real / |xs| as real
  }

  /** Two storable grades whose as-written average is negative although both grades are positive. */
  lemma MeanAsWrittenOverflows()
    ensures Mean([INT32_MAX as int, 1]) == 1073741824.0
    ensures MeanAsWritten([INT32_MAX as int, 1]) == -1073741824.0
  {
    var xs := [INT32_MAX as int, 1];
    assert xs[..1] == [INT32_MAX as int];
    assert xs[..1][..0] == [];
    assert Sum(xs[..1]) == INT32_MAX as int;
    assert Sum(xs) == 0x8000_0000;
  }

  /** On the 1-12 scale the sum cannot wrap below 178956971 grades, so the two averages agree. */
  lemma MeanAsWrittenAgreesOnScale(xs: seq<int>)
    requires |xs| <= 178956970
    requires forall k :: 0 <= k < |xs| ==> MIN_GRADE <= xs[k] <= MAX_GRADE
    ensures MeanAsWritten(xs) == Mean(xs)
  {
    SumBounds(xs, MIN_GRADE, MAX_GRADE);
  }
}
