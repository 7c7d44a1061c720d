/** A discipline: a named grade owned by a student (Discipline.java). */
module Disciplines {
  import opened Wrappers
  import opened Text
  import opened Numbers

  /** The lowest and highest grade of the 12-point scale; grades outside it only draw a warning. */
  const MIN_GRADE: int := 1
  const MAX_GRADE: int := 12

  /** The value a Discipline object holds at one moment. */
  datatype Entry = Entry(name: string, grade: int32)

  class Discipline {
    var name: string
    var grade: int32

    /** The invariant every validated Discipline keeps: its name is not blank. */
    predicate Valid()
      reads this
    {
      !IsBlank(name)
    }

    /** The state the validating constructor produces once its checks have passed. */
    constructor (name: string, grade: int32)
      requires !IsBlank(name)
      ensures this.name == name && this.grade == grade
      ensures Valid()
    {
      this.name := name;
      this.grade := grade;
    }

    /**
     * `new Discipline(name, grade)`: a blank name throws; any grade, inside the 1-12 scale or
     * not, is stored as given (an out-of-scale grade only prints a warning).
     */
    static method Create(name: string, grade: int32) returns (r: Result<Discipline>)
      ensures r.Err? <==> IsBlank(name)
      ensures r.Err? ==> r.error == IllegalArgument
      ensures r.Ok? ==> fresh(r.value) && r.value.name == name && r.value.grade == grade
      ensures r.Ok? ==> r.value.Valid()
    {
      if IsBlank(name) {
        return Err(IllegalArgument);
      }
      var d := new Discipline(name, grade);
      return Ok(d);
    }

    function Value(): Entry
      reads this
    {
      Entry(name, grade)
    }

    /** A blank name throws and keeps the old name; otherwise the name is replaced. The grade never changes. */
    method SetName(newName: string) returns (o: Outcome)
      modifies this`name
      ensures o.Fail? <==> IsBlank(newName)
      ensures o.Fail? ==> o.error == IllegalArgument && name == old(name)
      ensures o.Pass? ==> name == newName
      ensures Valid() <==> o.Pass? || old(Valid())
    {
      if IsBlank(newName) {
        return Fail(IllegalArgument);
      }
      name := newName;
      return Pass;
    }

    /** Never fails: an out-of-scale grade is stored all the same. */
    method SetGrade(newGrade: int32)
      modifies this`grade
      ensures grade == newGrade
      ensures Valid() == old(Valid())
    {
      grade := newGrade;
    }

    /** `equals`: the same object, or another Discipline with exactly the same name (case matters, grade does not). */
    predicate Equals(other: Discipline?)
      reads this, other
      ensures Equals(other) <==> other != null && name == other.name
    {
      other != null && (this == other || name == other.name)
    }
  }

  lemma EqualsIsEquivalence(a: Discipline, b: Discipline, c: Discipline)
    ensures a.Equals(a)
    ensures a.Equals(b) <==> b.Equals(a)
    ensures a.Equals(b) && b.Equals(c) ==> a.Equals(c)
  {
  }

  /**
   * Equality is strictly finer than the case-insensitive matching a Student uses to find a
   * discipline: equal disciplines always match, but "Math" and "math" match without being equal.
   */
  lemma EqualsFinerThanMatching(a: Discipline, b: Discipline)
    ensures a.Equals(b) ==> EqualsIgnoreCase(a.name, b.name)
    ensures EqualsIgnoreCase("Math", "math") && "Math" != "math"
  {
    assert EqualsIgnoreCase("Math", "math") by {
      assert CharsMatchIgnoringCase('M', 'm');
    }
  }
}
