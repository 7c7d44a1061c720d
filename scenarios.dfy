/**
 * Client code mirroring the repository's unit tests (src/test/java/Tests.java): each method
 * drives the model through its public contracts and asserts what the test expects.
 */
module Scenarios {
  import opened Wrappers
  import opened Sequences
  import opened Text
  import opened Disciplines
  import opened Students
  import opened Schools

  lemma NotBlank(s: string)
    requires |s| > 0 && !IsTrimmed(s[0])
    ensures !IsBlank(s)
  {
    BlankIffAllTrimmed(s);
  }

  /** After Tests.java:217-223: a blank first or last name is refused; the id-0 case follows Student.java:20-22. */
  method BlankNamesRefused() {
    NotBlank("Doe");
    NotBlank("Jane");
    BlankIffAllTrimmed("");
    var a := Student.Create(2, "", "Doe");
    assert a.Err?;
    var b := Student.Create(3, "Jane", "");
    assert b.Err?;
    var c := Student.Create(0, "Jane", "Doe");
    assert c.Err?;
  }

  /** Tests.java:236-246: the second "Math" overwrites the first one's grade. */
  method UpdateExistingDiscipline() {
    NotBlank("John");
    NotBlank("Doe");
    NotBlank("Math");
    var sr := Student.Create(1, "John", "Doe");
    var student := sr.value;
    var m1 := Discipline.Create("Math", 8);
    var m2 := Discipline.Create("Math", 11);
    student.AddOrUpdateDiscipline(m1.value);
    assert student.Entries() == [Entry("Math", 8)];
    assert EqualsIgnoreCase("Math", "Math");
    student.AddOrUpdateDiscipline(m2.value);
    assert student.Entries() == [Entry("Math", 11)];
    assert Grades(student.Entries()) == [11];
    assert [11][..0] == [];
    assert student.AverageGrade() == 11.0;
  }

  /** A fresh student 1 "John Doe" holding Math 10 and Physics 9, in that order. */
  method MathAndPhysics() returns (student: Student, physics: Discipline)
    ensures fresh(student) && fresh(physics)
    ensures student.Entries() == [Entry("Math", 10), Entry("Physics", 9)]
    ensures student.disciplines[1] == physics
  {
    NotBlank("John");
    NotBlank("Doe");
    NotBlank("Math");
    NotBlank("Physics");
    var sr := Student.Create(1, "John", "Doe");
    student := sr.value;
    var math := Discipline.Create("Math", 10);
    var pr := Discipline.Create("Physics", 9);
    physics := pr.value;
    student.AddOrUpdateDiscipline(math.value);
    assert !EqualsIgnoreCase("Math", "Physics");
    student.AddOrUpdateDiscipline(physics);
  }

  /** Tests.java:249-259: removing "Math" leaves Physics alone and the average at 9.0. */
  method RemoveExistingDiscipline() {
    var student, physics := MathAndPhysics();
    assert EqualsIgnoreCase("Math", "Math");
    assert Unmatched(student.Entries(), "Math") == [false, true];
    var removed := student.RemoveDiscipline("Math");
    assert removed;
    assert student.disciplines == [physics];
    assert Grades(student.Entries()) == [9];
    assert [9][..0] == [];
    assert student.AverageGrade() == 9.0;
  }

  /** Tests.java:278-291: changing the returned copy leaves the student's list as it was. */
  method GetDisciplinesReturnsCopy() {
    NotBlank("John");
    NotBlank("Doe");
    NotBlank("Math");
    NotBlank("Physics");
    var sr := Student.Create(1, "John", "Doe");
    var student := sr.value;
    var math := Discipline.Create("Math", 10);
    student.AddOrUpdateDiscipline(math.value);
    var copy := student.GetDisciplines();
    var physics := Discipline.Create("Physics", 9);
    copy := copy + [physics.value];
    var again := student.GetDisciplines();
    assert |again| == 1 && again[0].name == "Math";
  }

  /** Tests.java:262-275: students with the same id are equal whatever their names. */
  method EqualsById() {
    NotBlank("Alice");
    NotBlank("Alicia");
    NotBlank("Smith");
    NotBlank("Smithy");
    NotBlank("Bob");
    NotBlank("Jones");
    var s1 := Student.Create(10, "Alice", "Smith");
    var s2 := Student.Create(10, "Alice", "Smith");
    var s3 := Student.Create(11, "Bob", "Jones");
    var s4 := Student.Create(10, "Alicia", "Smithy");
    assert s1.value.Equals(s2.value);
    assert !s1.value.Equals(s3.value);
    assert s1.value.Equals(s4.value);
  }

  /** Tests.java:151-168: a second student with an id already present is refused. */
  method DuplicateIdRefused() {
    NotBlank("Test School");
    NotBlank("Alice");
    NotBlank("Alicia");
    NotBlank("Smith");
    NotBlank("Bob");
    NotBlank("Jones");
    var schoolResult := School.Create("Test School");
    var school := schoolResult.value;
    var alice := Student.Create(1, "Alice", "Smith");
    var bob := Student.Create(2, "Bob", "Jones");
    var added := school.AddStudent(alice.value);
    assert added;
    added := school.AddStudent(bob.value);
    assert added && school.students == [alice.value, bob.value];
    assert Ids(school.students) == [1, 2];
    var alicia := Student.Create(1, "Alicia", "Smith");
    added := school.AddStudent(alicia.value);
    assert !added && school.students == [alice.value, bob.value];
    assert school.StudentById(1) == Some(alice.value);
    assert school.StudentById(99).None?;
  }

  /**
   * After Tests.java:171-192: an update replaces the student with that id, and an absent id is
   * refused; the move to the end follows School.java:72-73.
   */
  method UpdateMovesToEnd() {
    NotBlank("Test School");
    NotBlank("Alice");
    NotBlank("Smith");
    NotBlank("Bob");
    NotBlank("Johnson");
    var schoolResult := School.Create("Test School");
    var school := schoolResult.value;
    var alice := Student.Create(1, "Alice", "Smith");
    var bob := Student.Create(2, "Bob", "Johnson");
    school.SetStudents([alice.value, bob.value]);
    assert Ids(school.students) == [1, 2];
    var found := school.UpdateStudent(alice.value);
    assert found && school.students == [bob.value, alice.value];
    var stranger := Student.Create(99, "Bob", "Johnson");
    found := school.UpdateStudent(stranger.value);
    assert !found && school.students == [bob.value, alice.value];
  }

  /** Students with averages 9.0 and 9.0 and one without grades: the school average is 9.0. */
  method SchoolAverageSkipsUngraded() {
    var avgs := [9.0, 9.0];
    assert Select(avgs, Graded(avgs)) == avgs;
    assert avgs[..1] == [9.0];
    assert MeanOfPositive(avgs) == 9.0;
    MeanOfPositiveIgnoresUngraded(avgs, 0.0, []);
    assert avgs + [0.0] + [] == avgs + [0.0];
    assert avgs + [] == avgs;
    assert MeanOfPositive(avgs + [0.0]) == 9.0;
  }
}
