# School roster model

A Dafny model of the in-memory roster of a small school-records program. A `School` has a
name and an ordered list of `Student`s. A `Student` has a positive id, a first and a last name
and an ordered list of `Discipline`s. A `Discipline` is a subject name with an integer grade on
a nominal 1-12 scale.

The three Java classes change their fields in place, so each one is a Dafny `class`:

- `Disciplines.Discipline` has the fields `name` and `grade`.
- `Students.Student` has the fields `id`, `firstName`, `lastName` and `disciplines: seq<Discipline>`.
  The list holds Discipline objects, so an update changes the stored object's grade in place,
  as `setGrade` does in the source.
- `Schools.School` has the fields `name` and `students: seq<Student>`.

The rules are stated over value snapshots of that state, which are pure functions:

- `Entry(name, grade)` is one discipline's value.
- `Snapshot` and `Student.Entries` give a student's list of entries.
- `Ids` gives a school's ids in list order.
- `Profile` is what a comparator sees of a student.

Java constructors that throw `IllegalArgumentException` become static `Create` methods. They
return `Result` (`Ok` or `Err(IllegalArgument)`). A validating constructor with a `requires`
stands beside each one. Setters that throw return an `Outcome` (`Pass` or `Fail`). Each class has a `Valid()` predicate
for the validated state (non-blank names, and a positive id for a student), which the
constructors, `Create` and the setters establish or keep. No method requires it, because the
source's no-argument constructors, used for JSON deserialisation, build objects without it.

Module layout:

- `Wrappers`: Option, Result and Outcome.
- `Text`: Java's `trim().isEmpty()` blank test and `equalsIgnoreCase`.
- `Numbers`: `int32`, 32-bit wrap-around, and sums.
- `Sequences`: `removeIf` as `Select`, `findFirst` as `IndexOf`, duplicate-freedom, and permutations.
- `Sorting`: a stable insertion sort by key, the reference for `List.sort`.
- `Disciplines`, `Students` and `Schools`: the three classes.
- `Scenarios`: client methods that replay the repository's unit tests through the contracts.

## Model

| member | source | states |
|---|---|---|
| Text.BlankIffAllTrimmed | src/main/java/org/example/Discipline.java:13 | The `name == null \|\| name.trim().isEmpty()` test holds exactly when every character is at or below U+0020. |
| Text.EqualsIgnoreCaseIffFold | src/main/java/org/example/Student.java:79 | Two names match under `equalsIgnoreCase` exactly when their case-folded forms are equal, in both directions. |
| Text.EqualsIgnoreCaseSymmetric | src/main/java/org/example/Student.java:79 | Case-insensitive matching is symmetric. |
| Text.EqualsIgnoreCaseTransitive | src/main/java/org/example/Student.java:79 | Case-insensitive matching is transitive, so "same name ignoring case" is an equivalence. |
| Numbers.Wrap32 | src/main/java/org/example/Student.java:106-108 | The result is the `int` that Java's wrapping addition yields: congruent to the exact value modulo 2^32, and equal to it when it fits in 32 bits. |
| Sequences.Select | src/main/java/org/example/Student.java:93 | `removeIf` never lengthens the list, and it keeps the length exactly when every element is kept. |
| Sequences.SelectMembers | src/main/java/org/example/School.java:80 | An element survives `removeIf` exactly when some position holding it was kept. |
| Sequences.SelectPairwise | src/main/java/org/example/Student.java:93 | Removing elements keeps any pairwise property, such as unique names or unique ids. |
| Sequences.IndexOf | src/main/java/org/example/School.java:62-64 | `findFirst` finds nothing exactly when the value is absent; otherwise it returns the first position that holds the value. |
| Sorting.SortByKey | src/main/java/org/example/School.java:108 | The sort result is a permutation of its input. |
| Sorting.SortByKeySorted | src/main/java/org/example/School.java:108 | With a total-preorder "not after" relation, the sort result is ordered by it. |
| Disciplines.Discipline.constructor | src/main/java/org/example/Discipline.java:12-21 | With a non-blank name, the object stores exactly the given name and grade, and `Valid()` (a non-blank name) holds. |
| Disciplines.Discipline.Create | src/main/java/org/example/Discipline.java:12-21 | Fails with IllegalArgument exactly when the name is blank. Otherwise it yields a fresh, `Valid()` discipline with that name and that grade, stored as given even outside 1-12. |
| Disciplines.Discipline.SetName | src/main/java/org/example/Discipline.java:33-38 | Fails exactly for a blank name and then keeps the old name. Otherwise it stores the new name. Only `name` may change, so the grade is untouched. Afterwards the discipline is `Valid()` exactly when the call passed or it was `Valid()` before. |
| Disciplines.Discipline.SetGrade | src/main/java/org/example/Discipline.java:40-46 | Never fails. The stored grade is the given one, whatever its range, and only `grade` may change, so `Valid()` is as before. |
| Disciplines.Discipline.Equals | src/main/java/org/example/Discipline.java:49-56 | Two disciplines are equal exactly when the other is non-null and has the same name, compared case-sensitively. The grade plays no part. |
| Disciplines.EqualsIsEquivalence | src/main/java/org/example/Discipline.java:49-56 | Discipline equality is reflexive, symmetric and transitive. |
| Disciplines.EqualsFinerThanMatching | src/main/java/org/example/Discipline.java:55 | Equal disciplines also match ignoring case, but "Math" and "math" match without being equal. |
| Students.FirstMatch | src/main/java/org/example/Student.java:78-80 | The position found matches the name ignoring case and no earlier one does. Nothing is found exactly when no entry matches. |
| Students.Mean | src/main/java/org/example/Student.java:96-110 | The mean is 0.0 for no grades. Otherwise the mean times the count is the exact sum of the grades, so there is never a division by zero. |
| Students.Student.constructor | src/main/java/org/example/Student.java:19-30 | With a positive id and non-blank names, stores them and starts with an empty discipline list; `Valid()` (positive id, non-blank names) holds. |
| Students.Student.Create | src/main/java/org/example/Student.java:19-30 | Fails with IllegalArgument exactly when the id is at most 0 or either name is blank. Otherwise it yields a fresh, `Valid()` student with the given id and names and no disciplines. |
| Students.Student.GetDisciplines | src/main/java/org/example/Student.java:44-46 | Returns the list as a sequence value: its elements are the student's own objects, and nothing done to it reaches the student. |
| Students.Student.SetId | src/main/java/org/example/Student.java:48-53 | Fails exactly for an id at most 0 and then keeps the old id. Otherwise it stores the new id. A `Valid()` student stays `Valid()`. |
| Students.Student.SetFirstName | src/main/java/org/example/Student.java:55-60 | Fails exactly for a blank name and then keeps the old first name. Otherwise it stores the new one. A `Valid()` student stays `Valid()`. |
| Students.Student.SetLastName | src/main/java/org/example/Student.java:62-67 | Fails exactly for a blank name and then keeps the old last name. Otherwise it stores the new one. A `Valid()` student stays `Valid()`. |
| Students.Student.SetDisciplines | src/main/java/org/example/Student.java:69-71 | The list becomes the given one, without any uniqueness check. |
| Students.Student.AddOrUpdateDiscipline | src/main/java/org/example/Student.java:73-87 | Null changes nothing. With no match, the argument object is appended and the entries gain its value at the end. With a match, the list is the same: the first matching object keeps its own name and takes the new grade, and every other object keeps its value. With unique names the entries become `Upsert` of the old ones and stay unique. |
| Students.Student.RemoveDiscipline | src/main/java/org/example/Student.java:89-94 | A blank name returns false and changes nothing. Otherwise exactly the objects whose name matches are dropped and the rest keep their order. The result is true exactly when some entry matched, which is exactly when the list shrank. |
| Students.Student.AverageGrade | src/main/java/org/example/Student.java:96-110 | A student without disciplines averages 0.0. Otherwise the average times the number of disciplines is the exact sum of their grades, whatever their range, so there is never a division by zero. |
| Students.SnapshotSelect | src/main/java/org/example/Student.java:93 | Removing objects and then reading their values equals reading the values and then removing. |
| Students.UpsertPreservesUnique | src/main/java/org/example/Student.java:78-86 | Add-or-update keeps the discipline names unique ignoring case. |
| Students.UpsertThenLookup | src/main/java/org/example/Student.java:78-86 | After add-or-update the length is unchanged on a match and one more otherwise. Looking the name up afterwards finds the new grade. |
| Students.UpsertKeepsOthers | src/main/java/org/example/Student.java:78-86 | For a name that does not match the argument's, the lookup finds the same position and the same entry as before. |
| Students.UpsertLatestWins | src/test/java/Tests.java:236-246 | Two add-or-updates under matching names equal one add-or-update with the later grade. |
| Students.FirstMatchSameMatchers | src/main/java/org/example/Student.java:79 | Names that match each other ignoring case find the same discipline. |
| Students.FirstMatchAppend | src/main/java/org/example/Student.java:78-85 | Appending an entry leaves an existing match in place; otherwise the appended entry is the match exactly when its name matches. |
| Students.UniqueNamesDistinctObjects | src/main/java/org/example/Student.java:83 | With unique names no Discipline object occurs twice in the list, so `setGrade` on the match changes only that position. |
| Students.DropMembers | src/main/java/org/example/Student.java:93 | An entry remains after removal exactly when it was present and its name does not match. |
| Students.DropShrinksIffMatch | src/main/java/org/example/Student.java:93 | `removeIf` shrinks the list exactly when some entry matches the name. |
| Students.DropAppend | src/main/java/org/example/Student.java:93 | Removal works piece by piece, so the remaining entries keep their relative order. |
| Students.DropPreservesUnique | src/main/java/org/example/Student.java:93 | Removal keeps the discipline names unique ignoring case. |
| Students.MeanWithinBounds | src/main/java/org/example/Student.java:96-110 | The mean of grades that all lie in [lo, hi] also lies in [lo, hi]. |
| Students.AverageOnScale | src/main/java/org/example/Student.java:96-110 | A student with at least one discipline, all graded 1-12, has an average between 1.0 and 12.0. |
| Students.MeanAsWritten | src/main/java/org/example/Student.java:106-109 | The average as the source computes it: 0.0 for no grades, otherwise the average times the count is the 32-bit wrapped sum of the grades. |
| Students.MeanAsWrittenOverflows | src/main/java/org/example/Student.java:106-109 | For the grades [2147483647, 1] the exact mean is 1073741824.0, but the average with an `int` sum is -1073741824.0. |
| Students.MeanAsWrittenAgreesOnScale | src/main/java/org/example/Student.java:106-109 | With grades on the 1-12 scale and at most 178956970 of them, the wrapping average equals the exact mean. |
| Students.Student.Equals | src/main/java/org/example/Student.java:112-118 | Two students are equal exactly when the other is non-null and has the same id; names and disciplines are ignored. |
| Schools.School.constructor | src/main/java/org/example/School.java:20-26 | With a non-blank name, stores it and starts with no students; `Valid()` (a non-blank name) holds. |
| Schools.School.Create | src/main/java/org/example/School.java:20-26 | Fails with IllegalArgument exactly when the name is blank. Otherwise it yields a fresh, `Valid()` school with that name and no students. |
| Schools.School.SetName | src/main/java/org/example/School.java:38-43 | Fails exactly for a blank name and then keeps the old name. Otherwise it stores the new one. Afterwards the school is `Valid()` exactly when the call passed or it was `Valid()` before. |
| Schools.School.GetStudents | src/main/java/org/example/School.java:33-35 | Returns the list as a sequence value that no caller can change. |
| Schools.School.SetStudents | src/main/java/org/example/School.java:45-47 | The list becomes the given one, without re-checking id uniqueness. |
| Schools.School.AddStudent | src/main/java/org/example/School.java:49-59 | Adds exactly when the argument is non-null and its id is absent. Adding appends it at the end; a refusal leaves the list unchanged. Unique ids stay unique. |
| Schools.School.StudentById | src/main/java/org/example/School.java:61-65 | Finds nothing exactly when no student has the id. Otherwise it returns a student with that id, the first in the list that has it. |
| Schools.School.UpdateStudent | src/main/java/org/example/School.java:67-77 | Returns true exactly for a non-null argument whose id is present; otherwise nothing changes. On success the first student with that id is removed and the argument appended at the end. With unique ids, ids stay unique and the lookup by that id returns the argument. |
| Schools.School.RemoveStudent | src/main/java/org/example/School.java:79-81 | Every student with the id is removed and the rest keep their order, so afterwards the id is absent. The result is true exactly when the id was present, which is exactly when the list shrank. Unique ids stay unique. |
| Schools.School.AverageGrade | src/main/java/org/example/School.java:84-104 | The school average is never negative, and it is 0.0 exactly when no student's average is above 0.0, including when there are no students. |
| Schools.School.SortStudents | src/main/java/org/example/School.java:106-110 | A null comparator changes nothing. Otherwise the list is always a permutation of the old list. With a comparator that keeps the Comparator contract it is the stable sort of the students by their profiles, and so in comparator order. |
| Schools.IsComparatorIffContract | src/main/java/org/example/School.java:106 | `IsComparator` ("not after" is a total preorder and `cmp(a, b)`, `cmp(b, a)` have opposite signs) holds exactly when `Comparator`'s three rules hold: sign antisymmetry, transitivity, and consistency of equal elements. |
| Schools.ConstantLessIsNoComparator | src/main/java/org/example/School.java:106 | A comparator that returns -1 for every pair breaks the contract, so the sort's order guarantee does not cover it. |
| Schools.SelectEmptyIffNoneKept | src/main/java/org/example/School.java:90-95 | The filtered averages are empty exactly when no average is above 0.0, and every one of them is above 0.0. |
| Schools.MeanOfPositiveZeroIffNoneGraded | src/main/java/org/example/School.java:84-104 | The school average is never negative, and it is 0.0 exactly when no student's average is above 0.0, including when there are no students. |
| Schools.MeanOfPositiveIgnoresUngraded | src/main/java/org/example/School.java:92 | A student whose average is not above 0.0 does not change the school average, wherever it stands in the list. |
| Schools.MeanOfPositiveWithinBounds | src/main/java/org/example/School.java:95-103 | When some average is above 0.0, the school average lies within any bounds on those averages. |
| Schools.SchoolAverageOnScale | src/main/java/org/example/School.java:84-104 | When every grade is on the 1-12 scale, the school average is 0.0 exactly when no student has a discipline; otherwise it lies between 1.0 and 12.0. |
| Schools.SortedStudents | src/main/java/org/example/School.java:108 | Sorting the profiled students and dropping the profiles gives a permutation of the students. With a valid comparator it is in comparator order. |
| Schools.IdsSelect | src/main/java/org/example/School.java:80 | Removing students and then reading their ids equals reading the ids and then removing. |
| Schools.DistinctAppend | src/main/java/org/example/School.java:54-58 | Appending an absent id to a duplicate-free list keeps it duplicate-free. |
| Schools.DistinctMoveToEnd | src/main/java/org/example/School.java:72-73 | Moving one id of a duplicate-free list to its end keeps the list duplicate-free, and the moved id's only place is then the end. |

## Left out

- Warnings printed to `System.err` (an out-of-range grade, a null discipline, a null or duplicate student) are no-ops; only their control flow is modelled.
- `toString`, `hashCode` and `School.equals` are presentation or hashing support and are not modelled. `School.equals` compares the name and the student list, and no rule depends on it.
- The Jackson no-argument constructors are not modelled. They exist only for deserialisation and bypass every check.
- `DataService.java` and `ConsoleMenu.java` are not part of this model: they are file and console I/O around the same School operations.
- The getters `getName`, `getGrade`, `getId`, `getFirstName` and `getLastName` are plain field reads, and the model reads the fields directly.
- Text.IsBlank: a `null` String argument is not modelled separately. Every check in the source treats `null` exactly like a blank string, so both are represented by a blank `string`.
- Text.EqualsIgnoreCase: only ASCII letters are case-folded. Java's `Character.toUpperCase` and `toLowerCase` over all of Unicode are not modelled.
- Students.Mean: averages are exact `real`s, not IEEE `double`s. Rounding in the division and in the school-level `DoubleStream.sum` is not modelled.
- Schools.School.GetStudents: `Collections.unmodifiableList` is a live read-only view that later changes to the school show through. The model returns a sequence value, which captures "read-only" but not "live".
- Schools.School.SortStudents: stability of the sort is built into the reference insertion sort, but no separate lemma states it. A Java comparator may read any part of a Student; here it sees the student's `Profile` (id, names and average). The order is promised only for a comparator that keeps `Comparator`'s contract (`Schools.IsComparatorIffContract`). For one that breaks it, such as one that always returns -1, Java's TimSort may produce a different order or throw `IllegalArgumentException`; the model promises only a permutation and does not model the exception.
- Schools.School.UpdateStudent: the ensures describe the removal at the first position with the id. `List.remove` reaches that position through `Student.equals`, which compares ids; the ensures of `Students.Student.Equals` state that equivalence.
- Students.Student.SetDisciplines and Schools.School.SetStudents do not re-check the uniqueness invariants. The source does not either, so the invariant lemmas assume unique names or ids rather than enforce them.
- The school average keeps only student averages with `avg > 0.0` (School.java:92), so a student whose average is negative, which grades below 0 can produce, is dropped as well as one with no disciplines. The model does the same.
- Students.Student.AverageGrade: uses the exact `Students.Mean`, the corrected program of the Findings row, and so do `Schools.School.AverageGrade` and the `Profile` a comparator sees. The source's `int` sum can wrap; `Students.MeanAsWrittenAgreesOnScale` shows the two agree for grades on the 1-12 scale.
- Students.Student.SetDisciplines and Schools.School.SetStudents take a `seq`, which cannot be null. In the source, `new ArrayList<>(null)` throws `NullPointerException` for a null argument (Student.java:70, School.java:46); that exception is not modelled. Nor are null elements: `new ArrayList<>(list)` copies them, and later calls then throw `NullPointerException` (`addStudent` at School.java:54, `getStudentById` at School.java:63, `addOrUpdateDiscipline` at Student.java:79, `removeDiscipline` at Student.java:93). A `seq<Student>` or `seq<Discipline>` holds no null.
- Discipline equality (Discipline.java:55) is case-sensitive, while a student matches disciplines ignoring case (Student.java:79). The model keeps both as written, and `Disciplines.EqualsFinerThanMatching` states how they relate.

## Findings

| source | as written | input that shows it | evidently intended | confidence | as-written member | corrected member |
|---|---|---|---|---|---|---|
| src/main/java/org/example/Student.java:106-109 | `IntStream.sum()` adds the grades in 32-bit `int`, which wraps before the sum is converted to `double`. Grades are stored unchecked, so a large grade makes the average negative, and the school average then drops the student. | a student with grades 2147483647 and 1: the average is -1073741824.0 instead of 1073741824.0 | the exact mean of the grades (sum without overflow, divided by the count) | not executed; follows from Java's specified `int` overflow | Students.MeanAsWrittenOverflows | Students.MeanWithinBounds |
