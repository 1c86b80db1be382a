/** The two collections of the attendance server and the request body of a registration.

    A `Student` is one document of the student collection, an `Attendance` one document of
    the attendance collection. Document identifiers are natural numbers handed out by a
    counter of the server (see `Server`), and an entry time is whatever instant the caller
    passes in. */
module Records {
  import opened Wrappers

  /** A registered student: its identifier, the three text fields and the face encoding. */
  datatype Student = Student(
    id: nat,
    name: string,
    registerNumber: string,
    image: string,
    faceEncoding: seq<real>)

  /** One attendance entry: its identifier, a copy of the recognised student's identifier,
      name and register number, and the entry time. */
  datatype Attendance = Attendance(
    id: nat,
    studentId: nat,
    name: string,
    registerNumber: string,
    entryTime: int)

  /** The body of a registration request. A field the client left out is `None`. */
  datatype StudentRequest = StudentRequest(
    name: Option<string>,
    registerNumber: Option<string>,
    image: Option<string>,
    faceEncoding: Option<seq<real>>)

  /** A text field counts as given when it is present and not the empty string. */
  predicate Given(field: Option<string>) {
    field.Some? && field.value != ""
  }

  /** The handler's field check: the three text fields are given and an encoding is present.
      Any encoding passes, the empty one included. */
  predicate HasAllFields(req: StudentRequest) {
    Given(req.name) && Given(req.registerNumber) && Given(req.image) && req.faceEncoding.Some?
  }

  /** Whether some stored student carries the register number `reg`. */
  predicate IsRegistered(students: seq<Student>, reg: string) {
    exists i | 0 <= i < |students| :: students[i].registerNumber == reg
  }

  /** No two stored students share a register number. */
  ghost predicate UniqueRegisterNumbers(students: seq<Student>) {
    forall i, j :: 0 <= i < j < |students| ==> students[i].registerNumber != students[j].registerNumber
  }

  /** The text fields the student schema requires are all non-empty. */
  ghost predicate WellFormed(students: seq<Student>) {
    forall i :: 0 <= i < |students| ==>
      students[i].name != "" && students[i].registerNumber != "" && students[i].image != ""
  }

  /** Student identifiers increase in store order and stay below `bound`, the next free one. */
  ghost predicate StudentIdsBelow(students: seq<Student>, bound: nat) {
    && (forall i :: 0 <= i < |students| ==> students[i].id < bound)
    && (forall i, j :: 0 <= i < j < |students| ==> students[i].id < students[j].id)
  }

  /** Attendance identifiers increase in log order and stay below `bound`, the next free one. */
  ghost predicate AttendanceIdsBelow(log: seq<Attendance>, bound: nat) {
    && (forall i :: 0 <= i < |log| ==> log[i].id < bound)
    && (forall i, j :: 0 <= i < j < |log| ==> log[i].id < log[j].id)
  }

  /** The attendance entry `a` refers to a stored student and copies its identifier, name
      and register number. */
  ghost predicate RefersToStudent(a: Attendance, students: seq<Student>) {
    exists k :: 0 <= k < |students| &&
      a.studentId == students[k].id && a.name == students[k].name &&
      a.registerNumber == students[k].registerNumber
  }

  /** Every attendance entry refers to some stored student. */
  ghost predicate AttendanceRefersToStudents(log: seq<Attendance>, students: seq<Student>) {
    forall i :: 0 <= i < |log| ==> RefersToStudent(log[i], students)
  }

  /** Appending a student keeps the register numbers unique exactly when its register number
      was not taken. */
  lemma UniqueAfterAppend(students: seq<Student>, s: Student)
    requires UniqueRegisterNumbers(students)
    ensures UniqueRegisterNumbers(students + [s]) <==> !IsRegistered(students, s.registerNumber)
  {
    var all := students + [s];
    if IsRegistered(students, s.registerNumber) {
      var i :| 0 <= i < |students| && students[i].registerNumber == s.registerNumber;
      assert all[i].registerNumber == all[|students|].registerNumber;
    } else {
      forall i, j | 0 <= i < j < |all|
        ensures all[i].registerNumber != all[j].registerNumber
      {
        if j == |students| {
          assert all[i] == students[i];
        } else {
          assert all[i] == students[i] && all[j] == students[j];
        }
      }
    }
  }

  /** Appending a student keeps every attendance entry referring to a stored student. */
  lemma RefersAfterAppend(log: seq<Attendance>, students: seq<Student>, s: Student)
    requires AttendanceRefersToStudents(log, students)
    ensures AttendanceRefersToStudents(log, students + [s])
  {
    forall i | 0 <= i < |log|
      ensures RefersToStudent(log[i], students + [s])
    {
      assert RefersToStudent(log[i], students);
      var k :| 0 <= k < |students| &&
        log[i].studentId == students[k].id && log[i].name == students[k].name &&
        log[i].registerNumber == students[k].registerNumber;
      assert (students + [s])[k] == students[k];
    }
  }
}
