/** The request handlers of the attendance server, acting on its two collections.

    `AttendanceServer` holds the student collection and the attendance collection as
    sequences in store order, and the counter from which document identifiers are drawn.
    Each handler is a method; an outcome datatype stands for the HTTP reply. */
module Server {
  import opened Wrappers
  import opened Distance
  import opened Records
  import opened Recognition

  /** The replies of the registration handler. */
  datatype AddOutcome =
    | StudentAdded(student: Student)   // 201 with the saved document
    | MissingFields                    // 400 "All fields are required"
    | DuplicateRegister                // 400 "Register number already exists"

  /** The replies of the attendance handler. */
  datatype MarkOutcome =
    | AttendanceMarked(entry: Attendance)   // 201 with the saved entry
    | NoEncoding                            // 400 "Face encoding required"
    | NoMatch                               // 404 "No matching student found!"

  class AttendanceServer {
    /** The student collection, in store order. */
    var students: seq<Student>
    /** The attendance collection, in insertion order. */
    var attendance: seq<Attendance>
    /** The next unused document identifier. */
    var nextId: nat

    /** What the two collections keep between requests: register numbers are unique, the
        required text fields are non-empty, identifiers are distinct and below the counter,
        and every attendance entry copies a stored student. */
    ghost predicate Valid()
      reads this
    {
      && UniqueRegisterNumbers(students)
      && WellFormed(students)
      && StudentIdsBelow(students, nextId)
      && AttendanceIdsBelow(attendance, nextId)
      && AttendanceRefersToStudents(attendance, students)
    }

    /** A server with both collections empty. */
    constructor ()
      ensures Valid()
      ensures students == [] && attendance == [] && nextId == 0
    {
      students := [];
      attendance := [];
      nextId := 0;
    }

    /** The student listing: the whole student collection. */
    method ListStudents() returns (all: seq<Student>)
      requires Valid()
      ensures all == students
      ensures UniqueRegisterNumbers(all)
    {
      all := students;
    }

    /** Registers a student. A request missing a field is refused, then one whose register
        number is already stored; otherwise exactly one student is appended, carrying the
        request's fields and a fresh identifier. The attendance collection never changes. */
    method AddStudent(req: StudentRequest) returns (r: AddOutcome)
      requires Valid()
      modifies this
      ensures Valid()
      ensures UniqueRegisterNumbers(students)
      ensures r == MissingFields <==> !HasAllFields(req)
      ensures r == DuplicateRegister <==>
        HasAllFields(req) && IsRegistered(old(students), req.registerNumber.value)
      ensures r.StudentAdded? ==>
        && r.student == Student(old(nextId), req.name.value, req.registerNumber.value,
                                req.image.value, req.faceEncoding.value)
        && students == old(students) + [r.student]
        && nextId == old(nextId) + 1
      ensures !r.StudentAdded? ==> students == old(students) && nextId == old(nextId)
      ensures attendance == old(attendance)
    {
      if !HasAllFields(req) {
        return MissingFields;
      }
      var reg := req.registerNumber.value;
      if IsRegistered(students, reg) {
        return DuplicateRegister;
      }
      var student := Student(nextId, req.name.value, reg, req.image.value, req.faceEncoding.value);
      UniqueAfterAppend(students, student);
      RefersAfterAppend(attendance, students, student);
      students := students + [student];
      nextId := nextId + 1;
      r := StudentAdded(student);
    }

    /** Marks attendance for a query encoding. Without an encoding the request is refused;
        otherwise the students are scanned in store order and the first one within the
        threshold is recognised. With no such student nothing is written; with one, exactly
        one entry copying that student is appended, whether or not it already has entries.
        The student collection never changes. */
    method MarkAttendance(query: Option<seq<real>>, now: int) returns (r: MarkOutcome)
      requires Valid()
      modifies this
      ensures Valid()
      ensures students == old(students)
      ensures r == NoEncoding <==> query.None?
      ensures r == NoMatch <==> query.Some? && FirstMatch(students, query.value).None?
      ensures r.AttendanceMarked? ==>
        && query.Some? && FirstMatch(students, query.value).Some?
        && var s := students[FirstMatch(students, query.value).value];
        && r.entry == Attendance(old(nextId), s.id, s.name, s.registerNumber, now)
        && attendance == old(attendance) + [r.entry]
        && nextId == old(nextId) + 1
      ensures !r.AttendanceMarked? ==> attendance == old(attendance) && nextId == old(nextId)
    {
      if query.None? {
        return NoEncoding;
      }
      var q := query.value;
      var recognized: Option<Student> := None;
      ghost var at := 0;
      for i := 0 to |students|
        invariant forall j :: 0 <= j < i ==> !MatchesAt(students, q, j)
      {
        if IsMatch(q, students[i].faceEncoding) {
          recognized := Some(students[i]);
          at := i;
          break;
        }
      }
      if recognized.None? {
        return NoMatch;
      }
      FirstMatchIsUnique(students, q, at);
      var student := recognized.value;
      var entry := Attendance(nextId, student.id, student.name, student.registerNumber, now);
      assert RefersToStudent(entry, students) by {
        assert students[at] == student;
      }
      attendance := attendance + [entry];
      nextId := nextId + 1;
      r := AttendanceMarked(entry);
    }
  }

  /** A registration session: a first registration succeeds, a second one with the same
      register number is refused and leaves the collection as it was. */
  method RegistrationExample() {
    var server := new AttendanceServer();
    var zeros := [0.0, 0.0, 0.0];
    var request := StudentRequest(Some("Alice"), Some("S1"), Some("alice.png"), Some(zeros));
    assert HasAllFields(request);
    var added := server.AddStudent(request);
    assert added.StudentAdded?;
    var alice := added.student;
    assert IsRegistered(server.students, "S1") by {
      assert server.students[0] == alice;
    }
    var clash := StudentRequest(Some("Alicia"), Some("S1"), Some("alicia.png"), Some(zeros));
    assert HasAllFields(clash);
    var again := server.AddStudent(clash);
    assert again == DuplicateRegister && server.students == [alice];
  }

  /** A recognition session: two markings with the student's own encoding append two
      entries for that student; a query at distance 0.6 appends nothing. */
  method RecognitionExample() {
    var server := new AttendanceServer();
    var zeros := [0.0, 0.0, 0.0];
    var request := StudentRequest(Some("Alice"), Some("S1"), Some("alice.png"), Some(zeros));
    assert HasAllFields(request);
    var added := server.AddStudent(request);
    assert added.StudentAdded?;

    StoredEncodingIsRecognised(server.students, zeros, 0);
    var first := server.MarkAttendance(Some(zeros), 100);
    assert first.AttendanceMarked? && first.entry.registerNumber == "S1";
    var second := server.MarkAttendance(Some(zeros), 101);
    assert second.AttendanceMarked? && second.entry.registerNumber == "S1";
    assert |server.attendance| == 2;

    var far := [0.6, 0.0, 0.0];
    FarQueryIsNotRecognised();
    var missed := server.MarkAttendance(Some(far), 102);
    assert missed == NoMatch && |server.attendance| == 2;
  }

  /** The query of the session that is at distance 0.6 from the stored encoding. */
  lemma FarQueryIsNotRecognised()
    ensures SquaredDistance([0.6, 0.0, 0.0], [0.0, 0.0, 0.0]) == 0.36
    ensures !IsMatch([0.6, 0.0, 0.0], [0.0, 0.0, 0.0])
  {
    var zeros := [0.0, 0.0, 0.0];
    assert [0.6, 0.0, 0.0][..2] == [0.6, 0.0];
    assert [0.6, 0.0][..1] == [0.6];
    assert [0.6][..0] == [];
    assert SquaredDistance([0.6], zeros) == 0.36;
    assert SquaredDistance([0.6, 0.0], zeros) == 0.36;
  }
}
