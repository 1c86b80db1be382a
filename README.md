# Face-recognition attendance server: a Dafny model of its handlers

The backend of the attendance system keeps two collections: a **student registry**
(name, register number, image, face encoding) and an **attendance log**. Two request
handlers change them:

- **registration** (`/add-student`) checks that the four fields are present, refuses a
  register number that is already stored, and otherwise saves one student;
- **attendance marking** (`/mark-attendance`) checks that a query face encoding is present,
  scans the students in store order, stops at the first one whose Euclidean distance to the
  query is below 0.5, and, if there is one, saves one attendance entry copying that
  student's identifier, name and register number.

The listing handler (`/students`) returns the registry.

This project models those handlers with the database replaced by two in-memory sequences,
and proves what they promise: failed validations leave both collections unchanged, register
numbers stay unique, a registration appends exactly the requested student, recognition
picks the first qualifying student in store order (every earlier one is not a match: its
distance is 0.5 or more, or its encoding is shorter than the query), no match writes nothing, and a match appends exactly one entry copying the matched
student, on every repetition.

## Layout

- `wrappers.dfy` — module `Wrappers`: the `Option` datatype.
- `distance.dfy` — module `Distance`: `euclideanDistance` as a left fold of squared
  differences over the query's indices, on `real`; the 0.5 threshold; the match test.
- `records.dfy` — module `Records`: the `Student` and `Attendance` documents, the
  registration request, the field check, and the predicates the collections keep.
- `recognition.dfy` — module `Recognition`: `FirstMatch`, the first-match scan as a
  function of the registry and the query, with its lemmas.
- `server.dfy` — module `Server`: class `AttendanceServer` with fields `students`,
  `attendance` and the identifier counter `nextId`; the handlers as methods returning an
  outcome datatype; two example sessions.

## Modelling decisions

- **Square root.** The source compares `Math.sqrt(sum) < 0.5`. The model compares the sum
  with `0.5 * 0.5`; `Distance.SqrtComparison` proves the two decisions agree for the
  non-negative square root of a non-negative sum.
- **Lengths.** The fold runs over the query's indices only. Stored entries past the query's
  length are ignored (`Distance.SquaredDistanceIgnoresTail`). A stored encoding shorter than
  the query makes the source read `undefined`, giving NaN, which is below nothing: the model
  treats that student as not matching (`Distance.IsMatch`).
- **Missing fields.** JavaScript's `!x` treats an absent field and the empty string as
  missing. Text fields are `Option<string>`, and a field counts as given only when it is
  `Some` of a non-empty string. The face encoding is `Option<seq<real>>`; any present
  array passes the check, the empty one included.
- **The empty query.** An empty query encoding passes the attendance handler's check, and
  its distance to every stored encoding is zero. It is therefore recognised as the first
  stored student (`Recognition.EmptyQueryRecognisesFirst`). The model keeps this behaviour.
- **Identifiers and time.** Document identifiers (`_id`) come from the counter `nextId`,
  which both handlers advance on a successful write. The entry time (`Date.now`) is a
  parameter of `MarkAttendance`.
- **What the handlers do not do.** They do not pick the nearest student, do not
  deduplicate repeated markings, and do not check an encoding dimension. The model adds
  none of these. Two markings with the same encoding append two entries
  (`Server.RecognitionExample`).
- **Definitions the contracts build on.** Four predicates are plain definitions; their
  meaning is proved through the members that use them.
  - `Distance.IsMatch` is the strict test `distance < 0.5` of backend/server.js:95, made
    false when the stored encoding is shorter than the query (the NaN case of
    backend/server.js:125). `Distance.IsMatchIffDistanceBelowThreshold` proves it agrees
    with comparing the square root of the sum with 0.5, and that 0.5 itself is no match.
  - `Records.Given` and `Records.HasAllFields` are the field check `!x` of
    backend/server.js:54: a text field must be present and non-empty, and any present
    encoding passes. `Server.AttendanceServer.AddStudent` states that a request fails the
    check exactly when it gets `MissingFields`.
  - `Records.IsRegistered` is the `findOne({ registerNumber })` lookup of
    backend/server.js:60-61, true when some stored student has exactly that register
    number. `Records.UniqueAfterAppend` and `Server.AttendanceServer.AddStudent` prove what
    it guards: a registration is refused exactly when the number is taken, and uniqueness
    is kept.
- **Outcomes.** The HTTP replies become `AddOutcome` (`StudentAdded`, `MissingFields`,
  `DuplicateRegister`) and `MarkOutcome` (`AttendanceMarked`, `NoEncoding`, `NoMatch`).

## Model

| member | source | states |
|---|---|---|
| `Distance.SquaredDistance` | backend/server.js:124-126 | the fold of squared differences over the query's indices is never negative |
| `Distance.IsMatchIffDistanceBelowThreshold` | backend/server.js:95 | for the non-negative square root `r` of the squared distance, the match test holds exactly when `r < 0.5`; a distance of exactly 0.5 is not a match |
| `Distance.SqrtComparison` | backend/server.js:95 | for a distance that is the non-negative square root of the squared sum, `distance < 0.5` holds exactly when the squared sum is below `0.25` |
| `Distance.SquaredDistanceIsZero` | backend/server.js:124-126 | the squared distance is zero if and only if the query equals the stored encoding on the query's indices |
| `Distance.SquaredDistanceIgnoresTail` | backend/server.js:125 | stored entries past the query's length do not change the distance |
| `Distance.SquaredDistanceIsSymmetric` | backend/server.js:124-126 | for encodings of equal length, swapping query and stored encoding leaves the distance unchanged |
| `Distance.ExactEncodingMatches` | backend/server.js:95 | a stored encoding that begins with the query is within the threshold of it |
| `Records.UniqueAfterAppend` | backend/server.js:60-67 | appending a student to a registry with unique register numbers keeps them unique exactly when its register number was not already stored |
| `Records.RefersAfterAppend` | backend/server.js:30 | appending a student keeps every attendance entry referring to a stored student |
| `Recognition.FirstMatchFrom` | backend/server.js:89-99 | the scan from a given index returns the first matching index at or after it, with every index in between not matching, or nothing when no index from there on matches |
| `Recognition.FirstMatch` | backend/server.js:89-99 | the recognised index matches and no earlier student matches (distance 0.5 or more, or an encoding shorter than the query); the result is empty exactly when no student matches |
| `Recognition.FirstMatchIsUnique` | backend/server.js:89-99 | `k` is the recognised index if and only if student `k` matches and no earlier student does |
| `Recognition.EmptyStoreRecognisesNobody` | backend/server.js:101-104 | an empty registry recognises nobody |
| `Recognition.FirstMatchAfterAppend` | backend/server.js:86-99 | registering one more student keeps an existing recognition; the new student is recognised only when nobody earlier is and it matches |
| `Recognition.StoredEncodingIsRecognised` | backend/server.js:89-99 | a query equal to a stored encoding is recognised, as that student or an earlier one |
| `Recognition.EmptyQueryRecognisesFirst` | backend/server.js:84-99 | the empty query encoding is recognised as the first stored student, and as nobody when the registry is empty |
| `Server.AttendanceServer.constructor` | backend/server.js:20-35 | a fresh server has both collections empty and satisfies the collection invariant |
| `Server.AttendanceServer.ListStudents` | backend/server.js:38-46 | the listing returns the whole registry, whose register numbers are unique |
| `Server.AttendanceServer.AddStudent` | backend/server.js:49-75 | a missing field gives `MissingFields`, then a stored register number gives `DuplicateRegister`, both leaving the collections and the counter unchanged; otherwise exactly the requested student is appended with a fresh identifier; the attendance log never changes; register-number uniqueness and the collection invariant are preserved |
| `Server.AttendanceServer.MarkAttendance` | backend/server.js:79-121 | no encoding gives `NoEncoding`; no student within the threshold gives `NoMatch`, empty registry included; both write nothing; otherwise exactly one entry is appended, copying the identifier, name and register number of the first matching student, with the given entry time; the registry never changes; there is no deduplication |
| `Server.FarQueryIsNotRecognised` | backend/server.js:95 | in the example session, the query `[0.6, 0.0, 0.0]` has squared distance `0.36` from the stored `[0.0, 0.0, 0.0]` and is not a match |

## Left out

- Express setup, CORS, JSON parsing and listening (backend/server.js:1-10, 128-130): transport only.
- The MongoDB connection and the Mongoose models and queries: the collections are in-memory sequences, and `Student.find()` is assumed to return the students in insertion order.
- Storage failures and the `catch` branches that answer 500: nothing in the in-memory model can fail.
- The schema validation Mongoose runs when a document is saved: the handler's own checks are modelled, and the stored text fields are kept non-empty as the schema requires.
- Request fields that are not strings or arrays (numbers, objects): only absent fields, strings and arrays of numbers are modelled.
- Logging and HTTP status codes: replaced by the outcome datatypes.
- IEEE-754 arithmetic and `Math.sqrt`: the model computes on `real` and compares the squared distance with `0.25`.
- Concurrency: the race between the duplicate check and the save, and the unique index that would catch it, are out of scope; requests run one at a time.
- `Date.now` and ObjectId generation: replaced by a parameter and a counter.
- The React front end (frontend/src/App.js): camera access, the face-api.js descriptor extraction, HTTP calls and the UI are not part of this model.
