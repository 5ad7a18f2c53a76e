/** Student registration: `StudentSerializer.validate` as a check against the
    tables, `StudentSerializer.create` as an insert into the student table,
    and the `register_student` endpoint around them. The clock that fills
    `created_at` is a parameter `now`. */
module Serializers {
  import opened Wrappers
  import opened Dicts
  import opened Models
  import opened Store
  import opened Views
  import Text

  /** A registration body. `collegeName` is write-only; `college`,
      `recommendations` and `createdAt` are read-only fields, which a client
      may send but which are dropped before validation. */
  datatype RegistrationRequest = RegistrationRequest(
    studentId: string,
    name: string,
    department: string,
    semester: string,
    collegeName: string,
    responses: Option<Answers>,
    college: Option<Pk>,
    recommendations: Option<seq<Item>>,
    createdAt: Option<int>)

  /** `validated_data`: the writable fields only. */
  datatype ValidatedData = ValidatedData(
    studentId: string,
    name: string,
    department: string,
    semester: string,
    collegeName: string,
    responses: Option<Answers>)

  function Writable(req: RegistrationRequest): ValidatedData {
    ValidatedData(req.studentId, req.name, req.department, req.semester, req.collegeName, req.responses)
  }

  /** The request after `CharField` processing, which by default
      (`trim_whitespace`) removes the surrounding whitespace of each text
      field before `validate` sees it. `Validate` and `Register` work on the
      processed request; `RegisterStudent` applies this processing first. */
  function FieldProcessed(req: RegistrationRequest): RegistrationRequest {
    req.(studentId := Text.Strip(req.studentId), name := Text.Strip(req.name),
         department := Text.Strip(req.department), semester := Text.Strip(req.semester),
         collegeName := Text.Strip(req.collegeName))
  }

  datatype ValidationError =
    | CollegeDoesNotExist(collegeName: string)
    | DuplicateStudent(studentId: string, collegeName: string)

  /** Whether the college named `collegeName` already has a student `studentId`. */
  ghost predicate Registered(colleges: seq<College>, students: map<StudentKey, Student>,
                             studentId: string, collegeName: string) {
    exists c :: c in colleges && c.name == collegeName && (c.pk, studentId) in students
  }

  /** `StudentSerializer.validate`: the college must exist by name, and must
      not already have a student with the same id. */
  function Validate(colleges: seq<College>, students: map<StudentKey, Student>, req: RegistrationRequest)
    : (r: Result<ValidatedData, ValidationError>)
    ensures r == Failure(CollegeDoesNotExist(req.collegeName)) <==>
      forall c :: c in colleges ==> c.name != req.collegeName
    ensures CollegesUnique(colleges) ==>
      (r == Failure(DuplicateStudent(req.studentId, req.collegeName)) <==>
       Registered(colleges, students, req.studentId, req.collegeName))
    ensures CollegesUnique(colleges) ==>
      (r.Success? <==>
       (exists c :: c in colleges && c.name == req.collegeName) &&
       !Registered(colleges, students, req.studentId, req.collegeName))
    ensures r.Success? ==>
      && r.value == Writable(req)
      && exists c :: c in colleges && c.name == req.collegeName && (c.pk, req.studentId) !in students
  {
    match FindCollegeByName(colleges, req.collegeName)
    case None => Failure(CollegeDoesNotExist(req.collegeName))
    case Some(c) =>
      if (c.pk, req.studentId) in students then Failure(DuplicateStudent(req.studentId, req.collegeName))
      else Success(Writable(req))
  }

  /** The row `Student.objects.create(college=college, **validated_data)`
      makes: no recommendations yet, and the creation time. */
  function NewStudent(data: ValidatedData, college: Pk, now: int): Student {
    Student(data.studentId, data.name, data.department, data.semester, college, data.responses, None, now)
  }

  /** The student table after registering `req`: unchanged on a validation
      error, else with the new row under (college, student_id). */
  function Register(colleges: seq<College>, students: map<StudentKey, Student>, req: RegistrationRequest, now: int)
    : (r: map<StudentKey, Student>)
    ensures Validate(colleges, students, req).Failure? ==> r == students
    ensures forall k :: k in students ==> k in r && r[k] == students[k]
  {
    match Validate(colleges, students, req)
    case Failure(_) => students
    case Success(data) =>
      var c := FindCollegeByName(colleges, data.collegeName).value;
      students[(c.pk, data.studentId) := NewStudent(data, c.pk, now)]
  }

  /** The read-only fields of a request have no effect: whatever a client
      sends for `college`, `recommendations` and `created_at`, the validated
      data, the validation outcome and the registration are the same. */
  lemma ReadOnlyFieldsIgnored(colleges: seq<College>, students: map<StudentKey, Student>,
                              req: RegistrationRequest, college: Option<Pk>, recommendations: Option<seq<Item>>,
                              createdAt: Option<int>, now: int)
    ensures var req' := req.(college := college, recommendations := recommendations, createdAt := createdAt);
      && Writable(req') == Writable(req)
      && Validate(colleges, students, req') == Validate(colleges, students, req)
      && Register(colleges, students, req', now) == Register(colleges, students, req, now)
  {
  }

  /** A registration adds exactly one row, under a key that was free, and
      changes no other row; a rejected one changes nothing. */
  lemma RegisterAddsOne(colleges: seq<College>, students: map<StudentKey, Student>, req: RegistrationRequest, now: int)
    ensures Validate(colleges, students, req).Failure? ==> Register(colleges, students, req, now) == students
    ensures Validate(colleges, students, req).Success? ==>
      var r := Register(colleges, students, req, now);
      && |r| == |students| + 1
      && (forall k :: k in students ==> k in r && r[k] == students[k])
      && exists c :: (c in colleges && c.name == req.collegeName && (c.pk, req.studentId) !in students &&
                      r.Keys == students.Keys + {(c.pk, req.studentId)} &&
                      var s := r[(c.pk, req.studentId)];
                      && s.college == c.pk && s.studentId == req.studentId
                      && s.name == req.name && s.department == req.department && s.semester == req.semester
                      && s.responses == req.responses
                      && s.recommendations.None? && s.createdAt == now)
  {
    if Validate(colleges, students, req).Success? {
      var c := FindCollegeByName(colleges, req.collegeName).value;
      var key := (c.pk, req.studentId);
      assert key !in students;
      assert Register(colleges, students, req, now).Keys == students.Keys + {key};
    }
  }

  /** Registration keeps the table keyed by (college, student_id) and its
      foreign keys valid. */
  lemma RegisterKeepsStudentsValid(colleges: seq<College>, questions: seq<Question>,
                                   students: map<StudentKey, Student>, req: RegistrationRequest, now: int)
    requires StudentsKeyed(students) && ReferencesValid(colleges, questions, students)
    ensures StudentsKeyed(Register(colleges, students, req, now))
    ensures ReferencesValid(colleges, questions, Register(colleges, students, req, now))
  {
    if Validate(colleges, students, req).Success? {
      var c := FindCollegeByName(colleges, req.collegeName).value;
      WriteKeepsStudentsValid(colleges, questions, students, NewStudent(Writable(req), c.pk, now));
    }
  }

  /** After a registration the same request is refused as a duplicate, and
      the new student has no recommendations to read back. */
  lemma RegisterThenReadBack(colleges: seq<College>, students: map<StudentKey, Student>,
                             req: RegistrationRequest, now: int)
    requires CollegesUnique(colleges)
    requires Validate(colleges, students, req).Success?
    ensures var sid, cname := req.studentId, req.collegeName;
      && Validate(colleges, Register(colleges, students, req, now), req) == Failure(DuplicateStudent(sid, cname))
      && GetStudentRecommendation(colleges, Register(colleges, students, req, now), sid, cname) == NoRecommendations404
  {
    var sid, cname := req.studentId, req.collegeName;
    var c := FindCollegeByName(colleges, cname).value;
    var r := Register(colleges, students, req, now);
    assert (c.pk, sid) in r;
    assert Registered(colleges, r, sid, cname);
    assert FindStudent(colleges, r, sid, cname) == Some((c, r[(c.pk, sid)]));
  }

  /** Field processing is idempotent: a request whose fields are already
      trimmed is left as it is, so whitespace a client adds around the text
      fields makes no difference to validation or registration. */
  lemma FieldProcessingIdempotent(req: RegistrationRequest)
    ensures FieldProcessed(FieldProcessed(req)) == FieldProcessed(req)
  {
    Text.StripIdempotent(req.studentId);
    Text.StripIdempotent(req.name);
    Text.StripIdempotent(req.department);
    Text.StripIdempotent(req.semester);
    Text.StripIdempotent(req.collegeName);
  }

  /** The stored id is the trimmed one, but the other endpoints look students
      up by the id exactly as sent: registering an id with surrounding
      whitespace leaves the lookup of that untrimmed id as it was. */
  lemma UntrimmedIdNotRegistered(colleges: seq<College>, students: map<StudentKey, Student>,
                                 req: RegistrationRequest, now: int, collegeName: string)
    requires Text.Strip(req.studentId) != req.studentId
    ensures var r := Register(colleges, students, FieldProcessed(req), now);
      FindStudent(colleges, r, req.studentId, collegeName) == FindStudent(colleges, students, req.studentId, collegeName)
  {
    var p := FieldProcessed(req);
    if Validate(colleges, students, p).Success? {
      var c := FindCollegeByName(colleges, p.collegeName).value;
      var r := Register(colleges, students, p, now);
      assert r == students[(c.pk, p.studentId) := NewStudent(Writable(p), c.pk, now)];
      match FindCollegeByName(colleges, collegeName)
      case None =>
      case Some(c') =>
        assert (c'.pk, req.studentId) != (c.pk, p.studentId);
    }
  }

  /** A new registration does not show in any college's listing, which holds
      only students with recommendations. */
  lemma RegisterKeepsListings(colleges: seq<College>, students: map<StudentKey, Student>,
                              req: RegistrationRequest, now: int, collegeName: string)
    ensures GetCollegeRecommendations(colleges, Register(colleges, students, req, now), collegeName) ==
            GetCollegeRecommendations(colleges, students, collegeName)
  {
    var r := Register(colleges, students, req, now);
    if Validate(colleges, students, req).Success? {
      var key := (FindCollegeByName(colleges, req.collegeName).value.pk, req.studentId);
      assert r[key].recommendations.None?;
      assert forall k :: k in r && r[k].recommendations.Some? ==> k in students && r[k] == students[k];
      assert forall k :: k in students && students[k].recommendations.Some? ==> k in r && r[k] == students[k];
    }
  }

  /** `StudentSerializer.create`: pops `college_name`, resolves the college
      by name and inserts the new row. */
  method Create(db: Database, data: ValidatedData, now: int) returns (student: Student)
    requires db.Valid()
    requires FindCollegeByName(db.colleges, data.collegeName).Some?
    requires (FindCollegeByName(db.colleges, data.collegeName).value.pk, data.studentId) !in db.students
    modifies db`students
    ensures db.Valid()
    ensures var c := FindCollegeByName(db.colleges, data.collegeName).value;
      student == NewStudent(data, c.pk, now) && db.students == old(db.students)[(c.pk, data.studentId) := student]
  {
    var c := FindCollegeByName(db.colleges, data.collegeName).value;
    student := NewStudent(data, c.pk, now);
    WriteKeepsStudentsValid(db.colleges, db.questions, db.students, student);
    db.students := db.students[(c.pk, data.studentId) := student];
  }

  datatype RegisterResponse = Created201(studentId: string) | BadRequest400(error: ValidationError)

  /** `register_student`: the serializer processes the fields, then 201 with
      the stored (trimmed) student id after `create`, or 400 with the
      validation error and no change. */
  method RegisterStudent(db: Database, req: RegistrationRequest, now: int) returns (resp: RegisterResponse)
    requires db.Valid()
    modifies db`students
    ensures db.Valid()
    ensures db.students == Register(db.colleges, old(db.students), FieldProcessed(req), now)
    ensures var v := Validate(db.colleges, old(db.students), FieldProcessed(req));
      resp == if v.Success? then Created201(Text.Strip(req.studentId)) else BadRequest400(v.error)
  {
    var v := Validate(db.colleges, db.students, FieldProcessed(req));
    if v.Failure? {
      return BadRequest400(v.error);
    }
    var student := Create(db, v.value, now);
    resp := Created201(student.studentId);
  }
}
