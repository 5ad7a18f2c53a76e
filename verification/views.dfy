/** The answer-submission endpoint and the two read endpoints over the
    student table. The catalog fetch is a parameter `fetch` from URL to
    outcome; the model and the parser are passed on to the pipeline. */
module Views {
  import opened Wrappers
  import opened Dicts
  import opened Models
  import opened Services
  import opened Store

  /** The fields read from the request body, None when absent. */
  datatype SubmitRequest = SubmitRequest(studentId: Option<string>, answers: Option<Answers>, collegeName: Option<string>)

  /** A string field that is present and non-empty (truthy). */
  predicate Given(s: Option<string>) {
    s.Some? && s.value != ""
  }

  /** An answers field that is present and non-empty (truthy). */
  predicate HasAnswers(a: Option<Answers>) {
    a.Some? && a.value != []
  }

  predicate Complete(req: SubmitRequest) {
    Given(req.studentId) && HasAnswers(req.answers) && Given(req.collegeName)
  }

  /** Result of requesting the college's course catalog: a transport or HTTP
      error, or the decoded list of courses. */
  datatype FetchOutcome = FetchFailed | Fetched(courses: seq<Course>)

  const CatalogPath: string := "/website/ReadCourseDetails"

  /** The college's course-catalog endpoint: its base URL followed by the
      fixed path. */
  function CatalogUrl(college: College): (r: string)
    ensures |r| == |college.baseUrl| + |CatalogPath|
    ensures r[..|college.baseUrl|] == college.baseUrl && r[|college.baseUrl|..] == CatalogPath
  {
    college.baseUrl + CatalogPath
  }

  datatype SubmitResponse =
    | Ok200(recommendations: seq<Item>)
    | MissingFields400
    | ForeignQuestions400(invalidIds: set<string>)
    | NotFound404
    | BadGateway502

  /** The `question_id`s of the college's questions. */
  function CollegeQuestionIds(questions: seq<Question>, college: Pk): set<string> {
    set q | q in questions && q.college == college :: q.questionId
  }

  /** The question ids a submission answers. */
  function AnswerIds(answers: Answers): set<string> {
    set k | k in Keys(answers)
  }

  /** Outcome of the checks that precede any change. */
  datatype Checked =
    | Rejected(response: SubmitResponse)
    | Accepted(college: College, student: Student, answers: Answers)

  /** The checks of the submission, in the order they are made: required
      fields, then the student looked up by (student_id, college name), then
      every answered question id must belong to the student's college. */
  function CheckSubmission(colleges: seq<College>, questions: seq<Question>,
                           students: map<StudentKey, Student>, req: SubmitRequest): (r: Checked)
    ensures r == Rejected(MissingFields400) <==> !Complete(req)
    ensures r == Rejected(NotFound404) <==>
      Complete(req) && FindStudent(colleges, students, req.studentId.value, req.collegeName.value).None?
    ensures r.Rejected? && r.response.ForeignQuestions400? ==>
      && Complete(req)
      && FindStudent(colleges, students, req.studentId.value, req.collegeName.value).Some?
      && var c := FindStudent(colleges, students, req.studentId.value, req.collegeName.value).value.0;
         r.response.invalidIds == AnswerIds(req.answers.value) - CollegeQuestionIds(questions, c.pk) &&
         r.response.invalidIds != {}
    ensures r.Rejected? ==> r.response.MissingFields400? || r.response.NotFound404? || r.response.ForeignQuestions400?
    ensures r.Accepted? ==>
      && Complete(req)
      && r.answers == req.answers.value
      && FindStudent(colleges, students, req.studentId.value, req.collegeName.value) == Some((r.college, r.student))
      && AnswerIds(r.answers) <= CollegeQuestionIds(questions, r.college.pk)
  {
    if !Complete(req) then Rejected(MissingFields400)
    else
      match FindStudent(colleges, students, req.studentId.value, req.collegeName.value)
      case None => Rejected(NotFound404)
      case Some((c, s)) =>
        var submitted := AnswerIds(req.answers.value);
        var valid := CollegeQuestionIds(questions, c.pk);
        if submitted <= valid then Accepted(c, s, req.answers.value)
        else
          assert submitted - valid != {} by {
            var id :| id in submitted && id !in valid;
            assert id in submitted - valid;
          }
          Rejected(ForeignQuestions400(submitted - valid))
  }

  datatype StudentRecommendationResponse =
    | StudentNotFound404
    | NoRecommendations404
    | Found200(recommendations: seq<Item>)

  /** `get_student_recommendation`: the stored list of the student found by
      (student_id, college name), or 404 when there is no such student or its
      list is null or empty. */
  function GetStudentRecommendation(colleges: seq<College>, students: map<StudentKey, Student>,
                                    studentId: string, collegeName: string): (r: StudentRecommendationResponse)
    ensures r.StudentNotFound404? <==> FindStudent(colleges, students, studentId, collegeName).None?
    ensures CollegesUnique(colleges) ==>
      forall c :: c in colleges && c.name == collegeName && (c.pk, studentId) in students ==>
        var stored := students[(c.pk, studentId)].recommendations;
        r == if stored.None? || stored.value == [] then NoRecommendations404 else Found200(stored.value)
    ensures r.Found200? ==> r.recommendations != []
  {
    match FindStudent(colleges, students, studentId, collegeName)
    case None => StudentNotFound404
    case Some((_, s)) =>
      if s.recommendations.None? || s.recommendations.value == [] then NoRecommendations404
      else Found200(s.recommendations.value)
  }

  /** Reading back a stored list: the student just written under its own
      college is found, with its list unless that list is empty. */
  lemma StoredRecommendationsReadBack(colleges: seq<College>, students: map<StudentKey, Student>,
                                      c: College, s: Student)
    requires CollegesUnique(colleges) && c in colleges && s.recommendations.Some?
    ensures GetStudentRecommendation(colleges, students[(c.pk, s.studentId) := s], s.studentId, c.name) ==
      if s.recommendations.value == [] then NoRecommendations404 else Found200(s.recommendations.value)
  {
    var students' := students[(c.pk, s.studentId) := s];
    assert FindStudent(colleges, students', s.studentId, c.name) == Some((c, s));
  }

  /** The fields of `CollegeSerializer`. */
  datatype CollegeView = CollegeView(collegeId: string, name: string, baseUrl: string)

  /** The fields of `StudentRecommendationSerializer`. */
  datatype StudentRecommendationView = StudentRecommendationView(
    studentId: string, name: string, department: string, semester: string,
    college: CollegeView, recommendations: seq<Item>)

  function ViewOf(s: Student, c: College): StudentRecommendationView
    requires s.recommendations.Some?
  {
    StudentRecommendationView(s.studentId, s.name, s.department, s.semester,
                              CollegeView(c.collegeId, c.name, c.baseUrl), s.recommendations.value)
  }

  /** The listing, as a set: the query has no ordering. */
  datatype CollegeRecommendationsResponse =
    | CollegeNotFound404
    | Listing(collegeName: string, students: set<StudentRecommendationView>)

  /** `get_college_recommendations`: the students of the named college whose
      recommendations are not null (an empty list is listed). */
  function GetCollegeRecommendations(colleges: seq<College>, students: map<StudentKey, Student>,
                                     collegeName: string): (r: CollegeRecommendationsResponse)
    ensures r.CollegeNotFound404? <==> forall c :: c in colleges ==> c.name != collegeName
    ensures r.Listing? ==> r.collegeName == collegeName && forall v :: v in r.students ==> v.college.name == collegeName
    ensures r.Listing? && CollegesUnique(colleges) ==>
      forall c :: c in colleges && c.name == collegeName ==>
        && (forall k :: k in students && k.0 == c.pk && students[k].recommendations.Some? ==>
              ViewOf(students[k], c) in r.students)
        && (forall v :: v in r.students ==>
              exists k :: k in students && k.0 == c.pk && students[k].recommendations.Some? &&
                          v == ViewOf(students[k], c))
  {
    match FindCollegeByName(colleges, collegeName)
    case None => CollegeNotFound404
    case Some(c) =>
      Listing(collegeName, set k | k in students && k.0 == c.pk && students[k].recommendations.Some? ::
                                 ViewOf(students[k], c))
  }

  /** `student.save()` for a student of an existing college: the row under
      its key is replaced, and its stored list reads back. */
  method SaveStudent(db: Database, c: College, s: Student)
    requires db.Valid() && c in db.colleges && s.college == c.pk && s.recommendations.Some?
    modifies db`students
    ensures db.Valid()
    ensures db.students == old(db.students)[(c.pk, s.studentId) := s]
    ensures GetStudentRecommendation(db.colleges, db.students, s.studentId, c.name) ==
      if s.recommendations.value == [] then NoRecommendations404 else Found200(s.recommendations.value)
  {
    StoredRecommendationsReadBack(db.colleges, db.students, c, s);
    WriteKeepsStudentsValid(db.colleges, db.questions, db.students, s);
    db.students := db.students[(c.pk, s.studentId) := s];
  }

  /** `submit_answers`. Every rejection leaves the student table as it was,
      and so does a failed catalog fetch: the new answers are only saved
      together with the recommendations. On success the student's answers and
      recommendations are overwritten, the response carries the
      recommendations, and reading them back gives the same list unless it is
      empty. */
  method SubmitAnswers(db: Database, req: SubmitRequest, fetch: string -> FetchOutcome,
                       generate: Prompt -> Reply, parse: string -> Parsed)
    returns (resp: SubmitResponse)
    requires db.Valid()
    modifies db`students
    ensures db.Valid()
    ensures var chk := CheckSubmission(db.colleges, db.questions, old(db.students), req);
      chk.Rejected? ==> resp == chk.response && db.students == old(db.students)
    ensures var chk := CheckSubmission(db.colleges, db.questions, old(db.students), req);
      chk.Accepted? && fetch(CatalogUrl(chk.college)).FetchFailed? ==>
        resp == BadGateway502 && db.students == old(db.students)
    ensures var chk := CheckSubmission(db.colleges, db.questions, old(db.students), req);
      chk.Accepted? && fetch(CatalogUrl(chk.college)).Fetched? ==>
        var answered := chk.student.(responses := Some(chk.answers));
        var recs := CourseRecommendations(answered, chk.college, db.questions, db.settings,
                                          fetch(CatalogUrl(chk.college)).courses, generate, parse);
        && resp == Ok200(recs)
        && db.students == old(db.students)[(chk.college.pk, chk.student.studentId) := answered.(recommendations := Some(recs))]
    ensures resp.Ok200? ==>
      GetStudentRecommendation(db.colleges, db.students, req.studentId.value, req.collegeName.value) ==
        if resp.recommendations == [] then NoRecommendations404 else Found200(resp.recommendations)
  {
    if !Given(req.studentId) || !HasAnswers(req.answers) || !Given(req.collegeName) {
      assert CheckSubmission(db.colleges, db.questions, db.students, req) == Rejected(MissingFields400);
      return MissingFields400;
    }
    var studentId, answers, collegeName := req.studentId.value, req.answers.value, req.collegeName.value;
    var found := FindStudent(db.colleges, db.students, studentId, collegeName);
    if found.None? {
      assert CheckSubmission(db.colleges, db.questions, db.students, req) == Rejected(NotFound404);
      return NotFound404;
    }
    var college, student := found.value.0, found.value.1;
    assert student.college == college.pk && student.studentId == studentId;
    var valid := CollegeQuestionIds(db.questions, college.pk);
    var submitted := AnswerIds(answers);
    if !(submitted <= valid) {
      assert CheckSubmission(db.colleges, db.questions, db.students, req) ==
             Rejected(ForeignQuestions400(submitted - valid));
      return ForeignQuestions400(submitted - valid);
    }
    assert CheckSubmission(db.colleges, db.questions, db.students, req) == Accepted(college, student, answers);
    var answered := student.(responses := Some(answers));
    var catalog := fetch(CatalogUrl(college));
    if catalog.FetchFailed? {
      return BadGateway502;
    }
    var recommendations := GenerateCourseRecommendations(answered, college, db.questions, db.settings,
                                                         catalog.courses, generate, parse);
    var updated := answered.(recommendations := Some(recommendations));
    SaveStudent(db, college, updated);
    resp := Ok200(recommendations);
  }
}
