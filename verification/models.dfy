/** The database records of the app (College, RecommendationSetting, Question,
    Option, Student), the course and recommendation shapes exchanged with the
    outside services, the table constraints, and the filtered lookups. */
module Models {
  import opened Wrappers
  import opened Dicts

  /** Django's automatic primary key; foreign keys hold it. */
  type Pk = nat

  datatype College = College(pk: Pk, collegeId: string, name: string, baseUrl: string)

  /** How many recommendations to request for one subject group of a college. */
  datatype RecommendationSetting =
    RecommendationSetting(college: Pk, subjectGroupName: string, numRecommendations: nat)

  /** `num_recommendations` when none is given. */
  const DefaultNumRecommendations: nat := 3

  /** One `Option` row; the options of a question are its `option_set`. */
  datatype AnswerOption = AnswerOption(text: string, value: string)

  datatype Question = Question(questionId: string, college: Pk, text: string, options: seq<AnswerOption>)

  /** A student's answers: question_id -> selected option value. */
  type Answers = Dict<string, string>

  /** One element of a "recommendations" list: a JSON object (with string
      values) or any other JSON value. */
  datatype Item = Obj(fields: Dict<string, string>) | NonObject

  datatype Student = Student(
    studentId: string,
    name: string,
    department: string,
    semester: string,
    college: Pk,
    responses: Option<Answers>,
    recommendations: Option<seq<Item>>,
    createdAt: int)

  /** A course record of the external catalog: the two fields the pipeline
      reads (None when the key is absent) and the rest passed through. */
  datatype Course = Course(subjectGroupName: Option<string>, semesterName: Option<string>, details: Dict<string, string>)

  /** The students table is keyed by its `unique_together` pair. */
  type StudentKey = (Pk, string)

  // ---- table constraints ----

  /** `college_id` and `name` are each unique, and so is the primary key. */
  ghost predicate CollegesUnique(colleges: seq<College>) {
    forall i, j :: 0 <= i < j < |colleges| ==>
      colleges[i].pk != colleges[j].pk &&
      colleges[i].collegeId != colleges[j].collegeId &&
      colleges[i].name != colleges[j].name
  }

  /** `unique_together = ('college', 'question_id')`. */
  ghost predicate QuestionsUnique(questions: seq<Question>) {
    forall i, j :: 0 <= i < j < |questions| ==>
      questions[i].college != questions[j].college || questions[i].questionId != questions[j].questionId
  }

  /** `unique_together = ('college', 'student_id')`: each student sits under its own pair. */
  ghost predicate StudentsKeyed(students: map<StudentKey, Student>) {
    forall k :: k in students ==> students[k].college == k.0 && students[k].studentId == k.1
  }

  ghost predicate CollegeExists(colleges: seq<College>, pk: Pk) {
    exists c :: c in colleges && c.pk == pk
  }

  /** Foreign keys point at existing colleges. */
  ghost predicate ReferencesValid(colleges: seq<College>, questions: seq<Question>, students: map<StudentKey, Student>) {
    && (forall q :: q in questions ==> CollegeExists(colleges, q.college))
    && (forall k :: k in students ==> CollegeExists(colleges, k.0))
  }

  /** No two options of a question of `college` share a value (else
      `option_set.get` raises MultipleObjectsReturned). */
  ghost predicate OptionValuesUnique(questions: seq<Question>, college: Pk) {
    forall q, i, j :: q in questions && q.college == college && 0 <= i < j < |q.options| ==>
      q.options[i].value != q.options[j].value
  }

  /** No two options of any question share a value. */
  ghost predicate AllOptionValuesUnique(questions: seq<Question>) {
    forall q, i, j :: q in questions && 0 <= i < j < |q.options| ==> q.options[i].value != q.options[j].value
  }

  /** At most one setting per (college, subject group) (else the settings
      lookup raises MultipleObjectsReturned). */
  ghost predicate SettingsUnique(settings: seq<RecommendationSetting>) {
    forall i, j :: 0 <= i < j < |settings| ==>
      settings[i].college != settings[j].college || settings[i].subjectGroupName != settings[j].subjectGroupName
  }

  /** Two rows may share a `question_id` or a `student_id` when they belong to
      different colleges, never when they belong to the same one. */
  lemma IdsUniqueOnlyPerCollege(q: Question, q': Question, s: Student, other: Pk)
    requires other != q.college && other != s.college
    ensures QuestionsUnique([q, q'.(college := other, questionId := q.questionId)])
    ensures !QuestionsUnique([q, q'.(college := q.college, questionId := q.questionId)])
    ensures StudentsKeyed(map[(s.college, s.studentId) := s, (other, s.studentId) := s.(college := other)])
  {
    var clash := [q, q'.(college := q.college, questionId := q.questionId)];
    assert clash[0].college == clash[1].college && clash[0].questionId == clash[1].questionId;
  }

  /** Writing a student row under its own (college, student_id) key keeps
      the table keyed and its foreign key valid when that college exists. */
  lemma WriteKeepsStudentsValid(colleges: seq<College>, questions: seq<Question>,
                                students: map<StudentKey, Student>, s: Student)
    requires StudentsKeyed(students) && ReferencesValid(colleges, questions, students)
    requires CollegeExists(colleges, s.college)
    ensures StudentsKeyed(students[(s.college, s.studentId) := s])
    ensures ReferencesValid(colleges, questions, students[(s.college, s.studentId) := s])
  {
  }

  // ---- filtered lookups: `Model.objects.get(...)` ----

  /** `College.objects.get(name=name)`. */
  function FindCollegeByName(colleges: seq<College>, name: string): (r: Option<College>)
    ensures r.Some? ==> r.value in colleges && r.value.name == name
    ensures r.None? ==> forall c :: c in colleges ==> c.name != name
    ensures CollegesUnique(colleges) ==> forall c :: c in colleges && c.name == name ==> r == Some(c)
  {
    if colleges == [] then None
    else if colleges[0].name == name then Some(colleges[0])
    else
      var r := FindCollegeByName(colleges[1..], name);
      assert CollegesUnique(colleges) ==> CollegesUnique(colleges[1..]);
      r
  }

  /** `Question.objects.get(question_id=qid, college=college)`. */
  function FindQuestion(questions: seq<Question>, college: Pk, qid: string): (r: Option<Question>)
    ensures r.Some? ==> r.value in questions && r.value.college == college && r.value.questionId == qid
    ensures r.None? ==> forall q :: q in questions ==> q.college != college || q.questionId != qid
    ensures QuestionsUnique(questions) ==>
      forall q :: q in questions && q.college == college && q.questionId == qid ==> r == Some(q)
  {
    if questions == [] then None
    else if questions[0].college == college && questions[0].questionId == qid then Some(questions[0])
    else
      var r := FindQuestion(questions[1..], college, qid);
      assert QuestionsUnique(questions) ==> QuestionsUnique(questions[1..]);
      r
  }

  /** `question.option_set.get(value=value)`. */
  function FindOption(options: seq<AnswerOption>, value: string): (r: Option<AnswerOption>)
    ensures r.Some? ==> r.value in options && r.value.value == value
    ensures r.None? ==> forall o :: o in options ==> o.value != value
    ensures (forall i, j :: 0 <= i < j < |options| ==> options[i].value != options[j].value) ==>
      forall o :: o in options && o.value == value ==> r == Some(o)
  {
    if options == [] then None
    else if options[0].value == value then Some(options[0])
    else FindOption(options[1..], value)
  }

  /** `RecommendationSetting.objects.get(college=college, subject_group_name=group).num_recommendations`. */
  function FindSetting(settings: seq<RecommendationSetting>, college: Pk, group: string): (r: Option<nat>)
    ensures r.Some? ==> exists s :: (s in settings && s.college == college &&
                                     s.subjectGroupName == group && s.numRecommendations == r.value)
    ensures r.None? ==> forall s :: s in settings ==> s.college != college || s.subjectGroupName != group
  {
    if settings == [] then None
    else if settings[0].college == college && settings[0].subjectGroupName == group then
      Some(settings[0].numRecommendations)
    else FindSetting(settings[1..], college, group)
  }

  /** `Student.objects.get(student_id=sid, college__name=collegeName)`: the
      student and its college, looked up by the pair only. */
  function FindStudent(colleges: seq<College>, students: map<StudentKey, Student>, sid: string, collegeName: string)
    : (r: Option<(College, Student)>)
    ensures r.Some? ==> (r.value.0 in colleges && r.value.0.name == collegeName &&
                         (r.value.0.pk, sid) in students && r.value.1 == students[(r.value.0.pk, sid)])
    ensures CollegesUnique(colleges) && r.None? ==>
      forall c :: c in colleges && c.name == collegeName ==> (c.pk, sid) !in students
  {
    match FindCollegeByName(colleges, collegeName)
    case None => None
    case Some(c) => if (c.pk, sid) in students then Some((c, students[(c.pk, sid)])) else None
  }
}
