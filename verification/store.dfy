/** The database tables the views and the serializer work on. */
module Store {
  import opened Models

  /** The tables: colleges, questions (with their options) and settings are
      only read here; students are inserted by registration and updated by
      answer submission. */
  class Database {
    var colleges: seq<College>
    var questions: seq<Question>
    var settings: seq<RecommendationSetting>
    var students: map<StudentKey, Student>

    /** The `unique` and `unique_together` constraints and the foreign keys,
        together with the absence of duplicate option values and duplicate
        settings that the lookups rely on. */
    ghost predicate Valid()
      reads this
    {
      && CollegesUnique(colleges)
      && QuestionsUnique(questions)
      && AllOptionValuesUnique(questions)
      && SettingsUnique(settings)
      && StudentsKeyed(students)
      && ReferencesValid(colleges, questions, students)
    }

    /** Tables with no students yet. */
    constructor(colleges: seq<College>, questions: seq<Question>, settings: seq<RecommendationSetting>)
      requires CollegesUnique(colleges) && QuestionsUnique(questions) && AllOptionValuesUnique(questions)
      requires SettingsUnique(settings)
      requires forall q :: q in questions ==> CollegeExists(colleges, q.college)
      ensures Valid()
      ensures this.colleges == colleges && this.questions == questions && this.settings == settings
      ensures students == map[]
    {
      this.colleges := colleges;
      this.questions := questions;
      this.settings := settings;
      students := map[];
    }
  }
}
