# college_management: recommendation pipeline, submission and registration

A Dafny model of the logic of the `college_management` Django app. In this app,
students register with their college, answer the college's questions, and
receive course recommendations. The recommendations are produced per subject
group of the college's course catalog by a generative model.

The model covers four parts:

- **The pipeline** (`services.dfy`), from `core/services.py`.
  - `map_option_values_to_text` turns the answers (question id → option value)
    into a dict from question text to option text. The lookup is scoped to the
    student's college, and misses get a fixed fallback entry.
  - `generate_course_recommendations` does the following:
    - groups the catalog by `SubjectGroupName`, with "Unknown" when the key is
      absent;
    - filters each group by a case-insensitive semester match;
    - skips groups with no course left or without a `RecommendationSetting`;
    - asks the model once per remaining group and strips Markdown code fences
      from the reply;
    - tags every returned item with its group and concatenates the lists.

  The loops are methods proved against specification functions (`Enriched`,
  `Grouped`, `Tagged`, `Recommendations`). The properties are proved about
  those functions.
- **The views** (`views.dfy`), from `core/views.py`.
  - `submit_answers` runs its checks in order, then fetches the catalog, runs
    the pipeline and saves the student.
  - `get_student_recommendation` and `get_college_recommendations` read the
    student table.
- **Registration** (`serializers.dfy`), from `core/serializers.py`.
  - The `CharField` processing that trims each text field is `FieldProcessed`.
  - `StudentSerializer.validate` is a check against the tables.
  - `StudentSerializer.create` inserts into the student table.
  - `register_student` wraps the two.
- **Records and constraints** (`models.dfy`, `store.dfy`), from
  `core/models.py`.
  - The records are datatypes.
  - The `unique` and `unique_together` constraints are predicates.
  - The filtered `objects.get` lookups are functions.
  - `Database` is a class that holds the tables. Only its `students` field is
    written, and every writing method keeps `Valid()`.

Python dicts are modelled as insertion-ordered lists of pairs (`dicts.dfy`).
Assigning to a new key appends it, and assigning to an existing key replaces
its value in place.

The outside world becomes parameters:

- the generative model is `generate: Prompt -> Reply`;
- `json.loads` of the cleaned reply is `parse: string -> Parsed`;
- the catalog request is `fetch: string -> FetchOutcome`;
- the clock that fills `created_at` is `now`.

Three behaviours of the code are worth stating:

- **Failed catalog fetch.** `student.responses` is assigned in memory
  (core/views.py:71) but saved only at core/views.py:90. So a 502 leaves the
  student row exactly as it was, and `SubmitAnswers` states that.
- **Empty recommendation list.** It is saved, but reads back as 404
  (core/views.py:101).
- **Trimmed ids.** Registration trims the surrounding whitespace of every text
  field, because the serializer's `CharField`s do so by default
  (core/serializers.py:23, 27). `submit_answers` and
  `get_student_recommendation` look the student up by the id exactly as sent
  (core/views.py:46-57, 98-99). So a student registered as " 42" is stored as
  "42" and is not found under " 42" (`UntrimmedIdNotRegistered`).

## Model

| member | source | states |
|---|---|---|
| Dicts.Put | core/services.py:32-34 | `d[k] = v` keeps an existing key in place or appends a new key; afterwards `k` maps to `v`, and every other key maps to what it mapped to before |
| Dicts.LastValue | core/services.py:26-35 | the value a key ends with after a sequence of assignments is absent exactly when the key is never assigned, and is otherwise the value of its last assignment |
| Dicts.FoldPutKeys | core/services.py:22-35 | a dict filled from `{}` by assignments has its keys in first-assignment order |
| Dicts.FoldPutValues | core/services.py:26-35 | a dict filled from `{}` by assignments holds, under each key, the value of that key's last assignment |
| Seqs.Filter | core/services.py:68-70 | a list comprehension with a condition is never longer than its source, holds exactly the source elements that pass, and keeps their order (it is a subsequence) |
| Seqs.FilterCounts | core/services.py:68-70 | a list comprehension with a condition keeps every copy of an element that passes and none of one that fails |
| Seqs.FirstSeen | core/services.py:55-58 | the keys of a dict filled from a sequence are exactly that sequence's elements, each once, and no more of them than the sequence has |
| Seqs.FirstSeenOrder | core/services.py:55-58 | dict keys come in the order of their first occurrence in the filling sequence |
| Text.TrimStart | core/services.py:105 | `lstrip()` returns a suffix of the text; everything removed is whitespace, and the result does not start with whitespace |
| Text.TrimEnd | core/services.py:105 | `rstrip()` returns a prefix of the text; everything removed is whitespace, and the result does not end with whitespace |
| Text.Strip | core/services.py:105 | `strip()` is never longer than the text, and its result is empty or neither starts nor ends with whitespace |
| Text.StripSpec | core/services.py:105 | `strip()` returns the infix left after removing whitespace only, and only from both ends |
| Text.RemoveAll | core/services.py:105 | `replace(p, '')` only deletes: the result is never longer, every character in it comes from the input, and it is a subsequence of the input, so the surviving characters keep their order |
| Text.RemoveAllPrefixAbsent | core/services.py:105 | text without the first character of `p` passes through `replace(p, '')` unchanged, ahead of whatever the rest becomes |
| Text.RemoveAllAbsent | core/services.py:105 | `replace(p, '')` leaves the text unchanged when the first character of `p` does not occur in it |
| Text.NoFenceAfterRemoval | core/services.py:105 | after `replace('```', '')` no three-backtick fence remains, even where deletion brings backticks together |
| Text.CleanFences | core/services.py:105 | the cleaned reply contains no fence, and a reply without backticks is only stripped |
| Text.StripUntrimmed | core/services.py:105 | a text that neither starts nor ends with whitespace is unchanged by `strip()` |
| Text.CleanFencedReply | core/services.py:105 | a reply "```json" + t + "```", where t holds no backtick, cleans to exactly t |
| Models.IdsUniqueOnlyPerCollege | core/models.py:26-50 | two questions with the same `question_id` are allowed in different colleges but clash in the same one; the same `student_id` may appear under two colleges |
| Models.WriteKeepsStudentsValid | core/models.py:44-50 | writing a student row under its own (college, student_id) key, for an existing college, keeps the table keyed and its foreign keys valid |
| Models.FindCollegeByName | core/views.py:116 | `College.objects.get(name=...)` returns a college with that name, or none when no college has it; with unique names it returns the only such college |
| Models.FindQuestion | core/services.py:30 | the question lookup returns a question of that college with that id, or none when there is no such question; with `unique_together` it returns the only one |
| Models.FindOption | core/services.py:31 | `option_set.get(value=...)` returns an option with that value, or none when no option has it; with unique values it returns the only one |
| Models.FindSetting | core/services.py:76-79 | the setting lookup returns the count of a setting of that (college, group), or none when no such setting exists |
| Models.FindStudent | core/views.py:57 | the student is found only by the pair (student_id, college name) and is the row stored under that college's key; with unique college names, none means no such row exists |
| Store.Database.constructor | core/models.py:4-50 | tables that meet the constraints, with an empty student table, satisfy the database invariant |
| Services.EntryWrite | core/services.py:27-34 | each answer writes one pair: either the fixed fallback pair, or the text of a question of the student's college with that id together with the text of one of its options with that value |
| Services.EntryWriteSpec | core/services.py:30-34 | an answer writes the question text with the option text when the question exists in the student's college and has an option with that value; otherwise it writes the fixed "Question ID … for college …" / "Selected: … (question or option not found)" pair |
| Services.EnrichedSpec | core/services.py:22-35 | each answer causes exactly one write; the enriched dict has the written keys in first-write order, each once, at most as many keys as answers, and each key holds its last write |
| Services.FindQuestionOwnCollege | core/services.py:30 | the scoped question lookup gives the same result when the other colleges' questions are removed |
| Services.EnrichmentIgnoresOtherColleges | core/services.py:30 | questions of other colleges never affect the enriched dict, even when their `question_id` matches an answer |
| Services.MapOptionValuesToText | core/services.py:11-35 | the answer-by-answer loop builds exactly the specified enriched dict, and returns `{}` for missing or empty responses |
| Services.FindGroup | core/services.py:58 | the `setdefault` lookup finds the index of the group with that name, or reports that no group has it |
| Services.SetDefaultAppendSpec | core/services.py:58 | `setdefault(name, []).append(course)` appends `course` to the group called `name`, opening it empty at the end of the dict when it is new, and leaves every other group unchanged |
| Services.GroupNamesDistinct | core/services.py:55-58 | each subject-group key has exactly one group |
| Services.GroupsPartitionCatalog | core/services.py:55-58 | every course lands in the group of its key ("Unknown" when absent); a group holds exactly the catalog's courses with its key, in catalog order and with every copy of each (a catalog listing a course twice gives a group listing it twice); no course is in two groups |
| Services.GroupCounts | core/services.py:55-58 | each group holds as many copies of a course as the catalog does when the course has the group's key, and none otherwise |
| Services.GroupsInFirstSeenOrder | core/services.py:55-58 | groups appear in the order in which their first course appears in the catalog |
| Services.GroupedSnoc | core/services.py:56-58 | grouping one more course is one `setdefault(group, []).append(course)` on the grouping so far |
| Services.GroupCourses | core/services.py:55-58 | the grouping loop produces the specified grouping |
| Services.FilterSemester | core/services.py:66-70 | an empty semester keeps the whole group; otherwise exactly the courses whose lower-cased `SemesterName` (missing as "") equals the lower-cased semester are kept; the result is always a subsequence of the group |
| Services.FilterSemesterCounts | core/services.py:66-70 | the semester filter keeps every copy of a matching course and no copy of another one |
| Services.TagOne | core/services.py:110 | `rec['SubjectGroupName'] = group` sets the group on a dict item and leaves every other field as it was |
| Services.Tagged | core/services.py:108-110 | tagging succeeds exactly when every item is a dict; each tagged item then has `SubjectGroupName` set to the group and every other field unchanged, and no item is dropped |
| Services.TagRecommendations | core/services.py:109-110 | the in-place tagging loop gives the specified tagged list, or stops on the first non-dict item |
| Services.ParsedItems | core/services.py:102-108 | a list is obtained exactly when the model answered and the cleaned reply parses to an object that has a "recommendations" list, and it is that list |
| Services.ReplyRecommendations | core/services.py:102-115 | a failed call, an unparsable reply, a missing "recommendations" list or a non-dict item adds nothing; otherwise every listed item is added, tagged, and the count is not cut to `num_recommendations` |
| Services.GroupRecommendations | core/services.py:65-115 | a group with no course left after the semester filter, or with no setting, adds nothing; everything a group adds is tagged with its name |
| Services.SucceedingGroupAddsItems | core/services.py:72-111 | a group that has courses left and a setting, and whose cleaned reply parses to an object whose "recommendations" list holds only dicts, adds every item of that list, in order, each tagged with the group; with `RecommendationsPrefixStep` the result is the concatenation of these lists over the groups |
| Services.RecommendationsPrefixStep | core/services.py:63-111 | handling one more group extends the result by exactly that group's contribution |
| Services.RecommendationsTagged | core/services.py:63-117 | every merged item is a dict tagged with a group that had courses left after filtering and had a setting |
| Services.FailureIsolatedGroup | core/services.py:113-115 | when the model fails for one group and answers all other prompts as before, that group adds nothing and any other group adds what it added before |
| Services.FailureIsolated | core/services.py:113-115 | a failing group does not disturb the others: the result is the earlier result with that group's items removed |
| Services.RecommendForGroup | core/services.py:65-115 | one pass of the loop over the groups adds exactly that group's specified contribution; every `continue` adds nothing |
| Services.GenerateCourseRecommendations | core/services.py:37-117 | the pipeline returns the concatenation, in first-seen group order, of the groups' tagged contributions, computed from the enriched answers of the student |
| Views.CatalogUrl | core/views.py:75 | the catalog is requested at the college's base URL followed by `/website/ReadCourseDetails` |
| Views.CheckSubmission | core/views.py:46-69 | a missing or empty field gives 400 before anything else; otherwise an unknown (student_id, college name) pair gives 404; otherwise a foreign question id gives 400 listing exactly the submitted ids minus the college's ids (never empty); otherwise the request is accepted |
| Views.GetStudentRecommendation | core/views.py:98-109 | 404 when the (student_id, college name) pair has no student; otherwise 404 when the stored list is null or empty, else exactly the stored list |
| Views.StoredRecommendationsReadBack | core/views.py:89-109 | a student saved under its college reads back with its list, unless that list is empty (then 404) |
| Views.GetCollegeRecommendations | core/views.py:115-122 | 404 exactly when no college has the name; otherwise the listing holds exactly the named college's students whose recommendations are non-null, empty lists included |
| Views.SaveStudent | core/views.py:89-90 | `student.save()` replaces the row under the student's key, keeps the database invariant, and the stored list reads back |
| Views.SubmitAnswers | core/views.py:45-92 | a rejection returns the checked response and changes nothing; a failed fetch returns 502 and changes nothing; otherwise the row gets the submitted answers and the pipeline's list, the response carries that list, and reading it back gives it unless it is empty |
| Serializers.Validate | core/serializers.py:30-47 | an unknown college name fails validation; with unique college names, an existing (college, student_id) pair fails as a duplicate, and validation succeeds exactly when the college exists and the pair is free; success passes on only the writable fields |
| Serializers.Register | core/serializers.py:30-53 | a request that fails validation leaves the student table unchanged, and no registration changes or removes an existing row |
| Serializers.ReadOnlyFieldsIgnored | core/serializers.py:27-28 | whatever a client sends for `college`, `recommendations` or `created_at`, the validated data, the validation outcome and the registration are the same |
| Serializers.RegisterAddsOne | core/serializers.py:49-53 | a successful registration adds exactly one row, under the free key of the college named in the request, and changes no other row; the new row holds that college, the request's student id, name, department, semester and responses, no recommendations and the creation time; a rejected registration changes nothing |
| Serializers.RegisterKeepsStudentsValid | core/serializers.py:42-53 | registration keeps the student table keyed by (college, student_id) and its foreign keys valid |
| Serializers.RegisterThenReadBack | core/serializers.py:42-45 | after a registration the same request fails as a duplicate, and the new student has no recommendations to read back (404) |
| Serializers.RegisterKeepsListings | core/serializers.py:28 | a new registration never shows in a college's listing, because it has no recommendations |
| Serializers.Create | core/serializers.py:49-53 | `create` inserts the new student under the college resolved by name and keeps the database invariant |
| Serializers.RegisterStudent | core/views.py:19-29 | the endpoint trims the request's text fields, then returns 201 with the trimmed student id and performs the specified registration on the trimmed request, or returns 400 with the validation error and changes nothing |
| Serializers.FieldProcessingIdempotent | core/serializers.py:23-27 | trimming the text fields of an already trimmed request changes nothing, so whitespace around the fields does not affect validation or registration |
| Serializers.UntrimmedIdNotRegistered | core/serializers.py:23-27 | registering an id with surrounding whitespace stores the trimmed id, so looking up the id as sent, as the other endpoints do (core/views.py:57, 99), finds what it found before |
| Text.StripIdempotent | core/services.py:105 | `strip()` applied twice gives the same text as applied once |

## Left out

- The Gemini client setup and `generate_content` (core/services.py:6-9, 103-104) are a foreign network call. They are the parameter `generate`, and any exception it raises is `ModelError`.
- The prompt text and `json.dumps` (core/services.py:81-101) are left out. The prompt is a value built from the group name, the count, the enriched answers and the filtered courses.
- `json.loads` (core/services.py:106) is the parameter `parse`. JSON values other than an object with or without a "recommendations" list are not modelled, so a "recommendations" value that is not a list, or a non-object top level, is not distinguished from a parse failure.
- The catalog request `requests.get(...).raise_for_status()` and `response.json()` (core/views.py:74-83) are the parameter `fetch`. A transport error, an error status and a body that does not decode as JSON are all `FetchFailed`, which gives 502.
- Course, FetchOutcome: catalog entries are assumed to be JSON objects whose `SubjectGroupName` and `SemesterName` are strings when present, and the body is assumed to be a list. Other shapes make the code fail with 500 and save nothing; the model does not represent them. Examples: a null `SemesterName` with a non-empty semester (`None.lower()` at core/services.py:69), a null `SubjectGroupName` (a group `None` rather than "Unknown", core/services.py:57), or a body that is a non-empty object, a non-empty string, a number or null. An empty object or an empty string body makes the loop at core/services.py:56 run zero times, so the request returns 200 and saves `[]`, which is what `Fetched([])` gives.
- The Django ORM and `save()` are replaced by the in-memory `Database`. Student rows are values stored in a map, so object identity and aliasing are not modelled.
- Duplicate option values within a question and duplicate settings per (college, group) raise `MultipleObjectsReturned`, which the code does not catch. The model excludes them as preconditions (`AllOptionValuesUnique`, `SettingsUnique`).
- Services.FilterSemester: compares with ASCII-only lower-casing (`Text.Lower`), not Python's full Unicode `str.lower()`.
- Field-level serializer validation (required fields, `allow_blank=False`, `max_length`, URL format) is left out. Validation is modelled only at the level of `validate`. Of the field processing, only whitespace trimming (`FieldProcessed`) is modelled; the `str()` conversion of non-string values is not, since the fields are strings here.
- `num_recommendations` defaults to 3 (`Models.DefaultNumRecommendations`); the count is a `nat`. The count only enters the prompt, so no property depends on it.
- Requests are modelled as sequential. Two concurrent registrations of the same (college, student_id) pair, where the database constraint raises `IntegrityError` (500), are not modelled.
- The college listing is a set, because the query has no ordering; the order of the serialized list is not modelled.
- SubmitRequest: the request fields are assumed to be strings and `answers` a dict from strings to strings. A truthy `answers` that is not a dict, such as a list or a string, makes `answers.keys()` (core/views.py:62) raise `AttributeError` once the student is found, which gives 500 and saves nothing; `Option<Answers>` cannot express such a value.
- The stored answers and the recommendation items hold strings only; nested JSON values are not modelled.
- `print` logging, core/admin.py, the URL configuration, core/templatetags/json_filters.py, `college_user_panel` (HTML and authentication) and `get_college_questions` (a plain read) are not part of this model.
