/** The recommendation pipeline: translating a student's answers into readable
    text, grouping and filtering the college's course catalog, asking the
    generative model once per subject group, and merging the tagged results.

    The generative model and the JSON parser are parameters: `generate` maps a
    prompt to the model's reply (or an error), `parse` maps the cleaned reply
    text to what `json.loads` yields. */
module Services {
  import opened Wrappers
  import opened Seqs
  import opened Dicts
  import opened Text
  import opened Models

  // ===== Response enricher =====

  function FallbackKey(qid: string, college: College): string {
    "Question ID " + qid + " for college " + college.name
  }

  function FallbackValue(value: string): string {
    "Selected: " + value + " (question or option not found)"
  }

  /** The one assignment `enriched[key] = value` made for the answer
      (qid, value): the question's and option's texts when the question exists
      in the student's college and has an option with that value, else the
      fallback pair. */
  function EntryWrite(questions: seq<Question>, college: College, qid: string, value: string): (r: (string, string))
    ensures || r == (FallbackKey(qid, college), FallbackValue(value))
            || exists q, o :: (q in questions && q.college == college.pk && q.questionId == qid &&
                               o in q.options && o.value == value && r == (q.text, o.text))
  {
    match FindQuestion(questions, college.pk, qid)
    case None => (FallbackKey(qid, college), FallbackValue(value))
    case Some(q) =>
      match FindOption(q.options, value)
      case None => (FallbackKey(qid, college), FallbackValue(value))
      case Some(o) => (q.text, o.text)
  }

  lemma EntryWriteSpec(questions: seq<Question>, college: College, qid: string, value: string)
    requires QuestionsUnique(questions) && OptionValuesUnique(questions, college.pk)
    ensures forall q, o :: (q in questions && q.college == college.pk && q.questionId == qid &&
                            o in q.options && o.value == value) ==>
      EntryWrite(questions, college, qid, value) == (q.text, o.text)
    ensures (forall q, o :: (q in questions && q.college == college.pk && q.questionId == qid &&
                             o in q.options) ==> o.value != value) ==>
      EntryWrite(questions, college, qid, value) == (FallbackKey(qid, college), FallbackValue(value))
  {
    match FindQuestion(questions, college.pk, qid)
    case None =>
    case Some(q) =>
      assert forall i, j :: 0 <= i < j < |q.options| ==> q.options[i].value != q.options[j].value;
  }

  /** The assignments made for the answers, in answer order. */
  function Writes(answers: Answers, questions: seq<Question>, college: College): seq<(string, string)> {
    seq(|answers|, i requires 0 <= i < |answers| => EntryWrite(questions, college, answers[i].0, answers[i].1))
  }

  /** The dict `map_option_values_to_text` returns for `responses`. */
  function Enriched(responses: Option<Answers>, questions: seq<Question>, college: College): Dict<string, string> {
    match responses
    case None => []
    case Some(answers) => FoldPut(Writes(answers, questions, college))
  }

  /** Each answer writes exactly one entry: the enriched dict has the written
      keys in first-write order, no more keys than there are answers, and each
      key holds the value of its last write. */
  lemma EnrichedSpec(answers: Answers, questions: seq<Question>, college: College)
    ensures var ws := Writes(answers, questions, college);
      var r := Enriched(Some(answers), questions, college);
      && Keys(r) == FirstSeen(Keys(ws))
      && Distinct(Keys(r))
      && |r| <= |answers|
      && (forall i :: 0 <= i < |answers| ==> ws[i].0 in Keys(r))
      && (forall i :: (0 <= i < |answers| && forall j :: i < j < |answers| ==> ws[j].0 != ws[i].0) ==>
            Get(r, ws[i].0) == Some(ws[i].1))
  {
    var ws := Writes(answers, questions, college);
    FoldPutKeys(ws);
    FoldPutValues(ws);
    var r := FoldPut(ws);
    assert |Keys(r)| == |r|;
    forall i | 0 <= i < |answers|
      ensures ws[i].0 in Keys(r)
    {
      assert Keys(ws)[i] == ws[i].0;
    }
  }

  function BelongsTo(college: Pk): Question -> bool {
    (q: Question) => q.college == college
  }

  lemma {:induction false} FindQuestionOwnCollege(questions: seq<Question>, college: Pk, qid: string)
    ensures FindQuestion(questions, college, qid) == FindQuestion(Filter(questions, BelongsTo(college)), college, qid)
  {
    if questions != [] {
      FindQuestionOwnCollege(questions[1..], college, qid);
    }
  }

  /** Questions of other colleges never take part in enrichment, even when
      their `question_id` matches an answer. */
  lemma EnrichmentIgnoresOtherColleges(responses: Option<Answers>, questions: seq<Question>, college: College)
    ensures Enriched(responses, questions, college) ==
            Enriched(responses, Filter(questions, BelongsTo(college.pk)), college)
  {
    if responses.Some? {
      var answers := responses.value;
      var own := Filter(questions, BelongsTo(college.pk));
      forall i | 0 <= i < |answers|
        ensures Writes(answers, questions, college)[i] == Writes(answers, own, college)[i]
      {
        FindQuestionOwnCollege(questions, college.pk, answers[i].0);
      }
      assert Writes(answers, questions, college) == Writes(answers, own, college);
    }
  }

  /** One more assignment on top of the first `i`. */
  lemma FoldPutPrefixStep<K(!new), V>(writes: seq<(K, V)>, i: nat)
    requires i < |writes|
    ensures FoldPut(writes[..i + 1]) == Put(FoldPut(writes[..i]), writes[i].0, writes[i].1)
  {
    assert writes[..i + 1][..i] == writes[..i];
  }

  /** `map_option_values_to_text`: fills the enriched dict answer by answer. */
  method MapOptionValuesToText(responses: Option<Answers>, college: College, questions: seq<Question>)
    returns (enriched: Dict<string, string>)
    requires QuestionsUnique(questions) && OptionValuesUnique(questions, college.pk)
    ensures enriched == Enriched(responses, questions, college)
    ensures responses.None? || responses.value == [] ==> enriched == []
  {
    enriched := [];
    if responses.None? || responses.value == [] {
      return;
    }
    var answers := responses.value;
    ghost var writes := Writes(answers, questions, college);
    var i := 0;
    while i < |answers|
      invariant 0 <= i <= |answers|
      invariant enriched == FoldPut(writes[..i])
    {
      var qid, selected := answers[i].0, answers[i].1;
      var key, text := FallbackKey(qid, college), FallbackValue(selected);
      var question := FindQuestion(questions, college.pk, qid);
      if question.Some? {
        var option := FindOption(question.value.options, selected);
        if option.Some? {
          key, text := question.value.text, option.value.text;
        }
      }
      assert writes[i] == EntryWrite(questions, college, qid, selected);
      assert (key, text) == EntryWrite(questions, college, qid, selected);
      FoldPutPrefixStep(writes, i);
      enriched := Put(enriched, key, text);
      i := i + 1;
    }
    assert writes[..i] == writes;
  }

  // ===== Grouping by subject group =====

  const UnknownGroup: string := "Unknown"

  /** `course.get('SubjectGroupName', 'Unknown')`. */
  function GroupKey(c: Course): string {
    c.subjectGroupName.GetOr(UnknownGroup)
  }

  datatype Group = Group(name: string, courses: seq<Course>)

  function CourseKeys(catalog: seq<Course>): seq<string> {
    seq(|catalog|, i requires 0 <= i < |catalog| => GroupKey(catalog[i]))
  }

  function KeyIs(name: string): Course -> bool {
    (c: Course) => GroupKey(c) == name
  }

  function GroupNames(groups: seq<Group>): seq<string> {
    seq(|groups|, i requires 0 <= i < |groups| => groups[i].name)
  }

  /** The catalog grouped by subject group: one group per key in first-seen
      order, holding the catalog's courses with that key in catalog order. */
  function Grouped(catalog: seq<Course>): seq<Group> {
    var names := FirstSeen(CourseKeys(catalog));
    seq(|names|, i requires 0 <= i < |names| => Group(names[i], Filter(catalog, KeyIs(names[i]))))
  }

  /** Group names are distinct: each key has one group. */
  lemma GroupNamesDistinct(catalog: seq<Course>)
    ensures Distinct(GroupNames(Grouped(catalog)))
  {
    assert GroupNames(Grouped(catalog)) == FirstSeen(CourseKeys(catalog));
  }

  /** Every course lands in the group of its key, that group holds exactly
      the catalog's courses with that key in catalog order, every copy of
      them and nothing else, and no course lies in two groups. */
  lemma GroupsPartitionCatalog(catalog: seq<Course>)
    ensures var gs := Grouped(catalog);
      && (forall c :: c in catalog ==> exists i :: 0 <= i < |gs| && gs[i].name == GroupKey(c))
      && (forall i, c :: 0 <= i < |gs| ==> (c in gs[i].courses <==> c in catalog && GroupKey(c) == gs[i].name))
      && (forall c, i, j :: 0 <= i < |gs| && 0 <= j < |gs| && c in gs[i].courses && c in gs[j].courses ==> i == j)
      && (forall i :: 0 <= i < |gs| ==> IsSubsequence(gs[i].courses, catalog))
      && (forall i, c :: 0 <= i < |gs| ==>
            multiset(gs[i].courses)[c] == if GroupKey(c) == gs[i].name then multiset(catalog)[c] else 0)
  {
    var keys := CourseKeys(catalog);
    var names := FirstSeen(keys);
    var gs := Grouped(catalog);
    GroupNamesDistinct(catalog);
    forall c | c in catalog
      ensures exists i :: 0 <= i < |gs| && gs[i].name == GroupKey(c)
    {
      var m :| 0 <= m < |catalog| && catalog[m] == c;
      assert keys[m] == GroupKey(c);
      var i := IndexOf(names, GroupKey(c));
      assert gs[i].name == GroupKey(c);
    }
    forall i | 0 <= i < |gs|
      ensures gs[i] == Group(names[i], Filter(catalog, KeyIs(names[i])))
    {
    }
    GroupCounts(catalog);
    forall c, i, j | 0 <= i < |gs| && 0 <= j < |gs| && c in gs[i].courses && c in gs[j].courses
      ensures i == j
    {
      assert names[i] == GroupKey(c) == names[j];
    }
  }

  /** Each group holds every copy of the catalog's courses with its key. */
  lemma GroupCounts(catalog: seq<Course>)
    ensures var gs := Grouped(catalog);
      forall i, c :: 0 <= i < |gs| ==>
        multiset(gs[i].courses)[c] == if GroupKey(c) == gs[i].name then multiset(catalog)[c] else 0
  {
    var gs := Grouped(catalog);
    forall i | 0 <= i < |gs|
      ensures forall c :: multiset(gs[i].courses)[c] == if GroupKey(c) == gs[i].name then multiset(catalog)[c] else 0
    {
      FilterCounts(catalog, KeyIs(gs[i].name));
    }
  }

  /** Groups appear in the order in which their first course appears. */
  lemma GroupsInFirstSeenOrder(catalog: seq<Course>)
    ensures var gs := Grouped(catalog);
      forall i, j :: 0 <= i < j < |gs| ==>
        gs[i].name in CourseKeys(catalog) && gs[j].name in CourseKeys(catalog) &&
        IndexOf(CourseKeys(catalog), gs[i].name) < IndexOf(CourseKeys(catalog), gs[j].name)
  {
    FirstSeenOrder(CourseKeys(catalog));
  }

  /** Index of the group called `name`: the dict lookup of `setdefault`. */
  function FindGroup(groups: seq<Group>, name: string): (r: Option<nat>)
    ensures r.Some? ==> r.value < |groups| && groups[r.value].name == name
    ensures r.None? ==> forall i :: 0 <= i < |groups| ==> groups[i].name != name
  {
    if groups == [] then None
    else if groups[0].name == name then Some(0)
    else
      match FindGroup(groups[1..], name)
      case None => None
      case Some(j) => Some(j + 1)
  }

  /** `grouped.setdefault(name, []).append(course)`. */
  function SetDefaultAppend(groups: seq<Group>, name: string, course: Course): seq<Group> {
    match FindGroup(groups, name)
    case Some(j) => groups[j := Group(name, groups[j].courses + [course])]
    case None => groups + [Group(name, [course])]
  }

  /** The group called `name` gets `course` at its end, and is opened empty
      at the end of the dict when it is new; every other group is unchanged. */
  lemma SetDefaultAppendSpec(groups: seq<Group>, name: string, course: Course)
    ensures var r := SetDefaultAppend(groups, name, course);
      && GroupNames(r) == (if name in GroupNames(groups) then GroupNames(groups) else GroupNames(groups) + [name])
      && (forall i :: 0 <= i < |groups| && groups[i].name != name ==> r[i] == groups[i])
      && exists j :: (0 <= j < |r| && r[j].name == name &&
                      r[j].courses == (if j < |groups| then groups[j].courses else []) + [course])
  {
    var r := SetDefaultAppend(groups, name, course);
    match FindGroup(groups, name)
    case Some(j) =>
      assert GroupNames(groups)[j] == name;
      assert GroupNames(r) == GroupNames(groups);
      assert r[j] == Group(name, groups[j].courses + [course]);
    case None =>
      assert forall i :: 0 <= i < |groups| ==> GroupNames(groups)[i] != name;
      assert GroupNames(r) == GroupNames(groups) + [name];
      assert r[|groups|] == Group(name, [] + [course]);
  }

  lemma FilterOne(c: Course, p: Course -> bool)
    ensures Filter([c], p) == if p(c) then [c] else []
  {
    assert [c][1..] == [];
  }

  lemma CourseKeysSnoc(catalog: seq<Course>, c: Course)
    ensures CourseKeys(catalog + [c]) == CourseKeys(catalog) + [GroupKey(c)]
  {
  }

  lemma FilterKeySnoc(catalog: seq<Course>, c: Course, name: string)
    ensures Filter(catalog + [c], KeyIs(name)) ==
            Filter(catalog, KeyIs(name)) + (if GroupKey(c) == name then [c] else [])
  {
    FilterAppend(catalog, [c], KeyIs(name));
    FilterOne(c, KeyIs(name));
  }

  lemma FilterKeyAbsent(catalog: seq<Course>, name: string)
    requires name !in CourseKeys(catalog)
    ensures Filter(catalog, KeyIs(name)) == []
  {
    forall x | x in catalog
      ensures !KeyIs(name)(x)
    {
      var m :| 0 <= m < |catalog| && catalog[m] == x;
      assert CourseKeys(catalog)[m] == GroupKey(x);
    }
    FilterDropsAll(catalog, KeyIs(name));
  }

  lemma GroupNamesSnoc(catalog: seq<Course>, c: Course)
    ensures FirstSeen(CourseKeys(catalog + [c])) ==
      if GroupKey(c) in FirstSeen(CourseKeys(catalog)) then FirstSeen(CourseKeys(catalog))
      else FirstSeen(CourseKeys(catalog)) + [GroupKey(c)]
  {
    CourseKeysSnoc(catalog, c);
    FirstSeenSnoc(CourseKeys(catalog), GroupKey(c));
  }

  /** A course of a group already seen is appended to that group. */
  lemma GroupedSnocSeen(catalog: seq<Course>, c: Course, j: nat)
    requires j < |Grouped(catalog)| && Grouped(catalog)[j].name == GroupKey(c)
    ensures Grouped(catalog + [c]) == Grouped(catalog)[j := Group(GroupKey(c), Grouped(catalog)[j].courses + [c])]
  {
    var gs := Grouped(catalog);
    var gs' := Grouped(catalog + [c]);
    var names := FirstSeen(CourseKeys(catalog));
    assert FirstSeen(CourseKeys(catalog + [c])) == names by {
      assert names[j] == GroupKey(c);
      GroupNamesSnoc(catalog, c);
    }
    forall i | 0 <= i < |gs|
      ensures gs'[i] == gs[j := Group(GroupKey(c), gs[j].courses + [c])][i]
    {
      FilterKeySnoc(catalog, c, names[i]);
      assert gs'[i] == Group(names[i], Filter(catalog + [c], KeyIs(names[i])));
      assert gs[i] == Group(names[i], Filter(catalog, KeyIs(names[i])));
    }
  }

  /** A course of a new group opens a group at the end. */
  lemma GroupedSnocNew(catalog: seq<Course>, c: Course)
    requires forall i :: 0 <= i < |Grouped(catalog)| ==> Grouped(catalog)[i].name != GroupKey(c)
    ensures Grouped(catalog + [c]) == Grouped(catalog) + [Group(GroupKey(c), [c])]
  {
    var k := GroupKey(c);
    var gs := Grouped(catalog);
    var gs' := Grouped(catalog + [c]);
    var names := FirstSeen(CourseKeys(catalog));
    forall i | 0 <= i < |names|
      ensures names[i] != k
    {
      assert gs[i].name == names[i];
    }
    var names' := names + [k];
    assert FirstSeen(CourseKeys(catalog + [c])) == names' by {
      GroupNamesSnoc(catalog, c);
    }
    forall i | 0 <= i < |gs'|
      ensures gs'[i] == (gs + [Group(k, [c])])[i]
    {
      FilterKeySnoc(catalog, c, names'[i]);
      assert gs'[i] == Group(names'[i], Filter(catalog + [c], KeyIs(names'[i])));
      if i < |gs| {
        assert gs[i] == Group(names[i], Filter(catalog, KeyIs(names[i])));
      } else {
        FilterKeyAbsent(catalog, k);
      }
    }
  }

  /** Grouping one more course is one `setdefault(...).append(...)`. */
  lemma GroupedSnoc(catalog: seq<Course>, c: Course)
    ensures Grouped(catalog + [c]) == SetDefaultAppend(Grouped(catalog), GroupKey(c), c)
  {
    match FindGroup(Grouped(catalog), GroupKey(c))
    case Some(j) => GroupedSnocSeen(catalog, c, j);
    case None => GroupedSnocNew(catalog, c);
  }

  /** The grouping loop: `grouped_courses.setdefault(group, []).append(course)`
      for each catalog course in turn. */
  method GroupCourses(catalog: seq<Course>) returns (grouped: seq<Group>)
    ensures grouped == Grouped(catalog)
  {
    grouped := [];
    var i := 0;
    assert catalog[..0] == [];
    while i < |catalog|
      invariant 0 <= i <= |catalog|
      invariant grouped == Grouped(catalog[..i])
    {
      var course := catalog[i];
      var group := GroupKey(course);
      var j := FindGroup(grouped, group);
      if j.Some? {
        grouped := grouped[j.value := Group(group, grouped[j.value].courses + [course])];
      } else {
        grouped := grouped + [Group(group, [course])];
      }
      GroupedSnoc(catalog[..i], course);
      assert catalog[..i + 1] == catalog[..i] + [course];
      i := i + 1;
    }
    assert catalog[..i] == catalog;
  }

  // ===== Semester filter =====

  /** `c.get('SemesterName', '')`. */
  function SemesterOf(c: Course): string {
    c.semesterName.GetOr("")
  }

  function SemesterIs(semester: string): Course -> bool {
    (c: Course) => Lower(SemesterOf(c)) == Lower(semester)
  }

  /** The courses of a group offered in the student's semester, compared
      case-insensitively; an empty semester keeps the whole group. */
  function FilterSemester(courses: seq<Course>, semester: string): (r: seq<Course>)
    ensures semester == "" ==> r == courses
    ensures semester != "" ==>
      forall c :: c in r <==> c in courses && Lower(SemesterOf(c)) == Lower(semester)
    ensures IsSubsequence(r, courses)
  {
    if semester == "" then
      SubsequenceRefl(courses);
      courses
    else
      Filter(courses, SemesterIs(semester))
  }

  /** The semester filter keeps every copy of a matching course: two equal
      courses of a group are never merged into one. */
  lemma FilterSemesterCounts(courses: seq<Course>, semester: string)
    ensures forall c :: (multiset(FilterSemester(courses, semester))[c] ==
                         if semester == "" || Lower(SemesterOf(c)) == Lower(semester) then multiset(courses)[c] else 0)
  {
    if semester != "" {
      FilterCounts(courses, SemesterIs(semester));
    }
  }

  // ===== One model call per subject group =====

  /** The prompt sent for a group: it is built from the group name, the count
      to request, the enriched answers and the group's filtered courses. */
  datatype Prompt = Prompt(groupName: string, numRecommendations: nat, enriched: Dict<string, string>, courses: seq<Course>)

  /** The model's reply: its text, or an exception from the call. */
  datatype Reply = ModelError | Generated(text: string)

  /** What `json.loads` makes of the cleaned reply: a parse error, or an
      object that has a "recommendations" list or not. */
  datatype Parsed = Unparsable | JsonObject(recommendations: Option<seq<Item>>)

  const GroupField: string := "SubjectGroupName"

  predicate AllObjects(items: seq<Item>) {
    forall i :: 0 <= i < |items| ==> items[i].Obj?
  }

  /** `rec['SubjectGroupName'] = group` on a dict item. */
  function TagOne(item: Item, group: string): (r: Item)
    requires item.Obj?
    ensures IsTagged(r, item, group)
  {
    Obj(Put(item.fields, GroupField, group))
  }

  /** `tagged` is `item` with its subject group set to `group` and every other
      field unchanged. */
  ghost predicate IsTagged(tagged: Item, item: Item, group: string) {
    && item.Obj? && tagged.Obj?
    && Get(tagged.fields, GroupField) == Some(group)
    && forall k :: k != GroupField ==> Get(tagged.fields, k) == Get(item.fields, k)
  }

  /** The items with their subject group set, or None when one of them is not
      a dict (the assignment raises and the group is skipped). */
  function Tagged(items: seq<Item>, group: string): (r: Option<seq<Item>>)
    ensures r.Some? <==> AllObjects(items)
    ensures r.Some? ==> (|r.value| == |items| &&
                         forall i :: 0 <= i < |items| ==> IsTagged(r.value[i], items[i], group))
  {
    if AllObjects(items) then
      Some(seq(|items|, i requires 0 <= i < |items| && items[i].Obj? => TagOne(items[i], group)))
    else None
  }

  /** The tagging loop, updating each recommendation in place. */
  method TagRecommendations(items: seq<Item>, group: string) returns (tagged: Option<seq<Item>>)
    ensures tagged == Tagged(items, group)
  {
    var recs := items;
    var i := 0;
    while i < |recs|
      invariant 0 <= i <= |recs| == |items|
      invariant forall j :: 0 <= j < i ==> items[j].Obj? && recs[j] == TagOne(items[j], group)
      invariant forall j :: i <= j < |recs| ==> recs[j] == items[j]
    {
      if recs[i].NonObject? {
        assert !AllObjects(items) by {
          assert items[i].NonObject?;
        }
        return None;
      }
      recs := recs[i := TagOne(recs[i], group)];
      i := i + 1;
    }
    assert recs == seq(|items|, i requires 0 <= i < |items| && items[i].Obj? => TagOne(items[i], group));
    tagged := Some(recs);
  }

  /** The "recommendations" list of a reply, when the cleaned reply parses to
      an object that has one. */
  function ParsedItems(reply: Reply, parse: string -> Parsed): (r: Option<seq<Item>>)
    ensures reply.ModelError? ==> r.None?
    ensures reply.Generated? ==>
      (r.Some? <==> parse(CleanFences(reply.text)).JsonObject? && parse(CleanFences(reply.text)).recommendations.Some?)
    ensures r.Some? ==> parse(CleanFences(reply.text)) == JsonObject(r)
  {
    if reply.ModelError? then None
    else
      match parse(CleanFences(reply.text))
      case Unparsable => None
      case JsonObject(items) => items
  }

  /** What one model reply adds to the result: nothing when the call fails,
      the reply does not parse, has no "recommendations" list or holds a
      non-dict item; otherwise every listed item, tagged with the group and
      not cut to the requested count. */
  function ReplyRecommendations(reply: Reply, parse: string -> Parsed, group: string): (r: seq<Item>)
    ensures ParsedItems(reply, parse).None? ==> r == []
    ensures ParsedItems(reply, parse).Some? && !AllObjects(ParsedItems(reply, parse).value) ==> r == []
    ensures ParsedItems(reply, parse).Some? && AllObjects(ParsedItems(reply, parse).value) ==>
      |r| == |ParsedItems(reply, parse).value| &&
      forall i :: 0 <= i < |r| ==> IsTagged(r[i], ParsedItems(reply, parse).value[i], group)
    ensures forall x :: x in r ==> x.Obj? && Get(x.fields, GroupField) == Some(group)
  {
    match ParsedItems(reply, parse)
    case None => []
    case Some(items) =>
      match Tagged(items, group)
      case None => []
      case Some(t) => t
  }

  /** The inputs shared by every group of one request. */
  datatype Context = Context(enriched: Dict<string, string>, semester: string, college: Pk, settings: seq<RecommendationSetting>)

  /** What one subject group adds to the result. A group whose filtered list
      is empty, or that has no setting, adds nothing and calls no model. */
  function GroupRecommendations(g: Group, ctx: Context, generate: Prompt -> Reply, parse: string -> Parsed): (r: seq<Item>)
    ensures FilterSemester(g.courses, ctx.semester) == [] ==> r == []
    ensures FindSetting(ctx.settings, ctx.college, g.name).None? ==> r == []
    ensures forall x :: x in r ==> x.Obj? && Get(x.fields, GroupField) == Some(g.name)
  {
    var filtered := FilterSemester(g.courses, ctx.semester);
    if filtered == [] then []
    else
      match FindSetting(ctx.settings, ctx.college, g.name)
      case None => []
      case Some(n) => ReplyRecommendations(generate(Prompt(g.name, n, ctx.enriched, filtered)), parse, g.name)
  }

  /** A group that has courses left and a setting, and whose reply parses to
      a list of dicts, adds every item of that list, in order, tagged with
      the group. */
  lemma SucceedingGroupAddsItems(g: Group, ctx: Context, generate: Prompt -> Reply, parse: string -> Parsed,
                                 n: nat, items: seq<Item>)
    requires FilterSemester(g.courses, ctx.semester) != []
    requires FindSetting(ctx.settings, ctx.college, g.name) == Some(n)
    requires ParsedItems(generate(Prompt(g.name, n, ctx.enriched, FilterSemester(g.courses, ctx.semester))), parse) ==
             Some(items)
    requires AllObjects(items)
    ensures var r := GroupRecommendations(g, ctx, generate, parse);
      |r| == |items| && forall i :: 0 <= i < |r| ==> IsTagged(r[i], items[i], g.name)
  {
  }

  /** The merged result: the groups' contributions concatenated in group
      order, as `final_recommendations` grows by one `extend` per group. */
  function Recommendations(groups: seq<Group>, ctx: Context, generate: Prompt -> Reply, parse: string -> Parsed): seq<Item> {
    if groups == [] then []
    else
      Recommendations(groups[..|groups| - 1], ctx, generate, parse) +
      GroupRecommendations(groups[|groups| - 1], ctx, generate, parse)
  }

  /** What `generate_course_recommendations` returns under "recommendations". */
  function CourseRecommendations(student: Student, college: College, questions: seq<Question>,
                                 settings: seq<RecommendationSetting>, catalog: seq<Course>,
                                 generate: Prompt -> Reply, parse: string -> Parsed): seq<Item> {
    var ctx := Context(Enriched(student.responses, questions, college), student.semester, college.pk, settings);
    Recommendations(Grouped(catalog), ctx, generate, parse)
  }

  /** One more group of `groups` adds its own contribution to the merge. */
  lemma RecommendationsPrefixStep(groups: seq<Group>, i: nat, ctx: Context, generate: Prompt -> Reply,
                                  parse: string -> Parsed)
    requires i < |groups|
    ensures Recommendations(groups[..i + 1], ctx, generate, parse) ==
            Recommendations(groups[..i], ctx, generate, parse) + GroupRecommendations(groups[i], ctx, generate, parse)
  {
    assert groups[..i + 1][..i] == groups[..i];
  }

  /** Every merged item is a dict tagged with the name of a group that has a
      non-empty filtered list and a setting. */
  lemma {:induction false} RecommendationsTagged(groups: seq<Group>, ctx: Context, generate: Prompt -> Reply,
                                                 parse: string -> Parsed)
    ensures forall x :: x in Recommendations(groups, ctx, generate, parse) ==>
      x.Obj? && exists i :: (0 <= i < |groups| && Get(x.fields, GroupField) == Some(groups[i].name) &&
                             FilterSemester(groups[i].courses, ctx.semester) != [] &&
                             FindSetting(ctx.settings, ctx.college, groups[i].name).Some?)
  {
    if groups != [] {
      var n := |groups| - 1;
      var init := groups[..n];
      RecommendationsTagged(init, ctx, generate, parse);
      forall x | x in Recommendations(groups, ctx, generate, parse)
        ensures x.Obj? && exists i :: (0 <= i < |groups| && Get(x.fields, GroupField) == Some(groups[i].name) &&
                                       FilterSemester(groups[i].courses, ctx.semester) != [] &&
                                       FindSetting(ctx.settings, ctx.college, groups[i].name).Some?)
      {
        if x in Recommendations(init, ctx, generate, parse) {
          var i :| (0 <= i < |init| && Get(x.fields, GroupField) == Some(init[i].name) &&
                    FilterSemester(init[i].courses, ctx.semester) != [] &&
                    FindSetting(ctx.settings, ctx.college, init[i].name).Some?);
          assert init[i] == groups[i];
        } else {
          assert x in GroupRecommendations(groups[n], ctx, generate, parse);
        }
      }
    }
  }

  /** Whether `x` carries a subject group other than `group`. */
  function NotOfGroup(group: string): Item -> bool {
    (x: Item) => !(x.Obj? && Get(x.fields, GroupField) == Some(group))
  }

  /** When the model fails for every prompt of group `failing` and answers
      every other prompt as before, a group's contribution is unchanged unless
      it is the failing group, which contributes nothing. */
  lemma FailureIsolatedGroup(g: Group, ctx: Context, generate: Prompt -> Reply,
                             generate': Prompt -> Reply, parse: string -> Parsed, failing: string)
    requires forall p: Prompt :: p.groupName != failing ==> generate'(p) == generate(p)
    requires forall p: Prompt :: p.groupName == failing ==> ParsedItems(generate'(p), parse).None?
    ensures GroupRecommendations(g, ctx, generate', parse) ==
            Filter(GroupRecommendations(g, ctx, generate, parse), NotOfGroup(failing))
  {
    var before := GroupRecommendations(g, ctx, generate, parse);
    var filtered := FilterSemester(g.courses, ctx.semester);
    var setting := FindSetting(ctx.settings, ctx.college, g.name);
    if g.name == failing {
      FilterDropsAll(before, NotOfGroup(failing));
      if filtered != [] && setting.Some? {
        var p := Prompt(g.name, setting.value, ctx.enriched, filtered);
        assert ParsedItems(generate'(p), parse).None?;
      }
    } else {
      FilterKeepsAll(before, NotOfGroup(failing));
      if filtered != [] && setting.Some? {
        var p := Prompt(g.name, setting.value, ctx.enriched, filtered);
        assert generate'(p) == generate(p);
      }
    }
  }

  /** A failing group does not disturb the others: if the model fails (or its
      reply does not parse, or lacks the list) for every prompt of group
      `failing`, and answers every other prompt as before, the result is the
      earlier result without group `failing`'s items. */
  lemma {:induction false} FailureIsolated(groups: seq<Group>, ctx: Context, generate: Prompt -> Reply,
                                           generate': Prompt -> Reply, parse: string -> Parsed, failing: string)
    requires forall p: Prompt :: p.groupName != failing ==> generate'(p) == generate(p)
    requires forall p: Prompt :: p.groupName == failing ==> ParsedItems(generate'(p), parse).None?
    ensures Recommendations(groups, ctx, generate', parse) ==
            Filter(Recommendations(groups, ctx, generate, parse), NotOfGroup(failing))
  {
    if groups != [] {
      var n := |groups| - 1;
      FailureIsolated(groups[..n], ctx, generate, generate', parse, failing);
      FailureIsolatedGroup(groups[n], ctx, generate, generate', parse, failing);
      FilterAppend(Recommendations(groups[..n], ctx, generate, parse),
                   GroupRecommendations(groups[n], ctx, generate, parse), NotOfGroup(failing));
    }
  }

  /** One pass of the loop over the groups: what group `g` adds to
      `final_recommendations`. Each `return []` is a `continue` of the loop. */
  method RecommendForGroup(g: Group, ctx: Context, generate: Prompt -> Reply, parse: string -> Parsed)
    returns (added: seq<Item>)
    requires SettingsUnique(ctx.settings)
    ensures added == GroupRecommendations(g, ctx, generate, parse)
  {
    added := [];
    var filtered := FilterSemester(g.courses, ctx.semester);
    if filtered == [] {
      return;
    }
    var setting := FindSetting(ctx.settings, ctx.college, g.name);
    if setting.None? {
      return;
    }
    var reply := generate(Prompt(g.name, setting.value, ctx.enriched, filtered));
    if reply.ModelError? {
      return;
    }
    var parsed := parse(CleanFences(reply.text));
    if parsed.Unparsable? || parsed.recommendations.None? {
      return;
    }
    var tagged := TagRecommendations(parsed.recommendations.value, g.name);
    if tagged.None? {
      return;
    }
    added := tagged.value;
  }

  /** `generate_course_recommendations`: enriches the answers, groups the
      catalog, then walks the groups in order, skipping a group on an empty
      filtered list, a missing setting or a failed model call, and extends the
      result with each successful group's tagged items. */
  method GenerateCourseRecommendations(student: Student, college: College, questions: seq<Question>,
                                       settings: seq<RecommendationSetting>, catalog: seq<Course>,
                                       generate: Prompt -> Reply, parse: string -> Parsed)
    returns (recommendations: seq<Item>)
    requires student.college == college.pk
    requires QuestionsUnique(questions) && OptionValuesUnique(questions, college.pk) && SettingsUnique(settings)
    ensures recommendations == CourseRecommendations(student, college, questions, settings, catalog, generate, parse)
  {
    var enriched := MapOptionValuesToText(student.responses, college, questions);
    var grouped := GroupCourses(catalog);
    var ctx := Context(enriched, student.semester, college.pk, settings);
    recommendations := [];
    var i := 0;
    assert grouped[..0] == [];
    while i < |grouped|
      invariant 0 <= i <= |grouped|
      invariant recommendations == Recommendations(grouped[..i], ctx, generate, parse)
    {
      var added := RecommendForGroup(grouped[i], ctx, generate, parse);
      RecommendationsPrefixStep(grouped, i, ctx, generate, parse);
      recommendations := recommendations + added;
      i := i + 1;
    }
    assert grouped[..i] == grouped;
    assert recommendations == Recommendations(Grouped(catalog), ctx, generate, parse);
  }
}
