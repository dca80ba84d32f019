/**
 * app/api/lessons/route.ts: the fixed table of writing lessons and the `GET` handler that
 * serves one lesson by id, the lessons of one category, or all of them, to a signed-in
 * user.
 */
module LessonsRoute {
  import opened Wrappers
  import Text

  /** One writing lesson. */
  datatype Lesson = Lesson(
    id: string,
    title: string,
    category: string,
    principles: seq<string>,
    strategies: seq<string>,
    checklistItems: seq<string>)

  /** What `auth()` yields: it throws, or a session whose user may carry an id (`None` for no session or no user). */
  datatype AuthOutcome = AuthThrows | Session(userId: Option<string>)

  /** The body of the JSON response. */
  datatype Body = ErrorBody(error: string) | OneLesson(lesson: Lesson) | LessonList(lessons: seq<Lesson>)

  datatype Response = Response(status: nat, body: Body)

  /** The lessons, in the order the route lists them. */
  const Lessons: seq<Lesson> := [
    Lesson(
      "thesis-clarity",
      "Strengthening Your Thesis Statement",
      "Thesis",
      ["A thesis should be specific, debatable, and arguable",
       "It should preview the main points of your essay",
       "Avoid vague language like \"interesting\" or \"important\"",
       "Take a clear position that can be supported with evidence"],
      ["Ask yourself: What specific claim am I making?",
       "Consider: Can someone reasonably disagree with this?",
       "Ensure your thesis appears early (usually end of intro)",
       "Revise to make it more precise and focused"],
      ["Is my thesis specific rather than general?",
       "Does it make a claim that requires support?",
       "Can I preview how I will support this claim?",
       "Would a reader understand my essay's focus from this statement?"]),
    Lesson(
      "analysis-depth",
      "Deepening Your Analysis",
      "Analysis",
      ["Analysis goes beyond summary - it explains WHY and HOW",
       "Connect evidence back to your thesis",
       "Explore implications and significance",
       "Consider multiple interpretations"],
      ["After citing evidence, ask: \"What does this show?\" or \"Why does this matter?\"",
       "Use analytical verbs: suggests, reveals, demonstrates, implies",
       "Explain the connection between evidence and your claim",
       "Consider counterarguments and address them"],
      ["Do I explain the significance of my evidence?",
       "Have I moved beyond just describing what happens?",
       "Do I connect my analysis back to my thesis?",
       "Have I explored the \"so what?\" of my arguments?"]),
    Lesson(
      "structure-balance",
      "Balancing Essay Structure",
      "Structure",
      ["Each paragraph should have a clear focus (one main idea)",
       "Introduction sets up the argument, body develops it, conclusion synthesizes",
       "Transitions connect ideas between paragraphs",
       "Evidence should be distributed throughout, not front-loaded"],
      ["Start each body paragraph with a clear topic sentence",
       "Ensure each paragraph connects to your thesis",
       "Use transitional phrases to guide readers",
       "Balance the length and depth of body paragraphs"],
      ["Does each paragraph have a clear main point?",
       "Are my paragraphs connected logically?",
       "Is my introduction proportional to my essay length?",
       "Does my conclusion synthesize rather than just repeat?"]),
    Lesson(
      "evidence-use",
      "Using Evidence Effectively",
      "Evidence",
      ["Evidence should directly support your claims",
       "Integrate quotes smoothly into your prose",
       "Always analyze evidence - don't let it speak for itself",
       "Use a variety of evidence types when appropriate"],
      ["Introduce quotes with context",
       "Follow quotes with analysis, not another quote",
       "Use signal phrases to integrate sources",
       "Select the most relevant portions to quote"],
      ["Have I introduced each piece of evidence?",
       "Do I analyze evidence after presenting it?",
       "Is my evidence relevant to my specific claim?",
       "Have I cited sources appropriately?"]),
    Lesson(
      "transitions",
      "Improving Transitions and Flow",
      "Coherence",
      ["Transitions show relationships between ideas",
       "Good flow helps readers follow your logic",
       "Connections can be explicit (transition words) or implicit (content links)",
       "Vary your transitional strategies"],
      ["Use transition words: however, furthermore, consequently",
       "Link back to previous paragraph's main idea",
       "Use repetition of key terms strategically",
       "Ensure logical progression from one idea to the next"],
      ["Can readers follow my logic from paragraph to paragraph?",
       "Have I used transition words appropriately?",
       "Do my paragraphs build on each other?",
       "Is the relationship between ideas clear?"]),
    Lesson(
      "sentence-variety",
      "Increasing Sentence Variety",
      "Style",
      ["Vary sentence length to create rhythm",
       "Use different sentence structures",
       "Balance complex and simple sentences",
       "Avoid repetitive sentence openings"],
      ["Mix short, punchy sentences with longer, complex ones",
       "Start sentences in different ways (not always subject-verb)",
       "Use subordinate clauses for variety",
       "Read your work aloud to hear rhythm"],
      ["Do I have a mix of short and long sentences?",
       "Have I varied how I start sentences?",
       "Does my writing have rhythm and flow?",
       "Am I repeating the same sentence patterns?"])
  ]

  /** Every lesson has four principles, four strategies and four checklist items. */
  lemma LessonsWellFormed()
    ensures |Lessons| == 6
    ensures forall i :: 0 <= i < |Lessons| ==>
      |Lessons[i].principles| == 4 && |Lessons[i].strategies| == 4 && |Lessons[i].checklistItems| == 4
  {
  }

  /** No two lessons share an id, so a lookup by id is unambiguous. */
  lemma LessonIdsDistinct()
    ensures forall i, j :: 0 <= i < j < |Lessons| ==> Lessons[i].id != Lessons[j].id
  {
  }

  /** A query parameter is truthy when it is present and not the empty string. */
  predicate Truthy(p: Option<string>) {
    p.Some? && p.value != ""
  }

  /** `lessons.find(l => l.id === id)`: the first lesson with that id. */
  function FindLesson(ls: seq<Lesson>, id: string): (r: Option<Lesson>)
    ensures r.Some? <==> exists i :: 0 <= i < |ls| && ls[i].id == id
    ensures r.Some? ==> r.value in ls && r.value.id == id
  {
    if ls == [] then None
    else if ls[0].id == id then Some(ls[0])
    else
      var r := FindLesson(ls[1..], id);
      assert forall i :: 1 <= i < |ls| ==> ls[i] == ls[1..][i - 1];
      r
  }

  /** `lessons.filter(l => l.category === category)`: the lessons of the category, in table order. */
  function FilterCategory(ls: seq<Lesson>, category: string): (r: seq<Lesson>)
    ensures |r| <= |ls|
    ensures forall l :: l in r <==> l in ls && l.category == category
  {
    if ls == [] then []
    else (if ls[0].category == category then [ls[0]] else []) + FilterCategory(ls[1..], category)
  }

  /** Filtering keeps the table order: the result is a subsequence of the table. */
  lemma {:induction false} FilterCategoryOrdered(ls: seq<Lesson>, category: string)
    ensures Text.IsSubsequence(FilterCategory(ls, category), ls)
    decreases |ls|
  {
    if ls != [] {
      FilterCategoryOrdered(ls[1..], category);
      var rest := FilterCategory(ls[1..], category);
      var r := FilterCategory(ls, category);
      if ls[0].category == category {
        assert r == [ls[0]] + rest;
        assert r[0] == ls[0] && r[1..] == rest;
      } else {
        assert r == rest;
      }
      assert Text.IsSubsequence(r, ls);
    }
  }

  /**
   * `GET /api/lessons`: 500 when `auth()` throws, 401 without a signed-in user id, then the
   * lesson named by a truthy `id` (404 if there is none), else the lessons of a truthy
   * `category`, else every lesson. The route serves the table `Lessons`; it is a parameter
   * here so that the contract holds for any table.
   */
  function Get(table: seq<Lesson>, auth: AuthOutcome, id: Option<string>, category: Option<string>): (r: Response)
    ensures auth.AuthThrows? <==> r == Response(500, ErrorBody("Failed to fetch lessons"))
    ensures r.status == 401 <==> auth.Session? && !Truthy(auth.userId)
    ensures r.status == 401 ==> r.body == ErrorBody("Unauthorized")
    ensures r.status == 200 <==> auth.Session? && Truthy(auth.userId) && (Truthy(id) ==> FindLesson(table, id.value).Some?)
    ensures r.status == 404 <==> auth.Session? && Truthy(auth.userId) && Truthy(id) && FindLesson(table, id.value).None?
    ensures r.status == 404 ==> r.body == ErrorBody("Lesson not found")
    ensures r.status == 200 && Truthy(id) ==> r.body.OneLesson? && r.body.lesson in table && r.body.lesson.id == id.value
    ensures r.status == 200 && !Truthy(id) && Truthy(category) ==>
      r.body.LessonList? && forall l :: l in r.body.lessons <==> l in table && l.category == category.value
    ensures r.status == 200 && !Truthy(id) && Truthy(category) ==>
      r.body == LessonList(FilterCategory(table, category.value))
    ensures r.status == 200 && !Truthy(id) && !Truthy(category) ==> r.body == LessonList(table)
  {
    match auth
    case AuthThrows => Response(500, ErrorBody("Failed to fetch lessons"))
    case Session(userId) =>
      if !Truthy(userId) then Response(401, ErrorBody("Unauthorized"))
      else if Truthy(id) then
        match FindLesson(table, id.value)
        case None => Response(404, ErrorBody("Lesson not found"))
        case Some(lesson) => Response(200, OneLesson(lesson))
      else if Truthy(category) then Response(200, LessonList(FilterCategory(table, category.value)))
      else Response(200, LessonList(table))
  }

  /** No two lessons share a category either. */
  lemma LessonCategoriesDistinct()
    ensures forall i, j :: 0 <= i < j < |Lessons| ==> Lessons[i].category != Lessons[j].category
  {
  }
}
