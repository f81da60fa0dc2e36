/** course-loader.js: the lesson viewer. It resolves the requested lesson,
    renders the sidebar, the previous/next links and the completion toggle, and
    keeps the per-course set of completed lessons in the browser's store. */
module CourseLoader {
  import opened Values
  import opened Seqs
  import Storage

  datatype Lesson = Lesson(id: string, title: Option<string>, content: Option<string>)

  /** A course file: `{ title, overview?, lessons: [...] }`, every field optional. */
  datatype Course = Course(title: Option<string>, overview: Option<string>, lessons: Option<seq<Lesson>>)

  /** A link to a lesson page; `encodeURIComponent` of both parts is left abstract. */
  datatype LessonHref = LessonHref(course: string, lesson: string)

  datatype NavLink = Hidden | Visible(href: LessonHref)

  datatype Nav = Nav(prev: NavLink, next: NavLink)

  /** One sidebar entry: its link, its text and the two class markers. */
  datatype Entry = Entry(href: LessonHref, text: string, active: bool, completed: bool)

  /** The completion toggle button: its text and its `aria-pressed` value. */
  datatype ToggleLabel = ToggleLabel(text: string, pressed: bool)

  /** What the stored entry parses to: a JSON array of ids, or anything that
      makes `JSON.parse` or `new Set` throw (or is the empty string). */
  datatype StoredIds = IdArray(ids: seq<string>) | Unreadable

  const DefaultCourse := "html"
  const Placeholder := Lesson("", Some(""), Some(""))
  const NoContent := "<p>(no content)</p>"
  const LoadFailedTitle := "Failed to load course"

  // ---------------------------------------------------------------- parameters

  /** `params.get('course') || 'html'` */
  function CourseIdOf(param: Option<string>): (r: string)
    ensures r != ""
    ensures Truthy(param) ==> r == param.value
    ensures !Truthy(param) ==> r == DefaultCourse
  {
    Or(param, DefaultCourse)
  }

  /** The store key for a course's completed set. */
  function StorageKey(courseId: string): string {
    "completed:" + courseId
  }

  /** Different courses never share a completion key. */
  lemma StorageKeyInjective(a: string, b: string)
    ensures StorageKey(a) == StorageKey(b) <==> a == b
  {
    if StorageKey(a) == StorageKey(b) {
      assert a == StorageKey(a)[10..];
    }
  }

  // ---------------------------------------------------------------- selection

  /** `lessons.findIndex(l => l.id === id)`, where a null id matches nothing. */
  function FindIndex(lessons: seq<Lesson>, id: Option<string>): (r: int)
    ensures -1 <= r < |lessons|
    ensures r >= 0 ==> id == Some(lessons[r].id) && forall j :: 0 <= j < r ==> Some(lessons[j].id) != id
    ensures r == -1 ==> forall j :: 0 <= j < |lessons| ==> Some(lessons[j].id) != id
    decreases |lessons|
  {
    if |lessons| == 0 then -1
    else if Some(lessons[0].id) == id then 0
    else
      var k := FindIndex(lessons[1..], id);
      if k < 0 then -1 else k + 1
  }

  /** The index of the lesson shown, from the `lesson` query parameter: a
      missing or empty parameter first becomes the first lesson's id, then the
      first lesson with that id is looked up, and a miss falls back to 0. */
  function ResolveIndex(lessons: seq<Lesson>, lessonParam: Option<string>): (r: nat)
    ensures |lessons| > 0 ==> r < |lessons|
    ensures |lessons| == 0 ==> r == 0
    ensures !Truthy(lessonParam) ==> r == 0
    ensures (forall j :: 0 <= j < |lessons| ==> Some(lessons[j].id) != lessonParam) ==> r == 0
    ensures Truthy(lessonParam) && (exists j :: 0 <= j < |lessons| && Some(lessons[j].id) == lessonParam) ==>
      lessons[r].id == lessonParam.value && forall j :: 0 <= j < r ==> lessons[j].id != lessonParam.value
  {
    var requested := if Truthy(lessonParam) then lessonParam else None;
    var lessonId := if requested.None? && |lessons| > 0 then Some(lessons[0].id) else requested;
    var idx := FindIndex(lessons, lessonId);
    if idx < 0 then 0 else idx
  }

  /** `lessons[index] || { id: '', title: '', content: '' }` */
  function CurrentLesson(lessons: seq<Lesson>, index: nat): (r: Lesson)
    ensures index < |lessons| ==> r == lessons[index]
    ensures index >= |lessons| ==> r == Placeholder
  {
    if index < |lessons| then lessons[index] else Placeholder
  }

  /** `updatePrevNext`: a link is shown only when the neighbouring lesson exists. */
  function PrevNext(courseId: string, lessons: seq<Lesson>, index: nat): (r: Nav)
    requires index <= |lessons|
    ensures r.prev.Visible? <==> index > 0
    ensures r.prev.Visible? ==> r.prev.href == LessonHref(courseId, lessons[index - 1].id)
    ensures r.next.Visible? <==> index + 1 < |lessons|
    ensures r.next.Visible? ==> r.next.href == LessonHref(courseId, lessons[index + 1].id)
  {
    var prev := if index > 0 then Visible(LessonHref(courseId, lessons[index - 1].id)) else Hidden;
    var next := if index < |lessons| - 1 then Visible(LessonHref(courseId, lessons[index + 1].id)) else Hidden;
    Nav(prev, next)
  }

  /** Navigation from an unresolved request: in bounds for any request, and a
      course of at most one lesson shows neither link. */
  lemma NavigationFromRequest(courseId: string, lessons: seq<Lesson>, lessonParam: Option<string>)
    ensures ResolveIndex(lessons, lessonParam) <= |lessons|
    ensures |lessons| <= 1 ==> PrevNext(courseId, lessons, ResolveIndex(lessons, lessonParam)) == Nav(Hidden, Hidden)
    ensures |lessons| == 0 ==> CurrentLesson(lessons, ResolveIndex(lessons, lessonParam)) == Placeholder
  {
  }

  // ---------------------------------------------------------------- completion

  /** `Set.prototype.delete` on a duplicate-free sequence. */
  function Remove(s: seq<string>, x: string): (r: seq<string>)
    ensures forall y :: y in r <==> y in s && y != x
    ensures Distinct(s) ==> Distinct(r)
    ensures x !in s ==> r == s
    decreases |s|
  {
    if |s| == 0 then []
    else
      var rest := Remove(s[1..], x);
      if s[0] == x then rest
      else
        assert s == [s[0]] + s[1..];
        assert Distinct(s) ==> s[0] !in s[1..] && Distinct(s[1..]);
        assert Distinct(s) ==> s[0] !in rest;
        [s[0]] + rest
  }

  /** The click handler's update of the completed set (a JS `Set`, which keeps
      insertion order): delete the id if present, otherwise append it. */
  function Toggle(completed: seq<string>, id: string): (r: seq<string>)
    requires Distinct(completed)
    ensures Distinct(r)
    ensures id in r <==> id !in completed
    ensures forall x :: x != id ==> (x in r <==> x in completed)
  {
    if id in completed then Remove(completed, id) else completed + [id]
  }

  /** Toggling twice restores membership; when the id was absent the sequence is
      restored exactly, and when present it comes back at the end. */
  lemma {:induction false} ToggleTwice(completed: seq<string>, id: string)
    requires Distinct(completed)
    ensures forall x :: x in Toggle(Toggle(completed, id), id) <==> x in completed
    ensures id !in completed ==> Toggle(Toggle(completed, id), id) == completed
    ensures id in completed ==> Toggle(Toggle(completed, id), id) == Remove(completed, id) + [id]
  {
    if id !in completed {
      RemoveLast(completed, id);
    }
  }

  lemma {:induction false} RemoveLast(s: seq<string>, x: string)
    requires x !in s
    ensures Remove(s + [x], x) == s
    decreases |s|
  {
    if |s| == 0 {
      assert s + [x] == [x];
    } else {
      assert (s + [x])[1..] == s[1..] + [x];
      RemoveLast(s[1..], x);
      assert s == [s[0]] + s[1..];
    }
  }

  /** `refresh()`: the button's text and pressed state. */
  function LabelFor(completed: seq<string>, id: string): (r: ToggleLabel)
    ensures r.pressed <==> id in completed
    ensures r.text == "Completed" <==> id in completed
    ensures r.text == "Mark complete" <==> id !in completed
  {
    var done := id in completed;
    ToggleLabel(if done then "Completed" else "Mark complete", done)
  }

  /** A click flips the label and the pressed state. */
  lemma ToggleFlipsLabel(completed: seq<string>, id: string)
    requires Distinct(completed)
    ensures LabelFor(Toggle(completed, id), id).pressed == !LabelFor(completed, id).pressed
    ensures LabelFor(Toggle(completed, id), id).text != LabelFor(completed, id).text
  {
  }

  // ---------------------------------------------------------------- sidebar

  /** `renderLessonList`: one entry per lesson, in order. */
  function Sidebar(courseId: string, lessons: seq<Lesson>, currentId: string, completed: seq<string>): (r: seq<Entry>)
    ensures |r| == |lessons|
    ensures forall i :: 0 <= i < |r| ==>
      && r[i].href == LessonHref(courseId, lessons[i].id)
      && r[i].text == Or(lessons[i].title, "")
      && (r[i].active <==> lessons[i].id == currentId)
      && (r[i].completed <==> lessons[i].id in completed)
  {
    seq(|lessons|, i requires 0 <= i < |lessons| =>
      Entry(LessonHref(courseId, lessons[i].id), Or(lessons[i].title, ""),
            lessons[i].id == currentId, lessons[i].id in completed))
  }

  /** With distinct ids, the sidebar marks exactly the resolved lesson active. */
  lemma SidebarMarksOneActive(courseId: string, lessons: seq<Lesson>, lessonParam: Option<string>, completed: seq<string>)
    requires |lessons| > 0
    requires forall i, j :: 0 <= i < j < |lessons| ==> lessons[i].id != lessons[j].id
    ensures var k := ResolveIndex(lessons, lessonParam);
            var bar := Sidebar(courseId, lessons, CurrentLesson(lessons, k).id, completed);
            forall i :: 0 <= i < |bar| ==> (bar[i].active <==> i == k)
  {
  }

  /** Re-rendering the sidebar after a toggle changes only the `completed`
      marker, and only on entries carrying the toggled id. */
  lemma SidebarAfterToggle(courseId: string, lessons: seq<Lesson>, currentId: string, completed: seq<string>)
    requires Distinct(completed)
    ensures var before := Sidebar(courseId, lessons, currentId, completed);
            var after := Sidebar(courseId, lessons, currentId, Toggle(completed, currentId));
            |after| == |before| &&
            forall i :: 0 <= i < |before| ==>
              && after[i].href == before[i].href
              && after[i].text == before[i].text
              && after[i].active == before[i].active
              && (after[i].completed == before[i].completed <==> lessons[i].id != currentId)
  {
  }

  // ---------------------------------------------------------------- persistence

  /** `new Set(array)`: first occurrences, in order. */
  function Dedupe(xs: seq<string>): (r: seq<string>)
    ensures Distinct(r)
    ensures forall x :: x in r <==> x in xs
    decreases |xs|
  {
    if |xs| == 0 then []
    else
      var d := Dedupe(xs[..|xs| - 1]);
      var last := xs[|xs| - 1];
      assert xs == xs[..|xs| - 1] + [last];
      if last in d then d else d + [last]
  }

  /** The set lists its members in the order of their first occurrence in the array. */
  lemma {:induction false} DedupeFirstOccurrenceOrder(xs: seq<string>)
    ensures forall i, j :: 0 <= i < j < |Dedupe(xs)| ==>
      FirstIndex(xs, Dedupe(xs)[i]) < FirstIndex(xs, Dedupe(xs)[j])
    decreases |xs|
  {
    if |xs| > 0 {
      var init, last := xs[..|xs| - 1], xs[|xs| - 1];
      assert xs == init + [last];
      DedupeFirstOccurrenceOrder(init);
      var d, r := Dedupe(init), Dedupe(xs);
      forall i, j | 0 <= i < j < |r|
        ensures FirstIndex(xs, r[i]) < FirstIndex(xs, r[j])
      {
        assert r[i] in d;
        FirstIndexSnoc(init, last, r[i]);
        FirstIndexSnoc(init, last, r[j]);
        if j < |d| {
          assert r[j] in d;
          assert FirstIndex(init, d[i]) < FirstIndex(init, d[j]);
        } else {
          assert r[j] == last && last !in init;
        }
      }
    }
  }

  lemma {:induction false} DedupeDistinct(xs: seq<string>)
    requires Distinct(xs)
    ensures Dedupe(xs) == xs
    decreases |xs|
  {
    if |xs| > 0 {
      DedupeDistinct(xs[..|xs| - 1]);
      assert xs == xs[..|xs| - 1] + [xs[|xs| - 1]];
    }
  }

  /** `loadCompleted`: any failure — the store throwing, no entry, an entry that
      does not parse to an array — reads as the empty set. */
  function LoadCompleted(store: Storage.Store<StoredIds>, key: string): (r: seq<string>)
    ensures Distinct(r)
    ensures store.Unavailable? ==> r == []
    ensures store.Available? && key !in store.entries ==> r == []
    ensures store.Available? && key in store.entries ==>
      match store.entries[key]
      case IdArray(ids) => forall x :: x in r <==> x in ids
      case Unreadable => r == []
  {
    var got := Storage.Get(store, key);
    if got.Err? || got.value.None? then []
    else match got.value.value
      case Unreadable => []
      case IdArray(ids) => Dedupe(ids)
  }

  /** `saveCompleted`: writes the ids in set order; a throwing store is left as it was. */
  function SaveCompleted(store: Storage.Store<StoredIds>, key: string, completed: seq<string>): (r: Storage.Store<StoredIds>)
    ensures store.Unavailable? ==> r == store
    ensures store.Available? ==> r == Storage.Available(store.entries[key := IdArray(completed)])
  {
    match Storage.Put(store, key, IdArray(completed))
    case Err(_) => store
    case Ok(s) => s
  }

  /** Saving then loading gives the same set back, and leaves every other
      course's entry alone; with a throwing store the load sees nothing. */
  lemma SaveLoadRoundTrip(store: Storage.Store<StoredIds>, key: string, other: string, completed: seq<string>)
    requires Distinct(completed)
    ensures store.Available? ==> LoadCompleted(SaveCompleted(store, key, completed), key) == completed
    ensures store.Unavailable? ==> LoadCompleted(SaveCompleted(store, key, completed), key) == []
    ensures other != key ==> LoadCompleted(SaveCompleted(store, key, completed), other) == LoadCompleted(store, other)
  {
    DedupeDistinct(completed);
  }

  // ---------------------------------------------------------------- page

  /** The lesson page after loading: the course header, the lesson shown, and
      the interactive state the toggle handler closes over. */
  datatype LessonPage = LessonPage(
    courseId: string,
    lessons: seq<Lesson>,
    currentId: string,
    completed: seq<string>,
    store: Storage.Store<StoredIds>,
    sidebar: seq<Entry>,
    button: ToggleLabel)

  datatype CourseView =
    | LoadFailed(title: string, body: string)
    | Opened(courseTitle: string, overview: string, lessonTitle: string, lessonBody: string, nav: Nav, page: LessonPage)

  /** The fetch handler: render everything from the loaded course, or the fixed
      failure title with the error message when fetching or parsing failed. */
  function OpenCourse(courseParam: Option<string>, lessonParam: Option<string>,
                      fetched: Result<Course, string>, store: Storage.Store<StoredIds>): (r: CourseView)
    ensures fetched.Err? ==> r == LoadFailed(LoadFailedTitle, fetched.error)
    ensures fetched.Ok? ==> r.Opened? && Consistent(r.page)
    ensures fetched.Ok? ==>
      var lessons := if fetched.value.lessons.Some? then fetched.value.lessons.value else [];
      var k := ResolveIndex(lessons, lessonParam);
      && r.courseTitle == Or(fetched.value.title, CourseIdOf(courseParam))
      && r.overview == Or(fetched.value.overview, "")
      && r.page.courseId == CourseIdOf(courseParam)
      && r.page.store == store
      && r.page.lessons == lessons
      && r.page.currentId == CurrentLesson(lessons, k).id
      && r.lessonTitle == Or(CurrentLesson(lessons, k).title, "")
      && r.lessonBody == Or(CurrentLesson(lessons, k).content, NoContent)
      && r.nav == PrevNext(CourseIdOf(courseParam), lessons, k)
      && r.page.completed == LoadCompleted(store, StorageKey(CourseIdOf(courseParam)))
  {
    match fetched
    case Err(msg) => LoadFailed(LoadFailedTitle, msg)
    case Ok(course) =>
      var courseId := CourseIdOf(courseParam);
      var lessons := if course.lessons.Some? then course.lessons.value else [];
      var k := ResolveIndex(lessons, lessonParam);
      var current := CurrentLesson(lessons, k);
      var completed := LoadCompleted(store, StorageKey(courseId));
      var page := LessonPage(courseId, lessons, current.id, completed, store,
                             Sidebar(courseId, lessons, current.id, completed),
                             LabelFor(completed, current.id));
      Opened(Or(course.title, courseId), Or(course.overview, ""),
             Or(current.title, ""), Or(current.content, NoContent),
             PrevNext(courseId, lessons, k), page)
  }

  /** The sidebar and the toggle label show the completed set the page holds. */
  predicate Consistent(p: LessonPage) {
    && Distinct(p.completed)
    && p.sidebar == Sidebar(p.courseId, p.lessons, p.currentId, p.completed)
    && p.button == LabelFor(p.completed, p.currentId)
  }

  /** The toggle button's click handler: update the set, save it, refresh the
      label and re-render the sidebar. */
  function ClickToggle(p: LessonPage): (r: LessonPage)
    requires Distinct(p.completed)
    ensures Consistent(r)
    ensures r.completed == Toggle(p.completed, p.currentId)
    ensures r.button.pressed == (p.currentId !in p.completed)
    ensures r.store.Available? <==> p.store.Available?
    ensures r.store.Available? ==> LoadCompleted(r.store, StorageKey(p.courseId)) == r.completed
    ensures r.courseId == p.courseId && r.lessons == p.lessons && r.currentId == p.currentId
  {
    var completed := Toggle(p.completed, p.currentId);
    var store := SaveCompleted(p.store, StorageKey(p.courseId), completed);
    SaveLoadRoundTrip(p.store, StorageKey(p.courseId), StorageKey(p.courseId), completed);
    p.(completed := completed, store := store,
       sidebar := Sidebar(p.courseId, p.lessons, p.currentId, completed),
       button := LabelFor(completed, p.currentId))
  }

  /** Open a course, click the toggle, reload the page: the reloaded page shows
      the completion the click left; any other course opens as it did before. */
  lemma OpenClickReload(courseParam: Option<string>, lessonParam: Option<string>, course: Course,
                        store: Storage.Store<StoredIds>, otherParam: Option<string>, otherLesson: Option<string>)
    requires store.Available?
    ensures var c := ClickToggle(OpenCourse(courseParam, lessonParam, Ok(course), store).page);
            && OpenCourse(courseParam, lessonParam, Ok(course), c.store).page.completed == c.completed
            && (CourseIdOf(otherParam) != CourseIdOf(courseParam) ==>
                OpenCourse(otherParam, otherLesson, Ok(course), c.store).page.completed
                == OpenCourse(otherParam, otherLesson, Ok(course), store).page.completed)
  {
    var p := OpenCourse(courseParam, lessonParam, Ok(course), store).page;
    var c := ClickToggle(p);
    var key := StorageKey(CourseIdOf(courseParam));
    StorageKeyInjective(CourseIdOf(otherParam), CourseIdOf(courseParam));
    SaveLoadRoundTrip(store, key, StorageKey(CourseIdOf(otherParam)), c.completed);
  }

  /** Two clicks bring the page back to the same completion membership, label and markers. */
  lemma ClickTwice(p: LessonPage)
    requires Consistent(p)
    ensures var q := ClickToggle(ClickToggle(p));
            && (forall x :: x in q.completed <==> x in p.completed)
            && q.button == p.button
            && q.sidebar == p.sidebar
  {
    ToggleTwice(p.completed, p.currentId);
    var q := ClickToggle(ClickToggle(p));
    assert forall i :: 0 <= i < |q.sidebar| ==> q.sidebar[i] == p.sidebar[i];
  }
}
