/** main.js: the tutorial index page with its search box. The initial render
    and an empty query show the first six tutorials; any other query keeps the
    tutorials whose title, description or space-joined tags contain it. */
module TutorialSearch {
  import opened Values
  import opened Seqs
  import opened Text
  import opened Catalog
  import Html

  const InitialCount := 6
  const EmptyMessage := "No tutorials found."

  /** `filter` reads `title`, `description` and `tags` without fallbacks, so a
      missing one throws a TypeError — but only when evaluation reaches it. */
  datatype TypeError = MissingField(field: string)

  /** `(q || '').toLowerCase().trim()` */
  function NormalizeQuery(q: string): string {
    Trim(Lower(q))
  }

  /** Normalising a normalised query changes nothing. */
  lemma NormalizeIdempotent(q: string)
    ensures NormalizeQuery(NormalizeQuery(q)) == NormalizeQuery(q)
  {
    LowerTrimCommute(Lower(q));
    LowerIdempotent(q);
    TrimIdempotent(Lower(q));
  }

  /** A tutorial carrying all three fields the filter reads. */
  predicate Complete(t: Tutorial) {
    t.title.Some? && t.description.Some? && t.tags.Some?
  }

  /** The match relation on complete tutorials. */
  predicate Matching(t: Tutorial, q: string)
    requires Complete(t)
  {
    || Contains(Lower(t.title.value), q)
    || Contains(Lower(t.description.value), q)
    || Contains(Lower(Join(t.tags.value, " ")), q)
  }

  /** The filter callback, with JavaScript's left-to-right short circuit:
      a later field is dereferenced only if the earlier ones did not match. */
  function MatchesQuery(t: Tutorial, q: string): (r: Result<bool, TypeError>)
    ensures Complete(t) ==> r == Ok(Matching(t, q))
    ensures t.title.None? ==> r == Err(MissingField("title"))
    ensures r.Err? ==> !Complete(t)
  {
    if t.title.None? then Err(MissingField("title"))
    else if Contains(Lower(t.title.value), q) then Ok(true)
    else if t.description.None? then Err(MissingField("description"))
    else if Contains(Lower(t.description.value), q) then Ok(true)
    else if t.tags.None? then Err(MissingField("tags"))
    else Ok(Contains(Lower(Join(t.tags.value, " ")), q))
  }

  predicate Kept(t: Tutorial, q: string) {
    MatchesQuery(t, q) == Ok(true)
  }

  /** `tutorials.filter(...)`: the callback runs on every element in order and
      the first exception aborts the whole call. */
  function FilterByQuery(list: seq<Tutorial>, q: string): (r: Result<seq<Tutorial>, TypeError>)
    ensures r.Ok? <==> forall i :: 0 <= i < |list| ==> MatchesQuery(list[i], q).Ok?
    ensures r.Ok? ==> r.value == Keep(list, t => Kept(t, q))
    decreases |list|
  {
    if |list| == 0 then Ok([])
    else
      var front := FilterByQuery(list[..|list| - 1], q);
      var last := list[|list| - 1];
      assert list[..|list| - 1] + [last] == list;
      match front
      case Err(e) => Err(e)
      case Ok(kept) =>
        match MatchesQuery(last, q)
        case Err(e) => Err(e)
        case Ok(b) => Ok(if b then kept + [last] else kept)
  }

  /** `filter(q)` up to the call to `render`: an empty query yields the default
      prefix, anything else the query filter. */
  function Search(list: seq<Tutorial>, q: string): (r: Result<seq<Tutorial>, TypeError>)
    ensures NormalizeQuery(q) == "" ==> r == Ok(Take(list, InitialCount))
    ensures NormalizeQuery(q) != "" ==> r == FilterByQuery(list, NormalizeQuery(q))
  {
    var nq := NormalizeQuery(q);
    if nq == "" then Ok(Take(list, InitialCount)) else FilterByQuery(list, nq)
  }

  /** An empty or blank query shows the first min(6, n) tutorials, in order. */
  lemma SearchBlankQuery(list: seq<Tutorial>, q: string)
    requires Trim(q) == ""
    ensures Search(list, q) == Ok(list[..if |list| < InitialCount then |list| else InitialCount])
  {
    LowerTrimCommute(q);
    assert Lower(Trim(q)) == "";
    assert NormalizeQuery(q) == "";
    assert list[..|list|] == list;
  }

  /** Any other query, when no field is missing, shows exactly the matching
      tutorials, in input order, each as often as the list holds it. */
  lemma SearchNonBlankQuery(list: seq<Tutorial>, q: string)
    requires NormalizeQuery(q) != ""
    requires forall i :: 0 <= i < |list| ==> Complete(list[i])
    ensures Search(list, q).Ok?
    ensures IsSubsequence(Search(list, q).value, list)
    ensures forall i :: 0 <= i < |Search(list, q).value| ==>
      Complete(Search(list, q).value[i]) && Matching(Search(list, q).value[i], NormalizeQuery(q))
    ensures forall i :: 0 <= i < |list| && Matching(list[i], NormalizeQuery(q)) ==> list[i] in Search(list, q).value
    ensures forall t :: t in list ==>
      multiset(Search(list, q).value)[t] == if Matching(t, NormalizeQuery(q)) then multiset(list)[t] else 0
  {
    var nq := NormalizeQuery(q);
    KeepCounts(list, t => Kept(t, nq));
    assert forall i :: 0 <= i < |list| ==> MatchesQuery(list[i], nq).Ok?;
    var r := Search(list, q).value;
    assert r == Keep(list, t => Kept(t, nq));
    SubsequenceMembers(r, list);
    forall i | 0 <= i < |r|
      ensures Complete(r[i]) && Matching(r[i], nq)
    {
      assert r[i] in r;
    }
  }

  /** The filter ignores the case of the query and the white space around it. */
  lemma SearchIgnoresCaseAndPadding(list: seq<Tutorial>, q: string)
    ensures Search(list, q) == Search(list, NormalizeQuery(q))
  {
    NormalizeIdempotent(q);
  }

  /** A query `html` finds a tutorial titled `HTML Basics`: case is ignored. */
  lemma SearchIsCaseInsensitive(t: Tutorial)
    requires t.title == Some("HTML Basics")
    ensures Kept(t, "html")
  {
    assert OccursAt(Lower("HTML Basics"), "html", 0);
  }

  // ---------------------------------------------------------------- rendering

  /** One rendered card of `render`. Only `code` is escaped; `title`,
      `description` and `tags` are inserted as markup verbatim. */
  datatype Card = Card(meta: string, title: string, description: string, tags: seq<string>, code: string)

  datatype ListView = NoResults(message: string) | Cards(cards: seq<Card>) | LoadFailed(message: string)

  /** `t.tags || (t.language ? [t.language] : [])` */
  function CardTags(t: Tutorial): (r: seq<string>)
    ensures t.tags.Some? ==> r == t.tags.value
    ensures t.tags.None? && Truthy(t.language) ==> r == [t.language.value]
    ensures t.tags.None? && !Truthy(t.language) ==> r == []
  {
    if t.tags.Some? then t.tags.value else if Truthy(t.language) then [t.language.value] else []
  }

  function RenderCard(t: Tutorial): (r: Card)
    ensures r.tags == CardTags(t)
    ensures r.title == Or(t.title, "")
    ensures r.description == Or(t.description, Or(t.explanation, ""))
    ensures r.code == Html.EscapeHtml(Some(Or(t.code, Or(t.example, ""))))
    ensures r.meta == Or(t.level, "") + (if |r.tags| > 0 then " • " + Join(r.tags, ", ") else "")
  {
    var tags := CardTags(t);
    Card(Or(t.level, "") + (if |tags| > 0 then " • " + Join(tags, ", ") else ""),
         Or(t.title, ""), Or(t.description, Or(t.explanation, "")), tags,
         Html.EscapeHtml(Some(Or(t.code, Or(t.example, "")))))
  }

  /** `render(list)` */
  function Render(list: seq<Tutorial>): (r: ListView)
    ensures |list| == 0 <==> r == NoResults(EmptyMessage)
    ensures |list| > 0 ==> r.Cards? && |r.cards| == |list|
    ensures |list| > 0 ==> forall i :: 0 <= i < |list| ==> r.cards[i] == RenderCard(list[i])
  {
    if |list| == 0 then NoResults(EmptyMessage)
    else Cards(seq(|list|, i requires 0 <= i < |list| => RenderCard(list[i])))
  }

  /** Rendered cards never carry an angle bracket in their code block, while
      title and description may carry markup unchanged. */
  lemma RenderEscapesOnlyCode(t: Tutorial)
    ensures forall i :: 0 <= i < |RenderCard(t).code| ==> RenderCard(t).code[i] !in "<>"
    ensures t.title == Some("<b>") ==> RenderCard(t).title == "<b>"
  {
    Html.EscapeHtmlContract(Some(Or(t.code, Or(t.example, ""))));
  }

  /** `load()`: after the fetch, the first six tutorials; on failure, the fixed message. */
  function InitialView(fetched: Result<seq<Tutorial>, string>): (r: ListView)
    ensures fetched.Err? ==> r == LoadFailed(LoadFailedMessage)
    ensures fetched.Ok? && |fetched.value| == 0 ==> r == NoResults(EmptyMessage)
    ensures fetched.Ok? && |fetched.value| > 0 ==>
      r.Cards? && |r.cards| == (if |fetched.value| < InitialCount then |fetched.value| else InitialCount)
    ensures fetched.Ok? && |fetched.value| > 0 ==>
      r.Cards? && forall i :: 0 <= i < |r.cards| ==> r.cards[i] == RenderCard(fetched.value[i])
  {
    match fetched
    case Err(_) => LoadFailed(LoadFailedMessage)
    case Ok(data) => Render(Take(data, InitialCount))
  }

  /** The page as first loaded is the page an empty search box shows, whatever
      was shown before. */
  lemma InitialViewIsEmptySearch(data: seq<Tutorial>, shown: ListView)
    ensures InitialView(Ok(data)) == OnInput(shown, data, "")
  {
    assert NormalizeQuery("") == "";
  }

  /** The search box's input handler: render the search result; when the
      filter throws, `render` is never reached and the list stays as it was. */
  function OnInput(shown: ListView, tutorials: seq<Tutorial>, q: string): (r: ListView)
    ensures Search(tutorials, q).Ok? ==> r == Render(Search(tutorials, q).value)
    ensures Search(tutorials, q).Err? ==> r == shown
  {
    match Search(tutorials, q)
    case Ok(found) => Render(found)
    case Err(_) => shown
  }
}
