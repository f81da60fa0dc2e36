/** tutorial.js: the detail page of one tutorial. The id comes from the query
    string or the fragment; the tutorial shown is the first with that id, else
    the first of the file; the fields go through fallback chains, the language
    name through a small normalisation table, and the run button appears only
    for JavaScript. */
module TutorialDetail {
  import opened Values
  import opened Text
  import opened Catalog

  const NoOutput := "(no output)"
  const NotFoundTitle := "Not found"
  const LoadFailedTitle := "Failed to load"
  const LoadFailedText := "Could not fetch tutorial data."

  // ---------------------------------------------------------------- selection

  /** `params.get('id') || location.hash.replace('#', '')`; a missing query
      parameter is `None`. */
  function ChooseId(idParam: Option<string>, hash: string): (id: string)
    ensures Truthy(idParam) ==> id == idParam.value
    ensures !Truthy(idParam) && '#' !in hash ==> id == hash
    ensures !Truthy(idParam) && '#' in hash ==>
      id == hash[..IndexOf(hash, '#')] + hash[IndexOf(hash, '#') + 1..]
  {
    Or(idParam, RemoveFirst(hash, '#'))
  }

  /** A fragment `#x` names `x`, whatever `x` holds, when the query has no id. */
  lemma {:induction false} FragmentNamesId(idParam: Option<string>, x: string)
    requires !Truthy(idParam)
    ensures ChooseId(idParam, "#" + x) == x
  {
    assert IndexOf("#" + x, '#') == 0;
    assert ("#" + x)[1..] == x;
  }

  /** `data.find(t => t.id === id)`, as the index of the first match. */
  function FindIndex(data: seq<Tutorial>, id: string): (r: Option<nat>)
    ensures r.Some? ==> r.value < |data| && data[r.value].id == id
                        && forall j :: 0 <= j < r.value ==> data[j].id != id
    ensures r.None? <==> forall j :: 0 <= j < |data| ==> data[j].id != id
    decreases |data|
  {
    if |data| == 0 then None
    else if data[0].id == id then Some(0)
    else match FindIndex(data[1..], id)
      case None => None
      case Some(k) => Some(k + 1)
  }

  /** `(id && data.find(...)) || data[0]`; `None` is the page's "Not found" case. */
  function Select(data: seq<Tutorial>, id: string): (r: Option<Tutorial>)
    ensures r.None? <==> |data| == 0
    ensures r.Some? ==> r.value in data
    ensures id != "" && (exists j :: 0 <= j < |data| && data[j].id == id) ==>
      r.Some? && r.value.id == id
    ensures (id == "" || forall j :: 0 <= j < |data| ==> data[j].id != id) && |data| > 0 ==>
      r == Some(data[0])
  {
    var found := if id == "" then None else FindIndex(data, id);
    if found.Some? then Some(data[found.value])
    else if |data| > 0 then Some(data[0])
    else None
  }

  /** With a non-empty id the earliest tutorial carrying it wins, even when
      later ones share the id. */
  lemma {:induction false} SelectFirstMatch(data: seq<Tutorial>, id: string, k: nat)
    requires id != "" && k < |data| && data[k].id == id
    requires forall j :: 0 <= j < k ==> data[j].id != id
    ensures Select(data, id) == Some(data[k])
  {
    var f := FindIndex(data, id);
    assert f.Some?;
    assert f.value == k;
  }

  // ---------------------------------------------------------------- fields

  function TitleText(t: Tutorial): string {
    Or(t.title, "")
  }

  /** `tutorial.description || tutorial.explanation || ''` */
  function ExplanationText(t: Tutorial): string {
    FirstTruthy([t.description, t.explanation])
  }

  /** `tutorial.code || tutorial.example || ''` */
  function CodeText(t: Tutorial): string {
    FirstTruthy([t.code, t.example])
  }

  /** `tutorial.language || (tutorial.tags && tutorial.tags[0]) || ''` */
  function LangTag(t: Tutorial): string {
    FirstTruthy([t.language, FirstTag(t)])
  }

  /** Each chain yields its first present, non-empty field, and is empty only
      when every field of the chain is missing or empty. */
  lemma {:induction false} FallbackChains(t: Tutorial)
    ensures ExplanationText(t) == (if Truthy(t.description) then t.description.value else Or(t.explanation, ""))
    ensures CodeText(t) == (if Truthy(t.code) then t.code.value else Or(t.example, ""))
    ensures LangTag(t) == "" <==> !Truthy(t.language) && !Truthy(FirstTag(t))
    ensures Truthy(t.language) ==> LangTag(t) == t.language.value
    ensures !Truthy(t.language) && t.tags.Some? && |t.tags.value| > 0 ==> LangTag(t) == t.tags.value[0]
  {
    FirstTruthyPair(t.description, t.explanation);
    FirstTruthyPair(t.code, t.example);
    FirstTruthyPair(t.language, FirstTag(t));
  }

  // ---------------------------------------------------------------- language

  /** The Prism language name: lower-cased, then `js`, `c++` and `html` are
      renamed; the checks for `markup`, `css`, `python` and `java` map those
      names to themselves. */
  function NormalizeLang(langTag: string): (r: string)
    ensures Lower(langTag) == "js" ==> r == "javascript"
    ensures Lower(langTag) == "c++" ==> r == "cpp"
    ensures Lower(langTag) == "html" ==> r == "markup"
    ensures Lower(langTag) != "js" && Lower(langTag) != "c++" && Lower(langTag) != "html" ==> r == Lower(langTag)
  {
    var l := Lower(langTag);
    var l := if l == "js" then "javascript" else l;
    var l := if l == "c++" then "cpp" else l;
    var l := if l == "html" || l == "markup" then "markup" else l;
    var l := if l == "css" then "css" else l;
    var l := if l == "python" then "python" else l;
    var l := if l == "java" then "java" else l;
    l
  }

  /** A normalised name is lower-case and never one of the renamed names, so
      normalising twice is normalising once. */
  lemma {:induction false} NormalizeLangIdempotent(langTag: string)
    ensures Lower(NormalizeLang(langTag)) == NormalizeLang(langTag)
    ensures NormalizeLang(NormalizeLang(langTag)) == NormalizeLang(langTag)
  {
    var l := Lower(langTag);
    LowerIdempotent(langTag);
    assert Lower("javascript") == "javascript";
    assert Lower("cpp") == "cpp";
    assert Lower("markup") == "markup";
  }

  /** The class the code element gets. */
  function LanguageClass(t: Tutorial): string {
    "language-" + NormalizeLang(LangTag(t))
  }

  // ---------------------------------------------------------------- run button

  /** The condition of tutorial.js, as written: the lower-cased language tag
      (before normalisation) contains or equals `javascript`, or the lower-cased
      title contains it. */
  predicate RunVisible(t: Tutorial) {
    var lang := Lower(LangTag(t));
    Contains(lang, "javascript") || lang == "javascript" || Contains(Lower(TitleText(t)), "javascript")
  }

  /** The equality test is subsumed by the containment test. */
  lemma {:induction false} RunVisibleIff(t: Tutorial)
    ensures RunVisible(t) <==>
      Contains(Lower(LangTag(t)), "javascript") || Contains(Lower(TitleText(t)), "javascript")
  {
    var lang := Lower(LangTag(t));
    if lang == "javascript" {
      assert OccursAt(lang, "javascript", 0);
    }
  }

  /** The run button looks at the tag before normalisation: a tutorial tagged
      `js` gets the JavaScript highlighting class but no run button unless its
      title mentions JavaScript. */
  lemma {:induction false} ShortTagNotRunnable(t: Tutorial)
    requires t.language == Some("js") && t.title.None?
    ensures LanguageClass(t) == "language-javascript"
    ensures !RunVisible(t)
  {
    FallbackChains(t);
    assert Lower("js") == "js";
    var lang := Lower(LangTag(t));
    assert |lang| == 2;
    TooShortToContain(lang, "javascript");
    TooShortToContain(Lower(TitleText(t)), "javascript");
  }

  lemma {:induction false} TooShortToContain(s: string, sub: string)
    requires |s| < |sub|
    ensures !Contains(s, sub) && s != sub
  {
  }

  // ---------------------------------------------------------------- output

  /** `setOutput`: a missing value shows the placeholder, anything else as is. */
  function SetOutput(text: Option<string>): (r: string)
    ensures text.None? ==> r == NoOutput
    ensures text.Some? ==> r == text.value
  {
    match text
    case None => NoOutput
    case Some(s) => s
  }

  const RunFailedPrefix := "Error running code: "

  /** What the user's code threw. The inner `catch` builds `'Error: ' + e.message`:
      an exception with a message shows it, a thrown value without one shows
      `undefined`, and a thrown `null` or `undefined` makes reading `message`
      itself throw a `TypeError`, whose message the outer `catch` shows. */
  datatype Thrown =
    | WithMessage(message: string)
    | WithoutMessage
    | Nullish(readError: string)

  /** The line the inner `catch` appends, for a value it can read. */
  function ErrorLine(e: Thrown): string
    requires !e.Nullish?
  {
    "Error: " + (if e.WithMessage? then e.message else "undefined")
  }

  /** What the run handler shows, given the lines the code logged and what it
      threw, if anything: the lines joined by newlines with the error line last,
      or the placeholder when there is nothing; a thrown `null` or `undefined`
      replaces everything with the outer `catch`'s message. */
  function RunOutput(logs: seq<string>, thrown: Option<Thrown>): (r: string)
    ensures |logs| == 0 && thrown.None? ==> r == NoOutput
    ensures |logs| > 0 && thrown.None? ==> r == Join(logs, "\n")
    ensures thrown.Some? && thrown.value.WithMessage? ==>
      r == (if |logs| > 0 then Join(logs, "\n") + "\n" else "") + "Error: " + thrown.value.message
    ensures thrown == Some(WithoutMessage) ==>
      r == (if |logs| > 0 then Join(logs, "\n") + "\n" else "") + "Error: undefined"
    ensures thrown.Some? && thrown.value.Nullish? ==> r == RunFailedPrefix + thrown.value.readError
    ensures thrown.Some? && thrown.value.WithMessage? ==>
      |r| >= |thrown.value.message| + 7 && r[|r| - |thrown.value.message| - 7..] == "Error: " + thrown.value.message
  {
    match thrown
    case None =>
      SetOutput(Some(if |logs| > 0 then Join(logs, "\n") else NoOutput))
    case Some(Nullish(msg)) =>
      SetOutput(Some(RunFailedPrefix + msg))
    case Some(e) =>
      var line := ErrorLine(e);
      JoinAppend(logs, line, "\n");
      SetOutput(Some(Join(logs + [line], "\n")))
  }

  /** A thrown `null` or `undefined` hides every logged line. */
  lemma NullishHidesLogs(logs: seq<string>, other: seq<string>, readError: string)
    ensures RunOutput(logs, Some(Nullish(readError))) == RunOutput(other, Some(Nullish(readError)))
    ensures forall i :: 0 <= i < |logs| && |logs[i]| > |RunFailedPrefix + readError| ==>
      !Contains(RunOutput(logs, Some(Nullish(readError))), logs[i])
  {
    forall i | 0 <= i < |logs| && |logs[i]| > |RunFailedPrefix + readError|
      ensures !Contains(RunOutput(logs, Some(Nullish(readError))), logs[i])
    {
      TooShortToContain(RunFailedPrefix + readError, logs[i]);
    }
  }

  /** Joining one more part adds the separator and that part at the end. */
  lemma {:induction false} JoinAppend(parts: seq<string>, last: string, sep: string)
    ensures |parts| == 0 ==> Join(parts + [last], sep) == last
    ensures |parts| > 0 ==> Join(parts + [last], sep) == Join(parts, sep) + sep + last
    decreases |parts|
  {
    if |parts| == 0 {
      assert parts + [last] == [last];
    } else if |parts| == 1 {
      assert parts + [last] == [parts[0], last];
      assert (parts + [last])[1..] == [last];
    } else {
      assert (parts + [last])[1..] == parts[1..] + [last];
      JoinAppend(parts[1..], last, sep);
    }
  }

  // ---------------------------------------------------------------- the page

  /** What the page shows once the data request settles. */
  datatype DetailView =
    | LoadFailed(title: string, explanation: string)
    | Missing(title: string, explanation: string, output: string)
    | Shown(title: string, explanation: string, codeClass: string, code: string, runVisible: bool)

  /** `init`: the failed request leaves the output area alone; an empty file
      gives "Not found"; otherwise the selected tutorial is shown. */
  function Open(idParam: Option<string>, hash: string, fetched: Result<seq<Tutorial>, string>): (v: DetailView)
    ensures v.LoadFailed? <==> fetched.Err?
    ensures v.LoadFailed? ==> v.title == LoadFailedTitle && v.explanation == LoadFailedText
    ensures v.Missing? <==> fetched.Ok? && |fetched.value| == 0
    ensures v.Missing? ==> v.title == NotFoundTitle && v.explanation == "" && v.output == NoOutput
    ensures v.Shown? <==> fetched.Ok? && |fetched.value| > 0
    ensures v.Shown? ==>
      var t := Select(fetched.value, ChooseId(idParam, hash)).value;
      && t in fetched.value
      && v.title == TitleText(t) && v.explanation == ExplanationText(t) && v.code == CodeText(t)
      && v.codeClass == LanguageClass(t) && v.runVisible == RunVisible(t)
  {
    match fetched
    case Err(_) => LoadFailed(LoadFailedTitle, LoadFailedText)
    case Ok(data) =>
      match Select(data, ChooseId(idParam, hash))
      case None => Missing(NotFoundTitle, "", SetOutput(None))
      case Some(t) => Shown(TitleText(t), ExplanationText(t), LanguageClass(t), CodeText(t), RunVisible(t))
  }

  /** Linking to `tutorial.html#x` with no query id opens the first tutorial
      whose id is `x`. */
  lemma {:induction false} OpenByFragment(data: seq<Tutorial>, x: string, k: nat)
    requires x != "" && k < |data| && data[k].id == x
    requires forall j :: 0 <= j < k ==> data[j].id != x
    ensures Open(None, "#" + x, Ok(data)) ==
      Shown(TitleText(data[k]), ExplanationText(data[k]), LanguageClass(data[k]), CodeText(data[k]), RunVisible(data[k]))
  {
    FragmentNamesId(None, x);
    SelectFirstMatch(data, x, k);
  }

  /** With no id in the query or the fragment, the page opens the first
      tutorial of the file, even when a later one has the empty id. */
  lemma {:induction false} OpenWithoutId(data: seq<Tutorial>, idParam: Option<string>, hash: string)
    requires |data| > 0 && ChooseId(idParam, hash) == ""
    ensures Open(idParam, hash, Ok(data)) ==
      Shown(TitleText(data[0]), ExplanationText(data[0]), LanguageClass(data[0]), CodeText(data[0]), RunVisible(data[0]))
  {
  }

  /** `tutorial.html?id=x` opens the first tutorial whose id is `x`, whatever
      the fragment says. */
  lemma {:induction false} OpenByQueryId(data: seq<Tutorial>, x: string, hash: string, k: nat)
    requires x != "" && k < |data| && data[k].id == x
    requires forall j :: 0 <= j < k ==> data[j].id != x
    ensures Open(Some(x), hash, Ok(data)) ==
      Shown(TitleText(data[k]), ExplanationText(data[k]), LanguageClass(data[k]), CodeText(data[k]), RunVisible(data[k]))
  {
    assert ChooseId(Some(x), hash) == x;
    SelectFirstMatch(data, x, k);
  }

  /** An id that no tutorial carries, or no id at all, opens the first tutorial
      of the file. */
  lemma {:induction false} OpenFallsBackToFirst(data: seq<Tutorial>, idParam: Option<string>, hash: string)
    requires |data| > 0
    requires forall j :: 0 <= j < |data| ==> data[j].id != ChooseId(idParam, hash)
    ensures Open(idParam, hash, Ok(data)) ==
      Shown(TitleText(data[0]), ExplanationText(data[0]), LanguageClass(data[0]), CodeText(data[0]), RunVisible(data[0]))
  {
  }
}
