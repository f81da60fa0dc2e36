# Tutorial site scripts, modelled in Dafny

This project models the page scripts of a static tutorial site:

- **Index page** (`main.js`): lists the tutorials with a search box. The first six are shown at load time. A query keeps the tutorials whose title, description or tags contain it, ignoring case and surrounding white space.
- **Tutorials-by-language page** (`tutorials.js`): groups the tutorials under the first language of a fixed priority list that their tags or language field mention, or under `Other`. The sections are emitted in sorted label order.
- **Tutorial detail page** (`tutorial.js`): picks a tutorial by query id or fragment, falling back to the first one. It fills the title, explanation and code through fallback chains, normalises the language name for the highlighter, and shows a run button for JavaScript.
- **Lesson page** (`course-loader.js`): resolves the requested lesson and renders the sidebar, the previous/next links and a "completed" toggle. The set of completed lessons is kept per course in the browser's store.
- **Table of contents** (`course-toc.js`): keeps the TOC entry of the section under a 96-pixel offset marked as active. Scroll work is throttled to one pending animation frame, and a plain click marks an entry at once.
- **Dark-mode switch** (`dark-mode.js`, and its copy at the end of `main.js`): toggles a body class, labels the button and remembers the choice under `site-theme`.

Each script is one module:

- `CourseLoader`, `TutorialSearch`, `TutorialGroups`, `TutorialDetail`, `CourseToc` and `Theme`.
- Shared helpers: `Values` (optional fields and JavaScript's `||` on strings), `Seqs`, `Text` (ASCII lower-casing, `trim`, `includes`, `join`, replacement), `Html` (the `escapeHtml` function the three page scripts define identically) and `Storage` (the browser store, which is either usable or throws on every access).
- `Catalog` holds the tutorial record.

Inputs the scripts read from the browser are parameters of the model functions:

- query parameters and the fragment;
- fetched JSON, as a `Result` whose error is a failed request or parse;
- storage contents;
- element positions;
- the lines a user program logs.

DOM output is modelled as values, e.g. cards, sidebar entries, link marks and button labels.

JavaScript's notion of a falsy string field appears throughout as `Truthy`: a field counts only when it is present and non-empty. A JavaScript `Set` is modelled as a duplicate-free sequence in insertion order. Exceptions that escape a handler are modelled as `Err` results or explicit outcomes.

## Model

| member | source | states |
|---|---|---|
| Values.FirstTruthy | js/tutorial.js:39-42 | an `a \|\| b \|\| ''` chain yields the first present non-empty field, and is empty exactly when every field is missing or empty |
| Text.Trim | js/main.js:47 | the trimmed query neither starts nor ends with white space |
| Text.TrimCutsOnlySpace | js/main.js:47 | trimming removes only white space, and only at the two ends: the result is a contiguous slice of the input |
| Text.LowerTrimCommute | js/main.js:47 | lower-casing then trimming equals trimming then lower-casing |
| Text.RemoveFirst | js/tutorial.js:26 | `replace('#','')` removes only the first `#`, if any, and keeps everything else |
| Html.EscapeHtmlContract | js/main.js:30-32 | escaped text contains no angle bracket; a missing or empty value gives the empty string; escaping is per character |
| Html.EscapeHtmlPerCharacter | js/tutorial.js:1-3 | the three sequential global replacements equal a character-by-character escaping, because `&` goes first |
| Html.EscapeRoundTrip | js/tutorials.js:3-5 | decoding `&lt;`, `&gt;`, then `&amp;` recovers the original text: escaping loses nothing |
| CourseLoader.CourseIdOf | js/course-loader.js:25 | the course id is the `course` parameter when it is non-empty, else `html`; it is never empty |
| CourseLoader.StorageKeyInjective | js/course-loader.js:29 | two courses share a completion key only if they are the same course |
| CourseLoader.FindIndex | js/course-loader.js:133 | `findIndex` returns the first lesson with the requested id, or -1 exactly when none has it |
| CourseLoader.ResolveIndex | js/course-loader.js:130-134 | the lesson shown is the first with the requested id; a missing parameter or unknown id gives index 0; the index is in range for a non-empty course |
| CourseLoader.CurrentLesson | js/course-loader.js:135 | an out-of-range index gives the empty placeholder lesson |
| CourseLoader.PrevNext | js/course-loader.js:75-88 | the previous link is shown iff there is an earlier lesson and the next link iff there is a later one; each points at that neighbour |
| CourseLoader.NavigationFromRequest | js/course-loader.js:130-143 | for any request, the resolved index is in bounds; a course of at most one lesson shows neither link; an empty course shows the placeholder |
| CourseLoader.Remove | js/course-loader.js:106 | deleting an id keeps every other member, keeps duplicate-freedom and is a no-op when the id is absent |
| CourseLoader.Toggle | js/course-loader.js:105-108 | a click flips the membership of the current id and leaves every other id's membership alone |
| CourseLoader.ToggleTwice | js/course-loader.js:105-108 | toggling twice restores membership; an id that was absent leaves the sequence exactly as before; a present id returns at the end |
| CourseLoader.LabelFor | js/course-loader.js:100-104 | the toggle reads `Completed` and is pressed exactly when the lesson is in the completed set, else `Mark complete` |
| CourseLoader.ToggleFlipsLabel | js/course-loader.js:105-109 | each click flips both the pressed state and the text of the toggle |
| CourseLoader.Sidebar | js/course-loader.js:52-65 | one entry per lesson in order, linking to it, titled by it, active iff it is the current lesson, marked completed iff its id is in the set |
| CourseLoader.SidebarMarksOneActive | js/course-loader.js:130-141 | with distinct lesson ids, the sidebar marks exactly the resolved lesson active |
| CourseLoader.SidebarAfterToggle | js/course-loader.js:105-112 | re-rendering after a click changes only the completed marker, and only on entries with the current lesson's id |
| CourseLoader.Dedupe | js/course-loader.js:44 | `new Set(array)` is duplicate-free and has exactly the array's members |
| CourseLoader.DedupeDistinct | js/course-loader.js:44 | a duplicate-free array becomes a set with the same order |
| CourseLoader.DedupeFirstOccurrenceOrder | js/course-loader.js:44 | the set lists its members in the order of their first occurrence in the array |
| CourseLoader.LoadCompleted | js/course-loader.js:41-46 | a throwing store, a missing entry or an unreadable entry all read as the empty set; otherwise the stored ids |
| CourseLoader.SaveCompleted | js/course-loader.js:47-49 | saving writes only this course's key; a throwing store is left untouched |
| CourseLoader.SaveLoadRoundTrip | js/course-loader.js:41-49 | loading after saving returns the saved set, and other courses' entries are unaffected; with a throwing store the reload sees the empty set |
| CourseLoader.OpenCourse | js/course-loader.js:118-150 | a failed load shows the fixed title and the error text; a loaded course shows the title fallback, the resolved lesson, its navigation and the completion stored under this course's key; the page keeps the course id and the store, with the sidebar and toggle consistent with it |
| CourseLoader.ClickToggle | js/course-loader.js:105-113 | a click keeps the page consistent, flips the current id, and a usable store then holds the new set under this course's key |
| CourseLoader.OpenClickReload | js/course-loader.js:105-144 | opening a course, clicking the toggle and reloading shows the completion the click left, while any other course opens with the completion it had before |
| CourseLoader.ClickTwice | js/course-loader.js:105-113 | two clicks restore the completion membership, the toggle label and the sidebar |
| Seqs.KeepCounts | js/main.js:49-51 | the filter keeps every occurrence of a satisfying element and none of the others: each element occurs in the result as often as in the input, or not at all |
| TutorialSearch.NormalizeIdempotent | js/main.js:47 | normalising a normalised query changes nothing |
| TutorialSearch.MatchesQuery | js/main.js:49-51 | on a tutorial with title, description and tags, the callback decides the match relation; a missing title always throws; it throws only on a tutorial missing one of those fields |
| TutorialSearch.FilterByQuery | js/main.js:49-51 | the filter succeeds iff no callback throws, and then keeps exactly the matching tutorials in input order |
| TutorialSearch.Search | js/main.js:46-53 | a blank normalised query gives the first six tutorials; any other query runs the filter with the normalised query |
| TutorialSearch.SearchBlankQuery | js/main.js:47-48 | an empty or all-blank query shows the first min(6, n) tutorials, in order |
| TutorialSearch.SearchNonBlankQuery | js/main.js:49-52 | when no field is missing, the result is an in-order subsequence of the list holding only matching tutorials, and each matching tutorial occurs in it exactly as often as in the list |
| TutorialSearch.SearchIgnoresCaseAndPadding | js/main.js:47 | a query and its lower-cased, trimmed form give the same result |
| TutorialSearch.SearchIsCaseInsensitive | js/main.js:50 | the query `html` finds a tutorial titled `HTML Basics` |
| TutorialSearch.CardTags | js/main.js:12 | a card's tags are the tag list when present, else the language alone when it is non-empty, else none |
| TutorialSearch.RenderCard | js/main.js:11-27 | a card shows level and joined tags, title, the description fallback and the escaped code fallback |
| TutorialSearch.Render | js/main.js:6-28 | an empty list shows the fixed empty message; otherwise one card per tutorial in order |
| TutorialSearch.RenderEscapesOnlyCode | js/main.js:18-23 | the code block never contains an angle bracket, while a title's markup is inserted verbatim |
| TutorialSearch.InitialView | js/main.js:34-44 | a failed load shows the fixed message; an empty file shows the empty message; otherwise the cards are those of the first min(6, n) tutorials, in order |
| TutorialSearch.InitialViewIsEmptySearch | js/main.js:34-48 | the page as loaded equals what an empty query renders |
| TutorialSearch.OnInput | js/main.js:46-55 | an input renders the search result; when the filter throws, the list shown is left as it was |
| TutorialGroups.TrimAll | js/tutorials.js:11 | every tag is trimmed, one for one |
| TutorialGroups.FirstMentioned | js/tutorials.js:14-17 | the chosen label is the earliest of the priority list that some tag names, ignoring case; there is none iff no label is named |
| TutorialGroups.GroupLabelByPriority | js/tutorials.js:7-17 | every tutorial gets a known label; `Other` iff it mentions none of the six languages; otherwise the earliest language of the list it mentions |
| TutorialGroups.LanguageCountsAsTag | js/tutorials.js:13 | the language field counts as one more tag, whether or not the tag list names it |
| TutorialGroups.GroupIgnoresTagPadding | js/tutorials.js:11 | white space around tags does not change a tutorial's group |
| TutorialGroups.PriorityNotTagOrder | js/tutorials.js:15-16 | tags `CSS, Python` go to `Python`: the list's order wins over the tags' order |
| TutorialGroups.BucketShape | js/tutorials.js:18-19 | a group keeps input order and holds only tutorials with its label |
| TutorialGroups.BucketHolds | js/tutorials.js:18-19 | every tutorial is in the group of its own label |
| TutorialGroups.GroupBy | js/tutorials.js:7-22 | the grouping object has a key exactly for the labels that some tutorial carries, each mapped to its tutorials in input order |
| TutorialGroups.GroupByCovers | js/tutorials.js:10-20 | every tutorial's label is a key of the grouping object |
| TutorialGroups.AllLabelsAscending | js/tutorials.js:39 | the seven possible labels in this order are strictly ascending under the default sort comparison |
| TutorialGroups.SortedKeys | js/tutorials.js:39 | `Object.keys(...).sort()` lists every key once, in strictly ascending order |
| TutorialGroups.AscendingUnique | js/tutorials.js:39 | two strictly ascending sequences with the same elements are equal, so the sorted key order is determined |
| TutorialGroups.GroupsBy | js/tutorials.js:37-39 | groups come out in ascending key order, each non-empty and holding exactly its label's tutorials, with keys exactly the grouping object's keys |
| TutorialGroups.EachInOneGroup | js/tutorials.js:10-20 | every tutorial is in the group of its label and in no other, and no key repeats |
| TutorialGroups.GroupSizesSumBy | js/tutorials.js:10-20 | the group sizes add up to the number of tutorials |
| TutorialGroups.KeysAreLabels | js/tutorials.js:18-21 | a key is present iff some tutorial carries that label |
| TutorialGroups.Groups | js/tutorials.js:36-39 | the page's groups: ascending keys, non-empty, each an in-order subsequence of the list whose members all carry its key, keys from the known labels |
| TutorialGroups.GroupsPartition | js/tutorials.js:10-20 | the groups partition the list: each tutorial in exactly one group, distinct keys, sizes summing to the list length |
| TutorialGroups.ThreeLanguagesScenario | js/tutorials.js:36-53 | untagged tutorials whose language is JavaScript, Python and none give the sections `JavaScript`, `Other`, `Python`, in that order |
| TutorialGroups.MakeCard | js/tutorials.js:24-34 | a card links to the tutorial's id; its title and description contain no angle bracket and decode back to the original fields; a missing level prints `undefined` |
| TutorialGroups.RenderSection | js/tutorials.js:40-51 | a section is headed by its key and has one card per tutorial of the group, in order |
| TutorialGroups.RenderGroups | js/tutorials.js:39-53 | one section per group, in the order given |
| TutorialGroups.PageSections | js/tutorials.js:36-53 | the page's sections are in ascending heading order and none is empty |
| TutorialGroups.GroupsPage | js/tutorials.js:56-62 | the page shows the fixed failure message exactly when loading fails, else the rendered groups |
| TutorialDetail.ChooseId | js/tutorial.js:26 | the query id wins when non-empty; otherwise the hash with its first `#` removed |
| TutorialDetail.FragmentNamesId | js/tutorial.js:26 | with no query id, the fragment `#x` names `x` |
| TutorialDetail.FindIndex | js/tutorial.js:36 | `find` returns the first tutorial with the id, and nothing exactly when no tutorial has it |
| TutorialDetail.Select | js/tutorial.js:36-37 | nothing is selected iff the file is empty; a non-empty id that exists selects a tutorial with that id; otherwise the first tutorial |
| TutorialDetail.SelectFirstMatch | js/tutorial.js:36 | with duplicate ids, the earliest tutorial carrying the id is selected |
| TutorialDetail.FallbackChains | js/tutorial.js:38-42 | explanation is description-else-explanation, code is code-else-example, and the language tag is the language field, else the first tag; each is empty only when all its sources are |
| TutorialDetail.NormalizeLang | js/tutorial.js:46-52 | after lower-casing, `js`, `c++` and `html` are renamed to `javascript`, `cpp` and `markup`; every other name is kept |
| TutorialDetail.NormalizeLangIdempotent | js/tutorial.js:46-52 | a normalised name is lower-case and normalising it again changes nothing |
| TutorialDetail.RunVisibleIff | js/tutorial.js:78-79 | the run button shows iff the lower-cased language tag or title contains `javascript`; the equality test adds nothing |
| TutorialDetail.ShortTagNotRunnable | js/tutorial.js:78-79 | a tutorial with language `js` and no title gets the JavaScript highlighting class but no run button |
| TutorialDetail.SetOutput | js/tutorial.js:19-22 | a missing value shows `(no output)`, anything else is shown as is |
| TutorialDetail.RunOutput | js/tutorial.js:82-90 | no logs and no error show `(no output)`; otherwise the logged lines joined by newlines, followed by `Error: ` and the exception's message (`undefined` for a thrown value without one); a thrown `null` or `undefined` makes the inner `catch` throw, and the outer `catch` shows `Error running code: ` and that error's message instead |
| TutorialDetail.NullishHidesLogs | js/tutorial.js:87-90 | when the code throws `null` or `undefined`, the output no longer depends on the logged lines, and a logged line longer than the message does not appear in it |
| TutorialDetail.Open | js/tutorial.js:33-97 | a failed load shows the fixed failure texts; an empty file shows `Not found`; otherwise the fields, class and run-button decision all come from the tutorial that `Select` picks for the id of the query or fragment |
| TutorialDetail.OpenByFragment | js/tutorial.js:26-39 | `tutorial.html#x` opens the first tutorial whose id is `x` |
| TutorialDetail.OpenByQueryId | js/tutorial.js:26-39 | `tutorial.html?id=x` opens the first tutorial whose id is `x`, whatever the fragment |
| TutorialDetail.OpenFallsBackToFirst | js/tutorial.js:26-39 | an id no tutorial carries opens the first tutorial of the file |
| TutorialDetail.OpenWithoutId | js/tutorial.js:26-39 | with no id in the query or the fragment, the first tutorial of the file opens, even when a later one has the empty id |
| CourseToc.AnchorId | js/course-toc.js:21-22 | a link has a target id iff its href starts with `#`; the id is the rest of the href |
| CourseToc.TocItems | js/course-toc.js:18-27 | every item comes from a link whose non-empty `#id` names an element, with that id; items keep link order |
| CourseToc.TocItemsComplete | js/course-toc.js:20-25 | no link with a non-empty `#id` naming an element is dropped |
| CourseToc.ItemIdsValid | js/course-toc.js:25 | every item's id is non-empty and names an element of the page |
| CourseToc.LastAtOrAbove | js/course-toc.js:49-53 | the active id is that of the last item whose top is within 96 pixels of the viewport top or above; none iff every top is lower |
| CourseToc.FindActiveId | js/course-toc.js:47-60 | the loop and the closing check compute the last item at or above the offset, for items with non-empty ids |
| CourseToc.ClosingCheckIsInert | js/course-toc.js:55-58 | with non-empty ids, the closing check can only reset a result that is already empty |
| CourseToc.SetActive | js/course-toc.js:38-44 | a link is active, and carries `aria-current`, exactly when its id is the active id |
| CourseToc.ExactlyOneActive | js/course-toc.js:38-44 | with distinct ids, activating one item marks it and no other; activating nothing clears every mark |
| CourseToc.Step | js/course-toc.js:63-94 | a scroll while ticking does nothing; a frame stops ticking and activates the reference choice; a modified click does nothing; a plain click activates its item; at most one frame stays pending |
| CourseToc.Init | js/course-toc.js:82-84 | there is no scroll spy exactly when no link yields an item; otherwise it starts idle |
| CourseToc.RunGuarded | js/course-toc.js:64-72 | under any sequence of events, at most one animation frame is ever pending |
| CourseToc.ScrollBurst | js/course-toc.js:65-72 | a burst of scrolls from an idle spy requests exactly one frame, and when it runs the spy is idle again with the section for the tops of that moment active |
| CourseToc.ClickMarksOne | js/course-toc.js:88-94 | after a plain click, exactly the clicked item is marked active |
| Theme.Encode | js/dark-mode.js:29 | the stored value is `dark` exactly for dark mode, and never empty |
| Theme.Label | js/dark-mode.js:23-24 | the button reads `Light Mode` and is pressed exactly in dark mode, else `Dark Mode` |
| Theme.UpdateToggleLabel | js/dark-mode.js:19-25 | the button, if any, shows the current mode; mode and store are unchanged |
| Theme.ApplyPreference | js/dark-mode.js:14-17 | the page is dark exactly when the preference is `dark`, and the label follows |
| Theme.TryPut | js/dark-mode.js:29 | a usable store records the mode under `site-theme`; a throwing store is left unchanged |
| Theme.Toggle | js/dark-mode.js:27-31 | a click flips the mode, relabels the button, and a usable store remembers the new mode |
| Theme.ToggleTwice | js/dark-mode.js:27-31 | two clicks restore the mode and the label, and the store then holds the original mode |
| Theme.Init | js/dark-mode.js:33-38 | a non-empty stored value decides the mode (dark iff `dark`); an empty value, no value or a throwing store keeps the page's mode; the label is brought up to date |
| Theme.DefaultIsLight | js/main.js:71 | with nothing stored, a page starts light |
| Theme.ToggleThenReload | js/dark-mode.js:27-34 | reloading after a toggle reproduces the mode the toggle chose |
| Theme.ThrowingStoreForgets | js/dark-mode.js:29-34 | with a throwing store, a reload forgets the toggle |
| Theme.MainToggle | js/main.js:85-89 | the mode always flips; the handler throws exactly when the store does, and then the label and the store are left as they were |
| Theme.MainToggleStaleLabel | js/main.js:85-89 | with a button and a throwing store, the button names the wrong mode afterwards, unlike in dark-mode.js |

## Left out

- Fetching, JSON parsing and the DOM are not modelled. Fetched data enters as a `Result` whose error stands for a failed request or parse, and rendered output is a value.
- `simpleHighlight` (tutorial.js:5-17), the Prism call and its fallback are left out, because regular-expression tokenising is out of scope. Only the class name `language-<name>` is modelled. In the source, the keyword pattern is built from the string `'\\\b'`, which yields a backslash followed by a backspace character. As a result, the keyword rule can never match ordinary code.
- The copy button (tutorial.js:69-76) is left out: clipboard access and its timer are browser services.
- Running the code through `new Function` and capturing `console.log` is left out. The logged lines and what the code threw are parameters of `TutorialDetail.RunOutput`, so the formatting of logged objects by `JSON.stringify` is not modelled. The text of the `TypeError` raised by reading `message` of a thrown `null` or `undefined` is engine-specific and is a parameter too. On that path `console.log = origLog` (tutorial.js:88) is skipped and the console stays hooked; the console is not modelled, so neither is that.
- `TutorialDetail.RunOutput`: a thrown value whose `message` is not a string (a number, an object) is not represented, since its string conversion is not modelled.
- scroll-top.js is not part of this model.
- `scrollIntoView`, `history.replaceState`, `requestAnimationFrame` and event-listener registration are left out. Frames and events are inputs of `CourseToc.Step`.
- Element positions, which are floating point in the browser, are integers.
- `CourseToc.FindActiveId`: its contract covers only items with non-empty ids. That is every list `CourseToc.TocItems` builds (`CourseToc.ItemIdsValid`).
- `getElementById` is modelled as membership of the id in the set of element ids, so which of several equal ids is found does not matter.
- `encodeURIComponent` is left abstract. Links are records of the course and lesson ids, or the tutorial id.
- `toLowerCase` is modelled for ASCII letters only, because Unicode case mapping is out of scope. `trim` uses JavaScript's full white-space set.
- Tutorial ids and lesson ids are always-present strings. A tutorial whose `id` is missing, or not a string, is not represented.
- Field values are strings or missing. A number or other non-string in a text field is not represented, so `String(...)` coercions are not modelled.
- `TutorialSearch.SearchNonBlankQuery`: the in-order, exactly-the-matches result is proved only for lists where every tutorial has a title, a description and tags. Otherwise the filter may throw, which `TutorialSearch.FilterByQuery` and `TutorialSearch.MatchesQuery` state.
- The completed-lessons entry is read as either an array of ids or unreadable. A stored JSON string, which `new Set` would split into characters, and arrays of non-strings are not represented.
- `window.__lastCourseLessons` is always set before the toggle button exists, so the sidebar is always re-rendered from the page's lessons.
- The browser store is all-or-nothing: it either works for every call or throws for every call. Quota errors on a single write are not modelled.
- The theme scripts' listener wiring is not modelled. On a page without the button no click can reach `Theme.Toggle`, but the function is still defined for such pages.
- The course page's `console.error` calls, and the theme initialisation in main.js (main.js:92-102), are not modelled separately. The theme initialisation is the same as dark-mode.js:33-38 and is modelled once by `Theme.Init`.

## Findings

| source | as written | input that shows it | evidently intended | confidence | as-written member | corrected member |
|---|---|---|---|---|---|---|
| js/main.js:85-89 | `toggle` calls `localStorage.setItem` outside any `try`, after the body class has flipped, so a throwing store aborts the handler before the label update | a page in light mode with the toggle button, whose store throws on every write: after a click the page is dark but the button still reads `Dark Mode` (`Theme.MainToggleStaleLabel`) | ignore storage errors and relabel, as dark-mode.js:27-31 does | medium, not executed | Theme.MainToggle | Theme.Toggle |
