/** course-toc.js: the table of contents beside a lesson. Links to `#id`
    anchors whose target exists become items; on scroll the last section whose
    top has passed a fixed offset is marked active, at most once per animation
    frame; a plain click marks the clicked section at once. Element positions
    are integers here. */
module CourseToc {
  import opened Values

  /** Pixels from the top of the viewport at which a section counts as reached. */
  const ScrollOffset: int := 96

  // ---------------------------------------------------------------- items

  /** The id a link points at: `href || ''`, then the rest after a leading
      `#`, or nothing when the href does not start with `#`. */
  function AnchorId(href: Option<string>): (id: Option<string>)
    ensures id.Some? <==> |Or(href, "")| > 0 && Or(href, "")[0] == '#'
    ensures id.Some? ==> "#" + id.value == Or(href, "")
  {
    var h := Or(href, "");
    if |h| > 0 && h[0] == '#' then
      assert h == "#" + h[1..];
      Some(h[1..])
    else None
  }

  /** A TOC entry: the position of its link among all TOC links, and the id of
      its target section. */
  datatype TocItem = TocItem(link: nat, id: string)

  /** The link at `k` yields an item: its id is non-empty and names an element. */
  predicate Valid(hrefs: seq<Option<string>>, targets: set<string>, k: nat)
    requires k < |hrefs|
  {
    var id := AnchorId(hrefs[k]);
    Truthy(id) && id.value in targets
  }

  /** `getTocData`: the links with a non-empty `#id` whose target exists, in
      link order. `targets` is the set of element ids in the page. */
  function TocItems(hrefs: seq<Option<string>>, targets: set<string>): (items: seq<TocItem>)
    ensures forall i :: 0 <= i < |items| ==> items[i].link < |hrefs| && Valid(hrefs, targets, items[i].link)
                                             && AnchorId(hrefs[items[i].link]) == Some(items[i].id)
    ensures forall i, j :: 0 <= i < j < |items| ==> items[i].link < items[j].link
    decreases |hrefs|
  {
    if |hrefs| == 0 then []
    else
      var n := |hrefs| - 1;
      var prefix := TocItems(hrefs[..n], targets);
      assert forall k :: 0 <= k < n ==> hrefs[..n][k] == hrefs[k];
      if Valid(hrefs, targets, n) then prefix + [TocItem(n, AnchorId(hrefs[n]).value)] else prefix
  }

  /** No valid link is dropped. */
  lemma {:induction false} TocItemsComplete(hrefs: seq<Option<string>>, targets: set<string>, k: nat)
    requires k < |hrefs| && Valid(hrefs, targets, k)
    ensures exists i :: 0 <= i < |TocItems(hrefs, targets)| && TocItems(hrefs, targets)[i].link == k
    decreases |hrefs|
  {
    var n := |hrefs| - 1;
    var prefix := TocItems(hrefs[..n], targets);
    var items := TocItems(hrefs, targets);
    if k == n {
      assert items[|prefix|].link == k;
    } else {
      assert hrefs[..n][k] == hrefs[k];
      TocItemsComplete(hrefs[..n], targets, k);
      var i :| 0 <= i < |prefix| && prefix[i].link == k;
      assert items[i] == prefix[i];
    }
  }

  /** Every item names its target: the id is non-empty and exists in the page. */
  lemma {:induction false} ItemIdsValid(hrefs: seq<Option<string>>, targets: set<string>)
    ensures forall i :: 0 <= i < |TocItems(hrefs, targets)| ==>
      TocItems(hrefs, targets)[i].id != "" && TocItems(hrefs, targets)[i].id in targets
  {
  }

  // ---------------------------------------------------------------- active section

  /** The reference choice: the id of the last item, in TOC order, whose top is
      at or above the offset. */
  function LastAtOrAbove(items: seq<TocItem>, tops: seq<int>): (r: Option<string>)
    requires |tops| == |items|
    ensures r.None? <==> forall i :: 0 <= i < |items| ==> tops[i] - ScrollOffset > 0
    ensures r.Some? ==> exists i :: 0 <= i < |items| && tops[i] - ScrollOffset <= 0 && r.value == items[i].id
                                    && forall j :: i < j < |items| ==> tops[j] - ScrollOffset > 0
    decreases |items|
  {
    if |items| == 0 then None
    else
      var n := |items| - 1;
      if tops[n] - ScrollOffset <= 0 then Some(items[n].id)
      else LastAtOrAbove(items[..n], tops[..n])
  }

  /** `findActiveId`, loop and closing check as written. `tops[i]` is the top of
      the target of `items[i]`. */
  method FindActiveId(items: seq<TocItem>, tops: seq<int>) returns (activeId: Option<string>)
    requires |tops| == |items|
    ensures (forall i :: 0 <= i < |items| ==> items[i].id != "") ==> activeId == LastAtOrAbove(items, tops)
  {
    activeId := None;
    var i := 0;
    while i < |items|
      invariant 0 <= i <= |items|
      invariant activeId == LastAtOrAbove(items[..i], tops[..i])
    {
      assert items[..i + 1][..i] == items[..i] && tops[..i + 1][..i] == tops[..i];
      if tops[i] - ScrollOffset <= 0 {
        activeId := Some(items[i].id);
      }
      i := i + 1;
    }
    assert items[..i] == items && tops[..i] == tops;
    if !Truthy(activeId) && |items| > 0 {
      if tops[0] - ScrollOffset > 0 {
        activeId := None;
      }
    }
  }

  /** The closing check of `findActiveId` can only reset a result that is
      already empty: with non-empty ids, a falsy result is `None`. */
  lemma {:induction false} ClosingCheckIsInert(items: seq<TocItem>, tops: seq<int>)
    requires |tops| == |items|
    requires forall i :: 0 <= i < |items| ==> items[i].id != ""
    ensures !Truthy(LastAtOrAbove(items, tops)) ==> LastAtOrAbove(items, tops) == None
  {
  }

  /** The marks `setActive` leaves on each item's link. */
  datatype Mark = Mark(active: bool, ariaCurrent: bool)

  /** `setActive`: a link is active, and carries `aria-current`, exactly when
      its id is the active one. */
  function SetActive(items: seq<TocItem>, activeId: Option<string>): (marks: seq<Mark>)
    ensures |marks| == |items|
    ensures forall i :: 0 <= i < |items| ==>
      (marks[i].active <==> activeId == Some(items[i].id)) && marks[i].ariaCurrent == marks[i].active
  {
    seq(|items|, i requires 0 <= i < |items| => Mark(Some(items[i].id) == activeId, Some(items[i].id) == activeId))
  }

  predicate DistinctIds(items: seq<TocItem>) {
    forall i, j :: 0 <= i < j < |items| ==> items[i].id != items[j].id
  }

  /** With distinct ids, activating the id of item `k` marks item `k` and no
      other; activating nothing clears every mark. */
  lemma {:induction false} ExactlyOneActive(items: seq<TocItem>, k: nat)
    requires DistinctIds(items) && k < |items|
    ensures forall i :: 0 <= i < |items| ==> (SetActive(items, Some(items[k].id))[i].active <==> i == k)
    ensures forall i :: 0 <= i < |items| ==> !SetActive(items, None)[i].active && !SetActive(items, None)[i].ariaCurrent
  {
    var marks := SetActive(items, Some(items[k].id));
    forall i | 0 <= i < |items|
      ensures marks[i].active <==> i == k
    {
      if i < k {
        assert items[i].id != items[k].id;
      } else if i > k {
        assert items[k].id != items[i].id;
      }
    }
  }

  // ---------------------------------------------------------------- scroll spy

  /** The scroll spy: whether a frame is requested (`ticking`), how many
      requested frames have not run yet, and the id last passed to `setActive`. */
  datatype Spy = Spy(ticking: bool, pending: nat, activeId: Option<string>)

  datatype Modifiers = Modifiers(meta: bool, ctrl: bool, shift: bool, alt: bool)

  /** What reaches the spy: a scroll (also `load` and `DOMContentLoaded`), a
      requested frame running with the current tops of the items' targets, or
      a click on the link of item `item`. */
  datatype Event = Scroll | Frame(tops: seq<int>) | Click(item: nat, mods: Modifiers)

  predicate Fits(items: seq<TocItem>, e: Event) {
    match e
    case Scroll => true
    case Frame(tops) => |tops| == |items|
    case Click(k, _) => k < |items|
  }

  /** At most one frame is ever pending, and `ticking` says whether one is. */
  predicate Guarded(s: Spy) {
    s.pending <= 1 && (s.ticking <==> s.pending == 1)
  }

  function Step(items: seq<TocItem>, s: Spy, e: Event): (t: Spy)
    requires Fits(items, e)
    ensures Guarded(s) ==> Guarded(t)
    ensures e.Scroll? && s.ticking ==> t == s
    ensures e.Frame? && s.pending > 0 ==> !t.ticking && t.activeId == LastAtOrAbove(items, e.tops)
    ensures e.Click? && (e.mods.meta || e.mods.ctrl || e.mods.shift || e.mods.alt) ==> t == s
    ensures e.Click? && !(e.mods.meta || e.mods.ctrl || e.mods.shift || e.mods.alt) ==>
      t == s.(activeId := Some(items[e.item].id))
  {
    match e
    case Scroll =>
      if s.ticking then s else s.(ticking := true, pending := s.pending + 1)
    case Frame(tops) =>
      if s.pending == 0 then s
      else Spy(false, s.pending - 1, LastAtOrAbove(items, tops))
    case Click(k, m) =>
      if m.meta || m.ctrl || m.shift || m.alt then s
      else s.(activeId := Some(items[k].id))
  }

  predicate AllFit(items: seq<TocItem>, events: seq<Event>) {
    forall i :: 0 <= i < |events| ==> Fits(items, events[i])
  }

  function Run(items: seq<TocItem>, s: Spy, events: seq<Event>): Spy
    requires AllFit(items, events)
    decreases |events|
  {
    if |events| == 0 then s else Run(items, Step(items, s, events[0]), events[1..])
  }

  /** The spy as `setupScrollSpy` leaves it: no frame requested, nothing active. */
  const Idle := Spy(false, 0, None)

  /** `init`: no spy at all when no link yields an item. */
  function Init(hrefs: seq<Option<string>>, targets: set<string>): (r: Option<Spy>)
    ensures r.None? <==> forall k :: 0 <= k < |hrefs| ==> !Valid(hrefs, targets, k)
    ensures r.Some? ==> r.value == Idle
  {
    NoItemsIffNoValidLink(hrefs, targets);
    if |TocItems(hrefs, targets)| == 0 then None else Some(Idle)
  }

  lemma {:induction false} NoItemsIffNoValidLink(hrefs: seq<Option<string>>, targets: set<string>)
    ensures |TocItems(hrefs, targets)| == 0 <==> forall k :: 0 <= k < |hrefs| ==> !Valid(hrefs, targets, k)
    decreases |hrefs|
  {
    if |hrefs| > 0 {
      var n := |hrefs| - 1;
      forall k | 0 <= k < n
        ensures Valid(hrefs[..n], targets, k) == Valid(hrefs, targets, k)
      {
        assert hrefs[..n][k] == hrefs[k];
      }
      NoItemsIffNoValidLink(hrefs[..n], targets);
    }
  }

  /** Whatever the events, a spy never has more than one frame pending. */
  lemma {:induction false} RunGuarded(items: seq<TocItem>, s: Spy, events: seq<Event>)
    requires Guarded(s) && AllFit(items, events)
    ensures Guarded(Run(items, s, events))
    decreases |events|
  {
    if |events| > 0 {
      RunGuarded(items, Step(items, s, events[0]), events[1..]);
    }
  }

  /** Scroll bursts collapse: any number of scrolls request one frame, and that
      frame shows the section for the tops at the time it runs. */
  lemma {:induction false} ScrollBurst(items: seq<TocItem>, s: Spy, n: nat, tops: seq<int>)
    requires Guarded(s) && !s.ticking && n > 0 && |tops| == |items|
    ensures Run(items, s, seq(n, _ => Scroll)).pending == 1
    ensures Run(items, s, seq(n, _ => Scroll) + [Frame(tops)]) == Idle.(activeId := LastAtOrAbove(items, tops))
  {
    var burst := seq(n, _ => Scroll);
    var ticked := s.(ticking := true, pending := 1);
    ScrollsWhileTicking(items, ticked, n - 1);
    assert burst[1..] == seq(n - 1, _ => Scroll);
    assert Run(items, s, burst) == ticked;
    RunAppend(items, s, burst, [Frame(tops)]);
    assert [Frame(tops)][1..] == [];
  }

  lemma {:induction false} ScrollsWhileTicking(items: seq<TocItem>, s: Spy, n: nat)
    requires s.ticking
    ensures Run(items, s, seq(n, _ => Scroll)) == s
    decreases n
  {
    if n > 0 {
      assert seq(n, _ => Scroll)[1..] == seq(n - 1, _ => Scroll);
      ScrollsWhileTicking(items, s, n - 1);
    }
  }

  lemma {:induction false} RunAppend(items: seq<TocItem>, s: Spy, a: seq<Event>, b: seq<Event>)
    requires AllFit(items, a) && AllFit(items, b)
    ensures AllFit(items, a + b)
    ensures Run(items, s, a + b) == Run(items, Run(items, s, a), b)
    decreases |a|
  {
    assert forall i :: 0 <= i < |a + b| ==> Fits(items, (a + b)[i]) by {
      forall i | 0 <= i < |a + b| ensures Fits(items, (a + b)[i]) {
        if i < |a| { assert (a + b)[i] == a[i]; } else { assert (a + b)[i] == b[i - |a|]; }
      }
    }
    if |a| == 0 {
      assert a + b == b;
    } else {
      assert (a + b)[1..] == a[1..] + b;
      RunAppend(items, Step(items, s, a[0]), a[1..], b);
    }
  }

  /** A plain click on an item with a distinct id leaves exactly that item's
      link marked. */
  lemma {:induction false} ClickMarksOne(items: seq<TocItem>, s: Spy, k: nat, m: Modifiers)
    requires DistinctIds(items) && k < |items|
    requires !(m.meta || m.ctrl || m.shift || m.alt)
    ensures forall i :: 0 <= i < |items| ==>
      (SetActive(items, Step(items, s, Click(k, m)).activeId)[i].active <==> i == k)
  {
    ExactlyOneActive(items, k);
  }
}
