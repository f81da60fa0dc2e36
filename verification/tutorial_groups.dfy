/** tutorials.js: the tutorials-by-language page. Each tutorial goes to the
    first label of a fixed priority list that one of its tags (or its language
    field) names, ignoring case; the rest go to `Other`. Sections come out in
    sorted label order. */
module TutorialGroups {
  import opened Values
  import opened Seqs
  import opened Text
  import opened Catalog
  import Html

  const Langs: seq<string> := ["JavaScript", "Python", "C++", "HTML", "CSS", "Java"]
  const OtherGroup := "Other"

  /** Every label a group can have, already in `Array.prototype.sort` order. */
  const AllLabelsSorted: seq<string> := ["C++", "CSS", "HTML", "Java", "JavaScript", "Other", "Python"]

  // ---------------------------------------------------------------- labels

  function TrimAll(tags: seq<string>): (r: seq<string>)
    ensures |r| == |tags| && forall i :: 0 <= i < |tags| ==> r[i] == Trim(tags[i])
  {
    seq(|tags|, i requires 0 <= i < |tags| => Trim(tags[i]))
  }

  /** The tags grouping looks at: the trimmed tags, with the language field put
      in front when it is truthy and not already one of them. */
  function GroupingTags(t: Tutorial): seq<string> {
    var tags := TrimAll(TagsOrEmpty(t));
    if Truthy(t.language) && t.language.value !in tags then [t.language.value] + tags else tags
  }

  /** Some tag names `label`, ignoring case. */
  predicate Mentions(tags: seq<string>, key: string) {
    exists x :: x in tags && Lower(x) == Lower(key)
  }

  /** The first label of `labels` that the tags mention. */
  function FirstMentioned(tags: seq<string>, labels: seq<string>): (r: Option<string>)
    ensures r.None? <==> forall k :: 0 <= k < |labels| ==> !Mentions(tags, labels[k])
    ensures r.Some? ==> exists k :: 0 <= k < |labels| && labels[k] == r.value && Mentions(tags, labels[k])
                                    && forall j :: 0 <= j < k ==> !Mentions(tags, labels[j])
    decreases |labels|
  {
    if |labels| == 0 then None
    else if Mentions(tags, labels[0]) then Some(labels[0])
    else
      var r := FirstMentioned(tags, labels[1..]);
      assert r.Some? ==> exists k :: 1 <= k < |labels| && labels[k] == r.value && Mentions(tags, labels[k])
                                     && forall j :: 0 <= j < k ==> !Mentions(tags, labels[j]);
      r
  }

  function GroupLabel(t: Tutorial): string {
    match FirstMentioned(GroupingTags(t), Langs)
    case None => OtherGroup
    case Some(key) => key
  }

  /** The priority list decides: a tutorial is labelled with the earliest
      language of the list it mentions, whatever the order of its own tags,
      and with `Other` exactly when it mentions none. */
  lemma {:induction false} GroupLabelByPriority(t: Tutorial)
    ensures GroupLabel(t) in AllLabelsSorted
    ensures GroupLabel(t) == OtherGroup <==> forall k :: 0 <= k < |Langs| ==> !Mentions(GroupingTags(t), Langs[k])
    ensures GroupLabel(t) != OtherGroup ==>
      exists k :: 0 <= k < |Langs| && Langs[k] == GroupLabel(t) && Mentions(GroupingTags(t), Langs[k])
                  && forall j :: 0 <= j < k ==> !Mentions(GroupingTags(t), Langs[j])
  {
    KnownLabels();
    var r := FirstMentioned(GroupingTags(t), Langs);
    if r.Some? {
      var k :| 0 <= k < |Langs| && Langs[k] == r.value;
      assert Langs[k] in AllLabelsSorted && Langs[k] != OtherGroup;
    }
  }

  /** The priority languages and `Other` are the possible labels. */
  lemma {:induction false} KnownLabels()
    ensures forall k :: 0 <= k < |Langs| ==> Langs[k] in AllLabelsSorted && Langs[k] != OtherGroup
    ensures OtherGroup in AllLabelsSorted
  {
    assert AllLabelsSorted[5] == OtherGroup;
    forall k | 0 <= k < |Langs|
      ensures Langs[k] in AllLabelsSorted && Langs[k] != OtherGroup
    {
      assert Langs[k] == AllLabelsSorted[[4, 6, 0, 2, 1, 3][k]];
    }
  }

  /** The language field counts as a tag even when `tags` does not list it. */
  lemma {:induction false} LanguageCountsAsTag(t: Tutorial, key: string)
    ensures Mentions(GroupingTags(t), key) <==>
      Mentions(TrimAll(TagsOrEmpty(t)), key) || (Truthy(t.language) && Lower(t.language.value) == Lower(key))
  {
    var tags := TrimAll(TagsOrEmpty(t));
    var g := GroupingTags(t);
    if Truthy(t.language) && t.language.value !in tags {
      assert g == [t.language.value] + tags;
      MentionsCons(t.language.value, tags, key);
    } else {
      assert g == tags;
      if Truthy(t.language) && Lower(t.language.value) == Lower(key) {
        assert t.language.value in tags;
      }
    }
  }

  lemma {:induction false} MentionsCons(x: string, tags: seq<string>, key: string)
    ensures Mentions([x] + tags, key) <==> Lower(x) == Lower(key) || Mentions(tags, key)
  {
    if Mentions([x] + tags, key) {
      var y :| y in [x] + tags && Lower(y) == Lower(key);
      assert y == x || y in tags;
    }
    if Mentions(tags, key) {
      var y :| y in tags && Lower(y) == Lower(key);
      assert y in [x] + tags;
    }
    assert x in [x] + tags;
  }


  /** White space around tags does not change the group. */
  lemma {:induction false} GroupIgnoresTagPadding(t: Tutorial, padded: seq<string>)
    requires t.tags.Some? && |padded| == |t.tags.value|
    requires forall i :: 0 <= i < |padded| ==> Trim(padded[i]) == Trim(t.tags.value[i])
    ensures GroupLabel(t.(tags := Some(padded))) == GroupLabel(t)
  {
    assert TrimAll(padded) == TrimAll(t.tags.value);
  }

  /** Tags `["CSS", "Python"]` land in `Python`: `Python` comes before `CSS` in the priority list. */
  lemma {:induction false} PriorityNotTagOrder(t: Tutorial)
    requires t.tags == Some(["CSS", "Python"]) && t.language.None?
    ensures GroupLabel(t) == "Python"
  {
    var tags := t.tags.value;
    forall i | 0 <= i < |tags|
      ensures Trim(tags[i]) == tags[i]
    {
      assert tags[i] == "CSS" || tags[i] == "Python";
      TrimUnpadded(tags[i]);
    }
    UnpaddedTags(t);
    CssPythonLabel(t);
  }

  /** Grouping tags `CSS, Python` give the label `Python`. */
  lemma {:induction false} CssPythonLabel(t: Tutorial)
    requires GroupingTags(t) == ["CSS", "Python"]
    ensures GroupLabel(t) == "Python"
  {
    PythonBeforeCss();
  }

  /** Without a language field and with no padding around the tags, grouping
      sees the tags as they are. */
  lemma {:induction false} UnpaddedTags(t: Tutorial)
    requires t.tags.Some? && t.language.None?
    requires forall i :: 0 <= i < |t.tags.value| ==> Trim(t.tags.value[i]) == t.tags.value[i]
    ensures GroupingTags(t) == t.tags.value
  {
  }

  lemma {:induction false} PythonBeforeCss()
    ensures FirstMentioned(["CSS", "Python"], Langs) == Some("Python")
  {
    var tags := ["CSS", "Python"];
    assert !Mentions(tags, Langs[0]) by {
      assert |Lower("JavaScript")| == 10;
    }
    assert Mentions(tags, Langs[1]) by {
      assert "Python" in tags;
    }
    assert FirstMentioned(tags, Langs) == FirstMentioned(tags, Langs[1..]);
    assert Langs[1..][0] == "Python";
  }

  // ---------------------------------------------------------------- grouping

  /** The tutorials labelled `key`, in input order. */
  function Bucket(list: seq<Tutorial>, labelOf: Tutorial -> string, key: string): seq<Tutorial>
    decreases |list|
  {
    if |list| == 0 then []
    else
      var last := list[|list| - 1];
      Bucket(list[..|list| - 1], labelOf, key) + (if labelOf(last) == key then [last] else [])
  }

  /** A bucket keeps input order and holds only tutorials with its label. */
  lemma {:induction false} BucketShape(list: seq<Tutorial>, labelOf: Tutorial -> string, key: string)
    ensures IsSubsequence(Bucket(list, labelOf, key), list)
    ensures forall j :: 0 <= j < |Bucket(list, labelOf, key)| ==> labelOf(Bucket(list, labelOf, key)[j]) == key
    decreases |list|
  {
    if |list| > 0 {
      var front := list[..|list| - 1];
      BucketShape(front, labelOf, key);
      var b := Bucket(list, labelOf, key);
      if labelOf(list[|list| - 1]) == key {
        assert b[..|b| - 1] == Bucket(front, labelOf, key);
      } else {
        assert b == Bucket(front, labelOf, key);
        if |b| > 0 {
          assert b[|b| - 1] != list[|list| - 1];
        }
      }
    }
  }

  /** Each tutorial is in the bucket of its own label. */
  lemma {:induction false} BucketHolds(list: seq<Tutorial>, labelOf: Tutorial -> string, i: nat)
    requires i < |list|
    ensures list[i] in Bucket(list, labelOf, labelOf(list[i]))
    decreases |list|
  {
    if i < |list| - 1 {
      BucketHolds(list[..|list| - 1], labelOf, i);
    }
  }

  /** A non-empty bucket is the bucket of some tutorial's label. */
  lemma {:induction false} BucketWitness(list: seq<Tutorial>, labelOf: Tutorial -> string, key: string)
    requires |Bucket(list, labelOf, key)| > 0
    ensures exists i :: 0 <= i < |list| && labelOf(list[i]) == key
  {
    var b := Bucket(list, labelOf, key);
    BucketShape(list, labelOf, key);
    SubsequenceMembers(b, list);
    assert b[0] in b;
    var i :| 0 <= i < |list| && list[i] == b[0];
  }

  /** `groupByLanguage`, for any labelling: the object from label to tutorials
      built by one pass over the list, appending each tutorial to its label's
      array. Its keys are exactly the labels with a non-empty bucket. */
  function GroupBy(list: seq<Tutorial>, labelOf: Tutorial -> string): (m: map<string, seq<Tutorial>>)
    ensures forall key :: key in m ==> m[key] == Bucket(list, labelOf, key) && |m[key]| > 0
    ensures forall key :: key !in m ==> |Bucket(list, labelOf, key)| == 0
    decreases |list|
  {
    if |list| == 0 then map[]
    else
      var m := GroupBy(list[..|list| - 1], labelOf);
      var t := list[|list| - 1];
      var key := labelOf(t);
      m[key := (if key in m then m[key] else []) + [t]]
  }

  /** Every tutorial's label is a key of the grouping. */
  lemma {:induction false} GroupByCovers(list: seq<Tutorial>, labelOf: Tutorial -> string)
    ensures forall i :: 0 <= i < |list| ==> labelOf(list[i]) in GroupBy(list, labelOf)
  {
    forall i | 0 <= i < |list|
      ensures labelOf(list[i]) in GroupBy(list, labelOf)
    {
      BucketHolds(list, labelOf, i);
    }
  }

  // ---------------------------------------------------------------- sort order

  /** The comparison of `Array.prototype.sort` without a comparator, on strings
      whose characters are single UTF-16 code units. */
  predicate StrLess(a: string, b: string)
    decreases |a|
  {
    if |a| == 0 then |b| > 0
    else if |b| == 0 then false
    else if a[0] != b[0] then a[0] < b[0]
    else StrLess(a[1..], b[1..])
  }

  lemma {:induction false} StrLessIrreflexive(a: string)
    ensures !StrLess(a, a)
    decreases |a|
  {
    if |a| > 0 {
      StrLessIrreflexive(a[1..]);
    }
  }

  lemma {:induction false} StrLessTransitive(a: string, b: string, c: string)
    requires StrLess(a, b) && StrLess(b, c)
    ensures StrLess(a, c)
    decreases |a|
  {
    if |a| > 0 && |b| > 0 && |c| > 0 && a[0] == b[0] && b[0] == c[0] {
      StrLessTransitive(a[1..], b[1..], c[1..]);
    }
  }

  predicate Ascending(s: seq<string>) {
    forall i, j :: 0 <= i < j < |s| ==> StrLess(s[i], s[j])
  }

  lemma {:induction false} ChainAscending(s: seq<string>)
    requires forall i :: 0 <= i < |s| - 1 ==> StrLess(s[i], s[i + 1])
    ensures Ascending(s)
    decreases |s|
  {
    if |s| > 1 {
      ChainAscending(s[1..]);
      forall j | 1 < j < |s|
        ensures StrLess(s[0], s[j])
      {
        assert StrLess(s[1], s[j]) by { assert s[1] == s[1..][0] && s[j] == s[1..][j - 1]; }
        StrLessTransitive(s[0], s[1], s[j]);
      }
    }
  }

  lemma {:induction false} AllLabelsAscending()
    ensures Ascending(AllLabelsSorted)
  {
    assert StrLess("C++", "CSS");
    assert StrLess("CSS", "HTML");
    assert StrLess("HTML", "Java");
    assert StrLess("Java", "JavaScript") by {
      assert "JavaScript"[1..] == "avaScript";
      assert "Java"[1..] == "ava";
      assert StrLess("", "Script");
      assert StrLess("a", "aScript");
      assert StrLess("va", "vaScript");
      assert StrLess("ava", "avaScript");
    }
    assert StrLess("JavaScript", "Other");
    assert StrLess("Other", "Python");
    ChainAscending(AllLabelsSorted);
  }

  lemma {:induction false} SubsequenceAscending(a: seq<string>, b: seq<string>)
    requires IsSubsequence(a, b) && Ascending(b)
    ensures Ascending(a)
    decreases |b|
  {
    if |a| > 0 && |b| > 0 {
      var b' := b[..|b| - 1];
      assert Ascending(b');
      if a[|a| - 1] == b[|b| - 1] {
        var a' := a[..|a| - 1];
        SubsequenceAscending(a', b');
        SubsequenceMembers(a', b');
        forall i | 0 <= i < |a| - 1
          ensures StrLess(a[i], a[|a| - 1])
        {
          assert a[i] in a';
          var j :| 0 <= j < |b'| && b'[j] == a[i];
          assert b[j] == a[i];
        }
      } else {
        SubsequenceAscending(a, b');
      }
    }
  }

  /** `Object.keys(grouped).sort()`: every key once, in ascending order. Since a
      strictly ascending sequence of given elements is unique, this is the
      order the page uses. */
  function SortedKeys(m: map<string, seq<Tutorial>>, labels: seq<string>): (r: seq<string>)
    requires Ascending(labels)
    requires forall key :: key in m ==> key in labels
    ensures forall x :: x in r <==> x in m
    ensures Ascending(r)
    ensures Distinct(r)
  {
    var r := Keep(labels, l => l in m);
    SubsequenceAscending(r, labels);
    assert forall i, j :: 0 <= i < j < |r| ==> r[i] != r[j] by {
      forall i, j | 0 <= i < j < |r|
        ensures r[i] != r[j]
      {
        StrLessIrreflexive(r[i]);
      }
    }
    r
  }

  /** Two ascending sequences with the same elements are the same sequence. */
  lemma {:induction false} AscendingUnique(a: seq<string>, b: seq<string>)
    requires Ascending(a) && Ascending(b)
    requires forall x :: x in a <==> x in b
    ensures a == b
    decreases |a|
  {
    assert |a| > 0 <==> |b| > 0 by {
      if |a| > 0 { assert a[0] in b; }
      if |b| > 0 { assert b[0] in a; }
    }
    if |a| > 0 {
      assert a[0] in a && b[0] in b;
      assert a[0] == b[0] by {
        if a[0] != b[0] {
          var i :| 0 <= i < |b| && b[i] == a[0];
          var j :| 0 <= j < |a| && a[j] == b[0];
          assert i > 0 && j > 0;
          assert StrLess(b[0], a[0]) && StrLess(a[0], b[0]);
          StrLessTransitive(a[0], b[0], a[0]);
          StrLessIrreflexive(a[0]);
        }
      }
      forall x
        ensures x in a[1..] <==> x in b[1..]
      {
        if x in a[1..] {
          var i :| 1 <= i < |a| && a[i] == x;
          StrLessIrreflexive(a[0]);
          assert x in b;
          var k :| 0 <= k < |b| && b[k] == x;
          assert k != 0;
          assert b[1..][k - 1] == x;
        }
        if x in b[1..] {
          var i :| 1 <= i < |b| && b[i] == x;
          StrLessIrreflexive(b[0]);
          assert x in a;
          var k :| 0 <= k < |a| && a[k] == x;
          assert k != 0;
          assert a[1..][k - 1] == x;
        }
      }
      AscendingUnique(a[1..], b[1..]);
      assert a == [a[0]] + a[1..] && b == [b[0]] + b[1..];
    }
  }

  // ---------------------------------------------------------------- sections

  datatype Group = Group(key: string, items: seq<Tutorial>)

  function Keys(gs: seq<Group>): (r: seq<string>)
    ensures |r| == |gs| && forall k :: 0 <= k < |gs| ==> r[k] == gs[k].key
  {
    seq(|gs|, k requires 0 <= k < |gs| => gs[k].key)
  }

  lemma {:induction false} GroupByKnownLabels(list: seq<Tutorial>, labelOf: Tutorial -> string, labels: seq<string>)
    requires forall i :: 0 <= i < |list| ==> labelOf(list[i]) in labels
    ensures forall key :: key in GroupBy(list, labelOf) ==> key in labels
  {
    forall key | key in GroupBy(list, labelOf)
      ensures key in labels
    {
      BucketWitness(list, labelOf, key);
    }
  }

  /** The groups in the order `renderGroups` walks them, for a labelling whose
      labels are all known: sorted keys, each with its non-empty bucket. */
  function GroupsBy(list: seq<Tutorial>, labelOf: Tutorial -> string, labels: seq<string>): (r: seq<Group>)
    requires Ascending(labels)
    requires forall i :: 0 <= i < |list| ==> labelOf(list[i]) in labels
    ensures Ascending(Keys(r))
    ensures forall k :: 0 <= k < |r| ==> |r[k].items| > 0 && r[k].items == Bucket(list, labelOf, r[k].key)
    ensures forall key :: key in Keys(r) <==> key in GroupBy(list, labelOf)
  {
    var m := GroupBy(list, labelOf);
    GroupByKnownLabels(list, labelOf, labels);
    var keys := SortedKeys(m, labels);
    var r := seq(|keys|, i requires 0 <= i < |keys| => Group(keys[i], m[keys[i]]));
    assert Keys(r) == keys;
    r
  }

  lemma {:induction false} AscendingDistinct(keys: seq<string>)
    requires Ascending(keys)
    ensures Distinct(keys)
  {
    forall a, b | 0 <= a < b < |keys|
      ensures keys[a] != keys[b]
    {
      StrLessIrreflexive(keys[a]);
    }
  }

  /** Every tutorial is in exactly one group — the one named by its label — and
      group keys are distinct. */
  lemma {:induction false} EachInOneGroup(list: seq<Tutorial>, labelOf: Tutorial -> string, labels: seq<string>)
    requires Ascending(labels)
    requires forall i :: 0 <= i < |list| ==> labelOf(list[i]) in labels
    ensures forall i :: 0 <= i < |list| ==> labelOf(list[i]) in Keys(GroupsBy(list, labelOf, labels))
    ensures forall i, k :: 0 <= i < |list| && 0 <= k < |GroupsBy(list, labelOf, labels)| ==>
      (list[i] in GroupsBy(list, labelOf, labels)[k].items <==> GroupsBy(list, labelOf, labels)[k].key == labelOf(list[i]))
    ensures Distinct(Keys(GroupsBy(list, labelOf, labels)))
  {
    var gs := GroupsBy(list, labelOf, labels);
    var keys := Keys(gs);
    GroupByCovers(list, labelOf);
    AscendingDistinct(keys);
    forall i, k | 0 <= i < |list| && 0 <= k < |gs|
      ensures list[i] in gs[k].items <==> gs[k].key == labelOf(list[i])
    {
      InOwnBucketOnly(list, labelOf, gs[k].key, i);
    }
  }

  /** A tutorial is in the bucket of its own label and in no other. */
  lemma {:induction false} InOwnBucketOnly(list: seq<Tutorial>, labelOf: Tutorial -> string, key: string, i: nat)
    requires i < |list|
    ensures list[i] in Bucket(list, labelOf, key) <==> key == labelOf(list[i])
  {
    BucketShape(list, labelOf, key);
    if key == labelOf(list[i]) {
      BucketHolds(list, labelOf, i);
    }
  }

  // ---------------------------------------------------------------- counting

  function TotalItems(gs: seq<Group>): nat
    decreases |gs|
  {
    if |gs| == 0 then 0 else |gs[0].items| + TotalItems(gs[1..])
  }

  /** Sum of bucket sizes over a sequence of keys. */
  function BucketSum(list: seq<Tutorial>, labelOf: Tutorial -> string, keys: seq<string>): nat
    decreases |keys|
  {
    if |keys| == 0 then 0 else |Bucket(list, labelOf, keys[0])| + BucketSum(list, labelOf, keys[1..])
  }

  function Occurrences(keys: seq<string>, x: string): nat
    decreases |keys|
  {
    if |keys| == 0 then 0 else (if keys[0] == x then 1 else 0) + Occurrences(keys[1..], x)
  }

  lemma {:induction false} OccursOnce(keys: seq<string>, x: string)
    requires Distinct(keys) && x in keys
    ensures Occurrences(keys, x) == 1
    decreases |keys|
  {
    if keys[0] == x {
      NotOccurring(keys[1..], x);
    } else {
      assert x in keys[1..];
      OccursOnce(keys[1..], x);
    }
  }

  lemma {:induction false} NotOccurring(keys: seq<string>, x: string)
    requires x !in keys
    ensures Occurrences(keys, x) == 0
    decreases |keys|
  {
    if |keys| > 0 {
      NotOccurring(keys[1..], x);
    }
  }

  lemma {:induction false} BucketSumAppend(list: seq<Tutorial>, labelOf: Tutorial -> string, t: Tutorial, keys: seq<string>)
    ensures BucketSum(list + [t], labelOf, keys) == BucketSum(list, labelOf, keys) + Occurrences(keys, labelOf(t))
    decreases |keys|
  {
    if |keys| > 0 {
      var l := list + [t];
      assert l[..|l| - 1] == list;
      BucketSumAppend(list, labelOf, t, keys[1..]);
    }
  }

  lemma {:induction false} EmptyBuckets(list: seq<Tutorial>, labelOf: Tutorial -> string, keys: seq<string>)
    requires |list| == 0
    ensures BucketSum(list, labelOf, keys) == 0
    decreases |keys|
  {
    if |keys| > 0 {
      EmptyBuckets(list, labelOf, keys[1..]);
    }
  }

  /** Over duplicate-free keys covering every tutorial's label, bucket sizes
      add up to the number of tutorials. */
  lemma {:induction false} BucketSumCovers(list: seq<Tutorial>, labelOf: Tutorial -> string, keys: seq<string>)
    requires Distinct(keys)
    requires forall i :: 0 <= i < |list| ==> labelOf(list[i]) in keys
    ensures BucketSum(list, labelOf, keys) == |list|
    decreases |list|
  {
    if |list| == 0 {
      EmptyBuckets(list, labelOf, keys);
    } else {
      var front := list[..|list| - 1];
      var t := list[|list| - 1];
      assert list == front + [t];
      assert forall i :: 0 <= i < |front| ==> front[i] == list[i];
      BucketSumCovers(front, labelOf, keys);
      BucketSumAppend(front, labelOf, t, keys);
      OccursOnce(keys, labelOf(t));
    }
  }

  lemma {:induction false} TotalItemsIsBucketSum(gs: seq<Group>, list: seq<Tutorial>, labelOf: Tutorial -> string)
    requires forall k :: 0 <= k < |gs| ==> gs[k].items == Bucket(list, labelOf, gs[k].key)
    ensures TotalItems(gs) == BucketSum(list, labelOf, Keys(gs))
    decreases |gs|
  {
    if |gs| > 0 {
      TotalItemsIsBucketSum(gs[1..], list, labelOf);
      assert Keys(gs)[1..] == Keys(gs[1..]);
    }
  }

  /** No tutorial is lost or counted twice: the group sizes add up to the input length. */
  lemma {:induction false} GroupSizesSumBy(list: seq<Tutorial>, labelOf: Tutorial -> string, labels: seq<string>)
    requires Ascending(labels)
    requires forall i :: 0 <= i < |list| ==> labelOf(list[i]) in labels
    ensures TotalItems(GroupsBy(list, labelOf, labels)) == |list|
  {
    var gs := GroupsBy(list, labelOf, labels);
    TotalItemsIsBucketSum(gs, list, labelOf);
    EachInOneGroup(list, labelOf, labels);
    BucketSumCovers(list, labelOf, Keys(gs));
  }

  // ---------------------------------------------------------------- the page

  lemma {:induction false} AllGroupLabelsKnown(list: seq<Tutorial>)
    ensures forall i :: 0 <= i < |list| ==> GroupLabel(list[i]) in AllLabelsSorted
  {
    forall i | 0 <= i < |list|
      ensures GroupLabel(list[i]) in AllLabelsSorted
    {
      GroupLabelByPriority(list[i]);
    }
  }

  /** `groupByLanguage` followed by the sorted walk of `renderGroups`: groups in
      ascending key order, none empty, each holding its tutorials in input
      order, keys drawn from the priority list plus `Other`. */
  function Groups(list: seq<Tutorial>): (r: seq<Group>)
    ensures Ascending(Keys(r))
    ensures forall k :: 0 <= k < |r| ==> |r[k].items| > 0 && IsSubsequence(r[k].items, list)
    ensures forall k, j :: 0 <= k < |r| && 0 <= j < |r[k].items| ==> GroupLabel(r[k].items[j]) == r[k].key
    ensures forall k :: 0 <= k < |r| ==> r[k].key in AllLabelsSorted
  {
    AllGroupLabelsKnown(list);
    AllLabelsAscending();
    var r := GroupsBy(list, GroupLabel, AllLabelsSorted);
    forall k | 0 <= k < |r|
      ensures IsSubsequence(r[k].items, list) && r[k].key in AllLabelsSorted
      ensures forall j :: 0 <= j < |r[k].items| ==> GroupLabel(r[k].items[j]) == r[k].key
    {
      BucketShape(list, GroupLabel, r[k].key);
      BucketWitness(list, GroupLabel, r[k].key);
    }
    r
  }

  lemma {:induction false} GroupsAreGroupsBy(list: seq<Tutorial>)
    ensures Ascending(AllLabelsSorted)
    ensures forall i :: 0 <= i < |list| ==> GroupLabel(list[i]) in AllLabelsSorted
    ensures Groups(list) == GroupsBy(list, GroupLabel, AllLabelsSorted)
  {
    AllLabelsAscending();
    AllGroupLabelsKnown(list);
  }

  /** Every tutorial appears in exactly one group, and the group sizes add up
      to the number of tutorials. */
  lemma {:induction false} GroupsPartition(list: seq<Tutorial>)
    ensures forall i :: 0 <= i < |list| ==> GroupLabel(list[i]) in Keys(Groups(list))
    ensures forall i, k :: 0 <= i < |list| && 0 <= k < |Groups(list)| ==>
      (list[i] in Groups(list)[k].items <==> Groups(list)[k].key == GroupLabel(list[i]))
    ensures Distinct(Keys(Groups(list)))
    ensures TotalItems(Groups(list)) == |list|
  {
    AllGroupLabelsKnown(list);
    AllLabelsAscending();
    EachInOneGroup(list, GroupLabel, AllLabelsSorted);
    GroupSizesSumBy(list, GroupLabel, AllLabelsSorted);
  }

  /** Three tutorials labelled `JavaScript`, `Python` and `Other` give the
      keys `JavaScript`, `Other`, `Python`, in that order. */
  lemma {:induction false} ThreeLabelsBy(js: Tutorial, py: Tutorial, other: Tutorial, labelOf: Tutorial -> string, labels: seq<string>)
    requires Ascending(labels) && "JavaScript" in labels && "Python" in labels && OtherGroup in labels
    requires labelOf(js) == "JavaScript" && labelOf(py) == "Python" && labelOf(other) == OtherGroup
    ensures Keys(GroupsBy([js, py, other], labelOf, labels)) == ["JavaScript", "Other", "Python"]
  {
    var list := [js, py, other];
    var expected := ["JavaScript", "Other", "Python"];
    assert forall i :: 0 <= i < |list| ==> labelOf(list[i]) in labels;
    var keys := Keys(GroupsBy(list, labelOf, labels));
    KeysAreLabels(list, labelOf, labels);
    forall x
      ensures x in keys <==> x in expected
    {
      if x in keys {
        var i :| 0 <= i < |list| && labelOf(list[i]) == x;
        assert i == 0 || i == 1 || i == 2;
      }
      if x == "JavaScript" {
        assert labelOf(list[0]) == x;
      } else if x == "Python" {
        assert labelOf(list[1]) == x;
      } else if x == OtherGroup {
        assert labelOf(list[2]) == x;
      }
    }
    ScenarioOrder();
    AscendingUnique(keys, expected);
  }

  lemma {:induction false} ScenarioOrder()
    ensures Ascending(["JavaScript", "Other", "Python"])
  {
    assert StrLess("JavaScript", "Other");
    assert StrLess("Other", "Python");
    ChainAscending(["JavaScript", "Other", "Python"]);
  }

  /** The keys are exactly the labels of the tutorials. */
  lemma {:induction false} KeysAreLabels(list: seq<Tutorial>, labelOf: Tutorial -> string, labels: seq<string>)
    requires Ascending(labels)
    requires forall i :: 0 <= i < |list| ==> labelOf(list[i]) in labels
    ensures forall x :: x in Keys(GroupsBy(list, labelOf, labels)) <==> exists i :: 0 <= i < |list| && labelOf(list[i]) == x
  {
    var gs := GroupsBy(list, labelOf, labels);
    var keys := Keys(gs);
    EachInOneGroup(list, labelOf, labels);
    forall x | x in keys
      ensures exists i :: 0 <= i < |list| && labelOf(list[i]) == x
    {
      BucketWitness(list, labelOf, x);
    }
  }

  /** A tutorial without tags whose language is the `k`-th of the priority
      list lands in that language's group, when no earlier language has a name
      of the same length (so none can equal it ignoring case). */
  lemma {:induction false} LanguageOnlyLabel(t: Tutorial, k: nat)
    requires k < |Langs| && t.tags.None? && t.language == Some(Langs[k])
    requires forall j :: 0 <= j < k ==> |Langs[j]| != |Langs[k]|
    ensures GroupLabel(t) == Langs[k]
  {
    var tags := GroupingTags(t);
    assert tags == [Langs[k]];
    assert tags[0] in tags && Lower(tags[0]) == Lower(Langs[k]);
    forall j | 0 <= j < k
      ensures !Mentions(tags, Langs[j])
    {
      assert |Lower(Langs[j])| != |Lower(Langs[k])|;
    }
    var r := FirstMentioned(tags, Langs);
    var i :| 0 <= i < |Langs| && Langs[i] == r.value && Mentions(tags, Langs[i])
             && forall j :: 0 <= j < i ==> !Mentions(tags, Langs[j]);
    assert i == k;
  }

  /** A tutorial with neither tags nor language lands in `Other`. */
  lemma {:induction false} UntaggedLabel(t: Tutorial)
    requires t.tags.None? && !Truthy(t.language)
    ensures GroupLabel(t) == OtherGroup
  {
    assert GroupingTags(t) == [];
  }

  /** Three tutorials, one whose language is JavaScript, one whose language is
      Python and one with neither tags nor language, give the sections
      `JavaScript`, `Other`, `Python`, in that order. */
  lemma {:induction false} ThreeLanguagesScenario(js: Tutorial, py: Tutorial, other: Tutorial)
    requires js.tags.None? && js.language == Some("JavaScript")
    requires py.tags.None? && py.language == Some("Python")
    requires other.tags.None? && other.language.None?
    ensures Keys(Groups([js, py, other])) == ["JavaScript", "Other", "Python"]
  {
    assert Langs[0] == "JavaScript" && Langs[1] == "Python";
    LanguageOnlyLabel(js, 0);
    LanguageOnlyLabel(py, 1);
    UntaggedLabel(other);
    AllLabelsAscending();
    KnownLabels();
    assert Langs[0] == "JavaScript" && Langs[1] == "Python";
    GroupsAreGroupsBy([js, py, other]);
    ThreeLabelsBy(js, py, other, GroupLabel, AllLabelsSorted);
  }

  // ---------------------------------------------------------------- rendering

  datatype TutorialHref = TutorialHref(id: string)

  /** A card of `makeCard`. */
  datatype Card = Card(href: TutorialHref, meta: string, title: string, description: string)

  /** A rendered section: a heading and its cards. */
  datatype Section = Section(heading: string, cards: seq<Card>)

  /** A template literal's rendering of a possibly missing field. */
  function TemplateText(o: Option<string>): string {
    if o.Some? then o.value else "undefined"
  }

  /** `makeCard`: the link to the detail page, the level as is, title and
      description escaped. */
  function MakeCard(t: Tutorial): (r: Card)
    ensures r.href == TutorialHref(t.id)
    ensures r.meta == TemplateText(t.level)
    ensures forall i :: 0 <= i < |r.title| ==> r.title[i] != '<' && r.title[i] != '>'
    ensures forall i :: 0 <= i < |r.description| ==> r.description[i] != '<' && r.description[i] != '>'
    ensures Html.Unescape(r.title) == Or(t.title, "")
    ensures Html.Unescape(r.description) == Or(t.description, "")
  {
    Html.EscapeHtmlContract(t.title);
    Html.EscapeHtmlContract(t.description);
    Html.EscapeRoundTrip(t.title);
    Html.EscapeRoundTrip(t.description);
    Card(TutorialHref(t.id), TemplateText(t.level), Html.EscapeHtml(t.title), Html.EscapeHtml(t.description))
  }

  /** One section of `renderGroups`: the group's key as heading and a card
      per tutorial, in group order. */
  function RenderSection(g: Group): (r: Section)
    ensures r.heading == g.key && |r.cards| == |g.items|
    ensures forall i :: 0 <= i < |g.items| ==> r.cards[i] == MakeCard(g.items[i])
  {
    Section(g.key, seq(|g.items|, i requires 0 <= i < |g.items| => MakeCard(g.items[i])))
  }

  /** `renderGroups`: one section per group, in the order given. */
  function RenderGroups(gs: seq<Group>): (r: seq<Section>)
    ensures |r| == |gs|
    ensures forall k :: 0 <= k < |r| ==> r[k] == RenderSection(gs[k])
  {
    seq(|gs|, k requires 0 <= k < |gs| => RenderSection(gs[k]))
  }

  /** The page: one non-empty section per language present, in sorted
      heading order, holding a card for each of its tutorials. */
  lemma {:induction false} PageSections(list: seq<Tutorial>)
    ensures Ascending(Keys(Groups(list)))
    ensures |RenderGroups(Groups(list))| == |Groups(list)|
    ensures forall k :: 0 <= k < |Groups(list)| ==> |RenderGroups(Groups(list))[k].cards| > 0
  {
    var gs := Groups(list);
    var r := RenderGroups(gs);
    assert forall k :: 0 <= k < |gs| ==> |r[k].cards| == |gs[k].items| > 0;
  }

  datatype GroupsView = GroupsFailed(message: string) | GroupSections(sections: seq<Section>)

  /** The page script: render the groups of the loaded tutorials, or the fixed
      message when loading fails. */
  function GroupsPage(fetched: Result<seq<Tutorial>, string>): (v: GroupsView)
    ensures fetched.Err? <==> v == GroupsFailed(LoadFailedMessage)
    ensures fetched.Ok? ==> v == GroupSections(RenderGroups(Groups(fetched.value)))
  {
    match fetched
    case Err(_) => GroupsFailed(LoadFailedMessage)
    case Ok(data) => GroupSections(RenderGroups(Groups(data)))
  }
}
