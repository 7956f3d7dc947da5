/**
  The paragraph list of a lowered program, its partition into the groups that become one C
  function each, and the label numberings the code generator builds for `_goto_target`.
*/
module ParagraphLabels {
  import opened Options

  type Id = nat

  /** A paragraph or section entry. `labels` are the paragraph ids of label statements in its body. */
  datatype Paragraph = Paragraph(id: Id, isSection: bool, sectionId: Option<Id>, labels: seq<Id>)

  // ----- Shape of a lowered paragraph list -----

  ghost predicate UniqueIds(ps: seq<Paragraph>) {
    forall i, j :: 0 <= i < j < |ps| ==> ps[i].id != ps[j].id
  }

  /** A member of a section follows that section's entry or another member of it. */
  ghost predicate FollowsItsSection(ps: seq<Paragraph>, i: nat)
    requires i < |ps|
  {
    ps[i].sectionId.Some? ==>
      && !ps[i].isSection
      && i > 0
      && (ps[i-1].sectionId == ps[i].sectionId
          || (ps[i-1].isSection && ps[i-1].sectionId.None? && ps[i].sectionId == Some(ps[i-1].id)))
  }

  /** Labels inside a body never name another paragraph of the program. */
  ghost predicate LabelsAreInner(ps: seq<Paragraph>, i: nat)
    requires i < |ps|
  {
    forall j :: 0 <= j < |ps| && ps[j].id in ps[i].labels ==> j == i
  }

  ghost predicate WellFormed(ps: seq<Paragraph>) {
    && UniqueIds(ps)
    && (forall i :: 0 <= i < |ps| ==> FollowsItsSection(ps, i))
    && (forall i :: 0 <= i < |ps| ==> LabelsAreInner(ps, i))
  }

  function Ids(ps: seq<Paragraph>): (ids: seq<Id>)
    ensures |ids| == |ps| && forall i :: 0 <= i < |ps| ==> ids[i] == ps[i].id
  {
    seq(|ps|, i requires 0 <= i < |ps| => ps[i].id)
  }

  // ----- Groups -----

  /** The first index from `i` on whose paragraph is not a member of section `s`. */
  function SkipMembers(ps: seq<Paragraph>, s: Id, i: nat): (end: nat)
    requires i <= |ps|
    ensures i <= end <= |ps|
    ensures forall k :: i <= k < end ==> ps[k].sectionId == Some(s)
    ensures end < |ps| ==> ps[end].sectionId != Some(s)
    decreases |ps| - i
  {
    if i < |ps| && ps[i].sectionId == Some(s) then SkipMembers(ps, s, i + 1) else i
  }

  function GroupEnd(ps: seq<Paragraph>, start: nat): (end: nat)
    requires start < |ps|
    ensures start < end <= |ps|
  {
    if ps[start].isSection then SkipMembers(ps, ps[start].id, start + 1) else start + 1
  }

  method ParagraphGroupEnd(ps: seq<Paragraph>, start: nat) returns (end: nat)
    requires start < |ps|
    ensures end == GroupEnd(ps, start)
  {
    if ps[start].isSection {
      end := start + 1;
      while end < |ps|
        invariant start + 1 <= end <= |ps|
        invariant SkipMembers(ps, ps[start].id, end) == GroupEnd(ps, start)
      {
        if ps[end].sectionId == Some(ps[start].id) {
          end := end + 1;
          continue;
        }
        break;
      }
      return end;
    }
    return start + 1;
  }

  /** The heads of the groups from index `i` on, in source order. */
  function GroupHeads(ps: seq<Paragraph>, i: nat): (heads: seq<nat>)
    requires i <= |ps|
    ensures forall k :: 0 <= k < |heads| ==> i <= heads[k] < |ps|
    ensures i < |ps| ==> |heads| > 0 && heads[0] == i
    decreases |ps| - i
  {
    if i == |ps| then [] else [i] + GroupHeads(ps, GroupEnd(ps, i))
  }

  /** Walking by group ends covers the list: each head's group ends where the next one begins. */
  lemma {:induction false} GroupsPartition(ps: seq<Paragraph>, i: nat, k: nat)
    requires i <= |ps| && k < |GroupHeads(ps, i)|
    ensures GroupEnd(ps, GroupHeads(ps, i)[k]) ==
      if k + 1 < |GroupHeads(ps, i)| then GroupHeads(ps, i)[k+1] else |ps|
    decreases |ps| - i
  {
    if k > 0 {
      GroupsPartition(ps, GroupEnd(ps, i), k - 1);
    }
  }

  // ----- Numberings -----

  /** The `or_insert_with` step: a fresh id takes the next number. */
  function Assign(m: map<Id, nat>, x: Id): (r: map<Id, nat>)
    ensures r.Keys == m.Keys + {x}
    ensures |r| == if x in m then |m| else |m| + 1
  {
    if x in m then m
    else
      var r := m[x := |m| + 1];
      assert |r.Keys| == |m.Keys + {x}|;
      r
  }

  function AssignAll(m: map<Id, nat>, ids: seq<Id>): (r: map<Id, nat>)
    decreases |ids|
  {
    if ids == [] then m else AssignAll(Assign(m, ids[0]), ids[1..])
  }

  function Numbering(ids: seq<Id>): map<Id, nat> {
    AssignAll(map[], ids)
  }

  ghost predicate HasLabel(m: map<Id, nat>, v: nat) {
    exists x :: x in m && m[x] == v
  }

  /** The map is a bijection between its keys and 1..n. */
  ghost predicate Dense(m: map<Id, nat>) {
    && (forall x :: x in m ==> 1 <= m[x] <= |m|)
    && (forall x, y :: x in m && y in m && m[x] == m[y] ==> x == y)
    && (forall v: nat :: HasLabel(m, v) <==> 1 <= v <= |m|)
  }

  lemma {:induction false} AssignKeepsDense(m: map<Id, nat>, x: Id)
    requires Dense(m)
    ensures Dense(Assign(m, x))
  {
    if x !in m {
      var r := Assign(m, x);
      forall v: nat ensures HasLabel(r, v) <==> 1 <= v <= |r| {
        if 1 <= v <= |m| {
          assert HasLabel(m, v);
          var y :| y in m && m[y] == v;
          assert y in r && r[y] == v;
        } else if v == |r| {
          assert x in r && r[x] == v;
        }
      }
    }
  }

  /** Numbering by first occurrence is a bijection from the ids onto 1..n. */
  lemma {:induction false} AssignAllIsDense(m: map<Id, nat>, ids: seq<Id>)
    requires Dense(m)
    ensures Dense(AssignAll(m, ids))
    decreases |ids|
  {
    if ids != [] {
      AssignKeepsDense(m, ids[0]);
      AssignAllIsDense(Assign(m, ids[0]), ids[1..]);
    }
  }

  /** Numbering adds exactly the ids, keeps the numbers given before, and hands out only larger ones. */
  lemma {:induction false} AssignAllExtends(m: map<Id, nat>, ids: seq<Id>, x: Id)
    ensures x in AssignAll(m, ids) <==> x in m || x in ids
    ensures x in m ==> AssignAll(m, ids)[x] == m[x]
    ensures x in ids && x !in m ==> |m| < AssignAll(m, ids)[x]
    ensures |m| <= |AssignAll(m, ids)|
    decreases |ids|
  {
    if ids != [] {
      assert ids == [ids[0]] + ids[1..];
      AssignAllExtends(Assign(m, ids[0]), ids[1..], x);
    }
  }

  /** An id whose first occurrence is earlier gets the smaller number. */
  lemma {:induction false} AssignAllKeepsOrder(m: map<Id, nat>, ids: seq<Id>, i: nat, j: nat)
    requires i < j < |ids|
    requires ids[i] !in m && ids[j] !in m && ids[j] !in ids[..j]
    ensures ids[i] in AssignAll(m, ids) && ids[j] in AssignAll(m, ids)
    ensures AssignAll(m, ids)[ids[i]] < AssignAll(m, ids)[ids[j]]
    decreases |ids|
  {
    var m', rest := Assign(m, ids[0]), ids[1..];
    assert rest[j-1] == ids[j] && ids[..j][0] == ids[0];
    if ids[i] == ids[0] {
      AssignAllExtends(m', rest, ids[i]);
      AssignAllExtends(m', rest, ids[j]);
    } else {
      assert rest[i-1] == ids[i] && rest[..j-1] == ids[..j][1..];
      AssignAllKeepsOrder(m', rest, i - 1, j - 1);
    }
  }

  ghost predicate Fresh(m: map<Id, nat>, ids: seq<Id>, n: nat)
    requires n <= |ids|
  {
    && (forall i, j :: 0 <= i < j < n ==> ids[i] != ids[j])
    && (forall i :: 0 <= i < n ==> ids[i] !in m)
  }

  lemma {:induction false} FreshRest(m: map<Id, nat>, ids: seq<Id>, n: nat)
    requires 0 < n <= |ids| && Fresh(m, ids, n)
    ensures Fresh(Assign(m, ids[0]), ids[1..], n - 1)
  {
  }

  /** The first of fresh ids takes the next number, and what follows does not change it. */
  lemma {:induction false} FirstFresh(m: map<Id, nat>, ids: seq<Id>, n: nat)
    requires 0 < n <= |ids| && Fresh(m, ids, n)
    ensures |Assign(m, ids[0])| == |m| + 1
    ensures ids[0] in AssignAll(m, ids) && AssignAll(m, ids)[ids[0]] == |m| + 1
  {
    assert ids[0] !in m;
    AssignAllExtends(Assign(m, ids[0]), ids[1..], ids[0]);
  }

  /** A prefix without repetitions is numbered by position, whatever follows it. */
  lemma {:induction false} DistinctPrefixIsNumberedByPosition(m: map<Id, nat>, ids: seq<Id>, n: nat, k: nat)
    requires k < n <= |ids| && Fresh(m, ids, n)
    ensures ids[k] in AssignAll(m, ids) && AssignAll(m, ids)[ids[k]] == |m| + k + 1
    decreases |ids|
  {
    FirstFresh(m, ids, n);
    if k > 0 {
      FreshRest(m, ids, n);
      DistinctPrefixIsNumberedByPosition(Assign(m, ids[0]), ids[1..], n - 1, k - 1);
      assert AssignAll(m, ids) == AssignAll(Assign(m, ids[0]), ids[1..]);
    }
  }

  // ----- The label maps -----

  /** The global numbering: paragraphs in order, then label statements of the body not yet numbered. */
  function EntryLabels(ps: seq<Paragraph>, bodyLabels: seq<Id>): map<Id, nat> {
    AssignAll(Numbering(Ids(ps)), bodyLabels)
  }

  method BuildEntryLabelMap(ps: seq<Paragraph>, bodyLabels: seq<Id>) returns (labels: map<Id, nat>)
    ensures labels == EntryLabels(ps, bodyLabels)
  {
    labels := map[];
    var nextId := 1;
    for i := 0 to |ps|
      invariant AssignAll(labels, Ids(ps)[i..]) == Numbering(Ids(ps)) && nextId == |labels| + 1
    {
      if ps[i].id !in labels {
        assert Ids(ps)[i..][1..] == Ids(ps)[i+1..];
        assert labels[ps[i].id := nextId] == Assign(labels, ps[i].id);
        labels := labels[ps[i].id := nextId];
        nextId := nextId + 1;
      }
    }
    for i := 0 to |bodyLabels|
      invariant AssignAll(labels, bodyLabels[i..]) == EntryLabels(ps, bodyLabels) && nextId == |labels| + 1
    {
      if bodyLabels[i] !in labels {
        assert bodyLabels[i..][1..] == bodyLabels[i+1..];
        assert labels[bodyLabels[i] := nextId] == Assign(labels, bodyLabels[i]);
        labels := labels[bodyLabels[i] := nextId];
        nextId := nextId + 1;
      }
    }
  }

  /** Paragraph `p` has global label p + 1. */
  lemma {:induction false} EntryLabelIsPosition(ps: seq<Paragraph>, bodyLabels: seq<Id>, p: nat)
    requires UniqueIds(ps) && p < |ps|
    ensures ps[p].id in EntryLabels(ps, bodyLabels) && EntryLabels(ps, bodyLabels)[ps[p].id] == p + 1
    ensures Dense(EntryLabels(ps, bodyLabels))
    ensures |ps| <= |EntryLabels(ps, bodyLabels)|
  {
    var ids, last := Ids(ps), ps[|ps|-1].id;
    DistinctPrefixIsNumberedByPosition(map[], ids, |ps|, p);
    DistinctPrefixIsNumberedByPosition(map[], ids, |ps|, |ps| - 1);
    assert ids[p] == ps[p].id && ids[|ps|-1] == last;
    AssignAllIsDense(map[], ids);
    AssignAllIsDense(Numbering(ids), bodyLabels);
    AssignAllExtends(Numbering(ids), bodyLabels, ps[p].id);
    AssignAllExtends(Numbering(ids), bodyLabels, last);
  }

  /** The ids numbered inside the merged function of the group [start, end). */
  function GroupLabelIds(ps: seq<Paragraph>, start: nat, end: nat): (ids: seq<Id>)
    requires start <= end <= |ps|
    decreases end - start
  {
    if start == end then [] else [ps[start].id] + ps[start].labels + GroupLabelIds(ps, start + 1, end)
  }

  function GroupLabels(ps: seq<Paragraph>, start: nat, end: nat): map<Id, nat>
    requires start <= end <= |ps|
  {
    Numbering(GroupLabelIds(ps, start, end))
  }

  ghost predicate NamedAt(ps: seq<Paragraph>, i: nat, x: Id) {
    i < |ps| && (x == ps[i].id || x in ps[i].labels)
  }

  lemma {:induction false} GroupLabelIdsMembers(ps: seq<Paragraph>, start: nat, end: nat, x: Id)
    requires start <= end <= |ps|
    ensures x in GroupLabelIds(ps, start, end) <==> exists i :: start <= i < end && NamedAt(ps, i, x)
    decreases end - start
  {
    if start < end {
      GroupLabelIdsMembers(ps, start + 1, end, x);
      var inner, rest := [ps[start].id] + ps[start].labels, GroupLabelIds(ps, start + 1, end);
      assert GroupLabelIds(ps, start, end) == inner + rest;
      assert x in inner <==> NamedAt(ps, start, x);
    }
  }

  /** For a paragraph of a well-formed program, being local to a group's function means standing in the group. */
  lemma {:induction false} LocalMeansInGroup(ps: seq<Paragraph>, start: nat, end: nat, p: nat)
    requires WellFormed(ps) && start <= end <= |ps| && p < |ps|
    ensures ps[p].id in GroupLabels(ps, start, end) <==> start <= p < end
  {
    AssignAllExtends(map[], GroupLabelIds(ps, start, end), ps[p].id);
    GroupLabelIdsMembers(ps, start, end, ps[p].id);
    if start <= p < end { assert NamedAt(ps, p, ps[p].id); }
    forall i | start <= i < end && NamedAt(ps, i, ps[p].id) ensures i == p {
      assert LabelsAreInner(ps, i);
    }
  }

  lemma {:induction false} AssignAllAppend(m: map<Id, nat>, xs: seq<Id>, ys: seq<Id>)
    ensures AssignAll(m, xs + ys) == AssignAll(AssignAll(m, xs), ys)
    decreases |xs|
  {
    if xs == [] {
      assert xs + ys == ys;
    } else {
      assert (xs + ys)[1..] == xs[1..] + ys;
      AssignAllAppend(Assign(m, xs[0]), xs[1..], ys);
    }
  }

  /** Each paragraph's own label map, in the order its iteration yields the keys, which is not specified. */
  ghost predicate YieldsLabels(ps: seq<Paragraph>, yielded: seq<seq<Id>>) {
    |yielded| == |ps| && forall i: nat :: i < |ps| ==> YieldsLabelsAt(ps, yielded, i)
  }

  ghost predicate YieldsLabelsAt(ps: seq<Paragraph>, yielded: seq<seq<Id>>, i: nat)
    requires i < |ps| && |yielded| == |ps|
  {
    forall x :: x in yielded[i] <==> NamedAt(ps, i, x)
  }

  /** The ids a merged function numbers, in the order it meets them. */
  function YieldedIds(ps: seq<Paragraph>, yielded: seq<seq<Id>>, start: nat, end: nat): seq<Id>
    requires |yielded| == |ps| && start <= end <= |ps|
    decreases end - start
  {
    if start == end then [] else [ps[start].id] + yielded[start] + YieldedIds(ps, yielded, start + 1, end)
  }

  /** Paragraph i yields x exactly when it has the name x. */
  ghost predicate YieldsAt(ps: seq<Paragraph>, yielded: seq<seq<Id>>, i: nat, x: Id)
    requires |yielded| == |ps|
  {
    i < |ps| && (x in yielded[i] <==> x == ps[i].id || x in ps[i].labels)
  }

  lemma {:induction false} YieldedIdsMembers(ps: seq<Paragraph>, yielded: seq<seq<Id>>, start: nat, end: nat, x: Id)
    requires |yielded| == |ps| && start <= end <= |ps|
    requires forall i: nat :: start <= i < end ==> YieldsAt(ps, yielded, i, x)
    ensures x in YieldedIds(ps, yielded, start, end) <==> x in GroupLabelIds(ps, start, end)
    decreases end - start
  {
    if start < end {
      YieldedIdsMembers(ps, yielded, start + 1, end, x);
      assert YieldsAt(ps, yielded, start, x);
      SameMembers(x, ps[start].id, yielded[start], YieldedIds(ps, yielded, start + 1, end),
        ps[start].labels, GroupLabelIds(ps, start + 1, end));
    }
  }

  lemma {:induction false} SameMembers(x: Id, id: Id, keys: seq<Id>, keysAfter: seq<Id>, labels: seq<Id>, labelsAfter: seq<Id>)
    requires x in keys <==> x == id || x in labels
    requires x in keysAfter <==> x in labelsAfter
    ensures x in [id] + keys + keysAfter <==> x in [id] + labels + labelsAfter
  {
    assert x in [id] + keys <==> x in [id] + labels;
  }

  /**
    The local numbering of a merged function: first occurrences in the order met, so dense, and of
    the same ids whatever that order is.
  */
  method BuildMergedLabelMap(ps: seq<Paragraph>, yielded: seq<seq<Id>>, start: nat, end: nat) returns (labels: map<Id, nat>)
    requires YieldsLabels(ps, yielded) && start <= end <= |ps|
    ensures labels == Numbering(YieldedIds(ps, yielded, start, end)) && Dense(labels)
    ensures forall x :: x in labels <==> x in GroupLabels(ps, start, end)
  {
    labels := map[];
    var nextId := 1;
    for i := start to end
      invariant AssignAll(labels, YieldedIds(ps, yielded, i, end)) == Numbering(YieldedIds(ps, yielded, start, end))
      invariant nextId == |labels| + 1
    {
      NumberedNext(labels, ps, yielded, i, end);
      labels, nextId := NumberInner(labels, nextId, [ps[i].id] + yielded[i]);
    }
    MergedLabels(ps, yielded, start, end);
  }

  /** Numbering one paragraph's names and then those after it. */
  lemma {:induction false} NumberedNext(labels: map<Id, nat>, ps: seq<Paragraph>, yielded: seq<seq<Id>>, i: nat, end: nat)
    requires |yielded| == |ps| && i < end <= |ps|
    ensures AssignAll(labels, YieldedIds(ps, yielded, i, end)) ==
      AssignAll(AssignAll(labels, [ps[i].id] + yielded[i]), YieldedIds(ps, yielded, i + 1, end))
  {
    var inner := [ps[i].id] + yielded[i];
    assert YieldedIds(ps, yielded, i, end) == inner + YieldedIds(ps, yielded, i + 1, end);
    AssignAllAppend(labels, inner, YieldedIds(ps, yielded, i + 1, end));
  }

  lemma {:induction false} MergedLabels(ps: seq<Paragraph>, yielded: seq<seq<Id>>, start: nat, end: nat)
    requires YieldsLabels(ps, yielded) && start <= end <= |ps|
    ensures var labels := Numbering(YieldedIds(ps, yielded, start, end));
      Dense(labels) && forall x :: x in labels <==> x in GroupLabels(ps, start, end)
  {
    var ids := YieldedIds(ps, yielded, start, end);
    AssignAllIsDense(map[], ids);
    forall x ensures x in Numbering(ids) <==> x in GroupLabels(ps, start, end) {
      AssignAllExtends(map[], ids, x);
      AssignAllExtends(map[], GroupLabelIds(ps, start, end), x);
      forall i: nat | start <= i < end ensures YieldsAt(ps, yielded, i, x) { assert YieldsLabelsAt(ps, yielded, i); }
      YieldedIdsMembers(ps, yielded, start, end, x);
    }
  }

  /** The numbering of one paragraph's own id and inner labels into the merged map. */
  method NumberInner(before: map<Id, nat>, firstFree: nat, ids: seq<Id>)
    returns (labels: map<Id, nat>, nextId: nat)
    requires firstFree == |before| + 1
    ensures labels == AssignAll(before, ids) && nextId == |labels| + 1
  {
    labels, nextId := before, firstFree;
    for j := 0 to |ids|
      invariant AssignAll(labels, ids[j..]) == AssignAll(before, ids) && nextId == |labels| + 1
    {
      if ids[j] !in labels {
        assert ids[j..][1..] == ids[j+1..];
        assert labels[ids[j] := nextId] == Assign(labels, ids[j]);
        labels := labels[ids[j] := nextId];
        nextId := nextId + 1;
      }
    }
  }

  // ----- Fall-through maps -----

  ghost predicate Listed(ordered: seq<(nat, Id)>, x: Id) {
    exists i :: 0 <= i < |ordered| && ordered[i].1 == x
  }

  ghost predicate Ascending(labels: map<Id, nat>, ordered: seq<(nat, Id)>) {
    && (forall i, j :: 0 <= i < j < |ordered| ==> ordered[i].0 < ordered[j].0)
    && (forall i :: 0 <= i < |ordered| ==> ordered[i].1 in labels && labels[ordered[i].1] == ordered[i].0)
  }

  ghost predicate SortedListing(labels: map<Id, nat>, ordered: seq<(nat, Id)>) {
    && Ascending(labels, ordered)
    && (forall x :: x in labels ==> Listed(ordered, x))
  }

  method SmallestLabel(labels: map<Id, nat>, among: set<Id>) returns (x: Id)
    requires among != {} && among <= labels.Keys
    ensures x in among && forall y :: y in among ==> labels[x] <= labels[y]
  {
    x :| x in among;
    var todo := among - {x};
    while todo != {}
      invariant x in among && todo <= among
      invariant forall y :: y in among ==> y in todo || labels[x] <= labels[y]
    {
      var y :| y in todo;
      if labels[y] < labels[x] { x := y; }
      todo := todo - {y};
    }
  }

  /** The entries of a label map sorted by label, as the unstable sort leaves distinct keys. */
  method SortByLabel(labels: map<Id, nat>) returns (ordered: seq<(nat, Id)>)
    requires forall x, y :: x in labels && y in labels && labels[x] == labels[y] ==> x == y
    ensures SortedListing(labels, ordered)
  {
    ordered := [];
    var todo := labels.Keys;
    while todo != {}
      invariant todo <= labels.Keys
      invariant Ascending(labels, ordered)
      invariant forall x :: x in todo && |ordered| > 0 ==> ordered[|ordered|-1].0 < labels[x]
      invariant forall x :: x in labels ==> x in todo || Listed(ordered, x)
      decreases |todo|
    {
      var x := SmallestLabel(labels, todo);
      ListedInExtension(ordered, (labels[x], x));
      AscendingExtension(labels, ordered, x);
      ordered := ordered + [(labels[x], x)];
      todo := todo - {x};
    }
  }

  lemma {:induction false} AscendingExtension(labels: map<Id, nat>, ordered: seq<(nat, Id)>, x: Id)
    requires Ascending(labels, ordered) && x in labels
    requires |ordered| > 0 ==> ordered[|ordered|-1].0 < labels[x]
    ensures Ascending(labels, ordered + [(labels[x], x)])
  {
  }

  lemma {:induction false} ListedInExtension(ordered: seq<(nat, Id)>, entry: (nat, Id))
    ensures forall y :: Listed(ordered, y) || y == entry.1 ==> Listed(ordered + [entry], y)
  {
    var grown := ordered + [entry];
    forall y | Listed(ordered, y) || y == entry.1 ensures Listed(grown, y) {
      if Listed(ordered, y) {
        var i :| 0 <= i < |ordered| && ordered[i].1 == y;
        assert grown[i].1 == y;
      } else {
        assert grown[|ordered|].1 == y;
      }
    }
  }

  /** `v` is the smallest label above `u`. */
  ghost predicate IsNextLabel(labels: map<Id, nat>, u: nat, v: nat) {
    && HasLabel(labels, v)
    && u < v
    && forall x :: x in labels && u < labels[x] ==> v <= labels[x]
  }

  /** Each labelled paragraph that has a label above its own is sent to the next label in numeric order. */
  ghost predicate IsNextLabelMap(known: set<Id>, labels: map<Id, nat>, next: map<Id, nat>) {
    && (forall x :: x in next ==> x in labels && x in known && IsNextLabel(labels, labels[x], next[x]))
    && (forall x, y :: x in labels && x in known && y in labels && labels[x] < labels[y] ==> x in next)
  }

  /** The map after the first `k` windows of a sorted listing. */
  ghost predicate NextSoFar(known: set<Id>, labels: map<Id, nat>, ordered: seq<(nat, Id)>, next: map<Id, nat>, k: nat)
    requires k < |ordered|
  {
    && (forall i :: 0 <= i < k ==> (ordered[i].1 in known <==> ordered[i].1 in next))
    && (forall i :: 0 <= i < k && ordered[i].1 in next ==> next[ordered[i].1] == ordered[i+1].0)
    && (forall x :: x in next ==> x in known && x in labels && labels[x] < ordered[k].0)
  }

  lemma {:induction false} NextStep(known: set<Id>, labels: map<Id, nat>, ordered: seq<(nat, Id)>, next: map<Id, nat>, k: nat)
    requires Ascending(labels, ordered) && k + 1 < |ordered| && NextSoFar(known, labels, ordered, next, k)
    ensures var next' := if ordered[k].1 in known then next[ordered[k].1 := ordered[k+1].0] else next;
      NextSoFar(known, labels, ordered, next', k + 1)
  {
  }

  method BuildNextLabelMap(ps: seq<Paragraph>, labels: map<Id, nat>) returns (next: map<Id, nat>)
    requires forall x, y :: x in labels && y in labels && labels[x] == labels[y] ==> x == y
    ensures IsNextLabelMap((set x | x in Ids(ps)), labels, next)
  {
    var known := set x | x in Ids(ps);
    next := map[];
    var ordered := SortByLabel(labels);
    if ordered == [] {
      assert forall x :: x in labels ==> Listed(ordered, x);
      return;
    }
    var k := 0;
    while k + 1 < |ordered|
      invariant 0 <= k < |ordered| && NextSoFar(known, labels, ordered, next, k)
    {
      NextStep(known, labels, ordered, next, k);
      if ordered[k].1 in known {
        next := next[ordered[k].1 := ordered[k+1].0];
      }
      k := k + 1;
    }
    NextMapFromListing(known, labels, ordered, next);
  }

  lemma {:induction false} NextLabelFromListing(known: set<Id>, labels: map<Id, nat>, ordered: seq<(nat, Id)>, next: map<Id, nat>, x: Id)
    requires SortedListing(labels, ordered) && ordered != []
    requires NextSoFar(known, labels, ordered, next, |ordered| - 1) && x in next
    ensures IsNextLabel(labels, labels[x], next[x])
  {
    assert Listed(ordered, x);
    var i :| 0 <= i < |ordered| && ordered[i].1 == x;
    assert ordered[i+1].1 in labels && labels[ordered[i+1].1] == next[x];
    forall y | y in labels && labels[x] < labels[y] ensures next[x] <= labels[y] {
      assert Listed(ordered, y);
      var j :| 0 <= j < |ordered| && ordered[j].1 == y;
    }
  }

  lemma {:induction false} NextMapFromListing(known: set<Id>, labels: map<Id, nat>, ordered: seq<(nat, Id)>, next: map<Id, nat>)
    requires SortedListing(labels, ordered) && ordered != []
    requires NextSoFar(known, labels, ordered, next, |ordered| - 1)
    ensures IsNextLabelMap(known, labels, next)
  {
    forall x | x in next ensures IsNextLabel(labels, labels[x], next[x]) {
      NextLabelFromListing(known, labels, ordered, next, x);
    }
    forall x, y | x in labels && x in known && y in labels && labels[x] < labels[y] ensures x in next {
      assert Listed(ordered, x) && Listed(ordered, y);
      var i :| 0 <= i < |ordered| && ordered[i].1 == x;
      var j :| 0 <= j < |ordered| && ordered[j].1 == y;
      assert i < j;
    }
  }

  /** In a dense numbering the next label is the successor. */
  lemma {:induction false} NextOfDense(known: set<Id>, labels: map<Id, nat>, next: map<Id, nat>, x: Id)
    requires Dense(labels) && IsNextLabelMap(known, labels, next)
    requires x in labels && x in known
    ensures x in next <==> labels[x] < |labels|
    ensures x in next ==> next[x] == labels[x] + 1
  {
    if labels[x] < |labels| {
      assert HasLabel(labels, labels[x] + 1);
      var y :| y in labels && labels[y] == labels[x] + 1;
    }
    if x in next {
      assert IsNextLabel(labels, labels[x], next[x]);
      assert HasLabel(labels, next[x]);
    }
  }

  /** The ids of the group heads that carry a label and stand outside any section. */
  function TopLevelEntryIds(ps: seq<Paragraph>, labels: map<Id, nat>, i: nat): seq<Id>
    requires i <= |ps|
    decreases |ps| - i
  {
    if i == |ps| then []
    else
      (if ps[i].sectionId.None? && ps[i].id in labels then [ps[i].id] else []) +
      TopLevelEntryIds(ps, labels, GroupEnd(ps, i))
  }

  method TopLevelGroupEntryIds(ps: seq<Paragraph>, labels: map<Id, nat>) returns (ids: seq<Id>)
    ensures ids == TopLevelEntryIds(ps, labels, 0)
  {
    ids := [];
    var i := 0;
    while i < |ps|
      invariant i <= |ps|
      invariant ids + TopLevelEntryIds(ps, labels, i) == TopLevelEntryIds(ps, labels, 0)
    {
      var rest := TopLevelEntryIds(ps, labels, GroupEnd(ps, i));
      assert ids + ([ps[i].id] + rest) == ids + [ps[i].id] + rest && ids + ([] + rest) == ids + rest;
      if ps[i].sectionId.None? && ps[i].id in labels {
        ids := ids + [ps[i].id];
      }
      i := ParagraphGroupEnd(ps, i);
    }
  }

  /** Each id but the last, sent to the label of the one after it; `m` is what earlier pairs left. */
  function Successors(m: map<Id, nat>, ids: seq<Id>, labels: map<Id, nat>): map<Id, nat>
    decreases |ids|
  {
    if |ids| < 2 then m
    else Successors(if ids[1] in labels then m[ids[0] := labels[ids[1]]] else m, ids[1..], labels)
  }

  function TopLevelNext(ps: seq<Paragraph>, labels: map<Id, nat>): map<Id, nat> {
    Successors(map[], TopLevelEntryIds(ps, labels, 0), labels)
  }

  method BuildTopLevelNextLabelMap(ps: seq<Paragraph>, labels: map<Id, nat>) returns (next: map<Id, nat>)
    ensures next == TopLevelNext(ps, labels)
  {
    var topLevel := TopLevelGroupEntryIds(ps, labels);
    next := map[];
    var k := 0;
    while k + 1 < |topLevel|
      invariant 0 <= k && (if topLevel == [] then k == 0 && next == map[] else k < |topLevel|)
      invariant topLevel != [] ==> Successors(next, topLevel[k..], labels) == TopLevelNext(ps, labels)
    {
      assert topLevel[k..][1..] == topLevel[k+1..];
      if topLevel[k+1] in labels {
        next := next[topLevel[k] := labels[topLevel[k+1]]];
      }
      k := k + 1;
    }
  }

  /** With distinct, labelled ids the successor map sends each id to the label of the one after it, and only those. */
  lemma {:induction false} SuccessorsAreNext(m: map<Id, nat>, ids: seq<Id>, labels: map<Id, nat>)
    requires forall i, j :: 0 <= i < j < |ids| ==> ids[i] != ids[j]
    requires forall i :: 0 <= i < |ids| ==> ids[i] in labels && (i > 0 ==> ids[i] !in m)
    ensures var s := Successors(m, ids, labels);
      && (forall i :: 0 <= i < |ids| - 1 ==> ids[i] in s && s[ids[i]] == labels[ids[i+1]])
      && (|ids| > 1 ==> ids[|ids|-1] !in s)
      && (forall x :: x in m && x !in ids ==> x in s && s[x] == m[x])
    decreases |ids|
  {
    if |ids| >= 2 {
      var m', rest := m[ids[0] := labels[ids[1]]], ids[1..];
      assert ids == [ids[0]] + rest;
      assert ids[0] !in rest;
      SuccessorsAreNext(m', rest, labels);
      var s := Successors(m, ids, labels);
      assert s == Successors(m', rest, labels);
      forall i | 0 <= i < |ids| - 1 ensures ids[i] in s && s[ids[i]] == labels[ids[i+1]] {
        if i > 0 { assert rest[i-1] == ids[i] && rest[i] == ids[i+1]; }
      }
    }
  }

  lemma {:induction false} SuccessorsKeys(m: map<Id, nat>, ids: seq<Id>, labels: map<Id, nat>, x: Id)
    ensures x in Successors(m, ids, labels) ==> x in m || x in ids
    decreases |ids|
  {
    if |ids| >= 2 {
      SuccessorsKeys(if ids[1] in labels then m[ids[0] := labels[ids[1]]] else m, ids[1..], labels, x);
    }
  }
}
