/**
  The emitted C program: an outer `while (_goto_target) switch` over the global labels, one
  merged function per section with members, one isolated function per other paragraph, what its
  tables say about a well-formed program, and the run of bodies it amounts to.
*/
module Dispatch {
  import opened Options
  import opened ParagraphLabels
  import opened ParagraphFlow
  import opened Stuttering

  // ----- The tables -----

  datatype Tables = Tables(entry: map<Id, nat>, next: map<Id, nat>, topLevelNext: map<Id, nat>)

  ghost predicate Compiled(ps: seq<Paragraph>, bodyLabels: seq<Id>, t: Tables) {
    && t.entry == EntryLabels(ps, bodyLabels)
    && IsNextLabelMap((set x | x in Ids(ps)), t.entry, t.next)
    && t.topLevelNext == TopLevelNext(ps, t.entry)
  }

  method CompileTables(ps: seq<Paragraph>, bodyLabels: seq<Id>) returns (t: Tables)
    requires UniqueIds(ps)
    ensures Compiled(ps, bodyLabels, t)
  {
    var entry := BuildEntryLabelMap(ps, bodyLabels);
    AssignAllIsDense(map[], Ids(ps));
    AssignAllIsDense(Numbering(Ids(ps)), bodyLabels);
    var next := BuildNextLabelMap(ps, entry);
    var topLevelNext := BuildTopLevelNextLabelMap(ps, entry);
    t := Tables(entry, next, topLevelNext);
  }

  /** The label assigned when the case of `id` returns with no pending transfer. */
  function CaseNext(t: Tables, id: Id): Option<nat> {
    if id in t.topLevelNext then Some(t.topLevelNext[id])
    else if id in t.next then Some(t.next[id])
    else None
  }

  /** The `case` of the outer switch that label `v` selects, searching from paragraph `i`. */
  function FindCase(ps: seq<Paragraph>, t: Tables, v: nat, i: nat): (p: Option<nat>)
    requires i <= |ps|
    ensures p.Some? ==> p.value < |ps|
    decreases |ps| - i
  {
    if i == |ps| then None
    else if ps[i].id in t.entry && t.entry[ps[i].id] == v then Some(i)
    else FindCase(ps, t, v, i + 1)
  }

  /** Whether the function of `p` is the merged function of a section with members. */
  predicate MergedHead(ps: seq<Paragraph>, p: nat)
    requires p < |ps|
  {
    p in GroupHeads(ps, 0) && GroupEnd(ps, p) > p + 1
  }

  // ----- The machine -----

  datatype Control =
    | Loop                          // outer `while (_goto_target)`
    | Enter(p: nat)                 // `case` of p: calling its function
    | AtMerged(head: nat, p: nat)   // at `lbl_p` in the merged function of head
    | InnerDispatch(head: nat)      // at `_goto_dispatch` of a merged function
    | AtIsolated(p: nat)            // at `lbl_p` in the isolated function of p
    | IsolatedDispatch(p: nat)      // at `_goto_dispatch` of an isolated function
    | Returned(p: nat)              // back in the `case` of p
    | Halted

  datatype Machine = Machine(control: Control, gotoTarget: nat, trace: seq<Id>)

  ghost predicate InBounds(ps: seq<Paragraph>, c: Control) {
    match c
    case Loop => true
    case Halted => true
    case Enter(p) => p < |ps|
    case AtMerged(h, p) => h < |ps| && h <= p < GroupEnd(ps, h)
    case InnerDispatch(h) => h < |ps|
    case AtIsolated(p) => p < |ps|
    case IsolatedDispatch(p) => p < |ps|
    case Returned(p) => p < |ps|
  }

  /** The paragraph of [i, end) that a local label `v` of the merged function stands for. */
  function FindLocal(ps: seq<Paragraph>, labels: map<Id, nat>, v: nat, i: nat, end: nat): (p: Option<nat>)
    requires i <= end <= |ps|
    ensures p.Some? ==> i <= p.value < end
    decreases end - i
  {
    if i == end then None
    else if ps[i].id in labels && labels[ps[i].id] == v then Some(i)
    else FindLocal(ps, labels, v, i + 1, end)
  }

  /** GO TO inside a function: a local C `goto`, or a pending global label and `return`. */
  function Transfer(ps: seq<Paragraph>, t: Tables, target: Id, start: nat, end: nat, owner: nat,
                    land: nat -> Control, m: Machine): Machine
    requires start <= end <= |ps| && target in Ids(ps) && target in t.entry
  {
    if target in GroupLabels(ps, start, end) && start <= IndexOf(ps, target) < end
    then m.(control := land(IndexOf(ps, target)))
    else m.(control := Returned(owner), gotoTarget := t.entry[target])
  }

  function Step(ps: seq<Paragraph>, t: Tables, beh: Behaviour, m: Machine): Machine
    requires Resolved(ps, beh) && InBounds(ps, m.control)
    requires forall x :: x in Ids(ps) ==> x in t.entry
  {
    match m.control
    case Halted => m
    case Loop =>
      if m.gotoTarget == 0 then m.(control := Halted)
      else
        (match FindCase(ps, t, m.gotoTarget, 0)
         case Some(p) => m.(control := Enter(p), gotoTarget := 0)
         case None => m.(control := Halted, gotoTarget := 0))
    case Enter(p) =>
      if MergedHead(ps, p) then
        if m.gotoTarget != 0 then m.(control := InnerDispatch(p)) else m.(control := AtMerged(p, p))
      else m.(control := AtIsolated(p), gotoTarget := 0)
    case AtMerged(h, p) =>
      var m' := m.(trace := m.trace + [ps[p].id]);
      (match beh(m'.trace)
       case FallThrough => m'.(control := if p + 1 < GroupEnd(ps, h) then AtMerged(h, p + 1) else InnerDispatch(h))
       case ExitParagraph => m'.(control := Returned(h))
       case ExitSection => m'.(control := Returned(h))
       case StopRun => m'.(control := Halted)
       case GoTo(target) => Transfer(ps, t, target, h, GroupEnd(ps, h), h, (q: nat) => AtMerged(h, q), m'))
    case InnerDispatch(h) =>
      if m.gotoTarget == 0 then m.(control := Returned(h))
      else
        (match FindLocal(ps, GroupLabels(ps, h, GroupEnd(ps, h)), m.gotoTarget, h, GroupEnd(ps, h))
         case Some(p) => m.(control := AtMerged(h, p), gotoTarget := 0)
         case None => m.(control := Returned(h)))
    case AtIsolated(p) =>
      var m' := m.(trace := m.trace + [ps[p].id]);
      (match beh(m'.trace)
       case FallThrough => m'.(control := IsolatedDispatch(p))
       case ExitParagraph => m'.(control := Returned(p))
       case ExitSection => m'.(control := Returned(p))
       case StopRun => m'.(control := Halted)
       case GoTo(target) => Transfer(ps, t, target, p, p + 1, p, (q: nat) => AtIsolated(q), m'))
    case IsolatedDispatch(p) =>
      if m.gotoTarget == 0 then m.(control := Returned(p))
      else
        (match FindLocal(ps, GroupLabels(ps, p, p + 1), m.gotoTarget, p, p + 1)
         case Some(q) => m.(control := AtIsolated(q), gotoTarget := 0)
         case None => m.(control := Returned(p)))
    case Returned(p) =>
      var pending := if m.gotoTarget == 0 && CaseNext(t, ps[p].id).Some? then CaseNext(t, ps[p].id).value else m.gotoTarget;
      m.(control := Loop, gotoTarget := pending)
  }

  // ----- What the tables say about a well-formed program -----

  /** A group ends where the next top-level paragraph stands. */
  lemma {:induction false} GroupEndIsSectionEnd(ps: seq<Paragraph>, h: nat)
    requires WellFormed(ps) && h < |ps| && ps[h].sectionId.None?
    ensures GroupEnd(ps, h) == SectionEnd(ps, h)
    ensures forall p :: h <= p < GroupEnd(ps, h) ==> SectionEnd(ps, p) == GroupEnd(ps, h)
  {
    var e := GroupEnd(ps, h);
    if e < |ps| {
      assert FollowsItsSection(ps, e);
      if e - 1 > h { assert FollowsItsSection(ps, e - 1); }
    }
    forall p | h <= p < e ensures SectionEnd(ps, p) == e {
      FirstNonMember(ps, p + 1, e);
    }
  }

  lemma {:induction false} FirstNonMember(ps: seq<Paragraph>, i: nat, q: nat)
    requires i <= q <= |ps|
    requires forall k :: i <= k < q ==> ps[k].sectionId.Some?
    requires q < |ps| ==> ps[q].sectionId.None?
    ensures NextTopLevel(ps, i) == q
    decreases q - i
  {
    if i < q { FirstNonMember(ps, i + 1, q); }
  }

  /** In a well-formed program the group heads are exactly the top-level paragraphs. */
  lemma {:induction false} HeadsAreTopLevel(ps: seq<Paragraph>, i: nat, p: nat)
    requires WellFormed(ps) && i <= |ps| && i <= p < |ps|
    requires i < |ps| ==> ps[i].sectionId.None?
    ensures p in GroupHeads(ps, i) <==> ps[p].sectionId.None?
    decreases |ps| - i
  {
    GroupEndIsSectionEnd(ps, i);
    var e := GroupEnd(ps, i);
    if e <= p {
      HeadsAreTopLevel(ps, e, p);
    }
  }

  lemma {:induction false} TopLevelIdsAreHeads(ps: seq<Paragraph>, labels: map<Id, nat>, i: nat)
    requires WellFormed(ps) && i <= |ps| && (i < |ps| ==> ps[i].sectionId.None?)
    requires forall p :: 0 <= p < |ps| ==> ps[p].id in labels
    ensures var ids, hs := TopLevelEntryIds(ps, labels, i), GroupHeads(ps, i);
      |ids| == |hs| && forall k :: 0 <= k < |ids| ==> ids[k] == ps[hs[k]].id
    decreases |ps| - i
  {
    if i < |ps| {
      GroupEndIsSectionEnd(ps, i);
      TopLevelIdsAreHeads(ps, labels, GroupEnd(ps, i));
    }
  }

  lemma {:induction false} HeadsAscend(ps: seq<Paragraph>, i: nat)
    requires i <= |ps|
    ensures forall j, k :: 0 <= j < k < |GroupHeads(ps, i)| ==> GroupHeads(ps, i)[j] < GroupHeads(ps, i)[k]
    decreases |ps| - i
  {
    if i < |ps| { HeadsAscend(ps, GroupEnd(ps, i)); }
  }

  lemma {:induction false} TopLevelIdsDistinct(ps: seq<Paragraph>, labels: map<Id, nat>)
    requires WellFormed(ps) && |ps| > 0
    requires forall q :: 0 <= q < |ps| ==> ps[q].id in labels
    ensures var ids := TopLevelEntryIds(ps, labels, 0);
      && (forall i, j :: 0 <= i < j < |ids| ==> ids[i] != ids[j])
      && (forall i :: 0 <= i < |ids| ==> ids[i] in labels)
  {
    assert FollowsItsSection(ps, 0);
    TopLevelIdsAreHeads(ps, labels, 0);
    HeadsAscend(ps, 0);
  }

  /** What the top-level next map holds for the k-th head. */
  lemma {:induction false} TopLevelNextOfHead(ps: seq<Paragraph>, labels: map<Id, nat>, k: nat)
    requires WellFormed(ps) && k < |GroupHeads(ps, 0)|
    requires forall q :: 0 <= q < |ps| ==> ps[q].id in labels
    ensures var m, h := TopLevelNext(ps, labels), GroupHeads(ps, 0)[k];
      if GroupEnd(ps, h) < |ps|
      then ps[h].id in m && m[ps[h].id] == labels[ps[GroupEnd(ps, h)].id]
      else ps[h].id !in m
  {
    var hs, ids := GroupHeads(ps, 0), TopLevelEntryIds(ps, labels, 0);
    assert FollowsItsSection(ps, 0);
    TopLevelIdsAreHeads(ps, labels, 0);
    TopLevelIdsDistinct(ps, labels);
    SuccessorsAreNext(map[], ids, labels);
    GroupsPartition(ps, 0, k);
    assert ids[k] == ps[hs[k]].id;
    if k + 1 < |hs| { assert ids[k+1] == ps[hs[k+1]].id; }
  }

  lemma {:induction false} MemberIsNoEntry(ps: seq<Paragraph>, labels: map<Id, nat>, i: nat, p: nat)
    requires UniqueIds(ps) && i <= |ps| && p < |ps| && ps[p].sectionId.Some?
    ensures ps[p].id !in TopLevelEntryIds(ps, labels, i)
    decreases |ps| - i
  {
    if i < |ps| { MemberIsNoEntry(ps, labels, GroupEnd(ps, i), p); }
  }

  /** The top-level next map sends each head to the next head, and says nothing else. */
  lemma {:induction false} TopLevelNextOf(ps: seq<Paragraph>, bodyLabels: seq<Id>, labels: map<Id, nat>, p: nat)
    requires WellFormed(ps) && p < |ps| && labels == EntryLabels(ps, bodyLabels)
    ensures var m := TopLevelNext(ps, labels);
      if ps[p].sectionId.None? && GroupEnd(ps, p) < |ps|
      then ps[p].id in m && m[ps[p].id] == GroupEnd(ps, p) + 1
      else ps[p].id !in m
  {
    EntryLabelsAreTotal(ps, bodyLabels, labels);
    if ps[p].sectionId.None? {
      assert FollowsItsSection(ps, 0);
      HeadsAreTopLevel(ps, 0, p);
      var k :| 0 <= k < |GroupHeads(ps, 0)| && GroupHeads(ps, 0)[k] == p;
      TopLevelNextOfHead(ps, labels, k);
    } else {
      MemberIsNoEntry(ps, labels, 0, p);
      SuccessorsKeys(map[], TopLevelEntryIds(ps, labels, 0), labels, ps[p].id);
    }
  }

  /** The paragraph that follows when the case of `p` returns with nothing pending. */
  function After(ps: seq<Paragraph>, p: nat): nat
    requires p < |ps|
  {
    if ps[p].sectionId.None? && GroupEnd(ps, p) < |ps| then GroupEnd(ps, p) else p + 1
  }

  lemma {:induction false} EntryLabelsAreTotal(ps: seq<Paragraph>, bodyLabels: seq<Id>, labels: map<Id, nat>)
    requires UniqueIds(ps) && labels == EntryLabels(ps, bodyLabels)
    ensures forall q :: 0 <= q < |ps| ==> ps[q].id in labels && labels[ps[q].id] == q + 1
    ensures forall x :: x in Ids(ps) ==> x in labels
    ensures |ps| <= |labels|
    ensures Dense(labels)
  {
    forall q | 0 <= q < |ps| ensures ps[q].id in labels && labels[ps[q].id] == q + 1 {
      EntryLabelIsPosition(ps, bodyLabels, q);
    }
    EntryLabelsAreDense(ps, bodyLabels);
  }

  lemma {:induction false} EntryLabelsAreDense(ps: seq<Paragraph>, bodyLabels: seq<Id>)
    requires UniqueIds(ps)
    ensures Dense(EntryLabels(ps, bodyLabels)) && |ps| <= |EntryLabels(ps, bodyLabels)|
  {
    AssignAllIsDense(map[], Ids(ps));
    AssignAllIsDense(Numbering(Ids(ps)), bodyLabels);
    if ps != [] { EntryLabelIsPosition(ps, bodyLabels, 0); }
  }

  lemma {:induction false} CaseNextIsAfter(ps: seq<Paragraph>, bodyLabels: seq<Id>, t: Tables, p: nat)
    requires WellFormed(ps) && Compiled(ps, bodyLabels, t) && p < |ps|
    ensures After(ps, p) <= |ps|
    ensures After(ps, p) < |ps| ==> CaseNext(t, ps[p].id) == Some(After(ps, p) + 1)
    ensures After(ps, p) == |ps| ==> CaseNext(t, ps[p].id) == None || CaseNext(t, ps[p].id) == Some(|ps| + 1)
  {
    TopLevelNextOf(ps, bodyLabels, t.entry, p);
    NextOfParagraph(ps, bodyLabels, t, p);
    CaseNextFromMaps(ps, t, p);
  }

  lemma {:induction false} CaseNextFromMaps(ps: seq<Paragraph>, t: Tables, p: nat)
    requires p < |ps|
    requires var m := t.topLevelNext;
      if ps[p].sectionId.None? && GroupEnd(ps, p) < |ps|
      then ps[p].id in m && m[ps[p].id] == GroupEnd(ps, p) + 1
      else ps[p].id !in m
    requires p + 1 < |ps| ==> ps[p].id in t.next
    requires ps[p].id in t.next ==> t.next[ps[p].id] == p + 2
    ensures After(ps, p) <= |ps|
    ensures After(ps, p) < |ps| ==> CaseNext(t, ps[p].id) == Some(After(ps, p) + 1)
    ensures After(ps, p) == |ps| ==> CaseNext(t, ps[p].id) == None || CaseNext(t, ps[p].id) == Some(|ps| + 1)
  {
  }

  lemma {:induction false} NextOfParagraph(ps: seq<Paragraph>, bodyLabels: seq<Id>, t: Tables, p: nat)
    requires UniqueIds(ps) && Compiled(ps, bodyLabels, t) && p < |ps|
    ensures p + 1 < |ps| ==> ps[p].id in t.next
    ensures ps[p].id in t.next ==> t.next[ps[p].id] == p + 2
  {
    EntryLabelIsPosition(ps, bodyLabels, p);
    var known := set x | x in Ids(ps);
    assert Ids(ps)[p] == ps[p].id;
    NextOfDense(known, t.entry, t.next, ps[p].id);
  }

  lemma {:induction false} FindCaseOf(ps: seq<Paragraph>, bodyLabels: seq<Id>, t: Tables, v: nat, i: nat)
    requires WellFormed(ps) && Compiled(ps, bodyLabels, t)
    requires i < v && i <= |ps|
    ensures FindCase(ps, t, v, i) == if v <= |ps| then Some(v - 1) else None
    decreases |ps| - i
  {
    if i < |ps| {
      EntryLabelIsPosition(ps, bodyLabels, i);
      if i + 1 < v { FindCaseOf(ps, bodyLabels, t, v, i + 1); }
    }
  }

  // ----- The run of bodies the machine amounts to -----

  /** Where a body runs: in the merged function of a section, or in its own. */
  datatype Site = Merged(head: nat, p: nat) | Isolated(p: nat)

  ghost predicate ValidSite(ps: seq<Paragraph>, s: Site) {
    match s
    case Merged(h, p) => h < |ps| && ps[h].sectionId.None? && MergedHead(ps, h) && h <= p < GroupEnd(ps, h)
    case Isolated(p) => p < |ps| && !MergedHead(ps, p)
  }

  function EnterSite(ps: seq<Paragraph>, p: nat): Site
    requires p < |ps|
  {
    if MergedHead(ps, p) then Merged(p, p) else Isolated(p)
  }

  function Leave(ps: seq<Paragraph>, p: nat): Option<Site>
    requires p < |ps|
  {
    if After(ps, p) < |ps| then Some(EnterSite(ps, After(ps, p))) else None
  }

  function EmittedNext(ps: seq<Paragraph>, s: Site, o: Outcome): Option<Site>
    requires ValidSite(ps, s) && (o.GoTo? ==> o.target in Ids(ps))
  {
    match s
    case Merged(h, p) =>
      (match o
       case FallThrough => if p + 1 < GroupEnd(ps, h) then Some(Merged(h, p + 1)) else Leave(ps, h)
       case ExitParagraph => Leave(ps, h)
       case ExitSection => Leave(ps, h)
       case StopRun => None
       case GoTo(t) =>
         var q := IndexOf(ps, t);
         Some(if h <= q < GroupEnd(ps, h) then Merged(h, q) else EnterSite(ps, q)))
    case Isolated(p) =>
      (match o
       case StopRun => None
       case GoTo(t) => Some(EnterSite(ps, IndexOf(ps, t)))
       case _ => Leave(ps, p))
  }

  lemma {:induction false} EmittedNextIsValid(ps: seq<Paragraph>, s: Site, o: Outcome)
    requires WellFormed(ps) && ValidSite(ps, s) && (o.GoTo? ==> o.target in Ids(ps))
    ensures EmittedNext(ps, s, o).Some? ==> ValidSite(ps, EmittedNext(ps, s, o).value)
  {
    EnterSiteIsValid(ps);
  }

  lemma {:induction false} EnterSiteIsValid(ps: seq<Paragraph>)
    requires WellFormed(ps)
    ensures forall p :: 0 <= p < |ps| ==> ValidSite(ps, EnterSite(ps, p))
  {
    forall p | 0 <= p < |ps| ensures ValidSite(ps, EnterSite(ps, p)) {
      assert FollowsItsSection(ps, 0);
      HeadsAreTopLevel(ps, 0, p);
    }
  }

  /** One body of the emitted program. */
  ghost function EmittedStep(ps: seq<Paragraph>, beh: Behaviour, r: Run<Site>): Run<Site>
    requires Resolved(ps, beh)
  {
    if r.next.None? || !ValidSite(ps, r.next.value) then Run(None, r.trace)
    else
      var trace := r.trace + [ps[r.next.value.p].id];
      Run(EmittedNext(ps, r.next.value, beh(trace)), trace)
  }

  ghost function EmittedStepper(ps: seq<Paragraph>, beh: Behaviour): Run<Site> -> Run<Site>
    requires Resolved(ps, beh)
  {
    r => EmittedStep(ps, beh, r)
  }

  /** The run of bodies the emitted program makes, after at most `n` of them. */
  ghost function EmittedRun(ps: seq<Paragraph>, beh: Behaviour, start: nat, n: nat): Run<Site>
    requires Resolved(ps, beh) && start < |ps|
  {
    Iterate(EmittedStepper(ps, beh), Run(Some(EnterSite(ps, start)), []), n)
  }
}
