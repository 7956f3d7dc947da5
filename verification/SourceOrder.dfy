/**
  When the emitted program runs paragraph bodies in source order: exactly when every step it
  takes is faithful, with the programs for which it does not.
*/
module SourceOrder {
  import opened Options
  import opened ParagraphLabels
  import opened ParagraphFlow
  import opened Dispatch
  import opened DispatchRefinement
  import opened RunAgreement
  import opened Stuttering

  // ----- Faithful steps -----

  /** Whether the emitted code sends control where the source does when the body at `site` ends with `o`. */
  predicate Faithful(ps: seq<Paragraph>, site: Site, o: Outcome)
    requires ValidSite(ps, site)
  {
    match site
    case Merged(h, p) =>
      var end := GroupEnd(ps, h);
      (match o
       case FallThrough => p + 1 < end || end < |ps|
       case ExitParagraph => if end < |ps| then p + 1 == end else p == h
       case ExitSection => end < |ps|
       case _ => true)
    case Isolated(p) => o.ExitSection? ==> SectionEnd(ps, p) == p + 1
  }

  function Position(s: Option<Site>): Option<nat> {
    match s case Some(site) => Some(site.p) case None => None
  }

  lemma {:induction false} MergedStepAgreesIff(ps: seq<Paragraph>, h: nat, p: nat, o: Outcome)
    requires WellFormed(ps) && ValidSite(ps, Merged(h, p)) && (o.GoTo? ==> o.target in Ids(ps))
    ensures var site := Merged(h, p);
      && (Position(EmittedNext(ps, site, o)) == SourceNext(ps, p, o) <==> Faithful(ps, site, o))
      && (!Faithful(ps, site, o) ==> EmittedNext(ps, site, o).Some?)
  {
    GroupEndIsSectionEnd(ps, h);
  }

  /** A paragraph with a function of its own is a group of its own, or a member of a section. */
  lemma {:induction false} IsolatedGroup(ps: seq<Paragraph>, p: nat)
    requires WellFormed(ps) && ValidSite(ps, Isolated(p))
    ensures After(ps, p) == p + 1
    ensures ps[p].sectionId.None? ==> SectionEnd(ps, p) == p + 1
  {
    if ps[p].sectionId.None? {
      GroupEndIsSectionEnd(ps, p);
      assert FollowsItsSection(ps, 0);
      HeadsAreTopLevel(ps, 0, p);
    }
  }

  lemma {:induction false} IsolatedStepAgreesIff(ps: seq<Paragraph>, p: nat, o: Outcome)
    requires WellFormed(ps) && ValidSite(ps, Isolated(p)) && (o.GoTo? ==> o.target in Ids(ps))
    ensures var site := Isolated(p);
      && (Position(EmittedNext(ps, site, o)) == SourceNext(ps, p, o) <==> Faithful(ps, site, o))
      && (!Faithful(ps, site, o) ==> EmittedNext(ps, site, o).Some?)
  {
    IsolatedGroup(ps, p);
  }

  /** One step: control goes where the source sends it exactly when the step is faithful. */
  lemma {:induction false} StepAgreesIffFaithful(ps: seq<Paragraph>, site: Site, o: Outcome)
    requires WellFormed(ps) && ValidSite(ps, site) && (o.GoTo? ==> o.target in Ids(ps))
    ensures Position(EmittedNext(ps, site, o)) == SourceNext(ps, site.p, o) <==> Faithful(ps, site, o)
    ensures !Faithful(ps, site, o) ==> EmittedNext(ps, site, o).Some?
  {
    match site
    case Merged(h, p) => MergedStepAgreesIff(ps, h, p, o);
    case Isolated(p) => IsolatedStepAgreesIff(ps, p, o);
  }

  ghost predicate InEmitted(ps: seq<Paragraph>, r: Run<Site>) {
    r.next.Some? ==> ValidSite(ps, r.next.value)
  }

  /** The body the emitted run is about to run will end in a faithful step. */
  ghost predicate FaithfulState(ps: seq<Paragraph>, beh: Behaviour, r: Run<Site>) {
    r.next.Some? && ValidSite(ps, r.next.value) ==>
      Faithful(ps, r.next.value, beh(r.trace + [ps[r.next.value.p].id]))
  }

  // ----- The emitted run beside the source run -----

  ghost function SideBySide(ps: seq<Paragraph>, beh: Behaviour): Pair<Site>
    requires Resolved(ps, beh)
  {
    Pair(EmittedStepper(ps, beh), SourceStepper(ps, beh), (s: Site) => s.p,
         (p: nat) => if p < |ps| then ps[p].id else 0,
         (r: Run<Site>) => InEmitted(ps, r), (r: Run<nat>) => InProgram(ps, r),
         (r: Run<Site>) => FaithfulState(ps, beh, r))
  }

  lemma {:induction false} EmittedSteps(ps: seq<Paragraph>, beh: Behaviour, r: Run<Site>)
    requires WellFormed(ps) && Resolved(ps, beh)
    ensures StepsA(SideBySide(ps, beh), r)
  {
    if InEmitted(ps, r) && r.next.Some? {
      var site := r.next.value;
      var o := beh(r.trace + [ps[site.p].id]);
      EmittedNextIsValid(ps, site, o);
      StepAgreesIffFaithful(ps, site, o);
    }
  }

  lemma {:induction false} EmittedBesideSource(ps: seq<Paragraph>, beh: Behaviour)
    requires WellFormed(ps) && Resolved(ps, beh)
    ensures Comparable(SideBySide(ps, beh))
  {
    forall r ensures StepsA(SideBySide(ps, beh), r) {
      EmittedSteps(ps, beh, r);
    }
    forall s ensures StepsB(SideBySide(ps, beh), s) {
    }
  }

  // ----- The theorem -----

  /** A well-formed program with its tables, the behaviour of its bodies, and a transfer pending at entry or none. */
  ghost predicate Setting(ps: seq<Paragraph>, t: Tables, beh: Behaviour, pending: Option<Id>) {
    && WellFormed(ps) && |ps| > 0
    && RightTables(ps, t)
    && Resolved(ps, beh)
    && (pending.Some? ==> pending.value in Ids(ps))
  }

  lemma {:induction false} CompiledSetting(ps: seq<Paragraph>, bodyLabels: seq<Id>, t: Tables, beh: Behaviour, pending: Option<Id>)
    requires WellFormed(ps) && |ps| > 0 && Compiled(ps, bodyLabels, t) && Resolved(ps, beh)
    requires pending.Some? ==> pending.value in Ids(ps)
    ensures Setting(ps, t, beh, pending)
  {
    CompiledTablesAreRight(ps, bodyLabels, t);
  }

  ghost predicate FaithfulAt(ps: seq<Paragraph>, t: Tables, beh: Behaviour, pending: Option<Id>, j: nat)
    requires Setting(ps, t, beh, pending)
  {
    FaithfulState(ps, beh, EmittedRun(ps, beh, StartOf(ps, pending), j))
  }

  ghost predicate IsSourceTrace(ps: seq<Paragraph>, beh: Behaviour, start: nat, trace: seq<Id>)
    requires Resolved(ps, beh) && start < |ps|
  {
    exists n: nat :: SourceRun(ps, beh, start, n).trace == trace
  }

  /** What the machine has run after `k` steps is what the source runs first. */
  ghost predicate StaysOnSource(ps: seq<Paragraph>, t: Tables, beh: Behaviour, pending: Option<Id>, k: nat)
    requires Setting(ps, t, beh, pending)
  {
    IsSourceTrace(ps, beh, StartOf(ps, pending), MachineRun(ps, t, beh, pending, k).trace)
  }

  /** The machine comes to have run the first `n` bodies of the source run. */
  ghost predicate ReachesSource(ps: seq<Paragraph>, t: Tables, beh: Behaviour, pending: Option<Id>, n: nat)
    requires Setting(ps, t, beh, pending)
  {
    exists k: nat :: MachineRun(ps, t, beh, pending, k).trace == SourceRun(ps, beh, StartOf(ps, pending), n).trace
  }

  ghost predicate RunsInSourceOrder(ps: seq<Paragraph>, t: Tables, beh: Behaviour, pending: Option<Id>)
    requires Setting(ps, t, beh, pending)
  {
    && (forall k: nat :: StaysOnSource(ps, t, beh, pending, k))
    && (forall n: nat :: ReachesSource(ps, t, beh, pending, n))
  }

  ghost function FirstState(ps: seq<Paragraph>, pending: Option<Id>): Run<Site>
    requires |ps| > 0 && (pending.Some? ==> pending.value in Ids(ps))
  {
    Run(Some(EnterSite(ps, StartOf(ps, pending))), [])
  }

  /** The runs of the pair, started where the program starts, are the emitted and the source run. */
  lemma {:induction false} RunsOfThePair(ps: seq<Paragraph>, t: Tables, beh: Behaviour, pending: Option<Id>)
    requires Setting(ps, t, beh, pending)
    ensures var m, r := SideBySide(ps, beh), FirstState(ps, pending);
      && Comparable(m) && m.validA(r)
      && (forall n :: RunA(m, r, n) == EmittedRun(ps, beh, StartOf(ps, pending), n))
      && (forall n :: RunB(m, View(m, r), n) == SourceRun(ps, beh, StartOf(ps, pending), n))
  {
    EmittedBesideSource(ps, beh);
    EnterSiteIsValid(ps);
    assert View(SideBySide(ps, beh), FirstState(ps, pending)) == Run(Some(StartOf(ps, pending)), []);
  }

  lemma {:induction false} FaithfulRunsInSourceOrder(ps: seq<Paragraph>, t: Tables, beh: Behaviour, pending: Option<Id>)
    requires Setting(ps, t, beh, pending)
    requires forall j: nat :: FaithfulAt(ps, t, beh, pending, j)
    ensures RunsInSourceOrder(ps, t, beh, pending)
  {
    var start := StartOf(ps, pending);
    forall n: nat ensures EmittedRun(ps, beh, start, n).trace == SourceRun(ps, beh, start, n).trace {
      RunsOfThePair(ps, t, beh, pending);
      assert forall j: nat :: FaithfulAt(ps, t, beh, pending, j) ==> SideBySide(ps, beh).right(EmittedRun(ps, beh, start, j));
      SameWhileRight(SideBySide(ps, beh), FirstState(ps, pending), n);
    }
    forall k: nat ensures StaysOnSource(ps, t, beh, pending, k) {
      var n := MachineRefinesEmittedRun(ps, t, beh, pending, k);
      assert SourceRun(ps, beh, start, n).trace == MachineRun(ps, t, beh, pending, k).trace;
    }
    forall n: nat ensures ReachesSource(ps, t, beh, pending, n) {
      var k := MachineRealisesEmittedRun(ps, t, beh, pending, n);
      assert MachineRun(ps, t, beh, pending, k).trace == SourceRun(ps, beh, start, n).trace;
    }
  }

  lemma {:induction false} EmittedLeavesSource(ps: seq<Paragraph>, t: Tables, beh: Behaviour, pending: Option<Id>, n: nat) returns (j: nat)
    requires Setting(ps, t, beh, pending)
    requires !FaithfulAt(ps, t, beh, pending, n)
    ensures !IsSourceTrace(ps, beh, StartOf(ps, pending), EmittedRun(ps, beh, StartOf(ps, pending), j).trace)
  {
    RunsOfThePair(ps, t, beh, pending);
    j := WrongStepShows(SideBySide(ps, beh), FirstState(ps, pending), n);
    forall k: nat
      ensures SourceRun(ps, beh, StartOf(ps, pending), k).trace != EmittedRun(ps, beh, StartOf(ps, pending), j).trace
    {
      assert RunB(SideBySide(ps, beh), View(SideBySide(ps, beh), FirstState(ps, pending)), k) == SourceRun(ps, beh, StartOf(ps, pending), k);
    }
  }

  lemma {:induction false} OffSource(ps: seq<Paragraph>, t: Tables, beh: Behaviour, pending: Option<Id>, j: nat)
    requires Setting(ps, t, beh, pending)
    requires !IsSourceTrace(ps, beh, StartOf(ps, pending), EmittedRun(ps, beh, StartOf(ps, pending), j).trace)
    ensures !RunsInSourceOrder(ps, t, beh, pending)
  {
    var k := MachineRealisesEmittedRun(ps, t, beh, pending, j);
    assert !StaysOnSource(ps, t, beh, pending, k);
  }

  lemma {:induction false} UnfaithfulLeavesSourceOrder(ps: seq<Paragraph>, t: Tables, beh: Behaviour, pending: Option<Id>, n: nat)
    requires Setting(ps, t, beh, pending)
    requires !FaithfulAt(ps, t, beh, pending, n)
    ensures !RunsInSourceOrder(ps, t, beh, pending)
  {
    var j := EmittedLeavesSource(ps, t, beh, pending, n);
    OffSource(ps, t, beh, pending, j);
  }

  /**
    For every well-formed program, every behaviour of its bodies and every transfer left pending
    before the first label, the emitted dispatcher runs the paragraphs in source order if and
    only if every step it takes is faithful.
  */
  lemma {:induction false} SourceOrderIffFaithful(ps: seq<Paragraph>, bodyLabels: seq<Id>, t: Tables, beh: Behaviour, pending: Option<Id>)
    requires WellFormed(ps) && |ps| > 0 && Compiled(ps, bodyLabels, t) && Resolved(ps, beh)
    requires pending.Some? ==> pending.value in Ids(ps)
    ensures Setting(ps, t, beh, pending)
    ensures RunsInSourceOrder(ps, t, beh, pending) <==> forall j: nat :: FaithfulAt(ps, t, beh, pending, j)
  {
    CompiledSetting(ps, bodyLabels, t, beh, pending);
    if j: nat :| !FaithfulAt(ps, t, beh, pending, j) {
      UnfaithfulLeavesSourceOrder(ps, t, beh, pending, j);
    } else {
      FaithfulRunsInSourceOrder(ps, t, beh, pending);
    }
  }

  /** The outcomes that are faithful in every program: no EXIT, and no falling off a section at the end. */
  ghost predicate Plain(ps: seq<Paragraph>, beh: Behaviour) {
    && (forall h: seq<Id> :: !beh(h).ExitParagraph? && !beh(h).ExitSection?)
    && (forall h: seq<Id>, p: nat :: p + 1 == |ps| && ps[p].sectionId.Some? ==> !beh(h + [ps[p].id]).FallThrough?)
  }

  lemma {:induction false} PlainStateIsFaithful(ps: seq<Paragraph>, beh: Behaviour, r: Run<Site>)
    requires Plain(ps, beh)
    ensures FaithfulState(ps, beh, r)
  {
    if r.next.Some? && r.next.value.Merged? && ValidSite(ps, r.next.value) {
      var h, p := r.next.value.head, r.next.value.p;
      if p + 1 == |ps| {
        assert ps[p].sectionId == Some(ps[h].id);
      }
    }
  }

  /** Without EXIT, and with no section at the end whose last paragraph falls through, source order always holds. */
  lemma {:induction false} PlainRunsInSourceOrder(ps: seq<Paragraph>, bodyLabels: seq<Id>, t: Tables, beh: Behaviour, pending: Option<Id>)
    requires WellFormed(ps) && |ps| > 0 && Compiled(ps, bodyLabels, t) && Resolved(ps, beh)
    requires pending.Some? ==> pending.value in Ids(ps)
    requires Plain(ps, beh)
    ensures Setting(ps, t, beh, pending) && RunsInSourceOrder(ps, t, beh, pending)
  {
    CompiledSetting(ps, bodyLabels, t, beh, pending);
    forall j: nat ensures FaithfulAt(ps, t, beh, pending, j) {
      PlainStateIsFaithful(ps, beh, EmittedRun(ps, beh, StartOf(ps, pending), j));
    }
    FaithfulRunsInSourceOrder(ps, t, beh, pending);
  }

  /** The first body the machine runs is that of the pending transfer, or of the first paragraph. */
  lemma {:induction false} RunsFirst(ps: seq<Paragraph>, bodyLabels: seq<Id>, t: Tables, beh: Behaviour, pending: Option<Id>) returns (k: nat)
    requires WellFormed(ps) && |ps| > 0 && Compiled(ps, bodyLabels, t) && Resolved(ps, beh)
    requires pending.Some? ==> pending.value in Ids(ps)
    ensures Setting(ps, t, beh, pending)
    ensures MachineRun(ps, t, beh, pending, k).trace == [if pending.Some? then pending.value else ps[0].id]
  {
    CompiledSetting(ps, bodyLabels, t, beh, pending);
    k := MachineRealisesEmittedRun(ps, t, beh, pending, 1);
    FirstOfRun(ps, beh, StartOf(ps, pending));
  }

  lemma {:induction false} FirstOfRun(ps: seq<Paragraph>, beh: Behaviour, start: nat)
    requires WellFormed(ps) && Resolved(ps, beh) && start < |ps|
    ensures EmittedRun(ps, beh, start, 1).trace == [ps[start].id]
  {
    EnterSiteIsValid(ps);
    assert ValidSite(ps, EnterSite(ps, start));
    EmittedUnfold(ps, beh, start, 0, EnterSite(ps, start), []);
  }

  // ----- Programs without EXIT -----

  /** The k-th body of a run ends as the script says, and falls through after the script. */
  function Scripted(script: seq<Outcome>): Behaviour {
    h => if 0 < |h| <= |script| then script[|h|-1] else FallThrough
  }

  lemma {:induction false} EmittedUnfold(ps: seq<Paragraph>, beh: Behaviour, start: nat, n: nat, site: Site, trace: seq<Id>)
    requires Resolved(ps, beh) && start < |ps| && ValidSite(ps, site)
    requires EmittedRun(ps, beh, start, n) == Run(Some(site), trace)
    ensures var trace' := trace + [ps[site.p].id];
      EmittedRun(ps, beh, start, n + 1) == Run(EmittedNext(ps, site, beh(trace')), trace')
  {
  }

  ghost predicate GoesWrong(ps: seq<Paragraph>, site: Site, o: Outcome) {
    ValidSite(ps, site) && !Faithful(ps, site, o)
  }

  /** After `n` steps the run is at `r`; a quantifier keeps the run folded where this is only handed on. */
  ghost predicate RunsTo(step: Run<Site> -> Run<Site>, first: Run<Site>, n: nat, r: Run<Site>) {
    forall m: nat :: m == n ==> Iterate(step, first, m) == r
  }

  /** A run that comes to an unfaithful step has left source order. */
  lemma {:induction false} UnfaithfulSite(ps: seq<Paragraph>, t: Tables, beh: Behaviour, pending: Option<Id>, n: nat, site: Site, trace: seq<Id>, o: Outcome)
    requires Setting(ps, t, beh, pending) && site.p < |ps|
    requires RunsTo(EmittedStepper(ps, beh), FirstState(ps, pending), n, Run(Some(site), trace))
    requires beh(trace + [ps[site.p].id]) == o && GoesWrong(ps, site, o)
    ensures !RunsInSourceOrder(ps, t, beh, pending)
  {
    assert EmittedRun(ps, beh, StartOf(ps, pending), n) == Run(Some(site), trace);
    assert !FaithfulAt(ps, t, beh, pending, n);
    UnfaithfulLeavesSourceOrder(ps, t, beh, pending, n);
  }

  ghost predicate NoExit(beh: Behaviour) {
    forall h: seq<Id> :: !beh(h).ExitParagraph? && !beh(h).ExitSection?
  }

  ghost predicate FallsAfterFirst(beh: Behaviour) {
    forall h: seq<Id> :: |h| > 1 ==> beh(h).FallThrough?
  }

  /** Whatever its bodies do, as long as they do not EXIT, the program runs in source order. */
  ghost predicate AlwaysInSourceOrder(ps: seq<Paragraph>, t: Tables, pending: Option<Id>) {
    forall beh: Behaviour :: Resolved(ps, beh) && NoExit(beh) ==>
      Setting(ps, t, beh, pending) && RunsInSourceOrder(ps, t, beh, pending)
  }

  /** The entry of the section that a paragraph is a member of, with members from there on. */
  lemma {:induction false} SectionHead(ps: seq<Paragraph>, p: nat) returns (h: nat)
    requires WellFormed(ps) && p < |ps| && ps[p].sectionId.Some?
    ensures h < p && ps[h].isSection && ps[h].sectionId.None?
    ensures forall k :: h < k <= p ==> ps[k].sectionId == Some(ps[h].id)
  {
    assert FollowsItsSection(ps, p);
    if ps[p-1].sectionId == ps[p].sectionId {
      h := SectionHead(ps, p - 1);
    } else {
      h := p - 1;
    }
  }

  /** The program ends with a section that has members, and `h` is its entry. */
  ghost predicate EndsInSection(ps: seq<Paragraph>, h: nat) {
    h + 1 < |ps| && GroupEnd(ps, h) == |ps| && ps[h].sectionId.None? && MergedHead(ps, h)
  }

  /** A section at the end of the program with members has one function, up to the end. */
  lemma {:induction false} LastSectionIsMerged(ps: seq<Paragraph>) returns (h: nat)
    requires WellFormed(ps) && |ps| > 0 && ps[|ps|-1].sectionId.Some?
    ensures EndsInSection(ps, h)
  {
    h := SectionHead(ps, |ps| - 1);
    assert GroupEnd(ps, h) == |ps|;
    assert FollowsItsSection(ps, 0);
    HeadsAreTopLevel(ps, 0, h);
  }

  /** A first body that goes to the section at the end, and falling through from there on. */
  ghost function ToTheLastSection(ps: seq<Paragraph>, h: nat): (beh: Behaviour)
    requires h < |ps|
    ensures Resolved(ps, beh) && NoExit(beh) && FallsAfterFirst(beh)
  {
    assert Ids(ps)[h] == ps[h].id;
    Scripted([GoTo(ps[h].id)])
  }

  /** The first body goes to the head of the section at the end. */
  ghost predicate EntersFirst(ps: seq<Paragraph>, beh: Behaviour, start: nat, h: nat)
    requires Resolved(ps, beh) && start < |ps|
  {
    RunsTo(EmittedStepper(ps, beh), Run(Some(EnterSite(ps, start)), []), 1, Run(Some(Merged(h, h)), [ps[start].id]))
  }

  lemma {:induction false} EntersTheSection(ps: seq<Paragraph>, h: nat, start: nat)
    requires WellFormed(ps) && EndsInSection(ps, h) && start < |ps|
    ensures EntersFirst(ps, ToTheLastSection(ps, h), start, h)
  {
    EnterSiteIsValid(ps);
    IndexOfId(ps, h);
    assert [] + [ps[start].id] == [ps[start].id];
    EntersFromAnywhere(ps, h, EnterSite(ps, start));
    OneStep(EmittedStepper(ps, ToTheLastSection(ps, h)), Run(Some(EnterSite(ps, start)), []));
  }

  lemma {:induction false} OneStep(step: Run<Site> -> Run<Site>, first: Run<Site>)
    ensures Iterate(step, first, 1) == step(first)
  {
    assert Iterate(step, first, 0) == first;
  }

  /** A GO TO to a merged function's head arrives there from every site. */
  lemma {:induction false} EntersFromAnywhere(ps: seq<Paragraph>, h: nat, site: Site)
    requires h < |ps| && ValidSite(ps, site) && ValidSite(ps, Merged(h, h)) && EnterSite(ps, h) == Merged(h, h)
    requires ps[h].id in Ids(ps) && IndexOf(ps, ps[h].id) == h
    requires site.Merged? ==> site.head == site.p
    ensures EmittedNext(ps, site, GoTo(ps[h].id)) == Some(Merged(h, h))
  {
  }

  /** Falling through inside a merged function. */
  lemma {:induction false} FallsFurther(ps: seq<Paragraph>, beh: Behaviour, h: nat, p: nat, trace: seq<Id>)
    requires Resolved(ps, beh) && EndsInSection(ps, h) && h <= p && p + 1 < |ps|
    requires beh(trace + [ps[p].id]) == FallThrough
    ensures EmittedStep(ps, beh, Run(Some(Merged(h, p)), trace)) == Run(Some(Merged(h, p + 1)), trace + [ps[p].id])
  {
  }

  ghost predicate FallsAt(ps: seq<Paragraph>, step: Run<Site> -> Run<Site>, h: nat, p: nat)
    requires p < |ps|
  {
    forall trace: seq<Id> :: trace != [] ==> step(Run(Some(Merged(h, p)), trace)) == Run(Some(Merged(h, p + 1)), trace + [ps[p].id])
  }

  lemma {:induction false} FallsThroughSection(ps: seq<Paragraph>, beh: Behaviour, h: nat)
    requires Resolved(ps, beh) && EndsInSection(ps, h) && FallsAfterFirst(beh)
    ensures forall p: nat :: h <= p < |ps| - 1 ==> FallsAt(ps, EmittedStepper(ps, beh), h, p)
  {
    forall p: nat, trace: seq<Id> | h <= p < |ps| - 1 && trace != []
      ensures EmittedStepper(ps, beh)(Run(Some(Merged(h, p)), trace)) == Run(Some(Merged(h, p + 1)), trace + [ps[p].id])
    {
      FallsFurther(ps, beh, h, p, trace);
    }
  }

  lemma {:induction false} RunsThroughTheSection(ps: seq<Paragraph>, step: Run<Site> -> Run<Site>, first: Run<Site>, start: seq<Id>, h: nat, n: nat)
    returns (trace: seq<Id>)
    requires h + n < |ps| && start != [] && RunsTo(step, first, 1, Run(Some(Merged(h, h)), start))
    requires forall p: nat :: h <= p < |ps| - 1 ==> FallsAt(ps, step, h, p)
    ensures RunsTo(step, first, n + 1, Run(Some(Merged(h, h + n)), trace)) && trace != []
  {
    if n == 0 {
      trace := start;
    } else {
      var before := RunsThroughTheSection(ps, step, first, start, h, n - 1);
      assert FallsAt(ps, step, h, h + n - 1);
      assert Iterate(step, first, n) == Run(Some(Merged(h, h + n - 1)), before);
      trace := before + [ps[h + n - 1].id];
    }
  }

  lemma {:induction false} FallingOffIsWrong(ps: seq<Paragraph>, h: nat)
    requires EndsInSection(ps, h)
    ensures GoesWrong(ps, Merged(h, |ps| - 1), FallThrough)
  {
  }

  /** The run that enters the section at the end and falls through it comes to a wrong step. */
  lemma {:induction false} FallsOff(ps: seq<Paragraph>, beh: Behaviour, start: nat, h: nat, n: nat) returns (trace: seq<Id>)
    requires Resolved(ps, beh) && FallsAfterFirst(beh) && EndsInSection(ps, h) && h + n + 1 == |ps|
    requires start < |ps| && EntersFirst(ps, beh, start, h)
    ensures RunsTo(EmittedStepper(ps, beh), Run(Some(EnterSite(ps, start)), []), n + 1, Run(Some(Merged(h, h + n)), trace))
    ensures trace != []
  {
    FallsThroughSection(ps, beh, h);
    trace := RunsThroughTheSection(ps, EmittedStepper(ps, beh), Run(Some(EnterSite(ps, start)), []), [ps[start].id], h, n);
  }

  /** A section at the end of the program is fallen off, from whatever paragraph the program starts. */
  lemma {:induction false} LastSectionIsFallenOff(ps: seq<Paragraph>, t: Tables, beh: Behaviour, pending: Option<Id>, h: nat)
    requires Setting(ps, t, beh, pending)
    requires h < |ps| && EndsInSection(ps, h) && beh == ToTheLastSection(ps, h)
    ensures !RunsInSourceOrder(ps, t, beh, pending)
  {
    EntersTheSection(ps, h, StartOf(ps, pending));
    var n := |ps| - 1 - h;
    var trace := FallsOff(ps, beh, StartOf(ps, pending), h, n);
    FallingOffIsWrong(ps, h);
    UnfaithfulSite(ps, t, beh, pending, n + 1, Merged(h, h + n), trace, FallThrough);
  }

  /**
    A program without EXIT runs in source order whatever its bodies do, from every entry, if and
    only if its last paragraph is not a member of a section.
  */
  lemma {:induction false} NoExitInSourceOrderIff(ps: seq<Paragraph>, bodyLabels: seq<Id>, t: Tables, pending: Option<Id>)
    requires WellFormed(ps) && |ps| > 0 && Compiled(ps, bodyLabels, t)
    requires pending.Some? ==> pending.value in Ids(ps)
    ensures AlwaysInSourceOrder(ps, t, pending) <==> ps[|ps|-1].sectionId.None?
  {
    if ps[|ps|-1].sectionId.None? {
      forall beh: Behaviour | Resolved(ps, beh) && NoExit(beh)
        ensures Setting(ps, t, beh, pending) && RunsInSourceOrder(ps, t, beh, pending)
      {
        PlainRunsInSourceOrder(ps, bodyLabels, t, beh, pending);
      }
    } else {
      CompiledTablesAreRight(ps, bodyLabels, t);
      var h := LastSectionIsMerged(ps);
      LastSectionIsFallenOff(ps, t, ToTheLastSection(ps, h), pending, h);
    }
  }

  // ----- Programs that do not run in source order -----

  /** Section 1 with the paragraphs 2 and 3. */
  function OneSection(): seq<Paragraph> {
    [Paragraph(1, true, None, []), Paragraph(2, false, Some(1), []), Paragraph(3, false, Some(1), [])]
  }

  /** Paragraph 1 alone, then section 2 with the paragraphs 3 and 4. */
  function ParagraphThenSection(): seq<Paragraph> {
    [Paragraph(1, false, None, []), Paragraph(2, true, None, []),
     Paragraph(3, false, Some(2), []), Paragraph(4, false, Some(2), [])]
  }

  lemma {:induction false} OneSectionIsMerged()
    ensures WellFormed(OneSection()) && GroupEnd(OneSection(), 0) == 3 && MergedHead(OneSection(), 0)
    ensures ValidSite(OneSection(), Merged(0, 0)) && ValidSite(OneSection(), Merged(0, 1)) && ValidSite(OneSection(), Merged(0, 2))
  {
    assert SkipMembers(OneSection(), 1, 3) == 3;
  }

  /** How the body after `n` others ends. */
  function EndOf(script: seq<Outcome>, n: nat): Outcome {
    if n < |script| then script[n] else FallThrough
  }

  /** The emitted run comes to the site after `n` bodies, and the next body ends in a step that is not faithful. */
  ghost predicate ComesToWrongStep(ps: seq<Paragraph>, beh: Behaviour, n: nat, site: Site, trace: seq<Id>) {
    && WellFormed(ps) && |ps| > 0 && Resolved(ps, beh)
    && site.p < |ps|
    && RunsTo(EmittedStepper(ps, beh), FirstState(ps, None), n, Run(Some(site), trace))
    && GoesWrong(ps, site, beh(trace + [ps[site.p].id]))
  }

  /** A program and a behaviour for which its tables do not keep source order. */
  ghost predicate LeavesSourceOrder(ps: seq<Paragraph>, t: Tables, beh: Behaviour) {
    Setting(ps, t, beh, None) && !RunsInSourceOrder(ps, t, beh, None)
  }

  lemma {:induction false} WrongStepLeavesSourceOrder(ps: seq<Paragraph>, t: Tables, beh: Behaviour, n: nat, site: Site, trace: seq<Id>)
    requires ComesToWrongStep(ps, beh, n, site, trace) && Compiled(ps, [], t)
    ensures LeavesSourceOrder(ps, t, beh)
  {
    CompiledSetting(ps, [], t, beh, None);
    UnfaithfulSite(ps, t, beh, None, n, site, trace, beh(trace + [ps[site.p].id]));
  }

  /** In the section alone, falling through keeps to the merged function up to its last paragraph. */
  lemma {:induction false} SectionFallsThrough(script: seq<Outcome>, n: nat) returns (trace: seq<Id>)
    requires n <= 2 && forall i :: 0 <= i < n && i < |script| ==> script[i] == FallThrough
    requires Resolved(OneSection(), Scripted(script))
    ensures |trace| == n && EmittedRun(OneSection(), Scripted(script), 0, n) == Run(Some(Merged(0, n)), trace)
    ensures GroupEnd(OneSection(), 0) == 3 && ValidSite(OneSection(), Merged(0, n))
  {
    OneSectionIsMerged();
    if n == 0 {
      trace := [];
    } else {
      var before := SectionFallsThrough(script, n - 1);
      EmittedUnfold(OneSection(), Scripted(script), 0, n - 1, Merged(0, n - 1), before);
      trace := before + [OneSection()[n-1].id];
    }
  }

  lemma {:induction false} SectionComesToWrongStep(script: seq<Outcome>, n: nat) returns (trace: seq<Id>)
    requires n <= 2 && forall i :: 0 <= i < n && i < |script| ==> script[i] == FallThrough
    requires forall i :: 0 <= i < |script| ==> !script[i].GoTo?
    requires match EndOf(script, n) case FallThrough => n == 2 case ExitParagraph => n > 0 case ExitSection => true case _ => false
    ensures ComesToWrongStep(OneSection(), Scripted(script), n, Merged(0, n), trace)
  {
    trace := SectionFallsThrough(script, n);
    OneSectionIsMerged();
  }

  lemma {:induction false} FallingOffComesToWrongStep() returns (trace: seq<Id>)
    ensures ComesToWrongStep(OneSection(), Scripted([]), 2, Merged(0, 2), trace)
  {
    trace := SectionComesToWrongStep([], 2);
  }

  /** The bodies of a section at the end of the program are run again after falling off it. */
  lemma {:induction false} FallingOffTheLastSection(t: Tables)
    requires Compiled(OneSection(), [], t)
    ensures LeavesSourceOrder(OneSection(), t, Scripted([]))
  {
    var trace := FallingOffComesToWrongStep();
    WrongStepLeavesSourceOrder(OneSection(), t, Scripted([]), 2, Merged(0, 2), trace);
  }

  lemma {:induction false} ExitParagraphComesToWrongStep() returns (trace: seq<Id>)
    ensures ComesToWrongStep(OneSection(), Scripted([FallThrough, ExitParagraph]), 1, Merged(0, 1), trace)
  {
    trace := SectionComesToWrongStep([FallThrough, ExitParagraph], 1);
  }

  /** EXIT PARAGRAPH inside a section's merged function leaves the section. */
  lemma {:induction false} ExitParagraphLeavesTheSection(t: Tables)
    requires Compiled(OneSection(), [], t)
    ensures LeavesSourceOrder(OneSection(), t, Scripted([FallThrough, ExitParagraph]))
  {
    var trace := ExitParagraphComesToWrongStep();
    WrongStepLeavesSourceOrder(OneSection(), t, Scripted([FallThrough, ExitParagraph]), 1, Merged(0, 1), trace);
  }

  lemma {:induction false} ExitSectionComesToWrongStep() returns (trace: seq<Id>)
    ensures ComesToWrongStep(OneSection(), Scripted([ExitSection]), 0, Merged(0, 0), trace)
  {
    trace := SectionComesToWrongStep([ExitSection], 0);
  }

  /** EXIT SECTION in a section at the end of the program runs the section again. */
  lemma {:induction false} ExitSectionOfTheLastSection(t: Tables)
    requires Compiled(OneSection(), [], t)
    ensures LeavesSourceOrder(OneSection(), t, Scripted([ExitSection]))
  {
    var trace := ExitSectionComesToWrongStep();
    WrongStepLeavesSourceOrder(OneSection(), t, Scripted([ExitSection]), 0, Merged(0, 0), trace);
  }

  lemma {:induction false} ParagraphThenSectionIsSplit()
    ensures WellFormed(ParagraphThenSection()) && UniqueIds(ParagraphThenSection())
    ensures ValidSite(ParagraphThenSection(), Isolated(0)) && ValidSite(ParagraphThenSection(), Isolated(2))
    ensures EnterSite(ParagraphThenSection(), 0) == Isolated(0) && EnterSite(ParagraphThenSection(), 2) == Isolated(2)
    ensures SectionEnd(ParagraphThenSection(), 2) == 4
    ensures 3 in Ids(ParagraphThenSection()) && IndexOf(ParagraphThenSection(), 3) == 2
  {
    var ps := ParagraphThenSection();
    assert GroupEnd(ps, 0) == 1 && GroupEnd(ps, 2) == 3;
    IndexOfId(ps, 2);
    assert NextTopLevel(ps, 4) == 4;
  }

  lemma {:induction false} GoToMemberComesToWrongStep(script: seq<Outcome>)
    requires script == [GoTo(3), ExitSection]
    ensures ComesToWrongStep(ParagraphThenSection(), Scripted(script), 1, Isolated(2), [1])
  {
    ParagraphThenSectionIsSplit();
    EmittedUnfold(ParagraphThenSection(), Scripted(script), 0, 0, Isolated(0), []);
  }

  /** EXIT SECTION in a paragraph entered by GO TO from outside goes on to the next paragraph of the section. */
  lemma {:induction false} ExitSectionStaysInTheSection(t: Tables)
    requires Compiled(ParagraphThenSection(), [], t)
    ensures LeavesSourceOrder(ParagraphThenSection(), t, Scripted([GoTo(3), ExitSection]))
  {
    GoToMemberComesToWrongStep([GoTo(3), ExitSection]);
    WrongStepLeavesSourceOrder(ParagraphThenSection(), t, Scripted([GoTo(3), ExitSection]), 1, Isolated(2), [1]);
  }
}
