/**
  The emitted dispatch machine refines the emitted run of bodies, step by step and over whole runs,
  and no pending transfer ever reaches the inner dispatch of a function.
*/
module DispatchRefinement {
  import opened Options
  import opened ParagraphLabels
  import opened ParagraphFlow
  import opened Dispatch
  import opened Stuttering

  // ----- The machine refines the run of bodies -----

  /** The state before the outer loop: the first label, unless statements before the first label left one pending. */
  function Initial(ps: seq<Paragraph>, t: Tables, pending: Option<Id>): Machine
    requires |ps| > 0 && ps[0].id in t.entry
    requires pending.Some? ==> pending.value in t.entry
  {
    var left := if pending.Some? then t.entry[pending.value] else 0;
    Machine(Loop, if left == 0 then t.entry[ps[0].id] else left, [])
  }

  function StartOf(ps: seq<Paragraph>, pending: Option<Id>): (p: nat)
    requires |ps| > 0 && (pending.Some? ==> pending.value in Ids(ps))
    ensures p < |ps|
  {
    match pending case Some(id) => IndexOf(ps, id) case None => 0
  }

  /** Where the machine is headed: the site of the next body it will run, if any. */
  ghost function Heading(ps: seq<Paragraph>, m: Machine): Option<Site>
    requires InBounds(ps, m.control)
  {
    match m.control
    case Halted => None
    case Loop => if 1 <= m.gotoTarget <= |ps| then Some(EnterSite(ps, m.gotoTarget - 1)) else None
    case Enter(p) => Some(EnterSite(ps, p))
    case AtMerged(h, p) => Some(Merged(h, p))
    case AtIsolated(p) => Some(Isolated(p))
    case InnerDispatch(h) => Leave(ps, h)
    case IsolatedDispatch(p) => Leave(ps, p)
    case Returned(p) => if m.gotoTarget == 0 then Leave(ps, p) else
      if m.gotoTarget <= |ps| then Some(EnterSite(ps, m.gotoTarget - 1)) else None
  }

  /** A transfer is pending only between a function's `return` and the outer switch. */
  ghost predicate NothingPending(m: Machine) {
    m.control.Loop? || m.control.Returned? || m.gotoTarget == 0
  }

  ghost predicate Consistent(ps: seq<Paragraph>, m: Machine) {
    && InBounds(ps, m.control)
    && NothingPending(m)
    && (m.control.AtMerged? ==> ValidSite(ps, Merged(m.control.head, m.control.p)))
    && (m.control.InnerDispatch? ==> MergedHead(ps, m.control.head))
    && (m.control.AtIsolated? ==> ValidSite(ps, Isolated(m.control.p)))
  }

  /** How many silent steps may still come before a body runs or the machine halts. */
  function Rank(c: Control): nat {
    match c
    case InnerDispatch(_) => 4
    case IsolatedDispatch(_) => 4
    case Returned(_) => 3
    case Loop => 2
    case Enter(_) => 1
    case _ => 0
  }

  ghost predicate RightCase(ps: seq<Paragraph>, t: Tables, v: nat) {
    v > 0 ==> FindCase(ps, t, v, 0) == if v <= |ps| then Some(v - 1) else None
  }

  ghost predicate RightNext(ps: seq<Paragraph>, t: Tables, p: nat)
    requires p < |ps|
  {
    var next, after := CaseNext(t, ps[p].id), After(ps, p);
    after <= |ps| && (if after < |ps| then next == Some(after + 1) else next == None || next == Some(|ps| + 1))
  }

  ghost predicate RightSite(ps: seq<Paragraph>, p: nat)
    requires p < |ps|
  {
    ValidSite(ps, EnterSite(ps, p))
  }

  ghost predicate RightLabels(ps: seq<Paragraph>, x: Id, start: nat, end: nat)
    requires x in Ids(ps) && start <= end <= |ps|
  {
    x in GroupLabels(ps, start, end) <==> start <= IndexOf(ps, x) < end
  }

  /** What the compiled tables promise the machine about a well-formed program. */
  ghost predicate RightTables(ps: seq<Paragraph>, t: Tables) {
    && (forall x :: x in Ids(ps) ==> x in t.entry && t.entry[x] == IndexOf(ps, x) + 1)
    && (forall v: nat :: RightCase(ps, t, v))
    && (forall p: nat :: p < |ps| ==> RightNext(ps, t, p))
    && (forall p: nat :: p < |ps| ==> RightSite(ps, p))
    && (forall x, start: nat, end: nat :: x in Ids(ps) && start <= end <= |ps| ==> RightLabels(ps, x, start, end))
  }

  lemma {:induction false} CompiledTablesAreRight(ps: seq<Paragraph>, bodyLabels: seq<Id>, t: Tables)
    requires WellFormed(ps) && Compiled(ps, bodyLabels, t)
    ensures RightTables(ps, t)
  {
    EntryLabelsAreTotal(ps, bodyLabels, t.entry);
    forall v: nat ensures RightCase(ps, t, v) {
      if v > 0 { FindCaseOf(ps, bodyLabels, t, v, 0); }
    }
    forall p: nat | p < |ps| ensures RightNext(ps, t, p) {
      CaseNextIsAfter(ps, bodyLabels, t, p);
    }
    EnterSiteIsValid(ps);
    forall p: nat | p < |ps| ensures RightSite(ps, p) {
    }
    forall x, start: nat, end: nat | x in Ids(ps) && start <= end <= |ps|
      ensures RightLabels(ps, x, start, end)
    {
      LocalMeansInGroup(ps, start, end, IndexOf(ps, x));
    }
  }

  /** The run of bodies a machine state stands for. */
  ghost function Abstract(ps: seq<Paragraph>, m: Machine): Run<Site> {
    Run(if InBounds(ps, m.control) then Heading(ps, m) else None, m.trace)
  }

  ghost predicate SilentStepAgrees(ps: seq<Paragraph>, m: Machine, m': Machine) {
    && Consistent(ps, m')
    && m'.trace == m.trace
    && Abstract(ps, m') == Abstract(ps, m)
    && Rank(m'.control) < Rank(m.control)
  }

  lemma {:induction false} LoopStep(ps: seq<Paragraph>, t: Tables, beh: Behaviour, m: Machine)
    requires RightTables(ps, t) && Resolved(ps, beh)
    requires Consistent(ps, m) && m.control.Loop?
    ensures SilentStepAgrees(ps, m, Step(ps, t, beh, m))
  {
    assert RightCase(ps, t, m.gotoTarget);
  }

  lemma {:induction false} EnterStep(ps: seq<Paragraph>, t: Tables, beh: Behaviour, m: Machine)
    requires RightTables(ps, t) && Resolved(ps, beh)
    requires Consistent(ps, m) && m.control.Enter?
    ensures SilentStepAgrees(ps, m, Step(ps, t, beh, m))
  {
    assert RightSite(ps, m.control.p);
  }

  lemma {:induction false} ReturnedStep(ps: seq<Paragraph>, t: Tables, beh: Behaviour, m: Machine)
    requires RightTables(ps, t) && Resolved(ps, beh)
    requires Consistent(ps, m) && m.control.Returned?
    ensures SilentStepAgrees(ps, m, Step(ps, t, beh, m))
  {
    assert RightNext(ps, t, m.control.p);
  }

  lemma {:induction false} InnerDispatchStep(ps: seq<Paragraph>, t: Tables, beh: Behaviour, m: Machine)
    requires RightTables(ps, t) && Resolved(ps, beh)
    requires Consistent(ps, m) && (m.control.InnerDispatch? || m.control.IsolatedDispatch?)
    ensures SilentStepAgrees(ps, m, Step(ps, t, beh, m))
  {
  }

  lemma {:induction false} SilentStep(ps: seq<Paragraph>, t: Tables, beh: Behaviour, m: Machine)
    requires RightTables(ps, t) && Resolved(ps, beh)
    requires Consistent(ps, m) && Rank(m.control) > 0
    ensures SilentStepAgrees(ps, m, Step(ps, t, beh, m))
  {
    match m.control
    case Loop => LoopStep(ps, t, beh, m);
    case Enter(_) => EnterStep(ps, t, beh, m);
    case Returned(_) => ReturnedStep(ps, t, beh, m);
    case _ => InnerDispatchStep(ps, t, beh, m);
  }

  ghost predicate BodyStepAgrees(ps: seq<Paragraph>, beh: Behaviour, m: Machine, m': Machine)
    requires Resolved(ps, beh)
  {
    Consistent(ps, m') && Abstract(ps, m') == EmittedStep(ps, beh, Abstract(ps, m))
  }

  /** GO TO in a merged function stays in it exactly when the target is of the group. */
  lemma {:induction false} MergedTransferStep(ps: seq<Paragraph>, t: Tables, beh: Behaviour, m: Machine)
    requires RightTables(ps, t) && Resolved(ps, beh)
    requires Consistent(ps, m) && m.control.AtMerged? && beh(m.trace + [ps[m.control.p].id]).GoTo?
    ensures var h, trace := m.control.head, m.trace + [ps[m.control.p].id];
      var k := IndexOf(ps, beh(trace).target);
      Step(ps, t, beh, m) == if h <= k < GroupEnd(ps, h) then Machine(AtMerged(h, k), 0, trace) else Machine(Returned(h), k + 1, trace)
  {
    var target, h := beh(m.trace + [ps[m.control.p].id]).target, m.control.head;
    assert RightLabels(ps, target, h, GroupEnd(ps, h));
  }

  lemma {:induction false} MergedTransfer(ps: seq<Paragraph>, t: Tables, beh: Behaviour, m: Machine)
    requires RightTables(ps, t) && Resolved(ps, beh)
    requires Consistent(ps, m) && m.control.AtMerged? && beh(m.trace + [ps[m.control.p].id]).GoTo?
    ensures BodyStepAgrees(ps, beh, m, Step(ps, t, beh, m))
  {
    MergedTransferStep(ps, t, beh, m);
    TransferAgrees(ps, t, beh, m, Step(ps, t, beh, m), IndexOf(ps, beh(m.trace + [ps[m.control.p].id]).target));
  }

  lemma {:induction false} TransferAgrees(ps: seq<Paragraph>, t: Tables, beh: Behaviour, m: Machine, m': Machine, k: nat)
    requires RightTables(ps, t) && Resolved(ps, beh)
    requires Consistent(ps, m) && m.control.AtMerged? && beh(m.trace + [ps[m.control.p].id]).GoTo?
    requires k == IndexOf(ps, beh(m.trace + [ps[m.control.p].id]).target)
    requires var h, trace := m.control.head, m.trace + [ps[m.control.p].id];
      m' == if h <= k < GroupEnd(ps, h) then Machine(AtMerged(h, k), 0, trace) else Machine(Returned(h), k + 1, trace)
    ensures BodyStepAgrees(ps, beh, m, m')
  {
    assert RightSite(ps, k);
  }

  lemma {:induction false} MergedExit(ps: seq<Paragraph>, t: Tables, beh: Behaviour, m: Machine)
    requires RightTables(ps, t) && Resolved(ps, beh)
    requires Consistent(ps, m) && m.control.AtMerged? && !beh(m.trace + [ps[m.control.p].id]).GoTo?
    ensures BodyStepAgrees(ps, beh, m, Step(ps, t, beh, m))
  {
  }

  lemma {:induction false} IsolatedBodyStep(ps: seq<Paragraph>, t: Tables, beh: Behaviour, m: Machine)
    requires RightTables(ps, t) && Resolved(ps, beh)
    requires Consistent(ps, m) && m.control.AtIsolated?
    ensures BodyStepAgrees(ps, beh, m, Step(ps, t, beh, m))
  {
    var o := beh(m.trace + [ps[m.control.p].id]);
    if o.GoTo? {
      assert RightLabels(ps, o.target, m.control.p, m.control.p + 1);
    }
  }

  ghost function StepOrStay(ps: seq<Paragraph>, t: Tables, beh: Behaviour, m: Machine): Machine
    requires RightTables(ps, t) && Resolved(ps, beh)
  {
    if Consistent(ps, m) then Step(ps, t, beh, m) else m
  }

  ghost function Stepper(ps: seq<Paragraph>, t: Tables, beh: Behaviour): Machine -> Machine
    requires RightTables(ps, t) && Resolved(ps, beh)
  {
    m => StepOrStay(ps, t, beh, m)
  }

  /** The machine after `k` of its own steps. */
  ghost function MachineRun(ps: seq<Paragraph>, t: Tables, beh: Behaviour, pending: Option<Id>, k: nat): (m: Machine)
    requires RightTables(ps, t) && |ps| > 0 && Resolved(ps, beh)
    requires pending.Some? ==> pending.value in Ids(ps)
  {
    assert Ids(ps)[0] == ps[0].id;
    Iterate(Stepper(ps, t, beh), Initial(ps, t, pending), k)
  }

  ghost function ConsistentIn(ps: seq<Paragraph>): Machine -> bool { (m: Machine) => Consistent(ps, m) }

  ghost function AbstractIn(ps: seq<Paragraph>): Machine -> Run<Site> { (m: Machine) => Abstract(ps, m) }

  ghost function RankOf(): Machine -> nat { (m: Machine) => Rank(m.control) }

  lemma {:induction false} MachineSimulates(ps: seq<Paragraph>, t: Tables, beh: Behaviour)
    requires RightTables(ps, t) && Resolved(ps, beh)
    ensures Simulates(Stepper(ps, t, beh), ConsistentIn(ps), RankOf(), AbstractIn(ps), EmittedStepper(ps, beh))
  {
    forall m: Machine
      ensures SimulatesAt(Stepper(ps, t, beh), ConsistentIn(ps), RankOf(), AbstractIn(ps), EmittedStepper(ps, beh), m)
    {
      if Consistent(ps, m) {
        MachineStepAgrees(ps, t, beh, m);
      }
    }
  }

  lemma {:induction false} MachineStepAgrees(ps: seq<Paragraph>, t: Tables, beh: Behaviour, m: Machine)
    requires RightTables(ps, t) && Resolved(ps, beh) && Consistent(ps, m)
    ensures var m' := Step(ps, t, beh, m);
      if Rank(m.control) > 0 then SilentStepAgrees(ps, m, m') else BodyStepAgrees(ps, beh, m, m')
  {
    if Rank(m.control) > 0 {
      SilentStep(ps, t, beh, m);
    } else if m.control.AtMerged? {
      if beh(m.trace + [ps[m.control.p].id]).GoTo? {
        MergedTransfer(ps, t, beh, m);
      } else {
        MergedExit(ps, t, beh, m);
      }
    } else if m.control.AtIsolated? {
      IsolatedBodyStep(ps, t, beh, m);
    }
  }

  lemma {:induction false} InitialStandsForStart(ps: seq<Paragraph>, t: Tables, pending: Option<Id>)
    requires RightTables(ps, t) && UniqueIds(ps) && |ps| > 0
    requires pending.Some? ==> pending.value in Ids(ps)
    ensures ps[0].id in t.entry
    ensures var m := Initial(ps, t, pending);
      Consistent(ps, m) && Abstract(ps, m) == Run(Some(EnterSite(ps, StartOf(ps, pending))), [])
  {
    assert Ids(ps)[0] == ps[0].id;
    IndexOfId(ps, 0);
  }

  /** Safety: what the machine has run so far is a prefix of the emitted run, and no transfer is pending inside a function. */
  lemma {:induction false} MachineRefinesEmittedRun(ps: seq<Paragraph>, t: Tables, beh: Behaviour, pending: Option<Id>, k: nat) returns (n: nat)
    requires WellFormed(ps) && |ps| > 0 && RightTables(ps, t) && Resolved(ps, beh)
    requires pending.Some? ==> pending.value in Ids(ps)
    ensures var m := MachineRun(ps, t, beh, pending, k);
      n <= k && Consistent(ps, m) && Abstract(ps, m) == EmittedRun(ps, beh, StartOf(ps, pending), n)
  {
    MachineSimulates(ps, t, beh);
    InitialStandsForStart(ps, t, pending);
    n := Safety(Stepper(ps, t, beh), ConsistentIn(ps), RankOf(), AbstractIn(ps), EmittedStepper(ps, beh), Initial(ps, t, pending), k);
  }

  /** Progress: every prefix of the emitted run is reached, within four silent steps before each body. */
  lemma {:induction false} MachineRealisesEmittedRun(ps: seq<Paragraph>, t: Tables, beh: Behaviour, pending: Option<Id>, n: nat) returns (k: nat)
    requires WellFormed(ps) && |ps| > 0 && RightTables(ps, t) && Resolved(ps, beh)
    requires pending.Some? ==> pending.value in Ids(ps)
    ensures k <= 5 * n
    ensures Abstract(ps, MachineRun(ps, t, beh, pending, k)) == EmittedRun(ps, beh, StartOf(ps, pending), n)
  {
    MachineSimulates(ps, t, beh);
    InitialStandsForStart(ps, t, pending);
    k := Progress(Stepper(ps, t, beh), ConsistentIn(ps), RankOf(), AbstractIn(ps), EmittedStepper(ps, beh), Initial(ps, t, pending), n, 4);
  }
}
