/**
  The order in which a COBOL procedure division runs its paragraphs: source order, left by
  GO TO, EXIT PARAGRAPH, EXIT SECTION and STOP RUN.
*/
module ParagraphFlow {
  import opened Options
  import opened ParagraphLabels
  import opened Stuttering

  /** How one execution of a paragraph body ends. */
  datatype Outcome = FallThrough | GoTo(target: Id) | ExitParagraph | ExitSection | StopRun

  /** What the last body of a history does. Bodies see all that ran before them and nothing else. */
  type Behaviour = seq<Id> -> Outcome

  ghost predicate Resolved(ps: seq<Paragraph>, beh: Behaviour) {
    forall h: seq<Id> :: beh(h).GoTo? ==> beh(h).target in Ids(ps)
  }

  function FirstOf(ids: seq<Id>, id: Id): (p: nat)
    requires id in ids
    ensures p < |ids| && ids[p] == id
  {
    if ids[0] == id then 0 else 1 + FirstOf(ids[1..], id)
  }

  function IndexOf(ps: seq<Paragraph>, id: Id): (p: nat)
    requires id in Ids(ps)
    ensures p < |ps| && ps[p].id == id
  {
    FirstOf(Ids(ps), id)
  }

  lemma {:induction false} IndexOfId(ps: seq<Paragraph>, p: nat)
    requires UniqueIds(ps) && p < |ps|
    ensures ps[p].id in Ids(ps) && IndexOf(ps, ps[p].id) == p
  {
    assert Ids(ps)[p] == ps[p].id;
  }

  /** The first paragraph from `i` on that stands outside any section. */
  function NextTopLevel(ps: seq<Paragraph>, i: nat): (q: nat)
    requires i <= |ps|
    ensures i <= q <= |ps|
    ensures forall k :: i <= k < q ==> ps[k].sectionId.Some?
    ensures q < |ps| ==> ps[q].sectionId.None?
    decreases |ps| - i
  {
    if i < |ps| && ps[i].sectionId.Some? then NextTopLevel(ps, i + 1) else i
  }

  /** Where the section (or lone paragraph) containing `p` ends. */
  function SectionEnd(ps: seq<Paragraph>, p: nat): nat
    requires p < |ps|
  {
    NextTopLevel(ps, p + 1)
  }

  function InRange(ps: seq<Paragraph>, p: nat): Option<nat> {
    if p < |ps| then Some(p) else None
  }

  /** The paragraph that runs after `p` has ended with `o`; none when the program is over. */
  function SourceNext(ps: seq<Paragraph>, p: nat, o: Outcome): Option<nat>
    requires p < |ps| && (o.GoTo? ==> o.target in Ids(ps))
  {
    match o
    case FallThrough => InRange(ps, p + 1)
    case ExitParagraph => InRange(ps, p + 1)
    case ExitSection => InRange(ps, SectionEnd(ps, p))
    case GoTo(t) => Some(IndexOf(ps, t))
    case StopRun => None
  }

  /** A run between two bodies: what runs next, and the bodies run so far. */
  datatype Run<+T> = Run(next: Option<T>, trace: seq<Id>)

  function SourceStep(ps: seq<Paragraph>, beh: Behaviour, r: Run<nat>): Run<nat>
    requires Resolved(ps, beh)
  {
    if r.next.None? || r.next.value >= |ps| then Run(None, r.trace)
    else
      var trace := r.trace + [ps[r.next.value].id];
      Run(SourceNext(ps, r.next.value, beh(trace)), trace)
  }

  function SourceStepper(ps: seq<Paragraph>, beh: Behaviour): Run<nat> -> Run<nat>
    requires Resolved(ps, beh)
  {
    r => SourceStep(ps, beh, r)
  }

  /** The run after at most `n` bodies, started at paragraph `start`. */
  function SourceRun(ps: seq<Paragraph>, beh: Behaviour, start: nat, n: nat): (r: Run<nat>)
    requires Resolved(ps, beh) && start < |ps|
  {
    Iterate(SourceStepper(ps, beh), Run(Some(start), []), n)
  }

  /** What runs next, if anything, is a paragraph of the program. */
  ghost predicate InProgram(ps: seq<Paragraph>, r: Run<nat>) {
    r.next.Some? ==> r.next.value < |ps|
  }
}
