/**
  Subscripted access: the segments recorded for every path through a record with tables, the C
  access built from them, and the bytes that access addresses.
*/
module TableAddress {
  import opened Options
  import opened DataItems
  import StorageLayout
  import opened FixedPoint

  // ----- The C struct layout -----

  /** `sizeof` one element of a member: a character array, or the struct of a group. */
  function ElementSize(item: Item): nat
    decreases item, 0
  {
    match item.body
    case Elementary(size, separateSign) => if separateSign then size + 1 else size
    case Group(members, _) => StructSize(members)
  }

  /** `sizeof` a struct: its members one after the other; redefining and renaming items are no members. */
  function StructSize(items: seq<Item>): nat
    decreases items, 1
  {
    if items == [] then 0
    else (if items[0].clause.Plain? then ElementSize(items[0]) * Count(items[0]) else 0) + StructSize(items[1..])
  }

  /** The offset of member `k` in its struct. */
  function MemberOffset(items: seq<Item>, k: nat): nat
    requires k <= |items|
  {
    StructSize(items[..k])
  }

  lemma {:induction false} StructSizeAppend(a: seq<Item>, b: seq<Item>)
    ensures StructSize(a + b) == StructSize(a) + StructSize(b)
  {
    if a == [] {
      assert a + b == b;
    } else {
      assert (a + b)[1..] == a[1..] + b;
      StructSizeAppend(a[1..], b);
    }
  }

  /** Member `j` ends before member `k` starts, and the last one ends inside the struct. */
  lemma {:induction false} MembersInOrder(items: seq<Item>, j: nat, k: nat)
    requires j < k <= |items| && items[j].clause.Plain?
    ensures MemberOffset(items, j) + ElementSize(items[j]) * Count(items[j]) <= MemberOffset(items, k) <= StructSize(items)
  {
    assert items[..k] == items[..j] + ([items[j]] + items[j+1..k]);
    StructSizeAppend(items[..j], [items[j]] + items[j+1..k]);
    assert ([items[j]] + items[j+1..k])[1..] == items[j+1..k];
    assert items == items[..k] + items[k..];
    StructSizeAppend(items[..k], items[k..]);
  }

  // ----- The struct and the storage layout -----

  /** One element of a member takes the storage of the item. */
  lemma {:induction false} ElementIsStorage(item: Item)
    requires SizedItem(item)
    ensures ElementSize(item) == StorageSize(item)
    decreases item, 0
  {
    match item.body
    case Group(members, _) => StructIsTotal(members);
    case Elementary(_, _) =>
  }

  lemma {:induction false} StructIsTotal(items: seq<Item>)
    requires Sized(items)
    ensures StructSize(items) == Total(items)
    decreases items, 1
  {
    if items != [] {
      assert items[0] in items;
      ElementIsStorage(items[0]);
      StructIsTotal(items[1..]);
    }
  }

  /** A member stands in its struct where the storage offsets place its item, and takes as much room. */
  lemma {:induction false} MemberStandsAtItsEntry(items: seq<Item>, k: nat)
    requires Sized(items) && NoRedefines(items) && k < |items| && items[k].clause.Plain?
    ensures StorageLayout.Entry(items[k].name, MemberOffset(items, k), ElementSize(items[k]) * Count(items[k]))
      in StorageLayout.Offsets(items, 0)
    ensures StructSize(items) == Total(items)
  {
    assert items[k] in items;
    StructIsTotal(items[..k]);
    StructIsTotal(items);
    ElementIsStorage(items[k]);
    StorageLayout.EntryOfItem(items, 0, k);
  }

  // ----- Paths -----

  /** A path names a member of the root, a member of that, and so on down, through no redefining item. */
  predicate IsPath(items: seq<Item>, path: seq<nat>)
    decreases |path|
  {
    && path != []
    && path[0] < |items|
    && !items[path[0]].clause.Redefines?
    && (|path| > 1 ==> items[path[0]].body.Group? && IsPath(items[path[0]].body.members, path[1..]))
  }

  /** One step of an access: a member, and whether it is a table. */
  datatype Segment = Segment(member: nat, hasOccurs: bool)

  /** The segments along a path. */
  function Segments(items: seq<Item>, path: seq<nat>): (s: seq<Segment>)
    requires IsPath(items, path)
    ensures |s| == |path|
    decreases |path|
  {
    [Segment(path[0], items[path[0]].occurs.Some?)] +
    if |path| == 1 then [] else Segments(items[path[0]].body.members, path[1..])
  }

  function OccursCount(s: seq<Segment>): nat {
    if s == [] then 0 else (if s[0].hasOccurs then 1 else 0) + OccursCount(s[1..])
  }

  lemma {:induction false} OccursCountAppend(a: seq<Segment>, b: seq<Segment>)
    ensures OccursCount(a + b) == OccursCount(a) + OccursCount(b)
  {
    if a == [] {
      assert a + b == b;
    } else {
      assert (a + b)[1..] == a[1..] + b;
      OccursCountAppend(a[1..], b);
    }
  }

  // ----- Recording the paths -----

  type PathMap = map<seq<nat>, seq<Segment>>

  /** What the members from `k` on contribute below an ancestor, under their paths from the root. */
  function Paths(items: seq<Item>, k: nat, path: seq<nat>, segments: seq<Segment>): PathMap
    requires k <= |items|
    decreases items, |items| - k
  {
    if k == |items| then map[]
    else MemberPaths(items, k, path, segments) + Paths(items, k + 1, path, segments)
  }

  /** What member `k` and everything below it contributes. */
  function MemberPaths(items: seq<Item>, k: nat, path: seq<nat>, segments: seq<Segment>): PathMap
    requires k < |items|
    decreases items, |items| - k, 0
  {
    if items[k].clause.Redefines? then map[]
    else
      var path', segments' := path + [k], segments + [Segment(k, items[k].occurs.Some?)];
      (if OccursCount(segments') > 0 then map[path' := segments'] else map[]) +
      (match items[k].body
       case Group(members, _) => Paths(members, 0, path', segments')
       case Elementary(_, _) => map[])
  }

  /**
    `collect_subscript_paths`: every member that is a table or stands below one is recorded under
    its fully qualified name, here its path, with the segments that lead to it.
  */
  method CollectSubscriptPaths(before: PathMap, items: seq<Item>, path: seq<nat>, segments: seq<Segment>) returns (paths: PathMap)
    ensures paths == before + Paths(items, 0, path, segments)
    decreases items, 1
  {
    paths := before;
    for k := 0 to |items|
      invariant paths + Paths(items, k, path, segments) == before + Paths(items, 0, path, segments)
    {
      MergeIsAssociative(paths, MemberPaths(items, k, path, segments), Paths(items, k + 1, path, segments));
      paths := CollectMember(paths, items, k, path, segments);
    }
  }

  lemma {:induction false} MergeIsAssociative(a: PathMap, b: PathMap, c: PathMap)
    ensures (a + b) + c == a + (b + c)
  {
  }

  /** One turn of the loop over the members. */
  method CollectMember(before: PathMap, items: seq<Item>, k: nat, path: seq<nat>, segments: seq<Segment>) returns (paths: PathMap)
    requires k < |items|
    ensures paths == before + MemberPaths(items, k, path, segments)
    decreases items, 0
  {
    paths := before;
    if items[k].clause.Redefines? {
      return;
    }
    var path', segments' := path + [k], segments + [Segment(k, items[k].occurs.Some?)];
    if OccursCount(segments') > 0 {
      paths := paths[path' := segments'];
    }
    match items[k].body {
      case Group(members, _) =>
        MergeIsAssociative(before, if OccursCount(segments') > 0 then map[path' := segments'] else map[], Paths(members, 0, path', segments'));
        paths := CollectSubscriptPaths(paths, members, path', segments');
      case Elementary(_, _) =>
    }
  }

  /** `key` extends the ancestor's path by a path through `items`, with a table somewhere on the way. */
  ghost predicate Recorded(items: seq<Item>, path: seq<nat>, segments: seq<Segment>, key: seq<nat>) {
    && path < key
    && IsPath(items, key[|path|..])
    && OccursCount(segments) + OccursCount(Segments(items, key[|path|..])) > 0
  }

  /** Exactly the paths with a table on them are recorded, each with the segments along it. */
  lemma {:induction false} PathsAreRecorded(items: seq<Item>, k: nat, path: seq<nat>, segments: seq<Segment>, key: seq<nat>)
    requires k <= |items|
    ensures key in Paths(items, k, path, segments) <==> Recorded(items, path, segments, key) && key[|path|] >= k
    ensures key in Paths(items, k, path, segments) ==>
      Paths(items, k, path, segments)[key] == segments + Segments(items, key[|path|..])
    decreases items, |items| - k
  {
    if k < |items| {
      MemberPathsAreRecorded(items, k, path, segments, key);
      PathsAreRecorded(items, k + 1, path, segments, key);
    } else if path < key && IsPath(items, key[|path|..]) {
      assert key[|path|..][0] == key[|path|];
    }
  }

  lemma {:induction false} MemberPathsAreRecorded(items: seq<Item>, k: nat, path: seq<nat>, segments: seq<Segment>, key: seq<nat>)
    requires k < |items|
    ensures key in MemberPaths(items, k, path, segments) <==> Recorded(items, path, segments, key) && key[|path|] == k
    ensures key in MemberPaths(items, k, path, segments) ==>
      MemberPaths(items, k, path, segments)[key] == segments + Segments(items, key[|path|..])
    decreases items, |items| - k, 0
  {
    if !items[k].clause.Redefines? {
      var segment := Segment(k, items[k].occurs.Some?);
      OccursCountAppend(segments, [segment]);
      assert OccursCount([segment]) == if segment.hasOccurs then 1 else 0;
      if items[k].body.Group? {
        PathsAreRecorded(items[k].body.members, 0, path + [k], segments + [segment], key);
      }
    }
    if path < key && key[|path|] == k {
      if key == path + [k] {
        StepToMember(items, k, path, segments);
      } else {
        StepThroughMember(items, k, path, segments, key);
      }
    }
  }

  /** The key of member `k` itself. */
  lemma {:induction false} StepToMember(items: seq<Item>, k: nat, path: seq<nat>, segments: seq<Segment>)
    requires k < |items|
    ensures var key, segment := path + [k], Segment(k, items[k].occurs.Some?);
      && (Recorded(items, path, segments, key) <==>
            !items[k].clause.Redefines? && OccursCount(segments) + OccursCount([segment]) > 0)
      && (IsPath(items, key[|path|..]) ==> Segments(items, key[|path|..]) == [segment])
  {
    assert (path + [k])[|path|..] == [k];
  }

  /** A key that goes through member `k` and on. */
  lemma {:induction false} StepThroughMember(items: seq<Item>, k: nat, path: seq<nat>, segments: seq<Segment>, key: seq<nat>)
    requires k < |items| && path < key && key[|path|] == k && key != path + [k]
    ensures var item, segment := items[k], Segment(k, items[k].occurs.Some?);
      && (Recorded(items, path, segments, key) <==>
            !item.clause.Redefines? && item.body.Group? &&
            Recorded(item.body.members, path + [k], segments + [segment], key))
      && (Recorded(items, path, segments, key) ==>
            segments + Segments(items, key[|path|..]) ==
            (segments + [segment]) + Segments(item.body.members, key[|path|+1..]))
  {
    var tail, segment := key[|path|..], Segment(k, items[k].occurs.Some?);
    KeyThroughMember(k, path, key);
    if IsPath(items, tail) {
      CountStep(items, tail, segments);
    }
  }

  lemma {:induction false} KeyThroughMember(k: nat, path: seq<nat>, key: seq<nat>)
    requires path < key && key[|path|] == k && key != path + [k]
    ensures var tail := key[|path|..];
      && |tail| > 1 && tail[0] == k && tail[1..] == key[|path|+1..]
      && path + [k] < key && key[|path + [k]|..] == tail[1..]
  {
    var tail := key[|path|..];
    assert key == path + tail;
    assert |tail| == 1 ==> tail == [k];
  }

  lemma {:induction false} CountStep(items: seq<Item>, path: seq<nat>, segments: seq<Segment>)
    requires IsPath(items, path) && |path| > 1
    ensures var segment, rest := Segment(path[0], items[path[0]].occurs.Some?), Segments(items[path[0]].body.members, path[1..]);
      && OccursCount(segments) + OccursCount(Segments(items, path)) == OccursCount(segments + [segment]) + OccursCount(rest)
      && segments + Segments(items, path) == (segments + [segment]) + rest
  {
    var segment, rest := Segment(path[0], items[path[0]].occurs.Some?), Segments(items[path[0]].body.members, path[1..]);
    SegmentsStep(items, path);
    CountMoves(segments, segment, rest);
  }

  lemma {:induction false} CountMoves(segments: seq<Segment>, segment: Segment, rest: seq<Segment>)
    ensures OccursCount(segments) + OccursCount([segment] + rest) == OccursCount(segments + [segment]) + OccursCount(rest)
    ensures segments + ([segment] + rest) == (segments + [segment]) + rest
  {
    OccursCountAppend(segments, [segment]);
    OccursCountAppend([segment], rest);
  }

  lemma {:induction false} SegmentsStep(items: seq<Item>, path: seq<nat>)
    requires IsPath(items, path) && |path| > 1
    ensures Segments(items, path) ==
      [Segment(path[0], items[path[0]].occurs.Some?)] + Segments(items[path[0]].body.members, path[1..])
  {
  }

  // ----- The access expression -----

  /** One step of the C access: a struct member, with a zero-based index when it is an array. */
  datatype Step = Step(member: nat, index: Option<int>)

  /** The access for the segments, taking the next subscript at each table. */
  function AccessOf(segments: seq<Segment>, subscripts: seq<int>): (steps: seq<Step>)
    requires OccursCount(segments) <= |subscripts|
    ensures |steps| == |segments|
    decreases |segments|
  {
    if segments == [] then []
    else if segments[0].hasOccurs then [Step(segments[0].member, Some(subscripts[0] - 1))] + AccessOf(segments[1..], subscripts[1..])
    else [Step(segments[0].member, None)] + AccessOf(segments[1..], subscripts)
  }

  /** The step of a segment, given the subscripts left. */
  function StepOf(segment: Segment, subscripts: seq<int>): Step
    requires segment.hasOccurs ==> subscripts != []
  {
    Step(segment.member, if segment.hasOccurs then Some(subscripts[0] - 1) else None)
  }

  lemma {:induction false} AccessUnfolds(segments: seq<Segment>, subscripts: seq<int>)
    requires segments != [] && OccursCount(segments) <= |subscripts|
    ensures var used := if segments[0].hasOccurs then 1 else 0;
      && OccursCount(segments) == used + OccursCount(segments[1..])
      && AccessOf(segments, subscripts) == [StepOf(segments[0], subscripts)] + AccessOf(segments[1..], subscripts[used..])
  {
    assert subscripts[0..] == subscripts;
  }

  lemma {:induction false} Snoc(steps: seq<Step>, step: Step, more: seq<Step>)
    ensures (steps + [step]) + more == steps + ([step] + more)
  {
  }

  /** One turn of the loop along the segments. */
  lemma {:induction false} AccessTurn(steps: seq<Step>, segments: seq<Segment>, k: nat, subscripts: seq<int>, next: nat)
    requires k < |segments| && next <= |subscripts| && OccursCount(segments[k..]) <= |subscripts| - next
    ensures OccursCount(segments[k..]) == (if segments[k].hasOccurs then 1 else 0) + OccursCount(segments[k+1..])
    ensures segments[k].hasOccurs ==>
      (steps + [Step(segments[k].member, Some(subscripts[next] - 1))]) + AccessOf(segments[k+1..], subscripts[next+1..])
      == steps + AccessOf(segments[k..], subscripts[next..])
    ensures !segments[k].hasOccurs ==>
      (steps + [Step(segments[k].member, None)]) + AccessOf(segments[k+1..], subscripts[next..])
      == steps + AccessOf(segments[k..], subscripts[next..])
  {
    var used := if segments[k].hasOccurs then 1 else 0;
    AccessUnfolds(segments[k..], subscripts[next..]);
    assert segments[k..][1..] == segments[k+1..];
    assert subscripts[next..][used..] == subscripts[next + used..];
    Snoc(steps, StepOf(segments[k], subscripts[next..]), AccessOf(segments[k+1..], subscripts[next + used..]));
  }

  lemma {:induction false} NoSegmentsLeft(steps: seq<Step>, segments: seq<Segment>, subscripts: seq<int>)
    ensures OccursCount(segments[|segments|..]) == 0
    ensures steps + AccessOf(segments[|segments|..], subscripts) == steps
  {
    assert segments[|segments|..] == [];
  }

  /** `emit_subscript_access` along recorded segments; none when there are too few subscripts, or nothing to subscript. */
  method EmitSubscriptAccess(segments: seq<Segment>, subscripts: seq<int>) returns (access: Option<seq<Step>>)
    ensures access == if 0 < OccursCount(segments) <= |subscripts| then Some(AccessOf(segments, subscripts)) else None
  {
    var occursCount := OccursCount(segments);
    if !(occursCount > 0 && |subscripts| >= occursCount) {
      return None;
    }
    var steps := [];
    var next := 0;
    assert subscripts[0..] == subscripts && segments[0..] == segments;
    for k := 0 to |segments|
      invariant next <= |subscripts| && OccursCount(segments[k..]) <= |subscripts| - next
      invariant steps + AccessOf(segments[k..], subscripts[next..]) == AccessOf(segments, subscripts)
    {
      AccessTurn(steps, segments, k, subscripts, next);
      if segments[k].hasOccurs && next < |subscripts| {
        steps := steps + [Step(segments[k].member, Some(subscripts[next] - 1))];
        next := next + 1;
      } else {
        steps := steps + [Step(segments[k].member, None)];
      }
    }
    NoSegmentsLeft(steps, segments, subscripts[next..]);
    access := Some(steps);
  }

  /** The access follows the struct, indexes exactly its arrays, and every index is in range. */
  predicate InRange(items: seq<Item>, steps: seq<Step>)
    decreases |steps|
  {
    && steps != []
    && steps[0].member < |items|
    && var item := items[steps[0].member];
    && item.clause.Plain?
    && (match item.occurs
        case Some(n) => steps[0].index.Some? && 0 <= steps[0].index.value < n
        case None => steps[0].index.None?)
    && (|steps| > 1 ==> item.body.Group? && InRange(item.body.members, steps[1..]))
  }

  datatype Bytes = Bytes(offset: nat, size: nat)

  function Index(step: Step): (i: nat)
    requires step.index.Some? ==> step.index.value >= 0
  {
    match step.index case Some(i) => i case None => 0
  }

  /** The bytes an access addresses in a struct that starts at `base`. */
  function Locate(items: seq<Item>, base: nat, steps: seq<Step>): Bytes
    requires InRange(items, steps)
    decreases |steps|
  {
    var item := items[steps[0].member];
    var at := base + MemberOffset(items, steps[0].member) + Index(steps[0]) * ElementSize(item);
    if |steps| == 1 then Bytes(at, ElementSize(item)) else Locate(item.body.members, at, steps[1..])
  }

  lemma {:induction false} Elements(unit: nat, i: nat, rest: nat)
    ensures (i + 1 + rest) * unit == i * unit + unit + rest * unit
  {
  }

  lemma {:induction false} ElementFits(unit: nat, i: nat, n: nat)
    requires i < n
    ensures 0 <= i * unit && i * unit + unit <= n * unit
  {
    Elements(unit, i, n - 1 - i);
    ProductIsNonNegative(i, unit);
    ProductIsNonNegative(n - 1 - i, unit);
  }

  lemma {:induction false} ElementsApart(unit: nat, i: nat, j: nat)
    requires i < j
    ensures i * unit + unit <= j * unit
  {
    ElementFits(unit, i, j);
  }

  /** The element a step selects lies inside its member, and its member inside the struct. */
  lemma {:induction false} StepInside(items: seq<Item>, steps: seq<Step>)
    requires InRange(items, steps)
    ensures var k := steps[0].member;
      var at := MemberOffset(items, k) + Index(steps[0]) * ElementSize(items[k]);
      && MemberOffset(items, k) <= at
      && at + ElementSize(items[k]) <= MemberOffset(items, k) + ElementSize(items[k]) * Count(items[k]) <= StructSize(items)
  {
    var k := steps[0].member;
    ElementFits(ElementSize(items[k]), Index(steps[0]), Count(items[k]));
    assert items[..|items|] == items;
    MembersInOrder(items, k, |items|);
  }

  /** In-range subscripts address bytes inside the record. */
  lemma {:induction false} InRangeIsInside(items: seq<Item>, base: nat, steps: seq<Step>)
    requires InRange(items, steps)
    ensures var b := Locate(items, base, steps); base <= b.offset && b.offset + b.size <= base + StructSize(items)
    decreases |steps|
  {
    StepInside(items, steps);
    if |steps| > 1 {
      var item := items[steps[0].member];
      InRangeIsInside(item.body.members, base + MemberOffset(items, steps[0].member) + Index(steps[0]) * ElementSize(item), steps[1..]);
    }
  }

  ghost predicate Apart(a: Bytes, b: Bytes) {
    a.offset + a.size <= b.offset || b.offset + b.size <= a.offset
  }

  /** The accesses part at some step that both have. */
  ghost predicate Diverge(a: seq<Step>, b: seq<Step>) {
    a != [] && b != [] && (a[0] != b[0] || Diverge(a[1..], b[1..]))
  }

  /** Where the element selected by the first step lies, inside which the whole access stays. */
  lemma {:induction false} FirstElement(items: seq<Item>, base: nat, steps: seq<Step>) returns (e: Bytes)
    requires InRange(items, steps)
    ensures var k := steps[0].member;
      e == Bytes(base + MemberOffset(items, k) + Index(steps[0]) * ElementSize(items[k]), ElementSize(items[k]))
    ensures var b := Locate(items, base, steps); e.offset <= b.offset && b.offset + b.size <= e.offset + e.size
  {
    var k := steps[0].member;
    e := Bytes(base + MemberOffset(items, k) + Index(steps[0]) * ElementSize(items[k]), ElementSize(items[k]));
    if |steps| > 1 {
      InRangeIsInside(items[k].body.members, e.offset, steps[1..]);
    }
  }

  /** Accesses that part address disjoint bytes. */
  lemma {:induction false} DivergingAccessesAreApart(items: seq<Item>, base: nat, a: seq<Step>, b: seq<Step>)
    requires InRange(items, a) && InRange(items, b) && Diverge(a, b)
    ensures Apart(Locate(items, base, a), Locate(items, base, b))
    decreases |a|
  {
    if a[0] == b[0] {
      var k := a[0].member;
      DivergingAccessesAreApart(items[k].body.members,
        base + MemberOffset(items, k) + Index(a[0]) * ElementSize(items[k]), a[1..], b[1..]);
    } else {
      FirstStepsApart(items, base, a, b);
    }
  }

  lemma {:induction false} FirstStepsApart(items: seq<Item>, base: nat, a: seq<Step>, b: seq<Step>)
    requires InRange(items, a) && InRange(items, b) && a[0] != b[0]
    ensures Apart(Locate(items, base, a), Locate(items, base, b))
  {
    var ea := FirstElement(items, base, a);
    var eb := FirstElement(items, base, b);
    StepInside(items, a);
    StepInside(items, b);
    var j, k := a[0].member, b[0].member;
    if j < k {
      MembersInOrder(items, j, k);
    } else if k < j {
      MembersInOrder(items, k, j);
    } else if Index(a[0]) < Index(b[0]) {
      ElementsApart(ElementSize(items[k]), Index(a[0]), Index(b[0]));
    } else {
      ElementsApart(ElementSize(items[k]), Index(b[0]), Index(a[0]));
    }
    assert Apart(ea, eb);
  }

  // ----- Subscripted names -----

  /** Every subscript of the path is between 1 and its table's number of occurrences, and no item on it renames. */
  predicate ValidSubscripts(items: seq<Item>, path: seq<nat>, subscripts: seq<int>)
    requires IsPath(items, path)
    decreases |path|
  {
    var item := items[path[0]];
    && item.clause.Plain?
    && (item.occurs.Some? ==> subscripts != [] && 1 <= subscripts[0] <= item.occurs.value)
    && var rest := if item.occurs.Some? then subscripts[1..] else subscripts;
       if |path| == 1 then rest == [] else ValidSubscripts(item.body.members, path[1..], rest)
  }

  /** A fully qualified name takes one subscript per table on its path, and valid ones make an access in range. */
  lemma {:induction false} ValidSubscriptsAreInRange(items: seq<Item>, path: seq<nat>, subscripts: seq<int>)
    requires IsPath(items, path) && ValidSubscripts(items, path, subscripts)
    ensures OccursCount(Segments(items, path)) == |subscripts|
    ensures InRange(items, AccessOf(Segments(items, path), subscripts))
    decreases |path|
  {
    var segments := Segments(items, path);
    if |path| > 1 {
      var rest := if items[path[0]].occurs.Some? then subscripts[1..] else subscripts;
      ValidSubscriptsAreInRange(items[path[0]].body.members, path[1..], rest);
      assert segments[1..] == Segments(items[path[0]].body.members, path[1..]);
    } else {
      assert segments[1..] == [];
    }
  }

  lemma {:induction false} DifferentSubscriptsDiverge(segments: seq<Segment>, s: seq<int>, t: seq<int>)
    requires OccursCount(segments) == |s| == |t| && s != t
    ensures Diverge(AccessOf(segments, s), AccessOf(segments, t))
    decreases |segments|
  {
    if segments[0].hasOccurs {
      assert s == [s[0]] + s[1..] && t == [t[0]] + t[1..];
      if s[0] == t[0] { DifferentSubscriptsDiverge(segments[1..], s[1..], t[1..]); }
    } else {
      DifferentSubscriptsDiverge(segments[1..], s, t);
    }
  }

  /**
    For every record and every path through it: valid subscripts, one per table, address bytes
    inside the record, and different valid subscripts address disjoint bytes.
  */
  lemma {:induction false} SubscriptsAddressDisjointElements(items: seq<Item>, path: seq<nat>, s: seq<int>, t: seq<int>)
    requires IsPath(items, path) && ValidSubscripts(items, path, s) && ValidSubscripts(items, path, t)
    ensures OccursCount(Segments(items, path)) == |s| == |t|
    ensures var segments := Segments(items, path);
      && InRange(items, AccessOf(segments, s)) && InRange(items, AccessOf(segments, t))
      && var a, b := Locate(items, 0, AccessOf(segments, s)), Locate(items, 0, AccessOf(segments, t));
      && a.offset + a.size <= StructSize(items)
      && a.size == ElementSize(Target(items, path))
      && (s != t ==> Apart(a, b))
  {
    var segments := Segments(items, path);
    ValidSubscriptsAreInRange(items, path, s);
    ValidSubscriptsAreInRange(items, path, t);
    InRangeIsInside(items, 0, AccessOf(segments, s));
    LocatesTarget(items, 0, path, s);
    if s != t {
      DifferentSubscriptsDiverge(segments, s, t);
      DivergingAccessesAreApart(items, 0, AccessOf(segments, s), AccessOf(segments, t));
    }
  }

  /** The item at the end of a path. */
  function Target(items: seq<Item>, path: seq<nat>): Item
    requires IsPath(items, path)
    decreases |path|
  {
    if |path| == 1 then items[path[0]] else Target(items[path[0]].body.members, path[1..])
  }

  /** The access along a path, split after its first step. */
  lemma {:induction false} AccessAlongPath(items: seq<Item>, path: seq<nat>, subscripts: seq<int>, rest: seq<int>)
    requires IsPath(items, path) && |path| > 1 && OccursCount(Segments(items, path)) <= |subscripts|
    requires items[path[0]].occurs.Some? ==> subscripts != []
    requires rest == if items[path[0]].occurs.Some? then subscripts[1..] else subscripts
    ensures var below := Segments(items[path[0]].body.members, path[1..]);
      && OccursCount(below) <= |rest|
      && AccessOf(Segments(items, path), subscripts) == [StepOf(Segments(items, path)[0], subscripts)] + AccessOf(below, rest)
      && Segments(items, path)[0].member == path[0]
  {
    SegmentsStep(items, path);
    assert Segments(items, path)[1..] == Segments(items[path[0]].body.members, path[1..]);
    AccessUnfolds(Segments(items, path), subscripts);
    assert subscripts[0..] == subscripts;
  }

  lemma {:induction false} LocatedBelow(items: seq<Item>, base: nat, step: Step, below: seq<Step>) returns (at: nat)
    requires InRange(items, [step] + below) && below != []
    ensures step.member < |items| && items[step.member].body.Group?
    ensures InRange(items[step.member].body.members, below)
    ensures Locate(items, base, [step] + below) == Locate(items[step.member].body.members, at, below)
  {
    var steps := [step] + below;
    assert steps[1..] == below;
    at := base + MemberOffset(items, step.member) + Index(step) * ElementSize(items[step.member]);
  }

  lemma {:induction false} LocatesTarget(items: seq<Item>, base: nat, path: seq<nat>, subscripts: seq<int>)
    requires IsPath(items, path) && ValidSubscripts(items, path, subscripts)
    requires OccursCount(Segments(items, path)) <= |subscripts|
    requires InRange(items, AccessOf(Segments(items, path), subscripts))
    ensures Locate(items, base, AccessOf(Segments(items, path), subscripts)).size == ElementSize(Target(items, path))
    decreases |path|
  {
    if |path| > 1 {
      var members := items[path[0]].body.members;
      var rest := if items[path[0]].occurs.Some? then subscripts[1..] else subscripts;
      RestOfSubscripts(items, path, subscripts, rest);
      AccessAlongPath(items, path, subscripts, rest);
      var at := LocatedBelow(items, base, StepOf(Segments(items, path)[0], subscripts), AccessOf(Segments(members, path[1..]), rest));
      LocatesTarget(members, at, path[1..], rest);
    }
  }

  lemma {:induction false} RestOfSubscripts(items: seq<Item>, path: seq<nat>, subscripts: seq<int>, rest: seq<int>)
    requires IsPath(items, path) && |path| > 1 && ValidSubscripts(items, path, subscripts)
    requires items[path[0]].occurs.Some? ==> subscripts != []
    requires rest == if items[path[0]].occurs.Some? then subscripts[1..] else subscripts
    ensures ValidSubscripts(items[path[0]].body.members, path[1..], rest)
  {
  }

  // ----- Which element a subscript selects -----

  /** Every subscript is one. */
  predicate AllOnes(subscripts: seq<int>) { forall i :: 0 <= i < |subscripts| ==> subscripts[i] == 1 }

  /** What an access along a path addresses. */
  function Addressed(items: seq<Item>, base: nat, path: seq<nat>, subscripts: seq<int>): Bytes
    requires IsPath(items, path) && OccursCount(Segments(items, path)) <= |subscripts|
    requires InRange(items, AccessOf(Segments(items, path), subscripts))
  {
    Locate(items, base, AccessOf(Segments(items, path), subscripts))
  }

  /** Where the element of a path's first item that the first subscript selects starts. */
  function ElementStart(items: seq<Item>, base: nat, path: seq<nat>, subscripts: seq<int>): nat
    requires IsPath(items, path) && ValidSubscripts(items, path, subscripts)
  {
    var item := items[path[0]];
    var before := if item.occurs.Some? then subscripts[0] - 1 else 0;
    base + MemberOffset(items, path[0]) + before * ElementSize(item)
  }

  lemma {:induction false} AddressedStep(items: seq<Item>, base: nat, path: seq<nat>, subscripts: seq<int>)
    requires IsPath(items, path) && ValidSubscripts(items, path, subscripts)
    ensures OccursCount(Segments(items, path)) <= |subscripts| && InRange(items, AccessOf(Segments(items, path), subscripts))
    ensures var item := items[path[0]];
      var at, rest := ElementStart(items, base, path, subscripts), if item.occurs.Some? then subscripts[1..] else subscripts;
      if |path| == 1 then Addressed(items, base, path, subscripts).offset == at
      else
        && ValidSubscripts(item.body.members, path[1..], rest)
        && OccursCount(Segments(item.body.members, path[1..])) <= |rest|
        && InRange(item.body.members, AccessOf(Segments(item.body.members, path[1..]), rest))
        && Addressed(items, base, path, subscripts) == Addressed(item.body.members, at, path[1..], rest)
  {
    ValidSubscriptsAreInRange(items, path, subscripts);
    if |path| > 1 {
      var rest := if items[path[0]].occurs.Some? then subscripts[1..] else subscripts;
      ValidSubscriptsAreInRange(items[path[0]].body.members, path[1..], rest);
      AccessAlongPath(items, path, subscripts, rest);
    }
  }

  /** With every subscript one, a path addresses the item's first element, where the storage offsets place it. */
  lemma {:induction false} FirstElementStandsAtItsEntry(items: seq<Item>, base: nat, path: seq<nat>, subscripts: seq<int>)
    requires IsPath(items, path) && ValidSubscripts(items, path, subscripts) && AllOnes(subscripts)
    requires Sized(items) && NoRedefines(items)
    ensures OccursCount(Segments(items, path)) <= |subscripts| && InRange(items, AccessOf(Segments(items, path), subscripts))
    ensures var item := Target(items, path);
      StorageLayout.Entry(item.name, Addressed(items, base, path, subscripts).offset, StorageSize(item) * Count(item))
        in StorageLayout.Offsets(items, base)
    decreases |path|
  {
    var k := path[0];
    assert items[k] in items;
    AddressedStep(items, base, path, subscripts);
    StructIsTotal(items[..k]);
    StorageLayout.EntryOfItem(items, base, k);
    if |path| > 1 {
      var rest := if items[k].occurs.Some? then subscripts[1..] else subscripts;
      var item := Target(items, path);
      FirstElementStandsAtItsEntry(items[k].body.members, base + MemberOffset(items, k), path[1..], rest);
      StorageLayout.MemberEntries(items, base, k,
        StorageLayout.Entry(item.name, Addressed(items, base, path, subscripts).offset, StorageSize(item) * Count(item)));
    }
  }

  /** The `q`-th table on a path, counting from the outside. */
  function TableOn(items: seq<Item>, path: seq<nat>, q: nat): Item
    requires IsPath(items, path)
    decreases |path|
  {
    var item := items[path[0]];
    if |path| == 1 || (item.occurs.Some? && q == 0) then item
    else TableOn(item.body.members, path[1..], if item.occurs.Some? then q - 1 else q)
  }

  /** One more in subscript `q` moves on by one element of the `q`-th table. */
  lemma {:induction false} NextElement(items: seq<Item>, base: nat, path: seq<nat>, s: seq<int>, t: seq<int>, q: nat)
    requires IsPath(items, path) && ValidSubscripts(items, path, s) && ValidSubscripts(items, path, t)
    requires q < |s| && t == s[q := s[q] + 1]
    ensures OccursCount(Segments(items, path)) <= |s| && InRange(items, AccessOf(Segments(items, path), s))
    ensures OccursCount(Segments(items, path)) <= |t| && InRange(items, AccessOf(Segments(items, path), t))
    ensures Addressed(items, base, path, t).offset == Addressed(items, base, path, s).offset + ElementSize(TableOn(items, path, q))
    decreases |path|
  {
    AddressedStep(items, base, path, s);
    AddressedStep(items, base, path, t);
    var item := items[path[0]];
    if item.occurs.Some? && q == 0 {
      FirstSubscriptMoves(items, base, path, s, t);
    } else if |path| > 1 {
      var rs, rt := if item.occurs.Some? then s[1..] else s, if item.occurs.Some? then t[1..] else t;
      var q' := if item.occurs.Some? then q - 1 else q;
      assert rt == rs[q' := rs[q'] + 1];
      var at := ElementStart(items, base, path, s);
      NextElement(item.body.members, at, path[1..], rs, rt, q');
    }
  }

  /** Moving the base moves what is addressed. */
  lemma {:induction false} BaseMoves(items: seq<Item>, base: nat, more: nat, steps: seq<Step>)
    requires InRange(items, steps)
    ensures Locate(items, base + more, steps).offset == Locate(items, base, steps).offset + more
    decreases |steps|
  {
    if |steps| > 1 {
      var item := items[steps[0].member];
      BaseMoves(item.body.members, base + MemberOffset(items, steps[0].member) + Index(steps[0]) * ElementSize(item), more, steps[1..]);
    }
  }

  lemma {:induction false} OneMoreElement(i: int, unit: nat)
    ensures (i + 1 - 1) * unit == (i - 1) * unit + unit
  {
  }

  lemma {:induction false} FirstSubscriptMoves(items: seq<Item>, base: nat, path: seq<nat>, s: seq<int>, t: seq<int>)
    requires IsPath(items, path) && ValidSubscripts(items, path, s) && ValidSubscripts(items, path, t)
    requires items[path[0]].occurs.Some? && s != [] && t == s[0 := s[0] + 1]
    ensures OccursCount(Segments(items, path)) <= |s| && InRange(items, AccessOf(Segments(items, path), s))
    ensures OccursCount(Segments(items, path)) <= |t| && InRange(items, AccessOf(Segments(items, path), t))
    ensures Addressed(items, base, path, t).offset == Addressed(items, base, path, s).offset + ElementSize(items[path[0]])
  {
    AddressedStep(items, base, path, s);
    AddressedStep(items, base, path, t);
    var unit := ElementSize(items[path[0]]);
    OneMoreElement(s[0], unit);
    if |path| > 1 {
      assert s[1..] == t[1..];
      var members := items[path[0]].body.members;
      BaseMoves(members, base + MemberOffset(items, path[0]) + (s[0] - 1) * unit, unit, AccessOf(Segments(members, path[1..]), s[1..]));
    }
  }

  /** Elementary items of a record never share bytes: two in-range accesses to elementary items are the same or disjoint. */
  lemma {:induction false} ElementaryAccessesAreApart(items: seq<Item>, base: nat, a: seq<Step>, b: seq<Step>)
    requires InRange(items, a) && InRange(items, b) && a != b
    requires ReachesElementary(items, a) && ReachesElementary(items, b)
    ensures Apart(Locate(items, base, a), Locate(items, base, b))
  {
    ElementaryAccessesDiverge(items, a, b);
    DivergingAccessesAreApart(items, base, a, b);
  }

  predicate ReachesElementary(items: seq<Item>, steps: seq<Step>)
    requires InRange(items, steps)
    decreases |steps|
  {
    if |steps| == 1 then items[steps[0].member].body.Elementary?
    else ReachesElementary(items[steps[0].member].body.members, steps[1..])
  }

  lemma {:induction false} ElementaryAccessesDiverge(items: seq<Item>, a: seq<Step>, b: seq<Step>)
    requires InRange(items, a) && InRange(items, b) && a != b
    requires ReachesElementary(items, a) && ReachesElementary(items, b)
    ensures Diverge(a, b)
    decreases |a|
  {
    if a[0] == b[0] {
      assert a == [a[0]] + a[1..] && b == [b[0]] + b[1..];
      ElementaryAccessesDiverge(items[a[0].member].body.members, a[1..], b[1..]);
    }
  }
}
