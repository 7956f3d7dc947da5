/** The weights that compare characters under an ALPHABET. */
module CollatingSequence {
  import opened Characters

  /** A character of one byte. */
  type ByteChar = c: char | c as int < 256 witness 'A'

  type Value = seq<ByteChar>

  const MAX_WEIGHT: nat := 65535

  function SaturatingAdd(a: nat, b: nat): nat { if a + b > MAX_WEIGHT then MAX_WEIGHT else a + b }

  /** `collating_value_bytes`: figurative constants stand for one byte, other values for their own. */
  function ValueBytes(value: Value): seq<nat> {
    var name := Upper(value);
    if name in {"LOW-VALUE", "LOW-VALUES"} then [0]
    else if name in {"HIGH-VALUE", "HIGH-VALUES"} then [255]
    else if name in {"SPACE", "SPACES"} then [' ' as int]
    else if name in {"QUOTE", "QUOTES"} then ['"' as int]
    else if name in {"ZERO", "ZEROS", "ZEROES"} then ['0' as int]
    else seq(|value|, i requires 0 <= i < |value| => value[i] as int)
  }

  lemma {:induction false} ValueBytesAreBytes(value: Value)
    ensures forall b :: b in ValueBytes(value) ==> b < 256
  {
  }

  /** The group lists byte `b`. */
  predicate Lists(group: seq<Value>, b: nat) {
    exists v :: v in group && b in ValueBytes(v)
  }

  predicate Empty(group: seq<Value>) {
    forall v :: v in group ==> ValueBytes(v) == []
  }

  function NonEmpty(groups: seq<seq<Value>>): nat {
    if groups == [] then 0
    else NonEmpty(groups[..|groups|-1]) + if Empty(groups[|groups|-1]) then 0 else 1
  }

  predicate Listed(groups: seq<seq<Value>>, b: nat) {
    exists i :: 0 <= i < |groups| && Lists(groups[i], b)
  }

  /** The last of the first `n` groups that lists `b`; -1 when none does. */
  function LastListing(groups: seq<seq<Value>>, b: nat, n: nat): (i: int)
    requires n <= |groups|
    ensures -1 <= i < n
    ensures i >= 0 ==> Lists(groups[i], b)
    ensures forall k :: i < k < n ==> !Lists(groups[k], b)
  {
    if n == 0 then -1
    else if Lists(groups[n-1], b) then n - 1
    else LastListing(groups, b, n - 1)
  }

  /** The last group that lists a listed byte. */
  function LastGroup(groups: seq<seq<Value>>, b: nat): (i: nat)
    requires Listed(groups, b)
    ensures i < |groups| && Lists(groups[i], b)
    ensures forall k :: i < k < |groups| ==> !Lists(groups[k], b)
  {
    LastListing(groups, b, |groups|)
  }

  /** The rank that the groups give, 0 when none lists `b`. */
  function RankOf(groups: seq<seq<Value>>, b: nat): nat {
    if groups == [] then 0
    else
      var init, last := groups[..|groups|-1], groups[|groups|-1];
      if Lists(last, b) then SaturatingAdd(NonEmpty(init), 1) else RankOf(init, b)
  }

  function Weight(groups: seq<seq<Value>>, b: nat): nat {
    if b == 0 then 1
    else if b == 255 then MAX_WEIGHT
    else if Listed(groups, b) then RankOf(groups, b)
    else SaturatingAdd(SaturatingAdd(NonEmpty(groups), 1), b)
  }

  // ----- The builder -----

  lemma {:induction false} NonEmptyNext(groups: seq<seq<Value>>, n: nat)
    requires n < |groups|
    ensures NonEmpty(groups[..n+1]) == NonEmpty(groups[..n]) + if Empty(groups[n]) then 0 else 1
  {
    assert groups[..n+1][..n] == groups[..n];
  }

  lemma {:induction false} ListedNext(groups: seq<seq<Value>>, upTo: seq<seq<Value>>, before: seq<seq<Value>>, n: nat, b: nat)
    requires n < |groups| && upTo == groups[..n+1] && before == groups[..n]
    ensures Listed(upTo, b) <==> Listed(before, b) || Lists(groups[n], b)
  {
    if Listed(upTo, b) && !Lists(groups[n], b) {
      var i :| 0 <= i < |upTo| && Lists(upTo[i], b);
      assert before[i] == upTo[i];
    }
    if Listed(before, b) {
      var i :| 0 <= i < |before| && Lists(before[i], b);
      assert upTo[i] == before[i];
    }
    assert upTo[n] == groups[n];
  }

  lemma {:induction false} RankNext(groups: seq<seq<Value>>, n: nat, b: nat)
    requires n < |groups|
    ensures RankOf(groups[..n+1], b) == if Lists(groups[n], b) then SaturatingAdd(NonEmpty(groups[..n]), 1) else RankOf(groups[..n], b)
  {
    assert groups[..n+1][..n] == groups[..n];
  }

  lemma {:induction false} RanksNext(groups: seq<seq<Value>>, n: nat, b: nat)
    requires n < |groups|
    ensures RankOf(groups[..n+1], b) == if Lists(groups[n], b) then SaturatingAdd(NonEmpty(groups[..n]), 1) else RankOf(groups[..n], b)
    ensures Listed(groups[..n+1], b) <==> Listed(groups[..n], b) || Lists(groups[n], b)
    ensures NonEmpty(groups[..n+1]) == NonEmpty(groups[..n]) + if Empty(groups[n]) then 0 else 1
  {
    RankNext(groups, n, b);
    ListedNext(groups, groups[..n+1], groups[..n], n, b);
    NonEmptyNext(groups, n);
  }

  /** One value of a group: its bytes get the rank. */
  method AssignValue(weights: array<nat>, taken: array<bool>, bytes: seq<nat>, rank: nat)
    requires weights.Length == 256 == taken.Length && forall b :: b in bytes ==> b < 256
    modifies weights, taken
    ensures forall b :: 0 <= b < 256 ==> weights[b] == if b in bytes then rank else old(weights[b])
    ensures forall b :: 0 <= b < 256 ==> taken[b] == (old(taken[b]) || b in bytes)
  {
    for k := 0 to |bytes|
      invariant forall b :: 0 <= b < 256 ==> weights[b] == if b in bytes[..k] then rank else old(weights[b])
      invariant forall b :: 0 <= b < 256 ==> taken[b] == (old(taken[b]) || b in bytes[..k])
    {
      assert bytes[k] in bytes && bytes[..k+1] == bytes[..k] + [bytes[k]];
      weights[bytes[k]] := rank;
      taken[bytes[k]] := true;
    }
    assert bytes[..|bytes|] == bytes;
  }

  /** One group: all its bytes get the rank; the result says whether there were any. */
  method AssignGroup(weights: array<nat>, taken: array<bool>, group: seq<Value>, rank: nat) returns (assignedAny: bool)
    requires weights.Length == 256 == taken.Length
    modifies weights, taken
    ensures assignedAny == !Empty(group)
    ensures forall b: nat :: b < 256 ==> weights[b] == if Lists(group, b) then rank else old(weights[b])
    ensures forall b: nat :: b < 256 ==> taken[b] == (old(taken[b]) || Lists(group, b))
  {
    assignedAny := false;
    for v := 0 to |group|
      invariant assignedAny == !Empty(group[..v])
      invariant forall b: nat :: b < 256 ==> weights[b] == if Lists(group[..v], b) then rank else old(weights[b])
      invariant forall b: nat :: b < 256 ==> taken[b] == (old(taken[b]) || Lists(group[..v], b))
    {
      ValueBytesAreBytes(group[v]);
      var bytes := ValueBytes(group[v]);
      AssignValue(weights, taken, bytes, rank);
      if bytes != [] { assignedAny := true; }
      ListsAllNext(group, v, group[..v+1]);
      EmptyNext(group, v);
    }
    assert group[..|group|] == group;
  }

  lemma {:induction false} ListsAllNext(group: seq<Value>, n: nat, upTo: seq<Value>)
    requires n < |group| && upTo == group[..n+1]
    ensures forall b: nat :: Lists(upTo, b) <==> Lists(group[..n], b) || b in ValueBytes(group[n])
  {
    forall b: nat ensures Lists(upTo, b) <==> Lists(group[..n], b) || b in ValueBytes(group[n]) {
      ListsNext(group, n, b);
    }
  }

  lemma {:induction false} ListsNext(group: seq<Value>, n: nat, b: nat)
    requires n < |group|
    ensures Lists(group[..n+1], b) <==> Lists(group[..n], b) || b in ValueBytes(group[n])
  {
    assert group[..n+1] == group[..n] + [group[n]];
  }

  lemma {:induction false} EmptyNext(group: seq<Value>, n: nat)
    requires n < |group|
    ensures Empty(group[..n+1]) <==> Empty(group[..n]) && ValueBytes(group[n]) == []
  {
    assert group[..n+1] == group[..n] + [group[n]];
  }

  /** The arrays hold what the groups so far give. */
  ghost predicate Agree(groups: seq<seq<Value>>, weights: seq<nat>, taken: seq<bool>) {
    && |weights| == 256 == |taken|
    && forall b: nat :: b < 256 ==> weights[b] == RankOf(groups, b) && taken[b] == Listed(groups, b)
  }

  lemma {:induction false} AgreeNext(groups: seq<seq<Value>>, n: nat, before: seq<nat>, takenBefore: seq<bool>, weights: seq<nat>, taken: seq<bool>)
    requires n < |groups| && Agree(groups[..n], before, takenBefore) && |weights| == 256 == |taken|
    requires forall b: nat :: b < 256 ==> weights[b] == if Lists(groups[n], b) then SaturatingAdd(NonEmpty(groups[..n]), 1) else before[b]
    requires forall b: nat :: b < 256 ==> taken[b] == (takenBefore[b] || Lists(groups[n], b))
    ensures Agree(groups[..n+1], weights, taken)
  {
    forall b: nat | b < 256 ensures weights[b] == RankOf(groups[..n+1], b) && taken[b] == Listed(groups[..n+1], b) {
      RanksNext(groups, n, b);
    }
  }

  /** The loop over the groups. */
  method RankGroups(groups: seq<seq<Value>>, weights: array<nat>, taken: array<bool>) returns (nextRank: nat)
    requires weights != taken as object && weights.Length == 256 == taken.Length
    requires forall b :: 0 <= b < 256 ==> weights[b] == 0 && !taken[b]
    modifies weights, taken
    ensures Agree(groups, weights[..], taken[..]) && nextRank == SaturatingAdd(NonEmpty(groups), 1)
  {
    nextRank := 1;
    assert groups[..0] == [];
    for n := 0 to |groups|
      invariant Agree(groups[..n], weights[..], taken[..])
      invariant nextRank == SaturatingAdd(NonEmpty(groups[..n]), 1)
    {
      ghost var before, takenBefore := weights[..], taken[..];
      var assignedAny := AssignGroup(weights, taken, groups[n], nextRank);
      AgreeNext(groups, n, before, takenBefore, weights[..], taken[..]);
      RanksNext(groups, n, 0);
      if assignedAny { nextRank := SaturatingAdd(nextRank, 1); }
    }
    assert groups[..|groups|] == groups;
  }

  /** `build_collating_weights`. */
  method BuildCollatingWeights(groups: seq<seq<Value>>) returns (weights: array<nat>)
    ensures fresh(weights) && weights.Length == 256
    ensures forall b: nat :: b < 256 ==> weights[b] == Weight(groups, b)
  {
    weights := new nat[256](_ => 0);
    var taken := new bool[256](_ => false);
    var nextRank := RankGroups(groups, weights, taken);
    weights[0], taken[0] := 1, true;
    weights[255], taken[255] := MAX_WEIGHT, true;
    FillUntaken(weights, taken, nextRank);
  }

  /** The last loop: bytes not taken come after the groups, in native order. */
  method FillUntaken(weights: array<nat>, taken: array<bool>, nextRank: nat)
    requires weights.Length == 256 == taken.Length
    modifies weights
    ensures forall b: nat :: b < 256 ==> weights[b] == if taken[b] then old(weights[b]) else SaturatingAdd(nextRank, b)
  {
    for b := 0 to 256
      invariant forall c: nat :: c < 256 ==>
        weights[c] == if c < b && !taken[c] then SaturatingAdd(nextRank, c) else old(weights[c])
    {
      if !taken[b] { weights[b] := SaturatingAdd(nextRank, b); }
    }
  }

  // ----- The order the weights give -----

  lemma {:induction false} NonEmptyGrows(some: seq<seq<Value>>, more: seq<seq<Value>>)
    requires some <= more
    ensures NonEmpty(some) <= NonEmpty(more)
  {
    if some != more {
      NonEmptyGrows(some, more[..|more|-1]);
    }
  }

  /** A listed byte's rank is one more than the non-empty groups before the last that lists it. */
  lemma {:induction false} RankIsLastListing(groups: seq<seq<Value>>, b: nat)
    requires Listed(groups, b) && NonEmpty(groups) < MAX_WEIGHT
    ensures RankOf(groups, b) == NonEmpty(groups[..LastGroup(groups, b)]) + 1
    ensures !Empty(groups[LastGroup(groups, b)])
  {
    var i := LastGroup(groups, b);
    RankStays(groups, b, i, |groups|);
    assert groups[..|groups|] == groups;
    RankNext(groups, i, b);
    NonEmptyGrows(groups[..i], groups);
  }

  lemma {:induction false} RankStays(groups: seq<seq<Value>>, b: nat, i: nat, n: nat)
    requires i < n <= |groups| && forall k :: i < k < |groups| ==> !Lists(groups[k], b)
    ensures RankOf(groups[..n], b) == RankOf(groups[..i+1], b)
  {
    if i + 1 < n {
      RankStays(groups, b, i, n - 1);
      RankNext(groups, n - 1, b);
    }
  }

  /** Ranks of non-empty groups follow the groups. */
  lemma {:induction false} RanksFollowGroups(groups: seq<seq<Value>>, i: nat, j: nat)
    requires i < |groups| && j < |groups| && !Empty(groups[i]) && !Empty(groups[j])
    ensures NonEmpty(groups[..i]) < NonEmpty(groups[..j]) <==> i < j
  {
    NonEmptyNext(groups, i);
    NonEmptyNext(groups, j);
    if i < j { NonEmptyGrows(groups[..i+1], groups[..j]); }
    if j < i { NonEmptyGrows(groups[..j+1], groups[..i]); }
  }

  lemma {:induction false} RankWithinGroups(groups: seq<seq<Value>>, b: nat)
    requires NonEmpty(groups) < MAX_WEIGHT && Listed(groups, b)
    ensures 1 <= RankOf(groups, b) <= NonEmpty(groups)
  {
    var i := LastGroup(groups, b);
    RankIsLastListing(groups, b);
    NonEmptyFrom(groups, i);
  }

  lemma {:induction false} NonEmptyFrom(groups: seq<seq<Value>>, i: nat)
    requires i < |groups| && !Empty(groups[i])
    ensures NonEmpty(groups[..i]) + 1 <= NonEmpty(groups)
  {
    NonEmptyNext(groups, i);
    NonEmptyGrows(groups[..i+1], groups);
  }

  /** Listed bytes compare by the last group that lists them. */
  lemma {:induction false} ListedInGroupOrder(groups: seq<seq<Value>>, x: nat, y: nat)
    requires NonEmpty(groups) < MAX_WEIGHT && Listed(groups, x) && Listed(groups, y)
    ensures RankOf(groups, x) < RankOf(groups, y) <==> LastGroup(groups, x) < LastGroup(groups, y)
  {
    RankIsLastListing(groups, x);
    RankIsLastListing(groups, y);
    RanksFollowGroups(groups, LastGroup(groups, x), LastGroup(groups, y));
  }

  /**
    With fewer than 65280 non-empty groups: listed bytes compare by group and come before unlisted
    ones, which keep their native order; byte 255 is above and byte 0 not above all others.
  */
  lemma {:induction false} WeightsOrderTheAlphabet(groups: seq<seq<Value>>, x: nat, y: nat)
    requires NonEmpty(groups) < 65280 && x < 256 && y < 256 && x != y
    ensures 0 < x < 255 && 0 < y < 255 && Listed(groups, x) && Listed(groups, y) ==>
      (Weight(groups, x) < Weight(groups, y) <==> LastGroup(groups, x) < LastGroup(groups, y))
    ensures 0 < x < 255 && 0 < y < 255 && Listed(groups, x) && !Listed(groups, y) ==> Weight(groups, x) < Weight(groups, y)
    ensures 0 < x < 255 && 0 < y < 255 && !Listed(groups, x) && !Listed(groups, y) ==>
      (Weight(groups, x) < Weight(groups, y) <==> x < y)
    ensures y == 255 ==> Weight(groups, x) < Weight(groups, y)
    ensures x == 0 ==> Weight(groups, x) <= Weight(groups, y)
  {
    if Listed(groups, x) { RankWithinGroups(groups, x); }
    if Listed(groups, y) { RankWithinGroups(groups, y); }
    if Listed(groups, x) && Listed(groups, y) { ListedInGroupOrder(groups, x, y); }
  }

  /** The bound is exact: with byte 254 unlisted, it stays below 255 only with fewer non-empty groups. */
  lemma {:induction false} MaximumIsStrictIff(groups: seq<seq<Value>>)
    requires !Listed(groups, 254)
    ensures Weight(groups, 254) < Weight(groups, 255) <==> NonEmpty(groups) < 65280
  {
  }

  // ----- What a value lists -----

  const FIGURATIVES: set<string> :=
    {"LOW-VALUE", "LOW-VALUES", "HIGH-VALUE", "HIGH-VALUES", "SPACE", "SPACES", "QUOTE", "QUOTES", "ZERO", "ZEROS", "ZEROES"}

  /** A literal lists its characters, in order. */
  lemma {:induction false} LiteralLists(value: Value)
    requires Upper(value) !in FIGURATIVES
    ensures |ValueBytes(value)| == |value| && forall i :: 0 <= i < |value| ==> ValueBytes(value)[i] == value[i] as int
  {
  }

  /** A single character is no figurative constant: it lists itself. */
  lemma {:induction false} CharacterLists(c: ByteChar)
    ensures ValueBytes([c]) == [c as int]
  {
    var name := Upper([c]);
    assert |name| == 1;
  }

  /** A figurative constant, in any case, lists what the character it stands for lists. */
  lemma {:induction false} FigurativeLists(value: Value)
    ensures Upper(value) == "SPACE" || Upper(value) == "SPACES" ==> ValueBytes(value) == ValueBytes([' '])
    ensures Upper(value) == "QUOTE" || Upper(value) == "QUOTES" ==> ValueBytes(value) == ValueBytes(['"'])
    ensures Upper(value) == "ZERO" || Upper(value) == "ZEROS" || Upper(value) == "ZEROES" ==> ValueBytes(value) == ValueBytes(['0'])
    ensures Upper(value) == "LOW-VALUE" || Upper(value) == "LOW-VALUES" ==> ValueBytes(value) == ValueBytes([0 as char])
    ensures Upper(value) == "HIGH-VALUE" || Upper(value) == "HIGH-VALUES" ==> ValueBytes(value) == ValueBytes([255 as char])
  {
    CharacterLists(' ');
    CharacterLists('"');
    CharacterLists('0');
    CharacterLists(0 as char);
    CharacterLists(255 as char);
  }

  /** An alphabet that lists its characters one by one. */
  function OneByOne(order: Value): (groups: seq<seq<Value>>)
    ensures |groups| == |order| && forall i :: 0 <= i < |order| ==> groups[i] == [[order[i]]]
  {
    seq(|order|, i requires 0 <= i < |order| => [[order[i]]])
  }

  lemma {:induction false} GroupOfOne(c: ByteChar, b: nat)
    ensures Lists([[c]], b) <==> b == c as int
  {
    CharacterLists(c);
    if b == c as int { assert [c] in [[c]] && b in ValueBytes([c]); }
  }

  lemma {:induction false} AtMostAll(groups: seq<seq<Value>>)
    ensures NonEmpty(groups) <= |groups|
  {
    if groups != [] { AtMostAll(groups[..|groups|-1]); }
  }

  lemma {:induction false} PlaceOf(order: Value, i: nat)
    requires i < |order| && forall k, l :: 0 <= k < l < |order| ==> order[k] != order[l]
    ensures Listed(OneByOne(order), order[i] as int) && LastGroup(OneByOne(order), order[i] as int) == i
  {
    var groups, b := OneByOne(order), order[i] as int;
    forall k | 0 <= k < |groups| ensures Lists(groups[k], b) <==> k == i {
      GroupOfOne(order[k], b);
    }
  }

  /** Under an alphabet that lists different characters one by one they compare in that order, before all others. */
  lemma {:induction false} ListedOrder(order: Value, i: nat, j: nat, y: nat)
    requires i < |order| && j < |order| && |order| < 65280
    requires forall k, l :: 0 <= k < l < |order| ==> order[k] != order[l]
    requires 0 < order[i] as int < 255 && 0 < order[j] as int < 255
    requires 0 < y < 255 && forall k :: 0 <= k < |order| ==> order[k] as int != y
    ensures var groups := OneByOne(order);
      && (Weight(groups, order[i] as int) < Weight(groups, order[j] as int) <==> i < j)
      && Weight(groups, order[i] as int) < Weight(groups, y)
  {
    var groups := OneByOne(order);
    AtMostAll(groups);
    PlaceOf(order, i);
    PlaceOf(order, j);
    if i != j {
      assert order[i] as int != order[j] as int;
      WeightsOrderTheAlphabet(groups, order[i] as int, order[j] as int);
    }
    forall k | 0 <= k < |groups| ensures !Lists(groups[k], y) {
      GroupOfOne(order[k], y);
    }
    WeightsOrderTheAlphabet(groups, order[i] as int, y);
  }

  /** Byte 0 weighs as much as the bytes of the first group that lists any: they share the lowest place. */
  lemma {:induction false} LowestIsShared(groups: seq<seq<Value>>, x: nat)
    requires 0 < x < 255 && NonEmpty(groups) < MAX_WEIGHT && Listed(groups, x)
    ensures Weight(groups, x) == Weight(groups, 0) <==> forall k :: 0 <= k < LastGroup(groups, x) ==> Empty(groups[k])
  {
    RankIsLastListing(groups, x);
    NoneNonEmpty(groups[..LastGroup(groups, x)]);
  }

  lemma {:induction false} NoneNonEmpty(groups: seq<seq<Value>>)
    ensures NonEmpty(groups) == 0 <==> forall k :: 0 <= k < |groups| ==> Empty(groups[k])
  {
    if groups != [] {
      var init := groups[..|groups|-1];
      NoneNonEmpty(init);
      assert forall k :: 0 <= k < |init| ==> init[k] == groups[k];
    }
  }

  /** Every weight fits sixteen bits, and none is zero: with too many groups they stop at the largest. */
  lemma {:induction false} WeightsFit(groups: seq<seq<Value>>, b: nat)
    ensures 0 < Weight(groups, b) <= 0xffff
    ensures NonEmpty(groups) >= 0xffff && !Listed(groups, b) && b != 0 ==> Weight(groups, b) == 0xffff
  {
    if Listed(groups, b) { RankFits(groups, b); }
  }

  lemma {:induction false} RankFits(groups: seq<seq<Value>>, b: nat)
    requires Listed(groups, b)
    ensures 0 < RankOf(groups, b) <= 0xffff
  {
    var init, last := groups[..|groups|-1], groups[|groups|-1];
    if !Lists(last, b) {
      var i :| 0 <= i < |groups| && Lists(groups[i], b);
      assert init[i] == groups[i];
      RankFits(init, b);
    }
  }
}
