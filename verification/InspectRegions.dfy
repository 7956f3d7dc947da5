/**
  What the BEFORE and AFTER markers of an INSPECT phrase cut out of the item, said of the whole list
  of markers: how each marker added at the end moves the region, and what one marker or one of each
  kind leaves.
*/
module InspectRegions {
  import opened InspectScan

  // ----- Lists of markers -----

  lemma {:induction false} OfKindSnoc(ms: seq<Marker>, m: Marker, isBefore: bool)
    ensures OfKind(ms + [m], isBefore) == OfKind(ms, isBefore) + if m.isBefore == isBefore then [m] else []
    decreases |ms|
  {
    if ms == [] {
      assert ms + [m] == [m];
    } else {
      assert (ms + [m])[1..] == ms[1..] + [m] && (ms + [m])[0] == ms[0];
      OfKindSnoc(ms[1..], m, isBefore);
      Associate(if ms[0].isBefore == isBefore then [ms[0]] else [], OfKind(ms[1..], isBefore), if m.isBefore == isBefore then [m] else []);
    }
  }

  lemma {:induction false} Associate(a: seq<Marker>, b: seq<Marker>, c: seq<Marker>)
    ensures a + (b + c) == (a + b) + c
  {
  }

  lemma {:induction false} OfKindIsOfKind(ms: seq<Marker>, isBefore: bool)
    ensures forall m :: m in OfKind(ms, isBefore) ==> m.isBefore == isBefore
    decreases |ms|
  {
    if ms != [] { OfKindIsOfKind(ms[1..], isBefore); }
  }

  lemma {:induction false} NarrowAppend(text: seq<Byte>, r: Region, xs: seq<Marker>, ys: seq<Marker>)
    requires r.start <= r.end <= |text|
    ensures NarrowAll(text, r, xs + ys) == NarrowAll(text, NarrowAll(text, r, xs), ys)
    decreases |xs|
  {
    if xs == [] {
      assert xs + ys == ys;
    } else {
      assert (xs + ys)[1..] == xs[1..] + ys;
      NarrowAppend(text, Narrow(text, r, xs[0]), xs[1..], ys);
    }
  }

  lemma {:induction false} NarrowOne(text: seq<Byte>, r: Region, m: Marker)
    requires r.start <= r.end <= |text|
    ensures NarrowAll(text, r, [m]) == Narrow(text, r, m)
  {
    assert [m][1..] == [];
  }

  // ----- AFTER markers move the start, BEFORE markers the end -----

  /** The region that the AFTER markers alone leave. */
  function AfterPart(text: seq<Byte>, ms: seq<Marker>): (r: Region)
    ensures r.start <= r.end <= |text|
  {
    NarrowAll(text, Region(0, |text|), OfKind(ms, false))
  }

  lemma {:induction false} AftersKeepEnd(text: seq<Byte>, r: Region, ms: seq<Marker>)
    requires r.start <= r.end <= |text| && forall m :: m in ms ==> !m.isBefore
    ensures NarrowAll(text, r, ms).end == r.end
    decreases |ms|
  {
    if ms != [] {
      assert ms[0] in ms;
      AftersKeepEnd(text, Narrow(text, r, ms[0]), ms[1..]);
    }
  }

  lemma {:induction false} BeforesKeepStart(text: seq<Byte>, r: Region, ms: seq<Marker>)
    requires r.start <= r.end <= |text| && forall m :: m in ms ==> m.isBefore
    ensures NarrowAll(text, r, ms).start == r.start
    decreases |ms|
  {
    if ms != [] {
      assert ms[0] in ms;
      BeforesKeepStart(text, Narrow(text, r, ms[0]), ms[1..]);
    }
  }

  lemma {:induction false} RegionInParts(text: seq<Byte>, ms: seq<Marker>)
    ensures RegionOf(text, ms) == NarrowAll(text, AfterPart(text, ms), OfKind(ms, true))
    ensures AfterPart(text, ms).end == |text| && AfterPart(text, ms).start == RegionOf(text, ms).start
  {
    NarrowAppend(text, Region(0, |text|), OfKind(ms, false), OfKind(ms, true));
    OfKindIsOfKind(ms, false);
    OfKindIsOfKind(ms, true);
    AftersKeepEnd(text, Region(0, |text|), OfKind(ms, false));
    BeforesKeepStart(text, AfterPart(text, ms), OfKind(ms, true));
  }

  /** One BEFORE marker seen from a later start finds the same place, as long as that start is not beyond it. */
  lemma {:induction false} BeforeFromLater(text: seq<Byte>, start: nat, later: nat, end: nat, m: Marker)
    requires start <= end <= |text| && m.isBefore && start <= later <= Narrow(text, Region(start, end), m).end
    ensures Narrow(text, Region(later, end), m).end == Narrow(text, Region(start, end), m).end
  {
    MarkerCuts(text, Region(start, end), m);
    MarkerCuts(text, Region(later, end), m);
    var cut := Narrow(text, Region(start, end), m).end;
    if m.value != [] && !Absent(text, m.value, start, end) {
      var f := FirstPlace(text, m.value, start, end);
      assert FirstOccurrence(text, m.value, later, end, f);
    }
  }

  lemma {:induction false} FirstPlace(text: seq<Byte>, m: seq<Byte>, i: nat, end: nat) returns (f: nat)
    requires end <= |text| && !Absent(text, m, i, end)
    ensures FirstOccurrence(text, m, i, end, f)
  {
    var j: nat :| i <= j && OccursAt(text, m, j, end);
    f := i;
    while !OccursAt(text, m, f, end)
      invariant i <= f <= j
      invariant forall l: nat :: i <= l < f ==> !OccursAt(text, m, l, end)
      decreases j - f
    {
      f := f + 1;
    }
  }

  lemma {:induction false} BeforesFromLater(text: seq<Byte>, start: nat, later: nat, end: nat, ms: seq<Marker>)
    requires start <= later <= end <= |text| && forall m :: m in ms ==> m.isBefore
    requires later <= NarrowAll(text, Region(start, end), ms).end
    ensures NarrowAll(text, Region(later, end), ms).end == NarrowAll(text, Region(start, end), ms).end
    decreases |ms|
  {
    if ms != [] {
      assert ms[0] in ms;
      var cut := Narrow(text, Region(start, end), ms[0]).end;
      MarkerKeepsStart(text, start, end, ms[0]);
      BeforeFromLater(text, start, later, end, ms[0]);
      MarkerKeepsStart(text, later, end, ms[0]);
      BeforesFromLater(text, start, later, cut, ms[1..]);
    }
  }

  lemma {:induction false} MarkerKeepsStart(text: seq<Byte>, start: nat, end: nat, m: Marker)
    requires start <= end <= |text| && m.isBefore
    ensures Narrow(text, Region(start, end), m).start == start
  {
  }

  // ----- One more marker -----

  /** Without markers the region is the whole item. */
  lemma {:induction false} NoMarkers(text: seq<Byte>)
    ensures RegionOf(text, []) == Region(0, |text|)
  {
  }

  /** A BEFORE marker written last moves the end to its first occurrence in the region, and never the start. */
  lemma {:induction false} OneMoreBefore(text: seq<Byte>, ms: seq<Marker>, m: seq<Byte>)
    ensures var r, cut := RegionOf(text, ms), RegionOf(text, ms + [Marker(true, m)]);
      && cut.start == r.start
      && (m == [] || Absent(text, m, r.start, r.end) ==> cut.end == r.end)
      && (forall f: nat :: m != [] && FirstOccurrence(text, m, r.start, r.end, f) ==> cut.end == f)
  {
    var marker := Marker(true, m);
    OfKindSnoc(ms, marker, false);
    OfKindSnoc(ms, marker, true);
    assert OfKind(ms, false) + [] == OfKind(ms, false);
    RegionInParts(text, ms);
    RegionInParts(text, ms + [marker]);
    NarrowAppend(text, AfterPart(text, ms), OfKind(ms, true), [marker]);
    NarrowOne(text, RegionOf(text, ms), marker);
    MarkerCuts(text, RegionOf(text, ms), marker);
  }

  /**
    An AFTER marker written last moves the start just past its first occurrence from the old start
    on, or to the end of the item. The end stays as it was if and only if the new start is not
    beyond it; otherwise the BEFORE markers are found further on.
  */
  lemma {:induction false} OneMoreAfter(text: seq<Byte>, ms: seq<Marker>, m: seq<Byte>)
    ensures var r, cut := RegionOf(text, ms), RegionOf(text, ms + [Marker(false, m)]);
      && (m == [] || Absent(text, m, r.start, |text|) ==> cut.start == |text|)
      && (forall f: nat :: m != [] && FirstOccurrence(text, m, r.start, |text|, f) ==> cut.start == f + |m|)
      && (cut.end == r.end <==> cut.start <= r.end)
      && (cut.end <= r.end <==> cut.start <= r.end)
  {
    var marker := Marker(false, m);
    OfKindSnoc(ms, marker, false);
    OfKindSnoc(ms, marker, true);
    assert OfKind(ms, true) + [] == OfKind(ms, true);
    RegionInParts(text, ms);
    RegionInParts(text, ms + [marker]);
    NarrowAppend(text, Region(0, |text|), OfKind(ms, false), [marker]);
    NarrowOne(text, AfterPart(text, ms), marker);
    MarkerCuts(text, AfterPart(text, ms), marker);
    OfKindIsOfKind(ms, true);
    var r, cut := RegionOf(text, ms), RegionOf(text, ms + [marker]);
    assert AfterPart(text, ms) == Region(r.start, |text|) && AfterPart(text, ms + [marker]) == Region(cut.start, |text|);
    if cut.start <= r.end {
      BeforesFromLater(text, r.start, cut.start, |text|, OfKind(ms, true));
    }
  }

  /** The region only ever shrinks when a marker is added, unless an AFTER marker passes the end. */
  lemma {:induction false} OneMoreMarkerShrinksIff(text: seq<Byte>, ms: seq<Marker>, m: Marker)
    ensures var r, cut := RegionOf(text, ms), RegionOf(text, ms + [m]);
      && r.start <= cut.start
      && (cut.end <= r.end <==> m.isBefore || cut.start <= r.end)
  {
    if m.isBefore {
      OneMoreBefore(text, ms, m.value);
      var r := RegionOf(text, ms);
      if m.value != [] && !Absent(text, m.value, r.start, r.end) {
        var f := FirstPlace(text, m.value, r.start, r.end);
      }
    } else {
      OneMoreAfter(text, ms, m.value);
      var r := RegionOf(text, ms);
      if m.value != [] && !Absent(text, m.value, r.start, |text|) {
        var f := FirstPlace(text, m.value, r.start, |text|);
      }
    }
    assert m == Marker(m.isBefore, m.value);
  }

  /** In "baxb" the marker BEFORE "b" leaves nothing, and AFTER "a" added to it lets the "x" in. */
  lemma {:induction false} AfterCanEnlarge(a: Byte, b: Byte, x: Byte)
    requires a != b && x != b && x != a
    ensures RegionOf([b, a, x, b], [Marker(true, [b])]) == Region(0, 0)
    ensures RegionOf([b, a, x, b], [Marker(true, [b]), Marker(false, [a])]) == Region(2, 3)
  {
    var text := [b, a, x, b];
    ByteOccurs(text, b);
    ByteOccurs(text, a);
    OneBefore(text, [b]);
    assert FirstOccurrence(text, [b], 0, 4, 0);
    OneOfEach(text, [a], [b]);
    assert FirstOccurrence(text, [a], 0, 4, 1);
    assert FirstOccurrence(text, [b], 2, 4, 3);
  }

  lemma {:induction false} ByteOccurs(text: seq<Byte>, b: Byte)
    ensures forall j: nat :: OccursAt(text, [b], j, |text|) <==> j < |text| && text[j] == b
  {
    forall j: nat ensures OccursAt(text, [b], j, |text|) <==> j < |text| && text[j] == b {
      if j < |text| { assert text[j..j+1] == [text[j]]; }
    }
  }

  /** The order of an AFTER and a BEFORE marker makes no difference. */
  lemma {:induction false} KindsCommute(text: seq<Byte>, ms: seq<Marker>, a: seq<Byte>, b: seq<Byte>)
    ensures RegionOf(text, ms + [Marker(false, a)] + [Marker(true, b)]) == RegionOf(text, ms + [Marker(true, b)] + [Marker(false, a)])
  {
    var after, before := Marker(false, a), Marker(true, b);
    forall isBefore: bool
      ensures OfKind(ms + [after] + [before], isBefore) == OfKind(ms + [before] + [after], isBefore)
    {
      OfKindSnoc(ms, after, isBefore);
      OfKindSnoc(ms, before, isBefore);
      OfKindSnoc(ms + [after], before, isBefore);
      OfKindSnoc(ms + [before], after, isBefore);
    }
  }

  // ----- One marker, and one of each kind -----

  /** A BEFORE marker alone: up to its first occurrence, or the whole item. */
  lemma {:induction false} OneBefore(text: seq<Byte>, m: seq<Byte>)
    ensures var r := RegionOf(text, [Marker(true, m)]);
      && (m == [] || Absent(text, m, 0, |text|) ==> r == Region(0, |text|))
      && (forall f: nat :: m != [] && FirstOccurrence(text, m, 0, |text|, f) ==> r == Region(0, f))
  {
    NoMarkers(text);
    OneMoreBefore(text, [], m);
    assert [] + [Marker(true, m)] == [Marker(true, m)];
  }

  /** An AFTER marker alone: from just past its first occurrence, or nothing. */
  lemma {:induction false} OneAfter(text: seq<Byte>, m: seq<Byte>)
    ensures var r := RegionOf(text, [Marker(false, m)]);
      && (m == [] || Absent(text, m, 0, |text|) ==> r == Region(|text|, |text|))
      && (forall f: nat :: m != [] && FirstOccurrence(text, m, 0, |text|, f) ==> r == Region(f + |m|, |text|))
  {
    NoMarkers(text);
    OneMoreAfter(text, [], m);
    assert [] + [Marker(false, m)] == [Marker(false, m)];
  }

  /**
    One AFTER and one BEFORE marker, in either order: from just past the first occurrence of the
    one, up to the first occurrence of the other from there on.
  */
  lemma {:induction false} OneOfEach(text: seq<Byte>, a: seq<Byte>, b: seq<Byte>)
    ensures var r := RegionOf(text, [Marker(false, a), Marker(true, b)]);
      && RegionOf(text, [Marker(true, b), Marker(false, a)]) == r
      && (a == [] || Absent(text, a, 0, |text|) ==> r.start == |text|)
      && (forall f: nat :: a != [] && FirstOccurrence(text, a, 0, |text|, f) ==> r.start == f + |a|)
      && (b == [] || Absent(text, b, r.start, |text|) ==> r.end == |text|)
      && (forall f: nat :: b != [] && FirstOccurrence(text, b, r.start, |text|, f) ==> r.end == f)
  {
    var after, before := Marker(false, a), Marker(true, b);
    OneAfter(text, a);
    OneMoreBefore(text, [after], b);
    KindsCommute(text, [], a, b);
    assert [] + [after] + [before] == [after] + [before] == [after, before];
    assert [] + [before] + [after] == [before, after];
    OneAfterEnd(text, a);
  }

  lemma {:induction false} OneAfterEnd(text: seq<Byte>, a: seq<Byte>)
    ensures RegionOf(text, [Marker(false, a)]).end == |text|
  {
    NoMarkers(text);
    OneMoreAfter(text, [], a);
    assert [] + [Marker(false, a)] == [Marker(false, a)];
  }
}
