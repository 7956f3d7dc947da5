/**
  Storage offsets: the list `collect_storage_offsets` builds, how it tiles a record, and the size
  of a RENAMES ... THRU range.
*/
module StorageLayout {
  import opened Options
  import opened DataItems

  datatype Entry = Entry(name: string, offset: nat, size: nat)

  /** The entries of a list of items laid out from `base`, each followed by those of its members. */
  function Offsets(items: seq<Item>, base: nat): seq<Entry>
    decreases items
  {
    if items == [] then []
    else
      var item, rest := items[0], items[1..];
      if item.clause.Renames? then Offsets(rest, base)
      else
        var size := StorageSize(item) * Count(item);
        [Entry(item.name, base, size)] +
        (match item.body case Group(members, _) => Offsets(members, base) case Elementary(_, _) => []) +
        Offsets(rest, if item.clause.Redefines? then base else base + size)
  }

  method CollectStorageOffsets(items: seq<Item>, base: nat, before: seq<Entry>) returns (out: seq<Entry>)
    ensures out == before + Offsets(items, base)
    decreases items
  {
    out := before;
    var offset: nat := base;
    assert items[0..] == items;
    for k := 0 to |items|
      invariant out + Offsets(items[k..], offset) == before + Offsets(items, base)
    {
      var item := items[k];
      assert items[k..] == [item] + items[k+1..];
      if item.clause.Renames? {
        continue;
      }
      var size := StorageSize(item) * Count(item);
      AppendItem(out, item, items[k+1..], offset);
      out := out + [Entry(item.name, offset, size)];
      match item.body {
        case Group(members, _) => out := CollectStorageOffsets(members, offset, out);
        case Elementary(_, _) =>
      }
      if !item.clause.Redefines? {
        offset := offset + size;
      }
    }
  }

  /** The entries of an item's members, laid out where the item is. */
  function MemberOffsets(item: Item, base: nat): seq<Entry> {
    match item.body case Group(members, _) => Offsets(members, base) case Elementary(_, _) => []
  }

  lemma {:induction false} AppendItem(out: seq<Entry>, item: Item, rest: seq<Item>, offset: nat)
    requires !item.clause.Renames?
    ensures var size := StorageSize(item) * Count(item);
      out + Offsets([item] + rest, offset) ==
        out + [Entry(item.name, offset, size)] + MemberOffsets(item, offset) +
        Offsets(rest, if item.clause.Redefines? then offset else offset + size)
  {
    assert ([item] + rest)[1..] == rest;
  }

  // ----- Leaves -----

  /** A run of bytes. */
  datatype Span = Span(offset: nat, size: nat)

  /** The storage of every occurrence of every elementary item, in storage order. */
  function Leaves(items: seq<Item>, base: nat): seq<Span>
    decreases items, 1, 0
  {
    if items == [] then []
    else
      var item, rest := items[0], items[1..];
      if !item.clause.Plain? then Leaves(rest, base)
      else
        ItemLeaves(item, base, Count(item)) + Leaves(rest, base + StorageSize(item) * Count(item))
  }

  /** The leaves of `n` occurrences of an item. */
  function ItemLeaves(item: Item, base: nat, n: nat): seq<Span>
    decreases item, 0, n
  {
    if n == 0 then []
    else
      (match item.body
       case Elementary(_, _) => [Span(base, StorageSize(item))]
       case Group(members, _) => Leaves(members, base)) +
      ItemLeaves(item, base + StorageSize(item), n - 1)
  }

  /** The spans lie one after the other from `lo` to `hi`, with neither gap nor overlap. */
  predicate Tiles(spans: seq<Span>, lo: nat, hi: nat) {
    if spans == [] then lo == hi
    else spans[0].offset == lo && Tiles(spans[1..], lo + spans[0].size, hi)
  }

  lemma {:induction false} TilesJoin(a: seq<Span>, b: seq<Span>, lo: nat, mid: nat, hi: nat)
    requires Tiles(a, lo, mid) && Tiles(b, mid, hi)
    ensures Tiles(a + b, lo, hi)
  {
    if a == [] {
      assert a + b == b;
    } else {
      assert (a + b)[1..] == a[1..] + b;
      TilesJoin(a[1..], b, lo + a[0].size, mid, hi);
    }
  }

  /** A record's leaves tile it. */
  lemma {:induction false} LeavesTile(items: seq<Item>, base: nat)
    requires Sized(items)
    ensures Tiles(Leaves(items, base), base, base + Total(items))
    decreases items, 1, 0
  {
    if items != [] {
      var item, rest := items[0], items[1..];
      if item.clause.Plain? {
        var size := StorageSize(item) * Count(item);
        ItemLeavesTile(item, base, Count(item));
        LeavesTile(rest, base + size);
        assert Total(items) == size + Total(rest);
        TilesJoin(ItemLeaves(item, base, Count(item)), Leaves(rest, base + size), base, base + size, base + Total(items));
      } else {
        LeavesTile(rest, base);
      }
    }
  }

  lemma {:induction false} ItemLeavesTile(item: Item, base: nat, n: nat)
    requires SizedItem(item)
    ensures Tiles(ItemLeaves(item, base, n), base, base + StorageSize(item) * n)
    decreases item, 0, n
  {
    if n > 0 {
      var unit := StorageSize(item);
      var first := match item.body case Elementary(_, _) => [Span(base, unit)] case Group(members, _) => Leaves(members, base);
      match item.body {
        case Elementary(_, _) => OneSpanTiles(base, unit);
        case Group(members, _) => LeavesTile(members, base);
      }
      ItemLeavesTile(item, base + unit, n - 1);
      assert unit * n == unit + unit * (n - 1);
      TilesJoin(first, ItemLeaves(item, base + unit, n - 1), base, base + unit, base + unit * n);
    }
  }

  lemma {:induction false} OneSpanTiles(base: nat, unit: nat)
    ensures Tiles([Span(base, unit)], base, base + unit)
  {
    assert [Span(base, unit)][1..] == [];
  }

  // ----- Entries stand at the cuts of the tiling -----

  /** The leaves before index `k` end at `x`. */
  ghost predicate CutAt(spans: seq<Span>, lo: nat, x: nat, k: nat) {
    k <= |spans| && Tiles(spans[..k], lo, x)
  }

  lemma {:induction false} CutInLaterPart(a: seq<Span>, b: seq<Span>, lo: nat, mid: nat, x: nat, k: nat)
    requires Tiles(a, lo, mid) && CutAt(b, mid, x, k)
    ensures CutAt(a + b, lo, x, |a| + k)
  {
    assert (a + b)[..|a| + k] == a + b[..k];
    TilesJoin(a, b[..k], lo, mid, x);
  }

  lemma {:induction false} CutInEarlierPart(a: seq<Span>, b: seq<Span>, lo: nat, x: nat, k: nat)
    requires CutAt(a, lo, x, k)
    ensures CutAt(a + b, lo, x, k)
  {
    assert (a + b)[..k] == a[..k];
  }

  /** The first occurrence of a group starts its leaves. */
  lemma {:induction false} CutInFirstOccurrence(item: Item, base: nat, x: nat, k: nat)
    requires item.body.Group? && Count(item) > 0
    requires CutAt(Leaves(item.body.members, base), base, x, k)
    ensures CutAt(ItemLeaves(item, base, Count(item)), base, x, k)
  {
    CutInEarlierPart(Leaves(item.body.members, base), ItemLeaves(item, base + StorageSize(item), Count(item) - 1), base, x, k);
  }

  /** Both ends of an entry stand at cuts of the given leaves. */
  ghost predicate AtCuts(leaves: seq<Span>, base: nat, e: Entry, i: nat, j: nat) {
    i <= j && CutAt(leaves, base, e.offset, i) && CutAt(leaves, base, e.offset + e.size, j)
  }

  /** Leaves of an item, and the leaves after it. */
  lemma {:induction false} InEarlierPart(mine: seq<Span>, others: seq<Span>, base: nat, e: Entry, i: nat, j: nat)
    requires AtCuts(mine, base, e, i, j)
    ensures AtCuts(mine + others, base, e, i, j)
  {
    CutInEarlierPart(mine, others, base, e.offset, i);
    CutInEarlierPart(mine, others, base, e.offset + e.size, j);
  }

  lemma {:induction false} InLaterPart(mine: seq<Span>, others: seq<Span>, base: nat, mid: nat, e: Entry, i: nat, j: nat)
    requires Tiles(mine, base, mid) && AtCuts(others, mid, e, i, j)
    ensures AtCuts(mine + others, base, e, |mine| + i, |mine| + j)
  {
    CutInLaterPart(mine, others, base, mid, e.offset, i);
    CutInLaterPart(mine, others, base, mid, e.offset + e.size, j);
  }

  /** Where an entry of a level comes from. */
  predicate FromFirst(items: seq<Item>, base: nat, e: Entry)
    requires items != []
  {
    !items[0].clause.Renames? &&
    (e == Entry(items[0].name, base, StorageSize(items[0]) * Count(items[0])) || e in MemberOffsets(items[0], base))
  }

  function RestBase(items: seq<Item>, base: nat): nat
    requires items != []
  {
    if items[0].clause.Plain? then base + StorageSize(items[0]) * Count(items[0]) else base
  }

  lemma {:induction false} EntryOrigin(items: seq<Item>, base: nat, e: Entry)
    requires e in Offsets(items, base)
    ensures items != []
    ensures FromFirst(items, base, e) || e in Offsets(items[1..], RestBase(items, base))
  {
  }

  lemma {:induction false} RestOfLevel(items: seq<Item>)
    requires Sized(items) && NoRedefines(items) && items != []
    ensures SizedItem(items[0]) && NoRedefinesIn(items[0]) && !items[0].clause.Redefines?
    ensures Sized(items[1..]) && NoRedefines(items[1..])
  {
    assert items[0] in items;
  }

  /** An entry of the items after the first. */
  lemma {:induction false} LaterEntry(items: seq<Item>, base: nat, e: Entry, i: nat, j: nat) returns (i': nat, j': nat)
    requires items != [] && SizedItem(items[0])
    requires AtCuts(Leaves(items[1..], RestBase(items, base)), RestBase(items, base), e, i, j)
    ensures AtCuts(Leaves(items, base), base, e, i', j')
  {
    if items[0].clause.Plain? {
      var mine := ItemLeaves(items[0], base, Count(items[0]));
      ItemLeavesTile(items[0], base, Count(items[0]));
      InLaterPart(mine, Leaves(items[1..], RestBase(items, base)), base, RestBase(items, base), e, i, j);
      i', j' := |mine| + i, |mine| + j;
    } else {
      i', j' := i, j;
    }
  }

  /** An entry of the first item. */
  lemma {:induction false} FirstEntry(items: seq<Item>, base: nat, e: Entry, i: nat, j: nat)
    requires items != [] && items[0].clause.Plain?
    requires AtCuts(ItemLeaves(items[0], base, Count(items[0])), base, e, i, j)
    ensures AtCuts(Leaves(items, base), base, e, i, j)
  {
    InEarlierPart(ItemLeaves(items[0], base, Count(items[0])), Leaves(items[1..], base + StorageSize(items[0]) * Count(items[0])), base, e, i, j);
  }

  /** An entry starts and ends where leaves do. */
  lemma {:induction false} EntriesAtCuts(items: seq<Item>, base: nat, e: Entry) returns (i: nat, j: nat)
    requires Sized(items) && NoRedefines(items) && e in Offsets(items, base)
    ensures AtCuts(Leaves(items, base), base, e, i, j)
    decreases items, 1
  {
    EntryOrigin(items, base, e);
    RestOfLevel(items);
    if FromFirst(items, base, e) {
      i, j := ItemEntriesAtCuts(items[0], base, e);
      FirstEntry(items, base, e, i, j);
    } else {
      i, j := EntriesAtCuts(items[1..], RestBase(items, base), e);
      i, j := LaterEntry(items, base, e, i, j);
    }
  }

  /** The same for one item's own entry and those of its members. */
  lemma {:induction false} ItemEntriesAtCuts(item: Item, base: nat, e: Entry) returns (i: nat, j: nat)
    requires SizedItem(item) && NoRedefinesIn(item)
    requires e == Entry(item.name, base, StorageSize(item) * Count(item)) || e in MemberOffsets(item, base)
    ensures AtCuts(ItemLeaves(item, base, Count(item)), base, e, i, j)
    decreases item, 0
  {
    if e in MemberOffsets(item, base) {
      i, j := EntriesAtCuts(item.body.members, base, e);
      CutInFirstOccurrence(item, base, e.offset, i);
      CutInFirstOccurrence(item, base, e.offset + e.size, j);
    } else {
      var mine := ItemLeaves(item, base, Count(item));
      ItemLeavesTile(item, base, Count(item));
      assert mine[..0] == [] && mine[..|mine|] == mine;
      i, j := 0, |mine|;
    }
  }

  // ----- Siblings and members -----

  lemma {:induction false} TotalOfRest(items: seq<Item>, k: nat)
    requires 0 < k <= |items|
    ensures Total(items[..k]) ==
      (if items[0].clause.Plain? then StorageSize(items[0]) * Count(items[0]) else 0) + Total(items[1..][..k-1])
  {
    assert items[..k][0] == items[0] && items[..k][1..] == items[1..][..k-1];
  }

  /** Item `k` of a level, unless it renames others, starts where the items before it end that redefine nothing. */
  lemma {:induction false} EntryOfItem(items: seq<Item>, base: nat, k: nat)
    requires k < |items| && !items[k].clause.Renames?
    ensures Entry(items[k].name, base + Total(items[..k]), StorageSize(items[k]) * Count(items[k])) in Offsets(items, base)
    decreases k
  {
    if k > 0 {
      var next := if items[0].clause.Plain? then base + StorageSize(items[0]) * Count(items[0]) else base;
      TotalOfRest(items, k);
      assert items[1..][k-1] == items[k];
      EntryOfItem(items[1..], next, k - 1);
      RestIsListed(items, base, next, Entry(items[k].name, base + Total(items[..k]), StorageSize(items[k]) * Count(items[k])));
    }
  }

  /** What is listed for the rest of a level is listed for the level. */
  lemma {:induction false} RestIsListed(items: seq<Item>, base: nat, next: nat, e: Entry)
    requires items != [] && next == (if items[0].clause.Plain? then base + StorageSize(items[0]) * Count(items[0]) else base)
    requires e in Offsets(items[1..], next)
    ensures e in Offsets(items, base)
  {
  }

  /**
    An item that redefines the one just before it is placed where that one starts if and only if
    that one takes no storage: otherwise it is placed behind it.
  */
  lemma {:induction false} RedefinitionIsPlacedBehind(items: seq<Item>, base: nat, k: nat)
    requires 0 < k < |items| && items[k].clause.Redefines? && items[k-1].clause.Plain?
    ensures var before, at := base + Total(items[..k-1]), base + Total(items[..k]);
      && Entry(items[k-1].name, before, StorageSize(items[k-1]) * Count(items[k-1])) in Offsets(items, base)
      && Entry(items[k].name, at, StorageSize(items[k]) * Count(items[k])) in Offsets(items, base)
      && at == before + StorageSize(items[k-1]) * Count(items[k-1])
      && (at == before <==> StorageSize(items[k-1]) * Count(items[k-1]) == 0)
  {
    EntryOfItem(items, base, k - 1);
    EntryOfItem(items, base, k);
    TotalSnoc(items, k - 1);
  }

  /** Items of one level do not overlap: each ends before the next one starts. */
  lemma {:induction false} SiblingsAreDisjoint(items: seq<Item>, j: nat, k: nat)
    requires j < k < |items| && items[j].clause.Plain?
    ensures Total(items[..j]) + StorageSize(items[j]) * Count(items[j]) <= Total(items[..k])
    ensures k == j + 1 ==> Total(items[..j]) + StorageSize(items[j]) * Count(items[j]) == Total(items[..k])
    decreases k
  {
    var init := items[..k];
    TotalSnoc(items, k - 1);
    if j < k - 1 { SiblingsAreDisjoint(items, j, k - 1); }
  }

  lemma {:induction false} TotalSnoc(items: seq<Item>, n: nat)
    requires n < |items|
    ensures Total(items[..n+1]) == Total(items[..n]) +
      if items[n].clause.Plain? then StorageSize(items[n]) * Count(items[n]) else 0
    decreases n
  {
    if n > 0 {
      assert items[..n+1][1..] == items[1..][..n] && items[..n][1..] == items[1..][..n-1];
      TotalSnoc(items[1..], n - 1);
    }
  }

  // ----- RENAMES ... THRU -----

  /** The first entry of a name. */
  function Find(entries: seq<Entry>, name: string): (e: Option<Entry>)
    ensures e.Some? ==> e.value in entries && e.value.name == name
  {
    if entries == [] then None
    else if entries[0].name == name then Some(entries[0])
    else Find(entries[1..], name)
  }

  /** `renames_range_storage_size`. */
  function RenamesSize(items: seq<Item>, from: string, thru: string): Option<int> {
    var entries := Offsets(items, 0);
    RangeSize(Find(entries, from), Find(entries, thru))
  }

  function RangeSize(from: Option<Entry>, thru: Option<Entry>): Option<int> {
    match (from, thru)
    case (Some(f), Some(t)) => if t.offset >= f.offset then Some(t.offset + t.size - f.offset) else None
    case _ => None
  }

  function Bytes(spans: seq<Span>): nat {
    if spans == [] then 0 else spans[0].size + Bytes(spans[1..])
  }

  lemma {:induction false} TilesLength(spans: seq<Span>, lo: nat, hi: nat)
    requires Tiles(spans, lo, hi)
    ensures lo + Bytes(spans) == hi
  {
    if spans != [] { TilesLength(spans[1..], lo + spans[0].size, hi); }
  }

  /** Between two cuts the leaves tile what lies between. */
  lemma {:induction false} BetweenCuts(spans: seq<Span>, lo: nat, x: nat, i: nat, y: nat, j: nat)
    requires CutAt(spans, lo, x, i) && CutAt(spans, lo, y, j) && i <= j
    ensures x <= y && Tiles(spans[i..j], x, y)
    decreases i
  {
    if i == 0 {
      assert spans[0..j] == spans[..j];
      TilesLength(spans[..j], lo, y);
    } else {
      var rest, next := spans[1..], lo + spans[0].size;
      assert spans[..i][1..] == rest[..i-1] && spans[..j][1..] == rest[..j-1];
      BetweenCuts(rest, next, x, i - 1, y, j - 1);
      assert spans[i..j] == rest[i-1..j-1];
    }
  }

  /** The entries of a level and of everything below it lie inside the level's storage. */
  lemma {:induction false} EntriesInside(items: seq<Item>, base: nat, e: Entry)
    requires Sized(items) && NoRedefines(items) && e in Offsets(items, base)
    ensures base <= e.offset && e.offset + e.size <= base + Total(items)
  {
    var leaves := Leaves(items, base);
    LeavesTile(items, base);
    assert leaves[..0] == [] && leaves[..|leaves|] == leaves;
    var i, j := EntriesAtCuts(items, base, e);
    BetweenCuts(leaves, base, base, 0, e.offset, i);
    BetweenCuts(leaves, base, e.offset + e.size, j, base + Total(items), |leaves|);
  }

  /** The size computed for RENAMES from THRU is the storage of the leaves from the first byte of the one to the last of the other. */
  lemma {:induction false} RenamesSizeIsStorageOfRange(items: seq<Item>, from: string, thru: string) returns (i: nat, j: nat)
    requires Sized(items) && NoRedefines(items) && RenamesSize(items, from, thru).Some?
    ensures i <= j <= |Leaves(items, 0)|
    ensures var f, t := Find(Offsets(items, 0), from), Find(Offsets(items, 0), thru);
      f.Some? && t.Some? && Tiles(Leaves(items, 0)[i..j], f.value.offset, t.value.offset + t.value.size)
    ensures RenamesSize(items, from, thru) == Some(Bytes(Leaves(items, 0)[i..j]))
  {
    var entries, leaves := Offsets(items, 0), Leaves(items, 0);
    var f, t := Find(entries, from).value, Find(entries, thru).value;
    var fi, fj := EntriesAtCuts(items, 0, f);
    var ti, tj := EntriesAtCuts(items, 0, t);
    var end := t.offset + t.size;
    if fi <= tj {
      i, j := fi, tj;
    } else {
      BetweenCuts(leaves, 0, end, tj, f.offset, fi);
      i, j := tj, tj;
    }
    BetweenCuts(leaves, 0, f.offset, i, end, j);
    TilesLength(leaves[i..j], f.offset, end);
  }

  // ----- When a RENAMES range has a size -----

  /** Entry `i` is the first with the name. */
  predicate FirstNamed(entries: seq<Entry>, name: string, i: nat) {
    i < |entries| && entries[i].name == name && forall k :: 0 <= k < i ==> entries[k].name != name
  }

  predicate Unnamed(entries: seq<Entry>, name: string) {
    forall k :: 0 <= k < |entries| ==> entries[k].name != name
  }

  lemma {:induction false} FindIsFirst(entries: seq<Entry>, name: string, i: nat)
    requires FirstNamed(entries, name, i)
    ensures Find(entries, name) == Some(entries[i])
  {
    if i > 0 {
      assert FirstNamed(entries[1..], name, i - 1);
      FindIsFirst(entries[1..], name, i - 1);
    }
  }

  lemma {:induction false} FindsNothing(entries: seq<Entry>, name: string)
    requires Unnamed(entries, name)
    ensures Find(entries, name) == None
  {
    if entries != [] { FindsNothing(entries[1..], name); }
  }

  lemma {:induction false} FirstOrUnnamed(entries: seq<Entry>, name: string) returns (i: nat)
    ensures Unnamed(entries, name) || FirstNamed(entries, name, i)
  {
    i := 0;
    while i < |entries| && entries[i].name != name
      invariant i <= |entries| && forall k :: 0 <= k < i ==> entries[k].name != name
    {
      i := i + 1;
    }
  }

  /** The size of a range reaches from the first item with the one name to the end of the first with the other, if that does not start before it. */
  lemma {:induction false} RenamesSizeOf(items: seq<Item>, entries: seq<Entry>, from: string, thru: string, i: nat, j: nat)
    requires entries == Offsets(items, 0) && FirstNamed(entries, from, i) && FirstNamed(entries, thru, j)
    ensures RenamesSize(items, from, thru) ==
      if entries[i].offset <= entries[j].offset then Some(entries[j].offset + entries[j].size - entries[i].offset) else None
  {
    RangeSizeOf(entries, from, thru, i, j);
  }

  lemma {:induction false} RangeSizeOf(entries: seq<Entry>, from: string, thru: string, i: nat, j: nat)
    requires FirstNamed(entries, from, i) && FirstNamed(entries, thru, j)
    ensures RangeSize(Find(entries, from), Find(entries, thru)) ==
      if entries[i].offset <= entries[j].offset then Some(entries[j].offset + entries[j].size - entries[i].offset) else None
  {
    FindIsFirst(entries, from, i);
    FindIsFirst(entries, thru, j);
  }

  /** A range has no size when either name is missing. */
  lemma {:induction false} RenamesNeedsNames(items: seq<Item>, from: string, thru: string)
    requires !HasName(items, from) || !HasName(items, thru)
    ensures RenamesSize(items, from, thru) == None
  {
    NamedIff(items, 0, from);
    NamedIff(items, 0, thru);
    if !HasName(items, from) { FindsNothing(Offsets(items, 0), from); }
    if !HasName(items, thru) { FindsNothing(Offsets(items, 0), thru); }
  }

  /** A range has a size exactly when both names stand in the record and the second does not start before the first. */
  lemma {:induction false} RenamesSizeIff(items: seq<Item>, from: string, thru: string) returns (i: nat, j: nat)
    ensures RenamesSize(items, from, thru).Some? <==>
      && HasName(items, from) && HasName(items, thru)
      && FirstNamed(Offsets(items, 0), from, i) && FirstNamed(Offsets(items, 0), thru, j)
      && Offsets(items, 0)[i].offset <= Offsets(items, 0)[j].offset
  {
    var entries := Offsets(items, 0);
    i := FirstOrUnnamed(entries, from);
    j := FirstOrUnnamed(entries, thru);
    NamedIff(items, 0, from);
    NamedIff(items, 0, thru);
    if !HasName(items, from) || !HasName(items, thru) {
      RenamesNeedsNames(items, from, thru);
    } else {
      RenamesSizeOf(items, entries, from, thru, i, j);
    }
  }

  /** An item that does not rename others, at any depth, has the name. */
  predicate HasName(items: seq<Item>, name: string)
    decreases items
  {
    items != [] &&
    (HasName(items[1..], name) ||
     (!items[0].clause.Renames? && (items[0].name == name || (items[0].body.Group? && HasName(items[0].body.members, name)))))
  }

  /** Where the names of a level stand: at its first item, at the members of that, or further on. */
  lemma {:induction false} UnnamedLevel(items: seq<Item>, base: nat, next: nat, name: string)
    requires items != [] && !items[0].clause.Renames?
    requires next == if items[0].clause.Redefines? then base else base + StorageSize(items[0]) * Count(items[0])
    ensures Unnamed(Offsets(items, base), name) <==>
      items[0].name != name && Unnamed(MemberOffsets(items[0], base), name) && Unnamed(Offsets(items[1..], next), name)
  {
    var mine := Entry(items[0].name, base, StorageSize(items[0]) * Count(items[0]));
    assert Offsets(items, base) == [mine] + MemberOffsets(items[0], base) + Offsets(items[1..], next);
    UnnamedParts([mine], MemberOffsets(items[0], base), Offsets(items[1..], next), name);
    assert Unnamed([mine], name) <==> items[0].name != name by { assert [mine][0] == mine; }
  }

  /** A name stands in the list exactly when an item has it. */
  lemma {:induction false} NamedIff(items: seq<Item>, base: nat, name: string)
    ensures Unnamed(Offsets(items, base), name) <==> !HasName(items, name)
    decreases items
  {
    if items != [] && items[0].clause.Renames? {
      NamedIff(items[1..], base, name);
    } else if items != [] {
      var next := if items[0].clause.Redefines? then base else base + StorageSize(items[0]) * Count(items[0]);
      NamedIff(items[1..], next, name);
      if items[0].body.Group? { NamedIff(items[0].body.members, base, name); }
      UnnamedLevel(items, base, next, name);
    }
  }

  lemma {:induction false} UnnamedParts(a: seq<Entry>, b: seq<Entry>, c: seq<Entry>, name: string)
    ensures Unnamed(a + b + c, name) <==> Unnamed(a, name) && Unnamed(b, name) && Unnamed(c, name)
  {
    var all := a + b + c;
    assert forall k :: 0 <= k < |a| ==> all[k] == a[k];
    assert forall k :: 0 <= k < |b| ==> all[|a| + k] == b[k];
    assert forall k :: 0 <= k < |c| ==> all[|a| + |b| + k] == c[k];
  }

  /** The entries of an item's members stand among those of its level. */
  lemma {:induction false} MemberEntries(items: seq<Item>, base: nat, k: nat, e: Entry)
    requires k < |items| && !items[k].clause.Renames?
    requires e in MemberOffsets(items[k], base + Total(items[..k]))
    ensures e in Offsets(items, base)
    decreases k
  {
    if k > 0 {
      var next := if items[0].clause.Plain? then base + StorageSize(items[0]) * Count(items[0]) else base;
      TotalOfRest(items, k);
      assert items[1..][k-1] == items[k];
      MemberEntries(items[1..], next, k - 1, e);
      RestIsListed(items, base, next, e);
    }
  }
}
