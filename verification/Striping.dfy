/** One image file striped over lanes: how `segments` divides it, what the
    receiver's concurrent, partial writes leave in the file, and why the sorted
    segment hashes do not depend on the lanes. */
module Striping {
  import opened Bytes

  const CHUNK: nat := 1024 * 1024
  const SEGMENT: nat := 128 * CHUNK

  function Min(a: int, b: int): int { if a < b then a else b }

  /** (size + SEGMENT - 1) // SEGMENT */
  function SegmentCount(size: nat): nat {
    (size + SEGMENT - 1) / SEGMENT
  }

  function LanesFor(ports: nat, size: nat): nat {
    Min(ports, SegmentCount(size))
  }

  datatype Piece = Piece(offset: nat, length: nat)

  function PieceAt(size: nat, g: nat): Piece
    requires g * SEGMENT < size
  {
    Piece(g * SEGMENT, Min(SEGMENT, size - g * SEGMENT))
  }

  /** `segments(size, lane, lanes)`, from segment number g on. */
  function SegmentsFrom(size: nat, g: nat, lanes: nat): seq<Piece>
    requires lanes > 0
    decreases size - g
  {
    if g * SEGMENT >= size then [] else [PieceAt(size, g)] + SegmentsFrom(size, g + lanes, lanes)
  }

  function Segments(size: nat, lane: nat, lanes: nat): seq<Piece>
    requires lanes > 0
  {
    SegmentsFrom(size, lane, lanes)
  }

  // ----- Residues -----

  lemma AddModulus(x: nat, m: nat)
    requires m > 0
    ensures (x + m) % m == x % m
  {
    var q := x / m;
    assert x == q * m + x % m;
    assert x + m == (q + 1) * m + x % m;
    DivModUnique(x + m, q + 1, x % m, m);
  }

  lemma MultipleBounds(d: int, m: int)
    requires m > 0
    ensures d >= 1 ==> d * m >= m
    ensures d <= -1 ==> d * m <= -m
  {}

  lemma DivModUnique(x: nat, q: nat, r: nat, m: nat)
    requires m > 0 && r < m && x == q * m + r
    ensures x / m == q && x % m == r
  {
    var d := x / m - q;
    assert d * m == r - x % m by { assert x == (x / m) * m + x % m; }
    MultipleBounds(d, m);
  }

  /** Two numbers of the same residue less than a modulus apart are equal. */
  lemma SameResidue(x: nat, y: nat, m: nat)
    requires m > 0 && x <= y < x + m && x % m == y % m
    ensures x == y
  {
    var d := y / m - x / m;
    assert y - x == d * m by {
      assert x == (x / m) * m + x % m;
      assert y == (y / m) * m + y % m;
    }
    MultipleBounds(d, m);
  }

  // ----- The division into pieces -----

  lemma SegmentCountBounds(size: nat, g: nat)
    ensures g * SEGMENT < size <==> g < SegmentCount(size)
  {}

  /** A lane holds exactly the segments of its residue, from its first one up. */
  lemma {:induction false} PiecesOf(size: nat, g: nat, lanes: nat, p: Piece)
    requires lanes > 0
    ensures p in SegmentsFrom(size, g, lanes) <==>
      exists n: nat :: n >= g && n * SEGMENT < size && n % lanes == g % lanes && p == PieceAt(size, n)
    decreases size - g
  {
    if g * SEGMENT < size {
      PiecesOf(size, g + lanes, lanes, p);
      AddModulus(g, lanes);
      if n: nat :| n >= g && n * SEGMENT < size && n % lanes == g % lanes && p == PieceAt(size, n) {
        if n < g + lanes { SameResidue(g, n, lanes); }
      }
    } else {
      assert forall n: nat :: n >= g ==> n * SEGMENT >= size;
    }
  }

  predicate Holds(p: Piece, b: nat) {
    p.offset <= b < p.offset + p.length
  }

  /** Every byte of the file lies in a piece of one lane, and in no other piece of any lane. */
  lemma ByteHasOnePiece(size: nat, lanes: nat, b: nat)
    requires lanes > 0 && b < size
    ensures b / SEGMENT * SEGMENT < size
    ensures PieceAt(size, b / SEGMENT) in Segments(size, b / SEGMENT % lanes, lanes)
    ensures Holds(PieceAt(size, b / SEGMENT), b)
    ensures forall lane: nat, p :: lane < lanes && p in Segments(size, lane, lanes) && Holds(p, b) ==>
              lane == b / SEGMENT % lanes && p == PieceAt(size, b / SEGMENT)
  {
    var g := b / SEGMENT;
    OwnResidue(g, lanes);
    PiecesOf(size, g % lanes, lanes, PieceAt(size, g));
    forall lane: nat, p | lane < lanes && p in Segments(size, lane, lanes) && Holds(p, b)
      ensures lane == g % lanes && p == PieceAt(size, g)
    {
      OnlyPiece(size, lanes, b, lane, p);
    }
  }

  lemma OnlyPiece(size: nat, lanes: nat, b: nat, lane: nat, p: Piece)
    requires lane < lanes && b < size && p in Segments(size, lane, lanes) && Holds(p, b)
    ensures b / SEGMENT * SEGMENT < size
    ensures lane == b / SEGMENT % lanes && p == PieceAt(size, b / SEGMENT)
  {
    PiecesOf(size, lane, lanes, p);
    var n: nat :| n >= lane && n * SEGMENT < size && n % lanes == lane % lanes && p == PieceAt(size, n);
    assert n == b / SEGMENT;
    SmallResidue(lane, lanes);
  }

  lemma SmallResidue(x: nat, m: nat)
    requires x < m
    ensures x % m == x
  {
    DivModUnique(x, 0, x, m);
  }

  lemma OwnResidue(g: nat, lanes: nat)
    requires lanes > 0
    ensures (g % lanes) % lanes == g % lanes && g % lanes <= g
  {
    SmallResidue(g % lanes, lanes);
    assert g == (g / lanes) * lanes + g % lanes;
  }

  /** With the lane count that `send` and `receive` choose, no lane is idle. */
  lemma NoLaneIdle(ports: nat, size: nat, lane: nat)
    requires lane < LanesFor(ports, size)
    ensures Segments(size, lane, LanesFor(ports, size)) != []
  {
    SegmentCountBounds(size, lane);
  }

  // ----- Sorting the segment hashes -----

  datatype Item = Item(offset: nat, hash: seq<Byte>)

  ghost predicate Ascending(xs: seq<Item>) {
    forall i, j :: 0 <= i < j < |xs| ==> xs[i].offset < xs[j].offset
  }

  /** The items one lane reports for a file of the given contents. */
  function LaneItemsFrom(h: seq<Byte> -> seq<Byte>, content: seq<Byte>, g: nat, lanes: nat): seq<Item>
    requires lanes > 0
    decreases |content| - g
  {
    if g * SEGMENT >= |content| then []
    else [ItemAt(h, content, g)] + LaneItemsFrom(h, content, g + lanes, lanes)
  }

  function SegmentOf(content: seq<Byte>, g: nat): seq<Byte>
    requires g * SEGMENT < |content|
  {
    content[g * SEGMENT..g * SEGMENT + PieceAt(|content|, g).length]
  }

  function ItemAt(h: seq<Byte> -> seq<Byte>, content: seq<Byte>, g: nat): Item
    requires g * SEGMENT < |content|
  {
    Item(g * SEGMENT, h(SegmentOf(content, g)))
  }

  /** x is the item of segment n, and segment n belongs to the lane that starts at g. */
  predicate IsItem(h: seq<Byte> -> seq<Byte>, content: seq<Byte>, g: nat, lanes: nat, n: nat, x: Item)
    requires lanes > 0
  {
    n >= g && n * SEGMENT < |content| && n % lanes == g % lanes && x == ItemAt(h, content, n)
  }

  lemma {:induction false} ItemOf(h: seq<Byte> -> seq<Byte>, content: seq<Byte>, g: nat, lanes: nat, x: Item)
    returns (n: nat)
    requires lanes > 0 && x in LaneItemsFrom(h, content, g, lanes)
    ensures IsItem(h, content, g, lanes, n, x)
    decreases |content| - g
  {
    if x == ItemAt(h, content, g) {
      n := g;
    } else {
      n := ItemOf(h, content, g + lanes, lanes, x);
      AddModulus(g, lanes);
    }
  }

  lemma {:induction false} ItemIn(h: seq<Byte> -> seq<Byte>, content: seq<Byte>, g: nat, lanes: nat, n: nat, x: Item)
    requires lanes > 0 && IsItem(h, content, g, lanes, n, x)
    ensures x in LaneItemsFrom(h, content, g, lanes)
    decreases |content| - g
  {
    if n < g + lanes {
      SameResidue(g, n, lanes);
    } else {
      AddModulus(g, lanes);
      ItemIn(h, content, g + lanes, lanes, n, x);
    }
  }

  lemma {:induction false} LaneItemsAscend(h: seq<Byte> -> seq<Byte>, content: seq<Byte>, g: nat, lanes: nat)
    requires lanes > 0
    ensures Ascending(LaneItemsFrom(h, content, g, lanes))
    ensures forall i :: 0 <= i < |LaneItemsFrom(h, content, g, lanes)| ==>
              LaneItemsFrom(h, content, g, lanes)[i].offset >= g * SEGMENT
    decreases |content| - g
  {
    if g * SEGMENT < |content| {
      LaneItemsAscend(h, content, g + lanes, lanes);
      AscendingCons(ItemAt(h, content, g), LaneItemsFrom(h, content, g + lanes, lanes));
    }
  }

  lemma AscendingCons(x: Item, xs: seq<Item>)
    requires Ascending(xs) && forall i :: 0 <= i < |xs| ==> x.offset < xs[i].offset
    ensures Ascending([x] + xs)
  {}

  /** One lane over everything: each segment's item in file order. */
  function AllItems(h: seq<Byte> -> seq<Byte>, content: seq<Byte>): seq<Item> {
    LaneItemsFrom(h, content, 0, 1)
  }

  function Hashes(xs: seq<Item>): seq<Byte> {
    if xs == [] then [] else xs[0].hash + Hashes(xs[1..])
  }

  function Insert(x: Item, xs: seq<Item>): seq<Item> {
    if xs == [] || x.offset <= xs[0].offset then [x] + xs else [xs[0]] + Insert(x, xs[1..])
  }

  /** `sorted(...)` over (offset, hash) pairs whose offsets are distinct. */
  function Sort(xs: seq<Item>): seq<Item> {
    if xs == [] then [] else Insert(xs[0], Sort(xs[1..]))
  }

  function Flatten(results: seq<seq<Item>>): seq<Item> {
    if results == [] then [] else results[0] + Flatten(results[1..])
  }

  /** `put_segment_hashes`: what the digest is fed for one file. */
  function SegmentHashes(results: seq<seq<Item>>): seq<Byte> {
    Hashes(Sort(Flatten(results)))
  }

  ghost predicate Distinct(xs: seq<Item>) {
    forall i, j :: 0 <= i < j < |xs| ==> xs[i].offset != xs[j].offset
  }

  lemma {:induction false} InsertAscends(x: Item, xs: seq<Item>)
    requires Ascending(xs) && forall i :: 0 <= i < |xs| ==> xs[i].offset != x.offset
    ensures Ascending(Insert(x, xs))
    ensures forall y :: y in Insert(x, xs) <==> y == x || y in xs
  {
    if xs != [] && x.offset > xs[0].offset {
      InsertAscends(x, xs[1..]);
      var r := Insert(x, xs[1..]);
      assert xs == [xs[0]] + xs[1..];
      forall i | 0 <= i < |r| ensures xs[0].offset < r[i].offset {
        assert r[i] in r;
        if r[i] != x {
          var k :| 0 <= k < |xs[1..]| && xs[1..][k] == r[i];
        }
      }
    }
  }

  lemma {:induction false} SortAscends(xs: seq<Item>)
    requires Distinct(xs)
    ensures Ascending(Sort(xs)) && forall y :: y in Sort(xs) <==> y in xs
  {
    if xs != [] {
      SortAscends(xs[1..]);
      var r := Sort(xs[1..]);
      assert xs == [xs[0]] + xs[1..];
      forall i | 0 <= i < |r| ensures r[i].offset != xs[0].offset {
        assert r[i] in xs[1..];
        var k :| 0 <= k < |xs[1..]| && xs[1..][k] == r[i];
        assert xs[k + 1] == r[i];
      }
      InsertAscends(xs[0], r);
    }
  }

  lemma HeadIsLeast(a: seq<Item>, x: Item)
    requires Ascending(a) && a != [] && x in a
    ensures a[0].offset <= x.offset && (x.offset == a[0].offset ==> x == a[0])
    ensures a[0] !in a[1..]
  {
    var k :| 0 <= k < |a| && a[k] == x;
    forall i | 0 <= i < |a[1..]| ensures a[1..][i] != a[0] { assert a[0].offset < a[i + 1].offset; }
  }

  lemma {:induction false} AscendingUnique(a: seq<Item>, b: seq<Item>)
    requires Ascending(a) && Ascending(b) && forall x :: x in a <==> x in b
    ensures a == b
  {
    assert a != [] ==> a[0] in b;
    assert b != [] ==> b[0] in a;
    if a != [] {
      HeadIsLeast(a, b[0]);
      HeadIsLeast(b, a[0]);
      assert a == [a[0]] + a[1..] && b == [b[0]] + b[1..];
      forall x ensures x in a[1..] <==> x in b[1..] {
        assert x in a <==> x in b;
      }
      AscendingUnique(a[1..], b[1..]);
    }
  }

  lemma {:induction false} FlattenHas(results: seq<seq<Item>>, x: Item)
    ensures x in Flatten(results) <==> exists i :: 0 <= i < |results| && x in results[i]
  {
    if results != [] {
      FlattenHas(results[1..], x);
      if i :| 0 <= i < |results| && x in results[i] {
        if i > 0 { assert results[1..][i - 1] == results[i]; }
      }
      if x in Flatten(results[1..]) {
        var i :| 0 <= i < |results[1..]| && x in results[1..][i];
        assert results[i + 1] == results[1..][i];
      }
    }
  }

  lemma {:induction false} FlattenDistinct(results: seq<seq<Item>>)
    requires forall i :: 0 <= i < |results| ==> Ascending(results[i])
    requires forall i, j, x, y :: 0 <= i < j < |results| && x in results[i] && y in results[j] ==> x.offset != y.offset
    ensures Distinct(Flatten(results))
  {
    if results != [] {
      var rest := results[1..];
      forall i, j, x: Item, y: Item | 0 <= i < j < |rest| && x in rest[i] && y in rest[j] ensures x.offset != y.offset {
        assert x in results[i + 1] && y in results[j + 1];
      }
      FlattenDistinct(rest);
      forall i, j | 0 <= i < |results[0]| && 0 <= j < |Flatten(rest)|
        ensures results[0][i].offset != Flatten(rest)[j].offset
      {
        var y := Flatten(rest)[j];
        FlattenHas(rest, y);
        var k :| 0 <= k < |rest| && y in rest[k];
        assert results[0][i] in results[0] && y in results[k + 1];
      }
    }
  }

  /** The results of all lanes, listed in some order. */
  function LaneResults(h: seq<Byte> -> seq<Byte>, content: seq<Byte>, order: seq<nat>, lanes: nat): (r: seq<seq<Item>>)
    requires lanes > 0 || order == []
    ensures |r| == |order| && forall i :: 0 <= i < |order| ==> r[i] == LaneItemsFrom(h, content, order[i], lanes)
  {
    seq(|order|, i requires 0 <= i < |order| => LaneItemsFrom(h, content, order[i], lanes))
  }

  ghost predicate EveryLaneOnce(order: seq<nat>, lanes: nat) {
    && (forall i :: 0 <= i < |order| ==> order[i] < lanes)
    && (forall i, j :: 0 <= i < j < |order| ==> order[i] != order[j])
    && (forall lane: nat :: lane < lanes ==> lane in order)
  }

  /** Items of different lanes lie at different offsets. */
  lemma LanesApart(h: seq<Byte> -> seq<Byte>, content: seq<Byte>, a: nat, b: nat, lanes: nat, x: Item, y: Item)
    requires a < lanes && b < lanes && a != b
    requires x in LaneItemsFrom(h, content, a, lanes) && y in LaneItemsFrom(h, content, b, lanes)
    ensures x.offset != y.offset
  {
    var m := ItemOf(h, content, a, lanes, x);
    var n := ItemOf(h, content, b, lanes, y);
    SmallResidue(a, lanes);
    SmallResidue(b, lanes);
    assert m != n;
  }

  lemma LaneInAll(h: seq<Byte> -> seq<Byte>, content: seq<Byte>, g: nat, lanes: nat, x: Item)
    requires lanes > 0 && x in LaneItemsFrom(h, content, g, lanes)
    ensures x in AllItems(h, content)
  {
    var n := ItemOf(h, content, g, lanes, x);
    ItemIn(h, content, 0, 1, n, x);
  }

  lemma AllInSomeLane(h: seq<Byte> -> seq<Byte>, content: seq<Byte>, lanes: nat, x: Item) returns (lane: nat)
    requires lanes > 0 && x in AllItems(h, content)
    ensures lane < lanes && x in LaneItemsFrom(h, content, lane, lanes)
  {
    var n := ItemOf(h, content, 0, 1, x);
    lane := n % lanes;
    OwnResidue(n, lanes);
    ItemIn(h, content, lane, lanes, n, x);
  }

  lemma AllLanesAreAll(h: seq<Byte> -> seq<Byte>, content: seq<Byte>, order: seq<nat>, lanes: nat, x: Item)
    requires lanes > 0 && EveryLaneOnce(order, lanes)
    ensures x in Flatten(LaneResults(h, content, order, lanes)) <==> x in AllItems(h, content)
  {
    var rs := LaneResults(h, content, order, lanes);
    FlattenHas(rs, x);
    if x in Flatten(rs) {
      var i :| 0 <= i < |rs| && x in rs[i];
      LaneInAll(h, content, order[i], lanes, x);
    }
    if x in AllItems(h, content) {
      var lane := AllInSomeLane(h, content, lanes, x);
      assert lane in order;
      var i :| 0 <= i < |order| && order[i] == lane;
      assert x in rs[i];
    }
  }

  /** Without lanes there are no results. */
  lemma NoLanes(order: seq<nat>)
    requires EveryLaneOnce(order, 0)
    ensures order == []
  {
    if order != [] { LanesInRange(order, 0); }
  }

  lemma LanesInRange(order: seq<nat>, lanes: nat)
    requires EveryLaneOnce(order, lanes) && order != []
    ensures lanes > 0
  {
    assert order[0] < lanes;
  }

  /** Sorting what the lanes report gives every segment's item in file order, whatever
      the number of lanes and the order of their results; so both ends feed the
      digest the same bytes for the same file. An empty file has no lanes. */
  lemma HashesIgnoreLanes(h: seq<Byte> -> seq<Byte>, content: seq<Byte>, order: seq<nat>, lanes: nat)
    requires (lanes > 0 || content == []) && EveryLaneOnce(order, lanes)
    ensures lanes > 0 || order == []
    ensures SegmentHashes(LaneResults(h, content, order, lanes)) == Hashes(AllItems(h, content))
    ensures |Flatten(LaneResults(h, content, order, lanes))| == SegmentCount(|content|)
  {
    if lanes > 0 {
      LanesSorted(h, content, order, lanes);
      LanesTotal(h, content, order, lanes);
    } else {
      NoLanes(order);
    }
  }

  lemma LanesSorted(h: seq<Byte> -> seq<Byte>, content: seq<Byte>, order: seq<nat>, lanes: nat)
    requires lanes > 0 && EveryLaneOnce(order, lanes)
    ensures Sort(Flatten(LaneResults(h, content, order, lanes))) == AllItems(h, content)
  {
    var rs := LaneResults(h, content, order, lanes);
    forall i | 0 <= i < |rs| ensures Ascending(rs[i]) { LaneItemsAscend(h, content, order[i], lanes); }
    forall i, j, x: Item, y: Item | 0 <= i < j < |rs| && x in rs[i] && y in rs[j] ensures x.offset != y.offset {
      LanesApart(h, content, order[i], order[j], lanes, x, y);
    }
    FlattenDistinct(rs);
    SortAscends(Flatten(rs));
    LaneItemsAscend(h, content, 0, 1);
    forall x ensures x in Sort(Flatten(rs)) <==> x in AllItems(h, content) {
      AllLanesAreAll(h, content, order, lanes, x);
    }
    AscendingUnique(Sort(Flatten(rs)), AllItems(h, content));
  }

  lemma {:induction false} SortKeepsLength(xs: seq<Item>)
    ensures |Sort(xs)| == |xs|
  {
    if xs != [] {
      SortKeepsLength(xs[1..]);
      InsertLength(xs[0], Sort(xs[1..]));
    }
  }

  lemma {:induction false} InsertLength(x: Item, xs: seq<Item>)
    ensures |Insert(x, xs)| == |xs| + 1
  {
    if xs != [] && x.offset > xs[0].offset { InsertLength(x, xs[1..]); }
  }

  lemma {:induction false} SegmentTotal(h: seq<Byte> -> seq<Byte>, content: seq<Byte>, g: nat)
    requires g <= SegmentCount(|content|)
    ensures |LaneItemsFrom(h, content, g, 1)| == SegmentCount(|content|) - g
    decreases |content| - g
  {
    SegmentCountBounds(|content|, g);
    if g * SEGMENT < |content| { SegmentTotal(h, content, g + 1); }
  }

  /** There is a port for every lane, and no lane for an empty file only; with as many
      ports as segments every segment has its own. */
  lemma LanesChosen(ports: nat, size: nat)
    requires ports > 0
    ensures LanesFor(ports, size) <= ports && (LanesFor(ports, size) > 0 <==> size > 0)
    ensures LanesFor(ports, size) == ports || (LanesFor(ports, size) == SegmentCount(size) < ports)
  {}

  /** The lanes together hold ceil(size / SEGMENT) segments. */
  lemma LanesTotal(h: seq<Byte> -> seq<Byte>, content: seq<Byte>, order: seq<nat>, lanes: nat)
    requires lanes > 0 && EveryLaneOnce(order, lanes)
    ensures |Flatten(LaneResults(h, content, order, lanes))| == SegmentCount(|content|)
  {
    LanesSorted(h, content, order, lanes);
    SortKeepsLength(Flatten(LaneResults(h, content, order, lanes)));
    SegmentTotal(h, content, 0);
  }

  // ----- Concurrent, partial writes -----

  /** pwrite of a whole block: it fills a hole with zeros and replaces what is there. */
  function Pwrite(file: seq<Byte>, offset: nat, block: seq<Byte>): (r: seq<Byte>)
    ensures forall i :: offset <= i < offset + |block| ==> i < |r| && r[i] == block[i - offset]
    ensures forall i :: 0 <= i < |file| && !(offset <= i < offset + |block|) ==> i < |r| && r[i] == file[i]
    ensures |r| == if block == [] then |file| else if |file| < offset + |block| then offset + |block| else |file|
  {
    if block == [] then file
    else
      var end := offset + |block|;
      seq(if |file| < end then end else |file|, i requires 0 <= i =>
        if offset <= i < end then block[i - offset] else if i < |file| then file[i] else 0)
  }

  class StagedFile {
    var data: seq<Byte>

    constructor ()
      ensures data == []
    {
      data := [];
    }

    /** `write_all`: any number of short writes amounts to one write. */
    method WriteAll(block: seq<Byte>, offset: nat)
      modifies this
      ensures data == Pwrite(old(data), offset, block)
    {
      var done: nat := 0;
      while done < |block|
        invariant done <= |block|
        invariant data == Pwrite(old(data), offset, block[..done])
      {
        var n :| 1 <= n <= |block| - done;
        NextWrite(old(data), offset, block, done, n);
        data := Pwrite(data, offset + done, block[done..done + n]);
        done := done + n;
      }
      assert block[..done] == block;
    }
  }

  lemma NextWrite(file: seq<Byte>, offset: nat, block: seq<Byte>, done: nat, n: nat)
    requires done + n <= |block|
    ensures Pwrite(Pwrite(file, offset, block[..done]), offset + done, block[done..done + n])
         == Pwrite(file, offset, block[..done + n])
  {
    WritesJoin(file, offset, block[..done], block[done..done + n]);
    assert block[..done + n] == block[..done] + block[done..done + n];
  }

  lemma WritesJoin(file: seq<Byte>, offset: nat, a: seq<Byte>, b: seq<Byte>)
    ensures Pwrite(Pwrite(file, offset, a), offset + |a|, b) == Pwrite(file, offset, a + b)
  {
    var l, r := Pwrite(Pwrite(file, offset, a), offset + |a|, b), Pwrite(file, offset, a + b);
    assert |l| == |r|;
    forall i | 0 <= i < |l| ensures l[i] == r[i] {
      if offset <= i < offset + |a| { assert (a + b)[i - offset] == a[i - offset]; }
      else if offset + |a| <= i < offset + |a| + |b| { assert (a + b)[i - offset] == b[i - offset - |a|]; }
    }
  }

  /** One receiving lane: the segment it is in, and how much of it is written. */
  datatype Lane = Lane(segment: nat, done: nat)

  datatype Snapshot = Snapshot(file: seq<Byte>, lanes: seq<Lane>)

  /** Lane k writes the next n bytes of its segment; a finished segment moves the
      lane on by the number of lanes. */
  ghost predicate Write(src: seq<Byte>, s: Snapshot, t: Snapshot, k: nat, n: nat) {
    && k < |s.lanes|
    && s.lanes[k].segment * SEGMENT < |src|
    && var l, p := s.lanes[k], PieceAt(|src|, s.lanes[k].segment);
       && 0 < n && l.done + n <= p.length
       && t.file == Pwrite(s.file, p.offset + l.done, src[p.offset + l.done..p.offset + l.done + n])
       && t.lanes == s.lanes[k := AfterWrite(|src|, |s.lanes|, l, n)]
  }

  ghost predicate SomeWrite(src: seq<Byte>, s: Snapshot, t: Snapshot) {
    exists k, n :: Write(src, s, t, k, n)
  }

  function AfterWrite(size: nat, lanes: nat, l: Lane, n: nat): Lane
    requires l.segment * SEGMENT < size
  {
    if l.done + n == PieceAt(size, l.segment).length then Lane(l.segment + lanes, 0)
    else Lane(l.segment, l.done + n)
  }

  function StartLanes(lanes: nat): (ls: seq<Lane>)
    ensures |ls| == lanes && forall k :: 0 <= k < lanes ==> ls[k] == Lane(k, 0)
  {
    seq(lanes, k requires 0 <= k => Lane(k, 0))
  }

  /** An interleaving of the lanes from an empty file. */
  ghost predicate IsTransfer(src: seq<Byte>, lanes: nat, steps: seq<Snapshot>) {
    && (lanes > 0 || src == []) && steps != []
    && steps[0] == Snapshot([], StartLanes(lanes))
    && forall i :: 0 <= i < |steps| - 1 ==> SomeWrite(src, steps[i], steps[i + 1])
  }

  ghost predicate Finished(src: seq<Byte>, ls: seq<Lane>) {
    forall k :: 0 <= k < |ls| ==> ls[k].segment * SEGMENT >= |src|
  }

  /** Byte b has been written by the lane it belongs to. */
  predicate Written(ls: seq<Lane>, b: nat)
    requires |ls| > 0
  {
    var g := b / SEGMENT;
    var l := ls[g % |ls|];
    g < l.segment || (g == l.segment && b - g * SEGMENT < l.done)
  }

  ghost predicate TransferInv(src: seq<Byte>, s: Snapshot) {
    && |s.lanes| > 0 && |s.file| <= |src|
    && (forall k :: 0 <= k < |s.lanes| ==> s.lanes[k].segment % |s.lanes| == k)
    && (forall b: nat :: b < |src| && Written(s.lanes, b) ==> b < |s.file| && s.file[b] == src[b])
  }

  /** A byte newly counted as written lies in the block just written. */
  lemma NewlyWritten(src: seq<Byte>, ls: seq<Lane>, k: nat, n: nat, b: nat)
    requires k < |ls| && ls[k].segment % |ls| == k && ls[k].segment * SEGMENT < |src| && b < |src|
    requires 0 < n && ls[k].done + n <= PieceAt(|src|, ls[k].segment).length
    requires Written(ls[k := AfterWrite(|src|, |ls|, ls[k], n)], b) && !Written(ls, b)
    ensures var p := PieceAt(|src|, ls[k].segment);
            p.offset + ls[k].done <= b < p.offset + ls[k].done + n
  {
    var g := b / SEGMENT;
    assert g % |ls| == k;
    if ls[k].segment <= g < ls[k].segment + |ls| { SameResidue(ls[k].segment, g, |ls|); }
  }

  lemma WriteKeeps(src: seq<Byte>, s: Snapshot, t: Snapshot, k: nat, n: nat)
    requires TransferInv(src, s) && Write(src, s, t, k, n)
    ensures TransferInv(src, t) && |t.lanes| == |s.lanes|
  {
    AddModulus(s.lanes[k].segment, |s.lanes|);
    forall b: nat | b < |src| && Written(t.lanes, b) ensures b < |t.file| && t.file[b] == src[b] {
      if !Written(s.lanes, b) { NewlyWritten(src, s.lanes, k, n, b); }
    }
  }

  lemma TransferStart(src: seq<Byte>, lanes: nat)
    requires lanes > 0
    ensures TransferInv(src, Snapshot([], StartLanes(lanes)))
  {
    var ls := StartLanes(lanes);
    forall k | 0 <= k < lanes ensures ls[k].segment % lanes == k { SmallResidue(k, lanes); }
    forall b: nat | b < |src| ensures !Written(ls, b) {
      OwnResidue(b / SEGMENT, lanes);
    }
  }

  lemma {:induction false} TransferKeeps(src: seq<Byte>, lanes: nat, steps: seq<Snapshot>, i: nat)
    requires IsTransfer(src, lanes, steps) && i < |steps| && lanes > 0
    ensures TransferInv(src, steps[i]) && |steps[i].lanes| == lanes
  {
    if i == 0 {
      TransferStart(src, lanes);
    } else {
      TransferKeeps(src, lanes, steps, i - 1);
      assert SomeWrite(src, steps[i - 1], steps[i - 1 + 1]);
      var k, n :| Write(src, steps[i - 1], steps[i], k, n);
      WriteKeeps(src, steps[i - 1], steps[i], k, n);
    }
  }

  /** However the lanes interleave and however short their writes, once all of them
      are done the file is the source, byte for byte; and it never grows past it. */
  lemma Reassembled(src: seq<Byte>, lanes: nat, steps: seq<Snapshot>)
    requires IsTransfer(src, lanes, steps)
    ensures |steps[|steps| - 1].file| <= |src|
    ensures Finished(src, steps[|steps| - 1].lanes) ==> steps[|steps| - 1].file == src
  {
    if lanes > 0 {
      TransferKeeps(src, lanes, steps, |steps| - 1);
      var last := steps[|steps| - 1];
      if Finished(src, last.lanes) { FinishedIsWhole(src, last); }
    } else {
      EmptyTransfer(src, steps);
    }
  }

  /** Nothing happens to an empty file, which has no lanes. */
  lemma EmptyTransfer(src: seq<Byte>, steps: seq<Snapshot>)
    requires IsTransfer(src, 0, steps)
    ensures steps[|steps| - 1].file == [] == src
  {
    if |steps| > 1 { WritesNeedLanes(src, 0, steps); }
  }

  lemma WritesNeedLanes(src: seq<Byte>, lanes: nat, steps: seq<Snapshot>)
    requires IsTransfer(src, lanes, steps) && |steps| > 1
    ensures lanes > 0
  {
    assert SomeWrite(src, steps[0], steps[0 + 1]);
  }

  lemma FinishedIsWhole(src: seq<Byte>, s: Snapshot)
    requires TransferInv(src, s) && Finished(src, s.lanes)
    ensures s.file == src
  {
    forall b: nat | b < |src| ensures Written(s.lanes, b) {
      assert s.lanes[b / SEGMENT % |s.lanes|].segment * SEGMENT >= |src|;
    }
    if src != [] { assert Written(s.lanes, |src| - 1); }
    forall b: nat | b < |src| ensures b < |s.file| && s.file[b] == src[b] {
      assert Written(s.lanes, b);
    }
  }
}
