/** One file at the receiver: whatever arrives on the connections of its segments, what
    the lanes store of it and what they feed the digest. */
module Reception {
  import opened Bytes
  import opened Striping

  /** arrivals[g] is everything that arrives for segment g before its connection
      closes. Every segment must bring exactly its length. */
  predicate Accepted(arrivals: seq<seq<Byte>>, size: nat) {
    && |arrivals| == SegmentCount(size)
    && forall g :: 0 <= g < |arrivals| ==> SegmentArrived(arrivals, size, g)
  }

  predicate SegmentArrived(arrivals: seq<seq<Byte>>, size: nat, g: nat)
    requires g < |arrivals|
  {
    g * SEGMENT < size && |arrivals[g]| == PieceAt(size, g).length
  }

  // ----- The contents that arrived -----

  /** The first n segments are full or the whole file. */
  lemma {:induction false} JoinedLength(arrivals: seq<seq<Byte>>, size: nat, n: nat)
    requires Accepted(arrivals, size) && n <= |arrivals|
    ensures |Concat(arrivals[..n])| == if n * SEGMENT < size then n * SEGMENT else size
  {
    if n == 0 {
      assert arrivals[..0] == [];
    } else {
      JoinedLength(arrivals, size, n - 1);
      assert SegmentArrived(arrivals, size, n - 1);
      assert arrivals[..n] == arrivals[..n - 1] + [arrivals[n - 1]];
      ConcatAppend(arrivals[..n - 1], arrivals[n - 1]);
    }
  }

  lemma JoinedWhole(arrivals: seq<seq<Byte>>, size: nat)
    requires Accepted(arrivals, size)
    ensures |Concat(arrivals)| == size
  {
    JoinedLength(arrivals, size, |arrivals|);
    assert arrivals[..|arrivals|] == arrivals;
    SegmentCountBounds(size, |arrivals|);
  }

  /** What arrived for a segment is that segment of the joined contents. */
  lemma JoinedSegment(arrivals: seq<seq<Byte>>, size: nat, g: nat)
    requires Accepted(arrivals, size) && g < |arrivals|
    ensures |Concat(arrivals)| == size && g * SEGMENT < size && SegmentOf(Concat(arrivals), g) == arrivals[g]
  {
    JoinedWhole(arrivals, size);
    JoinedLength(arrivals, size, g);
    assert SegmentArrived(arrivals, size, g);
    ConcatAt(arrivals, g);
  }

  // ----- What is stored -----

  /** Lane k stores the next n bytes of what arrives for its segment. */
  ghost predicate Store(arrivals: seq<seq<Byte>>, size: nat, s: Snapshot, t: Snapshot, k: nat, n: nat) {
    && k < |s.lanes| && s.lanes[k].segment * SEGMENT < size && s.lanes[k].segment < |arrivals|
    && var l, p := s.lanes[k], PieceAt(size, s.lanes[k].segment);
       && 0 < n && l.done + n <= p.length && l.done + n <= |arrivals[l.segment]|
       && t.file == Pwrite(s.file, p.offset + l.done, arrivals[l.segment][l.done..l.done + n])
       && t.lanes == s.lanes[k := AfterWrite(size, |s.lanes|, l, n)]
  }

  ghost predicate SomeStore(arrivals: seq<seq<Byte>>, size: nat, s: Snapshot, t: Snapshot) {
    exists k, n :: Store(arrivals, size, s, t, k, n)
  }

  /** Any interleaving of the lanes of a file of the declared size. */
  ghost predicate IsReception(arrivals: seq<seq<Byte>>, size: nat, lanes: nat, steps: seq<Snapshot>) {
    && (lanes > 0 || size == 0) && steps != []
    && steps[0] == Snapshot([], StartLanes(lanes))
    && forall i :: 0 <= i < |steps| - 1 ==> SomeStore(arrivals, size, steps[i], steps[i + 1])
  }

  /** Whatever arrives, the file never outgrows its declared size. */
  lemma {:induction false} NeverOutgrows(
    arrivals: seq<seq<Byte>>, size: nat, lanes: nat, steps: seq<Snapshot>, i: nat)
    requires IsReception(arrivals, size, lanes, steps) && i < |steps|
    ensures |steps[i].file| <= size
  {
    if i > 0 {
      NeverOutgrows(arrivals, size, lanes, steps, i - 1);
      assert SomeStore(arrivals, size, steps[i - 1], steps[i - 1 + 1]);
      var k, n :| Store(arrivals, size, steps[i - 1], steps[i], k, n);
    }
  }

  lemma PartOfSegment(src: seq<Byte>, g: nat, i: nat, n: nat)
    requires g * SEGMENT < |src| && i + n <= PieceAt(|src|, g).length
    ensures SegmentOf(src, g)[i..i + n] == src[g * SEGMENT + i..g * SEGMENT + i + n]
  {
    var a, b := SegmentOf(src, g)[i..i + n], src[g * SEGMENT + i..g * SEGMENT + i + n];
    assert |a| == |b| == n;
    forall k | 0 <= k < n ensures a[k] == b[k] { assert a[k] == SegmentOf(src, g)[i + k]; }
  }

  lemma StoreIsWrite(arrivals: seq<seq<Byte>>, size: nat, s: Snapshot, t: Snapshot, k: nat, n: nat)
    requires Accepted(arrivals, size) && Store(arrivals, size, s, t, k, n)
    ensures Write(Concat(arrivals), s, t, k, n)
  {
    var l, src := s.lanes[k], Concat(arrivals);
    JoinedSegment(arrivals, size, l.segment);
    PartOfSegment(src, l.segment, l.done, n);
  }

  lemma ReceptionIsTransfer(arrivals: seq<seq<Byte>>, size: nat, lanes: nat, steps: seq<Snapshot>)
    requires Accepted(arrivals, size) && IsReception(arrivals, size, lanes, steps)
    ensures IsTransfer(Concat(arrivals), lanes, steps)
  {
    JoinedWhole(arrivals, size);
    forall i | 0 <= i < |steps| - 1 ensures SomeWrite(Concat(arrivals), steps[i], steps[i + 1]) {
      assert SomeStore(arrivals, size, steps[i], steps[i + 1]);
      var k, n :| Store(arrivals, size, steps[i], steps[i + 1], k, n);
      StoreIsWrite(arrivals, size, steps[i], steps[i + 1], k, n);
    }
  }

  // ----- What is hashed -----

  /** The items one lane reports: offsets and hashes of what arrived. */
  function ArrivedFrom(h: seq<Byte> -> seq<Byte>, arrivals: seq<seq<Byte>>, g: nat, lanes: nat): seq<Item>
    requires lanes > 0
    decreases |arrivals| - g
  {
    if g >= |arrivals| then []
    else [Item(g * SEGMENT, h(arrivals[g]))] + ArrivedFrom(h, arrivals, g + lanes, lanes)
  }

  lemma {:induction false} ArrivedAreItems(
    h: seq<Byte> -> seq<Byte>, arrivals: seq<seq<Byte>>, size: nat, g: nat, lanes: nat)
    requires Accepted(arrivals, size) && lanes > 0
    ensures ArrivedFrom(h, arrivals, g, lanes) == LaneItemsFrom(h, Concat(arrivals), g, lanes)
    decreases |arrivals| - g
  {
    JoinedWhole(arrivals, size);
    SegmentCountBounds(size, g);
    if g < |arrivals| {
      JoinedSegment(arrivals, size, g);
      ArrivedAreItems(h, arrivals, size, g + lanes, lanes);
    }
  }

  function ArrivedResults(
    h: seq<Byte> -> seq<Byte>, arrivals: seq<seq<Byte>>, order: seq<nat>, lanes: nat): (r: seq<seq<Item>>)
    requires lanes > 0 || order == []
    ensures |r| == |order| && forall i :: 0 <= i < |order| ==> r[i] == ArrivedFrom(h, arrivals, order[i], lanes)
  {
    seq(|order|, i requires 0 <= i < |order| => ArrivedFrom(h, arrivals, order[i], lanes))
  }

  /** Lanes that receive whatever bytes, in segments of the right lengths, leave exactly
      those bytes joined in the file, for every interleaving and every short write, and
      feed the digest the hashes of the segments of that file, for every number of
      lanes and every order of their results. */
  lemma ReceivedFile(
    h: seq<Byte> -> seq<Byte>, arrivals: seq<seq<Byte>>, size: nat, ports: nat, order: seq<nat>, steps: seq<Snapshot>)
    requires ports > 0 && Accepted(arrivals, size) && EveryLaneOnce(order, LanesFor(ports, size))
    requires IsReception(arrivals, size, LanesFor(ports, size), steps)
    requires Finished(Concat(arrivals), steps[|steps| - 1].lanes)
    ensures |Concat(arrivals)| == size && steps[|steps| - 1].file == Concat(arrivals)
    ensures LanesFor(ports, size) > 0 || order == []
    ensures SegmentHashes(ArrivedResults(h, arrivals, order, LanesFor(ports, size)))
         == Hashes(AllItems(h, Concat(arrivals)))
  {
    var lanes := LanesFor(ports, size);
    LanesChosen(ports, size);
    JoinedWhole(arrivals, size);
    ReceptionIsTransfer(arrivals, size, lanes, steps);
    Reassembled(Concat(arrivals), lanes, steps);
    HashesIgnoreLanes(h, Concat(arrivals), order, lanes);
    forall i | 0 <= i < |order|
      ensures ArrivedFrom(h, arrivals, order[i], lanes) == LaneItemsFrom(h, Concat(arrivals), order[i], lanes)
    {
      ArrivedAreItems(h, arrivals, size, order[i], lanes);
    }
    assert ArrivedResults(h, arrivals, order, lanes) == LaneResults(h, Concat(arrivals), order, lanes);
  }

  // ----- What an honest sender makes arrive -----

  function SegmentsOf(content: seq<Byte>): (r: seq<seq<Byte>>)
    ensures |r| == SegmentCount(|content|)
    ensures forall g :: 0 <= g < |r| ==> g * SEGMENT < |content| && r[g] == SegmentOf(content, g)
  {
    seq(SegmentCount(|content|), g requires 0 <= g < SegmentCount(|content|) => SegmentOf(content, g))
  }

  /** The segments of a file are accepted for its size and join to the file. */
  lemma SegmentsJoin(content: seq<Byte>)
    ensures Accepted(SegmentsOf(content), |content|) && Concat(SegmentsOf(content)) == content
  {
    var parts := SegmentsOf(content);
    JoinedWhole(parts, |content|);
    forall b | 0 <= b < |content| ensures Concat(parts)[b] == content[b] {
      var g := b / SEGMENT;
      SegmentCountBounds(|content|, g);
      JoinedSegment(parts, |content|, g);
      assert SegmentOf(Concat(parts), g)[b - g * SEGMENT] == Concat(parts)[b];
      assert SegmentOf(content, g)[b - g * SEGMENT] == content[b];
    }
  }
}
