/** The control stream of an image-tree transfer: what the sender emits, what the
    receiver accepts, and what a matching tree digest proves about the staged tree.

    SHA-256 is a parameter `h` of which only the length of its values is used; the
    JSON header codec is a pair `emit`/`parse` of which only the round trip is used. */
module TreeStream {
  import opened Options
  import opened Bytes
  import opened Striping
  import opened Reception

  const MAGIC: seq<Byte> := [83, 66, 45, 84, 82, 69, 69, 45, 51, 10]   // b'SB-TREE-3\n'
  const MAX_HEADER: nat := 65536
  const MAX_ENTRIES: nat := 1000000
  const DIGEST: nat := 32

  type Hash = seq<Byte> -> seq<Byte>

  /** The fields of one JSON header. */
  datatype Info = Info(path: string, directory: bool, mode: nat, size: int)

  /** One entry of the source tree, and of the staged one. */
  datatype Node = Node(path: string, directory: bool, mode: nat, content: seq<Byte>)

  predicate ValidNode(n: Node) {
    (n.directory ==> n.content == []) && n.mode < 512
  }

  function InfoOf(n: Node): Info {
    Info(n.path, n.directory, n.mode, |n.content|)
  }

  // ----- Big-endian lengths -----

  function U32(n: nat): (r: seq<Byte>)
    ensures |r| == 4
  {
    [n / 256 / 256 / 256 % 256, n / 256 / 256 % 256, n / 256 % 256, n % 256]
  }

  function FromU32(b: seq<Byte>): nat
    requires |b| == 4
  {
    var x: int, y: int, z: int, w: int := b[0], b[1], b[2], b[3];
    x * 16777216 + y * 65536 + z * 256 + w
  }

  function U64(n: nat): (r: seq<Byte>)
    ensures |r| == 8
  {
    U32(n / 4294967296) + U32(n % 4294967296)
  }

  function FromU64(b: seq<Byte>): nat
    requires |b| == 8
  {
    FromU32(b[..4]) * 4294967296 + FromU32(b[4..])
  }

  lemma U32RoundTrip(n: nat)
    requires n < 4294967296
    ensures FromU32(U32(n)) == n
  {
    var q := n / 256;
    var r := q / 256;
    assert n == 256 * q + n % 256 && q == 256 * r + q % 256 && r == 256 * (r / 256) + r % 256;
    assert r / 256 < 256;
  }

  lemma U64RoundTrip(n: nat)
    requires n < 4294967296 * 4294967296
    ensures FromU64(U64(n)) == n
  {
    var high, low := n / 4294967296, n % 4294967296;
    U32RoundTrip(high);
    U32RoundTrip(low);
    assert U64(n)[..4] == U32(high) && U64(n)[4..] == U32(low);
  }

  // ----- What the digest is fed -----

  function Framed(header: seq<Byte>): seq<Byte> {
    U32(|header|) + header
  }

  function FileHashes(h: Hash, directory: bool, content: seq<Byte>): seq<Byte> {
    if directory then [] else Hashes(AllItems(h, content))
  }

  function TreeInput(h: Hash, emit: Info -> seq<Byte>, nodes: seq<Node>): seq<Byte> {
    if nodes == [] then [] else NodeInput(h, emit, nodes[0]) + TreeInput(h, emit, nodes[1..])
  }

  function NodeInput(h: Hash, emit: Info -> seq<Byte>, n: Node): seq<Byte> {
    Framed(emit(InfoOf(n))) + FileHashes(h, n.directory, n.content)
  }

  function Frames(emit: Info -> seq<Byte>, nodes: seq<Node>): seq<Byte> {
    if nodes == [] then [] else Framed(emit(InfoOf(nodes[0]))) + Frames(emit, nodes[1..])
  }

  /** The bytes `send` puts on the control connection. */
  function Send(h: Hash, emit: Info -> seq<Byte>, nodes: seq<Node>): seq<Byte> {
    MAGIC + U64(|nodes|) + Frames(emit, nodes) + h(TreeInput(h, emit, nodes))
  }

  // ----- The receiver -----

  /** What one received entry left behind: the header bytes as they came, their
      meaning, and the bytes its data connections delivered. */
  datatype Entry = Entry(lengthBytes: seq<Byte>, header: seq<Byte>, info: Info, content: seq<Byte>)

  function Staged(e: Entry): Node {
    Node(e.info.path, e.info.directory, e.info.mode % 512, e.content)
  }

  function StagedTree(es: seq<Entry>): (ns: seq<Node>)
    ensures |ns| == |es| && forall i :: 0 <= i < |es| ==> ns[i] == Staged(es[i])
  {
    seq(|es|, i requires 0 <= i < |es| => Staged(es[i]))
  }

  function EntriesInput(h: Hash, es: seq<Entry>): seq<Byte> {
    if es == [] then [] else EntryInput(h, es[0]) + EntriesInput(h, es[1..])
  }

  function EntryInput(h: Hash, e: Entry): seq<Byte> {
    e.lengthBytes + e.header + FileHashes(h, e.info.directory, e.content)
  }

  /** The receiver's surroundings. `feed(k)[g]` is everything that arrives for segment g
      of entry k before its data connection closes. */
  datatype Env = Env(h: Hash, parse: seq<Byte> -> Option<Info>, safe: string -> bool,
                     conn: seq<Byte>, feed: nat -> seq<seq<Byte>>, maxBytes: nat)

  datatype Rx = Rx(pos: nat, left: nat, used: nat, entries: seq<Entry>)

  /** `inFlight`: the declared size of the file whose lanes were at work, or 0. */
  datatype Outcome =
    | Committed(entries: seq<Entry>, digest: seq<Byte>)
    | Rejected(entries: seq<Entry>, inFlight: nat)

  /** One turn of the receiver's loop; Stop is any of its exceptions. */
  datatype Turn = Next(rx: Rx) | Stop(inFlight: nat)

  predicate PathTaken(es: seq<Entry>, path: string) {
    exists i :: 0 <= i < |es| && es[i].info.path == path
  }

  predicate FileThere(es: seq<Entry>, path: string) {
    exists i :: 0 <= i < |es| && es[i].info.path == path && !es[i].info.directory
  }

  function EntryStep(env: Env, rx: Rx): Turn
    requires rx.left > 0
  {
    if rx.pos + 4 > |env.conn| then Stop(0)
    else
      var lengthBytes := env.conn[rx.pos..rx.pos + 4];
      var length := FromU32(lengthBytes);
      if length > MAX_HEADER || rx.pos + 4 + length > |env.conn| then Stop(0)
      else
        var header := env.conn[rx.pos + 4..rx.pos + 4 + length];
        match env.parse(header)
        case None => Stop(0)
        case Some(info) =>
          if !env.safe(info.path) || info.size < 0 || rx.used + info.size > env.maxBytes then Stop(0)
          else if info.directory then
            if info.size != 0 || FileThere(rx.entries, info.path) then Stop(0)
            else Next(Rx(rx.pos + 4 + length, rx.left - 1, rx.used,
                         rx.entries + [Entry(lengthBytes, header, info, [])]))
          else if PathTaken(rx.entries, info.path) then Stop(0)
          else if !Accepted(env.feed(|rx.entries|), info.size) then Stop(info.size)
          else Next(Rx(rx.pos + 4 + length, rx.left - 1, rx.used + info.size,
                       rx.entries + [Entry(lengthBytes, header, info, Concat(env.feed(|rx.entries|)))]))
  }

  /** The rest of `receive` from a given point of its loop. */
  function Continue(env: Env, rx: Rx): Outcome
    decreases rx.left
  {
    if rx.left == 0 then
      if rx.pos + DIGEST <= |env.conn|
         && env.h(EntriesInput(env.h, rx.entries)) == env.conn[rx.pos..rx.pos + DIGEST]
      then Committed(rx.entries, env.conn[rx.pos..rx.pos + DIGEST]) else Rejected(rx.entries, 0)
    else
      match EntryStep(env, rx)
      case Stop(inFlight) => Rejected(rx.entries, inFlight)
      case Next(next) => if next.left < rx.left then Continue(env, next) else Rejected(rx.entries, 0)
  }

  function Receiving(env: Env): Outcome {
    var start := |MAGIC| + 8;
    if |env.conn| < start || env.conn[..|MAGIC|] != MAGIC then Rejected([], 0)
    else
      var count := FromU64(env.conn[|MAGIC|..start]);
      if count > MAX_ENTRIES then Rejected([], 0) else Continue(env, Rx(start, count, 0, []))
  }

  function TotalBytes(es: seq<Entry>): nat {
    if es == [] then 0 else |es[0].content| + TotalBytes(es[1..])
  }

  lemma {:induction false} TotalAppend(es: seq<Entry>, e: Entry)
    ensures TotalBytes(es + [e]) == TotalBytes(es) + |e.content|
  {
    if es == [] {
      assert es + [e] == [e];
    } else {
      TotalAppend(es[1..], e);
      assert (es + [e])[1..] == es[1..] + [e];
    }
  }

  lemma {:induction false} EntriesAppend(h: Hash, es: seq<Entry>, e: Entry)
    ensures EntriesInput(h, es + [e]) == EntriesInput(h, es) + EntryInput(h, e)
  {
    if es == [] {
      assert es + [e] == [e];
    } else {
      EntriesAppend(h, es[1..], e);
      assert (es + [e])[1..] == es[1..] + [e];
      Reassociate(EntryInput(h, es[0]), EntriesInput(h, es[1..]), EntryInput(h, e));
    }
  }

  /** What a turn adds to the tree, or leaves unfinished in it. */
  lemma TurnAdds(env: Env, rx: Rx)
    requires rx.left > 0 && rx.used == TotalBytes(rx.entries) <= env.maxBytes
    ensures match EntryStep(env, rx)
      case Stop(inFlight) => rx.used + inFlight <= env.maxBytes
      case Next(next) =>
        && next.left == rx.left - 1 && |next.entries| == |rx.entries| + 1
        && next.entries == rx.entries + [next.entries[|rx.entries|]]
        && next.used == TotalBytes(next.entries) <= env.maxBytes
  {
    var turn := EntryStep(env, rx);
    if turn.Next? {
      var e := turn.rx.entries[|rx.entries|];
      TotalAppend(rx.entries, e);
      if !e.info.directory { JoinedWhole(env.feed(|rx.entries|), e.info.size); }
    }
  }

  /** Bytes staged, those of an unfinished file counted as declared. */
  function StagedBytes(o: Outcome): nat {
    TotalBytes(o.entries) + if o.Rejected? then o.inFlight else 0
  }

  /** `receive`: the running digest and byte count are kept as the loop goes, and
      whatever the outcome the staged bytes stay within the limit. */
  method Receive(env: Env) returns (outcome: Outcome)
    ensures outcome == Receiving(env)
    ensures StagedBytes(outcome) <= env.maxBytes
  {
    var start := |MAGIC| + 8;
    if |env.conn| < start || env.conn[..|MAGIC|] != MAGIC {
      return Rejected([], 0);
    }
    var count := FromU64(env.conn[|MAGIC|..start]);
    if count > MAX_ENTRIES {
      return Rejected([], 0);
    }
    var rx := Rx(start, count, 0, []);
    var digest: seq<Byte> := [];
    while rx.left > 0
      invariant Continue(env, rx) == Receiving(env)
      invariant digest == EntriesInput(env.h, rx.entries)
      invariant rx.used == TotalBytes(rx.entries) <= env.maxBytes
      decreases rx.left
    {
      TurnAdds(env, rx);
      var turn := EntryStep(env, rx);
      if turn.Stop? {
        return Rejected(rx.entries, turn.inFlight);
      }
      var e := turn.rx.entries[|rx.entries|];
      EntriesAppend(env.h, rx.entries, e);
      digest := digest + EntryInput(env.h, e);
      rx := turn.rx;
    }
    if rx.pos + DIGEST > |env.conn| || env.h(digest) != env.conn[rx.pos..rx.pos + DIGEST] {
      return Rejected(rx.entries, 0);
    }
    return Committed(rx.entries, env.conn[rx.pos..rx.pos + DIGEST]);
  }

  lemma {:induction false} ContinueBounded(env: Env, rx: Rx)
    requires rx.used == TotalBytes(rx.entries) <= env.maxBytes
    ensures StagedBytes(Continue(env, rx)) <= env.maxBytes
    decreases rx.left
  {
    if rx.left > 0 {
      TurnAdds(env, rx);
      var turn := EntryStep(env, rx);
      if turn.Next? { ContinueBounded(env, turn.rx); }
    }
  }

  /** At every moment of the lanes of the file in flight, whatever arrives for it, the
      entries staged before it and the bytes written of it are within the limit. */
  lemma StagedWithinLimit(env: Env, arrivals: seq<seq<Byte>>, lanes: nat, steps: seq<Snapshot>, i: nat)
    requires Receiving(env).Rejected? && i < |steps|
    requires IsReception(arrivals, Receiving(env).inFlight, lanes, steps)
    ensures TotalBytes(Receiving(env).entries) + |steps[i].file| <= env.maxBytes
  {
    var start := |MAGIC| + 8;
    NeverOutgrows(arrivals, Receiving(env).inFlight, lanes, steps, i);
    if |env.conn| >= start { ContinueBounded(env, Rx(start, FromU64(env.conn[|MAGIC|..start]), 0, [])); }
  }

  // ----- What a commit proves -----

  /** Each accepted entry is the meaning of its own header bytes. */
  ghost predicate WellRead(env: Env, e: Entry) {
    && |e.lengthBytes| == 4 && FromU32(e.lengthBytes) == |e.header| <= MAX_HEADER
    && env.parse(e.header) == Some(e.info)
    && |e.content| == e.info.size && (e.info.directory ==> e.content == [])
  }

  lemma TurnReads(env: Env, rx: Rx)
    requires rx.left > 0 && EntryStep(env, rx).Next?
    requires forall i :: 0 <= i < |rx.entries| ==> WellRead(env, rx.entries[i])
    ensures var es := EntryStep(env, rx).rx.entries; forall i :: 0 <= i < |es| ==> WellRead(env, es[i])
  {
    var e := EntryStep(env, rx).rx.entries[|rx.entries|];
    if !e.info.directory { JoinedWhole(env.feed(|rx.entries|), e.info.size); }
    assert WellRead(env, e);
  }

  lemma {:induction false} ContinueReads(env: Env, rx: Rx)
    requires forall i :: 0 <= i < |rx.entries| ==> WellRead(env, rx.entries[i])
    ensures var r := Continue(env, rx);
      && (forall i :: 0 <= i < |r.entries| ==> WellRead(env, r.entries[i]))
      && (r.Committed? ==> env.h(EntriesInput(env.h, r.entries)) == r.digest)
    decreases rx.left
  {
    if rx.left > 0 {
      var turn := EntryStep(env, rx);
      if turn.Next? && turn.rx.left < rx.left {
        TurnReads(env, rx);
        ContinueReads(env, turn.rx);
      }
    }
  }

  predicate FixedLength(h: Hash, x: seq<Byte>) {
    |h(x)| == DIGEST
  }

  ghost predicate Digests(h: Hash) {
    forall x :: FixedLength(h, x)
  }

  ghost predicate RoundTrips(emit: Info -> seq<Byte>, parse: seq<Byte> -> Option<Info>) {
    forall i :: parse(emit(i)) == Some(i)
  }

  /** Two different strings with one hash, at segment g of two files of one size. */
  ghost predicate SegmentsCollide(h: Hash, a: seq<Byte>, b: seq<Byte>, g: nat) {
    && |a| == |b| && g * SEGMENT < |a|
    && SegmentOf(a, g) != SegmentOf(b, g) && h(SegmentOf(a, g)) == h(SegmentOf(b, g))
  }

  lemma {:induction false} HashLength(h: Hash, content: seq<Byte>, g: nat)
    requires Digests(h) && g <= SegmentCount(|content|)
    ensures |Hashes(LaneItemsFrom(h, content, g, 1))| == DIGEST * (SegmentCount(|content|) - g)
    decreases |content| - g
  {
    SegmentCountBounds(|content|, g);
    if g * SEGMENT < |content| {
      HashLength(h, content, g + 1);
      assert FixedLength(h, SegmentOf(content, g));
    }
  }

  /** What is left of a file from segment g on begins with that segment. */
  lemma SegmentFirst(a: seq<Byte>, g: nat)
    requires g * SEGMENT < |a|
    ensures (g + 1) * SEGMENT <= |a| ==> a[g * SEGMENT..] == SegmentOf(a, g) + a[(g + 1) * SEGMENT..]
    ensures (g + 1) * SEGMENT > |a| ==> a[g * SEGMENT..] == SegmentOf(a, g)
  {}

  /** Equal segment hashes mean equal contents, or a collision at some segment. */
  lemma {:induction false} SameHashes(h: Hash, a: seq<Byte>, b: seq<Byte>, g: nat)
    requires Digests(h) && |a| == |b|
    requires Hashes(LaneItemsFrom(h, a, g, 1)) == Hashes(LaneItemsFrom(h, b, g, 1))
    ensures g * SEGMENT <= |a| ==> a[g * SEGMENT..] == b[g * SEGMENT..] || exists n :: SegmentsCollide(h, a, b, n)
    decreases |a| - g
  {
    if g * SEGMENT < |a| {
      var x, y := SegmentOf(a, g), SegmentOf(b, g);
      assert FixedLength(h, x) && FixedLength(h, y);
      var ra, rb := LaneItemsFrom(h, a, g + 1, 1), LaneItemsFrom(h, b, g + 1, 1);
      assert LaneItemsFrom(h, a, g, 1)[1..] == ra && LaneItemsFrom(h, b, g, 1)[1..] == rb;
      SplitEqual(h(x), Hashes(ra), h(y), Hashes(rb));
      SameHashes(h, a, b, g + 1);
      if x != y {
        assert SegmentsCollide(h, a, b, g);
      } else {
        SegmentFirst(a, g);
        SegmentFirst(b, g);
      }
    }
  }

  lemma SplitEqual(a: seq<Byte>, b: seq<Byte>, c: seq<Byte>, d: seq<Byte>)
    requires |a| == |c| && a + b == c + d
    ensures a == c && b == d
  {
    assert a == (a + b)[..|a|] && c == (c + d)[..|c|];
    assert b == (a + b)[|a|..] && d == (c + d)[|c|..];
  }

  /** One entry of the digest input determines its header and its hashes, and so
      leaves the rest of the input. */
  lemma EntryDecodes(h: Hash, emit: Info -> seq<Byte>, env: Env, n: Node, e: Entry, rest: seq<Byte>, rest': seq<Byte>)
    requires Digests(h) && RoundTrips(emit, env.parse) && ValidNode(n) && WellRead(env, e)
    requires |emit(InfoOf(n))| <= MAX_HEADER
    requires NodeInput(h, emit, n) + rest == EntryInput(h, e) + rest'
    ensures e.info == InfoOf(n) && rest == rest'
    ensures FileHashes(h, n.directory, n.content) == FileHashes(h, e.info.directory, e.content)
  {
    var header := emit(InfoOf(n));
    var fn, fe := FileHashes(h, n.directory, n.content), FileHashes(h, e.info.directory, e.content);
    assert Framed(header) + fn + rest == U32(|header|) + (header + (fn + rest));
    assert e.lengthBytes + e.header + fe + rest' == e.lengthBytes + (e.header + (fe + rest'));
    SplitEqual(U32(|header|), header + (fn + rest), e.lengthBytes, e.header + (fe + rest'));
    U32RoundTrip(|header|);
    SplitEqual(header, fn + rest, e.header, fe + rest');
    assert env.parse(emit(InfoOf(n))) == Some(InfoOf(n));
    if !n.directory {
      HashLength(h, n.content, 0);
      HashLength(h, e.content, 0);
    }
    SplitEqual(fn, rest, fe, rest');
  }

  ghost predicate Agree(h: Hash, n: Node, e: Entry) {
    e.info == InfoOf(n) && FileHashes(h, n.directory, n.content) == FileHashes(h, e.info.directory, e.content)
  }

  /** The digest input is uniquely decodable: equal inputs have equal headers, in
      number and order, and equal segment hashes for every file. */
  lemma {:induction false} UniquelyDecodable(
    h: Hash, emit: Info -> seq<Byte>, env: Env, nodes: seq<Node>, es: seq<Entry>)
    requires Digests(h) && RoundTrips(emit, env.parse)
    requires forall i :: 0 <= i < |nodes| ==> ValidNode(nodes[i]) && |emit(InfoOf(nodes[i]))| <= MAX_HEADER
    requires forall i :: 0 <= i < |es| ==> WellRead(env, es[i])
    requires TreeInput(h, emit, nodes) == EntriesInput(h, es)
    ensures |nodes| == |es| && forall i :: 0 <= i < |es| ==> Agree(h, nodes[i], es[i])
  {
    BothEmpty(h, emit, env, nodes, es);
    if nodes != [] {
      EntryDecodes(h, emit, env, nodes[0], es[0], TreeInput(h, emit, nodes[1..]), EntriesInput(h, es[1..]));
      UniquelyDecodable(h, emit, env, nodes[1..], es[1..]);
      AgreeCons(h, nodes, es);
    }
  }

  lemma BothEmpty(h: Hash, emit: Info -> seq<Byte>, env: Env, nodes: seq<Node>, es: seq<Entry>)
    requires TreeInput(h, emit, nodes) == EntriesInput(h, es) && (es != [] ==> WellRead(env, es[0]))
    ensures nodes == [] <==> es == []
  {
    if nodes != [] { assert |TreeInput(h, emit, nodes)| >= 4; }
    if es != [] { assert |EntriesInput(h, es)| >= 4; }
  }

  lemma AgreeCons(h: Hash, nodes: seq<Node>, es: seq<Entry>)
    requires |nodes| == |es| > 0 && Agree(h, nodes[0], es[0])
    requires forall i :: 0 <= i < |es[1..]| ==> Agree(h, nodes[1..][i], es[1..][i])
    ensures forall i :: 0 <= i < |es| ==> Agree(h, nodes[i], es[i])
  {
    forall i | 0 <= i < |es| ensures Agree(h, nodes[i], es[i]) {
      if i > 0 { assert Agree(h, nodes[1..][i - 1], es[1..][i - 1]); }
    }
  }

  /** Two different strings, both hashed in this transfer, with one hash. */
  ghost predicate Collision(h: Hash, emit: Info -> seq<Byte>, nodes: seq<Node>, es: seq<Entry>) {
    || (TreeInput(h, emit, nodes) != EntriesInput(h, es) && h(TreeInput(h, emit, nodes)) == h(EntriesInput(h, es)))
    || exists i :: 0 <= i < |nodes| && i < |es| && FilesCollide(h, nodes[i].content, es[i].content)
  }

  ghost predicate FilesCollide(h: Hash, a: seq<Byte>, b: seq<Byte>) {
    exists g :: SegmentsCollide(h, a, b, g)
  }

  lemma AgreedEntry(env: Env, n: Node, e: Entry)
    requires Digests(env.h) && Agree(env.h, n, e) && WellRead(env, e) && ValidNode(n)
    ensures Staged(e) == n || FilesCollide(env.h, n.content, e.content)
  {
    if !n.directory {
      SameHashes(env.h, n.content, e.content, 0);
      assert n.content[0..] == n.content && e.content[0..] == e.content;
    }
  }

  /** The destination is renamed into place only if its tree is the sent one, given
      that the digest came through; the only way out is a collision among the strings
      hashed in this very transfer. Every other byte on every connection may have
      been altered, dropped or reordered. */
  lemma CommitMeansSameTree(env: Env, emit: Info -> seq<Byte>, nodes: seq<Node>)
    requires Digests(env.h) && RoundTrips(emit, env.parse)
    requires forall i :: 0 <= i < |nodes| ==> ValidNode(nodes[i]) && |emit(InfoOf(nodes[i]))| <= MAX_HEADER
    requires Receiving(env).Committed?
    requires Receiving(env).digest == env.h(TreeInput(env.h, emit, nodes))
    ensures StagedTree(Receiving(env).entries) == nodes || Collision(env.h, emit, nodes, Receiving(env).entries)
  {
    var start := |MAGIC| + 8;
    var es := Receiving(env).entries;
    ContinueReads(env, Rx(start, FromU64(env.conn[|MAGIC|..start]), 0, []));
    if !Collision(env.h, emit, nodes, es) {
      UniquelyDecodable(env.h, emit, env, nodes, es);
      forall i | 0 <= i < |es| ensures Staged(es[i]) == nodes[i] {
        assert Agree(env.h, nodes[i], es[i]);
        AgreedEntry(env, nodes[i], es[i]);
      }
    }
  }

  // ----- What an undisturbed transfer does -----

  function HonestEntry(emit: Info -> seq<Byte>, n: Node): Entry {
    Entry(U32(|emit(InfoOf(n))|), emit(InfoOf(n)), InfoOf(n), n.content)
  }

  function HonestEntries(emit: Info -> seq<Byte>, nodes: seq<Node>): (es: seq<Entry>)
    ensures |es| == |nodes| && forall i :: 0 <= i < |nodes| ==> es[i] == HonestEntry(emit, nodes[i])
  {
    seq(|nodes|, i requires 0 <= i < |nodes| => HonestEntry(emit, nodes[i]))
  }

  function TreeBytes(nodes: seq<Node>): nat {
    if nodes == [] then 0 else |nodes[0].content| + TreeBytes(nodes[1..])
  }

  lemma {:induction false} HonestInput(h: Hash, emit: Info -> seq<Byte>, nodes: seq<Node>)
    ensures EntriesInput(h, HonestEntries(emit, nodes)) == TreeInput(h, emit, nodes)
  {
    if nodes != [] {
      HonestInput(h, emit, nodes[1..]);
      assert HonestEntries(emit, nodes)[1..] == HonestEntries(emit, nodes[1..]);
    }
  }

  /** The tree the sender may send: what `send` and `receive` together accept. */
  ghost predicate Sendable(env: Env, emit: Info -> seq<Byte>, nodes: seq<Node>) {
    && |nodes| <= MAX_ENTRIES && TreeBytes(nodes) <= env.maxBytes
    && (forall i :: 0 <= i < |nodes| ==> ValidNode(nodes[i]) && |emit(InfoOf(nodes[i]))| <= MAX_HEADER)
    && (forall i :: 0 <= i < |nodes| ==> env.safe(nodes[i].path))
    && (forall i, j :: 0 <= i < j < |nodes| ==> nodes[i].path != nodes[j].path)
  }

  /** The receiver's loop after k entries of an undisturbed stream. */
  ghost predicate OnTrack(env: Env, emit: Info -> seq<Byte>, nodes: seq<Node>, k: nat, rx: Rx)
    requires k <= |nodes|
  {
    && rx.pos <= |env.conn|
    && env.conn[rx.pos..] == Frames(emit, nodes[k..]) + env.h(TreeInput(env.h, emit, nodes))
    && rx.left == |nodes| - k && rx.used + TreeBytes(nodes[k..]) <= env.maxBytes
    && rx.entries == HonestEntries(emit, nodes[..k])
  }

  lemma ReadsFrame(conn: seq<Byte>, pos: nat, header: seq<Byte>, rest: seq<Byte>)
    requires pos <= |conn| && conn[pos..] == Framed(header) + rest && |header| <= MAX_HEADER
    ensures pos + 4 + |header| <= |conn|
    ensures conn[pos..pos + 4] == U32(|header|) && FromU32(conn[pos..pos + 4]) == |header|
    ensures conn[pos + 4..pos + 4 + |header|] == header
    ensures conn[pos + 4 + |header|..] == rest
  {
    var tail := conn[pos..];
    assert tail == U32(|header|) + (header + rest);
    assert conn[pos..pos + 4] == tail[..4];
    assert conn[pos + 4..pos + 4 + |header|] == tail[4..4 + |header|];
    assert conn[pos + 4 + |header|..] == tail[4 + |header|..];
    U32RoundTrip(|header|);
  }

  lemma FramesTail(emit: Info -> seq<Byte>, nodes: seq<Node>, k: nat, digest: seq<Byte>)
    requires k < |nodes|
    ensures Frames(emit, nodes[k..]) + digest
         == Framed(emit(InfoOf(nodes[k]))) + (Frames(emit, nodes[k + 1..]) + digest)
  {
    assert nodes[k..][1..] == nodes[k + 1..];
    Reassociate(Framed(emit(InfoOf(nodes[k]))), Frames(emit, nodes[k + 1..]), digest);
  }

  lemma HonestBytes(nodes: seq<Node>, k: nat)
    requires k < |nodes|
    ensures TreeBytes(nodes[k..]) == |nodes[k].content| + TreeBytes(nodes[k + 1..])
  {
    assert nodes[k..][1..] == nodes[k + 1..];
  }

  /** The receiver accepts a frame with a valid node of a new path. */
  lemma AcceptsNode(env: Env, rx: Rx, header: seq<Byte>, n: Node)
    requires rx.left > 0 && rx.pos + 4 + |header| <= |env.conn| && |header| <= MAX_HEADER
    requires FromU32(env.conn[rx.pos..rx.pos + 4]) == |header|
    requires env.conn[rx.pos + 4..rx.pos + 4 + |header|] == header
    requires env.parse(header) == Some(InfoOf(n)) && ValidNode(n) && env.safe(n.path)
    requires rx.used + |n.content| <= env.maxBytes && !PathTaken(rx.entries, n.path)
    requires env.feed(|rx.entries|) == SegmentsOf(n.content)
    ensures EntryStep(env, rx)
         == Next(Rx(rx.pos + 4 + |header|, rx.left - 1, rx.used + |n.content|,
                    rx.entries + [Entry(env.conn[rx.pos..rx.pos + 4], header, InfoOf(n), n.content)]))
  {
    assert !FileThere(rx.entries, n.path);
    SegmentsJoin(n.content);
  }

  lemma NewPath(emit: Info -> seq<Byte>, nodes: seq<Node>, k: nat)
    requires k < |nodes| && forall i, j :: 0 <= i < j < |nodes| ==> nodes[i].path != nodes[j].path
    ensures !PathTaken(HonestEntries(emit, nodes[..k]), nodes[k].path)
  {}

  /** One turn of the receiver's loop on an undisturbed stream. */
  lemma HonestAccept(env: Env, emit: Info -> seq<Byte>, nodes: seq<Node>, k: nat, rx: Rx, tail: seq<Byte>)
    requires RoundTrips(emit, env.parse) && Sendable(env, emit, nodes) && k < |nodes|
    requires rx.pos <= |env.conn| && env.conn[rx.pos..] == Framed(emit(InfoOf(nodes[k]))) + tail
    requires rx.left > 0 && rx.used + |nodes[k].content| <= env.maxBytes
    requires env.feed(|rx.entries|) == SegmentsOf(nodes[k].content)
    requires !PathTaken(rx.entries, nodes[k].path)
    ensures var pos := rx.pos + 4 + |emit(InfoOf(nodes[k]))|;
            && pos <= |env.conn| && env.conn[pos..] == tail
            && EntryStep(env, rx) == Next(Rx(pos, rx.left - 1, rx.used + |nodes[k].content|,
                                             rx.entries + [HonestEntry(emit, nodes[k])]))
  {
    var n := nodes[k];
    ReadsFrame(env.conn, rx.pos, emit(InfoOf(n)), tail);
    assert env.parse(emit(InfoOf(n))) == Some(InfoOf(n));
    AcceptsNode(env, rx, emit(InfoOf(n)), n);
  }

  lemma HonestStep(env: Env, emit: Info -> seq<Byte>, nodes: seq<Node>, k: nat, rx: Rx)
    requires RoundTrips(emit, env.parse) && Sendable(env, emit, nodes)
    requires forall i :: 0 <= i < |nodes| ==> env.feed(i) == SegmentsOf(nodes[i].content)
    requires k < |nodes| && OnTrack(env, emit, nodes, k, rx)
    ensures EntryStep(env, rx).Next? && OnTrack(env, emit, nodes, k + 1, EntryStep(env, rx).rx)
  {
    var digest := env.h(TreeInput(env.h, emit, nodes));
    FramesTail(emit, nodes, k, digest);
    HonestBytes(nodes, k);
    NewPath(emit, nodes, k);
    HonestAccept(env, emit, nodes, k, rx, Frames(emit, nodes[k + 1..]) + digest);
    HonestEntriesGrow(emit, nodes, k);
  }

  lemma HonestEntriesGrow(emit: Info -> seq<Byte>, nodes: seq<Node>, k: nat)
    requires k < |nodes|
    ensures HonestEntries(emit, nodes[..k + 1]) == HonestEntries(emit, nodes[..k]) + [HonestEntry(emit, nodes[k])]
  {}

  lemma {:induction false} HonestRun(env: Env, emit: Info -> seq<Byte>, nodes: seq<Node>, k: nat, rx: Rx)
    requires Digests(env.h) && RoundTrips(emit, env.parse) && Sendable(env, emit, nodes)
    requires forall i :: 0 <= i < |nodes| ==> env.feed(i) == SegmentsOf(nodes[i].content)
    requires k <= |nodes| && OnTrack(env, emit, nodes, k, rx)
    ensures Continue(env, rx) == Committed(HonestEntries(emit, nodes), env.h(TreeInput(env.h, emit, nodes)))
    decreases |nodes| - k
  {
    if k == |nodes| {
      assert nodes[..k] == nodes;
      HonestInput(env.h, emit, nodes);
      assert FixedLength(env.h, TreeInput(env.h, emit, nodes));
      assert env.conn[rx.pos..rx.pos + DIGEST] == env.conn[rx.pos..][..DIGEST];
    } else {
      HonestStep(env, emit, nodes, k, rx);
      HonestRun(env, emit, nodes, k + 1, EntryStep(env, rx).rx);
    }
  }

  lemma ReadsPreamble(conn: seq<Byte>, count: nat, body: seq<Byte>)
    requires conn == MAGIC + U64(count) + body && count <= MAX_ENTRIES
    ensures |conn| >= |MAGIC| + 8 && conn[..|MAGIC|] == MAGIC
    ensures conn[|MAGIC|..|MAGIC| + 8] == U64(count) && FromU64(conn[|MAGIC|..|MAGIC| + 8]) == count
    ensures conn[|MAGIC| + 8..] == body
  {
    U64RoundTrip(count);
  }

  lemma ReceivingStarts(env: Env, count: nat, body: seq<Byte>)
    requires env.conn == MAGIC + U64(count) + body && count <= MAX_ENTRIES
    ensures Receiving(env) == Continue(env, Rx(|MAGIC| + 8, count, 0, []))
  {
    ReadsPreamble(env.conn, count, body);
  }

  lemma HonestStaged(emit: Info -> seq<Byte>, nodes: seq<Node>)
    requires forall i :: 0 <= i < |nodes| ==> ValidNode(nodes[i])
    ensures StagedTree(HonestEntries(emit, nodes)) == nodes
  {
    forall i | 0 <= i < |nodes| ensures Staged(HonestEntry(emit, nodes[i])) == nodes[i] {
      assert ValidNode(nodes[i]);
    }
  }

  /** Round trip: an undisturbed transfer of an acceptable tree is committed and
      stages exactly that tree. */
  lemma UndisturbedTransferCommits(env: Env, emit: Info -> seq<Byte>, nodes: seq<Node>)
    requires Digests(env.h) && RoundTrips(emit, env.parse) && Sendable(env, emit, nodes)
    requires env.conn == Send(env.h, emit, nodes)
    requires forall i :: 0 <= i < |nodes| ==> env.feed(i) == SegmentsOf(nodes[i].content)
    ensures Receiving(env).Committed? && StagedTree(Receiving(env).entries) == nodes
  {
    var body := Frames(emit, nodes) + env.h(TreeInput(env.h, emit, nodes));
    assert env.conn == MAGIC + U64(|nodes|) + body;
    ReceivingStarts(env, |nodes|, body);
    var rx := Rx(|MAGIC| + 8, |nodes|, 0, []);
    assert OnTrack(env, emit, nodes, 0, rx) by {
      ReadsPreamble(env.conn, |nodes|, body);
      assert nodes[0..] == nodes && nodes[..0] == [];
    }
    HonestRun(env, emit, nodes, 0, rx);
    HonestStaged(emit, nodes);
  }

  // ----- Exactly which streams are committed -----

  /** Where the entries begin. */
  const START: nat := |MAGIC| + 8

  function EntryBytes(e: Entry): seq<Byte> {
    e.lengthBytes + e.header
  }

  function AllBytes(es: seq<Entry>): seq<Byte> {
    if es == [] then [] else EntryBytes(es[0]) + AllBytes(es[1..])
  }

  /** The bytes of an entry are a header of the announced and allowed length. */
  ghost predicate WellFramed(e: Entry) {
    |e.lengthBytes| == 4 && FromU32(e.lengthBytes) == |e.header| <= MAX_HEADER
  }

  /** No entry before has the path; for a directory, no file before. */
  ghost predicate PathFree(before: seq<Entry>, info: Info) {
    forall i :: 0 <= i < |before| && before[i].info.path == info.path ==>
      info.directory && before[i].info.directory
  }

  /** The entry may follow those before it: a parsed header with a safe path that is free,
      a size within what is left of the limit, and exactly the announced data. */
  ghost predicate MayFollow(env: Env, before: seq<Entry>, e: Entry) {
    && WellFramed(e) && env.parse(e.header) == Some(e.info)
    && env.safe(e.info.path) && PathFree(before, e.info)
    && e.info.size >= 0 && TotalBytes(before) + e.info.size <= env.maxBytes
    && (e.info.directory ==> e.info.size == 0 && e.content == [])
    && (!e.info.directory ==> Accepted(env.feed(|before|), e.info.size) && e.content == Concat(env.feed(|before|)))
  }

  ghost predicate AllMayFollow(env: Env, es: seq<Entry>) {
    forall k {:trigger es[..k]} :: 0 <= k < |es| ==> MayFollow(env, es[..k], es[k])
  }

  /** The control stream: magic, count, that many entries, and their digest. What comes
      behind the digest is not read. */
  ghost predicate GoodStream(env: Env, es: seq<Entry>, digest: seq<Byte>) {
    && |env.conn| >= START && env.conn[..|MAGIC|] == MAGIC && FromU64(env.conn[|MAGIC|..START]) == |es|
    && AllBytes(es) + digest <= env.conn[START..]
    && |es| <= MAX_ENTRIES && AllMayFollow(env, es)
    && |digest| == DIGEST && digest == env.h(EntriesInput(env.h, es))
  }

  function AfterEntry(rx: Rx, e: Entry): Rx
    requires rx.left > 0
  {
    Rx(rx.pos + |EntryBytes(e)|, rx.left - 1, rx.used + |e.content|, rx.entries + [e])
  }

  lemma PathFreeMeans(before: seq<Entry>, info: Info)
    ensures PathFree(before, info)
       <==> if info.directory then !FileThere(before, info.path) else !PathTaken(before, info.path)
  {}

  /** Whatever the receiver takes may follow and is what stands on the stream. */
  lemma TakesOnlyGood(env: Env, rx: Rx)
    requires rx.left > 0 && rx.used == TotalBytes(rx.entries) && EntryStep(env, rx).Next?
    ensures var next := EntryStep(env, rx).rx;
      && |next.entries| == |rx.entries| + 1
      && var e := next.entries[|rx.entries|];
         && next == AfterEntry(rx, e) && MayFollow(env, rx.entries, e)
         && next.pos <= |env.conn| && env.conn[rx.pos..next.pos] == EntryBytes(e)
         && EntryBytes(e) <= env.conn[rx.pos..]
  {
    var next := EntryStep(env, rx).rx;
    var e := next.entries[|rx.entries|];
    PathFreeMeans(rx.entries, e.info);
    if !e.info.directory { JoinedWhole(env.feed(|rx.entries|), e.info.size); }
    assert env.conn[rx.pos..next.pos] == env.conn[rx.pos..rx.pos + 4] + env.conn[rx.pos + 4..next.pos];
    assert env.conn[rx.pos..][..next.pos - rx.pos] == env.conn[rx.pos..next.pos];
  }

  lemma SliceStarts(conn: seq<Byte>, pos: nat, a: seq<Byte>, b: seq<Byte>)
    requires pos <= |conn| && a + b <= conn[pos..]
    ensures pos + |a| + |b| <= |conn|
    ensures conn[pos..pos + |a|] == a && conn[pos + |a|..pos + |a| + |b|] == b
  {
    var t := conn[pos..];
    assert t[..|a| + |b|] == a + b;
    assert conn[pos..pos + |a|] == t[..|a|] && conn[pos + |a|..pos + |a| + |b|] == t[|a|..|a| + |b|];
    assert t[..|a|] == (a + b)[..|a|] && t[|a|..|a| + |b|] == (a + b)[|a|..];
  }

  /** Whatever stands on the stream and may follow is taken. */
  lemma TakesAllGood(env: Env, rx: Rx, e: Entry)
    requires rx.left > 0 && rx.used == TotalBytes(rx.entries) && rx.pos <= |env.conn|
    requires MayFollow(env, rx.entries, e) && EntryBytes(e) <= env.conn[rx.pos..]
    ensures EntryStep(env, rx) == Next(AfterEntry(rx, e))
  {
    SliceStarts(env.conn, rx.pos, e.lengthBytes, e.header);
    PathFreeMeans(rx.entries, e.info);
    if !e.info.directory { JoinedWhole(env.feed(|rx.entries|), e.info.size); }
  }

  lemma {:induction false} AllBytesAppend(es: seq<Entry>, e: Entry)
    ensures AllBytes(es + [e]) == AllBytes(es) + EntryBytes(e)
  {
    if es == [] {
      assert es + [e] == [e];
      assert AllBytes([e]) == EntryBytes(e) + AllBytes([]);
    } else {
      AllBytesAppend(es[1..], e);
      assert (es + [e])[1..] == es[1..] + [e];
      Reassociate(EntryBytes(es[0]), AllBytes(es[1..]), EntryBytes(e));
    }
  }

  /** The receiver's loop is at a place it can be: behind the entries it has taken. */
  ghost predicate Standing(env: Env, start: nat, rx: Rx) {
    && rx.used == TotalBytes(rx.entries) && AllMayFollow(env, rx.entries)
    && start <= rx.pos <= |env.conn| && env.conn[start..rx.pos] == AllBytes(rx.entries)
  }

  lemma AllMayFollowAppend(env: Env, es: seq<Entry>, e: Entry)
    requires AllMayFollow(env, es) && MayFollow(env, es, e)
    ensures AllMayFollow(env, es + [e])
  {
    forall k | 0 <= k < |es| + 1 ensures MayFollow(env, (es + [e])[..k], (es + [e])[k]) {
      assert (es + [e])[..k] == es[..k];
      assert es[..|es|] == es;
    }
  }

  lemma StandsOn(env: Env, start: nat, rx: Rx)
    requires rx.left > 0 && Standing(env, start, rx) && EntryStep(env, rx).Next?
    ensures Standing(env, start, EntryStep(env, rx).rx) && EntryStep(env, rx).rx.left == rx.left - 1
  {
    TakesOnlyGood(env, rx);
    var next := EntryStep(env, rx).rx;
    var e := next.entries[|rx.entries|];
    AllMayFollowAppend(env, rx.entries, e);
    AllBytesAppend(rx.entries, e);
    TotalAppend(rx.entries, e);
    assert env.conn[start..next.pos] == env.conn[start..rx.pos] + env.conn[rx.pos..next.pos];
  }

  /** Whatever the outcome, the entries staged may all follow one another; a commit has
      them all and their digest. */
  lemma {:induction false} ContinueMeans(env: Env, start: nat, rx: Rx)
    requires Standing(env, start, rx)
    ensures var r := Continue(env, rx);
      && AllMayFollow(env, r.entries)
      && (r.Committed? ==>
            && |r.entries| == |rx.entries| + rx.left && |r.digest| == DIGEST
            && r.digest == env.h(EntriesInput(env.h, r.entries))
            && start + |AllBytes(r.entries)| + DIGEST <= |env.conn|
            && env.conn[start..start + |AllBytes(r.entries)| + DIGEST] == AllBytes(r.entries) + r.digest)
    decreases rx.left
  {
    if rx.left > 0 {
      if EntryStep(env, rx).Next? {
        StandsOn(env, start, rx);
        ContinueMeans(env, start, EntryStep(env, rx).rx);
      }
    } else if rx.pos + DIGEST <= |env.conn| {
      assert env.conn[start..rx.pos + DIGEST] == env.conn[start..rx.pos] + env.conn[rx.pos..rx.pos + DIGEST];
    }
  }

  lemma {:induction false} AllBytesPrefix(es: seq<Entry>, k: nat)
    requires k <= |es|
    ensures AllBytes(es[..k]) <= AllBytes(es)
    decreases |es| - k
  {
    if k == |es| {
      assert es[..k] == es;
    } else {
      AllBytesPrefix(es, k + 1);
      AllBytesAt(es, k);
      PrefixThrough(AllBytes(es[..k]), AllBytes(es[..k + 1]), AllBytes(es));
    }
  }

  lemma AllBytesAt(es: seq<Entry>, k: nat)
    requires k < |es|
    ensures AllBytes(es[..k + 1]) == AllBytes(es[..k]) + EntryBytes(es[k])
  {
    var p := es[..k];
    AllBytesAppend(p, es[k]);
    assert es[..k + 1] == p + [es[k]];
  }

  lemma PrefixThrough(a: seq<Byte>, b: seq<Byte>, c: seq<Byte>)
    requires a <= b && b <= c
    ensures a <= c
  {}

  lemma OneMoreEntry(es: seq<Entry>, n: nat)
    requires n < |es|
    ensures AllBytes(es[..n]) + EntryBytes(es[n]) <= AllBytes(es)
  {
    AllBytesPrefix(es, n + 1);
    AllBytesAt(es, n);
  }

  /** The next entry of a list stands behind those before it. */
  lemma NextStands(conn: seq<Byte>, start: nat, pos: nat, es: seq<Entry>, n: nat)
    requires n < |es| && start <= pos <= |conn| && conn[start..pos] == AllBytes(es[..n])
    requires AllBytes(es) <= conn[start..]
    ensures EntryBytes(es[n]) <= conn[pos..]
  {
    OneMoreEntry(es, n);
    PrefixThrough(AllBytes(es[..n]) + EntryBytes(es[n]), AllBytes(es), conn[start..]);
    Behind(conn, start, pos, EntryBytes(es[n]));
  }

  /** What stands behind a part of the stream. */
  lemma Behind(conn: seq<Byte>, start: nat, pos: nat, b: seq<Byte>)
    requires start <= pos <= |conn| && conn[start..pos] + b <= conn[start..]
    ensures b <= conn[pos..]
  {
    SliceStarts(conn, start, conn[start..pos], b);
    assert conn[pos..][..|b|] == conn[pos..pos + |b|];
  }

  /** The receiver takes the next entry of a good list. */
  lemma TakesNext(env: Env, start: nat, rx: Rx, es: seq<Entry>, digest: seq<Byte>)
    requires Standing(env, start, rx) && rx.left > 0 && |rx.entries| < |es| && rx.entries == es[..|rx.entries|]
    requires AllMayFollow(env, es) && AllBytes(es) + digest <= env.conn[start..]
    ensures var t := AfterEntry(rx, es[|rx.entries|]);
      && EntryStep(env, rx) == Next(t) && Standing(env, start, t)
      && t.left == rx.left - 1 && t.entries == es[..|t.entries|]
  {
    var n := |rx.entries|;
    PrefixThrough(AllBytes(es), AllBytes(es) + digest, env.conn[start..]);
    NextStands(env.conn, start, rx.pos, es, n);
    assert MayFollow(env, es[..n], es[n]);
    TakesAllGood(env, rx, es[n]);
    StandsOn(env, start, rx);
    assert es[..n + 1] == es[..n] + [es[n]];
  }

  lemma {:induction false} ContinueTakes(env: Env, start: nat, rx: Rx, es: seq<Entry>, digest: seq<Byte>)
    requires Standing(env, start, rx) && |es| == |rx.entries| + rx.left && rx.entries == es[..|rx.entries|]
    requires AllMayFollow(env, es) && AllBytes(es) + digest <= env.conn[start..]
    requires |digest| == DIGEST && digest == env.h(EntriesInput(env.h, es))
    ensures Continue(env, rx) == Committed(es, digest)
    decreases rx.left
  {
    if rx.left == 0 {
      assert rx.entries == es;
      SliceStarts(env.conn, start, AllBytes(es), digest);
    } else {
      TakesNext(env, start, rx, es, digest);
      ContinueTakes(env, start, AfterEntry(rx, es[|rx.entries|]), es, digest);
    }
  }

  lemma StandsAtStart(env: Env, count: nat)
    requires |env.conn| >= START
    ensures Standing(env, START, Rx(START, count, 0, []))
  {
    assert env.conn[START..START] == [];
  }

  /** A transfer is committed with these entries and this digest if and only if the
      control stream is their magic, count, frames and digest, and each of them may
      follow those before it. */
  lemma CommittedExactly(env: Env, es: seq<Entry>, digest: seq<Byte>)
    ensures Receiving(env) == Committed(es, digest) <==> GoodStream(env, es, digest)
  {
    if |env.conn| >= START && env.conn[..|MAGIC|] == MAGIC {
      var count := FromU64(env.conn[|MAGIC|..START]);
      var rx := Rx(START, count, 0, []);
      StandsAtStart(env, count);
      if count <= MAX_ENTRIES {
        ContinueMeans(env, START, rx);
        if Continue(env, rx) == Committed(es, digest) {
          var n := |AllBytes(es)| + DIGEST;
          assert env.conn[START..][..n] == env.conn[START..START + n];
        }
        if GoodStream(env, es, digest) {
          assert es[..0] == [];
          ContinueTakes(env, START, rx, es, digest);
        }
      }
    }
  }

  /** Whatever the outcome, every entry staged had a parsed header of allowed length, a
      safe path that was free, and exactly the data it announced, within the limit. */
  lemma StagedMayFollow(env: Env)
    ensures AllMayFollow(env, Receiving(env).entries)
  {
    if |env.conn| >= START && env.conn[..|MAGIC|] == MAGIC {
      var count := FromU64(env.conn[|MAGIC|..START]);
      StandsAtStart(env, count);
      ContinueMeans(env, START, Rx(START, count, 0, []));
    }
  }

  /** So no path is staged that is unsafe, and none twice unless both are directories. */
  lemma StagedPaths(env: Env, i: nat, j: nat)
    requires i < |Receiving(env).entries| && j < |Receiving(env).entries|
    ensures env.safe(Receiving(env).entries[i].info.path)
    ensures i != j && Receiving(env).entries[i].info.path == Receiving(env).entries[j].info.path ==>
              Receiving(env).entries[i].info.directory && Receiving(env).entries[j].info.directory
  {
    StagedMayFollow(env);
    var es := Receiving(env).entries;
    assert MayFollow(env, es[..i], es[i]) && MayFollow(env, es[..j], es[j]);
    if i < j {
      assert es[..j][i] == es[i];
    } else if j < i {
      assert es[..i][j] == es[j];
    }
  }

  /** A stream with another magic or too many entries stages nothing. */
  lemma BadStartRefused(env: Env)
    requires |env.conn| < START || env.conn[..|MAGIC|] != MAGIC || FromU64(env.conn[|MAGIC|..START]) > MAX_ENTRIES
    ensures Receiving(env) == Rejected([], 0)
  {}

  /** An entry that may not follow those taken ends the transfer there: an oversized or
      unparsable header, an unsafe or taken path, a size above the limit, other data. */
  lemma BadEntryRefused(env: Env, rx: Rx)
    requires rx.left > 0 && rx.used == TotalBytes(rx.entries) && rx.pos <= |env.conn|
    requires forall e :: EntryBytes(e) <= env.conn[rx.pos..] ==> !MayFollow(env, rx.entries, e)
    ensures Continue(env, rx).Rejected? && Continue(env, rx).entries == rx.entries
  {
    if EntryStep(env, rx).Next? { TakesOnlyGood(env, rx); }
  }
}
