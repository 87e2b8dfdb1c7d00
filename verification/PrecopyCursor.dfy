/** Reserving source pages during final validation (`cr-dump.c`): each worker caches
    where its last page was found in the frozen catalogue of memory areas. */
module PrecopyCursor {
  import opened Bitmap
  import opened Options

  const PAGE_SIZE: nat := 4096

  datatype Area = Area(start: nat, end: nat, lazy: bool, prot: nat)
  datatype Task = Task(pid: nat, areas: seq<Area>)

  /** A bit of the bitmap of one area of one task. */
  datatype Page = Page(task: nat, area: nat, bit: nat)

  predicate Contains(a: Area, address: nat) { a.start <= address < a.end }

  /** What the kernel guarantees of the areas of one task. */
  ghost predicate Disjoint(areas: seq<Area>) {
    forall u, v, x: nat :: 0 <= u < v < |areas| && Contains(areas[u], x) ==> !Contains(areas[v], x)
  }

  ghost predicate WellFormed(cat: seq<Task>) {
    forall i :: 0 <= i < |cat| ==>
      && Disjoint(cat[i].areas)
      && forall v :: 0 <= v < |cat[i].areas| ==>
           var a := cat[i].areas[v];
           a.start < a.end && a.start % PAGE_SIZE == 0 && a.end % PAGE_SIZE == 0
  }

  // ----- The full scan -----

  function FindTask(cat: seq<Task>, pid: nat): (i: nat)
    ensures i <= |cat| && (i < |cat| ==> cat[i].pid == pid)
    ensures forall j :: 0 <= j < i ==> cat[j].pid != pid
  {
    if cat == [] || cat[0].pid == pid then 0 else 1 + FindTask(cat[1..], pid)
  }

  function FindArea(areas: seq<Area>, address: nat): (v: nat)
    ensures v <= |areas| && (v < |areas| ==> Contains(areas[v], address))
    ensures forall u :: 0 <= u < v ==> !Contains(areas[u], address)
  {
    if areas == [] || Contains(areas[0], address) then 0 else 1 + FindArea(areas[1..], address)
  }

  /** The page a query reserves, if it may: its area is lazy and accessible. */
  function PageIn(cat: seq<Task>, i: nat, v: nat, address: nat): Option<Page>
    requires i < |cat| && v < |cat[i].areas| && Contains(cat[i].areas[v], address)
  {
    var a := cat[i].areas[v];
    if !a.lazy || a.prot == 0 then None else Some(Page(i, v, (address - a.start) / PAGE_SIZE))
  }

  function Scan(cat: seq<Task>, pid: nat, address: nat): Option<Page> {
    var i := FindTask(cat, pid);
    if i == |cat| then None
    else
      var v := FindArea(cat[i].areas, address);
      if v == |cat[i].areas| then None else PageIn(cat, i, v, address)
  }

  /** A query for this pid and address is for bit p.bit of area p.area of task p.task: that
      task is the first of the pid, the area may be reserved, and the address lies in the
      page of that number. */
  ghost predicate Reserves(cat: seq<Task>, pid: nat, address: nat, p: Page) {
    && p.task < |cat| && cat[p.task].pid == pid && (forall m :: 0 <= m < p.task ==> cat[m].pid != pid)
    && p.area < |cat[p.task].areas|
    && var a := cat[p.task].areas[p.area];
       && a.lazy && a.prot != 0 && address < a.end
       && a.start + p.bit * PAGE_SIZE <= address < a.start + (p.bit + 1) * PAGE_SIZE
  }

  lemma FindTaskIs(cat: seq<Task>, pid: nat, i: nat)
    requires i < |cat| && cat[i].pid == pid && forall m :: 0 <= m < i ==> cat[m].pid != pid
    ensures FindTask(cat, pid) == i
  {
    var j := FindTask(cat, pid);
    assert j <= i;
  }

  /** The full scan finds exactly the page a query is for. */
  lemma ScanMeans(cat: seq<Task>, pid: nat, address: nat, p: Page)
    requires WellFormed(cat)
    ensures Scan(cat, pid, address) == Some(p) <==> Reserves(cat, pid, address, p)
  {
    if Reserves(cat, pid, address, p) {
      FindTaskIs(cat, pid, p.task);
      FindAreaUnique(cat[p.task].areas, address, p.area);
    }
  }

  // ----- The cache -----

  /** -1 for nothing cached. */
  datatype Cursor = Cursor(task: int, area: int)

  const RESET: Cursor := Cursor(-1, -1)

  predicate TaskHit(cat: seq<Task>, c: Cursor, pid: nat) {
    0 <= c.task < |cat| && cat[c.task].pid == pid
  }

  predicate AreaHit(areas: seq<Area>, v: int, address: nat) {
    0 <= v < |areas| && Contains(areas[v], address)
  }

  /** The cursor after a query. */
  function Moved(cat: seq<Task>, c: Cursor, pid: nat, address: nat): (r: Cursor)
  {
    var hit := TaskHit(cat, c, pid);
    var i := if hit then c.task else FindTask(cat, pid);
    if i == |cat| then Cursor(i, -1)
    else if hit && AreaHit(cat[i].areas, c.area, address) then c
    else Cursor(i, FindArea(cat[i].areas, address))
  }

  /** The answer the moved cursor gives. */
  function Answer(cat: seq<Task>, c: Cursor, address: nat): Option<Page> {
    if 0 <= c.task < |cat| && AreaHit(cat[c.task].areas, c.area, address)
    then PageIn(cat, c.task, c.area, address)
    else None
  }

  /** A cached task is the one a scan for its pid would find first. */
  ghost predicate Sound(cat: seq<Task>, c: Cursor) {
    0 <= c.task < |cat| ==> FindTask(cat, cat[c.task].pid) == c.task
  }

  lemma FindAreaUnique(areas: seq<Area>, address: nat, v: nat)
    requires Disjoint(areas) && v < |areas| && Contains(areas[v], address)
    ensures FindArea(areas, address) == v
  {
    var u := FindArea(areas, address);
    assert u <= v;
  }

  /** From any sound cursor, in particular a reset one, a query answers as a full scan
      does and leaves the cursor sound. */
  lemma Transparent(cat: seq<Task>, c: Cursor, pid: nat, address: nat)
    requires WellFormed(cat) && Sound(cat, c)
    ensures Sound(cat, Moved(cat, c, pid, address))
    ensures Answer(cat, Moved(cat, c, pid, address), address) == Scan(cat, pid, address)
  {
    var i := FindTask(cat, pid);
    if i < |cat| {
      var c' := Moved(cat, c, pid, address);
      assert c'.task == i;
      if TaskHit(cat, c, pid) && AreaHit(cat[i].areas, c.area, address) {
        FindAreaUnique(cat[i].areas, address, c.area);
      }
    }
  }

  // ----- Bitmaps -----

  function WordsFor(a: Area): nat
    requires a.start <= a.end
  {
    ((a.end - a.start) / PAGE_SIZE + 63) / 64
  }

  type Bitmaps = seq<seq<seq<Word>>>

  ghost predicate Shaped(cat: seq<Task>, maps: Bitmaps) {
    && |maps| == |cat|
    && forall i :: 0 <= i < |cat| ==>
         && |maps[i]| == |cat[i].areas|
         && forall v :: 0 <= v < |cat[i].areas| ==>
              cat[i].areas[v].start <= cat[i].areas[v].end && |maps[i][v]| == WordsFor(cat[i].areas[v])
  }

  ghost predicate InBounds(maps: Bitmaps, p: Page) {
    p.task < |maps| && p.area < |maps[p.task]| && p.bit < 64 * |maps[p.task][p.area]|
  }

  ghost predicate Marked(maps: Bitmaps, p: Page) {
    InBounds(maps, p) && BitAt(maps[p.task][p.area], p.bit)
  }

  lemma BitFits(a: Area, address: nat)
    requires Contains(a, address) && a.start % PAGE_SIZE == 0 && a.end % PAGE_SIZE == 0
    ensures (address - a.start) / PAGE_SIZE < 64 * WordsFor(a)
  {}

  /** Every page a query can reserve has its bit inside the bitmap of its area. */
  lemma PageInBounds(cat: seq<Task>, maps: Bitmaps, pid: nat, address: nat)
    requires WellFormed(cat) && Shaped(cat, maps) && Scan(cat, pid, address).Some?
    ensures InBounds(maps, Scan(cat, pid, address).value)
  {
    var i := FindTask(cat, pid);
    BitFits(cat[i].areas[FindArea(cat[i].areas, address)], address);
  }

  lemma {:induction false} OneBit(k: nat, j: nat)
    ensures Bit(Pow2(k), j) <==> j == k
  {
    if k == 0 {
      if j > 0 { ZeroBit(j - 1); }
    } else if j > 0 {
      OneBit(k - 1, j - 1);
    }
  }

  /** __atomic_fetch_or(&bitmap[bit / 64], 1UL << (bit % 64)) */
  function FetchOr(ws: seq<Word>, bit: nat): (r: seq<Word>)
    requires bit < 64 * |ws|
    ensures |r| == |ws|
  {
    ws[bit / 64 := OrWord(ws[bit / 64], Shl(1, bit % 64))]
  }

  lemma FetchOrSets(ws: seq<Word>, bit: nat)
    requires bit < 64 * |ws|
    ensures RunSet(ws, FetchOr(ws, bit), bit, bit + 1, true)
  {
    var p, k := bit / 64, bit % 64;
    ShiftedOne(k);
    forall j: nat | j < 64 ensures Bit(Shl(1, k), j) <==> k <= j < k + 1 { OneBit(k, j); }
    RunGrows(ws, ws, p, Shl(1, k), k, k + 1, bit, true);
  }

  function Mark(maps: Bitmaps, p: Page): Bitmaps
    requires p.task < |maps| && p.area < |maps[p.task]| && p.bit < 64 * |maps[p.task][p.area]|
  {
    maps[p.task := maps[p.task][p.area := FetchOr(maps[p.task][p.area], p.bit)]]
  }

  lemma MarkMarks(maps: Bitmaps, p: Page, q: Page)
    requires InBounds(maps, p)
    ensures InBounds(Mark(maps, p), q) <==> InBounds(maps, q)
    ensures Marked(Mark(maps, p), q) <==> q == p || Marked(maps, q)
  {
    if InBounds(maps, q) && q.task == p.task && q.area == p.area {
      var ws := maps[p.task][p.area];
      FetchOrSets(ws, p.bit);
      assert BitAt(FetchOr(ws, p.bit), q.bit) == if p.bit <= q.bit < p.bit + 1 then true else BitAt(ws, q.bit);
    }
  }

  // ----- The code -----

  /** The catalogue's bitmaps, shared by the workers. */
  class Store {
    const cat: seq<Task>
    var maps: Bitmaps

    ghost predicate Valid()
      reads this
    {
      WellFormed(cat) && Shaped(cat, maps)
    }

    constructor (c: seq<Task>, m: Bitmaps)
      requires WellFormed(c) && Shaped(c, m)
      ensures Valid() && cat == c && maps == m
    {
      cat, maps := c, m;
    }
  }

  class Worker {
    var pidCursor: int
    var vmaCursor: int

    constructor ()
      ensures pidCursor == -1 && vmaCursor == -1
    {
      pidCursor, vmaCursor := -1, -1;
    }

    /** `precopy_reserve_source_page`: moves the cursor as Moved says, reserves the page
        a full scan finds and no other, and says whether there was one. */
    method Reserve(store: Store, pid: nat, address: nat) returns (accepted: bool)
      requires store.Valid() && Sound(store.cat, Cursor(pidCursor, vmaCursor))
      modifies this, store`maps
      ensures store.Valid() && Sound(store.cat, Cursor(pidCursor, vmaCursor))
      ensures Cursor(pidCursor, vmaCursor) == Moved(store.cat, old(Cursor(pidCursor, vmaCursor)), pid, address)
      ensures accepted == Scan(store.cat, pid, address).Some?
      ensures accepted ==> InBounds(old(store.maps), Scan(store.cat, pid, address).value)
      ensures accepted ==> store.maps == Mark(old(store.maps), Scan(store.cat, pid, address).value)
      ensures !accepted ==> store.maps == old(store.maps)
      ensures forall p: Page :: Marked(store.maps, p) <==>
                Marked(old(store.maps), p) || Reserves(store.cat, pid, address, p)
    {
      ReserveMeans(store.cat, store.maps, pid, address);
      var cat := store.cat;
      Transparent(cat, Cursor(pidCursor, vmaCursor), pid, address);
      var found := Locate(cat, pid, address);
      if !found {
        return false;
      }
      var i, v := pidCursor, vmaCursor;
      var a := cat[i].areas[v];
      if !a.lazy || a.prot == 0 {
        return false;
      }
      PageInBounds(cat, store.maps, pid, address);
      var p := Page(i, v, (address - a.start) / PAGE_SIZE);
      MarkKeepsShape(cat, store.maps, p);
      store.maps := Mark(store.maps, p);
      accepted := true;
    }

    /** The two cached searches. */
    method Locate(cat: seq<Task>, pid: nat, address: nat) returns (found: bool)
      modifies this
      ensures Cursor(pidCursor, vmaCursor) == Moved(cat, old(Cursor(pidCursor, vmaCursor)), pid, address)
      ensures found == (0 <= pidCursor < |cat| && AreaHit(cat[pidCursor].areas, vmaCursor, address))
    {
      var i, v := pidCursor, vmaCursor;
      if i < 0 || i >= |cat| || cat[i].pid != pid {
        i := 0;
        while i < |cat| && cat[i].pid != pid
          invariant 0 <= i <= |cat| && forall j :: 0 <= j < i ==> cat[j].pid != pid
        {
          i := i + 1;
        }
        pidCursor, vmaCursor, v := i, -1, -1;
        if i == |cat| {
          return false;
        }
      }
      var areas := cat[i].areas;
      if v < 0 || v >= |areas| || address < areas[v].start || address >= areas[v].end {
        v := FirstArea(areas, address);
        vmaCursor := v;
        if v == |areas| {
          return false;
        }
      }
      found := true;
    }

    method FirstArea(areas: seq<Area>, address: nat) returns (v: nat)
      ensures v == FindArea(areas, address)
    {
      v := 0;
      while v < |areas|
        invariant v <= |areas| && forall u :: 0 <= u < v ==> !Contains(areas[u], address)
      {
        if address >= areas[v].start && address < areas[v].end {
          break;
        }
        v := v + 1;
      }
    }
  }

  /** What reserving the scanned page does, bit by bit. */
  lemma ReserveMeans(cat: seq<Task>, maps: Bitmaps, pid: nat, address: nat)
    requires WellFormed(cat) && Shaped(cat, maps)
    ensures var r := Scan(cat, pid, address);
      && (r.None? ==> forall p: Page :: !Reserves(cat, pid, address, p))
      && (r.Some? ==> InBounds(maps, r.value))
      && (r.Some? ==> forall p: Page :: Marked(Mark(maps, r.value), p) <==>
            Marked(maps, p) || Reserves(cat, pid, address, p))
  {
    var r := Scan(cat, pid, address);
    if r.Some? { PageInBounds(cat, maps, pid, address); }
    forall p: Page ensures Reserves(cat, pid, address, p) <==> r == Some(p) {
      ScanMeans(cat, pid, address, p);
    }
    if r.Some? {
      forall p: Page ensures Marked(Mark(maps, r.value), p) <==> p == r.value || Marked(maps, p) {
        MarkMarks(maps, r.value, p);
      }
    }
  }

  lemma MarkKeepsShape(cat: seq<Task>, maps: Bitmaps, p: Page)
    requires Shaped(cat, maps) && InBounds(maps, p)
    ensures Shaped(cat, Mark(maps, p))
  {}

  // ----- Several workers -----

  datatype Query = Query(worker: nat, pid: nat, address: nat)

  /** The state between queries. */
  datatype State = State(cursors: seq<Cursor>, maps: Bitmaps)

  /** A query by one worker, with the worker's own cache. */
  ghost predicate Step(cat: seq<Task>, s: State, q: Query, s': State) {
    && q.worker < |s.cursors|
    && var c := Moved(cat, s.cursors[q.worker], q.pid, q.address);
       var a := Answer(cat, c, q.address);
       && s'.cursors == s.cursors[q.worker := c]
       && match a {
         case None => s'.maps == s.maps
         case Some(p) => InBounds(s.maps, p) && s'.maps == Mark(s.maps, p)
       }
  }

  ghost predicate Blank(maps: Bitmaps) {
    forall p: Page :: !Marked(maps, p)
  }

  /** Any interleaving of any queries by workers that start with a reset cursor. */
  ghost predicate IsRun(cat: seq<Task>, workers: nat, states: seq<State>, queries: seq<Query>) {
    && |states| == |queries| + 1
    && states[0].cursors == seq(workers, _ => RESET)
    && Shaped(cat, states[0].maps) && Blank(states[0].maps)
    && forall k :: 0 <= k < |queries| ==> Step(cat, states[k], queries[k], states[k + 1])
  }

  ghost predicate Good(cat: seq<Task>, s: State) {
    Shaped(cat, s.maps) && forall w :: 0 <= w < |s.cursors| ==> Sound(cat, s.cursors[w])
  }

  lemma StepGood(cat: seq<Task>, s: State, q: Query, s': State)
    requires WellFormed(cat) && Good(cat, s) && Step(cat, s, q, s')
    ensures Good(cat, s')
    ensures Scan(cat, q.pid, q.address).None? ==> s'.maps == s.maps
    ensures Scan(cat, q.pid, q.address).Some? ==>
              InBounds(s.maps, Scan(cat, q.pid, q.address).value)
              && s'.maps == Mark(s.maps, Scan(cat, q.pid, q.address).value)
  {
    Transparent(cat, s.cursors[q.worker], q.pid, q.address);
    var r := Scan(cat, q.pid, q.address);
    if r.Some? { MarkKeepsShape(cat, s.maps, r.value); }
  }

  /** Some query among the first k reserves p by a full scan. */
  ghost predicate Accepted(cat: seq<Task>, queries: seq<Query>, k: nat, p: Page)
    requires k <= |queries|
  {
    exists j :: 0 <= j < k && Scan(cat, queries[j].pid, queries[j].address) == Some(p)
  }

  /** Every reachable state marks exactly the pages that full scans accept, whatever the
      workers cached and however they interleave. */
  lemma {:induction false} BitmapsAreUnion(
    cat: seq<Task>, workers: nat, states: seq<State>, queries: seq<Query>, k: nat)
    requires WellFormed(cat) && IsRun(cat, workers, states, queries) && k < |states|
    ensures Good(cat, states[k])
    ensures forall p: Page :: Marked(states[k].maps, p) <==> Accepted(cat, queries, k, p)
  {
    if k > 0 {
      BitmapsAreUnion(cat, workers, states, queries, k - 1);
      var s, q, s' := states[k - 1], queries[k - 1], states[k];
      assert Step(cat, s, q, s');
      StepGood(cat, s, q, s');
      var r := Scan(cat, q.pid, q.address);
      forall p: Page ensures Marked(s'.maps, p) <==> Accepted(cat, queries, k, p) {
        if r.Some? { MarkMarks(s.maps, r.value, p); }
        AcceptedStep(cat, queries, k, p);
      }
    }
  }

  lemma AcceptedStep(cat: seq<Task>, queries: seq<Query>, k: nat, p: Page)
    requires 0 < k <= |queries|
    ensures Accepted(cat, queries, k, p) <==>
            Accepted(cat, queries, k - 1, p) || Scan(cat, queries[k - 1].pid, queries[k - 1].address) == Some(p)
  {}

  /** Some query among the first k is for this page. */
  ghost predicate Asked(cat: seq<Task>, queries: seq<Query>, k: nat, p: Page)
    requires k <= |queries|
  {
    exists j :: 0 <= j < k && Reserves(cat, queries[j].pid, queries[j].address, p)
  }

  /** In every reachable state a bit is set if and only if some query so far had the pid of
      its task and an address in its page of its area, and the area may be reserved. */
  lemma BitSetExactly(
    cat: seq<Task>, workers: nat, states: seq<State>, queries: seq<Query>, k: nat, p: Page)
    requires WellFormed(cat) && IsRun(cat, workers, states, queries) && k < |states|
    ensures Marked(states[k].maps, p) <==> Asked(cat, queries, k, p)
  {
    BitmapsAreUnion(cat, workers, states, queries, k);
    forall j | 0 <= j < k
      ensures Scan(cat, queries[j].pid, queries[j].address) == Some(p)
         <==> Reserves(cat, queries[j].pid, queries[j].address, p)
    {
      ScanMeans(cat, queries[j].pid, queries[j].address, p);
    }
  }
}
