/** Global outage intervals from per-worker completion journals: pairwise
    intersection folded over the workers, against the gaps of the merged
    timeline of all successes. */
module SuccessGaps {

  datatype Gap = Gap(start: int, end: int)

  function Max(a: int, b: int): int { if a > b then a else b }
  function Min(a: int, b: int): int { if a < b then a else b }

  /** Non-empty intervals, in order and not overlapping. */
  ghost predicate Ordered(gs: seq<Gap>) {
    && (forall i :: 0 <= i < |gs| ==> gs[i].start < gs[i].end)
    && (forall i, j :: 0 <= i < j < |gs| ==> gs[i].end <= gs[j].start)
  }

  function Overlap(l: Gap, r: Gap): Gap {
    Gap(Max(l.start, r.start), Min(l.end, r.end))
  }

  predicate Meets(l: Gap, r: Gap) {
    Max(l.start, r.start) < Min(l.end, r.end)
  }

  /** Exactly the non-empty overlaps of a left and a right interval, in order. */
  method Intersect(left: seq<Gap>, right: seq<Gap>) returns (out: seq<Gap>)
    requires Ordered(left) && Ordered(right)
    ensures Ordered(out)
    ensures forall g :: g in out <==> exists l, r :: l in left && r in right && Meets(l, r) && g == Overlap(l, r)
  {
    out := [];
    var i, j := 0, 0;
    while i < |left| && j < |right|
      invariant 0 <= i <= |left| && 0 <= j <= |right|
      invariant Ordered(out)
      invariant out != [] && i < |left| && j < |right| ==>
                  out[|out| - 1].end <= Max(left[i].start, right[j].start)
      invariant forall g :: g in out ==> exists l, r :: l in left && r in right && Meets(l, r) && g == Overlap(l, r)
      invariant forall p, q :: 0 <= p < |left| && 0 <= q < |right| && (p < i || q < j) && Meets(left[p], right[q])
                  ==> Overlap(left[p], right[q]) in out
    {
      var g := Overlap(left[i], right[j]);
      if g.start < g.end {
        assert left[i] in left && right[j] in right && Meets(left[i], right[j]);
        out := out + [g];
      }
      if left[i].end < right[j].end {
        i := i + 1;
      } else {
        j := j + 1;
      }
    }
  }

  // ----- The fold over workers -----

  predicate Covers(row: Gap, g: Gap) {
    row.start <= g.start && g.end <= row.end
  }

  ghost predicate HasRow(rows: seq<Gap>, g: Gap) {
    exists row :: row in rows && Covers(row, g)
  }

  /** Every journal has a row over g, one of them starts and one of them ends where g does. */
  ghost predicate Cell(journals: seq<seq<Gap>>, g: Gap) {
    && g.start < g.end
    && (forall w :: 0 <= w < |journals| ==> HasRow(journals[w], g))
    && (exists w, row :: 0 <= w < |journals| && row in journals[w] && Covers(row, g) && row.start == g.start)
    && (exists w, row :: 0 <= w < |journals| && row in journals[w] && Covers(row, g) && row.end == g.end)
  }

  /** In one journal at most one row covers a given non-empty interval. */
  lemma OneRow(rows: seq<Gap>, r1: Gap, r2: Gap, g: Gap)
    requires Ordered(rows) && r1 in rows && r2 in rows && Covers(r1, g) && Covers(r2, g) && g.start < g.end
    ensures r1 == r2
  {
    var i :| 0 <= i < |rows| && rows[i] == r1;
    var j :| 0 <= j < |rows| && rows[j] == r2;
  }

  lemma CellOfOne(rows: seq<Gap>, g: Gap)
    requires Ordered(rows)
    ensures Cell([rows], g) <==> g in rows
  {
    if g in rows {
      var i :| 0 <= i < |rows| && rows[i] == g;
      assert g in [rows][0] && Covers(g, g);
    }
    if Cell([rows], g) {
      var w1, r1 :| 0 <= w1 < |[rows]| && r1 in [rows][w1] && Covers(r1, g) && r1.start == g.start;
      var w2, r2 :| 0 <= w2 < |[rows]| && r2 in [rows][w2] && Covers(r2, g) && r2.end == g.end;
      OneRow(rows, r1, r2, g);
    }
  }

  /** Intersecting a cell with one more journal's row gives a cell of the longer list. */
  lemma CellExtends(journals: seq<seq<Gap>>, rows: seq<Gap>, cell: Gap, row: Gap)
    requires Cell(journals, cell) && row in rows && Meets(cell, row)
    ensures Cell(journals + [rows], Overlap(cell, row))
  {
    var g, js := Overlap(cell, row), journals + [rows];
    forall w | 0 <= w < |js| ensures HasRow(js[w], g) {
      if w < |journals| {
        assert HasRow(journals[w], cell);
        var r :| r in journals[w] && Covers(r, cell);
        assert r in js[w] && Covers(r, g);
      } else {
        assert row in js[w] && Covers(row, g);
      }
    }
    var w1, r1 :| 0 <= w1 < |journals| && r1 in journals[w1] && Covers(r1, cell) && r1.start == cell.start;
    var w2, r2 :| 0 <= w2 < |journals| && r2 in journals[w2] && Covers(r2, cell) && r2.end == cell.end;
    assert r1 in js[w1] && r2 in js[w2] && row in js[|journals|];
    assert Covers(r1, g) && Covers(r2, g) && Covers(row, g);
  }

  /** Whatever all journals cover lies in one cell. */
  lemma {:induction false} CellAround(journals: seq<seq<Gap>>, g: Gap) returns (cell: Gap)
    requires journals != [] && g.start < g.end
    requires forall w :: 0 <= w < |journals| ==> HasRow(journals[w], g)
    ensures Cell(journals, cell) && Covers(cell, g)
  {
    var n := |journals| - 1;
    assert HasRow(journals[n], g);
    var row :| row in journals[n] && Covers(row, g);
    if n == 0 {
      cell := row;
      assert row in journals[0] && Covers(row, row);
    } else {
      var before := CellAround(journals[..n], g);
      CellExtends(journals[..n], journals[n], before, row);
      assert journals[..n] + [journals[n]] == journals;
      cell := Overlap(before, row);
    }
  }

  /** A cell of the longer list is the overlap of a cell and a row. */
  lemma CellSplits(journals: seq<seq<Gap>>, rows: seq<Gap>, g: Gap) returns (cell: Gap, row: Gap)
    requires journals != [] && (forall w :: 0 <= w < |journals| ==> Ordered(journals[w])) && Ordered(rows)
    requires Cell(journals + [rows], g)
    ensures Cell(journals, cell) && row in rows && Meets(cell, row) && g == Overlap(cell, row)
  {
    var js, n := journals + [rows], |journals|;
    forall w | 0 <= w < n ensures HasRow(journals[w], g) {
      assert HasRow(js[w], g);
    }
    cell := CellAround(journals, g);
    assert HasRow(js[n], g);
    row :| row in rows && Covers(row, g);
    var w1, r1 :| 0 <= w1 < |js| && r1 in js[w1] && Covers(r1, g) && r1.start == g.start;
    var w2, r2 :| 0 <= w2 < |js| && r2 in js[w2] && Covers(r2, g) && r2.end == g.end;
    EdgeOfCell(journals, rows, g, cell, row, w1, r1);
    EdgeOfCell(journals, rows, g, cell, row, w2, r2);
  }

  /** The row over g in some journal is the last journal's row, or encloses the cell. */
  lemma EdgeOfCell(journals: seq<seq<Gap>>, rows: seq<Gap>, g: Gap, cell: Gap, row: Gap, w: nat, r: Gap)
    requires (forall v :: 0 <= v < |journals| ==> Ordered(journals[v])) && Ordered(rows)
    requires Cell(journals, cell) && Covers(cell, g) && row in rows && Covers(row, g) && g.start < g.end
    requires w <= |journals| && r in (journals + [rows])[w] && Covers(r, g)
    ensures r == row || Covers(r, cell)
  {
    if w == |journals| {
      OneRow(rows, r, row, g);
    } else {
      assert HasRow(journals[w], cell);
      var s :| s in journals[w] && Covers(s, cell);
      OneRow(journals[w], r, s, g);
    }
  }

  // ----- `analyze` -----

  datatype Journal = Journal(dropped: bool, successes: nat, count: nat, first: int, last: int,
                             threshold: int, rows: seq<Gap>)

  datatype Report = WrongWorkers | Incomplete(worker: nat) | Invalid(worker: nat) | MixedThresholds
                  | Intervals(gaps: seq<Gap>)

  predicate CompleteJournal(j: Journal) {
    !j.dropped && j.successes >= 2 && |j.rows| == j.count
  }

  /** The check on one row, given where the previous one ended. */
  predicate RowOk(j: Journal, previous: int, row: Gap) {
    previous <= row.start < row.end <= j.last && row.end - row.start >= j.threshold
  }

  predicate RowAtOk(j: Journal, i: nat)
    requires i < |j.rows|
  {
    RowOk(j, if i == 0 then j.first else j.rows[i - 1].end, j.rows[i])
  }

  ghost predicate ValidJournal(j: Journal) {
    forall i :: 0 <= i < |j.rows| ==> RowAtOk(j, i)
  }

  lemma {:induction false} RowsInOrder(j: Journal, a: nat, b: nat)
    requires ValidJournal(j) && a < b < |j.rows|
    ensures j.rows[a].end <= j.rows[b].start
  {
    assert RowAtOk(j, b);
    if a + 1 < b {
      RowsInOrder(j, a, b - 1);
      assert RowAtOk(j, b - 1);
    }
  }

  lemma ValidIsOrdered(j: Journal)
    requires ValidJournal(j)
    ensures Ordered(j.rows)
  {
    forall i | 0 <= i < |j.rows| ensures j.rows[i].start < j.rows[i].end {
      assert RowAtOk(j, i);
    }
    forall a, b | 0 <= a < b < |j.rows| ensures j.rows[a].end <= j.rows[b].start {
      RowsInOrder(j, a, b);
    }
  }

  function RowsOf(js: seq<Journal>): (rs: seq<seq<Gap>>)
    ensures |rs| == |js| && forall i :: 0 <= i < |js| ==> rs[i] == js[i].rows
  {
    seq(|js|, i requires 0 <= i < |js| => js[i].rows)
  }

  function AtLeast(gs: seq<Gap>, threshold: int): seq<Gap> {
    if gs == [] then []
    else (if gs[0].end - gs[0].start >= threshold then [gs[0]] else []) + AtLeast(gs[1..], threshold)
  }

  lemma {:induction false} AtLeastKeeps(gs: seq<Gap>, threshold: int)
    requires Ordered(gs)
    ensures Ordered(AtLeast(gs, threshold))
    ensures forall g :: g in AtLeast(gs, threshold) <==> g in gs && g.end - g.start >= threshold
  {
    if gs != [] {
      AtLeastKeeps(gs[1..], threshold);
      assert gs == [gs[0]] + gs[1..];
      FirstStays(gs[0], gs[1..], AtLeast(gs[1..], threshold));
    }
  }

  /** An interval before an ordered list is before every ordered part of it. */
  lemma FirstStays(g: Gap, gs: seq<Gap>, part: seq<Gap>)
    requires Ordered([g] + gs) && Ordered(part) && forall h :: h in part ==> h in gs
    ensures Ordered([g] + part)
  {
    var all := [g] + gs;
    forall j | 0 <= j < |part| ensures g.end <= part[j].start {
      assert part[j] in gs;
      var k :| 0 <= k < |gs| && gs[k] == part[j];
      assert all[0].end <= all[k + 1].start;
    }
    assert all[0].start < all[0].end;
  }

  ghost predicate Accepted(js: seq<Journal>) {
    && js != []
    && (forall w :: 0 <= w < |js| ==> CompleteJournal(js[w]) && ValidJournal(js[w]))
    && (forall w :: 0 <= w < |js| ==> js[w].threshold == js[0].threshold)
  }

  /** The checks on the rows of one journal. */
  method CheckRows(j: Journal) returns (valid: bool)
    ensures valid <==> ValidJournal(j)
  {
    var previous := j.first;
    var k := 0;
    while k < |j.rows|
      invariant 0 <= k <= |j.rows|
      invariant previous == if k == 0 then j.first else j.rows[k - 1].end
      invariant forall i :: 0 <= i < k ==> RowAtOk(j, i)
    {
      if !RowOk(j, previous, j.rows[k]) {
        assert !RowAtOk(j, k);
        return false;
      }
      previous := j.rows[k].end;
      k := k + 1;
    }
    valid := true;
  }

  /** The first w journals are acceptable one by one. */
  ghost predicate Checked(js: seq<Journal>, w: nat) {
    w <= |js| && forall v :: 0 <= v < w ==> CompleteJournal(js[v]) && ValidJournal(js[v])
  }

  /** Journal w is the first that is not acceptable by itself. */
  ghost predicate FirstBad(js: seq<Journal>, w: nat) {
    w < |js| && Checked(js, w) && !(CompleteJournal(js[w]) && ValidJournal(js[w]))
  }

  function Thresholds(js: seq<Journal>): set<int> {
    set v | 0 <= v < |js| :: js[v].threshold
  }

  /** `all` lists the cells that some journals have in common, in order. */
  ghost predicate Common(js: seq<Journal>, all: seq<Gap>) {
    Ordered(all) && forall g :: g in all <==> Cell(RowsOf(js), g)
  }

  /** One more worker: its rows the first time, later the intersection. */
  method Absorb(js: seq<Journal>, all: seq<Gap>, j: Journal) returns (more: seq<Gap>)
    requires (js != [] ==> Common(js, all)) && ValidJournal(j) && Checked(js, |js|)
    ensures Common(js + [j], more)
  {
    ValidIsOrdered(j);
    assert RowsOf(js + [j]) == RowsOf(js) + [j.rows];
    if js == [] {
      more := j.rows;
      assert RowsOf(js + [j]) == [j.rows];
      forall g ensures g in more <==> Cell([j.rows], g) { CellOfOne(j.rows, g); }
    } else {
      more := Intersect(all, j.rows);
      FoldStep(js, j.rows, all, more);
    }
  }

  /** The filter by the threshold, once the thresholds are known to agree. */
  method Filter(js: seq<Journal>, all: seq<Gap>) returns (report: Report)
    requires js != [] && Common(js, all)
    ensures report.Intervals? && Reported(js, report.gaps)
  {
    AtLeastKeeps(all, js[0].threshold);
    return Intervals(AtLeast(all, js[0].threshold));
  }

  /** What is reported: the common cells of at least the threshold, in order. */
  ghost predicate Reported(js: seq<Journal>, gaps: seq<Gap>)
    requires js != []
  {
    Ordered(gaps) && forall g :: g in gaps <==> Cell(RowsOf(js), g) && g.end - g.start >= js[0].threshold
  }

  /** Reads the journals of all workers and reports the common gaps of at least the
      recording threshold. */
  method Analyze(js: seq<Journal>, threads: nat) returns (report: Report)
    ensures report.WrongWorkers? <==> |js| != threads
    ensures report.Intervals? <==> |js| == threads && Accepted(js)
    ensures report.Intervals? ==> js != [] && Reported(js, report.gaps)
    ensures report.Incomplete? ==> FirstBad(js, report.worker) && !CompleteJournal(js[report.worker])
    ensures report.Invalid? ==> FirstBad(js, report.worker) && CompleteJournal(js[report.worker])
    ensures report.MixedThresholds? ==> Checked(js, |js|)
  {
    if |js| != threads {
      return WrongWorkers;
    }
    var all: seq<Gap> := [];
    var thresholds: set<int> := {};
    var w := 0;
    while w < |js|
      invariant 0 <= w <= |js| && Checked(js, w)
      invariant thresholds == Thresholds(js[..w])
      invariant w > 0 ==> Common(js[..w], all)
    {
      var j := js[w];
      if j.dropped || j.successes < 2 || |j.rows| != j.count {
        return Incomplete(w);
      }
      var valid := CheckRows(j);
      if !valid {
        return Invalid(w);
      }
      NextThreshold(js, w);
      thresholds := thresholds + {j.threshold};
      all := Absorb(js[..w], all, j);
      assert js[..w] + [j] == js[..w + 1];
      w := w + 1;
    }
    assert js[..w] == js;
    if |thresholds| != 1 {
      AcceptedAgrees(js, thresholds);
      return MixedThresholds;
    }
    ThresholdsAgree(js, thresholds);
    report := Filter(js, all);
  }

  lemma NextThreshold(js: seq<Journal>, w: nat)
    requires w < |js|
    ensures Thresholds(js[..w + 1]) == Thresholds(js[..w]) + {js[w].threshold}
  {
    var a, b := js[..w], js[..w + 1];
    assert b[w] == js[w];
    assert forall v :: 0 <= v < w ==> a[v] == b[v];
  }

  lemma FoldStep(js: seq<Journal>, rows: seq<Gap>, before: seq<Gap>, after: seq<Gap>)
    requires js != [] && (forall v :: 0 <= v < |js| ==> ValidJournal(js[v])) && Ordered(rows)
    requires forall g :: g in before <==> Cell(RowsOf(js), g)
    requires forall g :: g in after <==> exists l, r :: l in before && r in rows && Meets(l, r) && g == Overlap(l, r)
    ensures forall g :: g in after <==> Cell(RowsOf(js) + [rows], g)
  {
    forall v | 0 <= v < |js| ensures Ordered(RowsOf(js)[v]) { ValidIsOrdered(js[v]); }
    forall g ensures g in after <==> Cell(RowsOf(js) + [rows], g) {
      if g in after {
        var l, r :| l in before && r in rows && Meets(l, r) && g == Overlap(l, r);
        CellExtends(RowsOf(js), rows, l, r);
      }
      if Cell(RowsOf(js) + [rows], g) {
        var l, r := CellSplits(RowsOf(js), rows, g);
        assert l in before;
      }
    }
  }

  lemma ThresholdsAgree(js: seq<Journal>, ts: set<int>)
    requires ts == Thresholds(js) && |ts| == 1
    ensures js != [] && forall w :: 0 <= w < |js| ==> js[w].threshold == js[0].threshold
  {
    var t :| t in ts;
    assert ts == {t} by { assert |ts - {t}| == 0; }
    forall w | 0 <= w < |js| ensures js[w].threshold == t { assert js[w].threshold in ts; }
  }

  lemma AcceptedAgrees(js: seq<Journal>, ts: set<int>)
    requires ts == Thresholds(js)
    ensures Accepted(js) ==> |ts| == 1
  {
    if Accepted(js) {
      assert ts == {js[0].threshold};
    }
  }

  // ----- Against the merged timeline -----

  ghost predicate Nondecreasing(ts: seq<int>) {
    forall i, j :: 0 <= i <= j < |ts| ==> ts[i] <= ts[j]
  }

  /** (ts[i], ts[i+1]) is recorded: a gap between consecutive successes that is long enough. */
  predicate Recorded(ts: seq<int>, threshold: int, i: int) {
    0 <= i < |ts| - 1 && ts[i] < ts[i + 1] && ts[i + 1] - ts[i] >= threshold
  }

  /** The journal holds exactly the worker's inter-success gaps of at least the threshold. */
  ghost predicate JournalOf(j: Journal, ts: seq<int>) {
    && |ts| >= 2 && Nondecreasing(ts)
    && j.first == ts[0] && j.last == ts[|ts| - 1]
    && (forall i :: Recorded(ts, j.threshold, i) ==> Gap(ts[i], ts[i + 1]) in j.rows)
    && (forall g :: g in j.rows ==> exists i :: Recorded(ts, j.threshold, i) && g == Gap(ts[i], ts[i + 1]))
  }

  predicate InWindow(ts: seq<int>, g: Gap) {
    |ts| >= 2 && ts[0] <= g.start && g.end <= ts[|ts| - 1]
  }

  /** All workers have started before g and end after it, none succeeds inside it,
      and some worker succeeds at each end. */
  ghost predicate GlobalGap(tss: seq<seq<int>>, threshold: int, g: Gap) {
    && g.start < g.end && g.end - g.start >= threshold
    && (forall w :: 0 <= w < |tss| ==> InWindow(tss[w], g))
    && (forall w, t :: 0 <= w < |tss| && t in tss[w] ==> !(g.start < t < g.end))
    && (exists w :: 0 <= w < |tss| && g.start in tss[w])
    && (exists w :: 0 <= w < |tss| && g.end in tss[w])
  }

  /** A worker with no success inside (a, b) has one recorded row over it, which starts
      at a if the worker succeeds at a, and ends at b if it succeeds at b. */
  lemma RowOver(j: Journal, ts: seq<int>, g: Gap) returns (row: Gap)
    requires JournalOf(j, ts) && g.start < g.end && g.end - g.start >= j.threshold
    requires InWindow(ts, g)
    requires forall t :: t in ts ==> !(g.start < t < g.end)
    ensures row in j.rows && Covers(row, g)
    ensures g.start in ts ==> row.start == g.start
    ensures g.end in ts ==> row.end == g.end
  {
    var i := 0;
    while ts[i + 1] <= g.start
      invariant 0 <= i < |ts| - 1 && ts[i] <= g.start
      decreases |ts| - i
    {
      i := i + 1;
    }
    assert ts[i + 1] in ts;
    assert Recorded(ts, j.threshold, i);
    row := Gap(ts[i], ts[i + 1]);
    forall k | 0 <= k < |ts| ensures ts[k] <= ts[i] || ts[k] >= ts[i + 1] {}
  }

  /** A recorded row has no success inside it. */
  lemma RowIsQuiet(j: Journal, ts: seq<int>, row: Gap, t: int)
    requires JournalOf(j, ts) && row in j.rows && t in ts
    ensures !(row.start < t < row.end)
    ensures row.start in ts && row.end in ts && ts[0] <= row.start && row.end <= ts[|ts| - 1]
  {
    var i :| Recorded(ts, j.threshold, i) && row == Gap(ts[i], ts[i + 1]);
    var k :| 0 <= k < |ts| && ts[k] == t;
    assert k <= i || k >= i + 1;
  }

  lemma CellIsGlobal(js: seq<Journal>, tss: seq<seq<int>>, g: Gap)
    requires |js| == |tss| && Accepted(js)
    requires forall w :: 0 <= w < |js| ==> JournalOf(js[w], tss[w])
    requires Cell(RowsOf(js), g) && g.end - g.start >= js[0].threshold
    ensures GlobalGap(tss, js[0].threshold, g)
  {
    var rs := RowsOf(js);
    forall w, t | 0 <= w < |tss| && t in tss[w]
      ensures !(g.start < t < g.end) && InWindow(tss[w], g)
    {
      assert HasRow(rs[w], g);
      var row :| row in rs[w] && Covers(row, g);
      RowIsQuiet(js[w], tss[w], row, t);
    }
    forall w | 0 <= w < |tss| ensures InWindow(tss[w], g) {
      assert tss[w][0] in tss[w];
    }
    var w1, r1 :| 0 <= w1 < |rs| && r1 in rs[w1] && Covers(r1, g) && r1.start == g.start;
    var w2, r2 :| 0 <= w2 < |rs| && r2 in rs[w2] && Covers(r2, g) && r2.end == g.end;
    RowIsQuiet(js[w1], tss[w1], r1, tss[w1][0]);
    RowIsQuiet(js[w2], tss[w2], r2, tss[w2][0]);
  }

  lemma GlobalIsCell(js: seq<Journal>, tss: seq<seq<int>>, g: Gap)
    requires |js| == |tss| && Accepted(js)
    requires forall w :: 0 <= w < |js| ==> JournalOf(js[w], tss[w])
    requires GlobalGap(tss, js[0].threshold, g)
    ensures Cell(RowsOf(js), g)
  {
    var rs := RowsOf(js);
    forall w | 0 <= w < |js| ensures HasRow(rs[w], g) {
      var row := RowOver(js[w], tss[w], g);
    }
    var w1 :| 0 <= w1 < |tss| && g.start in tss[w1];
    var w2 :| 0 <= w2 < |tss| && g.end in tss[w2];
    var r1 := RowOver(js[w1], tss[w1], g);
    var r2 := RowOver(js[w2], tss[w2], g);
    assert r1 in rs[w1] && r2 in rs[w2];
  }

  lemma HeadNotInTail(a: seq<Gap>)
    requires Ordered(a) && a != []
    ensures a[0] !in a[1..]
  {
    forall k | 0 <= k < |a[1..]| ensures a[1..][k] != a[0] {
      assert a[0].end <= a[k + 1].start;
    }
  }

  lemma {:induction false} OrderedUnique(a: seq<Gap>, b: seq<Gap>)
    requires Ordered(a) && Ordered(b) && forall g :: g in a <==> g in b
    ensures a == b
  {
    assert a != [] ==> a[0] in b;
    assert b != [] ==> b[0] in a;
    if a != [] {
      assert a[0] == b[0];
      assert a == [a[0]] + a[1..] && b == [b[0]] + b[1..];
      forall g ensures g in a[1..] <==> g in b[1..] {
        HeadNotInTail(a);
        HeadNotInTail(b);
        assert g in a <==> g in b;
      }
      OrderedUnique(a[1..], b[1..]);
      assert a == [a[0]] + a[1..] && b == [b[0]] + b[1..];
    }
  }

  /** The reported intervals are exactly the gaps of the merged timeline that are long
      enough and inside the window that all workers cover; being ordered, they are
      the only such list, so the order of the workers does not matter. */
  lemma ReportIsGlobal(js: seq<Journal>, tss: seq<seq<int>>, gaps: seq<Gap>)
    requires |js| == |tss| && Accepted(js)
    requires forall w :: 0 <= w < |js| ==> JournalOf(js[w], tss[w])
    requires Reported(js, gaps)
    ensures forall g :: g in gaps <==> GlobalGap(tss, js[0].threshold, g)
    ensures forall other :: Ordered(other) && (forall g :: g in other <==> GlobalGap(tss, js[0].threshold, g))
              ==> other == gaps
  {
    forall g ensures g in gaps <==> GlobalGap(tss, js[0].threshold, g) {
      if g in gaps { CellIsGlobal(js, tss, g); }
      if GlobalGap(tss, js[0].threshold, g) { GlobalIsCell(js, tss, g); }
    }
    forall other | Ordered(other) && (forall g :: g in other <==> GlobalGap(tss, js[0].threshold, g))
      ensures other == gaps
    {
      OrderedUnique(other, gaps);
    }
  }

  /** Any order of the same journals gives the same report. */
  lemma WorkerOrderIrrelevant(js: seq<Journal>, ks: seq<Journal>, a: seq<Gap>, b: seq<Gap>)
    requires Accepted(js) && Accepted(ks) && forall j :: j in js <==> j in ks
    requires Reported(js, a) && Reported(ks, b)
    ensures a == b
  {
    assert js[0] in ks && ks[0] in js;
    forall g ensures g in a <==> g in b {
      if Cell(RowsOf(js), g) { SameCells(js, ks, g); }
      if Cell(RowsOf(ks), g) { SameCells(ks, js, g); }
    }
    OrderedUnique(a, b);
  }

  lemma SameCells(js: seq<Journal>, ks: seq<Journal>, g: Gap)
    requires (forall j :: j in js <==> j in ks) && Cell(RowsOf(js), g)
    ensures Cell(RowsOf(ks), g)
  {
    var rs, qs := RowsOf(js), RowsOf(ks);
    forall w | 0 <= w < |ks| ensures HasRow(qs[w], g) {
      assert ks[w] in js;
      var v :| 0 <= v < |js| && js[v] == ks[w];
      assert HasRow(rs[v], g);
    }
    var w1, r1 :| 0 <= w1 < |rs| && r1 in rs[w1] && Covers(r1, g) && r1.start == g.start;
    var w2, r2 :| 0 <= w2 < |rs| && r2 in rs[w2] && Covers(r2, g) && r2.end == g.end;
    assert js[w1] in ks && js[w2] in ks;
    var v1 :| 0 <= v1 < |ks| && ks[v1] == js[w1];
    var v2 :| 0 <= v2 < |ks| && ks[v2] == js[w2];
    assert r1 in qs[v1] && r2 in qs[v2];
  }

  /** In terms of one sorted list m of all successes: a global gap is a pair of
      neighbours in m. */
  lemma GlobalIsConsecutive(tss: seq<seq<int>>, m: seq<int>, threshold: int, g: Gap)
    requires Nondecreasing(m) && forall t :: t in m <==> exists w :: 0 <= w < |tss| && t in tss[w]
    ensures GlobalGap(tss, threshold, g) <==>
      && (exists k :: 0 <= k < |m| - 1 && m[k] == g.start && m[k + 1] == g.end)
      && g.start < g.end && g.end - g.start >= threshold
      && (forall w :: 0 <= w < |tss| ==> InWindow(tss[w], g))
  {
    if k :| 0 <= k < |m| - 1 && m[k] == g.start && m[k + 1] == g.end {
      forall w, t | 0 <= w < |tss| && t in tss[w] ensures !(g.start < t < g.end) {
        assert t in m;
        var i :| 0 <= i < |m| && m[i] == t;
        assert i <= k || i >= k + 1;
      }
      assert m[k] in m && m[k + 1] in m;
    }
    if GlobalGap(tss, threshold, g) {
      assert g.start in m && g.end in m;
      var i :| 0 <= i < |m| && m[i] == g.start;
      var e :| 0 <= e < |m| && m[e] == g.end;
      while m[i + 1] == g.start
        invariant 0 <= i < e && m[i] == g.start
        decreases e - i
      {
        i := i + 1;
      }
      assert m[i + 1] in m;
      assert m[i] == g.start && m[i + 1] == g.end;
    }
  }
}
