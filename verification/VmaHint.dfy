/** The search for a place to map the restorer blob: a first-fit scan over the
    target's VMAs and the restorer's own, kept as two sorted lists. */
module VmaHint {

  datatype Vma = Vma(start: int, end: int)

  ghost predicate Sorted(vs: seq<Vma>) {
    && (forall i :: 0 <= i < |vs| ==> vs[i].start <= vs[i].end)
    && (forall i, j :: 0 <= i < j < |vs| ==> vs[i].end <= vs[j].start)
  }

  predicate Misses(p: int, len: nat, v: Vma) {
    p + len <= v.start || v.end <= p
  }

  predicate MissesAll(p: int, len: nat, vs: seq<Vma>) {
    forall i :: 0 <= i < |vs| ==> Misses(p, len, vs[i])
  }

  function AllButLast(vs: seq<Vma>): seq<Vma>
    requires vs != []
  {
    vs[..|vs| - 1]
  }

  function Last(vs: seq<Vma>): Vma
    requires vs != []
  {
    vs[|vs| - 1]
  }

  function Max(a: int, b: int): int { if a > b then a else b }
  function Min(a: int, b: int): int { if a < b then a else b }

  /** [p, p + len) is a gap of `vs` between lo and hi. */
  predicate Gap(p: int, len: nat, lo: int, hi: int, vs: seq<Vma>) {
    lo <= p && p + len <= hi && MissesAll(p, len, vs)
  }

  ghost predicate FirstGap(p: int, len: nat, lo: int, hi: int, vs: seq<Vma>) {
    Gap(p, len, lo, hi, vs) && forall q :: Gap(q, len, lo, hi, vs) ==> p <= q
  }

  /** What stands in the way of the scan: every VMA except the last of each list. */
  function Obstacles(target: seq<Vma>, own: seq<Vma>): seq<Vma>
    requires target != [] && own != []
  {
    AllButLast(own) + AllButLast(target)
  }

  /** The upper limit that the scan enforces. A list whose last VMA starts above the
      task size (the vsyscall page does) never meets the sentinel below it. */
  function Ceiling(target: seq<Vma>, own: seq<Vma>, taskSize: int): int
    requires target != [] && own != []
  {
    Min(Max(Last(own).start, taskSize), Max(Last(target).start, taskSize))
  }

  /** `restorer_get_vma_hint`. Index |list| stands for the sentinel, whose start and
      end are the task size; s and t tell where the scan stopped in each list. The last
      area of a list lies above the hint exactly if the scan stopped on a real entry. */
  method RestorerGetVmaHint(target: seq<Vma>, own: seq<Vma>, len: nat, mmapMin: int, taskSize: int)
    returns (hint: int, ghost s: nat, ghost t: nat)
    requires target != [] && own != [] && Sorted(target) && Sorted(own)
    requires mmapMin >= 0
    ensures hint == -1 ==>
      forall q :: !Gap(q, len, mmapMin, Ceiling(target, own, taskSize), Obstacles(target, own))
    ensures hint != -1 ==>
      FirstGap(hint, len, mmapMin, Ceiling(target, own, taskSize), Obstacles(target, own))
    ensures s <= |own| && t <= |target|
    ensures hint != -1 ==> (s < |own| <==> hint + len <= Last(own).start)
    ensures hint != -1 ==> (t < |target| <==> hint + len <= Last(target).start)
  {
    ghost var hi := Ceiling(target, own, taskSize);
    ghost var vs := Obstacles(target, own);
    var prev := mmapMin;
    var i: nat, j: nat := 0, 0;
    while true
      invariant i <= |own| && j <= |target| && mmapMin <= prev
      invariant forall k :: 0 <= k < i && k < |own| - 1 ==> own[k].end <= prev
      invariant forall k :: 0 <= k < j && k < |target| - 1 ==> target[k].end <= prev
      invariant i == |own| ==> prev + len > Last(own).start
      invariant j == |target| ==> prev + len > Last(target).start
      invariant forall q :: mmapMin <= q < prev ==> !Gap(q, len, mmapMin, hi, vs)
      decreases |own| - i + |target| - j
    {
      var sStart := if i == |own| then taskSize else own[i].start;
      if prev + len > sStart {
        if i == |own| - 1 {
          i := |own|;
          continue;
        }
        if i == |own| {
          break;
        }
        assert vs[i] == own[i];
        if prev < own[i].end {
          NoGapAcross(prev, own[i].end, len, mmapMin, hi, vs, i);
          prev := own[i].end;
        }
        i := i + 1;
        continue;
      }
      var tStart := if j == |target| then taskSize else target[j].start;
      if prev + len > tStart {
        if j == |target| - 1 {
          j := |target|;
          continue;
        }
        if j == |target| {
          break;
        }
        assert vs[|own| - 1 + j] == target[j];
        if prev < target[j].end {
          NoGapAcross(prev, target[j].end, len, mmapMin, hi, vs, |own| - 1 + j);
          prev := target[j].end;
        }
        j := j + 1;
        continue;
      }
      forall k | 0 <= k < |vs| ensures Misses(prev, len, vs[k]) {
        if k < |own| - 1 {
          assert vs[k] == own[k];
          assert i < |own| && k >= i ==> own[i].start <= own[k].start;
        } else {
          var m := k - (|own| - 1);
          assert vs[k] == target[m];
          assert j < |target| && m >= j ==> target[j].start <= target[m].start;
        }
      }
      return prev, i, j;
    }
    return -1, i, j;
  }

  /** Raising the scan past an obstacle that blocks it skips no gap. */
  lemma NoGapAcross(prev: int, next: int, len: nat, lo: int, hi: int, vs: seq<Vma>, i: nat)
    requires i < |vs| && prev + len > vs[i].start && next == vs[i].end
    requires forall q :: lo <= q < prev ==> !Gap(q, len, lo, hi, vs)
    ensures forall q :: lo <= q < next ==> !Gap(q, len, lo, hi, vs)
  {
    forall q | lo <= q < next ensures !Gap(q, len, lo, hi, vs) {
      if q >= prev { assert !Misses(q, len, vs[i]); }
    }
  }

  /** A failed scan means that no gap exists among all the VMAs below the task size. */
  lemma FailureMeansNoGap(target: seq<Vma>, own: seq<Vma>, len: nat, mmapMin: int, taskSize: int, q: int)
    requires target != [] && own != []
    requires forall p :: !Gap(p, len, mmapMin, Ceiling(target, own, taskSize), Obstacles(target, own))
    ensures !Gap(q, len, mmapMin, taskSize, own + target)
  {
    if Gap(q, len, mmapMin, taskSize, own + target) {
      var vs := Obstacles(target, own);
      forall i | 0 <= i < |vs| ensures Misses(q, len, vs[i]) {
        assert vs[i] == (own + target)[if i < |own| - 1 then i else i + 1];
      }
      assert Gap(q, len, mmapMin, Ceiling(target, own, taskSize), vs);
    }
  }

  /** The hint is never above a real gap. */
  lemma NotAboveAnyGap(target: seq<Vma>, own: seq<Vma>, len: nat, mmapMin: int, taskSize: int, hint: int, q: int)
    requires target != [] && own != []
    requires FirstGap(hint, len, mmapMin, Ceiling(target, own, taskSize), Obstacles(target, own))
    requires Gap(q, len, mmapMin, taskSize, own + target)
    ensures hint <= q
  {
    var vs := Obstacles(target, own);
    forall i | 0 <= i < |vs| ensures Misses(q, len, vs[i]) {
      assert vs[i] == (own + target)[if i < |own| - 1 then i else i + 1];
    }
    assert Gap(q, len, mmapMin, Ceiling(target, own, taskSize), vs);
  }

  lemma LastsDecide(target: seq<Vma>, own: seq<Vma>, len: nat, hint: int)
    requires target != [] && own != [] && MissesAll(hint, len, Obstacles(target, own))
    ensures MissesAll(hint, len, own + target)
       <==> Misses(hint, len, Last(own)) && Misses(hint, len, Last(target))
  {
    var vs, all := Obstacles(target, own), own + target;
    forall i | 0 <= i < |all| && i != |own| - 1 && i != |all| - 1 ensures Misses(hint, len, all[i]) {
      assert all[i] == vs[if i < |own| then i else i - 1];
    }
    assert all[|own| - 1] == Last(own) && all[|all| - 1] == Last(target);
  }

  /** Among the obstacles there is a gap below v, or none that would touch v. */
  ghost predicate Spares(v: Vma, len: nat, lo: int, hi: int, vs: seq<Vma>) {
    || (exists q :: Gap(q, len, lo, hi, vs) && q + len <= v.start)
    || (forall q :: Gap(q, len, lo, hi, vs) ==> !(v.start - len < q < v.end))
  }

  lemma SparesExactly(v: Vma, len: nat, lo: int, hi: int, vs: seq<Vma>, hint: int)
    requires FirstGap(hint, len, lo, hi, vs)
    ensures Misses(hint, len, v) <==> Spares(v, len, lo, hi, vs)
  {}

  /** The hint misses every VMA of both lists exactly when the obstacles spare the last
      VMA of each: something a caller can tell from the lists before the call. */
  lemma SafeExactly(target: seq<Vma>, own: seq<Vma>, len: nat, mmapMin: int, taskSize: int, hint: int)
    requires target != [] && own != []
    requires FirstGap(hint, len, mmapMin, Ceiling(target, own, taskSize), Obstacles(target, own))
    ensures MissesAll(hint, len, own + target) <==>
      && Spares(Last(own), len, mmapMin, Ceiling(target, own, taskSize), Obstacles(target, own))
      && Spares(Last(target), len, mmapMin, Ceiling(target, own, taskSize), Obstacles(target, own))
  {
    LastsDecide(target, own, len, hint);
    SparesExactly(Last(own), len, mmapMin, Ceiling(target, own, taskSize), Obstacles(target, own), hint);
    SparesExactly(Last(target), len, mmapMin, Ceiling(target, own, taskSize), Obstacles(target, own), hint);
  }

  /** When it does miss them all, it is the first gap among all of them. */
  lemma SafeIsFirst(target: seq<Vma>, own: seq<Vma>, len: nat, mmapMin: int, taskSize: int, hint: int)
    requires target != [] && own != []
    requires FirstGap(hint, len, mmapMin, Ceiling(target, own, taskSize), Obstacles(target, own))
    ensures MissesAll(hint, len, own + target)
       <==> FirstGap(hint, len, mmapMin, Ceiling(target, own, taskSize), own + target)
  {
    var vs, all := Obstacles(target, own), own + target;
    if MissesAll(hint, len, all) {
      forall q | Gap(q, len, mmapMin, Ceiling(target, own, taskSize), all) ensures hint <= q {
        forall i | 0 <= i < |vs| ensures Misses(q, len, vs[i]) {
          assert vs[i] == all[if i < |own| - 1 then i else i + 1];
        }
        assert Gap(q, len, mmapMin, Ceiling(target, own, taskSize), vs);
      }
    }
  }

  /** The hint stays below the task size exactly when the obstacles leave a gap there. */
  lemma BelowTaskSizeExactly(target: seq<Vma>, own: seq<Vma>, len: nat, mmapMin: int, taskSize: int, hint: int)
    requires target != [] && own != []
    requires FirstGap(hint, len, mmapMin, Ceiling(target, own, taskSize), Obstacles(target, own))
    ensures hint + len <= taskSize <==> exists q :: Gap(q, len, mmapMin, taskSize, Obstacles(target, own))
  {
    var vs := Obstacles(target, own);
    if hint + len <= taskSize { assert Gap(hint, len, mmapMin, taskSize, vs); }
    if q :| Gap(q, len, mmapMin, taskSize, vs) {
      assert Gap(q, len, mmapMin, Ceiling(target, own, taskSize), vs);
    }
  }

  /** Both failures happen: a hint on top of the last VMA, and one that runs past
      the task size when both lists end above it. */
  lemma HintCanOverlap()
    ensures FirstGap(0, 5, 0, Ceiling([Vma(2, 4)], [Vma(2, 4)], 10), Obstacles([Vma(2, 4)], [Vma(2, 4)]))
    ensures !Misses(0, 5, Vma(2, 4)) && Gap(4, 5, 0, 10, [Vma(2, 4), Vma(2, 4)])
    ensures FirstGap(0, 12, 0, Ceiling([Vma(20, 21)], [Vma(20, 21)], 10), Obstacles([Vma(20, 21)], [Vma(20, 21)]))
    ensures 0 + 12 > 10
  {
    assert Obstacles([Vma(2, 4)], [Vma(2, 4)]) == [];
    assert Obstacles([Vma(20, 21)], [Vma(20, 21)]) == [];
  }
}
