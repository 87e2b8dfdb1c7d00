/** The pool of `bfd.c`: a free list per thread, refilled in batches, from which
    opening a file takes a buffer and to which closing it returns one, possibly on
    another thread's list. */
module BufferPool {

  const BUFSIZE: nat := 4096
  const BUFBATCH: nat := 16

  /** Buffers are numbered as they are mapped. */
  datatype Pool = Pool(free: seq<seq<nat>>, lent: map<nat, nat>, mapped: nat)

  datatype Action =
    | Open(thread: nat, file: nat, batch: nat)   // batch: buffers obtained if the list was empty
    | Close(thread: nat, file: nat)

  /** `buf_get` fails when the map or the first list node cannot be allocated; a
      shorter batch is accepted. */
  predicate Enabled(s: Pool, a: Action) {
    match a
    case Open(t, f, n) => t < |s.free| && f !in s.lent && (s.free[t] == [] ==> 0 < n <= BUFBATCH)
    case Close(t, f) => t < |s.free| && f in s.lent
  }

  function Batch(from: nat, n: nat): (b: seq<nat>)
    ensures |b| == n && forall i :: 0 <= i < n ==> b[i] == from + i
  {
    seq(n, i => from + i)
  }

  /** A fresh mapping becomes the list of the thread that needed one. */
  function Refill(s: Pool, t: nat, n: nat): (r: Pool)
    requires t < |s.free| && s.free[t] == []
    ensures |r.free| == |s.free| && |r.free[t]| == n
  {
    Pool(s.free[t := Batch(s.mapped, n)], s.lent, s.mapped + n)
  }

  function Take(s: Pool, t: nat, f: nat): Pool
    requires t < |s.free| && s.free[t] != []
  {
    Pool(s.free[t := s.free[t][1..]], s.lent[f := s.free[t][0]], s.mapped)
  }

  function Apply(s: Pool, a: Action): Pool
    requires Enabled(s, a)
  {
    match a
    case Open(t, f, n) => Take(if s.free[t] == [] then Refill(s, t, n) else s, t, f)
    case Close(t, f) => PutBack(s.(lent := s.lent - {f}), t, s.lent[f])
  }

  function PutBack(s: Pool, t: nat, b: nat): Pool
    requires t < |s.free|
  {
    s.(free := s.free[t := [b] + s.free[t]])
  }

  ghost predicate IsRun(threads: nat, states: seq<Pool>, actions: seq<Action>) {
    && |states| == |actions| + 1
    && states[0] == Pool(seq(threads, _ => []), map[], 0)
    && forall k :: 0 <= k < |actions| ==>
         Enabled(states[k], actions[k]) && states[k + 1] == Apply(states[k], actions[k])
  }

  /** Every buffer is in one place: one position of one free list, or lent to one file. */
  ghost predicate Exclusive(s: Pool) {
    Mapped(s) && ListsApart(s.free) && LentApart(s.lent) && FreeNotLent(s)
  }

  ghost predicate Mapped(s: Pool) {
    && (forall t, i :: 0 <= t < |s.free| && 0 <= i < |s.free[t]| ==> s.free[t][i] < s.mapped)
    && (forall f :: f in s.lent ==> s.lent[f] < s.mapped)
  }

  ghost predicate ListsApart(free: seq<seq<nat>>) {
    && (forall t, i, j :: 0 <= t < |free| && 0 <= i < j < |free[t]| ==> free[t][i] != free[t][j])
    && (forall t, u, i, j :: 0 <= t < u < |free| && 0 <= i < |free[t]| && 0 <= j < |free[u]| ==>
          free[t][i] != free[u][j])
  }

  ghost predicate LentApart(lent: map<nat, nat>) {
    forall f, g :: f in lent && g in lent && f != g ==> lent[f] != lent[g]
  }

  ghost predicate FreeNotLent(s: Pool) {
    forall f, t, i :: f in s.lent && 0 <= t < |s.free| && 0 <= i < |s.free[t]| ==> s.lent[f] != s.free[t][i]
  }

  /** Some free list or some open file has buffer b. */
  ghost predicate Somewhere(s: Pool, b: nat) {
    || (exists t: nat :: t < |s.free| && b in s.free[t])
    || (exists f :: f in s.lent && s.lent[f] == b)
  }

  ghost predicate NoneLost(s: Pool) {
    forall b: nat :: b < s.mapped ==> Somewhere(s, b)
  }

  lemma RefillLosesNone(s: Pool, t: nat, n: nat)
    requires NoneLost(s) && t < |s.free| && s.free[t] == []
    ensures NoneLost(Refill(s, t, n))
  {
    var r := Refill(s, t, n);
    forall b: nat | b < r.mapped ensures Somewhere(r, b) {
      if b < s.mapped {
        assert Somewhere(s, b);
        if u: nat :| u < |s.free| && b in s.free[u] { assert b in r.free[u]; }
      } else {
        assert r.free[t][b - s.mapped] == b;
      }
    }
  }

  lemma TakeLosesNone(s: Pool, t: nat, f: nat)
    requires NoneLost(s) && t < |s.free| && s.free[t] != [] && f !in s.lent
    ensures NoneLost(Take(s, t, f))
  {
    var r := Take(s, t, f);
    forall b: nat | b < r.mapped ensures Somewhere(r, b) {
      assert Somewhere(s, b);
      if u: nat :| u < |s.free| && b in s.free[u] {
        if b == s.free[t][0] {
          assert r.lent[f] == b;
        } else {
          assert b in r.free[u];
        }
      } else {
        var g :| g in s.lent && s.lent[g] == b;
        assert r.lent[g] == b;
      }
    }
  }

  lemma CloseLosesNone(s: Pool, a: Action)
    requires NoneLost(s) && a.Close? && Enabled(s, a)
    ensures NoneLost(Apply(s, a))
  {
    var r := Apply(s, a);
    forall b: nat | b < r.mapped ensures Somewhere(r, b) {
      assert Somewhere(s, b);
      if u: nat :| u < |s.free| && b in s.free[u] {
        assert b in r.free[u];
      } else {
        var g :| g in s.lent && s.lent[g] == b;
        if g == a.file {
          assert r.free[a.thread][0] == b;
        } else {
          assert r.lent[g] == b;
        }
      }
    }
  }

  lemma RefillKeeps(s: Pool, t: nat, n: nat)
    requires Exclusive(s) && t < |s.free| && s.free[t] == []
    ensures Exclusive(Refill(s, t, n))
  {}

  lemma TakeKeeps(s: Pool, t: nat, f: nat)
    requires Exclusive(s) && t < |s.free| && s.free[t] != [] && f !in s.lent
    ensures Exclusive(Take(s, t, f))
  {}

  lemma PutBackKeeps(s: Pool, t: nat, b: nat)
    requires Exclusive(s) && t < |s.free| && b < s.mapped
    requires forall u, i :: 0 <= u < |s.free| && 0 <= i < |s.free[u]| ==> s.free[u][i] != b
    requires forall f :: f in s.lent ==> s.lent[f] != b
    ensures Exclusive(PutBack(s, t, b))
  {
    PushKeepsApart(s.free, t, b);
  }

  lemma PushKeepsApart(free: seq<seq<nat>>, t: nat, b: nat)
    requires ListsApart(free) && t < |free|
    requires forall u, i :: 0 <= u < |free| && 0 <= i < |free[u]| ==> free[u][i] != b
    ensures ListsApart(free[t := [b] + free[t]])
  {
    PushKeepsOwn(free, t, b);
    PushKeepsOther(free, t, b);
  }

  lemma PushKeepsOwn(free: seq<seq<nat>>, t: nat, b: nat)
    requires ListsApart(free) && t < |free| && forall i :: 0 <= i < |free[t]| ==> free[t][i] != b
    ensures var r := free[t := [b] + free[t]];
      forall u, i, j :: 0 <= u < |r| && 0 <= i < j < |r[u]| ==> r[u][i] != r[u][j]
  {}

  lemma PushKeepsOther(free: seq<seq<nat>>, t: nat, b: nat)
    requires ListsApart(free) && t < |free|
    requires forall u, i :: 0 <= u < |free| && 0 <= i < |free[u]| ==> free[u][i] != b
    ensures var r := free[t := [b] + free[t]];
      forall u, v, i, j :: 0 <= u < v < |r| && 0 <= i < |r[u]| && 0 <= j < |r[v]| ==> r[u][i] != r[v][j]
  {}

  lemma CloseKeeps(s: Pool, a: Action)
    requires Exclusive(s) && a.Close? && Enabled(s, a)
    ensures Exclusive(Apply(s, a))
  {
    PutBackKeeps(s.(lent := s.lent - {a.file}), a.thread, s.lent[a.file]);
  }

  /** Over every sequence of opens and closes on any threads: no two open files share a
      buffer, none is both lent and free, and none is lost. */
  lemma {:induction false} NeverShared(threads: nat, states: seq<Pool>, actions: seq<Action>, k: nat)
    requires IsRun(threads, states, actions) && k < |states|
    ensures Exclusive(states[k]) && NoneLost(states[k])
  {
    if k > 0 {
      NeverShared(threads, states, actions, k - 1);
      if actions[k - 1].Open? {
        var s, t := states[k - 1], actions[k - 1].thread;
        if s.free[t] == [] {
          RefillKeeps(s, t, actions[k - 1].batch);
          RefillLosesNone(s, t, actions[k - 1].batch);
          TakeKeeps(Refill(s, t, actions[k - 1].batch), t, actions[k - 1].file);
          TakeLosesNone(Refill(s, t, actions[k - 1].batch), t, actions[k - 1].file);
        } else {
          TakeKeeps(s, t, actions[k - 1].file);
          TakeLosesNone(s, t, actions[k - 1].file);
        }
      } else {
        CloseKeeps(states[k - 1], actions[k - 1]);
        CloseLosesNone(states[k - 1], actions[k - 1]);
      }
    }
  }

  // ----- What an open and a close do -----

  /** An open takes the head of its thread's list, or the first buffer of a new batch if
      the list was empty, and touches nobody else's buffer or list. */
  lemma OpenLends(s: Pool, t: nat, f: nat, n: nat)
    requires Enabled(s, Open(t, f, n))
    ensures var r := Apply(s, Open(t, f, n));
      && (s.free[t] != [] ==> r.lent == s.lent[f := s.free[t][0]] && r.mapped == s.mapped)
      && (s.free[t] != [] ==> r.free == s.free[t := s.free[t][1..]])
      && (s.free[t] == [] ==> r.lent == s.lent[f := s.mapped] && r.mapped == s.mapped + n)
      && (s.free[t] == [] ==> |r.free| == |s.free| && |r.free[t]| == n - 1)
      && (s.free[t] == [] ==> forall i :: 0 <= i < n - 1 ==> r.free[t][i] == s.mapped + 1 + i)
      && (s.free[t] == [] ==> forall u :: 0 <= u < |s.free| && u != t ==> r.free[u] == s.free[u])
  {}

  /** A close puts the file's buffer at the head of the closing thread's list. */
  lemma CloseReturns(s: Pool, t: nat, f: nat)
    requires Enabled(s, Close(t, f))
    ensures var r := Apply(s, Close(t, f));
      && r.lent == s.lent - {f} && r.mapped == s.mapped
      && r.free == s.free[t := [s.lent[f]] + s.free[t]]
  {}

  /** File f was opened by action j and not closed by any action from there up to k. */
  ghost predicate OpenSince(actions: seq<Action>, j: nat, k: nat, f: nat) {
    && j < k <= |actions| && actions[j].Open? && actions[j].file == f
    && forall m :: j < m < k ==> !(actions[m].Close? && actions[m].file == f)
  }

  ghost predicate IsOpen(actions: seq<Action>, k: nat, f: nat) {
    exists j: nat :: OpenSince(actions, j, k, f)
  }

  lemma OpenStep(actions: seq<Action>, k: nat, f: nat)
    requires 0 < k <= |actions|
    ensures var a := actions[k - 1];
      IsOpen(actions, k, f) <==> (a.Open? && a.file == f) || (IsOpen(actions, k - 1, f) && !(a.Close? && a.file == f))
  {
    var a := actions[k - 1];
    if a.Open? && a.file == f { assert OpenSince(actions, k - 1, k, f); }
    if IsOpen(actions, k - 1, f) && !(a.Close? && a.file == f) {
      var j: nat :| OpenSince(actions, j, k - 1, f);
      assert OpenSince(actions, j, k, f);
    }
    if IsOpen(actions, k, f) && !(a.Open? && a.file == f) {
      var j: nat :| OpenSince(actions, j, k, f);
      assert OpenSince(actions, j, k - 1, f);
    }
  }

  /** In every reachable state exactly the files opened and not closed since have a
      buffer. */
  lemma {:induction false} LentExactly(threads: nat, states: seq<Pool>, actions: seq<Action>, k: nat, f: nat)
    requires IsRun(threads, states, actions) && k < |states|
    ensures f in states[k].lent <==> IsOpen(actions, k, f)
  {
    if k > 0 {
      LentExactly(threads, states, actions, k - 1, f);
      OpenStep(actions, k, f);
      LentStep(states[k - 1], actions[k - 1]);
    }
  }

  lemma LentStep(s: Pool, a: Action)
    requires Enabled(s, a)
    ensures Apply(s, a).lent.Keys == if a.Open? then s.lent.Keys + {a.file} else s.lent.Keys - {a.file}
    ensures forall f :: f in s.lent && f != a.file ==> f in Apply(s, a).lent && Apply(s, a).lent[f] == s.lent[f]
  {
    match a
    case Open(t, f, n) => OpenLends(s, t, f, n);
    case Close(t, f) => CloseReturns(s, t, f);
  }

  /** A file keeps the buffer its open took until it is closed. */
  lemma {:induction false} BufferKept(
    threads: nat, states: seq<Pool>, actions: seq<Action>, j: nat, k: nat, f: nat)
    requires IsRun(threads, states, actions) && OpenSince(actions, j, k, f)
    ensures f in states[j + 1].lent && f in states[k].lent && states[k].lent[f] == states[j + 1].lent[f]
    decreases k
  {
    LentStep(states[j], actions[j]);
    if j + 1 < k {
      BufferKept(threads, states, actions, j, k - 1, f);
      assert Enabled(states[k - 1], actions[k - 1]);
      LentStep(states[k - 1], actions[k - 1]);
    }
  }
}
