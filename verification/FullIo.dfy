/** `read_all` and `write_all`: loops over short system calls that succeed in full, stop
    at the end of the file, or fail after a part. */
module FullIo {

  /** What one read(2) or write(2) does: move at most so many bytes, but one at least if
      it can, or fail. A call that a signal interrupts is made again and not numbered. */
  datatype Call = Moves(count: nat) | Fails

  /** The number of the next call, the bytes moved, and whether the last call failed. */
  datatype Done = Done(next: nat, moved: nat, failed: bool)

  function Min(a: nat, b: nat): nat { if a < b then a else b }

  function Max(a: nat, b: nat): nat { if a < b then b else a }

  /** What a call moves when it does not fail. */
  function Amount(c: Call, size: nat, left: nat): (n: nat)
    requires c.Moves? && size > 0 && left > 0
    ensures 1 <= n <= size && n <= left
  {
    Min(Max(c.count, 1), Min(size, left))
  }

  /** Moving `size` bytes where `left` are to be had, from call k on. */
  function Run(io: nat -> Call, k: nat, size: nat, left: nat): (r: Done)
    ensures k <= r.next && r.moved <= size && r.moved <= left
    decreases size
  {
    if size == 0 then Done(k, 0, false)
    else if io(k).Fails? then Done(k + 1, 0, true)
    else if left == 0 then Done(k + 1, 0, false)
    else
      var n := Amount(io(k), size, left);
      var r := Run(io, k + 1, size - n, left - n);
      Done(r.next, n + r.moved, r.failed)
  }

  /** Some call from k up to m fails. */
  ghost predicate AnyFails(io: nat -> Call, k: nat, m: nat) {
    exists j :: k <= j < m && io(j).Fails?
  }

  lemma FailsJoin(io: nat -> Call, a: nat, b: nat, c: nat)
    requires a <= b <= c
    ensures AnyFails(io, a, c) <==> AnyFails(io, a, b) || AnyFails(io, b, c)
  {}

  /** All or nothing but for failures: without one everything that is to be had moves,
      and a failure is that of the last call and comes before the last byte. */
  lemma {:induction false} RunMeans(io: nat -> Call, k: nat, size: nat, left: nat)
    ensures var r := Run(io, k, size, left);
      && (r.failed <==> AnyFails(io, k, r.next))
      && (r.failed ==> r.next > k && io(r.next - 1).Fails? && r.moved < size)
      && (!r.failed ==> r.moved == Min(size, left))
      && (size > 0 ==> r.next > k)
    decreases size
  {
    var r := Run(io, k, size, left);
    if size > 0 && !io(k).Fails? && left > 0 {
      var n := Amount(io(k), size, left);
      RunMeans(io, k + 1, size - n, left - n);
      assert AnyFails(io, k, r.next) <==> AnyFails(io, k + 1, r.next);
    } else if size > 0 && io(k).Fails? {
      assert AnyFails(io, k, r.next);
    }
  }

  /** What the calls from k up to m are willing to move. */
  function Willing(io: nat -> Call, k: nat, m: nat): nat
    requires k <= m
    decreases m - k
  {
    if k == m then 0 else (if io(k).Moves? then Max(io(k).count, 1) else 0) + Willing(io, k + 1, m)
  }

  /** The bytes moved are what the calls were willing to move together, up to the size and
      to what was there; a call that fails moves nothing. */
  lemma {:induction false} MovedExactly(io: nat -> Call, k: nat, size: nat, left: nat)
    ensures Run(io, k, size, left).moved == Min(Min(size, left), Willing(io, k, Run(io, k, size, left).next))
    decreases size
  {
    if size > 0 {
      if io(k).Moves? && left > 0 {
        var n := Amount(io(k), size, left);
        MovedExactly(io, k + 1, size - n, left - n);
      } else {
        assert Willing(io, k + 1, k + 1) == 0;
      }
    }
  }

  /** A failing run has moved nothing exactly when its first call failed. */
  lemma NothingMovedExactly(io: nat -> Call, k: nat, size: nat, left: nat)
    requires Run(io, k, size, left).failed
    ensures Run(io, k, size, left).moved == 0 <==> io(k).Fails?
  {}

  ghost predicate Ahead(whole: Done, tail: Done, moved: nat) {
    whole == Done(tail.next, moved + tail.moved, tail.failed)
  }

  /** The loop of `read_all` and `write_all`, in numbers of bytes. */
  method TransferAll(io: nat -> Call, from: nat, size: nat, left: nat) returns (r: Done)
    ensures r == Run(io, from, size, left)
    ensures !r.failed ==> r.moved == Min(size, left)
  {
    RunMeans(io, from, size, left);
    var k, n := from, 0;
    while n < size
      invariant n <= size && n <= left && from <= k
      invariant Ahead(Run(io, from, size, left), Run(io, k, size - n, left - n), n)
      decreases size - n
    {
      k := k + 1;
      if io(k - 1).Fails? {
        return Done(k, n, true);
      }
      if n == left {
        return Done(k, n, false);
      }
      n := n + Amount(io(k - 1), size - n, left - n);
    }
    return Done(k, n, false);
  }
}
