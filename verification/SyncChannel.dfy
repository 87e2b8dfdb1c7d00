/** Phase events between the two hosts (`cr-sync.c`): four bytes each on a stream
    socket, sent under a lock, cached by the receiver until somebody waits for them. */
module SyncChannel {
  import opened Bytes

  const READY: nat := 0
  const STATE_NR: nat := 10
  const EVENT_SIZE: nat := 4

  /** enum STATE as it travels. */
  type Event = e: nat | e < 0x1_0000_0000

  predicate Valid(e: nat) { READY < e < STATE_NR }

  function ByteOf(e: Event, i: nat): Byte
    requires i < EVENT_SIZE
  {
    if i == 0 then e % 0x100
    else if i == 1 then e / 0x100 % 0x100
    else if i == 2 then e / 0x1_0000 % 0x100
    else e / 0x100_0000
  }

  function Encode(e: Event): (bs: seq<Byte>)
    ensures |bs| == EVENT_SIZE
  {
    [ByteOf(e, 0), ByteOf(e, 1), ByteOf(e, 2), ByteOf(e, 3)]
  }

  function Decode(bs: seq<Byte>): Event
    requires |bs| == EVENT_SIZE
  {
    var b0: int, b1: int, b2: int, b3: int := bs[0], bs[1], bs[2], bs[3];
    b0 + 0x100 * b1 + 0x1_0000 * b2 + 0x100_0000 * b3
  }

  lemma DecodeEncode(e: Event)
    ensures Decode(Encode(e)) == e
  {
    assert e / 0x100 == 0x100 * (e / 0x1_0000) + e / 0x100 % 0x100;
    assert e / 0x1_0000 == 0x100 * (e / 0x100_0000) + e / 0x1_0000 % 0x100;
  }

  // ----- What a waiter makes of a byte stream -----

  /** The k-th event of the stream. */
  function EventAt(bytes: seq<Byte>, k: nat): Event
    requires EVENT_SIZE * (k + 1) <= |bytes|
  {
    Decode(bytes[EVENT_SIZE * k..EVENT_SIZE * k + EVENT_SIZE])
  }

  function EventsUpTo(bytes: seq<Byte>, k: nat): (es: set<nat>)
    requires EVENT_SIZE * k <= |bytes|
  {
    set j | 0 <= j < k :: EventAt(bytes, j)
  }

  /** The first k events are there and all are phases. */
  ghost predicate Readable(bytes: seq<Byte>, k: nat) {
    && EVENT_SIZE * k <= |bytes|
    && forall j :: 0 <= j < k ==> Valid(EventAt(bytes, j))
  }

  /** Reading k events, and no fewer, makes s received. */
  ghost predicate Shortest(received: set<nat>, bytes: seq<Byte>, s: nat, k: nat) {
    && Readable(bytes, k)
    && s in received + EventsUpTo(bytes, k)
    && forall j :: 0 <= j < k ==> s !in received + EventsUpTo(bytes, j)
  }

  /** No readable prefix makes s received. */
  ghost predicate Hopeless(received: set<nat>, bytes: seq<Byte>, s: nat) {
    forall k :: 0 <= k && Readable(bytes, k) ==> s !in received + EventsUpTo(bytes, k)
  }

  lemma ShortestUnique(received: set<nat>, bytes: seq<Byte>, s: nat, k: nat, m: nat)
    requires Shortest(received, bytes, s, k) && Shortest(received, bytes, s, m)
    ensures k == m
  {}

  lemma OneMore(bytes: seq<Byte>, k: nat)
    requires EVENT_SIZE * (k + 1) <= |bytes|
    ensures EventsUpTo(bytes, k + 1) == EventsUpTo(bytes, k) + {EventAt(bytes, k)}
  {}

  /** A stream that breaks after k fruitless events gives nothing further. */
  lemma BrokenStream(received: set<nat>, bytes: seq<Byte>, s: nat, k: nat)
    requires Readable(bytes, k) && forall j :: 0 <= j <= k ==> s !in received + EventsUpTo(bytes, j)
    requires EVENT_SIZE * (k + 1) > |bytes| || !Valid(EventAt(bytes, k))
    ensures Hopeless(received, bytes, s)
  {
    forall m | 0 <= m && Readable(bytes, m) ensures s !in received + EventsUpTo(bytes, m) {
      assert m <= k;
    }
  }

  // ----- One process -----

  /** A connected socket: what the peer has sent and will have sent by the time it
      closes, and what went out. */
  class Socket {
    const device: nat
    const inode: nat
    var incoming: seq<Byte>
    var outgoing: seq<Byte>
    const fails: nat -> bool    // which system calls return an error other than EINTR
    var calls: nat              // calls that were not interrupted

    constructor (dev: nat, ino: nat, stream: seq<Byte>, failing: nat -> bool)
      ensures device == dev && inode == ino && incoming == stream && outgoing == [] && fails == failing && calls == 0
    {
      device, inode, incoming, outgoing, fails, calls := dev, ino, stream, [], failing, 0;
    }

    /** Some call since `from` returned an error. */
    ghost predicate Failed(from: nat)
      reads this
    {
      exists j :: from <= j < calls && fails(j)
    }

    /** recv(2), one to `size` bytes at a time, interrupted finitely often. */
    method Receive(size: nat) returns (ok: bool, data: seq<Byte>)
      modifies this`incoming, this`calls
      ensures data + incoming == old(incoming) && old(calls) <= calls
      ensures ok <==> |data| == size && !Failed(old(calls))
      ensures !ok ==> Failed(old(calls)) || |old(incoming)| < size
    {
      data := [];
      ghost var all := incoming;
      var interrupts: nat :| true;
      while |data| < size
        invariant |data| <= size && data + incoming == all && old(calls) <= calls && !Failed(old(calls))
        decreases size - |data| + interrupts
      {
        var interrupted: bool := *;
        if interrupted && interrupts > 0 {
          interrupts := interrupts - 1;
          continue;
        }
        calls := calls + 1;
        if fails(calls - 1) {
          return false, data;
        }
        if incoming == [] {
          return false, data;
        }
        var n :| 1 <= n <= size - |data| && n <= |incoming|;
        assert incoming == incoming[..n] + incoming[n..];
        assert data + incoming == (data + incoming[..n]) + incoming[n..];
        data, incoming := data + incoming[..n], incoming[n..];
      }
      ok := true;
    }

    /** send(2), likewise. */
    method Send(data: seq<Byte>) returns (ok: bool)
      modifies this`outgoing, this`calls
      ensures old(calls) <= calls && (ok <==> !Failed(old(calls)))
      ensures ok ==> outgoing == old(outgoing) + data
      ensures !ok ==> exists n :: 0 <= n < |data| && outgoing == old(outgoing) + data[..n]
    {
      var done := 0;
      var interrupts: nat :| true;
      assert data[..0] == [];
      while done < |data|
        invariant 0 <= done <= |data| && outgoing == old(outgoing) + data[..done]
        invariant old(calls) <= calls && !Failed(old(calls))
        decreases |data| - done + interrupts
      {
        var interrupted: bool := *;
        if interrupted && interrupts > 0 {
          interrupts := interrupts - 1;
          continue;
        }
        calls := calls + 1;
        if fails(calls - 1) {
          return false;
        }
        var n :| 1 <= n <= |data| - done;
        assert data[..done + n] == data[..done] + data[done..done + n];
        outgoing := outgoing + data[done..done + n];
        done := done + n;
      }
      assert data[..done] == data;
      ok := true;
    }
  }

  datatype Channel = Channel(device: nat, inode: nat, received: set<nat>)

  /** One channel per socket identity. */
  ghost predicate Distinct(cs: seq<Channel>) {
    forall i, j :: 0 <= i < j < |cs| ==> cs[i].device != cs[j].device || cs[i].inode != cs[j].inode
  }

  /** What the process has received on a socket; nothing if it never touched it. */
  function ReceivedOn(cs: seq<Channel>, dev: nat, ino: nat): set<nat> {
    if cs == [] then {}
    else if cs[0].device == dev && cs[0].inode == ino then cs[0].received
    else ReceivedOn(cs[1..], dev, ino)
  }

  lemma {:induction false} ReceivedAt(cs: seq<Channel>, i: nat)
    requires Distinct(cs) && i < |cs|
    ensures ReceivedOn(cs, cs[i].device, cs[i].inode) == cs[i].received
  {
    if i > 0 {
      assert cs[0].device != cs[i].device || cs[0].inode != cs[i].inode;
      ReceivedAt(cs[1..], i - 1);
    }
  }

  lemma {:induction false} ReceivedNowhere(cs: seq<Channel>, dev: nat, ino: nat)
    requires forall i :: 0 <= i < |cs| ==> cs[i].device != dev || cs[i].inode != ino
    ensures ReceivedOn(cs, dev, ino) == {}
  {
    if cs != [] { ReceivedNowhere(cs[1..], dev, ino); }
  }

  lemma {:induction false} OthersKeep(cs: seq<Channel>, i: nat, r: set<nat>, dev: nat, ino: nat)
    requires i < |cs| && (cs[i].device != dev || cs[i].inode != ino)
    ensures ReceivedOn(cs[i := cs[i].(received := r)], dev, ino) == ReceivedOn(cs, dev, ino)
  {
    var cs' := cs[i := cs[i].(received := r)];
    if i == 0 {
      assert cs'[1..] == cs[1..];
    } else {
      OthersKeep(cs[1..], i - 1, r, dev, ino);
      assert cs'[1..] == cs[1..][i - 1 := cs[1..][i - 1].(received := r)];
    }
  }

  class Process {
    var channels: seq<Channel>

    constructor ()
      ensures channels == []
    {
      channels := [];
    }

    /** `sync_channel`: finds the socket's channel or puts a new one in front. */
    method FindChannel(sock: Socket) returns (i: nat)
      requires Distinct(channels)
      modifies this
      ensures Distinct(channels) && i < |channels|
      ensures channels[i].device == sock.device && channels[i].inode == sock.inode
      ensures forall d, n :: ReceivedOn(channels, d, n) == old(ReceivedOn(channels, d, n))
    {
      i := 0;
      while i < |channels| && !(channels[i].device == sock.device && channels[i].inode == sock.inode)
        invariant i <= |channels|
        invariant forall j :: 0 <= j < i ==> channels[j].device != sock.device || channels[j].inode != sock.inode
        invariant channels == old(channels)
      {
        i := i + 1;
      }
      if i == |channels| {
        ReceivedNowhere(channels, sock.device, sock.inode);
        channels := [Channel(sock.device, sock.inode, {})] + channels;
        i := 0;
        assert channels[1..] == old(channels);
      }
    }

    /** `wait_state`: returns having read the shortest sequence of events that makes s
        received and remembers every one of them; exits (`ok` false) only when a system
        call failed or no readable prefix of the stream would do. */
    method WaitState(sock: Socket, s: nat) returns (ok: bool)
      requires Distinct(channels)
      modifies this, sock`incoming, sock`calls
      ensures Distinct(channels)
      ensures ok ==> Valid(s) && Waited(old(ReceivedOn(channels, sock.device, sock.inode)),
                                        ReceivedOn(channels, sock.device, sock.inode),
                                        old(sock.incoming), sock.incoming, s)
      ensures old(sock.calls) <= sock.calls && (ok ==> !sock.Failed(old(sock.calls)))
      ensures !ok ==> !Valid(s) || sock.Failed(old(sock.calls))
                      || Hopeless(old(ReceivedOn(channels, sock.device, sock.inode)), old(sock.incoming), s)
      ensures forall d, n :: d != sock.device || n != sock.inode ==>
                ReceivedOn(channels, d, n) == old(ReceivedOn(channels, d, n))
    {
      var i := FindChannel(sock);
      if s <= READY || s >= STATE_NR {
        return false;
      }
      ghost var before, bytes := channels[i].received, sock.incoming;
      ghost var k: nat := 0;
      ReceivedAt(channels, i);
      while s !in channels[i].received
        invariant i < |channels| && Distinct(channels)
        invariant channels[i].device == sock.device && channels[i].inode == sock.inode
        invariant old(sock.calls) <= sock.calls && !sock.Failed(old(sock.calls))
        invariant Readable(bytes, k) && sock.incoming == bytes[EVENT_SIZE * k..]
        invariant channels[i].received == before + EventsUpTo(bytes, k)
        invariant forall j :: 0 <= j < k ==> s !in before + EventsUpTo(bytes, j)
        invariant forall d, n :: d != sock.device || n != sock.inode ==>
                    ReceivedOn(channels, d, n) == old(ReceivedOn(channels, d, n))
        decreases |sock.incoming|
      {
        var got, data := sock.Receive(EVENT_SIZE);
        if !got {
          if !sock.Failed(old(sock.calls)) { BrokenStream(before, bytes, s, k); }
          return false;
        }
        EventRead(bytes, k, data, sock.incoming);
        var arrived := Decode(data);
        if arrived <= READY || arrived >= STATE_NR {
          BrokenStream(before, bytes, s, k);
          return false;
        }
        OneMore(bytes, k);
        channels := Remember(channels, i, arrived, sock.device, sock.inode);
        k := k + 1;
      }
      ReceivedAt(channels, i);
      assert Shortest(before, bytes, s, k);
      ok := true;
    }

    /** `notify_peer`, while its channel's lock is held: touches nothing the process has
        received, on this socket or another. */
    method NotifyPeer(sock: Socket, s: Event) returns (ok: bool)
      requires Distinct(channels)
      modifies this, sock`outgoing, sock`calls
      ensures Distinct(channels) && (ok <==> !sock.Failed(old(sock.calls)))
      ensures ok ==> sock.outgoing == old(sock.outgoing) + Encode(s)
      ensures forall d, n :: ReceivedOn(channels, d, n) == old(ReceivedOn(channels, d, n))
    {
      var i := FindChannel(sock);
      ok := sock.Send(Encode(s));
    }
  }

  /** The outcome of a wait on one stream. */
  ghost predicate Waited(received: set<nat>, received': set<nat>, bytes: seq<Byte>, bytes': seq<Byte>, s: nat) {
    exists k: nat :: Shortest(received, bytes, s, k) && bytes' == bytes[EVENT_SIZE * k..]
                     && received' == received + EventsUpTo(bytes, k)
  }

  lemma EventRead(bytes: seq<Byte>, k: nat, data: seq<Byte>, rest: seq<Byte>)
    requires EVENT_SIZE * k <= |bytes| && data + rest == bytes[EVENT_SIZE * k..] && |data| == EVENT_SIZE
    ensures EVENT_SIZE * (k + 1) <= |bytes| && rest == bytes[EVENT_SIZE * (k + 1)..]
    ensures EventAt(bytes, k) == Decode(data)
  {
    assert |data + rest| == |bytes| - EVENT_SIZE * k;
    assert data == (data + rest)[..EVENT_SIZE] && rest == (data + rest)[EVENT_SIZE..];
    assert bytes[EVENT_SIZE * k..][..EVENT_SIZE] == bytes[EVENT_SIZE * k..EVENT_SIZE * k + EVENT_SIZE];
  }

  /** channel->received |= 1U << e */
  function Remember(cs: seq<Channel>, i: nat, e: nat, dev: nat, ino: nat): (r: seq<Channel>)
    requires i < |cs| && Distinct(cs) && cs[i].device == dev && cs[i].inode == ino
    ensures |r| == |cs| && Distinct(r) && r[i] == Channel(dev, ino, cs[i].received + {e})
    ensures forall d, n :: d != dev || n != ino ==> ReceivedOn(r, d, n) == ReceivedOn(cs, d, n)
  {
    var r := cs[i := cs[i].(received := cs[i].received + {e})];
    assert forall d, n :: d != dev || n != ino ==> ReceivedOn(r, d, n) == ReceivedOn(cs, d, n) by {
      forall d, n | d != dev || n != ino ensures ReceivedOn(r, d, n) == ReceivedOn(cs, d, n) {
        OthersKeep(cs, i, cs[i].received + {e}, d, n);
      }
    }
    r
  }
}
