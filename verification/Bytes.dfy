/** Bytes, and byte strings laid end to end. */
module Bytes {

  type Byte = b: int | 0 <= b < 256 witness 0

  function Concat(parts: seq<seq<Byte>>): seq<Byte> {
    if parts == [] then [] else parts[0] + Concat(parts[1..])
  }

  lemma Reassociate<T>(a: seq<T>, b: seq<T>, c: seq<T>)
    ensures (a + b) + c == a + (b + c)
  {}

  lemma {:induction false} ConcatAppend(parts: seq<seq<Byte>>, p: seq<Byte>)
    ensures Concat(parts + [p]) == Concat(parts) + p
  {
    if parts == [] {
      assert parts + [p] == [p];
    } else {
      ConcatAppend(parts[1..], p);
      assert (parts + [p])[1..] == parts[1..] + [p];
      Reassociate(parts[0], Concat(parts[1..]), p);
    }
  }

  /** Part i lies behind the parts before it. */
  lemma {:induction false} ConcatAt(parts: seq<seq<Byte>>, i: nat)
    requires i < |parts|
    ensures var at := |Concat(parts[..i])|;
      at + |parts[i]| <= |Concat(parts)| && Concat(parts)[at..at + |parts[i]|] == parts[i]
  {
    ConcatSplit(parts, i);
    assert parts[i..][0] == parts[i];
    assert Concat(parts[i..]) == parts[i] + Concat(parts[i..][1..]);
  }

  lemma {:induction false} ConcatSplit(parts: seq<seq<Byte>>, i: nat)
    requires i <= |parts|
    ensures Concat(parts) == Concat(parts[..i]) + Concat(parts[i..])
  {
    if i == 0 {
      assert parts[..0] == [] && parts[0..] == parts;
    } else {
      ConcatSplit(parts[1..], i - 1);
      assert parts[1..][..i - 1] == parts[..i][1..] && parts[1..][i - 1..] == parts[i..];
      Reassociate(parts[0], Concat(parts[..i][1..]), Concat(parts[i..]));
    }
  }
}
