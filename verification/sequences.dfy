/** Sequence facts the proofs lean on, and the packets everything here moves. */
module Sequences {
  import opened Bits

  type Packet = seq<byte>

  lemma {:induction false} Assoc<T>(a: seq<T>, b: seq<T>, c: seq<T>)
    ensures (a + b) + c == a + (b + c)
  {
  }

  /** The tail of a concatenation, and a longer front of it. */
  lemma {:induction false} Cut<T>(front: seq<T>, rest: seq<T>, i: nat)
    requires |front| <= i <= |front + rest|
    ensures (front + rest)[|front|..] == rest
    ensures (front + rest)[..i] == front + (front + rest)[|front|..i]
  {
  }

  /** A front and the element behind it. */
  lemma {:induction false} Longer<T>(a: seq<T>, bs: seq<T>, c: nat)
    requires c < |bs|
    ensures a + bs[..c] + [bs[c]] == a + bs[..c + 1]
  {
  }

  /** Handing on the front of a queue keeps the whole. */
  lemma {:induction false} HandOn<T>(passed: seq<T>, queue: seq<T>, n: nat)
    requires n <= |queue|
    ensures passed + queue[..n] + queue[n..] == passed + queue
  {
    assert queue == queue[..n] + queue[n..];
  }

  /** Places below k, in order. */
  predicate Increasing(at: seq<nat>, k: nat) {
    (forall i, j | 0 <= i < j < |at| :: at[i] < at[j]) && forall i | 0 <= i < |at| :: at[i] < k
  }

  function NonEmpty(ps: seq<Packet>): seq<Packet> {
    if ps == [] then []
    else NonEmpty(ps[..|ps| - 1]) + if ps[|ps| - 1] == [] then [] else [ps[|ps| - 1]]
  }

  lemma {:induction false} NonEmptyPush(ps: seq<Packet>, p: Packet)
    ensures NonEmpty(ps + [p]) == NonEmpty(ps) + if p == [] then [] else [p]
  {
    assert (ps + [p])[..|ps|] == ps;
  }

  lemma {:induction false} NonEmptyHead(ps: seq<Packet>)
    requires ps != []
    ensures NonEmpty(ps) == (if ps[0] == [] then [] else [ps[0]]) + NonEmpty(ps[1..])
  {
    var n := |ps| - 1;
    if n > 0 {
      NonEmptyHead(ps[..n]);
      assert ps[..n][1..] == ps[1..][..n - 1];
    }
  }

  predicate AllShorter(ps: seq<Packet>, limit: nat) { forall p | p in ps :: |p| < limit }

  /** Packets of one size are all kept, or all dropped when it is 0. */
  lemma {:induction false} NonEmptyUniform(ps: seq<Packet>, size: nat)
    requires forall i | 0 <= i < |ps| :: |ps[i]| == size
    ensures NonEmpty(ps) == if size > 0 then ps else []
  {
    if ps != [] {
      var n := |ps| - 1;
      NonEmptyUniform(ps[..n], size);
      assert ps == ps[..n] + [ps[n]] && |ps[n]| == size;
    }
  }
}
