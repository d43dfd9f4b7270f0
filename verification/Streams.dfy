/** Hashing block by block: what has been absorbed, and what is left over. */
module Streams {
  import opened Bits

  /** The state after all whole blocks of n bytes. */
  function Absorb<S>(f: (S, seq<byte>) -> S, n: nat, acc: S, data: seq<byte>): S
    requires n > 0
    decreases |data|
  {
    if |data| < n then acc else Absorb(f, n, f(acc, data[..n]), data[n..])
  }

  /** The bytes after the last whole block. */
  function Rest(n: nat, data: seq<byte>): (r: seq<byte>)
    requires n > 0
    ensures |r| < n && |r| <= |data|
    decreases |data|
  {
    if |data| < n then data else Rest(n, data[n..])
  }

  lemma {:induction false} AbsorbOne<S>(f: (S, seq<byte>) -> S, n: nat, acc: S, data: seq<byte>)
    requires n > 0
    ensures |data| >= n ==>
      Absorb(f, n, acc, data) == Absorb(f, n, f(acc, data[..n]), data[n..]) && Rest(n, data) == Rest(n, data[n..])
    ensures |data| < n ==> Absorb(f, n, acc, data) == acc && Rest(n, data) == data
  {
  }

  /** Going on after a break is the same as never having stopped. */
  lemma {:induction false} AbsorbMore<S>(f: (S, seq<byte>) -> S, n: nat, acc: S, data: seq<byte>, more: seq<byte>)
    requires n > 0
    ensures Absorb(f, n, Absorb(f, n, acc, data), Rest(n, data) + more) == Absorb(f, n, acc, data + more)
    ensures Rest(n, Rest(n, data) + more) == Rest(n, data + more)
    decreases |data|
  {
    hide Absorb, Rest;
    AbsorbOne(f, n, acc, data);
    if |data| >= n {
      AbsorbMore(f, n, f(acc, data[..n]), data[n..], more);
      AbsorbOne(f, n, acc, data + more);
      assert (data + more)[..n] == data[..n];
      assert (data + more)[n..] == data[n..] + more;
    }
  }

  function Joined(chunks: seq<seq<byte>>): seq<byte> {
    if chunks == [] then [] else Joined(chunks[..|chunks| - 1]) + chunks[|chunks| - 1]
  }

  lemma {:induction false} DropFront<T>(a: seq<T>, b: seq<T>, k: nat)
    requires k <= |b|
    ensures (a + b)[|a| + k..] == b[k..]
  {
  }

  lemma {:induction false} JoinedPart(chunks: seq<seq<byte>>, k: nat)
    requires k <= |chunks|
    ensures |Joined(chunks[..k])| <= |Joined(chunks)|
  {
    if k == |chunks| {
      assert chunks[..k] == chunks;
    } else {
      JoinedPart(chunks[..|chunks| - 1], k);
      assert chunks[..|chunks| - 1][..k] == chunks[..k];
    }
  }
}
