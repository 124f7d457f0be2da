/**
 The hash-chain identity scheme of the mix-network relay.

 Identities are 256-bit SHA-256 digests. The router only ever compares digests
 for equality, so the hash function is a parameter `H` of the model: nothing in
 the proofs depends on which function it is.
 */
module Chain {

  type Byte = bv8
  type Bytes = seq<Byte>

  /** A digest. The model does not fix its length: only equality matters. */
  type Hash = Bytes

  /** The digest function (SHA-256 in the relay), applied to byte strings. */
  type Hasher = Bytes -> Bytes

  datatype Option<T> = None | Some(value: T)

  /** The node's identity in the current time bucket: the digest of its name
      followed by the 8-byte encoding of the bucket start. */
  function CurrentIdentity(H: Hasher, name: Bytes, stamp: Bytes): Hash
  {
    H(name + stamp)
  }

  /** `H` applied `k` times to `h`. */
  function Iter(H: Hasher, h: Hash, k: nat): Hash
  {
    if k == 0 then h else H(Iter(H, h, k - 1))
  }

  /** Walking forward from `from`, hashing before each comparison, reaches `to`
      within `diam` steps. The starting point itself is never compared. */
  ghost predicate Reaches(H: Hasher, from: Hash, to: Hash, diam: nat)
  {
    exists k :: 1 <= k <= diam && Iter(H, from, k) == to
  }

  /** Both walks hash before they compare, so a hash is found from itself
      only when it lies on a cycle of `H`; a fixed point of `H` is the
      shortest such cycle. */
  lemma ReachesFixedPoint(H: Hasher, h: Hash, diam: nat)
    requires H(h) == h && diam >= 1
    ensures Reaches(H, h, h, diam)
  {
    assert Iter(H, h, 1) == h;
  }

  /** One bounded chain walk of the announce matcher: start at `from`, hash up
      to `diam` times, and stop as soon as the current value equals `to`. */
  method Walk(H: Hasher, from: Hash, to: Hash, diam: nat) returns (found: bool)
    ensures found <==> Reaches(H, from, to, diam)
  {
    var next := from;
    var i := 0;
    while i < diam
      invariant 0 <= i <= diam
      invariant next == Iter(H, from, i)
      invariant forall k :: 1 <= k <= i ==> Iter(H, from, k) != to
    {
      next := H(next);
      i := i + 1;
      if next == to {
        assert 1 <= i <= diam && Iter(H, from, i) == to;
        return true;
      }
    }
    return false;
  }
}
