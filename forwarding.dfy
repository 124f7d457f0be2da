/**
 Messages and the sends the router makes: flooding announces to entrypoints,
 peeling one hash layer off a data message, and originating a data message
 by a bounded chain search.

 Each function describes the sequence of sends one router operation appends
 to the transport log, in the order the operation makes them.
 */
module Forwarding {
  import opened Chain
  import opened RoutingTable

  /** A message as the transport carries it: its type marker (`"a"` for an
      announce, `"M"` or `"m"` for data), its payload and its receiver hash. */
  datatype Message = Message(kind: string, payload: Bytes, receiver: Hash)

  /** One call of the transport's send: `msg` to address `to`. */
  datatype Outgoing = Send(msg: Message, to: Address)

  /** `m` sent to every address of `points`, in list order. */
  function Broadcast(points: seq<Address>, m: Message): (r: seq<Outgoing>)
    ensures |r| == |points|
    ensures forall i :: 0 <= i < |points| ==> r[i] == Send(m, points[i])
  {
    if points == [] then [] else Broadcast(points[..|points| - 1], m) + [Send(m, points[|points| - 1])]
  }

  /** `m` sent to every address of `points` other than `sender`, in list
      order (the announce re-flood). */
  function FloodExcept(points: seq<Address>, sender: Address, m: Message): seq<Outgoing>
  {
    if points == [] then []
    else
      var last := points[|points| - 1];
      FloodExcept(points[..|points| - 1], sender, m) + (if last != sender then [Send(m, last)] else [])
  }

  /** The re-flood sends `m` once for each occurrence in `points` of an address
      other than `sender`, and never to `sender`. */
  lemma {:induction false} FloodExceptSends(points: seq<Address>, sender: Address, m: Message)
    ensures |FloodExcept(points, sender, m)| == |points| - multiset(points)[sender]
    ensures forall o :: o in FloodExcept(points, sender, m) ==> o.msg == m && o.to in points && o.to != sender
    ensures forall p :: p in points && p != sender ==> Send(m, p) in FloodExcept(points, sender, m)
  {
    if points != [] {
      var last := points[|points| - 1];
      var init := points[..|points| - 1];
      assert points == init + [last];
      FloodExceptSends(init, sender, m);
    }
  }

  /** Flooding over a concatenation floods the first part, then the second. */
  lemma {:induction false} FloodExceptAppend(p1: seq<Address>, p2: seq<Address>, sender: Address, m: Message)
    ensures FloodExcept(p1 + p2, sender, m) == FloodExcept(p1, sender, m) + FloodExcept(p2, sender, m)
    decreases |p2|
  {
    if p2 != [] {
      var init := p2[..|p2| - 1];
      assert (p1 + p2)[..|p1 + p2| - 1] == p1 + init;
      assert (p1 + p2)[|p1 + p2| - 1] == p2[|p2| - 1];
      FloodExceptAppend(p1, init, sender, m);
    } else {
      assert p1 + p2 == p1;
    }
  }

  /** When the sender is not an entrypoint, the re-flood reaches them all, in
      the same way as the node's own announce. */
  lemma {:induction false} FloodExceptAll(points: seq<Address>, sender: Address, m: Message)
    requires sender !in points
    ensures FloodExcept(points, sender, m) == Broadcast(points, m)
  {
    if points != [] {
      var init := points[..|points| - 1];
      assert sender !in init by {
        assert forall i :: 0 <= i < |init| ==> init[i] == points[i];
      }
      FloodExceptAll(init, sender, m);
    }
  }

  /** The data message `m` forwarded with one hash layer peeled: one send per
      entry `(k, addr)` of `t` with `H(k) == m.receiver`, to `addr`, with the
      receiver rewritten to `k`, in table order. */
  function Peel(H: Hasher, t: Table, m: Message): (r: seq<Outgoing>)
    ensures forall o :: o in r ==>
      && o.msg == Message(m.kind, m.payload, o.msg.receiver)
      && H(o.msg.receiver) == m.receiver
      && Entry(o.msg.receiver, o.to) in t
  {
    if t == [] then []
    else
      var e := t[|t| - 1];
      var init := t[..|t| - 1];
      assert forall x :: x in init ==> x in t;
      Peel(H, init, m) + (if H(e.key) == m.receiver then [Send(Message(m.kind, m.payload, e.key), e.addr)] else [])
  }

  /** One entry is forwarded exactly once when its key hashes to the
      receiver, and not at all otherwise. */
  lemma PeelSingle(H: Hasher, e: Entry, m: Message)
    ensures Peel(H, [e], m) == if H(e.key) == m.receiver then [Send(Message(m.kind, m.payload, e.key), e.addr)] else []
  {
    assert [e][..0] == [];
  }

  /** The peel has no early exit: every matching entry is forwarded. */
  lemma {:induction false} PeelComplete(H: Hasher, t: Table, m: Message, i: nat)
    requires i < |t| && H(t[i].key) == m.receiver
    ensures Send(Message(m.kind, m.payload, t[i].key), t[i].addr) in Peel(H, t, m)
  {
    if i < |t| - 1 {
      var init := t[..|t| - 1];
      assert init[i] == t[i];
      PeelComplete(H, init, m, i);
    }
  }

  /** Peeling over a concatenation peels the first part, then the second. */
  lemma {:induction false} PeelAppend(H: Hasher, t1: Table, t2: Table, m: Message)
    ensures Peel(H, t1 + t2, m) == Peel(H, t1, m) + Peel(H, t2, m)
    decreases |t2|
  {
    if t2 != [] {
      var init := t2[..|t2| - 1];
      assert (t1 + t2)[..|t1 + t2| - 1] == t1 + init;
      assert (t1 + t2)[|t1 + t2| - 1] == t2[|t2| - 1];
      PeelAppend(H, t1, init, m);
    } else {
      assert t1 + t2 == t1;
    }
  }

  /** With no entry one hash step below the receiver, nothing is forwarded. */
  lemma {:induction false} PeelNone(H: Hasher, t: Table, m: Message)
    requires forall i :: 0 <= i < |t| ==> H(t[i].key) != m.receiver
    ensures Peel(H, t, m) == []
  {
    if t != [] {
      var init := t[..|t| - 1];
      assert forall i :: 0 <= i < |init| ==> init[i] == t[i];
      PeelNone(H, init, m);
    }
  }

  /** The chain search of origination, after `j` steps: the first step
      `s` with `j < s <= diam` whose value `Iter(H, h0, s)` is a key. */
  function RouteStep(H: Hasher, h0: Hash, keys: seq<Hash>, j: nat, diam: nat): (r: Option<nat>)
    ensures r.Some? ==> j < r.value <= diam && Iter(H, h0, r.value) in keys
    ensures r.Some? ==> forall s :: j < s < r.value ==> Iter(H, h0, s) !in keys
    ensures r.None? ==> forall s :: j < s <= diam ==> Iter(H, h0, s) !in keys
    decreases diam - j
  {
    if j >= diam then None
    else if Iter(H, h0, j + 1) in keys then Some(j + 1)
    else RouteStep(H, h0, keys, j + 1, diam)
  }

  /** Origination of `payload` from the sender whose bucket hash is `h0`: the
      one send it makes, or None when the search fails ("route not found"). */
  function Originate(H: Hasher, diam: nat, t: Table, h0: Hash, payload: Bytes): (r: Option<Outgoing>)
    ensures r.Some? <==> exists s :: 1 <= s <= diam && Iter(H, h0, s) in Keys(t)
    ensures r.Some? ==>
      && r.value.msg.kind == "M" && r.value.msg.payload == payload
      && Lookup(t, r.value.msg.receiver) == Some(r.value.to)
      && exists s :: 1 <= s <= diam && r.value.msg.receiver == Iter(H, h0, s)
           && forall s' :: 1 <= s' < s ==> Iter(H, h0, s') !in Keys(t)
  {
    match RouteStep(H, h0, Keys(t), 0, diam)
    case None => None
    case Some(s) =>
      var k := Iter(H, h0, s);
      assert 1 <= s <= diam && Iter(H, h0, s) in Keys(t);
      Some(Send(Message("M", payload, k), Lookup(t, k).value))
  }
}
