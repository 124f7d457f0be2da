/**
 The relay node itself: the routing table it updates in place, and the
 transport sends and sink deliveries it makes, recorded in order.

 The transport and the output sink are modelled as append-only logs
 (`outbox`, `accepted`). The current time bucket is an input (`stamp`, the
 8-byte encoding of the hour start), since the clock is outside the model.
 */
module RouterNode {
  import opened Chain
  import opened RoutingTable
  import opened Matcher
  import opened Forwarding

  /** The chain-search bound the router is built with. */
  const DefaultDiam: nat := 1000

  /** How origination ends: one message sent, or "route not found". */
  datatype SendStatus = Sent | RouteNotFound

  /** The two wire-compatible markers of a data message. */
  predicate IsData(kind: string)
  {
    kind == "M" || kind == "m"
  }

  class Router {
    const H: Hasher
    const name: Bytes
    const entrypoints: seq<Address>
    /** Kept with the node's identity; no routing decision reads it. */
    const contacts: seq<Address>
    const diam: nat

    var table: Table
    /** Every transport send so far, oldest first. */
    var outbox: seq<Outgoing>
    /** Every payload handed to the output sink so far, oldest first. */
    var accepted: seq<Bytes>

    ghost predicate Valid()
      reads this
    {
      DistinctKeys(table)
    }

    constructor (H: Hasher, entrypoints: seq<Address>, contacts: seq<Address>, name: Bytes)
      ensures Valid()
      ensures this.H == H && this.entrypoints == entrypoints && this.contacts == contacts && this.name == name
      ensures diam == DefaultDiam
      ensures table == [] && outbox == [] && accepted == []
    {
      this.H := H;
      this.entrypoints := entrypoints;
      this.contacts := contacts;
      this.name := name;
      diam := DefaultDiam;
      table := [];
      outbox := [];
      accepted := [];
    }

    /** Announces the node's identity for the bucket `stamp` to every
        entrypoint, in list order. */
    method Announce(stamp: Bytes)
      modifies this`outbox
      ensures outbox == old(outbox) + Broadcast(entrypoints, Message("a", [], CurrentIdentity(H, name, stamp)))
    {
      var m := Message("a", [], CurrentIdentity(H, name, stamp));
      for i := 0 to |entrypoints|
        invariant outbox == old(outbox) + Broadcast(entrypoints[..i], m)
      {
        assert entrypoints[..i + 1][..i] == entrypoints[..i];
        outbox := outbox + [Send(m, entrypoints[i])];
      }
      assert entrypoints[..|entrypoints|] == entrypoints;
    }

    /** Re-floods an accepted announce one chain step further on, to every
        entrypoint except the peer it came from. */
    method ResendAnnounce(sender: Address, message: Message)
      modifies this`outbox
      ensures outbox == old(outbox) + FloodExcept(entrypoints, sender, message.(receiver := H(message.receiver)))
    {
      var m := message.(receiver := H(message.receiver));
      for i := 0 to |entrypoints|
        invariant outbox == old(outbox) + FloodExcept(entrypoints[..i], sender, m)
      {
        ghost var step := if entrypoints[i] != sender then [Send(m, entrypoints[i])] else [];
        assert entrypoints[..i + 1][..i] == entrypoints[..i];
        assert FloodExcept(entrypoints[..i + 1], sender, m) == FloodExcept(entrypoints[..i], sender, m) + step;
        if entrypoints[i] != sender {
          outbox := outbox + [Send(m, entrypoints[i])];
        }
      }
      assert entrypoints[..|entrypoints|] == entrypoints;
    }

    /** Updates the table for the identity `target` announced from `address`
        and says whether to re-flood the announce. */
    method FindAnnounceMatch(target: Hash, address: Address) returns (propagate: bool)
      requires Valid()
      modifies this`table
      ensures Valid()
      ensures Outcome(propagate, table) == Match(H, diam, old(table), target, address)
    {
      MatchEffect(H, diam, table, target, address);
      var i := 0;
      while i < |table|
        invariant table == old(table)
        invariant 0 <= i <= |table|
        invariant MatchFrom(H, diam, table, i, target, address) == Match(H, diam, table, target, address)
      {
        var existing := table[i].key;
        var newer := Walk(H, target, existing, diam);
        if newer {
          table := Assign(Remove(table, existing), target, address);
          return true;
        }
        var older := Walk(H, existing, target, diam);
        if older {
          return false;
        }
        i := i + 1;
      }
      table := Assign(table, target, address);
      return true;
    }

    /** Handles one inbound message from the peer at `sender`, in the bucket
        `stamp`. */
    method ReceiveMessage(message: Message, sender: Address, stamp: Bytes)
      requires Valid()
      modifies this`table, this`outbox, this`accepted
      ensures Valid()
      ensures message.kind == "a" ==>
        var o := Match(H, diam, old(table), message.receiver, sender);
        && table == o.table
        && accepted == old(accepted)
        && outbox == old(outbox) + if o.propagate then FloodExcept(entrypoints, sender, message.(receiver := H(message.receiver))) else []
      ensures IsData(message.kind) && message.receiver == CurrentIdentity(H, name, stamp) ==>
        && table == old(table)
        && accepted == old(accepted) + [message.payload]
        && outbox == old(outbox)
      ensures IsData(message.kind) && message.receiver != CurrentIdentity(H, name, stamp) ==>
        && table == old(table)
        && accepted == old(accepted)
        && outbox == old(outbox) + Peel(H, table, message)
      ensures message.kind != "a" && !IsData(message.kind) ==>
        table == old(table) && accepted == old(accepted) && outbox == old(outbox)
    {
      if message.kind == "a" {
        var resend := FindAnnounceMatch(message.receiver, sender);
        if resend {
          ResendAnnounce(sender, message);
        }
      }
      if IsData(message.kind) {
        var self := CurrentIdentity(H, name, stamp);
        if self == message.receiver {
          accepted := accepted + [message.payload];
          return;
        }
        ForwardPeeled(message);
      }
    }

    /** The forwarding loop of a data message not addressed to this node: a
        copy, receiver rewritten to the key, to every entry whose key hashes
        to the receiver. */
    method ForwardPeeled(message: Message)
      modifies this`outbox
      ensures outbox == old(outbox) + Peel(H, table, message)
    {
      var to := message.receiver;
      for i := 0 to |table|
        invariant outbox == old(outbox) + Peel(H, table[..i], message)
      {
        assert table[..i + 1][..i] == table[..i];
        var e := table[i];
        if H(e.key) == to {
          outbox := outbox + [Send(Message(message.kind, message.payload, e.key), e.addr)];
        }
      }
      assert table[..|table|] == table;
    }

    /** Originates `payload` from the sender whose key encodes to `senderKey`,
        in the bucket `stamp`: sends one data message down the first chain
        step found in the table, or reports that no route exists. */
    method SendMessage(payload: Bytes, senderKey: Bytes, stamp: Bytes) returns (status: SendStatus)
      modifies this`outbox
      ensures var o := Originate(H, diam, table, CurrentIdentity(H, senderKey, stamp), payload);
        && status == (if o.Some? then Sent else RouteNotFound)
        && outbox == old(outbox) + if o.Some? then [o.value] else []
    {
      var h0 := CurrentIdentity(H, senderKey, stamp);
      var keyHash := h0;
      var i := 0;
      while i < diam
        invariant 0 <= i <= diam
        invariant keyHash == Iter(H, h0, i)
        invariant RouteStep(H, h0, Keys(table), i, diam) == RouteStep(H, h0, Keys(table), 0, diam)
      {
        keyHash := H(keyHash);
        if keyHash in Keys(table) {
          outbox := outbox + [Send(Message("M", payload, keyHash), Lookup(table, keyHash).value)];
          return Sent;
        }
        i := i + 1;
      }
      return RouteNotFound;
    }
  }
}
