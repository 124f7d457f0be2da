# Mix-network relay router, modelled in Dafny

This project models the routing core of a relay node in a mix network. Nodes
are addressed by rotating identity hashes: a node's identity in the current
hour is `SHA-256(name || hour-start)`. Announces of these identities flood
the overlay. Each hop hashes the announced identity once more before passing
it on. Every node keeps an ordered routing table from identity hashes to
next-hop addresses. A data message travels towards its receiver hash. Each
relay "peels" one hash layer: it finds a table key `k` with `H(k)` equal to
the receiver, rewrites the receiver to `k`, and forwards the message to that
key's address.

The model follows the `Router` class of
`05-mixnets/Drastijk-router-python/router.py`:

- `chain.dfy` (module `Chain`): digests, the hash function `H` as a
  parameter, `Iter` (`H` applied `k` times), the bounded walk predicate
  `Reaches`, and the `Walk` method, which is the matcher's inner loop.
- `table.dfy` (module `RoutingTable`): the table as a sequence of entries
  with distinct keys, so that Python dict order is kept. Assigning to a
  present key replaces its address in place, assigning to an absent key
  appends it, and `del` removes the entry.
- `matcher.dfy` (module `Matcher`): `Match`, the specification of
  `find_announce_match`, and its properties. These cover the empty table,
  supersession, staleness, echoes, new lineages, re-announces, the effect of
  every outcome, and a worked scenario.
- `forwarding.dfy` (module `Forwarding`): messages, the send sequences of
  announce flooding (`Broadcast`, `FloodExcept`) and of peel forwarding
  (`Peel`), and the bounded chain search of origination (`RouteStep`,
  `Originate`).
- `router.dfy` (module `RouterNode`): the `Router` class. It holds the table
  it updates in place, the transport log it appends sends to (`outbox`) and
  the output-sink log (`accepted`). Its methods `Announce`, `ResendAnnounce`,
  `FindAnnounceMatch`, `ReceiveMessage` and `SendMessage` are proved against
  the functions above. `ForwardPeeled` is the forwarding loop of
  `receive_message`'s data branch, written as its own method.

Inputs instead of effects: `H` is a parameter of the model, and no property
depends on it being SHA-256. The node's 8-byte time-bucket encoding (`stamp`)
is passed in, so the identity is `CurrentIdentity(H, name, stamp)`. The bound
`diam` is a field. The constructor sets it to 1000, as the source does, and
the specification functions take it as a parameter.

Two consequences of the code are worth stating:

- The forwarding loop (router.py:64-69) has no `break`, so every entry with
  `H(k)` equal to the receiver gets exactly one copy, in table order
  (`Peel`, `PeelSingle`, `PeelAppend`, `PeelComplete`).
- Both walks hash before they compare. A key equal to the announced hash
  therefore passes neither walk only if it lies on no cycle of `H` of length
  at most `diam` (`ReachesFixedPoint` shows the shortest such cycle).
  `MatchReannounce` requires this, and also that no other key is related
  to the announced hash.

## Model

| member | source | states |
|---|---|---|
| Chain.Walk | 05-mixnets/Drastijk-router-python/router.py:85-97 | a bounded walk that hashes before each comparison returns true exactly when some `Iter(from, k)` with `1 <= k <= diam` equals the goal |
| Chain.ReachesFixedPoint | 05-mixnets/Drastijk-router-python/router.py:86-97 | a fixed point of `H` is found by either walk from itself, so a key equal to the announced hash can pass a walk |
| RoutingTable.Keys | 05-mixnets/Drastijk-router-python/router.py:84 | the keys are listed in table order, one per entry |
| RoutingTable.Lookup | 05-mixnets/Drastijk-router-python/router.py:77-79 | a lookup finds an address exactly when the hash is a key, and the address found belongs to an entry for that key |
| RoutingTable.LookupAt | 05-mixnets/Drastijk-router-python/router.py:79 | when keys are distinct, a lookup of any entry's key returns that entry's address |
| RoutingTable.Assign | 05-mixnets/Drastijk-router-python/router.py:100 | dict assignment: a present key keeps its position, an absent key is appended at the end; the key gets the new address and every other key keeps its address |
| RoutingTable.AssignDistinct | 05-mixnets/Drastijk-router-python/router.py:100 | assignment keeps the keys distinct |
| RoutingTable.RemoveLookup | 05-mixnets/Drastijk-router-python/router.py:90 | dict deletion: the key becomes absent and every other key keeps its address |
| RoutingTable.RemoveCut | 05-mixnets/Drastijk-router-python/router.py:90 | deleting a key held by exactly one entry cuts out exactly that entry, so the other entries keep their order |
| RoutingTable.RemoveAt | 05-mixnets/Drastijk-router-python/router.py:90 | in a table with distinct keys, deleting the key at position `i` cuts out that entry; the rest stay distinct and keep their addresses |
| Matcher.MatchSkip | 05-mixnets/Drastijk-router-python/router.py:84-98 | keys related to neither walk are passed over without any effect on the outcome |
| Matcher.MatchEmpty | 05-mixnets/Drastijk-router-python/router.py:84-101 | on an empty table the announce is propagated and the table becomes exactly `{target -> addr}` |
| Matcher.MatchSupersedes | 05-mixnets/Drastijk-router-python/router.py:84-92 | suppose the first related key in table order is reached by walking from the target; then that entry is cut out, `target -> addr` is assigned, the result is true, keys stay distinct, and no other key changes |
| Matcher.MatchStale | 05-mixnets/Drastijk-router-python/router.py:93-98 | suppose the first related key reaches the target but is not reached from it; then the result is false and the table is exactly unchanged |
| Matcher.MatchEchoStale | 05-mixnets/Drastijk-router-python/router.py:93-98 | an announce of a held key that has been relayed `k` times (`1 <= k <= diam`) is dropped with the table unchanged, provided that key is the first related one and the echo does not reach it |
| Matcher.MatchNewLineage | 05-mixnets/Drastijk-router-python/router.py:99-101 | a target related to no key is propagated and assigned with dict semantics |
| Matcher.MatchReannounce | 05-mixnets/Drastijk-router-python/router.py:86-100 | suppose an existing hash is announced again and no key, that hash included, is related to it; then its address is overwritten in place, the key order is unchanged, and the announce is propagated |
| Matcher.MatchFromEffect | 05-mixnets/Drastijk-router-python/router.py:83-101 | for a scan resumed at any position: a false result leaves the table unchanged; a true result maps the target to the new address; every other key keeps its address or is deleted; keys stay distinct |
| Matcher.MatchEffect | 05-mixnets/Drastijk-router-python/router.py:83-101 | the same effect for the whole matcher, which therefore keeps the dict invariant |
| Matcher.MatchScenario | 05-mixnets/Drastijk-router-python/router.py:83-92 | with `diam = 5` and table `{H^3(x) -> "addr1"}`, announcing `x` from `"addr2"` returns true and leaves exactly `{x -> "addr2"}` |
| Forwarding.Broadcast | 05-mixnets/Drastijk-router-python/router.py:38-39 | one send per entrypoint, in list order, each carrying the same message |
| Forwarding.FloodExceptSends | 05-mixnets/Drastijk-router-python/router.py:45-47 | the re-flood sends the message once for each entrypoint occurrence other than the sender (count equals the list length minus the sender's multiplicity) and never sends to the sender |
| Forwarding.FloodExceptAppend | 05-mixnets/Drastijk-router-python/router.py:45-47 | the re-flood follows list order: flooding a concatenation floods the first part, then the second |
| Forwarding.FloodExceptAll | 05-mixnets/Drastijk-router-python/router.py:38-47 | when the sender is not an entrypoint, the re-flood reaches every entrypoint, like the node's own announce |
| Forwarding.Peel | 05-mixnets/Drastijk-router-python/router.py:63-69 | every forwarded copy keeps the type and payload, has a receiver `k` with `H(k)` equal to the original receiver, and goes to the address the table holds for `k` |
| Forwarding.PeelSingle | 05-mixnets/Drastijk-router-python/router.py:64-69 | a single entry yields exactly one copy, with the receiver rewritten to its key, when its key hashes to the receiver, and none otherwise |
| Forwarding.PeelComplete | 05-mixnets/Drastijk-router-python/router.py:64-69 | there is no early exit: every entry whose key hashes to the receiver receives a copy with the receiver rewritten to its key |
| Forwarding.PeelAppend | 05-mixnets/Drastijk-router-python/router.py:64-69 | forwarding follows table order: peeling a concatenation peels the first part, then the second |
| Forwarding.PeelNone | 05-mixnets/Drastijk-router-python/router.py:64-66 | with no entry one hash step below the receiver, nothing is forwarded |
| Forwarding.RouteStep | 05-mixnets/Drastijk-router-python/router.py:75-80 | the search returns the first step `s` (`j < s <= diam`) whose chain value is a key; if it returns none, no step in that range hits |
| Forwarding.Originate | 05-mixnets/Drastijk-router-python/router.py:71-81 | a send happens exactly when some `Iter(h0, s)` with `1 <= s <= diam` is a key (`h0` itself is never tested); the one send is an `"M"` message carrying the payload, with receiver the first such chain value, to that key's address; otherwise the result is "route not found" |
| RouterNode.Router.constructor | 05-mixnets/Drastijk-router-python/router.py:10-19 | a new router has `diam = 1000`, an empty table and empty logs |
| RouterNode.Router.Announce | 05-mixnets/Drastijk-router-python/router.py:33-39 | appends to the transport log, once per entrypoint and in order, an `"a"` message with empty payload and receiver `H(name ++ stamp)` |
| RouterNode.Router.ResendAnnounce | 05-mixnets/Drastijk-router-python/router.py:43-47 | appends, in entrypoint order, the announce with its receiver hashed once more, sent to each entrypoint other than the sender |
| RouterNode.Router.FindAnnounceMatch | 05-mixnets/Drastijk-router-python/router.py:83-101 | the returned flag and the new table are exactly the outcome of `Match` on the old table, and keys stay distinct |
| RouterNode.Router.ReceiveMessage | 05-mixnets/Drastijk-router-python/router.py:49-69 | an announce updates the table by `Match` and is re-flooded exactly when the match is true, otherwise nothing is sent; a data message (`"M"` or `"m"`) for the node's own identity is delivered once to the sink with nothing sent; any other data message is forwarded by `Peel` with nothing delivered; any other type changes nothing |
| RouterNode.Router.ForwardPeeled | 05-mixnets/Drastijk-router-python/router.py:63-69 | appends exactly the sends of `Peel` for the current table, in table order |
| RouterNode.Router.SendMessage | 05-mixnets/Drastijk-router-python/router.py:71-81 | appends exactly the send of `Originate` and reports `Sent`, or appends nothing and reports `RouteNotFound` |

## Left out

- The announce timer (`_schedule_next_announce`, router.py:25-31) and the re-arm call at router.py:41 are left out. They are wall-clock timing on a background thread, and the `Utilities.get_hour_start_ns` helper they call is not part of this model.
- The clock and the hour-bucket encoding (router.py:22-23) are left out. The 8-byte bucket encoding is an input, `stamp`.
- SHA-256 itself is the parameter `H`, and the model assumes nothing about it. Properties that rely on collision resistance, such as rotating identities being unlinkable, are not stated.
- Serialization (`serialize`/`deserialize`) is left out, because its source is not part of this model. Messages are `Message` values, and malformed input bytes are not modelled.
- The transport (`io.subscribe`, `io.send_message`) and the output sink are modelled only as append-only logs. The debug `print` at router.py:68 is left out.
- Concurrency is left out. Every operation runs sequentially and atomically; the unlocked table access from transport callbacks is not modelled.
- The node name and the sender key are taken already encoded as bytes; `str.encode()` (router.py:34, 56, 72) is outside the model.
- `contacts` is stored in the class but never read, as in the source.
- The exception raised at router.py:81 is modelled as the result `RouteNotFound`.
- `RoutingTable.Remove` accepts any key, and deleting an absent key changes nothing, whereas Python's `del` raises `KeyError`. The model only ever removes a key the scan has just read from the table (router.py:90), so that error cannot arise and is not modelled.
- The `del` at router.py:90 happens during iteration over the table, but `return` follows at once, so no iteration-invalidation error exists to model.
