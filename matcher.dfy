/**
 The announce matcher: what `find_announce_match` does to the routing table
 when a peer announces the identity hash `target` from address `addr`.

 The keys are scanned in table order. For each existing key `e` the matcher
 first walks forward from `target` (does `target` reach `e`? then `target` is
 the fresher identity of that lineage and supersedes `e`), then walks forward
 from `e` (does `e` reach `target`? then the announce is stale). The first key
 that passes either test decides; a target related to no key is a new lineage.
 */
module Matcher {
  import opened Chain
  import opened RoutingTable

  /** The decision: whether to re-flood the announce, and the new table. */
  datatype Outcome = Outcome(propagate: bool, table: Table)

  /** `e` passes one of the two walks for `target`. */
  ghost predicate Related(H: Hasher, diam: nat, target: Hash, e: Hash)
  {
    Reaches(H, target, e, diam) || Reaches(H, e, target, diam)
  }

  /** The scan, resumed at position `i` of the table `t` it was started on. */
  ghost function MatchFrom(H: Hasher, diam: nat, t: Table, i: nat, target: Hash, addr: Address): Outcome
    decreases |t| - i
  {
    if i >= |t| then Outcome(true, Assign(t, target, addr))
    else if Reaches(H, target, t[i].key, diam) then Outcome(true, Assign(Remove(t, t[i].key), target, addr))
    else if Reaches(H, t[i].key, target, diam) then Outcome(false, t)
    else MatchFrom(H, diam, t, i + 1, target, addr)
  }

  /** The whole matcher on table `t`. */
  ghost function Match(H: Hasher, diam: nat, t: Table, target: Hash, addr: Address): Outcome
  {
    MatchFrom(H, diam, t, 0, target, addr)
  }

  /** Keys related to neither walk are passed over without effect. */
  lemma {:induction false} MatchSkip(H: Hasher, diam: nat, t: Table, i: nat, n: nat, target: Hash, addr: Address)
    requires i <= n <= |t|
    requires forall j :: i <= j < n ==> !Related(H, diam, target, t[j].key)
    ensures MatchFrom(H, diam, t, i, target, addr) == MatchFrom(H, diam, t, n, target, addr)
    decreases n - i
  {
    if i < n {
      MatchSkip(H, diam, t, i + 1, n, target, addr);
    }
  }

  /** On an empty table the target is a new lineage: it is propagated and the
      table becomes exactly `{target -> addr}`. */
  lemma MatchEmpty(H: Hasher, diam: nat, target: Hash, addr: Address)
    ensures Match(H, diam, [], target, addr) == Outcome(true, [Entry(target, addr)])
  {
  }

  /** Supersession: when the first related key `t[i]` is reached by walking
      from `target`, that key is deleted, `target -> addr` is set, the announce
      is propagated, and no other key changes. */
  lemma MatchSupersedes(H: Hasher, diam: nat, t: Table, i: nat, target: Hash, addr: Address)
    requires DistinctKeys(t) && i < |t|
    requires forall j :: 0 <= j < i ==> !Related(H, diam, target, t[j].key)
    requires Reaches(H, target, t[i].key, diam)
    ensures Match(H, diam, t, target, addr) == Outcome(true, Assign(t[..i] + t[i + 1..], target, addr))
    ensures var r := Match(H, diam, t, target, addr).table;
      && DistinctKeys(r)
      && Lookup(r, target) == Some(addr)
      && (t[i].key != target ==> Lookup(r, t[i].key) == None)
      && forall k :: k != target && k != t[i].key ==> Lookup(r, k) == Lookup(t, k)
  {
    MatchSkip(H, diam, t, 0, i, target, addr);
    RemoveAt(t, i);
    AssignDistinct(t[..i] + t[i + 1..], target, addr);
  }

  /** Staleness: when the first related key `t[i]` is not reached from
      `target` but reaches it, the announce is dropped and the table is left
      exactly as it was. */
  lemma MatchStale(H: Hasher, diam: nat, t: Table, i: nat, target: Hash, addr: Address)
    requires i < |t|
    requires forall j :: 0 <= j < i ==> !Related(H, diam, target, t[j].key)
    requires !Reaches(H, target, t[i].key, diam) && Reaches(H, t[i].key, target, diam)
    ensures Match(H, diam, t, target, addr) == Outcome(false, t)
  {
    MatchSkip(H, diam, t, 0, i, target, addr);
  }

  /** An echo of an announce the table already holds: after `k` relays
      (`1 <= k <= diam`) the flood carries `H^k(e)` for the held key `e`; if
      `e` is the first related key and the echo does not itself reach `e`,
      the echo is dropped and the table is unchanged. */
  lemma MatchEchoStale(H: Hasher, diam: nat, t: Table, i: nat, k: nat, addr: Address)
    requires i < |t| && 1 <= k <= diam
    requires forall j :: 0 <= j < i ==> !Related(H, diam, Iter(H, t[i].key, k), t[j].key)
    requires !Reaches(H, Iter(H, t[i].key, k), t[i].key, diam)
    ensures Match(H, diam, t, Iter(H, t[i].key, k), addr) == Outcome(false, t)
  {
    assert Reaches(H, t[i].key, Iter(H, t[i].key, k), diam);
    MatchStale(H, diam, t, i, Iter(H, t[i].key, k), addr);
  }

  /** A new lineage: when no key is related to `target`, the announce is
      propagated and `target -> addr` is assigned, appended at the end. */
  lemma MatchNewLineage(H: Hasher, diam: nat, t: Table, target: Hash, addr: Address)
    requires forall j :: 0 <= j < |t| ==> !Related(H, diam, target, t[j].key)
    ensures Match(H, diam, t, target, addr) == Outcome(true, Assign(t, target, addr))
  {
    MatchSkip(H, diam, t, 0, |t|, target, addr);
  }

  /** Re-announcing a hash already in the table, when no key (the hash itself
      included, so it lies on no short cycle of `H`) is related to it,
      overwrites its address in place and is propagated. */
  lemma MatchReannounce(H: Hasher, diam: nat, t: Table, target: Hash, addr: Address)
    requires target in Keys(t)
    requires forall j :: 0 <= j < |t| ==> !Related(H, diam, target, t[j].key)
    ensures Match(H, diam, t, target, addr).propagate
    ensures Keys(Match(H, diam, t, target, addr).table) == Keys(t)
    ensures forall k :: Lookup(Match(H, diam, t, target, addr).table, k) == if k == target then Some(addr) else Lookup(t, k)
  {
    MatchNewLineage(H, diam, t, target, addr);
  }

  /** Every outcome: a dropped announce leaves the table unchanged; a
      propagated one maps `target` to `addr`, keeps every other key's address
      or deletes the key, and keeps the keys distinct. */
  lemma {:induction false} MatchFromEffect(H: Hasher, diam: nat, t: Table, i: nat, target: Hash, addr: Address)
    requires DistinctKeys(t)
    ensures var o := MatchFrom(H, diam, t, i, target, addr);
      && DistinctKeys(o.table)
      && (!o.propagate ==> o.table == t)
      && (o.propagate ==> Lookup(o.table, target) == Some(addr))
      && forall k :: k != target ==> Lookup(o.table, k) == Lookup(t, k) || Lookup(o.table, k) == None
    decreases |t| - i
  {
    if i >= |t| {
      AssignDistinct(t, target, addr);
    } else {
      if Reaches(H, target, t[i].key, diam) {
        RemoveAt(t, i);
        AssignDistinct(Remove(t, t[i].key), target, addr);
      } else if !Reaches(H, t[i].key, target, diam) {
        MatchFromEffect(H, diam, t, i + 1, target, addr);
      }
    }
  }

  /** The whole matcher keeps the dict invariant and has the effect above. */
  lemma MatchEffect(H: Hasher, diam: nat, t: Table, target: Hash, addr: Address)
    requires DistinctKeys(t)
    ensures var o := Match(H, diam, t, target, addr);
      && DistinctKeys(o.table)
      && (!o.propagate ==> o.table == t)
      && (o.propagate ==> Lookup(o.table, target) == Some(addr))
      && forall k :: k != target ==> Lookup(o.table, k) == Lookup(t, k) || Lookup(o.table, k) == None
  {
    MatchFromEffect(H, diam, t, 0, target, addr);
  }

  /** A table holding `e = H^3(x) -> "addr1"`, with chain bound 5: announcing
      `x` from `"addr2"` supersedes `e` and leaves exactly `x -> "addr2"`. */
  lemma MatchScenario(H: Hasher, x: Hash)
    ensures Match(H, 5, [Entry(Iter(H, x, 3), "addr1")], x, "addr2") == Outcome(true, [Entry(x, "addr2")])
  {
    var e := Iter(H, x, 3);
    assert 1 <= 3 <= 5 && Iter(H, x, 3) == e;
    assert Remove([Entry(e, "addr1")], e) == [];
  }
}
