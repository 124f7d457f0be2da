/**
 The routing table: an insertion-ordered mapping from identity hashes to
 next-hop transport addresses, with the semantics of a Python dict.

 It is a sequence of entries with distinct keys. Assigning to a present key
 replaces its address in place; assigning to an absent key appends it;
 deleting a key removes its entry and keeps the order of the others.
 */
module RoutingTable {
  import opened Chain

  /** A transport address of a peer. */
  type Address = string

  datatype Entry = Entry(key: Hash, addr: Address)

  type Table = seq<Entry>

  /** The keys in iteration order. */
  function Keys(t: Table): (ks: seq<Hash>)
    ensures |ks| == |t|
    ensures forall i :: 0 <= i < |t| ==> ks[i] == t[i].key
  {
    if t == [] then [] else [t[0].key] + Keys(t[1..])
  }

  /** The dict invariant: every hash has at most one entry. */
  ghost predicate DistinctKeys(t: Table)
  {
    forall i, j :: 0 <= i < j < |t| ==> t[i].key != t[j].key
  }

  /** The address the table holds for `k`, if any. */
  function Lookup(t: Table, k: Hash): (r: Option<Address>)
    ensures r.Some? <==> k in Keys(t)
    ensures r.Some? ==> Entry(k, r.value) in t
  {
    if t == [] then None
    else if t[0].key == k then Some(t[0].addr)
    else Lookup(t[1..], k)
  }

  /** With distinct keys, every entry is what a lookup of its key finds. */
  lemma {:induction false} LookupAt(t: Table, i: nat)
    requires DistinctKeys(t) && i < |t|
    ensures Lookup(t, t[i].key) == Some(t[i].addr)
  {
    if i > 0 {
      DistinctTail(t);
      assert t[0].key != t[i].key;
      assert t[1..][i - 1] == t[i];
      LookupAt(t[1..], i - 1);
    }
  }

  /** `table[k] = a`: a present key keeps its position and gets the new
      address, an absent key is appended; no other key changes. */
  function Assign(t: Table, k: Hash, a: Address): (r: Table)
    ensures Keys(r) == if k in Keys(t) then Keys(t) else Keys(t) + [k]
    ensures forall j :: Lookup(r, j) == if j == k then Some(a) else Lookup(t, j)
  {
    if t == [] then [Entry(k, a)]
    else if t[0].key == k then [Entry(k, a)] + t[1..]
    else
      var rest := Assign(t[1..], k, a);
      assert Keys(t) == [t[0].key] + Keys(t[1..]);
      assert Keys([t[0]] + rest) == [t[0].key] + Keys(rest);
      [t[0]] + rest
  }

  /** Assignment keeps the keys distinct. */
  lemma AssignDistinct(t: Table, k: Hash, a: Address)
    requires DistinctKeys(t)
    ensures DistinctKeys(Assign(t, k, a))
  {
    var r := Assign(t, k, a);
    var kr, kt := Keys(r), Keys(t);
    forall x, y | 0 <= x < y < |r| ensures r[x].key != r[y].key {
      assert r[x].key == kr[x] && r[y].key == kr[y];
      if y < |t| {
        assert kr[x] == kt[x] && kr[y] == kt[y];
        assert t[x].key == kt[x] && t[y].key == kt[y];
      } else {
        assert kr[x] == kt[x] && kr[y] == k && k !in kt;
      }
    }
  }

  /** `del table[k]`: drops the entry for `k`. */
  function Remove(t: Table, k: Hash): Table
  {
    if t == [] then []
    else if t[0].key == k then Remove(t[1..], k)
    else [t[0]] + Remove(t[1..], k)
  }

  /** After `del table[k]` the key is absent and every other key keeps its
      address. */
  lemma {:induction false} RemoveLookup(t: Table, k: Hash)
    ensures forall j :: Lookup(Remove(t, k), j) == if j == k then None else Lookup(t, j)
  {
    if t != [] {
      RemoveLookup(t[1..], k);
    }
  }

  /** Deleting an absent key changes nothing. */
  lemma {:induction false} RemoveAbsent(t: Table, k: Hash)
    requires k !in Keys(t)
    ensures Remove(t, k) == t
  {
    if t != [] {
      assert Keys(t) == [t[0].key] + Keys(t[1..]);
      RemoveAbsent(t[1..], k);
    }
  }

  /** The tail of a table with distinct keys has distinct keys, none of them
      the head's key. */
  lemma DistinctTail(t: Table)
    requires DistinctKeys(t) && t != []
    ensures DistinctKeys(t[1..]) && t[0].key !in Keys(t[1..])
  {
    forall a, b | 0 <= a < b < |t[1..]| ensures t[1..][a].key != t[1..][b].key {
      assert t[1..][a] == t[a + 1] && t[1..][b] == t[b + 1];
    }
    forall j | 0 <= j < |t[1..]| ensures Keys(t[1..])[j] != t[0].key {
      assert t[1..][j] == t[j + 1];
    }
  }

  /** Cutting one entry out of a table with distinct keys keeps them distinct. */
  lemma CutDistinct(t: Table, i: nat)
    requires DistinctKeys(t) && i < |t|
    ensures DistinctKeys(t[..i] + t[i + 1..])
  {
    var r := t[..i] + t[i + 1..];
    forall a, b | 0 <= a < b < |r| ensures r[a].key != r[b].key {
      var a' := if a < i then a else a + 1;
      var b' := if b < i then b else b + 1;
      assert r[a] == t[a'] && r[b] == t[b'];
    }
  }

  /** Deleting the key at position `i`, when no other entry has that key,
      cuts out exactly that entry, so the others keep their order. */
  lemma {:induction false} RemoveCut(t: Table, i: nat)
    requires i < |t|
    requires forall j :: 0 <= j < |t| && j != i ==> t[j].key != t[i].key
    ensures Remove(t, t[i].key) == t[..i] + t[i + 1..]
  {
    var k := t[i].key;
    if i == 0 {
      assert k !in Keys(t[1..]) by {
        forall j | 0 <= j < |t[1..]| ensures Keys(t[1..])[j] != k {
          assert t[1..][j] == t[j + 1];
        }
      }
      RemoveAbsent(t[1..], k);
      assert t[..0] + t[1..] == t[1..];
    } else {
      var tail := t[1..];
      assert t[0].key != k;
      assert tail[i - 1] == t[i];
      assert forall j :: 0 <= j < |tail| && j != i - 1 ==> tail[j].key != tail[i - 1].key by {
        forall j | 0 <= j < |tail| && j != i - 1 ensures tail[j].key != tail[i - 1].key {
          assert tail[j] == t[j + 1];
        }
      }
      RemoveCut(tail, i - 1);
      assert t[..i] == [t[0]] + tail[..i - 1];
      assert t[i + 1..] == tail[i..];
    }
  }

  /** The cut leaves a table whose keys are still distinct. */
  lemma RemoveAt(t: Table, i: nat)
    requires DistinctKeys(t) && i < |t|
    ensures Remove(t, t[i].key) == t[..i] + t[i + 1..]
    ensures DistinctKeys(Remove(t, t[i].key))
    ensures forall j :: Lookup(Remove(t, t[i].key), j) == if j == t[i].key then None else Lookup(t, j)
  {
    RemoveLookup(t, t[i].key);
    RemoveCut(t, i);
    CutDistinct(t, i);
  }
}
