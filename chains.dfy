// Value-level facts about the table's chains. A table's contents are viewed
// as one chain (a sequence of keys, head first) per slot of each bucket; the
// counters of src/AgHashTable.h are sums over these chains.
module Chains {

  /** No two keys of the chain are `==`. */
  predicate NoDuplicates<K(==)>(s: seq<K>)
  {
    forall i, j :: 0 <= i < j < |s| ==> s[i] != s[j]
  }

  /** Number of key-nodes over the chains of one bucket. */
  function Nodes<K>(cs: seq<seq<K>>): nat
  {
    if cs == [] then 0 else Nodes(cs[..|cs| - 1]) + |cs[|cs| - 1]|
  }

  /** Number of non-empty chains (slots whose head pointer is not null). */
  function OccupiedSlots<K>(cs: seq<seq<K>>): nat
  {
    if cs == [] then 0 else OccupiedSlots(cs[..|cs| - 1]) + (if cs[|cs| - 1] == [] then 0 else 1)
  }

  /** The chain with the first key `==` k unlinked; the chain itself when no key matches. */
  function RemoveFirst<K(==)>(s: seq<K>, k: K): seq<K>
  {
    if s == [] then []
    else if s[0] == k then s[1..]
    else [s[0]] + RemoveFirst(s[1..], k)
  }

  lemma {:induction false} NodesUpdate<K>(cs: seq<seq<K>>, h: nat, c: seq<K>)
    requires h < |cs|
    ensures Nodes(cs[h := c]) + |cs[h]| == Nodes(cs) + |c|
  {
    var n := |cs| - 1;
    if h < n {
      assert cs[h := c][..n] == cs[..n][h := c];
      NodesUpdate(cs[..n], h, c);
    } else {
      assert cs[h := c][..n] == cs[..n];
    }
  }

  lemma {:induction false} OccupiedSlotsUpdate<K>(cs: seq<seq<K>>, h: nat, c: seq<K>)
    requires h < |cs|
    ensures OccupiedSlots(cs[h := c]) + (if cs[h] == [] then 0 else 1)
         == OccupiedSlots(cs) + (if c == [] then 0 else 1)
  {
    var n := |cs| - 1;
    if h < n {
      assert cs[h := c][..n] == cs[..n][h := c];
      OccupiedSlotsUpdate(cs[..n], h, c);
    } else {
      assert cs[h := c][..n] == cs[..n];
    }
  }

  /** Number of key-nodes over all buckets, each bucket being a sequence of chains. */
  function TotalNodes<K>(t: seq<seq<seq<K>>>): nat
  {
    if t == [] then 0 else TotalNodes(t[..|t| - 1]) + Nodes(t[|t| - 1])
  }

  /** Number of non-empty slots over all buckets. */
  function TotalOccupied<K>(t: seq<seq<seq<K>>>): nat
  {
    if t == [] then 0 else TotalOccupied(t[..|t| - 1]) + OccupiedSlots(t[|t| - 1])
  }

  lemma {:induction false} TotalNodesUpdate<K>(t: seq<seq<seq<K>>>, b: nat, cs: seq<seq<K>>)
    requires b < |t|
    ensures TotalNodes(t[b := cs]) + Nodes(t[b]) == TotalNodes(t) + Nodes(cs)
  {
    var n := |t| - 1;
    if b < n {
      assert t[b := cs][..n] == t[..n][b := cs];
      TotalNodesUpdate(t[..n], b, cs);
    } else {
      assert t[b := cs][..n] == t[..n];
    }
  }

  lemma {:induction false} TotalOccupiedUpdate<K>(t: seq<seq<seq<K>>>, b: nat, cs: seq<seq<K>>)
    requires b < |t|
    ensures TotalOccupied(t[b := cs]) + OccupiedSlots(t[b]) == TotalOccupied(t) + OccupiedSlots(cs)
  {
    var n := |t| - 1;
    if b < n {
      assert t[b := cs][..n] == t[..n][b := cs];
      TotalOccupiedUpdate(t[..n], b, cs);
    } else {
      assert t[b := cs][..n] == t[..n];
    }
  }

  /** A bucket of `size` slots, every chain empty. */
  function EmptyBucket<K>(size: nat): (cs: seq<seq<K>>)
    ensures |cs| == size && forall p :: 0 <= p < size ==> cs[p] == []
  {
    seq(size, _ => [])
  }

  /** `count` buckets of `size` slots each, every chain empty. */
  function EmptyTable<K>(count: nat, size: nat): (t: seq<seq<seq<K>>>)
    ensures |t| == count
    ensures forall b :: 0 <= b < count ==> t[b] == EmptyBucket(size)
  {
    seq(count, _ => EmptyBucket(size))
  }

  lemma {:induction false} EmptyBucketCounts<K>(size: nat)
    ensures Nodes(EmptyBucket<K>(size)) == 0
    ensures OccupiedSlots(EmptyBucket<K>(size)) == 0
  {
    if size > 0 {
      assert EmptyBucket<K>(size)[..size - 1] == EmptyBucket<K>(size - 1);
      EmptyBucketCounts<K>(size - 1);
    }
  }

  /** An empty table has no nodes and no occupied slot. */
  lemma {:induction false} EmptyTableCounts<K>(count: nat, size: nat)
    ensures TotalNodes(EmptyTable<K>(count, size)) == 0
    ensures TotalOccupied(EmptyTable<K>(count, size)) == 0
  {
    if count > 0 {
      assert EmptyTable<K>(count, size)[..count - 1] == EmptyTable<K>(count - 1, size);
      EmptyBucketCounts<K>(size);
      EmptyTableCounts<K>(count - 1, size);
    }
  }

  /** Erasing unlinks exactly the first match: the keys before it, then the keys after it. */
  lemma {:induction false} RemoveFirstAt<K>(s: seq<K>, k: K, i: nat)
    requires i < |s| && s[i] == k && k !in s[..i]
    ensures RemoveFirst(s, k) == s[..i] + s[i + 1..]
  {
    if i > 0 {
      assert s[1..][..i - 1] == s[1..i];
      assert k !in s[1..][..i - 1];
      RemoveFirstAt(s[1..], k, i - 1);
      assert s[..i] == [s[0]] + s[1..][..i - 1];
      assert s[i + 1..] == s[1..][i..];
    }
  }

  /** Erasing a key that is not in the chain leaves the chain as it is. */
  lemma {:induction false} RemoveFirstAbsent<K>(s: seq<K>, k: K)
    requires k !in s
    ensures RemoveFirst(s, k) == s
  {
    if s != [] {
      RemoveFirstAbsent(s[1..], k);
    }
  }

  /** Erasing removes one occurrence of k and nothing else. */
  lemma {:induction false} RemoveFirstMultiset<K>(s: seq<K>, k: K)
    ensures multiset(RemoveFirst(s, k)) == multiset(s) - multiset{k}
  {
    if s != [] {
      assert s == [s[0]] + s[1..];
      if s[0] != k {
        RemoveFirstMultiset(s[1..], k);
      }
    }
  }

  /** Erasing adds no key to the chain. */
  lemma {:induction false} RemoveFirstSubset<K>(s: seq<K>, k: K, x: K)
    requires x in RemoveFirst(s, k)
    ensures x in s
  {
    if s != [] && s[0] != k && x != s[0] {
      RemoveFirstSubset(s[1..], k, x);
    }
  }

  /** In a chain without duplicates, erasing k leaves no k behind and no duplicate. */
  lemma {:induction false} RemoveFirstNoDuplicates<K>(s: seq<K>, k: K)
    requires NoDuplicates(s)
    ensures NoDuplicates(RemoveFirst(s, k)) && k !in RemoveFirst(s, k)
  {
    if s != [] {
      var t := s[1..];
      assert NoDuplicates(t) by {
        forall i, j | 0 <= i < j < |t| ensures t[i] != t[j] {
          assert t[i] == s[i + 1] && t[j] == s[j + 1];
        }
      }
      assert s[0] !in t by {
        forall j | 0 <= j < |t| ensures t[j] != s[0] {
          assert t[j] == s[j + 1];
        }
      }
      if s[0] != k {
        RemoveFirstNoDuplicates(t, k);
        var r := RemoveFirst(t, k);
        if s[0] in r {
          RemoveFirstSubset(t, k, s[0]);
        }
        assert RemoveFirst(s, k) == [s[0]] + r;
        forall i, j | 0 <= i < j < |[s[0]] + r| ensures ([s[0]] + r)[i] != ([s[0]] + r)[j] {
          if i > 0 {
            assert ([s[0]] + r)[i] == r[i - 1] && ([s[0]] + r)[j] == r[j - 1];
          } else {
            assert ([s[0]] + r)[j] == r[j - 1];
          }
        }
      }
    }
  }

  /** Erasing k keeps every other key of the chain, and adds none. */
  lemma {:induction false} RemoveFirstKeepsOthers<K>(s: seq<K>, k: K, x: K)
    requires x != k
    ensures x in RemoveFirst(s, k) <==> x in s
  {
    if s != [] && s[0] != k {
      RemoveFirstKeepsOthers(s[1..], k, x);
      assert s == [s[0]] + s[1..];
    }
  }

  /** Linking an absent key at the tail keeps the chain free of duplicates. */
  lemma NoDuplicatesSnoc<K>(s: seq<K>, k: K)
    requires NoDuplicates(s) && k !in s
    ensures NoDuplicates(s + [k])
  {
  }

  /** Inserting an absent key at the tail and then erasing it restores the chain. */
  lemma {:induction false} InsertThenErase<K>(s: seq<K>, k: K)
    requires k !in s
    ensures RemoveFirst(s + [k], k) == s
  {
    assert (s + [k])[..|s|] == s;
    RemoveFirstAt(s + [k], k, |s|);
    assert (s + [k])[|s| + 1..] == [];
  }
}
