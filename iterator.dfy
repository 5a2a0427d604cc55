// The forward iterator of src/AgHashTable_iter.h.
//
// The iterator belongs to a variant of the table whose hash values lead to
// aggregate nodes, one per live hash value, each holding the chain of keys
// with that hash. That variant's class body is not part of this model; its
// contents are viewed here as a map from live hash value to its non-empty
// chain, and `getHashAggr` as a lookup in that map. A node is named by its
// aggregate's hash and its position in the aggregate's chain.
module HashTableIter {
  import opened Common

  /** A node of the table: position `index` in the chain of the aggregate for `hash`. */
  datatype NodeRef = NodeRef(hash: nat, index: nat)

  /** The table an iterator walks, seen through its aggregates. */
  class AggregateTable<K> {
    const hash: K -> nat
    // the width of hash_t in bits; this variant places no bound on it
    const hashBits: nat
    // getHashAggr(h) is non-null exactly for the hash values in this map
    const aggregates: map<nat, seq<K>>

    /** Every aggregate has a hash value of hash_t, at least one node, and
        only keys with that hash. */
    ghost predicate Valid()
    {
      && hashBits >= 1
      && forall h :: h in aggregates ==>
           && h < Pow2(hashBits)
           && aggregates[h] != []
           && forall i :: 0 <= i < |aggregates[h]| ==> hash(aggregates[h][i]) == h
    }

    /** The node exists in this table. */
    predicate HasNode(n: NodeRef)
    {
      n.hash in aggregates && n.index < |aggregates[n.hash]|
    }

    constructor (hash: K -> nat, hashBits: nat, aggregates: map<nat, seq<K>>)
      ensures this.hash == hash && this.hashBits == hashBits && this.aggregates == aggregates
    {
      this.hash := hash;
      this.hashBits := hashBits;
      this.aggregates := aggregates;
    }
  }

  /** The smallest live hash value in [from, max), if there is one. */
  function NextLive<K>(aggregates: map<nat, seq<K>>, from: nat, max: nat): (r: Option<nat>)
    ensures r.Some? ==> from <= r.value < max && r.value in aggregates
    ensures forall h :: from <= h < max && h in aggregates ==> r.Some? && r.value <= h
    decreases max - from
  {
    if from >= max then None
    else if from in aggregates then Some(from)
    else NextLive(aggregates, from + 1, max)
  }

  /** Node order of an iteration: by hash value, then along the chain. */
  predicate Before(a: NodeRef, b: NodeRef)
  {
    a.hash < b.hash || (a.hash == b.hash && a.index < b.index)
  }

  /** What prefix ++ makes of an iterator's node and aggregate pointers. */
  function Step<K>(table: Option<AggregateTable<K>>, node: Option<NodeRef>, aggr: Option<nat>): (Option<NodeRef>, Option<nat>)
    requires table.Some? && node.Some? && aggr.Some? ==> table.value.HasNode(node.value)
  {
    if table.None? || node.None? || aggr.None? then (node, aggr)
    else if node.value.index + 1 < |table.value.aggregates[node.value.hash]| then
      (Some(NodeRef(node.value.hash, node.value.index + 1)), aggr)
    else
      match NextLive(table.value.aggregates, aggr.value + 1, Pow2(table.value.hashBits))
      case None => (None, None)
      case Some(h) => (Some(NodeRef(h, 0)), Some(h))
  }

  /** next is the node of the table that comes right after n: a later node
      of the table with nothing of the table strictly between the two, or
      none exactly when the table has no node after n. */
  ghost predicate NextInOrder<K>(table: AggregateTable<K>, n: NodeRef, next: Option<NodeRef>)
  {
    && (next.Some? ==> table.HasNode(next.value) && Before(n, next.value))
    && (forall m :: table.HasNode(m) && Before(n, m) ==>
          next.Some? && (m == next.value || Before(next.value, m)))
  }

  /** From a node of a valid table, with the aggregate pointer on the node's
      own aggregate, ++ moves to the very next node in (hash, chain) order,
      keeping the aggregate pointer on the new node's aggregate, and to end
      (both pointers null) exactly when no later node exists. */
  lemma StepVisitsInOrder<K>(table: AggregateTable<K>, n: NodeRef)
    requires table.Valid() && table.HasNode(n)
    ensures var (next, aggr) := Step(Some(table), Some(n), Some(n.hash));
      && NextInOrder(table, n, next)
      && (next.Some? ==> aggr == Some(next.value.hash))
      && (next.None? ==> aggr.None?)
  {
    var max := Pow2(table.hashBits);
    if n.index + 1 >= |table.aggregates[n.hash]| {
      var r := NextLive(table.aggregates, n.hash + 1, max);
      forall m | table.HasNode(m) && Before(n, m)
        ensures r.Some? && (NodeRef(r.value, 0) == m || Before(NodeRef(r.value, 0), m))
      {
        assert n.hash < m.hash;
        assert m.hash < max;
      }
    }
  }

  class Iterator<K> {
    var node: Option<NodeRef>
    var aggr: Option<nat>
    const table: Option<AggregateTable<K>>

    /** The pointers name parts of a valid table: the node is a node of the
        table and the aggregate pointer is that node's own aggregate; end
        has both null. */
    ghost predicate Valid()
      reads this
    {
      table.Some? ==>
        && table.value.Valid()
        && (node.Some? <==> aggr.Some?)
        && (node.Some? ==> table.value.HasNode(node.value) && aggr.value == node.value.hash)
    }

    constructor (node: Option<NodeRef>, aggr: Option<nat>, table: Option<AggregateTable<K>>)
      ensures this.node == node && this.aggr == aggr && this.table == table
    {
      this.node := node;
      this.aggr := aggr;
      this.table := table;
    }

    /** Prefix ++: unchanged when a pointer is null; otherwise the next node
        of the chain, or else the head of the next live aggregate found by
        probing hash values upward, or end once the hash counter wraps to 0. */
    method Increment()
      requires Valid()
      modifies this
      ensures Valid()
      ensures (node, aggr) == Step(table, old(node), old(aggr))
      ensures table.Some? && old(node).Some? ==> NextInOrder(table.value, old(node).value, node)
    {
      if node.None? || aggr.None? || table.None? {
        return;
      }
      var t := table.value;
      var n := node.value;
      StepVisitsInOrder(t, n);
      if n.index + 1 < |t.aggregates[n.hash]| {
        node := Some(NodeRef(n.hash, n.index + 1));
        return;
      }
      var next := Probe(t.aggregates, aggr.value, Pow2(t.hashBits));
      if next.None? {
        node, aggr := None, None;
      } else {
        node, aggr := Some(NodeRef(next.value, 0)), next;
      }
    }

    /** The probe loop of prefix ++: hash values above `start` are tried in
        increasing order until one is live, or until the hash counter wraps to 0. */
    static method Probe(aggregates: map<nat, seq<K>>, start: nat, max: nat) returns (next: Option<nat>)
      requires start < max
      ensures next == NextLive(aggregates, start + 1, max)
    {
      var newHash := start;
      while true
        invariant start <= newHash < max
        invariant NextLive(aggregates, start + 1, max) == NextLive(aggregates, newHash + 1, max)
        decreases max - newHash
      {
        // ++newHash on a hash_t wraps to 0 after the largest hash value
        newHash := if newHash + 1 == max then 0 else newHash + 1;
        if newHash == 0 {
          return None;
        }
        if newHash in aggregates {
          return Some(newHash);
        }
      }
    }

    /** Postfix ++: a copy of the iterator as it was, with this one advanced as by prefix ++. */
    method PostIncrement() returns (res: Iterator<K>)
      requires Valid()
      modifies this
      ensures fresh(res) && res.node == old(node) && res.aggr == old(aggr) && res.table == table
      ensures Valid() && (node, aggr) == Step(table, old(node), old(aggr))
      ensures table.Some? && old(node).Some? ==> NextInOrder(table.value, old(node).value, node)
    {
      res := new Iterator(node, aggr, table);
      Increment();
    }

    /** operator*: the key of the current node, which hashes to the node's aggregate. */
    function Deref(): (k: K)
      reads this
      requires Valid() && node.Some? && table.Some?
      ensures k in table.value.aggregates[node.value.hash]
      ensures table.value.hash(k) == node.value.hash
    {
      table.value.aggregates[node.value.hash][node.value.index]
    }

    /** operator!=: the iterators are on different nodes or different tables. */
    function NotEquals(other: Iterator<K>): (r: bool)
      reads this, other
      ensures !r <==> node == other.node && table == other.table
    {
      node != other.node || table != other.table
    }

    /** operator==, as intended: the negation of operator!=. */
    function Equals(other: Iterator<K>): (r: bool)
      reads this, other
      ensures r <==> !NotEquals(other)
    {
      node == other.node && table == other.table
    }

    /** operator== relates an iterator to itself, and both ways round. */
    lemma EqualsIsSymmetric(other: Iterator<K>)
      ensures Equals(this)
      ensures Equals(other) == other.Equals(this)
    {
    }

    /** Equal valid iterators dereference to the same key. */
    lemma EqualIteratorsShareKey(other: Iterator<K>)
      requires Valid() && other.Valid() && node.Some? && table.Some? && Equals(other)
      ensures other.node.Some? && other.table.Some? && Deref() == other.Deref()
    {
    }
  }
}
