// The chained hash set of src/AgHashTable.h.
//
// A key's hash value (at most 16 bits) is split in two: the high half picks
// one of BucketCount buckets, the low half a slot in that bucket's slot array.
// The slot array is allocated on the first insert into its bucket. Each slot
// heads a singly linked chain of keys; here a chain is the sequence of its
// keys, head first, stored in the slot.
module HashTable {
  import opened Common
  import opened Chains

  /** sizeof(hash_t): the hash returns an unsigned type of one or two bytes. */
  predicate ValidHashBytes(hashBytes: nat)
  {
    hashBytes == 1 || hashBytes == 2
  }

  /** sMaxHashValueLog = sizeof(hash_t) << 3. */
  function MaxHashValueLog(hashBytes: nat): nat
  {
    hashBytes * 8
  }

  /** sBucketSizeLog = sMaxHashValueLog >> 1. */
  function BucketSizeLog(hashBytes: nat): nat
  {
    MaxHashValueLog(hashBytes) / 2
  }

  /** sBucketCountLog = sMaxHashValueLog >> 1. */
  function BucketCountLog(hashBytes: nat): nat
  {
    MaxHashValueLog(hashBytes) / 2
  }

  /** sMaxHashValue: the number of hash values. */
  function MaxHashValue(hashBytes: nat): nat
  {
    if hashBytes == 1 then 256 else 65536
  }

  /** sBucketSize: the number of slots in a bucket. */
  function BucketSize(hashBytes: nat): nat
  {
    if hashBytes == 1 then 16 else 256
  }

  /** sBucketCount: the number of buckets. */
  function BucketCount(hashBytes: nat): nat
  {
    if hashBytes == 1 then 16 else 256
  }

  /** The constants are the powers of two that the source computes by shifting
      1 left by the logarithms above. */
  lemma ConstantsArePowers(hashBytes: nat)
    requires ValidHashBytes(hashBytes)
    ensures MaxHashValue(hashBytes) == Pow2(MaxHashValueLog(hashBytes))
    ensures BucketSize(hashBytes) == Pow2(BucketSizeLog(hashBytes))
    ensures BucketCount(hashBytes) == Pow2(BucketCountLog(hashBytes))
  {
    assert Pow2(4) == 16;
    assert Pow2(8) == 256 by { Pow2Add(4, 4); }
    assert Pow2(16) == 65536 by { Pow2Add(8, 8); }
  }

  lemma {:induction false} Pow2Add(m: nat, n: nat)
    ensures Pow2(m + n) == Pow2(m) * Pow2(n)
  {
    if n > 0 {
      Pow2Add(m, n - 1);
    }
  }

  /** The static assertion that the buckets' slots cover the hash values exactly. */
  lemma SlotsCoverHashes(hashBytes: nat)
    requires ValidHashBytes(hashBytes)
    ensures BucketSize(hashBytes) * BucketCount(hashBytes) == MaxHashValue(hashBytes)
  {
  }

  /** bucketId = keyHash >> sBucketSizeLog. */
  function BucketId(hashBytes: nat, h: nat): nat
  {
    // the quotient by BucketSize(hashBytes), written per width
    if hashBytes == 1 then h / 16 else h / 256
  }

  /** bucketPos = keyHash & ((1 << sBucketSizeLog) - 1). */
  function BucketPos(hashBytes: nat, h: nat): nat
  {
    // the remainder by BucketSize(hashBytes), written per width
    if hashBytes == 1 then h % 16 else h % 256
  }

  /** Every hash value addresses a bucket that exists and a slot inside it,
      and distinct hash values address distinct (bucket, slot) pairs. */
  lemma AddressSplit(hashBytes: nat, h: nat)
    requires ValidHashBytes(hashBytes) && h < MaxHashValue(hashBytes)
    ensures BucketId(hashBytes, h) < BucketCount(hashBytes)
    ensures BucketPos(hashBytes, h) < BucketSize(hashBytes)
    ensures BucketId(hashBytes, h) * BucketSize(hashBytes) + BucketPos(hashBytes, h) == h
  {
  }

  /** For a one-byte hash, the source's shift and mask are the quotient
      and remainder by BucketSize(1) used above. */
  lemma ShiftMaskIsDivMod8(h: bv8)
    ensures (h >> 4) as int == h as int / BucketSize(1)
    ensures (h & 0xF) as int == h as int % BucketSize(1)
  {
  }

  /** The same for a two-byte hash and BucketSize(2). */
  lemma ShiftMaskIsDivMod16(h: bv16)
    ensures (h >> 8) as int == h as int / BucketSize(2)
    ensures (h & 0xFF) as int == h as int % BucketSize(2)
  {
    ShiftIsQuotient16(h);
    LowByteConversion16(h);
    assert h as int % 256 == h as int - (h as int / 256) * 256;
    var low := h & 0xFF;
    assert low == h - (h >> 8) * 256;
  }

  lemma ShiftIsQuotient16(h: bv16)
    ensures (h >> 8) as int == h as int / 256
  {
  }

  lemma LowByteConversion16(h: bv16)
    ensures (h - (h >> 8) * 256) as int == h as int - (h >> 8) as int * 256
  {
  }

  /** bucket_t: the bucket's key count and its (lazily allocated) slot array,
      each slot holding the chain it heads. */
  datatype Bucket<K> = Bucket(size: nat, slots: Option<array<seq<K>>>)

  /** Sum of the buckets' key counts. */
  function SumSizes<K>(bs: seq<Bucket<K>>): nat
  {
    if bs == [] then 0 else SumSizes(bs[..|bs| - 1]) + bs[|bs| - 1].size
  }

  /** The chain at slot p of bucket b of the view t; empty outside the table. */
  ghost function ChainAt<K>(t: seq<seq<seq<K>>>, b: nat, p: nat): seq<K>
  {
    if b < |t| && p < |t[b]| then t[b][p] else []
  }

  /** The view t with the chain at slot p of bucket b replaced by c. */
  ghost function RelinkAt<K>(t: seq<seq<seq<K>>>, b: nat, p: nat, c: seq<K>): seq<seq<seq<K>>>
  {
    if b < |t| && p < |t[b]| then t[b := t[b][p := c]] else t
  }

  /** Relinking one chain changes that chain and no other. */
  lemma ChainAtRelinkAt<K>(t: seq<seq<seq<K>>>, b: nat, p: nat, c: seq<K>, b': nat, p': nat)
    requires b < |t| && p < |t[b]|
    ensures ChainAt(RelinkAt(t, b, p, c), b', p') == if b' == b && p' == p then c else ChainAt(t, b', p')
  {
  }

  /** The keys held by the chains of the view t. */
  ghost function KeysOf<K>(t: seq<seq<seq<K>>>): set<K>
  {
    set b, p, i | 0 <= b < |t| && 0 <= p < |t[b]| && 0 <= i < |t[b][p]| :: t[b][p][i]
  }

  /** Linking a key at the tail of one chain adds exactly that key to the view's keys. */
  lemma KeysOfRelinkSnoc<K>(t: seq<seq<seq<K>>>, b: nat, p: nat, key: K)
    requires b < |t| && p < |t[b]|
    ensures KeysOf(RelinkAt(t, b, p, t[b][p] + [key])) == KeysOf(t) + {key}
  {
    var t' := RelinkAt(t, b, p, t[b][p] + [key]);
    forall x | x in KeysOf(t) + {key} ensures x in KeysOf(t') {
      if x == key {
        assert t'[b][p][|t[b][p]|] == key;
      } else {
        var b', p', i :| 0 <= b' < |t| && 0 <= p' < |t[b']| && 0 <= i < |t[b'][p']| && t[b'][p'][i] == x;
        assert t'[b'][p'][i] == x;
      }
    }
    forall x | x in KeysOf(t') ensures x in KeysOf(t) + {key} {
      var b', p', i :| 0 <= b' < |t'| && 0 <= p' < |t'[b']| && 0 <= i < |t'[b'][p']| && t'[b'][p'][i] == x;
      if (b' != b || p' != p || i < |t[b][p]|) {
        assert t[b'][p'][i] == x;
      }
    }
  }

  /** Unlinking the first match of a key from the one chain that can hold it,
      a chain without duplicates, removes exactly that key from the view's keys. */
  lemma KeysOfRelinkRemove<K>(t: seq<seq<seq<K>>>, b: nat, p: nat, key: K)
    requires b < |t| && p < |t[b]| && NoDuplicates(t[b][p])
    requires forall b', p', i :: 0 <= b' < |t| && 0 <= p' < |t[b']| && 0 <= i < |t[b'][p']| && t[b'][p'][i] == key ==>
               b' == b && p' == p
    ensures KeysOf(RelinkAt(t, b, p, RemoveFirst(t[b][p], key))) == KeysOf(t) - {key}
  {
    var c := RemoveFirst(t[b][p], key);
    var t' := RelinkAt(t, b, p, c);
    RemoveFirstNoDuplicates(t[b][p], key);
    forall x | x in KeysOf(t) - {key} ensures x in KeysOf(t') {
      var b', p', i :| 0 <= b' < |t| && 0 <= p' < |t[b']| && 0 <= i < |t[b'][p']| && t[b'][p'][i] == x;
      if b' == b && p' == p {
        RemoveFirstKeepsOthers(t[b][p], key, x);
        var j :| 0 <= j < |c| && c[j] == x;
        assert t'[b][p][j] == x;
      } else {
        assert t'[b'][p'][i] == x;
      }
    }
    forall x | x in KeysOf(t') ensures x in KeysOf(t) - {key} {
      var b', p', i :| 0 <= b' < |t'| && 0 <= p' < |t'[b']| && 0 <= i < |t'[b'][p']| && t'[b'][p'][i] == x;
      if b' == b && p' == p {
        assert x in c;
        RemoveFirstSubset(t[b][p], key, x);
        var j :| 0 <= j < |t[b][p]| && t[b][p][j] == x;
      } else {
        assert t[b'][p'][i] == x;
      }
    }
  }

  /** The value-level invariant of a table whose buckets are bs and whose
      view is t: a chain per slot of every bucket, every key in the chain its
      hash selects, no chain holding two `==` keys, each bucket's mSize
      counting its nodes, mSize counting all nodes and mSlots the non-empty
      slots. */
  ghost predicate Consistent<K>(hashBytes: nat, hash: K -> nat, bs: seq<Bucket<K>>,
                                    t: seq<seq<seq<K>>>, size: nat, slots: nat)
  {
    && ValidHashBytes(hashBytes)
    && |bs| == |t| == BucketCount(hashBytes)
    && (forall b :: 0 <= b < |t| ==> |t[b]| == BucketSize(hashBytes))
    && (forall b, p, i :: 0 <= b < |t| && 0 <= p < |t[b]| && 0 <= i < |t[b][p]| ==>
          BucketId(hashBytes, hash(t[b][p][i])) == b && BucketPos(hashBytes, hash(t[b][p][i])) == p)
    && (forall b, p :: 0 <= b < |t| && 0 <= p < |t[b]| ==> NoDuplicates(t[b][p]))
    && (forall b :: 0 <= b < |t| ==> bs[b].size == Nodes(t[b]))
    && size == TotalNodes(t)
    && slots == TotalOccupied(t)
  }

  /** Relinking the chain at slot p0 of bucket b0 to c, whose keys belong
      there and are distinct, keeps the table consistent once the bucket's
      mSize, mSize and mSlots move by the change in that one chain; the
      counters are large enough for the decrements. */
  lemma RelinkConsistent<K>(hashBytes: nat, hash: K -> nat, bs: seq<Bucket<K>>,
                                t: seq<seq<seq<K>>>, size: nat, slots: nat,
                                b0: nat, p0: nat, c: seq<K>)
    requires Consistent(hashBytes, hash, bs, t, size, slots)
    requires b0 < |t| && p0 < |t[b0]|
    requires forall i :: 0 <= i < |c| ==>
               BucketId(hashBytes, hash(c[i])) == b0 && BucketPos(hashBytes, hash(c[i])) == p0
    requires NoDuplicates(c)
    ensures bs[b0].size >= |t[b0][p0]| && size >= |t[b0][p0]| && (t[b0][p0] != [] ==> slots >= 1)
    ensures Consistent(hashBytes, hash,
                       bs[b0 := Bucket(bs[b0].size + |c| - |t[b0][p0]|, bs[b0].slots)],
                       t[b0 := t[b0][p0 := c]],
                       size + |c| - |t[b0][p0]|,
                       slots + (if c == [] then 0 else 1) - (if t[b0][p0] == [] then 0 else 1))
  {
    var t' := t[b0 := t[b0][p0 := c]];
    NodesUpdate(t[b0], p0, []);
    TotalNodesUpdate(t, b0, t[b0][p0 := []]);
    OccupiedSlotsUpdate(t[b0], p0, []);
    TotalOccupiedUpdate(t, b0, t[b0][p0 := []]);
    NodesUpdate(t[b0], p0, c);
    TotalNodesUpdate(t, b0, t[b0][p0 := c]);
    OccupiedSlotsUpdate(t[b0], p0, c);
    TotalOccupiedUpdate(t, b0, t[b0][p0 := c]);
    forall b, p, i | 0 <= b < |t'| && 0 <= p < |t'[b]| && 0 <= i < |t'[b][p]|
      ensures BucketId(hashBytes, hash(t'[b][p][i])) == b && BucketPos(hashBytes, hash(t'[b][p][i])) == p
    {
      if b != b0 || p != p0 {
        assert t'[b][p] == t[b][p];
      }
    }
    forall b, p | 0 <= b < |t'| && 0 <= p < |t'[b]| ensures NoDuplicates(t'[b][p]) {
      if b != b0 || p != p0 {
        assert t'[b][p] == t[b][p];
      }
    }
  }

  /** Consistency looks at the buckets' mSize only, not at their slot pointers. */
  lemma SlotPointersIrrelevant<K>(hashBytes: nat, hash: K -> nat, bs: seq<Bucket<K>>, bs': seq<Bucket<K>>,
                                      t: seq<seq<seq<K>>>, size: nat, slots: nat)
    requires Consistent(hashBytes, hash, bs, t, size, slots)
    requires |bs'| == |bs| && forall b :: 0 <= b < |bs| ==> bs'[b].size == bs[b].size
    ensures Consistent(hashBytes, hash, bs', t, size, slots)
  {
  }

  class AgHashTable<K(==,!new)> {
    const hash: K -> nat
    const hashBytes: nat
    var buckets: array<Bucket<K>>
    var size: nat
    // mSlots, kept in test mode: the number of non-empty slots
    var slots: nat

    // chains[b][p]: the keys of the chain headed by slot p of bucket b, head first
    ghost var chains: seq<seq<seq<K>>>
    // the bucket array and the allocated slot arrays
    ghost var Repr: set<object>

    /** The bucket the key's hash selects. */
    function BucketOf(key: K): nat
    {
      BucketId(hashBytes, hash(key))
    }

    /** The slot, inside its bucket, that the key's hash selects. */
    function SlotOf(key: K): nat
    {
      BucketPos(hashBytes, hash(key))
    }

    /** The allocation structure: constants, array sizes, footprint, and
        that no two buckets share a slot array. */
    ghost predicate Storage()
      reads this`buckets, this`Repr, Repr
    {
      && buckets in Repr
      && ValidHashBytes(hashBytes)
      && buckets.Length == BucketCount(hashBytes)
      && (forall b :: 0 <= b < buckets.Length && buckets[b].slots.Some? ==>
            buckets[b].slots.value in Repr && buckets[b].slots.value.Length == BucketSize(hashBytes))
      && (forall b, c :: 0 <= b < c < buckets.Length && buckets[b].slots.Some? && buckets[c].slots.Some? ==>
            buckets[b].slots.value != buckets[c].slots.value)
    }

    /** The chains headed by bucket b's slots: all empty while its slot array is unallocated. */
    ghost function BucketChains(b: nat): seq<seq<K>>
      reads this`buckets, this`Repr, Repr
      requires Storage() && b < buckets.Length
    {
      if buckets[b].slots.Some? then buckets[b].slots.value[..] else EmptyBucket(BucketSize(hashBytes))
    }

    ghost predicate Valid()
      reads this, Repr
    {
      && Storage()
      // hash_t is one or two bytes wide
      && (forall k :: hash(k) < MaxHashValue(hashBytes))
      && Consistent(hashBytes, hash, buckets[..], chains, size, slots)
      // the slot arrays hold the chains of the view
      && (forall b :: 0 <= b < |chains| ==> BucketChains(b) == chains[b])
    }

    /** The chain the key's hash selects (KeyAddress shows it exists under the invariant). */
    ghost function ChainOf(key: K): seq<K>
      reads this`chains
    {
      ChainAt(chains, BucketOf(key), SlotOf(key))
    }

    /** The view with the chain the key's hash selects replaced by c. */
    ghost function Relinked(key: K, c: seq<K>): seq<seq<seq<K>>>
      reads this`chains
    {
      RelinkAt(chains, BucketOf(key), SlotOf(key), c)
    }

    /** The set of keys stored in the table. */
    ghost function Keys(): set<K>
      reads this`chains
    {
      KeysOf(chains)
    }

    /** The key's bucket and slot exist. */
    lemma KeyAddress(key: K)
      requires Valid()
      ensures BucketOf(key) < buckets.Length == |chains| && SlotOf(key) < |chains[BucketOf(key)]|
      ensures ChainOf(key) == chains[BucketOf(key)][SlotOf(key)]
    {
      AddressSplit(hashBytes, hash(key));
    }

    constructor (hash: K -> nat, hashBytes: nat)
      requires ValidHashBytes(hashBytes)
      requires forall k :: hash(k) < MaxHashValue(hashBytes)
      ensures Valid() && fresh(Repr)
      ensures this.hash == hash && this.hashBytes == hashBytes
      ensures chains == EmptyTable(BucketCount(hashBytes), BucketSize(hashBytes))
      ensures size == 0 && slots == 0
      ensures forall b :: 0 <= b < buckets.Length ==> buckets[b] == Bucket(0, None)
    {
      this.hash := hash;
      this.hashBytes := hashBytes;
      buckets := new Bucket<K>[BucketCount(hashBytes)](_ => Bucket(0, None));
      size := 0;
      slots := 0;
      chains := EmptyTable(BucketCount(hashBytes), BucketSize(hashBytes));
      new;
      Repr := {buckets};
      EmptyBucketCounts<K>(BucketSize(hashBytes));
      EmptyTableCounts<K>(BucketCount(hashBytes), BucketSize(hashBytes));
    }

    /** Under the invariant a key is stored exactly when it is in the chain its hash selects. */
    lemma KeysAreInTheirChains(k: K)
      requires Valid()
      ensures k in Keys() <==> k in ChainOf(k)
    {
      KeyAddress(k);
      if k in Keys() {
        var b, p, i :| 0 <= b < |chains| && 0 <= p < |chains[b]| && 0 <= i < |chains[b][p]| && chains[b][p][i] == k;
        assert BucketOf(k) == b && SlotOf(k) == p;
      }
      if k in ChainOf(k) {
        var i :| 0 <= i < |ChainOf(k)| && ChainOf(k)[i] == k;
        assert chains[BucketOf(k)][SlotOf(k)][i] == k;
      }
    }

    /** The bucket counters add up to the table counter. */
    lemma BucketSizesAddUp()
      requires Valid()
      ensures SumSizes(buckets[..]) == size
    {
      PrefixSums(buckets.Length);
      assert buckets[..buckets.Length] == buckets[..];
      assert chains[..|chains|] == chains;
    }

    lemma {:induction false} PrefixSums(c: nat)
      requires Valid() && c <= buckets.Length
      ensures SumSizes(buckets[..c]) == TotalNodes(chains[..c])
    {
      if c > 0 {
        assert buckets[..c][..c - 1] == buckets[..c - 1];
        assert chains[..c][..c - 1] == chains[..c - 1];
        PrefixSums(c - 1);
      }
    }

    /** size(): the number of keys stored. */
    function Size(): (n: nat)
      reads this, Repr
      requires Valid()
      ensures n == TotalNodes(chains)
    {
      size
    }

    /** The walk along a chain that find, insert and erase share: the
        position of the first key `==` to the given one, or the chain's
        length when there is none. */
    static method Walk(chain: seq<K>, key: K) returns (i: nat)
      ensures i <= |chain| && key !in chain[..i]
      ensures i < |chain| ==> chain[i] == key
      ensures i == |chain| <==> key !in chain
    {
      i := 0;
      while i < |chain|
        invariant i <= |chain| && key !in chain[..i]
      {
        if chain[i] == key {
          return;
        }
        i := i + 1;
      }
      assert chain[..i] == chain;
    }

    /** find: a read-only walk of the chain the key's hash selects. */
    method Find(key: K) returns (found: bool)
      requires Valid()
      ensures found <==> key in ChainOf(key)
      ensures found <==> key in Keys()
    {
      KeysAreInTheirChains(key);
      KeyAddress(key);
      var keyHash := hash(key);
      var bucketId := BucketId(hashBytes, keyHash);
      var bucketPos := BucketPos(hashBytes, keyHash);
      assert BucketChains(bucketId) == chains[bucketId];
      if buckets[bucketId].slots.None? {
        return false;
      }
      var chain := buckets[bucketId].slots.value[bucketPos];
      var i := Walk(chain, key);
      found := i < |chain|;
    }

    /** insert: allocates the bucket's slot array on first use, walks the
        chain, refuses a key `==` to one already there, and otherwise links a
        new node at the chain's tail. */
    method Insert(key: K) returns (inserted: bool)
      requires Valid()
      modifies this, Repr
      ensures Valid() && fresh(Repr - old(Repr))
      ensures buckets == old(buckets)
      ensures inserted <==> key !in old(ChainOf(key))
      ensures chains == if inserted then old(Relinked(key, ChainOf(key) + [key])) else old(chains)
      ensures size == old(size) + (if inserted then 1 else 0)
      ensures slots == old(slots) + (if inserted && old(ChainOf(key)) == [] then 1 else 0)
      ensures forall b :: 0 <= b < buckets.Length ==>
                buckets[b].size == old(buckets[b].size) + (if inserted && b == BucketOf(key) then 1 else 0)
      ensures forall b :: 0 <= b < buckets.Length ==>
                if inserted && b == BucketOf(key)
                then buckets[b].slots.Some? && (old(buckets[b].slots).Some? ==> buckets[b].slots == old(buckets[b].slots))
                else buckets[b].slots == old(buckets[b].slots)
      ensures !inserted ==> unchanged(this, buckets)
    {
      KeyAddress(key);
      var keyHash := hash(key);
      var bucketId := BucketId(hashBytes, keyHash);
      if buckets[bucketId].slots.None? {
        assert BucketChains(bucketId) == chains[bucketId];
        AllocateSlots(bucketId);
      }
      inserted := AddToChain(key);
    }

    /** The walk and the link of insert, once the bucket's slot array
        exists: a key already in the chain is refused, otherwise a new node
        holding it is linked at the chain's tail and the counters move with it. */
    method AddToChain(key: K) returns (inserted: bool)
      requires Valid()
      requires BucketOf(key) < buckets.Length && buckets[BucketOf(key)].slots.Some?
      modifies this, buckets, buckets[BucketOf(key)].slots.value
      ensures Valid() && Repr == old(Repr) && buckets == old(buckets)
      ensures inserted <==> key !in old(ChainOf(key))
      ensures chains == if inserted then old(Relinked(key, ChainOf(key) + [key])) else old(chains)
      ensures size == old(size) + (if inserted then 1 else 0)
      ensures slots == old(slots) + (if inserted && old(ChainOf(key)) == [] then 1 else 0)
      ensures forall b :: 0 <= b < buckets.Length ==>
                buckets[b].slots == old(buckets[b].slots)
                && buckets[b].size == old(buckets[b].size) + (if inserted && b == BucketOf(key) then 1 else 0)
      ensures !inserted ==> unchanged(this, buckets)
    {
      KeyAddress(key);
      var bucketId := BucketOf(key);
      var bucketPos := SlotOf(key);
      var chain := buckets[bucketId].slots.value[bucketPos];
      assert BucketChains(bucketId) == chains[bucketId];
      var i := Walk(chain, key);
      if i < |chain| {
        return false;
      }
      var linked := chain + [key];
      NoDuplicatesSnoc(chain, key);
      forall j | 0 <= j < |linked| ensures BucketOf(linked[j]) == bucketId && SlotOf(linked[j]) == bucketPos {
        if j < |chain| {
          assert linked[j] == chains[bucketId][bucketPos][j];
        }
      }
      Relink(bucketId, bucketPos, linked);
      inserted := true;
    }

    /** erase: walks the chain the key's hash selects and unlinks the first
        node holding a key `==` to it; the slot arrays are never freed. */
    method Erase(key: K) returns (erased: bool)
      requires Valid()
      modifies this, Repr
      ensures Valid() && Repr == old(Repr) && buckets == old(buckets)
      ensures erased <==> key in old(ChainOf(key))
      ensures chains == if erased then old(Relinked(key, RemoveFirst(ChainOf(key), key))) else old(chains)
      ensures size == old(size) - (if erased then 1 else 0)
      ensures slots == old(slots) - (if erased && old(ChainOf(key)) == [key] then 1 else 0)
      ensures forall b :: 0 <= b < buckets.Length ==>
                buckets[b].slots == old(buckets[b].slots)
                && buckets[b].size == old(buckets[b].size) - (if erased && b == BucketOf(key) then 1 else 0)
      ensures !erased ==> unchanged(this, buckets)
      ensures Keys() == old(Keys()) - {key}
    {
      KeyAddress(key);
      KeysAreInTheirChains(key);
      var keyHash := hash(key);
      var bucketId := BucketId(hashBytes, keyHash);
      var bucketPos := BucketPos(hashBytes, keyHash);
      assert BucketChains(bucketId) == chains[bucketId];
      if buckets[bucketId].slots.None? {
        return false;
      }
      var chain := buckets[bucketId].slots.value[bucketPos];
      var i := Walk(chain, key);
      if i == |chain| {
        return false;
      }
      UnlinkAt(key, i);
      erased := true;
    }

    /** The unlinking step of erase, for the first match at position i of the chain. */
    method UnlinkAt(key: K, i: nat)
      requires Valid() && BucketOf(key) < buckets.Length && buckets[BucketOf(key)].slots.Some?
      requires i < |ChainOf(key)| && ChainOf(key)[i] == key && key !in ChainOf(key)[..i]
      modifies this, buckets, buckets[BucketOf(key)].slots.value
      ensures Valid() && Repr == old(Repr) && buckets == old(buckets)
      ensures chains == old(Relinked(key, RemoveFirst(ChainOf(key), key)))
      ensures size == old(size) - 1
      ensures slots == old(slots) - (if old(ChainOf(key)) == [key] then 1 else 0)
      ensures forall b :: 0 <= b < buckets.Length ==>
                buckets[b].slots == old(buckets[b].slots)
                && buckets[b].size == old(buckets[b].size) - (if b == BucketOf(key) then 1 else 0)
      ensures Keys() == old(Keys()) - {key}
    {
      KeyAddress(key);
      var bucketId := BucketOf(key);
      var bucketPos := SlotOf(key);
      var chain := buckets[bucketId].slots.value[bucketPos];
      assert BucketChains(bucketId) == chains[bucketId];
      KeysOfRelinkRemove(chains, bucketId, bucketPos, key);
      RemoveFirstAt(chain, key, i);
      RemoveFirstNoDuplicates(chain, key);
      var rest := chain[..i] + chain[i + 1..];
      forall j | 0 <= j < |rest| ensures BucketOf(rest[j]) == bucketId && SlotOf(rest[j]) == bucketPos {
        if j < i {
          assert rest[j] == chains[bucketId][bucketPos][j];
        } else {
          assert rest[j] == chains[bucketId][bucketPos][j + 1];
        }
      }
      assert rest == [] <==> chain == [key] by {
        if rest == [] {
          assert |chain| == 1;
          assert chain == [chain[0]];
        }
      }
      Relink(bucketId, bucketPos, rest);
    }

    /** Relinks the chain at slot p0 of bucket b0 to c and moves the bucket's
        mSize, mSize and mSlots by the change in that chain. */
    method Relink(b0: nat, p0: nat, c: seq<K>)
      requires Valid() && b0 < |chains| && p0 < |chains[b0]| && buckets[b0].slots.Some?
      requires forall i :: 0 <= i < |c| ==> BucketOf(c[i]) == b0 && SlotOf(c[i]) == p0
      requires NoDuplicates(c)
      modifies this, buckets, buckets[b0].slots.value
      ensures Valid() && buckets == old(buckets) && Repr == old(Repr)
      ensures chains == old(chains)[b0 := old(chains)[b0][p0 := c]]
      ensures size + |old(chains)[b0][p0]| == old(size) + |c|
      ensures slots + (if old(chains)[b0][p0] == [] then 0 else 1) == old(slots) + (if c == [] then 0 else 1)
      ensures forall b :: 0 <= b < buckets.Length ==>
                buckets[b].slots == old(buckets[b].slots)
                && buckets[b].size + (if b == b0 then |old(chains)[b0][p0]| else 0)
                   == old(buckets[b].size) + (if b == b0 then |c| else 0)
    {
      ghost var bs, t := buckets[..], chains;
      RelinkConsistent(hashBytes, hash, bs, t, size, slots, b0, p0, c);
      var oldChain := buckets[b0].slots.value[p0];
      assert BucketChains(b0) == t[b0];
      var bucketSize := buckets[b0].size + |c| - |oldChain|;
      size, slots := size + |c| - |oldChain|, slots + (if c == [] then 0 else 1) - (if oldChain == [] then 0 else 1);
      chains := t[b0 := t[b0][p0 := c]];
      StoreChain(b0, p0, c, bucketSize);
      assert buckets[..] == bs[b0 := Bucket(bucketSize, bs[b0].slots)];
      forall b | 0 <= b < |chains| ensures BucketChains(b) == chains[b] {
        assert old(BucketChains(b)) == t[b];
      }
    }

    /** The stores that relink the chain at slot p0 of bucket b0 to c: the
        slot's head pointer and the bucket's mSize. */
    method StoreChain(b0: nat, p0: nat, c: seq<K>, bucketSize: nat)
      requires Storage() && b0 < buckets.Length && buckets[b0].slots.Some? && p0 < BucketSize(hashBytes)
      modifies buckets, buckets[b0].slots.value
      ensures Storage()
      ensures BucketChains(b0) == old(BucketChains(b0))[p0 := c]
      ensures forall b :: 0 <= b < buckets.Length && b != b0 ==> BucketChains(b) == old(BucketChains(b))
      ensures forall b :: 0 <= b < buckets.Length ==>
                buckets[b].slots == old(buckets[b].slots)
                && buckets[b].size == if b == b0 then bucketSize else old(buckets[b].size)
    {
      var ar := buckets[b0].slots.value;
      forall b | 0 <= b < buckets.Length && b != b0 && buckets[b].slots.Some?
        ensures buckets[b].slots.value != ar
      {
        DistinctSlotArrays(b, b0);
      }
      ar[p0] := c;
      buckets[b0] := buckets[b0].(size := bucketSize);
    }

    /** Storage() in either order: the slot arrays of two different buckets
        are different arrays. */
    lemma DistinctSlotArrays(b: nat, c: nat)
      requires Storage() && b < buckets.Length && c < buckets.Length && b != c
      requires buckets[b].slots.Some? && buckets[c].slots.Some?
      ensures buckets[b].slots.value != buckets[c].slots.value
    {
      if b < c {
        assert buckets[b].slots.value != buckets[c].slots.value;
      } else {
        assert buckets[c].slots.value != buckets[b].slots.value;
      }
    }

    /** The lazy allocation in insert: a fresh slot array with every slot
        empty, installed in a bucket that had none. */
    method AllocateSlots(bucketId: nat)
      requires Valid() && bucketId < buckets.Length && buckets[bucketId].slots.None?
      modifies this`Repr, buckets
      ensures Valid() && fresh(Repr - old(Repr))
      ensures buckets[bucketId].slots.Some? && fresh(buckets[bucketId].slots.value)
      ensures buckets[bucketId].size == old(buckets[bucketId].size)
      ensures forall b :: 0 <= b < buckets.Length && b != bucketId ==> buckets[b] == old(buckets[b])
    {
      var ar := NewSlotArray(BucketSize(hashBytes));
      ghost var bs := buckets[..];
      buckets[bucketId] := Bucket(buckets[bucketId].size, Some(ar));
      Repr := Repr + {ar};
      SlotPointersIrrelevant(hashBytes, hash, bs, buckets[..], chains, size, slots);
      assert Storage();
      forall b | 0 <= b < |chains| ensures BucketChains(b) == chains[b] {
        assert old(BucketChains(b)) == chains[b];
      }
    }

    /** new node_ptr_t[sBucketSize] and the loop that nulls every slot. */
    static method NewSlotArray(n: nat) returns (ar: array<seq<K>>)
      ensures fresh(ar) && ar[..] == EmptyBucket(n)
    {
      ar := new seq<K>[n];
      var i := 0;
      while i < ar.Length
        modifies ar
        invariant 0 <= i <= ar.Length
        invariant forall j :: 0 <= j < i ==> ar[j] == []
      {
        ar[i] := [];
        i := i + 1;
      }
    }
  }
}
