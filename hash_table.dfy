// Chained hash table with uint32 keys (src/utils/hash_table.c).
//
// Each bucket is a linked list of key/value entries, held here as the
// sequence of its entries; appending to and removing from a bucket are the
// sequence effects that the LinkedList module proves for the pointer-level
// list.  The abstract value is the ghost map `Contents`; the ghost map `Loc`
// records where each key sits inside its bucket, which makes key uniqueness
// and key placement statements about single positions.

module HashTable {
  import opened Common
  import LinkedList

  const INITIAL_BUCKETS_NUM: nat := 16

  datatype Entry<V> = Entry(key: u32, value: V)

  type Buckets<V> = seq<seq<Entry<V>>>

  /** The load-factor test `size > buckets_num * 0.75`, stated exactly in integers. */
  predicate OverLoaded(size: nat, bucketsNum: nat)
  {
    4 * size > 3 * bucketsNum
  }

  /** hash_table_bucket_lookup: walks one bucket from its head and stops at
      the first entry carrying `key`. */
  method BucketLookup<V>(bucket: seq<Entry<V>>, key: u32) returns (r: Option<nat>)
    ensures r.Some? ==> r.value < |bucket| && bucket[r.value].key == key
    ensures r.Some? ==> forall j :: 0 <= j < r.value ==> bucket[j].key != key
    ensures r.None? <==> forall j :: 0 <= j < |bucket| ==> bucket[j].key != key
  {
    var j := 0;
    while j < |bucket|
      invariant j <= |bucket|
      invariant forall i :: 0 <= i < j ==> bucket[i].key != key
    {
      if bucket[j].key == key {
        return Some(j);
      }
      j := j + 1;
    }
    return None;
  }

  /** Every entry sits in bucket `key % n`, carries the value the map gives
      its key, and sits at the position `loc` records for its key. */
  ghost predicate EntriesPlaced<V>(bs: Buckets<V>, n: nat, c: map<u32, V>, loc: map<u32, nat>)
    requires n > 0
  {
    forall i, j {:trigger bs[i][j]} :: 0 <= i < |bs| && 0 <= j < |bs[i]| ==>
      && bs[i][j].key % n == i
      && bs[i][j].key in c && c[bs[i][j].key] == bs[i][j].value
      && bs[i][j].key in loc && loc[bs[i][j].key] == j
  }

  /** Every key `loc` knows has its entry at the recorded position of bucket `key % n`. */
  ghost predicate KeysPlaced<V>(bs: Buckets<V>, n: nat, loc: map<u32, nat>)
    requires n > 0 && |bs| == n
  {
    forall k {:trigger loc[k]} :: k in loc ==> loc[k] < |bs[k % n]| && bs[k % n][loc[k]].key == k
  }

  /** The table invariant over the bucket sequence, the bucket count, the
      abstract map, the key positions and the size counter. */
  ghost predicate TableInv<V>(bs: Buckets<V>, n: nat, c: map<u32, V>, loc: map<u32, nat>, size: nat)
  {
    && n == |bs| && n > 0
    && loc.Keys == c.Keys
    && size == |c|
    && EntriesPlaced(bs, n, c, loc)
    && KeysPlaced(bs, n, loc)
  }

  /** What a bucket walk finds agrees with the map: it finds an entry
      exactly when the key is present, and that entry holds the key's value
      at the key's recorded position. */
  lemma {:induction false} LookupAgrees<V>(bs: Buckets<V>, n: nat, c: map<u32, V>, loc: map<u32, nat>, size: nat,
                                           key: u32, found: Option<nat>)
    requires TableInv(bs, n, c, loc, size)
    requires found.Some? ==> found.value < |bs[key % n]| && bs[key % n][found.value].key == key
    requires found.None? ==> forall j :: 0 <= j < |bs[key % n]| ==> bs[key % n][j].key != key
    ensures found.Some? <==> key in c
    ensures found.Some? ==> c[key] == bs[key % n][found.value].value && loc[key] == found.value
  {
    if key in c {
      assert bs[key % n][loc[key]].key == key;
    }
  }

  /** Overwriting the value of a present key keeps the invariant. */
  lemma {:induction false} ReplaceKeeps<V>(bs: Buckets<V>, n: nat, c: map<u32, V>, loc: map<u32, nat>, size: nat,
                                           key: u32, p: nat, v: V)
    requires TableInv(bs, n, c, loc, size)
    requires p < |bs[key % n]| && bs[key % n][p].key == key
    ensures key in c
    ensures TableInv(bs[key % n := bs[key % n][p := Entry(key, v)]], n, c[key := v], loc, size)
  {
    var i := key % n;
    var bs': Buckets<V> := bs[i := bs[i][p := Entry(key, v)]];
    var c' := c[key := v];
    assert loc[key] == p;
    forall i', j' | 0 <= i' < |bs'| && 0 <= j' < |bs'[i']|
      ensures bs'[i'][j'].key % n == i' && bs'[i'][j'].key in c' && c'[bs'[i'][j'].key] == bs'[i'][j'].value
      ensures bs'[i'][j'].key in loc && loc[bs'[i'][j'].key] == j'
    {
      if i' != i || j' != p {
        assert bs'[i'][j'] == bs[i'][j'];
        assert loc[bs[i'][j'].key] == j';
      }
    }
    assert EntriesPlaced(bs', n, c', loc);
    assert KeysPlaced(bs', n, loc) by {
      forall k | k in loc ensures loc[k] < |bs'[k % n]| && bs'[k % n][loc[k]].key == k {
        assert bs[k % n][loc[k]].key == k;
      }
    }
    assert c'.Keys == c.Keys;
  }

  /** Appending a new key's entry to the tail of its bucket keeps the invariant. */
  lemma {:induction false} AppendKeeps<V>(bs: Buckets<V>, n: nat, c: map<u32, V>, loc: map<u32, nat>, size: nat,
                                          key: u32, v: V)
    requires TableInv(bs, n, c, loc, size) && key !in c
    ensures TableInv(bs[key % n := bs[key % n] + [Entry(key, v)]], n, c[key := v], loc[key := |bs[key % n]|], size + 1)
  {
    var i := key % n;
    var bs': Buckets<V> := bs[i := bs[i] + [Entry(key, v)]];
    var c' := c[key := v];
    var loc' := loc[key := |bs[i]|];
    forall i', j' | 0 <= i' < |bs'| && 0 <= j' < |bs'[i']|
      ensures bs'[i'][j'].key % n == i' && bs'[i'][j'].key in c' && c'[bs'[i'][j'].key] == bs'[i'][j'].value
      ensures bs'[i'][j'].key in loc' && loc'[bs'[i'][j'].key] == j'
    {
      if i' != i || j' < |bs[i]| {
        assert bs'[i'][j'] == bs[i'][j'];
      }
    }
    assert EntriesPlaced(bs', n, c', loc');
    assert KeysPlaced(bs', n, loc') by {
      forall k | k in loc' ensures loc'[k] < |bs'[k % n]| && bs'[k % n][loc'[k]].key == k {
        if k != key {
          assert bs[k % n][loc[k]].key == k;
        }
      }
    }
    assert c'.Keys == c.Keys + {key};
  }

  /** The key positions after unlinking the entry at position `p` of bucket `i`. */
  function LocAfterRemove(loc: map<u32, nat>, n: nat, key: u32, i: nat, p: nat): (r: map<u32, nat>)
    requires n > 0
    ensures r.Keys == loc.Keys - {key}
  {
    map k | k in loc && k != key :: if k % n == i && loc[k] > p then loc[k] - 1 else loc[k]
  }

  /** Unlinking a present key's entry keeps the invariant. */
  lemma {:induction false} RemoveKeeps<V>(bs: Buckets<V>, n: nat, c: map<u32, V>, loc: map<u32, nat>, size: nat,
                                          key: u32, p: nat)
    requires TableInv(bs, n, c, loc, size)
    requires p < |bs[key % n]| && bs[key % n][p].key == key
    ensures key in c && size > 0
    ensures TableInv(bs[key % n := LinkedList.RemoveAt(bs[key % n], p)], n, c - {key},
                     LocAfterRemove(loc, n, key, key % n, p), size - 1)
  {
    var i := key % n;
    var b': seq<Entry<V>> := LinkedList.RemoveAt(bs[i], p);
    var bs': Buckets<V> := bs[i := b'];
    var c' := c - {key};
    var loc' := LocAfterRemove(loc, n, key, i, p);
    assert loc[key] == p;
    forall i', j' | 0 <= i' < |bs'| && 0 <= j' < |bs'[i']|
      ensures bs'[i'][j'].key % n == i' && bs'[i'][j'].key in c' && c'[bs'[i'][j'].key] == bs'[i'][j'].value
      ensures bs'[i'][j'].key in loc' && loc'[bs'[i'][j'].key] == j'
    {
      if i' != i {
        assert bs'[i'][j'] == bs[i'][j'];
        assert bs[i'][j'].key != key;
      } else if j' < p {
        assert bs'[i'][j'] == bs[i][j'];
        assert loc[bs[i][j'].key] == j';
      } else {
        assert bs'[i'][j'] == bs[i][j' + 1];
        assert loc[bs[i][j' + 1].key] == j' + 1;
      }
    }
    assert EntriesPlaced(bs', n, c', loc');
    assert KeysPlaced(bs', n, loc') by {
      forall k | k in loc' ensures loc'[k] < |bs'[k % n]| && bs'[k % n][loc'[k]].key == k {
        assert bs[k % n][loc[k]].key == k;
        if k % n == i {
          assert loc[k] != p;
          if loc[k] > p {
            assert b'[loc[k] - 1] == bs[i][loc[k]];
          } else {
            assert b'[loc[k]] == bs[i][loc[k]];
          }
        }
      }
    }
    assert c.Keys == c'.Keys + {key};
  }

  /** Whether the entry of `k` lies before bucket `i`, position `j`, in the
      order in which the rehash walks the old buckets. */
  ghost predicate Moved(loc: map<u32, nat>, n: nat, k: u32, i: nat, j: nat)
    requires n > 0 && k in loc
  {
    k % n < i || (k % n == i && loc[k] < j)
  }

  /** The new buckets `nb` hold, placed by `newNum`, exactly the entries the
      rehash has passed when it stands at bucket `i`, position `j`. */
  ghost predicate Rehashed<V>(n: nat, c: map<u32, V>, loc: map<u32, nat>,
                              nb: Buckets<V>, nloc: map<u32, nat>, newNum: nat, i: nat, j: nat)
    requires n > 0
  {
    && |nb| == newNum && newNum > 0
    && nloc.Keys <= c.Keys <= loc.Keys
    && EntriesPlaced(nb, newNum, c, nloc)
    && (forall k {:trigger nloc[k]} :: k in nloc ==> Moved(loc, n, k, i, j))
    && (forall k {:trigger loc[k]} :: k in loc && Moved(loc, n, k, i, j) ==>
          k in nloc && nloc[k] < |nb[k % newNum]| && nb[k % newNum][nloc[k]].key == k)
  }

  /** Before the walk, the new buckets are empty and nothing has moved. */
  lemma RehashStart<V>(n: nat, c: map<u32, V>, loc: map<u32, nat>, nb: Buckets<V>, newNum: nat)
    requires n > 0 && newNum > 0 && c.Keys <= loc.Keys
    requires |nb| == newNum && forall b :: 0 <= b < newNum ==> nb[b] == []
    ensures Rehashed(n, c, loc, nb, map[], newNum, 0, 0)
  { }

  /** Moving the entry at bucket `i`, position `j` to the tail of its new
      bucket keeps the new buckets placed. */
  lemma {:induction false} MovePlaced<V>(bs: Buckets<V>, n: nat, c: map<u32, V>, loc: map<u32, nat>, size: nat,
                                         nb: Buckets<V>, nloc: map<u32, nat>, newNum: nat, i: nat, j: nat)
    requires TableInv(bs, n, c, loc, size)
    requires i < n && j < |bs[i]|
    requires Rehashed(n, c, loc, nb, nloc, newNum, i, j)
    ensures var e := bs[i][j];
      var b := e.key % newNum;
      EntriesPlaced(nb[b := nb[b] + [e]], newNum, c, nloc[e.key := |nb[b]|])
  {
    var e := bs[i][j];
    var b := e.key % newNum;
    var nb': Buckets<V> := nb[b := nb[b] + [e]];
    var nloc' := nloc[e.key := |nb[b]|];
    assert e.key % n == i && loc[e.key] == j;
    assert e.key !in nloc;
    forall b', p | 0 <= b' < |nb'| && 0 <= p < |nb'[b']|
      ensures nb'[b'][p].key % newNum == b' && nb'[b'][p].key in c && c[nb'[b'][p].key] == nb'[b'][p].value
      ensures nb'[b'][p].key in nloc' && nloc'[nb'[b'][p].key] == p
    {
      if b' != b || p < |nb[b]| {
        assert nb'[b'][p] == nb[b'][p];
      }
    }
  }

  /** After that move, every entry before bucket `i`, position `j + 1` is
      found in the new buckets. */
  lemma {:induction false} MoveReached<V>(bs: Buckets<V>, n: nat, c: map<u32, V>, loc: map<u32, nat>, size: nat,
                                          nb: Buckets<V>, nloc: map<u32, nat>, newNum: nat, i: nat, j: nat)
    requires TableInv(bs, n, c, loc, size)
    requires i < n && j < |bs[i]|
    requires Rehashed(n, c, loc, nb, nloc, newNum, i, j)
    ensures var e := bs[i][j];
      var b := e.key % newNum;
      var nb' := nb[b := nb[b] + [e]];
      var nloc' := nloc[e.key := |nb[b]|];
      forall k :: k in loc && Moved(loc, n, k, i, j + 1) ==>
        k in nloc' && nloc'[k] < |nb'[k % newNum]| && nb'[k % newNum][nloc'[k]].key == k
  {
    var e := bs[i][j];
    var b := e.key % newNum;
    var nb': Buckets<V> := nb[b := nb[b] + [e]];
    var nloc' := nloc[e.key := |nb[b]|];
    assert e.key % n == i && loc[e.key] == j;
    forall k | k in loc && Moved(loc, n, k, i, j + 1)
      ensures k in nloc' && nloc'[k] < |nb'[k % newNum]| && nb'[k % newNum][nloc'[k]].key == k
    {
      if k != e.key {
        assert Moved(loc, n, k, i, j);
      }
    }
  }

  /** Moving the entry at bucket `i`, position `j` to the tail of its new bucket. */
  lemma RehashStep<V>(bs: Buckets<V>, n: nat, c: map<u32, V>, loc: map<u32, nat>, size: nat,
                      nb: Buckets<V>, nloc: map<u32, nat>, newNum: nat, i: nat, j: nat)
    requires TableInv(bs, n, c, loc, size)
    requires i < n && j < |bs[i]|
    requires Rehashed(n, c, loc, nb, nloc, newNum, i, j)
    ensures var e := bs[i][j];
      var b := e.key % newNum;
      Rehashed(n, c, loc, nb[b := nb[b] + [e]], nloc[e.key := |nb[b]|], newNum, i, j + 1)
  {
    MovePlaced(bs, n, c, loc, size, nb, nloc, newNum, i, j);
    MoveReached(bs, n, c, loc, size, nb, nloc, newNum, i, j);
    var e := bs[i][j];
    assert e.key % n == i && loc[e.key] == j;
  }

  /** Finishing bucket `i` is starting bucket `i + 1`. */
  lemma {:induction false} RehashNextBucket<V>(bs: Buckets<V>, n: nat, c: map<u32, V>, loc: map<u32, nat>, size: nat,
                                               nb: Buckets<V>, nloc: map<u32, nat>, newNum: nat, i: nat)
    requires TableInv(bs, n, c, loc, size) && i < n
    requires Rehashed(n, c, loc, nb, nloc, newNum, i, |bs[i]|)
    ensures Rehashed(n, c, loc, nb, nloc, newNum, i + 1, 0)
  {
    forall k | k in loc ensures Moved(loc, n, k, i, |bs[i]|) <==> Moved(loc, n, k, i + 1, 0) {
      assert loc[k] < |bs[k % n]|;
    }
  }

  /** Once every old bucket is walked, the new buckets form a valid table
      with the same map. */
  lemma {:induction false} RehashDone<V>(bs: Buckets<V>, n: nat, c: map<u32, V>, loc: map<u32, nat>, size: nat,
                                         nb: Buckets<V>, nloc: map<u32, nat>, newNum: nat)
    requires TableInv(bs, n, c, loc, size)
    requires Rehashed(n, c, loc, nb, nloc, newNum, n, 0)
    ensures TableInv(nb, newNum, c, nloc, size)
  {
    forall k | k in loc ensures Moved(loc, n, k, n, 0) {
    }
    assert nloc.Keys == c.Keys;
  }

  /** The bucket-initialising loop of hash_table_init and hash_table_expand:
      `m` empty lists. */
  method EmptyBuckets<V>(m: nat) returns (bs: Buckets<V>)
    ensures |bs| == m
    ensures forall b :: 0 <= b < m ==> bs[b] == []
  {
    bs := [];
    var i := 0;
    while i < m
      invariant i <= m && |bs| == i
      invariant forall b :: 0 <= b < i ==> bs[b] == []
    {
      bs := bs + [[]];
      i := i + 1;
    }
  }

  /** The inner loop of hash_table_expand: bucket `i` walked from its head,
      each entry moved to the tail of its new bucket. */
  method MoveBucket<V>(bs: Buckets<V>, n: nat, ghost c: map<u32, V>, ghost loc: map<u32, nat>, ghost size: nat,
                       nb: Buckets<V>, ghost nloc: map<u32, nat>, newNum: nat, i: nat)
    returns (nb': Buckets<V>, ghost nloc': map<u32, nat>)
    requires TableInv(bs, n, c, loc, size) && i < n
    requires Rehashed(n, c, loc, nb, nloc, newNum, i, 0)
    ensures Rehashed(n, c, loc, nb', nloc', newNum, i + 1, 0)
  {
    nb', nloc' := nb, nloc;
    var rest := bs[i];
    ghost var j := 0;
    while rest != []
      invariant j <= |bs[i]| && rest == bs[i][j..]
      invariant Rehashed(n, c, loc, nb', nloc', newNum, i, j)
    {
      var e: Entry<V> := rest[0];
      rest := rest[1..];
      RehashStep(bs, n, c, loc, size, nb', nloc', newNum, i, j);
      var b := e.key % newNum;
      nloc' := nloc'[e.key := |nb'[b]|];
      nb' := nb'[b := nb'[b] + [e]];
      j := j + 1;
    }
    RehashNextBucket(bs, n, c, loc, size, nb', nloc', newNum, i);
  }

  /** The loops of hash_table_expand: `2 * n` empty buckets, then every old
      bucket walked from its head, each entry moved to the tail of bucket
      `key % (2 * n)`. The result is a valid table of the same map. */
  method Rehash<V>(bs: Buckets<V>, n: nat, ghost c: map<u32, V>, ghost loc: map<u32, nat>, ghost size: nat)
    returns (nb: Buckets<V>, ghost nloc: map<u32, nat>)
    requires TableInv(bs, n, c, loc, size)
    ensures TableInv(nb, 2 * n, c, nloc, size)
  {
    var newNum := n * 2;
    nb := EmptyBuckets(newNum);
    nloc := map[];
    RehashStart(n, c, loc, nb, newNum);
    var i := 0;
    while i < n
      invariant i <= n
      invariant Rehashed(n, c, loc, nb, nloc, newNum, i, 0)
    {
      nb, nloc := MoveBucket(bs, n, c, loc, size, nb, nloc, newNum, i);
      i := i + 1;
    }
    RehashDone(bs, n, c, loc, size, nb, nloc, newNum);
  }

  class HashTable<V> {
    var buckets: Buckets<V>
    var bucketsNum: nat
    var size: nat
    ghost var Contents: map<u32, V>
    ghost var Loc: map<u32, nat>

    ghost predicate Valid()
      reads this
    {
      TableInv(buckets, bucketsNum, Contents, Loc, size)
    }

    /** hash_table_bucket_lookup on the key's own bucket: the position of
        `key` there, which is the one the ghost `Loc` records, if present. */
    method Find(key: u32) returns (found: Option<nat>)
      requires Valid()
      ensures found.Some? <==> key in Contents
      ensures found.Some? ==> found.value < |buckets[key % bucketsNum]|
      ensures found.Some? ==> Loc[key] == found.value && buckets[key % bucketsNum][found.value] == Entry(key, Contents[key])
    {
      found := BucketLookup(buckets[key % bucketsNum], key);
      LookupAgrees(buckets, bucketsNum, Contents, Loc, size, key, found);
    }

    /** Unlinks the entry of a present key from its bucket. */
    method Unlink(key: u32, p: nat)
      requires Valid() && key in Contents && p < |buckets[key % bucketsNum]| && buckets[key % bucketsNum][p].key == key
      modifies this
      ensures Valid()
      ensures Contents == old(Contents) - {key}
      ensures bucketsNum == old(bucketsNum) && size + 1 == old(size)
    {
      var i := key % bucketsNum;
      RemoveKeeps(buckets, bucketsNum, Contents, Loc, size, key, p);
      buckets := buckets[i := LinkedList.RemoveAt(buckets[i], p)];
      Contents := Contents - {key};
      Loc := LocAfterRemove(Loc, bucketsNum, key, i, p);
      size := size - 1;
    }

    /** The load factor bound that hash_table_put restores after every
        insertion: at most three entries per four buckets. */
    predicate Balanced()
      reads this
    {
      INITIAL_BUCKETS_NUM <= bucketsNum && !OverLoaded(size, bucketsNum)
    }

    /** hash_table_init: 16 empty buckets and no entries. */
    constructor ()
      ensures Valid()
      ensures Contents == map[] && size == 0
      ensures bucketsNum == INITIAL_BUCKETS_NUM && Balanced()
      ensures forall i :: 0 <= i < |buckets| ==> buckets[i] == []
    {
      size := 0;
      bucketsNum := INITIAL_BUCKETS_NUM;
      var bs := EmptyBuckets(INITIAL_BUCKETS_NUM);
      buckets := bs;
      Contents := map[];
      Loc := map[];
    }

    /** hash_table_get: the stored value, or nothing for an absent key. */
    method Get(key: u32) returns (r: Option<V>)
      requires Valid()
      ensures r == (if key in Contents then Some(Contents[key]) else None)
    {
      var found := Find(key);
      if found.Some? {
        var e: Entry<V> := buckets[key % bucketsNum][found.value];
        return Some(e.value);
      }
      return None;
    }

    /** hash_table_contains. */
    method Contains(key: u32) returns (r: bool)
      requires Valid()
      ensures r <==> key in Contents
    {
      var found := Find(key);
      return found.Some?;
    }

    /** The present key's entry at position `p` takes the value `v`
        (`kv->v_ptr = v_ptr`). */
    method Overwrite(key: u32, p: nat, v: V)
      requires Valid() && p < |buckets[key % bucketsNum]| && buckets[key % bucketsNum][p].key == key
      modifies this
      ensures Valid()
      ensures Contents == old(Contents)[key := v]
      ensures bucketsNum == old(bucketsNum) && size == old(size)
    {
      var i := key % bucketsNum;
      ReplaceKeeps(buckets, bucketsNum, Contents, Loc, size, key, p, v);
      buckets := buckets[i := buckets[i][p := Entry(key, v)]];
      Contents := Contents[key := v];
    }

    /** A new entry for an absent key goes to the tail of its bucket and is
        counted. */
    method Append(key: u32, v: V)
      requires Valid() && key !in Contents
      modifies this
      ensures Valid()
      ensures Contents == old(Contents)[key := v]
      ensures bucketsNum == old(bucketsNum) && size == old(size) + 1
    {
      var i := key % bucketsNum;
      AppendKeeps(buckets, bucketsNum, Contents, Loc, size, key, v);
      Loc := Loc[key := |buckets[i]|];
      buckets := buckets[i := buckets[i] + [Entry(key, v)]];
      Contents := Contents[key := v];
      size := size + 1;
    }

    /** hash_table_put: replaces the value of a present key and returns the
        old one; otherwise appends a new entry to the key's bucket, counts
        it, and doubles the buckets once the load factor is exceeded. */
    method Put(key: u32, v: V) returns (r: Option<V>)
      requires Valid()
      modifies this
      ensures Valid()
      ensures Contents == old(Contents)[key := v]
      ensures r == (if key in old(Contents) then Some(old(Contents)[key]) else None)
      ensures bucketsNum ==
        if key !in old(Contents) && OverLoaded(old(size) + 1, old(bucketsNum))
        then 2 * old(bucketsNum) else old(bucketsNum)
      ensures old(Balanced()) ==> Balanced()
    {
      var found := Find(key);
      if found.Some? {
        var e: Entry<V> := buckets[key % bucketsNum][found.value];
        Overwrite(key, found.value, v);
        return Some(e.value);
      }
      Append(key, v);
      if 4 * size > 3 * bucketsNum {
        Expand();
      }
      return None;
    }

    /** hash_table_remove: unlinks the key's entry and returns its value; an
        absent key returns nothing and changes nothing. */
    method Remove(key: u32) returns (r: Option<V>)
      requires Valid()
      modifies this
      ensures Valid()
      ensures Contents == old(Contents) - {key}
      ensures r == (if key in old(Contents) then Some(old(Contents)[key]) else None)
      ensures bucketsNum == old(bucketsNum)
      ensures key !in old(Contents) ==> buckets == old(buckets)
      ensures old(Balanced()) ==> Balanced()
    {
      var found := Find(key);
      if found.None? {
        return None;
      }
      var p := found.value;
      var e: Entry<V> := buckets[key % bucketsNum][p];
      Unlink(key, p);
      return Some(e.value);
    }

    /** hash_table_expand: doubles the bucket count and rehashes every entry. */
    method Expand()
      requires Valid()
      modifies this
      ensures Valid()
      ensures Contents == old(Contents) && size == old(size)
      ensures bucketsNum == 2 * old(bucketsNum)
    {
      var nb, nloc := Rehash(buckets, bucketsNum, Contents, Loc, size);
      buckets := nb;
      bucketsNum := 2 * bucketsNum;
      Loc := nloc;
    }
  }
}
