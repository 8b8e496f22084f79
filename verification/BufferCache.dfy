/** The buffer cache (kernel/filesystem/bio.c) and the in-memory log that pins its buffers
    (kernel/filesystem/log.c), as a refinement of a plain block store.

    `Store` is the contents a reader must get: a valid buffer's data if the block is cached,
    the disk's otherwise.  `held` are the locked buffers, `pinned` the logged block numbers
    whose buffer carries log_write's extra reference, `trail` the disk after each block write.
    Execution is sequential, one locked section at a time; the power may fail after any write. */
module BufferCache {
  import opened Basics
  import opened Counting
  import opened Layout
  import CrashLog

  const NBUCKET := 13
  const FSSIZE := 100000

  datatype Key = Key(dev: nat, blockno: nat)

  datatype Buf = Buf(valid: bool, key: Key, refcnt: nat, refbit: bool, data: Block)

  function Hash(blockno: nat): nat
  {
    blockno % NBUCKET
  }

  // ---------------------------------------------------------------- the cache as a value

  /** No block of a real device is cached twice. */
  ghost predicate Unique(buf: seq<Buf>)
  {
    forall i, j :: 0 <= i < j < |buf| && buf[i].key.dev != 0 ==> buf[i].key != buf[j].key
  }

  /** A bucket list: buffers of that hash, none twice. */
  ghost predicate BucketOk(buf: seq<Buf>, list: seq<nat>, h: nat)
  {
    NoDup(list) && forall m :: m in list ==> m < |buf| && Hash(buf[m].key.blockno) == h
  }

  ghost predicate Listed(buf: seq<Buf>, buckets: seq<seq<nat>>, i: nat)
    requires |buckets| == NBUCKET && i < |buf|
  {
    i in buckets[Hash(buf[i].key.blockno)]
  }

  /** Every buffer is on the list of its hash bucket, once, and nothing else is. */
  ghost predicate Chained(buf: seq<Buf>, buckets: seq<seq<nat>>)
  {
    && |buckets| == NBUCKET
    && (forall i :: 0 <= i < |buf| ==> Listed(buf, buckets, i))
    && (forall h :: 0 <= h < NBUCKET ==> BucketOk(buf, buckets[h], h))
  }

  /** Some buffer is for block k. */
  ghost predicate Present(buf: seq<Buf>, k: Key)
  {
    exists i :: 0 <= i < |buf| && buf[i].key == k
  }

  /** All buffers but v are for the blocks they were for. */
  ghost predicate OthersKeep(buf: seq<Buf>, buf': seq<Buf>, v: nat)
  {
    |buf'| == |buf| && forall i :: 0 <= i < |buf| && i != v ==> buf'[i].key == buf[i].key
  }

  ghost predicate Caches(buf: seq<Buf>, i: nat, k: Key)
  {
    i < |buf| && buf[i].valid && buf[i].key == k
  }

  /** What a read of block k must return. */
  ghost function Store(buf: seq<Buf>, disk: map<Key, Block>, k: Key): Block
    requires k in disk
  {
    if exists i: nat :: Caches(buf, i, k) then var i: nat :| Caches(buf, i, k); buf[i].data else disk[k]
  }

  lemma StoreCached(buf: seq<Buf>, disk: map<Key, Block>, k: Key, i: nat)
    requires Unique(buf) && k.dev != 0 && Caches(buf, i, k) && k in disk
    ensures Store(buf, disk, k) == buf[i].data
  {}

  lemma StoreUncached(buf: seq<Buf>, disk: map<Key, Block>, k: Key)
    requires k in disk && forall i :: 0 <= i < |buf| ==> !(buf[i].valid && buf[i].key == k)
    ensures Store(buf, disk, k) == disk[k]
  {}

  ghost predicate SameStore(buf: seq<Buf>, disk: map<Key, Block>, buf': seq<Buf>, disk': map<Key, Block>)
  {
    disk'.Keys == disk.Keys && forall k :: k in disk && k.dev != 0 ==> Store(buf', disk', k) == Store(buf, disk, k)
  }

  lemma SameStoreTrans(a: seq<Buf>, d: map<Key, Block>, a1: seq<Buf>, d1: map<Key, Block>, a2: seq<Buf>,
                       d2: map<Key, Block>)
    requires SameStore(a, d, a1, d1) && SameStore(a1, d1, a2, d2)
    ensures SameStore(a, d, a2, d2)
  {}

  lemma SameStoreRefl(a: seq<Buf>, d: map<Key, Block>)
    ensures SameStore(a, d, a, d)
  {}

  lemma SameStoreAt(a: seq<Buf>, d: map<Key, Block>, a1: seq<Buf>, d1: map<Key, Block>, k: Key)
    requires SameStore(a, d, a1, d1) && k in d && k.dev != 0
    ensures k in d1 && Store(a1, d1, k) == Store(a, d, k)
  {}

  lemma StoreSetAfter(a: seq<Buf>, a1: seq<Buf>, a2: seq<Buf>, d: map<Key, Block>, k: Key, data: Block)
    requires SameStore(a, d, a1, d) && StoreSet(a1, d, a2, d, k, data)
    ensures StoreSet(a, d, a2, d, k, data)
  {}

  lemma StoreSetThen(a: seq<Buf>, d: map<Key, Block>, a1: seq<Buf>, d1: map<Key, Block>, a2: seq<Buf>,
                     d2: map<Key, Block>, k: Key, data: Block)
    requires StoreSet(a, d, a1, d1, k, data) && SameStore(a1, d1, a2, d2) && k.dev != 0
    ensures StoreSet(a, d, a2, d2, k, data)
  {}

  /** Only counters and reference bits differ. */
  ghost predicate SameContents(buf: seq<Buf>, buf': seq<Buf>)
  {
    && |buf'| == |buf|
    && forall i :: 0 <= i < |buf| ==>
         buf'[i].valid == buf[i].valid && buf'[i].key == buf[i].key && buf'[i].data == buf[i].data
  }

  lemma SameContentsStore(buf: seq<Buf>, buf': seq<Buf>, disk: map<Key, Block>)
    requires Unique(buf) && SameContents(buf, buf')
    ensures Unique(buf') && SameStore(buf, disk, buf', disk)
  {
    forall k | k in disk && k.dev != 0
      ensures Store(buf', disk, k) == Store(buf, disk, k)
    {
      if exists i: nat :: Caches(buf, i, k) {
        var i: nat :| Caches(buf, i, k);
        assert Caches(buf', i, k);
        StoreCached(buf, disk, k, i);
        StoreCached(buf', disk, k, i);
      } else {
        forall i | 0 <= i < |buf| ensures !(buf'[i].valid && buf'[i].key == k) { assert !Caches(buf, i, k); }
        StoreUncached(buf', disk, k);
      }
    }
  }

  lemma ChainedSame(buf: seq<Buf>, buf': seq<Buf>, buckets: seq<seq<nat>>)
    requires Chained(buf, buckets) && |buf'| == |buf| && forall i :: 0 <= i < |buf| ==> buf'[i].key == buf[i].key
    ensures Chained(buf', buckets)
  {
    forall i | 0 <= i < |buf|
      ensures Listed(buf', buckets, i)
    {
      assert Listed(buf, buckets, i);
    }
    forall h | 0 <= h < NBUCKET
      ensures BucketOk(buf', buckets[h], h)
    {
      assert BucketOk(buf, buckets[h], h);
    }
  }

  /** A bucket list without one of its members. */
  function Without(list: seq<nat>, v: nat): (r: seq<nat>)
    ensures forall m :: m in r <==> m in list && m != v
  {
    if list == [] then [] else if list[0] == v then Without(list[1..], v) else [list[0]] + Without(list[1..], v)
  }

  lemma ConsNoDup(v: nat, list: seq<nat>)
    requires v !in list && NoDup(list)
    ensures NoDup([v] + list)
  {}

  lemma WithoutNoDup(list: seq<nat>, v: nat)
    requires NoDup(list)
    ensures NoDup(Without(list, v))
  {
    if list != [] {
      WithoutNoDup(list[1..], v);
      var rest := Without(list[1..], v);
      if list[0] != v {
        assert list[0] !in rest;
        assert Without(list, v) == [list[0]] + rest;
      }
    }
  }

  /** Unlink buffer v, give it block k, and put it at the head of k's bucket. */
  function Relink(buckets: seq<seq<nat>>, from: nat, to: nat, v: nat): seq<seq<nat>>
    requires |buckets| == NBUCKET && from < NBUCKET && to < NBUCKET
  {
    var cut := buckets[from := Without(buckets[from], v)];
    cut[to := [v] + cut[to]]
  }

  lemma ChainedRelink(buf: seq<Buf>, buckets: seq<seq<nat>>, v: nat, b: Buf)
    requires Chained(buf, buckets) && v < |buf|
    ensures Chained(buf[v := b], Relink(buckets, Hash(buf[v].key.blockno), Hash(b.key.blockno), v))
  {
    var from, to := Hash(buf[v].key.blockno), Hash(b.key.blockno);
    var cut := buckets[from := Without(buckets[from], v)];
    var r := Relink(buckets, from, to, v);
    var buf' := buf[v := b];
    forall h | 0 <= h < NBUCKET
      ensures BucketOk(buf', r[h], h)
    {
      assert BucketOk(buf, buckets[h], h);
      WithoutNoDup(buckets[from], v);
      assert forall m :: m in cut[h] <==> m in buckets[h] && m != v;
      assert r[h] == if h == to then [v] + cut[h] else cut[h];
      ConsNoDup(v, cut[h]);
    }
    forall i | 0 <= i < |buf'|
      ensures Listed(buf', r, i)
    {
      assert Listed(buf, buckets, i);
    }
  }

  /** Giving a clean buffer to another block leaves every block's contents what they were. */
  lemma RecycleStore(buf: seq<Buf>, disk: map<Key, Block>, v: nat, b: Buf)
    requires Unique(buf) && v < |buf| && Clean(buf[v], disk) && !b.valid && b.key.dev != 0
    requires forall i :: 0 <= i < |buf| ==> buf[i].key != b.key
    ensures Unique(buf[v := b]) && SameStore(buf, disk, buf[v := b], disk)
  {
    var buf' := buf[v := b];
    forall k | k in disk && k.dev != 0
      ensures Store(buf', disk, k) == Store(buf, disk, k)
    {
      if exists i: nat :: Caches(buf, i, k) {
        var i: nat :| Caches(buf, i, k);
        StoreCached(buf, disk, k, i);
        if i == v {
          assert forall j :: 0 <= j < |buf| && j != v ==> buf[j].key != k;
          StoreUncached(buf', disk, k);
        } else {
          assert Caches(buf', i, k);
          StoreCached(buf', disk, k, i);
        }
      } else {
        forall i | 0 <= i < |buf'| ensures !(buf'[i].valid && buf'[i].key == k) { assert !Caches(buf, i, k); }
        StoreUncached(buf', disk, k);
      }
    }
  }

  lemma FillStore(buf: seq<Buf>, disk: map<Key, Block>, i: nat)
    requires Unique(buf) && i < |buf| && !buf[i].valid && buf[i].key in disk && buf[i].key.dev != 0
    ensures var buf' := buf[i := buf[i].(valid := true, data := disk[buf[i].key])];
            Unique(buf') && SameStore(buf, disk, buf', disk)
  {
    var buf' := buf[i := buf[i].(valid := true, data := disk[buf[i].key])];
    assert forall j :: 0 <= j < |buf| && j != i ==> buf[j].key != buf[i].key;
    forall k | k in disk && k.dev != 0
      ensures Store(buf', disk, k) == Store(buf, disk, k)
    {
      if k == buf[i].key {
        assert Caches(buf', i, k);
        StoreCached(buf', disk, k, i);
        StoreUncached(buf, disk, k);
      } else if exists j: nat :: Caches(buf, j, k) {
        var j: nat :| Caches(buf, j, k);
        assert Caches(buf', j, k);
        StoreCached(buf, disk, k, j);
        StoreCached(buf', disk, k, j);
      } else {
        forall j | 0 <= j < |buf'| ensures !(buf'[j].valid && buf'[j].key == k) { assert !Caches(buf, j, k); }
        StoreUncached(buf', disk, k);
      }
    }
  }

  /** Block k now holds data; every other block of a real device is as it was. */
  ghost predicate StoreSet(buf: seq<Buf>, disk: map<Key, Block>, buf': seq<Buf>, disk': map<Key, Block>, k: Key,
                           data: Block)
  {
    && disk'.Keys == disk.Keys && k in disk && Store(buf', disk', k) == data
    && forall x :: x in disk && x.dev != 0 && x != k ==> Store(buf', disk', x) == Store(buf, disk, x)
  }

  lemma SetDataStore(buf: seq<Buf>, disk: map<Key, Block>, i: nat, data: Block)
    requires Unique(buf) && i < |buf| && buf[i].valid && buf[i].key in disk && buf[i].key.dev != 0
    ensures var buf' := buf[i := buf[i].(data := data)];
            Unique(buf') && StoreSet(buf, disk, buf', disk, buf[i].key, data)
  {
    var buf' := buf[i := buf[i].(data := data)];
    assert Caches(buf', i, buf[i].key);
    StoreCached(buf', disk, buf[i].key, i);
    forall x | x in disk && x.dev != 0 && x != buf[i].key
      ensures Store(buf', disk, x) == Store(buf, disk, x)
    {
      if exists j: nat :: Caches(buf, j, x) {
        var j: nat :| Caches(buf, j, x);
        assert Caches(buf', j, x);
        StoreCached(buf, disk, x, j);
        StoreCached(buf', disk, x, j);
      } else {
        forall j | 0 <= j < |buf'| ensures !(buf'[j].valid && buf'[j].key == x) { assert !Caches(buf, j, x); }
        StoreUncached(buf', disk, x);
      }
    }
  }

  lemma BwriteStore(buf: seq<Buf>, disk: map<Key, Block>, i: nat)
    requires Unique(buf) && i < |buf| && buf[i].valid && buf[i].key in disk && buf[i].key.dev != 0
    ensures SameStore(buf, disk, buf, disk[buf[i].key := buf[i].data])
  {
    var disk' := disk[buf[i].key := buf[i].data];
    forall x | x in disk && x.dev != 0
      ensures Store(buf, disk', x) == Store(buf, disk, x)
    {
      if exists j: nat :: Caches(buf, j, x) {
        var j: nat :| Caches(buf, j, x);
        StoreCached(buf, disk, x, j);
        StoreCached(buf, disk', x, j);
      } else {
        assert !Caches(buf, i, x);
      }
    }
  }

  /** References are the holder's and the log's. */
  function Refs(i: nat, b: Buf, dev: nat, held: set<nat>, pinned: set<nat>): nat
  {
    (if i in held then 1 else 0) + (if b.key.dev == dev && b.key.blockno in pinned then 1 else 0)
  }

  /** Every pinned block is cached. */
  ghost predicate PinnedCached(buf: seq<Buf>, dev: nat, pinned: set<nat>)
  {
    forall b :: b in pinned ==> exists i: nat :: Caches(buf, i, Key(dev, b))
  }

  /** One more reference for buffer i and its block pinned: no other buffer is of that block. */
  lemma PinRefs(buf: seq<Buf>, buf': seq<Buf>, i: nat, dev: nat, held: set<nat>, pinned: set<nat>)
    requires Unique(buf) && i < |buf| && dev != 0 && buf[i].key.dev == dev && buf[i].key.blockno !in pinned
    requires forall j :: 0 <= j < |buf| ==> buf[j].refcnt == Refs(j, buf[j], dev, held, pinned)
    requires buf' == buf[i := buf[i].(refcnt := buf[i].refcnt + 1)]
    ensures forall j :: 0 <= j < |buf| ==> buf'[j].refcnt == Refs(j, buf'[j], dev, held, pinned + {buf[i].key.blockno})
  {}

  lemma PinnedMore(buf: seq<Buf>, buf': seq<Buf>, i: nat, dev: nat, pinned: set<nat>)
    requires PinnedCached(buf, dev, pinned) && SameContents(buf, buf')
    requires i < |buf| && buf[i].valid && buf[i].key.dev == dev
    ensures PinnedCached(buf', dev, pinned + {buf[i].key.blockno})
  {
    PinnedSame(buf, buf', dev, pinned);
    assert Caches(buf', i, Key(dev, buf[i].key.blockno));
  }

  lemma PinnedSame(buf: seq<Buf>, buf': seq<Buf>, dev: nat, pinned: set<nat>)
    requires PinnedCached(buf, dev, pinned)
    requires |buf'| == |buf| && forall i :: 0 <= i < |buf| ==>
               buf'[i].key == buf[i].key && (buf[i].valid ==> buf'[i].valid)
    ensures PinnedCached(buf', dev, pinned)
  {
    forall b | b in pinned
      ensures exists i: nat :: Caches(buf', i, Key(dev, b))
    {
      var i: nat :| Caches(buf, i, Key(dev, b));
      assert Caches(buf', i, Key(dev, b));
    }
  }

  lemma PinnedRecycle(buf: seq<Buf>, v: nat, b: Buf, dev: nat, pinned: set<nat>)
    requires PinnedCached(buf, dev, pinned) && v < |buf| && !(buf[v].key.dev == dev && buf[v].key.blockno in pinned)
    ensures PinnedCached(buf[v := b], dev, pinned)
  {
    var buf' := buf[v := b];
    forall x | x in pinned
      ensures exists j: nat :: Caches(buf', j, Key(dev, x))
    {
      var j: nat :| Caches(buf, j, Key(dev, x));
      assert Caches(buf', j, Key(dev, x));
    }
  }

  /** The buffers of the blocks of P: one each. */
  lemma PinBuffers(buf: seq<Buf>, dev: nat, P: set<nat>) returns (I: set<nat>)
    requires Unique(buf) && dev != 0 && PinnedCached(buf, dev, P)
    ensures |I| == |P| && forall i: nat :: i in I <==> i < |buf| && buf[i].key.dev == dev && buf[i].key.blockno in P
    decreases |P|
  {
    if P == {} {
      return {};
    }
    var b :| b in P;
    var i: nat :| Caches(buf, i, Key(dev, b));
    I := PinBuffers(buf, dev, P - {b});
    I := I + {i};
  }

  /** Every buffer is one of X or belongs to a pinned block exactly when there are as many of
      these together as buffers. */
  lemma PinsFill(buf: seq<Buf>, dev: nat, P: set<nat>, X: set<nat>)
    requires Unique(buf) && dev != 0 && PinnedCached(buf, dev, P)
    requires forall i :: i in X ==> i < |buf| && !(buf[i].key.dev == dev && buf[i].key.blockno in P)
    ensures |X| + |P| >= |buf| <==>
            forall i :: 0 <= i < |buf| ==> i in X || (buf[i].key.dev == dev && buf[i].key.blockno in P)
  {
    hide Unique, PinnedCached, Below;
    var I := PinBuffers(buf, dev, P);
    var all := Below(|buf|);
    assert I !! X;
    assert |I + X| == |X| + |P|;
    assert I + X <= all;
    assert all == (I + X) + (all - (I + X));
    if |X| + |P| >= |buf| {
      assert all - (I + X) == {};
      forall i | 0 <= i < |buf|
        ensures i in I + X
      {
        assert i in all;
      }
    }
    if forall i :: 0 <= i < |buf| ==> i in X || (buf[i].key.dev == dev && buf[i].key.blockno in P) {
      assert all <= I + X;
      assert I + X == all;
    }
  }

  lemma UncachedNotPinned(buf: seq<Buf>, dev: nat, pinned: set<nat>, k: Key)
    requires PinnedCached(buf, dev, pinned) && forall i :: 0 <= i < |buf| ==> buf[i].key != k
    ensures !(k.dev == dev && k.blockno in pinned)
  {}

  // ---------------------------------------------------------------- what a power failure leaves

  /** The blocks of a device, in order. */
  ghost function Image(dev: nat, disk: map<Key, Block>): (r: seq<Block>)
    requires forall b :: 0 <= b < FSSIZE ==> Key(dev, b) in disk
    ensures |r| == FSSIZE && forall b :: 0 <= b < FSSIZE ==> r[b] == disk[Key(dev, b)]
  {
    seq(FSSIZE, b requires 0 <= b < FSSIZE => disk[Key(dev, b)])
  }

  /** A disk that recovery can deal with. */
  ghost predicate Readable(dev: nat, a: CrashLog.Area, disk: map<Key, Block>)
  {
    (forall b :: 0 <= b < FSSIZE ==> Key(dev, b) in disk) && CrashLog.DiskOk(a, Image(dev, disk))
  }

  /** The blocks outside the log area, as recovery would leave them. */
  ghost function Recovered(dev: nat, a: CrashLog.Area, disk: map<Key, Block>): map<nat, Block>
    requires Readable(dev, a, disk)
  {
    map b | 0 <= b < FSSIZE && CrashLog.IsHome(a, b) :: CrashLog.Logical(a, Image(dev, disk), b)
  }

  /** Recovery of this disk gives these contents. */
  ghost predicate Gives(dev: nat, a: CrashLog.Area, disk: map<Key, Block>, homes: map<nat, Block>)
  {
    Readable(dev, a, disk) && Recovered(dev, a, disk) == homes
  }

  /** The disks give the one contents up to some point and the other from then on. */
  ghost predicate Switches(dev: nat, a: CrashLog.Area, disks: seq<map<Key, Block>>, was: map<nat, Block>,
                           now: map<nat, Block>)
  {
    exists m :: 0 <= m <= |disks| && AllGive(dev, a, disks[..m], was) && AllGive(dev, a, disks[m..], now)
  }

  ghost predicate AllGive(dev: nat, a: CrashLog.Area, disks: seq<map<Key, Block>>, homes: map<nat, Block>)
  {
    forall i :: 0 <= i < |disks| ==> Gives(dev, a, disks[i], homes)
  }

  ghost predicate OneWrite(disk: map<Key, Block>, disk': map<Key, Block>, k: Key)
  {
    k in disk' && disk' == disk[k := disk'[k]]
  }

  /** Every disk since then would have been recovered to what that one would. */
  ghost predicate Unseen(dev: nat, a: CrashLog.Area, trail0: seq<map<Key, Block>>, disk0: map<Key, Block>,
                         trail: seq<map<Key, Block>>, disk: map<Key, Block>)
  {
    && trail0 <= trail && Readable(dev, a, disk0) && Gives(dev, a, disk, Recovered(dev, a, disk0))
    && AllGive(dev, a, trail[|trail0|..], Recovered(dev, a, disk0)) && disk[Key(dev, a.start)][0] == 0
  }

  lemma UnseenNone(dev: nat, a: CrashLog.Area, trail: seq<map<Key, Block>>, disk: map<Key, Block>)
    requires Readable(dev, a, disk) && disk[Key(dev, a.start)][0] == 0
    ensures Unseen(dev, a, trail, disk, trail, disk)
  {}

  lemma UnseenMore(dev: nat, a: CrashLog.Area, trail0: seq<map<Key, Block>>, disk0: map<Key, Block>,
                   trail1: seq<map<Key, Block>>, disk1: map<Key, Block>, disk: map<Key, Block>, i: nat)
    requires Unseen(dev, a, trail0, disk0, trail1, disk1) && i + 1 < a.size
    requires OneWrite(disk1, disk, Key(dev, a.start + 1 + i))
    ensures Unseen(dev, a, trail0, disk0, trail1 + [disk], disk)
  {
    hide Recovered, Readable;
    LogBlockUnseen(dev, a, disk1, i, disk[Key(dev, a.start + 1 + i)]);
    assert (trail1 + [disk])[|trail0|..] == trail1[|trail0|..] + [disk];
  }

  /** The header on disk: the count and the list. */
  ghost predicate HeadSays(dev: nat, start: nat, disk: map<Key, Block>, k: nat, list: seq<nat>)
  {
    && Key(dev, start) in disk && k <= |list| && k < 256
    && disk[Key(dev, start)][0] == k && forall i :: 0 <= i < k ==> disk[Key(dev, start)][1 + i] == list[i]
  }

  /** While the header says nothing is logged, a write to a log block is not seen by recovery. */
  lemma LogBlockUnseen(dev: nat, a: CrashLog.Area, disk: map<Key, Block>, i: nat, data: Block)
    requires Readable(dev, a, disk) && disk[Key(dev, a.start)][0] == 0 && i + 1 < a.size
    ensures var disk' := disk[Key(dev, a.start + 1 + i) := data];
            Gives(dev, a, disk', Recovered(dev, a, disk)) && disk'[Key(dev, a.start)] == disk[Key(dev, a.start)]
  {
    var disk' := disk[Key(dev, a.start + 1 + i) := data];
    assert CrashLog.DiskOk(a, Image(dev, disk'));
    forall b | 0 <= b < FSSIZE && CrashLog.IsHome(a, b)
      ensures CrashLog.Logical(a, Image(dev, disk'), b) == CrashLog.Logical(a, Image(dev, disk), b)
    {
      CrashLog.EmptyLogical(a, Image(dev, disk), b);
      CrashLog.EmptyLogical(a, Image(dev, disk'), b);
    }
  }

  /** A buffer that nobody holds and the log does not pin agrees with the disk. */
  ghost predicate Clean(b: Buf, disk: map<Key, Block>)
  {
    b.valid && b.key.dev != 0 ==> b.key in disk && b.data == disk[b.key]
  }

  /** Only reference bits of unreferenced buffers have been cleared. */
  ghost predicate Swept(buf: seq<Buf>, buf': seq<Buf>)
  {
    |buf'| == |buf| && forall i :: 0 <= i < |buf| ==> Cleared(buf[i], buf'[i])
  }

  predicate Cleared(b: Buf, b': Buf)
  {
    b' == b || (b.refcnt == 0 && b' == b.(refbit := false))
  }

  /** Whatever the hand has passed, in `scanned` steps from h on, is referenced or cleared. */
  ghost predicate PassedOnce(buf: seq<Buf>, h: nat, scanned: int)
  {
    forall i :: 0 <= i < |buf| && Distance(h, i) < scanned ==> buf[i].refcnt > 0 || !buf[i].refbit
  }

  /** And whatever it has passed twice is referenced. */
  ghost predicate PassedTwice(buf: seq<Buf>, h: nat, scanned: int)
  {
    forall i :: 0 <= i < |buf| && Distance(h, i) + NBUF < scanned ==> buf[i].refcnt > 0
  }

  lemma SweptNone(buf: seq<Buf>, h: nat)
    requires |buf| == NBUF && h < NBUF
    ensures Swept(buf, buf) && PassedOnce(buf, h, 0) && PassedTwice(buf, h, 0) && NoneAt(buf, buf, h, 0)
  {}

  lemma SweptMeans(buf: seq<Buf>, buf': seq<Buf>)
    requires Swept(buf, buf')
    ensures SameContents(buf, buf') && forall i :: 0 <= i < |buf| ==> buf'[i].refcnt == buf[i].refcnt
    ensures forall i :: 0 <= i < |buf| && buf'[i].refcnt > 0 ==> buf'[i] == buf[i]
  {}

  /** The hand passes b; if b is not the victim, it is referenced or has had its bit cleared. */
  lemma SweepStep(buf0: seq<Buf>, buf: seq<Buf>, h: nat, b: nat, scanned: nat)
    requires |buf| == NBUF && h < NBUF && b < NBUF && Swept(buf0, buf) && PassedOnce(buf, h, scanned)
             && PassedTwice(buf, h, scanned)
    requires scanned < NBUF * 2 && Distance(h, b) == if scanned < NBUF then scanned else scanned - NBUF
    ensures buf[b].refcnt > 0 ==> PassedOnce(buf, h, scanned + 1) && PassedTwice(buf, h, scanned + 1)
    ensures buf[b].refcnt == 0 && buf[b].refbit ==>
              var buf' := buf[b := buf[b].(refbit := false)];
              Swept(buf0, buf') && PassedOnce(buf', h, scanned + 1) && PassedTwice(buf', h, scanned + 1)
  {
    hide Distance;
    DistanceBasics(h);
    var buf' := buf[b := buf[b].(refbit := false)];
    forall i | 0 <= i < NBUF
      ensures buf[b].refcnt == 0 ==> Cleared(buf0[i], buf'[i])
    {
      assert Cleared(buf0[i], buf[i]);
    }
  }

  /** The victim: the first buffer from the hand on that is neither referenced nor has its bit set;
      if there is none, the first that is not referenced. */
  ghost predicate SecondChance(buf: seq<Buf>, h: nat, v: nat)
  {
    && v < |buf| && buf[v].refcnt == 0
    && forall i :: 0 <= i < |buf| && buf[i].refcnt == 0 ==>
         if buf[v].refbit then buf[i].refbit && Distance(h, v) <= Distance(h, i)
         else buf[i].refbit || Distance(h, v) <= Distance(h, i)
  }

  /** In the first round what has been passed had its bit set, and what has not is untouched. */
  ghost predicate NoneAt(buf0: seq<Buf>, buf: seq<Buf>, h: nat, scanned: int)
  {
    && |buf| == |buf0|
    && (forall i :: 0 <= i < |buf| && Distance(h, i) < scanned && buf0[i].refcnt == 0 ==> buf0[i].refbit)
    && (forall i :: 0 <= i < |buf| && Distance(h, i) >= scanned ==> buf[i] == buf0[i])
  }

  lemma ChanceStep(buf0: seq<Buf>, buf: seq<Buf>, h: nat, b: nat, scanned: nat)
    requires |buf| == NBUF && h < NBUF && b < NBUF && Swept(buf0, buf) && PassedTwice(buf, h, scanned)
    requires scanned < NBUF * 2 && Distance(h, b) == (if scanned < NBUF then scanned else scanned - NBUF)
    requires NoneAt(buf0, buf, h, scanned)
    ensures buf[b].refcnt == 0 && !buf[b].refbit ==> SecondChance(buf0, h, b)
    ensures buf[b].refcnt > 0 ==> NoneAt(buf0, buf, h, scanned + 1)
    ensures buf[b].refcnt == 0 && buf[b].refbit ==> NoneAt(buf0, buf[b := buf[b].(refbit := false)], h, scanned + 1)
  {
    hide Distance;
    DistanceBasics(h);
    assert Cleared(buf0[b], buf[b]);
    forall i | 0 <= i < NBUF
      ensures buf0[i].refcnt == buf[i].refcnt && (Distance(h, i) == Distance(h, b) ==> i == b)
    {
      assert Cleared(buf0[i], buf[i]);
    }
  }

  lemma AllPassed(buf: seq<Buf>, h: nat)
    requires |buf| == NBUF && h < NBUF && PassedOnce(buf, h, NBUF * 2) && PassedTwice(buf, h, NBUF * 2)
    ensures forall i :: 0 <= i < NBUF ==> buf[i].refcnt > 0
  {
    DistanceBasics(h);
  }

  class Bcache {
    const dev: nat                    // log.dev
    var disk: map<Key, Block>
    var buf: seq<Buf>
    var buckets: seq<seq<nat>>
    var hand: nat                     // clock_hand
    var ra: Key                       // last block read, for read-ahead
    const logStart: nat               // log.start: the header block
    const logSize: nat                // log.size
    var n: nat                        // log.lh.n
    var block: seq<nat>               // log.lh.block
    ghost var held: set<nat>
    ghost var pinned: set<nat>
    ghost var trail: seq<map<Key, Block>>     // the disk after each block write

    /** binit, on an empty log: every buffer is block 0 of device 0, on the first bucket. */
    constructor (device: nat, start: nat, size: nat, contents: map<Key, Block>)
      requires device != 0 && 0 < size && start + size <= FSSIZE
      requires forall b :: 0 <= b < FSSIZE ==> Key(device, b) in contents
      ensures LogValid() && dev == device && disk == contents && logStart == start && logSize == size && n == 0
      ensures trail == []
    {
      dev, logStart, logSize := device, start, size;
      disk := contents;
      buf := seq(NBUF, _ => Buf(false, Key(0, 0), 0, false, ZeroBlock()));
      buckets := [seq(NBUF, i => NBUF - 1 - i)] + seq(NBUCKET - 1, _ => []);
      hand := 0;
      ra := Key(0xffff_ffff, 0);
      n, block := 0, seq(LOGSIZE, _ => 0);
      held, pinned, trail := {}, {}, [];
      new;
      forall i | 0 <= i < NBUF
        ensures Listed(buf, buckets, i)
      {
        assert buckets[0][NBUF - 1 - i] == i;
      }
      forall h | 0 <= h < NBUCKET
        ensures BucketOk(buf, buckets[h], h)
      {}
      MembersNone(block);
    }

    ghost predicate Valid()
      reads this`disk, this`buf, this`buckets, this`hand, this`held, this`pinned
    {
      && dev != 0 && |buf| == NBUF && hand < NBUF && Unique(buf) && Chained(buf, buckets)
      && (forall i :: 0 <= i < NBUF ==> buf[i].refcnt == Refs(i, buf[i], dev, held, pinned))
      && (forall i :: i in held ==> i < NBUF && buf[i].key.dev != 0)
      && (forall i :: 0 <= i < NBUF && buf[i].refcnt == 0 ==> Clean(buf[i], disk))
      && PinnedCached(buf, dev, pinned)
      && (forall b :: 0 <= b < FSSIZE ==> Key(dev, b) in disk)
    }

    /** Every buffer is in use: the panic "bget: no buffers". */
    ghost predicate NoBuffers()
      reads this`buf
    {
      forall i :: 0 <= i < |buf| ==> buf[i].refcnt > 0
    }

    /** The held buffers whose block is not pinned. */
    ghost function Loose(): set<nat>
      reads this`buf, this`held, this`pinned
    {
      set i | i in held && !(i < |buf| && buf[i].key.dev == dev && buf[i].key.blockno in pinned)
    }

    /** No buffer is left exactly when the held ones and the pinned blocks together are as many as
        the buffers. */
    lemma BufferLeft()
      requires Valid()
      ensures NoBuffers() <==> |Loose()| + |pinned| >= NBUF
      ensures held == {} ==> Loose() == {}
    {
      hide Chained, Unique, PinnedCached, Clean;
      PinsFill(buf, dev, pinned, Loose());
    }

    /** A buffer in use for a block that nobody holds is pinned. */
    lemma CachedInUse(blockno: nat)
      requires Valid() && forall i :: i in held ==> buf[i].key != Key(dev, blockno)
      ensures (exists i :: 0 <= i < NBUF && buf[i].refcnt > 0 && buf[i].key == Key(dev, blockno)) ==> blockno in pinned
    {
      hide Chained, Unique, PinnedCached, Clean;
    }

    /** The walk along a hash bucket. */
    method Lookup(k: Key) returns (r: Option<nat>)
      requires |buf| == NBUF && Chained(buf, buckets)
      ensures r.Some? ==> r.value < NBUF && buf[r.value].key == k
      ensures r.None? ==> forall i :: 0 <= i < NBUF ==> buf[i].key != k
    {
      var list := buckets[Hash(k.blockno)];
      assert BucketOk(buf, list, Hash(k.blockno));
      var p := 0;
      while p < |list|
        invariant 0 <= p <= |list| && forall q :: 0 <= q < |list| ==> list[q] in list && list[q] < NBUF
        invariant forall q :: 0 <= q < p ==> buf[list[q]].key != k
      {
        if buf[list[p]].key == k {
          return Some(list[p]);
        }
        p := p + 1;
      }
      forall i | 0 <= i < NBUF
        ensures buf[i].key != k
      {
        assert Listed(buf, buckets, i);
      }
      return None;
    }

    /** The clock: at most two rounds over the buffers.  It fails exactly when every buffer is
        referenced, and otherwise finds an unreferenced one; it touches reference bits only. */
    method ClockScan() returns (r: Option<nat>)
      requires |buf| == NBUF && hand < NBUF
      modifies this`buf, this`hand
      ensures hand < NBUF && SameContents(old(buf), buf)
      ensures forall i :: 0 <= i < NBUF ==> buf[i].refcnt == old(buf)[i].refcnt
      ensures forall i :: 0 <= i < NBUF && buf[i].refcnt > 0 ==> buf[i] == old(buf)[i]
      ensures r.None? <==> forall i :: 0 <= i < NBUF ==> buf[i].refcnt > 0
      ensures r.Some? ==> r.value < NBUF && buf[r.value].refcnt == 0 && hand == (r.value + 1) % NBUF
      ensures r.Some? ==> SecondChance(old(buf), old(hand), r.value)
    {
      hide Distance, Swept, PassedOnce, PassedTwice, SecondChance, NoneAt;
      ghost var h0 := hand;
      SweptNone(buf, h0);
      var scanned := 0;
      DistanceBasics(h0);
      while scanned < NBUF * 2
        invariant 0 <= scanned <= NBUF * 2 && hand < NBUF && |buf| == NBUF
        invariant Distance(h0, hand) ==
                    if scanned < NBUF then scanned else if scanned < NBUF * 2 then scanned - NBUF else 0
        invariant Swept(old(buf), buf) && PassedOnce(buf, h0, scanned) && PassedTwice(buf, h0, scanned)
        invariant NoneAt(old(buf), buf, h0, scanned)
      {
        var b := hand;
        hand := (hand + 1) % NBUF;
        DistanceStep(h0, b);
        SweepStep(old(buf), buf, h0, b, scanned);
        ChanceStep(old(buf), buf, h0, b, scanned);
        if buf[b].refcnt == 0 {
          if buf[b].refbit {
            buf := buf[b := buf[b].(refbit := false)];
          } else {
            SweptMeans(old(buf), buf);
            return Some(b);
          }
        }
        scanned := scanned + 1;
      }
      SweptMeans(old(buf), buf);
      AllPassed(buf, h0);
      return None;
    }

    /** bget_common: the buffer of block k, locked.  None exactly when the block is not cached
        and every buffer is referenced; `must_succeed` turns that into a panic. */
    method Bget(k: Key) returns (r: Option<nat>)
      requires Valid() && k.dev != 0 && k in disk && forall i :: i in held ==> buf[i].key != k
      modifies this`buf, this`buckets, this`hand, this`held
      ensures Valid() && SameStore(old(buf), old(disk), buf, disk)
      ensures r.None? <==> forall i :: 0 <= i < NBUF ==> old(buf)[i].refcnt > 0 && old(buf)[i].key != k
      ensures r.None? ==> held == old(held) && NoBuffers()
      ensures r.Some? ==>
                r.value < NBUF && r.value !in old(held) && held == old(held) + {r.value} && buf[r.value].key == k
      ensures r.Some? && buf[r.value].valid ==> Fetched(r.value, k)
      ensures r.Some? ==> buf[r.value].refbit && OthersKeep(old(buf), buf, r.value)
      ensures forall i :: i in old(held) ==> buf[i] == old(buf)[i]
    {
      hide Chained, SameStore, Store, PinnedCached;
      r := Lookup(k);
      if r.Some? {
        Acquire(r.value);
        return;
      }
      r := ClockScan();
      ghost var buf1 := buf;
      SameContentsStore(old(buf), buf, disk);
      ChainedSame(old(buf), buf, buckets);
      PinnedSame(old(buf), buf, dev, pinned);
      if r.Some? {
        Recycle(r.value, k);
        SameStoreTrans(old(buf), disk, buf1, disk, buf, disk);
      }
    }

    /** A miss: the victim leaves its bucket and becomes the buffer of block k, not yet read. */
    method Recycle(v: nat, k: Key)
      requires Valid() && v < NBUF && buf[v].refcnt == 0 && k.dev != 0 && forall i :: 0 <= i < NBUF ==> buf[i].key != k
      modifies this`buf, this`buckets, this`held
      ensures Valid() && SameStore(old(buf), disk, buf, disk) && held == old(held) + {v}
      ensures buf[v].key == k && !buf[v].valid && buf[v].refbit && v !in old(held)
      ensures forall i :: 0 <= i < NBUF && i != v ==> buf[i] == old(buf)[i]
    {
      hide SameStore, Store, PinnedCached, Unique;
      var b := Buf(false, k, 1, true, buf[v].data);
      ChainedRelink(buf, buckets, v, b);
      RecycleStore(buf, disk, v, b);
      buckets := Relink(buckets, Hash(buf[v].key.blockno), Hash(k.blockno), v);
      buf := buf[v := b];
      held := held + {v};
      PinnedRecycle(old(buf), v, b, dev, pinned);
      UncachedNotPinned(old(buf), dev, pinned, k);
    }

    /** A hit: one more reference, and the lock. */
    method Acquire(i: nat)
      requires Valid() && i < NBUF && buf[i].key.dev != 0 && i !in held && buf[i].key in disk
      modifies this`buf, this`held
      ensures Valid() && SameStore(old(buf), disk, buf, disk) && held == old(held) + {i} && SameContents(old(buf), buf)
      ensures buf[i].valid ==> Fetched(i, buf[i].key)
      ensures buf[i].refbit && forall j :: j in old(held) ==> buf[j] == old(buf)[j]
    {
      hide Chained, SameStore, Store, PinnedCached, Unique;
      buf := buf[i := buf[i].(refcnt := buf[i].refcnt + 1, refbit := true)];
      held := held + {i};
      SameContentsStore(old(buf), buf, disk);
      ChainedSame(old(buf), buf, buckets);
      PinnedSame(old(buf), buf, dev, pinned);
      if buf[i].valid {
        StoreCached(buf, disk, buf[i].key, i);
      }
    }

    // -------------------------------------------------------------- the interface of bio.c

    /** virtio_disk_rw(b, 0) into a buffer just acquired. */
    method Fill(i: nat)
      requires Valid() && i in held && buf[i].key in disk && (buf[i].valid ==> Fetched(i, buf[i].key))
      modifies this`buf
      ensures Valid() && SameStore(old(buf), disk, buf, disk)
      ensures buf[i].key == old(buf)[i].key && Fetched(i, buf[i].key)
      ensures forall j :: 0 <= j < NBUF && j != i ==> buf[j] == old(buf)[j]
    {
      hide Chained, PinnedCached, Store, SameStore, Unique;
      if buf[i].valid {
        SameContentsStore(buf, buf, disk);
      } else {
        var buf' := buf[i := buf[i].(valid := true, data := disk[buf[i].key])];
        FillStore(buf, disk, i);
        ChainedSame(buf, buf', buckets);
        PinnedSame(buf, buf', dev, pinned);
        buf := buf';
        StoreCached(buf, disk, buf[i].key, i);
      }
    }

    /** brelse: the discipline is that a changed buffer has been logged or written first. */
    method Brelse(i: nat)
      requires Valid() && i in held && buf[i].valid && buf[i].key in disk
      requires (buf[i].key.dev == dev && buf[i].key.blockno in pinned) || buf[i].data == disk[buf[i].key]
      modifies this`buf, this`held
      ensures Valid() && |buf| == NBUF && SameStore(old(buf), disk, buf, disk) && held == old(held) - {i}
      ensures buf == old(buf)[i := old(buf)[i].(refcnt := old(buf)[i].refcnt - 1)]
      ensures forall j :: 0 <= j < NBUF && j != i ==> buf[j] == old(buf)[j]
    {
      hide Chained, PinnedCached, SameStore, Unique, Store;
      var buf' := buf[i := buf[i].(refcnt := buf[i].refcnt - 1)];
      SameContentsStore(buf, buf', disk);
      ChainedSame(buf, buf', buckets);
      PinnedSame(buf, buf', dev, pinned);
      buf := buf';
      held := held - {i};
    }

    /** The buffer of block k, locked and read in. */
    method ReadLocked(k: Key) returns (r: Option<nat>)
      requires Valid() && k.dev == dev && k in disk && forall i :: i in held ==> buf[i].key != k
      modifies this`buf, this`buckets, this`hand, this`held
      ensures Valid() && SameStore(old(buf), disk, buf, disk)
      ensures r.None? <==> forall i :: 0 <= i < NBUF ==> old(buf)[i].refcnt > 0 && old(buf)[i].key != k
      ensures r.None? ==> held == old(held) && NoBuffers()
      ensures r.Some? ==> Fetched(r.value, k) && r.value !in old(held) && held == old(held) + {r.value}
      ensures r.Some? ==> OthersKeep(old(buf), buf, r.value)
      ensures forall i :: i in old(held) ==> buf[i] == old(buf)[i]
    {
      hide Chained, PinnedCached, SameStore, Unique, Store;
      r := Bget(k);
      if r.Some? {
        ghost var buf1 := buf;
        Fill(r.value);
        SameStoreTrans(old(buf), disk, buf1, disk, buf, disk);
      }
    }

    /** Buffer i is held and shows block k as the store has it. */
    ghost predicate Fetched(i: nat, k: Key)
      reads this`disk, this`buf, this`held, this`pinned
    {
      && i in held && i < |buf| && buf[i].key == k && buf[i].valid && k in disk
      && buf[i].data == Store(buf, disk, k) && (buf[i].data == disk[k] || (k.dev == dev && k.blockno in pinned))
    }

    /** readahead: best effort, and invisible. */
    method Readahead(blockno: nat)
      requires Valid()
      modifies this`buf, this`buckets, this`hand, this`held
      ensures Valid() && SameStore(old(buf), disk, buf, disk) && held == old(held)
      ensures forall i :: i in held ==> buf[i] == old(buf)[i]
      ensures |buf| == NBUF && (blockno < FSSIZE ==> Present(buf, Key(dev, blockno)) || NoBuffers())
    {
      hide Chained, PinnedCached, Unique, Store;
      if blockno >= FSSIZE {
        return;
      }
      var k := Key(dev, blockno);
      var hit := Lookup(k);
      if hit.Some? {
        return;
      }
      var r := ReadLocked(k);
      if r.None? {
        return;
      }
      ghost var buf1 := buf;
      var i := r.value;
      ClearRefbit(i);
      ghost var buf2 := buf;
      SameStoreTrans(old(buf), disk, buf1, disk, buf2, disk);
      Brelse(i);
      assert buf[i].key == k;
      SameStoreTrans(old(buf), disk, buf2, disk, buf, disk);
    }

    method ClearRefbit(i: nat)
      requires Valid() && i < NBUF
      modifies this`buf
      ensures Valid() && SameStore(old(buf), disk, buf, disk) && buf == old(buf)[i := old(buf)[i].(refbit := false)]
    {
      hide Chained, PinnedCached, SameStore, Unique, Store;
      var buf' := buf[i := buf[i].(refbit := false)];
      SameContentsStore(buf, buf', disk);
      ChainedSame(buf, buf', buckets);
      PinnedSame(buf, buf', dev, pinned);
      buf := buf';
    }

    /** bread: the block, locked, with the contents the store has; a sequential reader also
        gets the next block read ahead.  None is the panic "bget: no buffers". */
    method Bread(blockno: nat) returns (r: Option<nat>)
      requires Valid() && blockno < FSSIZE && forall i :: i in held ==> buf[i].key != Key(dev, blockno)
      modifies this`buf, this`buckets, this`hand, this`held, this`ra
      ensures Valid() && |buf| == NBUF && SameStore(old(buf), disk, buf, disk)
      ensures r.None? <==> forall i :: 0 <= i < NBUF ==> old(buf)[i].refcnt > 0 && old(buf)[i].key != Key(dev, blockno)
      ensures r.None? ==> held == old(held) && NoBuffers()
      ensures r.Some? ==> Fetched(r.value, Key(dev, blockno)) && r.value !in old(held) && held == old(held) + {r.value}
      ensures forall i :: i in old(held) ==> buf[i] == old(buf)[i]
      ensures blockno in pinned ==> r.Some?
      ensures r.Some? ==> ra == Key(dev, blockno)
      ensures r.Some? && !(old(ra).dev == dev && old(ra).blockno == blockno - 1) ==> OthersKeep(old(buf), buf, r.value)
      ensures r.Some? && old(ra).dev == dev && old(ra).blockno == blockno - 1 && blockno + 1 < FSSIZE ==>
                Present(buf, Key(dev, blockno + 1)) || NoBuffers()
      ensures r.None? <==> |old(Loose())| + |pinned| >= NBUF && blockno !in pinned
      ensures old(held) == {} ==> (r.None? <==> |pinned| >= NBUF && blockno !in pinned)
    {
      hide Chained, SameStore, Unique, Store;
      BufferLeft();
      CachedInUse(blockno);
      assert blockno in pinned ==> exists i: nat :: Caches(buf, i, Key(dev, blockno));
      hide PinnedCached;
      var k := Key(dev, blockno);
      r := ReadLocked(k);
      if r.None? {
        return;
      }
      ghost var buf1 := buf;
      var ahead := ra.dev == dev && ra.blockno + 1 == blockno;
      ra := k;
      if ahead {
        Readahead(blockno + 1);
        SameStoreTrans(old(buf), disk, buf1, disk, buf, disk);
        StoreCached(buf, disk, k, r.value);
      }
    }

    /** memmove into a held buffer. */
    method SetData(i: nat, data: Block)
      requires Valid() && i in held && buf[i].valid && buf[i].key in disk
      modifies this`buf
      ensures Valid() && StoreSet(old(buf), disk, buf, disk, buf[i].key, data)
      ensures buf == old(buf)[i := old(buf)[i].(data := data)]
    {
      hide Chained, PinnedCached, StoreSet, Unique, Store;
      var buf' := buf[i := buf[i].(data := data)];
      SetDataStore(buf, disk, i, data);
      ChainedSame(buf, buf', buckets);
      PinnedSame(buf, buf', dev, pinned);
      buf := buf';
    }

    /** bwrite: a held buffer goes to disk. */
    method Bwrite(i: nat)
      requires Valid() && i in held && buf[i].valid && buf[i].key in disk
      modifies this`disk, this`trail
      ensures Valid() && disk == old(disk)[buf[i].key := buf[i].data] && SameStore(buf, old(disk), buf, disk)
      ensures trail == old(trail) + [disk]
    {
      hide Chained, PinnedCached, SameStore, Store;
      BwriteStore(buf, disk, i);
      disk := disk[buf[i].key := buf[i].data];
      trail := trail + [disk];
    }

    // -------------------------------------------------------------- the log

    /** The in-memory header lists the pinned blocks, each once, none of them in the log area. */
    ghost predicate LogValid()
      reads this
    {
      && Valid() && dev != 0 && held == {} && |block| == LOGSIZE && n <= LOGSIZE && n < logSize
      && logStart + logSize <= FSSIZE
      && pinned == Members(block, n)
      && Listing(block, n)
    }

    ghost predicate Listing(list: seq<nat>, k: nat)
    {
      && k <= |list|
      && (forall i :: 0 <= i < k ==> list[i] < FSSIZE && !InLog(list[i]))
      && (forall i, j :: 0 <= i < j < k ==> list[i] != list[j])
    }

    predicate InLog(b: nat)
    {
      logStart <= b < logStart + logSize
    }

    /** bpin / the extra reference of a logged block. */
    method Bpin(i: nat)
      requires Valid() && i in held && buf[i].valid && buf[i].key.dev == dev && buf[i].key.blockno !in pinned
      modifies this`buf, this`pinned
      ensures Valid() && SameStore(old(buf), disk, buf, disk) && pinned == old(pinned) + {buf[i].key.blockno}
      ensures SameContents(old(buf), buf)
    {
      hide Chained, SameStore, Store, Unique, Refs, PinnedCached;
      var buf' := buf[i := buf[i].(refcnt := buf[i].refcnt + 1)];
      SameContentsStore(buf, buf', disk);
      ChainedSame(buf, buf', buckets);
      PinRefs(buf, buf', i, dev, held, pinned);
      PinnedMore(buf, buf', i, dev, pinned);
      assert forall j :: 0 <= j < NBUF && buf'[j].refcnt == 0 ==> buf'[j] == buf[j];
      pinned := pinned + {buf[i].key.blockno};
      buf := buf';
    }

    method Bunpin(i: nat)
      requires Valid() && i in held && buf[i].valid && buf[i].key.dev == dev && buf[i].key.blockno in pinned
      modifies this`buf, this`pinned
      ensures Valid() && SameStore(old(buf), disk, buf, disk) && pinned == old(pinned) - {buf[i].key.blockno}
      ensures SameContents(old(buf), buf)
    {
      hide Chained, SameStore, Store;
      var buf' := buf[i := buf[i].(refcnt := buf[i].refcnt - 1)];
      SameContentsStore(buf, buf', disk);
      ChainedSame(buf, buf', buckets);
      PinnedSame(buf, buf', dev, pinned - {buf[i].key.blockno});
      pinned := pinned - {buf[i].key.blockno};
      buf := buf';
    }

    /** log_write: block absorption, or one more entry and a pin; false is the panic "too big a
        transaction". */
    method LogWrite(i: nat) returns (ok: bool)
      requires Valid() && i in held && i < |buf| && buf[i].valid && buf[i].key.dev == dev
      requires buf[i].key.blockno < FSSIZE && !InLog(buf[i].key.blockno)
      requires |block| == LOGSIZE && Listing(block, n) && pinned == Members(block, n)
      modifies this`buf, this`pinned, this`n, this`block
      ensures !ok <==> old(n) >= LOGSIZE || old(n) >= logSize - 1
      ensures !ok ==> unchanged(this)
      ensures Valid() && SameStore(old(buf), disk, buf, disk) && SameContents(old(buf), buf)
      ensures |block| == LOGSIZE && Listing(block, n) && pinned == Members(block, n)
      ensures ok ==> pinned == old(pinned) + {buf[i].key.blockno}
      ensures n == |pinned| && old(n) == |old(pinned)|
    {
      hide Valid, SameStore, Members;
      if n >= LOGSIZE || n >= logSize - 1 {
        ListingSize(block, n);
        SameStoreRefl(buf, disk);
        return false;
      }
      ok := true;
      var b := buf[i].key.blockno;
      ListingSize(block, n);
      var k := 0;
      while k < n
        invariant 0 <= k <= n && forall j :: 0 <= j < k ==> block[j] != b
      {
        if block[k] == b {
          break;
        }
        k := k + 1;
      }
      ghost var was := block;
      block := block[k := b];
      MembersStep(was, k, b);
      if k == n {
        Bpin(i);
        n := n + 1;
        ListingSize(block, n);
      } else {
        assert block == was;
        MembersAt(block, n, k);
        SameStoreRefl(buf, disk);
      }
    }

    lemma ListingSize(list: seq<nat>, k: nat)
      requires Listing(list, k)
      ensures |Members(list, k)| == k
    {
      if k > 0 {
        ListingSize(list, k - 1);
        assert Members(list, k) == Members(list, k - 1) + {list[k - 1]};
        assert list[k - 1] !in Members(list, k - 1);
      }
    }

    /** Reading a block: the contents are the store's. */
    method ReadBlock(b: nat) returns (r: Option<Block>)
      requires LogValid() && b < FSSIZE
      modifies this`buf, this`buckets, this`hand, this`held, this`ra
      ensures LogValid() && SameStore(old(buf), disk, buf, disk)
      ensures r.Some? ==> r.value == Store(buf, disk, Key(dev, b))
      ensures r.None? ==> NoBuffers()
      ensures r.None? <==> n >= NBUF && b !in pinned
    {
      hide Chained, PinnedCached, SameStore, Unique, Store;
      ListingSize(block, n);
      var i := Bread(b);
      if i.None? {
        return None;
      }
      ghost var buf1 := buf;
      r := Some(buf[i.value].data);
      Brelse(i.value);
      SameStoreTrans(old(buf), disk, buf1, disk, buf, disk);
      SameStoreAt(buf1, disk, buf, disk, Key(dev, b));
    }

    /** Changing a block inside a transaction: bread, memmove, log_write, brelse. */
    method WriteBlock(b: nat, data: Block) returns (ok: bool)
      requires LogValid() && b < FSSIZE && !InLog(b) && n < LOGSIZE && n < logSize - 1
      modifies this`buf, this`buckets, this`hand, this`held, this`ra, this`pinned, this`n, this`block
      ensures ok ==> LogValid() && StoreSet(old(buf), disk, buf, disk, Key(dev, b), data) && pinned == old(pinned) + {b}
      ensures !ok ==> NoBuffers()
      ensures old(n) < NBUF ==> ok
      ensures ok ==> n == |pinned| && old(n) == |old(pinned)|
    {
      hide Valid, SameStore, StoreSet, Store, Members, Listing;
      ListingSize(block, n);
      var r := Bread(b);
      if r.None? {
        return false;
      }
      ghost var buf1 := buf;
      Change(r.value, data);
      StoreSetAfter(old(buf), buf1, buf, disk, Key(dev, b), data);
      return true;
    }

    /** The held buffer gets its new contents, is logged and let go. */
    method Change(i: nat, data: Block)
      requires Valid() && held == {i} && i < |buf| && buf[i].valid && buf[i].key in disk && buf[i].key.dev == dev != 0
      requires buf[i].key.blockno < FSSIZE && !InLog(buf[i].key.blockno) && n < LOGSIZE && n < logSize - 1
      requires |block| == LOGSIZE && Listing(block, n) && pinned == Members(block, n)
      modifies this`buf, this`held, this`pinned, this`n, this`block
      ensures Valid() && held == {} && StoreSet(old(buf), disk, buf, disk, old(buf)[i].key, data)
      ensures |block| == LOGSIZE && Listing(block, n) && pinned == Members(block, n)
      ensures pinned == old(pinned) + {old(buf)[i].key.blockno} && n == |pinned| && old(n) == |old(pinned)|
    {
      hide Valid, SameStore, StoreSet, Store, Members, Listing;
      ghost var k := buf[i].key;
      SetData(i, data);
      ghost var buf2 := buf;
      var ok := LogWrite(i);
      ghost var buf3 := buf;
      StoreSetThen(old(buf), disk, buf2, disk, buf3, disk, k, data);
      Brelse(i);
      StoreSetThen(old(buf), disk, buf3, disk, buf, disk, k, data);
    }

    // -------------------------------------------------------------- commit

    /** The log block of entry `tail` and its home block, which is pinned and so found: only the
        first of the two can fail for want of a buffer. */
    method ReadPair(tail: nat) returns (ok: bool, lbuf: nat, hbuf: nat)
      requires Valid() && dev != 0 && held == {} && |block| == LOGSIZE && tail < LOGSIZE
               && logStart + logSize <= FSSIZE && tail + 1 < logSize
      requires block[tail] < FSSIZE && block[tail] in pinned && logStart + tail + 1 !in pinned
      modifies this`buf, this`buckets, this`hand, this`held, this`ra
      ensures Valid() && |buf| == NBUF && SameStore(old(buf), disk, buf, disk)
      ensures !ok ==> NoBuffers() && held == {}
      ensures ok <==> |pinned| < NBUF
      ensures ok ==> held == {lbuf, hbuf} && lbuf != hbuf
                     && Fetched(lbuf, Key(dev, logStart + 1 + tail)) && Fetched(hbuf, Key(dev, block[tail]))
    {
      hide Valid, SameStore, Store;
      lbuf, hbuf := 0, 0;
      var r := Bread(logStart + tail + 1);
      if r.None? {
        return false, lbuf, hbuf;
      }
      lbuf := r.value;
      ghost var buf1 := buf;
      r := Bread(block[tail]);
      hbuf := r.value;
      SameStoreTrans(old(buf), disk, buf1, disk, buf, disk);
      SameStoreAt(buf1, disk, buf, disk, Key(dev, logStart + 1 + tail));
      return true, lbuf, hbuf;
    }

    /** One turn of write_log: the cached block goes to its log block, on disk. */
    method WriteLogBlock(tail: nat) returns (ok: bool)
      requires LogValid() && tail < n
      modifies this`buf, this`buckets, this`hand, this`held, this`ra, this`disk, this`trail
      ensures !ok ==> NoBuffers()
      ensures ok ==> LogValid() && Key(dev, block[tail]) in old(disk)
      ensures ok ==> StoreSet(old(buf), old(disk), buf, disk, Key(dev, logStart + 1 + tail),
                              Store(old(buf), old(disk), Key(dev, block[tail])))
      ensures ok <==> n < NBUF
      ensures ok ==> trail == old(trail) + [disk] && OneWrite(old(disk), disk, Key(dev, logStart + 1 + tail))
      ensures !ok ==> trail == old(trail) && disk == old(disk)
    {
      hide Valid, SameStore, StoreSet, Store, Members;
      ListingSize(block, n);
      InstallPins(tail);
      var to, from;
      ok, to, from := ReadPair(tail);
      if !ok { return; }
      ghost var buf2 := buf;
      SameStoreAt(old(buf), disk, buf2, disk, Key(dev, block[tail]));
      var data := buf[from].data;
      ghost var k := Key(dev, logStart + 1 + tail);
      MembersAt(block, n, tail);
      SetData(to, data);
      ghost var buf3, disk0 := buf, disk;
      StoreSetAfter(old(buf), buf2, buf3, disk, k, data);
      Bwrite(to);
      StoreSetThen(old(buf), disk0, buf3, disk0, buf3, disk, k, data);
      Brelse(from);
      ghost var buf4 := buf;
      StoreSetThen(old(buf), disk0, buf3, disk, buf4, disk, k, data);
      Brelse(to);
      StoreSetThen(old(buf), disk0, buf4, disk, buf, disk, k, data);
      return true;
    }

    /** Every block outside the log area reads as it did. */
    ghost predicate SameHomes(buf0: seq<Buf>, disk0: map<Key, Block>)
      reads this`buf, this`disk
    {
      && disk.Keys == disk0.Keys
      && forall k :: k in disk && k.dev != 0 && !(k.dev == dev && InLog(k.blockno)) ==>
          Store(buf, disk, k) == Store(buf0, disk0, k)
    }

    lemma LoggedStep(buf0: seq<Buf>, disk0: map<Key, Block>, tail: nat)
      requires LogValid() && tail < n
      requires forall i :: 0 <= i < tail ==> LoggedAt(buf0, disk0, i)
      requires Key(dev, block[tail]) in disk0
      requires StoreSet(buf0, disk0, buf, disk, Key(dev, logStart + 1 + tail),
                        Store(buf0, disk0, Key(dev, block[tail])))
      ensures forall i :: 0 <= i <= tail ==> LoggedAt(buf, disk, i)
    {
      hide Valid, Store;
      forall i | 0 <= i <= tail
        ensures LoggedAt(buf, disk, i)
      {
        assert i < tail ==> LoggedAt(buf0, disk0, i);
      }
    }

    function LogArea(): CrashLog.Area
    {
      CrashLog.Area(logStart, logSize)
    }

    /** The header on disk says that nothing is logged. */
    ghost predicate Quiet()
      reads this`disk
    {
      Readable(dev, LogArea(), disk) && disk[Key(dev, logStart)][0] == 0
    }

    lemma UnseenQuiet(trail0: seq<map<Key, Block>>, disk0: map<Key, Block>)
      requires Unseen(dev, LogArea(), trail0, disk0, trail, disk)
      ensures Quiet() && trail0 <= trail && Readable(dev, LogArea(), disk0)
      ensures AllGive(dev, LogArea(), trail[|trail0|..], Recovered(dev, LogArea(), disk0))
    {}

    /** write_log. */
    method WriteLog() returns (ok: bool)
      requires LogValid()
      modifies this`buf, this`buckets, this`hand, this`held, this`ra, this`disk, this`trail
      ensures !ok ==> NoBuffers()
      ensures ok ==> LogValid() && SameHomes(old(buf), old(disk)) && forall i :: 0 <= i < n ==> LoggedAt(buf, disk, i)
      ensures ok <==> n == 0 || n < NBUF
      ensures old(trail) <= trail
      ensures old(Quiet()) ==> Quiet() && Unseen(dev, LogArea(), old(trail), old(disk), trail, disk)
    {
      hide Valid, Store, Members, LoggedAt, Unseen, OneWrite, Readable;
      var tail := 0;
      if Quiet() {
        UnseenNone(dev, LogArea(), trail, disk);
      }
      while tail < n
        invariant 0 <= tail <= n && LogValid() && SameHomes(old(buf), old(disk))
        invariant forall i :: 0 <= i < tail ==> LoggedAt(buf, disk, i)
        invariant tail > 0 ==> n < NBUF
        invariant old(trail) <= trail
        invariant old(Quiet()) ==> Quiet() && Unseen(dev, LogArea(), old(trail), old(disk), trail, disk)
      {
        ghost var buf0, disk0, trail0 := buf, disk, trail;
        ok := WriteLogBlock(tail);
        if !ok { return; }
        if old(Quiet()) {
          UnseenMore(dev, LogArea(), old(trail), old(disk), trail0, disk0, disk, tail);
          UnseenQuiet(old(trail), old(disk));
        }
        LoggedStep(buf0, disk0, tail);
        tail := tail + 1;
      }
      ok := true;
    }

    /** Log block i holds what home block block[i] holds. */
    ghost predicate LoggedAt(b: seq<Buf>, d: map<Key, Block>, i: nat)
      reads this`block
    {
      && i < |block| && Key(dev, logStart + 1 + i) in d && Key(dev, block[i]) in d
      && Store(b, d, Key(dev, logStart + 1 + i)) == Store(b, d, Key(dev, block[i]))
    }

    /** write_head: the header block, straight to disk. */
    method WriteHead() returns (ok: bool)
      requires Valid() && dev != 0 && held == {} && |block| == LOGSIZE && n <= LOGSIZE && 0 < logSize
               && logStart + logSize <= FSSIZE
      requires forall i :: 0 <= i < n ==> block[i] < FSSIZE
      requires logStart !in pinned
      modifies this`buf, this`buckets, this`hand, this`held, this`ra, this`disk, this`trail
      ensures !ok ==> NoBuffers()
      ensures ok <==> |pinned| < NBUF
      ensures ok ==> Valid() && held == {} && SameHomes(old(buf), old(disk))
      ensures ok ==> HeadSays(dev, logStart, disk, n, block)
      ensures ok ==> trail == old(trail) + [disk] && OneWrite(old(disk), disk, Key(dev, logStart))
      ensures !ok ==> trail == old(trail) && disk == old(disk)
      ensures ok ==>
                forall i :: 0 <= i < LOGSIZE && old(LoggedAt(buf, disk, i)) && !InLog(block[i]) && i < logSize - 1 ==>
                  LoggedAt(buf, disk, i)
    {
      hide Valid, Store, SameStore, StoreSet;
      var k := Key(dev, logStart);
      var r := Bread(logStart);
      if r.None? { return false; }
      var i := r.value;
      ghost var buf1, disk1 := buf, disk;
      var h := buf[i].data;
      var data := HeadImage(n, block, h);
      SetData(i, data);
      ghost var buf2 := buf;
      StoreSetAfter(old(buf), buf1, buf2, disk, k, data);
      Bwrite(i);
      StoreSetThen(old(buf), disk1, buf2, disk1, buf2, disk, k, data);
      Brelse(i);
      StoreSetThen(old(buf), disk1, buf2, disk, buf, disk, k, data);
      HeadOnly(old(buf), disk1, data);
      return true;
    }

    lemma HeadOnly(buf0: seq<Buf>, disk0: map<Key, Block>, data: Block)
      requires dev != 0 && 0 < logSize && StoreSet(buf0, disk0, buf, disk, Key(dev, logStart), data)
      ensures SameHomes(buf0, disk0)
      ensures forall i :: 0 <= i < |block| && LoggedAt(buf0, disk0, i) && !InLog(block[i]) && i < logSize - 1 ==>
                LoggedAt(buf, disk, i)
    {
      hide Store;
    }

    /** Installing has got to entry t: the entries before it are no longer pinned. */
    ghost predicate Installing(t: nat)
      reads this
    {
      && Valid() && dev != 0 && held == {} && |block| == LOGSIZE && t <= n <= LOGSIZE && n < logSize
      && logStart + logSize <= FSSIZE
      && pinned == Members(block, n) - Members(block, t) && Listing(block, n)
      && HeadSays(dev, logStart, disk, n, block)
      && forall i :: 0 <= i < n ==> LoggedAt(buf, disk, i)
    }

    /** A block that is neither held nor pinned is on disk as the store has it. */
    lemma CleanAt(b: nat)
      requires Valid() && held == {} && b < FSSIZE && b !in pinned
      ensures disk[Key(dev, b)] == Store(buf, disk, Key(dev, b))
    {
      hide Chained, PinnedCached;
      var k := Key(dev, b);
      if exists i: nat :: Caches(buf, i, k) {
        var i: nat :| Caches(buf, i, k);
        StoreCached(buf, disk, k, i);
        assert buf[i].refcnt == 0 && Clean(buf[i], disk);
      } else {
        forall i | 0 <= i < |buf|
          ensures !(buf[i].valid && buf[i].key == k)
        {
          assert !Caches(buf, i, k);
        }
        StoreUncached(buf, disk, k);
      }
    }

    /** From the commit header on, and however far installing has got, recovery gives the store. */
    lemma InstallingGives(t: nat)
      requires Installing(t)
      ensures Gives(dev, LogArea(), disk, Homes(this))
    {
      hide Chained, PinnedCached, Store, Unique, Clean;
      var a, d := LogArea(), Image(dev, disk);
      HeaderIs();
      forall b | 0 <= b < FSSIZE && !InLog(b)
        ensures CrashLog.Logical(a, d, b) == Store(buf, disk, Key(dev, b))
      {
        var at := CrashLog.Find(CrashLog.HeaderList(d[a.start]), n, b);
        if at.Some? {
          assert LoggedAt(buf, disk, at.value);
          assert logStart + 1 + at.value !in pinned;
          CleanAt(logStart + 1 + at.value);
        } else {
          CleanAt(b);
        }
      }
    }

    lemma InstallingValid(t: nat)
      requires Installing(t)
      ensures Valid()
    {}

    lemma StoreKept(buf0: seq<Buf>, disk0: map<Key, Block>, homes: map<nat, Block>)
      requires Valid() && SameStore(buf0, disk0, buf, disk)
      requires (forall b :: 0 <= b < FSSIZE ==> Key(dev, b) in disk0) && homes == HomesOf(buf0, disk0)
      ensures Homes(this) == homes
    {
      hide Chained, PinnedCached, Store, Unique, Clean;
    }

    lemma HomesKept(buf0: seq<Buf>, disk0: map<Key, Block>)
      requires Valid() && SameHomes(buf0, disk0) && forall b :: 0 <= b < FSSIZE ==> Key(dev, b) in disk0
      ensures Homes(this) == HomesOf(buf0, disk0)
    {
      hide Chained, PinnedCached, Store, Unique, Clean;
    }

    /** The blocks outside the log area, as readers see them. */
    ghost function HomesOf(b: seq<Buf>, d: map<Key, Block>): map<nat, Block>
      requires forall x :: 0 <= x < FSSIZE ==> Key(dev, x) in d
    {
      map x | 0 <= x < FSSIZE && !InLog(x) :: Store(b, d, Key(dev, x))
    }

    lemma HeaderIs()
      requires (forall b :: 0 <= b < FSSIZE ==> Key(dev, b) in disk) && HeadSays(dev, logStart, disk, n, block)
      requires Listing(block, n) && |block| == LOGSIZE && n < logSize && logStart + logSize <= FSSIZE
      ensures var d := Image(dev, disk);
              && Readable(dev, LogArea(), disk) && CrashLog.HeaderN(d[logStart]) == n
              && forall i :: 0 <= i < n ==> CrashLog.HeaderList(d[logStart])[i] == block[i]
    {
      var d := Image(dev, disk);
      var list := CrashLog.HeaderList(d[logStart]);
      assert forall i :: 0 <= i < n ==> list[i] == d[logStart][1 + i] == block[i];
    }

    /** One turn of install_trans: home gets the log's copy, which it already shows. */
    method InstallBlock(tail: nat) returns (ok: bool)
      requires Installing(tail) && tail < n
      modifies this`buf, this`buckets, this`hand, this`held, this`ra, this`disk, this`trail, this`pinned
      ensures !ok ==> NoBuffers()
      ensures ok ==> Installing(tail + 1) && SameStore(old(buf), old(disk), buf, disk)
      ensures n < NBUF ==> ok
      ensures trail == if ok then old(trail) + [disk] else old(trail)
    {
      hide Valid, Store, SameStore, StoreSet, Members, LoggedAt;
      StillPinned(tail);
      InstallPins(tail);
      var lbuf, dbuf;
      ok, lbuf, dbuf := ReadPair(tail);
      if !ok { return; }
      ghost var buf2, disk0 := buf, disk;
      var data := buf[lbuf].data;
      assert data == Store(buf2, disk, Key(dev, block[tail])) by {
        assert LoggedAt(old(buf), disk, tail);
        LoggedData(old(buf), buf2, buf2, disk, tail, data);
      }
      CopyHome(dbuf, data);
      ghost var buf4 := buf;
      SameStoreTrans(old(buf), disk0, buf2, disk0, buf4, disk);
      Brelse(lbuf);
      ghost var buf5 := buf;
      SameStoreTrans(old(buf), disk0, buf4, disk, buf5, disk);
      Brelse(dbuf);
      SameStoreTrans(old(buf), disk0, buf5, disk, buf, disk);
      forall i | 0 <= i < n
        ensures LoggedAt(buf, disk, i)
      {
        assert LoggedAt(old(buf), disk0, i);
        LoggedSame(old(buf), disk0, i);
      }
      return true;
    }

    lemma StillPinned(t: nat)
      requires |block| == LOGSIZE && t <= n <= LOGSIZE && Listing(block, n)
      ensures |Members(block, n) - Members(block, t)| <= n
    {
      ListingSize(block, n);
      assert Members(block, n) == (Members(block, n) - Members(block, t)) + Members(block, n) * Members(block, t);
    }

    /** memmove, bwrite and bunpin of a home block whose contents are already the log's. */
    method CopyHome(i: nat, data: Block)
      requires Valid() && i in held && i < |buf| && buf[i].valid && buf[i].key in disk && buf[i].key.dev == dev
               && buf[i].key.blockno in pinned
      requires data == Store(buf, disk, buf[i].key)
      modifies this`buf, this`disk, this`trail, this`pinned
      ensures Valid() && SameStore(old(buf), old(disk), buf, disk) && pinned == old(pinned) - {buf[i].key.blockno}
      ensures SameContents(old(buf)[i := old(buf)[i].(data := data)], buf) && disk == old(disk)[buf[i].key := data]
      ensures trail == old(trail) + [disk]
    {
      hide Valid, Store, SameStore, StoreSet;
      SetData(i, data);
      ghost var buf1, disk0 := buf, disk;
      StoreSetNothing(old(buf), buf1, disk, buf[i].key, data);
      Bwrite(i);
      SameStoreTrans(old(buf), disk0, buf1, disk0, buf1, disk);
      Bunpin(i);
      SameStoreTrans(old(buf), disk0, buf1, disk, buf, disk);
    }

    lemma InstallPins(t: nat)
      requires |block| == LOGSIZE && t < n <= LOGSIZE && Listing(block, n)
      ensures block[t] in Members(block, n) - Members(block, t)
      ensures Members(block, n) - Members(block, t + 1) == Members(block, n) - Members(block, t) - {block[t]}
      ensures forall b: nat :: InLog(b) ==> b !in Members(block, n)
    {
      assert Members(block, t + 1) == Members(block, t) + {block[t]};
    }

    lemma LoggedSame(buf0: seq<Buf>, disk0: map<Key, Block>, i: nat)
      requires dev != 0 && LoggedAt(buf0, disk0, i) && SameStore(buf0, disk0, buf, disk)
      ensures LoggedAt(buf, disk, i)
    {}

    lemma LoggedData(buf0: seq<Buf>, buf1: seq<Buf>, buf2: seq<Buf>, d: map<Key, Block>, i: nat, data: Block)
      requires dev != 0 && LoggedAt(buf0, d, i) && SameStore(buf0, d, buf1, d) && SameStore(buf0, d, buf2, d)
      requires Key(dev, logStart + 1 + i) in d && data == Store(buf1, d, Key(dev, logStart + 1 + i))
      ensures Key(dev, block[i]) in d && data == Store(buf2, d, Key(dev, block[i]))
    {}

    /** install_trans, as part of commit. */
    method InstallTrans() returns (ok: bool)
      requires Installing(0)
      modifies this`buf, this`buckets, this`hand, this`held, this`ra, this`disk, this`trail, this`pinned
      ensures !ok ==> NoBuffers()
      ensures ok ==> Installing(n) && SameStore(old(buf), old(disk), buf, disk)
      ensures n < NBUF ==> ok
      ensures old(trail) <= trail
      ensures AllGive(dev, LogArea(), trail[|old(trail)|..], old(Homes(this)))
    {
      hide Installing, SameStore, Gives, HomesOf;
      InstallingValid(0);
      ghost var homes := Homes(this);
      var tail := 0;
      SameStoreRefl(buf, disk);
      while tail < n
        invariant 0 <= tail <= n && Installing(tail) && SameStore(old(buf), old(disk), buf, disk)
        invariant old(trail) <= trail && Valid() && Homes(this) == homes
        invariant AllGive(dev, LogArea(), trail[|old(trail)|..], homes)
      {
        ghost var buf1, disk1, trail1 := buf, disk, trail;
        ok := InstallBlock(tail);
        if !ok { return; }
        assert trail[|old(trail)|..] == trail1[|old(trail)|..] + [disk];
        InstallingValid(tail + 1);
        StoreKept(buf1, disk1, homes);
        InstallingGives(tail + 1);
        SameStoreTrans(old(buf), old(disk), buf1, disk1, buf, disk);
        tail := tail + 1;
      }
      ok := true;
    }

    /** commit: no block outside the log area reads differently, nothing stays pinned, and the
        disk itself now holds what the store holds. */
    method Commit() returns (ok: bool)
      requires LogValid()
      modifies this`buf, this`buckets, this`hand, this`held, this`ra, this`disk, this`trail, this`pinned, this`n
      ensures !ok ==> NoBuffers()
      ensures ok ==> LogValid() && n == 0 && pinned == {} && SameHomes(old(buf), old(disk))
      ensures ok ==> forall k :: k in disk && k.dev == dev ==> disk[k] == Store(buf, disk, k)
      ensures ok <==> old(n) == 0 || old(n) < NBUF
      ensures old(trail) <= trail
      ensures old(Quiet()) ==> Switches(dev, LogArea(), trail[|old(trail)|..],
                                        old(Recovered(dev, LogArea(), disk)), old(Homes(this)))
      ensures ok && (old(Quiet()) || old(n) > 0) ==> Quiet() && Gives(dev, LogArea(), disk, Homes(this))
      ensures ok ==> Homes(this) == old(Homes(this))
    {
      hide Valid, Store, SameStore, LoggedAt, Members, HomesOf, Recovered, Gives, Switches, Installing, Readable,
           AllGive;
      LogValidParts();
      ghost var homes := Homes(this);
      ok := true;
      ghost var trail1 := trail;
      if n > 0 {
        ok := WriteLog();
        trail1 := trail;
        if ok {
          ghost var buf1, disk1 := buf, disk;
          LogValidParts();
          HomesKept(old(buf), old(disk));
          ok := CommitLogged();
          if ok {
            HomesJoin(old(buf), old(disk), buf1, disk1);
          }
        } else {
          NoneGive(trail, homes);
        }
      } else {
        Settled();
        NoneGive(trail, homes);
      }
      if old(Quiet()) {
        CommitSwitches(old(trail), old(disk), trail1, homes);
      }
      if ok {
        LogValidParts();
        Drained();
      }
    }

    lemma NoneGive(trail0: seq<map<Key, Block>>, homes: map<nat, Block>)
      requires trail == trail0
      ensures AllGive(dev, LogArea(), trail[|trail0|..], homes)
    {}

    lemma CommitSwitches(trail0: seq<map<Key, Block>>, disk0: map<Key, Block>, trail1: seq<map<Key, Block>>,
                         homes: map<nat, Block>)
      requires Readable(dev, LogArea(), disk0) && trail0 <= trail1 <= trail
      requires trail0 == trail1 || AllGive(dev, LogArea(), trail1[|trail0|..], Recovered(dev, LogArea(), disk0))
      requires AllGive(dev, LogArea(), trail[|trail1|..], homes)
      ensures Switches(dev, LogArea(), trail[|trail0|..], Recovered(dev, LogArea(), disk0), homes)
    {
      hide Gives, Readable;
      SwitchedAt(trail0, trail1, Recovered(dev, LogArea(), disk0), homes);
    }

    /** The rest of commit, with the blocks in the log. */
    method CommitLogged() returns (ok: bool)
      requires LogValid() && n > 0 && forall i :: 0 <= i < n ==> LoggedAt(buf, disk, i)
      modifies this`buf, this`buckets, this`hand, this`held, this`ra, this`disk, this`trail, this`pinned, this`n
      ensures !ok ==> NoBuffers()
      ensures ok <==> old(n) < NBUF
      ensures ok ==> LogValid() && n == 0 && pinned == {} && SameHomes(old(buf), old(disk))
      ensures ok ==> Quiet() && Gives(dev, LogArea(), disk, old(Homes(this))) && Homes(this) == old(Homes(this))
      ensures old(trail) <= trail && AllGive(dev, LogArea(), trail[|old(trail)|..], old(Homes(this)))
    {
      hide Valid, Store, SameStore, LoggedAt, Members, HomesOf, Recovered, Gives, Installing, Readable, AllGive, Quiet;
      LogValidParts();
      ghost var homes := Homes(this);
      ok := WriteCommit();
      if !ok {
        NoneGive(old(trail), homes);
        return;
      }
      ghost var buf1, disk1, trail1 := buf, disk, trail;
      OneGives(old(trail), homes);
      ok := InstallTrans();
      GiveMore(old(trail), trail1, homes);
      if !ok { return; }
      HomesThen(old(buf), old(disk), buf1, disk1);
      InstallingValid(n);
      HomesKept(old(buf), old(disk));
      ghost var buf2, disk2, trail2 := buf, disk, trail;
      ok := ClearHead();
      OneGives(trail2, homes);
      GiveMore(old(trail), trail2, homes);
      HomesJoin(old(buf), old(disk), buf2, disk2);
    }

    lemma OneGives(trail0: seq<map<Key, Block>>, homes: map<nat, Block>)
      requires trail == trail0 + [disk] && Gives(dev, LogArea(), disk, homes)
      ensures AllGive(dev, LogArea(), trail[|trail0|..], homes)
    {
      hide Gives;
      assert trail[|trail0|..] == [disk];
    }

    /** With nothing logged, recovery gives what readers see. */
    lemma Settled()
      requires LogValid() && n == 0
      ensures Quiet() ==> Gives(dev, LogArea(), disk, Homes(this))
      ensures SameHomes(buf, disk)
    {
      hide Store, Chained, PinnedCached, Unique, Clean;
      if Quiet() {
        MembersNone(block);
        assert Installing(0);
        InstallingGives(0);
      }
    }

    lemma LogValidParts()
      requires LogValid()
      ensures Valid() && held == {} && |pinned| == n && forall b :: 0 <= b < FSSIZE ==> Key(dev, b) in disk
    {
      ListingSize(block, n);
    }

    lemma SwitchedAt(trail0: seq<map<Key, Block>>, trail1: seq<map<Key, Block>>, was: map<nat, Block>,
                     now: map<nat, Block>)
      requires trail0 <= trail1 <= trail
      requires AllGive(dev, LogArea(), trail1[|trail0|..], was) && AllGive(dev, LogArea(), trail[|trail1|..], now)
      ensures Switches(dev, LogArea(), trail[|trail0|..], was, now)
    {
      var m, disks := |trail1| - |trail0|, trail[|trail0|..];
      assert disks[..m] == trail1[|trail0|..] && disks[m..] == trail[|trail1|..];
    }

    lemma GiveMore(trail1: seq<map<Key, Block>>, trail2: seq<map<Key, Block>>, homes: map<nat, Block>)
      requires trail1 <= trail2 <= trail
      requires AllGive(dev, LogArea(), trail2[|trail1|..], homes) && AllGive(dev, LogArea(), trail[|trail2|..], homes)
      ensures AllGive(dev, LogArea(), trail[|trail1|..], homes)
    {
      assert trail[|trail1|..] == trail2[|trail1|..] + trail[|trail2|..];
    }

    /** write_head with the list: the commit. */
    method WriteCommit() returns (ok: bool)
      requires LogValid() && n > 0 && forall i :: 0 <= i < n ==> LoggedAt(buf, disk, i)
      modifies this`buf, this`buckets, this`hand, this`held, this`ra, this`disk, this`trail
      ensures !ok ==> NoBuffers()
      ensures ok <==> n < NBUF
      ensures ok ==> SameHomes(old(buf), old(disk))
      ensures ok ==> Installing(0) && Homes(this) == old(Homes(this)) && Gives(dev, LogArea(), disk, Homes(this))
      ensures trail == if ok then old(trail) + [disk] else old(trail)
    {
      hide Valid, Store, LoggedAt, Members, HomesOf, Gives, HeadSays, OneWrite;
      LogValidParts();
      HeaderUnpinned();
      ok := WriteHead();
      if ok {
        HomesKept(old(buf), old(disk));
        MembersNone(block);
        InstallingGives(0);
      }
    }

    /** The list is emptied, and the header on disk too. */
    method ClearHead() returns (ok: bool)
      requires Installing(n)
      modifies this`buf, this`buckets, this`hand, this`held, this`ra, this`disk, this`n, this`trail
      ensures ok && LogValid() && n == 0 && pinned == {} && Homes(this) == old(Homes(this))
      ensures SameHomes(old(buf), old(disk))
      ensures Quiet() && Gives(dev, LogArea(), disk, Homes(this)) && trail == old(trail) + [disk]
    {
      hide Valid, Store, LoggedAt, Members, HomesOf, Gives, OneWrite;
      InstallingValid(n);
      assert pinned == {};
      n := 0;
      ok := WriteHead();
      HomesKept(old(buf), old(disk));
      MembersNone(block);
      assert Installing(0);
      InstallingGives(0);
    }

    lemma HeaderUnpinned()
      requires LogValid()
      ensures logStart !in pinned
    {
      assert InLog(logStart);
    }

    lemma HomesJoin(buf0: seq<Buf>, disk0: map<Key, Block>, buf1: seq<Buf>, disk1: map<Key, Block>)
      requires disk1.Keys == disk0.Keys && SameHomes(buf1, disk1)
      requires forall k :: k in disk1 && k.dev != 0 && !(k.dev == dev && InLog(k.blockno)) ==>
                 Store(buf1, disk1, k) == Store(buf0, disk0, k)
      ensures SameHomes(buf0, disk0)
    {}

    lemma HomesThen(buf0: seq<Buf>, disk0: map<Key, Block>, buf1: seq<Buf>, disk1: map<Key, Block>)
      requires disk1.Keys == disk0.Keys && SameStore(buf1, disk1, buf, disk)
      requires forall k :: k in disk1 && k.dev != 0 && !(k.dev == dev && InLog(k.blockno)) ==>
                 Store(buf1, disk1, k) == Store(buf0, disk0, k)
      ensures SameHomes(buf0, disk0)
    {}

    /** With nothing held and nothing pinned, every cached block is clean. */
    lemma Drained()
      requires Valid() && held == {} && pinned == {}
      ensures forall k :: k in disk && k.dev == dev ==> disk[k] == Store(buf, disk, k)
    {
      forall k | k in disk && k.dev == dev
        ensures disk[k] == Store(buf, disk, k)
      {
        if exists i: nat :: Caches(buf, i, k) {
          var i: nat :| Caches(buf, i, k);
          StoreCached(buf, disk, k, i);
          assert buf[i].refcnt == 0 && Clean(buf[i], disk);
        }
      }
    }
  }

  lemma MembersNone(list: seq<nat>)
    ensures Members(list, 0) == {}
  {}

  // ---------------------------------------------------------------- runs

  datatype Op = Read(b: nat) | Write(b: nat, data: Block) | Commit

  /** A plain block store: reads return the last write. */
  function Play(store: map<nat, Block>, ops: seq<Op>): (r: (map<nat, Block>, seq<Block>))
  {
    if ops == [] then (store, []) else
    match ops[0]
    case Read(b) =>
      if b in store then var (s, out) := Play(store, ops[1..]); (s, [store[b]] + out) else Play(store, ops[1..])
    case Write(b, data) =>
      if b in store then Play(store[b := data], ops[1..]) else Play(store, ops[1..])
    case Commit => Play(store, ops[1..])
  }

  /** The blocks outside the log area, as readers see them. */
  ghost function Homes(c: Bcache): map<nat, Block>
    requires c.Valid()
    reads c
  {
    c.HomesOf(c.buf, c.disk)
  }

  method StepRead(c: Bcache, b: nat) returns (r: Option<Block>)
    requires c.LogValid() && b < FSSIZE && !c.InLog(b)
    modifies c
    ensures r.None? ==> c.NoBuffers()
    ensures old(c.n) < NBUF ==> r.Some?
    ensures c.disk == old(c.disk) && c.trail == old(c.trail)
    ensures r.Some? ==> c.LogValid() && Homes(c) == old(Homes(c)) && r.value == Homes(c)[b]
  {
    hide Store;
    r := c.ReadBlock(b);
  }

  /** A write; a full log is committed first. */
  method StepWrite(c: Bcache, b: nat, data: Block) returns (ok: bool)
    requires c.LogValid() && b < FSSIZE && !c.InLog(b) && 2 <= c.logSize
    modifies c
    ensures !ok ==> c.NoBuffers()
    ensures old(c.n) < NBUF ==> ok
    ensures ok ==> c.LogValid() && Homes(c) == old(Homes(c))[b := data]
    ensures old(c.Quiet()) ==> Safe(c.dev, c.LogArea(), old(c.trail), old(c.disk), c.trail, c.disk, old(Homes(c)), ok)
  {
    hide Store, Gives, Recovered, Readable, Switches, Safe, Bcache.Valid, Bcache.HomesOf, Bcache.SameHomes;
    c.LogValidParts();
    ghost var homes := Homes(c);
    SafeNone(c, homes);
    if c.n >= LOGSIZE || c.n >= c.logSize - 1 {
      ok := c.Commit();
      if old(c.Quiet()) {
        SafeCommit(c, old(c.trail), old(c.disk), homes, ok);
      }
      if !ok { return; }
      c.LogValidParts();
    }
    ghost var buf1 := c.buf;
    ok := c.WriteBlock(b, data);
    SafeOk(c, old(c.trail), old(c.disk), homes, ok);
    if ok {
      c.LogValidParts();
      WrittenHomes(c, buf1, homes, b, data);
    }
  }

  lemma SafeOk(c: Bcache, trail0: seq<map<Key, Block>>, disk0: map<Key, Block>, homes: map<nat, Block>, ok: bool)
    ensures Safe(c.dev, c.LogArea(), trail0, disk0, c.trail, c.disk, homes, true) ==>
              Safe(c.dev, c.LogArea(), trail0, disk0, c.trail, c.disk, homes, ok)
  {}

  lemma WrittenHomes(c: Bcache, buf1: seq<Buf>, homes: map<nat, Block>, b: nat, data: Block)
    requires c.Valid() && b < FSSIZE && !c.InLog(b) && homes == c.HomesOf(buf1, c.disk)
    requires StoreSet(buf1, c.disk, c.buf, c.disk, Key(c.dev, b), data)
    ensures Homes(c) == homes[b := data]
  {
    hide Store;
  }

  /** Every disk of the trail since then is recovered to what the disk was recovered to then, or to
      the contents readers saw; and so is the disk now, with an empty header if the step went
      through. */
  ghost predicate Safe(dev: nat, a: CrashLog.Area, trail0: seq<map<Key, Block>>, disk0: map<Key, Block>,
                       trail: seq<map<Key, Block>>, disk: map<Key, Block>, homes: map<nat, Block>, ok: bool)
  {
    && Readable(dev, a, disk0) && trail0 <= trail
    && (forall i :: |trail0| <= i < |trail| ==> OneOf(dev, a, trail[i], disk0, homes))
    && (ok ==> OneOf(dev, a, disk, disk0, homes) && disk[Key(dev, a.start)][0] == 0)
  }

  ghost predicate OneOf(dev: nat, a: CrashLog.Area, d: map<Key, Block>, disk0: map<Key, Block>, homes: map<nat, Block>)
    requires Readable(dev, a, disk0)
  {
    Gives(dev, a, d, Recovered(dev, a, disk0)) || Gives(dev, a, d, homes)
  }

  lemma SafeNone(c: Bcache, homes: map<nat, Block>)
    ensures c.Quiet() ==> Safe(c.dev, c.LogArea(), c.trail, c.disk, c.trail, c.disk, homes, true)
  {}

  lemma SafeCommit(c: Bcache, trail0: seq<map<Key, Block>>, disk0: map<Key, Block>, homes: map<nat, Block>, ok: bool)
    requires Readable(c.dev, c.LogArea(), disk0) && trail0 <= c.trail
    requires Switches(c.dev, c.LogArea(), c.trail[|trail0|..], Recovered(c.dev, c.LogArea(), disk0), homes)
    requires ok ==> c.Quiet() && Gives(c.dev, c.LogArea(), c.disk, homes)
    ensures Safe(c.dev, c.LogArea(), trail0, disk0, c.trail, c.disk, homes, ok)
  {
    hide Gives, Recovered;
    var disks := c.trail[|trail0|..];
    var m :| 0 <= m <= |disks| && AllGive(c.dev, c.LogArea(), disks[..m], Recovered(c.dev, c.LogArea(), disk0))
             && AllGive(c.dev, c.LogArea(), disks[m..], homes);
    forall i | |trail0| <= i < |c.trail|
      ensures OneOf(c.dev, c.LogArea(), c.trail[i], disk0, homes)
    {
      var k := i - |trail0|;
      if k < m {
        assert c.trail[i] == disks[..m][k];
      } else {
        assert c.trail[i] == disks[m..][k - m];
      }
    }
  }

  /** A power failure with this disk loses nothing but operations at the end of the run: recovery
      gives the store as it is after some number of them, or as it was before the run. */
  ghost predicate Prefix(dev: nat, a: CrashLog.Area, d: map<Key, Block>, first: map<nat, Block>, store: map<nat, Block>,
                         ops: seq<Op>)
  {
    Gives(dev, a, d, first) || exists j :: 0 <= j <= |ops| && Gives(dev, a, d, Play(store, ops[..j]).0)
  }

  lemma PrefixMore(dev: nat, a: CrashLog.Area, d: map<Key, Block>, first: map<nat, Block>, store: map<nat, Block>,
                   ops: seq<Op>, more: seq<Op>)
    requires Prefix(dev, a, d, first, store, ops) && ops <= more
    ensures Prefix(dev, a, d, first, store, more)
  {
    hide Gives, Play;
    if j :| 0 <= j <= |ops| && Gives(dev, a, d, Play(store, ops[..j]).0) {
      assert more[..j] == ops[..j];
    }
  }

  lemma {:induction false} PlaySnoc(store: map<nat, Block>, ops: seq<Op>, op: Op)
    ensures var (s, out) := Play(store, ops);
            Play(store, ops + [op]) == (Play(s, [op]).0, out + Play(s, [op]).1)
    decreases |ops|
  {
    if ops == [] {
      assert ops + [op] == [op] && [] + Play(store, [op]).1 == Play(store, [op]).1;
    } else {
      assert (ops + [op])[1..] == ops[1..] + [op];
      match ops[0] {
        case Read(b) =>
          PlaySnoc(store, ops[1..], op);
          if b in store {
            var (s, out) := Play(store, ops[1..]);
            assert [store[b]] + (out + Play(s, [op]).1) == ([store[b]] + out) + Play(s, [op]).1;
          }
        case Write(b, data) => PlaySnoc(if b in store then store[b := data] else store, ops[1..], op);
        case Commit => PlaySnoc(store, ops[1..], op);
      }
    }
  }

  /** So it is with every disk written since then. */
  ghost predicate Survives(dev: nat, a: CrashLog.Area, trail0: seq<map<Key, Block>>, trail: seq<map<Key, Block>>,
                           first: map<nat, Block>, store: map<nat, Block>, ops: seq<Op>)
  {
    trail0 <= trail && forall i :: |trail0| <= i < |trail| ==> Prefix(dev, a, trail[i], first, store, ops)
  }

  lemma SurvivesMore(dev: nat, a: CrashLog.Area, trail0: seq<map<Key, Block>>, trail: seq<map<Key, Block>>,
                     first: map<nat, Block>, store: map<nat, Block>, ops: seq<Op>, more: seq<Op>)
    requires Survives(dev, a, trail0, trail, first, store, ops) && ops <= more
    ensures Survives(dev, a, trail0, trail, first, store, more)
  {
    hide Prefix;
    forall i | |trail0| <= i < |trail|
      ensures Prefix(dev, a, trail[i], first, store, more)
    {
      PrefixMore(dev, a, trail[i], first, store, ops, more);
    }
  }

  lemma SurvivesStep(c: Bcache, trail0: seq<map<Key, Block>>, trail1: seq<map<Key, Block>>, disk1: map<Key, Block>,
                     first: map<nat, Block>, store: map<nat, Block>, ops: seq<Op>, ok: bool)
    requires Survives(c.dev, c.LogArea(), trail0, trail1, first, store, ops)
    requires Prefix(c.dev, c.LogArea(), disk1, first, store, ops)
    requires Safe(c.dev, c.LogArea(), trail1, disk1, c.trail, c.disk, Play(store, ops).0, ok)
    ensures Survives(c.dev, c.LogArea(), trail0, c.trail, first, store, ops)
    ensures ok ==> c.Quiet() && Prefix(c.dev, c.LogArea(), c.disk, first, store, ops)
  {
    hide Play, Readable, Recovered, Prefix;
    forall d | OneOf(c.dev, c.LogArea(), d, disk1, Play(store, ops).0)
      ensures Prefix(c.dev, c.LogArea(), d, first, store, ops)
    {
      PrefixOneOf(c, d, disk1, first, store, ops);
    }
    forall i | |trail0| <= i < |c.trail|
      ensures Prefix(c.dev, c.LogArea(), c.trail[i], first, store, ops)
    {
      if i < |trail1| {
        assert c.trail[i] == trail1[i];
      } else {
        assert OneOf(c.dev, c.LogArea(), c.trail[i], disk1, Play(store, ops).0);
      }
    }
  }

  lemma PrefixOneOf(c: Bcache, d: map<Key, Block>, disk1: map<Key, Block>, first: map<nat, Block>,
                    store: map<nat, Block>, ops: seq<Op>)
    requires Readable(c.dev, c.LogArea(), disk1) && OneOf(c.dev, c.LogArea(), d, disk1, Play(store, ops).0)
    requires Prefix(c.dev, c.LogArea(), disk1, first, store, ops)
    ensures Prefix(c.dev, c.LogArea(), d, first, store, ops)
  {
    hide Play, Readable, Recovered;
    assert ops[..|ops|] == ops;
    var was := Recovered(c.dev, c.LogArea(), disk1);
    if Gives(c.dev, c.LogArea(), d, was) && !Gives(c.dev, c.LogArea(), disk1, first) {
      var j :| 0 <= j <= |ops| && Gives(c.dev, c.LogArea(), disk1, Play(store, ops[..j]).0);
      assert Gives(c.dev, c.LogArea(), d, Play(store, ops[..j]).0);
    }
  }

  lemma PlayOne(store: map<nat, Block>, op: Op)
    ensures Play(store, [op]) ==
              match op
              case Read(b) => (store, if b in store then [store[b]] else [])
              case Write(b, data) => (if b in store then store[b := data] else store, [])
              case Commit => (store, [])
  {
    assert [op][1..] == [];
    assert Play(store, []) == (store, []);
    if op.Read? && op.b in store {
      assert [store[op.b]] + [] == [store[op.b]];
    } else if op.Write? && op.b in store {
      assert Play(store[op.b := op.data], []) == (store[op.b := op.data], []);
    }
  }

  /** One operation of a run. */
  method Step(c: Bcache, op: Op) returns (ok: bool, out: seq<Block>)
    requires c.LogValid() && 2 <= c.logSize
    modifies c
    ensures !ok ==> c.NoBuffers()
    ensures old(c.n) < NBUF ==> ok
    ensures ok ==> c.LogValid() && (Homes(c), out) == Play(old(Homes(c)), [op])
    ensures old(c.Quiet()) ==> Safe(c.dev, c.LogArea(), old(c.trail), old(c.disk), c.trail, c.disk, old(Homes(c)), ok)
    ensures ok && old(c.Quiet()) && op.Commit? ==> Gives(c.dev, c.LogArea(), c.disk, Homes(c))
  {
    hide Store, Gives, Recovered, Readable, Safe, Play, Bcache.Valid, Bcache.HomesOf;
    c.LogValidParts();
    HomesDomain(c);
    SafeNone(c, Homes(c));
    PlayOne(Homes(c), op);
    ok, out := true, [];
    match op {
      case Read(b) =>
        if b < FSSIZE && !c.InLog(b) {
          var r := StepRead(c, b);
          if r.Some? {
            out := [r.value];
          } else {
            ok := false;
            SafeOk(c, old(c.trail), old(c.disk), old(Homes(c)), ok);
          }
        }
      case Write(b, data) =>
        if b < FSSIZE && !c.InLog(b) {
          ok := StepWrite(c, b, data);
        }
      case Commit => ok := StepCommit(c);
    }
  }

  /** Any sequence of reads, writes and commits, one buffer held at a time, behaves as on the
      plain store. It stops for want of a buffer only with a log area larger than the cache. The
      power may fail after any disk write: recovery gives the plain store after some of the
      operations, and after a commit all of those before it. */
  method Run(c: Bcache, ops: seq<Op>) returns (out: seq<Block>, done: nat)
    requires c.LogValid() && 2 <= c.logSize
    modifies c
    ensures done <= |ops| && out == Play(old(Homes(c)), ops[..done]).1
    ensures done < |ops| ==> c.NoBuffers()
    ensures c.logSize <= NBUF ==> done == |ops|
    ensures done == |ops| ==> c.LogValid() && (Homes(c), out) == Play(old(Homes(c)), ops)
    ensures old(c.Quiet()) ==>
              Survives(c.dev, c.LogArea(), old(c.trail), c.trail, old(Recovered(c.dev, c.LogArea(), c.disk)),
                       old(Homes(c)), ops)
    ensures old(c.Quiet()) && done == |ops| > 0 && ops[done - 1].Commit? ==>
              Gives(c.dev, c.LogArea(), c.disk, Play(old(Homes(c)), ops).0)
  {
    hide Store, Homes, Play, Gives, Recovered, Safe, Prefix, Survives;
    ghost var a, homes, trail0 := c.LogArea(), Homes(c), c.trail;
    ghost var first := if c.Quiet() then Recovered(c.dev, a, c.disk) else map[];
    out, done := [], 0;
    RunBegins(c, first, homes, ops);
    while done < |ops|
      invariant 0 <= done <= |ops| && c.LogValid()
      invariant (Homes(c), out) == Play(homes, ops[..done])
      invariant old(c.Quiet()) ==>
                  && c.Quiet() && Prefix(c.dev, a, c.disk, first, homes, ops[..done])
                  && Survives(c.dev, a, trail0, c.trail, first, homes, ops[..done])
      invariant old(c.Quiet()) && done > 0 && ops[done - 1].Commit? ==> Gives(c.dev, a, c.disk, Homes(c))
    {
      ghost var disk1, trail1 := c.disk, c.trail;
      assert ops[..done] + [ops[done]] == ops[..done + 1];
      PlaySnoc(homes, ops[..done], ops[done]);
      var ok, o := Step(c, ops[done]);
      if old(c.Quiet()) {
        SurvivesStep(c, trail0, trail1, disk1, first, homes, ops[..done], ok);
        SurvivesMore(c.dev, a, trail0, c.trail, first, homes, ops[..done], ops);
        SurvivesMore(c.dev, a, trail0, c.trail, first, homes, ops[..done], ops[..done + 1]);
      }
      if !ok { return; }
      if old(c.Quiet()) {
        PrefixMore(c.dev, a, c.disk, first, homes, ops[..done], ops[..done + 1]);
      }
      out := out + o;
      done := done + 1;
    }
    assert ops[..done] == ops;
  }

  lemma RunBegins(c: Bcache, first: map<nat, Block>, homes: map<nat, Block>, ops: seq<Op>)
    requires c.Quiet() ==> first == Recovered(c.dev, c.LogArea(), c.disk)
    ensures c.Quiet() ==>
              && Prefix(c.dev, c.LogArea(), c.disk, first, homes, ops[..0])
              && Survives(c.dev, c.LogArea(), c.trail, c.trail, first, homes, ops[..0])
    ensures Play(homes, ops[..0]) == (homes, [])
  {
    hide Recovered, Readable;
  }

  /** The condition is exact: with a log area larger than the cache, LOGSIZE writes of different
      blocks pin every buffer, and the commit that follows finds none for the log block. */
  method FullLogStops(c: Bcache, blocks: seq<nat>, data: Block) returns (ok: bool)
    requires c.LogValid() && c.n == 0 && c.logSize > NBUF && |blocks| == LOGSIZE && NoDup(blocks)
    requires forall i :: 0 <= i < |blocks| ==> blocks[i] < FSSIZE && !c.InLog(blocks[i])
    modifies c
    ensures !ok && c.NoBuffers()
  {
    hide StoreSet, Members, Store, Bcache.Valid, Bcache.Listing;
    c.ListingSize(c.block, c.n);
    assert c.pinned == {};
    var k := 0;
    while k < LOGSIZE
      invariant 0 <= k <= LOGSIZE && c.LogValid() && c.n == k && forall b :: b in c.pinned ==> b in blocks[..k]
    {
      assert blocks[k] !in blocks[..k];
      ok := c.WriteBlock(blocks[k], data);
      assert blocks[..k + 1] == blocks[..k] + [blocks[k]];
      k := k + 1;
    }
    ok := c.Commit();
  }

  lemma HomesDomain(c: Bcache)
    requires c.Valid()
    ensures forall b :: b in Homes(c) <==> 0 <= b < FSSIZE && !c.InLog(b)
  {}

  method StepCommit(c: Bcache) returns (ok: bool)
    requires c.LogValid()
    modifies c
    ensures !ok ==> c.NoBuffers()
    ensures ok <==> old(c.n) == 0 || old(c.n) < NBUF
    ensures ok ==> c.LogValid() && Homes(c) == old(Homes(c))
    ensures old(c.Quiet()) ==> Safe(c.dev, c.LogArea(), old(c.trail), old(c.disk), c.trail, c.disk, old(Homes(c)), ok)
    ensures ok && old(c.Quiet()) ==> Gives(c.dev, c.LogArea(), c.disk, Homes(c))
  {
    hide Store, Gives, Recovered;
    ghost var homes := Homes(c);
    ok := c.Commit();
    if old(c.Quiet()) {
      SafeCommit(c, old(c.trail), old(c.disk), homes, ok);
    }
  }

  lemma StoreSetNothing(a: seq<Buf>, a1: seq<Buf>, d: map<Key, Block>, k: Key, data: Block)
    requires StoreSet(a, d, a1, d, k, data) && data == Store(a, d, k)
    ensures SameStore(a, d, a1, d)
  {}

  /** The first k entries, as a set. */
  ghost function Members(list: seq<nat>, k: nat): set<nat>
    requires k <= |list|
  {
    set j | 0 <= j < k :: list[j]
  }

  lemma MembersAt(list: seq<nat>, k: nat, j: nat)
    requires j < k <= |list|
    ensures list[j] in Members(list, k) && Members(list, k) + {list[j]} == Members(list, k)
  {}

  lemma MembersStep(list: seq<nat>, k: nat, b: nat)
    requires k < |list| && forall j :: 0 <= j < k ==> list[j] != b
    ensures b !in Members(list, k) && Members(list[k := b], k + 1) == Members(list, k) + {b}
  {
    assert forall x :: x in Members(list, k) ==> exists j :: 0 <= j < k && list[j] == x;
    var l := list[k := b];
    forall x
      ensures x in Members(l, k + 1) <==> x in Members(list, k) + {b}
    {
      if x in Members(list, k) {
        var j :| 0 <= j < k && list[j] == x;
        assert l[j] == x;
      }
      if x in Members(l, k + 1) {
        var j :| 0 <= j < k + 1 && l[j] == x;
        assert j < k ==> list[j] == x;
      }
      assert l[k] == b;
    }
  }

  /** How many steps the hand takes from h to reach buffer i. */
  function Distance(h: nat, i: nat): int
  {
    if i >= h then i - h else i + NBUF - h
  }

  lemma DistanceBasics(h: nat)
    requires h < NBUF
    ensures Distance(h, h) == 0
    ensures forall i :: 0 <= i < NBUF ==> 0 <= Distance(h, i) < NBUF
    ensures forall i, j :: 0 <= i < NBUF && 0 <= j < NBUF && Distance(h, i) == Distance(h, j) ==> i == j
  {}

  lemma DistanceStep(h: nat, b: nat)
    requires h < NBUF && b < NBUF
    ensures Distance(h, (b + 1) % NBUF) == if Distance(h, b) + 1 == NBUF then 0 else Distance(h, b) + 1
  {}
}
