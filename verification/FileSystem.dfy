/** The copy-on-write file layer (kernel/filesystem/fs.c).

    Every method is one locked section.  `disk` is what the buffer cache shows, that
    is, the contents last logged; `inodes` are the in-core inodes and `dinodes` the
    inodes on disk, brought up to date by `Iupdate`.

    The panics "bref_dec: underflow" and "freeing free block" are preconditions of
    `Bfree` and are discharged at every call.  The panic "balloc: out of blocks" is a
    `None` result, handed on by every caller: the machine has stopped.  The log is taken
    to have room for what an operation logs; its limits are in Transactions and LogDemand. */
module FileSystem {
  import opened Basics
  import opened Layout
  import opened BlockMap

  const T_FILE := 2
  const IPB := 16                               // BSIZE / sizeof(struct dinode)

  /** A block as the log sees it: of the data area, of the bitmap, of the inode table. */
  datatype Site = Data(b: nat) | Bits(i: nat) | Inodes(i: nat)

  /** A place that holds a block number, as `uint *p` in bmap. */
  datatype Loc = InInode(i: nat) | InBlock(a: nat, j: nat)

  /** The k-th block number looked at by a scan of all blocks that starts at `start`. */
  function Rotate(start: nat, k: nat, size: nat): nat
  {
    if start + k < size then start + k else start + k - size
  }

  /** The first n block numbers of that scan. */
  function Rotation(start: nat, n: nat, size: nat): seq<nat>
    requires size <= start + n ==> start <= size && n <= size
  {
    seq(n, k requires 0 <= k < n => Rotate(start, k, size))
  }

  function Upward(from: nat, n: nat): seq<nat>
  {
    seq(n, k requires 0 <= k => from + k)
  }

  lemma UpwardJoin(from: nat, n: nat, m: nat)
    ensures Upward(from, n) + Upward(from + n, m) == Upward(from, n + m)
    ensures Upward(from, 0) == []
  {
  }

  lemma RotationUp(start: nat, n: nat, size: nat)
    requires start + n <= size
    ensures Rotation(start, n, size) == Upward(start, n)
  {
  }

  /** The scan goes on where it has got to. */
  lemma RotationJoin(start: nat, n: nat, size: nat, from: nat, m: nat)
    requires start <= size && n + m <= size
    requires m > 0 ==> from == Rotate(start, n, size) && (start + n < size ==> from + m <= size)
    ensures Rotation(start, n, size) + Upward(from, m) == Rotation(start, n + m, size)
  {
  }

  /** No block number comes twice, and all come. */
  lemma RotationOnce(start: nat, size: nat, x: nat)
    requires start < size && x < size
    ensures var r := Rotation(start, size, size);
            && (exists k :: 0 <= k < size && r[k] == x)
            && forall j, k :: 0 <= j < k < size ==> r[j] != r[k]
  {
    var r := Rotation(start, size, size);
    assert r[if x >= start then x - start else x + size - start] == x;
  }

  // ---------------------------------------------------------------- what an operation takes and logs

  /** What balloc goes by and what has been logged. */
  datatype Ledger = Ledger(bitmap: seq<bool>, hint: nat, logged: seq<Site>)

  /** The first clear bit from the k-th of the rotation on; the number of bits if there is none. */
  function FirstClear(bits: seq<bool>, start: nat, k: nat): (r: nat)
    requires start < |bits| || start == 0
    ensures r == |bits| || (r < |bits| && !bits[r])
    decreases |bits| - k
  {
    if k >= |bits| then |bits| else
    if bits[Rotate(start, k, |bits|)] then FirstClear(bits, start, k + 1) else Rotate(start, k, |bits|)
  }

  lemma {:induction false} FirstClearIs(bits: seq<bool>, start: nat, k: nat, n: nat)
    requires k <= n < |bits| && start < |bits| && !bits[Rotate(start, n, |bits|)]
    requires forall j :: 0 <= j < n ==> Rotate(start, j, |bits|) < |bits| && bits[Rotate(start, j, |bits|)]
    ensures FirstClear(bits, start, k) == Rotate(start, n, |bits|)
    decreases n - k
  {
    if k < n {
      FirstClearIs(bits, start, k + 1, n);
    }
  }

  /** The block balloc takes next. */
  function NextFree(bits: seq<bool>, hint: nat): nat
  {
    FirstClear(bits, if hint >= |bits| then 0 else hint, 0)
  }

  /** The blocks are what balloc takes, one after the other. */
  predicate Picked(bits: seq<bool>, hint: nat, blocks: seq<nat>)
    decreases |blocks|
  {
    blocks == [] ||
    (blocks[0] < |bits| && blocks[0] == NextFree(bits, hint)
      && Picked(bits[blocks[0] := true], blocks[0] + 1, blocks[1..]))
  }

  function Marked(bits: seq<bool>, blocks: seq<nat>): seq<bool>
    decreases |blocks|
  {
    if blocks == [] then bits else
    if blocks[0] < |bits| then Marked(bits[blocks[0] := true], blocks[1..]) else bits
  }

  function HintAfter(hint: nat, blocks: seq<nat>): nat
  {
    if blocks == [] then hint else blocks[|blocks| - 1] + 1
  }

  /** The bitmap block with the bit of block b. */
  function BitBlock(b: nat): (r: nat)
    ensures r * BPB <= b < (r + 1) * BPB
  {
    b / BPB
  }

  /** For each block taken, the block itself and its bit are logged. */
  ghost function Logs(blocks: seq<nat>): set<Site>
  {
    (set b | b in blocks :: Data(b)) + (set b | b in blocks :: Bits(BitBlock(b)))
  }

  ghost function Sites(w: seq<Site>): set<Site>
  {
    set x | x in w
  }

  /** Exactly these blocks are taken, and what is logged is what taking them logs. */
  ghost predicate Took(l: Ledger, l': Ledger, blocks: seq<nat>)
  {
    && Picked(l.bitmap, l.hint, blocks) && l'.bitmap == Marked(l.bitmap, blocks) && l'.hint == HintAfter(l.hint, blocks)
    && l.logged <= l'.logged && Sites(l'.logged[|l.logged|..]) == Logs(blocks)
  }

  /** At most n blocks are taken, and nothing else is logged. */
  ghost predicate Takes(l: Ledger, l': Ledger, n: nat)
  {
    exists blocks :: Took(l, l', blocks) && |blocks| <= n
  }

  /** iclone logs what its allocations do, and last the inode. */
  ghost predicate CloneLogs(l: Ledger, l': Ledger, dst: nat)
  {
    var n := |l'.logged| - 1;
    n >= 0 && l'.logged[n] == Inodes(dst / IPB) && Takes(l, l'.(logged := l'.logged[..n]), NADDR + 2)
  }

  lemma TakesNone(l: Ledger, n: nat)
    ensures Takes(l, l, n)
  {
    assert Took(l, l, []);
  }

  lemma TookOne(l: Ledger, l': Ledger, b: nat)
    requires b < |l.bitmap| && b == NextFree(l.bitmap, l.hint)
    requires l' == Ledger(l.bitmap[b := true], b + 1, l.logged + [Bits(BitBlock(b)), Data(b)])
    ensures Took(l, l', [b])
  {
    assert l'.logged[|l.logged|..] == [Bits(BitBlock(b)), Data(b)];
    assert [b][1..] == [];
  }

  lemma {:induction false} PickedJoin(bits: seq<bool>, hint: nat, a: seq<nat>, b: seq<nat>)
    requires Picked(bits, hint, a) && Picked(Marked(bits, a), HintAfter(hint, a), b)
    ensures Picked(bits, hint, a + b) && Marked(bits, a + b) == Marked(Marked(bits, a), b)
    ensures HintAfter(hint, a + b) == HintAfter(HintAfter(hint, a), b)
    decreases |a|
  {
    hide NextFree;
    if a == [] {
      assert a + b == b;
    } else {
      assert (a + b)[0] == a[0] && (a + b)[1..] == a[1..] + b;
      PickedJoin(bits[a[0] := true], a[0] + 1, a[1..], b);
    }
  }

  lemma TookBoth(l: Ledger, l1: Ledger, l2: Ledger, a: seq<nat>, b: seq<nat>)
    requires Took(l, l1, a) && Took(l1, l2, b)
    ensures Took(l, l2, a + b)
  {
    hide Picked, Marked, HintAfter;
    PickedJoin(l.bitmap, l.hint, a, b);
    assert l2.logged[|l.logged|..] == l1.logged[|l.logged|..] + l2.logged[|l1.logged|..];
    LogsJoin(a, b);
  }

  lemma LogsJoin(a: seq<nat>, b: seq<nat>)
    ensures Logs(a + b) == Logs(a) + Logs(b)
  {}

  lemma TakesBoth(l: Ledger, l1: Ledger, l2: Ledger, n: nat, m: nat)
    requires Takes(l, l1, n) && Takes(l1, l2, m)
    ensures Takes(l, l2, n + m)
  {
    hide Took;
    var a :| Took(l, l1, a) && |a| <= n;
    var b :| Took(l1, l2, b) && |b| <= m;
    TookBoth(l, l1, l2, a, b);
  }

  /** Logging a block just taken once more adds nothing new. */
  lemma TookAgain(l: Ledger, l': Ledger, blocks: seq<nat>, b: nat)
    requires Took(l, l', blocks) && b in blocks
    ensures Took(l, l'.(logged := l'.logged + [Data(b)]), blocks)
  {
    hide Picked, Marked;
    assert (l'.logged + [Data(b)])[|l.logged|..] == l'.logged[|l.logged|..] + [Data(b)];
  }

  lemma TakesMore(l: Ledger, l1: Ledger, l2: Ledger, b: nat, n: nat)
    requires Took(l, l1, [b]) && Takes(l1, l2, n)
    ensures Takes(l, l2, n + 1) && Takes(l, l2.(logged := l2.logged + [Data(b)]), n + 1)
  {
    hide Took;
    var blocks :| Took(l1, l2, blocks) && |blocks| <= n;
    TookBoth(l, l1, l2, [b], blocks);
    TookAgain(l, l2, [b] + blocks, b);
  }

  /** The bits a scan has tested, in order. */
  class Trace {
    ghost var bits: seq<nat>

    ghost constructor ()
      ensures bits == []
    {
      bits := [];
    }
  }

  class FileSys {
    const dstart: nat
    var disk: seq<Block>
    var inodes: seq<Inode>
    var dinodes: seq<Inode>
    var ref: seq<nat>
    var bitmap: seq<bool>
    var hint: nat
    /** The blocks that balloc, iclone and iupdate have called log_write on, in order; the calls
        of the other operations are not recorded. */
    ghost var logged: seq<Site>

    /** A freshly made file system: the metadata area reserved, no inode in use. */
    constructor (start: nat, size: nat, ninodes: nat)
      requires 0 < start <= size < UINT_LIMIT && 0 < ninodes
      ensures Consistent() && dstart == start && |disk| == size && |inodes| == ninodes
    {
      dstart := start;
      disk := seq(size, _ => ZeroBlock());
      bitmap := seq(size, b => b < start);
      ref := seq(size, _ => 0);
      inodes := seq(ninodes, _ => Inode(0, 0, 0, seq(NTOP, _ => 0)));
      dinodes := seq(ninodes, _ => Inode(0, 0, 0, seq(NTOP, _ => 0)));
      hint := 0;
      logged := [];
      new;
      ghost var st := St();
      forall t
        ensures Ptr(st, t) == 0
      {}
      forall s, t
        ensures Apart(st, s, t)
      {}
      forall b | 0 < b < |disk|
        ensures Refs(st, {}, b) == {}
      {}
    }

    ghost function St(): State
      reads this
    {
      State(dstart, disk, inodes, ref, bitmap)
    }

    ghost function Books(): Ledger
      reads this
    {
      Ledger(bitmap, hint, logged)
    }

    // -------------------------------------------------------------- blocks

    method BrefInc(b: nat)
      requires b < |ref|
      modifies this`ref
      ensures St() == IncRef(old(St()), b)
    {
      ref := ref[b := ref[b] + 1];
    }

    method BrefDec(b: nat) returns (left: nat)
      requires b < |ref| && ref[b] >= 1
      modifies this`ref
      ensures ref == old(ref)[b := old(ref)[b] - 1] && left == ref[b]
    {
      ref := ref[b := ref[b] - 1];
      left := ref[b];
    }

    /** Mark a free block in use, zero it, count it, and move the hint past it. */
    method Take(b: nat)
      requires b < |disk| == |ref| == |bitmap|
      modifies this`disk, this`bitmap, this`ref, this`hint, this`logged
      ensures St() == Alloc(old(St()), b) && hint == b + 1 && logged == old(logged) + [Bits(BitBlock(b)), Data(b)]
    {
      bitmap := bitmap[b := true];
      logged := logged + [Bits(b / BPB)];
      disk := disk[b := ZeroBlock()];
      logged := logged + [Data(b)];
      BrefInc(b);
      hint := b + 1;
    }

    /** One test of a bit; every test is noted in t. */
    method TestBit(bi: nat, ghost t: Trace) returns (taken: bool)
      requires bi < |bitmap|
      modifies t
      ensures taken == bitmap[bi] && t.bits == old(t.bits) + [bi]
    {
      t.bits := t.bits + [bi];
      return bitmap[bi];
    }

    /** The inner loop of balloc: bits [from, to) of the bitmap, in order. */
    method ScanBits(from: nat, to: nat, ghost t: Trace) returns (r: Option<nat>)
      requires from <= to <= |bitmap|
      modifies t
      ensures r.Some? ==> from <= r.value < to && !bitmap[r.value] && forall x :: from <= x < r.value ==> bitmap[x]
      ensures r.None? ==> forall x :: from <= x < to ==> bitmap[x]
      ensures t.bits == old(t.bits) + Upward(from, if r.Some? then r.value + 1 - from else to - from)
    {
      var bi := from;
      assert old(t.bits) + Upward(from, 0) == old(t.bits);
      while bi < to
        invariant from <= bi <= to
        invariant forall x :: from <= x < bi ==> bitmap[x]
        invariant t.bits == old(t.bits) + Upward(from, bi - from)
      {
        var taken := TestBit(bi, t);
        assert Upward(from, bi - from) + [bi] == Upward(from, bi + 1 - from);
        if !taken {
          return Some(bi);
        }
        bi := bi + 1;
      }
      return None;
    }

    /** One phase of balloc: bits [lo, hi), one bitmap block (BPB bits) at a time. */
    method ScanRange(lo: nat, hi: nat, ghost t: Trace) returns (r: Option<nat>)
      requires lo <= hi <= |bitmap|
      modifies t
      ensures r.Some? ==> lo <= r.value < hi && !bitmap[r.value] && forall x :: lo <= x < r.value ==> bitmap[x]
      ensures r.None? ==> forall x :: lo <= x < hi ==> bitmap[x]
      ensures t.bits == old(t.bits) + Upward(lo, if r.Some? then r.value + 1 - lo else hi - lo)
    {
      hide Upward;
      var b := lo - lo % BPB;
      ghost var at := lo;
      UpwardJoin(lo, 0, 0);
      assert old(t.bits) + [] == old(t.bits);
      while b < hi
        invariant b % BPB == 0 && lo <= at <= hi && at == if b <= lo then lo else if b < hi then b else hi
        invariant forall x :: lo <= x < at ==> bitmap[x]
        invariant t.bits == old(t.bits) + Upward(lo, at - lo)
      {
        var from := if b < lo then lo else b;
        var to := if b + BPB < hi then b + BPB else hi;
        ghost var before := t.bits;
        r := ScanBits(from, to, t);
        ghost var m := if r.Some? then r.value + 1 - from else to - from;
        UpwardJoin(lo, at - lo, m);
        assert before + Upward(from, m) == old(t.bits) + (Upward(lo, at - lo) + Upward(from, m));
        if r.Some? {
          return;
        }
        at := to;
        b := b + BPB;
      }
      r := None;
    }

    /** The two phases of balloc: from the hint to the end of the bitmap, then from block 0 to
        the hint.  The bits tested are, in this order, the first `looked` of the rotation from
        `start`: none is tested twice, and a failure has tested all. */
    method FindFree(start: nat, ghost t: Trace) returns (r: Option<nat>, ghost looked: nat)
      requires start < |bitmap| || start == 0
      modifies t
      ensures looked <= |bitmap| && t.bits == old(t.bits) + Rotation(start, looked, |bitmap|)
      ensures r.None? ==> looked == |bitmap| && forall x :: 0 <= x < |bitmap| ==> bitmap[x]
      ensures r.Some? ==> r.value < |bitmap| && !bitmap[r.value]
      ensures r.Some? ==> looked > 0 && r.value == Rotate(start, looked - 1, |bitmap|)
      ensures forall k :: 0 <= k < looked - 1 ==>
                Rotate(start, k, |bitmap|) < |bitmap| && bitmap[Rotate(start, k, |bitmap|)]
    {
      hide Upward, Rotation;
      ghost var size := |bitmap|;
      r := ScanRange(start, |bitmap|, t);
      looked := if r.Some? then r.value + 1 - start else size - start;
      RotationUp(start, looked, size);
      if r.Some? || start == 0 {
        return;
      }
      ghost var before := t.bits;
      r := ScanRange(0, start, t);
      ghost var m := if r.Some? then r.value + 1 else start;
      RotationJoin(start, looked, size, 0, m);
      assert before + Upward(0, m) == old(t.bits) + (Rotation(start, looked, size) + Upward(0, m));
      looked := looked + m;
    }

    /** balloc: a block that was free, chosen in rotation from the hint; it fails, and
        changes nothing, exactly when no block is free. */
    method Balloc() returns (r: Option<nat>)
      requires |disk| == |ref| == |bitmap|
      modifies this`disk, this`bitmap, this`ref, this`hint, this`logged
      ensures r.None? <==> forall b :: 0 <= b < |old(bitmap)| ==> old(bitmap)[b]
      ensures r.None? ==> unchanged(this)
      ensures r.Some? ==> r.value < |old(bitmap)| && !old(bitmap)[r.value]
      ensures r.Some? ==> St() == Alloc(old(St()), r.value) && hint == r.value + 1
      ensures r.Some? ==> Took(old(Books()), Books(), [r.value])
    {
      ghost var books := Books();
      var start := hint;
      if start >= |disk| {
        start := 0;
      }
      ghost var t := new Trace();
      ghost var looked;
      r, looked := FindFree(start, t);
      if r.Some? {
        FirstClearIs(bitmap, start, 0, looked - 1);
        Take(r.value);
        TookOne(books, Books(), r.value);
      }
    }

    method Bfree(b: nat)
      requires b < |ref| == |bitmap|
      requires ref[b] >= 1                          // panic "bref_dec: underflow"
      requires bitmap[b]                            // panic "freeing free block"
      modifies this`ref, this`bitmap
      ensures St() == Free(old(St()), b)
    {
      var left := BrefDec(b);
      if left > 0 {
        return;
      }
      bitmap := bitmap[b := false];
    }

    // -------------------------------------------------------------- the block map

    /** `p` is the place of slot s of inode n. */
    ghost predicate Locates(n: nat, p: Loc, s: Slot)
      reads this
    {
      && Present(St(), s) && s.ino == n
      && match p
         case InInode(i) => s == Top(n, i)
         case InBlock(a, j) => !s.Top? && a == Holder(St(), s) && j == Index(s)
    }

    /** `*p = v`. */
    method Assign(n: nat, p: Loc, v: Word, ghost s: Slot)
      requires Tree(St()) && Locates(n, p, s)
      modifies this`disk, this`inodes
      ensures St() == Store(old(St()), s, v)
      ensures OnlyAddrs(old(inodes), inodes, n)
      ensures p.InBlock? ==> inodes == old(inodes)
    {
      match p {
        case InInode(i) =>
          inodes := inodes[n := inodes[n].(addrs := inodes[n].addrs[i := v])];
        case InBlock(a, j) =>
          HolderIsParent(St(), s);
          disk := disk[a := disk[a][j := v]];
      }
    }

    /** Allocate a block into an empty slot. */
    method AllocAt(n: nat, p: Loc, ghost s: Slot, ghost pend: multiset<nat>) returns (r: Option<nat>)
      requires Tree(St()) && Counts(St(), {}, pend) && Locates(n, p, s) && (IsAddr(s) || IsData(s)) && Ptr(St(), s) == 0
      modifies this`disk, this`bitmap, this`ref, this`hint, this`logged, this`inodes
      ensures r.None? ==> Books() == old(Books())
      ensures r.None? ==> St() == old(St()) && forall b :: 0 <= b < |bitmap| ==> bitmap[b]
      ensures Tree(St()) && Counts(St(), {}, pend)
      ensures r.Some? ==> r.value == Ptr(St(), s) && r.value != 0
      ensures SameData(old(St()), St()) && SamePtrsBut(old(St()), St(), s)
      ensures OnlyAddrs(old(inodes), inodes, n)
      ensures r.Some? ==> Locates(n, p, s)
      ensures p.InBlock? ==> inodes == old(inodes)
      ensures r.Some? ==> Took(old(Books()), Books(), [r.value])
      ensures |disk| == |old(disk)|
      ensures InUseKept(old(St()), St())
    {
      hide Counts;
      ghost var st0 := St();
      r := Balloc();
      if r.Some? {
        AllocStore(st0, pend, r.value, s);
        Assign(n, p, r.value, s);
        if !s.Top? {
          HolderIsParent(st0, s);
          HolderIsParent(St(), s);
        }
      }
    }

    /** The address block whose number is kept at p, allocated if missing. */
    method AddrBlock(n: nat, p: Loc, ghost s: Slot, ghost pend: multiset<nat>) returns (r: Option<nat>)
      requires Tree(St()) && Counts(St(), {}, pend) && Locates(n, p, s) && IsAddr(s)
      modifies this`disk, this`bitmap, this`ref, this`hint, this`logged, this`inodes
      ensures OnlyAddrs(old(inodes), inodes, n)
      ensures r.None? ==> forall b :: 0 <= b < |bitmap| ==> bitmap[b]
      ensures Tree(St()) && Counts(St(), {}, pend) && SameData(old(St()), St()) && SamePtrsBut(old(St()), St(), s)
      ensures r.Some? ==> r.value == Ptr(St(), s) && r.value != 0
      ensures p.InBlock? || Ptr(old(St()), s) != 0 ==> inodes == old(inodes)
      ensures InUseKept(old(St()), St())
    {
      hide Counts;
      var addr := Deref(n, p, s);
      if addr == 0 {
        r := AllocAt(n, p, s, pend);
      } else {
        r := Some(addr);
      }
    }

    /** `*p`. */
    method Deref(n: nat, p: Loc, ghost s: Slot) returns (addr: nat)
      requires Tree(St()) && Locates(n, p, s)
      ensures addr == Ptr(St(), s)
    {
      match p {
        case InInode(i) => addr := inodes[n].addrs[i];
        case InBlock(a, j) =>
          HolderIsParent(St(), s);
          addr := disk[a][j];
      }
    }

    /** The address blocks on the way to block bn, allocated if missing, and the place of
        the data pointer below them. */
    method DataPlace(n: nat, bn: nat) returns (r: Option<Loc>)
      requires Inv(St()) && n < |inodes| && bn < MAXFILE
      modifies this`disk, this`bitmap, this`ref, this`hint, this`logged, this`inodes
      ensures OnlyAddrs(old(inodes), inodes, n)
      ensures r.None? ==> forall b :: 0 <= b < |bitmap| ==> bitmap[b]
      ensures Inv(St()) && SameData(old(St()), St()) && SameDataPtrs(old(St()), St())
      ensures r.Some? ==> Locates(n, r.value, DataSlot(n, bn))
      ensures InUseKept(old(St()), St())
    {
      hide Counts;
      var e := BmapEnsure(n, bn, multiset{});
      if e.None? { return None; }
      ghost var s := DataSlot(n, bn);
      DataSlotBijection(n, bn);
      if bn < NDIRECT {
        return Some(InInode(bn));
      }
      var k := bn - NDIRECT;
      if k < NADDR {
        return Some(InBlock(inodes[n].addrs[NDIRECT], k));
      }
      k := k - NADDR;
      assert Ptr(St(), Top(n, DIND)) == inodes[n].addrs[NDIRECT + 1];
      return Some(InBlock(disk[inodes[n].addrs[NDIRECT + 1]][k / NADDR], k % NADDR));
    }

    /** The level-1 block number `level2` below the double-indirect block. */
    method LevelOneBlock(n: nat, level2: nat, ghost pend: multiset<nat>) returns (r: Option<nat>)
      requires Tree(St()) && Counts(St(), {}, pend) && n < |inodes| && level2 < NADDR
      modifies this`disk, this`bitmap, this`ref, this`hint, this`logged, this`inodes
      ensures OnlyAddrs(old(inodes), inodes, n)
      ensures r.None? ==> forall b :: 0 <= b < |bitmap| ==> bitmap[b]
      ensures Tree(St()) && Counts(St(), {}, pend) && SameData(old(St()), St()) && SameDataPtrs(old(St()), St())
      ensures r.Some? ==> r.value == Ptr(St(), Dbl(n, level2)) && r.value != 0
      ensures old(inodes)[n].addrs[DIND] != 0 ==> inodes == old(inodes)
      ensures InUseKept(old(St()), St())
    {
      hide Counts;
      r := AddrBlock(n, InInode(NDIRECT + 1), Top(n, DIND), pend);
      if r.None? { return; }
      assert Locates(n, InBlock(r.value, level2), Dbl(n, level2)) by {
        HolderIsParent(St(), Dbl(n, level2));
      }
      r := AddrBlock(n, InBlock(r.value, level2), Dbl(n, level2), pend);
    }

    /** bmap: the address of block bn of inode n, allocated if missing and, for a write,
        made private if shared.  No file's contents change: a new block is a hole's zeros,
        a private copy is the block it copies. */
    method Bmap(n: nat, bn: nat, forWrite: bool) returns (r: Option<nat>)
      requires Inv(St()) && n < |inodes| && bn < MAXFILE
      modifies this`disk, this`bitmap, this`ref, this`hint, this`logged, this`inodes
      ensures OnlyAddrs(old(inodes), inodes, n)
      ensures r.None? ==> forall b :: 0 <= b < |bitmap| ==> bitmap[b]
      ensures Inv(St()) && SameData(old(St()), St())
      ensures r.Some? ==> r.value == Ptr(St(), DataSlot(n, bn)) && r.value != 0
      ensures SameDataPtrsBut(old(St()), St(), DataSlot(n, bn))
      ensures r.Some? && forWrite ==> ref[r.value] == 1
      ensures r.Some? && !forWrite && Ptr(old(St()), DataSlot(n, bn)) != 0 ==>
                r.value == Ptr(old(St()), DataSlot(n, bn))
      ensures var was := Ptr(old(St()), DataSlot(n, bn));
              r.Some? && forWrite && was != 0 ==> (r.value == was <==> was < |old(ref)| && old(ref)[was] == 1)
    {
      hide Counts;
      ghost var st0 := St();
      var p := DataPlace(n, bn);
      if p.None? { return None; }
      DataSlotBijection(n, bn);
      if Ptr(st0, DataSlot(n, bn)) != 0 {
        CountedPositive(st0, {}, multiset{}, DataSlot(n, bn));
      }
      r := BmapData(n, p.value, forWrite, DataSlot(n, bn));
    }

    /** The tail of bmap, at the place p of the data pointer. */
    method BmapData(n: nat, p: Loc, forWrite: bool, ghost s: Slot) returns (r: Option<nat>)
      requires Inv(St()) && Locates(n, p, s) && IsData(s)
      modifies this`disk, this`bitmap, this`ref, this`hint, this`logged, this`inodes
      ensures OnlyAddrs(old(inodes), inodes, n)
      ensures r.None? ==> forall b :: 0 <= b < |bitmap| ==> bitmap[b]
      ensures Inv(St()) && SameData(old(St()), St()) && SamePtrsBut(old(St()), St(), s)
      ensures r.Some? ==> r.value == Ptr(St(), s) && r.value != 0
      ensures r.Some? && forWrite ==> ref[r.value] == 1
      ensures r.Some? && !forWrite && Ptr(old(St()), s) != 0 ==> r.value == Ptr(old(St()), s)
      ensures r.Some? && forWrite && Ptr(old(St()), s) != 0 ==>
                (r.value == Ptr(old(St()), s) <==> Ptr(old(St()), s) < |old(ref)| && old(ref)[Ptr(old(St()), s)] == 1)
    {
      hide Counts;
      var addr := Deref(n, p, s);
      if addr == 0 {
        r := AllocAt(n, p, s, multiset{});
        if r.None? { return; }
        addr := r.value;
      }
      CountedPositive(St(), {}, multiset{}, s);
      if forWrite && ref[addr] > 1 {
        r := Cow(n, p, addr, s);
      } else {
        r := Some(addr);
      }
    }

    method Cow(n: nat, p: Loc, addr: nat, ghost s: Slot) returns (r: Option<nat>)
      requires Inv(St()) && Locates(n, p, s) && IsData(s) && addr == Ptr(St(), s) != 0
      modifies this`disk, this`bitmap, this`ref, this`hint, this`logged, this`inodes
      ensures OnlyAddrs(old(inodes), inodes, n)
      ensures r.None? ==> forall b :: 0 <= b < |bitmap| ==> bitmap[b]
      ensures Inv(St()) && SameData(old(St()), St()) && SamePtrsBut(old(St()), St(), s)
      ensures r.Some? ==> r.value == Ptr(St(), s) && r.value != 0 && ref[r.value] == 1
      ensures r.Some? ==> r.value != addr
    {
      hide Counts;
      ghost var st0 := St();
      r := Balloc();
      if r.None? { return; }
      var newb := r.value;
      CountedPositive(st0, {}, multiset{}, s);
      CowEffect(st0, s, newb);
      disk := disk[newb := disk[addr]];
      Assign(n, p, newb, s);
      Bfree(addr);
    }

    /** bmap_nalloc: the mapping of block bn, 0 for a hole and past the largest file. */
    method BmapNalloc(n: nat, bn: nat) returns (addr: nat)
      requires Tree(St()) && n < |inodes|
      ensures addr == if bn < MAXFILE then Ptr(St(), DataSlot(n, bn)) else 0
    {
      if bn < NDIRECT {
        return inodes[n].addrs[bn];
      }
      var k := bn - NDIRECT;
      if k < NADDR {
        addr := inodes[n].addrs[NDIRECT];
        if addr == 0 {
          return 0;
        }
        assert addr == Ptr(St(), Top(n, IND));
        return disk[addr][k];
      }
      k := k - NADDR;
      if k < NADDR * NADDR {
        var level2 := k / NADDR;
        addr := inodes[n].addrs[NDIRECT + 1];
        if addr == 0 {
          return 0;
        }
        assert addr == Ptr(St(), Top(n, DIND));
        var l1 := disk[addr][level2];
        if l1 == 0 {
          return 0;
        }
        assert l1 == Ptr(St(), Dbl(n, level2));
        return disk[l1][k % NADDR];
      }
      return 0;
    }

    /** bmap_set_existing: 1 if the inode itself changed, 0 if an address block did, -1 if
        there is no place for the pointer. */
    method BmapSetExisting(n: nat, bn: nat, addr: Word) returns (r: int)
      requires Tree(St()) && n < |inodes|
      modifies this`disk, this`inodes
      ensures OnlyAddrs(old(inodes), inodes, n)
      ensures r == -1 ==> unchanged(this)
      ensures r == -1 <==> !(bn < MAXFILE && Present(old(St()), DataSlot(n, bn)))
      ensures r != -1 ==> St() == Store(old(St()), DataSlot(n, bn), addr)
      ensures r != -1 ==> r == if bn < NDIRECT then 1 else 0
      ensures r == 0 ==> inodes == old(inodes)
    {
      if bn < NDIRECT {
        Assign(n, InInode(bn), addr, Top(n, bn));
        return 1;
      }
      var k := bn - NDIRECT;
      if k < NADDR {
        var b := inodes[n].addrs[NDIRECT];
        if b == 0 {
          return -1;
        }
        Assign(n, InBlock(b, k), addr, Ind(n, k));
        return 0;
      }
      k := k - NADDR;
      if k < NADDR * NADDR {
        var level2 := k / NADDR;
        var b := inodes[n].addrs[NDIRECT + 1];
        if b == 0 {
          return -1;
        }
        assert b == Ptr(St(), Top(n, DIND));
        var l1 := disk[b][level2];
        if l1 == 0 {
          return -1;
        }
        Assign(n, InBlock(l1, k % NADDR), addr, Leaf(n, level2, k % NADDR));
        return 0;
      }
      return -1;
    }

    /** bmap_ensure: the address blocks above block bn, without the data block. */
    method BmapEnsure(n: nat, bn: nat, ghost pend: multiset<nat>) returns (r: Option<int>)
      requires Tree(St()) && Counts(St(), {}, pend) && n < |inodes|
      modifies this`disk, this`bitmap, this`ref, this`hint, this`logged, this`inodes
      ensures OnlyAddrs(old(inodes), inodes, n)
      ensures r.None? ==> forall b :: 0 <= b < |bitmap| ==> bitmap[b]
      ensures r == Some(-1) ==> unchanged(this)
      ensures r.Some? ==> (r.value == -1 <==> bn >= MAXFILE) && -1 <= r.value <= 1
      ensures Tree(St()) && Counts(St(), {}, pend)
      ensures SameData(old(St()), St()) && SameDataPtrs(old(St()), St())
      ensures r.Some? && r.value != -1 ==> Present(St(), DataSlot(n, bn))
      ensures r == Some(0) ==> inodes == old(inodes)
      ensures InUseKept(old(St()), St())
    {
      hide Counts;
      if bn < NDIRECT {
        return Some(0);
      }
      var k := bn - NDIRECT;
      var need := 0;
      if k < NADDR {
        if inodes[n].addrs[NDIRECT] == 0 {
          need := 1;
        }
        var a := AddrBlock(n, InInode(NDIRECT), Top(n, IND), pend);
        if a.None? { return None; }
        return Some(need);
      }
      k := k - NADDR;
      if k < NADDR * NADDR {
        if inodes[n].addrs[NDIRECT + 1] == 0 {
          need := 1;
        }
        var a := LevelOneBlock(n, k / NADDR, pend);
        if a.None? { return None; }
        return Some(need);
      }
      return Some(-1);
    }

    // -------------------------------------------------------------- reading and writing

    /** One turn of readi's loop: m bytes of one block. */
    method ReadChunk(n: nat, off: nat, m: nat) returns (data: seq<Byte>)
      requires Tree(St()) && n < |inodes| && off % BSIZE + m <= BSIZE
      ensures |data| == m && forall k :: 0 <= k < m ==> data[k] == FileByte(St(), n, off + k)
    {
      var addr := BmapNalloc(n, off / BSIZE);
      var blk := if addr == 0 then ZeroBlock() else disk[addr];
      data := Bytes(blk)[off % BSIZE..off % BSIZE + m];
      forall k | 0 <= k < m
        ensures data[k] == FileByte(St(), n, off + k)
      {
        ChunkIndex(off, k);
        ZeroBytes(off % BSIZE + k);
      }
    }

    /** readi: the bytes delivered.  A hole, or a block past the largest file, reads as zeros. */
    method Readi(n: nat, off0: nat, n0: nat) returns (data: seq<Byte>)
      requires Tree(St()) && n < |inodes| && off0 < UINT_LIMIT && n0 < UINT_LIMIT
      ensures off0 > inodes[n].size || off0 + n0 >= UINT_LIMIT ==> data == []
      ensures off0 <= inodes[n].size && off0 + n0 < UINT_LIMIT ==>
                |data| == if off0 + n0 > inodes[n].size then inodes[n].size - off0 else n0
      ensures forall k :: 0 <= k < |data| ==> data[k] == FileByte(St(), n, off0 + k)
    {
      data := [];
      var off, cnt := off0, n0;
      if off > inodes[n].size || off + cnt >= UINT_LIMIT {
        return;
      }
      if off + cnt > inodes[n].size {
        cnt := inodes[n].size - off;
      }
      var tot := 0;
      while tot < cnt
        invariant 0 <= tot <= cnt && off == off0 + tot && |data| == tot
        invariant forall k :: 0 <= k < tot ==> data[k] == FileByte(St(), n, off0 + k)
      {
        var m := Min(cnt - tot, BSIZE - off % BSIZE);
        var chunk := ReadChunk(n, off, m);
        data := data + chunk;
        tot := tot + m;
        off := off + m;
      }
    }

    /** One turn of writei's loop: `data` into one block. */
    method WriteChunk(n: nat, off: nat, data: seq<Byte>) returns (ok: bool)
      requires Inv(St()) && n < |inodes| && off / BSIZE < MAXFILE && off % BSIZE + |data| <= BSIZE
      modifies this`disk, this`bitmap, this`ref, this`hint, this`logged, this`inodes
      ensures OnlyAddrs(old(inodes), inodes, n)
      ensures !ok ==> forall b :: 0 <= b < |bitmap| ==> bitmap[b]
      ensures Inv(St()) && OthersSame(old(St()), St(), n)
      ensures ok ==> Written(old(St()), St(), n, off, data)
    {
      ghost var st0 := St();
      ghost var s := DataSlot(n, off / BSIZE);
      DataSlotBijection(n, off / BSIZE);
      var r := Bmap(n, off / BSIZE, true);
      if r.None? { return false; }
      var addr := r.value;
      ghost var st1 := St();
      forall t | t != s
        ensures Ptr(st1, t) != addr
      {
        CountOneUnique(st1, {}, multiset{}, s, t);
      }
      var blk := Splice(disk[addr], off % BSIZE, data);
      WriteBlockEffect(st1, {}, multiset{}, s, blk);
      disk := disk[addr := blk];
      ChunkWritten(st0, st1, St(), n, off, data);
      return true;
    }

    /** The loop of writei. */
    method WriteAll(n: nat, off0: nat, src: seq<Byte>) returns (ok: bool)
      requires Inv(St()) && n < |inodes| && off0 + |src| <= MAXFILE * BSIZE
      modifies this`disk, this`bitmap, this`ref, this`hint, this`logged, this`inodes
      ensures OnlyAddrs(old(inodes), inodes, n)
      ensures !ok ==> forall b :: 0 <= b < |bitmap| ==> bitmap[b]
      ensures Inv(St()) && OthersSame(old(St()), St(), n)
      ensures ok ==> Written(old(St()), St(), n, off0, src)
      ensures |src| == 0 ==> ok && inodes == old(inodes)
      ensures |src| == 0 ==> unchanged(this)
    {
      hide Inv, Written, OthersSame;
      ghost var st0 := St();
      var tot, off := 0, off0;
      WrittenNone(st0, n, off0);
      while tot < |src|
        invariant 0 <= tot <= |src| && off == off0 + tot
        invariant Inv(St()) && OnlyAddrs(old(inodes), inodes, n)
        invariant OthersSame(st0, St(), n) && Written(st0, St(), n, off0, src[..tot])
        invariant |src| == 0 ==> unchanged(this)
      {
        var m := Min(|src| - tot, BSIZE - off % BSIZE);
        ghost var st1 := St();
        ok := WriteChunk(n, off, src[tot..tot + m]);
        OthersSameTrans(st0, st1, St(), n);
        if !ok { return; }
        WrittenTwice(st0, st1, St(), n, off0, src, tot, m);
        tot := tot + m;
        off := off + m;
      }
      assert src[..tot] == src;
      ok := true;
    }

    /** writei.  None is the out-of-blocks panic, Some(-1) a refusal, Some(|src|) a write. */
    method Writei(n: nat, off: nat, src: seq<Byte>) returns (r: Option<int>)
      requires Consistent() && InUse(n) && off < UINT_LIMIT && |src| < UINT_LIMIT
      modifies this`disk, this`bitmap, this`ref, this`hint, this`logged, this`inodes, this`dinodes
      ensures r.None? ==> Exhausted() && OnlyAddrs(old(inodes), inodes, n)
      ensures r == Some(-1) ==> unchanged(this)
      ensures r.Some? ==> Consistent()
      ensures r.Some? ==>
                (r.value == if off > old(inodes)[n].size || off + |src| > MAXFILE * BSIZE then -1 else |src|)
      ensures OthersSame(old(St()), St(), n)
      ensures r.Some? && r.value >= 0 ==> Written(old(St()), St(), n, off, src)
      ensures r.Some? && r.value >= 0 ==>
                MetaIs(old(inodes), inodes, n, Meta(old(inodes)[n]).(size := Max(old(inodes)[n].size, off + |src|)))
      ensures |src| == 0 ==> unchanged(this)
    {
      if off > inodes[n].size || off + |src| >= UINT_LIMIT {
        return Some(-1);
      }
      if off + |src| > MAXFILE * BSIZE {
        return Some(-1);
      }
      var ok := WriteAll(n, off, src);
      if !ok {
        AllMapped(St(), multiset{}, Top(0, 0));
        return None;
      }
      if |src| > 0 {
        ghost var st1 := St();
        var end := off + |src|;
        SetSize(n, if end > inodes[n].size then end else inodes[n].size);
        WrittenSame(old(St()), st1, St(), n, off, src);
      }
      return Some(|src|);
    }

    /** `ip->size = size; iupdate(ip)`: the end of an operation on inode n. */
    method SetSize(n: nat, size: nat)
      requires Inv(St()) && InUse(n) && SameInodesBut(dinodes, inodes, n) && FreeInodesEmpty(dinodes)
      requires inodes[0].typ == 0
      modifies this`inodes, this`dinodes, this`logged
      ensures Consistent() && SamePtrs(old(St()), St()) && SameData(old(St()), St())
      ensures forall m: nat :: View(St(), m) == View(old(St()), m)
      ensures MetaIs(old(inodes), inodes, n, Meta(old(inodes)[n]).(size := size))
      ensures logged == old(logged) + [Inodes(n / IPB)]
    {
      SetSizeEffect(St(), n, size);
      inodes := inodes[n := inodes[n].(size := size)];
      Iupdate(n);
      ViewSame(old(St()), St());
      forall k, i | 0 <= k < |inodes| && inodes[k].typ == 0 && 0 <= i < |inodes[k].addrs|
        ensures inodes[k].addrs[i] == 0
      {
        assert inodes[k] == old(dinodes)[k];
      }
    }

    // -------------------------------------------------------------- sharing

    /** One turn of iclone_range's loop.  Some(-1): the source block is mapped but the
        target is past the largest file; nothing changed. */
    method CloneBlock(src: nat, dst: nat, sb: nat, db: nat) returns (r: Option<int>)
      requires Inv(St()) && src < |inodes| && dst < |inodes| && src != dst
      modifies this`disk, this`bitmap, this`ref, this`hint, this`logged, this`inodes
      ensures OnlyAddrs(old(inodes), inodes, dst)
      ensures r.None? ==> Exhausted()
      ensures r.Some? ==> Inv(St()) && -1 <= r.value <= 1
      ensures r.Some? ==> (r.value == -1 <==> db >= MAXFILE && CellAt(View(old(St()), src), sb).ptr != 0)
      ensures OthersView(old(St()), St(), dst)
      ensures r.Some? ==> View(St(), dst) == Put(View(old(St()), dst), db, CellAt(View(old(St()), src), sb))
      ensures r == Some(0) ==> inodes == old(inodes)
    {
      hide Counts, View;
      ghost var st0 := St();
      var s := BmapNalloc(src, sb);
      var d := BmapNalloc(dst, db);
      ViewAt(st0, src, sb);
      ViewAt(st0, dst, db);
      if s == 0 {
        if d != 0 {
          var u := Unmap(dst, db, d);
          ViewSlot(st0, St(), dst, db);
          return Some(u);
        }
        return Some(0);
      }
      if d == s {
        return Some(0);
      }
      r := Share(dst, db, s, d, DataSlot(src, sb));
      if r.None? {
        ViewSame(st0, St());
      } else if r.value >= 0 {
        ViewSlot(st0, St(), dst, db);
      }
    }

    /** Empty the mapping of block bn: drop the pointer, then the reference. */
    method Unmap(n: nat, bn: nat, d: nat) returns (u: int)
      requires Inv(St()) && n < |inodes| && bn < MAXFILE && d == Ptr(St(), DataSlot(n, bn)) != 0
      modifies this`disk, this`bitmap, this`ref, this`inodes
      ensures OnlyAddrs(old(inodes), inodes, n)
      ensures Inv(St()) && SameBut(old(St()), St(), DataSlot(n, bn)) && Ptr(St(), DataSlot(n, bn)) == 0
      ensures 0 <= u <= 1 && (u == 0 ==> inodes == old(inodes))
    {
      DataSlotBijection(n, bn);
      UnmapEffect(St(), DataSlot(n, bn));
      u := BmapSetExisting(n, bn, 0);
      Bfree(d);
    }

    /** Point block bn at s, whose reference is already taken, and let go of d. */
    method Remap(n: nat, bn: nat, s: Word, d: nat) returns (u: int)
      requires Tree(St()) && Counts(St(), {}, multiset{s}) && n < |inodes| && bn < MAXFILE
      requires Present(St(), DataSlot(n, bn)) && d == Ptr(St(), DataSlot(n, bn))
      requires forall t :: IsAddr(t) ==> Ptr(St(), t) != s
      modifies this`disk, this`bitmap, this`ref, this`inodes
      ensures OnlyAddrs(old(inodes), inodes, n)
      ensures Inv(St()) && SameBut(old(St()), St(), DataSlot(n, bn)) && Ptr(St(), DataSlot(n, bn)) == s
      ensures Content(St(), DataSlot(n, bn)) == old(disk)[s]
      ensures 0 <= u <= 1 && (u == 0 ==> inodes == old(inodes))
    {
      DataSlotBijection(n, bn);
      ghost var st := St();
      RemapEffect(st, DataSlot(n, bn), s);
      u := BmapSetExisting(n, bn, s);
      assert disk[s] == old(disk)[s] by {
        if bn >= NDIRECT {
          HolderIsParent(st, DataSlot(n, bn));
        }
      }
      if d != 0 {
        Bfree(d);
      }
    }

    /** Share block s, mapped by slot `from` of another file, as block db of file dst. */
    method Share(dst: nat, db: nat, s: nat, d: nat, ghost from: Slot) returns (r: Option<int>)
      requires Inv(St()) && dst < |inodes| && IsData(from) && from.ino != dst
      requires s == Ptr(St(), from) != 0 && d == BlockPtr(St(), dst, db)
      modifies this`disk, this`bitmap, this`ref, this`hint, this`logged, this`inodes
      ensures OnlyAddrs(old(inodes), inodes, dst)
      ensures r.None? ==> Exhausted() && SameDataPtrs(old(St()), St()) && SameData(old(St()), St())
      ensures r.Some? ==> Inv(St()) && -1 <= r.value <= 1 && (r.value == -1 <==> db >= MAXFILE)
      ensures r == Some(-1) ==> St() == old(St())
      ensures r.Some? && db < MAXFILE ==> Ptr(St(), DataSlot(dst, db)) == s
      ensures r.Some? && db < MAXFILE ==> Content(St(), DataSlot(dst, db)) == Content(old(St()), from)
      ensures r.Some? ==>
                SameDataPtrsBut(old(St()), St(), DataSlot(dst, db)) && SameDataBut(old(St()), St(), DataSlot(dst, db))
      ensures r == Some(0) ==> inodes == old(inodes)
    {
      hide Counts;
      r := PrepareShare(dst, db, s, from);
      if r.None? {
        AllMapped(St(), multiset{s}, from);
        return;
      }
      if r.value < 0 { return; }
      DataSlotBijection(dst, db);
      var u := Remap(dst, db, s, d);
      r := Some(if r.value == 1 || u == 1 then 1 else 0);
    }

    /** Take a reference to s and make room for the pointer; undo if there can be none. */
    method PrepareShare(dst: nat, db: nat, s: nat, ghost from: Slot) returns (r: Option<int>)
      requires Inv(St()) && dst < |inodes| && IsData(from) && s == Ptr(St(), from) != 0
      modifies this`disk, this`bitmap, this`ref, this`hint, this`logged, this`inodes
      ensures OnlyAddrs(old(inodes), inodes, dst)
      ensures r.None? ==> forall b :: 0 <= b < |bitmap| ==> bitmap[b]
      ensures r.Some? ==> -1 <= r.value <= 1 && (r.value == -1 <==> db >= MAXFILE)
      ensures r == Some(-1) ==> St() == old(St())
      ensures r != Some(-1) ==> Tree(St()) && Counts(St(), {}, multiset{s})
      ensures r.Some? && r.value >= 0 ==> Present(St(), DataSlot(dst, db))
      ensures r.Some? && r.value >= 0 ==> forall t :: IsAddr(t) ==> Ptr(St(), t) != s
      ensures SameData(old(St()), St()) && SameDataPtrs(old(St()), St())
      ensures r.Some? && r.value >= 0 ==> s < |disk| && disk[s] == Content(old(St()), from)
      ensures r == Some(0) ==> inodes == old(inodes)
    {
      hide Counts;
      ShareEffect(St(), from);
      BrefInc(s);
      ghost var st1 := St();
      r := BmapEnsure(dst, db, multiset{s});
      if r.None? { return; }
      if r.value < 0 {
        var left := BrefDec(s);
        assert ref == old(ref);
        return;
      }
      EnsureKeepsAway(st1, St(), from);
      assert disk[s] == Content(St(), from);
    }

    /** iclone_range.  It fails exactly on a type mismatch or when a mapped source block
        would land past the largest file; short of that the target range maps what the
        source range maps, and no other block of any file changes. */
    method IcloneRange(src: nat, dst: nat, srcOff: nat, dstOff: nat, len: nat) returns (r: Option<int>)
      requires Consistent() && InUse(src) && InUse(dst) && src != dst
      requires srcOff < UINT_LIMIT && dstOff < UINT_LIMIT && len < UINT_LIMIT
      modifies this`disk, this`bitmap, this`ref, this`hint, this`logged, this`inodes, this`dinodes
      ensures r.None? ==> Exhausted() && OnlyAddrs(old(inodes), inodes, dst)
      ensures r.Some? ==> r.value == 0 || r.value == -1
      ensures r.Some? ==> Inv(St())
      ensures r.Some? ==>
                (r.value == -1 <==>
                 || old(inodes)[src].typ != T_FILE || old(inodes)[dst].typ != T_FILE
                 || exists j ::
                      0 <= j < len / BSIZE && Overhang(View(old(St()), src), srcOff / BSIZE, dstOff / BSIZE, j))
      ensures r == Some(0) ==> Consistent()
      ensures OthersView(old(St()), St(), dst)
      ensures r == Some(0) ==>
                var from, to := View(old(St()), src), View(old(St()), dst);
                View(St(), dst) == Overlay(to, dstOff / BSIZE, from, srcOff / BSIZE, len / BSIZE)
      ensures r == Some(0) ==>
                MetaIs(old(inodes), inodes, dst,
                  Meta(old(inodes)[dst]).(size := Max(old(inodes)[dst].size, (dstOff + len) % UINT_LIMIT)))
    {
      hide Counts, View, Overlay, Overhang, Tree;
      if inodes[src].typ != T_FILE || inodes[dst].typ != T_FILE {
        return Some(-1);
      }
      r := CloneBlocks(src, dst, srcOff / BSIZE, dstOff / BSIZE, len / BSIZE);
      if r.None? || r.value < 0 { return; }
      var end := (dstOff + len) % UINT_LIMIT;
      if end > inodes[dst].size {
        SetSize(dst, end);
      } else if r.value == 1 {
        SetSize(dst, inodes[dst].size);
      }
      return Some(0);
    }

    /** The loop of iclone_range; 1 if the target inode needs writing back. */
    method CloneBlocks(src: nat, dst: nat, srcb: nat, dstb: nat, nblocks: nat) returns (r: Option<int>)
      requires Inv(St()) && src < |inodes| && dst < |inodes| && src != dst
      modifies this`disk, this`bitmap, this`ref, this`hint, this`logged, this`inodes
      ensures OnlyAddrs(old(inodes), inodes, dst)
      ensures r.None? ==> Exhausted()
      ensures r.Some? ==> Inv(St()) && -1 <= r.value <= 1
      ensures r.Some? ==>
                (r.value == -1 <==> exists j :: 0 <= j < nblocks && Overhang(View(old(St()), src), srcb, dstb, j))
      ensures OthersView(old(St()), St(), dst)
      ensures r.Some? && r.value >= 0 ==>
                View(St(), dst) == Overlay(View(old(St()), dst), dstb, View(old(St()), src), srcb, nblocks)
      ensures r == Some(0) ==> inodes == old(inodes)
    {
      hide Inv, View;
      ghost var st0 := St();
      ghost var from, to := View(st0, src), View(st0, dst);
      OverlayNone(to, dstb, from, srcb);
      var need := 0;
      var bn := 0;
      while bn < nblocks
        invariant 0 <= bn <= nblocks && 0 <= need <= 1
        invariant Inv(St()) && OnlyAddrs(old(inodes), inodes, dst)
        invariant OthersView(st0, St(), dst) && View(St(), dst) == Overlay(to, dstb, from, srcb, bn)
        invariant forall j :: 0 <= j < bn ==> !Overhang(from, srcb, dstb, j)
        invariant need == 0 ==> inodes == old(inodes)
      {
        r := CloneBlock(src, dst, srcb + bn, dstb + bn);
        if r.None? { return; }
        if r.value < 0 {
          assert Overhang(from, srcb, dstb, bn);
          return;
        }
        OverlayStep(to, dstb, from, srcb, bn);
        if r.value == 1 {
          need := 1;
        }
        bn := bn + 1;
      }
      return Some(need);
    }

    /** One turn of idedup's loop: true if block bn of dst now shares src's block. */
    method DedupBlock(src: nat, dst: nat, bn: nat) returns (shared: bool, u: int)
      requires Inv(St()) && src < |inodes| && dst < |inodes| && src != dst
      modifies this`disk, this`bitmap, this`ref, this`inodes
      ensures OnlyAddrs(old(inodes), inodes, dst)
      ensures Inv(St()) && OthersView(old(St()), St(), dst)
      ensures shared == Dedupable(CellAt(View(old(St()), src), bn), CellAt(View(old(St()), dst), bn))
      ensures shared ==> View(St(), dst) == Put(View(old(St()), dst), bn, CellAt(View(old(St()), src), bn))
      ensures !shared ==> View(St(), dst) == View(old(St()), dst)
      ensures 0 <= u <= 1 && (u == 0 ==> inodes == old(inodes))
    {
      hide View;
      ghost var st0 := St();
      var s := BmapNalloc(src, bn);
      var d := BmapNalloc(dst, bn);
      ViewAt(st0, src, bn);
      ViewAt(st0, dst, bn);
      if s == 0 || d == 0 || s == d {
        return false, 0;
      }
      if disk[s] != disk[d] {
        return false, 0;
      }
      ShareEffect(st0, DataSlot(src, bn));
      BrefInc(s);
      PresentWhenMapped(St(), DataSlot(dst, bn));
      u := Remap(dst, bn, s, d);
      ViewSlot(st0, St(), dst, bn);
      return true, u;
    }

    /** idedup: every block that both files have, in two places and with the same bytes, is
        moved to src's place; the result counts the pointers redirected.  Nobody's bytes change. */
    method Idedup(src: nat, dst: nat) returns (r: int)
      requires Consistent() && InUse(src) && InUse(dst)
      modifies this`disk, this`bitmap, this`ref, this`inodes, this`dinodes, this`logged
      ensures Consistent() && MetaIs(old(inodes), inodes, dst, Meta(old(inodes)[dst]))
      ensures r >= -1
      ensures r == -1 <==> old(inodes)[src].typ != T_FILE || old(inodes)[dst].typ != T_FILE
      ensures r == -1 || src == dst ==> unchanged(this)
      ensures src == dst && r != -1 ==> r == 0
      ensures r >= 0 && src != dst ==>
                var n := Min(CeilBlocks(old(inodes)[src].size), CeilBlocks(old(inodes)[dst].size));
                && OthersView(old(St()), St(), dst)
                && View(St(), dst) == Deduped(View(old(St()), src), View(old(St()), dst), n)
                && r == DedupCount(View(old(St()), src), View(old(St()), dst), n)
    {
      if inodes[src].typ != T_FILE || inodes[dst].typ != T_FILE {
        return -1;
      }
      if src == dst {
        return 0;
      }
      var nblocks := Min(CeilBlocks(inodes[src].size), CeilBlocks(inodes[dst].size));
      var need;
      r, need := DedupBlocks(src, dst, nblocks);
      if need {
        SetSize(dst, inodes[dst].size);
      }
    }

    method DedupBlocks(src: nat, dst: nat, nblocks: nat) returns (shared: nat, need: bool)
      requires Inv(St()) && src < |inodes| && dst < |inodes| && src != dst
      modifies this`disk, this`bitmap, this`ref, this`inodes
      ensures OnlyAddrs(old(inodes), inodes, dst) && Inv(St()) && OthersView(old(St()), St(), dst)
      ensures View(St(), dst) == Deduped(View(old(St()), src), View(old(St()), dst), nblocks)
      ensures shared == DedupCount(View(old(St()), src), View(old(St()), dst), nblocks)
      ensures !need ==> inodes == old(inodes)
    {
      hide Inv, View;
      ghost var from, to := View(St(), src), View(St(), dst);
      shared, need := 0, false;
      var bn := 0;
      DedupedNone(from, to);
      while bn < nblocks
        invariant 0 <= bn <= nblocks
        invariant Inv(St()) && OnlyAddrs(old(inodes), inodes, dst) && OthersView(old(St()), St(), dst)
        invariant View(St(), dst) == Deduped(from, to, bn) && shared == DedupCount(from, to, bn)
        invariant !need ==> inodes == old(inodes)
      {
        DedupedStep(from, to, bn);
        var now, u := DedupBlock(src, dst, bn);
        if now {
          shared := shared + 1;
        }
        need := need || u == 1;
        bn := bn + 1;
      }
    }

    // -------------------------------------------------------------- whole-file cloning

    /** `dst->addrs[i] = src->addrs[i]`, then the reference. */
    method CopyDirect(src: nat, dst: nat, i: nat)
      requires Inv(St()) && src < |inodes| && dst < |inodes| && src != dst && i < NDIRECT && inodes[dst].addrs[i] == 0
      modifies this`disk, this`ref, this`inodes
      ensures OnlyAddrs(old(inodes), inodes, dst) && Inv(St())
      ensures SamePtrsBut(old(St()), St(), Top(dst, i)) && OthersView(old(St()), St(), dst)
      ensures View(St(), dst) == View(old(St()), dst)[i := View(old(St()), src)[i]]
      ensures |disk| == |old(disk)|
    {
      hide Counts, View;
      ghost var st0 := St();
      ghost var s := Top(dst, i);
      var v := inodes[src].addrs[i];
      CopyPtrEffect(st0, s, Top(src, i));
      Assign(dst, InInode(i), v, s);
      if v != 0 {
        IncSlot(St(), {s}, multiset{}, s);
        assert {s} - {s} == {};
        BrefInc(v);
      }
      ViewAt(st0, src, i);
      ViewSlot(st0, St(), dst, i);
    }

    /** Copy address block `from` into the fresh block `to` and take a reference for every
        entry: slots q and p hold the two block numbers. */
    method ShareWords(from: nat, to: nat, ghost q: Slot, ghost p: Slot)
      requires Inv(St()) && SingleLevel(q) && SingleLevel(p) && q.Dbl? == p.Dbl? && q.ino != p.ino
      requires (q.Dbl? ==> q.i == p.i) && InRange(q.ino + 1, q) && InRange(p.ino + 1, p)
      requires from == Ptr(St(), q) != 0 && to == Ptr(St(), p) != 0 && disk[to] == ZeroBlock()
      modifies this`disk, this`ref
      ensures Inv(St()) && |disk| == |old(disk)|
      ensures forall t :: t !in Kids(p, 0, NADDR) ==> Ptr(St(), t) == Ptr(old(St()), t)
      ensures OthersView(old(St()), St(), p.ino)
      ensures View(St(), p.ino) ==
                Overlay(View(old(St()), p.ino), SpanStart(p), View(old(St()), q.ino), SpanStart(p), NADDR)
    {
      hide Counts, View, Overlay;
      ghost var st0 := St();
      CopyBlockEffect(st0, q, p);
      var a := disk[from];
      disk := disk[to := a];
      ghost var st1 := St();
      assert forall j :: 0 <= j < NADDR ==> Ptr(st1, Kid(p, j)) == a[j] && Ptr(st1, Kid(q, j)) == a[j];
      IncWords(a, q, p);
      PtrsOnly(st1, St());
      ViewCopied(st0, St(), q, p);
    }

    /** The reference for one copied pointer: slot s holds it uncounted, slot t counted. */
    method IncWord(v: nat, ghost t: Slot, ghost s: Slot, ghost unc: set<Slot>)
      requires Tree(St()) && Counts(St(), unc, multiset{}) && t !in unc && s in unc && Ptr(St(), t) == v
               && Ptr(St(), s) == v
      modifies this`ref
      ensures Tree(St()) && Counts(St(), unc - {s}, multiset{}) && SamePtrs(old(St()), St())
    {
      hide Counts;
      if v != 0 {
        CountedPositive(St(), unc, multiset{}, t);
        IncSlot(St(), unc, multiset{}, s);
        BrefInc(v);
      } else {
        CountsAgree(St(), St(), unc, unc - {s}, multiset{});
      }
    }

    /** bref_inc for every entry of a copied address block: the entries are the slots below
        p, and the slots below q hold the same, counted, pointers. */
    method IncWords(a: Block, ghost q: Slot, ghost p: Slot)
      requires Tree(St()) && SingleLevel(q) && SingleLevel(p) && q.ino != p.ino
               && Counts(St(), Kids(p, 0, NADDR), multiset{})
      requires forall j :: 0 <= j < NADDR ==> Ptr(St(), Kid(p, j)) == a[j] && Ptr(St(), Kid(q, j)) == a[j]
      modifies this`ref
      ensures Inv(St())
    {
      hide Counts;
      ghost var st0 := St();
      var j := 0;
      while j < NADDR
        invariant 0 <= j <= NADDR
        invariant Tree(St()) && Counts(St(), Kids(p, j, NADDR), multiset{}) && SamePtrs(st0, St())
      {
        ghost var s := Kid(p, j);
        ghost var unc := Kids(p, j, NADDR);
        IncWord(a[j], Kid(q, j), s, unc);
        assert unc - {s} == Kids(p, j + 1, NADDR);
        j := j + 1;
      }
      assert Kids(p, NADDR, NADDR) == {};
    }

    /** One address block of a clone: a fresh block at p for the source's block, if it has one. */
    method CloneAddrBlock(dst: nat, from: nat, p: Loc, ghost q: Slot, ghost s: Slot) returns (ok: bool)
      requires Inv(St()) && SingleLevel(q) && SingleLevel(s) && q.Dbl? == s.Dbl? && q.ino != s.ino
      requires (q.Dbl? ==> q.i == s.i) && InRange(q.ino + 1, q) && Locates(dst, p, s)
      requires from == Ptr(St(), q) && Ptr(St(), s) == 0
      modifies this`disk, this`bitmap, this`ref, this`hint, this`logged, this`inodes
      ensures OnlyAddrs(old(inodes), inodes, dst)
      ensures !ok ==> forall b :: 0 <= b < |bitmap| ==> bitmap[b]
      ensures Inv(St()) && OthersView(old(St()), St(), dst)
      ensures ok ==> forall t :: t != s && t !in Kids(s, 0, NADDR) ==> Ptr(St(), t) == Ptr(old(St()), t)
      ensures ok ==>
                View(St(), dst) ==
                  Overlay(View(old(St()), dst), SpanStart(s), View(old(St()), q.ino), SpanStart(s), NADDR)
      ensures ok ==> (Ptr(St(), s) != 0 <==> from != 0)
      ensures Takes(old(Books()), Books(), 1)
      ensures |disk| == |old(disk)|
    {
      hide Counts, View, Overlay;
      ghost var st0, books := St(), Books();
      if from == 0 {
        ViewHoles(st0, q, s);
        TakesNone(books, 1);
        return true;
      }
      var r := AllocAt(dst, p, s, multiset{});
      if r.None? {
        TakesNone(books, 1);
        return false;
      }
      ghost var st1, books1 := St(), Books();
      ViewSame(st0, st1);
      NewBlockEmpty(st0, st1, s);
      ShareWords(from, r.value, q, s);
      logged := logged + [Data(r.value)];
      TookAgain(books, books1, [r.value], r.value);
      return true;
    }

    /** The direct blocks of a clone. */
    method CloneDirect(src: nat, dst: nat)
      requires Inv(St()) && src < |inodes| && dst < |inodes| && src != dst && Fresh(dst)
      modifies this`disk, this`ref, this`inodes
      ensures OnlyAddrs(old(inodes), inodes, dst) && Inv(St()) && OthersView(old(St()), St(), dst)
      ensures forall t: Slot :: !(t.Top? && t.ino == dst && t.i < NDIRECT) ==> Ptr(St(), t) == Ptr(old(St()), t)
      ensures View(St(), dst) == Overlay(View(old(St()), dst), 0, View(old(St()), src), 0, NDIRECT)
      ensures |disk| == |old(disk)|
    {
      hide Counts, View, Overlay;
      ghost var st0 := St();
      ghost var from, to := View(st0, src), View(st0, dst);
      OverlayNone(to, 0, from, 0);
      for i := 0 to NDIRECT
        invariant OnlyAddrs(old(inodes), inodes, dst) && Inv(St()) && OthersView(st0, St(), dst)
                  && |disk| == |old(disk)|
        invariant forall t: Slot :: !(t.Top? && t.ino == dst && t.i < i) ==> Ptr(St(), t) == Ptr(st0, t)
        invariant View(St(), dst) == Overlay(to, 0, from, 0, i)
      {
        assert Ptr(St(), Top(dst, i)) == 0;
        CopyDirect(src, dst, i);
        OverlayStep(to, 0, from, 0, i);
      }
    }

    /** The level-1 blocks of a clone, below a double-indirect block just made. */
    method CloneLevelOne(src: nat, dst: nat, dsrc: nat, ddst: nat) returns (ok: bool)
      requires Inv(St()) && src < |inodes| && dst < |inodes| && src != dst
      requires dsrc == Ptr(St(), Top(src, DIND)) != 0 && ddst == Ptr(St(), Top(dst, DIND)) != 0
               && disk[ddst] == ZeroBlock()
      modifies this`disk, this`bitmap, this`ref, this`hint, this`logged, this`inodes
      ensures OnlyAddrs(old(inodes), inodes, dst)
      ensures !ok ==> forall b :: 0 <= b < |bitmap| ==> bitmap[b]
      ensures Inv(St()) && OthersView(old(St()), St(), dst)
      ensures ok ==>
                View(St(), dst) ==
                  Overlay(View(old(St()), dst), NDIRECT + NADDR, View(old(St()), src), NDIRECT + NADDR, NADDR * NADDR)
      ensures ok ==> forall t: Slot :: !(t.ino == dst && (t.Dbl? || t.Leaf?)) ==> Ptr(St(), t) == Ptr(old(St()), t)
      ensures ok ==> LevelOneCopied(old(St()), St(), src, dst, NADDR)
      ensures Takes(old(Books()), Books(), NADDR)
      ensures |disk| == |old(disk)|
    {
      hide Counts, View, Overlay, Content, LevelOneCopied, Takes, Ptr, LevelProgress;
      ghost var st0, books := St(), Books();
      TakesNone(books, 0);
      assert LevelProgress(st0, st0, src, dst, 0) by { ProgressNone(st0, src, dst); }
      var i := 0;
      while i < NADDR
        invariant 0 <= i <= NADDR && OnlyAddrs(old(inodes), inodes, dst) && Inv(St()) && |disk| == |old(disk)|
        invariant LevelProgress(st0, St(), src, dst, i) && Takes(books, Books(), i)
      {
        ghost var st1, books1 := St(), Books();
        ProgressPlace(st0, st1, src, dst, i);
        ok := CloneAddrBlock(dst, disk[dsrc][i], InBlock(ddst, i), Dbl(src, i), Dbl(dst, i));
        TakesBoth(books, books1, Books(), i, 1);
        if !ok {
          TakesNone(Books(), NADDR - i - 1);
          TakesBoth(books, Books(), Books(), i + 1, NADDR - i - 1);
          ProgressOthers(st0, st1, St(), src, dst, i);
          return;
        }
        ProgressStep(st0, st1, St(), src, dst, i);
        i := i + 1;
      }
      ProgressDone(st0, St(), src, dst);
      ok := true;
    }

    /** The double-indirect part of a clone. */
    method CloneDouble(src: nat, dst: nat) returns (ok: bool)
      requires Inv(St()) && src < |inodes| && dst < |inodes| && src != dst && Ptr(St(), Top(dst, DIND)) == 0
      modifies this`disk, this`bitmap, this`ref, this`hint, this`logged, this`inodes
      ensures OnlyAddrs(old(inodes), inodes, dst)
      ensures !ok ==> forall b :: 0 <= b < |bitmap| ==> bitmap[b]
      ensures Inv(St()) && OthersView(old(St()), St(), dst)
      ensures ok ==>
                View(St(), dst) ==
                  Overlay(View(old(St()), dst), NDIRECT + NADDR, View(old(St()), src), NDIRECT + NADDR, NADDR * NADDR)
      ensures ok ==> forall t: Slot :: !(t.ino == dst && (t == Top(dst, DIND) || t.Dbl? || t.Leaf?)) ==>
                Ptr(St(), t) == Ptr(old(St()), t)
      ensures ok ==> (Ptr(St(), Top(dst, DIND)) != 0 <==> Ptr(old(St()), Top(src, DIND)) != 0)
      ensures ok ==> LevelOneCopied(old(St()), St(), src, dst, NADDR)
      ensures Takes(old(Books()), Books(), NADDR + 1)
      ensures |disk| == |old(disk)|
    {
      hide Counts, View, Overlay, Took, Takes;
      ghost var st0, books := St(), Books();
      var dsrc := inodes[src].addrs[NDIRECT + 1];
      if dsrc == 0 {
        ViewDoubleHoles(st0, src, dst);
        TakesNone(books, NADDR + 1);
        return true;
      }
      var r := AllocAt(dst, InInode(NDIRECT + 1), Top(dst, DIND), multiset{});
      if r.None? {
        TakesNone(books, NADDR + 1);
        return false;
      }
      ViewSame(st0, St());
      NewBlockEmpty(st0, St(), Top(dst, DIND));
      assert dsrc == Ptr(st0, Top(src, DIND)) == Ptr(St(), Top(src, DIND));
      ghost var books1 := Books();
      ok := CloneLevelOne(src, dst, dsrc, r.value);
      TakesMore(books, books1, Books(), r.value, NADDR);
      if ok {
        logged := logged + [Data(r.value)];
      }
    }

    /** iclone into a fresh inode: dst gets the source's mode, size and blocks, all shared. */
    method Iclone(src: nat, dst: nat) returns (r: Option<int>)
      requires Consistent() && InUse(src) && InUse(dst) && src != dst && Fresh(dst)
      modifies this`disk, this`bitmap, this`ref, this`hint, this`logged, this`inodes, this`dinodes
      ensures r.None? ==> Exhausted() && OnlyAddrs(old(inodes), inodes, dst)
      ensures r.None? ==> Takes(old(Books()), Books(), NADDR + 2)
      ensures r.Some? ==> Consistent()
      ensures r.Some? ==>
                (r.value == if old(inodes)[src].typ != T_FILE || old(inodes)[dst].typ != T_FILE then -1 else 0)
      ensures r == Some(-1) ==> unchanged(this)
      ensures OthersView(old(St()), St(), dst)
      ensures r == Some(0) ==> View(St(), dst) == View(old(St()), src)
      ensures r == Some(0) ==> ShapeCopied(old(St()), St(), src, dst) && CloneLogs(old(Books()), Books(), dst)
      ensures r == Some(0) ==>
                MetaIs(old(inodes), inodes, dst,
                  Meta(old(inodes)[dst]).(mode := old(inodes)[src].mode, size := old(inodes)[src].size))
      ensures |disk| == |old(disk)|
    {
      hide Counts, View, Overlay, Content, Takes;
      if inodes[src].typ != T_FILE || inodes[dst].typ != T_FILE {
        return Some(-1);
      }
      ghost var st0 := St();
      var ok := CloneMap(src, dst);
      if !ok {
        AllMapped(St(), multiset{}, Top(0, 0));
        return None;
      }
      ghost var st1, books1 := St(), Books();
      SetMode(dst, inodes[src].mode);
      ghost var st2 := St();
      SetSize(dst, inodes[src].size);
      ShapeSame(st0, st1, st2, src, dst);
      ShapeSame(st0, st2, St(), src, dst);
      assert logged[..|logged| - 1] == books1.logged;
      return Some(0);
    }

    /** The block map of a clone: direct, single- and double-indirect part. */
    method CloneMap(src: nat, dst: nat) returns (ok: bool)
      requires Inv(St()) && src < |inodes| && dst < |inodes| && src != dst && Fresh(dst)
      modifies this`disk, this`bitmap, this`ref, this`hint, this`logged, this`inodes
      ensures OnlyAddrs(old(inodes), inodes, dst)
      ensures !ok ==> forall b :: 0 <= b < |bitmap| ==> bitmap[b]
      ensures Inv(St()) && OthersView(old(St()), St(), dst)
      ensures ok ==> View(St(), dst) == View(old(St()), src)
      ensures ok ==> ShapeCopied(old(St()), St(), src, dst)
      ensures Takes(old(Books()), Books(), NADDR + 2)
      ensures |disk| == |old(disk)|
    {
      hide Counts, View, Overlay, Content, Takes;
      ghost var st0, books := St(), Books();
      ghost var from, to := View(st0, src), View(st0, dst);
      CloneDirect(src, dst);
      ghost var st1 := St();
      assert Ptr(st1, Top(dst, IND)) == 0 && Ptr(st1, Top(dst, DIND)) == 0;
      ok := CloneAddrBlock(dst, inodes[src].addrs[NDIRECT], InInode(NDIRECT), Top(src, IND), Top(dst, IND));
      if !ok {
        TakesNone(Books(), NADDR + 1);
        TakesBoth(books, Books(), Books(), 1, NADDR + 1);
        return;
      }
      ghost var st2, books2 := St(), Books();
      OverlayJoin(to, 0, from, NDIRECT, NADDR);
      ok := CloneDouble(src, dst);
      TakesBoth(books, books2, Books(), 1, NADDR + 1);
      if !ok { return; }
      OverlayJoin(to, 0, from, NDIRECT + NADDR, NADDR * NADDR);
      OverlayAll(to, from);
      ShapeParts(st0, st1, st2, St(), src, dst);
    }

    method SetMode(n: nat, mode: nat)
      requires Inv(St()) && n < |inodes|
      modifies this`inodes
      ensures inodes == old(inodes)[n := old(inodes)[n].(mode := mode)] && SamePtrs(old(St()), St())
      ensures Inv(St()) && forall m: nat :: View(St(), m) == View(old(St()), m)
    {
      ghost var st0 := St();
      inodes := inodes[n := inodes[n].(mode := mode)];
      assert forall t :: Ptr(St(), t) == Ptr(st0, t);
      TreeSame(st0, St());
      CountsAgree(st0, St(), {}, {}, multiset{});
      ViewSame(st0, St());
    }

    /** An inode that maps nothing yet. */
    ghost predicate Fresh(n: nat)
      reads this
    {
      n < |inodes| && forall i :: 0 <= i < |inodes[n].addrs| ==> inodes[n].addrs[i] == 0
    }

    // -------------------------------------------------------------- truncating

    /** bfree of the block that slot s points at; s still holds the pointer. */
    method DropRef(b: nat, ghost s: Slot, ghost unc: set<Slot>)
      requires Tree(St()) && Counts(St(), unc, multiset{}) && s !in unc && b == Ptr(St(), s) != 0
      modifies this`ref, this`bitmap
      ensures Tree(St()) && Counts(St(), unc + {s}, multiset{})
    {
      hide Counts;
      FreeSlot(St(), unc, multiset{}, s);
      CountedPositive(St(), unc, multiset{}, s);
      Bfree(b);
    }

    method AddrBlockEmpty(a: Block) returns (empty: bool)
      ensures empty <==> a == ZeroBlock()
    {
      for i := 0 to NADDR
        invariant forall k :: 0 <= k < i ==> a[k] == 0
      {
        if a[i] != 0 {
          return false;
        }
      }
      assert a == ZeroBlock();
      return true;
    }

    /** Let go of everything words [lo, 256) of address block `ind` point at.  `a` is the
        buffer with those words cleared; it is not written here. */
    method FreeWords(ind: nat, lo: nat, ghost p: Slot, ghost unc: set<Slot>) returns (a: Block, changed: bool)
      requires Tree(St()) && Counts(St(), unc, multiset{}) && IsAddr(p) && ind == Ptr(St(), p) != 0
      requires lo <= NADDR && unc !! Kids(p, lo, NADDR)
      modifies this`ref, this`bitmap
      ensures Tree(St()) && Counts(St(), unc + Kids(p, lo, NADDR), multiset{})
      ensures forall k :: 0 <= k < NADDR ==> a[k] == if k < lo then disk[ind][k] else 0
      ensures !changed ==> a == disk[ind]
    {
      hide Counts;
      a, changed := disk[ind], false;
      assert unc + Kids(p, lo, lo) == unc;
      var j := lo;
      while j < NADDR
        invariant lo <= j <= NADDR
        invariant Tree(St()) && Counts(St(), unc + Kids(p, lo, j), multiset{})
        invariant forall k :: 0 <= k < NADDR ==> a[k] == if lo <= k < j then 0 else disk[ind][k]
        invariant !changed ==> a == disk[ind]
      {
        ghost var s := Kid(p, j);
        assert Ptr(St(), s) == disk[ind][j];
        if a[j] != 0 {
          DropRef(a[j], s, unc + Kids(p, lo, j));
          a, changed := a[j := 0], true;
        } else {
          UncountNull(St(), unc + Kids(p, lo, j), {s}, multiset{});
        }
        assert unc + Kids(p, lo, j) + {s} == unc + Kids(p, lo, j + 1);
        j := j + 1;
      }
    }

    /** free_indirect_block: what the words point at, then the block itself. */
    method FreeIndirectBlock(ind: nat, ghost p: Slot, ghost unc: set<Slot>)
      requires Tree(St()) && Counts(St(), unc, multiset{}) && IsAddr(p) && ind == Ptr(St(), p)
      requires unc !! Kids(p, 0, NADDR) && p !in unc
      modifies this`ref, this`bitmap
      ensures Tree(St()) && Counts(St(), unc + Kids(p, 0, NADDR) + {p}, multiset{})
    {
      hide Counts;
      if ind == 0 {
        UncountNull(St(), unc, Kids(p, 0, NADDR) + {p}, multiset{});
        assert unc + (Kids(p, 0, NADDR) + {p}) == unc + Kids(p, 0, NADDR) + {p};
        return;
      }
      var a, changed := FreeWords(ind, 0, p, unc);
      DropRef(ind, p, unc + Kids(p, 0, NADDR));
    }

    /** `*p = 0` for a slot whose references, its own and those below it, are gone. */
    method Clear(n: nat, p: Loc, ghost s: Slot, ghost unc: set<Slot>)
      requires Tree(St()) && Counts(St(), unc, multiset{}) && Locates(n, p, s)
      requires forall t :: t in unc ==> t == s || Below(t, s)
      requires forall t :: t == s || Below(t, s) ==> t in unc || Ptr(St(), t) == 0
      modifies this`disk, this`inodes
      ensures OnlyAddrs(old(inodes), inodes, n) && (p.InBlock? ==> inodes == old(inodes))
      ensures Inv(St()) && Cut(old(St()), St(), n, SpanStart(s), SpanEnd(s))
      ensures forall t :: Ptr(St(), t) == if t == s || Below(t, s) then 0 else Ptr(old(St()), t)
      ensures forall t :: IsData(t) && t != s && !Below(t, s) ==> Content(St(), t) == Content(old(St()), t)
    {
      hide Counts;
      ghost var st0 := St();
      CutEffect(st0, s, unc);
      Assign(n, p, 0, s);
      CutSpan(st0, St(), s);
    }

    /** The direct blocks of inode n from block lo on. */
    method TruncDirect(n: nat, lo: nat)
      requires Inv(St()) && n < |inodes|
      modifies this`disk, this`ref, this`bitmap, this`inodes
      ensures OnlyAddrs(old(inodes), inodes, n) && Inv(St())
      ensures Cut(old(St()), St(), n, lo, Max(lo, NDIRECT))
    {
      hide Counts, Cut;
      ghost var st0 := St();
      var i := lo;
      CutNothing(st0, st0, n, lo, lo);
      while i < NDIRECT
        invariant lo <= i <= Max(lo, NDIRECT)
        invariant OnlyAddrs(old(inodes), inodes, n) && Inv(St()) && Cut(st0, St(), n, lo, i)
      {
        ghost var st1 := St();
        DropDirect(n, i);
        CutJoin(st0, st1, St(), n, lo, i, i + 1);
        i := i + 1;
      }
    }

    /** One direct block: let go of it, then clear the pointer. */
    method DropDirect(n: nat, i: nat)
      requires Inv(St()) && n < |inodes| && i < NDIRECT
      modifies this`disk, this`ref, this`bitmap, this`inodes
      ensures OnlyAddrs(old(inodes), inodes, n) && Inv(St()) && Cut(old(St()), St(), n, i, i + 1)
      ensures old(inodes)[n].addrs[i] == 0 ==> inodes == old(inodes)
    {
      hide Counts;
      ghost var st0 := St();
      ghost var s := Top(n, i);
      if inodes[n].addrs[i] != 0 {
        DropRef(inodes[n].addrs[i], s, {});
        assert {} + {s} == {s};
        Clear(n, InInode(i), s, {s});
      } else {
        CutHole(st0, s);
      }
    }

    /** Everything below addrs[11]. */
    method DropSingle(n: nat)
      requires Inv(St()) && n < |inodes|
      modifies this`disk, this`ref, this`bitmap, this`inodes
      ensures OnlyAddrs(old(inodes), inodes, n) && Inv(St()) && Cut(old(St()), St(), n, NDIRECT, NDIRECT + NADDR)
      ensures Ptr(St(), Top(n, IND)) == 0
    {
      hide Counts;
      ghost var st0 := St();
      ghost var s := Top(n, IND);
      if inodes[n].addrs[NDIRECT] != 0 {
        FreeIndirectBlock(inodes[n].addrs[NDIRECT], s, {});
        ghost var unc := {} + Kids(s, 0, NADDR) + {s};
        Clear(n, InInode(NDIRECT), s, unc);
      } else {
        CutHole(st0, s);
      }
    }

    /** Level-1 blocks [lo, 256) below the double-indirect block: everything under them. */
    method FreeLevelOne(n: nat, dind: nat, lo: nat) returns (a: Block, changed: bool)
      requires Inv(St()) && n < |inodes| && dind == Ptr(St(), Top(n, DIND)) != 0 && lo <= NADDR
      modifies this`ref, this`bitmap
      ensures Tree(St()) && Counts(St(), LevelOne(n, lo, NADDR), multiset{})
      ensures forall k :: 0 <= k < NADDR ==> a[k] == if k < lo then disk[dind][k] else 0
      ensures !changed ==> a == disk[dind]
    {
      hide Counts, Kids, LevelOne;
      a, changed := disk[dind], false;
      assert LevelOne(n, lo, lo) == {};
      var i := lo;
      while i < NADDR
        invariant lo <= i <= NADDR
        invariant Tree(St()) && Counts(St(), LevelOne(n, lo, i), multiset{})
        invariant forall k :: 0 <= k < NADDR ==> a[k] == if lo <= k < i then 0 else disk[dind][k]
        invariant !changed ==> a == disk[dind]
      {
        ghost var s := Dbl(n, i);
        assert Ptr(St(), s) == disk[dind][i];
        FreeIndirectBlock(a[i], s, LevelOne(n, lo, i));
        if a[i] != 0 {
          a, changed := a[i := 0], true;
        }
        LevelOneNext(n, lo, i, NADDR);
        i := i + 1;
      }
    }

    /** Everything below addrs[12]. */
    method DropDouble(n: nat)
      requires Inv(St()) && n < |inodes|
      modifies this`disk, this`ref, this`bitmap, this`inodes
      ensures OnlyAddrs(old(inodes), inodes, n) && Inv(St()) && Cut(old(St()), St(), n, NDIRECT + NADDR, MAXFILE)
      ensures Ptr(St(), Top(n, DIND)) == 0 && Ptr(St(), Top(n, IND)) == Ptr(old(St()), Top(n, IND))
    {
      hide Counts, Cut, Content;
      ghost var st0 := St();
      ghost var s := Top(n, DIND);
      var dind := inodes[n].addrs[NDIRECT + 1];
      if dind != 0 {
        var a, changed := FreeLevelOne(n, dind, 0);
        ghost var st1 := St();
        CutDouble(n);
        CutFrame(st0, st1, St(), n, NDIRECT + NADDR, MAXFILE);
      } else {
        CutHole(st0, s);
      }
    }

    /** The double-indirect block itself, when everything below it has been let go. */
    method CutDouble(n: nat)
      requires Tree(St()) && Counts(St(), LevelOne(n, 0, NADDR), multiset{}) && n < |inodes|
               && Ptr(St(), Top(n, DIND)) != 0
      modifies this`disk, this`ref, this`bitmap, this`inodes
      ensures OnlyAddrs(old(inodes), inodes, n) && Inv(St()) && Cut(old(St()), St(), n, NDIRECT + NADDR, MAXFILE)
      ensures Ptr(St(), Top(n, DIND)) == 0 && Ptr(St(), Top(n, IND)) == Ptr(old(St()), Top(n, IND))
    {
      hide Counts, Cut;
      ghost var s := Top(n, DIND);
      ghost var st0 := St();
      DropRef(inodes[n].addrs[NDIRECT + 1], s, LevelOne(n, 0, NADDR));
      ghost var st1 := St();
      Clear(n, InInode(NDIRECT + 1), s, LevelOne(n, 0, NADDR) + {s});
      CutFrame(st0, st1, St(), n, NDIRECT + NADDR, MAXFILE);
    }

    /** itrunc: the file loses every block and its size; nothing else changes. */
    method Itrunc(n: nat)
      requires Consistent() && InUse(n)
      modifies this`disk, this`ref, this`bitmap, this`inodes, this`dinodes, this`logged
      ensures Consistent() && Cut(old(St()), St(), n, 0, MAXFILE) && Fresh(n)
      ensures MetaIs(old(inodes), inodes, n, Meta(old(inodes)[n]).(size := 0))
    {
      hide Counts, Cut;
      ghost var st0 := St();
      TruncDirect(n, 0);
      ghost var st1 := St();
      DropSingle(n);
      ghost var st2 := St();
      CutJoin(st0, st1, st2, n, 0, NDIRECT, NDIRECT + NADDR);
      DropDouble(n);
      ghost var st3 := St();
      CutJoin(st0, st2, st3, n, 0, NDIRECT + NADDR, MAXFILE);
      SetSize(n, 0);
      CutSame(st0, st3, St(), n, 0, MAXFILE);
      forall i | 0 <= i < NTOP
        ensures inodes[n].addrs[i] == 0
      {
        if i < NDIRECT {
          CutDirect(st0, St(), n, i);
        }
        assert inodes[n].addrs[i] == Ptr(St(), Top(n, i)) == Ptr(st3, Top(n, i));
      }
    }

    /** Let go of what words [keep, 256) of address block `ind` point at and clear them.  A
        block left without entries is not logged; whether the cleared buffer or the old one
        is what a later read would find is left open. */
    method TrimBlock(ind: nat, keep: nat, ghost p: Slot, ghost unc: set<Slot>) returns (empty: bool)
      requires Tree(St()) && Counts(St(), unc, multiset{}) && IsAddr(p) && p != Top(p.ino, DIND)
      requires ind == Ptr(St(), p) != 0 && keep <= NADDR && unc !! Kids(p, keep, NADDR)
      modifies this`disk, this`ref, this`bitmap
      ensures Tree(St()) && Counts(St(), unc + Kids(p, keep, NADDR), multiset{})
      ensures forall t :: t !in Kids(p, keep, NADDR) ==> Ptr(St(), t) == Ptr(old(St()), t)
      ensures forall t :: t !in Kids(p, keep, NADDR) && IsData(t) ==> Content(St(), t) == Content(old(St()), t)
      ensures !empty ==> forall t :: t in Kids(p, keep, NADDR) ==> Ptr(St(), t) == 0
      ensures empty ==> forall t :: t in Kids(p, 0, keep) ==> Ptr(St(), t) == 0
      ensures |disk| == |old(disk)|
    {
      hide Counts;
      ghost var st0 := St();
      var a, changed := FreeWords(ind, keep, p, unc);
      ghost var st1 := St();
      PtrsOnly(st0, st1);
      empty := AddrBlockEmpty(a);
      var kept := *;
      if changed && (!empty || kept) {
        TrimEffect(st1, p, keep, a, unc + Kids(p, keep, NADDR));
        disk := disk[ind := a];
      }
    }

    /** The single-indirect part of a truncation to nb blocks. */
    method TruncSingle(n: nat, nb: nat)
      requires Inv(St()) && n < |inodes|
      modifies this`disk, this`ref, this`bitmap, this`inodes
      ensures OnlyAddrs(old(inodes), inodes, n) && Inv(St())
      ensures Cut(old(St()), St(), n, Max(nb, NDIRECT), Max(nb, NDIRECT + NADDR))
    {
      hide Counts;
      ghost var st0 := St();
      ghost var s := Top(n, IND);
      if nb <= NDIRECT {
        DropSingle(n);
      } else if inodes[n].addrs[NDIRECT] != 0 {
        TrimSingle(n, Min(nb - NDIRECT, NADDR));
      } else {
        CutHole(st0, s);
      }
    }

    /** The single-indirect block keeps its first entries, and goes if none is left. */
    method TrimSingle(n: nat, keep: nat)
      requires Inv(St()) && n < |inodes| && inodes[n].addrs[NDIRECT] != 0 && keep <= NADDR
      modifies this`disk, this`ref, this`bitmap, this`inodes
      ensures OnlyAddrs(old(inodes), inodes, n) && Inv(St())
      ensures Cut(old(St()), St(), n, NDIRECT + keep, NDIRECT + NADDR)
    {
      hide Counts, Cut;
      ghost var st0 := St();
      ghost var s := Top(n, IND);
      var ind := inodes[n].addrs[NDIRECT];
      var empty := TrimBlock(ind, keep, s, {});
      ghost var unc := {} + Kids(s, keep, NADDR);
      if empty {
        DropRef(ind, s, unc);
        Clear(n, InInode(NDIRECT), s, unc + {s});
      } else {
        CountsAgree(St(), St(), unc, {}, multiset{});
      }
      CutKids(st0, St(), s, keep);
    }

    /** Level-1 block keep2 of a truncation: words [keep1, 256) go, and the block with them
        if nothing is left.  `a` is the buffer of the double-indirect block. */
    method TrimLevelOne(n: nat, dind: nat, a0: Block, keep2: nat, keep1: nat, ghost unc: set<Slot>)
      returns (a: Block, changed: bool)
      requires Tree(St()) && Counts(St(), unc, multiset{}) && n < |inodes| && keep2 < NADDR && keep1 < NADDR
      requires dind == Ptr(St(), Top(n, DIND)) != 0 && a0[keep2] == disk[dind][keep2]
      requires unc !! Kids(Dbl(n, keep2), 0, NADDR) && Dbl(n, keep2) !in unc
      modifies this`disk, this`ref, this`bitmap
      ensures a == a0 || (changed && a == a0[keep2 := 0])
      ensures changed ==> a == a0[keep2 := 0]
      ensures Tree(St()) && Counts(St(), unc + Trimmed(n, keep2, keep1, a[keep2] == 0), multiset{})
      ensures forall t :: t !in Kids(Dbl(n, keep2), keep1, NADDR) ==> Ptr(St(), t) == Ptr(old(St()), t)
      ensures forall t :: t !in Kids(Dbl(n, keep2), keep1, NADDR) && IsData(t) ==>
                Content(St(), t) == Content(old(St()), t)
      ensures a[keep2] != 0 ==> forall t :: t in Kids(Dbl(n, keep2), keep1, NADDR) ==> Ptr(St(), t) == 0
      ensures a[keep2] == 0 ==> forall t :: t in Kids(Dbl(n, keep2), 0, keep1) ==> Ptr(St(), t) == 0
      ensures |disk| == |old(disk)| && disk[dind] == old(disk)[dind]
    {
      hide Counts;
      ghost var s := Dbl(n, keep2);
      ghost var st0 := St();
      a, changed := a0, false;
      assert a[keep2] == Ptr(St(), s);
      if a[keep2] == 0 {
        UncountNull(St(), unc, Trimmed(n, keep2, keep1, true), multiset{});
      } else if keep1 == 0 {
        FreeIndirectBlock(a[keep2], s, unc);
        PtrsOnly(st0, St());
        a, changed := a[keep2 := 0], true;
        assert unc + Kids(s, 0, NADDR) + {s} == unc + Trimmed(n, keep2, 0, true);
      } else {
        var empty := TrimBlock(a[keep2], keep1, s, unc);
        if empty {
          ghost var st1 := St();
          DropRef(a[keep2], s, unc + Kids(s, keep1, NADDR));
          PtrsOnly(st1, St());
          a, changed := a[keep2 := 0], true;
          assert unc + Kids(s, keep1, NADDR) + {s} == unc + Trimmed(n, keep2, keep1, true);
        }
      }
      forall k | 0 <= k < NADDR
        ensures disk[dind][k] == old(disk)[dind][k]
      {
        assert Ptr(St(), Dbl(n, k)) == Ptr(st0, Dbl(n, k)) && Ptr(St(), Top(n, DIND)) == Ptr(st0, Top(n, DIND));
      }
    }

    /** The double-indirect part of a truncation to nb blocks. */
    method TruncDouble(n: nat, nb: nat)
      requires Inv(St()) && n < |inodes|
      modifies this`disk, this`ref, this`bitmap, this`inodes
      ensures OnlyAddrs(old(inodes), inodes, n) && Inv(St())
      ensures Cut(old(St()), St(), n, Max(nb, NDIRECT + NADDR), Max(nb, MAXFILE))
    {
      hide Counts, Cut;
      if nb <= NDIRECT + NADDR {
        DropDouble(n);
      } else if inodes[n].addrs[NDIRECT + 1] != 0 {
        var dkeep := nb - (NDIRECT + NADDR);
        TruncDoubleAt(n, inodes[n].addrs[NDIRECT + 1], dkeep / NADDR, dkeep % NADDR);
        CutClamp(old(St()), St(), n, nb);
      } else {
        CutHole(St(), Top(n, DIND));
        CutNarrow(St(), n, NDIRECT + NADDR, nb);
      }
    }

    method TruncDoubleAt(n: nat, dind: nat, keep2: nat, keep1: nat)
      requires Inv(St()) && n < |inodes| && keep1 < NADDR && dind == Ptr(St(), Top(n, DIND)) != 0
      modifies this`disk, this`ref, this`bitmap, this`inodes
      ensures OnlyAddrs(old(inodes), inodes, n) && Inv(St())
      ensures Cut(old(St()), St(), n, NDIRECT + NADDR + NADDR * keep2 + keep1, MAXFILE)
    {
      hide Counts, Cut;
      ghost var st0 := St();
      var a, changed := FreeLevelOne(n, dind, Min(keep2 + 1, NADDR));
      PtrsOnly(st0, St());
      ghost var unc := LevelOne(n, Min(keep2 + 1, NADDR), NADDR);
      if keep2 < NADDR {
        var changed1;
        a, changed1 := TrimLevelOne(n, dind, a, keep2, keep1, unc);
        changed := changed || changed1;
        unc := unc + Trimmed(n, keep2, keep1, a[keep2] == 0);
      }
      TruncGoalHolds(st0, St(), n, keep2, keep1, a, unc);
      FinishDouble(n, dind, keep2, keep1, a, changed, st0, unc);
    }

    /** The end of itrunc_to's double-indirect part: the buffer `a` is logged unless it is
        empty, in which case the block goes. */
    method FinishDouble(n: nat, dind: nat, keep2: nat, keep1: nat, a: Block, changed: bool, ghost st0: State,
                        ghost unc: set<Slot>)
      requires Tree(St()) && Counts(St(), unc, multiset{}) && n < |inodes| && dind == Ptr(St(), Top(n, DIND)) != 0
      requires TruncGoal(st0, St(), n, keep2, keep1, a, unc) && (!changed ==> a == disk[dind])
      modifies this`disk, this`ref, this`bitmap, this`inodes
      ensures OnlyAddrs(old(inodes), inodes, n) && Inv(St())
      ensures Cut(st0, St(), n, NDIRECT + NADDR + NADDR * keep2 + keep1, MAXFILE)
    {
      hide Counts, Cut;
      ghost var s := Top(n, DIND);
      ghost var st1 := St();
      ghost var left := unc;
      var empty := AddrBlockEmpty(a);
      var kept := *;
      LogDouble(st1, n, a, unc);
      if changed && (!empty || kept) {
        disk := disk[dind := a];
      }
      if !changed || !empty || kept {
        assert St() == st1.(disk := st1.disk[dind := a]);
        left := {};
      }
      if empty {
        ghost var st2 := St();
        DropRef(dind, s, left);
        PtrsOnly(st2, St());
        Clear(n, InInode(NDIRECT + 1), s, left + {s});
      }
      CutFromGoal(st0, st1, St(), n, keep2, keep1, a, unc);
    }

    /** itrunc_to.  Growing only sets the size; shrinking keeps exactly the first
        CeilBlocks(newsize) blocks. */
    method ItruncTo(n: nat, newsize: nat)
      requires Consistent() && InUse(n)
      modifies this`disk, this`ref, this`bitmap, this`inodes, this`dinodes, this`logged
      ensures Consistent() && MetaIs(old(inodes), inodes, n, Meta(old(inodes)[n]).(size := newsize))
      ensures newsize >= old(inodes)[n].size ==> SamePtrs(old(St()), St()) && SameData(old(St()), St())
      ensures newsize < old(inodes)[n].size ==>
                Cut(old(St()), St(), n, CeilBlocks(newsize), Max(CeilBlocks(newsize), MAXFILE))
    {
      hide Counts, Cut;
      ghost var st0 := St();
      if newsize >= inodes[n].size {
        SetSize(n, newsize);
        return;
      }
      var nb := CeilBlocks(newsize);
      TruncDirect(n, nb);
      ghost var st1 := St();
      TruncSingle(n, nb);
      ghost var st2 := St();
      CutJoin(st0, st1, st2, n, nb, Max(nb, NDIRECT), Max(nb, NDIRECT + NADDR));
      TruncDouble(n, nb);
      ghost var st3 := St();
      CutJoin(st0, st2, st3, n, nb, Max(nb, NDIRECT + NADDR), Max(nb, MAXFILE));
      SetSize(n, newsize);
      CutSame(st0, st3, St(), n, nb, Max(nb, MAXFILE));
    }

    // -------------------------------------------------------------- punching holes

    /** Let go of the block at data slot s and clear the pointer. */
    method DropData(n: nat, p: Loc, ghost s: Slot)
      requires Inv(St()) && Locates(n, p, s) && IsData(s) && Ptr(St(), s) != 0
      modifies this`disk, this`ref, this`bitmap, this`inodes
      ensures OnlyAddrs(old(inodes), inodes, n) && (p.InBlock? ==> inodes == old(inodes))
      ensures Inv(St()) && SameBut(old(St()), St(), s) && Ptr(St(), s) == 0
    {
      hide Counts, Cut;
      ghost var st0 := St();
      var b := Deref(n, p, s);
      DropRef(b, s, {});
      PtrsOnly(st0, St());
      assert {} + {s} == {s};
      Clear(n, p, s, {s});
    }

    /** Let go of the address block at slot s if it has no entries left. */
    method DropIfEmpty(n: nat, p: Loc, ghost s: Slot) returns (empty: bool)
      requires Inv(St()) && Locates(n, p, s) && IsAddr(s) && Ptr(St(), s) != 0
      modifies this`disk, this`ref, this`bitmap, this`inodes
      ensures OnlyAddrs(old(inodes), inodes, n) && (p.InBlock? || !empty ==> inodes == old(inodes))
      ensures Inv(St()) && SameDataPtrs(old(St()), St()) && SameData(old(St()), St())
      ensures forall t :: t != s && !Below(t, s) ==> Ptr(St(), t) == Ptr(old(St()), t)
      ensures empty <==> Ptr(St(), s) == 0
      ensures empty <==> old(disk)[Ptr(old(St()), s)] == ZeroBlock()
      ensures !empty ==> St() == old(St())
    {
      hide Counts, Cut;
      ghost var st0 := St();
      var b := Deref(n, p, s);
      empty := AddrBlockEmpty(disk[b]);
      if empty {
        forall t | Below(t, s)
          ensures Ptr(st0, t) == 0
        {
          BelowEmpty(st0, t, s);
        }
        DropRef(b, s, {});
        PtrsOnly(st0, St());
        assert {} + {s} == {s};
        Clear(n, p, s, {s});
      }
    }

    /** One turn of ipunch's loop; true if the inode itself changed. */
    method PunchOne(n: nat, bn: nat) returns (u: bool)
      requires Inv(St()) && n < |inodes|
      modifies this`disk, this`ref, this`bitmap, this`inodes
      ensures OnlyAddrs(old(inodes), inodes, n) && (!u ==> inodes == old(inodes))
      ensures Inv(St()) && Cut(old(St()), St(), n, bn, bn + 1)
    {
      hide Counts, Cut;
      ghost var st0 := St();
      if bn < NDIRECT {
        u := inodes[n].addrs[bn] != 0;
        DropDirect(n, bn);
      } else if bn < NDIRECT + NADDR {
        u := PunchSingle(n, bn - NDIRECT);
        CutOneBlock(st0, St(), n, bn);
      } else if bn < MAXFILE {
        var k := bn - NDIRECT - NADDR;
        u := PunchDouble(n, k / NADDR, k % NADDR);
        CutOneBlock(st0, St(), n, bn);
      } else {
        u := false;
        CutPastEnd(st0, n, bn);
      }
    }

    method PunchSingle(n: nat, idx: nat) returns (u: bool)
      requires Inv(St()) && n < |inodes| && idx < NADDR
      modifies this`disk, this`ref, this`bitmap, this`inodes
      ensures OnlyAddrs(old(inodes), inodes, n) && (!u ==> inodes == old(inodes))
      ensures Inv(St()) && Ptr(St(), Ind(n, idx)) == 0
      ensures SameDataPtrsBut(old(St()), St(), Ind(n, idx)) && SameDataBut(old(St()), St(), Ind(n, idx))
    {
      hide Counts, Cut;
      var ind := inodes[n].addrs[NDIRECT];
      if ind == 0 {
        return false;
      }
      assert ind == Ptr(St(), Top(n, IND));
      if disk[ind][idx] != 0 {
        DropData(n, InBlock(ind, idx), Ind(n, idx));
      }
      u := DropIfEmpty(n, InInode(NDIRECT), Top(n, IND));
    }

    method PunchDouble(n: nat, level2: nat, level1: nat) returns (u: bool)
      requires Inv(St()) && n < |inodes| && level2 < NADDR && level1 < NADDR
      modifies this`disk, this`ref, this`bitmap, this`inodes
      ensures OnlyAddrs(old(inodes), inodes, n) && (!u ==> inodes == old(inodes))
      ensures Inv(St()) && Ptr(St(), Leaf(n, level2, level1)) == 0
      ensures SameDataPtrsBut(old(St()), St(), Leaf(n, level2, level1))
              && SameDataBut(old(St()), St(), Leaf(n, level2, level1))
    {
      hide Counts, Cut;
      var dind := inodes[n].addrs[NDIRECT + 1];
      if dind == 0 {
        return false;
      }
      assert dind == Ptr(St(), Top(n, DIND));
      var l1 := disk[dind][level2];
      if l1 == 0 {
        return false;
      }
      assert l1 == Ptr(St(), Dbl(n, level2));
      if disk[l1][level1] != 0 {
        DropData(n, InBlock(l1, level1), Leaf(n, level2, level1));
      }
      assert l1 == Ptr(St(), Dbl(n, level2)) && dind == Ptr(St(), Top(n, DIND));
      var empty1 := DropIfEmpty(n, InBlock(dind, level2), Dbl(n, level2));
      if !empty1 {
        return false;
      }
      assert dind == Ptr(St(), Top(n, DIND));
      u := DropIfEmpty(n, InInode(NDIRECT + 1), Top(n, DIND));
    }

    /** ipunch: blocks [startb, endb) become holes; the size and every other block stay. */
    method Ipunch(n: nat, startb: nat, endb: nat) returns (r: int)
      requires Consistent() && InUse(n)
      modifies this`disk, this`ref, this`bitmap, this`inodes, this`dinodes, this`logged
      ensures r == if old(inodes)[n].typ != T_FILE then -1 else 0
      ensures r == -1 ==> unchanged(this)
      ensures Consistent() && MetaIs(old(inodes), inodes, n, Meta(old(inodes)[n]))
      ensures r == 0 ==> Cut(old(St()), St(), n, startb, Max(startb, endb))
    {
      hide Counts, Cut;
      if inodes[n].typ != T_FILE {
        return -1;
      }
      ghost var st0 := St();
      CutNothing(st0, st0, n, startb, startb);
      var need := false;
      var bn := startb;
      while bn < endb
        invariant startb <= bn <= Max(startb, endb)
        invariant OnlyAddrs(old(inodes), inodes, n) && (!need ==> inodes == old(inodes)) && dinodes == old(dinodes)
        invariant Inv(St()) && Cut(st0, St(), n, startb, bn)
      {
        ghost var st1 := St();
        var u := PunchOne(n, bn);
        CutJoin(st0, st1, St(), n, startb, bn, bn + 1);
        need := need || u;
        bn := bn + 1;
      }
      if need {
        ghost var st1 := St();
        SetSize(n, inodes[n].size);
        CutSame(st0, st1, St(), n, startb, bn);
      }
      return 0;
    }

    // -------------------------------------------------------------- inodes

    /** ialloc: the first free inode becomes an empty file of the given type.  None is the
        panic "ialloc: no inodes". */
    method Ialloc(typ: nat) returns (r: Option<nat>)
      requires Consistent() && typ != 0
      modifies this`inodes, this`dinodes, this`logged
      ensures r.None? ==> unchanged(this) && forall k :: 1 <= k < |inodes| ==> inodes[k].typ != 0
      ensures r.Some? ==>
                && Consistent() && 0 < r.value < |inodes| == |old(inodes)|
                && old(inodes)[r.value].typ == 0 && Fresh(r.value)
      ensures r.Some? ==> forall k :: 1 <= k < r.value ==> old(inodes)[k].typ != 0
      ensures r.Some? ==> MetaIs(old(inodes), inodes, r.value, MetaData(typ, 3, 0))
      ensures r.Some? ==> forall m: nat :: View(St(), m) == View(old(St()), m)
    {
      hide Counts, View;
      ghost var st0 := St();
      var inum := 1;
      while inum < |dinodes|
        invariant 1 <= inum <= |dinodes| && unchanged(this)
        invariant forall k :: 1 <= k < inum ==> inodes[k].typ != 0
      {
        if dinodes[inum].typ == 0 {
          dinodes := dinodes[inum := Inode(typ, 3, 0, seq(NTOP, _ => 0))];
          inodes := inodes[inum := dinodes[inum]];
          assert forall t :: Ptr(St(), t) == Ptr(st0, t);
          TreeSame(st0, St());
          CountsAgree(st0, St(), {}, {}, multiset{});
          ViewSame(st0, St());
          return Some(inum);
        }
        inum := inum + 1;
      }
      return None;
    }

    /** The last iput of an unlinked inode: its contents and then the inode itself. */
    method Ifree(n: nat)
      requires Consistent() && InUse(n)
      modifies this`disk, this`ref, this`bitmap, this`inodes, this`dinodes, this`logged
      ensures Consistent() && Cut(old(St()), St(), n, 0, MAXFILE)
      ensures MetaIs(old(inodes), inodes, n, MetaData(0, old(inodes)[n].mode, 0))
      ensures Fresh(n)
    {
      hide Counts, Cut;
      Itrunc(n);
      ghost var st1 := St();
      inodes := inodes[n := inodes[n].(typ := 0)];
      Iupdate(n);
      assert forall t :: Ptr(St(), t) == Ptr(st1, t);
      TreeSame(st1, St());
      CountsAgree(st1, St(), {}, {}, multiset{});
      CutSame(old(St()), st1, St(), n, 0, MAXFILE);
    }

    // -------------------------------------------------------------- boot

    /** The state that the disk alone describes. */
    ghost function DiskSt(): State
      reads this
    {
      State(dstart, disk, dinodes, ref, bitmap)
    }

    /** `brefs.ref[v]++` for the pointer in slot s, if there is one. */
    method Tally(v: nat, ghost st: State, ghost s: Slot, ghost unc: set<Slot>)
      requires Tree(st) && Tallied(st, ref, unc) && s in unc && InRange(|st.inodes|, s) && v == Ptr(st, s)
      modifies this`ref
      ensures Tallied(st, ref, unc - {s})
    {
      TallySlot(st, ref, unc, s);
      if v != 0 {
        ref := ref[v := ref[v] + 1];
      }
    }

    /** All words of the address block at slot p. */
    method TallyWords(a: Block, ghost st: State, ghost p: Slot, ghost unc: set<Slot>)
      requires Tree(st) && IsAddr(p) && InRange(|st.inodes|, p) && Ptr(st, p) != 0 && a == st.disk[Ptr(st, p)]
      requires Tallied(st, ref, unc) && Kids(p, 0, NADDR) <= unc
      modifies this`ref
      ensures Tallied(st, ref, unc - Kids(p, 0, NADDR))
    {
      hide Tallied;
      var j := 0;
      assert unc - Kids(p, 0, 0) == unc;
      while j < NADDR
        invariant 0 <= j <= NADDR && Tallied(st, ref, unc - Kids(p, 0, j))
      {
        ghost var s := Kid(p, j);
        Tally(a[j], st, s, unc - Kids(p, 0, j));
        assert unc - Kids(p, 0, j) - {s} == unc - Kids(p, 0, j + 1);
        j := j + 1;
      }
    }

    /** The direct pointers of one inode. */
    method TallyDirect(inum: nat, ghost st: State)
      requires Tree(st) && st.inodes == dinodes && inum < |dinodes| && Tallied(st, ref, From(|dinodes|, inum))
      modifies this`ref
      ensures Tallied(st, ref, From(|dinodes|, inum) - Tops(inum, NDIRECT))
    {
      hide Tallied;
      ghost var unc := From(|dinodes|, inum);
      var i := 0;
      assert unc - Tops(inum, 0) == unc;
      while i < NDIRECT
        invariant 0 <= i <= NDIRECT && Tallied(st, ref, unc - Tops(inum, i))
      {
        Tally(dinodes[inum].addrs[i], st, Top(inum, i), unc - Tops(inum, i));
        assert unc - Tops(inum, i) - {Top(inum, i)} == unc - Tops(inum, i + 1);
        i := i + 1;
      }
    }

    /** The double-indirect tree of one inode: for every level-1 block its slot, then its words. */
    method TallyDouble(inum: nat, dind: nat, ghost st: State, ghost unc: set<Slot>)
      requires Tree(st) && st.inodes == dinodes && st.disk == disk && inum < |dinodes| && Tallied(st, ref, unc)
      requires LevelOne(inum, 0, NADDR) <= unc && dind == Ptr(st, Top(inum, DIND)) != 0
      modifies this`ref
      ensures Tallied(st, ref, unc - LevelOne(inum, 0, NADDR))
    {
      hide Tallied, LevelOne, Tree, Ptr;
      var i := 0;
      assert unc - LevelOne(inum, 0, 0) == unc;
      while i < NADDR
        invariant 0 <= i <= NADDR && Tallied(st, ref, unc - LevelOne(inum, 0, i))
      {
        LevelOneNext(inum, 0, i, NADDR);
        assert unc - LevelOne(inum, 0, i) - {Dbl(inum, i)} - Kids(Dbl(inum, i), 0, NADDR) ==
                 unc - LevelOne(inum, 0, i + 1);
        TallyOneLevel(inum, dind, i, st, unc - LevelOne(inum, 0, i));
        i := i + 1;
      }
    }

    /** One level-1 block: its pointer, and all it holds. */
    method TallyOneLevel(inum: nat, dind: nat, i: nat, ghost st: State, ghost unc: set<Slot>)
      requires Tree(st) && st.inodes == dinodes && st.disk == disk && inum < |dinodes| && Tallied(st, ref, unc)
               && i < NADDR
      requires {Dbl(inum, i)} + Kids(Dbl(inum, i), 0, NADDR) <= unc && dind == Ptr(st, Top(inum, DIND)) != 0
      modifies this`ref
      ensures Tallied(st, ref, unc - {Dbl(inum, i)} - Kids(Dbl(inum, i), 0, NADDR))
    {
      hide Tallied, Kids;
      ghost var s := Dbl(inum, i);
      var l1 := disk[dind][i];
      assert l1 == Ptr(st, s);
      if l1 == 0 {
        TallyAgree(st, ref, unc, unc - {s} - Kids(s, 0, NADDR));
      } else {
        Tally(l1, st, s, unc);
        TallyWords(disk[l1], st, s, unc - {s});
      }
    }

    /** One inode of bref_init's outer loop. */
    method TallyInode(inum: nat, ghost st: State)
      requires Tree(st) && st.inodes == dinodes && st.disk == disk && inum < |dinodes|
               && Tallied(st, ref, From(|dinodes|, inum))
      requires dinodes[inum].typ == 0 ==> forall i :: 0 <= i < NTOP ==> dinodes[inum].addrs[i] == 0
      modifies this`ref
      ensures Tallied(st, ref, From(|dinodes|, inum + 1))
    {
      hide Tallied, Tree;
      ghost var unc := From(|dinodes|, inum) - Tops(inum, NDIRECT);
      ghost var unc' := unc - {Top(inum, IND)} - Kids(Top(inum, IND), 0, NADDR);
      InodeSlots(|dinodes|, inum);
      if dinodes[inum].typ == 0 {
        TallyFreeInode(st, ref, inum);
        return;
      }
      TallyDirect(inum, st);
      TallySingleTree(inum, st, unc);
      TallyDoubleTree(inum, st, unc');
    }

    method TallySingleTree(inum: nat, ghost st: State, ghost unc: set<Slot>)
      requires Tree(st) && st.inodes == dinodes && st.disk == disk && inum < |dinodes| && Tallied(st, ref, unc)
      requires {Top(inum, IND)} + Kids(Top(inum, IND), 0, NADDR) <= unc
      modifies this`ref
      ensures Tallied(st, ref, unc - {Top(inum, IND)} - Kids(Top(inum, IND), 0, NADDR))
    {
      hide Tallied;
      ghost var s := Top(inum, IND);
      var ind := dinodes[inum].addrs[NDIRECT];
      assert ind == Ptr(st, s);
      if ind != 0 {
        Tally(ind, st, s, unc);
        TallyWords(disk[ind], st, s, unc - {s});
      } else {
        TallyAgree(st, ref, unc, unc - {s} - Kids(s, 0, NADDR));
      }
    }

    method TallyDoubleTree(inum: nat, ghost st: State, ghost unc: set<Slot>)
      requires Tree(st) && st.inodes == dinodes && st.disk == disk && inum < |dinodes| && Tallied(st, ref, unc)
      requires {Top(inum, DIND)} + LevelOne(inum, 0, NADDR) <= unc
      modifies this`ref
      ensures Tallied(st, ref, unc - {Top(inum, DIND)} - LevelOne(inum, 0, NADDR))
    {
      hide Tallied;
      ghost var s := Top(inum, DIND);
      var dind := dinodes[inum].addrs[NDIRECT + 1];
      assert dind == Ptr(st, s);
      if dind != 0 {
        Tally(dind, st, s, unc);
        TallyDouble(inum, dind, st, unc - {s});
      } else {
        TallyAgree(st, ref, unc, unc - {s} - LevelOne(inum, 0, NADDR));
      }
    }

    /** bref_init: the counts recomputed from the disk are the number of pointers to each
        block; on a consistent file system they are the counts the operations maintained. */
    method BrefInit()
      requires Tree(DiskSt()) && FreeInodesEmpty(dinodes) && |dinodes| > 0 && dinodes[0].typ == 0
      modifies this`ref
      ensures |ref| == |disk| && forall b :: 0 < b < |disk| ==> ref[b] == |Refs(old(DiskSt()), {}, b)|
      ensures old(Consistent()) ==> forall b :: 0 < b < |disk| ==> ref[b] == old(ref)[b]
    {
      ghost var st := DiskSt();
      ref := seq(|disk|, _ => 0);
      TallyNone(st, ref);
      TallyAgree(st, ref, From(|dinodes|, 0), From(|dinodes|, 1));
      var inum := 1;
      while inum < |dinodes|
        invariant 1 <= inum <= |dinodes| && Tallied(st, ref, From(|dinodes|, inum))
      {
        TallyInode(inum, st);
        inum := inum + 1;
      }
      assert From(|dinodes|, |dinodes|) == {};
    }

    /** Between operations: counts and bitmap agree with the pointers, the inodes on disk
        are those in core, and a free inode maps nothing. */
    ghost predicate Consistent()
      reads this
    {
      && Inv(St()) && dinodes == inodes && FreeInodesEmpty(inodes)
      && |inodes| > 0 && inodes[0].typ == 0
    }

    /** Where balloc panics: every block of the data area is in some file. */
    ghost predicate Exhausted()
      reads this
    {
      && Tree(St()) && (forall b :: 0 <= b < |bitmap| ==> bitmap[b])
      && forall b :: dstart <= b < |disk| ==> Mapped(St(), b)
    }

    ghost predicate InUse(n: nat)
      reads this
    {
      n < |inodes| && inodes[n].typ != 0
    }

    method Iupdate(n: nat)
      requires n < |inodes| == |dinodes|
      modifies this`dinodes, this`logged
      ensures dinodes == old(dinodes)[n := inodes[n]] && logged == old(logged) + [Inodes(n / IPB)]
    {
      dinodes := dinodes[n := inodes[n]];
      logged := logged + [Inodes(n / IPB)];
    }
  }

  /** Blocks that were in use still are, with the same counts. */
  ghost predicate InUseKept(st: State, st': State)
  {
    && |st'.ref| == |st.ref| && |st.bitmap| == |st.ref| == |st'.bitmap|
    && forall b :: 0 <= b < |st.ref| && st.bitmap[b] ==> st'.bitmap[b] && st'.ref[b] == st.ref[b]
  }

  /** Some inode's slot points at b. */
  ghost predicate Mapped(st: State, b: nat)
  {
    exists t :: InRange(|st.inodes|, t) && Ptr(st, t) == b
  }

  /** With every bit set every block is mapped; `from` points at the one that may be pending. */
  lemma AllMapped(st: State, pend: multiset<nat>, from: Slot)
    requires Tree(st) && Counts(st, {}, pend) && forall b :: 0 <= b < |st.bitmap| ==> st.bitmap[b]
    requires pend == multiset{} || pend == multiset{Ptr(st, from)}
    ensures forall b :: st.dstart <= b < |st.disk| ==> Mapped(st, b)
  {
    forall b | st.dstart <= b < |st.disk|
      ensures Mapped(st, b)
    {
      if b in pend {
        NonNullInRange(st, from);
      } else {
        assert |Refs(st, {}, b)| > 0;
        var t :| t in Refs(st, {}, b);
      }
    }
  }

  function Min(a: int, b: int): (r: int)
    ensures r <= a && r <= b && (r == a || r == b)
  {
    if a < b then a else b
  }

  /** Byte o of file n, past the end of file included. */
  function FileByte(st: State, n: nat, o: nat): Byte
  {
    if o / BSIZE < MAXFILE then Bytes(Content(st, DataSlot(n, o / BSIZE)))[o % BSIZE] else 0
  }

  function Max(a: int, b: int): (r: int)
    ensures r >= a && r >= b && (r == a || r == b)
  {
    if a < b then b else a
  }

  /** The part of an inode that is not its block map. */
  datatype MetaData = MetaData(typ: nat, mode: nat, size: nat)

  function Meta(i: Inode): MetaData
  {
    MetaData(i.typ, i.mode, i.size)
  }

  /** Inode n has metadata m, every other inode its old metadata. */
  ghost predicate MetaIs(a: seq<Inode>, b: seq<Inode>, n: nat, m: MetaData)
  {
    |a| == |b| && forall k :: 0 <= k < |a| ==> Meta(b[k]) == if k == n then m else Meta(a[k])
  }

  ghost predicate FreeInodesEmpty(inodes: seq<Inode>)
  {
    forall k, i :: 0 <= k < |inodes| && inodes[k].typ == 0 && 0 <= i < |inodes[k].addrs| ==> inodes[k].addrs[i] == 0
  }

  ghost predicate OthersSame(st: State, st': State, n: nat)
  {
    forall t :: IsData(t) && t.ino != n ==> Content(st', t) == Content(st, t)
  }

  /** File n has `data` at offset `off` and its old bytes elsewhere. */
  ghost predicate Written(st: State, st': State, n: nat, off: nat, data: seq<Byte>)
  {
    forall o: nat :: FileByte(st', n, o) == if off <= o < off + |data| then data[o - off] else FileByte(st, n, o)
  }

  lemma ChunkWritten(st0: State, st1: State, st2: State, n: nat, off: nat, data: seq<Byte>)
    requires off / BSIZE < MAXFILE && off % BSIZE + |data| <= BSIZE
    requires SameData(st0, st1) && SameBut(st1, st2, DataSlot(n, off / BSIZE))
    requires Content(st2, DataSlot(n, off / BSIZE)) == Splice(Content(st1, DataSlot(n, off / BSIZE)), off % BSIZE, data)
    ensures Written(st0, st2, n, off, data)
  {
    hide Content, FileByte, Splice;
    DataSlotBijection(n, off / BSIZE);
    forall o: nat
      ensures FileByte(st2, n, o) == if off <= o < off + |data| then data[o - off] else FileByte(st0, n, o)
    {
      OffsetInChunk(off, |data|, o);
      if o / BSIZE == off / BSIZE {
        ByteInChunk(st0, st1, st2, n, off, data, o);
      } else {
        ByteElsewhere(st0, st1, st2, n, off / BSIZE, o);
      }
    }
  }

  /** A byte of the block that was written. */
  lemma ByteInChunk(st0: State, st1: State, st2: State, n: nat, off: nat, data: seq<Byte>, o: nat)
    requires off / BSIZE < MAXFILE && off % BSIZE + |data| <= BSIZE && o / BSIZE == off / BSIZE
    requires SameData(st0, st1) && IsData(DataSlot(n, off / BSIZE))
    requires Content(st2, DataSlot(n, off / BSIZE)) == Splice(Content(st1, DataSlot(n, off / BSIZE)), off % BSIZE, data)
    ensures FileByte(st2, n, o) == if off <= o < off + |data| then data[o - off] else FileByte(st0, n, o)
  {
    hide Content, DataSlot, Bytes, Splice;
    var c := Content(st1, DataSlot(n, off / BSIZE));
    SpliceBytes(c, off % BSIZE, data);
    OffsetInChunk(off, |data|, o);
    assert o - off == o % BSIZE - off % BSIZE;
  }

  /** A byte of any other block. */
  lemma ByteElsewhere(st0: State, st1: State, st2: State, n: nat, bn: nat, o: nat)
    requires SameData(st0, st1) && SameBut(st1, st2, DataSlot(n, bn)) && bn < MAXFILE && o / BSIZE != bn
    ensures FileByte(st2, n, o) == FileByte(st0, n, o)
  {
    hide Content, Bytes;
    DataSlotBijection(n, bn);
    if o / BSIZE < MAXFILE {
      DataSlotBijection(n, o / BSIZE);
    }
  }

  lemma OffsetInChunk(off: nat, len: nat, o: nat)
    requires off % BSIZE + len <= BSIZE
    ensures off <= o < off + len <==> o / BSIZE == off / BSIZE && off % BSIZE <= o % BSIZE < off % BSIZE + len
    ensures off <= o < off + len ==> o - off == o % BSIZE - off % BSIZE
  {}

  lemma WrittenNone(st: State, n: nat, off: nat)
    ensures Written(st, st, n, off, []) && OthersSame(st, st, n)
  {}

  lemma OthersSameTrans(st0: State, st1: State, st2: State, n: nat)
    requires OthersSame(st0, st1, n) && OthersSame(st1, st2, n)
    ensures OthersSame(st0, st2, n)
  {}

  lemma WrittenTwice(st0: State, st1: State, st2: State, n: nat, off: nat, src: seq<Byte>, tot: nat, m: nat)
    requires tot + m <= |src|
    requires Written(st0, st1, n, off, src[..tot]) && Written(st1, st2, n, off + tot, src[tot..tot + m])
    ensures Written(st0, st2, n, off, src[..tot + m])
  {}

  lemma WrittenSame(st0: State, st1: State, st2: State, n: nat, off: nat, src: seq<Byte>)
    requires Written(st0, st1, n, off, src) && SameData(st1, st2)
    ensures Written(st0, st2, n, off, src)
  {
    forall o: nat
      ensures FileByte(st2, n, o) == FileByte(st1, n, o)
    {
      if o / BSIZE < MAXFILE {
        DataSlotBijection(n, o / BSIZE);
      }
    }
  }

  /** Sizes are not part of the block map. */
  lemma SetSizeEffect(st: State, n: nat, size: nat)
    requires Inv(st) && n < |st.inodes|
    ensures var st' := st.(inodes := st.inodes[n := st.inodes[n].(size := size)]);
            Inv(st') && SamePtrs(st, st') && SameData(st, st')
  {
    var st' := st.(inodes := st.inodes[n := st.inodes[n].(size := size)]);
    assert forall t :: Ptr(st', t) == Ptr(st, t);
    TreeSame(st, st');
    CountsAgree(st, st', {}, {}, multiset{});
  }

  /** The mapping of block bn of file n, 0 past the largest file. */
  function BlockPtr(st: State, n: nat, bn: nat): nat
  {
    if bn < MAXFILE then Ptr(st, DataSlot(n, bn)) else 0
  }

  ghost predicate SameDataBut(st: State, st': State, s: Slot)
  {
    forall t :: IsData(t) && t != s ==> Content(st', t) == Content(st, t)
  }

  /** A data block stays out of every address slot. */
  lemma EnsureKeepsAway(st1: State, st2: State, s: Slot)
    requires Tree(st2) && SameDataPtrs(st1, st2) && IsData(s) && Ptr(st1, s) != 0
    ensures forall t :: IsAddr(t) ==> Ptr(st2, t) != Ptr(st1, s)
  {
    forall t | IsAddr(t)
      ensures Ptr(st2, t) != Ptr(st1, s)
    {
      DataTargetNotAddr(st2, s, t);
    }
  }

  // ---------------------------------------------------------------- the view of a file

  /** One block of a file: where it is and what it shows. */
  datatype Cell = Cell(ptr: nat, blk: Block)

  function Hole(): Cell
  {
    Cell(0, ZeroBlock())
  }

  function View(st: State, n: nat): (v: seq<Cell>)
    ensures |v| == MAXFILE
  {
    seq(MAXFILE, b requires 0 <= b < MAXFILE => Cell(Ptr(st, DataSlot(n, b)), Content(st, DataSlot(n, b))))
  }

  function CellAt(v: seq<Cell>, b: nat): Cell
  {
    if b < |v| then v[b] else Hole()
  }

  function Put(v: seq<Cell>, b: nat, c: Cell): seq<Cell>
  {
    if b < |v| then v[b := c] else v
  }

  ghost predicate OthersView(st: State, st': State, n: nat)
  {
    forall m: nat :: m != n ==> View(st', m) == View(st, m)
  }

  lemma ViewAt(st: State, n: nat, b: nat)
    ensures CellAt(View(st, n), b) ==
              if b < MAXFILE then Cell(Ptr(st, DataSlot(n, b)), Content(st, DataSlot(n, b))) else Hole()
    ensures b < MAXFILE ==> IsData(DataSlot(n, b)) && DataSlot(n, b).ino == n
  {
    if b < MAXFILE {
      DataSlotBijection(n, b);
    }
  }

  /** One data slot changed: one cell of one view changed. */
  lemma ViewSlot(st: State, st': State, n: nat, b: nat)
    requires b < MAXFILE
    requires SameDataPtrsBut(st, st', DataSlot(n, b)) && SameDataBut(st, st', DataSlot(n, b))
    ensures OthersView(st, st', n)
    ensures View(st', n) == Put(View(st, n), b, Cell(Ptr(st', DataSlot(n, b)), Content(st', DataSlot(n, b))))
  {
    DataSlotBijection(n, b);
    forall m: nat, k | 0 <= k < MAXFILE && !(m == n && k == b)
      ensures View(st', m)[k] == View(st, m)[k]
    {
      DataSlotBijection(m, k);
    }
  }

  lemma ViewSame(st: State, st': State)
    requires SameDataPtrs(st, st') && SameData(st, st')
    ensures forall m: nat :: View(st', m) == View(st, m)
  {
    forall m: nat, k | 0 <= k < MAXFILE
      ensures View(st', m)[k] == View(st, m)[k]
    {
      DataSlotBijection(m, k);
    }
  }

  /** Cells [at, at + k) of `to` replaced by cells [start, start + k) of `from`. */
  function Overlay(to: seq<Cell>, at: nat, from: seq<Cell>, start: nat, k: nat): seq<Cell>
  {
    seq(|to|, b requires 0 <= b < |to| => if at <= b < at + k then CellAt(from, start + (b - at)) else to[b])
  }

  lemma OverlayNone(to: seq<Cell>, at: nat, from: seq<Cell>, start: nat)
    ensures Overlay(to, at, from, start, 0) == to
  {}

  lemma OverlayStep(to: seq<Cell>, at: nat, from: seq<Cell>, start: nat, k: nat)
    ensures Overlay(to, at, from, start, k + 1) == Put(Overlay(to, at, from, start, k), at + k, CellAt(from, start + k))
  {}

  /** A mapped source block whose place in the target is past the largest file. */
  predicate Overhang(from: seq<Cell>, srcb: nat, dstb: nat, j: nat)
  {
    dstb + j >= MAXFILE && CellAt(from, srcb + j).ptr != 0
  }

  /** Number of blocks that hold `size` bytes, in 32-bit arithmetic. */
  function CeilBlocks(size: nat): (r: nat)
    ensures size + 1023 < UINT_LIMIT ==> (r - 1) * 1024 < size <= r * 1024
  {
    (size + BSIZE - 1) % UINT_LIMIT / BSIZE
  }

  predicate Dedupable(s: Cell, d: Cell)
  {
    s.ptr != 0 && d.ptr != 0 && s.ptr != d.ptr && s.blk == d.blk
  }

  function Deduped(from: seq<Cell>, to: seq<Cell>, k: nat): seq<Cell>
  {
    seq(|to|, b requires 0 <= b < |to| => if b < k && Dedupable(CellAt(from, b), to[b]) then CellAt(from, b) else to[b])
  }

  /** How many of the first k pointers a deduplication redirects. */
  function DedupCount(from: seq<Cell>, to: seq<Cell>, k: nat): nat
  {
    if k == 0 then 0
    else DedupCount(from, to, k - 1) + if Dedupable(CellAt(from, k - 1), CellAt(to, k - 1)) then 1 else 0
  }

  lemma DedupedNone(from: seq<Cell>, to: seq<Cell>)
    ensures Deduped(from, to, 0) == to
  {}

  lemma DedupedStep(from: seq<Cell>, to: seq<Cell>, k: nat)
    ensures CellAt(Deduped(from, to, k), k) == CellAt(to, k)
    ensures var d := Dedupable(CellAt(from, k), CellAt(to, k));
            && (d ==> Deduped(from, to, k + 1) == Put(Deduped(from, to, k), k, CellAt(from, k)))
            && (!d ==> Deduped(from, to, k + 1) == Deduped(from, to, k))
  {}

  /** Deduplication moves blocks, never bytes. */
  lemma DedupedBytes(from: seq<Cell>, to: seq<Cell>, k: nat, b: nat)
    requires b < |to|
    ensures Deduped(from, to, k)[b].blk == to[b].blk
  {}

  /** Cutting below an empty slot cuts nothing. */
  lemma CutHole(st: State, s: Slot)
    requires Tree(st) && InRange(s.ino + 1, s) && Ptr(st, s) == 0
    ensures Cut(st, st, s.ino, SpanStart(s), SpanEnd(s))
  {
    forall t | t == s || Below(t, s)
      ensures Ptr(st, t) == 0
    {
      if t != s {
        BelowNull(st, t, s);
      }
    }
    CutSpan(st, st, s);
  }

  /** Counts and bitmap are no part of the block map. */
  lemma CutFrame(st0: State, st1: State, st2: State, n: nat, lo: nat, hi: nat)
    requires st1.disk == st0.disk && st1.inodes == st0.inodes && Cut(st1, st2, n, lo, hi)
    ensures Cut(st0, st2, n, lo, hi)
  {
    forall t | IsData(t)
      ensures Ptr(st1, t) == Ptr(st0, t) && Content(st1, t) == Content(st0, t)
    {
    }
  }

  lemma CutSame(st0: State, st1: State, st2: State, n: nat, lo: nat, hi: nat)
    requires Cut(st0, st1, n, lo, hi) && SamePtrs(st1, st2) && SameData(st1, st2)
    ensures Cut(st0, st2, n, lo, hi)
  {}

  /** The slots a truncation at word keep1 of level-1 block keep2 lets go of. */
  ghost function Trimmed(n: nat, keep2: nat, keep1: nat, whole: bool): set<Slot>
  {
    if whole then Kids(Dbl(n, keep2), keep1, NADDR) + {Dbl(n, keep2)} else Kids(Dbl(n, keep2), keep1, NADDR)
  }

  /** Writing back a single-level address block with words [keep, 256) cleared. */
  lemma TrimEffect(st: State, p: Slot, keep: nat, a: Block, unc: set<Slot>)
    requires Tree(st) && Counts(st, unc, multiset{}) && IsAddr(p) && p != Top(p.ino, DIND) && Ptr(st, p) != 0
    requires forall k :: 0 <= k < NADDR ==> a[k] == if k < keep then st.disk[Ptr(st, p)][k] else 0
    requires Kids(p, keep, NADDR) <= unc
    ensures var st' := st.(disk := st.disk[Ptr(st, p) := a]);
            && Tree(st') && Counts(st', unc, multiset{})
            && (forall t :: Ptr(st', t) == if t in Kids(p, keep, NADDR) then 0 else Ptr(st, t))
            && (forall t :: t !in Kids(p, keep, NADDR) && IsData(t) ==> Content(st', t) == Content(st, t))
  {
    hide Counts;
    var st' := st.(disk := st.disk[Ptr(st, p) := a]);
    ClearWords(st, p, a);
    forall t
      ensures Ptr(st', t) == if t in Kids(p, keep, NADDR) then 0 else Ptr(st, t)
    {
      if Cleared(p, a, t) && t !in Kids(p, keep, NADDR) {
        assert t == Kid(p, Index(t)) && Index(t) < keep;
        assert Ptr(st, t) == At(st, Ptr(st, p), Index(t));
      }
    }
    CountsAgree(st, st', unc, unc, multiset{});
  }

  /** Clearing words [keep, 256) of the block at a single-level address slot p. */
  lemma CutKids(st: State, st': State, p: Slot, keep: nat)
    requires IsAddr(p) && p != Top(p.ino, DIND) && keep <= NADDR && InRange(p.ino + 1, p)
    requires forall t :: IsData(t) ==> Ptr(st', t) == if t in Kids(p, keep, NADDR) then 0 else Ptr(st, t)
    requires forall t :: IsData(t) && t !in Kids(p, keep, NADDR) ==> Content(st', t) == Content(st, t)
    ensures Cut(st, st', p.ino, SpanStart(p) + keep, SpanEnd(p))
  {
    forall t | IsData(t)
      ensures t in Kids(p, keep, NADDR) <==> t.ino == p.ino && SpanStart(p) + keep <= BlockOf(t) < SpanEnd(p)
    {
      SpanMeaning(p, t);
    }
  }

  /** Where a truncation at (keep2, keep1) stands when only the double-indirect buffer `a` is
      left to be written: `a` clears exactly the pointers let go of, and what can still be
      read through it is the file from st0 without its blocks past the cut. */
  ghost predicate TruncGoal(st0: State, st: State, n: nat, keep2: nat, keep1: nat, a: Block, unc: set<Slot>)
    requires 0 < Ptr(st, Top(n, DIND)) < |st.disk|
  {
    var s := Top(n, DIND);
    var cut := NDIRECT + NADDR + NADDR * keep2 + keep1;
    && (forall k :: 0 <= k < NADDR ==> a[k] == 0 || a[k] == st.disk[Ptr(st, s)][k])
    && (forall t :: t in unc ==> Below(t, s) && (Cleared(s, a, t) || Ptr(st, t) == 0))
    && (forall t :: Cleared(s, a, t) ==> t in unc || Ptr(st, t) == 0)
    && (forall t :: IsData(t) ==>
          if t.ino == n && BlockOf(t) >= cut then Cleared(s, a, t) || Ptr(st, t) == 0
          else Ptr(st, t) == Ptr(st0, t) && Content(st, t) == Content(st0, t) && (Cleared(s, a, t) ==> Ptr(st, t) == 0))
  }

  /** What FreeLevelOne and TrimLevelOne leave behind. */
  ghost predicate TrimFacts(st0: State, st: State, n: nat, keep2: nat, keep1: nat, a: Block, unc: set<Slot>)
    requires 0 < Ptr(st, Top(n, DIND)) < |st.disk|
  {
    var kids := Kids(Dbl(n, keep2), keep1, NADDR);
    && (forall k :: 0 <= k < NADDR ==>
          if k > keep2 then a[k] == 0
          else a[k] == st.disk[Ptr(st, Top(n, DIND))][k] || (k == keep2 && a[k] == 0))
    && (unc == if keep2 < NADDR then LevelOne(n, keep2 + 1, NADDR) + Trimmed(n, keep2, keep1, a[keep2] == 0) else {})
    && (forall t :: t !in kids ==> Ptr(st, t) == Ptr(st0, t))
    && (forall t :: t !in kids && IsData(t) ==> Content(st, t) == Content(st0, t))
    && (keep2 < NADDR && a[keep2] != 0 ==> forall t :: t in kids ==> Ptr(st, t) == 0)
    && (keep2 < NADDR && a[keep2] == 0 ==> forall t :: t in Kids(Dbl(n, keep2), 0, keep1) ==> Ptr(st, t) == 0)
  }

  lemma TruncGoalHolds(st0: State, st: State, n: nat, keep2: nat, keep1: nat, a: Block, unc: set<Slot>)
    requires 0 < Ptr(st, Top(n, DIND)) < |st.disk| && keep1 < NADDR
    requires TrimFacts(st0, st, n, keep2, keep1, a, unc)
    ensures TruncGoal(st0, st, n, keep2, keep1, a, unc)
  {
    var s := Top(n, DIND);
    forall t
      ensures t in unc ==> Below(t, s) && (Cleared(s, a, t) || Ptr(st, t) == 0)
      ensures Cleared(s, a, t) ==> t in unc || Ptr(st, t) == 0
    {
      TruncGoalSlot(st0, st, n, keep2, keep1, a, unc, t);
    }
    forall t | IsData(t)
      ensures if t.ino == n && BlockOf(t) >= NDIRECT + NADDR + NADDR * keep2 + keep1
              then Cleared(s, a, t) || Ptr(st, t) == 0
              else
                && Ptr(st, t) == Ptr(st0, t) && Content(st, t) == Content(st0, t)
                && (Cleared(s, a, t) ==> Ptr(st, t) == 0)
    {
      TruncGoalData(st0, st, n, keep2, keep1, a, unc, t);
    }
  }

  lemma TruncGoalSlot(st0: State, st: State, n: nat, keep2: nat, keep1: nat, a: Block, unc: set<Slot>, t: Slot)
    requires 0 < Ptr(st, Top(n, DIND)) < |st.disk| && keep1 < NADDR
    requires TrimFacts(st0, st, n, keep2, keep1, a, unc)
    ensures t in unc ==> Below(t, Top(n, DIND)) && (Cleared(Top(n, DIND), a, t) || Ptr(st, t) == 0)
    ensures Cleared(Top(n, DIND), a, t) ==> t in unc || Ptr(st, t) == 0
  {
    if Cleared(Top(n, DIND), a, t) && t.i < keep2 {
      assert a[t.i] == 0 && Ptr(st, Dbl(n, t.i)) == 0;
    }
  }

  lemma TruncGoalData(st0: State, st: State, n: nat, keep2: nat, keep1: nat, a: Block, unc: set<Slot>, t: Slot)
    requires 0 < Ptr(st, Top(n, DIND)) < |st.disk| && keep1 < NADDR && IsData(t)
    requires TrimFacts(st0, st, n, keep2, keep1, a, unc)
    ensures if t.ino == n && BlockOf(t) >= NDIRECT + NADDR + NADDR * keep2 + keep1
            then Cleared(Top(n, DIND), a, t) || Ptr(st, t) == 0
            else
              && Ptr(st, t) == Ptr(st0, t) && Content(st, t) == Content(st0, t)
              && (Cleared(Top(n, DIND), a, t) ==> Ptr(st, t) == 0)
  {
    if t.Leaf? && t.ino == n {
      LeafPastCut(n, t.i, t.j, keep2, keep1);
      if t.i < keep2 && a[t.i] == 0 {
        assert Ptr(st, Dbl(n, t.i)) == 0;
      } else if t.i == keep2 && t.j < keep1 {
        assert a[keep2] == 0 ==> t in Kids(Dbl(n, keep2), 0, keep1);
      }
    }
  }

  lemma LeafPastCut(n: nat, i: nat, j: nat, keep2: nat, keep1: nat)
    requires i < NADDR && j < NADDR && keep1 < NADDR
    ensures NADDR * i + j >= NADDR * keep2 + keep1 <==> i > keep2 || (i == keep2 && j >= keep1)
  {}

  lemma LogDouble(st: State, n: nat, a: Block, unc: set<Slot>)
    requires Tree(st) && Counts(st, unc, multiset{}) && Ptr(st, Top(n, DIND)) != 0
    requires forall k :: 0 <= k < NADDR ==> a[k] == 0 || a[k] == st.disk[Ptr(st, Top(n, DIND))][k]
    requires forall t :: t in unc ==> Cleared(Top(n, DIND), a, t) || Ptr(st, t) == 0
    requires forall t :: Cleared(Top(n, DIND), a, t) ==> t in unc || Ptr(st, t) == 0
    ensures var st' := st.(disk := st.disk[Ptr(st, Top(n, DIND)) := a]);
            && Inv(st')
            && (forall t :: Ptr(st', t) == if Cleared(Top(n, DIND), a, t) then 0 else Ptr(st, t))
            && (forall t :: IsData(t) && !Cleared(Top(n, DIND), a, t) ==> Content(st', t) == Content(st, t))
  {
    hide Counts;
    ClearWords(st, Top(n, DIND), a);
    CountsAgree(st, st.(disk := st.disk[Ptr(st, Top(n, DIND)) := a]), unc, {}, multiset{});
  }

  lemma CutFromGoal(st0: State, st1: State, st2: State, n: nat, keep2: nat, keep1: nat, a: Block, unc: set<Slot>)
    requires 0 < Ptr(st1, Top(n, DIND)) < |st1.disk| && TruncGoal(st0, st1, n, keep2, keep1, a, unc)
    requires forall t :: IsData(t) ==> Ptr(st2, t) == if Cleared(Top(n, DIND), a, t) then 0 else Ptr(st1, t)
    requires forall t :: IsData(t) && !Cleared(Top(n, DIND), a, t) ==> Content(st2, t) == Content(st1, t)
    ensures Cut(st0, st2, n, NDIRECT + NADDR + NADDR * keep2 + keep1, MAXFILE)
  {
    forall t | IsData(t)
      ensures BlockOf(t) < MAXFILE
    {
      BlockOfBijection(t);
    }
  }

  lemma CutClamp(st: State, st': State, n: nat, nb: nat)
    requires Cut(st, st', n, nb, MAXFILE)
    ensures Cut(st, st', n, nb, Max(nb, MAXFILE))
  {
    forall t | IsData(t)
      ensures BlockOf(t) < MAXFILE
    {
      BlockOfBijection(t);
    }
  }

  lemma CutNarrow(st: State, n: nat, lo: nat, nb: nat)
    requires Cut(st, st, n, lo, MAXFILE) && lo <= nb
    ensures Cut(st, st, n, nb, Max(nb, MAXFILE))
  {
    forall t | IsData(t)
      ensures BlockOf(t) < MAXFILE
    {
      BlockOfBijection(t);
    }
  }

  lemma CutOneBlock(st: State, st': State, n: nat, bn: nat)
    requires bn < MAXFILE && Ptr(st', DataSlot(n, bn)) == 0
    requires SameDataPtrsBut(st, st', DataSlot(n, bn)) && SameDataBut(st, st', DataSlot(n, bn))
    ensures Cut(st, st', n, bn, bn + 1)
  {
    DataSlotBijection(n, bn);
    forall t | IsData(t)
      ensures t == DataSlot(n, bn) <==> t.ino == n && bn <= BlockOf(t) < bn + 1
    {
      BlockOfBijection(t);
    }
  }

  lemma CutPastEnd(st: State, n: nat, bn: nat)
    requires bn >= MAXFILE
    ensures Cut(st, st, n, bn, bn + 1)
  {
    forall t | IsData(t)
      ensures BlockOf(t) < MAXFILE
    {
      BlockOfBijection(t);
    }
  }

  /** The data slots below a single-level slot, by file block. */
  lemma SpanKid(p: Slot, b: nat)
    requires SingleLevel(p) && InRange(p.ino + 1, p) && b < MAXFILE
    ensures var t := DataSlot(p.ino, b);
            && IsData(t) && (t in Kids(p, 0, NADDR) <==> SpanStart(p) <= b < SpanStart(p) + NADDR)
            && (t in Kids(p, 0, NADDR) ==> t == Kid(p, b - SpanStart(p)))
  {
    DataSlotBijection(p.ino, b);
    SpanMeaning(p, DataSlot(p.ino, b));
  }

  lemma ViewCopied(st: State, st': State, q: Slot, p: Slot)
    requires SingleLevel(q) && SingleLevel(p) && q.Dbl? == p.Dbl? && q.ino != p.ino && (q.Dbl? ==> q.i == p.i)
    requires InRange(q.ino + 1, q) && InRange(p.ino + 1, p)
    requires forall t :: Ptr(st', t) == if t in Kids(p, 0, NADDR) then Ptr(st, Kid(q, Index(t))) else Ptr(st, t)
    requires forall t :: IsData(t) ==>
               Content(st', t) == Content(st, if t in Kids(p, 0, NADDR) then Kid(q, Index(t)) else t)
    ensures OthersView(st, st', p.ino)
    ensures View(st', p.ino) == Overlay(View(st, p.ino), SpanStart(p), View(st, q.ino), SpanStart(p), NADDR)
  {
    hide Content, Ptr;
    forall m: nat, b | 0 <= b < MAXFILE && m != p.ino
      ensures View(st', m)[b] == View(st, m)[b]
    {
      DataSlotBijection(m, b);
    }
    forall b | 0 <= b < MAXFILE
      ensures View(st', p.ino)[b] == Overlay(View(st, p.ino), SpanStart(p), View(st, q.ino), SpanStart(p), NADDR)[b]
    {
      SpanKid(p, b);
      SpanKid(q, b);
    }
  }

  /** Nothing to copy: the overlaid cells are holes already. */
  lemma ViewHoles(st: State, q: Slot, p: Slot)
    requires SingleLevel(q) && SingleLevel(p) && q.Dbl? == p.Dbl? && (q.Dbl? ==> q.i == p.i)
    requires InRange(q.ino + 1, q) && InRange(p.ino + 1, p) && Ptr(st, q) == 0 && Ptr(st, p) == 0
    ensures View(st, p.ino) == Overlay(View(st, p.ino), SpanStart(p), View(st, q.ino), SpanStart(p), NADDR)
  {
    forall b | SpanStart(p) <= b < SpanStart(p) + NADDR && b < MAXFILE
      ensures View(st, p.ino)[b] == Hole() && View(st, q.ino)[b] == Hole()
    {
      SpanKid(p, b);
      SpanKid(q, b);
      BelowNull(st, DataSlot(p.ino, b), p);
      BelowNull(st, DataSlot(q.ino, b), q);
    }
  }

  /** A block just allocated for address slot s has no entries. */
  lemma NewBlockEmpty(st: State, st': State, s: Slot)
    requires Tree(st') && IsAddr(s) && Ptr(st, s) == 0 && Ptr(st', s) != 0 && SamePtrsBut(st, st', s)
    ensures st'.disk[Ptr(st', s)] == ZeroBlock()
  {
    forall k | 0 <= k < NADDR
      ensures st'.disk[Ptr(st', s)][k] == 0
    {
      BelowNull(st, Kid(s, k), s);
      assert Ptr(st', Kid(s, k)) == 0;
      assert Ptr(st', Kid(s, k)) == At(st', Ptr(st', s), k);
    }
  }

  lemma OverlayJoin(to: seq<Cell>, at: nat, from: seq<Cell>, k: nat, m: nat)
    ensures Overlay(Overlay(to, at, from, at, k), at + k, from, at + k, m) == Overlay(to, at, from, at, k + m)
  {}

  lemma OverlayAll(to: seq<Cell>, from: seq<Cell>)
    requires |to| == |from| == MAXFILE
    ensures Overlay(to, 0, from, 0, MAXFILE) == from
  {}

  lemma ViewDoubleHoles(st: State, src: nat, dst: nat)
    requires Ptr(st, Top(src, DIND)) == 0 && Ptr(st, Top(dst, DIND)) == 0
    ensures View(st, dst) == Overlay(View(st, dst), NDIRECT + NADDR, View(st, src), NDIRECT + NADDR, NADDR * NADDR)
  {
    forall b | NDIRECT + NADDR <= b < MAXFILE
      ensures View(st, dst)[b] == Hole() && View(st, src)[b] == Hole()
    {
      DataSlotBijection(dst, b);
      BelowNull(st, DataSlot(dst, b), Top(dst, DIND));
      BelowNull(st, DataSlot(src, b), Top(src, DIND));
    }
  }

  /** dst has level-1 blocks, among the first k, where src has. */
  ghost predicate LevelOneCopied(st: State, st': State, src: nat, dst: nat, k: nat)
  {
    forall i :: 0 <= i < k ==> (Ptr(st', Dbl(dst, i)) != 0 <==> Ptr(st, Dbl(src, i)) != 0)
  }

  lemma LevelOneStep(st0: State, st1: State, st2: State, src: nat, dst: nat, i: nat)
    requires LevelOneCopied(st0, st1, src, dst, i) && (Ptr(st2, Dbl(dst, i)) != 0 <==> Ptr(st0, Dbl(src, i)) != 0)
    requires forall t :: t != Dbl(dst, i) && t !in Kids(Dbl(dst, i), 0, NADDR) ==> Ptr(st2, t) == Ptr(st1, t)
    ensures LevelOneCopied(st0, st2, src, dst, i + 1)
  {
    forall k | 0 <= k < i
      ensures Ptr(st2, Dbl(dst, k)) == Ptr(st1, Dbl(dst, k))
    {
    }
  }

  /** The first k level-1 blocks of dst are clones of the source's, and nothing else changed. */
  ghost predicate LevelProgress(st: State, st': State, src: nat, dst: nat, k: nat)
  {
    && LevelOneCopied(st, st', src, dst, k) && SamePtrsBelow(st, st', dst, k) && OthersView(st, st', dst)
    && View(st', dst) == Overlay(View(st, dst), NDIRECT + NADDR, View(st, src), NDIRECT + NADDR, NADDR * k)
  }

  /** Only slots at or below the first k level-1 blocks of dst differ. */
  ghost predicate SamePtrsBelow(st: State, st': State, dst: nat, k: nat)
  {
    forall t: Slot :: !(t.ino == dst && (t.Dbl? || t.Leaf?) && t.i < k) ==> Ptr(st', t) == Ptr(st, t)
  }

  lemma ProgressNone(st: State, src: nat, dst: nat)
    ensures LevelProgress(st, st, src, dst, 0)
  {
    hide View, Overlay;
    OverlayNone(View(st, dst), NDIRECT + NADDR, View(st, src), NDIRECT + NADDR);
  }

  /** The places of the next pair of level-1 pointers. */
  lemma ProgressPlace(st0: State, st: State, src: nat, dst: nat, i: nat)
    requires Tree(st0) && Tree(st) && LevelProgress(st0, st, src, dst, i) && i < NADDR
    requires Ptr(st0, Top(src, DIND)) != 0 && Ptr(st0, Top(dst, DIND)) != 0
    requires st0.disk[Ptr(st0, Top(dst, DIND))] == ZeroBlock()
    ensures Ptr(st, Top(dst, DIND)) == Ptr(st0, Top(dst, DIND)) && Ptr(st, Top(src, DIND)) == Ptr(st0, Top(src, DIND))
    ensures Ptr(st, Dbl(dst, i)) == 0 && Ptr(st, Dbl(src, i)) == st.disk[Ptr(st0, Top(src, DIND))][i]
    ensures Present(st, Dbl(dst, i)) && Holder(st, Dbl(dst, i)) == Ptr(st0, Top(dst, DIND))
  {
    hide View, Overlay, LevelOneCopied;
    assert Ptr(st, Dbl(dst, i)) == Ptr(st0, Dbl(dst, i));
  }

  lemma ProgressStep(st0: State, st1: State, st2: State, src: nat, dst: nat, i: nat)
    requires LevelProgress(st0, st1, src, dst, i) && src != dst && OthersView(st1, st2, dst)
    requires forall t :: t != Dbl(dst, i) && t !in Kids(Dbl(dst, i), 0, NADDR) ==> Ptr(st2, t) == Ptr(st1, t)
    requires Ptr(st2, Dbl(dst, i)) != 0 <==> Ptr(st1, Dbl(src, i)) != 0
    requires var at := SpanStart(Dbl(dst, i)); View(st2, dst) == Overlay(View(st1, dst), at, View(st1, src), at, NADDR)
    ensures LevelProgress(st0, st2, src, dst, i + 1)
  {
    hide View, Overlay, Ptr, LevelOneCopied;
    LevelOneStep(st0, st1, st2, src, dst, i);
    OverlayJoin(View(st0, dst), NDIRECT + NADDR, View(st0, src), NADDR * i, NADDR);
  }

  lemma ProgressDone(st: State, st': State, src: nat, dst: nat)
    requires LevelProgress(st, st', src, dst, NADDR)
    ensures OthersView(st, st', dst) && LevelOneCopied(st, st', src, dst, NADDR)
    ensures View(st', dst) == Overlay(View(st, dst), NDIRECT + NADDR, View(st, src), NDIRECT + NADDR, NADDR * NADDR)
    ensures forall t: Slot :: !(t.ino == dst && (t.Dbl? || t.Leaf?)) ==> Ptr(st', t) == Ptr(st, t)
  {
    hide View, Overlay, Ptr, LevelOneCopied;
  }

  lemma ProgressOthers(st0: State, st1: State, st2: State, src: nat, dst: nat, i: nat)
    requires LevelProgress(st0, st1, src, dst, i) && OthersView(st1, st2, dst)
    ensures OthersView(st0, st2, dst)
  {
    hide View, Overlay, LevelOneCopied;
  }

  /** dst has address blocks exactly where src has, and nobody else's slots changed. */
  ghost predicate ShapeCopied(st: State, st': State, src: nat, dst: nat)
  {
    && (forall t: Slot :: t.ino != dst ==> Ptr(st', t) == Ptr(st, t))
    && (Ptr(st', Top(dst, IND)) != 0 <==> Ptr(st, Top(src, IND)) != 0)
    && (Ptr(st', Top(dst, DIND)) != 0 <==> Ptr(st, Top(src, DIND)) != 0)
    && LevelOneCopied(st, st', src, dst, NADDR)
  }

  /** The three parts of a clone, put together. */
  lemma ShapeParts(st0: State, st1: State, st2: State, st3: State, src: nat, dst: nat)
    requires src != dst
    requires forall t: Slot :: !(t.Top? && t.ino == dst && t.i < NDIRECT) ==> Ptr(st1, t) == Ptr(st0, t)
    requires forall t: Slot :: t != Top(dst, IND) && t !in Kids(Top(dst, IND), 0, NADDR) ==> Ptr(st2, t) == Ptr(st1, t)
    requires Ptr(st2, Top(dst, IND)) != 0 <==> Ptr(st1, Top(src, IND)) != 0
    requires forall t: Slot :: !(t.ino == dst && (t == Top(dst, DIND) || t.Dbl? || t.Leaf?)) ==>
               Ptr(st3, t) == Ptr(st2, t)
    requires Ptr(st3, Top(dst, DIND)) != 0 <==> Ptr(st2, Top(src, DIND)) != 0
    requires LevelOneCopied(st2, st3, src, dst, NADDR)
    ensures ShapeCopied(st0, st3, src, dst)
  {
    forall i | 0 <= i < NADDR
      ensures Ptr(st2, Dbl(src, i)) == Ptr(st0, Dbl(src, i))
    {
    }
  }

  lemma ShapeSame(st0: State, st1: State, st2: State, src: nat, dst: nat)
    requires ShapeCopied(st0, st1, src, dst) && SamePtrs(st1, st2)
    ensures ShapeCopied(st0, st2, src, dst)
  {
  }

  ghost function Tops(n: nat, k: nat): (r: set<Slot>)
    ensures forall t: Slot :: t in r <==> t.Top? && t.ino == n && t.i < k
  {
    set i | 0 <= i < k :: Top(n, i)
  }

  /** The slots of one inode: its direct slots, the single-indirect and the double-indirect tree. */
  lemma LevelOneNext(n: nat, lo: nat, i: nat, k: nat)
    requires lo <= i && k == NADDR
    ensures LevelOne(n, lo, i + 1) == LevelOne(n, lo, i) + Kids(Dbl(n, i), 0, k) + {Dbl(n, i)}
    ensures LevelOne(n, lo, i) !! Kids(Dbl(n, i), 0, k) + {Dbl(n, i)}
    ensures i < k ==> LevelOne(n, lo, i + 1) <= LevelOne(n, lo, k)
  {
    hide LevelOne, Kids;
  }

  lemma InodeSlots(total: nat, n: nat)
    requires n < total
    ensures var unc := From(total, n) - Tops(n, NDIRECT);
            && {Top(n, IND)} + Kids(Top(n, IND), 0, NADDR) <= unc
            && var unc' := unc - {Top(n, IND)} - Kids(Top(n, IND), 0, NADDR);
               && {Top(n, DIND)} + LevelOne(n, 0, NADDR) <= unc'
               && unc' - {Top(n, DIND)} - LevelOne(n, 0, NADDR) == From(total, n + 1)
  {
    hide From, Tops, Kids, LevelOne;
    var unc' := From(total, n) - Tops(n, NDIRECT) - {Top(n, IND)} - Kids(Top(n, IND), 0, NADDR);
    forall t: Slot
      ensures t in unc' - {Top(n, DIND)} - LevelOne(n, 0, NADDR) <==> t in From(total, n + 1)
    {}
  }

  lemma TallyFreeInode(st: State, ref: seq<nat>, n: nat)
    requires Tree(st) && n < |st.inodes| && Tallied(st, ref, From(|st.inodes|, n))
    requires forall i :: 0 <= i < NTOP ==> st.inodes[n].addrs[i] == 0
    ensures Tallied(st, ref, From(|st.inodes|, n + 1))
  {
    hide Tallied;
    forall t: Slot | t.ino == n
      ensures Ptr(st, t) == 0
    {}
    TallyAgree(st, ref, From(|st.inodes|, n), From(|st.inodes|, n + 1));
  }

  lemma CutDirect(st: State, st': State, n: nat, i: nat)
    requires Cut(st, st', n, 0, MAXFILE) && i < NDIRECT
    ensures Ptr(st', Top(n, i)) == 0
  {
    assert IsData(Top(n, i)) && BlockOf(Top(n, i)) == i;
  }

  ghost predicate SameDataPtrs(st: State, st': State)
  {
    forall t :: IsData(t) ==> Ptr(st', t) == Ptr(st, t)
  }

  /** No data pointer but s differs. */
  ghost predicate SameDataPtrsBut(st: State, st': State, s: Slot)
  {
    forall t :: IsData(t) && t != s ==> Ptr(st', t) == Ptr(st, t)
  }

  ghost predicate SameInodesBut(a: seq<Inode>, b: seq<Inode>, n: nat)
  {
    |a| == |b| && forall k :: 0 <= k < |a| && k != n ==> b[k] == a[k]
  }

  /** Only the block addresses of inode n may differ. */
  ghost predicate OnlyAddrs(a: seq<Inode>, b: seq<Inode>, n: nat)
  {
    && SameInodesBut(a, b, n)
    && (n < |a| ==>
          b[n].typ == a[n].typ && b[n].mode == a[n].mode && b[n].size == a[n].size && |b[n].addrs| == |a[n].addrs|)
  }
}
