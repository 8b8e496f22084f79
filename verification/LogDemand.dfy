/** What a whole-file clone asks of the log. iclone takes one block for each address block of the
    source; balloc logs each of them and the bitmap block with its bit (kernel/filesystem/fs.c:118-126,
    247-252), and iupdate the inode's block. All this is in one operation (kernel/sysfile.c:337-378), so
    it has to fit the log at once. The condition is exact, and the allocator's state gives it beforehand. */
module LogDemand {
  import opened Basics
  import opened Counting
  import opened Layout
  import opened BlockMap
  import opened FileSystem
  import opened Transactions

  /** The address blocks of inode n, by the slots that point at them. */
  ghost function AddrUsed(st: BlockMap.State, n: nat): (r: set<Slot>)
    ensures forall t :: t in r <==> AddrSlot(n, t) && Ptr(st, t) != 0
  {
    set t | t in AddrSlots(n) && Ptr(st, t) != 0
  }

  predicate AddrSlot(n: nat, t: Slot)
  {
    t == Top(n, IND) || t == Top(n, DIND) || (t.Dbl? && t.ino == n && t.i < NADDR)
  }

  ghost function AddrSlots(n: nat): (r: set<Slot>)
    ensures forall t :: t in r <==> AddrSlot(n, t)
  {
    {Top(n, IND), Top(n, DIND)} + (set i | 0 <= i < NADDR :: Dbl(n, i))
  }

  /** The blocks taken on the way from st to st'. */
  ghost function Taken(st: BlockMap.State, st': BlockMap.State): (r: set<nat>)
    requires |st.bitmap| == |st'.bitmap|
    ensures forall b :: b in r <==> 0 <= b < |st.bitmap| && st'.bitmap[b] && !st.bitmap[b]
  {
    set b: nat | b < |st.bitmap| && st'.bitmap[b] && !st.bitmap[b]
  }

  /** A clone, as Iclone's contract has it. */
  ghost predicate Cloned(st: BlockMap.State, st': BlockMap.State, src: nat, dst: nat)
  {
    && BlockMap.Inv(st) && BlockMap.Inv(st') && src != dst
    && st'.dstart == st.dstart && |st'.disk| == |st.disk|
    && (forall t: Slot :: t.ino == dst ==> Ptr(st, t) == 0)
    && View(st', dst) == View(st, src) && ShapeCopied(st, st', src, dst)
  }

  /** A block that some slot points at. */
  lemma Pointed(st: BlockMap.State, b: nat) returns (t: Slot)
    requires BlockMap.Inv(st) && st.dstart <= b < |st.disk| && st.bitmap[b]
    ensures Ptr(st, t) == b && InRange(|st.inodes|, t)
  {
    assert |Refs(st, {}, b)| > 0;
    t :| t in Refs(st, {}, b);
  }

  /** A data slot of the clone points where the source's does. */
  lemma SharedPtr(st: BlockMap.State, st': BlockMap.State, src: nat, dst: nat, t: Slot)
    requires Cloned(st, st', src, dst) && t.ino == dst && IsData(t)
    ensures Ptr(st', t) == Ptr(st, DataSlot(src, BlockOf(t)))
  {
    hide Counts, View, Content;
    BlockOfBijection(t);
    ViewAt(st', dst, BlockOf(t));
    ViewAt(st, src, BlockOf(t));
  }

  /** Every block taken is an address block of the clone. */
  lemma TakenIsAddr(st: BlockMap.State, st': BlockMap.State, src: nat, dst: nat, b: nat) returns (t: Slot)
    requires Cloned(st, st', src, dst) && b in Taken(st, st')
    ensures t in AddrUsed(st', dst) && Ptr(st', t) == b
  {
    assert st.dstart <= b by { assert Counts(st, {}, multiset{}); }
    t := Pointed(st', b);
    FreeUnreferenced(st, {}, multiset{}, b, t);
    if IsData(t) && t.ino == dst {
      SharedPtr(st, st', src, dst, t);
      FreeUnreferenced(st, {}, multiset{}, b, DataSlot(src, BlockOf(t)));
      assert false;
    }
  }

  lemma NotElsewhere(st: BlockMap.State, t: Slot, u: Slot)
    requires Tree(st) && IsAddr(t) && Ptr(st, t) != 0 && u != t
    ensures Ptr(st, u) != Ptr(st, t)
  {
    assert Apart(st, t, u);
  }

  /** And every address block of the clone was free before. */
  lemma AddrIsTaken(st: BlockMap.State, st': BlockMap.State, src: nat, dst: nat, t: Slot)
    requires Cloned(st, st', src, dst) && t in AddrUsed(st', dst)
    ensures Ptr(st', t) in Taken(st, st')
  {
    var b := Ptr(st', t);
    CountedPositive(st', {}, multiset{}, t);
    if st.bitmap[b] {
      var u := Pointed(st, b);
      NotElsewhere(st', t, u);
      assert false;
    }
  }

  /** The slot of inode n where t is another's. */
  function Twin(t: Slot, n: nat): Slot
  {
    match t
    case Top(_, i) => Top(n, i)
    case Ind(_, j) => Ind(n, j)
    case Dbl(_, i) => Dbl(n, i)
    case Leaf(_, i, j) => Leaf(n, i, j)
  }

  lemma SameNumber(st: BlockMap.State, st': BlockMap.State, src: nat, dst: nat)
    requires Cloned(st, st', src, dst)
    ensures |AddrUsed(st', dst)| == |AddrUsed(st, src)|
  {
    hide Counts, View;
    forall t | t in AddrUsed(st', dst)
      ensures Twin(Twin(t, src), dst) == t && Twin(t, src) in AddrUsed(st, src)
    {
      assert t.Dbl? ==> Ptr(st', Dbl(dst, t.i)) != 0;
    }
    forall t | t in AddrUsed(st, src)
      ensures Twin(t, dst) in AddrUsed(st', dst)
    {
      assert t.Dbl? ==> Ptr(st, Dbl(src, t.i)) != 0;
    }
    ImageSize(AddrUsed(st, src), (t: Slot) => Twin(t, dst), AddrUsed(st', dst));
  }

  /** A clone takes exactly one block for each address block of its source. */
  lemma CloneTakes(st: BlockMap.State, st': BlockMap.State, src: nat, dst: nat)
    requires Cloned(st, st', src, dst)
    ensures |Taken(st, st')| == |AddrUsed(st, src)|
  {
    hide Counts, View;
    SameNumber(st, st', src, dst);
    forall t | t in AddrUsed(st', dst)
      ensures Ptr(st', t) in Taken(st, st')
    {
      AddrIsTaken(st, st', src, dst, t);
    }
    forall b | b in Taken(st, st')
      ensures exists t :: t in AddrUsed(st', dst) && Ptr(st', t) == b
    {
      var t := TakenIsAddr(st, st', src, dst, b);
    }
    forall s, t | s in AddrUsed(st', dst) && t in AddrUsed(st', dst) && Ptr(st', s) == Ptr(st', t)
      ensures s == t
    {
      assert Apart(st', s, t);
    }
    ImageSize(AddrUsed(st', dst), (t: Slot) => Ptr(st', t), Taken(st, st'));
  }

  // ---------------------------------------------------------------- the blocks the clone takes

  /** What balloc takes was free and is marked, each block once. */
  lemma {:induction false} PickedFresh(bits: seq<bool>, hint: nat, blocks: seq<nat>)
    requires Picked(bits, hint, blocks)
    ensures NoDup(blocks) && |Marked(bits, blocks)| == |bits|
    ensures forall b :: b in blocks ==> b < |bits| && !bits[b]
    ensures forall b :: 0 <= b < |bits| ==> (Marked(bits, blocks)[b] <==> bits[b] || b in blocks)
    decreases |blocks|
  {
    hide FirstClear;
    if blocks != [] {
      PickedFresh(bits[blocks[0] := true], blocks[0] + 1, blocks[1..]);
      assert blocks == [blocks[0]] + blocks[1..];
      assert forall i :: 0 < i < |blocks| ==> blocks[i] == blocks[1..][i - 1] && blocks[i] in blocks[1..];
    }
  }

  /** balloc has no choice: the number of blocks says which. */
  lemma {:induction false} PickedUnique(bits: seq<bool>, hint: nat, a: seq<nat>, b: seq<nat>)
    requires Picked(bits, hint, a) && Picked(bits, hint, b) && |a| == |b|
    ensures a == b
    decreases |a|
  {
    hide NextFree;
    if a != [] {
      PickedUnique(bits[a[0] := true], a[0] + 1, a[1..], b[1..]);
      assert a == [a[0]] + a[1..] && b == [b[0]] + b[1..];
    }
  }

  /** A whole-file clone, with the books before and after it. */
  ghost predicate CloneBooked(st: BlockMap.State, st': BlockMap.State, l: Ledger, l': Ledger, src: nat, dst: nat)
  {
    && Cloned(st, st', src, dst) && CloneLogs(l, l', dst) && l.logged <= l'.logged
    && l.bitmap == st.bitmap && l'.bitmap == st'.bitmap
  }

  /** The clone takes as many blocks as the source has address blocks, and the state before it
      says which they are; these and their bits are logged, and last the inode. */
  lemma CloneLogged(st: BlockMap.State, st': BlockMap.State, l: Ledger, l': Ledger, src: nat, dst: nat,
                    blocks: seq<nat>)
    requires CloneBooked(st, st', l, l', src, dst)
    requires Picked(st.bitmap, l.hint, blocks) && |blocks| == |AddrUsed(st, src)|
    ensures Elems(blocks) == Taken(st, st')
    ensures var w := l'.logged[|l.logged|..];
            w != [] && w[|w| - 1] == Inodes(dst / IPB) && Sites(w[..|w| - 1]) == Logs(blocks)
  {
    hide Counts, View, Picked, Marked, Logs, Sites;
    var n := |l'.logged| - 1;
    var mid := l'.(logged := l'.logged[..n]);
    var taken :| Took(l, mid, taken);
    PickedFresh(st.bitmap, l.hint, taken);
    assert Elems(taken) == Taken(st, st');
    CloneTakes(st, st', src, dst);
    ElemsSize(taken);
    PickedUnique(st.bitmap, l.hint, taken, blocks);
    var w := l'.logged[|l.logged|..];
    assert w[..|w| - 1] == mid.logged[|l.logged|..];
  }

  /** Enough blocks are free, or the clone has not succeeded. */
  lemma CloneFoundBlocks(st: BlockMap.State, st': BlockMap.State, l: Ledger, l': Ledger, src: nat, dst: nat)
    returns (blocks: seq<nat>)
    requires CloneBooked(st, st', l, l', src, dst)
    ensures Picked(st.bitmap, l.hint, blocks) && |blocks| == |AddrUsed(st, src)|
  {
    hide Counts, View, Picked, Marked, Logs, Sites;
    var mid := l'.(logged := l'.logged[..|l'.logged| - 1]);
    blocks :| Took(l, mid, blocks);
    PickedFresh(st.bitmap, l.hint, blocks);
    assert Elems(blocks) == Taken(st, st');
    CloneTakes(st, st', src, dst);
    ElemsSize(blocks);
  }

  // ---------------------------------------------------------------- block numbers

  /** Where the inode table and the bitmap begin (struct superblock). */
  datatype Areas = Areas(inodestart: nat, bmapstart: nat)

  /** IBLOCK and BBLOCK. */
  function BlockNo(a: Areas, x: Site): nat
  {
    match x
    case Data(b) => b
    case Bits(i) => a.bmapstart + i
    case Inodes(i) => a.inodestart + i
  }

  function Numbers(a: Areas, w: seq<Site>): seq<nat>
  {
    seq(|w|, i requires 0 <= i < |w| => BlockNo(a, w[i]))
  }

  /** The layout of mkfs: the inode table, then the bitmap, then the data blocks. */
  predicate LaidOut(a: Areas, st: BlockMap.State)
  {
    a.inodestart + |st.inodes| / IPB < a.bmapstart && a.bmapstart + |st.bitmap| / BPB < st.dstart
  }

  /** The bitmap blocks with the bits of these blocks. */
  ghost function BitBlocks(blocks: seq<nat>): set<nat>
  {
    set b | b in blocks :: BitBlock(b)
  }

  /** Different sites have different numbers: one for each block, one for each bitmap block. */
  lemma SitesCount(a: Areas, st: BlockMap.State, blocks: seq<nat>)
    requires LaidOut(a, st) && NoDup(blocks) && forall b :: b in blocks ==> st.dstart <= b < |st.bitmap|
    ensures |LogNumbers(a, blocks)| == |blocks| + |BitBlocks(blocks)|
    ensures forall x :: x in LogNumbers(a, blocks) ==> x >= a.bmapstart
  {
    hide BitBlock, Logs, LogNumbers;
    var bits := BitNumbers(a, blocks);
    BitNumbersSize(a, blocks);
    ElemsSize(blocks);
    LogNumbersAre(a, blocks);
    forall x | x in bits
      ensures a.bmapstart <= x < st.dstart
    {
      var b :| b in blocks && x == a.bmapstart + BitBlock(b);
      BitBelow(b, |st.bitmap|);
    }
    assert Elems(blocks) !! bits;
  }

  lemma BitNumbersSize(a: Areas, blocks: seq<nat>)
    ensures |BitNumbers(a, blocks)| == |BitBlocks(blocks)|
  {
    hide BitBlocks;
    ImageSize(BitBlocks(blocks), (i: nat) => a.bmapstart + i, BitNumbers(a, blocks));
  }

  lemma BitBelow(b: nat, n: nat)
    requires b < n
    ensures BitBlock(b) <= n / BPB
  {}

  /** The numbers of what is logged for these blocks. */
  ghost function LogNumbers(a: Areas, blocks: seq<nat>): set<nat>
  {
    set x | x in Logs(blocks) :: BlockNo(a, x)
  }

  ghost function BitNumbers(a: Areas, blocks: seq<nat>): set<nat>
  {
    set i | i in BitBlocks(blocks) :: a.bmapstart + i
  }

  lemma LogNumbersAre(a: Areas, blocks: seq<nat>)
    ensures LogNumbers(a, blocks) == Elems(blocks) + BitNumbers(a, blocks)
  {
    hide BitBlock;
    var bits := BitNumbers(a, blocks);
    forall x | x in Logs(blocks)
      ensures BlockNo(a, x) in Elems(blocks) + bits
    {
      if x.Bits? {
        var b :| b in blocks && x == Bits(BitBlock(b));
        assert BitBlock(b) in BitBlocks(blocks);
      }
    }
    forall n | n in Elems(blocks)
      ensures n in LogNumbers(a, blocks)
    {
      assert Data(n) in Logs(blocks);
    }
    forall n | n in bits
      ensures n in LogNumbers(a, blocks)
    {
      var b :| b in blocks && n == a.bmapstart + BitBlock(b);
      assert Bits(BitBlock(b)) in Logs(blocks);
    }
  }

  lemma NumbersAre(a: Areas, blocks: seq<nat>, w: seq<Site>)
    requires Sites(w) == Logs(blocks)
    ensures Elems(Numbers(a, w)) == LogNumbers(a, blocks)
  {
    hide Logs;
    var nos := Numbers(a, w);
    forall x | x in Logs(blocks)
      ensures BlockNo(a, x) in nos
    {
      assert x in Sites(w);
      var i :| 0 <= i < |w| && w[i] == x;
      assert nos[i] == BlockNo(a, x);
    }
    forall n | n in nos
      ensures n in LogNumbers(a, blocks)
    {
      var i :| 0 <= i < |nos| && nos[i] == n;
      assert w[i] in Sites(w);
    }
  }

  // ---------------------------------------------------------------- when a clone fits

  /** The log_write calls of iclone go through exactly when the list it finds, with a block for
      each address block of the source and the bitmap blocks of these, stays below the capacity.
      Which blocks these are the allocator's state before the call says. */
  lemma CloneFits(st: BlockMap.State, st': BlockMap.State, l: Ledger, l': Ledger, src: nat, dst: nat, blocks: seq<nat>,
                  a: Areas, s: Transactions.State, op: nat, m: nat, size: int)
    requires CloneBooked(st, st', l, l', src, dst)
    requires Picked(st.bitmap, l.hint, blocks) && |blocks| == |AddrUsed(st, src)|
    requires Running(s, op) && NoDup(s.blocks)
    requires |s.ops[op].logged + Elems(Numbers(a, l'.logged[|l.logged|..]))| <= m
    ensures var calls := LogCalls(op, Numbers(a, l'.logged[|l.logged|..]));
            && Possible(s, calls, m)
            && (Calm(s, calls, m, size) <==> |Elems(s.blocks) + LogNumbers(a, blocks)| < Capacity(size))
    ensures LaidOut(a, st) ==> |LogNumbers(a, blocks)| == |AddrUsed(st, src)| + |BitBlocks(blocks)|
  {
    hide Counts, View, Picked, Calm, Possible, Logs, Elems, BitBlocks, CloneLogs, Cloned;
    CloneLogged(st, st', l, l', src, dst, blocks);
    var w := l'.logged[|l.logged|..];
    var nos := Numbers(a, w);
    CallsCalm(s, op, nos, m, size);
    assert nos[..|nos| - 1] == Numbers(a, w[..|w| - 1]);
    NumbersAre(a, blocks, w[..|w| - 1]);
    if LaidOut(a, st) {
      PickedData(st, st', src, dst, l.hint, blocks);
      SitesCount(a, st, blocks);
    }
  }

  lemma PickedData(st: BlockMap.State, st': BlockMap.State, src: nat, dst: nat, hint: nat, blocks: seq<nat>)
    requires Cloned(st, st', src, dst) && Picked(st.bitmap, hint, blocks)
    ensures NoDup(blocks) && forall b :: b in blocks ==> st.dstart <= b < |st.bitmap|
  {
    hide Picked, View, ShapeCopied;
    PickedFresh(st.bitmap, hint, blocks);
  }

  /** For a clone alone in the log: one block for each address block, and their bitmap blocks. */
  lemma CloneFitsAlone(st: BlockMap.State, st': BlockMap.State, l: Ledger, l': Ledger, src: nat, dst: nat,
                       blocks: seq<nat>, a: Areas, m: nat, size: int)
    requires CloneBooked(st, st', l, l', src, dst) && LaidOut(a, st)
    requires Picked(st.bitmap, l.hint, blocks) && |blocks| == |AddrUsed(st, src)|
    requires |Elems(Numbers(a, l'.logged[|l.logged|..]))| <= m
    ensures var s := Transactions.Apply(Boot(), Begin);
            var calls := LogCalls(0, Numbers(a, l'.logged[|l.logged|..]));
            && Possible(s, calls, m)
            && (Calm(s, calls, m, size) <==> |AddrUsed(st, src)| + |BitBlocks(blocks)| < Capacity(size))
  {
    hide Cloned, CloneLogs, Picked, Calm, Possible, BitBlocks, LogNumbers, LaidOut;
    var s := Transactions.Apply(Boot(), Begin);
    var nos := Elems(Numbers(a, l'.logged[|l.logged|..]));
    assert s.ops[0].logged + nos == nos;
    CloneFits(st, st', l, l', src, dst, blocks, a, s, 0, m, size);
    assert Elems(s.blocks) + LogNumbers(a, blocks) == LogNumbers(a, blocks);
  }

  /** Whatever blocks are free, twice the address blocks suffice, and no more than that and the
      whole bitmap are needed. */
  lemma BitBlocksFew(bits: seq<bool>, hint: nat, blocks: seq<nat>)
    requires Picked(bits, hint, blocks)
    ensures |BitBlocks(blocks)| <= |blocks| && |BitBlocks(blocks)| <= |bits| / BPB + 1
    ensures blocks != [] ==> |BitBlocks(blocks)| >= 1
  {
    hide Picked, BitBlock, Marked;
    PickedFresh(bits, hint, blocks);
    ElemsSize(blocks);
    assert BitBlocks(blocks) == set b | b in Elems(blocks) :: BitBlock(b);
    QuotientsFew(Elems(blocks), BitBlocks(blocks));
    var all := Counting.Below(|bits| / BPB + 1);
    forall b | b in blocks
      ensures BitBlock(b) in all
    {
      BitBelow(b, |bits|);
    }
    assert BitBlocks(blocks) <= all;
    assert all == BitBlocks(blocks) + (all - BitBlocks(blocks));
    if blocks != [] {
      assert BitBlock(blocks[0]) in BitBlocks(blocks);
    }
  }

  lemma {:induction false} QuotientsFew(xs: set<nat>, qs: set<nat>)
    requires qs == set x | x in xs :: BitBlock(x)
    ensures |qs| <= |xs|
    decreases |xs|
  {
    hide BitBlock;
    if xs != {} {
      var x :| x in xs;
      var rest := set y | y in xs - {x} :: BitBlock(y);
      QuotientsFew(xs - {x}, rest);
      assert qs == rest + {BitBlock(x)};
    } else {
      assert qs == {};
    }
  }

  /** What a caller can see beforehand: with k address blocks, k + min(k, bitmap blocks) below the
      capacity is enough, and k + 1 at the capacity is too much. */
  lemma CloneForesight(st: BlockMap.State, st': BlockMap.State, l: Ledger, l': Ledger, src: nat, dst: nat,
                       a: Areas, m: nat, size: int)
    requires CloneBooked(st, st', l, l', src, dst) && LaidOut(a, st)
    requires |Elems(Numbers(a, l'.logged[|l.logged|..]))| <= m
    ensures var s := Transactions.Apply(Boot(), Begin);
            var calls := LogCalls(0, Numbers(a, l'.logged[|l.logged|..]));
            var k := |AddrUsed(st, src)|;
            && Possible(s, calls, m)
            && (k + Min(k, |st.bitmap| / BPB + 1) < Capacity(size) ==> Calm(s, calls, m, size))
            && (k > 0 && k + 1 >= Capacity(size) ==> !Calm(s, calls, m, size))
  {
    hide Cloned, CloneLogs, Picked, Calm, Possible, BitBlocks, LaidOut, Elems;
    var blocks := CloneFoundBlocks(st, st', l, l', src, dst);
    BitBlocksFew(st.bitmap, l.hint, blocks);
    CloneFitsAlone(st, st', l, l', src, dst, blocks, a, m, size);
  }

  /** And in any run, whatever else goes on: an operation that logs what the clone logs, with as
      many address blocks and bitmap blocks as the log's capacity, makes it panic. */
  lemma CloneTooLarge(st: BlockMap.State, st': BlockMap.State, l: Ledger, l': Ledger, src: nat, dst: nat,
                      blocks: seq<nat>, a: Areas, events: seq<Event>, m: nat, op: nat, size: int)
    requires CloneBooked(st, st', l, l', src, dst) && LaidOut(a, st) && dst < |st.inodes|
    requires Picked(st.bitmap, l.hint, blocks) && |blocks| == |AddrUsed(st, src)|
    requires |AddrUsed(st, src)| + |BitBlocks(blocks)| >= Capacity(size)
    requires Possible(Boot(), events, m) && Running(After(Boot(), events, m), op)
    requires Elems(Numbers(a, l'.logged[|l.logged|..])) <= After(Boot(), events, m).ops[op].logged
    ensures !Calm(Boot(), events, m, size)
  {
    hide Possible, After, Calm, Picked, Logs, BitBlocks, CloneLogs, Cloned, LogNumbers, Elems;
    CloneLogged(st, st', l, l', src, dst, blocks);
    PickedData(st, st', src, dst, l.hint, blocks);
    SitesCount(a, st, blocks);
    var w := l'.logged[|l.logged|..];
    NumbersAre(a, blocks, w[..|w| - 1]);
    NumbersLast(a, w);
    var logged, inode := After(Boot(), events, m).ops[op].logged, a.inodestart + dst / IPB;
    var least := LogNumbers(a, blocks) + {inode};
    assert inode !in LogNumbers(a, blocks);
    assert logged == least + (logged - least);
    OperationTooLarge(events, m, size, op);
  }

  lemma NumbersLast(a: Areas, w: seq<Site>)
    requires w != []
    ensures Elems(Numbers(a, w)) == Elems(Numbers(a, w[..|w| - 1])) + {BlockNo(a, w[|w| - 1])}
  {
    assert Numbers(a, w) == Numbers(a, w[..|w| - 1]) + [BlockNo(a, w[|w| - 1])];
  }

  /** iclone into a fresh inode, with what it takes and logs. */
  method CloneCounted(f: FileSys, src: nat, dst: nat) returns (r: Option<int>)
    requires f.Consistent() && f.InUse(src) && f.InUse(dst) && src != dst && f.Fresh(dst)
    modifies f
    ensures r == Some(0) ==>
              && |f.bitmap| == |old(f.bitmap)| && CloneBooked(old(f.St()), f.St(), old(f.Books()), f.Books(), src, dst)
              && |Taken(old(f.St()), f.St())| == |AddrUsed(old(f.St()), src)|
    ensures r.None? ==> f.Exhausted() && Takes(old(f.Books()), f.Books(), NADDR + 2)
    ensures r.Some? ==>
              r.value == if old(f.inodes)[src].typ != T_FILE || old(f.inodes)[dst].typ != T_FILE then -1 else 0
  {
    hide Counts, View, OthersView, MetaIs, Took;
    ghost var st := f.St();
    EmptyInode(st, dst);
    r := f.Iclone(src, dst);
    if r == Some(0) {
      CloneTakes(st, f.St(), src, dst);
      LogsGrow(old(f.Books()), f.Books(), dst);
    }
  }

  lemma LogsGrow(l: Ledger, l': Ledger, dst: nat)
    requires CloneLogs(l, l', dst)
    ensures l.logged <= l'.logged
  {
    hide Picked, Marked, Logs;
  }

  lemma EmptyInode(st: BlockMap.State, n: nat)
    requires Tree(st) && n < |st.inodes| && forall i :: 0 <= i < |st.inodes[n].addrs| ==> st.inodes[n].addrs[i] == 0
    ensures forall t: Slot :: t.ino == n ==> Ptr(st, t) == 0
  {
  }

  // ---------------------------------------------------------------- a source that is too large

  function NoAddrs(): (r: seq<nat>)
    ensures |r| == NTOP && forall i :: 0 <= i < NTOP ==> r[i] == 0
  {
    seq(NTOP, _ => 0)
  }

  /** Block b of a disk whose data area begins with a double-indirect block, its k level-1
      blocks, and one data block below each of these. */
  function BigBlock(d: nat, k: nat, b: nat): (r: Block)
    requires d + 1 + 2 * k < UINT_LIMIT && k <= NADDR
    ensures b == d ==> forall i :: 0 <= i < NADDR ==> r[i] == if i < k then d + 1 + i else 0
    ensures d < b <= d + k ==> forall j :: 0 <= j < NADDR ==> r[j] == if j == 0 then b + k else 0
  {
    if b == d then seq(256, i requires 0 <= i => if i < k then d + 1 + i else 0)
    else if d < b <= d + k then seq(256, j requires 0 <= j => if j == 0 then b + k else 0)
    else ZeroBlock()
  }

  /** Inode 1 is that file, inode 2 an empty one. */
  function BigFile(d: nat, k: nat, size: nat): BlockMap.State
    requires 0 < d && 0 < k <= NADDR && d + 1 + 2 * k <= size < UINT_LIMIT
  {
    var bytes := (NDIRECT + NADDR * k + 1) * BSIZE;
    BlockMap.State(d,
                   seq(size, b requires 0 <= b => BigBlock(d, k, b)),
                   [Inode(0, 0, 0, NoAddrs()), Inode(T_FILE, 3, bytes, NoAddrs()[DIND := d]),
                     Inode(T_FILE, 3, 0, NoAddrs())],
                   seq(size, b => if d <= b < d + 1 + 2 * k then 1 else 0),
                   seq(size, b => b < d + 1 + 2 * k))
  }

  /** The slot that points at block b. */
  function SlotFor(d: nat, k: nat, b: nat): Slot
    requires d <= b < d + 1 + 2 * k
  {
    if b == d then Top(1, DIND) else if b <= d + k then Dbl(1, b - d - 1) else Leaf(1, b - d - 1 - k, 0)
  }

  function Expected(d: nat, k: nat, t: Slot): nat
  {
    match t
    case Top(n, i) => if n == 1 && i == DIND then d else 0
    case Ind(_, _) => 0
    case Dbl(n, i) => if n == 1 && i < k then d + 1 + i else 0
    case Leaf(n, i, j) => if n == 1 && i < k && j == 0 then d + 1 + k + i else 0
  }

  lemma BigPtr(d: nat, k: nat, size: nat, t: Slot)
    requires 0 < d && 0 < k <= NADDR && d + 1 + 2 * k <= size < UINT_LIMIT
    ensures Ptr(BigFile(d, k, size), t) == Expected(d, k, t)
  {
    hide BigBlock;
    var st := BigFile(d, k, size);
    assert TopPtr(st, 1, DIND) == d && forall i :: i != DIND ==> TopPtr(st, 1, i) == 0;
    assert forall n, i :: n != 1 ==> TopPtr(st, n, i) == 0;
    assert st.disk[d] == BigBlock(d, k, d);
    if t.Leaf? && t.ino == 1 && t.i < k {
      assert At(st, d, t.i) == d + 1 + t.i;
      assert st.disk[d + 1 + t.i] == BigBlock(d, k, d + 1 + t.i);
    }
  }

  lemma BigTree(d: nat, k: nat, size: nat)
    requires 0 < d && 0 < k <= NADDR && d + 1 + 2 * k <= size < UINT_LIMIT
    ensures Tree(BigFile(d, k, size))
  {
    hide Ptr;
    var st := BigFile(d, k, size);
    forall t
      ensures Ptr(st, t) == Expected(d, k, t)
    {
      BigPtr(d, k, size, t);
    }
    forall s, t
      ensures Apart(st, s, t)
    {}
  }

  lemma BigCounts(d: nat, k: nat, size: nat)
    requires 0 < d && 0 < k <= NADDR && d + 1 + 2 * k <= size < UINT_LIMIT
    ensures BlockMap.Inv(BigFile(d, k, size))
  {
    hide Ptr;
    var st := BigFile(d, k, size);
    BigTree(d, k, size);
    forall t
      ensures Ptr(st, t) == Expected(d, k, t)
    {
      BigPtr(d, k, size, t);
    }
    forall b | 0 < b < size
      ensures st.ref[b] == |Refs(st, {}, b)|
    {
      if d <= b < d + 1 + 2 * k {
        assert Refs(st, {}, b) == {SlotFor(d, k, b)};
      } else {
        assert Refs(st, {}, b) == {};
      }
    }
  }

  ghost function LevelOnes(k: nat): (r: set<Slot>)
    ensures |r| == k && forall t :: t in r <==> t.Dbl? && t.ino == 1 && t.i < k
  {
    if k == 0 then {} else LevelOnes(k - 1) + {Dbl(1, k - 1)}
  }

  /** It has one address block more than level-1 blocks. */
  lemma BigAddrs(d: nat, k: nat, size: nat)
    requires 0 < d && 0 < k <= NADDR && d + 1 + 2 * k <= size < UINT_LIMIT
    ensures |AddrUsed(BigFile(d, k, size), 1)| == k + 1
  {
    hide Ptr, BigFile, AddrUsed, LevelOnes;
    var st := BigFile(d, k, size);
    forall t
      ensures t in AddrUsed(st, 1) <==> t in LevelOnes(k) + {Top(1, DIND)}
    {
      BigPtr(d, k, size, t);
    }
    assert AddrUsed(st, 1) == LevelOnes(k) + {Top(1, DIND)};
  }

  lemma BigConsistent(d: nat)
    requires 0 < d < 7000
    ensures var st := BigFile(d, LOGSIZE - 1, 8192);
            && BlockMap.Inv(st) && |AddrUsed(st, 1)| == LOGSIZE && FreeInodesEmpty(st.inodes)
            && (forall i :: 0 <= i < NTOP ==> st.inodes[2].addrs[i] == 0)
            && (forall b :: 7100 <= b < 8192 ==> !st.bitmap[b])
  {
    BigCounts(d, LOGSIZE - 1, 8192);
    BigAddrs(d, LOGSIZE - 1, 8192);
  }

  lemma {:induction false} ElemsFew(w: seq<nat>)
    ensures |Elems(w)| <= |w|
  {
    if w != [] {
      ElemsFew(w[1..]);
      ElemsHead(w);
    } else {
      assert Elems(w) == {};
    }
  }

  lemma OneMissing(blocks: seq<nat>, lo: nat, n: nat) returns (b: nat)
    requires |blocks| <= n
    ensures lo <= b <= lo + n && b !in blocks
  {
    hide Counting.Below;
    var low, all, es := Counting.Below(lo), Counting.Below(lo + n + 1), Elems(blocks);
    assert all == low + (all - low);
    var tail := all - low;
    ElemsFew(blocks);
    assert tail == (tail * es) + (tail - es) && es == (tail * es) + (es - tail);
    b :| b in tail - es;
  }

  /** Taking n blocks does not fill a disk with more than n free. */
  lemma NotFilled(l: Ledger, l': Ledger, n: nat, lo: nat)
    requires Takes(l, l', n) && lo + n < |l.bitmap| && forall b :: lo <= b < |l.bitmap| ==> !l.bitmap[b]
    ensures |l'.bitmap| == |l.bitmap| && exists b :: 0 <= b < |l'.bitmap| && !l'.bitmap[b]
  {
    hide Picked, Marked, Logs, Sites;
    var blocks :| Took(l, l', blocks) && |blocks| <= n;
    PickedFresh(l.bitmap, l.hint, blocks);
    var b := OneMissing(blocks, lo, n);
    assert !l'.bitmap[b];
  }

  /** A file that cannot be cloned, in a consistent file system with room on the disk: the block
      map is copied, but one of the log_write calls of iclone, alone in the log, panics, whatever
      the size of the log area. */
  method TooLargeToClone(f: FileSys, ghost d: nat, ghost a: Areas, ghost size: int) returns (r: Option<int>)
    requires 0 < d < 7000 && f.St() == BigFile(d, LOGSIZE - 1, 8192) && f.dinodes == f.inodes && LaidOut(a, f.St())
    modifies f
    ensures r == Some(0) && old(f.logged) <= f.logged
    ensures var w := Numbers(a, f.logged[|old(f.logged)|..]);
            var s := Transactions.Apply(Boot(), Begin);
            Possible(s, LogCalls(0, w), |w|) && !Calm(s, LogCalls(0, w), |w|, size)
  {
    hide Counts, Tree, View, Took, Picked, Calm, Possible, LaidOut, Elems, Takes, CloneLogs, AddrUsed, Mapped,
         ShapeCopied, OthersView, MetaIs, BigBlock;
    ghost var st, l := f.St(), f.Books();
    BigConsistent(d);
    r := CloneCounted(f, 1, 2);
    if r.None? {
      NotFilled(l, f.Books(), NADDR + 2, 7100);
      assert false;
    }
    ghost var w := Numbers(a, f.logged[|l.logged|..]);
    ElemsFew(w);
    CloneForesight(st, f.St(), l, f.Books(), 1, 2, a, |w|, size);
  }
}
