/** Copy-on-write files refine independent byte arrays.

    The specification state is one plain byte array per inode: no blocks, no sharing, no
    counts.  `Step` runs one operation of the file layer and `Run` any list of them; both
    are proved to do to the arrays what `Apply` and `ApplyAll` say, and to keep the
    invariant of the shared structure.  An operation that a system call would refuse before
    reaching the file layer is a no-op on both sides. */
module FileArrays {
  import opened Basics
  import opened Layout
  import opened BlockMap
  import opened FileSystem

  const CAPACITY := 67382272          // MAXFILE * BSIZE

  /** A file as its readers see it.  The array extends past the size: bytes beyond the end
      of file come back when the file grows again. */
  datatype File = File(meta: MetaData, bytes: seq<Byte>)

  datatype Op =
    | Write(n: nat, off: nat, data: seq<Byte>)
    | CloneNew(src: nat)
    | CloneRange(src: nat, dst: nat, srcOff: nat, dstOff: nat, len: nat)
    | Dedup(src: nat, dst: nat)
    | Punch(n: nat, startb: nat, endb: nat)
    | TruncateTo(n: nat, size: nat)
    | Truncate(n: nat)
    | Read(n: nat, off: nat, len: nat)
    | Create(typ: nat)
    | Remove(n: nat)

  // ---------------------------------------------------------------- the specification

  ghost function Zeros(): (r: seq<Byte>)
    ensures |r| == CAPACITY
  {
    seq(CAPACITY, _ => 0)
  }

  ghost function ZeroRange(a: seq<Byte>, lo: nat, hi: nat): (r: seq<Byte>)
    ensures |r| == |a|
  {
    seq(|a|, o requires 0 <= o < |a| => if lo <= o < hi then 0 else a[o])
  }

  ghost function CopyRange(to: seq<Byte>, at: nat, from: seq<Byte>, start: nat, len: nat): (r: seq<Byte>)
    ensures |r| == |to|
  {
    seq(|to|, o requires 0 <= o < |to| =>
      if at <= o < at + len then (if start + (o - at) < |from| then from[start + (o - at)] else 0) else to[o])
  }

  ghost predicate Used(fs: seq<File>, n: nat)
  {
    n < |fs| && fs[n].meta.typ != 0
  }

  ghost predicate Regular(fs: seq<File>, n: nat)
  {
    n < |fs| && fs[n].meta.typ == T_FILE
  }

  /** The lowest free inode number from k on, |fs| if there is none. */
  ghost function FirstFree(fs: seq<File>, k: nat): nat
    decreases |fs| - k
  {
    if k >= |fs| then |fs| else if fs[k].meta.typ == 0 then k else FirstFree(fs, k + 1)
  }

  /** The file an operation is about. */
  ghost function Target(fs: seq<File>, op: Op): nat
  {
    match op
    case CloneNew(_) => FirstFree(fs, 1)
    case CloneRange(_, dst, _, _, _) => dst
    case Dedup(_, dst) => dst
    case Create(_) => FirstFree(fs, 1)
    case Write(n, _, _) => n
    case Punch(n, _, _) => n
    case TruncateTo(n, _) => n
    case Truncate(n) => n
    case Read(n, _, _) => n
    case Remove(n) => n
  }

  /** When an operation has an effect: what the system calls check before they call the file layer,
      and what the file layer checks itself. */
  ghost predicate Admitted(fs: seq<File>, op: Op)
  {
    match op
    case Write(n, off, data) =>
      Used(fs, n) && off <= fs[n].meta.size && off + |data| <= CAPACITY
    case CloneNew(src) => 0 < FirstFree(fs, 1) < |fs| && Regular(fs, src)
    case CloneRange(src, dst, srcOff, dstOff, len) =>
      && Regular(fs, src) && Regular(fs, dst) && src != dst
      && srcOff % BSIZE == 0 && dstOff % BSIZE == 0 && len % BSIZE == 0
      && srcOff < UINT_LIMIT && dstOff + len <= CAPACITY
    case Dedup(src, dst) => Regular(fs, src) && Regular(fs, dst)
    case Punch(n, _, _) => Regular(fs, n)
    case TruncateTo(n, size) => Regular(fs, n) && size <= CAPACITY
    case Truncate(n) => Regular(fs, n)
    case Read(n, off, len) => Used(fs, n) && off < UINT_LIMIT && len < UINT_LIMIT
    case Create(typ) => typ != 0 && 0 < FirstFree(fs, 1) < |fs|
    case Remove(n) => Used(fs, n)
  }

  /** The bytes of a file in [off, off + len), as far as the file goes. */
  ghost function Slice(f: File, off: nat, len: nat): seq<Byte>
  {
    if off > f.meta.size || off + len >= UINT_LIMIT then []
    else seq(if off + len > f.meta.size then f.meta.size - off else len,
             k requires 0 <= k => if off + k < |f.bytes| then f.bytes[off + k] else 0)
  }

  /** What an operation reads out. */
  ghost function Reads(fs: seq<File>, op: Op): seq<seq<Byte>>
  {
    if op.Read? && Admitted(fs, op) then [Slice(fs[op.n], op.off, op.len)] else []
  }

  ghost function Apply(fs: seq<File>, op: Op): (r: seq<File>)
    requires forall k :: 0 <= k < |fs| ==> |fs[k].bytes| == CAPACITY
    ensures |r| == |fs| && forall k :: 0 <= k < |r| ==> |r[k].bytes| == CAPACITY
  {
    if !Admitted(fs, op) then fs else
    match op
    case Write(n, off, data) =>
      var f := fs[n];
      fs[n := File(f.meta.(size := Max(f.meta.size, off + |data|)), SpliceSeq(f.bytes, off, data))]
    case CloneNew(src) =>
      fs[FirstFree(fs, 1) := File(MetaData(T_FILE, fs[src].meta.mode, fs[src].meta.size), fs[src].bytes)]
    case CloneRange(src, dst, srcOff, dstOff, len) =>
      var f := fs[dst];
      fs[dst := File(f.meta.(size := Max(f.meta.size, dstOff + len)),
                     CopyRange(f.bytes, dstOff, fs[src].bytes, srcOff, len))]
    case Dedup(_, _) => fs
    case Punch(n, startb, endb) =>
      fs[n := File(fs[n].meta, ZeroRange(fs[n].bytes, startb * BSIZE, endb * BSIZE))]
    case TruncateTo(n, size) =>
      var bytes := if size >= fs[n].meta.size then fs[n].bytes
                   else ZeroRange(fs[n].bytes, (size + BSIZE - 1) / BSIZE * BSIZE, CAPACITY);
      fs[n := File(fs[n].meta.(size := size), bytes)]
    case Truncate(n) => fs[n := File(fs[n].meta.(size := 0), Zeros())]
    case Read(_, _, _) => fs
    case Create(typ) => fs[FirstFree(fs, 1) := File(MetaData(typ, 3, 0), Zeros())]
    case Remove(n) => fs[n := File(MetaData(0, fs[n].meta.mode, 0), Zeros())]
  }

  /** What the caller is told: -1 exactly when the operation has no effect for want of a condition. */
  ghost predicate Told(fs: seq<File>, op: Op, ret: int)
  {
    if !Admitted(fs, op) then ret == -1 else
    match op
    case Write(_, _, data) => ret == |data|
    case CloneNew(_) => ret == FirstFree(fs, 1)
    case CloneRange(_, _, _, _, _) => ret == 0
    case Dedup(_, _) => ret >= 0
    case Punch(_, _, _) => ret == 0
    case TruncateTo(_, _) => ret == 0
    case Truncate(_) => ret == 0
    case Read(n, off, len) => ret == |Slice(fs[n], off, len)|
    case Create(_) => ret == FirstFree(fs, 1)
    case Remove(_) => ret == 0
  }

  ghost function ApplyAll(fs: seq<File>, ops: seq<Op>): (r: seq<File>)
    requires forall k :: 0 <= k < |fs| ==> |fs[k].bytes| == CAPACITY
    ensures |r| == |fs| && forall k :: 0 <= k < |r| ==> |r[k].bytes| == CAPACITY
    decreases |ops|
  {
    if ops == [] then fs else ApplyAll(Apply(fs, ops[0]), ops[1..])
  }

  /** Everything a run reads, in order. */
  ghost function ReadsAll(fs: seq<File>, ops: seq<Op>): seq<seq<Byte>>
    requires forall k :: 0 <= k < |fs| ==> |fs[k].bytes| == CAPACITY
    decreases |ops|
  {
    if ops == [] then [] else Reads(fs, ops[0]) + ReadsAll(Apply(fs, ops[0]), ops[1..])
  }

  /** Every caller of the run is told the truth. */
  ghost predicate ToldAll(fs: seq<File>, ops: seq<Op>, rets: seq<int>)
    requires |ops| == |rets| && forall k :: 0 <= k < |fs| ==> |fs[k].bytes| == CAPACITY
    decreases |ops|
  {
    ops == [] || (Told(fs, ops[0], rets[0]) && ToldAll(Apply(fs, ops[0]), ops[1..], rets[1..]))
  }

  // ---------------------------------------------------------------- what the specification says

  /** A write has an effect exactly on an inode in use, from an offset within the file, up to the
      largest file: then the data is in place, the size is the maximum, and everything else is as it
      was. */
  lemma WriteMeans(fs: seq<File>, n: nat, off: nat, data: seq<Byte>, ret: int)
    requires (forall k :: 0 <= k < |fs| ==> |fs[k].bytes| == CAPACITY) && Told(fs, Write(n, off, data), ret)
    ensures var fs' := Apply(fs, Write(n, off, data));
            if n < |fs| && fs[n].meta.typ != 0 && off <= fs[n].meta.size && off + |data| <= MAXFILE * BSIZE then
              && ret == |data| && |fs'| == |fs|
              && fs'[n].meta.typ == fs[n].meta.typ && fs'[n].meta.mode == fs[n].meta.mode
              && fs'[n].meta.size == (if off + |data| > fs[n].meta.size then off + |data| else fs[n].meta.size)
              && (forall o :: 0 <= o < CAPACITY ==>
                    fs'[n].bytes[o] == if off <= o < off + |data| then data[o - off] else fs[n].bytes[o])
              && forall k :: 0 <= k < |fs| && k != n ==> fs'[k] == fs[k]
            else ret == -1 && fs' == fs
  {}

  /** What was written is read back. */
  lemma ReadAfterWrite(fs: seq<File>, n: nat, off: nat, data: seq<Byte>)
    requires forall k :: 0 <= k < |fs| ==> |fs[k].bytes| == CAPACITY
    requires n < |fs| && fs[n].meta.typ != 0 && off <= fs[n].meta.size && off + |data| <= MAXFILE * BSIZE
    ensures Reads(Apply(fs, Write(n, off, data)), Read(n, off, |data|)) == [data]
  {
    var fs' := Apply(fs, Write(n, off, data));
    SliceIs(fs'[n], off, data);
  }

  lemma SliceIs(f: File, off: nat, data: seq<Byte>)
    requires |f.bytes| == CAPACITY && off + |data| <= f.meta.size && off + |data| <= CAPACITY
    requires forall k :: 0 <= k < |data| ==> f.bytes[off + k] == data[k]
    ensures Slice(f, off, |data|) == data
  {}

  /** A clone reads like its source, in the first free inode, exactly when there is one and the
      source is a regular file. */
  lemma ReadAfterClone(fs: seq<File>, src: nat, n: nat, off: nat, len: nat, ret: int)
    requires (forall k :: 0 <= k < |fs| ==> |fs[k].bytes| == CAPACITY) && Told(fs, CloneNew(src), ret)
    requires off < UINT_LIMIT && len < UINT_LIMIT
    ensures ret != -1 <==> src < |fs| && fs[src].meta.typ == T_FILE && exists k :: 1 <= k < |fs| && fs[k].meta.typ == 0
    ensures ret != -1 ==> 1 <= ret < |fs| && fs[ret].meta.typ == 0 && forall k :: 1 <= k < ret ==> fs[k].meta.typ != 0
    ensures Reads(Apply(fs, CloneNew(src)), Read(n, off, len)) ==
              Reads(fs, Read(if ret != -1 && n == ret then src else n, off, len))
  {
    FirstFreeMeans(fs, 1);
  }

  lemma {:induction false} FirstFreeMeans(fs: seq<File>, k: nat)
    ensures FirstFree(fs, k) < |fs| ==> k <= FirstFree(fs, k) && fs[FirstFree(fs, k)].meta.typ == 0
    ensures forall j :: k <= j < FirstFree(fs, k) ==> j < |fs| && fs[j].meta.typ != 0
    ensures FirstFree(fs, k) <= |fs|
    decreases |fs| - k
  {
    if k < |fs| {
      FirstFreeMeans(fs, k + 1);
    }
  }

  /** A new file is empty and of the type asked for; there is one exactly when an inode is free. */
  lemma CreateMeans(fs: seq<File>, typ: nat, ret: int)
    requires (forall k :: 0 <= k < |fs| ==> |fs[k].bytes| == CAPACITY) && Told(fs, Create(typ), ret)
    ensures ret != -1 <==> typ != 0 && exists k :: 1 <= k < |fs| && fs[k].meta.typ == 0
    ensures var fs' := Apply(fs, Create(typ));
            if ret == -1 then fs' == fs
            else 1 <= ret < |fs| && fs' == fs[ret := fs'[ret]] && fs'[ret].meta == MetaData(typ, 3, 0)
                 && forall o :: 0 <= o < CAPACITY ==> fs'[ret].bytes[o] == 0
  {
    FirstFreeMeans(fs, 1);
  }

  /** A range clone has an effect exactly between two regular files, in whole blocks, within the
      largest file; then the range reads like the source's and everything else is as it was. */
  lemma CloneRangeMeans(fs: seq<File>, src: nat, dst: nat, srcOff: nat, dstOff: nat, len: nat, ret: int)
    requires (forall k :: 0 <= k < |fs| ==> |fs[k].bytes| == CAPACITY) && srcOff < UINT_LIMIT
    requires Told(fs, CloneRange(src, dst, srcOff, dstOff, len), ret)
    ensures var fs' := Apply(fs, CloneRange(src, dst, srcOff, dstOff, len));
            if && src < |fs| && dst < |fs| && src != dst && fs[src].meta.typ == 2 && fs[dst].meta.typ == 2
               && srcOff % 1024 == 0 && dstOff % 1024 == 0 && len % 1024 == 0 && dstOff + len <= MAXFILE * BSIZE then
              && ret == 0 && fs' == fs[dst := fs'[dst]]
              && fs'[dst].meta.typ == 2 && fs'[dst].meta.mode == fs[dst].meta.mode
              && fs'[dst].meta.size == (if dstOff + len > fs[dst].meta.size then dstOff + len else fs[dst].meta.size)
              && forall o :: 0 <= o < CAPACITY ==>
                   fs'[dst].bytes[o] ==
                     if o < dstOff || o >= dstOff + len then fs[dst].bytes[o]
                     else if o - dstOff + srcOff < CAPACITY then fs[src].bytes[o - dstOff + srcOff] else 0
            else ret == -1 && fs' == fs
  {}

  /** Punching, both truncations and removal: exactly for which files, and what is left. */
  lemma CutMeans(fs: seq<File>, n: nat, op: Op, ret: int)
    requires (forall k :: 0 <= k < |fs| ==> |fs[k].bytes| == CAPACITY) && Told(fs, op, ret)
    requires (op.Punch? || op.TruncateTo? || op.Truncate? || op.Remove?) && op.n == n
    ensures var fs' := Apply(fs, op);
            if n < |fs| && (fs[n].meta.typ == 2 || (op.Remove? && fs[n].meta.typ != 0))
               && (op.TruncateTo? ==> op.size <= MAXFILE * BSIZE) then
              && ret == 0 && fs' == fs[n := fs'[n]] && fs'[n].meta.mode == fs[n].meta.mode
              && fs'[n].meta.typ == (if op.Remove? then 0 else 2)
              && fs'[n].meta.size == (if op.Punch? then fs[n].meta.size else if op.TruncateTo? then op.size else 0)
              && forall o :: 0 <= o < CAPACITY ==>
                   fs'[n].bytes[o] == if Cleared(fs[n], op, o) then 0 else fs[n].bytes[o]
            else ret == -1 && fs' == fs
  {}

  /** The bytes an operation clears: the punched blocks; from the first block past the new end on, if
      the file shrinks; or all. */
  ghost predicate Cleared(f: File, op: Op, o: nat)
  {
    match op
    case Punch(_, startb, endb) => startb <= o / 1024 < endb
    case TruncateTo(_, size) => size < f.meta.size && o / 1024 * 1024 >= size
    case Truncate(_) => true
    case Remove(_) => true
    case _ => false
  }

  // ---------------------------------------------------------------- the abstraction

  ghost function BytesOf(v: seq<Cell>): (r: seq<Byte>)
    requires |v| == MAXFILE
    ensures |r| == CAPACITY
  {
    seq(CAPACITY, o requires 0 <= o < CAPACITY => Bytes(v[o / BSIZE].blk)[o % BSIZE])
  }

  ghost function Abs(st: State): (r: seq<File>)
    ensures |r| == |st.inodes| && forall k :: 0 <= k < |r| ==> |r[k].bytes| == CAPACITY
  {
    seq(|st.inodes|, n requires 0 <= n < |st.inodes| => File(Meta(st.inodes[n]), BytesOf(View(st, n))))
  }

  lemma ByteIndex(o: nat, k: nat)
    ensures k * BSIZE <= o <==> k <= o / BSIZE
  {}

  lemma BytesOverlay(to: seq<Cell>, at: nat, from: seq<Cell>, start: nat, k: nat)
    requires |to| == MAXFILE && |from| == MAXFILE
    ensures BytesOf(Overlay(to, at, from, start, k)) ==
              CopyRange(BytesOf(to), at * BSIZE, BytesOf(from), start * BSIZE, k * BSIZE)
  {
    hide Bytes;
    var v := Overlay(to, at, from, start, k);
    forall o | 0 <= o < CAPACITY
      ensures BytesOf(v)[o] == CopyRange(BytesOf(to), at * BSIZE, BytesOf(from), start * BSIZE, k * BSIZE)[o]
    {
      ByteIndex(o, at);
      ByteIndex(o, at + k);
      var b := o / BSIZE;
      if at <= b < at + k {
        var src := start * BSIZE + (o - at * BSIZE);
        assert src / BSIZE == start + (b - at) && src % BSIZE == o % BSIZE;
        ByteIndex(src, MAXFILE);
        assert v[b] == CellAt(from, start + (b - at));
        assert src < CAPACITY ==> BytesOf(from)[src] == Bytes(from[start + (b - at)].blk)[o % BSIZE];
        ZeroBytes(o % BSIZE);
      }
    }
  }

  lemma BytesCut(st: State, st': State, n: nat, lo: nat, hi: nat)
    requires Cut(st, st', n, lo, hi)
    ensures OthersView(st, st', n)
    ensures BytesOf(View(st', n)) == ZeroRange(BytesOf(View(st, n)), lo * BSIZE, hi * BSIZE)
  {
    hide Bytes;
    forall m: nat, b | 0 <= b < MAXFILE
      ensures View(st', m)[b] == if m == n && lo <= b < hi then Hole() else View(st, m)[b]
    {
      DataSlotBijection(m, b);
    }
    forall o | 0 <= o < CAPACITY
      ensures BytesOf(View(st', n))[o] == ZeroRange(BytesOf(View(st, n)), lo * BSIZE, hi * BSIZE)[o]
    {
      ByteIndex(o, lo);
      ByteIndex(o, hi);
      ZeroBytes(o % BSIZE);
    }
  }

  lemma BytesDedup(from: seq<Cell>, to: seq<Cell>, k: nat)
    requires |to| == MAXFILE && |from| == MAXFILE
    ensures BytesOf(Deduped(from, to, k)) == BytesOf(to)
  {
    hide Bytes;
    forall o | 0 <= o < CAPACITY
      ensures BytesOf(Deduped(from, to, k))[o] == BytesOf(to)[o]
    {
      DedupedBytes(from, to, k, o / BSIZE);
    }
  }

  lemma BytesWritten(st: State, st': State, n: nat, off: nat, data: seq<Byte>)
    requires Written(st, st', n, off, data) && off + |data| <= CAPACITY
    ensures BytesOf(View(st', n)) == SpliceSeq(BytesOf(View(st, n)), off, data)
  {
    hide Bytes;
    forall o | 0 <= o < CAPACITY
      ensures BytesOf(View(st', n))[o] == FileByte(st', n, o)
      ensures BytesOf(View(st, n))[o] == FileByte(st, n, o)
    {
      ViewAt(st, n, o / BSIZE);
      ViewAt(st', n, o / BSIZE);
    }
  }

  /** Other files' views from their contents. */
  lemma OthersBytes(st: State, st': State, n: nat, m: nat)
    requires OthersSame(st, st', n) && m != n
    ensures BytesOf(View(st', m)) == BytesOf(View(st, m))
  {
    hide Bytes;
    forall o | 0 <= o < CAPACITY
      ensures BytesOf(View(st', m))[o] == BytesOf(View(st, m))[o]
    {
      ViewAt(st, m, o / BSIZE);
      ViewAt(st', m, o / BSIZE);
    }
  }

  lemma FreshBytes(st: State, n: nat)
    requires forall i :: TopPtr(st, n, i) == 0
    ensures BytesOf(View(st, n)) == Zeros()
  {
    hide Bytes;
    forall o | 0 <= o < CAPACITY
      ensures BytesOf(View(st, n))[o] == 0
    {
      ViewAt(st, n, o / BSIZE);
      ZeroBytes(o % BSIZE);
    }
  }

  lemma AbsFrame(st: State, st': State, n: nat, m: MetaData)
    requires n < |st.inodes| && MetaIs(st.inodes, st'.inodes, n, m)
    requires forall k: nat :: k != n ==> BytesOf(View(st', k)) == BytesOf(View(st, k))
    ensures Abs(st') == Abs(st)[n := File(m, BytesOf(View(st', n)))]
  {
    hide View, BytesOf;
    forall k | 0 <= k < |st.inodes|
      ensures Abs(st')[k] == Abs(st)[n := File(m, BytesOf(View(st', n)))][k]
    {}
  }

  /** All files but the n-th are as before. */
  ghost predicate AllBut(fs: seq<File>, fs0: seq<File>, n: nat)
  {
    |fs| == |fs0| && forall k :: 0 <= k < |fs| && k != n ==> fs[k] == fs0[k]
  }

  lemma AbsBut(st: State, st': State, n: nat)
    requires |st'.inodes| == |st.inodes|
    requires forall k :: 0 <= k < |st.inodes| && k != n ==> Meta(st'.inodes[k]) == Meta(st.inodes[k])
    requires forall k: nat :: k != n ==> BytesOf(View(st', k)) == BytesOf(View(st, k))
    ensures AllBut(Abs(st'), Abs(st), n)
  {
    hide View, BytesOf;
  }

  lemma FirstFreeIs(fs: seq<File>, k: nat, d: nat)
    requires k <= d <= |fs| && (d < |fs| ==> fs[d].meta.typ == 0)
    requires forall i :: k <= i < d ==> fs[i].meta.typ != 0
    ensures FirstFree(fs, k) == d
    decreases d - k
  {
    if k < d {
      FirstFreeIs(fs, k + 1, d);
    }
  }

  // ---------------------------------------------------------------- running operations

  /** A write by whoever has the inode open; writei itself decides about the range. */
  method StepWrite(f: FileSys, n: nat, off: nat, data: seq<Byte>) returns (ok: bool, ret: int)
    requires f.Consistent()
    modifies f
    ensures !ok ==> f.Exhausted() && AllBut(Abs(f.St()), old(Abs(f.St())), n)
    ensures ok ==> f.Consistent() && Abs(f.St()) == Apply(old(Abs(f.St())), Write(n, off, data))
    ensures ok ==> Told(old(Abs(f.St())), Write(n, off, data), ret)
  {
    hide View, BytesOf, Written;
    ghost var st := f.St();
    if n >= |f.inodes| || f.inodes[n].typ == 0 || off >= UINT_LIMIT || |data| >= UINT_LIMIT {
      return true, -1;
    }
    var r := f.Writei(n, off, data);
    if r == Some(-1) {
      return true, -1;
    }
    forall k: nat | k != n
      ensures BytesOf(View(f.St(), k)) == BytesOf(View(st, k))
    {
      OthersBytes(st, f.St(), n, k);
    }
    if r.None? {
      AbsBut(st, f.St(), n);
      return false, -1;
    }
    AbsFrame(st, f.St(), n, Meta(st.inodes[n]).(size := Max(st.inodes[n].size, off + |data|)));
    BytesWritten(st, f.St(), n, off, data);
    return true, r.value;
  }

  /** sys_fclone: a new inode, then the clone. */
  method StepCloneNew(f: FileSys, src: nat) returns (ok: bool, ret: int)
    requires f.Consistent()
    modifies f
    ensures !ok ==> f.Exhausted() && AllBut(Abs(f.St()), old(Abs(f.St())), FirstFree(old(Abs(f.St())), 1))
    ensures ok ==> f.Consistent() && Abs(f.St()) == Apply(old(Abs(f.St())), CloneNew(src))
    ensures ok ==> Told(old(Abs(f.St())), CloneNew(src), ret)
  {
    hide View, BytesOf, Counts, Tree, Mapped, CloneLogs, ShapeCopied;
    ghost var st := f.St();
    if src >= |f.inodes| || f.inodes[src].typ != T_FILE {
      return true, -1;
    }
    var d := f.Ialloc(T_FILE);
    if d.None? {
      assert f.St() == st;
      forall k | 1 <= k < |Abs(st)|
        ensures Abs(st)[k].meta.typ != 0
      {
        assert f.inodes[k].typ != 0;
      }
      FirstFreeIs(Abs(st), 1, |Abs(st)|);
      return true, -1;
    }
    FirstFreeIs(Abs(st), 1, d.value);
    ghost var st1 := f.St();
    var r := f.Iclone(src, d.value);
    if r.None? {
      AbsBut(st, f.St(), d.value);
      return false, -1;
    }
    AbsFrame(st, f.St(), d.value, MetaData(T_FILE, st.inodes[src].mode, st.inodes[src].size));
    return true, d.value;
  }

  /** sys_fclonerange. */
  method StepCloneRange(f: FileSys, src: nat, dst: nat, srcOff: nat, dstOff: nat, len: nat) returns (ok: bool, ret: int)
    requires f.Consistent()
    modifies f
    ensures !ok ==> f.Exhausted() && AllBut(Abs(f.St()), old(Abs(f.St())), dst)
    ensures ok ==> f.Consistent() && Abs(f.St()) == Apply(old(Abs(f.St())), CloneRange(src, dst, srcOff, dstOff, len))
    ensures ok ==> Told(old(Abs(f.St())), CloneRange(src, dst, srcOff, dstOff, len), ret)
  {
    hide View, BytesOf, Overlay, Counts, Tree, Mapped, CopyRange;
    ghost var st := f.St();
    if srcOff % BSIZE != 0 || dstOff % BSIZE != 0 || len % BSIZE != 0 || srcOff >= UINT_LIMIT {
      return true, -1;
    }
    if src >= |f.inodes| || dst >= |f.inodes| || src == dst {
      return true, -1;
    }
    if f.inodes[src].typ != T_FILE || f.inodes[dst].typ != T_FILE {
      return true, -1;
    }
    if dstOff + len > MAXFILE * BSIZE {
      return true, -1;
    }
    var r := f.IcloneRange(src, dst, srcOff, dstOff, len);
    if r.None? {
      AbsBut(st, f.St(), dst);
      return false, -1;
    }
    assert forall j :: 0 <= j < len / BSIZE ==> !Overhang(View(st, src), srcOff / BSIZE, dstOff / BSIZE, j);
    AbsFrame(st, f.St(), dst, Meta(st.inodes[dst]).(size := Max(st.inodes[dst].size, dstOff + len)));
    BytesOverlay(View(st, dst), dstOff / BSIZE, View(st, src), srcOff / BSIZE, len / BSIZE);
    return true, r.value;
  }

  /** sys_dedup. */
  method StepDedup(f: FileSys, src: nat, dst: nat) returns (ret: int)
    requires f.Consistent()
    modifies f
    ensures f.Consistent() && Abs(f.St()) == Apply(old(Abs(f.St())), Dedup(src, dst))
    ensures Told(old(Abs(f.St())), Dedup(src, dst), ret)
  {
    hide View, BytesOf, Deduped;
    ghost var st := f.St();
    if src >= |f.inodes| || dst >= |f.inodes| || f.inodes[src].typ == 0 || f.inodes[dst].typ == 0 {
      return -1;
    }
    ret := f.Idedup(src, dst);
    if ret >= 0 && src != dst {
      AbsFrame(st, f.St(), dst, Meta(st.inodes[dst]));
      BytesDedup(View(st, src), View(st, dst), Min(CeilBlocks(st.inodes[src].size), CeilBlocks(st.inodes[dst].size)));
    }
  }

  method StepPunch(f: FileSys, n: nat, startb: nat, endb: nat) returns (ret: int)
    requires f.Consistent()
    modifies f
    ensures f.Consistent() && Abs(f.St()) == Apply(old(Abs(f.St())), Punch(n, startb, endb))
    ensures Told(old(Abs(f.St())), Punch(n, startb, endb), ret)
  {
    hide View, BytesOf, Cut;
    ghost var st := f.St();
    if n >= |f.inodes| || f.inodes[n].typ == 0 {
      return -1;
    }
    ret := f.Ipunch(n, startb, endb);
    if ret == 0 {
      BytesCut(st, f.St(), n, startb, Max(startb, endb));
      AbsFrame(st, f.St(), n, Meta(st.inodes[n]));
      assert ZeroRange(BytesOf(View(st, n)), startb * BSIZE, Max(startb, endb) * BSIZE) ==
               ZeroRange(BytesOf(View(st, n)), startb * BSIZE, endb * BSIZE);
    }
  }

  /** sys_truncate and sys_ftruncate. */
  method StepTruncateTo(f: FileSys, n: nat, size: nat) returns (ret: int)
    requires f.Consistent()
    modifies f
    ensures f.Consistent() && Abs(f.St()) == Apply(old(Abs(f.St())), TruncateTo(n, size))
    ensures Told(old(Abs(f.St())), TruncateTo(n, size), ret)
  {
    hide View, BytesOf, Cut;
    ghost var st := f.St();
    if n >= |f.inodes| || f.inodes[n].typ != T_FILE || size > MAXFILE * BSIZE {
      return -1;
    }
    f.ItruncTo(n, size);
    if size >= st.inodes[n].size {
      ViewSame(st, f.St());
    } else {
      assert CeilBlocks(size) == (size + BSIZE - 1) / BSIZE;
      BytesCut(st, f.St(), n, CeilBlocks(size), Max(CeilBlocks(size), MAXFILE));
    }
    AbsFrame(st, f.St(), n, Meta(st.inodes[n]).(size := size));
    return 0;
  }

  /** open with O_TRUNC. */
  method StepTruncate(f: FileSys, n: nat) returns (ret: int)
    requires f.Consistent()
    modifies f
    ensures f.Consistent() && Abs(f.St()) == Apply(old(Abs(f.St())), Truncate(n))
    ensures Told(old(Abs(f.St())), Truncate(n), ret)
  {
    hide View, BytesOf, Cut;
    ghost var st := f.St();
    if n >= |f.inodes| || f.inodes[n].typ != T_FILE {
      return -1;
    }
    f.Itrunc(n);
    BytesCut(st, f.St(), n, 0, MAXFILE);
    AbsFrame(st, f.St(), n, Meta(st.inodes[n]).(size := 0));
    FreshBytes(f.St(), n);
    return 0;
  }

  /** readi delivers the array's bytes. */
  method StepRead(f: FileSys, n: nat, off: nat, len: nat) returns (ret: int, out: seq<seq<Byte>>)
    requires f.Consistent()
    ensures out == Reads(Abs(f.St()), Read(n, off, len)) && Told(Abs(f.St()), Read(n, off, len), ret)
  {
    hide View, BytesOf, FileByte, Slice, Tree, Counts;
    if n >= |f.inodes| || f.inodes[n].typ == 0 || off >= UINT_LIMIT || len >= UINT_LIMIT {
      return -1, [];
    }
    var data := f.Readi(n, off, len);
    SliceRead(f.St(), n, off, len, data);
    return |data|, [data];
  }

  lemma SliceRead(st: State, n: nat, off: nat, len: nat, data: seq<Byte>)
    requires n < |st.inodes|
    requires |data| == if off > st.inodes[n].size || off + len >= UINT_LIMIT then 0
                       else if off + len > st.inodes[n].size then st.inodes[n].size - off else len
    requires forall k :: 0 <= k < |data| ==> data[k] == FileByte(st, n, off + k)
    ensures data == Slice(Abs(st)[n], off, len)
  {
    hide View, BytesOf, FileByte;
    var s := Slice(Abs(st)[n], off, len);
    assert |s| == |data|;
    forall k | 0 <= k < |data|
      ensures data[k] == s[k]
    {
      FileByteIs(st, n, off + k);
    }
  }

  method StepCreate(f: FileSys, typ: nat) returns (ret: int)
    requires f.Consistent()
    modifies f
    ensures f.Consistent() && Abs(f.St()) == Apply(old(Abs(f.St())), Create(typ))
    ensures Told(old(Abs(f.St())), Create(typ), ret)
  {
    hide View, BytesOf;
    ghost var st := f.St();
    if typ == 0 {
      return -1;
    }
    var d := f.Ialloc(typ);
    if d.None? {
      FirstFreeIs(Abs(st), 1, |Abs(st)|);
      return -1;
    }
    FirstFreeIs(Abs(st), 1, d.value);
    AbsFrame(st, f.St(), d.value, MetaData(typ, 3, 0));
    FreshBytes(f.St(), d.value);
    return d.value;
  }

  /** The last link goes. */
  method StepRemove(f: FileSys, n: nat) returns (ret: int)
    requires f.Consistent()
    modifies f
    ensures f.Consistent() && Abs(f.St()) == Apply(old(Abs(f.St())), Remove(n))
    ensures Told(old(Abs(f.St())), Remove(n), ret)
  {
    hide View, BytesOf, Cut;
    ghost var st := f.St();
    if n >= |f.inodes| || f.inodes[n].typ == 0 {
      return -1;
    }
    f.Ifree(n);
    BytesCut(st, f.St(), n, 0, MAXFILE);
    AbsFrame(st, f.St(), n, MetaData(0, st.inodes[n].mode, 0));
    FreshBytes(f.St(), n);
    return 0;
  }

  /** One operation.  Not ok is the out-of-blocks panic: every block is in some file, and all
      files but the one the operation is about are as they were. */
  method Step(f: FileSys, op: Op) returns (ok: bool, ret: int, out: seq<seq<Byte>>)
    requires f.Consistent()
    modifies f
    ensures !ok ==> f.Exhausted() && AllBut(Abs(f.St()), old(Abs(f.St())), Target(old(Abs(f.St())), op))
    ensures ok ==> f.Consistent() && Abs(f.St()) == Apply(old(Abs(f.St())), op) && out == Reads(old(Abs(f.St())), op)
    ensures ok ==> Told(old(Abs(f.St())), op, ret)
  {
    hide Abs, Slice, Apply, Told, Admitted;
    ok, out := true, [];
    match op {
      case Write(n, off, data) => ok, ret := StepWrite(f, n, off, data);
      case CloneNew(src) => ok, ret := StepCloneNew(f, src);
      case CloneRange(src, dst, srcOff, dstOff, len) => ok, ret := StepCloneRange(f, src, dst, srcOff, dstOff, len);
      case Dedup(src, dst) => ret := StepDedup(f, src, dst);
      case Punch(n, startb, endb) => ret := StepPunch(f, n, startb, endb);
      case TruncateTo(n, size) => ret := StepTruncateTo(f, n, size);
      case Truncate(n) => ret := StepTruncate(f, n);
      case Read(n, off, len) =>
        ReadApplies(Abs(f.St()), n, off, len);
        ret, out := StepRead(f, n, off, len);
      case Create(typ) => ret := StepCreate(f, typ);
      case Remove(n) => ret := StepRemove(f, n);
    }
  }

  lemma ReadApplies(fs: seq<File>, n: nat, off: nat, len: nat)
    requires forall k :: 0 <= k < |fs| ==> |fs[k].bytes| == CAPACITY
    ensures Apply(fs, Read(n, off, len)) == fs
  {}

  /** Any run: `done` operations are carried out, all of them unless the disk filled up; the
      files are what the plain byte arrays would be, and so is everything read on the way and
      everything the callers are told.
      When it stops early, every block is in some file, and only the file of the operation
      that could not be finished may differ. */
  method Run(f: FileSys, ops: seq<Op>) returns (done: nat, rets: seq<int>, out: seq<seq<Byte>>)
    requires f.Consistent()
    modifies f
    ensures done == |rets| <= |ops| && ToldAll(old(Abs(f.St())), ops[..done], rets)
    ensures out == ReadsAll(old(Abs(f.St())), ops[..done])
    ensures done == |ops| ==> f.Consistent() && Abs(f.St()) == ApplyAll(old(Abs(f.St())), ops)
    ensures done < |ops| ==>
              && f.Exhausted()
              && var fs := ApplyAll(old(Abs(f.St())), ops[..done]); AllBut(Abs(f.St()), fs, Target(fs, ops[done]))
  {
    hide Abs, Apply, Reads, AllBut, Target, Told;
    done, rets, out := 0, [], [];
    ghost var fs := Abs(f.St());
    while done < |ops|
      invariant 0 <= done <= |ops| && f.Consistent()
      invariant Abs(f.St()) == ApplyAll(fs, ops[..done]) && out == ReadsAll(fs, ops[..done])
      invariant |rets| == done && ToldAll(fs, ops[..done], rets)
    {
      ApplySnoc(fs, ops[..done], ops[done]);
      assert ops[..done] + [ops[done]] == ops[..done + 1];
      var ok, ret, o := Step(f, ops[done]);
      if !ok { return; }
      ToldSnoc(fs, ops[..done], rets, ops[done], ret);
      rets, out := rets + [ret], out + o;
      done := done + 1;
    }
    assert ops[..done] == ops;
  }

  lemma {:induction false} ApplySnoc(fs: seq<File>, ops: seq<Op>, op: Op)
    requires forall k :: 0 <= k < |fs| ==> |fs[k].bytes| == CAPACITY
    ensures ApplyAll(fs, ops + [op]) == Apply(ApplyAll(fs, ops), op)
    ensures ReadsAll(fs, ops + [op]) == ReadsAll(fs, ops) + Reads(ApplyAll(fs, ops), op)
    decreases |ops|
  {
    hide Apply, Reads;
    if ops == [] {
      assert (ops + [op])[1..] == [];
    } else {
      assert (ops + [op])[1..] == ops[1..] + [op];
      ApplySnoc(Apply(fs, ops[0]), ops[1..], op);
    }
  }

  lemma {:induction false} ToldSnoc(fs: seq<File>, ops: seq<Op>, rets: seq<int>, op: Op, ret: int)
    requires forall k :: 0 <= k < |fs| ==> |fs[k].bytes| == CAPACITY
    requires |ops| == |rets| && ToldAll(fs, ops, rets) && Told(ApplyAll(fs, ops), op, ret)
    ensures ToldAll(fs, ops + [op], rets + [ret])
    decreases |ops|
  {
    hide Apply, Told;
    if ops == [] {
      assert (ops + [op])[1..] == [];
    } else {
      assert (ops + [op])[1..] == ops[1..] + [op] && (rets + [ret])[1..] == rets[1..] + [ret];
      ToldSnoc(Apply(fs, ops[0]), ops[1..], rets[1..], op, ret);
    }
  }

  /** readi's bytes are the array's, and zeros past it. */
  lemma FileByteIs(st: State, n: nat, o: nat)
    ensures FileByte(st, n, o) == if o < CAPACITY then BytesOf(View(st, n))[o] else 0
  {
    if o < CAPACITY {
      ViewAt(st, n, o / BSIZE);
    } else {
      ZeroBytes(o % BSIZE);
    }
  }
}
