/** The block map of every inode as one graph of pointer slots (kernel/filesystem/fs.c).

    A slot is a place that can hold a block number: an entry of `ip->addrs`, a word
    of the single-indirect block, a word of the double-indirect block, or a word of a
    level-1 block below it.  `Ptr` reads a slot.  The invariant has two halves:

    * `Tree`: an address block is pointed at by one slot only, and every pointer is a
      data-area block number or 0;
    * `Counts`: `ref[b]` is the number of slots that point at b, and b's bitmap bit is
      set exactly when b is reserved or referenced.

    In the middle of an operation the counts are off in a known way: `unc` holds the
    slots whose reference is not (or no longer) counted, `pend` the references that
    a local variable owns. */
module BlockMap {
  import opened Layout

  const NTOP := 13
  const IND := 11           // addrs[NDIRECT]
  const DIND := 12          // addrs[NDIRECT + 1]

  datatype Inode = Inode(typ: nat, mode: nat, size: nat, addrs: seq<nat>)

  datatype State = State(dstart: nat, disk: seq<Block>, inodes: seq<Inode>, ref: seq<nat>, bitmap: seq<bool>)

  datatype Slot =
    | Top(ino: nat, i: nat)
    | Ind(ino: nat, j: nat)
    | Dbl(ino: nat, i: nat)
    | Leaf(ino: nat, i: nat, j: nat)

  // ---------------------------------------------------------------- reading slots

  function At(st: State, a: nat, j: nat): nat
  {
    if 0 < a < |st.disk| && j < NADDR then st.disk[a][j] else 0
  }

  function TopPtr(st: State, n: nat, i: nat): nat
  {
    if n < |st.inodes| && i < |st.inodes[n].addrs| then st.inodes[n].addrs[i] else 0
  }

  function Ptr(st: State, s: Slot): nat
  {
    match s
    case Top(n, i) => TopPtr(st, n, i)
    case Ind(n, j) => At(st, TopPtr(st, n, IND), j)
    case Dbl(n, i) => At(st, TopPtr(st, n, DIND), i)
    case Leaf(n, i, j) => At(st, At(st, TopPtr(st, n, DIND), i), j)
  }

  /** The slot that maps block bn of file n. */
  function DataSlot(n: nat, bn: nat): Slot
  {
    if bn < NDIRECT then Top(n, bn)
    else if bn < NDIRECT + NADDR then Ind(n, bn - NDIRECT)
    else Leaf(n, (bn - NDIRECT - NADDR) / NADDR, (bn - NDIRECT - NADDR) % NADDR)
  }

  predicate IsData(s: Slot)
  {
    match s
    case Top(_, i) => i < NDIRECT
    case Ind(_, j) => j < NADDR
    case Dbl(_, _) => false
    case Leaf(_, i, j) => i < NADDR && j < NADDR
  }

  /** Slots that hold the number of an address block. */
  predicate IsAddr(s: Slot)
  {
    s.Dbl? || (s.Top? && (s.i == IND || s.i == DIND))
  }

  /** The file block that a data slot maps. */
  function BlockOf(s: Slot): nat
    requires IsData(s)
  {
    match s
    case Top(_, i) => i
    case Ind(_, j) => NDIRECT + j
    case Leaf(_, i, j) => NDIRECT + NADDR + NADDR * i + j
  }

  lemma DataSlotBijection(n: nat, bn: nat)
    requires bn < MAXFILE
    ensures IsData(DataSlot(n, bn)) && BlockOf(DataSlot(n, bn)) == bn && DataSlot(n, bn).ino == n
  {}

  lemma BlockOfBijection(s: Slot)
    requires IsData(s)
    ensures BlockOf(s) < MAXFILE && DataSlot(s.ino, BlockOf(s)) == s
  {
    match s {
      case Leaf(_, i, j) =>
        var d := NADDR * i + j;
        assert d / NADDR == i && d % NADDR == j;
      case _ =>
    }
  }

  /** What a data slot shows: the block it points at, or zeros for a hole. */
  function Content(st: State, s: Slot): Block
  {
    var p := Ptr(st, s);
    if 0 < p < |st.disk| then st.disk[p] else ZeroBlock()
  }

  // ---------------------------------------------------------------- the invariant

  ghost predicate InRange(n: nat, s: Slot)
  {
    s.ino < n &&
    match s
    case Top(_, i) => i < NTOP
    case Ind(_, j) => j < NADDR
    case Dbl(_, i) => i < NADDR
    case Leaf(_, i, j) => i < NADDR && j < NADDR
  }

  ghost function AllSlots(n: nat): (r: set<Slot>)
    ensures forall s :: s in r <==> InRange(n, s)
  {
    (set k, i | 0 <= k < n && 0 <= i < NTOP :: Top(k, i)) + (set k, j | 0 <= k < n && 0 <= j < NADDR :: Ind(k, j))
    + (set k, i | 0 <= k < n && 0 <= i < NADDR :: Dbl(k, i))
    + (set k, i, j | 0 <= k < n && 0 <= i < NADDR && 0 <= j < NADDR :: Leaf(k, i, j))
  }

  /** The counted slots that point at b. */
  ghost function Refs(st: State, unc: set<Slot>, b: nat): (r: set<Slot>)
  {
    set s | s in AllSlots(|st.inodes|) && s !in unc && Ptr(st, s) == b
  }

  ghost predicate Shape(st: State)
  {
    && 0 < st.dstart <= |st.disk| == |st.ref| == |st.bitmap| < UINT_LIMIT
    && (forall n :: 0 <= n < |st.inodes| ==> |st.inodes[n].addrs| == NTOP)
  }

  ghost predicate Tree(st: State)
  {
    && Shape(st)
    && (forall s :: Ptr(st, s) == 0 || st.dstart <= Ptr(st, s) < |st.disk|)
    && (forall s, t :: Apart(st, s, t))
  }

  /** The block of an address slot s is not what slot t points at. */
  ghost predicate Apart(st: State, s: Slot, t: Slot)
  {
    IsAddr(s) && Ptr(st, s) != 0 && t != s ==> Ptr(st, t) != Ptr(st, s)
  }

  ghost predicate Counts(st: State, unc: set<Slot>, pend: multiset<nat>)
    requires Shape(st)
  {
    && (forall b :: 0 < b < |st.disk| ==> st.ref[b] == |Refs(st, unc, b)| + pend[b])
    && (forall b :: 0 <= b < |st.disk| ==> (st.bitmap[b] <==> b < st.dstart || st.ref[b] > 0))
    && (forall b :: b in pend ==> st.dstart <= b < |st.disk|)
  }

  /** What holds between any two operations. */
  ghost predicate Inv(st: State)
  {
    Tree(st) && Counts(st, {}, multiset{})
  }

  // ---------------------------------------------------------------- counting lemmas

  lemma TreeSame(st: State, st': State)
    requires Tree(st) && Shape(st') && st'.dstart == st.dstart && |st'.disk| == |st.disk|
    requires forall t :: Ptr(st', t) == Ptr(st, t)
    ensures Tree(st')
  {
    forall s, t
      ensures Apart(st', s, t)
    {
      assert Apart(st, s, t);
    }
  }

  /** One slot changed, to 0 or to a block that no address slot holds (no slot at all, if it
      is itself an address slot). */
  lemma TreeStored(st: State, st': State, s: Slot)
    requires Tree(st) && Shape(st') && st'.dstart == st.dstart && |st'.disk| == |st.disk|
    requires forall t :: t != s ==> Ptr(st', t) == Ptr(st, t) || Ptr(st', t) == 0
    requires Ptr(st', s) == 0 || st.dstart <= Ptr(st', s) < |st.disk|
    requires Ptr(st', s) != 0 ==> forall t :: IsAddr(s) || IsAddr(t) ==> Ptr(st, t) != Ptr(st', s)
    ensures Tree(st')
  {
    forall x, y
      ensures Apart(st', x, y)
    {
      assert Apart(st, x, y);
    }
  }

  lemma NonNullInRange(st: State, s: Slot)
    requires Shape(st) && Ptr(st, s) != 0
    ensures InRange(|st.inodes|, s)
  {}

  /** A counted pointer has a positive count. */
  lemma CountedPositive(st: State, unc: set<Slot>, pend: multiset<nat>, s: Slot)
    requires Tree(st) && Counts(st, unc, pend)
    requires Ptr(st, s) != 0 && s !in unc
    ensures st.ref[Ptr(st, s)] >= 1 + pend[Ptr(st, s)] && st.bitmap[Ptr(st, s)]
  {
    NonNullInRange(st, s);
    var b := Ptr(st, s);
    assert s in Refs(st, unc, b);
    assert Refs(st, unc, b) != {};
  }

  /** A count of one leaves room for one pointer only. */
  lemma CountOneUnique(st: State, unc: set<Slot>, pend: multiset<nat>, s: Slot, t: Slot)
    requires Tree(st) && Counts(st, unc, pend)
    requires Ptr(st, s) != 0 && s !in unc && t !in unc && t != s
    requires st.ref[Ptr(st, s)] <= 1
    ensures Ptr(st, t) != Ptr(st, s)
  {
    var b := Ptr(st, s);
    if Ptr(st, t) == b {
      NonNullInRange(st, s);
      NonNullInRange(st, t);
      var two := {s, t};
      assert two <= Refs(st, unc, b);
      SubsetSize(two, Refs(st, unc, b));
    }
  }

  lemma SubsetSize<T>(a: set<T>, b: set<T>)
    requires a <= b
    ensures |a| <= |b|
  {
    assert b == a + (b - a);
  }

  /** A free block is pointed at by no counted slot. */
  lemma FreeUnreferenced(st: State, unc: set<Slot>, pend: multiset<nat>, b: nat, s: Slot)
    requires Tree(st) && Counts(st, unc, pend)
    requires 0 < b < |st.disk| && !st.bitmap[b] && s !in unc
    ensures Ptr(st, s) != b && b !in pend
  {
    if Ptr(st, s) == b {
      CountedPositive(st, unc, pend, s);
      assert false;
    }
  }

  /** One slot moves from its old target to its new one. */
  lemma Recount(st: State, st': State, unc: set<Slot>, s: Slot, b: nat)
    requires Shape(st) && Shape(st') && |st.inodes| == |st'.inodes|
    requires InRange(|st.inodes|, s) && s !in unc && b != 0
    requires forall t :: t != s && t !in unc ==> Ptr(st', t) == Ptr(st, t)
    ensures |Refs(st', unc, b)| ==
              |Refs(st, unc, b)| + (if Ptr(st', s) == b then 1 else 0) - (if Ptr(st, s) == b then 1 else 0)
  {
    var rest := Refs(st, unc, b) - {s};
    assert Refs(st, unc, b) == if Ptr(st, s) == b then rest + {s} else rest;
    assert Refs(st', unc, b) == if Ptr(st', s) == b then rest + {s} else rest;
  }

  /** Slots that hold 0, or are uncounted on both sides, do not matter. */
  lemma RefsAgree(st: State, st': State, unc: set<Slot>, unc': set<Slot>, b: nat)
    requires Shape(st) && Shape(st') && |st.inodes| == |st'.inodes| && b != 0
    requires forall t :: (t !in unc && Ptr(st, t) == b) <==> (t !in unc' && Ptr(st', t) == b)
    ensures Refs(st', unc', b) == Refs(st, unc, b)
  {}

  lemma CountsAgree(st: State, st': State, unc: set<Slot>, unc': set<Slot>, pend: multiset<nat>)
    requires Shape(st) && Shape(st') && |st.inodes| == |st'.inodes|
    requires st'.ref == st.ref && st'.bitmap == st.bitmap && st'.dstart == st.dstart
    requires Counts(st, unc, pend)
    requires forall t :: (if t in unc then 0 else Ptr(st, t)) == (if t in unc' then 0 else Ptr(st', t))
    ensures Counts(st', unc', pend)
  {
    forall b | 0 < b < |st.disk|
      ensures Refs(st', unc', b) == Refs(st, unc, b)
    {
      RefsAgree(st, st', unc, unc', b);
    }
  }

  /** Dropping the reference that counted slot s holds: s becomes uncounted. */
  lemma UncountSlot(st: State, unc: set<Slot>, s: Slot, b: nat)
    requires Shape(st) && InRange(|st.inodes|, s) && s !in unc
    ensures |Refs(st, unc + {s}, b)| == |Refs(st, unc, b)| - (if Ptr(st, s) == b then 1 else 0)
  {
    assert Refs(st, unc + {s}, b) == Refs(st, unc, b) - {s};
  }

  // ---------------------------------------------------------------- writing slots

  /** The address block that holds slot s. */
  function Holder(st: State, s: Slot): nat
    requires !s.Top?
  {
    match s
    case Ind(n, _) => TopPtr(st, n, IND)
    case Dbl(n, _) => TopPtr(st, n, DIND)
    case Leaf(n, i, _) => At(st, TopPtr(st, n, DIND), i)
  }

  function Index(s: Slot): nat
  {
    match s
    case Top(_, i) => i
    case Ind(_, j) => j
    case Dbl(_, i) => i
    case Leaf(_, _, j) => j
  }

  /** t is read through s. */
  predicate Below(t: Slot, s: Slot)
  {
    t.ino == s.ino &&
    match s
    case Top(_, i) => (i == IND && t.Ind?) || (i == DIND && (t.Dbl? || t.Leaf?))
    case Dbl(_, i) => t.Leaf? && t.i == i
    case _ => false
  }

  ghost predicate Present(st: State, s: Slot)
  {
    InRange(|st.inodes|, s) && (s.Top? || Holder(st, s) != 0)
  }

  function SetTop(st: State, n: nat, i: nat, v: nat): State
    requires n < |st.inodes| && i < |st.inodes[n].addrs|
  {
    st.(inodes := st.inodes[n := st.inodes[n].(addrs := st.inodes[n].addrs[i := v])])
  }

  function SetWord(st: State, a: nat, j: nat, v: Word): State
    requires a < |st.disk| && j < NADDR
  {
    st.(disk := st.disk[a := st.disk[a][j := v]])
  }

  ghost function Store(st: State, s: Slot, v: Word): (r: State)
    requires Tree(st) && Present(st, s)
    ensures Shape(r) && SameFrame(st, r)
  {
    if s.Top? then SetTop(st, s.ino, s.i, v)
    else HolderIsParent(st, s); SetWord(st, Holder(st, s), Index(s), v)
  }

  /** The slot that holds the number of the block s is a word of. */
  function ParentSlot(s: Slot): Slot
    requires !s.Top?
  {
    match s
    case Ind(n, _) => Top(n, IND)
    case Dbl(n, _) => Top(n, DIND)
    case Leaf(n, i, _) => Dbl(n, i)
  }

  lemma HolderIsParent(st: State, s: Slot)
    requires !s.Top?
    ensures Holder(st, s) == Ptr(st, ParentSlot(s)) && IsAddr(ParentSlot(s))
    ensures Ptr(st, s) == At(st, Holder(st, s), Index(s))
  {}

  /** A store is seen by the slot itself and by what is read through it. */
  lemma StoreEffect(st: State, s: Slot, v: Word, t: Slot)
    requires Tree(st) && Present(st, s)
    requires !Below(t, s)
    ensures Ptr(Store(st, s, v), t) == if t == s then v else Ptr(st, t)
  {
    var st' := Store(st, s, v);
    if !s.Top? {
      var h := Holder(st, s);
      HolderIsParent(st, s);
      StoreWordEffect(st, s, v, t);
    }
  }

  lemma StoreWordEffect(st: State, s: Slot, v: Word, t: Slot)
    requires Tree(st) && Present(st, s) && !s.Top?
    requires !Below(t, s)
    ensures Ptr(Store(st, s, v), t) == if t == s then v else Ptr(st, t)
  {
    var st' := Store(st, s, v);
    HolderIsParent(st, s);
    match t {
      case Top(_, _) =>
      case Ind(n, j) =>
        HolderIsParent(st, t);
        assert Apart(st, ParentSlot(s), ParentSlot(t));
      case Dbl(n, i) =>
        HolderIsParent(st, t);
        assert Apart(st, ParentSlot(s), ParentSlot(t));
      case Leaf(n, i, j) =>
        HolderIsParent(st, t);
        HolderIsParent(st, Dbl(n, i));
        assert Apart(st, ParentSlot(s), ParentSlot(t));
        assert Apart(st, ParentSlot(s), ParentSlot(Dbl(n, i)));
        assert At(st', TopPtr(st', n, DIND), i) == At(st, TopPtr(st, n, DIND), i);
    }
  }

  /** All pointers and all file contents but what slot s itself shows. */
  ghost predicate SameBut(st: State, st': State, s: Slot)
  {
    && (forall t :: t != s ==> Ptr(st', t) == Ptr(st, t))
    && (forall t :: t != s && IsData(t) ==> Content(st', t) == Content(st, t))
  }

  ghost predicate SameFrame(st: State, st': State)
  {
    && st'.dstart == st.dstart && |st'.disk| == |st.disk| && |st'.inodes| == |st.inodes|
    && st'.ref == st.ref && st'.bitmap == st.bitmap
  }

  lemma StoreContent(st: State, s: Slot, v: Word, t: Slot)
    requires Tree(st) && Present(st, s) && !Below(t, s) && t != s && IsData(t)
    ensures Content(Store(st, s, v), t) == Content(st, t)
  {
    StoreEffect(st, s, v, t);
    if !s.Top? {
      HolderIsParent(st, s);
      assert Apart(st, ParentSlot(s), t);
    }
  }

  /** Redirecting a data slot. */
  lemma StoreData(st: State, s: Slot, v: Word)
    requires Tree(st) && Present(st, s) && IsData(s)
    requires v == 0 || st.dstart <= v < |st.disk|
    requires v != 0 ==> forall t :: IsAddr(t) ==> Ptr(st, t) != v
    ensures var st' := Store(st, s, v);
            Tree(st') && SameFrame(st, st') && SameBut(st, st', s) && Ptr(st', s) == v
  {
    var st' := Store(st, s, v);
    forall t
      ensures Ptr(st', t) == if t == s then v else Ptr(st, t)
    {
      StoreEffect(st, s, v, t);
    }
    TreeStored(st, st', s);
    forall t | t != s && IsData(t)
      ensures Content(st', t) == Content(st, t)
    {
      StoreContent(st, s, v, t);
    }
  }

  /** Hanging a zeroed, unreferenced block below an empty address slot. */
  lemma StoreNewAddr(st: State, s: Slot, v: Word)
    requires Tree(st) && Present(st, s) && IsAddr(s) && Ptr(st, s) == 0
    requires st.dstart <= v < |st.disk| && st.disk[v] == ZeroBlock()
    requires forall t :: Ptr(st, t) != v
    ensures var st' := Store(st, s, v);
            Tree(st') && SameFrame(st, st') && SameBut(st, st', s) && Ptr(st', s) == v
  {
    var st' := Store(st, s, v);
    StoreEffect(st, s, v, s);
    assert st'.disk[v] == ZeroBlock() by {
      if !s.Top? {
        HolderIsParent(st, s);
      }
    }
    forall t
      ensures Ptr(st', t) == if t == s then v else Ptr(st, t)
    {
      if Below(t, s) {
        StoreEffect(st, s, v, Top(s.ino, DIND));
        BelowEmpty(st', t, s);
        BelowNull(st, t, s);
      } else {
        StoreEffect(st, s, v, t);
      }
    }
    TreeStored(st, st', s);
    forall t | t != s && IsData(t)
      ensures Content(st', t) == Content(st, t)
    {
      if !Below(t, s) {
        StoreContent(st, s, v, t);
      }
    }
  }

  /** Nothing can be read through an empty slot, nor through a zeroed address block. */
  lemma BelowNull(st: State, t: Slot, s: Slot)
    requires Below(t, s) && Ptr(st, s) == 0
    ensures Ptr(st, t) == 0
  {}

  lemma BelowEmpty(st: State, t: Slot, s: Slot)
    requires Below(t, s) && 0 < Ptr(st, s) < |st.disk| && st.disk[Ptr(st, s)] == ZeroBlock()
    ensures Ptr(st, t) == 0
  {}

  /** Cutting a slot off, with everything read through it. */
  lemma StoreNull(st: State, s: Slot)
    requires Tree(st) && Present(st, s)
    ensures var st' := Store(st, s, 0);
            && Tree(st') && SameFrame(st, st')
            && (forall t :: Ptr(st', t) == if t == s || Below(t, s) then 0 else Ptr(st, t))
            && (forall t :: t != s && !Below(t, s) && IsData(t) ==> Content(st', t) == Content(st, t))
  {
    var st' := Store(st, s, 0);
    StoreEffect(st, s, 0, s);
    forall t
      ensures Ptr(st', t) == if t == s || Below(t, s) then 0 else Ptr(st, t)
    {
      if Below(t, s) {
        BelowNull(st', t, s);
      } else {
        StoreEffect(st, s, 0, t);
      }
    }
    TreeStored(st, st', s);
    forall t | t != s && !Below(t, s) && IsData(t)
      ensures Content(st', t) == Content(st, t)
    {
      StoreContent(st, s, 0, t);
    }
  }

  /** The references in flight after slot s goes from `from` to `to`. */
  ghost function Moved(pend: multiset<nat>, from: nat, to: nat): multiset<nat>
  {
    (if to == 0 then pend else pend - multiset{to}) + (if from == 0 then multiset{} else multiset{from})
  }

  /** Redirecting a counted slot moves one reference in and one out. */
  lemma StoreCounts(st: State, st': State, unc: set<Slot>, pend: multiset<nat>, s: Slot)
    requires Shape(st) && Shape(st') && SameFrame(st, st') && Counts(st, unc, pend)
    requires InRange(|st.inodes|, s) && s !in unc
    requires Ptr(st, s) == 0 || st.dstart <= Ptr(st, s) < |st.disk|
    requires forall t :: t != s && t !in unc ==> Ptr(st', t) == Ptr(st, t)
    requires Ptr(st', s) == 0 || Ptr(st', s) in pend
    ensures Counts(st', unc, Moved(pend, Ptr(st, s), Ptr(st', s)))
  {
    var pend' := Moved(pend, Ptr(st, s), Ptr(st', s));
    forall b | 0 < b < |st.disk|
      ensures st'.ref[b] == |Refs(st', unc, b)| + pend'[b]
    {
      Recount(st, st', unc, s, b);
    }
  }

  // ---------------------------------------------------------------- blocks

  ghost predicate SamePtrs(st: State, st': State)
  {
    forall t :: Ptr(st', t) == Ptr(st, t)
  }

  ghost predicate SameData(st: State, st': State)
  {
    forall t :: IsData(t) ==> Content(st', t) == Content(st, t)
  }

  /** balloc: bit set, block zeroed, count up. */
  function Alloc(st: State, b: nat): State
    requires b < |st.disk| == |st.ref| == |st.bitmap|
  {
    st.(disk := st.disk[b := ZeroBlock()], ref := st.ref[b := st.ref[b] + 1], bitmap := st.bitmap[b := true])
  }

  /** bfree: count down, bit cleared with the last reference. */
  function Free(st: State, b: nat): State
    requires b < |st.ref| == |st.bitmap| && st.ref[b] > 0
  {
    st.(ref := st.ref[b := st.ref[b] - 1], bitmap := if st.ref[b] == 1 then st.bitmap[b := false] else st.bitmap)
  }

  function IncRef(st: State, b: nat): State
    requires b < |st.ref|
  {
    st.(ref := st.ref[b := st.ref[b] + 1])
  }

  /** A block whose bit is clear is in nobody's file: zeroing it shows nowhere. */
  lemma AllocEffect(st: State, pend: multiset<nat>, b: nat)
    requires Tree(st) && Counts(st, {}, pend)
    requires b < |st.disk| && !st.bitmap[b]
    ensures var st' := Alloc(st, b);
            && Tree(st') && SamePtrs(st, st') && SameData(st, st') && Counts(st', {}, pend + multiset{b})
            && st.dstart <= b && (forall t :: Ptr(st, t) != b)
  {
    var st' := Alloc(st, b);
    forall t
      ensures Ptr(st, t) != b && b !in pend
    {
      FreeUnreferenced(st, {}, pend, b, t);
    }
    BlockWritePtrs(st, st', b);
    forall x | 0 < x < |st.disk|
      ensures Refs(st', {}, x) == Refs(st, {}, x)
    {
      RefsAgree(st, st', {}, {}, x);
    }
  }

  /** Writing a block that no address slot holds moves no pointer. */
  lemma BlockWritePtrs(st: State, st': State, b: nat)
    requires Tree(st) && Shape(st') && st'.inodes == st.inodes && st'.dstart == st.dstart && |st'.disk| == |st.disk|
    requires forall x :: 0 <= x < |st.disk| && x != b ==> st'.disk[x] == st.disk[x]
    requires forall t :: IsAddr(t) ==> Ptr(st, t) != b
    ensures Tree(st') && SamePtrs(st, st')
  {
    forall t
      ensures Ptr(st', t) == Ptr(st, t)
    {
      if t.Leaf? {
        assert Ptr(st, Dbl(t.ino, t.i)) != b && Ptr(st, Top(t.ino, DIND)) != b;
      } else if !t.Top? {
        HolderIsParent(st, t);
        assert IsAddr(ParentSlot(t));
      }
    }
    TreeSame(st, st');
  }

  /** A reference handed back by a local variable. */
  lemma FreePending(st: State, unc: set<Slot>, pend: multiset<nat>, b: nat)
    requires Tree(st) && Counts(st, unc, pend) && b in pend
    ensures st.ref[b] > 0 && st.bitmap[b]
    ensures var st' := Free(st, b);
            Tree(st') && SamePtrs(st, st') && SameData(st, st') && Counts(st', unc, pend - multiset{b})
  {
    assert st.ref[b] == |Refs(st, unc, b)| + pend[b];
    var st' := Free(st, b);
    PtrsOnly(st, st');
    forall x | 0 < x < |st.disk|
      ensures Refs(st', unc, x) == Refs(st, unc, x)
    {
      RefsAgree(st, st', unc, unc, x);
    }
  }

  /** A reference handed back while slot s still holds the pointer. */
  lemma FreeSlot(st: State, unc: set<Slot>, pend: multiset<nat>, s: Slot)
    requires Tree(st) && Counts(st, unc, pend) && Ptr(st, s) != 0 && s !in unc
    ensures st.ref[Ptr(st, s)] > 0 && st.bitmap[Ptr(st, s)]
    ensures var st' := Free(st, Ptr(st, s));
            Tree(st') && SamePtrs(st, st') && SameData(st, st') && Counts(st', unc + {s}, pend)
  {
    CountedPositive(st, unc, pend, s);
    NonNullInRange(st, s);
    var st' := Free(st, Ptr(st, s));
    PtrsOnly(st, st');
    forall x | 0 < x < |st.disk|
      ensures |Refs(st', unc + {s}, x)| == |Refs(st, unc, x)| - (if Ptr(st, s) == x then 1 else 0)
    {
      RefsAgree(st, st', unc, unc, x);
      UncountSlot(st', unc, s, x);
    }
  }

  lemma PtrsOnly(st: State, st': State)
    requires Tree(st) && st'.disk == st.disk && st'.inodes == st.inodes && st'.dstart == st.dstart
    requires |st'.ref| == |st.ref| && |st'.bitmap| == |st.bitmap|
    ensures Tree(st') && SamePtrs(st, st') && SameData(st, st')
  {
    assert forall t :: Ptr(st', t) == Ptr(st, t);
    TreeSame(st, st');
  }

  /** bref_inc on behalf of a local variable. */
  lemma IncPending(st: State, unc: set<Slot>, pend: multiset<nat>, b: nat)
    requires Tree(st) && Counts(st, unc, pend) && st.dstart <= b < |st.disk| && st.ref[b] > 0
    ensures var st' := IncRef(st, b);
            Tree(st') && SamePtrs(st, st') && SameData(st, st') && Counts(st', unc, pend + multiset{b})
  {
    var st' := IncRef(st, b);
    PtrsOnly(st, st');
    forall x | 0 < x < |st.disk|
      ensures Refs(st', unc, x) == Refs(st, unc, x)
    {
      RefsAgree(st, st', unc, unc, x);
    }
  }

  /** bref_inc on behalf of an uncounted slot. */
  lemma IncSlot(st: State, unc: set<Slot>, pend: multiset<nat>, s: Slot)
    requires Tree(st) && Counts(st, unc, pend) && Ptr(st, s) != 0 && s in unc
    requires st.ref[Ptr(st, s)] > 0
    ensures var st' := IncRef(st, Ptr(st, s));
            Tree(st') && SamePtrs(st, st') && SameData(st, st') && Counts(st', unc - {s}, pend)
  {
    NonNullInRange(st, s);
    var st' := IncRef(st, Ptr(st, s));
    PtrsOnly(st, st');
    forall x | 0 < x < |st.disk|
      ensures |Refs(st', unc - {s}, x)| == |Refs(st, unc, x)| + (if Ptr(st, s) == x then 1 else 0)
    {
      RefsAgree(st, st', unc, unc, x);
      assert (unc - {s}) + {s} == unc;
      UncountSlot(st', unc - {s}, s, x);
    }
  }

  /** Overwriting a data block that only slot s points at. */
  lemma WriteBlockEffect(st: State, unc: set<Slot>, pend: multiset<nat>, s: Slot, blk: Block)
    requires Tree(st) && Counts(st, unc, pend) && IsData(s) && Ptr(st, s) != 0
    requires forall t :: t != s ==> Ptr(st, t) != Ptr(st, s)
    ensures var st' := st.(disk := st.disk[Ptr(st, s) := blk]);
            && Tree(st') && SamePtrs(st, st') && Counts(st', unc, pend)
            && Content(st', s) == blk && SameBut(st, st', s)
  {
    var p := Ptr(st, s);
    var st' := st.(disk := st.disk[p := blk]);
    BlockWritePtrs(st, st', p);
    CountsAgree(st, st', unc, unc, pend);
  }

  /** Filling a block that no slot points at yet. */
  lemma WriteFreshEffect(st: State, unc: set<Slot>, pend: multiset<nat>, b: nat, blk: Block)
    requires Tree(st) && Counts(st, unc, pend) && 0 < b < |st.disk|
    requires forall t :: Ptr(st, t) != b
    ensures var st' := st.(disk := st.disk[b := blk]);
            Tree(st') && SamePtrs(st, st') && SameData(st, st') && Counts(st', unc, pend)
  {
    var st' := st.(disk := st.disk[b := blk]);
    BlockWritePtrs(st, st', b);
    CountsAgree(st, st', unc, unc, pend);
  }

  // ---------------------------------------------------------------- compound steps

  ghost predicate SamePtrsBut(st: State, st': State, s: Slot)
  {
    forall t :: t != s ==> Ptr(st', t) == Ptr(st, t)
  }

  /** A fresh block stored in an empty slot. */
  lemma StoreFresh(st: State, pend: multiset<nat>, b: Word, s: Slot)
    requires Tree(st) && Counts(st, {}, pend + multiset{b}) && st.dstart <= b < |st.disk| && st.disk[b] == ZeroBlock()
    requires Present(st, s) && (IsAddr(s) || IsData(s)) && Ptr(st, s) == 0
    requires forall t :: Ptr(st, t) != b
    ensures var st' := Store(st, s, b);
            Tree(st') && Counts(st', {}, pend) && Ptr(st', s) == b && SameBut(st, st', s)
  {
    if IsAddr(s) {
      StoreNewAddr(st, s, b);
    } else {
      StoreData(st, s, b);
    }
    StoreCounts(st, Store(st, s, b), {}, pend + multiset{b}, s);
    assert pend + multiset{b} - multiset{b} + multiset{} == pend;
  }

  lemma AllocStore(st: State, pend: multiset<nat>, b: Word, s: Slot)
    requires Tree(st) && Counts(st, {}, pend) && b < |st.disk| && !st.bitmap[b]
    requires Present(st, s) && (IsAddr(s) || IsData(s)) && Ptr(st, s) == 0
    ensures Tree(Alloc(st, b)) && Present(Alloc(st, b), s) && b != 0
    ensures var st2 := Store(Alloc(st, b), s, b);
            Tree(st2) && Counts(st2, {}, pend) && Ptr(st2, s) == b && SamePtrsBut(st, st2, s) && SameData(st, st2)
  {
    var st1 := Alloc(st, b);
    AllocEffect(st, pend, b);
    assert Present(st1, s) by {
      if !s.Top? {
        HolderIsParent(st, s);
        HolderIsParent(st1, s);
      }
    }
    StoreFresh(st1, pend, b, s);
    var st2 := Store(st1, s, b);
    assert IsData(s) ==> Content(st2, s) == Content(st, s) by {
      if IsData(s) {
        StoreKeepsBlock(st1, s, b, b);
      }
    }
  }

  /** A store changes no block but the one that holds the slot. */
  lemma StoreKeepsBlock(st: State, s: Slot, v: Word, b: nat)
    requires Tree(st) && Present(st, s) && b < |st.disk| && (forall t :: Ptr(st, t) != b)
    ensures Store(st, s, v).disk[b] == st.disk[b]
  {
    if !s.Top? {
      HolderIsParent(st, s);
    }
  }

  /** The last step of a redirection: data slot s takes over the reference to v that a
      local variable holds, and the reference to its old target is left over. */
  lemma Redirect(st: State, s: Slot, v: Word)
    requires Tree(st) && Counts(st, {}, multiset{v}) && Present(st, s) && IsData(s)
    requires forall t :: IsAddr(t) ==> Ptr(st, t) != v
    ensures v != 0
    ensures var st' := Store(st, s, v);
            && Tree(st') && SameBut(st, st', s) && Ptr(st', s) == v
            && Counts(st', {}, if Ptr(st, s) == 0 then multiset{} else multiset{Ptr(st, s)})
  {
    var d := Ptr(st, s);
    assert v in multiset{v};
    StoreData(st, s, v);
    StoreCounts(st, Store(st, s, v), {}, multiset{v}, s);
    assert Moved(multiset{v}, d, v) == if d == 0 then multiset{} else multiset{d};
  }

  /** Copy-on-write, first half: a private copy of block d in the fresh block b. */
  lemma CowCopy(st: State, d: nat, b: Word)
    requires Inv(st) && b < |st.disk| && !st.bitmap[b] && d < |st.disk|
    ensures var st1 := Alloc(st, b); var st2 := st1.(disk := st1.disk[b := st1.disk[d]]);
            && Tree(st2) && Counts(st2, {}, multiset{b}) && SamePtrs(st, st2) && SameData(st, st2)
            && (forall t :: Ptr(st2, t) != b) && st2.ref[b] == 1 && (d != b ==> st2.disk[b] == st.disk[d])
  {
    AllocEffect(st, multiset{}, b);
    var st1 := Alloc(st, b);
    assert multiset{} + multiset{b} == multiset{b};
    WriteFreshEffect(st1, {}, multiset{b}, b, st1.disk[d]);
  }

  /** Copy-on-write, second half: the slot points at the copy, the original is let go. */
  lemma CowSwitch(st: State, s: Slot, b: Word)
    requires Tree(st) && Counts(st, {}, multiset{b}) && IsData(s) && Ptr(st, s) != 0 && Present(st, s)
    requires (forall t :: Ptr(st, t) != b) && st.ref[b] == 1 && st.disk[b] == st.disk[Ptr(st, s)]
    ensures var st' := Store(st, s, b); var d := Ptr(st, s); st'.ref[d] > 0 && st'.bitmap[d]
    ensures var st' := Store(st, s, b); var d := Ptr(st, s); var st'' := Free(st', d);
            Inv(st'') && SameData(st, st'') && SamePtrsBut(st, st'', s) && Ptr(st'', s) == b && st''.ref[b] == 1
  {
    Redirect(st, s, b);
    var st' := Store(st, s, b);
    FreePending(st', {}, multiset{Ptr(st, s)}, Ptr(st, s));
    assert multiset{Ptr(st, s)} - multiset{Ptr(st, s)} == multiset{};
    StoreKeepsBlock(st, s, b, b);
  }

  lemma PresentWhenMapped(st: State, s: Slot)
    requires Shape(st) && Ptr(st, s) != 0
    ensures Present(st, s)
  {
    NonNullInRange(st, s);
    if !s.Top? {
      HolderIsParent(st, s);
    }
  }

  ghost function CowCopied(st: State, d: nat, b: nat): State
    requires d < |st.disk| == |st.ref| == |st.bitmap| && b < |st.disk|
  {
    var st1 := Alloc(st, b);
    st1.(disk := st1.disk[b := st1.disk[d]])
  }

  /** Copy-on-write as a whole: same bytes everywhere, and slot s now has its block alone. */
  lemma CowEffect(st: State, s: Slot, b: Word)
    requires Inv(st) && IsData(s) && Ptr(st, s) != 0 && b < |st.disk| && !st.bitmap[b]
    ensures var d := Ptr(st, s); var st2 := CowCopied(st, d, b);
            && Tree(st2) && Present(st2, s) && (!s.Top? ==> Holder(st2, s) == Holder(st, s))
            && b != 0 && Store(st2, s, b).ref[d] > 0 && Store(st2, s, b).bitmap[d]
    ensures var d := Ptr(st, s); var st4 := Free(Store(CowCopied(st, d, b), s, b), d);
            Inv(st4) && SameData(st, st4) && SamePtrsBut(st, st4, s) && Ptr(st4, s) == b && st4.ref[b] == 1
  {
    var d := Ptr(st, s);
    CowCopy(st, d, b);
    var st2 := CowCopied(st, d, b);
    assert Ptr(st2, s) == d;
    PresentWhenMapped(st2, s);
    if !s.Top? {
      HolderIsParent(st, s);
      HolderIsParent(st2, s);
    }
    FreeUnreferenced(st, {}, multiset{}, b, s);
    CowSwitch(st2, s, b);
  }

  /** An address block is nobody's data block. */
  lemma DataTargetNotAddr(st: State, s: Slot, t: Slot)
    requires Tree(st) && IsData(s) && Ptr(st, s) != 0 && IsAddr(t)
    ensures Ptr(st, t) != Ptr(st, s)
  {
    assert Apart(st, t, s);
  }

  /** Emptying a mapped data slot and letting go of its block. */
  lemma UnmapEffect(st: State, s: Slot)
    requires Inv(st) && IsData(s) && Ptr(st, s) != 0
    ensures Present(st, s)
    ensures var st' := Store(st, s, 0); st'.ref[Ptr(st, s)] > 0 && st'.bitmap[Ptr(st, s)]
    ensures var st'' := Free(Store(st, s, 0), Ptr(st, s));
            Inv(st'') && SameBut(st, st'', s) && Ptr(st'', s) == 0
  {
    var d := Ptr(st, s);
    PresentWhenMapped(st, s);
    StoreData(st, s, 0);
    var st' := Store(st, s, 0);
    StoreCounts(st, st', {}, multiset{}, s);
    assert multiset{} + multiset{d} == multiset{d};
    FreePending(st', {}, multiset{d}, d);
    assert multiset{d} - multiset{d} == multiset{};
  }

  /** Pointing data slot s at block v, whose reference is already taken, and letting go of
      its old block. */
  lemma RemapEffect(st: State, s: Slot, v: Word)
    requires Tree(st) && Counts(st, {}, multiset{v}) && Present(st, s) && IsData(s)
    requires forall t :: IsAddr(t) ==> Ptr(st, t) != v
    ensures var st' := Store(st, s, v); var d := Ptr(st, s);
            Tree(st') && SameBut(st, st', s) && Ptr(st', s) == v && (d == 0 ==> Inv(st'))
    ensures var st' := Store(st, s, v); var d := Ptr(st, s);
            d != 0 ==>
              && st'.ref[d] > 0 && st'.bitmap[d]
              && Inv(Free(st', d)) && SameBut(st, Free(st', d), s) && Ptr(Free(st', d), s) == v
  {
    Redirect(st, s, v);
    var st' := Store(st, s, v);
    var d := Ptr(st, s);
    if d != 0 {
      FreePending(st', {}, multiset{d}, d);
      assert multiset{d} - multiset{d} == multiset{};
    }
  }

  /** Taking a reference to the block of a mapped data slot. */
  lemma ShareEffect(st: State, s: Slot)
    requires Inv(st) && IsData(s) && Ptr(st, s) != 0
    ensures st.ref[Ptr(st, s)] > 0
    ensures var st' := IncRef(st, Ptr(st, s));
            && Tree(st') && SamePtrs(st, st') && SameData(st, st') && Counts(st', {}, multiset{Ptr(st, s)})
            && (forall t :: IsAddr(t) ==> Ptr(st', t) != Ptr(st, s))
  {
    var b := Ptr(st, s);
    CountedPositive(st, {}, multiset{}, s);
    IncPending(st, {}, multiset{}, b);
    assert multiset{} + multiset{b} == multiset{b};
    forall t | IsAddr(t)
      ensures Ptr(st, t) != b
    {
      DataTargetNotAddr(st, s, t);
    }
  }

  // ---------------------------------------------------------------- cutting

  /** Word j of the address block at addr slot p. */
  function Kid(p: Slot, j: nat): Slot
    requires IsAddr(p)
  {
    match p
    case Top(n, i) => if i == IND then Ind(n, j) else Dbl(n, j)
    case Dbl(n, i) => Leaf(n, i, j)
  }

  ghost function Kids(p: Slot, lo: nat, hi: nat): (r: set<Slot>)
    requires IsAddr(p)
    ensures forall t :: t in r <==> t == Kid(p, Index(t)) && lo <= Index(t) < hi
  {
    set j | lo <= j < hi :: Kid(p, j)
  }

  /** Level-1 blocks [lo, hi) of inode n: their slots and all their words. */
  ghost function LevelOne(n: nat, lo: nat, hi: nat): (r: set<Slot>)
    ensures forall t :: t in r <==> t.ino == n && (t.Dbl? || (t.Leaf? && t.j < NADDR)) && lo <= t.i < hi
  {
    (set i | lo <= i < hi :: Dbl(n, i)) + (set i, j | lo <= i < hi && 0 <= j < NADDR :: Leaf(n, i, j))
  }

  /** Slots that are 0 need not be counted. */
  lemma UncountNull(st: State, unc: set<Slot>, more: set<Slot>, pend: multiset<nat>)
    requires Shape(st) && Counts(st, unc, pend)
    requires forall t :: t in more ==> Ptr(st, t) == 0
    ensures Counts(st, unc + more, pend)
  {
    CountsAgree(st, st, unc, unc + more, pend);
  }

  lemma TreeShrunk(st: State, st': State)
    requires Tree(st) && Shape(st') && st'.dstart == st.dstart && |st'.disk| == |st.disk|
    requires forall t :: Ptr(st', t) == Ptr(st, t) || Ptr(st', t) == 0
    ensures Tree(st')
  {
    forall x, y
      ensures Apart(st', x, y)
    {
      assert Apart(st, x, y);
    }
  }

  /** t is a word of p's block that blk clears, or is read through one. */
  predicate Cleared(p: Slot, blk: Block, t: Slot)
    requires IsAddr(p)
  {
    || (t == Kid(p, Index(t)) && Index(t) < NADDR && blk[Index(t)] == 0)
    || (p.Top? && p.i == DIND && t.Leaf? && t.ino == p.ino && t.i < NADDR && blk[t.i] == 0)
  }

  /** Clearing some words of an address block. */
  lemma ClearWords(st: State, p: Slot, blk: Block)
    requires Tree(st) && IsAddr(p) && Ptr(st, p) != 0
    requires forall k :: 0 <= k < NADDR ==> blk[k] == 0 || blk[k] == st.disk[Ptr(st, p)][k]
    ensures var st' := st.(disk := st.disk[Ptr(st, p) := blk]);
            && Tree(st')
            && (forall t :: Ptr(st', t) == if Cleared(p, blk, t) then 0 else Ptr(st, t))
            && (forall t :: IsData(t) && !Cleared(p, blk, t) ==> Content(st', t) == Content(st, t))
  {
    var b := Ptr(st, p);
    var st' := st.(disk := st.disk[b := blk]);
    forall t
      ensures Ptr(st', t) == if Cleared(p, blk, t) then 0 else Ptr(st, t)
    {
      ClearWordsPtr(st, p, blk, t);
    }
    TreeShrunk(st, st');
    forall t | IsData(t) && !Cleared(p, blk, t)
      ensures Content(st', t) == Content(st, t)
    {
      assert Apart(st, p, t);
    }
  }

  lemma ClearWordsPtr(st: State, p: Slot, blk: Block, t: Slot)
    requires Tree(st) && IsAddr(p) && Ptr(st, p) != 0
    requires forall k :: 0 <= k < NADDR ==> blk[k] == 0 || blk[k] == st.disk[Ptr(st, p)][k]
    ensures Ptr(st.(disk := st.disk[Ptr(st, p) := blk]), t) == if Cleared(p, blk, t) then 0 else Ptr(st, t)
  {
    var b := Ptr(st, p);
    var st' := st.(disk := st.disk[b := blk]);
    match t {
      case Top(_, _) =>
      case Ind(n, j) =>
        assert Apart(st, p, Top(n, IND));
      case Dbl(n, i) =>
        assert Apart(st, p, Top(n, DIND));
      case Leaf(n, i, j) =>
        assert Apart(st, p, Top(n, DIND));
        assert Apart(st, p, Dbl(n, i));
        assert Apart(st, Top(n, DIND), Dbl(n, i));
    }
  }

  /** Clearing a slot whose own reference, and all those below it, have been let go. */
  lemma CutEffect(st: State, s: Slot, unc: set<Slot>)
    requires Tree(st) && Counts(st, unc, multiset{}) && Present(st, s)
    requires forall t :: t in unc ==> t == s || Below(t, s)
    requires forall t :: t == s || Below(t, s) ==> t in unc || Ptr(st, t) == 0
    ensures var st' := Store(st, s, 0);
            && Inv(st')
            && (forall t :: Ptr(st', t) == if t == s || Below(t, s) then 0 else Ptr(st, t))
            && (forall t :: t != s && !Below(t, s) && IsData(t) ==> Content(st', t) == Content(st, t))
  {
    hide Counts;
    StoreNull(st, s);
    CountsAgree(st, Store(st, s, 0), unc, {}, multiset{});
  }

  /** Blocks [lo, hi) of file n become holes; every other block of every file keeps its place
      and its bytes. */
  ghost predicate Cut(st: State, st': State, n: nat, lo: nat, hi: nat)
  {
    forall t :: IsData(t) ==>
      if t.ino == n && lo <= BlockOf(t) < hi then Ptr(st', t) == 0
      else Ptr(st', t) == Ptr(st, t) && Content(st', t) == Content(st, t)
  }

  lemma CutJoin(st0: State, st1: State, st2: State, n: nat, a: nat, b: nat, c: nat)
    requires a <= b <= c
    requires (Cut(st0, st1, n, a, b) && Cut(st1, st2, n, b, c)) || (Cut(st0, st1, n, b, c) && Cut(st1, st2, n, a, b))
    ensures Cut(st0, st2, n, a, c)
  {}

  lemma CutNothing(st: State, st': State, n: nat, lo: nat, hi: nat)
    requires SamePtrs(st, st') && SameData(st, st')
    requires forall t :: IsData(t) && t.ino == n && lo <= BlockOf(t) < hi ==> Ptr(st, t) == 0
    ensures Cut(st, st', n, lo, hi)
  {}

  /** The part of the file that hangs below slot s of inode n. */
  function SpanStart(s: Slot): nat
  {
    match s
    case Top(_, i) => if i < NDIRECT then i else if i == IND then NDIRECT else NDIRECT + NADDR
    case Ind(_, j) => NDIRECT + j
    case Dbl(_, i) => NDIRECT + NADDR + NADDR * i
    case Leaf(_, i, j) => NDIRECT + NADDR + NADDR * i + j
  }

  function SpanEnd(s: Slot): nat
  {
    match s
    case Top(_, i) => if i < NDIRECT then i + 1 else if i == IND then NDIRECT + NADDR else MAXFILE
    case Ind(_, j) => NDIRECT + j + 1
    case Dbl(_, i) => NDIRECT + NADDR + NADDR * i + NADDR
    case Leaf(_, i, j) => NDIRECT + NADDR + NADDR * i + j + 1
  }

  /** The data slots at or below s are the blocks of s's span. */
  lemma SpanMeaning(s: Slot, t: Slot)
    requires IsData(t) && InRange(s.ino + 1, s)
    ensures t == s || Below(t, s) <==> t.ino == s.ino && SpanStart(s) <= BlockOf(t) < SpanEnd(s)
  {
    BlockOfBijection(t);
  }

  lemma CutSpan(st: State, st': State, s: Slot)
    requires InRange(s.ino + 1, s)
    requires forall t :: IsData(t) ==> Ptr(st', t) == if t == s || Below(t, s) then 0 else Ptr(st, t)
    requires forall t :: IsData(t) && t != s && !Below(t, s) ==> Content(st', t) == Content(st, t)
    ensures Cut(st, st', s.ino, SpanStart(s), SpanEnd(s))
  {
    forall t | IsData(t)
      ensures t == s || Below(t, s) <==> t.ino == s.ino && SpanStart(s) <= BlockOf(t) < SpanEnd(s)
    {
      SpanMeaning(s, t);
    }
  }

  // ---------------------------------------------------------------- cloning

  /** Copying a data pointer into an empty slot, before its reference is taken. */
  lemma CopyPtrEffect(st: State, s: Slot, from: Slot)
    requires Inv(st) && Present(st, s) && IsData(s) && IsData(from) && Ptr(st, s) == 0
    ensures Ptr(st, from) < UINT_LIMIT
    ensures var v := Ptr(st, from); var st' := Store(st, s, v);
            && Tree(st') && Counts(st', {s}, multiset{}) && SameBut(st, st', s) && Ptr(st', s) == v
            && (v == 0 ==> Inv(st')) && (v != 0 ==> st'.ref[v] > 0)
  {
    hide Counts;
    var v := Ptr(st, from);
    if v != 0 {
      forall t | IsAddr(t)
        ensures Ptr(st, t) != v
      {
        DataTargetNotAddr(st, from, t);
      }
      CountedPositive(st, {}, multiset{}, from);
    }
    StoreData(st, s, v);
    CountsAgree(st, Store(st, s, v), {}, {s}, multiset{});
    if v == 0 {
      CountsAgree(st, Store(st, s, v), {}, {}, multiset{});
    }
  }

  predicate SingleLevel(p: Slot)
  {
    p.Dbl? || (p.Top? && p.i == IND)
  }

  /** Copying the address block at q over the empty one at p, before any reference is taken. */
  lemma CopyBlockEffect(st: State, q: Slot, p: Slot)
    requires Inv(st) && SingleLevel(q) && SingleLevel(p) && q.Dbl? == p.Dbl? && q != p && Ptr(st, q) != 0
             && Ptr(st, p) != 0
    requires (q.Dbl? ==> q.i < NADDR) && (p.Dbl? ==> p.i < NADDR)
    requires st.disk[Ptr(st, p)] == ZeroBlock()
    ensures var st' := st.(disk := st.disk[Ptr(st, p) := st.disk[Ptr(st, q)]]);
            && Tree(st') && Counts(st', Kids(p, 0, NADDR), multiset{})
            && (forall t :: Ptr(st', t) == if t in Kids(p, 0, NADDR) then Ptr(st, Kid(q, Index(t))) else Ptr(st, t))
            && (forall t :: IsData(t) ==>
                Content(st', t) == Content(st, if t in Kids(p, 0, NADDR) then Kid(q, Index(t)) else t))
  {
    hide Counts;
    var b := Ptr(st, p);
    var st' := st.(disk := st.disk[b := st.disk[Ptr(st, q)]]);
    var kids := Kids(p, 0, NADDR);
    assert Apart(st, p, q);
    forall t
      ensures Ptr(st', t) == if t in kids then Ptr(st, Kid(q, Index(t))) else Ptr(st, t)
      ensures t in kids ==> Ptr(st, t) == 0
    {
      CopyBlockPtr(st, q, p, t);
    }
    forall x, y
      ensures Apart(st', x, y)
    {
      assert Apart(st, x, y);
      assert Apart(st, x, Kid(q, Index(y)));
      assert IsAddr(x) ==> x !in kids;
    }
    forall t | IsData(t)
      ensures Content(st', t) == Content(st, if t in kids then Kid(q, Index(t)) else t)
    {
      assert Apart(st, p, t);
      assert Apart(st, p, Kid(q, Index(t)));
    }
    CountsAgree(st, st', {}, kids, multiset{});
  }

  lemma CopyBlockPtr(st: State, q: Slot, p: Slot, t: Slot)
    requires Tree(st) && SingleLevel(q) && SingleLevel(p) && q != p && Ptr(st, q) != 0 && Ptr(st, p) != 0
    requires st.disk[Ptr(st, p)] == ZeroBlock()
    ensures var st' := st.(disk := st.disk[Ptr(st, p) := st.disk[Ptr(st, q)]]);
            Ptr(st', t) == if t in Kids(p, 0, NADDR) then Ptr(st, Kid(q, Index(t))) else Ptr(st, t)
    ensures t in Kids(p, 0, NADDR) ==> Ptr(st, t) == 0
  {
    var b := Ptr(st, p);
    assert Apart(st, p, q);
    match t {
      case Top(_, _) =>
      case Ind(n, j) =>
        assert Apart(st, p, Top(n, IND));
      case Dbl(n, i) =>
        assert Apart(st, p, Top(n, DIND));
      case Leaf(n, i, j) =>
        assert Apart(st, p, Top(n, DIND));
        assert Apart(st, p, Dbl(n, i));
    }
  }

  // ---------------------------------------------------------------- counting from scratch

  /** `ref` counts the pointers in the slots outside unc. */
  ghost predicate Tallied(st: State, ref: seq<nat>, unc: set<Slot>)
  {
    |ref| == |st.disk| && forall b :: 0 < b < |st.disk| ==> ref[b] == |Refs(st, unc, b)|
  }

  function Bump(ref: seq<nat>, b: nat): seq<nat>
    requires b < |ref|
  {
    if b == 0 then ref else ref[b := ref[b] + 1]
  }

  lemma TallySlot(st: State, ref: seq<nat>, unc: set<Slot>, s: Slot)
    requires Tree(st) && Tallied(st, ref, unc) && s in unc && InRange(|st.inodes|, s)
    ensures Tallied(st, Bump(ref, Ptr(st, s)), unc - {s})
  {
    forall b | 0 < b < |st.disk|
      ensures Bump(ref, Ptr(st, s))[b] == |Refs(st, unc - {s}, b)|
    {
      assert (unc - {s}) + {s} == unc;
      UncountSlot(st, unc - {s}, s, b);
    }
  }

  lemma TallyAgree(st: State, ref: seq<nat>, unc: set<Slot>, unc': set<Slot>)
    requires Shape(st) && Tallied(st, ref, unc)
    requires forall t :: (if t in unc then 0 else Ptr(st, t)) == (if t in unc' then 0 else Ptr(st, t))
    ensures Tallied(st, ref, unc')
  {
    forall b | 0 < b < |st.disk|
      ensures Refs(st, unc', b) == Refs(st, unc, b)
    {
      RefsAgree(st, st, unc, unc', b);
    }
  }

  /** The slots of inodes n and up. */
  ghost function From(total: nat, n: nat): (r: set<Slot>)
    ensures forall t :: t in r <==> InRange(total, t) && t.ino >= n
  {
    set t | t in AllSlots(total) && t.ino >= n
  }

  lemma TallyNone(st: State, ref: seq<nat>)
    requires Shape(st) && |ref| == |st.disk| && forall b :: 0 <= b < |ref| ==> ref[b] == 0
    ensures Tallied(st, ref, From(|st.inodes|, 0))
  {
    forall b | 0 < b < |st.disk|
      ensures Refs(st, From(|st.inodes|, 0), b) == {}
    {}
  }
}
