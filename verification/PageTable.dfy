/** Sv39 page tables (walk, mappages and uvmunmap of kernel/mm/vm.c) refine a flat map from
    page number to page-table entry.

    A page-table page is 512 64-bit entries; an entry is the physical page number times 1024
    plus ten flag bits, bit 0 being PTE_V.  A virtual page number below 2^26 (MAXVA / 4096)
    selects one entry in each of three levels, nine bits at a time. */
module PageTable {
  import opened Basics

  const NPTE := 512
  const MAXVPN := 0x400_0000          // MAXVA / PGSIZE

  type Table = t: seq<nat> | |t| == 512 witness seq(512, _ => 0)

  function IsValid(pte: nat): bool
  {
    pte % 2 == 1
  }

  /** Valid, and no other flag: what points at a table. */
  predicate NotLeaf(pte: nat)
  {
    pte % 1024 == 1
  }

  /** PTE2PA, in pages. */
  function Ppn(pte: nat): nat
  {
    pte / 1024
  }

  /** PTE_FLAGS. */
  function Flags(pte: nat): nat
  {
    pte % 1024
  }

  /** PA2PTE(pa) | flags. */
  function MakePte(ppn: nat, flags: nat): (r: nat)
    requires flags < 1024
    ensures r / 1024 == ppn && r % 1024 == flags
  {
    ppn * 1024 + flags
  }

  /** flags | PTE_V. */
  function OrValid(flags: nat): (r: nat)
    requires flags < 1024
    ensures r < 1024 && r % 2 == 1 && r / 2 == flags / 2
  {
    if flags % 2 == 1 then flags else flags + 1
  }

  lemma PteRoundTrip(ppn: nat, flags: nat)
    requires flags < 1024
    ensures Ppn(MakePte(ppn, flags)) == ppn && Flags(MakePte(ppn, flags)) == flags
    ensures IsValid(MakePte(ppn, flags)) == (flags % 2 == 1) && NotLeaf(MakePte(ppn, flags)) == (flags == 1)
  {}

  /** And an entry is made of nothing else. */
  lemma PteParts(pte: nat)
    ensures MakePte(Ppn(pte), Flags(pte)) == pte
  {}

  /** PX(level, va) for a page number. */
  function Px(level: nat, vpn: nat): (i: nat)
    ensures i < NPTE
  {
    if level == 0 then vpn % 512 else if level == 1 then vpn / 512 % 512 else vpn / 262144 % 512
  }

  // ---------------------------------------------------------------- the tree

  /** A page-table page, by the way to it from the root. */
  datatype Node = Root | Mid(i: nat) | Low(i: nat, j: nat)

  function Next(mem: seq<Table>, t: nat, i: nat): Option<nat>
  {
    if t < |mem| && i < NPTE && IsValid(mem[t][i]) then Some(Ppn(mem[t][i])) else None
  }

  function Addr(mem: seq<Table>, root: nat, n: Node): Option<nat>
  {
    match n
    case Root => Some(root)
    case Mid(i) => Next(mem, root, i)
    case Low(i, j) =>
      var m := Next(mem, root, i);
      if m.Some? then Next(mem, m.value, j) else None
  }

  /** The table that holds the leaf entry of a page. */
  function LowOf(vpn: nat): Node
  {
    Low(Px(2, vpn), Px(1, vpn))
  }

  /** The flat map: the leaf entry of a page, 0 if there is no table for it. */
  function Flat(mem: seq<Table>, root: nat, vpn: nat): nat
  {
    var t := Addr(mem, root, LowOf(vpn));
    if t.Some? && t.value < |mem| then mem[t.value][Px(0, vpn)] else 0
  }

  /** Every table page is in memory, not free, and reached one way only. */
  ghost predicate Tree(mem: seq<Table>, root: nat, free: seq<nat>)
  {
    && (forall n :: Placed(mem, root, free, n))
    && (forall a, b :: Apart(mem, root, a, b))
    && (forall i :: 0 <= i < |free| ==> free[i] < |mem|)
    && (forall i, j :: 0 <= i < j < |free| ==> free[i] != free[j])
  }

  ghost predicate Placed(mem: seq<Table>, root: nat, free: seq<nat>, n: Node)
  {
    var t := Addr(mem, root, n);
    t.Some? ==> t.value < |mem| && t.value !in free
  }

  ghost predicate Apart(mem: seq<Table>, root: nat, a: Node, b: Node)
  {
    a != b && Addr(mem, root, a).Some? ==> Addr(mem, root, b) != Addr(mem, root, a)
  }

  /** Distinct pages below MAXVA never share a leaf slot. */
  lemma LeafSlotsDistinct(mem: seq<Table>, root: nat, free: seq<nat>, u: nat, v: nat)
    requires Tree(mem, root, free) && u < MAXVPN && v < MAXVPN && u != v
    requires Addr(mem, root, LowOf(u)).Some?
    ensures Addr(mem, root, LowOf(u)) != Addr(mem, root, LowOf(v)) || Px(0, u) != Px(0, v)
  {
    assert Apart(mem, root, LowOf(u), LowOf(v));
    IndicesDetermine(u);
    IndicesDetermine(v);
  }

  /** A page number is put together again from its three indices. */
  lemma IndicesDetermine(v: nat)
    requires v < MAXVPN
    ensures v == 262144 * Px(2, v) + 512 * Px(1, v) + Px(0, v)
  {
    var q := v / 512;
    assert v == 512 * q + v % 512;
    assert q == 512 * (q / 512) + q % 512;
    assert q / 512 == v / 262144;
    assert v / 262144 < 512;
  }

  /** Writing a leaf entry: no table moves, one page's entry changes. */
  lemma SetLeaf(mem: seq<Table>, root: nat, free: seq<nat>, vpn: nat, w: nat)
    requires Tree(mem, root, free) && vpn < MAXVPN && Addr(mem, root, LowOf(vpn)).Some?
    ensures var t := Addr(mem, root, LowOf(vpn)).value;
            t < |mem| &&
            var mem' := mem[t := mem[t][Px(0, vpn) := w]];
            && Tree(mem', root, free) && (forall n :: Addr(mem', root, n) == Addr(mem, root, n))
            && (forall u :: 0 <= u < MAXVPN ==> Flat(mem', root, u) == if u == vpn then w else Flat(mem, root, u))
  {
    assert Placed(mem, root, free, LowOf(vpn));
    var t := Addr(mem, root, LowOf(vpn)).value;
    var mem' := mem[t := mem[t][Px(0, vpn) := w]];
    forall n
      ensures Addr(mem', root, n) == Addr(mem, root, n)
    {
      assert Apart(mem, root, LowOf(vpn), Root);
      if n.Low? {
        assert Apart(mem, root, LowOf(vpn), Mid(n.i));
      }
    }
    TreeSame(mem, mem', root, free);
    forall u | 0 <= u < MAXVPN
      ensures Flat(mem', root, u) == if u == vpn then w else Flat(mem, root, u)
    {
      if u != vpn {
        LeafSlotsDistinct(mem, root, free, vpn, u);
      }
      assert Placed(mem, root, free, LowOf(u));
    }
  }

  lemma TreeSame(mem: seq<Table>, mem': seq<Table>, root: nat, free: seq<nat>)
    requires Tree(mem, root, free) && |mem'| == |mem| && forall n :: Addr(mem', root, n) == Addr(mem, root, n)
    ensures Tree(mem', root, free)
  {
    forall n ensures Placed(mem', root, free, n) { assert Placed(mem, root, free, n); }
    forall a, b ensures Apart(mem', root, a, b) { assert Apart(mem, root, a, b); }
  }

  /** The tables that an entry of node n leads to. */
  predicate Child(n: Node, i: nat, c: Node)
  {
    (n == Root && c == Mid(i)) || (n.Mid? && c == Low(n.i, i))
  }

  function Grown(mem: seq<Table>, t: nat, i: nat, p: nat): seq<Table>
    requires t < |mem| && p < |mem| && i < NPTE
  {
    var zeroed := mem[p := seq(512, _ => 0)];
    zeroed[t := zeroed[t][i := MakePte(p, 1)]]
  }

  /** Hanging a zeroed free page below an empty entry: one more table, the same flat map. */
  lemma Grow(mem: seq<Table>, root: nat, free: seq<nat>, n: Node, i: nat, c: Node)
    requires Tree(mem, root, free) && free != [] && i < NPTE && Child(n, i, c)
    requires Addr(mem, root, n).Some? && Addr(mem, root, c).None?
    ensures Addr(mem, root, n).value < |mem| && free[0] < |mem|
    ensures var mem' := Grown(mem, Addr(mem, root, n).value, i, free[0]);
            && Tree(mem', root, free[1..]) && Addr(mem', root, c) == Some(free[0])
            && (forall b :: b != c ==> Addr(mem', root, b) == Addr(mem, root, b))
            && (forall u :: 0 <= u < MAXVPN ==> Flat(mem', root, u) == Flat(mem, root, u))
  {
    assert Placed(mem, root, free, n);
    var t, p := Addr(mem, root, n).value, free[0];
    assert p in free;
    var mem' := Grown(mem, t, i, p);
    PteRoundTrip(p, 1);
    forall b
      ensures Addr(mem', root, b) == if b == c then Some(p) else Addr(mem, root, b)
    {
      GrowAddr(mem, root, free, n, i, c, b);
    }
    GrowTree(mem, mem', root, free, c);
    forall u | 0 <= u < MAXVPN
      ensures Flat(mem', root, u) == Flat(mem, root, u)
    {
      assert Placed(mem, root, free, LowOf(u));
      assert Apart(mem, root, n, LowOf(u));
    }
  }

  lemma GrowAddr(mem: seq<Table>, root: nat, free: seq<nat>, n: Node, i: nat, c: Node, b: Node)
    requires Tree(mem, root, free) && free != [] && i < NPTE && Child(n, i, c)
    requires Addr(mem, root, n).Some? && Addr(mem, root, c).None? && Addr(mem, root, n).value < |mem| && free[0] < |mem|
    ensures var mem' := Grown(mem, Addr(mem, root, n).value, i, free[0]);
            Addr(mem', root, b) == if b == c then Some(free[0]) else Addr(mem, root, b)
  {
    hide Tree, Ppn, MakePte;
    var p := free[0];
    PteRoundTrip(p, 1);
    NewIsFresh(mem, root, free, n, Root);
    if b.Low? {
      NewIsFresh(mem, root, free, n, Mid(b.i));
    }
  }

  /** The page about to be added is none of the tables, and tables lie apart. */
  lemma NewIsFresh(mem: seq<Table>, root: nat, free: seq<nat>, n: Node, b: Node)
    requires Tree(mem, root, free) && free != []
    ensures Addr(mem, root, b) != Some(free[0])
    ensures b != n && Addr(mem, root, n).Some? ==> Addr(mem, root, b) != Addr(mem, root, n)
  {
    assert free[0] in free;
    assert Placed(mem, root, free, b) && Apart(mem, root, n, b);
  }

  lemma GrowTree(mem: seq<Table>, mem': seq<Table>, root: nat, free: seq<nat>, c: Node)
    requires Tree(mem, root, free) && free != [] && |mem'| == |mem|
    requires forall b :: Addr(mem', root, b) == if b == c then Some(free[0]) else Addr(mem, root, b)
    ensures Tree(mem', root, free[1..])
  {
    var rest := free[1..];
    assert free[0] in free && free[0] !in rest;
    assert forall x :: x in rest ==> x in free;
    forall n ensures Placed(mem', root, rest, n) { assert Placed(mem, root, free, n); }
    forall a, b
      ensures Apart(mem', root, a, b)
    {
      assert Apart(mem, root, a, b) && Placed(mem, root, free, a) && Placed(mem, root, free, b);
    }
  }

  // ---------------------------------------------------------------- vm.c

  class PageTables {
    const root: nat
    var mem: seq<Table>
    var free: seq<nat>                // pages kalloc can still hand out

    /** An empty page table, as uvmcreate makes it. */
    constructor (pages: nat, r: nat, spare: seq<nat>)
      requires r < pages && r !in spare && forall i :: 0 <= i < |spare| ==> spare[i] < pages
      requires forall i, j :: 0 <= i < j < |spare| ==> spare[i] != spare[j]
      ensures Valid() && free == spare && forall v :: 0 <= v < MAXVPN ==> Flat(mem, root, v) == 0
    {
      root := r;
      mem := seq(pages, _ => seq(512, _ => 0));
      free := spare;
      new;
      forall n ensures Addr(mem, root, n) == if n == Root then Some(root) else None {}
      forall n ensures Placed(mem, root, free, n) {}
      forall a, b ensures Apart(mem, root, a, b) {}
    }

    ghost predicate Valid()
      reads this
    {
      Tree(mem, root, free)
    }

    ghost predicate SameFlat(was: seq<Table>)
      reads this
    {
      forall v :: 0 <= v < MAXVPN ==> Flat(mem, root, v) == Flat(was, root, v)
    }

    /** One level of walk: follow the entry, or hang a new zeroed page below it. */
    method Descend(t: nat, i: nat, alloc: bool, ghost n: Node, ghost c: Node) returns (r: Option<nat>)
      requires Valid() && i < NPTE && Child(n, i, c) && Addr(mem, root, n) == Some(t)
      modifies this`mem, this`free
      ensures Valid() && SameFlat(old(mem)) && |mem| == |old(mem)|
      ensures r == Addr(mem, root, c)
      ensures r.None? ==> !alloc || old(free) == []
      ensures !alloc || r.None? ==> mem == old(mem) && free == old(free)
      ensures forall b :: b != c ==> Addr(mem, root, b) == Addr(old(mem), root, b)
      ensures Addr(old(mem), root, c).Some? ==> mem == old(mem)
    {
      assert Placed(mem, root, free, n);
      var pte := mem[t][i];
      if IsValid(pte) {
        return Some(Ppn(pte));
      }
      if !alloc || free == [] {
        return None;
      }
      Grow(mem, root, free, n, i, c);
      var p := free[0];
      free := free[1..];
      mem := mem[p := seq(512, _ => 0)];
      mem := mem[t := mem[t][i := MakePte(p, 1)]];
      return Some(p);
    }

    /** walk: the table of the leaf entry of page vpn.  The flat map never changes; without
        alloc nothing does. */
    method Walk(vpn: nat, alloc: bool) returns (r: Option<nat>)
      requires Valid() && vpn < MAXVPN                       // panic "walk"
      modifies this`mem, this`free
      ensures Valid() && SameFlat(old(mem)) && |mem| == |old(mem)|
      ensures r == Addr(mem, root, LowOf(vpn))
      ensures r.None? ==> !alloc || free == []
      ensures !alloc ==> mem == old(mem) && free == old(free)
    {
      hide Tree, Addr;
      RootAddr(mem, root);
      r := Descend(root, Px(2, vpn), alloc, Root, Mid(Px(2, vpn)));
      if r.None? {
        NoMid(mem, root, vpn);
        return;
      }
      r := Descend(r.value, Px(1, vpn), alloc, Mid(Px(2, vpn)), LowOf(vpn));
    }

    /** `*pte = w`. */
    method SetPte(vpn: nat, t: nat, w: nat)
      requires Valid() && vpn < MAXVPN && Addr(mem, root, LowOf(vpn)) == Some(t)
      modifies this`mem
      ensures Valid() && |mem| == |old(mem)|
      ensures forall v :: 0 <= v < MAXVPN ==> Flat(mem, root, v) == if v == vpn then w else Flat(old(mem), root, v)
    {
      SetLeaf(mem, root, free, vpn, w);
      mem := mem[t := mem[t][Px(0, vpn) := w]];
    }

    method GetPte(vpn: nat, t: nat) returns (w: nat)
      requires Valid() && vpn < MAXVPN && Addr(mem, root, LowOf(vpn)) == Some(t)
      ensures w == Flat(mem, root, vpn)
    {
      assert Placed(mem, root, free, LowOf(vpn));
      w := mem[t][Px(0, vpn)];
    }

    /** mappages: the pages from va to va + size - 1, one by one.  `done` pages are mapped and
        no other entry changes; it stops early only for want of a page-table page (-1) or at
        a page that is already mapped (the panic "remap", -2). */
    method Mappages(va: nat, size: nat, pa: nat, perm: nat) returns (r: int, done: nat)
      requires Valid() && 0 < size && (va + size - 1) / PGSIZE < MAXVPN && perm < 1024
      modifies this`mem, this`free
      ensures Valid()
      ensures var first, last := va / PGSIZE, (va + size - 1) / PGSIZE;
              && done <= last - first + 1
              && (r == 0 <==> done == last - first + 1) && (r == 0 || r == -1 || r == -2)
              && (r == -1 ==> free == [])
              && (r == -2 ==> IsValid(Flat(old(mem), root, first + done)))
              && (forall v :: first <= v < first + done ==> !IsValid(Flat(old(mem), root, v)))
              && forall v :: 0 <= v < MAXVPN ==>
                   Flat(mem, root, v) ==
                   if first <= v < first + done then MakePte(pa / PGSIZE + (v - first), OrValid(perm))
                   else Flat(old(mem), root, v)
    {
      hide Tree, Addr, Flat, IsValid, MakePte;
      var a := va / PGSIZE;
      var last := (va + size - 1) / PGSIZE;
      var p := pa / PGSIZE;
      ghost var first := a;
      done := 0;
      while true
        invariant first <= a <= last && a == first + done && p == pa / PGSIZE + done && Valid()
        invariant forall v :: first <= v < first + done ==> !IsValid(Flat(old(mem), root, v))
        invariant forall v :: 0 <= v < MAXVPN ==>
                    Flat(mem, root, v) ==
                    if first <= v < first + done then MakePte(pa / PGSIZE + (v - first), OrValid(perm))
                    else Flat(old(mem), root, v)
        decreases last - a
      {
        var t := Walk(a, true);
        if t.None? {
          return -1, done;
        }
        var pte := GetPte(a, t.value);
        if IsValid(pte) {
          return -2, done;
        }
        SetPte(a, t.value, MakePte(p, OrValid(perm)));
        done := done + 1;
        if a == last {
          break;
        }
        a := a + 1;
        p := p + 1;
      }
      r := 0;
    }

    /** uvmunmap of npages pages from page vpn on, without freeing: those entries become 0 and
        no other changes.  False: the panic "uvmunmap: not a leaf". */
    method Uvmunmap(vpn: nat, npages: nat) returns (ok: bool)
      requires Valid() && vpn + npages <= MAXVPN
      modifies this`mem, this`free
      ensures Valid()
      ensures free == old(free)
      ensures ok <==> forall v :: vpn <= v < vpn + npages ==> !NotLeaf(Flat(old(mem), root, v))
      ensures ok ==> forall v :: 0 <= v < MAXVPN ==>
                Flat(mem, root, v) == if vpn <= v < vpn + npages then 0 else Flat(old(mem), root, v)
    {
      hide Tree, Addr, Flat, NotLeaf;
      var a := vpn;
      while a < vpn + npages
        invariant vpn <= a <= vpn + npages && Valid() && free == old(free)
        invariant forall v :: vpn <= v < a ==> !NotLeaf(Flat(old(mem), root, v))
        invariant forall v :: 0 <= v < MAXVPN ==>
                    Flat(mem, root, v) == if vpn <= v < a then 0 else Flat(old(mem), root, v)
      {
        var t := Walk(a, false);
        if t.None? {
          NoTableNoEntry(mem, root, a);
          assert !NotLeaf(0) by { ZeroIsLeaf(); }
        } else {
          var pte := GetPte(a, t.value);
          if NotLeaf(pte) {
            return false;
          }
          SetPte(a, t.value, 0);
        }
        a := a + 1;
      }
      return true;
    }
  }

  lemma ZeroIsLeaf()
    ensures !NotLeaf(0)
  {}

  lemma NoTableNoEntry(mem: seq<Table>, root: nat, vpn: nat)
    requires Addr(mem, root, LowOf(vpn)).None?
    ensures Flat(mem, root, vpn) == 0
  {}

  lemma RootAddr(mem: seq<Table>, root: nat)
    ensures Addr(mem, root, Root) == Some(root)
  {}

  lemma NoMid(mem: seq<Table>, root: nat, vpn: nat)
    requires Addr(mem, root, Mid(Px(2, vpn))).None?
    ensures Addr(mem, root, LowOf(vpn)).None?
  {}
}
