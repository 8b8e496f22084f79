/** Copy-on-write fork (kernel/mm/vm.c, kernel/mm/kalloc.c) refines eager copying.

    The page tables are taken as the flat maps that PageTable proves them to be: one entry
    per (process, page number).  Physical pages carry reference counts; a page shared by a
    fork is mapped with PTE_F set and PTE_W clear until a store gives its process a private
    copy.  The specification has no sharing: every process owns the contents of its pages. */
module CowFork {
  import opened Basics
  import opened Counting

  type Page = p: seq<Byte> | |p| == 4096 witness seq(4096, _ => 0)

  /** An offset in a page. */
  type Offset = x: int | 0 <= x < 4096

  /** A user page of a process. */
  datatype Va = Va(pid: nat, vpn: nat)

  /** A valid leaf entry: physical page, PTE_W, PTE_F. */
  datatype Pte = Pte(ppn: nat, w: bool, f: bool)

  /** memset(pa, b, PGSIZE). */
  function Junk(b: Byte): (r: Page)
    ensures forall i :: 0 <= i < PGSIZE ==> r[i] == b
  {
    seq(4096, _ => b)
  }

  /** The first CPU from c on whose list has pages. */
  function FirstFull(free: seq<seq<nat>>, c: nat): nat
    decreases |free| - c
  {
    if c >= |free| || free[c] != [] then c else FirstFull(free, c + 1)
  }

  /** The list a page for this CPU comes from: its own if it has pages, else the first that has. */
  function ListFor(free: seq<seq<nat>>, cpu: nat): nat
  {
    if cpu < |free| && free[cpu] != [] then cpu else FirstFull(free, 0)
  }

  // ---------------------------------------------------------------- the state as a value

  ghost function Maps(pt: map<Va, Pte>, p: nat): set<Va>
  {
    set v | v in pt && pt[v].ppn == p
  }

  /** The page of every entry exists, writable excludes copy-on-write, and a writable page is
      mapped once. */
  ghost predicate PtOk(pt: map<Va, Pte>, pages: nat)
  {
    && (forall v :: v in pt ==> pt[v].ppn < pages && !(pt[v].w && pt[v].f))
    && (forall u, v :: u in pt && v in pt && u != v && pt[u].w ==> pt[v].ppn != pt[u].ppn)
  }

  /** A page's count is the number of entries that map it; a kernel page has one owner and is
      mapped by nobody. */
  ghost predicate CountsOk(pt: map<Va, Pte>, cnt: seq<nat>, kernel: set<nat>)
  {
    forall p :: 0 <= p < |cnt| ==> cnt[p] == |Maps(pt, p)| + (if p in kernel then 1 else 0)
  }

  ghost predicate ListOk(cnt: seq<nat>, list: seq<nat>)
  {
    NoDup(list) && forall p :: p in list ==> p < |cnt| && cnt[p] == 0
  }

  ghost predicate Disjoint(a: seq<nat>, b: seq<nat>)
  {
    forall p :: p in a ==> p !in b
  }

  ghost predicate OnList(free: seq<seq<nat>>, p: nat)
  {
    exists c :: 0 <= c < |free| && p in free[c]
  }

  /** The free lists hold exactly the pages with count 0, each once. */
  ghost predicate FreeOk(cnt: seq<nat>, free: seq<seq<nat>>)
  {
    && |free| == NCPU
    && (forall c :: 0 <= c < NCPU ==> ListOk(cnt, free[c]))
    && (forall p :: 0 <= p < |cnt| && cnt[p] == 0 ==> OnList(free, p))
    && (forall c, d :: 0 <= c < NCPU && 0 <= d < NCPU && c != d ==> Disjoint(free[c], free[d]))
  }

  /** The kernel's own pages exist and are mapped by nobody. */
  ghost predicate KernelOk(pt: map<Va, Pte>, kernel: set<nat>, pages: nat)
  {
    (forall p :: p in kernel ==> p < pages) && forall v :: v in pt ==> pt[v].ppn !in kernel
  }

  /** With empty lists every page is in use. */
  lemma NothingFree(cnt: seq<nat>, free: seq<seq<nat>>)
    requires FreeOk(cnt, free) && forall c :: 0 <= c < |free| ==> free[c] == []
    ensures forall p :: 0 <= p < |cnt| ==> cnt[p] > 0
  {
    forall p | 0 <= p < |cnt|
      ensures !OnList(free, p)
    {
    }
  }

  /** Taking the head of a free list. */
  lemma PopOk(cnt: seq<nat>, free: seq<seq<nat>>, c: nat)
    requires FreeOk(cnt, free) && c < NCPU && free[c] != []
    ensures free[c][0] < |cnt| && cnt[free[c][0]] == 0
    ensures FreeOk(cnt[free[c][0] := 1], free[c := free[c][1..]])
  {
    var p, rest := free[c][0], free[c][1..];
    assert ListOk(cnt, free[c]) && free[c] == [p] + rest;
    assert p in free[c];
    forall x | x in rest
      ensures x in free[c] && x != p
    {
      var i :| 0 <= i < |rest| && rest[i] == x;
      assert free[c][i + 1] == x && free[c][0] == p;
    }
    var free', cnt' := free[c := rest], cnt[p := 1];
    forall d | 0 <= d < NCPU
      ensures ListOk(cnt', free'[d])
    {
      assert ListOk(cnt, free[d]);
      assert d != c ==> Disjoint(free[c], free[d]);
    }
    forall d, e | 0 <= d < NCPU && 0 <= e < NCPU && d != e
      ensures Disjoint(free'[d], free'[e])
    {
      assert Disjoint(free[d], free[e]);
    }
    forall x | 0 <= x < |cnt'| && cnt'[x] == 0
      ensures OnList(free', x)
    {
      assert OnList(free, x);
      var d :| 0 <= d < |free| && x in free[d];
      assert x in free'[d];
    }
  }

  /** Giving back a page whose last reference is gone. */
  lemma PushOk(cnt: seq<nat>, free: seq<seq<nat>>, c: nat, p: nat)
    requires FreeOk(cnt, free) && c < NCPU && p < |cnt| && cnt[p] > 0
    ensures FreeOk(cnt[p := 0], free[c := [p] + free[c]])
  {
    var free', cnt' := free[c := [p] + free[c]], cnt[p := 0];
    assert forall d :: 0 <= d < NCPU ==> ListOk(cnt, free[d]) && p !in free[d];
    forall d | 0 <= d < NCPU
      ensures ListOk(cnt', free'[d])
    {
      assert ListOk(cnt, free[d]);
    }
    forall d, e | 0 <= d < NCPU && 0 <= e < NCPU && d != e
      ensures Disjoint(free'[d], free'[e])
    {
      assert Disjoint(free[d], free[e]);
    }
    assert p in free'[c];
    forall x | 0 <= x < |cnt'| && cnt'[x] == 0
      ensures OnList(free', x)
    {
      if x != p {
        assert OnList(free, x);
        var d :| 0 <= d < |free| && x in free[d];
        assert x in free'[d];
      }
    }
  }

  lemma MapsAdd(pt: map<Va, Pte>, v: Va, e: Pte, p: nat)
    requires v !in pt
    ensures |Maps(pt[v := e], p)| == |Maps(pt, p)| + (if e.ppn == p then 1 else 0)
  {
    assert Maps(pt[v := e], p) == if e.ppn == p then Maps(pt, p) + {v} else Maps(pt, p);
  }

  lemma MapsRemove(pt: map<Va, Pte>, v: Va, p: nat)
    requires v in pt
    ensures |Maps(pt - {v}, p)| == |Maps(pt, p)| - (if pt[v].ppn == p then 1 else 0)
  {
    assert Maps(pt - {v}, p) == if pt[v].ppn == p then Maps(pt, p) - {v} else Maps(pt, p);
  }

  lemma MapsFlags(pt: map<Va, Pte>, v: Va, e: Pte, p: nat)
    requires v in pt && e.ppn == pt[v].ppn
    ensures Maps(pt[v := e], p) == Maps(pt, p)
  {}

  lemma MapsMove(pt: map<Va, Pte>, v: Va, e: Pte, p: nat)
    requires v in pt
    ensures |Maps(pt[v := e], p)| == |Maps(pt, p)| - (if pt[v].ppn == p then 1 else 0) + (if e.ppn == p then 1 else 0)
  {
    MapsRemove(pt, v, p);
    MapsAdd(pt - {v}, v, e, p);
    assert (pt - {v})[v := e] == pt[v := e];
  }

  /** A count of one is a single mapping. */
  lemma CountOneAlone(pt: map<Va, Pte>, cnt: seq<nat>, kernel: set<nat>, u: Va, v: Va)
    requires CountsOk(pt, cnt, kernel) && u in pt && v in pt && u != v && pt[u].ppn < |cnt| && cnt[pt[u].ppn] == 1
    ensures pt[v].ppn != pt[u].ppn
  {
    var m := Maps(pt, pt[u].ppn);
    assert cnt[pt[u].ppn] == |m| + (if pt[u].ppn in kernel then 1 else 0);
    assert u in m;
    assert |m - {u}| == |m| - 1;
    assert v !in m - {u};
  }

  lemma MappedPositive(pt: map<Va, Pte>, cnt: seq<nat>, kernel: set<nat>, v: Va)
    requires CountsOk(pt, cnt, kernel) && v in pt && pt[v].ppn < |cnt|
    ensures cnt[pt[v].ppn] > 0
  {
    assert v in Maps(pt, pt[v].ppn);
  }

  lemma KernelPositive(pt: map<Va, Pte>, cnt: seq<nat>, kernel: set<nat>)
    requires CountsOk(pt, cnt, kernel)
    ensures forall p :: p in kernel && p < |cnt| ==> cnt[p] > 0
  {}

  lemma CountsMove(pt: map<Va, Pte>, cnt: seq<nat>, kernel: set<nat>, v: Va, e: Pte)
    requires CountsOk(pt, cnt, kernel) && v in pt && pt[v].ppn < |cnt| && e.ppn < |cnt| && cnt[e.ppn] == 0
    ensures cnt[pt[v].ppn] > 0 && CountsOk(pt[v := e], cnt[e.ppn := 1][pt[v].ppn := cnt[pt[v].ppn] - 1], kernel)
  {
    MappedPositive(pt, cnt, kernel, v);
    forall p | 0 <= p < |cnt|
      ensures |Maps(pt[v := e], p)| == |Maps(pt, p)| - (if pt[v].ppn == p then 1 else 0) + (if e.ppn == p then 1 else 0)
    {
      MapsMove(pt, v, e, p);
    }
  }

  lemma CountsAdd(pt: map<Va, Pte>, cnt: seq<nat>, kernel: set<nat>, v: Va, e: Pte)
    requires CountsOk(pt, cnt, kernel) && v !in pt && e.ppn < |cnt|
    ensures CountsOk(pt[v := e], cnt[e.ppn := cnt[e.ppn] + 1], kernel)
  {
    forall p | 0 <= p < |cnt|
      ensures |Maps(pt[v := e], p)| == |Maps(pt, p)| + (if e.ppn == p then 1 else 0)
    {
      MapsAdd(pt, v, e, p);
    }
  }

  lemma CountsRemove(pt: map<Va, Pte>, cnt: seq<nat>, kernel: set<nat>, v: Va)
    requires CountsOk(pt, cnt, kernel) && v in pt && pt[v].ppn < |cnt|
    ensures cnt[pt[v].ppn] > 0 && CountsOk(pt - {v}, cnt[pt[v].ppn := cnt[pt[v].ppn] - 1], kernel)
  {
    MappedPositive(pt, cnt, kernel, v);
    forall p | 0 <= p < |cnt|
      ensures |Maps(pt - {v}, p)| == |Maps(pt, p)| - (if pt[v].ppn == p then 1 else 0)
    {
      MapsRemove(pt, v, p);
    }
  }

  lemma CountsFlags(pt: map<Va, Pte>, cnt: seq<nat>, kernel: set<nat>, v: Va, e: Pte)
    requires CountsOk(pt, cnt, kernel) && v in pt && e.ppn == pt[v].ppn
    ensures CountsOk(pt[v := e], cnt, kernel)
  {
    forall p | 0 <= p < |cnt|
      ensures Maps(pt[v := e], p) == Maps(pt, p)
    {
      MapsFlags(pt, v, e, p);
    }
  }

  /** Another reference to a page in use does not concern the free lists. */
  lemma FreeSame(cnt: seq<nat>, cnt': seq<nat>, free: seq<seq<nat>>)
    requires FreeOk(cnt, free) && |cnt'| == |cnt| && forall p :: 0 <= p < |cnt| ==> (cnt[p] == 0 <==> cnt'[p] == 0)
    ensures FreeOk(cnt', free)
  {
    forall c | 0 <= c < NCPU
      ensures ListOk(cnt', free[c])
    {
      assert ListOk(cnt, free[c]);
    }
  }

  // ---------------------------------------------------------------- eager copying

  /** A page as a process sees it. */
  datatype View = View(data: Page, writable: bool)

  /** What every process would own under full copying. */
  ghost function Abs(pt: map<Va, Pte>, mem: seq<Page>): map<Va, View>
    requires forall v :: v in pt ==> pt[v].ppn < |mem|
  {
    map v | v in pt :: View(mem[pt[v].ppn], pt[v].w || pt[v].f)
  }

  /** fork: the child gets its own copy of the parent's first n pages. */
  ghost function ForkSpec(a: map<Va, View>, parent: nat, child: nat, n: nat): map<Va, View>
  {
    a + (map v | v in ChildPages(a, parent, child, n) && Va(parent, v.vpn) in a :: a[Va(parent, v.vpn)])
  }

  ghost function ChildPages(a: map<Va, View>, parent: nat, child: nat, n: nat): set<Va>
  {
    set u | u in a && u.pid == parent && u.vpn < n :: Va(child, u.vpn)
  }

  /** A private copy in an unmapped page shows the same bytes. */
  lemma MovedView(pt: map<Va, Pte>, mem: seq<Page>, mem': seq<Page>, v: Va, e: Pte)
    requires PtOk(pt, |mem|) && v in pt && pt[v].f && |mem'| == |mem| && e.ppn < |mem| && e.w && !e.f
    requires forall u :: u in pt ==> pt[u].ppn != e.ppn
    requires mem'[e.ppn] == mem[pt[v].ppn] && forall u :: u in pt ==> mem'[pt[u].ppn] == mem[pt[u].ppn]
    ensures PtOk(pt[v := e], |mem'|) && Abs(pt[v := e], mem') == Abs(pt, mem)
  {
    var pt' := pt[v := e];
    assert pt'.Keys == pt.Keys;
    forall u | u in pt
      ensures mem'[pt'[u].ppn] == mem[pt[u].ppn]
    {
    }
  }

  /** A page that only v maps may be made writable in place. */
  lemma AloneView(pt: map<Va, Pte>, mem: seq<Page>, v: Va)
    requires PtOk(pt, |mem|) && v in pt && pt[v].f && forall u :: u in pt && u != v ==> pt[u].ppn != pt[v].ppn
    ensures var e := Pte(pt[v].ppn, true, false);
            PtOk(pt[v := e], |mem|) && Abs(pt[v := e], mem) == Abs(pt, mem)
  {}

  /** Only v's page differs, and that in one byte, which is now b. */
  ghost predicate OneByte(a: map<Va, View>, a': map<Va, View>, v: Va, off: nat, b: Byte)
  {
    && a'.Keys == a.Keys && v in a && off < PGSIZE
    && a'[v].writable == a[v].writable && a'[v].data[off] == b
    && (forall i :: 0 <= i < PGSIZE && i != off ==> a'[v].data[i] == a[v].data[i])
    && forall u :: u in a && u != v ==> a'[u] == a[u]
  }

  lemma StoreMeans(a: map<Va, View>, v: Va, off: nat, b: Byte)
    requires off < PGSIZE && v in a && a[v].writable
    ensures OneByte(a, StoreSpec(a, v, off, b), v, off, b)
  {}

  /** A store by one process: seen by that process, and only if it may write there. */
  ghost function StoreSpec(a: map<Va, View>, v: Va, off: nat, b: Byte): map<Va, View>
    requires off < PGSIZE
  {
    if v in a && a[v].writable then a[v := View(a[v].data[off := b], true)] else a
  }

  ghost function ExitSpec(a: map<Va, View>, pid: nat, n: nat): map<Va, View>
  {
    map v | v in a && !(v.pid == pid && v.vpn < n) :: a[v]
  }

  // ---------------------------------------------------------------- kalloc.c

  class Vm {
    var mem: seq<Page>
    var cnt: seq<nat>
    var free: seq<seq<nat>>
    var pt: map<Va, Pte>
    var kernel: set<nat>                // pages the kernel itself owns, page tables among them

    /** kinit: every page free, on the boot CPU's list. */
    constructor (pages: nat)
      ensures Valid() && pt == map[] && kernel == {} && |mem| == pages
    {
      mem := seq(pages, _ => seq(4096, _ => 1));
      cnt := seq(pages, _ => 0);
      free := [seq(pages, i => i)] + seq(NCPU - 1, _ => []);
      pt := map[];
      kernel := {};
      new;
      forall p | 0 <= p < pages
        ensures OnList(free, p) && Maps(pt, p) == {}
      {
        assert free[0][p] == p;
      }
      forall c | 0 <= c < NCPU
        ensures ListOk(cnt, free[c])
      {}
    }

    ghost predicate Valid()
      reads this
    {
      && |mem| == |cnt| && PtOk(pt, |mem|) && CountsOk(pt, cnt, kernel) && FreeOk(cnt, free)
      && KernelOk(pt, kernel, |mem|)
    }

    /** Every page is in use. */
    ghost predicate Full()
      reads this`cnt
    {
      forall p :: 0 <= p < |cnt| ==> cnt[p] > 0
    }

    /** v maps a copy-on-write page that is counted more than once. */
    ghost predicate Shared(v: Va)
      reads this`pt, this`cnt
    {
      v in pt && pt[v].f && pt[v].ppn < |cnt| && cnt[pt[v].ppn] > 1
    }

    /** kfree: one reference less; the last one junks the page and puts it on a free list. */
    method Kfree(p: nat, cpu: nat)
      requires FreeOk(cnt, free) && |mem| == |cnt| && p < |cnt| && cnt[p] > 0 && cpu < NCPU
      modifies this`mem, this`cnt, this`free
      ensures FreeOk(cnt, free) && cnt == old(cnt)[p := old(cnt)[p] - 1] && |mem| == |old(mem)|
      ensures mem == if old(cnt)[p] == 1 then old(mem)[p := Junk(1)] else old(mem)
      ensures |old(free)| == NCPU
              && free == if old(cnt)[p] == 1 then old(free)[cpu := [p] + old(free)[cpu]] else old(free)
    {
      cnt := cnt[p := cnt[p] - 1];
      if cnt[p] == 0 {
        PushOk(old(cnt), free, cpu, p);
        mem := mem[p := Junk(1)];
        free := free[cpu := [p] + free[cpu]];
      }
    }

    /** kalloc_try: the CPU's own list first, then the others' in order. */
    method KallocTry(cpu: nat) returns (r: Option<nat>)
      requires FreeOk(cnt, free) && |mem| == |cnt| && cpu < NCPU
      modifies this`mem, this`cnt, this`free
      ensures FreeOk(cnt, free) && |mem| == |old(mem)|
      ensures r.None? <==> forall p :: 0 <= p < |old(cnt)| ==> old(cnt)[p] > 0
      ensures r.None? ==> cnt == old(cnt) && mem == old(mem)
      ensures r.Some? ==> r.value < |old(cnt)| && old(cnt)[r.value] == 0 && cnt == old(cnt)[r.value := 1]
      ensures r.Some? ==> mem == old(mem)[r.value := Junk(5)]
      ensures |old(free)| == NCPU && (r.None? ==> free == old(free))
      ensures r.Some? ==> var c := ListFor(old(free), cpu);
                          && c < NCPU && old(free)[c] != [] && r.value == old(free)[c][0]
                          && free == old(free)[c := old(free)[c][1..]]
    {
      if free[cpu] != [] {
        r := Take(cpu);
        return;
      }
      var c := 0;
      while c < NCPU
        invariant 0 <= c <= NCPU && free[cpu] == []
        invariant forall d :: 0 <= d < c ==> free[d] == []
        invariant free == old(free) && cnt == old(cnt) && mem == old(mem) && FirstFull(free, 0) == FirstFull(free, c)
      {
        if c != cpu && free[c] != [] {
          r := Take(c);
          return;
        }
        c := c + 1;
      }
      NothingFree(cnt, free);
      r := None;
    }

    method Take(c: nat) returns (r: Option<nat>)
      requires FreeOk(cnt, free) && |mem| == |cnt| && c < NCPU && free[c] != []
      modifies this`mem, this`cnt, this`free
      ensures FreeOk(cnt, free) && |mem| == |old(mem)|
      ensures r.Some? && r.value < |old(cnt)| && old(cnt)[r.value] == 0 && cnt == old(cnt)[r.value := 1]
      ensures mem == old(mem)[r.value := Junk(5)] && r.value == old(free)[c][0]
              && free == old(free)[c := old(free)[c][1..]]
    {
      PopOk(cnt, free, c);
      var p := free[c][0];
      free := free[c := free[c][1..]];
      cnt := cnt[p := 1];
      mem := mem[p := Junk(5)];
      r := Some(p);
    }

    // -------------------------------------------------------------- vm.c

    /** cowalloc on a copy-on-write page: a page nobody else maps is made writable in place,
        any other is copied first.  No process sees a difference.  None: the page is shared and
        no page is free. */
    method Cowalloc(v: Va, cpu: nat) returns (r: Option<nat>)
      requires Valid() && v in pt && pt[v].f && cpu < NCPU
      modifies this`mem, this`cnt, this`free, this`pt
      ensures Valid() && Abs(pt, mem) == old(Abs(pt, mem)) && |mem| == old(|mem|)
      ensures r.None? <==> old(Full()) && old(cnt[pt[v].ppn]) > 1
      ensures r.None? ==> pt == old(pt)
      ensures r.Some? ==> v in pt && pt[v] == Pte(r.value, true, false)
    {
      hide CountsOk, FreeOk;
      var pa := pt[v].ppn;
      if cnt[pa] == 1 {
        forall u | u in pt && u != v
          ensures pt[u].ppn != pa
        {
          CountOneAlone(pt, cnt, kernel, v, u);
        }
        AloneView(pt, mem, v);
        CountsFlags(pt, cnt, kernel, v, Pte(pa, true, false));
        pt := pt[v := Pte(pa, true, false)];
        return Some(pa);
      }
      MappedPositive(pt, cnt, kernel, v);
      r := CowCopy(v, cpu);
    }

    /** The copying half of cowalloc. */
    method CowCopy(v: Va, cpu: nat) returns (r: Option<nat>)
      requires Valid() && v in pt && pt[v].f && cnt[pt[v].ppn] > 1 && cpu < NCPU
      modifies this`mem, this`cnt, this`free, this`pt
      ensures Valid() && Abs(pt, mem) == old(Abs(pt, mem)) && |mem| == old(|mem|)
      ensures r.None? <==> old(Full())
      ensures r.None? ==> pt == old(pt)
      ensures r.Some? ==> v in pt && pt[v] == Pte(r.value, true, false)
    {
      hide CountsOk, FreeOk, Abs;
      KernelPositive(pt, cnt, kernel);
      var pa := pt[v].ppn;
      forall u | u in pt
        ensures cnt[pt[u].ppn] > 0
      {
        MappedPositive(pt, cnt, kernel, u);
      }
      r := KallocTry(cpu);
      if r.None? {
        return;
      }
      var copy := r.value;
      var e := Pte(copy, true, false);
      mem := mem[copy := mem[pa]];
      CountsMove(pt, old(cnt), kernel, v, e);
      MovedView(pt, old(mem), mem, v, e);
      pt := pt[v := e];
      ghost var now := mem;
      Kfree(pa, cpu);
      assert mem == now;
    }

    /** A store by a process: to a writable page, or to a copy-on-write page after cowalloc.
        False: the process is killed, and nothing has changed; it may not write there, or the page
        is shared and no page is free. */
    method Store(v: Va, off: Offset, b: Byte, cpu: nat) returns (ok: bool)
      requires Valid() && off < PGSIZE && cpu < NCPU
      modifies this`mem, this`cnt, this`free, this`pt
      ensures Valid() && |mem| == old(|mem|)
      ensures Abs(pt, mem) == if ok then StoreSpec(old(Abs(pt, mem)), v, off, b) else old(Abs(pt, mem))
      ensures ok <==> v in old(pt) && old(Abs(pt, mem))[v].writable && !(old(Full()) && old(Shared(v)))
      ensures ok ==> OneByte(old(Abs(pt, mem)), Abs(pt, mem), v, off, b)
    {
      hide CountsOk, FreeOk, KernelOk, Full, StoreSpec, OneByte;
      if v !in pt {
        return false;
      }
      if pt[v].f {
        var r := Cowalloc(v, cpu);
        if r.None? {
          return false;
        }
      } else if !pt[v].w {
        return false;
      }
      Poke(v, off, b);
      StoreMeans(old(Abs(pt, mem)), v, off, b);
      return true;
    }

    /** The byte goes into a page that only v maps. */
    method Poke(v: Va, off: Offset, b: Byte)
      requires Valid() && v in pt && pt[v].w
      modifies this`mem
      ensures Valid() && |mem| == old(|mem|) && Abs(pt, mem) == StoreSpec(old(Abs(pt, mem)), v, off, b)
    {
      hide CountsOk, FreeOk, KernelOk, Abs;
      var p := pt[v].ppn;
      StoreView(pt, mem, v, off, b);
      mem := mem[p := mem[p][off := b]];
    }

    /** A load sees the process's own page. */
    method Load(v: Va, off: Offset) returns (r: Option<Byte>)
      requires Valid() && off < PGSIZE
      ensures r == if v in pt then Some(Abs(pt, mem)[v].data[off]) else None
    {
      if v !in pt {
        return None;
      }
      return Some(mem[pt[v].ppn][off]);
    }

    /** One page of uvmunmap with do_free: let go of the page, then clear the entry. */
    method Unmap(v: Va, cpu: nat)
      requires Valid() && v in pt && cpu < NCPU
      modifies this`mem, this`cnt, this`free, this`pt
      ensures Valid() && |mem| == old(|mem|) && pt == old(pt) - {v} && Abs(pt, mem) == old(Abs(pt, mem)) - {v}
    {
      hide CountsOk, FreeOk;
      var p := pt[v].ppn;
      if cnt[p] == 1 {
        forall u | u in pt && u != v
          ensures pt[u].ppn != p
        {
          CountOneAlone(pt, cnt, kernel, v, u);
        }
      }
      CountsRemove(pt, cnt, kernel, v);
      Kfree(p, cpu);
      pt := pt - {v};
    }

    /** uvmunmap of pages [0, n) of a process. */
    method Uvmunmap(pid: nat, n: nat, cpu: nat)
      requires Valid() && cpu < NCPU
      modifies this`mem, this`cnt, this`free, this`pt
      ensures Valid() && |mem| == old(|mem|) && Abs(pt, mem) == ExitSpec(old(Abs(pt, mem)), pid, n)
    {
      hide CountsOk, FreeOk, Abs;
      ghost var a := Abs(pt, mem);
      ExitNone(a, pid);
      var i := 0;
      while i < n
        invariant 0 <= i <= n && Valid() && |mem| == old(|mem|) && Abs(pt, mem) == ExitSpec(a, pid, i)
      {
        var v := Va(pid, i);
        AbsDomain(pt, mem);
        ExitStep(a, pid, i);
        if v in pt {
          Unmap(v, cpu);
        }
        i := i + 1;
      }
    }

    /** One page of uvmcopy: a writable page becomes copy-on-write in the parent, and the child
        maps the same page with the same flags. */
    method SharePage(parent: Va, child: Va)
      requires Valid() && parent in pt && child !in pt
      modifies this`cnt, this`pt
      ensures Valid() && Abs(pt, mem) == old(Abs(pt, mem))[child := old(Abs(pt, mem))[parent]]
      ensures pt.Keys == old(pt).Keys + {child}
    {
      hide CountsOk, FreeOk;
      MarkCow(parent);
      ghost var pt1 := pt;
      var e := pt[parent];
      CountsAdd(pt, cnt, kernel, child, e);
      MappedPositive(pt, cnt, kernel, parent);
      FreeSame(cnt, cnt[e.ppn := cnt[e.ppn] + 1], free);
      ShareView(pt, mem, parent, child);
      pt := pt[child := e];
      cnt := cnt[e.ppn := cnt[e.ppn] + 1];
    }

    /** The parent's half: PTE_F in place of PTE_W. */
    method MarkCow(v: Va)
      requires Valid() && v in pt
      modifies this`pt
      ensures Valid() && Abs(pt, mem) == old(Abs(pt, mem)) && v in pt && !pt[v].w && pt.Keys == old(pt).Keys
    {
      hide CountsOk, FreeOk;
      if pt[v].w {
        var e := Pte(pt[v].ppn, false, true);
        CountsFlags(pt, cnt, kernel, v, e);
        MarkView(pt, mem, v);
        pt := pt[v := e];
      }
    }

    /** uvmcopy of the parent's first n pages.  It fails, with the child's pages taken back,
        when mappages cannot get a page-table page; `room` says at which page that happens. */
    method Fork(parent: nat, child: nat, n: nat, room: nat, cpu: nat) returns (ok: bool)
      requires Valid() && parent != child && cpu < NCPU && forall v :: v in pt ==> v.pid != child
      modifies this`mem, this`cnt, this`free, this`pt
      ensures Valid() && |mem| == old(|mem|)
      ensures Abs(pt, mem) == if ok then ForkSpec(old(Abs(pt, mem)), parent, child, n) else old(Abs(pt, mem))
      ensures ok <==> forall i :: room <= i < n ==> Va(parent, i) !in old(pt)
    {
      hide CountsOk, FreeOk, Abs, ForkSpec, ExitSpec;
      ghost var a := Abs(pt, mem);
      AbsDomain(pt, mem);
      ForkNone(a, parent, child);
      var i := 0;
      while i < n
        invariant 0 <= i <= n && Valid() && |mem| == old(|mem|) && Abs(pt, mem) == ForkSpec(a, parent, child, i)
        invariant forall u: Va :: u.pid != child ==> (u in pt <==> u in old(pt))
        invariant forall j :: room <= j < i ==> Va(parent, j) !in old(pt)
      {
        AbsDomain(pt, mem);
        ForkDomain(a, parent, child, i);
        ForkStep(a, parent, child, i);
        if Va(parent, i) in pt {
          if i >= room {
            Uvmunmap(child, i, cpu);
            ForkUndone(a, parent, child, i);
            return false;
          }
          SharePage(Va(parent, i), Va(child, i));
        }
        i := i + 1;
      }
      return true;
    }

    /** A new zeroed, writable page of a process. */
    method Grow(v: Va, cpu: nat) returns (ok: bool)
      requires Valid() && v !in pt && cpu < NCPU
      modifies this`mem, this`cnt, this`free, this`pt
      ensures Valid() && |mem| == old(|mem|)
      ensures ok <==> !old(Full())
      ensures Abs(pt, mem) == if ok then old(Abs(pt, mem))[v := View(seq(4096, _ => 0), true)] else old(Abs(pt, mem))
    {
      hide CountsOk, FreeOk;
      KernelPositive(pt, cnt, kernel);
      forall u | u in pt
        ensures cnt[pt[u].ppn] > 0
      {
        MappedPositive(pt, cnt, kernel, u);
      }
      var r := KallocTry(cpu);
      if r.None? {
        return false;
      }
      var e := Pte(r.value, true, false);
      CountsAdd(pt, old(cnt), kernel, v, e);
      mem := mem[r.value := seq(4096, _ => 0)];
      GrowView(pt, old(mem), mem, v, e);
      pt := pt[v := e];
      return true;
    }

    /** A page for the kernel itself, such as a page-table page: nobody's memory changes. */
    method KernelTake(cpu: nat) returns (r: Option<nat>)
      requires Valid() && cpu < NCPU
      modifies this`mem, this`cnt, this`free, this`kernel
      ensures Valid() && |mem| == old(|mem|) && Abs(pt, mem) == old(Abs(pt, mem))
      ensures r.None? <==> old(Full())
      ensures r.Some? ==> r.value < |mem| && r.value !in old(kernel)
      ensures kernel == if r.Some? then old(kernel) + {r.value} else old(kernel)
    {
      hide FreeOk;
      r := KallocTry(cpu);
      if r.Some? {
        UnmappedView(pt, old(cnt), kernel, old(mem), r.value, Junk(5));
        assert Maps(pt, r.value) == {};
        kernel := kernel + {r.value};
      }
    }

    /** And back. */
    method KernelGive(p: nat, cpu: nat)
      requires Valid() && p in kernel && cpu < NCPU
      modifies this`mem, this`cnt, this`free, this`kernel
      ensures Valid() && |mem| == old(|mem|) && Abs(pt, mem) == old(Abs(pt, mem)) && kernel == old(kernel) - {p}
    {
      hide FreeOk;
      if cnt[p] == 1 {
        UnmappedView(pt, cnt[p := 0], kernel - {p}, mem, p, Junk(1));
      }
      Kfree(p, cpu);
      kernel := kernel - {p};
    }
  }

  // ---------------------------------------------------------------- how far the pages go

  ghost function Homes(pt: map<Va, Pte>): set<nat>
  {
    set v | v in pt :: pt[v].ppn
  }

  lemma {:induction false} HomesSize(pt: map<Va, Pte>)
    ensures |Homes(pt)| <= |pt.Keys|
    decreases |pt.Keys|
  {
    if pt.Keys == {} {
      assert Homes(pt) == {};
    } else {
      var v :| v in pt;
      var rest := pt - {v};
      assert rest.Keys == pt.Keys - {v};
      HomesSize(rest);
      assert Homes(pt) == Homes(rest) + {pt[v].ppn};
    }
  }

  /** When no page is free, the processes and the kernel have at least as many pages between
      them as there are. */
  lemma FullNeed(pt: map<Va, Pte>, cnt: seq<nat>, kernel: set<nat>)
    requires CountsOk(pt, cnt, kernel) && forall p :: 0 <= p < |cnt| ==> cnt[p] > 0
    ensures |cnt| <= |Homes(pt)| + |kernel| <= |pt.Keys| + |kernel|
  {
    HomesSize(pt);
    forall p | 0 <= p < |cnt|
      ensures p in Homes(pt) + kernel
    {
      if p !in kernel {
        var v :| v in Maps(pt, p);
      }
    }
    var all := Homes(pt) + kernel;
    assert all == Below(|cnt|) + (all - Below(|cnt|));
  }

  /** And more of them, if one is shared. */
  lemma FullShared(pt: map<Va, Pte>, cnt: seq<nat>, kernel: set<nat>, v: Va)
    requires CountsOk(pt, cnt, kernel) && forall p :: 0 <= p < |cnt| ==> cnt[p] > 0
    requires v in pt && pt[v].ppn < |cnt| && pt[v].ppn !in kernel && cnt[pt[v].ppn] > 1
    ensures |cnt| < |pt.Keys| + |kernel|
  {
    FullNeed(pt, cnt, kernel);
    var mine := Maps(pt, pt[v].ppn);
    assert |mine - {v}| > 0;
    var u :| u in mine - {v};
    var rest := pt - {v};
    assert rest.Keys == pt.Keys - {v};
    assert u in rest && rest[u].ppn == pt[v].ppn;
    forall w | w in pt
      ensures pt[w].ppn in Homes(rest)
    {
      if w != v {
        assert rest[w].ppn == pt[w].ppn;
      }
    }
    assert Homes(pt) <= Homes(rest);
    assert Homes(rest) == Homes(pt) + (Homes(rest) - Homes(pt));
    HomesSize(rest);
  }

  /** Filling a page that nobody maps shows nowhere. */
  lemma UnmappedView(pt: map<Va, Pte>, cnt: seq<nat>, kernel: set<nat>, mem: seq<Page>, p: nat, fill: Page)
    requires PtOk(pt, |mem|) && |cnt| == |mem| && CountsOk(pt, cnt, kernel) && p < |cnt| && cnt[p] == 0
    ensures (forall v :: v in pt ==> pt[v].ppn != p) && Abs(pt, mem[p := fill]) == Abs(pt, mem)
  {
    forall v | v in pt
      ensures pt[v].ppn != p
    {
      MappedPositive(pt, cnt, kernel, v);
    }
  }

  lemma ShareView(pt: map<Va, Pte>, mem: seq<Page>, parent: Va, child: Va)
    requires PtOk(pt, |mem|) && parent in pt && child !in pt && !pt[parent].w
    ensures PtOk(pt[child := pt[parent]], |mem|)
    ensures Abs(pt[child := pt[parent]], mem) == Abs(pt, mem)[child := Abs(pt, mem)[parent]]
  {}

  lemma MarkView(pt: map<Va, Pte>, mem: seq<Page>, v: Va)
    requires PtOk(pt, |mem|) && v in pt && pt[v].w
    ensures var e := Pte(pt[v].ppn, false, true);
            PtOk(pt[v := e], |mem|) && Abs(pt[v := e], mem) == Abs(pt, mem)
  {}

  lemma GrowView(pt: map<Va, Pte>, mem: seq<Page>, mem': seq<Page>, v: Va, e: Pte)
    requires PtOk(pt, |mem|) && v !in pt && |mem'| == |mem| && e.ppn < |mem| && e.w && !e.f
    requires forall u :: u in pt ==> pt[u].ppn != e.ppn && mem'[pt[u].ppn] == mem[pt[u].ppn]
    ensures PtOk(pt[v := e], |mem'|) && Abs(pt[v := e], mem') == Abs(pt, mem)[v := View(mem'[e.ppn], true)]
  {}

  lemma ForkNone(a: map<Va, View>, parent: nat, child: nat)
    ensures ForkSpec(a, parent, child, 0) == a
  {
    assert ChildPages(a, parent, child, 0) == {};
  }

  lemma ForkDomain(a: map<Va, View>, parent: nat, child: nat, n: nat)
    requires parent != child && forall v :: v in a ==> v.pid != child
    ensures Va(parent, n) in ForkSpec(a, parent, child, n) <==> Va(parent, n) in a
    ensures Va(child, n) !in ForkSpec(a, parent, child, n)
    ensures Va(parent, n) in a ==> ForkSpec(a, parent, child, n)[Va(parent, n)] == a[Va(parent, n)]
  {}

  lemma ForkStep(a: map<Va, View>, parent: nat, child: nat, n: nat)
    requires parent != child
    ensures var f := ForkSpec(a, parent, child, n);
            ForkSpec(a, parent, child, n + 1) == if Va(parent, n) in a then f[Va(child, n) := a[Va(parent, n)]] else f
  {
    var more, less := ChildPages(a, parent, child, n + 1), ChildPages(a, parent, child, n);
    assert more == if Va(parent, n) in a then less + {Va(child, n)} else less by {
      forall v
        ensures v in more <==> v in less || (v == Va(child, n) && Va(parent, n) in a)
      {
        if Va(parent, n) in a && v == Va(child, n) {
          assert Va(parent, n) in a && Va(parent, n).vpn < n + 1;
        }
      }
    }
  }

  /** Unmapping what a failed fork mapped gives back the state before it. */
  lemma ForkUndone(a: map<Va, View>, parent: nat, child: nat, n: nat)
    requires parent != child && forall v :: v in a ==> v.pid != child
    ensures ExitSpec(ForkSpec(a, parent, child, n), child, n) == a
  {}

  lemma StoreView(pt: map<Va, Pte>, mem: seq<Page>, v: Va, off: nat, b: Byte)
    requires PtOk(pt, |mem|) && v in pt && pt[v].w && off < PGSIZE
    ensures Abs(pt, mem[pt[v].ppn := mem[pt[v].ppn][off := b]]) == StoreSpec(Abs(pt, mem), v, off, b)
  {}

  lemma AbsDomain(pt: map<Va, Pte>, mem: seq<Page>)
    requires forall v :: v in pt ==> pt[v].ppn < |mem|
    ensures Abs(pt, mem).Keys == pt.Keys
  {}

  lemma ExitNone(a: map<Va, View>, pid: nat)
    ensures ExitSpec(a, pid, 0) == a
  {}

  lemma ExitStep(a: map<Va, View>, pid: nat, i: nat)
    ensures ExitSpec(a, pid, i + 1) == ExitSpec(a, pid, i) - {Va(pid, i)}
  {
    forall v | v in a
      ensures v in ExitSpec(a, pid, i + 1) <==> v in ExitSpec(a, pid, i) && v != Va(pid, i)
    {}
  }

  // ---------------------------------------------------------------- runs

  datatype Op =
    | Fork(parent: nat, child: nat, n: nat, room: nat)
    | Store(v: Va, off: Offset, b: Byte)
    | Load(v: Va, off: Offset)
    | Grow(v: Va)
    | Exit(pid: nat, n: nat)
    | KernelTake
    | KernelGive(p: nat)

  /** What the caller learns: failure, success, or the page that was allocated; or that the kernel
      does not make this call. */
  datatype Outcome = Failed | Done | Got(page: nat) | Refused

  /** The machine without sharing: what every process owns, and the kernel's own pages. */
  datatype Eager = Eager(views: map<Va, View>, kernel: set<nat>)

  /** The pages in use when nothing is shared. */
  ghost function Need(a: Eager): nat
  {
    |a.views.Keys| + |a.kernel|
  }

  /** One operation on pages that are never shared, with its outcome. */
  ghost function Apply(a: Eager, op: Op, r: Outcome): Eager
  {
    if r.Failed? || r.Refused? then a else
    match op
    case Fork(parent, child, n, _) => a.(views := ForkSpec(a.views, parent, child, n))
    case Store(v, off, b) => a.(views := StoreSpec(a.views, v, off, b))
    case Load(_, _) => a
    case Grow(v) => a.(views := a.views[v := View(seq(4096, _ => 0), true)])
    case Exit(pid, n) => a.(views := ExitSpec(a.views, pid, n))
    case KernelTake => if r.Got? then a.(kernel := a.kernel + {r.page}) else a
    case KernelGive(p) => a.(kernel := a.kernel - {p})
  }

  /** The outcomes an operation may have on a machine of so many pages. For want of a page it
      fails only where private copies would leave none either; a store to a shared page, only
      where they would not have fitted at all. */
  ghost predicate Answer(a: Eager, op: Op, r: Outcome, pages: nat)
  {
    match op
    case Fork(parent, child, n, room) =>
      if parent == child || (exists i :: Va(child, i) in a.views) then r == Refused
      else if exists i :: room <= i < n && Va(parent, i) in a.views then r == Failed
      else r == Done
    case Store(v, _, _) =>
      if v in a.views && a.views[v].writable then r == Done || (r == Failed && pages < Need(a)) else r == Failed
    case Grow(v) => if v in a.views then r == Refused else r == Done || (r == Failed && pages <= Need(a))
    case Load(_, _) => r == Done
    case Exit(_, _) => r == Done
    case KernelTake =>
      if r.Got? then r.page < pages && r.page !in a.kernel else r == Failed && pages <= Need(a)
    case KernelGive(p) => r == if p in a.kernel then Done else Failed
  }

  /** What an operation reads. */
  ghost function Reads(a: Eager, op: Op): seq<Byte>
  {
    if op.Load? && op.v in a.views then [a.views[op.v].data[op.off]] else []
  }

  ghost function ApplyAll(a: Eager, ops: seq<Op>, rs: seq<Outcome>): (Eager, seq<Byte>)
    requires |ops| == |rs|
    decreases |ops|
  {
    if ops == [] then (a, []) else
    var (end, out) := ApplyAll(Apply(a, ops[0], rs[0]), ops[1..], rs[1..]);
    (end, Reads(a, ops[0]) + out)
  }

  /** Every outcome of the run is one the state it happened in allows. */
  ghost predicate Answered(a: Eager, ops: seq<Op>, rs: seq<Outcome>, pages: nat)
    requires |ops| == |rs|
    decreases |ops|
  {
    ops == [] ||
    (Answer(a, ops[0], rs[0], pages) && Answered(Apply(a, ops[0], rs[0]), ops[1..], rs[1..], pages))
  }

  /** The machine as private copies. */
  ghost function Private(vm: Vm): Eager
    requires vm.Valid()
    reads vm
  {
    Eager(Abs(vm.pt, vm.mem), vm.kernel)
  }

  lemma PrivateDomain(vm: Vm)
    requires vm.Valid()
    ensures Private(vm).views.Keys == vm.pt.Keys
  {
    AbsDomain(vm.pt, vm.mem);
  }

  /** Out of memory, said of the machine as private copies. */
  lemma NoneLeft(vm: Vm)
    requires vm.Valid() && vm.Full()
    ensures |vm.mem| <= Need(Private(vm))
  {
    hide CountsOk, FreeOk, Homes;
    AbsDomain(vm.pt, vm.mem);
    FullNeed(vm.pt, vm.cnt, vm.kernel);
  }

  lemma NoneLeftShared(vm: Vm, v: Va)
    requires vm.Valid() && vm.Full() && vm.Shared(v)
    ensures |vm.mem| < Need(Private(vm))
  {
    hide CountsOk, FreeOk;
    AbsDomain(vm.pt, vm.mem);
    FullShared(vm.pt, vm.cnt, vm.kernel, v);
  }

  method Step(vm: Vm, op: Op, cpu: nat) returns (r: Outcome, out: seq<Byte>)
    requires vm.Valid() && cpu < NCPU
    modifies vm
    ensures vm.Valid() && |vm.mem| == old(|vm.mem|) && Private(vm) == Apply(old(Private(vm)), op, r)
    ensures out == Reads(old(Private(vm)), op)
    ensures Answer(old(Private(vm)), op, r, |vm.mem|)
  {
    hide CountsOk, FreeOk, Abs, PtOk, KernelOk, ForkSpec, StoreSpec, ExitSpec, Need;
    PrivateDomain(vm);
    r, out := Done, [];
    if vm.Full() {
      NoneLeft(vm);
    }
    match op {
      case Fork(parent, child, n, room) =>
        if parent == child || exists v :: v in vm.pt && v.pid == child {
          ChildPage(vm.pt.Keys, child);
          r := Refused;
        } else {
          var ok := vm.Fork(parent, child, n, room, cpu);
          r := if ok then Done else Failed;
        }
      case Store(v, off, b) =>
        if vm.Full() && vm.Shared(v) {
          NoneLeftShared(vm, v);
        }
        var ok := vm.Store(v, off, b, cpu);
        r := if ok then Done else Failed;
      case Load(v, off) =>
        var b := vm.Load(v, off);
        if b.Some? {
          out := [b.value];
        }
      case Grow(v) =>
        if v in vm.pt {
          r := Refused;
        } else {
          var ok := vm.Grow(v, cpu);
          r := if ok then Done else Failed;
        }
      case Exit(pid, n) => vm.Uvmunmap(pid, n, cpu);
      case KernelTake =>
        var p := vm.KernelTake(cpu);
        r := if p.Some? then Got(p.value) else Failed;
      case KernelGive(p) =>
        if p in vm.kernel {
          vm.KernelGive(p, cpu);
        } else {
          r := Failed;
        }
    }
  }

  lemma ChildPage(mapped: set<Va>, child: nat)
    ensures (exists v :: v in mapped && v.pid == child) <==> exists i :: Va(child, i) in mapped
  {
    if v :| v in mapped && v.pid == child {
      assert Va(child, v.vpn) in mapped;
    }
  }

  // ---------------------------------------------------------------- what the specification says

  /** A load after a store gets the byte that was stored; every other load, what it got before. */
  lemma LoadAfterStore(a: Eager, v: Va, off: Offset, b: Byte, u: Va, o: Offset)
    requires v in a.views && a.views[v].writable
    ensures var a' := Apply(a, Store(v, off, b), Done);
            Reads(a', Load(u, o)) == if u == v && o == off then [b] else Reads(a, Load(u, o))
  {}

  /** After a fork the child loads what the parent does in the first n pages, and everybody else
      what they did. */
  lemma LoadAfterFork(a: Eager, parent: nat, child: nat, n: nat, room: nat, u: Va, o: Offset)
    requires parent != child && forall i :: Va(child, i) !in a.views
    ensures var a' := Apply(a, Fork(parent, child, n, room), Done);
            Reads(a', Load(u, o)) == if u.pid == child && u.vpn < n then Reads(a, Load(Va(parent, u.vpn), o))
                                     else Reads(a, Load(u, o))
  {
    assert u == Va(u.pid, u.vpn);
    if u.pid == child {
      assert Va(child, u.vpn) !in a.views;
      if Va(parent, u.vpn) in a.views && u.vpn < n {
        assert Va(child, Va(parent, u.vpn).vpn) in ChildPages(a.views, parent, child, n);
      }
    }
  }

  /** A new page reads as zeros, and an exited process has none of its first n pages. */
  lemma LoadAfterGrow(a: Eager, v: Va, u: Va, o: Offset)
    ensures Reads(Apply(a, Grow(v), Done), Load(u, o)) == if u == v then [0] else Reads(a, Load(u, o))
  {}

  lemma LoadAfterExit(a: Eager, pid: nat, n: nat, u: Va, o: Offset)
    ensures Reads(Apply(a, Exit(pid, n), Done), Load(u, o)) ==
              if u.pid == pid && u.vpn < n then [] else Reads(a, Load(u, o))
  {}

  /** Any run of forks, stores, loads, growth, exits and kernel allocations, each on any CPU:
      every load returns the byte it would return under full copying, the counts stay exact, and
      memory runs out only where it would with full copying. */
  method Run(vm: Vm, ops: seq<Op>, cpus: seq<nat>) returns (rs: seq<Outcome>, out: seq<Byte>)
    requires vm.Valid() && |cpus| == |ops| && forall i :: 0 <= i < |cpus| ==> cpus[i] < NCPU
    modifies vm
    ensures vm.Valid() && |vm.mem| == old(|vm.mem|) && |rs| == |ops|
    ensures (Private(vm), out) == ApplyAll(old(Private(vm)), ops, rs)
    ensures Answered(old(Private(vm)), ops, rs, |vm.mem|)
  {
    hide CountsOk, FreeOk, Abs, Apply, Reads, Answer;
    rs, out := [], [];
    ghost var a := Private(vm);
    var i := 0;
    while i < |ops|
      invariant 0 <= i <= |ops| && |rs| == i && vm.Valid() && |vm.mem| == old(|vm.mem|)
      invariant (Private(vm), out) == ApplyAll(a, ops[..i], rs)
      invariant Answered(a, ops[..i], rs, |vm.mem|)
    {
      var r, o := Step(vm, ops[i], cpus[i]);
      ApplySnoc(a, ops[..i], rs, ops[i], r);
      AnsweredSnoc(a, ops[..i], rs, |vm.mem|, ops[i], r);
      assert ops[..i] + [ops[i]] == ops[..i + 1];
      rs, out := rs + [r], out + o;
      i := i + 1;
    }
    assert ops[..i] == ops;
  }

  lemma {:induction false} AnsweredSnoc(a: Eager, ops: seq<Op>, rs: seq<Outcome>, pages: nat, op: Op, r: Outcome)
    requires |ops| == |rs| && Answered(a, ops, rs, pages) && Answer(ApplyAll(a, ops, rs).0, op, r, pages)
    ensures Answered(a, ops + [op], rs + [r], pages)
    decreases |ops|
  {
    hide Apply, Answer;
    if ops == [] {
      assert (ops + [op])[1..] == [];
    } else {
      assert (ops + [op])[1..] == ops[1..] + [op] && (rs + [r])[1..] == rs[1..] + [r];
      AnsweredSnoc(Apply(a, ops[0], rs[0]), ops[1..], rs[1..], pages, op, r);
    }
  }

  lemma ApplySnoc(a: Eager, ops: seq<Op>, rs: seq<Outcome>, op: Op, r: Outcome)
    requires |ops| == |rs|
    ensures var (m, out) := ApplyAll(a, ops, rs);
            ApplyAll(a, ops + [op], rs + [r]) == (Apply(m, op, r), out + Reads(m, op))
    decreases |ops|
  {
    hide Apply, Reads;
    if ops == [] {
      assert (ops + [op])[1..] == [] && (rs + [r])[1..] == [];
      assert [] + Reads(a, op) == Reads(a, op) + [];
    } else {
      var a1 := Apply(a, ops[0], rs[0]);
      ApplySnoc(a1, ops[1..], rs[1..], op, r);
      assert (ops + [op])[1..] == ops[1..] + [op] && (rs + [r])[1..] == rs[1..] + [r];
      var (m, out) := ApplyAll(a1, ops[1..], rs[1..]);
      assert Reads(a, ops[0]) + (out + Reads(m, op)) == (Reads(a, ops[0]) + out) + Reads(m, op);
    }
  }
}
