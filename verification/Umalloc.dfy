/** The K&R storage allocator (user/program/umalloc.c). Addresses count header-sized units. The
    free list stays a ring in address order without adjacent blocks, free and allocated blocks
    partition exactly what sbrk has granted, and the searches terminate. */
module Umalloc {
  import opened Basics
  import opened Layout

  const HEADER := 16
  const MINCORE := 4096
  const INT_LIMIT := 0x8000_0000                // 2^31

  /** A C uint. */
  type Uint = x: int | 0 <= x < 0x1_0000_0000

  type Sizes = map<int, int>

  // ---------------------------------------------------------------- the ring

  function Succ(fl: seq<int>, i: nat): int
    requires i < |fl|
  {
    if i + 1 < |fl| then fl[i + 1] else fl[0]
  }

  /** The pointers run through the list and back to its head. */
  ghost predicate Ring(ptr: map<int, int>, fl: seq<int>)
  {
    fl != [] && forall i :: Linked(ptr, fl, i)
  }

  ghost predicate Linked(ptr: map<int, int>, fl: seq<int>, i: int)
  {
    0 <= i < |fl| ==> fl[i] in ptr && ptr[fl[i]] == Succ(fl, i)
  }

  /** a ends before b begins, with something between them. */
  ghost predicate Gap(size: Sizes, a: int, b: int)
    requires a in size
  {
    a + size[a] < b
  }

  /** In address order, no two blocks overlapping or adjacent; only the head is empty. */
  ghost predicate Spaced(size: Sizes, fl: seq<int>)
  {
    && (forall i :: 0 <= i < |fl| ==> fl[i] in size && (if i == 0 then size[fl[i]] == 0 else size[fl[i]] > 0))
    && forall i, j :: 0 <= i < j < |fl| ==> Gap(size, fl[i], fl[j])
  }

  // ---------------------------------------------------------------- the units

  function Range(a: int, n: nat): (r: set<int>)
    ensures |r| == n && forall u :: u in r <==> a <= u < a + n
  {
    if n == 0 then {} else Range(a, n - 1) + {a + n - 1}
  }

  ghost predicate Covers(size: Sizes, a: int, u: int)
  {
    a in size && a <= u < a + size[a]
  }

  ghost predicate Apart(size: Sizes, a: int, b: int)
  {
    a in size && b in size && size[a] > 0 && size[b] > 0 && (a == b || a + size[a] <= b || b + size[b] <= a)
  }

  /** Every unit of the arena is in exactly one of the blocks, and no other unit is. */
  ghost predicate Partition(blocks: set<int>, size: Sizes, arena: set<int>)
  {
    && (forall a, b :: a in blocks && b in blocks ==> Apart(size, a, b))
    && (forall u :: u in arena ==> exists a :: a in blocks && Covers(size, a, u))
    && (forall a, u :: a in blocks && Covers(size, a, u) ==> u in arena)
  }

  lemma MergeUnits(blocks: set<int>, size: Sizes, arena: set<int>, a: int, b: int)
    requires Partition(blocks, size, arena) && a in blocks && b in blocks && a in size && b in size && a + size[a] == b
    ensures Partition(blocks - {b}, size[a := size[a] + size[b]], arena)
  {
    var size' := size[a := size[a] + size[b]];
    assert Apart(size, a, b);
    forall x, y | x in blocks - {b} && y in blocks - {b}
      ensures Apart(size', x, y)
    {
      assert Apart(size, x, y) && Apart(size, x, b) && Apart(size, y, b);
    }
    forall u | u in arena
      ensures exists c :: c in blocks - {b} && Covers(size', c, u)
    {
      var c :| c in blocks && Covers(size, c, u);
      assert Covers(size', if c == b then a else c, u);
    }
    forall c, u | c in blocks - {b} && Covers(size', c, u)
      ensures u in arena
    {
      assert Covers(size, c, u) || Covers(size, b, u);
    }
  }

  lemma SplitUnits(blocks: set<int>, size: Sizes, arena: set<int>, p: int, n: int)
    requires Partition(blocks, size, arena) && p in blocks && p in size && 0 < n < size[p]
    ensures var q := p + size[p] - n;
            && q !in blocks
            && Partition(blocks + {q}, size[p := size[p] - n][q := n], arena)
  {
    var q := p + size[p] - n;
    var size' := size[p := size[p] - n][q := n];
    assert q in blocks ==> Apart(size, p, q);
    forall x, y | x in blocks + {q} && y in blocks + {q}
      ensures Apart(size', x, y)
    {
      assert x in blocks ==> Apart(size, x, p);
      assert y in blocks ==> Apart(size, y, p);
      assert x in blocks && y in blocks ==> Apart(size, x, y);
    }
    forall u | u in arena
      ensures exists c :: c in blocks + {q} && Covers(size', c, u)
    {
      var c :| c in blocks && Covers(size, c, u);
      assert Covers(size', c, u) || Covers(size', q, u);
    }
    forall c, u | c in blocks + {q} && Covers(size', c, u)
      ensures u in arena
    {
      assert Covers(size, c, u) || Covers(size, p, u);
    }
  }

  lemma GrowUnits(blocks: set<int>, size: Sizes, arena: set<int>, p: int, n: nat)
    requires Partition(blocks, size, arena) && n > 0 && forall u :: u in arena ==> u < p
    ensures p !in blocks && Partition(blocks + {p}, size[p := n], arena + Range(p, n))
  {
    hide Range;
    var size' := size[p := n];
    forall x | x in blocks
      ensures x in size && size[x] > 0 && x + size[x] <= p
    {
      EndsBelow(blocks, size, arena, x, p);
    }
    forall x, y | x in blocks + {p} && y in blocks + {p}
      ensures Apart(size', x, y)
    {
      assert x in blocks && y in blocks ==> Apart(size, x, y);
    }
    forall u | u in arena + Range(p, n)
      ensures exists c :: c in blocks + {p} && Covers(size', c, u)
    {
      if u in arena {
        var c :| c in blocks && Covers(size, c, u);
        assert Covers(size', c, u);
      } else {
        assert Covers(size', p, u);
      }
    }
    forall c, u | c in blocks + {p} && Covers(size', c, u)
      ensures u in arena + Range(p, n)
    {
      assert c == p || Covers(size, c, u);
    }
  }

  lemma EndsBelow(blocks: set<int>, size: Sizes, arena: set<int>, x: int, p: int)
    requires Partition(blocks, size, arena) && x in blocks && forall u :: u in arena ==> u < p
    ensures x in size && size[x] > 0 && x + size[x] <= p
  {
    assert Apart(size, x, x);
    assert Covers(size, x, x + size[x] - 1);
  }

  // ---------------------------------------------------------------- list surgery

  ghost predicate Listed(base: int, ptr: map<int, int>, size: Sizes, fl: seq<int>)
  {
    Ring(ptr, fl) && Spaced(size, fl) && fl[0] == base
  }

  /** Blocks in address order are distinct. */
  lemma Distinct(size: Sizes, fl: seq<int>)
    requires Spaced(size, fl)
    ensures forall i, j :: 0 <= i < j < |fl| ==> fl[i] < fl[j]
  {
    forall i, j | 0 <= i < j < |fl|
      ensures fl[i] < fl[j]
    {
      assert Gap(size, fl[i], fl[j]);
    }
  }

  lemma SpacedAt(size: Sizes, fl: seq<int>, k: nat)
    requires Spaced(size, fl) && k < |fl|
    ensures fl[k] in size && (k > 0 ==> size[fl[k]] > 0)
    ensures k + 1 < |fl| ==> fl[k] + size[fl[k]] < fl[k + 1]
  {
    assert k + 1 < |fl| ==> Gap(size, fl[k], fl[k + 1]);
  }

  function Inserted(fl: seq<int>, k: nat, b: int): seq<int>
    requires k < |fl|
  {
    fl[..k + 1] + [b] + fl[k + 1..]
  }

  /** Without the block after k. */
  function Dropped(fl: seq<int>, k: nat): seq<int>
    requires k + 1 < |fl|
  {
    fl[..k + 1] + fl[k + 2..]
  }

  lemma RingInsert(ptr: map<int, int>, size: Sizes, fl: seq<int>, k: nat, b: int)
    requires Ring(ptr, fl) && Spaced(size, fl) && k < |fl| && b !in fl
    ensures Ring(ptr[b := Succ(fl, k)][fl[k] := b], Inserted(fl, k, b))
  {
    Distinct(size, fl);
    var g := Inserted(fl, k, b);
    var ptr' := ptr[b := Succ(fl, k)][fl[k] := b];
    forall i | 0 <= i < |g|
      ensures Linked(ptr', g, i)
    {
      if i <= k {
        assert Linked(ptr, fl, i) && g[i] == fl[i];
      } else if i > k + 1 {
        assert Linked(ptr, fl, i - 1) && g[i] == fl[i - 1];
      }
    }
  }

  lemma RingDrop(ptr: map<int, int>, size: Sizes, fl: seq<int>, k: nat)
    requires Ring(ptr, fl) && Spaced(size, fl) && k + 1 < |fl|
    ensures Ring(ptr[fl[k] := Succ(fl, k + 1)], Dropped(fl, k))
  {
    Distinct(size, fl);
    var g := Dropped(fl, k);
    var ptr' := ptr[fl[k] := Succ(fl, k + 1)];
    forall i | 0 <= i < |g|
      ensures Linked(ptr', g, i)
    {
      if i <= k {
        assert Linked(ptr, fl, i) && g[i] == fl[i];
      } else {
        assert Linked(ptr, fl, i + 1) && g[i] == fl[i + 1];
      }
    }
  }

  lemma RingReplace(ptr: map<int, int>, size: Sizes, fl: seq<int>, k: nat, b: int)
    requires Ring(ptr, fl) && Spaced(size, fl) && k + 1 < |fl| && b !in fl
    ensures Ring(ptr[b := Succ(fl, k + 1)][fl[k] := b], fl[k + 1 := b])
  {
    Distinct(size, fl);
    var g := fl[k + 1 := b];
    var ptr' := ptr[b := Succ(fl, k + 1)][fl[k] := b];
    forall i | 0 <= i < |g|
      ensures Linked(ptr', g, i)
    {
      if i != k + 1 {
        assert Linked(ptr, fl, i) && g[i] == fl[i];
      }
    }
  }

  lemma SpacedInsert(size: Sizes, fl: seq<int>, k: nat, b: int)
    requires Spaced(size, fl) && k < |fl| && b in size && size[b] > 0 && Gap(size, fl[k], b)
    requires k + 1 < |fl| ==> Gap(size, b, fl[k + 1])
    ensures Spaced(size, Inserted(fl, k, b))
  {
    Distinct(size, fl);
    var g := Inserted(fl, k, b);
    forall i, j | 0 <= i < j < |g|
      ensures g[i] in size && Gap(size, g[i], g[j])
    {
      var x, y := if i <= k then i else i - 1, if j <= k then j else j - 1;
      assert i != k + 1 ==> g[i] == fl[x];
      assert j != k + 1 ==> g[j] == fl[y];
      assert i <= k && j == k + 1 && i < k ==> Gap(size, fl[i], fl[k]);
    }
  }

  lemma SpacedDrop(size: Sizes, fl: seq<int>, k: nat)
    requires Spaced(size, fl) && k + 1 < |fl|
    ensures Spaced(size, Dropped(fl, k))
  {
    var g := Dropped(fl, k);
    forall i, j | 0 <= i < j < |g|
      ensures g[i] in size && Gap(size, g[i], g[j])
    {
      assert g[i] == fl[if i <= k then i else i + 1] && g[j] == fl[if j <= k then j else j + 1];
    }
  }

  /** Block k grows, or shrinks, but stays clear of its successor. */
  lemma SpacedResize(size: Sizes, fl: seq<int>, k: nat, n: int)
    requires Spaced(size, fl) && 0 < k < |fl| && n > 0
    requires k + 1 < |fl| ==> fl[k] + n < fl[k + 1]
    ensures Spaced(size[fl[k] := n], fl)
  {
    Distinct(size, fl);
    var size' := size[fl[k] := n];
    forall i, j | 0 <= i < j < |fl|
      ensures Gap(size', fl[i], fl[j])
    {
      assert Gap(size, fl[i], fl[j]);
      assert i == k && j > k + 1 ==> Gap(size, fl[k + 1], fl[j]);
    }
  }

  /** Sizes of blocks outside the list do not matter to it. */
  lemma SpacedOther(size: Sizes, fl: seq<int>, b: int, n: int)
    requires Spaced(size, fl) && b !in fl
    ensures Spaced(size[b := n], fl)
  {
    forall i, j | 0 <= i < j < |fl|
      ensures Gap(size[b := n], fl[i], fl[j])
    {
      assert Gap(size, fl[i], fl[j]);
    }
  }

  // ---------------------------------------------------------------- umalloc.c

  /** The headers of all blocks but the list's head. */
  ghost function Blocks(fl: seq<int>, live: set<int>): set<int>
  {
    (set i | 0 < i < |fl| :: fl[i]) + live
  }

  /** The units of a block for nbytes bytes: one for the header, and as few as hold the bytes. */
  function Units(nbytes: Uint): (n: nat)
    ensures n > 0 && nbytes <= (n - 1) * HEADER < nbytes + HEADER && Grant(n) * HEADER <= UINT_LIMIT + HEADER
  {
    (nbytes + HEADER - 1) / HEADER + 1
  }

  /** Where in the list b belongs. */
  ghost predicate Between(fl: seq<int>, k: nat, b: int)
  {
    k < |fl| && fl[k] < b && (k + 1 < |fl| ==> b < fl[k + 1])
  }

  lemma Place(size: Sizes, fl: seq<int>, b: int) returns (k: nat)
    requires Spaced(size, fl) && fl != [] && fl[0] < b && b !in fl
    ensures Between(fl, k, b)
  {
    Distinct(size, fl);
    k := 0;
    while k + 1 < |fl| && fl[k + 1] < b
      invariant k < |fl| && fl[k] < b
    {
      k := k + 1;
    }
  }

  ghost predicate Well(base: int, ptr: map<int, int>, size: Sizes, fl: seq<int>, live: set<int>, arena: set<int>)
  {
    && Listed(base, ptr, size, fl) && (forall x :: x in live ==> x !in fl)
    && Partition(Blocks(fl, live), size, arena)
  }

  lemma Members(size: Sizes, fl: seq<int>, live: set<int>)
    requires Spaced(size, fl) && fl != []
    ensures forall x :: x in Blocks(fl, live) <==> (x in fl && x != fl[0]) || x in live
  {
    Distinct(size, fl);
    forall x | x in fl && x != fl[0]
      ensures x in Blocks(fl, live)
    {
      var i :| 0 <= i < |fl| && fl[i] == x;
    }
  }

  /** An allocated block lies clear of its neighbours in the free list. */
  lemma Neighbours(base: int, ptr: map<int, int>, size: Sizes, fl: seq<int>, live: set<int>, arena: set<int>, k: nat,
                   b: int)
    requires Well(base, ptr, size, fl, live, arena) && b in live && Between(fl, k, b)
    ensures b in size && size[b] > 0 && fl[k] + size[fl[k]] <= b && (fl[k] + size[fl[k]] == b ==> k > 0)
    ensures k + 1 < |fl| ==> b + size[b] <= fl[k + 1]
    ensures b !in fl && b != Succ(fl, k) && (k + 1 == |fl| ==> b + size[b] != Succ(fl, k))
  {
    Members(size, fl, live);
    Distinct(size, fl);
    assert Apart(size, b, b);
    assert k > 0 ==> Apart(size, fl[k], b);
    assert k + 1 < |fl| ==> Apart(size, b, fl[k + 1]);
  }

  lemma FreeAlone(base: int, ptr: map<int, int>, size: Sizes, fl: seq<int>, live: set<int>, arena: set<int>, k: nat,
                  b: int)
    requires Well(base, ptr, size, fl, live, arena) && b in live && Between(fl, k, b)
    requires b in size && b + size[b] != Succ(fl, k) && fl[k] + size[fl[k]] != b
    ensures Well(base, ptr[b := Succ(fl, k)][fl[k] := b], size, Inserted(fl, k, b), live - {b}, arena)
  {
    Neighbours(base, ptr, size, fl, live, arena, k, b);
    RingInsert(ptr, size, fl, k, b);
    SpacedInsert(size, fl, k, b);
    Members(size, fl, live);
    Members(size, Inserted(fl, k, b), live - {b});
    assert Blocks(Inserted(fl, k, b), live - {b}) == Blocks(fl, live);
  }

  lemma FreeWithNext(base: int, ptr: map<int, int>, size: Sizes, fl: seq<int>, live: set<int>, arena: set<int>,
                     k: nat, b: int)
    requires Well(base, ptr, size, fl, live, arena) && b in live && Between(fl, k, b) && k + 1 < |fl|
    requires b in size && b + size[b] == fl[k + 1] && fl[k] + size[fl[k]] != b
    ensures Well(base, ptr[b := Succ(fl, k + 1)][fl[k] := b], size[b := size[b] + size[fl[k + 1]]],
                 fl[k + 1 := b], live - {b}, arena)
  {
    hide Ring, Partition, Blocks;
    var q := fl[k + 1];
    Neighbours(base, ptr, size, fl, live, arena, k, b);
    Members(size, fl, live);
    MergeUnits(Blocks(fl, live), size, arena, b, q);
    RingReplace(ptr, size, fl, k, b);
    SpacedReplace(size, fl, k, b);
    BlocksReplace(size, fl, live, k, b);
  }

  lemma SpacedReplace(size: Sizes, fl: seq<int>, k: nat, b: int)
    requires Spaced(size, fl) && k + 1 < |fl| && b !in fl && b in size && size[b] > 0
    requires fl[k] + size[fl[k]] < b && b + size[b] == fl[k + 1]
    ensures Spaced(size[b := size[b] + size[fl[k + 1]]], fl[k + 1 := b])
  {
    hide Spaced;
    SpacedAt(size, fl, k);
    SpacedAt(size, fl, k + 1);
    var q := fl[k + 1];
    var size' := size[b := size[b] + size[q]];
    SpacedOther(size, fl, b, size[b] + size[q]);
    SpacedDrop(size', fl, k);
    SpacedInsert(size', Dropped(fl, k), k, b);
    assert fl[k + 1 := b] == Inserted(Dropped(fl, k), k, b);
  }

  lemma BlocksReplace(size: Sizes, fl: seq<int>, live: set<int>, k: nat, b: int)
    requires Spaced(size, fl) && k + 1 < |fl| && b in live && fl[k + 1] !in live
    ensures Blocks(fl[k + 1 := b], live - {b}) == Blocks(fl, live) - {fl[k + 1]}
  {
    Distinct(size, fl);
    var g := fl[k + 1 := b];
    forall x
      ensures x in Blocks(g, live - {b}) <==> x in Blocks(fl, live) && x != fl[k + 1]
    {
      if i :| 0 < i < |fl| && fl[i] == x && i != k + 1 {
        assert g[i] == x;
      }
      assert g[k + 1] == b;
    }
  }

  lemma BlocksDrop(size: Sizes, fl: seq<int>, live: set<int>, k: nat)
    requires Spaced(size, fl) && k + 1 < |fl| && fl[k + 1] !in live
    ensures Blocks(Dropped(fl, k), live) == Blocks(fl, live) - {fl[k + 1]}
  {
    Distinct(size, fl);
    var g := Dropped(fl, k);
    forall x
      ensures x in Blocks(g, live) <==> x in Blocks(fl, live) && x != fl[k + 1]
    {
      if i :| 0 < i < |fl| && fl[i] == x && i != k + 1 {
        assert g[if i <= k then i else i - 1] == x;
      }
      if i :| 0 < i < |g| && g[i] == x {
        assert fl[if i <= k then i else i + 1] == x;
      }
    }
  }

  lemma FreeIntoPrevious(base: int, ptr: map<int, int>, size: Sizes, fl: seq<int>, live: set<int>, arena: set<int>,
                         k: nat, b: int)
    requires Well(base, ptr, size, fl, live, arena) && b in live && Between(fl, k, b)
    requires b in size && b + size[b] != Succ(fl, k) && fl[k] + size[fl[k]] == b
    ensures Well(base, ptr[b := Succ(fl, k)][fl[k] := Succ(fl, k)], size[fl[k] := size[fl[k]] + size[b]],
                 fl, live - {b}, arena)
  {
    hide Partition, Blocks;
    var p := fl[k];
    var ptr' := ptr[b := Succ(fl, k)][p := Succ(fl, k)];
    Neighbours(base, ptr, size, fl, live, arena, k, b);
    Members(size, fl, live);
    MergeUnits(Blocks(fl, live), size, arena, p, b);
    SpacedResize(size, fl, k, size[p] + size[b]);
    Distinct(size, fl);
    forall i
      ensures Linked(ptr', fl, i)
    {
      assert Linked(ptr, fl, i);
    }
    BlocksLess(fl, live, b);
  }

  lemma FreeBetween(base: int, ptr: map<int, int>, size: Sizes, fl: seq<int>, live: set<int>, arena: set<int>, k: nat,
                    b: int)
    requires Well(base, ptr, size, fl, live, arena) && b in live && Between(fl, k, b) && k + 1 < |fl|
    requires b in size && b + size[b] == fl[k + 1] && fl[k] + size[fl[k]] == b
    ensures var n := size[b] + size[fl[k + 1]];
            Well(base, ptr[b := Succ(fl, k + 1)][fl[k] := Succ(fl, k + 1)], size[b := n][fl[k] := size[fl[k]] + n],
                 Dropped(fl, k), live - {b}, arena)
  {
    hide Ring, Partition, Blocks;
    var p, q := fl[k], fl[k + 1];
    var n := size[b] + size[q];
    Neighbours(base, ptr, size, fl, live, arena, k, b);
    Members(size, fl, live);
    Distinct(size, fl);
    MergeUnits(Blocks(fl, live), size, arena, b, q);
    MergeUnits(Blocks(fl, live) - {q}, size[b := n], arena, p, b);
    SpacedBetween(size, fl, k, b);
    RingOther(ptr, fl, b, Succ(fl, k + 1));
    RingDrop(ptr[b := Succ(fl, k + 1)], size, fl, k);
    BlocksDrop(size, fl, live - {b}, k);
    BlocksLess(fl, live, b);
    assert Blocks(Dropped(fl, k), live - {b}) == Blocks(fl, live) - {q} - {b};
    DroppedLess(fl, k);
  }

  lemma BlocksLess(fl: seq<int>, live: set<int>, b: int)
    requires b !in fl
    ensures Blocks(fl, live - {b}) == Blocks(fl, live) - {b}
  {
  }

  lemma DroppedLess(fl: seq<int>, k: nat)
    requires k + 1 < |fl|
    ensures forall x :: x in Dropped(fl, k) ==> x in fl
  {
  }

  lemma SpacedBetween(size: Sizes, fl: seq<int>, k: nat, b: int)
    requires Spaced(size, fl) && 0 < k < |fl| - 1 && b !in fl && b in size && size[b] > 0
    requires fl[k] + size[fl[k]] == b && b + size[b] == fl[k + 1]
    ensures var n := size[b] + size[fl[k + 1]];
            Spaced(size[b := n][fl[k] := size[fl[k]] + n], Dropped(fl, k))
  {
    hide Spaced;
    SpacedAt(size, fl, k);
    SpacedAt(size, fl, k + 1);
    var n := size[b] + size[fl[k + 1]];
    SpacedOther(size, fl, b, n);
    SpacedDrop(size[b := n], fl, k);
    SpacedResize(size[b := n], Dropped(fl, k), k, size[fl[k]] + n);
  }

  lemma RingOther(ptr: map<int, int>, fl: seq<int>, b: int, v: int)
    requires Ring(ptr, fl) && b !in fl
    ensures Ring(ptr[b := v], fl)
  {
    var ptr' := ptr[b := v];
    forall i
      ensures Linked(ptr', fl, i)
    {
      assert Linked(ptr, fl, i);
    }
  }

  class Heap {
    /** The address of the static header `base`. */
    const base: int
    var ptr: map<int, int>
    var size: Sizes
    /** 0 before the first call. */
    var freep: int
    /** The program break, as sbrk keeps it. */
    var brk: int
    ghost var fl: seq<int>
    ghost var live: set<int>
    /** The units of all blocks the allocator deals in. */
    ghost var arena: set<int>
    /** The units sbrk has granted it and that lie below the break. */
    ghost var core: set<int>
    /** sbrk has answered with an address that is not that of the new core. */
    ghost var lost: bool

    /** The list and the blocks are in order, and what they cover is exactly the core. */
    ghost predicate Valid()
      reads this
    {
      Sound() && base < brk && (forall u :: u in arena ==> u < brk) && arena == core && !lost
    }

    ghost predicate Sound()
      reads this
    {
      && 0 < base && (forall u :: u in arena ==> base < u)
      && if freep == 0 then fl == [] && live == {} && arena == {} else Ready()
    }

    ghost predicate Ready()
      reads this
    {
      freep in fl && Well(base, ptr, size, fl, live, arena)
    }

    constructor (b: int, top: int)
      requires 0 < b < top
      ensures Valid() && base == b && brk == top && freep == 0 && live == {} && arena == {}
    {
      base, ptr, size, freep, brk := b, map[], map[], 0, top;
      fl, live, arena, core, lost := [], {}, {}, {}, false;
    }

    /** free's search for the place of a block: it ends within one round of the ring. */
    method Find(bp: int) returns (p: int, ghost k: nat)
      requires Ready() && bp in live && base < bp
      ensures Between(fl, k, bp) && p == fl[k] && base <= p && p in ptr && ptr[p] == Succ(fl, k)
    {
      hide Partition, Blocks, Ring;
      Distinct(size, fl);
      k := Place(size, fl, bp);
      p := freep;
      ghost var i: nat :| i < |fl| && fl[i] == p;
      Step(ptr, fl, i);
      while !(bp > p && bp < ptr[p])
        invariant i < |fl| && p == fl[i] && p in ptr && ptr[p] == Succ(fl, i)
        decreases if i <= k then k - i else k + |fl| - i
      {
        if p >= ptr[p] && (bp > p || bp < ptr[p]) {
          break;
        }
        p := ptr[p];
        i := if i + 1 < |fl| then i + 1 else 0;
        Step(ptr, fl, i);
      }
      assert i == k;
    }

    /** free. */
    method Free(ap: int)
      requires Sound() && ap - 1 in live
      modifies this`ptr, this`size, this`freep, this`fl, this`live
      ensures Sound() && live == old(live) - {ap - 1} && freep != 0
      ensures Kept(live, old(size), size)
      ensures old(ap - 1 in size) && Fits(size, fl, old(size)[ap - 1])
    {
      hide Well, Fits;
      var bp := ap - 1;
      assert fl != [] && base < bp by {
        InArena(base, ptr, size, fl, live, arena);
      }
      ghost var k: nat;
      var p;
      p, k := Find(bp);
      FreeWell(base, ptr, size, fl, live, arena, k, bp);
      var q := ptr[p];
      ghost var size0, ptr0 := size, ptr;
      if bp + size[bp] == q {
        size := size[bp := size[bp] + size[q]];
        ptr := ptr[bp := ptr[q]];
      } else {
        ptr := ptr[bp := q];
      }
      if p + size[p] == bp {
        size := size[p := size[p] + size[bp]];
        ptr := ptr[p := ptr[bp]];
      } else {
        ptr := ptr[p := bp];
      }
      assert size == FreedSize(size0, p, q, bp);
      assert ptr == FreedPtr(ptr0, size0, p, q, bp);
      freep := p;
      fl := FreedList(size0, fl, k, bp);
      live := live - {bp};
    }

    /** malloc's search: the first block with n units in a round of the ring from freep on. */
    method FirstFit(n: nat) returns (found: bool, prev: int, p: int, ghost i: nat)
      requires Ready() && n > 0
      ensures found <==> Fits(size, fl, n)
      ensures found ==>
                && i + 1 < |fl| && prev == fl[i] && p == fl[i + 1] && p in size && size[p] >= n
                && p in ptr && ptr[p] == Succ(fl, i + 1)
    {
      hide Partition, Blocks, Ring, Spaced, Passed, Fits;
      InArena(base, ptr, size, fl, live, arena);
      prev := freep;
      ghost var f: nat :| f < |fl| && fl[f] == prev;
      i := f;
      Step(ptr, fl, i);
      p := ptr[prev];
      ghost var t := 0;
      NonePassed(size, fl, n, f);
      while true
        invariant i < |fl| && prev == fl[i] && p == Succ(fl, i) && 0 <= t < |fl|
        invariant if t == 0 then i == f else Off(f, i, |fl|) == t
        invariant Passed(size, fl, n, f, t)
        decreases |fl| - t
      {
        ghost var j := if i + 1 < |fl| then i + 1 else 0;
        Step(ptr, fl, j);
        if size[p] >= n {
          HeadIsEmpty(size, fl);
          assert Fits(size, fl, n) by { FitsAt(size, fl, j, n); }
          return true, prev, p, i;
        }
        OneMoreSmall(size, fl, n, f, i, t);
        if p == freep {
          SameSlot(size, fl, j, f);
          NoneFits(size, fl, n, f);
          return false, prev, p, i;
        }
        prev, p := p, ptr[p];
        i, t := j, t + 1;
      }
    }

    /** The block itself, or its tail. */
    method Take(prev: int, p: int, n: nat, ghost i: nat) returns (bp: int)
      requires Ready() && 0 < n && i + 1 < |fl| && prev == fl[i] && p == fl[i + 1] && p in size && size[p] >= n
      requires p in ptr && ptr[p] == Succ(fl, i + 1) && base > 0
      modifies this`ptr, this`size, this`freep, this`fl, this`live
      ensures Ready() && bp !in old(live) && live == old(live) + {bp} && bp in size && size[bp] == n && freep != 0
              && bp > 0
      ensures Kept(old(live), old(size), size)
    {
      hide Well;
      bp := p;
      if size[p] == n {
        TakeExact(base, ptr, size, fl, live, arena, i);
        ptr := ptr[prev := ptr[p]];
        fl := Dropped(fl, i);
        assert fl[i] == prev;
      } else {
        TakeTail(base, ptr, size, fl, live, arena, i, n);
        size := size[p := size[p] - n];
        bp := p + size[p];
        size := size[bp := n];
        assert fl[i] == prev;
      }
      freep := prev;
      live := live + {bp};
    }

    /** sbrk of a number of bytes that is a multiple of HEADER (sys_sbrk of kernel/sysproc.c). A
        negative `gap` stands for failure; otherwise the break has moved on by that much since
        the last call. The kernel keeps the old break in an int and returns that. */
    method Sbrk(bytes: int, gap: int) returns (addr: Option<int>)
      requires bytes % HEADER == 0 && -INT_LIMIT <= bytes < INT_LIMIT && 0 < brk
      modifies this`brk, this`core
      ensures addr.None? <==> gap < 0 || (old(brk) + gap) * HEADER + bytes == 0
      ensures brk == BrkAfter(old(brk), bytes, gap)
      ensures addr.None? ==> core == old(core)
      ensures addr.Some? ==> addr.value == AddrOf(old(brk) + gap)
      ensures addr.Some? && bytes > 0 ==> core == old(core) + Range(old(brk) + gap, bytes / HEADER)
      ensures addr.Some? && bytes <= 0 ==> core == set u | u in old(core) && u < brk
    {
      if gap < 0 {
        return None;
      }
      var hp := brk + gap;
      brk := hp;
      if bytes > 0 {
        core := core + Range(hp, bytes / HEADER);
        brk := hp + bytes / HEADER;
      } else if hp * HEADER + bytes == 0 {
        return None;
      } else {
        // an unsigned sum: shrinking by more than there is counts as growing, and is not done
        if hp * HEADER + bytes > 0 {
          brk := hp + bytes / HEADER;
        }
        core := set u | u in core && u < brk;
      }
      return Some(AddrOf(hp));
    }

    /** morecore: at least MINCORE units from sbrk, put on the list. sbrk takes the number of
        bytes as an int. When the answer is the address of the old break, the list is in order
        again with a block of that many units on it; it lies in the core exactly when neither
        conversion has changed a value. */
    method MoreCore(nu: nat, gap: int) returns (ok: bool, broke: bool)
      requires Valid() && freep != 0 && 0 < nu && Grant(nu) * HEADER <= UINT_LIMIT + HEADER
      modifies this
      ensures ok <==> SbrkOk(Grant(nu), old(brk), gap)
      ensures Valid() <==> !broke
      ensures broke <==> ok && !Whole(Grant(nu), old(brk) + gap)
      ensures lost <==> ok && Astray(old(brk) + gap)
      ensures !ok ==> arena == old(arena) && fl == old(fl) && size == old(size)
      ensures !lost ==> Sound() && live == old(live) && freep != 0 && Kept(live, old(size), size)
      ensures brk == BrkAfter(old(brk), SbrkArg(Grant(nu)), gap)
      ensures ok && !lost ==> arena == old(arena) + Range(old(brk) + gap, Grant(nu)) && Fits(size, fl, nu)
    {
      hide Well, Range, Fits, SbrkArg, AddrOf, Kept, BrkAfter;
      KeptSame(base, ptr, size, fl, live, arena);
      var nu' := if nu < 4096 then 4096 else nu;
      assert nu' == Grant(nu);
      var hp := brk + gap;
      var r := GetCore(nu', gap);
      if r.None? {
        return false, false;
      }
      var addr := r.value;
      if addr != hp {
        size := size[addr := nu'];
        lost := true;
        return true, true;
      }
      AddCore(addr, nu');
      assert hp + nu' - 1 in arena;
      FitsLess(size, fl, nu', nu);
      return true, !Whole(nu', hp);
    }

    /** sbrk for nu units: as many units of new core when the bytes fit an int, at most one
        when they do not. */
    method GetCore(nu: nat, gap: int) returns (addr: Option<int>)
      requires 0 < brk && 0 < nu && nu * HEADER <= UINT_LIMIT + HEADER
      modifies this`brk, this`core
      ensures addr.Some? <==> SbrkOk(nu, old(brk), gap)
      ensures brk == BrkAfter(old(brk), SbrkArg(nu), gap)
      ensures addr.None? ==> core == old(core) && old(brk) <= brk
      ensures addr.Some? ==> addr.value == AddrOf(old(brk) + gap)
      ensures addr.Some? && nu * HEADER < INT_LIMIT ==>
                brk == old(brk) + gap + nu && core == old(core) + Range(old(brk) + gap, nu)
      ensures addr.Some? && nu * HEADER >= INT_LIMIT ==> brk <= old(brk) + gap + 1
    {
      hide SbrkArg, AddrOf, Range;
      IntOfBytes(nu);
      addr := Sbrk(SbrkArg(nu), gap);
    }

    /** A header for the new block, and onto the list with it. */
    method AddCore(hp: int, nu: nat)
      requires Sound() && freep != 0 && nu > 0 && base < hp && forall u :: u in arena ==> u < hp
      modifies this`ptr, this`size, this`freep, this`fl, this`live, this`arena
      ensures Sound() && freep != 0 && live == old(live) && Kept(live, old(size), size)
      ensures arena == old(arena) + Range(hp, nu) && Fits(size, fl, nu)
    {
      hide Partition, Blocks, Ring, Spaced, Range, Fits, Listed;
      InArena(base, ptr, size, fl, live, arena);
      GrantWell(base, ptr, size, fl, live, arena, hp, nu);
      size := size[hp := nu];
      live, arena := live + {hp}, arena + Range(hp, nu);
      assert fl != [] && freep in fl;
      Free(hp + 1);
      assert live == old(live);
    }

    /** The first call makes the list of the empty head alone. */
    method EnsureList(ghost n: nat)
      requires Valid() && n > 0
      modifies this`ptr, this`size, this`freep, this`fl
      ensures Valid() && freep != 0 && (Fits(size, fl, n) <==> Fits(old(size), old(fl), n))
      ensures Kept(live, old(size), size)
    {
      hide Partition, Blocks, Well;
      if freep == 0 {
        FreshWell(base, ptr, size);
        ptr := ptr[base := base];
        freep := base;
        size := size[base := 0];
        fl := [base];
      } else {
        InArena(base, ptr, size, fl, live, arena);
      }
    }

    /** malloc's loop: after more core the second round cannot fail, so it ends. */
    method Search(n: nat, gap: int) returns (found: bool, prev: int, p: int, ghost i: nat, broke: bool)
      requires Valid() && freep != 0 && n > 0 && Grant(n) * HEADER <= UINT_LIMIT + HEADER
      modifies this
      ensures found <==> Fits(old(size), old(fl), n) || SbrkOk(Grant(n), old(brk), gap)
      ensures Valid() <==> !broke
      ensures broke <==> Breaks(old(size), old(fl), old(brk), n, gap)
      ensures !lost ==> Sound() && freep != 0 && live == old(live) && Kept(live, old(size), size)
      ensures lost <==> Asks(old(size), old(fl), old(brk), n, gap) && Astray(old(brk) + gap)
      ensures !lost ==> arena == Grown(old(arena), old(brk), Asks(old(size), old(fl), old(brk), n, gap), n, gap)
      ensures brk == if Fits(old(size), old(fl), n) then old(brk) else BrkAfter(old(brk), SbrkArg(Grant(n)), gap)
      ensures found && !lost ==>
                && i + 1 < |fl| && prev == fl[i] && p == fl[i + 1] && p in size && size[p] >= n
                && p in ptr && ptr[p] == Succ(fl, i + 1)
    {
      hide Partition, Blocks, Range, Well, Fits, BrkAfter;
      assert Kept(live, size, size) by { InArena(base, ptr, size, fl, live, arena); }
      broke := false;
      found, prev, p, i := FirstFit(n);
      if !found {
        var hp := brk + gap;
        found, broke := MoreCore(n, gap);
        if found && !Astray(hp) {
          found, prev, p, i := FirstFit(n);
        }
      }
    }

    /** malloc: the block asked for, from the list when some block there is large enough and
        else from fresh core; null exactly when there is neither. A call that asks sbrk and is
        answered leaves the heap valid if and only if the bytes and the break both fit an int;
        `broke`, which the source does not have, says that it did not. What happens after sbrk's
        address has gone astray is not followed. */
    method Malloc(nbytes: Uint, gap: int) returns (ap: int, broke: bool)
      requires Valid()
      modifies this
      ensures Valid() <==> !broke
      ensures broke <==> Breaks(old(size), old(fl), old(brk), Units(nbytes), gap)
      ensures lost ==> Asks(old(size), old(fl), old(brk), Units(nbytes), gap) && Astray(old(brk) + gap)
      ensures !lost ==> Sound() && freep != 0 && Kept(old(live), old(size), size)
      ensures brk == if Fits(old(size), old(fl), Units(nbytes)) then old(brk)
                     else BrkAfter(old(brk), SbrkArg(Grant(Units(nbytes))), gap)
      ensures !lost ==>
                (ap == 0 <==> !Fits(old(size), old(fl), Units(nbytes)) && !SbrkOk(Grant(Units(nbytes)), old(brk), gap))
      ensures ap == 0 ==> live == old(live)
      ensures ap != 0 && !lost ==>
                && ap - 1 !in old(live) && live == old(live) + {ap - 1} && ap - 1 in size
                && size[ap - 1] == Units(nbytes) && nbytes <= (size[ap - 1] - 1) * HEADER < nbytes + HEADER
      ensures !lost ==>
                var asks := Asks(old(size), old(fl), old(brk), Units(nbytes), gap);
                arena == Grown(old(arena), old(brk), asks, Units(nbytes), gap)
    {
      hide Partition, Blocks, Range, Well, Fits, Grown, BrkAfter;
      var n := (nbytes + HEADER - 1) / HEADER + 1;
      assert n == Units(nbytes);
      var found, prev, p;
      ghost var i: nat;
      EnsureList(n);
      var hp := brk + gap;
      found, prev, p, i, broke := Search(n, gap);
      if !found {
        return 0, broke;
      }
      if broke && Astray(hp) {
        return AddrOf(hp) + 1, broke;
      }
      var bp := Take(prev, p, n, i);
      return bp + 1, broke;
    }
  }

  // ---------------------------------------------------------------- sbrk's ints

  /** Conversion to int. */
  function Int32(x: int): (r: int)
    ensures -0x8000_0000 <= r < 0x8000_0000 && (x - r) % 0x1_0000_0000 == 0
  {
    var y := x % UINT_LIMIT;
    if y >= INT_LIMIT then y - UINT_LIMIT else y
  }

  function SbrkArg(nu: nat): int
  {
    Int32(nu * HEADER)
  }

  /** The address, in units, that comes back for the break hp: an int widened to a pointer. */
  function AddrOf(hp: int): int
  {
    var v := Int32(hp * HEADER);
    if v >= 0 then v / HEADER else (v + 0x1_0000_0000_0000_0000) / HEADER
  }

  /** The break after sbrk: first what has been added since the last call, then what is asked
      for now. A sum that would be negative is a large unsigned number, and nothing is given up. */
  function BrkAfter(brk: int, bytes: int, gap: int): int
  {
    if gap < 0 then brk else
    if bytes > 0 || (brk + gap) * HEADER + bytes > 0 then brk + gap + bytes / HEADER else brk + gap
  }

  /** sbrk answers, for a grant of nu units. */
  predicate SbrkOk(nu: nat, brk: int, gap: int)
  {
    gap >= 0 && (brk + gap) * HEADER + SbrkArg(nu) != 0
  }

  /** The size fits an int and the break comes back as it is. */
  predicate Whole(nu: nat, hp: int)
  {
    nu * HEADER < INT_LIMIT && !Astray(hp)
  }

  /** The break does not survive the way through an int. */
  predicate Astray(hp: int)
  {
    AddrOf(hp) != hp
  }

  /** The call gets to sbrk and is answered. */
  ghost predicate Asks(size: Sizes, fl: seq<int>, brk: int, n: nat, gap: int)
  {
    !Fits(size, fl, n) && SbrkOk(Grant(n), brk, gap)
  }

  /** The call breaks the heap. */
  ghost predicate Breaks(size: Sizes, fl: seq<int>, brk: int, n: nat, gap: int)
  {
    Asks(size, fl, brk, n, gap) && !Whole(Grant(n), brk + gap)
  }

  lemma IntOfBytes(nu: nat)
    requires nu * HEADER <= UINT_LIMIT + HEADER
    ensures SbrkArg(nu) % HEADER == 0 && -INT_LIMIT <= SbrkArg(nu) < INT_LIMIT
    ensures nu * HEADER < INT_LIMIT ==> SbrkArg(nu) == nu * HEADER
    ensures nu * HEADER >= INT_LIMIT ==> SbrkArg(nu) <= HEADER
  {
  }

  /** What comes back agrees with the break in its low 32 bits; the upper half is all zeros or all ones,
      with bit 31. */
  lemma AddrOfMeans(hp: int) returns (k: int)
    ensures AddrOf(hp) * HEADER == hp * HEADER + k * 0x1_0000_0000
    ensures var a := AddrOf(hp) * HEADER;
            0 <= a < 0x8000_0000 || 0xffff_ffff_8000_0000 <= a < 0x1_0000_0000_0000_0000
  {
    var v := Int32(hp * HEADER);
    k := (v - hp * HEADER) / 0x1_0000_0000;
    assert v == HEADER * (hp + 0x1000_0000 * k);
    assert v / HEADER == hp + 0x1000_0000 * k;
    if v < 0 {
      assert v + 0x1_0000_0000_0000_0000 == HEADER * (hp + 0x1000_0000 * k + 0x1000_0000_0000_0000);
      k := k + 0x1_0000_0000;
    }
  }

  /** For every break the address space can have, that means 2^31 bytes and more. */
  lemma AstrayMeans(hp: int)
    requires 0 < hp && hp * HEADER < 0x8000_0000_0000_0000
    ensures Astray(hp) <==> hp * HEADER >= INT_LIMIT
  {
  }

  /** The arena grows only when sbrk is asked and answers, by what is asked for. */
  ghost function Grown(arena: set<int>, brk: int, asks: bool, n: nat, gap: int): set<int>
  {
    if asks then arena + Range(brk + gap, Grant(n)) else arena
  }

  function Grant(nu: nat): (r: nat)
    ensures r >= nu && r >= 4096 && (r == nu || r == 4096)
  {
    if nu < MINCORE then MINCORE else nu
  }

  /** Steps of a walk round the ring of n blocks from f to j, f itself coming last. */
  function Off(f: nat, j: nat, n: nat): int
  {
    if j > f then j - f else j + n - f
  }

  ghost predicate Small(size: Sizes, b: int, n: int)
  {
    b in size && size[b] < n
  }

  /** The t blocks after f are too small. */
  ghost predicate Passed(size: Sizes, fl: seq<int>, n: int, f: nat, t: nat)
  {
    forall j :: 0 <= j < |fl| && Off(f, j, |fl|) <= t ==> Small(size, fl[j], n)
  }

  lemma NonePassed(size: Sizes, fl: seq<int>, n: int, f: nat)
    requires f < |fl|
    ensures Passed(size, fl, n, f, 0)
  {
  }

  lemma OneMoreSmall(size: Sizes, fl: seq<int>, n: int, f: nat, i: nat, t: nat)
    requires f < |fl| && i < |fl| && Passed(size, fl, n, f, t) && Small(size, Succ(fl, i), n)
    requires t < |fl| && if t == 0 then i == f else Off(f, i, |fl|) == t
    ensures Passed(size, fl, n, f, t + 1)
    ensures Off(f, if i + 1 < |fl| then i + 1 else 0, |fl|) == t + 1
  {
    var j := if i + 1 < |fl| then i + 1 else 0;
    forall x | 0 <= x < |fl| && Off(f, x, |fl|) <= t + 1
      ensures Small(size, fl[x], n)
    {
      assert Off(f, x, |fl|) == t + 1 ==> x == j;
    }
  }

  lemma NoneFits(size: Sizes, fl: seq<int>, n: int, f: nat)
    requires f < |fl| && Passed(size, fl, n, f, |fl|)
    ensures !Fits(size, fl, n)
  {
    assert forall x :: 0 <= x < |fl| ==> Small(size, fl[x], n);
  }

  lemma FitsAt(size: Sizes, fl: seq<int>, j: nat, n: int)
    requires j < |fl| && fl[j] in size && size[fl[j]] >= n
    ensures Fits(size, fl, n)
  {
  }

  lemma HeadIsEmpty(size: Sizes, fl: seq<int>)
    requires Spaced(size, fl) && fl != []
    ensures fl[0] in size && size[fl[0]] == 0
  {
  }

  lemma SameSlot(size: Sizes, fl: seq<int>, i: nat, j: nat)
    requires Spaced(size, fl) && i < |fl| && j < |fl| && fl[i] == fl[j]
    ensures i == j
  {
    Distinct(size, fl);
  }

  lemma FitsLess(size: Sizes, fl: seq<int>, m: int, n: int)
    requires Fits(size, fl, m) && n <= m
    ensures Fits(size, fl, n)
  {
    var i :| 0 <= i < |fl| && fl[i] in size && size[fl[i]] >= m;
  }

  lemma FreshWell(base: int, ptr: map<int, int>, size: Sizes)
    ensures Well(base, ptr[base := base], size[base := 0], [base], {}, {})
  {
    assert Blocks([base], {}) == {};
  }

  lemma GrantWell(base: int, ptr: map<int, int>, size: Sizes, fl: seq<int>, live: set<int>, arena: set<int>, hp: int,
                  n: nat)
    requires Well(base, ptr, size, fl, live, arena) && n > 0 && base < hp && forall u :: u in arena ==> u < hp
    ensures hp !in live && hp !in fl
    ensures Well(base, ptr, size[hp := n], fl, live + {hp}, arena + Range(hp, n))
    ensures forall x :: x in live ==> x in size
  {
    hide Partition, Ring, Spaced, Range;
    InArena(base, ptr, size, fl, live, arena);
    GrowUnits(Blocks(fl, live), size, arena, hp, n);
    SpacedOther(size, fl, hp, n);
    assert Blocks(fl, live + {hp}) == Blocks(fl, live) + {hp};
  }

  lemma TakeExact(base: int, ptr: map<int, int>, size: Sizes, fl: seq<int>, live: set<int>, arena: set<int>, i: nat)
    requires Well(base, ptr, size, fl, live, arena) && i + 1 < |fl|
    ensures Well(base, ptr[fl[i] := Succ(fl, i + 1)], size, Dropped(fl, i), live + {fl[i + 1]}, arena)
    ensures fl[i + 1] !in live && fl[i + 1] > base && fl[i] >= base && forall x :: x in live ==> x in size
  {
    hide Ring, Partition, Blocks;
    var p := fl[i + 1];
    InArena(base, ptr, size, fl, live, arena);
    Distinct(size, fl);
    RingDrop(ptr, size, fl, i);
    SpacedDrop(size, fl, i);
    BlocksDrop(size, fl, live, i);
    Members(size, fl, live);
    BlocksMore(Dropped(fl, i), live, p);
    assert Blocks(Dropped(fl, i), live + {p}) == Blocks(fl, live);
    DroppedGone(size, fl, i);
  }

  lemma DroppedGone(size: Sizes, fl: seq<int>, k: nat)
    requires Spaced(size, fl) && k + 1 < |fl|
    ensures fl[k + 1] !in Dropped(fl, k) && forall x :: x in Dropped(fl, k) ==> x in fl
  {
    Distinct(size, fl);
  }

  lemma BlocksMore(fl: seq<int>, live: set<int>, b: int)
    ensures Blocks(fl, live + {b}) == Blocks(fl, live) + {b}
  {
  }

  lemma TakeTail(base: int, ptr: map<int, int>, size: Sizes, fl: seq<int>, live: set<int>, arena: set<int>, i: nat,
                 n: nat)
    requires Well(base, ptr, size, fl, live, arena) && i + 1 < |fl| && fl[i + 1] in size && 0 < n < size[fl[i + 1]]
    ensures var p := fl[i + 1];
            var q := p + size[p] - n;
            && q !in live && q > base && fl[i] >= base && p !in live && (forall x :: x in live ==> x in size)
            && Well(base, ptr, size[p := size[p] - n][q := n], fl, live + {q}, arena)
  {
    hide Ring, Partition, Blocks, Spaced;
    var p := fl[i + 1];
    var q := p + size[p] - n;
    InArena(base, ptr, size, fl, live, arena);
    Distinct(size, fl);
    Members(size, fl, live);
    SplitUnits(Blocks(fl, live), size, arena, p, n);
    SpacedTail(size, fl, i + 1, n);
    BlocksMore(fl, live, q);
  }

  lemma SpacedTail(size: Sizes, fl: seq<int>, k: nat, n: nat)
    requires Spaced(size, fl) && 0 < k < |fl| && 0 < n < size[fl[k]] && fl[k] + size[fl[k]] - n !in fl
    ensures Spaced(size[fl[k] := size[fl[k]] - n][fl[k] + size[fl[k]] - n := n], fl)
  {
    assert k + 1 < |fl| ==> Gap(size, fl[k], fl[k + 1]);
    SpacedResize(size, fl, k, size[fl[k]] - n);
    SpacedOther(size[fl[k] := size[fl[k]] - n], fl, fl[k] + size[fl[k]] - n, n);
  }

  // what free makes of the headers and the list: b goes after p, which q follows

  function FreedSize(size: Sizes, p: int, q: int, b: int): Sizes
    requires p in size && q in size && b in size
  {
    var s := if b + size[b] == q then size[b := size[b] + size[q]] else size;
    if p + size[p] == b then s[p := size[p] + s[b]] else s
  }

  function FreedPtr(ptr: map<int, int>, size: Sizes, p: int, q: int, b: int): map<int, int>
    requires p in size && q in size && b in size && q in ptr
  {
    var n := if b + size[b] == q then ptr[q] else q;
    ptr[b := n][p := if p + size[p] == b then n else b]
  }

  function FreedList(size: Sizes, fl: seq<int>, k: nat, b: int): seq<int>
    requires k < |fl| && fl[k] in size && b in size
  {
    var down := fl[k] + size[fl[k]] == b;
    if k + 1 < |fl| && b + size[b] == fl[k + 1] then
      if down then Dropped(fl, k) else fl[k + 1 := b]
    else
      if down then fl else Inserted(fl, k, b)
  }

  /** These blocks' sizes are what they were. */
  ghost predicate Kept(live: set<int>, a: Sizes, b: Sizes)
  {
    forall x :: x in live ==> x in a && x in b && a[x] == b[x]
  }

  /** Some block on the list has at least n units. */
  ghost predicate Fits(size: Sizes, fl: seq<int>, n: int)
  {
    exists i :: 0 <= i < |fl| && fl[i] in size && size[fl[i]] >= n
  }

  lemma FreeWell(base: int, ptr: map<int, int>, size: Sizes, fl: seq<int>, live: set<int>, arena: set<int>, k: nat,
                 b: int)
    requires Well(base, ptr, size, fl, live, arena) && b in live && Between(fl, k, b)
    ensures var p, q := fl[k], Succ(fl, k);
            && p in size && q in size && b in size && p in ptr && q in ptr && p != b && q != b && p in fl
            && var s, g := FreedSize(size, p, q, b), FreedList(size, fl, k, b);
            && Well(base, FreedPtr(ptr, size, p, q, b), s, g, live - {b}, arena)
            && p in g && Fits(s, g, size[b])
            && Kept(live - {b}, size, s)
  {
    hide Ring, Partition, Spaced, Blocks;
    var p, q := fl[k], Succ(fl, k);
    Neighbours(base, ptr, size, fl, live, arena, k, b);
    InArena(base, ptr, size, fl, live, arena);
    Step(ptr, fl, k);
    Step(ptr, fl, if k + 1 < |fl| then k + 1 else 0);
    var g := FreedList(size, fl, k, b);
    if b + size[b] == q && p + size[p] == b {
      FreeBetween(base, ptr, size, fl, live, arena, k, b);
    } else if b + size[b] == q {
      FreeWithNext(base, ptr, size, fl, live, arena, k, b);
    } else if p + size[p] == b {
      FreeIntoPrevious(base, ptr, size, fl, live, arena, k, b);
    } else {
      FreeAlone(base, ptr, size, fl, live, arena, k, b);
    }
    assert g[k] == p;
    assert p + size[p] == b || g[k + 1] == b;
  }

  lemma Step(ptr: map<int, int>, fl: seq<int>, i: nat)
    requires Ring(ptr, fl) && i < |fl|
    ensures fl[i] in ptr && ptr[fl[i]] == Succ(fl, i)
  {
    assert Linked(ptr, fl, i);
  }

  lemma KeptSame(base: int, ptr: map<int, int>, size: Sizes, fl: seq<int>, live: set<int>, arena: set<int>)
    requires Well(base, ptr, size, fl, live, arena)
    ensures Kept(live, size, size)
  {
    InArena(base, ptr, size, fl, live, arena);
  }

  lemma InArena(base: int, ptr: map<int, int>, size: Sizes, fl: seq<int>, live: set<int>, arena: set<int>)
    requires Well(base, ptr, size, fl, live, arena)
    ensures forall x :: x in live ==> x in arena && x in size && size[x] > 0
    ensures forall x :: x in fl ==> x in size && size[x] >= 0 && (x == base || x in arena)
  {
    Members(size, fl, live);
    forall x | x in fl && x != base
      ensures x in arena
    {
      assert Apart(size, x, x);
      assert Covers(size, x, x);
    }
    forall x | x in live
      ensures x in arena && x in size && size[x] > 0
    {
      assert Apart(size, x, x);
      assert Covers(size, x, x);
    }
  }

  // ---------------------------------------------------------------- a request that breaks the heap

  /** The largest request of all, on a fresh heap. It comes to 2^28 + 1 units, 2^32 + 16 bytes,
      which sbrk takes for 16: the block handed out has one unit of core. The next request, of
      one byte, finds nothing on the list, and sbrk gives it core inside that block. */
  method HugeRequest(base: int, top: int) returns (h: Heap, ap: int, found: bool, next: Option<int>)
    requires 0 < base < top && (top + 1) * HEADER < INT_LIMIT
    ensures ap == top + 1 && h.live == {top} && top in h.size && h.size[top] == 0x1000_0001
    ensures !found && next == Some(top + 1) && Covers(h.size, top, top + 1)
  {
    hide Well, Range, Fits;
    h := new Heap(base, top);
    AstrayMeans(top);
    AstrayMeans(top + 1);
    assert !Fits(h.size, h.fl, 0x1000_0001) by { NothingFits(h.size, 0x1000_0001); }
    assert Units(0xffff_ffff) == 0x1000_0001 == Grant(0x1000_0001) && SbrkArg(0x1000_0001) == 16;
    var broke;
    ap, broke := h.Malloc(0xffff_ffff, 0);
    ghost var n: nat := 0x1000_0001;
    assert h.arena == Range(top, n) by { assert {} + Range(top, n) == Range(top, n); }
    WholeArena(h.base, h.ptr, h.size, h.fl, ap - 1, h.arena, top, n);
    assert Units(1) == 2;
    var prev, p;
    ghost var i: nat;
    found, prev, p, i := h.FirstFit(2);
    next := h.Sbrk(SbrkArg(Grant(2)), 0);
  }

  lemma NothingFits(size: Sizes, n: int)
    ensures !Fits(size, [], n)
  {
  }

  /** A single allocated block as large as the arena is all there is: nothing fits. */
  lemma WholeArena(base: int, ptr: map<int, int>, size: Sizes, fl: seq<int>, b: int, arena: set<int>, top: int, n: nat)
    requires Well(base, ptr, size, fl, {b}, arena) && b in size && size[b] == n > 0 && arena == Range(top, n)
    ensures b == top && !Fits(size, fl, 2)
  {
    hide Range;
    Members(size, fl, {b});
    assert Covers(size, b, b) && Covers(size, b, b + n - 1);
    forall x | x in fl
      ensures x == base
    {
      assert x == base || (Apart(size, x, b) && (Covers(size, x, x) ==> x in arena));
    }
    assert forall i :: 0 <= i < |fl| ==> fl[i] in fl && fl[i] == base;
    assert size[fl[0]] == 0;
  }

  // ---------------------------------------------------------------- what the invariant says

  function Total(blocks: seq<int>, size: Sizes): int
  {
    if blocks == [] then 0 else (if blocks[0] in size then size[blocks[0]] else 0) + Total(blocks[1..], size)
  }

  ghost predicate Lists(list: seq<int>, blocks: set<int>)
  {
    (forall i, j :: 0 <= i < j < |list| ==> list[i] != list[j]) && forall a :: a in list <==> a in blocks
  }

  /** No unit is lost or counted twice: the sizes of all blocks, free and allocated, add up to
      what sbrk has granted. */
  lemma {:induction false} UnitsAddUp(list: seq<int>, blocks: set<int>, size: Sizes, arena: set<int>)
    requires Partition(blocks, size, arena) && Lists(list, blocks)
    ensures forall a :: a in list ==> a in size
    ensures Total(list, size) == |arena|
    decreases |list|
  {
    hide Range;
    forall a | a in blocks
      ensures a in size && size[a] > 0
    {
      assert Apart(size, a, a);
    }
    if list == [] {
      assert forall u :: u in arena ==> exists a :: a in blocks && Covers(size, a, u);
      assert arena == {};
    } else {
      var a := list[0];
      var mine := Range(a, size[a]);
      forall u | u in mine
        ensures u in arena
      {
        assert Covers(size, a, u);
      }
      WithoutBlock(blocks, size, arena, a);
      UnitsAddUp(list[1..], blocks - {a}, size, arena - mine);
      assert arena == (arena - mine) + mine;
    }
  }

  lemma WithoutBlock(blocks: set<int>, size: Sizes, arena: set<int>, a: int)
    requires Partition(blocks, size, arena) && a in blocks && a in size && size[a] > 0
    ensures Partition(blocks - {a}, size, arena - Range(a, size[a]))
  {
    hide Range;
    var rest := arena - Range(a, size[a]);
    forall b, u | b in blocks - {a} && Covers(size, b, u)
      ensures u in rest
    {
      assert Apart(size, a, b);
    }
    forall u | u in rest
      ensures exists b :: b in blocks - {a} && Covers(size, b, u)
    {
      var b :| b in blocks && Covers(size, b, u);
      assert b != a;
    }
  }

  // ---------------------------------------------------------------- runs

  datatype Op = OpMalloc(nbytes: Uint, gap: int) | OpFree(ap: int)

  /** The client's books: for each block held, the bytes asked for, which it has room for. */
  ghost predicate Held(live: set<int>, size: Sizes, held: map<int, Uint>)
  {
    && held.Keys == live
    && forall x :: x in held ==> x in size && held[x] <= (size[x] - 1) * HEADER < held[x] + HEADER
  }

  /** One call in the client's books; a client frees only what it holds. */
  function Entered(held: map<int, Uint>, op: Op, ap: int): map<int, Uint>
  {
    match op
    case OpMalloc(nbytes, _) => if ap == 0 then held else held[ap - 1 := nbytes]
    case OpFree(p) => held - {p - 1}
  }

  /** The books after the calls, given the addresses malloc has returned. */
  ghost function Books(ops: seq<Op>, aps: seq<int>): map<int, Uint>
    requires |ops| == |aps|
  {
    if ops == [] then map[] else
    var n := |ops| - 1;
    Entered(Books(ops[..n], aps[..n]), ops[n], aps[n])
  }

  /** An answer of malloc: a block that is not held, or null where sbrk may refuse. */
  ghost predicate Answer(held: map<int, Uint>, op: Op, ap: int)
  {
    if op.OpFree? then ap == 0 else
      if ap == 0 then op.gap < 0 || Grant(Units(op.nbytes)) * HEADER >= INT_LIMIT else ap - 1 !in held
  }

  ghost predicate Answers(ops: seq<Op>, aps: seq<int>)
    requires |ops| == |aps|
  {
    ops == [] ||
    var n := |ops| - 1;
    Answers(ops[..n], aps[..n]) && Answer(Books(ops[..n], aps[..n]), ops[n], aps[n])
  }

  /** The most units by which the calls can move the break. */
  function Reach(ops: seq<Op>): int
  {
    if ops == [] then 0 else
    var n := |ops| - 1;
    Reach(ops[..n]) + Span(ops[n])
  }

  function Span(op: Op): int
  {
    if op.OpFree? then 0 else (if op.gap < 0 then 0 else op.gap) + Grant(Units(op.nbytes))
  }

  /** A request that is sure to leave the heap in order, wherever the break is below `top`. */
  predicate Gentle(top: int, op: Op)
  {
    op.OpMalloc? && op.gap >= 0 ==> Grant(Units(op.nbytes)) * HEADER < INT_LIMIT && (top + op.gap) * HEADER < INT_LIMIT
  }

  lemma BreakBound(brk: int, n: nat, gap: int)
    ensures BrkAfter(brk, SbrkArg(n), gap) <= brk + (if gap < 0 then 0 else gap) + n
  {
    var y := (n * HEADER) % UINT_LIMIT;
    assert y <= n * HEADER;
    assert SbrkArg(n) <= n * HEADER;
  }

  lemma NotGentle(brk: int, top: int, op: Op)
    requires op.OpMalloc? && op.gap >= 0 && 0 < brk <= top && !Whole(Grant(Units(op.nbytes)), brk + op.gap)
    ensures !Gentle(top, op)
  {
    hide Units, Grant;
    if (brk + op.gap) * HEADER < INT_LIMIT {
      AstrayMeans(brk + op.gap);
    }
  }

  /** One call of the run. */
  method Serve(h: Heap, op: Op, held: map<int, Uint>) returns (ap: int, broke: bool)
    requires h.Valid() && Held(h.live, h.size, held)
    modifies h
    ensures h.Valid() <==> !broke
    ensures broke ==> op.OpMalloc? && op.gap >= 0 && !Whole(Grant(Units(op.nbytes)), old(h.brk) + op.gap)
    ensures !broke ==> Held(h.live, h.size, Entered(held, op, ap)) && Answer(held, op, ap)
    ensures h.brk <= old(h.brk) + Span(op)
  {
    hide Well, Range, Fits, Units, Held, Kept, Whole, SbrkArg, Grown, BrkAfter;
    ghost var live0, size0 := h.live, h.size;
    ap, broke := 0, false;
    match op {
      case OpMalloc(nbytes, gap) =>
        BreakBound(h.brk, Grant(Units(nbytes)), gap);
        NullMeans(Units(nbytes), h.brk, gap);
        ap, broke := h.Malloc(nbytes, gap);
        if !broke {
          HeldKept(live0, size0, h.size, held);
          if ap != 0 {
            HeldKeys(live0, h.size, held);
            HeldMore(live0, h.size, held, ap - 1, nbytes);
          }
        }
      case OpFree(p) =>
        if p - 1 in held {
          HeldLess(live0, size0, held, p - 1);
          h.Free(p);
          HeldKept(h.live, size0, h.size, held - {p - 1});
        } else {
          assert held - {p - 1} == held;
        }
    }
  }

  /** sbrk refuses only a size that does not fit an int, or because it has to. */
  lemma NullMeans(n: nat, brk: int, gap: int)
    requires brk > 0
    ensures SbrkOk(Grant(n), brk, gap) || gap < 0 || Grant(n) * HEADER >= INT_LIMIT
  {
  }

  lemma HeldKeys(live: set<int>, size: Sizes, held: map<int, Uint>)
    requires Held(live, size, held)
    ensures held.Keys == live
  {
  }

  lemma BooksMore(ops: seq<Op>, aps: seq<int>, op: Op, ap: int)
    requires |ops| == |aps| && Answers(ops, aps) && Answer(Books(ops, aps), op, ap)
    ensures Books(ops + [op], aps + [ap]) == Entered(Books(ops, aps), op, ap) && Answers(ops + [op], aps + [ap])
  {
    assert (ops + [op])[..|ops|] == ops && (aps + [ap])[..|ops|] == aps;
  }

  lemma ReachMore(ops: seq<Op>, op: Op)
    ensures Reach(ops + [op]) == Reach(ops) + Span(op)
  {
    assert (ops + [op])[..|ops|] == ops;
  }

  /** Where all gaps and grants together leave the break below 2^31, every request is gentle. */
  lemma {:induction false} AllGentle(top: int, ops: seq<Op>, i: nat)
    requires top > 0 && i < |ops| && (top + Reach(ops)) * HEADER < INT_LIMIT
    ensures Gentle(top + Reach(ops[..i]), ops[i]) && Reach(ops[..i]) >= 0
    decreases |ops|
  {
    var n := |ops| - 1;
    ReachPositive(ops[..n]);
    if i < n {
      AllGentle(top, ops[..n], i);
      assert ops[..n][..i] == ops[..i];
    }
  }

  lemma {:induction false} ReachPositive(ops: seq<Op>)
    ensures Reach(ops) >= 0
  {
    if ops != [] {
      ReachPositive(ops[..|ops| - 1]);
    }
  }

  /** Any mix of calls by a client that frees only what it holds: the list stays in order and
      everything held stays allocated, as large as asked for, and apart from the rest. malloc
      refuses only where sbrk may. The run stops only at a request for 2^31 bytes or more, or
      with the break possibly beyond that; so it goes through when all gaps and grants together
      leave the break below 2^31 bytes. */
  method Run(h: Heap, ops: seq<Op>) returns (aps: seq<int>)
    requires h.Valid() && h.live == {}
    modifies h
    ensures |aps| <= |ops|
    ensures Answers(ops[..|aps|], aps)
    ensures |aps| == |ops| ==> h.Valid() && Held(h.live, h.size, Books(ops, aps))
    ensures |aps| < |ops| ==> !h.Valid() && !Gentle(old(h.brk) + Reach(ops[..|aps|]), ops[|aps|])
    ensures (old(h.brk) + Reach(ops)) * HEADER < INT_LIMIT ==> |aps| == |ops|
  {
    hide Well, Range, Fits, Units, Held, Kept, Whole, SbrkArg, Grown, Entered, Answer, Gentle, BrkAfter, Span, Books,
         Answers, Reach;
    aps := [];
    var held: map<int, Uint> := map[];
    ghost var top := h.brk;
    NothingHeld(h.size, ops);
    while |aps| < |ops|
      invariant |aps| <= |ops| && h.Valid() && held == Books(ops[..|aps|], aps) && Held(h.live, h.size, held)
      invariant h.brk <= top + Reach(ops[..|aps|])
      invariant Answers(ops[..|aps|], aps)
      decreases |ops| - |aps|
    {
      ghost var n, brk := |aps|, h.brk;
      var op := ops[|aps|];
      assert ops[..n] + [op] == ops[..n + 1];
      var ap, broke := Serve(h, op, held);
      if broke {
        NotGentle(brk, top + Reach(ops[..n]), op);
        if (top + Reach(ops)) * HEADER < INT_LIMIT {
          AllGentle(top, ops, n);
        }
        return;
      }
      ReachMore(ops[..n], op);
      BooksMore(ops[..n], aps, op, ap);
      held := Entered(held, op, ap);
      aps := aps + [ap];
    }
    assert ops[..|aps|] == ops;
  }

  lemma NothingHeld(size: Sizes, ops: seq<Op>)
    ensures Held({}, size, map[]) && Books(ops[..0], []) == map[] && Answers(ops[..0], []) && Reach(ops[..0]) == 0
  {
  }

  lemma HeldKept(live: set<int>, size: Sizes, size': Sizes, held: map<int, Uint>)
    requires Held(live, size, held) && Kept(live, size, size')
    ensures Held(live, size', held)
  {
  }

  lemma HeldMore(live: set<int>, size: Sizes, held: map<int, Uint>, b: int, nbytes: Uint)
    requires Held(live, size, held) && b in size && nbytes <= (size[b] - 1) * HEADER < nbytes + HEADER
    ensures Held(live + {b}, size, held[b := nbytes])
  {
  }

  lemma HeldLess(live: set<int>, size: Sizes, held: map<int, Uint>, b: int)
    requires Held(live, size, held) && b in held
    ensures b in live && Held(live - {b}, size, held - {b})
  {
  }
}
