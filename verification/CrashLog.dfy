/** The redo log on disk (kernel/filesystem/log.c), with a power failure possible before
    any single block write.

    `budget` is the number of block writes the disk will still perform; when it is used up
    every further write fails and the machine has stopped.  What the home blocks "are" on a
    disk that may hold a committed log is `Logical`: the log's copy for a block the header
    lists, the block itself otherwise.  Every write of commit and of recovery leaves
    `Logical` alone, except the one header write that commits. */
module CrashLog {
  import opened Basics
  import opened Layout

  /** The log area: the header block at `start`, then size - 1 log blocks. */
  datatype Area = Area(start: nat, size: nat)

  predicate IsHome(a: Area, b: nat)
  {
    !(a.start <= b < a.start + a.size)
  }

  function HeaderN(h: Block): nat
  {
    h[0]
  }

  function HeaderList(h: Block): seq<Word>
  {
    h[1..1 + LOGSIZE]
  }

  /** k distinct home blocks that fit the log. */
  predicate ListOk(a: Area, len: nat, k: nat, list: seq<Word>)
  {
    && k <= LOGSIZE && k < a.size && k <= |list|
    && (forall i :: 0 <= i < k ==> list[i] < len && IsHome(a, list[i]))
    && (forall i, j :: 0 <= i < j < k ==> list[i] != list[j])
  }

  predicate DiskOk(a: Area, d: seq<Block>)
  {
    1 <= a.size && a.start + a.size <= |d| && ListOk(a, |d|, HeaderN(d[a.start]), HeaderList(d[a.start]))
  }

  /** The place of b among the first k entries. */
  function Find(list: seq<Word>, k: nat, b: nat): (r: Option<nat>)
    requires k <= |list|
    ensures r.Some? ==> r.value < k && list[r.value] == b
    ensures r.None? ==> forall i :: 0 <= i < k ==> list[i] != b
  {
    if k == 0 then None else if list[k - 1] == b then Some(k - 1) else Find(list, k - 1, b)
  }

  /** Home block b, as recovery will leave it. */
  function Logical(a: Area, d: seq<Block>, b: nat): Block
    requires DiskOk(a, d) && b < |d|
  {
    var h := d[a.start];
    var at := Find(HeaderList(h), HeaderN(h), b);
    if at.Some? then d[a.start + 1 + at.value] else d[b]
  }

  ghost predicate SameLogical(a: Area, d: seq<Block>, d': seq<Block>)
    requires DiskOk(a, d)
  {
    && |d'| == |d| && DiskOk(a, d')
    && forall b :: 0 <= b < |d| && IsHome(a, b) ==> Logical(a, d', b) == Logical(a, d, b)
  }

  /** Copying log block i to its home changes nothing that recovery would not. */
  lemma InstallKeepsLogical(a: Area, d: seq<Block>, i: nat)
    requires DiskOk(a, d) && i < HeaderN(d[a.start])
    ensures SameLogical(a, d, d[HeaderList(d[a.start])[i] := d[a.start + 1 + i]])
  {}

  lemma InstalledIsLogical(a: Area, d: seq<Block>, b: nat)
    requires DiskOk(a, d) && b < |d|
    requires forall i :: 0 <= i < HeaderN(d[a.start]) ==> d[HeaderList(d[a.start])[i]] == d[a.start + 1 + i]
    ensures d[b] == Logical(a, d, b)
  {}

  /** With an empty header the home blocks speak for themselves. */
  lemma EmptyLogical(a: Area, d: seq<Block>, b: nat)
    requires DiskOk(a, d) && HeaderN(d[a.start]) == 0 && b < |d|
    ensures Logical(a, d, b) == d[b]
  {}

  class LogDisk {
    const area: Area
    var disk: seq<Block>
    var budget: nat
    var n: nat                          // log.lh.n
    var block: seq<Word>                // log.lh.block
    var cache: map<nat, Block>          // the pinned buffers of the logged blocks

    /** One block write, if the power lasts. */
    method Bwrite(b: nat, data: Block) returns (ok: bool)
      requires b < |disk|
      modifies this`disk, this`budget
      ensures ok <==> old(budget) > 0
      ensures !ok ==> disk == old(disk) && budget == 0
      ensures ok ==> disk == old(disk)[b := data] && budget == old(budget) - 1
    {
      if budget == 0 {
        return false;
      }
      disk := disk[b := data];
      budget := budget - 1;
      return true;
    }

    /** write_log: only log blocks are written. */
    method WriteLog() returns (ok: bool)
      requires DiskOk(area, disk) && ListOk(area, |disk|, n, block) && forall i :: 0 <= i < n ==> block[i] in cache
      modifies this`disk, this`budget
      ensures |disk| == |old(disk)| && disk[area.start] == old(disk)[area.start]
      ensures forall b :: 0 <= b < |disk| && IsHome(area, b) ==> disk[b] == old(disk)[b]
      ensures ok <==> old(budget) >= n
      ensures ok ==> budget == old(budget) - n
      ensures ok ==> forall i :: 0 <= i < n ==> disk[area.start + 1 + i] == cache[block[i]]
    {
      var tail := 0;
      while tail < n
        invariant 0 <= tail <= n && |disk| == |old(disk)| && disk[area.start] == old(disk)[area.start]
        invariant forall b :: 0 <= b < |disk| && IsHome(area, b) ==> disk[b] == old(disk)[b]
        invariant budget == old(budget) - tail
        invariant forall i :: 0 <= i < tail ==> disk[area.start + 1 + i] == cache[block[i]]
      {
        ok := Bwrite(area.start + tail + 1, cache[block[tail]]);
        if !ok { return; }
        tail := tail + 1;
      }
      ok := true;
    }

    /** write_head: one atomic write. */
    method WriteHead() returns (ok: bool)
      requires area.start < |disk| && n <= LOGSIZE == |block|
      modifies this`disk, this`budget
      ensures ok <==> old(budget) > 0
      ensures !ok ==> disk == old(disk)
      ensures ok ==>
                disk == old(disk)[area.start := HeadImage(n, block, old(disk)[area.start])] && budget == old(budget) - 1
      ensures ok ==>
                && HeaderN(disk[area.start]) == n
                && forall i :: 0 <= i < n ==> HeaderList(disk[area.start])[i] == block[i]
    {
      ok := Bwrite(area.start, HeadImage(n, block, disk[area.start]));
    }

    /** The in-memory header is the one on disk. */
    ghost predicate HeadLoaded()
      reads this
    {
      && area.start < |disk| && n == HeaderN(disk[area.start]) <= LOGSIZE == |block|
      && forall i :: 0 <= i < n ==> block[i] == HeaderList(disk[area.start])[i]
    }

    /** install_trans: home blocks are overwritten with what Logical already says they are. */
    method InstallTrans() returns (ok: bool)
      requires DiskOk(area, disk) && HeadLoaded()
      modifies this`disk, this`budget
      ensures SameLogical(area, old(disk), disk) && disk[area.start] == old(disk)[area.start]
      ensures ok <==> old(budget) >= n
      ensures ok ==> budget == old(budget) - n
      ensures ok ==> forall b :: 0 <= b < |disk| && IsHome(area, b) ==> disk[b] == Logical(area, disk, b)
    {
      hide Logical, HeaderList, HeaderN;
      ghost var list := HeaderList(disk[area.start]);
      var tail := 0;
      while tail < n
        invariant 0 <= tail <= n && DiskOk(area, old(disk)) && SameLogical(area, old(disk), disk)
        invariant disk[area.start] == old(disk)[area.start] && budget == old(budget) - tail
        invariant forall i :: 0 <= i < tail ==> disk[list[i]] == disk[area.start + 1 + i]
      {
        InstallKeepsLogical(area, disk, tail);
        ok := Bwrite(block[tail], disk[area.start + tail + 1]);
        if !ok { return; }
        tail := tail + 1;
      }
      assert HeaderList(disk[area.start]) == list;
      forall b | 0 <= b < |disk| && IsHome(area, b)
        ensures disk[b] == Logical(area, disk, b)
      {
        InstalledIsLogical(area, disk, b);
      }
      ok := true;
    }

    /** What commit starts from: an empty log on disk, and an in-memory header that lists
        distinct home blocks, each with its new contents pinned in the cache. */
    ghost predicate Ready()
      reads this
    {
      && DiskOk(area, disk) && HeaderN(disk[area.start]) == 0 && |block| == LOGSIZE
      && ListOk(area, |disk|, n, block) && forall i :: 0 <= i < n ==> block[i] in cache
    }

    /** Home block b after the transaction. */
    ghost function New(b: nat): Block
      requires n <= |block| && b < |disk| && forall i :: 0 <= i < n ==> block[i] in cache
      reads this
    {
      if Find(block, n, b).Some? then cache[b] else disk[b]
    }

    /** commit.  The transaction is durable exactly when its n log writes and the header write
        went through; short of that the disk is, logically, as it was. */
    method Commit() returns (ok: bool)
      requires Ready()
      modifies this`disk, this`budget, this`n
      ensures |disk| == |old(disk)| && DiskOk(area, disk)
      ensures forall b :: 0 <= b < |disk| && IsHome(area, b) ==>
                Logical(area, disk, b) == if old(budget) > old(n) then old(New(b)) else old(disk)[b]
      ensures ok ==> HeaderN(disk[area.start]) == 0 && n == 0
      ensures ok <==> old(n) == 0 || old(budget) >= 2 * old(n) + 2
    {
      hide Logical, HeadImage;
      if n == 0 {
        forall b | 0 <= b < |disk| && IsHome(area, b)
          ensures Logical(area, disk, b) == disk[b]
        {
          EmptyLogical(area, disk, b);
        }
        return true;
      }
      ok := WriteLog();
      if !ok {
        KeepsHomes(area, old(disk), disk);
        return;
      }
      ghost var d1 := disk;
      KeepsHomes(area, old(disk), disk);
      ok := WriteHead();
      if !ok {
        return;
      }
      forall b | 0 <= b < |disk| && IsHome(area, b)
        ensures Logical(area, disk, b) == old(New(b))
      {
        CommitPoint(area, d1, disk, n, block, cache, b);
      }
      ok := InstallTrans();
      if !ok {
        return;
      }
      ok := ClearHead();
    }

    /** `log.lh.n = 0; write_head()`, once every home block holds its logged contents. */
    method ClearHead() returns (ok: bool)
      requires DiskOk(area, disk) && |block| == LOGSIZE
      requires forall b :: 0 <= b < |disk| && IsHome(area, b) ==> disk[b] == Logical(area, disk, b)
      modifies this`disk, this`budget, this`n
      ensures SameLogical(area, old(disk), disk) && n == 0
      ensures ok <==> old(budget) > 0
      ensures ok ==> budget == old(budget) - 1 && HeaderN(disk[area.start]) == 0
    {
      n := 0;
      ok := WriteHead();
    }

    /** read_head. */
    method ReadHead()
      requires DiskOk(area, disk)
      modifies this`n, this`block
      ensures HeadLoaded()
    {
      var h := disk[area.start];
      n := HeaderN(h);
      block := HeaderList(h);
    }

    /** recover_from_log, at boot.  It may be cut short and run again: the disk stays,
        logically, the same, and a run that ends leaves an empty log. */
    method Recover() returns (ok: bool)
      requires DiskOk(area, disk)
      modifies this`disk, this`budget, this`n, this`block
      ensures SameLogical(area, old(disk), disk)
      ensures ok <==> old(budget) >= HeaderN(old(disk)[area.start]) + 1
      ensures ok ==> HeaderN(disk[area.start]) == 0
    {
      hide Logical;
      ReadHead();
      ok := InstallTrans();
      if !ok { return; }
      ok := ClearHead();
    }
  }

  lemma KeepsHomes(a: Area, d: seq<Block>, d': seq<Block>)
    requires DiskOk(a, d) && HeaderN(d[a.start]) == 0 && |d'| == |d| && d'[a.start] == d[a.start]
    requires forall b :: 0 <= b < |d| && IsHome(a, b) ==> d'[b] == d[b]
    ensures DiskOk(a, d') && forall b :: 0 <= b < |d| && IsHome(a, b) ==> Logical(a, d', b) == d[b]
  {}

  /** The header write is the commit point: from there on block b is what the log holds. */
  lemma CommitPoint(a: Area, d: seq<Block>, d': seq<Block>, n: nat, block: seq<Word>, cache: map<nat, Block>, b: nat)
    requires DiskOk(a, d) && |d'| == |d| && DiskOk(a, d') && b < |d|
    requires |block| == LOGSIZE && HeaderN(d'[a.start]) == n <= LOGSIZE
    requires forall i :: 0 <= i < n ==> HeaderList(d'[a.start])[i] == block[i] && block[i] in cache
    requires forall i :: 0 <= i < n ==> d[a.start + 1 + i] == cache[block[i]]
    requires forall x :: 0 <= x < |d| && x != a.start ==> d'[x] == d[x]
    requires n < a.size && IsHome(a, b)
    ensures Logical(a, d', b) == if Find(block, n, b).Some? then cache[b] else d[b]
  {}

  /** Crash atomicity.  Power fails after k writes of the commit; recovery is attempted with
      the budgets in `attempts`, each possibly cut short, and finally runs to the end.  Every
      home block then holds its old contents, or every home block its new contents; the
      latter exactly when the commit got past its header write. */
  method CommitCrashRecover(l: LogDisk, k: nat, attempts: seq<nat>)
    requires l.Ready()
    modifies l
    ensures |l.disk| == |old(l.disk)| && HeaderN(l.disk[l.area.start]) == 0
    ensures forall b :: 0 <= b < |l.disk| && IsHome(l.area, b) ==>
              l.disk[b] == if k > old(l.n) then old(l.New(b)) else old(l.disk)[b]
  {
    hide Logical;
    l.budget := k;
    var ok := l.Commit();
    ghost var d := l.disk;
    var i := 0;
    while i < |attempts|
      invariant 0 <= i <= |attempts| && DiskOk(l.area, d) && SameLogical(l.area, d, l.disk)
    {
      l.budget := attempts[i];
      ok := l.Recover();
      i := i + 1;
    }
    l.budget := LOGSIZE + 1;
    ok := l.Recover();
    forall b | 0 <= b < |l.disk| && IsHome(l.area, b)
      ensures l.disk[b] == Logical(l.area, d, b)
    {
      EmptyLogical(l.area, l.disk, b);
    }
  }
}
