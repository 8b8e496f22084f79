/** The banker's algorithm (kernel/proc/proc.c): the greedy safety check decides exactly
    whether some order lets every active process finish, and every run of the resource
    calls keeps the state safe and the resources conserved. */
module Banker {
  import opened Basics
  import opened Counting

  const RES_MAX := 8

  /** The banker's part of a process slot; `used` is state != UNUSED. */
  datatype Proc = Proc(used: bool, active: bool, max: Vec, alloc: Vec)

  /** One of the resource vectors, of length RES_MAX. */
  type Vec = v: seq<int> | |v| == 8 witness seq(8, _ => 0)

  datatype State = State(inited: bool, nres: nat, total: Vec, avail: Vec, procs: seq<Proc>)

  // ---------------------------------------------------------------- the specification

  ghost predicate Shape(s: State)
  {
    |s.procs| == NPROC && s.nres <= RES_MAX
  }

  /** A process the check has to bring to an end. */
  predicate Party(s: State, i: nat)
  {
    i < |s.procs| && s.procs[i].used && s.procs[i].active
  }

  /** What processes of `done` below index k hold of resource r. */
  function Held(procs: seq<Proc>, done: set<nat>, r: nat, k: nat): int
    requires k <= |procs| && r < RES_MAX
  {
    if k == 0 then 0 else Held(procs, done, r, k - 1) + if k - 1 in done then procs[k - 1].alloc[r] else 0
  }

  /** Resource r once the processes of `done` have finished and given back what they hold. */
  function Work(s: State, done: set<nat>, r: nat): int
    requires Shape(s) && r < RES_MAX
  {
    s.avail[r] + Held(s.procs, done, r, |s.procs|)
  }

  ghost predicate NeedOk(s: State, i: nat, done: set<nat>)
    requires Shape(s) && i < NPROC
  {
    forall r :: 0 <= r < s.nres ==> s.procs[i].max[r] - s.procs[i].alloc[r] <= Work(s, done, r)
  }

  /** Each process of the order can finish once those before it have. */
  ghost predicate Feasible(s: State, order: seq<nat>)
    requires Shape(s)
  {
    forall k :: 0 <= k < |order| ==> order[k] < NPROC && NeedOk(s, order[k], Elems(order[..k]))
  }

  /** The order brings every active process to an end, once. */
  ghost predicate Complete(s: State, order: seq<nat>)
  {
    NoDup(order) && forall i: nat :: i in order <==> Party(s, i)
  }

  ghost predicate Safe(s: State)
    requires Shape(s)
  {
    exists order :: Complete(s, order) && Feasible(s, order)
  }

  ghost predicate AllocNonneg(s: State)
    requires Shape(s)
  {
    forall i, r :: 0 <= i < NPROC && 0 <= r < RES_MAX ==> s.procs[i].alloc[r] >= 0
  }

  // ---------------------------------------------------------------- sums

  lemma HeldAdd(procs: seq<Proc>, done: set<nat>, p: nat, r: nat, k: nat)
    requires k <= |procs| && p < |procs| && p !in done && r < RES_MAX
    ensures Held(procs, done + {p}, r, k) == Held(procs, done, r, k) + if p < k then procs[p].alloc[r] else 0
  {
    if k > 0 {
      HeldAdd(procs, done, p, r, k - 1);
    }
  }

  lemma HeldMonotone(procs: seq<Proc>, a: set<nat>, b: set<nat>, r: nat, k: nat)
    requires k <= |procs| && r < RES_MAX && forall i :: 0 <= i < |procs| ==> procs[i].alloc[r] >= 0
    requires a <= b
    ensures Held(procs, a, r, k) <= Held(procs, b, r, k)
  {
    if k > 0 {
      HeldMonotone(procs, a, b, r, k - 1);
    }
  }

  /** Only the holdings of processes in `done` matter. */
  lemma HeldAgree(p: seq<Proc>, q: seq<Proc>, a: set<nat>, b: set<nat>, r: nat, k: nat)
    requires k <= |p| == |q| && r < RES_MAX
    requires forall i :: 0 <= i < k ==> (if i in a then p[i].alloc[r] else 0) == (if i in b then q[i].alloc[r] else 0)
    ensures Held(p, a, r, k) == Held(q, b, r, k)
  {
    if k > 0 {
      HeldAgree(p, q, a, b, r, k - 1);
    }
  }

  /** One process's holding changes by `by`. */
  lemma HeldChange(p: seq<Proc>, q: seq<Proc>, done: set<nat>, x: nat, r: nat, k: nat)
    requires k <= |p| == |q| && x < |p| && r < RES_MAX
    requires forall i :: 0 <= i < |p| && i != x ==> p[i].alloc[r] == q[i].alloc[r]
    ensures Held(q, done, r, k) == Held(p, done, r, k) + if x < k && x in done then q[x].alloc[r] - p[x].alloc[r] else 0
  {
    if k > 0 {
      HeldChange(p, q, done, x, r, k - 1);
    }
  }

  // ---------------------------------------------------------------- the greedy check

  /** Completeness: if the greedy order is stuck, no complete order exists. */
  lemma GreedyComplete(s: State, done: set<nat>, order: seq<nat>)
    requires Shape(s) && AllocNonneg(s) && Complete(s, order) && Feasible(s, order)
    requires forall i :: i in done ==> Party(s, i)
    requires forall i :: 0 <= i < NPROC && Party(s, i) && i !in done ==> !NeedOk(s, i, done)
    ensures forall i: nat :: Party(s, i) ==> i in done
  {
    var k := 0;
    while k < |order|
      invariant 0 <= k <= |order| && forall j :: 0 <= j < k ==> order[j] in done
    {
      var i := order[k];
      assert Party(s, i);
      if i !in done {
        NeedOkMonotone(s, i, Elems(order[..k]), done);
        assert false;
      }
      k := k + 1;
    }
  }

  lemma NeedOkMonotone(s: State, i: nat, a: set<nat>, b: set<nat>)
    requires Shape(s) && AllocNonneg(s) && i < NPROC && a <= b && NeedOk(s, i, a)
    ensures NeedOk(s, i, b)
  {
    forall r | 0 <= r < s.nres
      ensures Work(s, a, r) <= Work(s, b, r)
    {
      HeldMonotone(s.procs, a, b, r, NPROC);
    }
  }

  lemma FeasibleSnoc(s: State, order: seq<nat>, i: nat)
    requires Shape(s) && Feasible(s, order) && i < NPROC && NeedOk(s, i, Elems(order))
    ensures Feasible(s, order + [i])
  {
    var o := order + [i];
    forall k | 0 <= k < |o|
      ensures o[k] < NPROC && NeedOk(s, o[k], Elems(o[..k]))
    {
      if k < |order| {
        assert o[..k] == order[..k];
      } else {
        assert o[..k] == order;
      }
    }
  }

  // ---------------------------------------------------------------- proc.c

  class Bank {
    var inited: bool
    var nres: nat
    var total: Vec
    var avail: Vec
    var procs: seq<Proc>

    ghost function St(): State
      reads this
    {
      State(inited, nres, total, avail, procs)
    }

    /** banker_need_ok. */
    method NeedFits(i: nat, work: Vec) returns (ok: bool)
      requires Shape(St()) && i < NPROC
      ensures ok <==> forall r :: 0 <= r < nres ==> procs[i].max[r] - procs[i].alloc[r] <= work[r]
    {
      var r := 0;
      while r < nres
        invariant 0 <= r <= nres
        invariant forall q :: 0 <= q < r ==> procs[i].max[q] - procs[i].alloc[q] <= work[q]
      {
        if procs[i].max[r] - procs[i].alloc[r] > work[r] {
          return false;
        }
        r := r + 1;
      }
      return true;
    }

    /** `work` and `finish` stand for the processes of `order` being done. */
    ghost predicate Tracks(work: Vec, finish: seq<bool>, order: seq<nat>)
      requires Shape(St())
      reads this
    {
      && |finish| == NPROC && NoDup(order) && Feasible(St(), order)
      && (forall i :: i in order ==> Party(St(), i))
      && (forall i :: 0 <= i < NPROC ==> (finish[i] <==> !Party(St(), i) || i in order))
      && (forall r :: 0 <= r < nres ==> work[r] == Work(St(), Elems(order), r))
    }

    /** work += alloc of a process that can finish. */
    method Finish(i: nat, work0: Vec, finish0: seq<bool>, ghost order: seq<nat>) returns (work: Vec, finish: seq<bool>)
      requires Shape(St()) && Tracks(work0, finish0, order) && i < NPROC && !finish0[i] && NeedOk(St(), i, Elems(order))
      ensures Tracks(work, finish, order + [i])
    {
      work, finish := work0, finish0;
      var r := 0;
      while r < nres
        invariant 0 <= r <= nres
        invariant forall q :: 0 <= q < RES_MAX ==> work[q] == work0[q] + if q < r then procs[i].alloc[q] else 0
      {
        work := work[r := work[r] + procs[i].alloc[r]];
        r := r + 1;
      }
      finish := finish[i := true];
      FeasibleSnoc(St(), order, i);
      assert Elems(order + [i]) == Elems(order) + {i};
      forall q | 0 <= q < nres
        ensures work[q] == Work(St(), Elems(order + [i]), q)
      {
        HeldAdd(procs, Elems(order), i, q, NPROC);
      }
    }

    /** banker_is_safe_locked: true exactly when some order lets every active process finish. */
    method IsSafe() returns (safe: bool)
      requires Shape(St()) && AllocNonneg(St())
      ensures safe <==> Safe(St())
    {
      var work := avail;
      var finish := seq(NPROC, i requires 0 <= i < NPROC && |procs| == NPROC reads this =>
                          !procs[i].used || !procs[i].active);
      ghost var order: seq<nat> := [];
      forall r | 0 <= r < nres
        ensures work[r] == Work(St(), Elems(order), r)
      {
        HeldNone(procs, Elems(order), r, NPROC);
      }
      while true
        invariant Tracks(work, finish, order)
        decreases NPROC - |order|
      {
        var progress := false;
        ghost var before := order;
        var i := 0;
        while i < NPROC
          invariant 0 <= i <= NPROC && Tracks(work, finish, order) && |order| >= |before|
          invariant progress <==> |order| > |before|
          invariant !progress ==>
                      && order == before
                      && forall j :: 0 <= j < i && !finish[j] ==> !NeedOk(St(), j, Elems(order))
        {
          if !finish[i] {
            var fits := NeedFits(i, work);
            if fits {
              work, finish := Finish(i, work, finish, order);
              order := order + [i];
              progress := true;
            }
          }
          i := i + 1;
        }
        OrderBound(order, |procs|);
        if !progress {
          break;
        }
      }
      safe := AllFinished(finish);
      if safe {
        assert Complete(St(), order);
      } else if Safe(St()) {
        var o :| Complete(St(), o) && Feasible(St(), o);
        GreedyComplete(St(), Elems(order), o);
      }
    }

    method AllFinished(finish: seq<bool>) returns (all: bool)
      requires |finish| == NPROC
      ensures all <==> forall i :: 0 <= i < NPROC ==> finish[i]
    {
      var i := 0;
      while i < NPROC
        invariant 0 <= i <= NPROC && forall j :: 0 <= j < i ==> finish[j]
      {
        if !finish[i] {
          return false;
        }
        i := i + 1;
      }
      return true;
    }

    /** banker_any_alloc_locked. */
    method AnyAlloc() returns (any: bool)
      requires Shape(St())
      ensures any <==> SomeoneHolds(St())
    {
      var i := 0;
      while i < NPROC
        invariant 0 <= i <= NPROC
        invariant forall j :: 0 <= j < i && procs[j].active ==> forall r :: 0 <= r < nres ==> procs[j].alloc[r] <= 0
      {
        if procs[i].active {
          var r := 0;
          while r < nres
            invariant 0 <= r <= nres && forall q :: 0 <= q < r ==> procs[i].alloc[q] <= 0
          {
            if procs[i].alloc[r] > 0 {
              return true;
            }
            r := r + 1;
          }
        }
        i := i + 1;
      }
      return false;
    }

    /** banker_init_state. */
    constructor ()
      ensures Inv(St()) && !inited && forall i :: 0 <= i < NPROC ==> !procs[i].used
    {
      inited, nres := false, 0;
      total, avail := Zeros(), Zeros();
      procs := seq(NPROC, i => Idle(false));
      new;
      EmptyIsSafe(St());
    }

    /** banker_init. */
    method Init(n: int, tot: seq<int>) returns (ret: int)
      requires Booked(St()) && (0 < n <= RES_MAX ==> |tot| == n)
      modifies this
      ensures ret == 0 <==> InitOk(old(St()), n, tot)
      ensures St() == Apply(old(St()), Call.Init(n, tot)) && (ret == 0 ==> Inv(St()))
      ensures ret == 0 || ret == -1
    {
      if n <= 0 || n > RES_MAX {
        return -1;
      }
      var neg := AnyNegative(tot);
      if neg {
        return -1;
      }
      if inited {
        var any := AnyAlloc();
        if any {
          return -1;
        }
      }
      inited, nres := true, n;
      total := tot + seq(RES_MAX - n, i => 0);
      avail := total;
      var i := 0;
      while i < NPROC
        invariant 0 <= i <= NPROC && |procs| == NPROC
        invariant inited && nres == n && total == avail == tot + seq(RES_MAX - n, i => 0)
        invariant forall j :: 0 <= j < NPROC ==> procs[j] == if j < i then Idle(old(procs)[j].used) else old(procs)[j]
      {
        procs := procs[i := Idle(procs[i].used)];
        i := i + 1;
      }
      assert procs == AllIdle(old(procs));
      EmptyIsSafe(St());
      return 0;
    }

    /** banker_set_max. */
    method SetMax(p: nat, n: int, max: seq<int>) returns (ret: int)
      requires Booked(St()) && p < NPROC && procs[p].used && (0 < n <= RES_MAX ==> |max| == n)
      modifies this`procs
      ensures ret == 0 <==> ClaimOk(old(St()), p, n, max)
      ensures ret == 0 || ret == -1
      ensures St() == Apply(old(St()), Call.SetMax(p, n, max))
    {
      hide Held, Below, Work;
      if n <= 0 || n > RES_MAX {
        return -1;
      }
      if !inited || n != nres {
        return -1;
      }
      var r := 0;
      while r < n
        invariant 0 <= r <= n
        invariant forall q :: 0 <= q < r ==> 0 <= max[q] <= total[q] && procs[p].alloc[q] <= max[q]
      {
        if max[r] < 0 || max[r] > total[r] {
          return -1;
        }
        if max[r] < procs[p].alloc[r] {
          return -1;
        }
        r := r + 1;
      }
      if !procs[p].active {
        procs := procs[p := procs[p].(alloc := Zeros())];
      }
      procs := procs[p := procs[p].(active := true, max := max + seq(RES_MAX - n, i => 0))];
      return 0;
    }

    /** avail -= req; alloc += req. */
    method TakeOut(p: nat, req: seq<int>)
      requires Shape(St()) && p < NPROC && |req| == nres
      modifies this`avail, this`procs
      ensures St() == HandOut(old(St()), p, req)
    {
      ghost var a0, p0 := avail, procs[p].alloc;
      assert Plus(p0, req, 0) == p0;
      var r := 0;
      while r < nres
        invariant 0 <= r <= nres && |procs| == NPROC
        invariant avail == Minus(a0, req, r)
        invariant procs == old(procs)[p := old(procs)[p].(alloc := Plus(p0, req, r))]
      {
        avail := avail[r := avail[r] - req[r]];
        procs := procs[p := procs[p].(alloc := procs[p].alloc[r := procs[p].alloc[r] + req[r]])];
        assert procs[p].alloc == Plus(p0, req, r + 1);
        r := r + 1;
      }
    }

    /** avail += rel; alloc -= rel. */
    method PutBack(p: nat, rel: seq<int>)
      requires Shape(St()) && p < NPROC && |rel| == nres
      modifies this`avail, this`procs
      ensures St() == HandBack(old(St()), p, rel)
    {
      ghost var a0, p0 := avail, procs[p].alloc;
      assert Minus(p0, rel, 0) == p0;
      var r := 0;
      while r < nres
        invariant 0 <= r <= nres && |procs| == NPROC
        invariant avail == Plus(a0, rel, r)
        invariant procs == old(procs)[p := old(procs)[p].(alloc := Minus(p0, rel, r))]
      {
        procs := procs[p := procs[p].(alloc := procs[p].alloc[r := procs[p].alloc[r] - rel[r]])];
        avail := avail[r := avail[r] + rel[r]];
        assert procs[p].alloc == Minus(p0, rel, r + 1);
        r := r + 1;
      }
    }

    /** banker_request: granted exactly when it is within the claim, available, and leaves a
        safe state; a refused request leaves no trace. */
    method Request(p: nat, n: int, req: seq<int>) returns (ret: int)
      requires Booked(St()) && p < NPROC && (0 < n <= RES_MAX ==> |req| == n)
      modifies this`avail, this`procs
      ensures ret == 0 <==> RequestOk(old(St()), p, n, req) && Safe(HandOut(old(St()), p, req))
      ensures ret == 0 || ret == -1
      ensures St() == Apply(old(St()), Call.Request(p, n, req))
    {
      hide Held, Below, Work;
      if n <= 0 || n > RES_MAX {
        return -1;
      }
      if !inited || n != nres || !procs[p].active {
        return -1;
      }
      var r := 0;
      while r < n
        invariant 0 <= r <= n
        invariant forall q :: 0 <= q < r ==> 0 <= req[q] <= procs[p].max[q] - procs[p].alloc[q] && req[q] <= avail[q]
      {
        var need := procs[p].max[r] - procs[p].alloc[r];
        if req[r] < 0 || req[r] > need || req[r] > avail[r] {
          return -1;
        }
        r := r + 1;
      }
      HandOutBooked(St(), p, req);
      BookedNonneg(HandOut(St(), p, req));
      TakeOut(p, req);
      var safe := IsSafe();
      if !safe {
        PutBack(p, req);
        HandRoundTrip(old(St()), p, req);
        return -1;
      }
      return 0;
    }

    /** banker_release. */
    method Release(p: nat, n: int, rel: seq<int>) returns (ret: int)
      requires Booked(St()) && p < NPROC && (0 < n <= RES_MAX ==> |rel| == n)
      modifies this`avail, this`procs
      ensures ret == 0 <==> ReleaseOk(old(St()), p, n, rel)
      ensures ret == 0 || ret == -1
      ensures St() == Apply(old(St()), Call.Release(p, n, rel))
    {
      if n <= 0 || n > RES_MAX {
        return -1;
      }
      if !inited || n != nres || !procs[p].active {
        return -1;
      }
      var r := 0;
      while r < n
        invariant 0 <= r <= n
        invariant forall q :: 0 <= q < r ==> 0 <= rel[q] <= procs[p].alloc[q]
      {
        if rel[r] < 0 || rel[r] > procs[p].alloc[r] {
          return -1;
        }
        r := r + 1;
      }
      PutBack(p, rel);
      return 0;
    }

    /** banker_release_proc, then the slot becomes UNUSED. */
    method FreeProc(p: nat)
      requires Booked(St()) && p < NPROC
      modifies this`avail, this`procs
      ensures St() == Apply(old(St()), Call.Exit(p))
    {
      hide Held, Below, Work;
      if inited && procs[p].active {
        ghost var a0, p0, m0 := avail, procs[p].alloc, procs[p].max;
        assert Cleared(p0, 0) == p0 && Cleared(m0, 0) == m0;
        var r := 0;
        while r < nres
          invariant 0 <= r <= nres && |procs| == NPROC
          invariant avail == Plus(a0, p0, r)
          invariant procs == old(procs)[p := old(procs)[p].(alloc := Cleared(p0, r), max := Cleared(m0, r))]
        {
          avail := avail[r := avail[r] + procs[p].alloc[r]];
          procs := procs[p := procs[p].(alloc := procs[p].alloc[r := 0], max := procs[p].max[r := 0])];
          assert procs[p].alloc == Cleared(p0, r + 1) && procs[p].max == Cleared(m0, r + 1);
          r := r + 1;
        }
        procs := procs[p := procs[p].(active := false)];
      }
      procs := procs[p := procs[p].(used := false)];
    }

    /** allocproc's part. */
    method AllocProc(p: nat)
      requires Booked(St()) && p < NPROC && !procs[p].used
      modifies this`procs
      ensures St() == Apply(old(St()), Call.Spawn(p))
    {
      procs := procs[p := Idle(true)];
    }
  }

  method AnyNegative(v: seq<int>) returns (neg: bool)
    ensures neg <==> exists r :: 0 <= r < |v| && v[r] < 0
  {
    var r := 0;
    while r < |v|
      invariant 0 <= r <= |v| && forall q :: 0 <= q < r ==> v[q] >= 0
    {
      if v[r] < 0 {
        return true;
      }
      r := r + 1;
    }
    return false;
  }

  // ---------------------------------------------------------------- the calls on values

  function Zeros(): (v: Vec)
    ensures forall r :: 0 <= r < RES_MAX ==> v[r] == 0
  {
    seq(RES_MAX, i => 0)
  }

  function Idle(used: bool): (p: Proc)
    ensures p.used == used && !p.active && forall r :: 0 <= r < RES_MAX ==> p.max[r] == 0 && p.alloc[r] == 0
  {
    Proc(used, false, Zeros(), Zeros())
  }

  function AllIdle(procs: seq<Proc>): seq<Proc>
  {
    seq(|procs|, i requires 0 <= i < |procs| => Idle(procs[i].used))
  }

  /** v + d on the first n entries. */
  function Plus(v: Vec, d: seq<int>, n: nat): Vec
    requires n <= RES_MAX && n <= |d|
  {
    seq(RES_MAX, r requires 0 <= r < RES_MAX => if r < n then v[r] + d[r] else v[r])
  }

  function Minus(v: Vec, d: seq<int>, n: nat): Vec
    requires n <= RES_MAX && n <= |d|
  {
    seq(RES_MAX, r requires 0 <= r < RES_MAX => if r < n then v[r] - d[r] else v[r])
  }

  function Cleared(v: Vec, n: nat): Vec
    requires n <= RES_MAX
  {
    seq(RES_MAX, r requires 0 <= r < RES_MAX => if r < n then 0 else v[r])
  }

  function HandOut(s: State, p: nat, d: seq<int>): State
    requires Shape(s) && p < NPROC && s.nres <= |d|
  {
    s.(avail := Minus(s.avail, d, s.nres),
       procs := s.procs[p := s.procs[p].(alloc := Plus(s.procs[p].alloc, d, s.nres))])
  }

  function HandBack(s: State, p: nat, d: seq<int>): State
    requires Shape(s) && p < NPROC && s.nres <= |d|
  {
    s.(avail := Plus(s.avail, d, s.nres),
       procs := s.procs[p := s.procs[p].(alloc := Minus(s.procs[p].alloc, d, s.nres))])
  }

  function Claim(s: State, p: nat, max: seq<int>): State
    requires Shape(s) && p < NPROC && |max| == s.nres
  {
    var a := if s.procs[p].active then s.procs[p].alloc else Zeros();
    s.(procs := s.procs[p := Proc(s.procs[p].used, true, max + seq(RES_MAX - |max|, i => 0), a)])
  }

  /** The process hands back all it holds and leaves. */
  function Retire(s: State, p: nat): State
    requires Shape(s) && p < NPROC
  {
    var q := s.procs[p];
    if s.inited && q.active then
      s.(avail := Plus(s.avail, q.alloc, s.nres),
         procs := s.procs[p := Proc(false, false, Cleared(q.max, s.nres), Cleared(q.alloc, s.nres))])
    else
      s.(procs := s.procs[p := q.(used := false)])
  }

  ghost predicate SomeoneHolds(s: State)
    requires Shape(s)
  {
    exists i, r :: 0 <= i < NPROC && 0 <= r < s.nres && s.procs[i].active && s.procs[i].alloc[r] > 0
  }

  ghost predicate InitOk(s: State, n: int, tot: seq<int>)
    requires Shape(s)
  {
    0 < n <= RES_MAX && |tot| == n && (forall r :: 0 <= r < n ==> tot[r] >= 0) && !(s.inited && SomeoneHolds(s))
  }

  ghost predicate ClaimOk(s: State, p: nat, n: int, max: seq<int>)
    requires Shape(s) && p < NPROC
  {
    && 0 < n == s.nres && s.inited && |max| == n
    && forall r :: 0 <= r < n ==> 0 <= max[r] <= s.total[r] && s.procs[p].alloc[r] <= max[r]
  }

  ghost predicate RequestOk(s: State, p: nat, n: int, req: seq<int>)
    requires Shape(s) && p < NPROC
  {
    && 0 < n == s.nres && s.inited && |req| == n && s.procs[p].active
    && forall r :: 0 <= r < n ==> 0 <= req[r] <= s.procs[p].max[r] - s.procs[p].alloc[r] && req[r] <= s.avail[r]
  }

  ghost predicate ReleaseOk(s: State, p: nat, n: int, rel: seq<int>)
    requires Shape(s) && p < NPROC
  {
    && 0 < n == s.nres && s.inited && |rel| == n && s.procs[p].active
    && forall r :: 0 <= r < n ==> 0 <= rel[r] <= s.procs[p].alloc[r]
  }

  datatype Call =
    | Init(n: int, tot: seq<int>)
    | SetMax(p: nat, n: int, max: seq<int>)
    | Request(p: nat, n: int, req: seq<int>)
    | Release(p: nat, n: int, rel: seq<int>)
    | Spawn(p: nat)
    | Exit(p: nat)

  /** The state after a call; calls by slots that do not exist or are not in use change nothing. */
  ghost function Apply(s: State, c: Call): State
    requires Shape(s)
  {
    match c
    case Init(n, tot) =>
      if !InitOk(s, n, tot) then s else
      var padded := tot + seq(RES_MAX - n, i => 0);
      State(true, n, padded, padded, AllIdle(s.procs))
    case SetMax(p, n, max) => if p < NPROC && s.procs[p].used && ClaimOk(s, p, n, max) then Claim(s, p, max) else s
    case Request(p, n, req) =>
      if p < NPROC && RequestOk(s, p, n, req) && Safe(HandOut(s, p, req)) then HandOut(s, p, req) else s
    case Release(p, n, rel) => if p < NPROC && ReleaseOk(s, p, n, rel) then HandBack(s, p, rel) else s
    case Spawn(p) => if p < NPROC && !s.procs[p].used then s.(procs := s.procs[p := Idle(true)]) else s
    case Exit(p) => if p < NPROC then Retire(s, p) else s
  }

  lemma HeldNone(procs: seq<Proc>, done: set<nat>, r: nat, k: nat)
    requires k <= |procs| && done == {} && r < RES_MAX
    ensures Held(procs, done, r, k) == 0
  {
    if k > 0 {
      HeldNone(procs, done, r, k - 1);
    }
  }

  // ---------------------------------------------------------------- what every call keeps

  ghost predicate ProcOk(s: State, i: nat)
    requires Shape(s) && i < NPROC
  {
    var p := s.procs[i];
    && (!p.used ==> !p.active)
    && (forall r :: 0 <= r < RES_MAX ==> p.alloc[r] >= 0)
    && (forall r :: 0 <= r < RES_MAX && (!p.active || r >= s.nres) ==> p.alloc[r] == 0)
    && (p.active ==> s.inited && forall r :: 0 <= r < s.nres ==> p.alloc[r] <= p.max[r] <= s.total[r])
  }

  /** Resources are conserved, claims are within bounds; all of the invariant but safety. */
  ghost predicate Booked(s: State)
  {
    && Shape(s)
    && (forall i :: 0 <= i < NPROC ==> ProcOk(s, i))
    && (forall r :: 0 <= r < s.nres ==> s.avail[r] >= 0 && s.total[r] == Work(s, Below(|s.procs|), r))
  }

  ghost predicate Inv(s: State)
  {
    Booked(s) && Safe(s)
  }

  lemma BookedNonneg(s: State)
    requires Booked(s)
    ensures AllocNonneg(s)
  {
    forall i, r | 0 <= i < NPROC && 0 <= r < RES_MAX
      ensures s.procs[i].alloc[r] >= 0
    {
      assert ProcOk(s, i);
    }
  }

  /** Extending a feasible start by an order in which every process, those of `skip` aside,
      could finish after its predecessors and the start. */
  lemma Merge(s: State, base: seq<nat>, rest: seq<nat>, skip: set<nat>) returns (o: seq<nat>)
    requires Shape(s) && AllocNonneg(s) && NoDup(base) && Feasible(s, base)
    requires forall j :: 0 <= j < |rest| && rest[j] !in base && rest[j] !in skip ==>
               rest[j] < NPROC && NeedOk(s, rest[j], (Elems(rest[..j]) - skip) + Elems(base))
    ensures NoDup(o) && Feasible(s, o)
    ensures forall i: nat :: i in o <==> i in base || (i in rest && i !in skip)
  {
    o := base;
    var j := 0;
    while j < |rest|
      invariant 0 <= j <= |rest| && NoDup(o) && Feasible(s, o)
      invariant forall i: nat :: i in o <==> i in base || (i in rest[..j] && i !in skip)
    {
      var i := rest[j];
      assert rest[..j + 1] == rest[..j] + [i];
      if i !in o && i !in skip {
        NeedOkMonotone(s, i, (Elems(rest[..j]) - skip) + Elems(base), Elems(o));
        FeasibleSnoc(s, o, i);
        o := o + [i];
      }
      j := j + 1;
    }
    assert rest[..j] == rest;
  }

  /** With nobody holding anything and nobody active, all is safe. */
  lemma EmptyIsSafe(s: State)
    requires Shape(s) && s.total == s.avail
    requires forall r :: 0 <= r < s.nres ==> s.total[r] >= 0
    requires forall i :: 0 <= i < NPROC ==> s.procs[i] == Idle(s.procs[i].used)
    ensures Inv(s)
  {
    hide Held, Below;
    forall r | 0 <= r < s.nres
      ensures Work(s, Below(|s.procs|), r) == s.avail[r]
    {
      HeldNone(s.procs, {}, r, NPROC);
      HeldAgree(s.procs, s.procs, Below(|s.procs|), {}, r, NPROC);
    }
    assert Complete(s, []) && Feasible(s, []);
  }

  lemma HandRoundTrip(s: State, p: nat, d: seq<int>)
    requires Shape(s) && p < NPROC && s.nres <= |d|
    ensures HandBack(HandOut(s, p, d), p, d) == s
  {
    var t := HandBack(HandOut(s, p, d), p, d);
    assert t.avail == s.avail;
    assert t.procs[p].alloc == s.procs[p].alloc;
    assert t.procs == s.procs;
  }

  /** What moves into p's hands is missing from the pool until p is done. */
  lemma WorkAfterHandBack(s: State, p: nat, d: seq<int>, done: set<nat>, r: nat)
    requires Shape(s) && p < NPROC && s.nres <= |d| && r < s.nres
    ensures Work(HandBack(s, p, d), done, r) == Work(s, done, r) + if p in done then 0 else d[r]
  {
    HeldChange(s.procs, HandBack(s, p, d).procs, done, p, r, NPROC);
  }

  lemma HandOutBooked(s: State, p: nat, d: seq<int>)
    requires Booked(s) && p < NPROC && RequestOk(s, p, s.nres, d)
    ensures Booked(HandOut(s, p, d))
  {
    hide Held, Below;
    var t := HandOut(s, p, d);
    forall r | 0 <= r < t.nres
      ensures t.avail[r] >= 0 && t.total[r] == Work(t, Below(|t.procs|), r)
    {
      HandRoundTrip(s, p, d);
      WorkAfterHandBack(t, p, d, Below(|t.procs|), r);
    }
    forall i | 0 <= i < NPROC
      ensures ProcOk(t, i)
    {
      assert ProcOk(s, i);
    }
  }

  lemma HandBackBooked(s: State, p: nat, d: seq<int>)
    requires Booked(s) && p < NPROC && ReleaseOk(s, p, s.nres, d)
    ensures Booked(HandBack(s, p, d))
  {
    hide Held, Below;
    var t := HandBack(s, p, d);
    forall r | 0 <= r < t.nres
      ensures t.avail[r] >= 0 && t.total[r] == Work(t, Below(|t.procs|), r)
    {
      WorkAfterHandBack(s, p, d, Below(|t.procs|), r);
    }
    forall i | 0 <= i < NPROC
      ensures ProcOk(t, i)
    {
      assert ProcOk(s, i);
    }
  }

  lemma HandBackKeeps(s: State, p: nat, d: seq<int>)
    requires Inv(s) && p < NPROC && ReleaseOk(s, p, s.nres, d)
    ensures Inv(HandBack(s, p, d))
  {
    hide Held, Below, Work;
    var t := HandBack(s, p, d);
    HandBackBooked(s, p, d);
    var o :| Complete(s, o) && Feasible(s, o);
    HandBackOrder(s, p, d, o);
    assert Complete(t, o) by {
      forall i: nat
        ensures Party(t, i) <==> Party(s, i)
      {
      }
    }
  }

  /** The order that finished everybody before still does. */
  lemma HandBackOrder(s: State, p: nat, d: seq<int>, o: seq<nat>)
    requires Shape(s) && p < NPROC && ReleaseOk(s, p, s.nres, d) && NoDup(o) && Feasible(s, o)
    ensures Feasible(HandBack(s, p, d), o)
  {
    hide Held;
    var t := HandBack(s, p, d);
    forall k | 0 <= k < |o|
      ensures o[k] < NPROC && NeedOk(t, o[k], Elems(o[..k]))
    {
      assert NeedOk(s, o[k], Elems(o[..k]));
      forall r | 0 <= r < t.nres
        ensures t.procs[o[k]].max[r] - t.procs[o[k]].alloc[r] <= Work(t, Elems(o[..k]), r)
      {
        WorkAfterHandBack(s, p, d, Elems(o[..k]), r);
      }
    }
  }

  /** Two states with the same pool, judged on sets of processes that hold the same. */
  lemma WorkAgree(s: State, t: State, a: set<nat>, b: set<nat>, r: nat)
    requires Shape(s) && Shape(t) && r < RES_MAX && s.avail[r] == t.avail[r]
    requires forall i :: 0 <= i < NPROC ==>
               (if i in a then s.procs[i].alloc[r] else 0) == (if i in b then t.procs[i].alloc[r] else 0)
    ensures Work(s, a, r) == Work(t, b, r)
  {
    HeldAgree(s.procs, t.procs, a, b, r, NPROC);
  }

  // ---------------------------------------------------------------- leaving and entering

  /** p's holding goes back to the pool. */
  lemma RetireWork(s: State, p: nat, done: set<nat>, r: nat)
    requires Booked(s) && p < NPROC && r < s.nres
    ensures Work(Retire(s, p), done - {p}, r) == Work(s, done + {p}, r)
    ensures Work(Retire(s, p), done, r) == Work(Retire(s, p), done - {p}, r)
  {
    hide Held, Below;
    var t := Retire(s, p);
    assert ProcOk(s, p);
    WorkAgree(t, t, done, done - {p}, r);
    HeldAdd(s.procs, done - {p}, p, r, NPROC);
    assert done - {p} + {p} == done + {p};
    HeldAgree(t.procs, s.procs, done - {p}, done - {p}, r, NPROC);
  }

  lemma RetireBooked(s: State, p: nat)
    requires Booked(s) && p < NPROC
    ensures Booked(Retire(s, p))
  {
    hide Held, Below, Work;
    var t := Retire(s, p);
    assert ProcOk(s, p);
    forall r | 0 <= r < t.nres
      ensures t.total[r] == Work(t, Below(|t.procs|), r)
    {
      RetireWork(s, p, Below(|t.procs|), r);
      assert Below(|t.procs|) + {p} == Below(|t.procs|);
    }
    forall i | 0 <= i < NPROC
      ensures ProcOk(t, i)
    {
      assert ProcOk(s, i);
    }
  }

  lemma RetireKeeps(s: State, p: nat)
    requires Inv(s) && p < NPROC
    ensures Inv(Retire(s, p))
  {
    RetireBooked(s, p);
    var q :| Complete(s, q) && Feasible(s, q);
    RetireOrder(s, p, q);
  }

  lemma RetireOrder(s: State, p: nat, q: seq<nat>)
    requires Booked(s) && p < NPROC && Complete(s, q) && Feasible(s, q) && Booked(Retire(s, p))
    ensures Safe(Retire(s, p))
  {
    hide Held, Below;
    var t := Retire(s, p);
    BookedNonneg(s);
    BookedNonneg(t);
    forall j | 0 <= j < |q| && q[j] != p
      ensures q[j] < NPROC && NeedOk(t, q[j], (Elems(q[..j]) - {p}) + Elems([]))
    {
      var done := Elems(q[..j]);
      NeedOkMonotone(s, q[j], done, done + {p});
      assert (done - {p}) + Elems([]) == done - {p};
      forall r | 0 <= r < t.nres
        ensures Work(t, done - {p}, r) == Work(s, done + {p}, r)
      {
        RetireWork(s, p, done, r);
      }
    }
    var o := Merge(t, [], q, {p});
    assert Complete(t, o) by {
      forall i: nat
        ensures Party(t, i) <==> Party(s, i) && i != p
      {
      }
    }
  }

  lemma SpawnWork(s: State, p: nat, done: set<nat>, r: nat)
    requires Booked(s) && p < NPROC && !s.procs[p].used && r < s.nres
    ensures Work(Apply(s, Spawn(p)), done, r) == Work(s, done, r)
  {
    hide Held, Below, Work;
    assert ProcOk(s, p);
    WorkAgree(Apply(s, Spawn(p)), s, done, done, r);
  }

  lemma SpawnBooked(s: State, p: nat)
    requires Booked(s) && p < NPROC && !s.procs[p].used
    ensures Booked(Apply(s, Spawn(p)))
  {
    hide Held, Below, Work;
    var t := Apply(s, Spawn(p));
    forall r | 0 <= r < t.nres
      ensures t.total[r] == Work(t, Below(|t.procs|), r)
    {
      SpawnWork(s, p, Below(|t.procs|), r);
    }
    forall i | 0 <= i < NPROC
      ensures ProcOk(t, i)
    {
      assert ProcOk(s, i);
    }
  }

  lemma SpawnKeeps(s: State, p: nat)
    requires Inv(s) && p < NPROC && !s.procs[p].used
    ensures Inv(Apply(s, Spawn(p)))
  {
    hide Held, Below, Work;
    var t := Apply(s, Spawn(p));
    SpawnBooked(s, p);
    assert ProcOk(s, p);
    var o :| Complete(s, o) && Feasible(s, o);
    assert Complete(t, o) by {
      forall i: nat
        ensures Party(t, i) <==> Party(s, i)
      {
      }
    }
    forall k | 0 <= k < |o|
      ensures o[k] < NPROC && NeedOk(t, o[k], Elems(o[..k]))
    {
      assert Party(s, o[k]) && NeedOk(s, o[k], Elems(o[..k]));
      forall r | 0 <= r < s.nres
        ensures Work(t, Elems(o[..k]), r) == Work(s, Elems(o[..k]), r)
      {
        SpawnWork(s, p, Elems(o[..k]), r);
      }
    }
  }

  // ---------------------------------------------------------------- stating a claim

  /** After these other processes, p could be served up to the new claim. */
  ghost predicate Yields(s: State, p: nat, max: seq<int>, o: seq<nat>)
    requires Shape(s) && p < NPROC && s.nres <= |max|
  {
    && NoDup(o) && Feasible(s, o) && (forall i :: i in o ==> Party(s, i) && i != p)
    && forall r :: 0 <= r < s.nres ==> max[r] - s.procs[p].alloc[r] <= Work(s, Elems(o), r)
  }

  lemma ClaimWork(s: State, p: nat, max: seq<int>, done: set<nat>, r: nat)
    requires Booked(s) && p < NPROC && |max| == s.nres && r < s.nres
    ensures Work(Claim(s, p, max), done, r) == Work(s, done, r)
  {
    hide Held, Below, Work;
    assert ProcOk(s, p);
    WorkAgree(Claim(s, p, max), s, done, done, r);
  }

  lemma ClaimBooked(s: State, p: nat, max: seq<int>)
    requires Booked(s) && p < NPROC && ClaimOk(s, p, s.nres, max) && s.procs[p].used
    ensures Booked(Claim(s, p, max))
  {
    hide Held, Below, Work;
    var t := Claim(s, p, max);
    forall r | 0 <= r < t.nres
      ensures t.total[r] == Work(t, Below(|t.procs|), r)
    {
      ClaimWork(s, p, max, Below(|t.procs|), r);
    }
    forall i | 0 <= i < NPROC
      ensures ProcOk(t, i)
    {
      assert ProcOk(s, i);
    }
  }

  /** Others' prospects are the same before and after p's claim. */
  lemma ClaimOthers(s: State, p: nat, max: seq<int>, o: seq<nat>)
    requires Booked(s) && p < NPROC && |max| == s.nres && p !in o
    ensures Feasible(Claim(s, p, max), o) <==> Feasible(s, o)
  {
    hide Held, Below, Work;
    var t := Claim(s, p, max);
    forall k | 0 <= k < |o| && o[k] < NPROC
      ensures NeedOk(t, o[k], Elems(o[..k])) <==> NeedOk(s, o[k], Elems(o[..k]))
    {
      assert o[k] != p;
      forall r | 0 <= r < s.nres
        ensures Work(t, Elems(o[..k]), r) == Work(s, Elems(o[..k]), r)
      {
        ClaimWork(s, p, max, Elems(o[..k]), r);
      }
    }
  }

  lemma ClaimServed(s: State, p: nat, max: seq<int>, done: set<nat>)
    requires Booked(s) && p < NPROC && ClaimOk(s, p, s.nres, max)
    ensures NeedOk(Claim(s, p, max), p, done) <==>
            forall r :: 0 <= r < s.nres ==> max[r] - s.procs[p].alloc[r] <= Work(s, done, r)
  {
    hide Held, Below, Work;
    assert ProcOk(s, p);
    var t := Claim(s, p, max);
    forall r | 0 <= r < s.nres
      ensures Work(t, done, r) == Work(s, done, r)
      ensures t.procs[p].max[r] - t.procs[p].alloc[r] == max[r] - s.procs[p].alloc[r]
    {
      ClaimWork(s, p, max, done, r);
    }
  }

  /** A claim keeps the state safe exactly when the other processes can first free enough for
      it: set_max itself does not look. */
  lemma ClaimSafe(s: State, p: nat, max: seq<int>)
    requires Inv(s) && p < NPROC && ClaimOk(s, p, s.nres, max) && s.procs[p].used
    ensures Safe(Claim(s, p, max)) <==> exists o :: Yields(s, p, max, o)
  {
    hide Held, Below, Work, NeedOk;
    var t := Claim(s, p, max);
    if Safe(t) {
      var q :| Complete(t, q) && Feasible(t, q);
      ClaimSafeThen(s, p, max, q);
    }
    if o :| Yields(s, p, max, o) {
      var q :| Complete(s, q) && Feasible(s, q);
      ClaimSafeIf(s, p, max, o, q);
    }
  }

  lemma ClaimSafeThen(s: State, p: nat, max: seq<int>, q: seq<nat>)
    requires Booked(s) && p < NPROC && ClaimOk(s, p, s.nres, max) && s.procs[p].used
    requires Complete(Claim(s, p, max), q) && Feasible(Claim(s, p, max), q)
    ensures exists o :: Yields(s, p, max, o)
  {
    hide Held, Below, Work;
    var t := Claim(s, p, max);
    assert Party(t, p);
    var k :| 0 <= k < |q| && q[k] == p;
    var o := q[..k];
    assert NeedOk(t, q[k], Elems(o));
    ClaimServed(s, p, max, Elems(o));
    assert Feasible(t, o) by {
      forall j | 0 <= j < |o|
        ensures o[j] < NPROC && NeedOk(t, o[j], Elems(o[..j]))
      {
        assert o[..j] == q[..j];
      }
    }
    ClaimOthers(s, p, max, o);
    forall i | i in o
      ensures Party(s, i) && i != p
    {
      assert Party(t, i);
    }
    assert Yields(s, p, max, o);
  }

  lemma ClaimSafeIf(s: State, p: nat, max: seq<int>, o: seq<nat>, q: seq<nat>)
    requires Booked(s) && p < NPROC && ClaimOk(s, p, s.nres, max) && s.procs[p].used
    requires Yields(s, p, max, o) && Complete(s, q) && Feasible(s, q)
    ensures Safe(Claim(s, p, max))
  {
    hide Held, Below, Work;
    var t := Claim(s, p, max);
    ClaimBooked(s, p, max);
    BookedNonneg(t);
    ClaimOthers(s, p, max, o);
    ClaimServed(s, p, max, Elems(o));
    FeasibleSnoc(t, o, p);
    var base := o + [p];
    forall j | 0 <= j < |q| && q[j] !in base
      ensures q[j] < NPROC && NeedOk(t, q[j], (Elems(q[..j]) - {}) + Elems(base))
    {
      var done := Elems(q[..j]);
      assert q[j] != p && NeedOk(s, q[j], done);
      forall r | 0 <= r < s.nres
        ensures Work(t, done, r) == Work(s, done, r)
      {
        ClaimWork(s, p, max, done, r);
      }
      assert NeedOk(t, q[j], done);
      NeedOkMonotone(t, q[j], done, (done - {}) + Elems(base));
    }
    var w := Merge(t, base, q, {});
    assert Complete(t, w) by {
      forall i: nat
        ensures i in w <==> Party(t, i)
      {
        assert Party(t, i) <==> Party(s, i) || i == p;
      }
    }
  }

  /** In particular a claim made before holding anything, the protocol's intended use. */
  lemma FirstClaimYields(s: State, p: nat, max: seq<int>)
    requires Inv(s) && p < NPROC && ClaimOk(s, p, s.nres, max)
    requires forall r :: 0 <= r < s.nres ==> s.procs[p].alloc[r] == 0
    ensures exists o :: Yields(s, p, max, o)
  {
    hide Held, Below, Work;
    BookedNonneg(s);
    var q :| Complete(s, q) && Feasible(s, q);
    forall j | 0 <= j < |q| && q[j] != p
      ensures q[j] < NPROC && NeedOk(s, q[j], (Elems(q[..j]) - {p}) + Elems([]))
    {
      var done := Elems(q[..j]);
      assert (done - {p}) + Elems([]) == done - {p};
      forall r | 0 <= r < s.nres
        ensures Work(s, done - {p}, r) == Work(s, done, r)
      {
        WorkAgree(s, s, done - {p}, done, r);
      }
    }
    var o := Merge(s, [], q, {p});
    forall r | 0 <= r < s.nres
      ensures max[r] - s.procs[p].alloc[r] <= Work(s, Elems(o), r)
    {
      forall i | 0 <= i < NPROC && i !in Elems(o)
        ensures s.procs[i].alloc[r] == 0
      {
        assert ProcOk(s, i) && !(i in o) && (i == p || !Party(s, i));
      }
      WorkAgree(s, s, Elems(o), Below(|s.procs|), r);
    }
    assert Yields(s, p, max, o);
  }

  // ---------------------------------------------------------------- a claim that loses safety

  /** One resource with two units, and two processes. */
  function Start(): (s: State)
    ensures Shape(s) && s.nres == 1 && s.total == s.avail && s.total[0] == 2 && s.inited
    ensures forall i :: 0 <= i < NPROC ==> s.procs[i] == Idle(i < 2)
  {
    var two := [2] + seq(RES_MAX - 1, i => 0);
    State(true, 1, two, two, seq(NPROC, i => Idle(i < 2)))
  }

  /** Both state their claims, one and two, and get one unit each. */
  function Squeezed(): State
  {
    HandOut(HandOut(Claim(Claim(Start(), 0, [1]), 1, [2]), 0, [1]), 1, [1])
  }

  lemma SqueezedBooked()
    ensures Booked(Squeezed())
  {
    hide Held, Below, Work, Start, Booked;
    EmptyIsSafe(Start());
    ClaimBooked(Start(), 0, [1]);
    var a := Claim(Start(), 0, [1]);
    ClaimBooked(a, 1, [2]);
    var b := Claim(a, 1, [2]);
    HandOutBooked(b, 0, [1]);
    HandOutBooked(HandOut(b, 0, [1]), 1, [1]);
  }

  lemma SqueezedShape()
    ensures var s := Squeezed();
            && Shape(s) && s.inited && s.nres == 1 && s.total[0] == 2 && s.avail[0] == 0
            && s.procs[0].max[0] == 1 && s.procs[0].alloc[0] == 1
            && s.procs[1].max[0] == 2 && s.procs[1].alloc[0] == 1
            && forall i: nat :: Party(s, i) <==> i < 2
  {
    hide Start;
  }

  /** The holder that needed nothing more raises its claim to two: from a safe state, set_max
      accepts, and neither process can finish any longer. */
  lemma ClaimCanLoseSafety()
    ensures Inv(Squeezed()) && ClaimOk(Squeezed(), 0, 1, [2]) && !Safe(Claim(Squeezed(), 0, [2]))
  {
    hide Below, Squeezed, Booked;
    SqueezedBooked();
    SqueezedShape();
    var s := Squeezed();
    SqueezedOrder();
    var t := Claim(s, 0, [2]);
    if Safe(t) {
      var q :| Complete(t, q) && Feasible(t, q);
      assert Party(s, 0) && Party(t, 0);
      assert Elems(q[..0]) == {};
      SqueezedStuck(q[0]);
      assert false;
    }
  }

  lemma SqueezedStuck(i: nat)
    requires Party(Claim(Squeezed(), 0, [2]), i)
    ensures !NeedOk(Claim(Squeezed(), 0, [2]), i, {})
  {
    hide Below, Squeezed, Booked, Held;
    SqueezedBooked();
    SqueezedShape();
    var s := Squeezed();
    var t := Claim(s, 0, [2]);
    assert Party(s, 0) && (i == 0 || Party(s, i));
    ClaimWork(s, 0, [2], {}, 0);
    HeldNone(s.procs, {}, 0, |s.procs|);
    assert t.procs[i].max[0] - t.procs[i].alloc[0] == 1;
  }

  lemma SqueezedOrder()
    ensures Safe(Squeezed())
  {
    hide Below, Squeezed;
    SqueezedShape();
    var s := Squeezed();
    HeldNone(s.procs, {}, 0, |s.procs|);
    HeldAdd(s.procs, {}, 0, 0, |s.procs|);
    var o: seq<nat> := [0, 1];
    assert o[..0] == [] && o[..1] == [0] && 0 in o && 1 in o;
    assert Elems(o[..0]) == {} && Elems(o[..1]) == {} + {0};
    assert Complete(s, o) && Feasible(s, o);
  }

  // ---------------------------------------------------------------- runs

  /** A claim that set_max accepts can be served after some of the others. */
  ghost predicate Served(s: State, c: Call)
    requires Shape(s)
  {
    c.SetMax? && c.p < NPROC && s.procs[c.p].used && ClaimOk(s, c.p, c.n, c.max) ==>
      exists o :: Yields(s, c.p, c.max, o)
  }

  ghost predicate AllServed(s: State, calls: seq<Call>)
    requires Booked(s)
    decreases |calls|
  {
    calls == [] || (Served(s, calls[0]) && (ApplyBooked(s, calls[0]); AllServed(Apply(s, calls[0]), calls[1..])))
  }

  ghost function ApplyAll(s: State, calls: seq<Call>): State
    requires Booked(s)
    decreases |calls|
  {
    if calls == [] then s else ApplyBooked(s, calls[0]); ApplyAll(Apply(s, calls[0]), calls[1..])
  }

  /** Conservation and the bounds hold whatever is called. */
  lemma ApplyBooked(s: State, c: Call)
    requires Booked(s)
    ensures Booked(Apply(s, c))
  {
    hide Held, Below, Work, NeedOk, Safe;
    match c
    case Init(n, tot) =>
      if InitOk(s, n, tot) {
        EmptyIsSafe(Apply(s, c));
      }
    case SetMax(p, n, max) =>
      if p < NPROC && s.procs[p].used && ClaimOk(s, p, n, max) {
        ClaimBooked(s, p, max);
      }
    case Request(p, n, req) =>
      if p < NPROC && RequestOk(s, p, n, req) {
        HandOutBooked(s, p, req);
      }
    case Release(p, n, rel) =>
      if p < NPROC && ReleaseOk(s, p, n, rel) {
        HandBackBooked(s, p, rel);
      }
    case Spawn(p) =>
      if p < NPROC && !s.procs[p].used {
        SpawnBooked(s, p);
      }
    case Exit(p) =>
      if p < NPROC {
        RetireBooked(s, p);
      }
  }

  /** Safety holds too, except through a claim that the others cannot serve. */
  lemma ApplyKeeps(s: State, c: Call)
    requires Inv(s) && Served(s, c)
    ensures Inv(Apply(s, c))
  {
    hide Held, Below, Work, NeedOk;
    ApplyBooked(s, c);
    match c
    case Init(n, tot) =>
      if InitOk(s, n, tot) {
        EmptyIsSafe(Apply(s, c));
      }
    case SetMax(p, n, max) =>
      if p < NPROC && s.procs[p].used && ClaimOk(s, p, n, max) {
        ClaimSafe(s, p, max);
      }
    case Request(_, _, _) =>
    case Release(p, n, rel) =>
      if p < NPROC && ReleaseOk(s, p, n, rel) {
        HandBackKeeps(s, p, rel);
      }
    case Spawn(p) =>
      if p < NPROC && !s.procs[p].used {
        SpawnKeeps(s, p);
      }
    case Exit(p) =>
      if p < NPROC {
        RetireKeeps(s, p);
      }
  }

  /** One call, carried out. A vector of another length than announced stands for one that cannot be
      read from the caller's memory. */
  method Step(bank: Bank, c: Call)
    requires Booked(bank.St())
    modifies bank
    ensures bank.St() == Apply(old(bank.St()), c) && Booked(bank.St())
  {
    hide Held, Below, Work, NeedOk, Claim, HandOut, HandBack, Retire, Safe, AllIdle;
    ApplyBooked(bank.St(), c);
    match c {
      case Init(n, tot) =>
        if |tot| == n {
          var _ := bank.Init(n, tot);
        }
      case SetMax(p, n, max) =>
        if p < |bank.procs| && bank.procs[p].used && |max| == n {
          var _ := bank.SetMax(p, n, max);
        }
      case Request(p, n, req) =>
        if p < |bank.procs| && |req| == n {
          var _ := bank.Request(p, n, req);
        }
      case Release(p, n, rel) =>
        if p < |bank.procs| && |rel| == n {
          var _ := bank.Release(p, n, rel);
        }
      case Spawn(p) =>
        if p < |bank.procs| && !bank.procs[p].used {
          bank.AllocProc(p);
        }
      case Exit(p) =>
        if p < |bank.procs| {
          bank.FreeProc(p);
        }
    }
  }

  /** Every run of the calls conserves the resources and keeps all within their claims. It ends
      in a safe state, if every claim set_max accepted on the way could be served. */
  method Run(bank: Bank, calls: seq<Call>)
    requires Inv(bank.St())
    modifies bank
    ensures bank.St() == ApplyAll(old(bank.St()), calls) && Booked(bank.St())
    ensures AllServed(old(bank.St()), calls) ==> Safe(bank.St())
  {
    hide Apply, Safe, Served, Work, ProcOk;
    var k := 0;
    ghost var kind := AllServed(bank.St(), calls);
    assert calls[0..] == calls;
    while k < |calls|
      invariant 0 <= k <= |calls| && Booked(bank.St())
      invariant ApplyAll(bank.St(), calls[k..]) == ApplyAll(old(bank.St()), calls)
      invariant kind ==> Inv(bank.St()) && AllServed(bank.St(), calls[k..])
    {
      ghost var rest := calls[k..];
      assert rest[1..] == calls[k + 1..];
      ApplyBooked(bank.St(), calls[k]);
      if kind {
        ApplyKeeps(bank.St(), calls[k]);
      }
      Step(bank, calls[k]);
      k := k + 1;
    }
    assert calls[k..] == [];
  }

  // ---------------------------------------------------------------- the guards are no stricter than they need be

  /** A request passes the checks exactly when it is well formed, asks for nothing negative, and
      granting it leaves the books in order. */
  lemma RequestGuard(s: State, p: nat, n: int, req: seq<int>)
    requires Booked(s) && p < NPROC
    ensures RequestOk(s, p, n, req) <==>
              && 0 < n == s.nres && s.inited && |req| == n && s.procs[p].active
              && (forall r :: 0 <= r < n ==> req[r] >= 0) && Booked(HandOut(s, p, req))
  {
    hide Held, Below, Work;
    if RequestOk(s, p, n, req) {
      HandOutBooked(s, p, req);
    } else if n == s.nres == |req| && Booked(HandOut(s, p, req)) {
      assert ProcOk(HandOut(s, p, req), p);
    }
  }

  /** A release, exactly when nothing negative comes back and the books stay in order. */
  lemma ReleaseGuard(s: State, p: nat, n: int, rel: seq<int>)
    requires Booked(s) && p < NPROC
    ensures ReleaseOk(s, p, n, rel) <==>
              && 0 < n == s.nres && s.inited && |rel| == n && s.procs[p].active
              && (forall r :: 0 <= r < n ==> rel[r] >= 0) && Booked(HandBack(s, p, rel))
  {
    hide Held, Below, Work;
    if ReleaseOk(s, p, n, rel) {
      HandBackBooked(s, p, rel);
    } else if n == s.nres == |rel| && Booked(HandBack(s, p, rel)) {
      var t := HandBack(s, p, rel);
      assert ProcOk(t, p);
      assert forall r :: 0 <= r < n ==> t.procs[p].alloc[r] == s.procs[p].alloc[r] - rel[r];
    }
  }

  /** A claim, exactly when it is well formed and the books stay in order. */
  lemma ClaimGuard(s: State, p: nat, n: int, max: seq<int>)
    requires Booked(s) && p < NPROC && s.procs[p].used
    ensures ClaimOk(s, p, n, max) <==> 0 < n == s.nres && s.inited && |max| == n && Booked(Claim(s, p, max))
  {
    hide Held, Below, Work;
    assert ProcOk(s, p);
    if ClaimOk(s, p, n, max) {
      ClaimBooked(s, p, max);
    } else if n == s.nres == |max| && s.inited && Booked(Claim(s, p, max)) {
      assert ProcOk(Claim(s, p, max), p);
    }
  }
}
