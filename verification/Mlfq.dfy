/** The multi-level feedback queue's pick (kernel/proc/proc.c): the rotating start index makes
    every process that stays runnable at the best level run within NPROC dispatches. */
module Mlfq {
  import opened Basics
  import opened Counting

  const LEVELS := 4

  /** `normal` is the SCHED_NORMAL policy; the level may be out of range until a scan sees it. */
  datatype Proc = Proc(runnable: bool, normal: bool, level: int)

  function Clamp(level: int): int
  {
    if level < 0 then 0 else if level >= LEVELS then LEVELS - 1 else level
  }

  /** Waiting to be dispatched from this level. */
  predicate Ready(p: Proc, level: int)
  {
    p.runnable && p.normal && Clamp(p.level) == level
  }

  /** Slots a cyclic scan starting at a passes before it comes to p. */
  function Dist(a: nat, p: nat): nat
    requires a < NPROC && p < NPROC
  {
    if a <= p then p - a else p + NPROC - a
  }

  /** Nothing but levels out of range was adjusted. */
  ghost predicate Clamped(a: seq<Proc>, b: seq<Proc>)
  {
    |a| == |b| && forall i :: 0 <= i < |a| ==> b[i] == a[i] || b[i] == a[i].(level := Clamp(a[i].level))
  }

  /** p is the next in turn: at the best level anybody waits at, and the first of that level
      from the start index on. */
  ghost predicate InTurn(procs: seq<Proc>, next: seq<nat>, p: nat)
    requires |procs| == NPROC && Starts(next)
  {
    && p < NPROC
    && exists level ::
         && 0 <= level < LEVELS && Ready(procs[p], level)
         && (forall q, l :: 0 <= q < NPROC && 0 <= l < level ==> !Ready(procs[q], l))
         && (forall q :: 0 <= q < NPROC && Ready(procs[q], level) ==> Dist(next[level], p) <= Dist(next[level], q))
  }

  predicate Starts(next: seq<nat>)
  {
    |next| == LEVELS && forall l :: 0 <= l < LEVELS ==> next[l] < NPROC
  }

  class Scheduler {
    var procs: seq<Proc>
    var next: seq<nat>

    ghost predicate Valid()
      reads this
    {
      |procs| == NPROC && Starts(next)
    }

    /** One level's scan. */
    method Scan(level: nat) returns (found: int)
      requires Valid() && level < LEVELS
      modifies this`procs, this`next
      ensures Valid() && Clamped(old(procs), procs)
      ensures found < 0 ==> next == old(next) && forall q :: 0 <= q < NPROC ==> !Ready(procs[q], level)
      ensures found >= 0 ==>
                found < NPROC && Ready(procs[found], level) && next == old(next)[level := (found + 1) % NPROC]
      ensures found >= 0 ==> forall q :: 0 <= q < NPROC && Ready(procs[q], level) ==>
                               Dist(old(next)[level], found) <= Dist(old(next)[level], q)
    {
      var i := 0;
      while i < NPROC
        invariant 0 <= i <= NPROC && Valid() && Clamped(old(procs), procs) && next == old(next)
        invariant forall q :: 0 <= q < NPROC && Dist(next[level], q) < i ==> !Ready(procs[q], level)
      {
        var idx := (next[level] + i) % NPROC;
        assert Dist(next[level], idx) == i;
        if procs[idx].level < 0 {
          procs := procs[idx := procs[idx].(level := 0)];
        }
        if procs[idx].level >= LEVELS {
          procs := procs[idx := procs[idx].(level := LEVELS - 1)];
        }
        if procs[idx].runnable && procs[idx].level == level && procs[idx].normal {
          next := next[level := (idx + 1) % NPROC];
          return idx;
        }
        forall q | 0 <= q < NPROC && Dist(next[level], q) < i + 1
          ensures !Ready(procs[q], level)
        {
          assert Dist(next[level], q) == i ==> q == idx;
        }
        i := i + 1;
      }
      return -1;
    }

    /** The scheduler's pick: -1 when nobody waits, else the process in turn, which runs. */
    method Pick() returns (p: int)
      requires Valid()
      modifies this
      ensures Valid()
      ensures p < 0 <==> forall q, l :: 0 <= q < NPROC && 0 <= l < LEVELS ==> !Ready(old(procs)[q], l)
      ensures p < 0 ==> next == old(next) && Clamped(old(procs), procs)
      ensures p >= 0 ==>
                && InTurn(old(procs), old(next), p)
                && next == old(next)[Clamp(old(procs)[p].level) := (p + 1) % NPROC]
                && Clamped(old(procs)[p := old(procs)[p].(runnable := false)], procs)
    {
      var level := 0;
      while level < LEVELS
        invariant 0 <= level <= LEVELS && Valid() && next == old(next) && Clamped(old(procs), procs)
        invariant forall q, l :: 0 <= q < NPROC && 0 <= l < level ==> !Ready(old(procs)[q], l)
      {
        ghost var before := procs;
        p := Scan(level);
        forall q, l | 0 <= q < NPROC && 0 <= l < LEVELS
          ensures Ready(procs[q], l) == Ready(old(procs)[q], l)
        {
        }
        if p >= 0 {
          assert InTurn(old(procs), old(next), p);
          procs := procs[p := procs[p].(runnable := false)];
          return;
        }
        level := level + 1;
      }
      return -1;
    }
  }

  // ---------------------------------------------------------------- bounded waiting

  /** w waits at this level and nobody waits at a better one. */
  ghost predicate Waits(procs: seq<Proc>, w: nat, level: nat)
  {
    && |procs| == NPROC && w < NPROC && level < LEVELS && Ready(procs[w], level)
    && forall q, l :: 0 <= q < NPROC && 0 <= l < level ==> !Ready(procs[q], l)
  }

  /** Whoever is in turn instead of w comes from w's level and lies before w; the start index
      moves past it towards w, leaving those already passed behind. */
  lemma TurnMovesCloser(procs: seq<Proc>, next: seq<nat>, p: nat, w: nat, level: nat)
    requires Starts(next) && Waits(procs, w, level) && InTurn(procs, next, p) && p != w
    ensures Ready(procs[p], level) && Dist(next[level], p) < Dist(next[level], w)
    ensures var a := (p + 1) % NPROC;
            && Dist(a, w) < Dist(next[level], w) && Dist(a, w) < Dist(a, p)
            && forall x :: 0 <= x < NPROC && Dist(next[level], w) < Dist(next[level], x) ==> Dist(a, w) < Dist(a, x)
  {
    var l :| && 0 <= l < LEVELS && Ready(procs[p], l)
             && (forall q, k :: 0 <= q < NPROC && 0 <= k < l ==> !Ready(procs[q], k))
             && (forall q :: 0 <= q < NPROC && Ready(procs[q], l) ==> Dist(next[l], p) <= Dist(next[l], q));
    assert l == level;
  }

  /** The process table as each dispatch finds it is arbitrary, except that w waits. Then w is
      dispatched after fewer than NPROC others, all from w's level, none of them twice. */
  method BoundedWaiting(s: Scheduler, w: nat, level: nat, tables: seq<seq<Proc>>) returns (picks: seq<nat>)
    requires s.Valid() && w < NPROC && level < LEVELS
    requires |tables| >= NPROC && forall i :: 0 <= i < |tables| ==> Waits(tables[i], w, level)
    modifies s
    ensures |picks| <= Dist(old(s.next)[level], w) < NPROC && NoDup(picks) && w !in picks
    ensures forall i :: 0 <= i < |picks| ==> picks[i] < NPROC && Waits(tables[i], picks[i], level)
    ensures s.Valid() && s.next == old(s.next)[level := (w + 1) % NPROC] && !s.procs[w].runnable
  {
    picks := [];
    while true
      invariant s.Valid() && s.next == old(s.next)[level := s.next[level]]
      invariant |picks| + Dist(s.next[level], w) <= Dist(old(s.next)[level], w)
      invariant NoDup(picks)
      invariant forall i :: 0 <= i < |picks| ==>
                  && picks[i] < NPROC && Waits(tables[i], picks[i], level)
                  && Dist(s.next[level], w) < Dist(s.next[level], picks[i])
      decreases NPROC - |picks|
    {
      var k := |picks|;
      s.procs := tables[k];
      assert Waits(tables[k], w, level);
      ghost var before := s.next;
      var p := s.Pick();
      if p == w {
        return;
      }
      TurnMovesCloser(tables[k], before, p, w, level);
      picks := picks + [p];
    }
  }
}
