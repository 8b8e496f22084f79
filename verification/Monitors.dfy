/** Monitors and deadlock detection (kernel/sysproc.c, kernel/proc/proc.c): the bounded walk
    along owners answers exactly whether blocking would close a cycle, and no run of monitor
    calls, wake-ups, kills, forks and exits makes the wait-for graph cyclic or loses a wake-up. */
module Monitors {
  import opened Basics
  import opened Counting

  const NMON := 16

  datatype PState = Unused | Sleeping | Runnable | Running | Zombie

  /** What a process sleeps on: a monitor, or some other kernel object. */
  datatype Chan = NoChan | Mon(id: nat) | Other(key: nat)

  datatype Proc = Proc(pid: int, state: PState, chan: Chan, killed: bool)

  datatype Monitor = Monitor(taken: bool, locked: bool, owner: int, waiters: int)

  /** `others` gives the owners of the objects that are not monitors. */
  datatype State = State(procs: seq<Proc>, mons: seq<Monitor>, others: map<nat, int>)

  predicate Live(p: Proc)
  {
    !p.state.Unused?
  }

  ghost predicate Shape(s: State)
  {
    |s.procs| == NPROC && |s.mons| == NMON
  }

  // ---------------------------------------------------------------- the wait-for graph

  /** owner_of_chan; 0 is nobody. */
  function OwnerOf(s: State, chan: Chan): int
  {
    match chan
    case NoChan => 0
    case Mon(id) => if id < |s.mons| then s.mons[id].owner else 0
    case Other(key) => if key in s.others then s.others[key] else 0
  }

  /** The first live slot from k on with this pid, or the table's length. */
  function FindPid(procs: seq<Proc>, pid: int, k: nat): (i: nat)
    requires k <= |procs|
    ensures k <= i <= |procs| && (i < |procs| ==> procs[i].pid == pid && Live(procs[i]))
    ensures forall j :: k <= j < i ==> !(procs[j].pid == pid && Live(procs[j]))
    decreases |procs| - k
  {
    if k == |procs| || (procs[k].pid == pid && Live(procs[k])) then k else FindPid(procs, pid, k + 1)
  }

  /** Whom the process waits for: the owner of what it sleeps on. */
  function Next(s: State, pid: int): int
  {
    var i := FindPid(s.procs, pid, 0);
    if pid > 0 && i < |s.procs| && s.procs[i].state.Sleeping? then OwnerOf(s, s.procs[i].chan) else 0
  }

  function Hop(s: State, pid: int, n: nat): int
  {
    if n == 0 then pid else Next(s, Hop(s, pid, n - 1))
  }

  ghost predicate Reaches(s: State, pid: int, target: int)
  {
    exists n: nat :: Hop(s, pid, n) == target
  }

  /** No process waits, directly or through others, for itself. */
  ghost predicate Acyclic(s: State)
  {
    forall x: int, n: nat :: x > 0 && n > 0 ==> Hop(s, x, n) != x
  }

  lemma {:induction false} HopAdd(s: State, x: int, i: nat, d: nat)
    ensures Hop(s, x, i + d) == Hop(s, Hop(s, x, i), d)
  {
    hide Next;
    if d > 0 {
      HopAdd(s, x, i, d - 1);
    }
  }

  /** A walk that has come to an end does not go on. */
  lemma {:induction false} Dead(s: State, x: int, i: nat, n: nat)
    requires i <= n && Hop(s, x, i) <= 0
    ensures Hop(s, x, n) <= 0
  {
    hide FindPid, OwnerOf;
    if i < n {
      Dead(s, x, i, n - 1);
    }
  }

  /** Every process passed on the way is a live one. */
  lemma {:induction false} HopLive(s: State, x: int, i: nat, n: nat)
    requires i < n && Hop(s, x, n) > 0
    ensures Hop(s, x, i) > 0 && FindPid(s.procs, Hop(s, x, i), 0) < |s.procs|
  {
    hide FindPid, OwnerOf;
    if Hop(s, x, i) <= 0 {
      Dead(s, x, i, n);
    } else if FindPid(s.procs, Hop(s, x, i), 0) == |s.procs| {
      assert Hop(s, x, i + 1) == 0;
      Dead(s, x, i + 1, n);
    }
  }

  /** Among the first |procs| + 1 live processes of a walk two are the same. */
  lemma HopRepeats(s: State, x: int) returns (i: nat, j: nat)
    requires forall k :: 0 <= k <= |s.procs| ==> FindPid(s.procs, Hop(s, x, k), 0) < |s.procs|
    ensures i < j <= |s.procs| && Hop(s, x, i) == Hop(s, x, j)
  {
    var q := seq(|s.procs| + 1, k requires 0 <= k => FindPid(s.procs, Hop(s, x, k), 0));
    i, j := Collide(q, |s.procs|);
  }

  /** The bounded walk loses no answer: whoever is reached is reached in fewer hops than the
      table has slots. */
  lemma {:induction false} ShortHop(s: State, x: int, me: int, n: nat) returns (m: nat)
    requires Hop(s, x, n) == me && me > 0 && FindPid(s.procs, me, 0) < |s.procs|
    ensures m < |s.procs| && Hop(s, x, m) == me
    decreases n
  {
    hide FindPid, Next;
    if n < |s.procs| {
      return n;
    }
    forall k | 0 <= k <= |s.procs|
      ensures FindPid(s.procs, Hop(s, x, k), 0) < |s.procs|
    {
      if k < n {
        HopLive(s, x, k, n);
      }
    }
    var i, j := HopRepeats(s, x);
    HopAdd(s, x, i, n - j);
    HopAdd(s, x, j, n - j);
    m := ShortHop(s, x, me, n - (j - i));
  }

  /** In an acyclic graph every walk ends, within the table's size, at somebody who waits for
      nobody: not all processes can be standing still on monitors. */
  lemma WalkEnds(s: State, x: int) returns (n: nat)
    requires Acyclic(s)
    ensures n <= |s.procs| && Next(s, Hop(s, x, n)) <= 0 && forall k :: 0 <= k < n ==> Next(s, Hop(s, x, k)) > 0
  {
    hide FindPid, OwnerOf;
    n := 0;
    while n < |s.procs|
      invariant n <= |s.procs| && forall k :: 0 <= k < n ==> Next(s, Hop(s, x, k)) > 0
    {
      if Next(s, Hop(s, x, n)) <= 0 {
        return;
      }
      n := n + 1;
    }
    if Next(s, Hop(s, x, n)) > 0 {
      forall k | 0 <= k <= |s.procs|
        ensures FindPid(s.procs, Hop(s, x, k), 0) < |s.procs| && Hop(s, x, k) > 0
      {
        assert Next(s, Hop(s, x, k)) > 0;
      }
      var i, j := HopRepeats(s, x);
      HopAdd(s, x, i, j - i);
      assert false;
    }
  }

  // ---------------------------------------------------------------- how the graph changes

  /** Dropping edges, or redirecting some to a process that waits for nobody, closes no cycle. */
  lemma KeepAcyclic(s: State, t: State, c: int)
    requires Acyclic(s) && Next(t, c) == 0
    requires forall x: int :: Next(t, x) == Next(s, x) || Next(t, x) == c || Next(t, x) == 0
    ensures Acyclic(t)
  {
    hide Next, Hop;
    forall x: int, n: nat | x > 0 && n > 0 && Hop(t, x, n) == x
      ensures false
    {
      HopsAgree(s, t, c, x, n, n);
    }
  }

  lemma {:induction false} HopsAgree(s: State, t: State, c: int, x: int, n: nat, i: nat)
    requires Next(t, c) == 0 && x > 0 && n > 0 && Hop(t, x, n) == x && i <= n
    requires forall x: int :: Next(t, x) == Next(s, x) || Next(t, x) == c || Next(t, x) == 0
    ensures Hop(t, x, i) == Hop(s, x, i)
  {
    hide Next;
    if i > 0 {
      HopsAgree(s, t, c, x, n, i - 1);
      var h := Hop(t, x, i);
      if h == 0 {
        Dead(t, x, i, n);
      } else if h == c && i < n {
        assert Hop(t, x, i + 1) == 0;
        Dead(t, x, i + 1, n);
      } else if h == c {
        assert Hop(t, x, 1) == Next(t, Hop(t, x, 0));
        Dead(t, x, 1, n);
      }
    }
  }

  lemma FirstHit(s: State, o: int, me: int, n: nat) returns (m: nat)
    requires Hop(s, o, n) == me
    ensures m <= n && Hop(s, o, m) == me && forall i :: 0 <= i < m ==> Hop(s, o, i) != me
  {
    hide Next, Hop;
    m := 0;
    while Hop(s, o, m) != me
      invariant m <= n && forall i :: 0 <= i < m ==> Hop(s, o, i) != me
      decreases n - m
    {
      m := m + 1;
    }
  }

  lemma {:induction false} HopUntil(s: State, t: State, o: int, me: int, m: nat)
    requires forall x: int :: x != me ==> Next(t, x) == Next(s, x)
    requires forall i :: 0 <= i < m ==> Hop(s, o, i) != me
    ensures Hop(t, o, m) == Hop(s, o, m)
  {
    hide Next;
    if m > 0 {
      HopUntil(s, t, o, me, m - 1);
    }
  }

  /** A process that so far waited for nobody starts waiting for o: the graph stays acyclic
      exactly when the walk from o does not come back to it. */
  lemma NewEdge(s: State, t: State, me: int, o: int)
    requires Acyclic(s) && me > 0 && Next(s, me) == 0 && Next(t, me) == o
    requires forall x: int :: x != me ==> Next(t, x) == Next(s, x)
    ensures Acyclic(t) <==> !Reaches(s, o, me)
  {
    hide Next;
    if Reaches(s, o, me) {
      var n: nat :| Hop(s, o, n) == me;
      var m := FirstHit(s, o, me, n);
      HopUntil(s, t, o, me, m);
      HopAdd(t, me, 1, m);
      assert Hop(t, me, 1) == Next(t, Hop(t, me, 0));
      assert Hop(t, me, m + 1) == me;
    } else {
      forall x: int, n: nat | x > 0 && n > 0 && Hop(t, x, n) == x
        ensures false
      {
        NoNewCycle(s, t, me, o, x, n);
      }
    }
  }

  lemma NoNewCycle(s: State, t: State, me: int, o: int, x: int, n: nat)
    requires Acyclic(s) && me > 0 && Next(t, me) == o && !Reaches(s, o, me)
    requires forall x: int :: x != me ==> Next(t, x) == Next(s, x)
    requires x > 0 && n > 0
    ensures Hop(t, x, n) != x
  {
    hide Next;
    if Hop(t, x, n) == x {
      if i: nat :| i < n && Hop(t, x, i) == me {
        // the cycle read from me: the walk from o comes back
        HopAdd(t, x, i, n - i);
        HopAdd(t, me, n - i, i);
        HopAdd(t, me, 1, n - 1);
        assert Hop(t, me, 1) == Next(t, Hop(t, me, 0)) == o;
        assert Hop(t, o, n - 1) == me;
        var m := FirstHit(t, o, me, n - 1);
        HopUntil(t, s, o, me, m);
        assert Hop(s, o, m) == me;
      } else {
        HopUntil(t, s, x, me, n);
        assert Hop(s, x, n) == x;
      }
    }
  }

  // ---------------------------------------------------------------- the invariant

  /** Processes parked on monitor id, woken or not, among the first k slots. */
  function Parked(procs: seq<Proc>, id: nat, k: nat): nat
    requires k <= |procs|
  {
    if k == 0 then 0 else Parked(procs, id, k - 1) + if procs[k - 1].chan == Mon(id) then 1 else 0
  }

  /** A lock is held by a live process, not a zombie, and the waiters are counted. */
  ghost predicate MonOk(s: State, id: nat)
    requires id < |s.mons|
  {
    var m := s.mons[id];
    && (m.locked <==> m.owner > 0) && m.owner >= 0 && m.waiters == Parked(s.procs, id, |s.procs|)
    && (m.owner > 0 ==> m.taken && Holder(s, m.owner))
  }

  predicate Holder(s: State, pid: int)
  {
    var i := FindPid(s.procs, pid, 0);
    i < |s.procs| && !s.procs[i].state.Zombie?
  }

  ghost predicate ProcOk(s: State, i: nat)
    requires i < |s.procs|
  {
    var p := s.procs[i];
    && (Live(p) ==> p.pid > 0)
    && (p.chan.Mon? ==> p.chan.id < |s.mons| && s.mons[p.chan.id].taken)
    && (p.state.Unused? || p.state.Zombie? ==> p.chan == NoChan)
  }

  ghost predicate OnePid(s: State, i: nat, j: nat)
    requires i < |s.procs| && j < |s.procs|
  {
    i != j && Live(s.procs[i]) && Live(s.procs[j]) ==> s.procs[i].pid != s.procs[j].pid
  }

  ghost predicate Tidy(s: State)
  {
    && Shape(s) && s.others == map[]
    && (forall i, j :: 0 <= i < NPROC && 0 <= j < NPROC ==> OnePid(s, i, j))
    && (forall i :: 0 <= i < NPROC ==> ProcOk(s, i))
    && (forall id :: 0 <= id < NMON ==> MonOk(s, id))
  }

  ghost predicate Inv(s: State)
  {
    Tidy(s) && Acyclic(s)
  }

  // ---------------------------------------------------------------- one slot or one monitor

  function SetProc(s: State, i: nat, p: Proc): State
    requires i < |s.procs|
  {
    s.(procs := s.procs[i := p])
  }

  function SetMon(s: State, id: nat, m: Monitor): State
    requires id < |s.mons|
  {
    s.(mons := s.mons[id := m])
  }

  lemma {:induction false} FindSame(a: seq<Proc>, b: seq<Proc>, x: int, k: nat)
    requires k <= |a| == |b|
    requires forall j :: 0 <= j < |a| ==> ((a[j].pid == x && Live(a[j])) <==> (b[j].pid == x && Live(b[j])))
    ensures FindPid(a, x, k) == FindPid(b, x, k)
    decreases |a| - k
  {
    if k < |a| && !(a[k].pid == x && Live(a[k])) {
      FindSame(a, b, x, k + 1);
    }
  }

  lemma {:induction false} ParkedSet(procs: seq<Proc>, i: nat, p: Proc, id: nat, k: nat)
    requires i < |procs| && k <= |procs|
    ensures Parked(procs[i := p], id, k) == Parked(procs, id, k)
            + if i < k then (if p.chan == Mon(id) then 1 else 0) - (if procs[i].chan == Mon(id) then 1 else 0) else 0
  {
    if k > 0 {
      ParkedSet(procs, i, p, id, k - 1);
    }
  }

  /** Where the live process of slot i is found. */
  lemma FindSlot(s: State, i: nat)
    requires Tidy(s) && i < NPROC && Live(s.procs[i])
    ensures FindPid(s.procs, s.procs[i].pid, 0) == i
  {
    hide FindPid, Parked, Holder;
    assert OnePid(s, FindPid(s.procs, s.procs[i].pid, 0), i);
  }

  /** Changing a live slot without renaming it changes its own edge only. */
  lemma NextProc(s: State, i: nat, p: Proc, x: int)
    requires Tidy(s) && i < NPROC && Live(s.procs[i]) && Live(p) && p.pid == s.procs[i].pid
    ensures FindPid(SetProc(s, i, p).procs, x, 0) == FindPid(s.procs, x, 0)
    ensures x != p.pid ==> Next(SetProc(s, i, p), x) == Next(s, x)
    ensures Next(SetProc(s, i, p), p.pid) == if p.state.Sleeping? then OwnerOf(s, p.chan) else 0
    ensures Next(s, p.pid) == if s.procs[i].state.Sleeping? then OwnerOf(s, s.procs[i].chan) else 0
  {
    hide FindPid, Parked, Holder;
    FindSame(s.procs, SetProc(s, i, p).procs, x, 0);
    FindSame(s.procs, SetProc(s, i, p).procs, p.pid, 0);
    FindSlot(s, i);
    assert ProcOk(s, i);
  }

  /** p, put in slot i, neither parks on a monitor nor leaves one, and if it sleeps, it slept
      there before or sleeps on something nobody owns. */
  ghost predicate Harmless(s: State, i: nat, p: Proc)
    requires i < |s.procs|
  {
    var q := s.procs[i];
    && Live(q) && Live(p) && p.pid == q.pid
    && (p.chan.Mon? || q.chan.Mon? ==> p.chan == q.chan)
    && (p.state.Sleeping? ==> p.chan.Other? || (q.state.Sleeping? && p.chan == q.chan))
    && (p.state.Zombie? ==> p.chan == NoChan && forall id :: 0 <= id < |s.mons| ==> s.mons[id].owner != p.pid)
  }

  lemma HarmlessTidy(s: State, i: nat, p: Proc)
    requires Tidy(s) && i < NPROC && Harmless(s, i, p)
    ensures Tidy(SetProc(s, i, p))
  {
    hide FindPid, Parked, Next;
    var t := SetProc(s, i, p);
    forall j | 0 <= j < NPROC
      ensures ProcOk(t, j)
    {
      assert ProcOk(s, j);
    }
    forall j, k | 0 <= j < NPROC && 0 <= k < NPROC
      ensures OnePid(t, j, k)
    {
      assert OnePid(s, j, k);
    }
    FindSlot(s, i);
    forall id | 0 <= id < NMON
      ensures MonOk(t, id)
    {
      assert MonOk(s, id);
      ParkedSet(s.procs, i, p, id, |s.procs|);
      NextProc(s, i, p, s.mons[id].owner);
    }
  }

  lemma HarmlessKeeps(s: State, i: nat, p: Proc)
    requires Inv(s) && i < NPROC && Harmless(s, i, p)
    ensures Inv(SetProc(s, i, p))
  {
    hide FindPid, Parked, Next, Acyclic;
    HarmlessTidy(s, i, p);
    var t := SetProc(s, i, p);
    forall x: int
      ensures Next(t, x) == Next(s, x) || Next(t, x) == 0
    {
      NextProc(s, i, p, x);
    }
    NextOfNobody(t);
    KeepAcyclic(s, t, 0);
  }

  lemma NextOfNobody(s: State)
    ensures Next(s, 0) == 0
  {
    hide FindPid, OwnerOf;
  }

  // ---------------------------------------------------------------- the calls on values

  /** Going to sleep on monitor id. */
  function Block(s: State, me: nat, id: nat): State
    requires me < |s.procs| && id < |s.mons|
  {
    var m := s.mons[id];
    SetMon(SetProc(s, me, s.procs[me].(state := Sleeping, chan := Mon(id))), id, m.(waiters := m.waiters + 1))
  }

  /** Back from sleeping on monitor id. */
  function Unpark(s: State, me: nat, id: nat): State
    requires me < |s.procs| && id < |s.mons|
  {
    var m := s.mons[id];
    SetMon(SetProc(s, me, s.procs[me].(chan := NoChan)), id, m.(waiters := m.waiters - 1))
  }

  function Lock(s: State, me: nat, id: nat): State
    requires me < |s.procs| && id < |s.mons|
  {
    SetMon(s, id, s.mons[id].(locked := true, owner := s.procs[me].pid))
  }

  function Unlock(s: State, id: nat): State
    requires id < |s.mons|
  {
    SetMon(s, id, s.mons[id].(locked := false, owner := 0))
  }

  /** The first slot from k on asleep on chan. */
  function Sleeper(procs: seq<Proc>, chan: Chan, k: nat): (i: nat)
    requires k <= |procs|
    ensures k <= i <= |procs| && (i < |procs| ==> procs[i].state.Sleeping? && procs[i].chan == chan)
    ensures forall j :: k <= j < i ==> !(procs[j].state.Sleeping? && procs[j].chan == chan)
    decreases |procs| - k
  {
    if k == |procs| || (procs[k].state.Sleeping? && procs[k].chan == chan) then k else Sleeper(procs, chan, k + 1)
  }

  function WakeOne(s: State, chan: Chan): State
  {
    var i := Sleeper(s.procs, chan, 0);
    if i < |s.procs| then SetProc(s, i, s.procs[i].(state := Runnable)) else s
  }

  /** Giving a monitor up: mon_exit, and process exit for each monitor still held. */
  function HandOver(s: State, id: nat): State
    requires id < |s.mons|
  {
    WakeOne(Unlock(s, id), Mon(id))
  }

  /** Process exit gives up all monitors below k that pid holds. */
  function HandOverAll(s: State, pid: int, k: nat): (t: State)
    requires k <= |s.mons|
    ensures |t.mons| == |s.mons| && |t.procs| == |s.procs|
  {
    if k == 0 then s else
      var t := HandOverAll(s, pid, k - 1);
      var m := t.mons[k - 1];
      if m.taken && m.locked && m.owner == pid then HandOver(t, k - 1) else t
  }

  // ---------------------------------------------------------------- and what they keep

  lemma MonTidy(s: State, id: nat, m: Monitor)
    requires Tidy(s) && id < NMON && m.waiters == s.mons[id].waiters
    requires (m.locked <==> m.owner > 0) && m.owner >= 0
    requires m.owner > 0 ==> m.taken && Holder(s, m.owner)
    requires m.taken || s.mons[id].waiters == 0
    ensures Tidy(SetMon(s, id, m))
  {
    hide FindPid, Parked;
    var t := SetMon(s, id, m);
    forall j | 0 <= j < NPROC
      ensures ProcOk(t, j)
    {
      assert ProcOk(s, j) && MonOk(s, id);
      if s.procs[j].chan == Mon(id) {
        ParkedSome(s.procs, j, id, |s.procs|);
      }
    }
    forall j, k | 0 <= j < NPROC && 0 <= k < NPROC
      ensures OnePid(t, j, k)
    {
      assert OnePid(s, j, k);
    }
    forall d | 0 <= d < NMON
      ensures MonOk(t, d)
    {
      assert MonOk(s, d);
    }
  }

  /** A parked process is counted, so mon_free never frees a monitor somebody waits for. */
  lemma {:induction false} ParkedSome(procs: seq<Proc>, j: nat, id: nat, k: nat)
    requires j < k <= |procs| && procs[j].chan == Mon(id)
    ensures Parked(procs, id, k) > 0
  {
    if j < k - 1 {
      ParkedSome(procs, j, id, k - 1);
    }
  }

  /** Only the owner of a monitor matters to the graph. */
  lemma NextMon(s: State, id: nat, m: Monitor, x: int)
    requires id < |s.mons|
    ensures Next(SetMon(s, id, m), x) == Next(s, x) || Next(SetMon(s, id, m), x) == m.owner
    ensures m.owner == s.mons[id].owner ==> Next(SetMon(s, id, m), x) == Next(s, x)
  {
    hide FindPid;
  }

  /** The new owner runs, so it waits for nobody. */
  lemma LockKeeps(s: State, me: nat, id: nat)
    requires Inv(s) && me < NPROC && s.procs[me].state.Running? && id < NMON && s.mons[id].taken
    ensures Inv(Lock(s, me, id))
  {
    hide FindPid, Parked, Next, Acyclic;
    var t := Lock(s, me, id);
    var pid := s.procs[me].pid;
    assert ProcOk(s, me) && MonOk(s, id);
    FindSlot(s, me);
    MonTidy(s, id, t.mons[id]);
    forall x: int
      ensures Next(t, x) == Next(s, x) || Next(t, x) == pid
    {
      NextMon(s, id, t.mons[id], x);
    }
    NextRunning(t, me);
    KeepAcyclic(s, t, pid);
  }

  lemma NextRunning(s: State, me: nat)
    requires Tidy(s) && me < NPROC && s.procs[me].state.Running?
    ensures Next(s, s.procs[me].pid) == 0
  {
    hide FindPid, Parked;
    FindSlot(s, me);
  }

  /** Releasing, creating and freeing a monitor leave it without an owner. */
  lemma DisownKeeps(s: State, id: nat, m: Monitor)
    requires Inv(s) && id < NMON && !m.locked && m.owner == 0 && m.waiters == s.mons[id].waiters
    requires m.taken || m.waiters == 0
    ensures Inv(SetMon(s, id, m))
  {
    hide FindPid, Parked, Next, Acyclic;
    var t := SetMon(s, id, m);
    MonTidy(s, id, m);
    forall x: int
      ensures Next(t, x) == Next(s, x) || Next(t, x) == 0
    {
      NextMon(s, id, m, x);
    }
    NextOfNobody(t);
    KeepAcyclic(s, t, 0);
  }

  lemma WakeOneKeeps(s: State, chan: Chan)
    requires Inv(s)
    ensures Inv(WakeOne(s, chan))
  {
    hide FindPid, Parked, Next, Acyclic, Sleeper;
    var i := Sleeper(s.procs, chan, 0);
    if i < |s.procs| {
      HarmlessKeeps(s, i, s.procs[i].(state := Runnable));
    }
  }

  lemma HandOverKeeps(s: State, id: nat)
    requires Inv(s) && id < NMON && s.mons[id].taken
    ensures Inv(HandOver(s, id))
  {
    hide FindPid, Parked, Next, Acyclic, Sleeper;
    DisownKeeps(s, id, s.mons[id].(locked := false, owner := 0));
    WakeOneKeeps(Unlock(s, id), Mon(id));
  }

  /** Exit gives up exactly what the process held, and its own slot stays as it was. */
  lemma {:induction false} HandOverAllKeeps(s: State, me: nat, k: nat)
    requires Inv(s) && me < NPROC && s.procs[me].state.Running? && k <= NMON
    ensures var pid := s.procs[me].pid;
            var t := HandOverAll(s, pid, k);
            && Inv(t) && t.procs[me] == s.procs[me]
            && forall id :: 0 <= id < NMON ==>
                 t.mons[id].owner == if id < k && s.mons[id].owner == pid then 0 else s.mons[id].owner
  {
    hide FindPid, Parked, Next, Acyclic, Sleeper;
    if k > 0 {
      HandOverAllKeeps(s, me, k - 1);
      var t := HandOverAll(s, s.procs[me].pid, k - 1);
      assert MonOk(t, k - 1) && ProcOk(s, me);
      if t.mons[k - 1].taken && t.mons[k - 1].locked && t.mons[k - 1].owner == s.procs[me].pid {
        HandOverKeeps(t, k - 1);
      }
    }
  }

  /** Parking or leaving changes the slot and the count together. */
  lemma ParkTidy(s: State, me: nat, p: Proc, id: nat)
    requires Tidy(s) && me < NPROC && id < NMON && s.procs[me].state.Running? && s.mons[id].taken
    requires p.pid == s.procs[me].pid && (p.state.Sleeping? || p.state.Running?)
    requires (s.procs[me].chan == NoChan && p.chan == Mon(id)) || (s.procs[me].chan == Mon(id) && p.chan == NoChan)
    ensures var m := s.mons[id];
            Tidy(SetMon(SetProc(s, me, p), id, m.(waiters := m.waiters + if p.chan == NoChan then -1 else 1)))
  {
    hide FindPid, Parked, Next;
    var m := s.mons[id];
    var u := SetProc(s, me, p);
    var t := SetMon(u, id, m.(waiters := m.waiters + if p.chan == NoChan then -1 else 1));
    forall j | 0 <= j < NPROC
      ensures ProcOk(t, j)
    {
      assert ProcOk(s, j);
    }
    forall j, k | 0 <= j < NPROC && 0 <= k < NPROC
      ensures OnePid(t, j, k)
    {
      assert OnePid(s, j, k);
    }
    FindSlot(s, me);
    forall d | 0 <= d < NMON
      ensures MonOk(t, d)
    {
      assert MonOk(s, d);
      ParkedSet(s.procs, me, p, d, |s.procs|);
      NextProc(s, me, p, s.mons[d].owner);
    }
  }

  /** The heart of it: blocking keeps the graph acyclic exactly when the walk from the owner
      does not lead back, which is what deadlock_detect answers. */
  lemma BlockKeeps(s: State, me: nat, id: nat)
    requires Inv(s) && me < NPROC && id < NMON && s.procs[me].state.Running? && s.procs[me].chan == NoChan
    requires s.mons[id].taken
    ensures Tidy(Block(s, me, id))
    ensures Acyclic(Block(s, me, id)) <==> !Reaches(s, s.mons[id].owner, s.procs[me].pid)
  {
    hide FindPid, Parked, Next, Acyclic, Reaches;
    var p := s.procs[me].(state := Sleeping, chan := Mon(id));
    ParkTidy(s, me, p, id);
    var t := Block(s, me, id);
    assert ProcOk(s, me);
    NextRunning(s, me);
    forall x: int
      ensures x != p.pid ==> Next(t, x) == Next(s, x)
    {
      NextMon(SetProc(s, me, p), id, t.mons[id], x);
      NextProc(s, me, p, x);
    }
    NextMon(SetProc(s, me, p), id, t.mons[id], p.pid);
    NextProc(s, me, p, p.pid);
    NewEdge(s, t, p.pid, s.mons[id].owner);
  }

  lemma UnparkKeeps(s: State, me: nat, id: nat)
    requires Inv(s) && me < NPROC && id < NMON && s.procs[me].state.Running? && s.procs[me].chan == Mon(id)
    ensures Inv(Unpark(s, me, id)) && s.mons[id].taken
  {
    hide FindPid, Parked, Next, Acyclic;
    var p := s.procs[me].(chan := NoChan);
    assert ProcOk(s, me);
    ParkTidy(s, me, p, id);
    var t := Unpark(s, me, id);
    forall x: int
      ensures Next(t, x) == Next(s, x)
    {
      NextMon(SetProc(s, me, p), id, t.mons[id], x);
      NextProc(s, me, p, x);
    }
    NextOfNobody(t);
    KeepAcyclic(s, t, 0);
  }

  /** A new process with an unused pid, or a zombie's slot emptied. */
  lemma RenameKeeps(s: State, i: nat, p: Proc)
    requires Inv(s) && i < NPROC && p.chan == NoChan && s.procs[i].chan == NoChan
    requires s.procs[i].state.Unused? || s.procs[i].state.Zombie?
    requires || p.state.Unused?
             || (&& p.state.Runnable? && p.pid > 0
                 && forall j :: 0 <= j < NPROC && Live(s.procs[j]) ==> s.procs[j].pid != p.pid)
    ensures Inv(SetProc(s, i, p))
  {
    hide FindPid, Parked, Next, Acyclic;
    var t := SetProc(s, i, p);
    assert Tidy(t) by {
      RenameTidy(s, i, p);
    }
    forall x: int
      ensures Next(t, x) == Next(s, x) || Next(t, x) == 0
    {
      NextRename(s, i, p, x);
    }
    NextOfNobody(t);
    KeepAcyclic(s, t, 0);
  }

  lemma NextRename(s: State, i: nat, p: Proc, x: int)
    requires Tidy(s) && i < NPROC && !p.state.Sleeping?
    requires s.procs[i].state.Unused? || s.procs[i].state.Zombie?
    requires p.state.Unused? || forall j :: 0 <= j < NPROC && Live(s.procs[j]) ==> s.procs[j].pid != p.pid
    ensures Next(SetProc(s, i, p), x) == Next(s, x) || Next(SetProc(s, i, p), x) == 0
    ensures Holder(s, x) ==> Holder(SetProc(s, i, p), x)
  {
    hide FindPid, Parked;
    var t := SetProc(s, i, p);
    if x == s.procs[i].pid && Live(s.procs[i]) {
      FindSlot(s, i);
      forall j | 0 <= j < NPROC
        ensures !(t.procs[j].pid == x && Live(t.procs[j]))
      {
        assert OnePid(s, i, j);
      }
    } else if !(x == p.pid && Live(p)) {
      FindSame(s.procs, t.procs, x, 0);
    }
  }

  lemma RenameTidy(s: State, i: nat, p: Proc)
    requires Tidy(s) && i < NPROC && p.chan == NoChan && s.procs[i].chan == NoChan
    requires s.procs[i].state.Unused? || s.procs[i].state.Zombie?
    requires || p.state.Unused?
             || (&& p.state.Runnable? && p.pid > 0
                 && forall j :: 0 <= j < NPROC && Live(s.procs[j]) ==> s.procs[j].pid != p.pid)
    ensures Tidy(SetProc(s, i, p))
  {
    hide FindPid, Parked, Next, Holder;
    var t := SetProc(s, i, p);
    forall j | 0 <= j < NPROC
      ensures ProcOk(t, j)
    {
      assert ProcOk(s, j);
    }
    forall j, k | 0 <= j < NPROC && 0 <= k < NPROC
      ensures OnePid(t, j, k)
    {
      assert OnePid(s, j, k);
    }
    forall d | 0 <= d < NMON
      ensures MonOk(t, d)
    {
      assert MonOk(s, d);
      ParkedSet(s.procs, i, p, d, |s.procs|);
      NextRename(s, i, p, s.mons[d].owner);
    }
  }

  // ---------------------------------------------------------------- sysproc.c and proc.c

  datatype Outcome = Entered | Failed | Blocked

  class MonitorTable {
    var procs: seq<Proc>
    var mons: seq<Monitor>
    var others: map<nat, int>

    function St(): State
      reads this
    {
      State(procs, mons, others)
    }

    constructor ()
      ensures Inv(St()) && NoneForgotten(St()) && NoneStranded(St())
      ensures forall i :: 0 <= i < NPROC ==> procs[i].state.Unused?
    {
      procs := seq(NPROC, i => Proc(0, Unused, NoChan, false));
      mons := seq(NMON, i => Monitor(false, false, 0, 0));
      others := map[];
      new;
      Booted(St());
    }

    /** The process runs and is not inside sleep. */
    predicate AtWork(me: nat)
      reads this
    {
      me < |procs| && procs[me].state == Running && procs[me].chan == NoChan
    }

    /** The table scan for a live process. */
    method Scan(pid: int) returns (i: nat)
      ensures i == FindPid(procs, pid, 0)
    {
      i := 0;
      while i < |procs|
        invariant i <= |procs| && FindPid(procs, pid, 0) == FindPid(procs, pid, i)
      {
        if procs[i].pid == pid && procs[i].state != Unused {
          return;
        }
        i := i + 1;
      }
    }

    /** owner_of_chan: the search for the monitor with this channel, then the other objects. */
    method OwnerOfChan(chan: Chan) returns (pid: int)
      ensures pid == OwnerOf(St(), chan)
    {
      if chan == NoChan {
        return 0;
      }
      var i := 0;
      while i < |mons|
        invariant 0 <= i <= |mons| && forall j :: 0 <= j < i ==> chan != Mon(j)
      {
        if chan == Mon(i) {
          return mons[i].owner;
        }
        i := i + 1;
      }
      if chan.Other? && chan.key in others {
        return others[chan.key];
      }
      return 0;
    }

    /** deadlock_detect: 1 exactly when the walk from chan's owner, through sleeping processes,
        comes to the caller. The bound on the depth loses no answer, and a cycle that avoids
        the caller still ends with 0. */
    method DeadlockDetect(me: nat, chan: Chan) returns (r: int)
      requires |procs| == NPROC && me < NPROC && Live(procs[me]) && procs[me].pid > 0
      ensures r == if Reaches(St(), OwnerOf(St(), chan), procs[me].pid) then 1 else 0
    {
      hide FindPid, Next, Hop, OwnerOf;
      ghost var s, x, target := St(), OwnerOf(St(), chan), procs[me].pid;
      var pid := OwnerOfChan(chan);
      HopStep(s, x, 0);
      var depth := 0;
      while pid > 0 && depth < NPROC
        invariant 0 <= depth <= NPROC && pid == Hop(s, x, depth)
        invariant forall k :: 0 <= k < depth ==> Hop(s, x, k) != target
        decreases NPROC - depth
      {
        if pid == procs[me].pid {
          return 1;
        }
        var i := Scan(pid);
        NextAt(s, pid);
        HopStep(s, x, depth);
        if i == |procs| || !procs[i].state.Sleeping? || procs[i].chan == NoChan {
          Ended(s, x, target, depth + 1);
          return 0;
        }
        pid := OwnerOfChan(procs[i].chan);
        depth := depth + 1;
      }
      if pid <= 0 {
        Ended(s, x, target, depth);
      } else {
        BoundSuffices(s, x, target);
      }
      return 0;
    }

    /** wakeupOneProc. */
    method WakeupOne(chan: Chan)
      modifies this`procs
      ensures St() == WakeOne(old(St()), chan)
    {
      var i := 0;
      while i < |procs|
        invariant i <= |procs| && procs == old(procs) && Sleeper(procs, chan, 0) == Sleeper(procs, chan, i)
      {
        if procs[i].state.Sleeping? && procs[i].chan == chan {
          procs := procs[i := procs[i].(state := Runnable)];
          return;
        }
        i := i + 1;
      }
    }

    /** sys_mon_enter's loop, up to where it sleeps or leaves. */
    method EnterLoop(me: nat, id: nat) returns (r: Outcome)
      requires Inv(St()) && me < NPROC && id < NMON && procs[me].state.Running? && procs[me].chan == NoChan
      requires mons[id].taken
      modifies this`procs, this`mons
      ensures Inv(St())
      ensures r.Entered? <==> !old(mons)[id].locked
      ensures r.Blocked? <==> old(mons)[id].locked && !old(procs)[me].killed
                              && !Reaches(old(St()), old(mons)[id].owner, old(procs)[me].pid)
      ensures r.Entered? ==> St() == Lock(old(St()), me, id)
      ensures r.Blocked? ==> St() == Block(old(St()), me, id)
      ensures r.Failed? ==> St() == old(St())
    {
      hide FindPid, Parked, Next, Acyclic, Reaches;
      assert ProcOk(St(), me);
      if mons[id].locked {
        if procs[me].killed {
          return Failed;
        }
        var d := DeadlockDetect(me, Mon(id));
        if d != 0 {
          return Failed;
        }
        BlockKeeps(St(), me, id);
        mons := mons[id := mons[id].(waiters := mons[id].waiters + 1)];
        procs := procs[me := procs[me].(state := Sleeping, chan := Mon(id))];
        return Blocked;
      }
      LockKeeps(St(), me, id);
      mons := mons[id := mons[id].(locked := true, owner := procs[me].pid)];
      return Entered;
    }

    /** sys_mon_enter. */
    method Enter(me: nat, id: int) returns (r: Outcome)
      requires Inv(St()) && me < NPROC && procs[me].state.Running? && procs[me].chan == NoChan
      modifies this`procs, this`mons
      ensures Inv(St())
      ensures r.Failed? ==> St() == old(St())
      ensures r.Entered? <==> 0 <= id < NMON && old(mons)[id].taken && !old(mons)[id].locked
      ensures r.Entered? ==> St() == Lock(old(St()), me, id)
      ensures r.Blocked? <==> 0 <= id < NMON && old(mons)[id].locked && old(mons)[id].owner != old(procs)[me].pid
                              && !old(procs)[me].killed && !Reaches(old(St()), old(mons)[id].owner, old(procs)[me].pid)
      ensures r.Blocked? ==> St() == Block(old(St()), me, id)
    {
      hide FindPid, Parked, Next, Acyclic, Reaches;
      assert ProcOk(St(), me);
      if id < 0 || id >= NMON {
        return Failed;
      }
      assert MonOk(St(), id);
      if !mons[id].taken || mons[id].owner == procs[me].pid {
        return Failed;
      }
      r := EnterLoop(me, id);
    }

    /** Back in sys_mon_enter after a wake-up. */
    method Resume(me: nat) returns (r: Outcome)
      requires Inv(St()) && me < NPROC && procs[me].state.Running? && procs[me].chan.Mon?
      modifies this`procs, this`mons
      ensures Inv(St())
      ensures var id := old(procs)[me].chan.id;
              && id < NMON
              && var s := Unpark(old(St()), me, id);
              && (r.Entered? <==> !s.mons[id].locked)
              && (r.Blocked? <==>
                    s.mons[id].locked && !s.procs[me].killed && !Reaches(s, s.mons[id].owner, s.procs[me].pid))
              && St() == if r.Entered? then Lock(s, me, id) else if r.Blocked? then Block(s, me, id) else s
    {
      hide FindPid, Parked, Next, Acyclic, Reaches;
      assert ProcOk(St(), me);
      var id := procs[me].chan.id;
      UnparkKeeps(St(), me, id);
      procs := procs[me := procs[me].(chan := NoChan)];
      mons := mons[id := mons[id].(waiters := mons[id].waiters - 1)];
      r := EnterLoop(me, id);
    }

    /** sys_mon_exit. */
    method Exit(me: nat, id: int) returns (ret: int)
      requires Inv(St()) && me < NPROC && procs[me].state.Running?
      modifies this`procs, this`mons
      ensures Inv(St())
      ensures ret == 0 <==> 0 <= id < NMON && old(mons)[id].taken && old(mons)[id].owner == old(procs)[me].pid
      ensures ret == 0 || ret == -1
      ensures St() == if ret == 0 then HandOver(old(St()), id) else old(St())
    {
      hide FindPid, Parked, Next, Acyclic, Sleeper;
      if id < 0 || id >= NMON {
        return -1;
      }
      if !mons[id].taken || mons[id].owner != procs[me].pid {
        return -1;
      }
      HandOverKeeps(St(), id);
      mons := mons[id := mons[id].(locked := false, owner := 0)];
      WakeupOne(Mon(id));
      return 0;
    }

    /** exit: monitor_release_on_exit, then the process is a zombie. */
    method ExitProcess(me: nat)
      requires Inv(St()) && me < NPROC && procs[me].state.Running? && procs[me].chan == NoChan
      modifies this`procs, this`mons
      ensures Inv(St())
      ensures var t := HandOverAll(old(St()), old(procs)[me].pid, NMON);
              St() == SetProc(t, me, t.procs[me].(state := Zombie))
      ensures forall id :: 0 <= id < NMON ==> mons[id].owner != old(procs)[me].pid
    {
      hide FindPid, Parked, Next, Acyclic, Sleeper;
      ghost var s, pid := St(), procs[me].pid;
      assert ProcOk(s, me);
      var i := 0;
      while i < |mons|
        invariant 0 <= i <= |mons| && |mons| == NMON && |procs| == NPROC && others == old(others)
        invariant procs[me] == old(procs)[me] && St() == HandOverAll(s, pid, i)
      {
        HandOverAllKeeps(s, me, i + 1);
        if mons[i].taken && mons[i].locked && mons[i].owner == procs[me].pid {
          mons := mons[i := mons[i].(locked := false, owner := 0)];
          WakeupOne(Mon(i));
        }
        i := i + 1;
      }
      HandOverAllKeeps(s, me, |mons|);
      HarmlessKeeps(St(), me, procs[me].(state := Zombie));
      procs := procs[me := procs[me].(state := Zombie)];
    }

    /** kill: the first slot with the pid is marked, and no longer asleep. */
    method Kill(pid: int) returns (ret: int)
      requires Inv(St())
      modifies this`procs
      ensures Inv(St())
      ensures ret == if exists j :: 0 <= j < NPROC && old(procs)[j].pid == pid then 0 else -1
      ensures ret == -1 ==> procs == old(procs)
      ensures ret == 0 ==>
                var i := SlotOf(old(procs), pid, 0);
                && i < NPROC && procs == old(procs)[i := procs[i]]
                && procs[i].killed && procs[i].pid == pid && procs[i].chan == old(procs)[i].chan
                && procs[i].state == if old(procs)[i].state.Sleeping? then Runnable else old(procs)[i].state
    {
      hide FindPid, Parked, Next, Acyclic;
      var i := 0;
      while i < |procs|
        invariant 0 <= i <= |procs| && procs == old(procs) && forall j :: 0 <= j < i ==> procs[j].pid != pid
        invariant SlotOf(procs, pid, 0) == SlotOf(procs, pid, i)
      {
        if procs[i].pid == pid {
          KillKeeps(St(), i);
          procs := procs[i := procs[i].(killed := true)];
          if procs[i].state.Sleeping? {
            procs := procs[i := procs[i].(state := Runnable)];
          }
          assert St() == SetProc(old(St()), i, MarkKilled(old(procs)[i]));
          return 0;
        }
        i := i + 1;
      }
      return -1;
    }

    /** sys_mon_create. */
    method Create() returns (id: int)
      requires Inv(St())
      modifies this`mons
      ensures Inv(St())
      ensures id == -1 ==> mons == old(mons) && forall j :: 0 <= j < NMON ==> mons[j].taken
      ensures id != -1 ==> 0 <= id < NMON && !old(mons)[id].taken && mons == old(mons)[id := Monitor(true, false, 0, 0)]
      ensures id != -1 ==> forall j :: 0 <= j < id ==> old(mons)[j].taken
    {
      hide FindPid, Next, Acyclic;
      var i := 0;
      while i < |mons|
        invariant 0 <= i <= |mons| && mons == old(mons) && forall j :: 0 <= j < i ==> mons[j].taken
      {
        if !mons[i].taken {
          FreeHasNoWaiters(St(), i);
          DisownKeeps(St(), i, Monitor(true, false, 0, 0));
          mons := mons[i := Monitor(true, false, 0, 0)];
          return i;
        }
        i := i + 1;
      }
      return -1;
    }

    /** sys_mon_free (the condition variables aside). */
    method Free(id: int) returns (ret: int)
      requires Inv(St())
      modifies this`mons
      ensures Inv(St())
      ensures ret == 0 <==> 0 <= id < NMON && old(mons)[id].taken && !old(mons)[id].locked && old(mons)[id].waiters <= 0
      ensures ret == 0 ==> mons == old(mons)[id := old(mons)[id].(taken := false)]
                           && forall i :: 0 <= i < NPROC ==> procs[i].chan != Mon(id)
      ensures ret != 0 ==> ret == -1 && mons == old(mons)
    {
      hide FindPid, Parked, Next, Acyclic;
      if id < 0 || id >= NMON {
        return -1;
      }
      if !mons[id].taken || mons[id].locked || mons[id].waiters > 0 {
        return -1;
      }
      assert MonOk(St(), id);
      DisownKeeps(St(), id, mons[id].(taken := false));
      mons := mons[id := mons[id].(taken := false)];
      forall i | 0 <= i < NPROC
        ensures procs[i].chan != Mon(id)
      {
        assert ProcOk(St(), i);
      }
      return 0;
    }

    /** sleep on, and wakeup of, an object nobody owns. */
    method SleepOn(me: nat, key: nat)
      requires Inv(St()) && me < NPROC && procs[me].state.Running? && procs[me].chan == NoChan
      modifies this`procs
      ensures Inv(St()) && procs == old(procs)[me := old(procs)[me].(state := Sleeping, chan := Other(key))]
    {
      hide FindPid, Parked, Next, Acyclic;
      HarmlessKeeps(St(), me, procs[me].(state := Sleeping, chan := Other(key)));
      procs := procs[me := procs[me].(state := Sleeping, chan := Other(key))];
    }

    method Wakeup(key: nat)
      requires Inv(St())
      modifies this`procs
      ensures Inv(St()) && |procs| == NPROC
      ensures forall j :: 0 <= j < NPROC ==> procs[j] == Roused(old(procs)[j], key)
    {
      hide FindPid, Parked, Next, Acyclic;
      var i := 0;
      while i < |procs|
        invariant 0 <= i <= |procs| == NPROC && Inv(St())
        invariant forall j :: 0 <= j < NPROC ==> procs[j] == if j < i then Roused(old(procs)[j], key) else old(procs)[j]
      {
        if procs[i].state.Sleeping? && procs[i].chan == Other(key) {
          HarmlessKeeps(St(), i, procs[i].(state := Runnable));
          procs := procs[i := procs[i].(state := Runnable)];
        }
        i := i + 1;
      }
    }

    /** The scheduler picks a runnable process, or one gives up the processor, or one comes
        back from sleeping on an object nobody owns. */
    method Switch(i: nat, state: PState)
      requires Inv(St()) && i < NPROC
      requires (procs[i].state.Runnable? && state.Running?) || (procs[i].state.Running? && state.Runnable?)
      modifies this`procs
      ensures Inv(St()) && procs == old(procs)[i := old(procs)[i].(state := state)]
    {
      hide FindPid, Parked, Next, Acyclic;
      HarmlessKeeps(St(), i, procs[i].(state := state));
      procs := procs[i := procs[i].(state := state)];
    }

    method Return(me: nat)
      requires Inv(St()) && me < NPROC && procs[me].state.Running? && procs[me].chan.Other?
      modifies this`procs
      ensures Inv(St()) && procs == old(procs)[me := old(procs)[me].(chan := NoChan)]
    {
      hide FindPid, Parked, Next, Acyclic;
      HarmlessKeeps(St(), me, procs[me].(chan := NoChan));
      procs := procs[me := procs[me].(chan := NoChan)];
    }

    /** fork into an unused slot, with a pid no live process has. */
    method Fork(i: nat, pid: int)
      requires Inv(St()) && i < NPROC && procs[i].state.Unused? && pid > 0
      requires forall j :: 0 <= j < NPROC && Live(procs[j]) ==> procs[j].pid != pid
      modifies this`procs
      ensures Inv(St()) && procs == old(procs)[i := Proc(pid, Runnable, NoChan, false)]
    {
      hide FindPid, Parked, Next, Acyclic;
      assert ProcOk(St(), i);
      RenameKeeps(St(), i, Proc(pid, Runnable, NoChan, false));
      procs := procs[i := Proc(pid, Runnable, NoChan, false)];
    }

    /** wait: a zombie's slot is freed. */
    method Reap(i: nat)
      requires Inv(St()) && i < NPROC && procs[i].state.Zombie?
      modifies this`procs
      ensures Inv(St()) && procs == old(procs)[i := Proc(0, Unused, NoChan, false)]
    {
      hide FindPid, Parked, Next, Acyclic;
      assert ProcOk(St(), i);
      RenameKeeps(St(), i, Proc(0, Unused, NoChan, false));
      procs := procs[i := Proc(0, Unused, NoChan, false)];
    }
  }

  /** wakeup's effect on one slot. */
  function Roused(p: Proc, key: nat): Proc
  {
    if p.state.Sleeping? && p.chan == Other(key) then p.(state := Runnable) else p
  }

  lemma KillKeeps(s: State, i: nat)
    requires Inv(s) && i < NPROC
    ensures Inv(SetProc(s, i, MarkKilled(s.procs[i])))
  {
    hide FindPid, Parked, Next, Acyclic;
    assert ProcOk(s, i);
    if s.procs[i].state.Unused? {
      RenameKeeps(s, i, MarkKilled(s.procs[i]));
    } else {
      FindSlot(s, i);
      forall id | 0 <= id < NMON && s.procs[i].state.Zombie?
        ensures s.mons[id].owner != s.procs[i].pid
      {
        assert MonOk(s, id);
      }
      HarmlessKeeps(s, i, MarkKilled(s.procs[i]));
    }
  }

  function MarkKilled(p: Proc): Proc
  {
    p.(killed := true, state := if p.state.Sleeping? then Runnable else p.state)
  }

  lemma HopStep(s: State, x: int, n: nat)
    ensures Hop(s, x, 0) == x && Hop(s, x, n + 1) == Next(s, Hop(s, x, n))
  {
    hide Next;
  }

  lemma NextAt(s: State, pid: int)
    ensures var i := FindPid(s.procs, pid, 0);
            && Next(s, pid) == (if pid > 0 && i < |s.procs| && s.procs[i].state.Sleeping?
                                then OwnerOf(s, s.procs[i].chan) else 0)
            && OwnerOf(s, NoChan) == 0
  {
    hide FindPid;
  }

  lemma BoundSuffices(s: State, x: int, target: int)
    requires target > 0 && FindPid(s.procs, target, 0) < |s.procs|
    requires forall k :: 0 <= k < |s.procs| ==> Hop(s, x, k) != target
    ensures !Reaches(s, x, target)
  {
    hide FindPid, Next, Hop;
    if n: nat :| Hop(s, x, n) == target {
      var m := ShortHop(s, x, target, n);
    }
  }

  lemma Ended(s: State, x: int, target: int, n: nat)
    requires Hop(s, x, n) <= 0 < target && forall k :: 0 <= k < n ==> Hop(s, x, k) != target
    ensures !Reaches(s, x, target)
  {
    hide Next;
    forall k: nat
      ensures Hop(s, x, k) != target
    {
      if k >= n {
        Dead(s, x, n, k);
      }
    }
  }

  lemma FreeHasNoWaiters(s: State, id: nat)
    requires Tidy(s) && id < NMON && !s.mons[id].taken
    ensures s.mons[id].waiters == 0 && !s.mons[id].locked && s.mons[id].owner == 0
  {
    hide FindPid, Parked;
    assert MonOk(s, id);
    forall j | 0 <= j < NPROC
      ensures s.procs[j].chan != Mon(id)
    {
      assert ProcOk(s, j);
    }
    ParkedNone(s.procs, id, |s.procs|);
  }

  lemma {:induction false} ParkedNone(procs: seq<Proc>, id: nat, k: nat)
    requires k <= |procs| && forall j :: 0 <= j < |procs| ==> procs[j].chan != Mon(id)
    ensures Parked(procs, id, k) == 0
  {
    if k > 0 {
      ParkedNone(procs, id, k - 1);
    }
  }

  lemma Booted(s: State)
    requires Shape(s) && s.others == map[]
    requires forall i :: 0 <= i < NPROC ==> s.procs[i] == Proc(0, Unused, NoChan, false)
    requires forall id :: 0 <= id < NMON ==> s.mons[id] == Monitor(false, false, 0, 0)
    ensures Inv(s)
  {
    hide FindPid, Parked;
    forall id | 0 <= id < NMON
      ensures MonOk(s, id)
    {
      ParkedNone(s.procs, id, |s.procs|);
    }
    forall x: int, n: nat | x > 0 && n > 0
      ensures Hop(s, x, n) != x
    {
      assert Hop(s, x, 1) == Next(s, Hop(s, x, 0)) == 0;
      Dead(s, x, 1, n);
    }
  }

  // ---------------------------------------------------------------- runs

  datatype Event =
    | EvEnter(me: nat, id: int)
    | EvResume(me: nat)
    | EvExit(me: nat, id: int)
    | EvQuit(me: nat)
    | EvKill(pid: int)
    | EvCreate
    | EvFree(id: int)
    | EvSleep(me: nat, key: nat)
    | EvWakeup(key: nat)
    | EvReturn(me: nat)
    | EvDispatch(me: nat)
    | EvYield(me: nat)
    | EvFork(me: nat, pid: int)
    | EvReap(me: nat)

  /** The first slot from k on with this pid, in use or not. */
  function SlotOf(procs: seq<Proc>, pid: int, k: nat): (i: nat)
    requires k <= |procs|
    ensures k <= i <= |procs| && (i < |procs| ==> procs[i].pid == pid) && forall j :: k <= j < i ==> procs[j].pid != pid
    decreases |procs| - k
  {
    if k == |procs| || procs[k].pid == pid then k else SlotOf(procs, pid, k + 1)
  }

  /** The first monitor from k on that is not taken. */
  function Spare(mons: seq<Monitor>, k: nat): (i: nat)
    requires k <= |mons|
    ensures k <= i <= |mons| && (i < |mons| ==> !mons[i].taken) && forall j :: k <= j < i ==> mons[j].taken
    decreases |mons| - k
  {
    if k == |mons| || !mons[k].taken then k else Spare(mons, k + 1)
  }

  /** A turn of mon_enter's loop: in, asleep, or refused. */
  ghost function Attempt(s: State, me: nat, id: nat): State
    requires me < |s.procs| && id < |s.mons|
  {
    if !s.mons[id].locked then Lock(s, me, id) else
    if !s.procs[me].killed && !Reaches(s, s.mons[id].owner, s.procs[me].pid) then Block(s, me, id) else s
  }

  /** A process that can make calls: it runs and is not inside sleep. */
  ghost predicate Calls(s: State, me: nat)
  {
    me < |s.procs| && s.procs[me].state.Running? && s.procs[me].chan == NoChan
  }

  /** The state after an event; one that is not possible changes nothing. */
  ghost function Effect(s: State, e: Event): State
  {
    match e
    case EvEnter(me, id) =>
      if Calls(s, me) && 0 <= id < |s.mons| && s.mons[id].taken && s.mons[id].owner != s.procs[me].pid
      then Attempt(s, me, id) else s
    case EvResume(me) =>
      if me < |s.procs| && s.procs[me].state.Running? && s.procs[me].chan.Mon? && s.procs[me].chan.id < |s.mons|
      then Attempt(Unpark(s, me, s.procs[me].chan.id), me, s.procs[me].chan.id) else s
    case EvExit(me, id) =>
      if Calls(s, me) && 0 <= id < |s.mons| && s.mons[id].taken && s.mons[id].owner == s.procs[me].pid
      then HandOver(s, id) else s
    case EvQuit(me) =>
      if !Calls(s, me) then s else
      var t := HandOverAll(s, s.procs[me].pid, |s.mons|);
      SetProc(t, me, t.procs[me].(state := Zombie))
    case EvKill(pid) =>
      var i := SlotOf(s.procs, pid, 0);
      if i < |s.procs| then SetProc(s, i, MarkKilled(s.procs[i])) else s
    case EvCreate =>
      var i := Spare(s.mons, 0);
      if i < |s.mons| then SetMon(s, i, Monitor(true, false, 0, 0)) else s
    case EvFree(id) =>
      if 0 <= id < |s.mons| && s.mons[id].taken && !s.mons[id].locked && s.mons[id].waiters <= 0
      then SetMon(s, id, s.mons[id].(taken := false)) else s
    case EvSleep(me, key) =>
      if Calls(s, me) then SetProc(s, me, s.procs[me].(state := Sleeping, chan := Other(key))) else s
    case EvWakeup(key) => s.(procs := seq(|s.procs|, j requires 0 <= j < |s.procs| => Roused(s.procs[j], key)))
    case EvReturn(me) =>
      if me < |s.procs| && s.procs[me].state.Running? && s.procs[me].chan.Other?
      then SetProc(s, me, s.procs[me].(chan := NoChan)) else s
    case EvDispatch(me) =>
      if me < |s.procs| && s.procs[me].state.Runnable? then SetProc(s, me, s.procs[me].(state := Running)) else s
    case EvYield(me) =>
      if me < |s.procs| && s.procs[me].state.Running? then SetProc(s, me, s.procs[me].(state := Runnable)) else s
    case EvFork(me, pid) =>
      if me < |s.procs| && s.procs[me].state.Unused? && pid > 0 && FindPid(s.procs, pid, 0) == |s.procs|
      then SetProc(s, me, Proc(pid, Runnable, NoChan, false)) else s
    case EvReap(me) =>
      if me < |s.procs| && s.procs[me].state.Zombie? then SetProc(s, me, Proc(0, Unused, NoChan, false)) else s
  }

  ghost function ApplyAll(s: State, events: seq<Event>): State
  {
    if events == [] then s else
    var n := |events| - 1;
    Effect(ApplyAll(s, events[..n]), events[n])
  }

  /** The calls on monitors. */
  method StepCall(t: MonitorTable, e: Event)
    requires Inv(t.St()) && (e.EvEnter? || e.EvResume? || e.EvExit? || e.EvQuit?)
    modifies t
    ensures Inv(t.St()) && t.St() == Effect(old(t.St()), e)
  {
    hide FindPid, Parked, Next, Acyclic, OnePid, ProcOk, MonOk, Reaches, HandOver, Lock, Block, Sleeper;
    match e {
      case EvEnter(me, id) =>
        if t.AtWork(me) {
          LockedHeld(t.St(), me);
          var _ := t.Enter(me, id);
        }
      case EvResume(me) =>
        if me < |t.procs| && t.procs[me].state.Running? && t.procs[me].chan.Mon? {
          var _ := t.Resume(me);
        }
      case EvExit(me, id) =>
        if t.AtWork(me) {
          var _ := t.Exit(me, id);
        }
      case EvQuit(me) =>
        if t.AtWork(me) {
          t.ExitProcess(me);
        }
    }
  }

  /** A monitor that is not locked, or not taken, is owned by nobody. */
  lemma LockedHeld(s: State, me: nat)
    requires Tidy(s) && me < NPROC && Live(s.procs[me])
    ensures s.procs[me].pid > 0
    ensures forall id :: 0 <= id < NMON && s.mons[id].owner == s.procs[me].pid ==> s.mons[id].locked
    ensures forall id :: 0 <= id < NMON && s.mons[id].locked ==> s.mons[id].taken
  {
    hide FindPid, Parked, Holder;
    assert ProcOk(s, me);
    forall id | 0 <= id < NMON
      ensures (s.mons[id].owner > 0 <==> s.mons[id].locked) && (s.mons[id].locked ==> s.mons[id].taken)
    {
      assert MonOk(s, id);
    }
  }

  method Step(t: MonitorTable, e: Event)
    requires Inv(t.St())
    modifies t
    ensures Inv(t.St()) && t.St() == Effect(old(t.St()), e)
  {
    hide FindPid, Parked, Next, Acyclic, OnePid, ProcOk, MonOk, Reaches, HandOver, HandOverAll, Attempt;
    match e {
      case EvKill(pid) => var _ := t.Kill(pid);
      case EvCreate => var _ := t.Create();
      case EvFree(id) => var _ := t.Free(id);
      case EvWakeup(key) => t.Wakeup(key);
      case EvSleep(me, key) =>
        if t.AtWork(me) {
          t.SleepOn(me, key);
        }
      case EvReturn(me) =>
        if me < |t.procs| && t.procs[me].state.Running? && t.procs[me].chan.Other? {
          t.Return(me);
        }
      case EvDispatch(me) =>
        if me < |t.procs| && t.procs[me].state.Runnable? {
          t.Switch(me, Running);
        }
      case EvYield(me) =>
        if me < |t.procs| && t.procs[me].state.Running? {
          t.Switch(me, Runnable);
        }
      case EvFork(me, pid) =>
        var other := t.Scan(pid);
        if me < |t.procs| && t.procs[me].state.Unused? && pid > 0 && other == |t.procs| {
          t.Fork(me, pid);
        }
      case EvReap(me) =>
        if me < |t.procs| && t.procs[me].state.Zombie? {
          t.Reap(me);
        }
      case _ => StepCall(t, e);
    }
  }

  /** Whatever happens, in whatever order, has exactly its effect; no process ever waits for
      itself, and no wake-up is lost. */
  method Run(t: MonitorTable, events: seq<Event>)
    requires Inv(t.St())
    modifies t
    ensures t.St() == ApplyAll(old(t.St()), events)
    ensures Inv(t.St())
    ensures NoneForgotten(old(t.St())) ==> NoneForgotten(t.St())
    ensures NoneStranded(old(t.St())) ==> NoneStranded(t.St())
  {
    hide Tidy, Acyclic, Effect, NoneForgotten, NoneStranded;
    ghost var s := t.St();
    var k := 0;
    while k < |events|
      invariant 0 <= k <= |events| && Inv(t.St()) && t.St() == ApplyAll(s, events[..k])
      invariant NoneForgotten(s) ==> NoneForgotten(t.St())
      invariant NoneStranded(s) ==> NoneStranded(t.St())
    {
      assert events[..k + 1][..k] == events[..k];
      if NoneForgotten(s) {
        EffectHeard(t.St(), events[k]);
      }
      if NoneStranded(s) {
        EffectStrands(t.St(), events[k]);
      }
      Step(t, events[k]);
      k := k + 1;
    }
    assert events[..k] == events;
  }

  // ---------------------------------------------------------------- no lost wake-up

  predicate Asleep(p: Proc, id: nat)
  {
    p.state.Sleeping? && p.chan == Mon(id)
  }

  /** Parked on the monitor, and woken: it will try again. */
  predicate OnTheWay(p: Proc, id: nat)
  {
    (p.state.Runnable? || p.state.Running?) && p.chan == Mon(id)
  }

  /** When a monitor is free and somebody sleeps on it, somebody is on the way to take it. */
  ghost predicate Heard(s: State, id: nat)
    requires id < |s.mons|
  {
    || s.mons[id].locked
    || (forall i :: 0 <= i < |s.procs| ==> !Asleep(s.procs[i], id))
    || (exists i :: 0 <= i < |s.procs| && OnTheWay(s.procs[i], id))
  }

  ghost predicate NoneForgotten(s: State)
  {
    forall id :: 0 <= id < |s.mons| ==> Heard(s, id)
  }

  /** Nobody new sleeps on it, and everybody on the way still is. */
  ghost predicate NoWorse(s: State, t: State, id: nat)
    requires id < |s.mons| == |t.mons|
  {
    && |t.procs| == |s.procs| && (s.mons[id].locked ==> t.mons[id].locked)
    && (forall i :: 0 <= i < |s.procs| && Asleep(t.procs[i], id) ==> Asleep(s.procs[i], id))
    && (forall i :: 0 <= i < |s.procs| && OnTheWay(s.procs[i], id) ==> OnTheWay(t.procs[i], id))
  }

  lemma HeardStill(s: State, t: State, id: nat)
    requires id < |s.mons| == |t.mons| && Heard(s, id) && NoWorse(s, t, id)
    ensures Heard(t, id)
  {
    if i :| 0 <= i < |s.procs| && OnTheWay(s.procs[i], id) {
      assert OnTheWay(t.procs[i], id);
    }
  }

  lemma AttemptHeard(s: State, me: nat, id: nat)
    requires me < |s.procs| && id < |s.mons| && s.procs[me].chan == NoChan
    requires forall d :: 0 <= d < |s.mons| && d != id ==> Heard(s, d)
    ensures NoneForgotten(Attempt(s, me, id))
  {
    hide Reaches;
    var t := Attempt(s, me, id);
    assert t.mons[id].locked;
    forall d | 0 <= d < |t.mons| && d != id
      ensures Heard(t, d)
    {
      HeardStill(s, t, d);
    }
  }

  lemma HandOverHeard(s: State, id: nat)
    requires NoneForgotten(s) && id < |s.mons|
    ensures NoneForgotten(HandOver(s, id))
  {
    hide Sleeper;
    var t := HandOver(s, id);
    var i := Sleeper(s.procs, Mon(id), 0);
    if i < |s.procs| {
      assert OnTheWay(t.procs[i], id);
    }
    forall d | 0 <= d < |t.mons| && d != id
      ensures Heard(t, d)
    {
      assert NoWorse(s, t, d);
      HeardStill(s, t, d);
    }
  }

  lemma {:induction false} HandOverAllHeard(s: State, pid: int, k: nat)
    requires NoneForgotten(s) && k <= |s.mons|
    ensures NoneForgotten(HandOverAll(s, pid, k))
  {
    hide NoneForgotten, HandOver;
    if k > 0 {
      HandOverAllHeard(s, pid, k - 1);
      HandOverHeard(HandOverAll(s, pid, k - 1), k - 1);
    }
  }

  /** A slot that neither falls asleep on a monitor nor leaves one. */
  lemma SlotHeard(s: State, i: nat, p: Proc)
    requires NoneForgotten(s) && i < |s.procs|
    requires forall id: nat :: Asleep(p, id) ==> Asleep(s.procs[i], id)
    requires forall id: nat :: OnTheWay(s.procs[i], id) ==> OnTheWay(p, id)
    ensures NoneForgotten(SetProc(s, i, p))
  {
    forall d | 0 <= d < |s.mons|
      ensures Heard(SetProc(s, i, p), d)
    {
      assert NoWorse(s, SetProc(s, i, p), d);
      HeardStill(s, SetProc(s, i, p), d);
    }
  }

  /** A monitor nobody is parked on. */
  lemma VacantHeard(s: State, id: nat, m: Monitor)
    requires NoneForgotten(s) && id < |s.mons| && forall i :: 0 <= i < |s.procs| ==> s.procs[i].chan != Mon(id)
    ensures NoneForgotten(SetMon(s, id, m))
  {
    forall d | 0 <= d < |s.mons|
      ensures Heard(SetMon(s, id, m), d)
    {
      if d != id {
        assert NoWorse(s, SetMon(s, id, m), d);
        HeardStill(s, SetMon(s, id, m), d);
      }
    }
  }

  lemma CallHeard(s: State, e: Event)
    requires NoneForgotten(s) && (e.EvEnter? || e.EvResume? || e.EvExit? || e.EvQuit?)
    ensures NoneForgotten(Effect(s, e))
  {
    hide HandOver, Attempt;
    match e {
      case EvEnter(me, id) =>
        if Calls(s, me) && 0 <= id < |s.mons| {
          AttemptHeard(s, me, id);
        }
      case EvResume(me) =>
        if me < |s.procs| && s.procs[me].state.Running? && s.procs[me].chan.Mon? && s.procs[me].chan.id < |s.mons| {
          var id := s.procs[me].chan.id;
          var t := Unpark(s, me, id);
          forall d | 0 <= d < |s.mons| && d != id
            ensures Heard(t, d)
          {
            assert NoWorse(s, t, d);
            HeardStill(s, t, d);
          }
          AttemptHeard(t, me, id);
        }
      case EvExit(me, id) =>
        if 0 <= id < |s.mons| {
          HandOverHeard(s, id);
        }
      case EvQuit(me) =>
        if Calls(s, me) {
          QuitHeard(s, me);
        }
    }
  }

  lemma QuitHeard(s: State, me: nat)
    requires NoneForgotten(s) && me < |s.procs| && s.procs[me].state.Running? && s.procs[me].chan == NoChan
    ensures var t := HandOverAll(s, s.procs[me].pid, |s.mons|);
            NoneForgotten(SetProc(t, me, t.procs[me].(state := Zombie)))
  {
    hide NoneForgotten;
    var t := HandOverAll(s, s.procs[me].pid, |s.mons|);
    HandOverAllHeard(s, s.procs[me].pid, |s.mons|);
    HandOverAllChan(s, s.procs[me].pid, |s.mons|, me);
    SlotHeard(t, me, t.procs[me].(state := Zombie));
  }

  lemma {:induction false} HandOverAllChan(s: State, pid: int, k: nat, me: nat)
    requires k <= |s.mons| && me < |s.procs|
    ensures HandOverAll(s, pid, k).procs[me].chan == s.procs[me].chan
  {
    hide Sleeper;
    if k > 0 {
      HandOverAllChan(s, pid, k - 1, me);
    }
  }

  /** No event loses a wake-up. */
  lemma EffectHeard(s: State, e: Event)
    requires Tidy(s) && NoneForgotten(s)
    ensures NoneForgotten(Effect(s, e))
  {
    hide NoneForgotten, FindPid, Parked, Holder, HandOver, HandOverAll, Attempt;
    match e {
      case EvKill(pid) =>
        var i := SlotOf(s.procs, pid, 0);
        if i < |s.procs| {
          SlotHeard(s, i, MarkKilled(s.procs[i]));
        }
      case EvCreate =>
        var i := Spare(s.mons, 0);
        if i < |s.mons| {
          forall j | 0 <= j < NPROC
            ensures s.procs[j].chan != Mon(i)
          {
            assert ProcOk(s, j);
          }
          VacantHeard(s, i, Monitor(true, false, 0, 0));
        }
      case EvFree(id) =>
        if 0 <= id < |s.mons| && s.mons[id].waiters <= 0 {
          NobodyParked(s, id);
          VacantHeard(s, id, s.mons[id].(taken := false));
        }
      case EvWakeup(key) => WakeupHeard(s, key);
      case EvSleep(_, _) => OneSlotHeard(s, e);
      case EvReturn(_) => OneSlotHeard(s, e);
      case EvDispatch(_) => OneSlotHeard(s, e);
      case EvYield(_) => OneSlotHeard(s, e);
      case EvFork(_, _) => OneSlotHeard(s, e);
      case EvReap(_) => OneSlotHeard(s, e);
      case _ => CallHeard(s, e);
    }
  }

  lemma OneSlotHeard(s: State, e: Event)
    requires Tidy(s) && NoneForgotten(s)
    requires e.EvSleep? || e.EvReturn? || e.EvDispatch? || e.EvYield? || e.EvFork? || e.EvReap?
    ensures NoneForgotten(Effect(s, e))
  {
    hide NoneForgotten, FindPid, Parked, Holder;
    var me, t := e.me, Effect(s, e);
    if t != s {
      assert ProcOk(s, me);
      SlotHeard(s, me, t.procs[me]);
      assert t == SetProc(s, me, t.procs[me]);
    }
  }

  lemma WakeupHeard(s: State, key: nat)
    requires NoneForgotten(s)
    ensures NoneForgotten(s.(procs := seq(|s.procs|, j requires 0 <= j < |s.procs| => Roused(s.procs[j], key))))
  {
    var t := s.(procs := seq(|s.procs|, j requires 0 <= j < |s.procs| => Roused(s.procs[j], key)));
    forall d | 0 <= d < |s.mons|
      ensures Heard(t, d)
    {
      assert NoWorse(s, t, d);
      HeardStill(s, t, d);
    }
  }

  lemma NobodyParked(s: State, id: nat)
    requires Tidy(s) && id < NMON && s.mons[id].waiters <= 0
    ensures forall i :: 0 <= i < NPROC ==> s.procs[i].chan != Mon(id)
  {
    hide FindPid, Parked, Holder;
    assert MonOk(s, id);
    forall i | 0 <= i < NPROC
      ensures s.procs[i].chan != Mon(id)
    {
      if s.procs[i].chan == Mon(id) {
        ParkedSome(s.procs, i, id, |s.procs|);
      }
    }
  }

  // ---------------------------------------------------------------- a killed process gets away

  /** No process that has been killed is asleep on a monitor. */
  ghost predicate NoneStranded(s: State)
  {
    forall i :: 0 <= i < |s.procs| ==> !Stranded(s.procs[i])
  }

  predicate Stranded(p: Proc)
  {
    p.killed && p.state.Sleeping? && p.chan.Mon?
  }

  lemma {:induction false} HandOverAllWakes(s: State, pid: int, k: nat, j: nat)
    requires k <= |s.mons| && j < |s.procs|
    ensures var p := HandOverAll(s, pid, k).procs[j]; p == s.procs[j] || p == s.procs[j].(state := Runnable)
  {
    hide Sleeper;
    if k > 0 {
      HandOverAllWakes(s, pid, k - 1, j);
    }
  }

  /** A kill takes its victim off the monitor, and a killed process does not go to sleep on one. */
  lemma EffectStrands(s: State, e: Event)
    requires NoneStranded(s)
    ensures NoneStranded(Effect(s, e))
  {
    hide Reaches, FindPid, Sleeper;
    if e.EvQuit? && Calls(s, e.me) {
      forall j | 0 <= j < |s.procs|
        ensures !Stranded(HandOverAll(s, s.procs[e.me].pid, |s.mons|).procs[j])
      {
        HandOverAllWakes(s, s.procs[e.me].pid, |s.mons|, j);
      }
    }
  }

  /** Monitors never bring everything to a stand: while somebody sleeps on one, some process is
      neither gone nor asleep on a monitor. */
  lemma NotStuck(s: State, i: nat) returns (j: nat)
    requires Inv(s) && NoneForgotten(s) && i < NPROC && s.procs[i].state.Sleeping? && s.procs[i].chan.Mon?
    ensures j < NPROC && Live(s.procs[j]) && !s.procs[j].state.Zombie?
    ensures !(s.procs[j].state.Sleeping? && s.procs[j].chan.Mon?)
  {
    hide FindPid, Parked, Next, Acyclic;
    var x := s.procs[i].pid;
    FindSlot(s, i);
    var n := WalkEnds(s, x);
    if n > 0 {
      HopStep(s, x, n - 1);
    }
    j := WalkHolder(s, i, n);
    NextSlot(s, j);
    if s.procs[j].state.Sleeping? && s.procs[j].chan.Mon? {
      var id := s.procs[j].chan.id;
      assert ProcOk(s, j) && MonOk(s, id) && Asleep(s.procs[j], id) && Heard(s, id);
      j :| 0 <= j < |s.procs| && OnTheWay(s.procs[j], id);
    }
  }

  /** Whoever the walk from a sleeper comes to, before it ends, is a process and no zombie. */
  lemma {:induction false} WalkHolder(s: State, i: nat, n: nat) returns (j: nat)
    requires Tidy(s) && i < NPROC && s.procs[i].state.Sleeping? && (n == 0 || Hop(s, s.procs[i].pid, n) > 0)
    ensures j < NPROC && Live(s.procs[j]) && !s.procs[j].state.Zombie? && s.procs[j].pid == Hop(s, s.procs[i].pid, n)
  {
    hide FindPid, Parked;
    if n == 0 {
      return i;
    }
    var y := Hop(s, s.procs[i].pid, n - 1);
    j := FindPid(s.procs, y, 0);
    assert ProcOk(s, j);
    assert MonOk(s, s.procs[j].chan.id);
    j := FindPid(s.procs, Hop(s, s.procs[i].pid, n), 0);
  }

  lemma NextSlot(s: State, j: nat)
    requires Tidy(s) && j < NPROC && Live(s.procs[j])
    ensures Next(s, s.procs[j].pid) == if s.procs[j].state.Sleeping? then OwnerOf(s, s.procs[j].chan) else 0
  {
    hide FindPid, Parked, Holder;
    FindSlot(s, j);
    assert ProcOk(s, j);
  }

  // ---------------------------------------------------------------- why the check and the sleep are one step

  /** Two processes, each holding one of two monitors, each about to ask for the other's. */
  function Crossed(): (s: State)
    ensures Shape(s) && s.others == map[]
    ensures forall i :: 0 <= i < NPROC ==>
              s.procs[i] == Proc(if i < 2 then i + 1 else 0, if i < 2 then Running else Unused, NoChan, false)
    ensures forall id :: 0 <= id < NMON ==> s.mons[id] == Monitor(id < 2, id < 2, if id < 2 then id + 1 else 0, 0)
  {
    State(seq(NPROC, i => Proc(if i < 2 then i + 1 else 0, if i < 2 then Running else Unused, NoChan, false)),
          seq(NMON, id => Monitor(id < 2, id < 2, if id < 2 then id + 1 else 0, 0)),
          map[])
  }

  lemma CrossedInv()
    ensures Inv(Crossed())
  {
    hide FindPid, Parked, Crossed;
    var s := Crossed();
    forall i, j | 0 <= i < NPROC && 0 <= j < NPROC
      ensures OnePid(s, i, j)
    {
    }
    assert Live(s.procs[0]) && s.procs[0].pid == 1 && Live(s.procs[1]) && s.procs[1].pid == 2;
    assert FindPid(s.procs, 1, 0) < |s.procs| && FindPid(s.procs, 2, 0) < |s.procs|;
    forall id | 0 <= id < NMON
      ensures MonOk(s, id)
    {
      ParkedNone(s.procs, id, |s.procs|);
    }
    forall x: int, n: nat | x > 0 && n > 0
      ensures Hop(s, x, n) != x
    {
      assert Hop(s, x, 1) == Next(s, Hop(s, x, 0)) == 0;
      Dead(s, x, 1, n);
    }
  }

  /** Both checks answer no before either process sleeps; once one of them sleeps, the other's
      answer is out of date, and acting on it closes the cycle. mon_enter holds only the
      monitor's own lock over check and sleep, so on several processors the two can interleave. */
  lemma StaleCheckClosesCycle()
    ensures var s := Crossed();
            && Inv(s) && !Reaches(s, s.mons[1].owner, 1) && !Reaches(s, s.mons[0].owner, 2)
            && Inv(Block(s, 0, 1)) && !Acyclic(Block(Block(s, 0, 1), 1, 0))
  {
    hide FindPid, Parked, Crossed, Tidy, Acyclic;
    CrossedInv();
    var s := Crossed();
    NextRunning(s, 0);
    NextRunning(s, 1);
    assert Hop(s, 1, 1) == Next(s, Hop(s, 1, 0)) && Hop(s, 2, 1) == Next(s, Hop(s, 2, 0));
    Ended(s, 2, 1, 1);
    Ended(s, 1, 2, 1);
    BlockKeeps(s, 0, 1);
    var t := Block(s, 0, 1);
    FindSlot(t, 0);
    assert Next(t, 1) == 2;
    assert Hop(t, 1, 1) == Next(t, Hop(t, 1, 0));
    assert Reaches(t, t.mons[0].owner, 2);
    BlockKeeps(t, 1, 0);
  }
}
