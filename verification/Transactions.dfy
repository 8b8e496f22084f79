/** begin_op, log_write and end_op (kernel/filesystem/log.c): the space that begin_op reserves.
    An operation may log up to m different blocks, each as often as it likes. No operation is
    under way while a commit runs, and the log never overflows, in any run, exactly when its
    capacity exceeds the peak that begin_op's admission test lets m-block operations reach. */
module Transactions {
  import opened Basics
  import opened Counting

  /** An operation: the blocks it has logged so far, or that it is over. */
  datatype Op = Over | Under(logged: set<nat>)

  /** `blocks` is the header's list, its length the header's n. `ops` has one entry for each
      operation ever begun. */
  datatype State = State(outstanding: int, committing: bool, blocks: seq<nat>, ops: seq<Op>)

  function Boot(): State
  {
    State(0, false, [], [])
  }

  datatype Event = Begin | Write(op: nat, b: nat) | Finish(op: nat) | Committed

  /** What an operation may still add, if m different blocks is its share. */
  function Share(o: Op, m: nat): int
  {
    if o.Over? then 0 else m - |o.logged|
  }

  function Reserved(ops: seq<Op>, m: nat): int
  {
    if ops == [] then 0 else Reserved(ops[..|ops| - 1], m) + Share(ops[|ops| - 1], m)
  }

  function Active(ops: seq<Op>): nat
  {
    if ops == [] then 0 else Active(ops[..|ops| - 1]) + if ops[|ops| - 1].Over? then 0 else 1
  }

  predicate Running(s: State, op: nat)
  {
    op < |s.ops| && s.ops[op].Under?
  }

  /** A block the operation has logged already, or one more within its share. */
  predicate MayWrite(s: State, op: nat, b: nat, m: nat)
  {
    Running(s, op) && (b in s.ops[op].logged || |s.ops[op].logged| < m)
  }

  /** log_write's first test; `size` is the number of blocks of the log area. */
  predicate TooBig(s: State, size: int)
  {
    |s.blocks| >= LOGSIZE || |s.blocks| >= size - 1
  }

  /** The most blocks that m-block operations can bring into the list. */
  function Peak(m: nat): nat
  {
    if m == 0 then 0 else if m <= MAXOPBLOCKS then MAXOPBLOCKS + 2 * m else 3 * m
  }

  /** The longest list that log_write will not refuse to look at, plus one. */
  function Capacity(size: int): int
  {
    if size - 1 < LOGSIZE then size - 1 else LOGSIZE
  }

  ghost predicate OpOk(s: State, i: nat, m: nat)
    requires i < |s.ops|
  {
    s.ops[i].Under? ==> |s.ops[i].logged| <= m && forall b :: b in s.ops[i].logged ==> b in s.blocks
  }

  ghost predicate Inv(s: State, m: nat)
  {
    && s.outstanding == Active(s.ops) && (s.committing ==> s.outstanding == 0)
    && (s.outstanding == 0 && !s.committing ==> s.blocks == [])
    && (forall i :: 0 <= i < |s.ops| ==> OpOk(s, i, m))
    && NoDup(s.blocks) && |s.blocks| + Reserved(s.ops, m) <= Peak(m)
  }

  // ---------------------------------------------------------------- sums over the operations

  lemma {:induction false} SharesSet(ops: seq<Op>, i: nat, o: Op, m: nat)
    requires i < |ops|
    ensures Reserved(ops[i := o], m) == Reserved(ops, m) - Share(ops[i], m) + Share(o, m)
    ensures Active(ops[i := o]) == Active(ops) - (if ops[i].Over? then 0 else 1) + (if o.Over? then 0 else 1)
  {
    var n := |ops| - 1;
    if i == n {
      assert ops[i := o][..n] == ops[..n];
    } else {
      SharesSet(ops[..n], i, o, m);
      assert ops[i := o][..n] == ops[..n][i := o];
    }
  }

  lemma SharesSnoc(ops: seq<Op>, o: Op, m: nat)
    ensures Reserved(ops + [o], m) == Reserved(ops, m) + Share(o, m)
    ensures Active(ops + [o]) == Active(ops) + if o.Over? then 0 else 1
  {
    assert (ops + [o])[..|ops|] == ops;
  }

  /** No share is negative, and none exceeds m. */
  lemma {:induction false} SharesBound(ops: seq<Op>, m: nat)
    requires forall i :: 0 <= i < |ops| && ops[i].Under? ==> |ops[i].logged| <= m
    ensures 0 <= Reserved(ops, m) <= Active(ops) * m
  {
    if ops != [] {
      SharesBound(ops[..|ops| - 1], m);
    }
  }

  /** An operation under way counts as one, and its share is part of what is reserved. */
  lemma RoomLeft(ops: seq<Op>, op: nat, m: nat)
    requires op < |ops| && ops[op].Under? && forall i :: 0 <= i < |ops| && ops[i].Under? ==> |ops[i].logged| <= m
    ensures Active(ops) >= 1 && Reserved(ops, m) >= Share(ops[op], m) >= 0
  {
    SharesSet(ops, op, Over, m);
    SharesBound(ops[op := Over], m);
  }

  // ---------------------------------------------------------------- steps

  ghost predicate Enabled(s: State, e: Event, m: nat)
  {
    match e
    case Begin => true
    case Write(op, b) => MayWrite(s, op, b, m)
    case Finish(op) => Running(s, op)
    case Committed => s.committing
  }

  predicate Admits(s: State)
  {
    !s.committing && |s.blocks| + (s.outstanding + 1) * MAXOPBLOCKS <= LOGSIZE
  }

  /** The state after an event; a begin_op that has to sleep changes nothing. */
  function Apply(s: State, e: Event): State
    requires e.Write? || e.Finish? ==> Running(s, e.op)
  {
    match e
    case Begin => if Admits(s) then s.(outstanding := s.outstanding + 1, ops := s.ops + [Under({})]) else s
    case Write(op, b) =>
      s.(blocks := if b in s.blocks then s.blocks else s.blocks + [b],
         ops := s.ops[op := Under(s.ops[op].logged + {b})])
    case Finish(op) => State(s.outstanding - 1, s.outstanding == 1, s.blocks, s.ops[op := Over])
    case Committed => s.(committing := false, blocks := [])
  }

  lemma OpsBounded(s: State, m: nat)
    requires Inv(s, m)
    ensures forall i :: 0 <= i < |s.ops| && s.ops[i].Under? ==> |s.ops[i].logged| <= m
  {
    forall i | 0 <= i < |s.ops| && s.ops[i].Under?
      ensures |s.ops[i].logged| <= m
    {
      assert OpOk(s, i, m);
    }
  }

  /** Admission: at most three operations are under way, at most MAXOPBLOCKS blocks are logged
      when the second begins, and none when the third does. */
  lemma BeginKeeps(s: State, m: nat)
    requires Inv(s, m)
    ensures Inv(Apply(s, Begin), m)
  {
    hide Reserved, Active;
    if Admits(s) {
      OpsBounded(s, m);
      SharesBound(s.ops, m);
      SharesSnoc(s.ops, Under({}), m);
      var t := Apply(s, Begin);
      forall i | 0 <= i < |t.ops|
        ensures OpOk(t, i, m)
      {
        assert i < |s.ops| ==> OpOk(s, i, m);
      }
      if s.outstanding == 0 {
        assert Reserved(t.ops, m) <= m;
      } else if s.outstanding == 1 {
        assert Reserved(t.ops, m) <= 2 * m;
      } else {
        assert s.outstanding == 2 && s.blocks == [];
        assert Reserved(t.ops, m) <= 3 * m;
      }
    }
  }

  lemma WriteKeeps(s: State, op: nat, b: nat, m: nat)
    requires Inv(s, m) && MayWrite(s, op, b, m)
    ensures Inv(Apply(s, Write(op, b)), m)
  {
    hide Reserved, Active;
    OpsBounded(s, m);
    RoomLeft(s.ops, op, m);
    SharesSet(s.ops, op, Under(s.ops[op].logged + {b}), m);
    var t := Apply(s, Write(op, b));
    assert OpOk(s, op, m);
    assert b in s.ops[op].logged ==> s.ops[op].logged + {b} == s.ops[op].logged;
    forall i | 0 <= i < |t.ops|
      ensures OpOk(t, i, m)
    {
      assert OpOk(s, i, m);
    }
  }

  lemma FinishKeeps(s: State, op: nat, m: nat)
    requires Inv(s, m) && Running(s, op)
    ensures Inv(Apply(s, Finish(op)), m)
  {
    hide Reserved, Active;
    OpsBounded(s, m);
    RoomLeft(s.ops, op, m);
    SharesSet(s.ops, op, Over, m);
    var t := Apply(s, Finish(op));
    forall i | 0 <= i < |t.ops|
      ensures OpOk(t, i, m)
    {
      assert OpOk(s, i, m);
    }
  }

  lemma CommittedKeeps(s: State, m: nat)
    requires Inv(s, m) && s.committing
    ensures Inv(Apply(s, Committed), m)
  {
    hide Reserved, Active;
    OpsBounded(s, m);
    SharesBound(s.ops, m);
    var t := Apply(s, Committed);
    forall i | 0 <= i < |t.ops|
      ensures OpOk(t, i, m)
    {
      if t.ops[i].Under? {
        RoomLeft(s.ops, i, m);
      }
    }
  }

  lemma ApplyKeeps(s: State, e: Event, m: nat)
    requires Inv(s, m) && Enabled(s, e, m)
    ensures Inv(Apply(s, e), m)
  {
    hide Inv, Apply;
    match e
    case Begin => BeginKeeps(s, m);
    case Write(op, b) => WriteKeeps(s, op, b, m);
    case Finish(op) => FinishKeeps(s, op, m);
    case Committed => CommittedKeeps(s, m);
  }

  /** Whenever an operation may log, the list is within the peak. */
  lemma WithinPeak(s: State, m: nat)
    requires Inv(s, m)
    ensures |s.blocks| <= Peak(m)
  {
    OpsBounded(s, m);
    SharesBound(s.ops, m);
  }

  // ---------------------------------------------------------------- log.c

  class Log {
    const size: int
    var outstanding: int
    var committing: bool
    var blocks: seq<nat>
    ghost var ops: seq<Op>

    ghost function St(): State
      reads this
    {
      State(outstanding, committing, blocks, ops)
    }

    constructor (nlog: int)
      ensures size == nlog && St() == Boot() && forall m :: Inv(St(), m)
    {
      size, outstanding, committing, blocks, ops := nlog, 0, false, [], [];
    }

    /** One turn of begin_op's loop; false is going to sleep. */
    method BeginOp(ghost m: nat) returns (ok: bool)
      requires Inv(St(), m)
      modifies this`outstanding, this`ops
      ensures Inv(St(), m) && St() == Apply(old(St()), Begin)
      ensures ok <==> Admits(old(St()))
    {
      hide Inv;
      BeginKeeps(St(), m);
      if committing {
        return false;
      }
      if |blocks| + (outstanding + 1) * MAXOPBLOCKS > LOGSIZE {
        return false;
      }
      outstanding := outstanding + 1;
      ops := ops + [Under({})];
      return true;
    }

    /** log_write of block b by operation op, the cache aside; false is the panic, which comes
        before the search, so it also meets a block that is in the list already. */
    method LogWrite(ghost op: nat, b: nat, ghost m: nat) returns (ok: bool)
      requires Inv(St(), m) && MayWrite(St(), op, b, m)
      modifies this`blocks, this`ops
      ensures !ok <==> TooBig(old(St()), size)
      ensures Inv(St(), m) && St() == if ok then Apply(old(St()), Write(op, b)) else old(St())
      ensures Peak(m) < Capacity(size) ==> ok
    {
      hide Reserved, Active;
      WithinPeak(St(), m);
      WriteKeeps(St(), op, b, m);
      if |blocks| >= LOGSIZE || |blocks| >= size - 1 {
        return false;
      }
      assert outstanding >= 1 by {   // "log_write outside of trans"
        OpsBounded(St(), m);
        RoomLeft(ops, op, m);
      }
      var i := 0;
      while i < |blocks|
        invariant 0 <= i <= |blocks| && blocks == old(blocks) && ops == old(ops) && b !in blocks[..i]
      {
        if blocks[i] == b {
          break;
        }
        i := i + 1;
      }
      if i == |blocks| {
        blocks := blocks + [b];
      }
      ops := ops[op := Under(ops[op].logged + {b})];
      return true;
    }

    /** end_op up to where it commits, if it is the last one. The test for a commit already
        running never succeeds. */
    method EndOp(ghost op: nat, ghost m: nat) returns (commit: bool)
      requires Inv(St(), m) && Running(St(), op)
      modifies this`outstanding, this`committing, this`ops
      ensures Inv(St(), m) && St() == Apply(old(St()), Finish(op))
      ensures !old(committing) && commit == committing == (old(outstanding) == 1)
    {
      hide Reserved, Active;
      OpsBounded(St(), m);
      RoomLeft(ops, op, m);
      FinishKeeps(St(), op, m);
      outstanding := outstanding - 1;
      ops := ops[op := Over];
      commit := false;
      if outstanding == 0 {
        commit := true;
        committing := true;
      }
    }

    /** The commit is over: commit() empties the header, then begin_op is let in again. */
    method Committed(ghost m: nat)
      requires Inv(St(), m) && committing
      modifies this`blocks, this`committing
      ensures Inv(St(), m) && St() == Apply(old(St()), Event.Committed)
    {
      CommittedKeeps(St(), m);
      blocks := [];
      committing := false;
    }
  }

  // ---------------------------------------------------------------- runs

  ghost predicate Possible(s: State, events: seq<Event>, m: nat)
    decreases |events|
  {
    events == [] || (Enabled(s, events[0], m) && Possible(Apply(s, events[0]), events[1..], m))
  }

  /** None of the run's log_writes panics. */
  ghost predicate Calm(s: State, events: seq<Event>, m: nat, size: int)
    requires Possible(s, events, m)
    decreases |events|
  {
    events == [] || ((events[0].Write? ==> !TooBig(s, size)) && Calm(Apply(s, events[0]), events[1..], m, size))
  }

  /** All runs of operations that log at most m different blocks each go through. */
  ghost predicate AllCalm(m: nat, size: int)
  {
    forall events :: Possible(Boot(), events, m) ==> Calm(Boot(), events, m, size)
  }

  lemma {:induction false} NeverTooBig(s: State, events: seq<Event>, m: nat, size: int)
    requires Inv(s, m) && Peak(m) < Capacity(size) && Possible(s, events, m)
    ensures Calm(s, events, m, size)
    decreases |events|
  {
    hide Inv;
    if events != [] {
      WithinPeak(s, m);
      ApplyKeeps(s, events[0], m);
      NeverTooBig(Apply(s, events[0]), events[1..], m, size);
    }
  }

  lemma NoWriteEnabled(s: State, e: Event)
    requires Inv(s, 0) && Enabled(s, e, 0)
    ensures !e.Write?
  {
    assert e.Write? ==> OpOk(s, e.op, 0);
  }

  /** Without a share there is nothing to log. */
  lemma {:induction false} NothingToLog(s: State, events: seq<Event>, size: int)
    requires Inv(s, 0) && Possible(s, events, 0)
    ensures Calm(s, events, 0, size)
    decreases |events|
  {
    if events != [] {
      NoWriteEnabled(s, events[0]);
      ApplyKeeps(s, events[0], 0);
      NothingToLog(Apply(s, events[0]), events[1..], size);
    }
  }

  // ---------------------------------------------------------------- a run that reaches the peak

  ghost function After(s: State, events: seq<Event>, m: nat): State
    requires Possible(s, events, m)
    decreases |events|
  {
    if events == [] then s else After(Apply(s, events[0]), events[1..], m)
  }

  lemma {:induction false} PossibleJoin(s: State, a: seq<Event>, b: seq<Event>, m: nat)
    requires Possible(s, a, m) && Possible(After(s, a, m), b, m)
    ensures Possible(s, a + b, m) && After(s, a + b, m) == After(After(s, a, m), b, m)
    decreases |a|
  {
    hide Apply;
    if a == [] {
      assert a + b == b;
    } else {
      assert (a + b)[0] == a[0] && (a + b)[1..] == a[1..] + b;
      PossibleJoin(Apply(s, a[0]), a[1..], b, m);
    }
  }

  lemma One(s: State, e: Event, m: nat)
    requires Enabled(s, e, m)
    ensures Possible(s, [e], m) && After(s, [e], m) == Apply(s, e)
  {
    hide Apply, Enabled;
    assert [e][1..] == [];
  }

  /** The list after n different blocks, numbered as they come. */
  function Iota(n: nat): (r: seq<nat>)
    ensures |r| == n && forall b :: b in r <==> 0 <= b < n
  {
    if n == 0 then [] else Iota(n - 1) + [n - 1]
  }

  /** k new blocks by operation op, the first of them number n. */
  function Writes(op: nat, n: nat, k: nat): seq<Event>
  {
    if k == 0 then [] else Writes(op, n, k - 1) + [Write(op, n + k - 1)]
  }

  function Span(n: nat, k: nat): (r: set<nat>)
    ensures |r| == k && forall b :: b in r <==> n <= b < n + k
  {
    if k == 0 then {} else Span(n, k - 1) + {n + k - 1}
  }

  /** The operation uses its whole share, the list growing by as much. */
  lemma {:induction false} WritesRun(s: State, op: nat, n: nat, k: nat, m: nat)
    requires Running(s, op) && s.ops[op].logged == {} && s.blocks == Iota(n) && k <= m
    ensures Possible(s, Writes(op, n, k), m)
    ensures After(s, Writes(op, n, k), m) == s.(blocks := Iota(n + k), ops := s.ops[op := Under(Span(n, k))])
  {
    hide Possible, After, Apply, Iota, Span;
    assert Writes(op, n, 0) == [];
    if k == 0 {
      NoWrites(s, op, n, m);
    } else {
      WritesRun(s, op, n, k - 1, m);
      var t := s.(blocks := Iota(n + k - 1), ops := s.ops[op := Under(Span(n, k - 1))]);
      var e := Write(op, n + k - 1);
      One(t, e, m);
      PossibleJoin(s, Writes(op, n, k - 1), [e], m);
      WriteStep(s, op, n, k, m);
    }
  }

  lemma NoWrites(s: State, op: nat, n: nat, m: nat)
    requires Running(s, op) && s.ops[op].logged == {} && s.blocks == Iota(n)
    ensures Possible(s, [], m) && After(s, [], m) == s.(blocks := Iota(n), ops := s.ops[op := Under(Span(n, 0))])
  {
    assert s.ops[op := Under(Span(n, 0))] == s.ops;
  }

  lemma WriteStep(s: State, op: nat, n: nat, k: nat, m: nat)
    requires Running(s, op) && k >= 1
    ensures var t := s.(blocks := Iota(n + k - 1), ops := s.ops[op := Under(Span(n, k - 1))]);
            Apply(t, Write(op, n + k - 1)) == s.(blocks := Iota(n + k), ops := s.ops[op := Under(Span(n, k))])
  {
    var ops := s.ops[op := Under(Span(n, k - 1))];
    assert ops[op := Under(Span(n, k))] == s.ops[op := Under(Span(n, k))];
  }

  /** One operation stays open while j others come, log one block each, and go. */
  function Visitors(j: nat): seq<Event>
  {
    if j == 0 then [Begin] else Visitors(j - 1) + [Begin] + [Write(j, j - 1)] + [Finish(j)]
  }

  function Visited(j: nat): State
  {
    State(1, false, Iota(j), [Under({})] + seq(j, i => Over))
  }

  lemma {:induction false} VisitorsRun(j: nat, m: nat)
    requires j <= MAXOPBLOCKS && m >= 1
    ensures Possible(Boot(), Visitors(j), m) && After(Boot(), Visitors(j), m) == Visited(j)
  {
    if j == 0 {
      One(Boot(), Begin, m);
      assert Apply(Boot(), Begin) == Visited(0);
    } else {
      VisitorsRun(j - 1, m);
      VisitRun(j - 1, m);
      var visit := [Begin] + [Write(j, j - 1)] + [Finish(j)];
      PossibleJoin(Boot(), Visitors(j - 1), visit, m);
      assert Visitors(j - 1) + visit == Visitors(j);
    }
  }

  lemma VisitRun(j: nat, m: nat)
    requires j < MAXOPBLOCKS && m >= 1
    ensures var visit := [Begin] + [Write(j + 1, j)] + [Finish(j + 1)];
            Possible(Visited(j), visit, m) && After(Visited(j), visit, m) == Visited(j + 1)
  {
    var s := Visited(j);
    var s1 := s.(outstanding := 2, ops := s.ops + [Under({})]);
    One(s, Begin, m);
    One(s1, Write(j + 1, j), m);
    var s2 := Apply(s1, Write(j + 1, j));
    assert s2.blocks == Iota(j + 1);
    PossibleJoin(s, [Begin], [Write(j + 1, j)], m);
    One(s2, Finish(j + 1), m);
    PossibleJoin(s, [Begin] + [Write(j + 1, j)], [Finish(j + 1)], m);
    assert Apply(s2, Finish(j + 1)).ops == Visited(j + 1).ops;
  }

  /** An operation that has logged nothing yet uses up its share. */
  lemma ShareUsed(events: seq<Event>, s: State, op: nat, n: nat, m: nat)
    requires Possible(Boot(), events, m) && After(Boot(), events, m) == s
    requires Running(s, op) && s.ops[op].logged == {} && s.blocks == Iota(n)
    ensures Possible(Boot(), events + Writes(op, n, m), m)
    ensures After(Boot(), events + Writes(op, n, m), m) ==
              s.(blocks := Iota(n + m), ops := s.ops[op := Under(Span(n, m))])
  {
    hide Possible, After, Iota, Span, Writes;
    WritesRun(s, op, n, m, m);
    PossibleJoin(Boot(), events, Writes(op, n, m), m);
  }

  /** Small shares: with MAXOPBLOCKS blocks logged by operations that are over, the one that
      stayed open and one more use up theirs. */
  lemma PeakWithVisitors(v: nat, m: nat) returns (events: seq<Event>)
    requires 1 <= m <= v == MAXOPBLOCKS
    ensures Possible(Boot(), events, m)
    ensures var s := After(Boot(), events, m);
            |s.blocks| == v + 2 * m && Running(s, 0) && s.ops[0].logged == Span(v, m)
  {
    hide Possible, After, Writes, Visitors, Iota, Span;
    VisitorsRun(v, m);
    var s := Visited(v);
    One(s, Begin, m);
    PossibleJoin(Boot(), Visitors(v), [Begin], m);
    events := Visitors(v) + [Begin];
    var t := s.(outstanding := 2, ops := s.ops + [Under({})]);
    assert Apply(s, Begin) == t;
    ShareUsed(events, t, 0, v, m);
    events := events + Writes(0, v, m);
    var u := t.(blocks := Iota(v + m), ops := t.ops[0 := Under(Span(v, m))]);
    ShareUsed(events, u, v + 1, v + m, m);
    events := events + Writes(v + 1, v + m, m);
  }

  lemma ThreeBegun(m: nat) returns (events: seq<Event>)
    ensures Possible(Boot(), events, m)
    ensures After(Boot(), events, m) == State(3, false, Iota(0), [Under({}), Under({}), Under({})])
  {
    hide Possible, After;
    var none := Under({});
    One(Boot(), Begin, m);
    var s1 := State(1, false, [], [none]);
    assert Apply(Boot(), Begin) == s1;
    One(s1, Begin, m);
    PossibleJoin(Boot(), [Begin], [Begin], m);
    var s2 := State(2, false, [], [none, none]);
    assert Apply(s1, Begin) == s2;
    One(s2, Begin, m);
    PossibleJoin(Boot(), [Begin] + [Begin], [Begin], m);
    assert Apply(s2, Begin) == State(3, false, [], [none, none, none]);
    events := [Begin] + [Begin] + [Begin];
  }

  /** One of three operations that are under way uses up its share. */
  lemma ThirdUsed(events: seq<Event>, ops: seq<Op>, op: nat, n: nat, m: nat) returns (more: seq<Event>)
    requires op < |ops| && ops[op] == Under({}) && Possible(Boot(), events, m)
    requires After(Boot(), events, m) == State(3, false, Iota(n), ops)
    ensures Possible(Boot(), more, m)
    ensures After(Boot(), more, m) == State(3, false, Iota(n + m), ops[op := Under(Span(n, m))])
  {
    hide Possible, After, Iota, Span, Writes;
    ShareUsed(events, State(3, false, Iota(n), ops), op, n, m);
    more := events + Writes(op, n, m);
  }

  /** Large shares: three operations admitted together. */
  lemma PeakWithThree(m: nat) returns (events: seq<Event>)
    ensures Possible(Boot(), events, m)
    ensures var s := After(Boot(), events, m);
            |s.blocks| == 3 * m && Running(s, 0) && s.ops[0].logged == Span(0, m)
  {
    hide Possible, After, Iota, Span;
    var none, a, b, c := Under({}), Under(Span(0, m)), Under(Span(m, m)), Under(Span(m + m, m));
    events := ThreeBegun(m);
    events := ThirdUsed(events, [none, none, none], 0, 0, m);
    assert [none, none, none][0 := a] == [a, none, none];
    events := ThirdUsed(events, [a, none, none], 1, m, m);
    assert [a, none, none][1 := b] == [a, b, none];
    events := ThirdUsed(events, [a, b, none], 2, m + m, m);
    assert [a, b, none][2 := c] == [a, b, c];
  }

  lemma PeakReached(m: nat) returns (events: seq<Event>, b: nat)
    requires m >= 1
    ensures Possible(Boot(), events, m)
    ensures var s := After(Boot(), events, m);
            |s.blocks| == Peak(m) && Running(s, 0) && b in s.ops[0].logged
  {
    hide Possible, After;
    if m <= MAXOPBLOCKS {
      events := PeakWithVisitors(MAXOPBLOCKS, m);
      b := MAXOPBLOCKS;
    } else {
      events := PeakWithThree(m);
      b := 0;
    }
  }

  lemma {:induction false} CalmLast(s: State, events: seq<Event>, e: Event, m: nat, size: int)
    requires Possible(s, events, m) && e.Write? && TooBig(After(s, events, m), size)
             && Enabled(After(s, events, m), e, m)
    ensures Possible(s, events + [e], m) && !Calm(s, events + [e], m, size)
    decreases |events|
  {
    hide Apply, TooBig;
    var more := events + [e];
    if events == [] {
      assert more[0] == e && more[1..] == [];
    } else {
      assert more[0] == events[0] && more[1..] == events[1..] + [e];
      CalmLast(Apply(s, events[0]), events[1..], e, m, size);
    }
  }

  /** At the peak an operation logs one of its own blocks again, which needs no room: where
      the list is not shorter than the limits, log_write panics all the same. */
  lemma PeakPanics(m: nat, size: int)
    requires m >= 1 && Peak(m) >= Capacity(size)
    ensures !AllCalm(m, size)
  {
    hide Possible, After, Calm, Peak;
    var events, b := PeakReached(m);
    var e := Write(0, b);
    CalmLast(Boot(), events, e, m, size);
    assert Possible(Boot(), events + [e], m);
  }

  // ---------------------------------------------------------------- the exact condition

  /** begin_op's reservation is sound exactly when the peak stays below the log's capacity. */
  lemma ReservationSound(m: nat, size: int)
    ensures AllCalm(m, size) <==> m == 0 || Peak(m) < Capacity(size)
  {
    hide Calm, Possible, Peak;
    assert Inv(Boot(), m) by { BootInv(m); }
    forall events | (m == 0 || Peak(m) < Capacity(size)) && Possible(Boot(), events, m)
      ensures Calm(Boot(), events, m, size)
    {
      if m == 0 {
        NothingToLog(Boot(), events, size);
      } else {
        NeverTooBig(Boot(), events, m, size);
      }
    }
    if m >= 1 && Peak(m) >= Capacity(size) {
      PeakPanics(m, size);
    }
  }

  lemma BootInv(m: nat)
    ensures Inv(Boot(), m)
  {
  }

  lemma {:induction false} RunKeeps(s: State, events: seq<Event>, m: nat)
    requires Inv(s, m) && Possible(s, events, m)
    ensures Inv(After(s, events, m), m)
    decreases |events|
  {
    hide Inv, Apply;
    if events != [] {
      ApplyKeeps(s, events[0], m);
      RunKeeps(Apply(s, events[0]), events[1..], m);
    }
  }

  /** The witness for the full share: three operations log ten blocks each; then the first one
      may log block 0 again, which is in the list, and log_write panics whatever the area. */
  lemma RelogPanics(size: int) returns (events: seq<Event>)
    ensures Possible(Boot(), events, MAXOPBLOCKS)
    ensures var s := After(Boot(), events, MAXOPBLOCKS);
            |s.blocks| == LOGSIZE && MayWrite(s, 0, 0, MAXOPBLOCKS) && 0 in s.blocks && TooBig(s, size)
  {
    hide Possible, After;
    events := PeakWithThree(MAXOPBLOCKS);
    assert Inv(Boot(), MAXOPBLOCKS) by { BootInv(MAXOPBLOCKS); }
    RunKeeps(Boot(), events, MAXOPBLOCKS);
    assert OpOk(After(Boot(), events, MAXOPBLOCKS), 0, MAXOPBLOCKS);
  }

  /** For shares up to MAXOPBLOCKS, in the source's terms. */
  lemma ShareCondition(m: nat, size: int)
    requires 1 <= m <= MAXOPBLOCKS
    ensures AllCalm(m, size) <==> MAXOPBLOCKS + 2 * m < LOGSIZE && MAXOPBLOCKS + 2 * m < size - 1
  {
    ReservationSound(m, size);
  }

  /** The full share of MAXOPBLOCKS blocks is too much for a log area of any size. */
  lemma NoAreaForFullShare(size: int)
    ensures !AllCalm(MAXOPBLOCKS, size)
  {
    ReservationSound(MAXOPBLOCKS, size);
  }

  /** The area mkfs lays out, LOGSIZE blocks with the header among them, holds operations of
      up to nine blocks. */
  lemma MkfsArea(m: nat)
    ensures AllCalm(m, LOGSIZE) <==> m <= MAXOPBLOCKS - 1
  {
    ReservationSound(m, LOGSIZE);
  }

  // ---------------------------------------------------------------- the calls of one operation

  function LogCalls(op: nat, w: seq<nat>): seq<Event>
  {
    if w == [] then [] else [Write(op, w[0])] + LogCalls(op, w[1..])
  }

  /** The log_write calls of one operation, with nothing in between: they go through exactly when
      the list, with all their blocks but for what only the last one adds, is below the capacity. */
  lemma {:induction false} CallsCalm(s: State, op: nat, w: seq<nat>, m: nat, size: int)
    requires Running(s, op) && NoDup(s.blocks) && |s.ops[op].logged + Elems(w)| <= m
    ensures Possible(s, LogCalls(op, w), m)
    ensures w != [] ==>
              (Calm(s, LogCalls(op, w), m, size) <==> |Elems(s.blocks) + Elems(w[..|w| - 1])| < Capacity(size))
    ensures w == [] ==> Calm(s, LogCalls(op, w), m, size)
    decreases |w|
  {
    hide Apply, Possible, Calm, Elems, Capacity;
    if w == [] {
      CallFirst(s, op, w, m, size);
    } else {
      FirstCall(s, op, w, m);
      CallsCalm(Apply(s, Write(op, w[0])), op, w[1..], m, size);
      CallFirst(s, op, w, m, size);
      CountCalls(s.blocks, Apply(s, Write(op, w[0])).blocks, w);
    }
  }

  lemma CallFirst(s: State, op: nat, w: seq<nat>, m: nat, size: int)
    requires w != [] ==> MayWrite(s, op, w[0], m) && Possible(Apply(s, Write(op, w[0])), LogCalls(op, w[1..]), m)
    ensures Possible(s, LogCalls(op, w), m)
    ensures w != [] ==>
              (Calm(s, LogCalls(op, w), m, size) <==>
               |s.blocks| < Capacity(size) && Calm(Apply(s, Write(op, w[0])), LogCalls(op, w[1..]), m, size))
    ensures w == [] ==> Calm(s, LogCalls(op, w), m, size)
  {
    hide Apply;
    if w != [] {
      assert LogCalls(op, w)[1..] == LogCalls(op, w[1..]);
    }
  }

  lemma CountCalls(blocks: seq<nat>, next: seq<nat>, w: seq<nat>)
    requires NoDup(blocks) && w != [] && Elems(next) == Elems(blocks) + {w[0]}
    ensures |blocks| <= |Elems(blocks) + Elems(w[..|w| - 1])|
    ensures |w| == 1 ==> |Elems(blocks) + Elems(w[..|w| - 1])| == |blocks|
    ensures |w| > 1 ==> Elems(blocks) + Elems(w[..|w| - 1]) == Elems(next) + Elems(w[1..][..|w| - 2])
  {
    ElemsSize(blocks);
    var all := Elems(blocks) + Elems(w[..|w| - 1]);
    assert all == Elems(blocks) + (all - Elems(blocks));
    if |w| > 1 {
      assert w[1..][..|w| - 2] == w[..|w| - 1][1..];
      ElemsHead(w[..|w| - 1]);
    }
  }

  lemma ElemsHead(w: seq<nat>)
    requires w != []
    ensures Elems(w) == {w[0]} + Elems(w[1..])
  {
    assert w == [w[0]] + w[1..];
  }

  lemma FirstCall(s: State, op: nat, w: seq<nat>, m: nat)
    requires Running(s, op) && NoDup(s.blocks) && w != [] && |s.ops[op].logged + Elems(w)| <= m
    ensures MayWrite(s, op, w[0], m)
    ensures var t := Apply(s, Write(op, w[0]));
            && Running(t, op) && NoDup(t.blocks) && |t.ops[op].logged + Elems(w[1..])| <= m
            && Elems(t.blocks) == Elems(s.blocks) + {w[0]}
  {
    ElemsHead(w);
    var mine, all := s.ops[op].logged, s.ops[op].logged + Elems(w);
    var t := Apply(s, Write(op, w[0]));
    assert t.ops[op].logged + Elems(w[1..]) == all;
    if w[0] !in mine {
      assert all == (mine + {w[0]}) + (all - (mine + {w[0]}));
    }
  }

  /** While nothing panics, the list stays within the capacity. */
  lemma {:induction false} CalmBounded(s: State, events: seq<Event>, m: nat, size: int)
    requires Possible(s, events, m) && Calm(s, events, m, size) && (|s.blocks| == 0 || |s.blocks| <= Capacity(size))
    ensures var t := After(s, events, m); |t.blocks| == 0 || |t.blocks| <= Capacity(size)
    decreases |events|
  {
    if events != [] {
      CalmBounded(Apply(s, events[0]), events[1..], m, size);
    }
  }

  /** Every run in which some operation logs more blocks than the capacity panics. */
  lemma OperationTooLarge(events: seq<Event>, m: nat, size: int, op: nat)
    requires Possible(Boot(), events, m) && Running(After(Boot(), events, m), op)
    requires |After(Boot(), events, m).ops[op].logged| > Capacity(size) && After(Boot(), events, m).ops[op].logged != {}
    ensures !Calm(Boot(), events, m, size)
  {
    hide Possible, After, Calm;
    var s := After(Boot(), events, m);
    assert Inv(Boot(), m) by { BootInv(m); }
    RunKeeps(Boot(), events, m);
    assert OpOk(s, op, m);
    LoggedInList(s.ops[op].logged, s.blocks);
    if Calm(Boot(), events, m, size) {
      CalmBounded(Boot(), events, m, size);
    }
  }

  lemma LoggedInList(logged: set<nat>, blocks: seq<nat>)
    requires NoDup(blocks) && forall b :: b in logged ==> b in blocks
    ensures |logged| <= |blocks|
  {
    ElemsSize(blocks);
    assert logged <= Elems(blocks);
    assert Elems(blocks) == logged + (Elems(blocks) - logged);
  }
}
