/** Program order over whole runs. */
module LoadStoreTheorems {
  import opened Options
  import opened MemoryFlow
  import opened LoadStore
  import opened LoadStoreInvariant
  import opened LoadStoreRuns

  function Reset(n: nat, mem: seq<int>): Machine {
    Machine(mem, [], [], Tables(seq(n, _ => (0, 0)), seq(n, _ => false), seq(n, _ => []), seq(n, _ => false)), [])
  }

  datatype Outcome = Stuck | At(m: Machine)

  ghost predicate Steps(n: nat, m: Machine, in_: Input) {
    ShapeOk(n, m) && TablesOk(m.ops, m.t) && Enabled(n, m, in_)
  }

  ghost function After(n: nat, mem: seq<int>, ins: seq<Input>): Outcome {
    if |ins| == 0 then At(Reset(n, mem))
    else match After(n, mem, ins[..|ins| - 1])
      case Stuck => Stuck
      case At(m) => if Steps(n, m, ins[|ins| - 1]) then At(Next(n, m, ins[|ins| - 1])) else Stuck
  }

  lemma InitInv(n: nat, mem: seq<int>)
    requires |mem| > 0
    ensures Inv(n, mem, Reset(n, mem))
  {
  }

  lemma {:induction false} RunKeeps(n: nat, mem: seq<int>, ins: seq<Input>)
    requires |mem| > 0 && After(n, mem, ins).At?
    ensures Inv(n, mem, After(n, mem, ins).m)
  {
    hide Inv, Next, Enabled, ShapeOk, TablesOk;
    if |ins| == 0 {
      InitInv(n, mem);
    } else {
      RunKeeps(n, mem, ins[..|ins| - 1]);
      NextKeeps(n, mem, After(n, mem, ins[..|ins| - 1]).m, ins[|ins| - 1]);
    }
  }

  lemma {:induction false} ExecuteConcat(mem: seq<int>, a: seq<Op>, b: seq<Op>)
    requires AllIn(|mem|, a) && AllIn(|mem|, b)
    ensures AllIn(|mem|, a + b) && Execute(mem, a + b) == Execute(Execute(mem, a), b)
  {
    if |b| == 0 {
      assert a + b == a;
    } else {
      ExecuteConcat(mem, a, b[..|b| - 1]);
      assert (a + b)[..|a + b| - 1] == a + b[..|b| - 1];
    }
  }

  /** Committed operations followed by those in flight. */
  ghost function Program(m: Machine): seq<Op> { m.log + m.ops }

  /** Over every run, memory holds exactly the committed stores in program order, and every
      load that has read, committed or in flight, holds the bytes that executing all stores
      before it in program order leaves. */
  lemma LoadsObeyProgramOrder(n: nat, mem: seq<int>, ins: seq<Input>)
    requires |mem| > 0 && After(n, mem, ins).At?
    ensures var m := After(n, mem, ins).m;
      && AllIn(|mem|, Program(m)) && AllIn(|mem|, m.log)
      && m.mem == Execute(mem, m.log)
      && forall i :: 0 <= i < |Program(m)| && !Program(m)[i].store && Program(m)[i].stage == Done ==>
          ReadsInOrder(mem, Program(m), i)
  {
    RunKeeps(n, mem, ins);
    hide After, ShapeOk, TablesOk, FifoOk, OrderOk;
    var m := After(n, mem, ins).m;
    assert AllIn(|m.mem|, m.ops) by { InvInMemory(n, mem, m); }
    hide Inv;
    InvValues(n, mem, m);
    InOrderConcat(mem, m.mem, m.log, m.ops);
  }

  lemma InvInMemory(n: nat, mem: seq<int>, m: Machine)
    requires Inv(n, mem, m)
    ensures AllIn(|m.mem|, m.ops)
  {
  }

  lemma InvValues(n: nat, mem: seq<int>, m: Machine)
    requires Inv(n, mem, m) && AllIn(|m.mem|, m.ops)
    ensures LogOk(mem, m.mem, m.log) && ResultsOk(m.mem, m.ops)
  {
  }

  lemma InOrderConcat(init: seq<int>, mem: seq<int>, log: seq<Op>, ops: seq<Op>)
    requires LogOk(init, mem, log) && AllIn(|mem|, ops) && ResultsOk(mem, ops)
    ensures AllIn(|init|, log + ops)
    ensures var p := log + ops; forall i :: 0 <= i < |p| && !p[i].store && p[i].stage == Done ==>
      ReadsInOrder(init, p, i)
  {
    var (p, c) := (log + ops, |log|);
    forall i | 0 <= i < |p| && !p[i].store && p[i].stage == Done ensures ReadsInOrder(init, p, i) {
      if i < c {
        assert ReadsInOrder(init, log, i);
        assert p[..i] == log[..i];
      } else {
        assert ReadsInOrder(mem, ops, i - c);
        ExecuteConcat(init, log, ops[..i - c]);
        assert p[..i] == log + ops[..i - c];
      }
    }
  }

  /** In any reachable state a load at the request stage is held back by nothing but an older
      uncommitted store that overlaps it: stale table slots and younger stores never do.  One
      that overlaps it does hold it back unless the checker is blind to every such store. */
  lemma HeldBackExactly(n: nat, mem: seq<int>, ins: seq<Input>, i: nat)
    requires |mem| > 0 && After(n, mem, ins).At?
    requires var m := After(n, mem, ins).m;
      i < |m.ops| && |m.fifo| > 0 && m.ops[i].uid == m.fifo[0] && !m.ops[i].store
    ensures var (m, o) := (After(n, mem, ins).m, After(n, mem, ins).m.ops[i]);
      && (m.t.Pending(|m.mem|, StoreIds(m.ops), o.addr, o.size) <==> OlderSeen(|m.mem|, m.ops, i))
      && (SeesOlder(|m.mem|, m.ops, i) ==> (OlderSeen(|m.mem|, m.ops, i) <==> OlderOverlaps(m.ops, i)))
  {
    RunKeeps(n, mem, ins);
    PendingExact(n, After(n, mem, ins).m, i);
    hide Inv, After, Blind;
  }

  /** No store address is entered out of order: when a store's is in, everything older has
      been through the request stage. */
  lemma AddressesInOrder(n: nat, mem: seq<int>, ins: seq<Input>, i: nat, j: nat)
    requires |mem| > 0 && After(n, mem, ins).At?
    requires var m := After(n, mem, ins).m;
      i < j < |m.ops| && m.ops[j].store && m.ops[j].id < |m.t.addrValid| && m.t.addrValid[m.ops[j].id]
    ensures After(n, mem, ins).m.ops[i].stage == Done
  {
    RunKeeps(n, mem, ins);
    var m := After(n, mem, ins).m;
    assert TableOk(m.ops[j], m.t);
    assert Conflict(m.ops[i], m.ops[j]);
    hide ResultsOk, LogOk, Precedes;
    assert Rank(m.ops[i].stage) >= Rank(m.ops[j].stage);
  }

  // ----- What a cycle does to the program -------------------------------------------------

  /** A store's bytes land where it points, and nowhere else. */
  lemma WriteExact(mem: seq<int>, addr: nat, data: seq<int>, x: nat)
    requires addr + |data| <= |mem| && x < |mem|
    ensures Write(mem, addr, data)[x] == if addr <= x < addr + |data| then data[x - addr] else mem[x]
    ensures Read(Write(mem, addr, data), addr, |data|) == data
  {
  }

  /** The same instruction: identity, kind, table slot, address, size and data. */
  ghost predicate SameProgram(a: seq<Op>, b: seq<Op>) {
    |a| == |b| && forall i :: 0 <= i < |a| ==> Touches(a[i], b[i])
  }

  /** Only a rename extends the program, by its operation, and only a squash cuts it, right
      behind the operations it keeps; a commit moves exactly the head into the log. */
  lemma ProgramEvolves(n: nat, m: Machine, in_: Input)
    requires Steps(n, m, in_)
    ensures var (m', c) := (Next(n, m, in_), if Commits(n, m, in_) then 1 else 0);
      && |m'.log| == |m.log| + c && m.log <= m'.log
      && SameProgram(
           (if in_.keep.Some? then m.log + m.ops[..in_.keep.value] else Program(m))
             + (if in_.rename.Some? then [in_.rename.value] else []),
           Program(m'))
  {
    hide Next, ShapeOk, TablesOk, Commits, Touches, Enabled;
    CycleShape(n, m, in_);
    var (m', c) := (Next(n, m, in_), if Commits(n, m, in_) then 1 else 0);
    var k := if in_.keep.Some? then in_.keep.value else |m.ops|;
    assert m.ops[..|m.ops|] == m.ops;
    var joins := if in_.rename.Some? then [in_.rename.value] else [];
    Joined(m.log, m.ops, m'.log, m'.ops, joins, c, k);
    hide *;
  }

  lemma Joined(log: seq<Op>, ops: seq<Op>, log': seq<Op>, ops': seq<Op>, joins: seq<Op>, c: nat, k: nat)
    requires c <= k <= |ops| && c <= 1 && |log'| == |log| + c && log <= log'
    requires c == 1 ==> Touches(ops[0], log'[|log|])
    requires |ops'| == k - c + |joins| && forall i :: c <= i < k ==> Touches(ops[i], ops'[i - c])
    requires forall i :: 0 <= i < |joins| ==> ops'[k - c + i] == joins[i]
    ensures SameProgram(log + ops[..k] + joins, log' + ops')
  {
    var (a, b) := (log + ops[..k] + joins, log' + ops');
    forall i | 0 <= i < |a| ensures Touches(a[i], b[i]) {
      if i < |log| {
        assert a[i] == log[i] == log'[i] == b[i];
      } else if i < |log| + k {
        var j := i - |log|;
        assert a[i] == ops[j] && b[i] == if j < c then log'[|log|] else ops'[j - c];
      } else {
        var j := i - |log| - k;
        assert a[i] == joins[j] && b[i] == ops'[k - c + j];
      }
    }
  }

  lemma BeforeShape(n: nat, m: Machine, in_: Input)
    requires Steps(n, m, in_)
    ensures var m3 := BeforeCommit(n, m, in_); m3.log == m.log && SameProgram(m.ops, m3.ops)
  {
    hide ShapeOk, TablesOk, MayRename, Accepts;
  }

  /** The same by positions. */
  lemma CycleShape(n: nat, m: Machine, in_: Input)
    requires Steps(n, m, in_)
    ensures var (m', c) := (Next(n, m, in_), if Commits(n, m, in_) then 1 else 0);
      var k := if in_.keep.Some? then in_.keep.value else |m.ops|;
      && c <= k <= |m.ops| && |m'.log| == |m.log| + c && m.log <= m'.log
      && (c == 1 ==> Touches(m.ops[0], m'.log[|m.log|]))
      && |m'.ops| == k - c + (if in_.rename.Some? then 1 else 0)
      && (forall i :: c <= i < k ==> Touches(m.ops[i], m'.ops[i - c]))
      && (in_.rename.Some? ==> m'.ops[k - c] == in_.rename.value)
  {
    hide TablesOk, BeforeCommit, MayRename, Filtered, Write;
    BeforeShape(n, m, in_);
    hide ShapeOk;
  }

  /** What the cycle does to an operation that stays: issue and the request stage move it
      on, its data arrives, and a load reads memory as the request stage lets it through. */
  lemma OperationAfter(n: nat, m: Machine, in_: Input, i: nat)
    requires Steps(n, m, in_)
    requires (if Commits(n, m, in_) then 1 else 0) <= i < if in_.keep.Some? then in_.keep.value else |m.ops|
    ensures var (m', c) := (Next(n, m, in_), if Commits(n, m, in_) then 1 else 0);
      var through := in_.request == Some(i) && Accepts(n, m, in_, i);
      && i - c < |m'.ops|
      && m'.ops[i - c] == m.ops[i].(
           stage := if in_.issue == Some(i) then Issued else if through then Done else m.ops[i].stage,
           dataIn := m.ops[i].dataIn || in_.data == Some(i),
           result := if through && !m.ops[i].store then Read(m.mem, m.ops[i].addr, m.ops[i].size) else m.ops[i].result)
  {
    hide TablesOk, MayRename, Filtered, Write, Accepts, Commits;
    BeforeOperation(n, m, in_, i);
    hide BeforeCommit, ShapeOk, Enabled;
  }

  lemma BeforeOperation(n: nat, m: Machine, in_: Input, i: nat)
    requires Steps(n, m, in_) && i < |m.ops|
    ensures var through := in_.request == Some(i) && Accepts(n, m, in_, i);
      BeforeCommit(n, m, in_).ops[i] == m.ops[i].(
        stage := if in_.issue == Some(i) then Issued else if through then Done else m.ops[i].stage,
        dataIn := m.ops[i].dataIn || in_.data == Some(i),
        result := if through && !m.ops[i].store then Read(m.mem, m.ops[i].addr, m.ops[i].size) else m.ops[i].result)
  {
    hide ShapeOk, TablesOk, MayRename, Accepts;
  }

  const COMMIT: Input := Input(None, None, None, None, true, None)
  const NOTHING: Input := Input(None, None, None, None, false, None)

  /** Nothing can get stuck: in every reachable state the oldest operation may issue, or the
      one at the request stage is let through, or the oldest commits once its data is in. */
  lemma OldestMovesOn(n: nat, mem: seq<int>, ins: seq<Input>)
    requires |mem| > 0 && After(n, mem, ins).At? && |After(n, mem, ins).m.ops| > 0
    ensures var m := After(n, mem, ins).m;
      ShapeOk(n, m) && match m.ops[0].stage {
        case Waiting => MayIssue(m.ops, 0)
        case Issued =>
          |m.fifo| > 0 && exists i :: 0 <= i < |m.ops| && m.ops[i].uid == m.fifo[0] && Accepts(n, m, NOTHING, i)
        case Done => (m.ops[0].store ==> m.ops[0].dataIn) ==> Commits(n, m, COMMIT)
      }
  {
    RunKeeps(n, mem, ins);
    var m := After(n, mem, ins).m;
    hide After, ResultsOk, LogOk;
    match m.ops[0].stage {
      case Waiting =>
      case Issued => FrontAccepted(n, mem, m);
      case Done => assert TableOk(m.ops[0], m.t);
    }
  }

  lemma FrontAccepted(n: nat, mem: seq<int>, m: Machine)
    requires Inv(n, mem, m) && |m.ops| > 0 && m.ops[0].stage == Issued
    ensures |m.fifo| > 0 && exists i :: 0 <= i < |m.ops| && m.ops[i].uid == m.fifo[0] && Accepts(n, m, NOTHING, i)
  {
    hide ResultsOk, LogOk;
    assert m.ops[0].uid in m.fifo;
    var i :| 0 <= i < |m.ops| && m.ops[i].uid == m.fifo[0];
    if !m.ops[i].store {
      PendingExact(n, m, i);
      if OlderSeen(|m.mem|, m.ops, i) { OlderStoreDone(m.ops, m.fifo, i); }
    }
    hide TablesOk, FifoOk, OrderOk;
    assert Accepts(n, m, NOTHING, i);
  }

  lemma OlderStoreDone(ops: seq<Op>, fifo: seq<nat>, i: nat)
    requires FifoOk(ops, fifo) && OrderOk(ops, fifo) && i < |ops| && |fifo| > 0 && ops[i].uid == fifo[0]
      && !ops[i].store
    requires exists j :: 0 <= j < i && ops[j].store
    ensures ops[0].stage == Done
  {
    var j :| 0 <= j < i && ops[j].store;
    AtRequest(ops, fifo, i, j);
    if j > 0 { assert Conflict(ops[0], ops[j]) && Rank(ops[0].stage) >= Rank(ops[j].stage); }
  }

  /** Over every run, the request stage lets its load through exactly when no older
      uncommitted store is seen to overlap it and no store commits in that cycle, which
      would take the memory port; a store it always lets through. */
  lemma LetThroughIff(n: nat, mem: seq<int>, ins: seq<Input>, in_: Input, i: nat)
    requires |mem| > 0 && After(n, mem, ins).At?
    requires var m := After(n, mem, ins).m; i < |m.ops| && |m.fifo| > 0 && m.ops[i].uid == m.fifo[0]
    ensures var m := After(n, mem, ins).m;
      && ShapeOk(n, m)
      && var sends := in_.commit && m.ops[0].store && m.ops[0].stage == Done && m.ops[0].dataIn;
      (Accepts(n, m, in_, i) <==> m.ops[i].store || (!OlderSeen(|m.mem|, m.ops, i) && !sends))
  {
    RunKeeps(n, mem, ins);
    var m := After(n, mem, ins).m;
    hide After, ResultsOk, LogOk;
    if !m.ops[i].store { PendingExact(n, m, i); }
    assert TableOk(m.ops[0], m.t);
    hide FifoOk, OrderOk, TablesOk, OlderSeen;
  }

  /** Over every run, issuing a waiting operation keeps loads and stores in order exactly
      when the rule lets it issue: the rule is what program order needs, and no more. */
  lemma IssuesIff(n: nat, mem: seq<int>, ins: seq<Input>, i: nat)
    requires |mem| > 0 && After(n, mem, ins).At?
    requires i < |After(n, mem, ins).m.ops| && After(n, mem, ins).m.ops[i].stage == Waiting
    ensures var m := After(n, mem, ins).m;
      && ShapeOk(n, m)
      && (MayIssue(m.ops, i) <==> OrderOk(Issue(n, m, i).ops, Issue(n, m, i).fifo))
  {
    RunKeeps(n, mem, ins);
    var m := After(n, mem, ins).m;
    hide After, ResultsOk, LogOk;
    if MayIssue(m.ops, i) {
      OrderIssue(m.ops, m.fifo, i, m.ops[i].(stage := Issued));
    } else {
      var j :| 0 <= j < i && m.ops[j].stage == Waiting && (m.ops[j].store || m.ops[i].store);
      var a := Issue(n, m, i).ops;
      assert Conflict(a[j], a[i]) && Rank(a[j].stage) < Rank(a[i].stage);
    }
  }

  /** Over every run, an operation can be renamed exactly when it is new, inside memory, and,
      if a store, under an id no store in flight has; what waits in the pipe is in flight. */
  lemma RenamesIff(n: nat, mem: seq<int>, ins: seq<Input>, o: Op)
    requires |mem| > 0 && After(n, mem, ins).At?
    ensures var m := After(n, mem, ins).m;
      && ShapeOk(n, m)
      && (Enabled(n, m, NOTHING.(rename := Some(o))) <==>
            && o.stage == Waiting && !o.dataIn && o.result == []
            && o.size > 0 && o.addr + o.size <= |mem| && (o.store ==> |o.data| == o.size) && o.id < n
            && (forall i :: 0 <= i < |m.ops| ==>
                m.ops[i].uid != o.uid && (m.ops[i].store && o.store ==> m.ops[i].id != o.id)))
  {
    RunKeeps(n, mem, ins);
    var m := After(n, mem, ins).m;
    hide After, ResultsOk, OrderOk, TablesOk;
    assert |m.mem| == |mem|;
    forall i | 0 <= i < |m.ops|
      ensures m.ops[i].uid in Uids(m.ops) && (m.ops[i].store ==> m.ops[i].id in StoreIds(m.ops))
    {
    }
    if o.uid in m.fifo {
      var x :| 0 <= x < |m.fifo| && m.fifo[x] == o.uid;
      assert m.fifo[x] in Uids(m.ops);
    }
    hide FifoOk, LogOk;
  }

  /** Over every run, any cycle may follow: issue of what may issue, a request for what is at
      the front of the pipe, unless the overlap checker is blind to an older store of a load,
      data for any store that has none, a commit, a squash behind the head or, without one, a
      rename. */
  lemma AnyCycle(n: nat, mem: seq<int>, ins: seq<Input>, in_: Input)
    requires |mem| > 0 && After(n, mem, ins).At? && ShapeOk(n, After(n, mem, ins).m)
    requires var m := After(n, mem, ins).m;
      && (in_.issue.Some? ==> in_.issue.value < |m.ops| && MayIssue(m.ops, in_.issue.value))
      && (in_.request.Some? ==>
            && in_.request.value < |m.ops| && |m.fifo| > 0 && m.ops[in_.request.value].uid == m.fifo[0]
            && (m.ops[in_.request.value].store || SeesOlder(|m.mem|, m.ops, in_.request.value)))
      && (in_.data.Some? ==> in_.data.value < |m.ops| && m.ops[in_.data.value].store && !m.ops[in_.data.value].dataIn)
      && (in_.keep.Some? ==> in_.rename.None? && 0 < in_.keep.value <= |m.ops|)
      && (in_.rename.Some? ==> Enabled(n, m, NOTHING.(rename := in_.rename)))
    ensures After(n, mem, ins + [in_]).At?
  {
    RunKeeps(n, mem, ins);
    assert (ins + [in_])[..|ins|] == ins;
    hide ShapeOk, MayIssue, MayRename, SeesOlder, Next, FifoOk, OrderOk, ResultsOk, LogOk, TablesOk;
  }
}
