/** Every cycle keeps loads and stores in program order. */
module LoadStoreInvariant {
  import opened MemoryFlow
  import opened LoadStore

  // ----- Executing stores ---------------------------------------------------------------

  ghost predicate SameEffect(a: seq<Op>, b: seq<Op>) {
    |a| == |b| && forall i :: 0 <= i < |a| ==>
      a[i].store == b[i].store && a[i].addr == b[i].addr && a[i].size == b[i].size && a[i].data == b[i].data
  }

  lemma {:induction false} ExecuteSame(mem: seq<int>, a: seq<Op>, b: seq<Op>)
    requires AllIn(|mem|, a) && SameEffect(a, b)
    ensures AllIn(|mem|, b) && Execute(mem, a) == Execute(mem, b)
  {
    if |a| > 0 { ExecuteSame(mem, a[..|a| - 1], b[..|b| - 1]); }
  }

  /** The oldest operation executed first. */
  lemma {:induction false} ExecuteFirst(mem: seq<int>, ops: seq<Op>)
    requires AllIn(|mem|, ops) && |ops| > 0
    ensures AllIn(|mem|, ops[..1]) && AllIn(|mem|, ops[1..])
    ensures Execute(mem, ops) == Execute(Execute(mem, ops[..1]), ops[1..])
  {
    if |ops| == 1 {
      assert ops[..1] == ops && ops[1..] == [];
    } else {
      var pre := ops[..|ops| - 1];
      ExecuteFirst(mem, pre);
      assert pre[..1] == ops[..1] && ops[1..][..|ops| - 2] == pre[1..];
    }
  }

  lemma ExecuteOne(mem: seq<int>, o: Op)
    requires InMemory(|mem|, o)
    ensures AllIn(|mem|, [o]) && Execute(mem, [o]) == if o.store then Write(mem, o.addr, o.data) else mem
  {
    assert [o][..0] == [];
    assert Execute(mem, []) == mem;
  }

  ghost predicate Apart(a: Op, addr: nat, size: nat) { a.addr + a.size <= addr || addr + size <= a.addr }

  /** Stores that lie elsewhere do not matter to a read. */
  lemma {:induction false} ReadThrough(mem: seq<int>, ops: seq<Op>, addr: nat, size: nat)
    requires AllIn(|mem|, ops) && addr + size <= |mem|
    requires forall i :: 0 <= i < |ops| && ops[i].store ==> Apart(ops[i], addr, size)
    ensures Read(Execute(mem, ops), addr, size) == Read(mem, addr, size)
  {
    if |ops| > 0 {
      var o := ops[|ops| - 1];
      ReadThrough(mem, ops[..|ops| - 1], addr, size);
      var pre := Execute(mem, ops[..|ops| - 1]);
      if o.store {
        assert Apart(o, addr, size);
        ReadApart(pre, o.addr, o.data, addr, size);
      }
    }
  }

  lemma ReadApart(mem: seq<int>, at: nat, data: seq<int>, addr: nat, size: nat)
    requires at + |data| <= |mem| && addr + size <= |mem|
    requires at + |data| <= addr || addr + size <= at
    ensures Read(Write(mem, at, data), addr, size) == Read(mem, addr, size)
  {
  }

  // ----- A load at the request stage ------------------------------------------------------

  ghost predicate OlderOverlaps(ops: seq<Op>, i: nat)
    requires i < |ops|
  {
    exists j :: 0 <= j < i && ops[j].store && !Apart(ops[j], ops[i].addr, ops[i].size)
  }

  /** One that the checker is not blind to. */
  ghost predicate OlderSeen(m: nat, ops: seq<Op>, i: nat)
    requires i < |ops|
  {
    exists j :: 0 <= j < i && ops[j].store && !Apart(ops[j], ops[i].addr, ops[i].size)
                && !Blind(m, ops[i].addr, ops[i].size, ops[j].addr, ops[j].size)
  }

  lemma CheckerExact(m: nat, o: Op, addr: nat, size: nat)
    requires InMemory(m, o) && size > 0 && addr + size <= m
    ensures !Disjoint(m, addr, size, o.addr, o.size) <==> !Apart(o, addr, size) && !Blind(m, addr, size, o.addr, o.size)
  {
    OverlapExactIff(m, addr, size, o.addr, o.size);
    ShareIff(addr, size, o.addr, o.size);
    if Blind(m, addr, size, o.addr, o.size) { BlindMisses(m, addr, size, o.addr, o.size); }
    hide Disjoint, Share, Blind;
  }

  /** At the request stage, everything older that matters has been through, nothing younger
      that matters has. */
  lemma AtRequest(ops: seq<Op>, fifo: seq<nat>, i: nat, j: nat)
    requires FifoOk(ops, fifo) && OrderOk(ops, fifo) && i < |ops| && |fifo| > 0 && ops[i].uid == fifo[0]
    requires j < |ops| && j != i && Conflict(ops[i], ops[j])
    ensures ops[i].stage == Issued && (j < i <==> ops[j].stage == Done)
  {
    assert ops[i].stage == Issued;
    if j < i {
      assert Rank(ops[j].stage) >= 1 && Precedes(fifo, ops[j].uid, ops[i].uid);
      assert ops[j].uid !in fifo;
    } else {
      assert Rank(ops[i].stage) >= Rank(ops[j].stage);
    }
  }

  /** A load at the request stage is held back exactly by an older uncommitted store that
      overlaps it and is seen to. */
  lemma PendingExact(n: nat, m: Machine, i: nat)
    requires ShapeOk(n, m) && TablesOk(m.ops, m.t) && FifoOk(m.ops, m.fifo) && OrderOk(m.ops, m.fifo)
    requires i < |m.ops| && |m.fifo| > 0 && m.ops[i].uid == m.fifo[0] && !m.ops[i].store
    ensures m.t.Pending(|m.mem|, StoreIds(m.ops), m.ops[i].addr, m.ops[i].size) <==> OlderSeen(|m.mem|, m.ops, i)
  {
    var (o, size) := (m.ops[i], |m.mem|);
    forall j | 0 <= j < |m.ops| && m.ops[j].store
      ensures var s := m.ops[j];
        (m.t.addrValid[s.id] && !Disjoint(size, o.addr, o.size, m.t.addrs[s.id].0, m.t.addrs[s.id].1))
        <==> j < i && !Apart(s, o.addr, o.size) && !Blind(size, o.addr, o.size, s.addr, s.size)
    {
      AtRequest(m.ops, m.fifo, i, j);
      assert TableOk(m.ops[j], m.t);
      CheckerExact(size, m.ops[j], o.addr, o.size);
    }
    hide Disjoint, TablesOk, FifoOk, OrderOk, Apart, Blind;
    if m.t.Pending(size, StoreIds(m.ops), o.addr, o.size) {
      var k :| 0 <= k < |m.t.addrs| && k in StoreIds(m.ops) && m.t.addrValid[k]
          && !Disjoint(size, o.addr, o.size, m.t.addrs[k].0, m.t.addrs[k].1);
      var j :| 0 <= j < |m.ops| && m.ops[j].store && m.ops[j].id == k;
    }
    if OlderSeen(size, m.ops, i) {
      var j :| 0 <= j < i && m.ops[j].store && !Apart(m.ops[j], o.addr, o.size)
          && !Blind(size, o.addr, o.size, m.ops[j].addr, m.ops[j].size);
      assert m.ops[j].id in StoreIds(m.ops);
    }
  }

  // ----- One effect at a time -------------------------------------------------------------

  /** An update that leaves program order, addresses and store data alone. */
  ghost predicate Touches(a: Op, b: Op) {
    a.uid == b.uid && a.store == b.store && a.id == b.id && a.addr == b.addr && a.size == b.size && a.data == b.data
  }

  lemma ResultsTouched(mem: seq<int>, a: seq<Op>, i: nat, o: Op)
    requires AllIn(|mem|, a) && ResultsOk(mem, a) && i < |a| && Touches(a[i], o)
    requires o.store || o.stage != Done || (a[i].stage == Done && o.result == a[i].result)
             || o.result == Read(Execute(mem, a[..i]), o.addr, o.size)
    ensures AllIn(|mem|, a[i := o]) && ResultsOk(mem, a[i := o])
  {
    var b := a[i := o];
    forall j | 0 <= j < |b| && !b[j].store && b[j].stage == Done ensures ReadsInOrder(mem, b, j) {
      ExecuteSame(mem, a[..j], b[..j]);
      if j != i || (a[i].stage == Done && o.result == a[i].result) { assert ReadsInOrder(mem, a, j); }
    }
  }

  lemma DataKeeps(n: nat, init: seq<int>, m: Machine, j: nat)
    requires Inv(n, init, m) && j < |m.ops| && m.ops[j].store && !m.ops[j].dataIn
    ensures Inv(n, init, EnterData(n, m, j))
  {
    var o := m.ops[j].(dataIn := true);
    ResultsTouched(m.mem, m.ops, j, o);
    hide ResultsOk, LogOk;
    OrderTouched(m.ops, m.fifo, j, o);
    TablesData(n, m, j);
    hide OrderOk, FifoOk, TablesOk;
  }

  lemma OrderTouched(ops: seq<Op>, fifo: seq<nat>, i: nat, o: Op)
    requires FifoOk(ops, fifo) && OrderOk(ops, fifo) && i < |ops| && Touches(ops[i], o) && o.stage == ops[i].stage
    ensures FifoOk(ops[i := o], fifo) && OrderOk(ops[i := o], fifo)
  {
    hide Precedes;
    UidsSame(ops, ops[i := o]);
  }

  lemma UidsSame(a: seq<Op>, b: seq<Op>)
    requires |a| == |b| && forall i :: 0 <= i < |a| ==> a[i].uid == b[i].uid
    ensures Uids(a) == Uids(b)
  {
    forall u | u in Uids(a) ensures u in Uids(b) {
      var i :| 0 <= i < |a| && a[i].uid == u;
      assert b[i].uid == u;
    }
    forall u | u in Uids(b) ensures u in Uids(a) {
      var i :| 0 <= i < |b| && b[i].uid == u;
      assert a[i].uid == u;
    }
  }

  lemma TablesData(n: nat, m: Machine, j: nat)
    requires ShapeOk(n, m) && TablesOk(m.ops, m.t) && j < |m.ops| && m.ops[j].store && !m.ops[j].dataIn
    ensures TablesOk(EnterData(n, m, j).ops, EnterData(n, m, j).t)
  {
    var r := EnterData(n, m, j);
    forall i | 0 <= i < |r.ops| ensures TableOk(r.ops[i], r.t) {
      assert TableOk(m.ops[i], m.t);
    }
  }

  lemma TablesRequest(n: nat, m: Machine, i: nat)
    requires ShapeOk(n, m) && TablesOk(m.ops, m.t) && i < |m.ops| && |m.fifo| > 0
    ensures TablesOk(Request(n, m, i).ops, Request(n, m, i).t)
  {
    var r := Request(n, m, i);
    forall j | 0 <= j < |r.ops| ensures TableOk(r.ops[j], r.t) {
      assert TableOk(m.ops[j], m.t);
    }
  }

  lemma OrderRequest(ops: seq<Op>, fifo: seq<nat>, i: nat, o: Op)
    requires FifoOk(ops, fifo) && OrderOk(ops, fifo) && i < |ops| && |fifo| > 0 && ops[i].uid == fifo[0]
    requires Touches(ops[i], o) && o.stage == Done
    requires forall j, k :: 0 <= j < k < |ops| ==> ops[j].uid != ops[k].uid
    ensures FifoOk(ops[i := o], fifo[1..]) && OrderOk(ops[i := o], fifo[1..])
  {
    var (a, f) := (ops[i := o], fifo[1..]);
    UidsSame(ops, a);
    forall j | 0 <= j < |a| ensures a[j].uid in f <==> a[j].stage == Issued {
      if ops[j].uid in fifo {
        var x :| 0 <= x < |fifo| && fifo[x] == ops[j].uid;
        if x > 0 { assert f[x - 1] == ops[j].uid; }
      }
    }
    forall j, k | 0 <= j < k < |a| && Conflict(a[j], a[k])
      ensures Rank(a[j].stage) >= Rank(a[k].stage) && Precedes(f, a[j].uid, a[k].uid)
    {
      assert Rank(ops[j].stage) >= Rank(ops[k].stage) && Precedes(fifo, ops[j].uid, ops[k].uid);
      if k == i { AtRequest(ops, fifo, i, j); }
    }
  }

  /** A load that is let through reads what the stores before it leave. */
  lemma LoadReadsInOrder(n: nat, m: Machine, i: nat)
    requires ShapeOk(n, m) && TablesOk(m.ops, m.t) && FifoOk(m.ops, m.fifo) && OrderOk(m.ops, m.fifo)
    requires i < |m.ops| && |m.fifo| > 0 && m.ops[i].uid == m.fifo[0] && !m.ops[i].store
    requires !m.t.Pending(|m.mem|, StoreIds(m.ops), m.ops[i].addr, m.ops[i].size) && SeesOlder(|m.mem|, m.ops, i)
    ensures AllIn(|m.mem|, m.ops[..i])
    ensures Read(m.mem, m.ops[i].addr, m.ops[i].size) == Read(Execute(m.mem, m.ops[..i]), m.ops[i].addr, m.ops[i].size)
  {
    PendingExact(n, m, i);
    hide TablesOk, FifoOk, OrderOk, Blind;
    ReadThrough(m.mem, m.ops[..i], m.ops[i].addr, m.ops[i].size);
  }

  lemma RequestKeeps(n: nat, init: seq<int>, m: Machine, i: nat)
    requires Inv(n, init, m) && i < |m.ops| && |m.fifo| > 0 && m.ops[i].uid == m.fifo[0]
    requires m.ops[i].store
      || (!m.t.Pending(|m.mem|, StoreIds(m.ops), m.ops[i].addr, m.ops[i].size) && SeesOlder(|m.mem|, m.ops, i))
    ensures Inv(n, init, Request(n, m, i))
  {
    var o := Request(n, m, i).ops[i];
    if !m.ops[i].store { LoadReadsInOrder(n, m, i); }
    ResultsTouched(m.mem, m.ops, i, o);
    hide ResultsOk, LogOk, Execute;
    TablesRequest(n, m, i);
    OrderRequest(m.ops, m.fifo, i, o);
    hide OrderOk, FifoOk, TablesOk;
  }

  lemma OrderIssue(ops: seq<Op>, fifo: seq<nat>, i: nat, o: Op)
    requires FifoOk(ops, fifo) && OrderOk(ops, fifo) && i < |ops| && MayIssue(ops, i)
    requires Touches(ops[i], o) && o.stage == Issued
    requires forall j, k :: 0 <= j < k < |ops| ==> ops[j].uid != ops[k].uid
    ensures FifoOk(ops[i := o], fifo + [o.uid]) && OrderOk(ops[i := o], fifo + [o.uid])
  {
    var (a, f) := (ops[i := o], fifo + [o.uid]);
    UidsSame(ops, a);
    assert a[i].uid in Uids(a);
    forall j | 0 <= j < |a| ensures a[j].uid in f <==> a[j].stage == Issued {
      if j == i { assert f[|fifo|] == o.uid; }
      if ops[j].uid in fifo {
        var x :| 0 <= x < |fifo| && fifo[x] == ops[j].uid;
        assert f[x] == ops[j].uid;
      }
    }
    forall j, k | 0 <= j < k < |a| && Conflict(a[j], a[k])
      ensures Rank(a[j].stage) >= Rank(a[k].stage) && Precedes(f, a[j].uid, a[k].uid)
    {
      assert Rank(ops[j].stage) >= Rank(ops[k].stage) && Precedes(fifo, ops[j].uid, ops[k].uid);
    }
  }

  lemma IssueKeeps(n: nat, init: seq<int>, m: Machine, i: nat)
    requires Inv(n, init, m) && i < |m.ops| && MayIssue(m.ops, i)
    ensures Inv(n, init, Issue(n, m, i))
  {
    var o := m.ops[i].(stage := Issued);
    ResultsTouched(m.mem, m.ops, i, o);
    hide ResultsOk, LogOk;
    OrderIssue(m.ops, m.fifo, i, o);
    TablesIssue(n, m, i);
    hide OrderOk, FifoOk, TablesOk;
  }

  lemma TablesIssue(n: nat, m: Machine, i: nat)
    requires ShapeOk(n, m) && TablesOk(m.ops, m.t) && i < |m.ops| && m.ops[i].stage == Waiting
    ensures TablesOk(Issue(n, m, i).ops, Issue(n, m, i).t)
  {
    var r := Issue(n, m, i);
    forall j | 0 <= j < |r.ops| ensures TableOk(r.ops[j], r.t) {
      assert TableOk(m.ops[j], m.t);
    }
  }
}
