/** Commit, squash, rename; whole cycles and whole runs. */
module LoadStoreRuns {
  import opened Options
  import opened MemoryFlow
  import opened LoadStore
  import opened LoadStoreInvariant

  // ----- Commit -------------------------------------------------------------------------

  lemma ResultsCommit(mem: seq<int>, ops: seq<Op>, mem': seq<int>)
    requires AllIn(|mem|, ops) && ResultsOk(mem, ops) && |ops| > 0
    requires mem' == Execute(mem, ops[..1])
    ensures AllIn(|mem'|, ops[1..]) && ResultsOk(mem', ops[1..])
  {
    var w := ops[1..];
    assert AllIn(|mem'|, w);
    forall i | 0 <= i < |w| && !w[i].store && w[i].stage == Done ensures ReadsInOrder(mem', w, i) {
      assert ReadsInOrder(mem, ops, i + 1);
      var pre := ops[..i + 1];
      ExecuteFirst(mem, pre);
      assert pre[..1] == ops[..1] && pre[1..] == w[..i];
    }
  }

  lemma LogCommit(init: seq<int>, mem: seq<int>, log: seq<Op>, o: Op, mem': seq<int>)
    requires LogOk(init, mem, log) && InMemory(|mem|, o)
    requires mem' == if o.store then Write(mem, o.addr, o.data) else mem
    requires !o.store ==> o.result == Read(mem, o.addr, o.size)
    ensures LogOk(init, mem', log + [o])
  {
    var l := log + [o];
    assert l[..|log|] == log && AllIn(|init|, l);
    forall i | 0 <= i < |l| && !l[i].store ensures ReadsInOrder(init, l, i) {
      if i < |log| {
        assert ReadsInOrder(init, log, i);
        assert l[..i] == log[..i];
      }
    }
  }

  lemma FifoTail(ops: seq<Op>, fifo: seq<nat>)
    requires FifoOk(ops, fifo) && OrderOk(ops, fifo) && |ops| > 0 && ops[0].stage == Done
    ensures FifoOk(ops[1..], fifo) && OrderOk(ops[1..], fifo)
  {
    hide Precedes;
    forall x | 0 <= x < |fifo| ensures fifo[x] in Uids(ops[1..]) {
      var i :| 0 <= i < |ops| && ops[i].uid == fifo[x];
      assert ops[i].uid in fifo;
      assert ops[1..][i - 1].uid == fifo[x];
    }
  }

  lemma CommitKeeps(n: nat, init: seq<int>, m: Machine, t: Tables)
    requires Inv(n, init, m) && |m.ops| > 0 && m.ops[0].stage == Done && t.Shaped(n)
    requires var o := m.ops[0]; o.store ==> t.addrs[o.id] == (o.addr, o.size) && t.datas[o.id] == o.data
    ensures Inv(n, init, Commit(n, m, t))
  {
    var (o, mem') := (m.ops[0], Commit(n, m, t).mem);
    assert m.ops[..1] == [o];
    ExecuteOne(m.mem, o);
    ResultsCommit(m.mem, m.ops, mem');
    if !o.store { assert ReadsInOrder(m.mem, m.ops, 0) && m.ops[..0] == []; }
    LogCommit(init, m.mem, m.log, o, mem');
    hide ResultsOk, LogOk, Execute, Write;
    FifoTail(m.ops, m.fifo);
    hide OrderOk, FifoOk, TableOk;
  }

  // ----- Squash -------------------------------------------------------------------------

  lemma {:induction false} FilteredIn(fifo: seq<nat>, keep: set<nat>)
    requires forall x, y :: 0 <= x < y < |fifo| ==> fifo[x] != fifo[y]
    ensures forall u :: u in Filtered(fifo, keep) <==> u in fifo && u in keep
    ensures forall x, y :: 0 <= x < y < |Filtered(fifo, keep)| ==> Filtered(fifo, keep)[x] != Filtered(fifo, keep)[y]
  {
    if |fifo| > 0 {
      var pre := fifo[..|fifo| - 1];
      FilteredIn(pre, keep);
      assert fifo == pre + [fifo[|fifo| - 1]];
    }
  }

  lemma {:induction false} FilteredPrecedes(fifo: seq<nat>, keep: set<nat>, a: nat, b: nat)
    requires (forall x, y :: 0 <= x < y < |fifo| ==> fifo[x] != fifo[y]) && Precedes(fifo, a, b)
    ensures Precedes(Filtered(fifo, keep), a, b)
  {
    if |fifo| > 0 {
      var (pre, e) := (fifo[..|fifo| - 1], fifo[|fifo| - 1]);
      FilteredPrecedes(pre, keep, a, b);
      FilteredIn(pre, keep);
      assert e == a ==> b !in pre;
    }
  }

  lemma FifoSquash(ops: seq<Op>, fifo: seq<nat>, k: nat)
    requires FifoOk(ops, fifo) && OrderOk(ops, fifo) && k <= |ops|
    ensures FifoOk(ops[..k], Filtered(fifo, Uids(ops[..k]))) && OrderOk(ops[..k], Filtered(fifo, Uids(ops[..k])))
  {
    var keep := Uids(ops[..k]);
    FilteredIn(fifo, keep);
    hide Precedes, Filtered;
    forall i | 0 <= i < k ensures ops[i].uid in keep { assert ops[..k][i].uid == ops[i].uid; }
    forall i, j | 0 <= i < j < k && Conflict(ops[i], ops[j])
      ensures Precedes(Filtered(fifo, keep), ops[i].uid, ops[j].uid)
    {
      FilteredPrecedes(fifo, keep, ops[i].uid, ops[j].uid);
    }
  }

  lemma ResultsPrefix(mem: seq<int>, ops: seq<Op>, k: nat)
    requires AllIn(|mem|, ops) && ResultsOk(mem, ops) && k <= |ops|
    ensures AllIn(|mem|, ops[..k]) && ResultsOk(mem, ops[..k])
  {
    forall i | 0 <= i < k && !ops[i].store && ops[i].stage == Done ensures ReadsInOrder(mem, ops[..k], i) {
      assert ReadsInOrder(mem, ops, i);
      assert ops[..k][..i] == ops[..i];
    }
  }

  lemma SquashKeeps(n: nat, init: seq<int>, m: Machine, k: nat)
    requires Inv(n, init, m) && k <= |m.ops|
    ensures Inv(n, init, Squash(n, m, k))
  {
    ResultsPrefix(m.mem, m.ops, k);
    hide ResultsOk, LogOk;
    FifoSquash(m.ops, m.fifo, k);
    hide OrderOk, FifoOk, TableOk, Filtered;
  }

  // ----- Rename -------------------------------------------------------------------------

  lemma FifoRename(ops: seq<Op>, fifo: seq<nat>, o: Op)
    requires FifoOk(ops, fifo) && OrderOk(ops, fifo) && o.stage == Waiting && o.uid !in fifo
    ensures FifoOk(ops + [o], fifo) && OrderOk(ops + [o], fifo)
  {
    var a := ops + [o];
    forall x | 0 <= x < |fifo| ensures fifo[x] in Uids(a) {
      assert fifo[x] in Uids(ops);
      var i :| 0 <= i < |ops| && ops[i].uid == fifo[x];
      assert a[i].uid == fifo[x];
    }
    forall i, j | 0 <= i < j < |a| && Conflict(a[i], a[j])
      ensures Rank(a[i].stage) >= Rank(a[j].stage) && Precedes(fifo, a[i].uid, a[j].uid)
    {
      if j < |ops| { assert Rank(ops[i].stage) >= Rank(ops[j].stage) && Precedes(fifo, ops[i].uid, ops[j].uid); }
    }
  }

  lemma ResultsRename(mem: seq<int>, ops: seq<Op>, o: Op)
    requires AllIn(|mem|, ops) && ResultsOk(mem, ops) && InMemory(|mem|, o) && o.stage == Waiting
    ensures AllIn(|mem|, ops + [o]) && ResultsOk(mem, ops + [o])
  {
    var a := ops + [o];
    forall i | 0 <= i < |a| && !a[i].store && a[i].stage == Done ensures ReadsInOrder(mem, a, i) {
      assert ReadsInOrder(mem, ops, i);
      assert a[..i] == ops[..i];
    }
  }

  lemma TablesRename(n: nat, m: Machine, o: Op)
    requires ShapeOk(n, m) && TablesOk(m.ops, m.t) && MayRename(n, m, o)
    ensures ShapeOk(n, Rename(n, m, o)) && TablesOk(Rename(n, m, o).ops, Rename(n, m, o).t)
  {
    var r := Rename(n, m, o);
    forall i | 0 <= i < |m.ops| ensures m.ops[i].uid != o.uid && (m.ops[i].store && o.store ==> m.ops[i].id != o.id) {
      assert m.ops[i].uid in Uids(m.ops);
      assert m.ops[i].store ==> m.ops[i].id in StoreIds(m.ops);
    }
    forall i | 0 <= i < |r.ops| ensures TableOk(r.ops[i], r.t) {
      if i < |m.ops| { assert TableOk(m.ops[i], m.t); }
    }
  }

  lemma RenameKeeps(n: nat, init: seq<int>, m: Machine, o: Op)
    requires Inv(n, init, m) && MayRename(n, m, o)
    ensures Inv(n, init, Rename(n, m, o))
  {
    ResultsRename(m.mem, m.ops, o);
    hide ResultsOk, LogOk;
    FifoRename(m.ops, m.fifo, o);
    hide FifoOk, OrderOk;
    TablesRename(n, m, o);
    hide TablesOk, ShapeOk;
  }

  // ----- A whole cycle ------------------------------------------------------------------

  /** What the effects of a cycle before the commit leave alone. */
  ghost predicate Onward(a: Machine, b: Machine) {
    && a.mem == b.mem && |a.ops| == |b.ops|
    && forall i :: 0 <= i < |a.ops| ==> Touches(a.ops[i], b.ops[i]) && Rank(a.ops[i].stage) <= Rank(b.ops[i].stage)
  }

  lemma PendingSame(n: nat, m: Machine, j: nat, addr: nat, size: nat)
    requires ShapeOk(n, m) && j < |m.ops|
    ensures var r := EnterData(n, m, j);
      r.t.Pending(|r.mem|, StoreIds(r.ops), addr, size) <==> m.t.Pending(|m.mem|, StoreIds(m.ops), addr, size)
  {
    var r := EnterData(n, m, j);
    forall i | 0 <= i < |m.ops| ensures r.ops[i].store == m.ops[i].store && r.ops[i].id == m.ops[i].id { }
    assert StoreIds(r.ops) == StoreIds(m.ops);
    assert r.t.addrs == m.t.addrs && r.t.addrValid == m.t.addrValid;
  }

  lemma StepData(n: nat, init: seq<int>, m: Machine, in_: Input)
    requires Inv(n, init, m) && Enabled(n, m, in_)
    ensures var m1 := if in_.data.Some? then EnterData(n, m, in_.data.value) else m;
      && Inv(n, init, m1) && Onward(m, m1) && m1.fifo == m.fifo
      && (forall i :: 0 <= i < |m.ops| ==> m1.ops[i].stage == m.ops[i].stage)
      && (in_.request.Some? && Accepts(n, m, in_, in_.request.value) ==>
            m1.ops[in_.request.value].store
            || (!m1.t.Pending(|m1.mem|, StoreIds(m1.ops), m1.ops[in_.request.value].addr,
                m1.ops[in_.request.value].size)
                && SeesOlder(|m1.mem|, m1.ops, in_.request.value)))
  {
    if in_.data.Some? {
      DataKeeps(n, init, m, in_.data.value);
      if in_.request.Some? {
        PendingSame(n, m, in_.data.value, m.ops[in_.request.value].addr, m.ops[in_.request.value].size);
      }
    }
    hide TablesOk, FifoOk, OrderOk, ResultsOk, LogOk, Blind;
  }

  lemma StepRequest(n: nat, init: seq<int>, m: Machine, i: nat)
    requires Inv(n, init, m) && i < |m.ops| && |m.fifo| > 0 && m.ops[i].uid == m.fifo[0]
    requires m.ops[i].store
      || (!m.t.Pending(|m.mem|, StoreIds(m.ops), m.ops[i].addr, m.ops[i].size) && SeesOlder(|m.mem|, m.ops, i))
    ensures var r := Request(n, m, i);
      && Inv(n, init, r) && Onward(m, r) && m.ops[i].stage == Issued
      && r.fifo == m.fifo[1..] && forall j :: 0 <= j < |m.ops| && j != i ==> r.ops[j].stage == m.ops[j].stage
  {
    RequestKeeps(n, init, m, i);
    assert m.ops[i].uid in m.fifo;
    hide TablesOk, OrderOk, ResultsOk, LogOk;
  }

  lemma MayIssueStill(a: seq<Op>, b: seq<Op>, i: nat)
    requires |a| == |b| && i < |a| && MayIssue(a, i) && b[i].stage == Waiting
    requires forall j :: 0 <= j < |a| ==> Touches(a[j], b[j]) && Rank(a[j].stage) <= Rank(b[j].stage)
    ensures MayIssue(b, i)
  {
    forall j | 0 <= j < i && b[j].stage == Waiting ensures !b[j].store && !b[i].store {
      assert a[j].stage == Waiting;
    }
  }

  lemma StepIssue(n: nat, init: seq<int>, m: Machine, i: nat)
    requires Inv(n, init, m) && i < |m.ops| && MayIssue(m.ops, i)
    ensures var r := Issue(n, m, i);
      Inv(n, init, r) && Onward(m, r) && r.fifo == m.fifo + [m.ops[i].uid]
  {
    IssueKeeps(n, init, m, i);
    hide Inv;
  }

  lemma OnwardTrans(a: Machine, b: Machine, c: Machine)
    requires Onward(a, b) && Onward(b, c)
    ensures Onward(a, c)
  {
  }

  lemma BeforeCommitKeeps(n: nat, init: seq<int>, m: Machine, in_: Input)
    requires Inv(n, init, m) && Enabled(n, m, in_)
    ensures var r := BeforeCommit(n, m, in_);
      && Inv(n, init, r) && Onward(m, r)
      && forall u :: u in r.fifo ==> u in m.fifo || u in Uids(m.ops)
  {
    hide Inv, EnterData, Request, Issue, ShapeOk, Accepts, Uids, TablesOk, FifoOk, MayRename, StoreIds, Commits;
    InvParts(n, init, m);
    var takes := in_.request.Some? && Accepts(n, m, in_, in_.request.value);
    var m1 := if in_.data.Some? then EnterData(n, m, in_.data.value) else m;
    StepData(n, init, m, in_);
    var m2 := if takes then Request(n, m1, in_.request.value) else m1;
    if takes { StepRequest(n, init, m1, in_.request.value); }
    OnwardTrans(m, m1, m2);
    if in_.issue.Some? {
      var i := in_.issue.value;
      assert m2.ops[i].stage == Waiting;
      MayIssueStill(m.ops, m2.ops, i);
      StepIssue(n, init, m2, i);
      OnwardTrans(m, m2, Issue(n, m2, i));
      assert m2.ops[i].uid in Uids(m.ops) by { UidIn(m.ops, i); }
    }
  }

  lemma UidIn(ops: seq<Op>, i: nat)
    requires i < |ops|
    ensures ops[i].uid in Uids(ops)
  {
  }

  lemma StepCommit(n: nat, init: seq<int>, m: Machine, m3: Machine)
    requires Inv(n, init, m) && Inv(n, init, m3) && Onward(m, m3)
    requires |m.ops| > 0 && m.ops[0].stage == Done && (m.ops[0].store ==> m.t.dataValid[m.ops[0].id])
    ensures m3.ops[0].store ==> m.t.addrs[m3.ops[0].id].0 + |m.t.datas[m3.ops[0].id]| <= |m3.mem|
    ensures Inv(n, init, Commit(n, m3, m.t))
  {
    assert TableOk(m.ops[0], m.t) && Touches(m.ops[0], m3.ops[0]);
    CommitFits(n, m, m3);
    hide TablesOk, OrderOk, FifoOk, ResultsOk, LogOk;
    CommitKeeps(n, init, m3, m.t);
  }

  ghost predicate Shortened(m: Machine, m4: Machine, c: nat) {
    && c <= |m.ops| && |m4.mem| == |m.mem| && |m4.ops| == |m.ops| - c
    && (forall i :: 0 <= i < |m4.ops| ==> Touches(m.ops[i + c], m4.ops[i]))
    && (forall u :: u in m4.fifo ==> u in m.fifo || u in Uids(m.ops))
  }

  lemma StepRename(n: nat, init: seq<int>, m: Machine, m4: Machine, o: Op, c: nat)
    requires Inv(n, init, m4) && MayRename(n, m, o) && Shortened(m, m4, c)
    ensures Inv(n, init, Rename(n, m4, o))
  {
    forall i | 0 <= i < |m4.ops|
      ensures m4.ops[i].uid != o.uid && (m4.ops[i].store && o.store ==> m4.ops[i].id != o.id)
    {
      assert Touches(m.ops[i + c], m4.ops[i]);
      assert m.ops[i + c].uid in Uids(m.ops);
      assert m.ops[i + c].store ==> m.ops[i + c].id in StoreIds(m.ops);
    }
    hide Inv;
    RenameKeeps(n, init, m4, o);
  }

  lemma ToCommit(n: nat, init: seq<int>, m: Machine, in_: Input)
    requires Inv(n, init, m) && Enabled(n, m, in_)
    ensures Inv(n, init, AfterCommit(n, m, in_))
    ensures Shortened(m, AfterCommit(n, m, in_), if Commits(n, m, in_) then 1 else 0)
  {
    hide Inv, Uids, BeforeCommit, TablesOk, Enabled, Write, FifoOk;
    InvParts(n, init, m);
    BeforeCommitKeeps(n, init, m, in_);
    if Commits(n, m, in_) { StepCommit(n, init, m, BeforeCommit(n, m, in_)); }
    hide ShapeOk;
  }

  lemma InvParts(n: nat, init: seq<int>, m: Machine)
    requires Inv(n, init, m)
    ensures ShapeOk(n, m) && TablesOk(m.ops, m.t) && FifoOk(m.ops, m.fifo)
  {
  }

  /** A cycle, whatever happens in it together, keeps program order. */
  lemma NextKeeps(n: nat, init: seq<int>, m: Machine, in_: Input)
    requires Inv(n, init, m) && Enabled(n, m, in_)
    ensures Inv(n, init, Next(n, m, in_))
  {
    hide Inv, ShapeOk, TablesOk, AfterCommit, Commits, MayRename, Squash, Rename, Shortened, Uids, StoreIds;
    InvParts(n, init, m);
    ToCommit(n, init, m, in_);
    var (m4, c) := (AfterCommit(n, m, in_), if Commits(n, m, in_) then 1 else 0);
    if in_.keep.Some? {
      SquashKeeps(n, init, m4, in_.keep.value - c);
    } else if in_.rename.Some? {
      StepRename(n, init, m, m4, in_.rename.value, c);
    }
  }
}
