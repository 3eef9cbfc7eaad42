/** Loads and stores of the window, from rename to commit.

    A store reserves a table slot when renamed, enters its address through the in-order
    memory pipe and its data whenever that is computed, and reaches memory when it commits.
    A load reads memory from the middle of that pipe, as soon as no live store with a known
    address overlaps it. */
module LoadStore {
  import opened Options
  import opened MemoryFlow

  datatype Stage = Waiting | Issued | Done

  /** `data` is what a store writes, `result` what a load has read. */
  datatype Op = Op(uid: nat, store: bool, id: nat, addr: nat, size: nat, data: seq<int>,
                   stage: Stage, dataIn: bool, result: seq<int>)

  /** `ops` holds the uncommitted memory instructions in program order, `fifo` those between
      the memory issue queue and the request stage, `log` the committed ones. */
  datatype Machine = Machine(mem: seq<int>, ops: seq<Op>, fifo: seq<nat>, t: Tables, log: seq<Op>)

  /** One cycle; positions refer to `ops`.  `keep` is a squash that leaves that many. */
  datatype Input = Input(rename: Option<Op>, issue: Option<nat>, request: Option<nat>, data: Option<nat>, commit: bool,
      keep: Option<nat>)

  function StoreIds(ops: seq<Op>): set<nat> { set i | 0 <= i < |ops| && ops[i].store :: ops[i].id }

  function Uids(ops: seq<Op>): set<nat> { set i | 0 <= i < |ops| :: ops[i].uid }

  /** Inside memory, its last byte included. */
  predicate InMemory(m: nat, o: Op) { o.size > 0 && o.addr + o.size <= m && (o.store ==> |o.data| == o.size) }

  predicate FreshOp(o: Op) { o.stage == Waiting && !o.dataIn && o.result == [] }

  ghost predicate ShapeOk(n: nat, m: Machine) {
    && |m.mem| > 0 && m.t.Shaped(n)
    && (forall i :: 0 <= i < |m.ops| ==> InMemory(|m.mem|, m.ops[i]) && m.ops[i].id < n)
    && (forall i, j :: 0 <= i < j < |m.ops| ==> m.ops[i].uid != m.ops[j].uid)
    && (forall i, j :: 0 <= i < j < |m.ops| && m.ops[i].store && m.ops[j].store ==> m.ops[i].id != m.ops[j].id)
  }

  /** The tables describe exactly the live stores. */
  ghost predicate TableOk(o: Op, t: Tables) {
    o.store && t.Shaped(|t.addrs|) && o.id < |t.addrs| ==>
      && (t.addrValid[o.id] <==> o.stage == Done)
      && (o.stage == Done ==> t.addrs[o.id] == (o.addr, o.size))
      && (t.dataValid[o.id] <==> o.dataIn)
      && (o.dataIn ==> t.datas[o.id] == o.data)
  }

  ghost predicate TablesOk(ops: seq<Op>, t: Tables) {
    forall i :: 0 <= i < |ops| ==> TableOk(ops[i], t)
  }

  // ----- When things may happen -------------------------------------------------------

  /** What the ordered issue queue lets go: a store once nothing older waits, a load once
      no older store waits. */
  ghost predicate MayIssue(ops: seq<Op>, i: nat)
    requires i < |ops|
  {
    ops[i].stage == Waiting && forall j :: 0 <= j < i && ops[j].stage == Waiting ==> !ops[j].store && !ops[i].store
  }

  /** The head leaves when it has been through the pipe and, for a store, has its data. */
  ghost predicate Commits(n: nat, m: Machine, in_: Input)
    requires ShapeOk(n, m)
  {
    in_.commit && |m.ops| > 0 && m.ops[0].stage == Done && (m.ops[0].store ==> m.t.dataValid[m.ops[0].id])
  }

  ghost predicate SendsStore(n: nat, m: Machine, in_: Input)
    requires ShapeOk(n, m)
  {
    Commits(n, m, in_) && m.ops[0].store
  }

  /** The request stage accepts a store always, a load when nothing live overlaps and the
      memory port is not taken by a committing store. */
  ghost predicate Accepts(n: nat, m: Machine, in_: Input, i: nat)
    requires ShapeOk(n, m) && i < |m.ops|
  {
    m.ops[i].store || (!m.t.Pending(|m.mem|, StoreIds(m.ops), m.ops[i].addr, m.ops[i].size) && !SendsStore(n, m, in_))
  }

  /** A renamed operation is new, and a store's slot is one nobody holds. */
  ghost predicate MayRename(n: nat, m: Machine, o: Op) {
    && FreshOp(o) && InMemory(|m.mem|, o) && o.uid !in Uids(m.ops) && o.uid !in m.fifo
    && o.id < n && (o.store ==> o.id !in StoreIds(m.ops))
  }

  /** The overlap checker is right about the operation at i and every older store. */
  ghost predicate SeesOlder(m: nat, ops: seq<Op>, i: nat)
    requires i < |ops|
  {
    forall j :: 0 <= j < i && ops[j].store ==> !Blind(m, ops[i].addr, ops[i].size, ops[j].addr, ops[j].size)
  }

  ghost predicate Enabled(n: nat, m: Machine, in_: Input)
    requires ShapeOk(n, m)
  {
    && (in_.rename.Some? ==> in_.keep.None? && MayRename(n, m, in_.rename.value))
    && (in_.issue.Some? ==> in_.issue.value < |m.ops| && MayIssue(m.ops, in_.issue.value))
    && (in_.request.Some? ==> in_.request.value < |m.ops| && |m.fifo| > 0 && m.ops[in_.request.value].uid == m.fifo[0])
    && (in_.request.Some? && !m.ops[in_.request.value].store ==> SeesOlder(|m.mem|, m.ops, in_.request.value))
    && (in_.data.Some? ==> in_.data.value < |m.ops| && m.ops[in_.data.value].store && !m.ops[in_.data.value].dataIn)
    && (in_.keep.Some? ==> in_.keep.value <= |m.ops| && (Commits(n, m, in_) ==> in_.keep.value > 0))
  }

  // ----- Memory -------------------------------------------------------------------------

  function Read(mem: seq<int>, addr: nat, size: nat): seq<int>
    requires addr + size <= |mem|
  {
    mem[addr..addr + size]
  }

  function Write(mem: seq<int>, addr: nat, data: seq<int>): (r: seq<int>)
    requires addr + |data| <= |mem|
    ensures |r| == |mem|
  {
    mem[..addr] + data + mem[addr + |data|..]
  }

  ghost predicate AllIn(m: nat, ops: seq<Op>) { forall i :: 0 <= i < |ops| ==> InMemory(m, ops[i]) }

  /** Executing the stores of a list in program order. */
  ghost function Execute(mem: seq<int>, ops: seq<Op>): (r: seq<int>)
    requires AllIn(|mem|, ops)
    ensures |r| == |mem|
  {
    if |ops| == 0 then mem
    else
      var o := ops[|ops| - 1];
      var pre := Execute(mem, ops[..|ops| - 1]);
      if o.store then Write(pre, o.addr, o.data) else pre
  }

  // ----- The cycle ----------------------------------------------------------------------

  ghost function EnterData(n: nat, m: Machine, j: nat): (r: Machine)
    requires ShapeOk(n, m) && j < |m.ops|
    ensures ShapeOk(n, r)
  {
    m.(ops := m.ops[j := m.ops[j].(dataIn := true)], t := m.t.EnterData(m.ops[j].id, m.ops[j].data))
  }

  /** The request stage handles the operation at position i. */
  ghost function Request(n: nat, m: Machine, i: nat): (r: Machine)
    requires ShapeOk(n, m) && i < |m.ops| && |m.fifo| > 0
    ensures ShapeOk(n, r)
  {
    var o := m.ops[i];
    if o.store
        then m.(ops := m.ops[i := o.(stage := Done)], fifo := m.fifo[1..], t := m.t.EnterAddress(o.id, o.addr, o.size))
    else m.(ops := m.ops[i := o.(stage := Done, result := Read(m.mem, o.addr, o.size))], fifo := m.fifo[1..])
  }

  ghost function Issue(n: nat, m: Machine, i: nat): (r: Machine)
    requires ShapeOk(n, m) && i < |m.ops|
    ensures ShapeOk(n, r)
  {
    m.(ops := m.ops[i := m.ops[i].(stage := Issued)], fifo := m.fifo + [m.ops[i].uid])
  }

  /** The oldest leaves; a store writes what its slots of the tables `t` hold. */
  ghost function Commit(n: nat, m: Machine, t: Tables): (r: Machine)
    requires ShapeOk(n, m) && |m.ops| > 0 && t.Shaped(n)
    requires var o := m.ops[0]; o.store ==> t.addrs[o.id].0 + |t.datas[o.id]| <= |m.mem|
    ensures ShapeOk(n, r)
  {
    var o := m.ops[0];
    m.(mem := if o.store then Write(m.mem, t.addrs[o.id].0, t.datas[o.id]) else m.mem,
       ops := m.ops[1..], log := m.log + [o])
  }

  function Filtered(fifo: seq<nat>, keep: set<nat>): seq<nat> {
    if |fifo| == 0 then []
    else Filtered(fifo[..|fifo| - 1], keep) + (if fifo[|fifo| - 1] in keep then [fifo[|fifo| - 1]] else [])
  }

  ghost function Squash(n: nat, m: Machine, k: nat): (r: Machine)
    requires ShapeOk(n, m) && k <= |m.ops|
    ensures ShapeOk(n, r)
  {
    m.(ops := m.ops[..k], fifo := Filtered(m.fifo, Uids(m.ops[..k])))
  }

  ghost function Rename(n: nat, m: Machine, o: Op): (r: Machine)
    requires ShapeOk(n, m) && o.id < n
  {
    m.(ops := m.ops + [o], t := if o.store then m.t.RegisterStore(o.id) else m.t)
  }

  /** Data, request and issue of one cycle. */
  ghost function BeforeCommit(n: nat, m: Machine, in_: Input): (r: Machine)
    requires ShapeOk(n, m) && Enabled(n, m, in_)
    ensures ShapeOk(n, r) && |r.ops| == |m.ops| && r.mem == m.mem
    ensures |m.ops| > 0 ==> r.ops[0].store == m.ops[0].store && r.ops[0].id == m.ops[0].id
  {
    var m1 := if in_.data.Some? then EnterData(n, m, in_.data.value) else m;
    var m2 := if in_.request.Some? && Accepts(n, m, in_, in_.request.value) then Request(n, m1, in_.request.value)
        else m1;
    if in_.issue.Some? then Issue(n, m2, in_.issue.value) else m2
  }

  lemma CommitFits(n: nat, m: Machine, m3: Machine)
    requires ShapeOk(n, m) && TablesOk(m.ops, m.t) && |m.ops| > 0 && m.ops[0].stage == Done
    requires m.ops[0].store ==> m.t.dataValid[m.ops[0].id]
    requires |m3.ops| > 0 && m3.ops[0].store == m.ops[0].store && m3.ops[0].id == m.ops[0].id && m3.mem == m.mem
    ensures m3.ops[0].store ==> m.t.addrs[m3.ops[0].id].0 + |m.t.datas[m3.ops[0].id]| <= |m3.mem|
  {
    assert TableOk(m.ops[0], m.t);
  }

  ghost function AfterCommit(n: nat, m: Machine, in_: Input): (r: Machine)
    requires ShapeOk(n, m) && TablesOk(m.ops, m.t) && Enabled(n, m, in_)
    ensures ShapeOk(n, r) && |r.ops| == |m.ops| - (if Commits(n, m, in_) then 1 else 0)
  {
    var m3 := BeforeCommit(n, m, in_);
    if Commits(n, m, in_) then CommitFits(n, m, m3); Commit(n, m3, m.t) else m3
  }

  /** Everything a cycle may do at once, all conditions taken before it. */
  ghost function Next(n: nat, m: Machine, in_: Input): Machine
    requires ShapeOk(n, m) && TablesOk(m.ops, m.t) && Enabled(n, m, in_)
  {
    var m4 := AfterCommit(n, m, in_);
    if in_.keep.Some? then Squash(n, m4, in_.keep.value - if Commits(n, m, in_) then 1 else 0)
    else if in_.rename.Some? then Rename(n, m4, in_.rename.value)
    else m4
  }

  // ----- Invariant ----------------------------------------------------------------------

  function Rank(s: Stage): nat { match s { case Waiting => 0 case Issued => 1 case Done => 2 } }

  predicate Conflict(a: Op, b: Op) { a.store || b.store }

  ghost predicate Precedes(fifo: seq<nat>, a: nat, b: nat) {
    forall x, y :: 0 <= x < |fifo| && 0 <= y < |fifo| && fifo[x] == a && fifo[y] == b ==> x < y
  }

  ghost predicate FifoOk(ops: seq<Op>, fifo: seq<nat>) {
    && (forall x, y :: 0 <= x < y < |fifo| ==> fifo[x] != fifo[y])
    && (forall x :: 0 <= x < |fifo| ==> fifo[x] in Uids(ops))
    && (forall i :: 0 <= i < |ops| ==> (ops[i].uid in fifo <==> ops[i].stage == Issued))
  }

  /** Around a store, nothing overtakes: not in the queue, not in the pipe. */
  ghost predicate OrderOk(ops: seq<Op>, fifo: seq<nat>) {
    forall i, j :: 0 <= i < j < |ops| && Conflict(ops[i], ops[j]) ==>
      Rank(ops[i].stage) >= Rank(ops[j].stage) && Precedes(fifo, ops[i].uid, ops[j].uid)
  }

  /** What the load at i would read in program order. */
  ghost predicate ReadsInOrder(mem: seq<int>, ops: seq<Op>, i: nat)
    requires AllIn(|mem|, ops) && i < |ops|
  {
    ops[i].result == Read(Execute(mem, ops[..i]), ops[i].addr, ops[i].size)
  }

  ghost predicate ResultsOk(mem: seq<int>, ops: seq<Op>)
    requires AllIn(|mem|, ops)
  {
    forall i :: 0 <= i < |ops| && !ops[i].store && ops[i].stage == Done ==> ReadsInOrder(mem, ops, i)
  }

  /** Memory and every committed load are what program order gives. */
  ghost predicate LogOk(init: seq<int>, mem: seq<int>, log: seq<Op>) {
    && |init| == |mem| && AllIn(|init|, log)
    && mem == Execute(init, log)
    && forall i :: 0 <= i < |log| && !log[i].store ==> ReadsInOrder(init, log, i)
  }

  ghost predicate Inv(n: nat, init: seq<int>, m: Machine) {
    && ShapeOk(n, m) && TablesOk(m.ops, m.t) && FifoOk(m.ops, m.fifo) && OrderOk(m.ops, m.fifo)
        && ResultsOk(m.mem, m.ops) && LogOk(init, m.mem, m.log)
  }
}
