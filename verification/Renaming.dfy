/** The renaming engine as a state machine over the data-flow manager.

    `rob` is the program-ordered list of in-flight instructions.  Events may come in any
    order the guards allow: results are computed and written back out of order, branches
    resolve in any order, mispredictions and commit redirects interleave freely.  The
    log lists the committed instructions; `ExecAll` runs them one by one. */
module Renaming {
  import opened FreeLists
  import opened Dataflow

  /** An operand that an instruction does not use is modelled as x0. */
  datatype Instr = Instr(rs1: nat, rs2: nat, rd: nat, writes: bool, branch: bool, store: bool,
                         f: (Word, Word) -> Word)
  {
    predicate Writes() { writes && rd != 0 }
  }

  datatype Stage = Waiting | Computed(val: Word) | Done

  /** `spec` is the snapshot id while the branch is unresolved, `storeId` the id of a
      store, -1 for neither.  `mapAtRename` records the rename map just after renaming. */
  datatype InFlight = InFlight(ins: Instr, src1: nat, src2: nat, dst: nat, spec: int, storeId: int,
                               stage: Stage, mapAtRename: seq<nat>)

  datatype Machine = Machine(df: Dataflow, rob: seq<InFlight>, log: seq<Instr>, leaked: bool)

  datatype Event =
    | Rename(ins: Instr)
    | Compute(j: nat, forwarder: int)  // reads the operands of j; forwarder is bypassing its result, or -1
    | WriteBack(j: nat)
    | Correct(j: nat)
    | Mispredict(j: nat)
    | Commit(redirect: bool)
    | Except

  // ----- Sequential meaning ---------------------------------------------------------

  function Exec(regs: seq<Word>, ins: Instr): (r: seq<Word>)
    requires ins.rs1 < |regs| && ins.rs2 < |regs| && ins.rd < |regs|
    ensures |r| == |regs|
  {
    if ins.Writes() then regs[ins.rd := ins.f(regs[ins.rs1], regs[ins.rs2])] else regs
  }

  predicate Fits(ins: Instr, naregs: nat) {
    ins.rs1 < naregs && ins.rs2 < naregs && ins.rd < naregs
  }

  function ExecAll(naregs: nat, log: seq<Instr>): (r: seq<Word>)
    requires forall i :: 0 <= i < |log| ==> Fits(log[i], naregs)
    ensures |r| == naregs
  {
    if |log| == 0 then Repeat<Word>(naregs, 0)
    else
      assert Fits(log[|log| - 1], naregs);
      Exec(ExecAll(naregs, log[..|log| - 1]), log[|log| - 1])
  }

  ghost predicate AllFit(rob: seq<InFlight>, naregs: nat) {
    forall j :: 0 <= j < |rob| ==> Fits(rob[j].ins, naregs)
  }

  /** The registers after the k oldest in-flight instructions. */
  ghost function SpecAfter(regs: seq<Word>, rob: seq<InFlight>, k: nat): (r: seq<Word>)
    requires k <= |rob| && AllFit(rob, |regs|)
    ensures |r| == |regs|
  {
    if k == 0 then regs else Exec(SpecAfter(regs, rob, k - 1), rob[k - 1].ins)
  }

  /** What instruction j computes when everything before it ran in order. */
  ghost function ValueOf(regs: seq<Word>, rob: seq<InFlight>, j: nat): Word
    requires j < |rob| && AllFit(rob, |regs|)
  {
    var r := SpecAfter(regs, rob, j);
    rob[j].ins.f(r[rob[j].ins.rs1], r[rob[j].ins.rs2])
  }

  /** The rename map after the k oldest in-flight instructions. */
  ghost function MapAfter(m: seq<nat>, rob: seq<InFlight>, k: nat): (r: seq<nat>)
    requires k <= |rob| && AllFit(rob, |m|)
    ensures |r| == |m|
  {
    if k == 0 then m else
      var e := rob[k - 1];
      var p := MapAfter(m, rob, k - 1);
      if e.ins.Writes() then p[e.ins.rd := e.dst] else p
  }

  lemma {:induction false} AfterPrefix(regs: seq<Word>, m: seq<nat>, a: seq<InFlight>, b: seq<InFlight>, k: nat)
    requires k <= |a| && k <= |b| && |m| == |regs| && AllFit(a, |m|) && AllFit(b, |m|)
    requires forall i :: 0 <= i < k ==> a[i].ins == b[i].ins && a[i].dst == b[i].dst
    ensures MapAfter(m, a, k) == MapAfter(m, b, k) && SpecAfter(regs, a, k) == SpecAfter(regs, b, k)
  {
    if k > 0 { AfterPrefix(regs, m, a, b, k - 1); }
  }

  /** Retiring the oldest instruction into the base leaves every later point unchanged. */
  lemma {:induction false} AfterRetire(regs: seq<Word>, m: seq<nat>, rob: seq<InFlight>, k: nat)
    requires 0 < k <= |rob| && |m| == |regs| && AllFit(rob, |m|)
    ensures AllFit(rob[1..], |m|)
    ensures MapAfter(MapAfter(m, rob, 1), rob[1..], k - 1) == MapAfter(m, rob, k)
    ensures SpecAfter(Exec(regs, rob[0].ins), rob[1..], k - 1) == SpecAfter(regs, rob, k)
  {
    assert SpecAfter(regs, rob, 0) == regs;
    assert SpecAfter(regs, rob, 1) == Exec(regs, rob[0].ins);
    if k > 1 {
      AfterRetire(regs, m, rob, k - 1);
      assert rob[1..][k - 2] == rob[k - 1];
    }
  }

  // ----- The steps ------------------------------------------------------------------

  ghost predicate Ranged(c: Config, df: Dataflow, rob: seq<InFlight>) {
    && df.Shaped(c)
    && AllFit(rob, c.naregs)
    && (forall j :: 0 <= j < |rob| ==> rob[j].src1 < c.npregs && rob[j].src2 < c.npregs && rob[j].dst < c.npregs)
    && (forall j :: 0 <= j < |rob| ==> -1 <= rob[j].spec < c.nsnapshots)
    && (forall j :: 0 <= j < |rob| ==> -1 <= rob[j].storeId < c.nstores && (rob[j].ins.store ==> rob[j].storeId >= 0))
  }

  /** A source can be read when it is written back or being forwarded right now. */
  ghost predicate CanRead(m: Machine, tag: nat, forwarder: int)
    requires |m.df.ready| == |m.df.pregs| > tag
  {
    m.df.IsReady(tag)
        || (0 <= forwarder < |m.rob| && m.rob[forwarder].stage.Computed? && m.rob[forwarder].ins.writes
            && m.rob[forwarder].dst == tag)
  }

  ghost predicate Enabled(c: Config, m: Machine, e: Event) {
    && Ranged(c, m.df, m.rob)
    && match e {
      case Rename(ins) =>
        Fits(ins, c.naregs) && (ins.writes ==> m.df.regs.Ready())
        && (ins.store ==> m.df.stores.Ready()) && (ins.branch ==> m.df.snaps.Ready())
      case Compute(j, fw) =>
        j < |m.rob| && m.rob[j].stage.Waiting? && -1 <= fw < |m.rob| && (fw >= 0 ==> m.rob[fw].stage.Computed?)
        && CanRead(m, m.rob[j].src1, fw) && CanRead(m, m.rob[j].src2, fw)
      case WriteBack(j) => j < |m.rob| && m.rob[j].stage.Computed?
      case Correct(j) => j < |m.rob| && m.rob[j].spec >= 0
      case Mispredict(j) => j < |m.rob| && m.rob[j].spec >= 0
      case Commit(_) => |m.rob| > 0 && m.rob[0].stage.Done? && m.rob[0].spec == -1
      case Except => |m.rob| > 0
    }
  }

  ghost function Forwarded(m: Machine, fw: int): map<int, Word> {
    if 0 <= fw < |m.rob| && m.rob[fw].stage.Computed? && m.rob[fw].ins.writes && m.rob[fw].dst != m.df.Zero()
    then map[m.rob[fw].dst as int := m.rob[fw].stage.val] else map[]
  }

  ghost function Renamed(c: Config, df: Dataflow, ins: Instr): (d: Dataflow)
    requires df.Shaped(c) && Fits(ins, c.naregs)
    requires (ins.store ==> df.stores.Ready()) && (ins.branch ==> df.snaps.Ready())
    ensures d.Shaped(c)
  {
    var d1 := if ins.writes then df.GetDst(c, ins.rd) else df;
    var d2 := if ins.store then d1.GetStoreId(c) else d1;
    if ins.branch then d2.Snapshot(c) else d2
  }

  ghost function Entry(df: Dataflow, ins: Instr, rename: seq<nat>): InFlight
    requires ins.rs1 < |df.rename| && ins.rs2 < |df.rename| && |df.pregs| > 0 && df.DstTag(ins.rd) >= 0
  {
    InFlight(ins, df.GetSrc(ins.rs1), df.GetSrc(ins.rs2), if ins.writes then df.DstTag(ins.rd) else df.Zero(),
             if ins.branch then df.snaps.Index() else -1, if ins.store then df.stores.Index() else -1, Waiting, rename)
  }

  /** The head's effect on the committed state. */
  ghost function Retired(c: Config, m: Machine): (d: Dataflow)
    requires Ranged(c, m.df, m.rob) && |m.rob| > 0
    ensures d.Shaped(c)
  {
    var h := m.rob[0];
    var d1 := if h.ins.store then m.df.FreeStoreId(c, h.storeId) else m.df;
    if h.ins.writes then d1.Commit(c, h.dst, h.ins.rd) else d1
  }

  ghost predicate WillLeak(c: Config, df: Dataflow)
    requires df.Shaped(c)
  {
    df.archUsed[c.naregs - 1] && c.naregs - 1 !in ArchSet(df.aregs)
  }

  ghost function Next(c: Config, m: Machine, e: Event): Machine
    requires Enabled(c, m, e)
  {
    match e
    case Rename(ins) =>
      var d := Renamed(c, m.df, ins);
      m.(df := d, rob := m.rob + [Entry(m.df, ins, d.rename)])
    case Compute(j, fw) =>
      var x := m.rob[j];
      var v := x.ins.f(m.df.Read(x.src1, Forwarded(m, fw)), m.df.Read(x.src2, Forwarded(m, fw)));
      m.(rob := m.rob[j := x.(stage := Computed(v))])
    case WriteBack(j) =>
      var x := m.rob[j];
      m.(df := if x.ins.writes then m.df.Write(c, x.dst, x.stage.val) else m.df, rob := m.rob[j := x.(stage := Done)])
    case Correct(j) =>
      m.(df := m.df.FreeSnapshot(c, m.rob[j].spec), rob := m.rob[j := m.rob[j].(spec := -1)])
    case Mispredict(j) =>
      var id := m.rob[j].spec;
      m.(df := m.df.FreeSnapshot(c, id).Restore(c, id), rob := m.rob[..j] + [m.rob[j].(spec := -1)])
    case Commit(redirect) =>
      var d := Retired(c, m);
      if redirect
      then Machine(d.Rollback(c), [], m.log + [m.rob[0].ins], WillLeak(c, d))
      else Machine(d, m.rob[1..], m.log + [m.rob[0].ins], m.leaked)
    case Except => Machine(m.df.Rollback(c), [], m.log, WillLeak(c, m.df))
  }

  // ----- The invariant --------------------------------------------------------------

  /** The pregs backing aregs 1..naregs-1. */
  ghost function ArchSet(aregs: seq<nat>): set<nat> {
    set a | 1 <= a < |aregs| :: aregs[a]
  }

  ghost function Base(c: Config, aregs: seq<nat>, leaked: bool): set<nat>
    requires c.Ok()
  {
    ArchSet(aregs) + (if leaked then {(c.naregs - 1) as nat} else {})
  }

  ghost function Holds(c: Config, rob: seq<InFlight>): seq<int> {
    seq(|rob|, j requires 0 <= j < |rob| => if rob[j].dst == c.npregs - 1 then -1 else rob[j].dst)
  }

  ghost function Stores(rob: seq<InFlight>): seq<int> {
    seq(|rob|, j requires 0 <= j < |rob| => rob[j].storeId)
  }

  ghost function Lives(rob: seq<InFlight>): seq<int> {
    seq(|rob|, j requires 0 <= j < |rob| => rob[j].spec)
  }

  ghost predicate ListsExact(c: Config, df: Dataflow, rob: seq<InFlight>, leaked: bool) {
    && c.Ok()
    && Exact(df.regs, Holds(c, rob), Base(c, df.aregs, leaked), Lives(rob))
    && Exact(df.stores, Stores(rob), {}, Lives(rob))
    && Exact(df.snaps, Lives(rob), {}, Lives(rob))
  }

  function Tag(map_: seq<nat>, a: nat, zero: int): int
    requires a < |map_|
  {
    if a == 0 then zero else map_[a]
  }

  /** The tags and the recorded map of instruction j are the ones sequential renaming
      from the architectural map would give. */
  ghost predicate EntryOk(c: Config, aregs: seq<nat>, rob: seq<InFlight>, j: nat)
    requires j < |rob| && |aregs| == c.naregs && AllFit(rob, c.naregs)
  {
    var before := MapAfter(aregs, rob, j);
    var e := rob[j];
    && e.mapAtRename == MapAfter(aregs, rob, j + 1)
    && e.src1 == Tag(before, e.ins.rs1, c.npregs - 1)
    && e.src2 == Tag(before, e.ins.rs2, c.npregs - 1)
  }

  ghost predicate ShapeOk(c: Config, rob: seq<InFlight>) {
    forall j :: 0 <= j < |rob| ==>
      && (rob[j].ins.Writes() <==> rob[j].dst != c.npregs - 1)
      && (rob[j].ins.store <==> rob[j].storeId >= 0)
  }

  ghost predicate SavedOk(c: Config, saved: seq<seq<nat>>, rob: seq<InFlight>) {
    && |saved| == c.nsnapshots
    && forall j :: 0 <= j < |rob| && 0 <= rob[j].spec < c.nsnapshots ==> saved[rob[j].spec] == rob[j].mapAtRename
  }

  ghost predicate MapsOk(c: Config, df: Dataflow, rob: seq<InFlight>)
    requires df.Shaped(c) && AllFit(rob, c.naregs)
  {
    && df.rename == MapAfter(df.aregs, rob, |rob|)
    && (forall j :: 0 <= j < |rob| ==> EntryOk(c, df.aregs, rob, j))
    && SavedOk(c, df.saved, rob)
    && ShapeOk(c, rob)
  }

  ghost predicate ArchOk(c: Config, df: Dataflow, leaked: bool)
    requires df.Shaped(c)
  {
    && (forall a, b :: 1 <= a < b < c.naregs ==> df.aregs[a] != df.aregs[b])
    && (forall r :: 0 <= r < c.npregs - 1 && r != c.naregs - 1 ==> (df.archUsed[r] <==> r in ArchSet(df.aregs)))
    && (c.naregs - 1 in ArchSet(df.aregs) || leaked ==> df.archUsed[c.naregs - 1])
    && (leaked ==> c.naregs - 1 !in ArchSet(df.aregs))
  }

  ghost predicate LogFits(c: Config, m: Machine) {
    forall i :: 0 <= i < |m.log| ==> Fits(m.log[i], c.naregs)
  }

  ghost function Regs(c: Config, m: Machine): seq<Word>
    requires LogFits(c, m)
  {
    ExecAll(c.naregs, m.log)
  }

  ghost predicate ValuesOk(c: Config, df: Dataflow, rob: seq<InFlight>, regs: seq<Word>)
    requires df.Shaped(c) && AllFit(rob, c.naregs) && |regs| == c.naregs
    requires forall j :: 0 <= j < |rob| ==> rob[j].dst < c.npregs
  {
    && regs[0] == 0
    && (forall a :: 1 <= a < c.naregs ==> df.ready[df.aregs[a]] && df.pregs[df.aregs[a]] == regs[a])
    && (forall j :: 0 <= j < |rob| && rob[j].dst != c.npregs - 1 ==>
          && (df.ready[rob[j].dst] <==> rob[j].stage.Done?)
          && (rob[j].stage.Done? ==> df.pregs[rob[j].dst] == ValueOf(regs, rob, j)))
    && (forall j :: 0 <= j < |rob| && rob[j].stage.Computed? ==> rob[j].stage.val == ValueOf(regs, rob, j))
  }

  ghost predicate Inv(c: Config, m: Machine) {
    && Ranged(c, m.df, m.rob)
    && ListsExact(c, m.df, m.rob, m.leaked)
    && MapsOk(c, m.df, m.rob)
    && ArchOk(c, m.df, m.leaked)
    && LogFits(c, m)
    && ValuesOk(c, m.df, m.rob, Regs(c, m))
  }

  ghost function Init(c: Config): Machine
    requires c.Ok()
  {
    Machine(Reset(c), [], [], false)
  }

  // ----- Reads see sequential values ------------------------------------------------

  /** The youngest writer of areg a among the k oldest, or -1: its tag is what the map
      holds and its value is what sequential execution holds. */
  lemma {:induction false} Writer(regs: seq<Word>, map_: seq<nat>, rob: seq<InFlight>, k: nat, a: nat) returns (w: int)
    requires k <= |rob| && 1 <= a < |map_| == |regs| && AllFit(rob, |map_|)
    ensures -1 <= w < k
    ensures w == -1 ==> MapAfter(map_, rob, k)[a] == map_[a] && SpecAfter(regs, rob, k)[a] == regs[a]
    ensures w >= 0 ==> rob[w].ins.Writes() && MapAfter(map_, rob, k)[a] == rob[w].dst
                       && SpecAfter(regs, rob, k)[a] == ValueOf(regs, rob, w)
  {
    if k == 0 { return -1; }
    var e := rob[k - 1];
    if e.ins.Writes() && e.ins.rd == a { return k - 1; }
    w := Writer(regs, map_, rob, k - 1, a);
  }

  lemma {:induction false} SpecZero(regs: seq<Word>, rob: seq<InFlight>, k: nat)
    requires k <= |rob| && AllFit(rob, |regs|) && |regs| > 0 && regs[0] == 0
    ensures SpecAfter(regs, rob, k)[0] == 0
  {
    if k > 0 { SpecZero(regs, rob, k - 1); }
  }

  /** Two in-flight instructions with the same real destination are the same one. */
  lemma SameDst(c: Config, m: Machine, i: nat, j: nat)
    requires Ranged(c, m.df, m.rob) && Owns(m.df.regs, Holds(c, m.rob), Base(c, m.df.aregs, m.leaked))
    requires i < |m.rob| && j < |m.rob| && m.rob[i].dst == m.rob[j].dst != c.npregs - 1
    ensures i == j
  {
    var h := Holds(c, m.rob);
    assert h[i] == h[j] == m.rob[i].dst;
  }

  /** An in-flight destination never backs an architectural register. */
  lemma DstNotArch(c: Config, m: Machine, j: nat, a: nat)
    requires Ranged(c, m.df, m.rob) && Owns(m.df.regs, Holds(c, m.rob), Base(c, m.df.aregs, m.leaked))
    requires j < |m.rob| && 1 <= a < c.naregs && m.rob[j].dst != c.npregs - 1
    ensures m.rob[j].dst != m.df.aregs[a] && m.df.aregs[a] in Base(c, m.df.aregs, m.leaked)
  {
    assert m.df.aregs[a] in ArchSet(m.df.aregs);
    assert Holds(c, m.rob)[j] == m.rob[j].dst;
  }

  /** Whatever tag instruction k would use for areg a, a permitted read of that tag, with
      or without a forwarding neighbour, returns the sequential value. */
  lemma ReadExact(c: Config, m: Machine, regs: seq<Word>, k: nat, a: nat, fw: int)
    requires Ranged(c, m.df, m.rob) && Owns(m.df.regs, Holds(c, m.rob), Base(c, m.df.aregs, m.leaked))
      && |regs| == c.naregs
    requires ShapeOk(c, m.rob) && ValuesOk(c, m.df, m.rob, regs)
    requires k <= |m.rob| && a < c.naregs
    requires 0 <= Tag(MapAfter(m.df.aregs, m.rob, k), a, c.npregs - 1) < c.npregs
    requires CanRead(m, Tag(MapAfter(m.df.aregs, m.rob, k), a, c.npregs - 1), fw)
    ensures m.df.Read(Tag(MapAfter(m.df.aregs, m.rob, k), a, c.npregs - 1), Forwarded(m, fw)) ==
      SpecAfter(regs, m.rob, k)[a]
  {
    if a == 0 {
      SpecZero(regs, m.rob, k);
    } else {
      var w := Writer(regs, m.df.aregs, m.rob, k, a);
      if 0 <= fw < |m.rob| && m.rob[fw].dst != c.npregs - 1 {
        if w < 0 { DstNotArch(c, m, fw, a); }
        else if m.rob[fw].dst == m.rob[w].dst { SameDst(c, m, fw, w); }
      }
    }
  }
}
