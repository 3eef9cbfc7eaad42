/** Register files: layered write ports and one-cycle conflicts, against calls made one by
    one. */
module RegisterFiles {
  import opened Options

  type Word = int

  datatype Write = Write(addr: nat, data: Word)

  type Regs = seq<Word>

  predicate WritesFit(n: nat, writes: seq<Option<Write>>) {
    forall i :: 0 <= i < |writes| && writes[i].Some? ==> writes[i].value.addr < n
  }

  // ----- Calls one by one -----------------------------------------------------------------

  function WriteAll(regs: Regs, writes: seq<Option<Write>>): (r: Regs)
    requires WritesFit(|regs|, writes)
    ensures |r| == |regs|
  {
    if |writes| == 0 then regs
    else
      var p := WriteAll(regs, writes[..|writes| - 1]);
      var w := writes[|writes| - 1];
      if w.Some? then p[w.value.addr := w.value.data] else p
  }

  class RegisterFileFL {
    var regs: Regs

    constructor (reset: Regs)
      ensures regs == reset
    {
      regs := reset;
    }

    method Read(addr: nat) returns (data: Word)
      requires addr < |regs|
      ensures data == regs[addr]
    {
      data := regs[addr];
    }

    method Write(addr: nat, data: Word)
      requires addr < |regs|
      modifies this
      ensures regs == old(regs)[addr := data]
    {
      regs := regs[addr := data];
    }

    method Dump() returns (out: Regs)
      ensures out == regs
    {
      out := regs;
    }

    method Set(in_: Regs)
      modifies this
      ensures regs == in_
    {
      regs := in_;
    }

    /** The write ports in their order. */
    method WritePorts(writes: seq<Option<Write>>)
      requires WritesFit(|regs|, writes)
      modifies this
      ensures regs == WriteAll(old(regs), writes)
    {
      for i := 0 to |writes|
        invariant |regs| == old(|regs|) && WritesFit(|regs|, writes[..i]) && regs == WriteAll(old(regs), writes[..i])
      {
        assert writes[..i + 1][..i] == writes[..i];
        if writes[i].Some? { Write(writes[i].value.addr, writes[i].value.data); }
      }
      assert writes[..|writes|] == writes;
    }
  }

  // ----- Layers -----------------------------------------------------------------------------

  /** One register through the layers of the write ports: each either replaces it or passes
      on what the layer below made of it. */
  function Layer(regs: Regs, writes: seq<Option<Write>>, reg: nat, port: nat): Word
    requires reg < |regs| && port <= |writes|
  {
    if port == 0 then regs[reg]
    else if writes[port - 1].Some? && writes[port - 1].value.addr == reg then writes[port - 1].value.data
    else Layer(regs, writes, reg, port - 1)
  }

  lemma {:induction false} LayersAre(regs: Regs, writes: seq<Option<Write>>, reg: nat, port: nat)
    requires WritesFit(|regs|, writes) && reg < |regs| && port <= |writes|
    ensures WritesFit(|regs|, writes[..port]) && Layer(regs, writes, reg, port) == WriteAll(regs, writes[..port])[reg]
  {
    if port > 0 {
      LayersAre(regs, writes, reg, port - 1);
      assert writes[..port][..port - 1] == writes[..port - 1];
    }
  }

  /** A register holds what the last port that writes it writes, or what it held. */
  lemma {:induction false} LastWriteWins(regs: Regs, writes: seq<Option<Write>>, x: nat)
    requires WritesFit(|regs|, writes) && x < |regs|
    ensures |WriteAll(regs, writes)| == |regs|
    ensures forall p :: 0 <= p < |writes| && writes[p].Some? && writes[p].value.addr == x
              && (forall q :: p < q < |writes| && writes[q].Some? ==> writes[q].value.addr != x)
              ==> WriteAll(regs, writes)[x] == writes[p].value.data
    ensures (forall p :: 0 <= p < |writes| && writes[p].Some? ==> writes[p].value.addr != x)
              ==> WriteAll(regs, writes)[x] == regs[x]
  {
    if |writes| > 0 {
      var pre := writes[..|writes| - 1];
      assert forall p :: 0 <= p < |pre| ==> pre[p] == writes[p];
      LastWriteWins(regs, pre, x);
    }
  }

  /** With several ports on one register the last one wins, as in separate calls. */
  lemma LayersExact(regs: Regs, writes: seq<Option<Write>>)
    requires WritesFit(|regs|, writes)
    ensures seq(|regs|, i requires 0 <= i < |regs| => Layer(regs, writes, i, |writes|)) == WriteAll(regs, writes)
  {
    forall i | 0 <= i < |regs| ensures Layer(regs, writes, i, |writes|) == WriteAll(regs, writes)[i] {
      LayersAre(regs, writes, i, |writes|);
      assert writes[..|writes|] == writes;
    }
  }

  /** A read port sees the last value written before this cycle: no bypass. */
  class RegisterFile {
    const writeDumpBypass: bool
    var regs: Regs

    constructor (reset: Regs, writeDumpBypass: bool)
      ensures regs == reset && this.writeDumpBypass == writeDumpBypass
    {
      regs := reset;
      this.writeDumpBypass := writeDumpBypass;
    }

    method Read(addr: nat) returns (data: Word)
      requires addr < |regs|
      ensures data == regs[addr]
    {
      data := regs[addr];
    }

    /** The layers of all registers, port by port. */
    method AfterWrite(writes: seq<Option<Write>>) returns (r: Regs)
      requires WritesFit(|regs|, writes)
      ensures |r| == |regs| && r == WriteAll(regs, writes)
    {
      var layer := regs;
      for port := 0 to |writes|
        invariant |layer| == |regs| && forall i :: 0 <= i < |regs| ==> layer[i] == Layer(regs, writes, i, port)
      {
        var next: Regs := [];
        for reg := 0 to |regs|
          invariant |next| == reg && forall i :: 0 <= i < reg ==> next[i] == Layer(regs, writes, i, port + 1)
        {
          var hit := writes[port].Some? && writes[port].value.addr == reg;
          next := next + [if hit then writes[port].value.data else layer[reg]];
        }
        layer := next;
      }
      LayersExact(regs, writes);
      r := layer;
    }

    /** One clock tick: writes, dump before or after them, then set on top. */
    method Tick(writes: seq<Option<Write>>, set_: Option<Regs>) returns (dump: Regs)
      requires WritesFit(|regs|, writes) && (set_.Some? ==> |set_.value| == |regs|)
      modifies this
      ensures dump == if writeDumpBypass then WriteAll(old(regs), writes) else old(regs)
      ensures regs == if set_.Some? then set_.value else WriteAll(old(regs), writes)
    {
      var after := AfterWrite(writes);
      dump := if writeDumpBypass then after else regs;
      regs := if set_.Some? then set_.value else after;
    }
  }

  // ----- Snapshots ----------------------------------------------------------------------------

  datatype Snapshotting = Snapshotting(regs: Regs, snaps: seq<Regs>) {
    predicate Shaped() { forall i :: 0 <= i < |snaps| ==> |snaps[i]| == |regs| }

    function Snapshot(id: Option<nat>): Snapshotting
      requires id.Some? ==> id.value < |snaps|
    {
      if id.Some? then this.(snaps := snaps[id.value := regs]) else this
    }

    function Restore(id: Option<nat>): Snapshotting
      requires id.Some? ==> id.value < |snaps|
    {
      if id.Some? then this.(regs := snaps[id.value]) else this
    }

    function Set(in_: Option<Regs>): Snapshotting { if in_.Some? then this.(regs := in_.value) else this }

    function Write(writes: seq<Option<Write>>): Snapshotting
      requires WritesFit(|regs|, writes)
    {
      this.(regs := WriteAll(regs, writes))
    }
  }

  datatype Calls = Calls(writes: seq<Option<Write>>, snapshot: Option<nat>, restore: Option<nat>, set_: Option<Regs>)

  predicate Fits(s: Snapshotting, k: Calls) {
    && s.Shaped() && WritesFit(|s.regs|, k.writes)
    && (k.snapshot.Some? ==> k.snapshot.value < |s.snaps|) && (k.restore.Some? ==> k.restore.value < |s.snaps|)
    && (k.set_.Some? ==> |k.set_.value| == |s.regs|)
  }

  /** Separate calls in interface order: snapshot before or after the writes, then restore,
      then set. */
  function InOrder(bypass: bool, s: Snapshotting, k: Calls): Snapshotting
    requires Fits(s, k)
  {
    (if bypass then s.Write(k.writes).Snapshot(k.snapshot)
        else s.Snapshot(k.snapshot).Write(k.writes)).Restore(k.restore).Set(k.set_)
  }

  /** One cycle of the hardware.  The snapshot to restore from is read before this cycle's
      snapshot is stored, so restoring the one being taken is routed around. */
  function Tick(bypass: bool, s: Snapshotting, k: Calls): Snapshotting
    requires Fits(s, k)
  {
    var after := WriteAll(s.regs, k.writes);
    var dump := if bypass then after else s.regs;
    var same := k.snapshot.Some? && k.snapshot == k.restore;
    var restored := if k.restore.None? then s.regs else if !bypass && same then dump else s.snaps[k.restore.value];
    var shouldRestore := k.restore.Some? && !(bypass && same);
    Snapshotting(
      if k.set_.Some? then k.set_.value else if shouldRestore then restored else after,
      seq(|s.snaps|, i requires 0 <= i < |s.snaps| => if k.snapshot == Some(i) then dump else s.snaps[i]))
  }

  /** For every combination of calls in one cycle, the hardware does what the calls do one
      after the other. */
  lemma TickIsInOrder(bypass: bool, s: Snapshotting, k: Calls)
    requires Fits(s, k)
    ensures Tick(bypass, s, k) == InOrder(bypass, s, k) && InOrder(bypass, s, k).Shaped()
  {
    hide WriteAll;
    var (a, b) := (Tick(bypass, s, k), InOrder(bypass, s, k));
    assert |a.snaps| == |b.snaps|;
    forall i | 0 <= i < |a.snaps| ensures a.snaps[i] == b.snaps[i] { }
  }

  /** What a restore brings back: the registers as they were when that snapshot was taken,
      whatever was written, restored or set in the cycles between. */
  ghost function After(bypass: bool, s: Snapshotting, ks: seq<Calls>): Option<Snapshotting> {
    if |ks| == 0 then Some(s)
    else match After(bypass, s, ks[..|ks| - 1])
      case None => None
      case Some(t) => if Fits(t, ks[|ks| - 1]) then Some(Tick(bypass, t, ks[|ks| - 1])) else None
  }

  ghost predicate Untouched(id: nat, ks: seq<Calls>) { forall i :: 0 <= i < |ks| ==> ks[i].snapshot != Some(id) }

  lemma {:induction false} SnapshotKept(bypass: bool, s: Snapshotting, ks: seq<Calls>, id: nat)
    requires After(bypass, s, ks).Some? && id < |s.snaps| && Untouched(id, ks)
    ensures var t := After(bypass, s, ks).value; |t.snaps| == |s.snaps| && t.snaps[id] == s.snaps[id]
  {
    if |ks| > 0 {
      SnapshotKept(bypass, s, ks[..|ks| - 1], id);
      hide WriteAll;
    }
  }

  lemma RestoreBringsBack(bypass: bool, s: Snapshotting, k: Calls, ks: seq<Calls>, r: Calls, id: nat)
    requires Fits(s, k) && k.snapshot == Some(id) && Untouched(id, ks)
    requires After(bypass, Tick(bypass, s, k), ks).Some? && Fits(After(bypass, Tick(bypass, s, k), ks).value, r)
    requires r.restore == Some(id) && r.snapshot != Some(id) && r.set_.None?
    ensures Tick(bypass, After(bypass, Tick(bypass, s, k), ks).value, r).regs
         == if bypass then WriteAll(s.regs, k.writes) else s.regs
  {
    hide WriteAll, After;
    SnapshotKept(bypass, Tick(bypass, s, k), ks, id);
  }

  /** The method-by-method model, built on register files. */
  class SnapshottingRegisterFileFL {
    const bypass: bool
    const main: RegisterFileFL
    var snaps: seq<Regs>

    ghost function Value(): Snapshotting
      reads this, main
    {
      Snapshotting(main.regs, snaps)
    }

    constructor (reset: Regs, nsnapshots: nat, bypass: bool)
      ensures fresh(main) && this.bypass == bypass && Value().Shaped() && main.regs == reset && |snaps| == nsnapshots
    {
      this.bypass := bypass;
      main := new RegisterFileFL(reset);
      snaps := seq(nsnapshots, _ => seq(|reset|, _ => 0));
    }

    method Snapshot(id: nat)
      requires id < |snaps|
      modifies this
      ensures Value() == old(Value()).Snapshot(Some(id))
    {
      var out := main.Dump();
      snaps := snaps[id := out];
    }

    method Restore(id: nat)
      requires id < |snaps|
      modifies main
      ensures Value() == old(Value()).Restore(Some(id))
    {
      main.Set(snaps[id]);
    }

    /** The calls of one cycle in interface order do what one tick of the hardware does. */
    method Cycle(k: Calls)
      requires Fits(Value(), k)
      modifies this, main
      ensures Value() == Tick(bypass, old(Value()), k)
    {
      TickIsInOrder(bypass, Value(), k);
      hide WriteAll, Tick;
      if bypass { main.WritePorts(k.writes); }
      if k.snapshot.Some? { Snapshot(k.snapshot.value); }
      if !bypass { main.WritePorts(k.writes); }
      if k.restore.Some? { Restore(k.restore.value); }
      if k.set_.Some? { main.Set(k.set_.value); }
    }
  }

  /** The hardware: one register file and a row of snapshot registers. */
  class SnapshottingRegisterFile {
    const main: RegisterFile
    var snaps: seq<Regs>

    ghost function Value(): Snapshotting
      reads this, main
    {
      Snapshotting(main.regs, snaps)
    }

    constructor (reset: Regs, nsnapshots: nat, writeSnapshotBypass: bool)
      ensures fresh(main) && main.writeDumpBypass == writeSnapshotBypass
      ensures Value().Shaped() && main.regs == reset && |snaps| == nsnapshots
    {
      main := new RegisterFile(reset, writeSnapshotBypass);
      snaps := seq(nsnapshots, _ => seq(|reset|, _ => 0));
    }

    method Cycle(k: Calls)
      requires Fits(Value(), k)
      modifies this, main
      ensures Value() == InOrder(main.writeDumpBypass, old(Value()), k)
    {
      TickIsInOrder(main.writeDumpBypass, Value(), k);
      hide WriteAll, InOrder;
      var same := k.snapshot.Some? && k.snapshot == k.restore;
      var setIn := k.set_;
      if setIn.None? && k.restore.Some? {
        if !main.writeDumpBypass {
          setIn := Some(if same then main.regs else snaps[k.restore.value]);
        } else if !same {
          setIn := Some(snaps[k.restore.value]);
        }
      }
      var dump := main.Tick(k.writes, setIn);
      if k.snapshot.Some? { snaps := snaps[k.snapshot.value := dump]; }
      assert Value().snaps == Tick(main.writeDumpBypass, old(Value()), k).snaps;
    }
  }
}
