/** The data-flow manager: rename table, physical and architectural register files,
    and the three snapshotting free lists.  `Dataflow` is the abstract value with one
    function per interface method; `DataFlowManagerFL` is the stateful object. */
module Dataflow {
  import opened FreeLists

  type Word = int

  datatype Config = Config(naregs: nat, npregs: nat, nsnapshots: nat, nstores: nat) {
    /** The reset marking of aregs in `arch_used_pregs` must fit below the zero tag. */
    predicate Ok() { 1 <= naregs < npregs }
  }

  ghost predicate BoundedBy(s: seq<nat>, n: nat) {
    forall i :: 0 <= i < |s| ==> s[i] < n
  }

  datatype Dataflow = Dataflow(
    snaps: Tracked, regs: Tracked, stores: Tracked,
    archUsed: seq<bool>, rename: seq<nat>, saved: seq<seq<nat>>,
    pregs: seq<Word>, ready: seq<bool>, aregs: seq<nat>)
  {
    ghost predicate Shaped(c: Config) {
      && c.Ok()
      && snaps.Shaped(c.nsnapshots, c.nsnapshots)
      && regs.Shaped(c.npregs - 1, c.nsnapshots)
      && stores.Shaped(c.nstores, c.nsnapshots)
      && |archUsed| == c.npregs - 1
      && |pregs| == |ready| == c.npregs
      && |rename| == |aregs| == c.naregs
      && BoundedBy(rename, c.npregs - 1) && BoundedBy(aregs, c.npregs - 1)
      && |saved| == c.nsnapshots
      && forall i :: 0 <= i < |saved| ==> |saved[i]| == c.naregs && BoundedBy(saved[i], c.npregs - 1)
    }

    /** The highest tag stands for x0; it is never allocated, written or read. */
    function Zero(): int { |pregs| - 1 }

    function GetSrc(a: nat): int
      requires a < |rename|
    {
      if a == 0 then Zero() else rename[a]
    }

    function DstTag(a: nat): int {
      if a == 0 || !regs.Ready() then Zero() else regs.Index()
    }

    function GetDst(c: Config, a: nat): (d: Dataflow)
      requires Shaped(c) && a < c.naregs
      ensures d.Shaped(c)
    {
      if a == 0 || !regs.Ready() then this else
        var i := regs.Index();
        this.(regs := regs.Alloc(), rename := rename[a := i], ready := ready[i := false])
    }

    function GetStoreId(c: Config): (d: Dataflow)
      requires Shaped(c) && stores.Ready()
      ensures d.Shaped(c)
    {
      this.(stores := stores.Alloc())
    }

    function FreeStoreId(c: Config, id: nat): (d: Dataflow)
      requires Shaped(c) && id < c.nstores
      ensures d.Shaped(c)
    {
      this.(stores := stores.Free(id))
    }

    function Write(c: Config, tag: nat, value: Word): (d: Dataflow)
      requires Shaped(c) && tag < c.npregs
      ensures d.Shaped(c)
    {
      if tag == Zero() then this
      else this.(pregs := pregs[tag := value], ready := ready[tag := true])
    }

    function Commit(c: Config, tag: nat, a: nat): (d: Dataflow)
      requires Shaped(c) && tag < c.npregs && a < c.naregs
      ensures d.Shaped(c)
    {
      if tag == Zero() then this else
        this.(regs := regs.Free(aregs[a]), aregs := aregs[a := tag],
              archUsed := archUsed[aregs[a] := false][tag := true])
    }

    predicate IsReady(tag: nat)
      requires tag < |ready| == |pregs|
    {
      tag == Zero() || ready[tag]
    }

    function Read(tag: nat, forwarded: map<int, Word>): Word
      requires tag < |pregs|
    {
      if tag == Zero() then 0 else if tag in forwarded then forwarded[tag] else pregs[tag]
    }

    function Snapshot(c: Config): (d: Dataflow)
      requires Shaped(c) && snaps.Ready()
      ensures d.Shaped(c)
    {
      var id := snaps.Index();
      this.(snaps := snaps.Alloc().ResetTracking(id), regs := regs.ResetTracking(id),
            stores := stores.ResetTracking(id), saved := saved[id := rename])
    }

    function FreeSnapshot(c: Config, id: nat): (d: Dataflow)
      requires Shaped(c) && id < c.nsnapshots
      ensures d.Shaped(c)
    {
      this.(snaps := snaps.Free(id))
    }

    function Restore(c: Config, id: nat): (d: Dataflow)
      requires Shaped(c) && id < c.nsnapshots
      ensures d.Shaped(c)
    {
      this.(snaps := snaps.Revert(id), regs := regs.Revert(id), stores := stores.Revert(id), rename := saved[id])
    }

    function Rollback(c: Config): (d: Dataflow)
      requires Shaped(c)
      ensures d.Shaped(c)
    {
      this.(snaps := snaps.Set(Full(c.nsnapshots)), regs := regs.Set(Complement(archUsed)),
            stores := stores.Set(Full(c.nstores)), rename := aregs)
    }
  }

  /** x0 is backed by nothing (its entry is a don't-care), xn by preg n-1. */
  function InitialMap(naregs: nat): seq<nat> {
    seq(naregs, a => if a == 0 then 0 else a - 1)
  }

  function ArchUsedReset(c: Config): seq<bool>
    requires c.Ok()
  {
    seq(c.npregs - 1, i => i < c.naregs)
  }

  function Repeat<T>(n: nat, x: T): seq<T> { seq(n, _ => x) }

  function Reset(c: Config): (d: Dataflow)
    requires c.Ok()
    ensures d.Shaped(c)
  {
    Dataflow(
      Initial(c.nsnapshots, 0, c.nsnapshots), Initial(c.npregs - 1, c.naregs - 1, c.nsnapshots),
      Initial(c.nstores, 0, c.nsnapshots),
      ArchUsedReset(c), InitialMap(c.naregs), Repeat<seq<nat>>(c.nsnapshots, Repeat<nat>(c.naregs, 0)),
      Repeat<Word>(c.npregs, 0), Repeat(c.npregs, true), InitialMap(c.naregs))
  }

  // ---------------------------------------------------------------------------------

  class RenameTableFL {
    const zeroTag: nat
    var table: seq<nat>
    var saved: seq<seq<nat>>

    constructor (naregs: nat, npregs: nat, nsnapshots: nat)
      requires npregs > 0
      ensures zeroTag == npregs - 1 && table == InitialMap(naregs)
      ensures saved == Repeat<seq<nat>>(nsnapshots, Repeat<nat>(naregs, 0))
    {
      zeroTag := npregs - 1;
      table := InitialMap(naregs);
      saved := Repeat<seq<nat>>(nsnapshots, Repeat<nat>(naregs, 0));
    }

    method Lookup(areg: nat) returns (preg: nat)
      requires areg < |table|
      ensures preg == if areg == 0 then zeroTag else table[areg]
    {
      if areg == 0 { preg := zeroTag; } else { preg := table[areg]; }
    }

    method Update(areg: nat, preg: nat)
      requires areg < |table|
      modifies this`table
      ensures table == if areg == 0 then old(table) else old(table)[areg := preg]
    {
      if areg != 0 { table := table[areg := preg]; }
    }

    method Snapshot(id: nat)
      requires id < |saved|
      modifies this`saved
      ensures saved == old(saved)[id := table]
    {
      saved := saved[id := table];
    }

    method Restore(id: nat)
      requires id < |saved|
      modifies this`table
      ensures table == saved[id]
    {
      table := saved[id];
    }

    method Set(map_: seq<nat>)
      modifies this`table
      ensures table == map_
    {
      table := map_;
    }
  }

  class DataFlowManagerFL {
    const c: Config
    const snapshotAllocator: SnapshottingFreeListFL
    const freeRegs: SnapshottingFreeListFL
    const storeIds: SnapshottingFreeListFL
    const renameTable: RenameTableFL
    var archUsedPregs: seq<bool>
    var pregFile: seq<Word>
    var readyTable: seq<bool>
    var aregFile: seq<nat>
    var updated: seq<nat>
    var forwarded: map<int, Word>

    ghost function Repr(): set<object> {
      {this, snapshotAllocator, snapshotAllocator.freelist, freeRegs, freeRegs.freelist,
       storeIds, storeIds.freelist, renameTable}
    }

    ghost function Value(): Dataflow
      reads Repr()
    {
      Dataflow(snapshotAllocator.Value(), freeRegs.Value(), storeIds.Value(), archUsedPregs,
               renameTable.table, renameTable.saved, pregFile, readyTable, aregFile)
    }

    ghost predicate Valid()
      reads Repr()
    {
      && Value().Shaped(c)
      && renameTable.zeroTag == c.npregs - 1
      && snapshotAllocator != freeRegs && freeRegs != storeIds && storeIds != snapshotAllocator
      && snapshotAllocator.freelist != freeRegs.freelist && freeRegs.freelist != storeIds.freelist
      && storeIds.freelist != snapshotAllocator.freelist
    }

    constructor (c: Config)
      requires c.Ok()
      ensures Valid() && fresh(Repr()) && this.c == c
      ensures Value() == Reset(c) && updated == [] && forwarded == map[]
    {
      this.c := c;
      snapshotAllocator := new SnapshottingFreeListFL(c.nsnapshots, c.nsnapshots, 0);
      freeRegs := new SnapshottingFreeListFL(c.npregs - 1, c.nsnapshots, c.naregs - 1);
      storeIds := new SnapshottingFreeListFL(c.nstores, c.nsnapshots, 0);
      renameTable := new RenameTableFL(c.naregs, c.npregs, c.nsnapshots);
      archUsedPregs := ArchUsedReset(c);
      pregFile := Repeat<Word>(c.npregs, 0);
      readyTable := Repeat(c.npregs, true);
      aregFile := InitialMap(c.naregs);
      updated, forwarded := [], map[];
    }

    method FreeStoreId(id: nat)
      requires Valid() && id < c.nstores
      modifies Repr()
      ensures Valid() && Value() == old(Value()).FreeStoreId(c, id) && forwarded == old(forwarded)
        && updated == old(updated)
    {
      storeIds.Free(id);
    }

    method Commit(tag: nat, areg: nat)
      requires Valid() && tag < c.npregs && areg < c.naregs
      modifies Repr()
      ensures Valid() && Value() == old(Value()).Commit(c, tag, areg) && forwarded == old(forwarded)
        && updated == old(updated)
    {
      if tag == c.npregs - 1 { return; }
      var oldPreg := aregFile[areg];
      freeRegs.Free(oldPreg);
      aregFile := aregFile[areg := tag];
      archUsedPregs := archUsedPregs[oldPreg := false];
      archUsedPregs := archUsedPregs[tag := true];
    }

    method Write(tag: nat, value: Word)
      requires Valid() && tag < c.npregs
      modifies this
      ensures Valid() && Value() == old(Value()).Write(c, tag, value) && forwarded == old(forwarded)
      ensures updated == if tag == c.npregs - 1 then old(updated) else old(updated) + [tag]
    {
      if tag == c.npregs - 1 { return; }
      pregFile := pregFile[tag := value];
      readyTable := readyTable[tag := true];
      updated := updated + [tag];
    }

    method Forward(tag: nat, value: Word)
      requires Valid() && tag < c.npregs
      modifies this`forwarded
      ensures Valid() && Value() == old(Value())
      ensures forwarded == if tag == c.npregs - 1 then old(forwarded) else old(forwarded)[tag as int := value]
    {
      if tag == c.npregs - 1 { return; }
      forwarded := forwarded[tag as int := value];
    }

    /** The tags written back since the last call and those being forwarded, each on a port
        of its own. */
    method GetUpdated() returns (tags: seq<nat>, forwards: set<int>)
      requires Valid()
      modifies this`updated
      ensures Valid() && Value() == old(Value()) && forwarded == old(forwarded)
      ensures tags == old(updated) && forwards == forwarded.Keys && updated == []
    {
      tags, forwards := updated, forwarded.Keys;
      updated := [];
    }

    method ResetForwarded()
      requires Valid()
      modifies this`forwarded
      ensures Valid() && Value() == old(Value()) && forwarded == map[]
    {
      forwarded := map[];
    }

    method GetSrc(areg: nat) returns (preg: nat)
      requires Valid() && areg < c.naregs
      ensures preg == Value().GetSrc(areg)
    {
      preg := renameTable.Lookup(areg);
    }

    method GetStoreId() returns (id: nat)
      requires Valid() && storeIds.Value().Ready()
      modifies Repr()
      ensures Valid() && id == old(Value().stores.Index()) && Value() == old(Value()).GetStoreId(c)
      ensures forwarded == old(forwarded) && updated == old(updated)
    {
      id := storeIds.Alloc();
    }

    method GetDst(areg: nat) returns (tag: nat)
      requires Valid() && areg < c.naregs
      modifies Repr()
      ensures Valid() && tag == old(Value().DstTag(areg)) && Value() == old(Value()).GetDst(c, areg)
      ensures forwarded == old(forwarded) && updated == old(updated)
    {
      var rdy := freeRegs.AllocReady();
      if areg == 0 || !rdy {
        tag := c.npregs - 1;
        return;
      }
      tag := freeRegs.Alloc();
      renameTable.Update(areg, tag);
      readyTable := readyTable[tag := false];
    }

    method IsReady(tag: nat) returns (ready: bool)
      requires Valid() && tag < c.npregs
      ensures ready == Value().IsReady(tag)
    {
      if tag == c.npregs - 1 { ready := true; } else { ready := readyTable[tag]; }
    }

    method Read(tag: nat) returns (value: Word)
      requires Valid() && tag < c.npregs
      ensures value == Value().Read(tag, forwarded)
    {
      if tag == c.npregs - 1 { value := 0; }
      else if tag as int in forwarded { value := forwarded[tag as int]; }
      else { value := pregFile[tag]; }
    }

    method Snapshot() returns (id: nat)
      requires Valid() && snapshotAllocator.Value().Ready()
      modifies Repr()
      ensures Valid() && id == old(Value().snaps.Index()) && Value() == old(Value()).Snapshot(c)
      ensures forwarded == old(forwarded) && updated == old(updated)
    {
      id := snapshotAllocator.Alloc();
      snapshotAllocator.ResetAllocTracking(id);
      freeRegs.ResetAllocTracking(id);
      storeIds.ResetAllocTracking(id);
      renameTable.Snapshot(id);
    }

    method FreeSnapshot(id: nat)
      requires Valid() && id < c.nsnapshots
      modifies Repr()
      ensures Valid() && Value() == old(Value()).FreeSnapshot(c, id) && forwarded == old(forwarded)
        && updated == old(updated)
    {
      snapshotAllocator.Free(id);
    }

    method Restore(id: nat)
      requires Valid() && id < c.nsnapshots
      modifies Repr()
      ensures Valid() && Value() == old(Value()).Restore(c, id) && forwarded == old(forwarded)
        && updated == old(updated)
    {
      snapshotAllocator.RevertAllocs(id);
      freeRegs.RevertAllocs(id);
      storeIds.RevertAllocs(id);
      renameTable.Restore(id);
    }

    method Rollback()
      requires Valid()
      modifies Repr()
      ensures Valid() && Value() == old(Value()).Rollback(c) && forwarded == old(forwarded) && updated == old(updated)
    {
      snapshotAllocator.Set(Full(c.nsnapshots));
      var packed := [];
      var i := 0;
      while i < |archUsedPregs|
        invariant 0 <= i <= |archUsedPregs| && packed == archUsedPregs[..i]
        invariant freeRegs.Value() == old(freeRegs.Value()) && storeIds.Value() == old(storeIds.Value())
        invariant snapshotAllocator.Value() == old(snapshotAllocator.Value()).Set(Full(c.nsnapshots))
        invariant renameTable.table == old(renameTable.table) && renameTable.saved == old(renameTable.saved)
        invariant this.Value().archUsed == old(archUsedPregs) && pregFile == old(pregFile)
        invariant readyTable == old(readyTable) && aregFile == old(aregFile) && forwarded == old(forwarded)
          && updated == old(updated)
      {
        packed := packed + [archUsedPregs[i]];
        i := i + 1;
      }
      assert packed == archUsedPregs;
      freeRegs.Set(Complement(packed));
      storeIds.Set(Full(c.nstores));
      renameTable.Set(aregFile);
    }
  }
}
