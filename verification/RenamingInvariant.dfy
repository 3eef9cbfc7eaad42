/** Every event of the renaming engine keeps its invariant. */
module RenamingInvariant {
  import opened FreeLists
  import opened Dataflow
  import opened Renaming

  // ----- Changes that keep instructions and destinations -----------------------------

  ghost predicate SameProgram(a: seq<InFlight>, b: seq<InFlight>) {
    && |a| == |b|
    && forall i :: 0 <= i < |a| ==> a[i].ins == b[i].ins && a[i].dst == b[i].dst
  }

  lemma SameProgramMeans(regs: seq<Word>, map_: seq<nat>, a: seq<InFlight>, b: seq<InFlight>)
    requires SameProgram(a, b) && |map_| == |regs| && AllFit(a, |map_|)
    ensures AllFit(b, |map_|)
    ensures forall k :: 0 <= k <= |a| ==> MapAfter(map_, a, k) == MapAfter(map_, b, k)
    ensures forall k :: 0 <= k < |a| ==> ValueOf(regs, a, k) == ValueOf(regs, b, k)
  {
    forall k | 0 <= k <= |a|
      ensures MapAfter(map_, a, k) == MapAfter(map_, b, k) && SpecAfter(regs, a, k) == SpecAfter(regs, b, k)
    {
      AfterPrefix(regs, map_, a, b, k);
    }
  }

  lemma PrefixMeans(regs: seq<Word>, map_: seq<nat>, a: seq<InFlight>, b: seq<InFlight>)
    requires |a| <= |b| && SameProgram(a, b[..|a|]) && |map_| == |regs| && AllFit(b, |map_|)
    ensures AllFit(a, |map_|)
    ensures forall k :: 0 <= k <= |a| ==> MapAfter(map_, a, k) == MapAfter(map_, b, k)
    ensures forall k :: 0 <= k < |a| ==> ValueOf(regs, a, k) == ValueOf(regs, b, k)
  {
    forall k | 0 <= k < |a| ensures a[k].ins == b[k].ins && a[k].dst == b[k].dst {
      assert b[..|a|][k] == b[k];
    }
    forall k | 0 <= k <= |a|
      ensures MapAfter(map_, a, k) == MapAfter(map_, b, k) && SpecAfter(regs, a, k) == SpecAfter(regs, b, k)
    {
      AfterPrefix(regs, map_, a, b, k);
    }
  }

  lemma MapStep(map_: seq<nat>, rob: seq<InFlight>, k: nat)
    requires k < |rob| && AllFit(rob, |map_|)
    ensures MapAfter(map_, rob, k + 1) ==
            if rob[k].ins.Writes() then MapAfter(map_, rob, k)[rob[k].ins.rd := rob[k].dst] else MapAfter(map_, rob, k)
  {
  }

  // ----- The three holder lists under each change of the in-flight list --------------

  lemma ListsAppend(c: Config, rob: seq<InFlight>, e: InFlight)
    ensures Holds(c, rob + [e]) == Holds(c, rob) + [if e.dst == c.npregs - 1 then -1 else e.dst]
    ensures Stores(rob + [e]) == Stores(rob) + [e.storeId] && Lives(rob + [e]) == Lives(rob) + [e.spec]
  {
  }

  lemma ListsUpdate(c: Config, rob: seq<InFlight>, j: nat, e: InFlight)
    requires j < |rob| && e.dst == rob[j].dst && e.storeId == rob[j].storeId
    ensures Holds(c, rob[j := e]) == Holds(c, rob) && Stores(rob[j := e]) == Stores(rob)
    ensures Lives(rob[j := e]) == Lives(rob)[j := e.spec]
  {
  }

  lemma ListsCut(c: Config, rob: seq<InFlight>, k: nat)
    requires k <= |rob|
    ensures Holds(c, rob[..k]) == Holds(c, rob)[..k] && Stores(rob[..k]) == Stores(rob)[..k]
      && Lives(rob[..k]) == Lives(rob)[..k]
  {
  }

  lemma ListsTail(c: Config, rob: seq<InFlight>)
    requires |rob| > 0
    ensures Holds(c, rob[1..]) == Holds(c, rob)[1..] && Stores(rob[1..]) == Stores(rob)[1..]
      && Lives(rob[1..]) == Lives(rob)[1..]
  {
  }

  // ----- Rename ---------------------------------------------------------------------

  /** Renaming an instruction, field by field. */
  lemma RenamedFields(c: Config, df: Dataflow, ins: Instr)
    requires df.Shaped(c) && Fits(ins, c.naregs) && (ins.writes ==> df.regs.Ready())
    requires (ins.store ==> df.stores.Ready()) && (ins.branch ==> df.snaps.Ready())
    ensures var d := Renamed(c, df, ins); var id := df.snaps.Index();
      && d.regs == TakeAndOpen(df.regs, ins.Writes(), ins.branch, id)
      && d.stores == TakeAndOpen(df.stores, ins.store, ins.branch, id)
      && d.snaps == TakeAndOpen(df.snaps, ins.branch, ins.branch, id)
      && d.rename == (if ins.Writes() then df.rename[ins.rd := df.regs.Index()] else df.rename)
      && d.ready == (if ins.Writes() then df.ready[df.regs.Index() := false] else df.ready)
      && d.saved == (if ins.branch then df.saved[id := d.rename] else df.saved)
      && d.pregs == df.pregs && d.aregs == df.aregs && d.archUsed == df.archUsed
  {
  }

  /** What the new entry looks like next to the fields it was made from. */
  lemma EntryFields(c: Config, df: Dataflow, ins: Instr)
    requires df.Shaped(c) && Fits(ins, c.naregs) && (ins.writes ==> df.regs.Ready())
    requires (ins.store ==> df.stores.Ready()) && (ins.branch ==> df.snaps.Ready())
    ensures var e := Entry(df, ins, Renamed(c, df, ins).rename);
      && e.dst == (if ins.Writes() then df.regs.Index() else c.npregs - 1) && e.dst < c.npregs
      && e.src1 == Tag(df.rename, ins.rs1, c.npregs - 1) && e.src2 == Tag(df.rename, ins.rs2, c.npregs - 1)
      && e.src1 < c.npregs && e.src2 < c.npregs
      && e.spec == (if ins.branch then df.snaps.Index() else -1)
          && e.storeId == (if ins.store then df.stores.Index() else -1)
      && e.spec < c.nsnapshots && e.storeId < c.nstores
      && e.mapAtRename == Renamed(c, df, ins).rename && e.ins == ins && e.stage.Waiting?
      && (ins.Writes() ==> e.dst != c.npregs - 1)
  {
  }

  lemma RenameLists(c: Config, df: Dataflow, rob: seq<InFlight>, leaked: bool, ins: Instr, e: InFlight)
    requires df.Shaped(c) && Fits(ins, c.naregs) && (ins.writes ==> df.regs.Ready())
    requires (ins.store ==> df.stores.Ready()) && (ins.branch ==> df.snaps.Ready())
    requires ListsExact(c, df, rob, leaked) && e == Entry(df, ins, Renamed(c, df, ins).rename)
    ensures ListsExact(c, Renamed(c, df, ins), rob + [e], leaked)
    ensures ins.branch ==> Fresh(Lives(rob), df.snaps.Index())
  {
    hide Exact, Renamed, Entry, TakeAndOpen, Holds, Lives, Stores, Fresh;
    RenamedFields(c, df, ins);
    EntryFields(c, df, ins);
    ListsAppend(c, rob, e);
    if ins.branch { IndexFresh(df.snaps, Lives(rob)); }
    TakeAndOpenKeeps(df.regs, Holds(c, rob), Base(c, df.aregs, leaked), Lives(rob), ins.Writes(), ins.branch,
        df.snaps.Index());
    TakeAndOpenKeeps(df.stores, Stores(rob), {}, Lives(rob), ins.store, ins.branch, df.snaps.Index());
    TakeAndOpenKeeps(df.snaps, Lives(rob), {}, Lives(rob), ins.branch, ins.branch, df.snaps.Index());
  }

  /** EntryOk looks only at instruction j and the older ones. */
  lemma EntryOkMoves(c: Config, aregs: seq<nat>, a: seq<InFlight>, b: seq<InFlight>, j: nat)
    requires j < |a| && j < |b| && |aregs| == c.naregs && AllFit(a, c.naregs) && AllFit(b, c.naregs)
    requires forall i :: 0 <= i <= j ==> a[i].ins == b[i].ins && a[i].dst == b[i].dst
    requires b[j].src1 == a[j].src1 && b[j].src2 == a[j].src2 && b[j].mapAtRename == a[j].mapAtRename
    requires EntryOk(c, aregs, a, j)
    ensures EntryOk(c, aregs, b, j)
  {
    AfterPrefix(aregs, aregs, a, b, j);
    AfterPrefix(aregs, aregs, a, b, j + 1);
  }

  lemma RenameMaps(c: Config, df: Dataflow, rob: seq<InFlight>, ins: Instr, e: InFlight)
    requires df.Shaped(c) && Fits(ins, c.naregs) && (ins.writes ==> df.regs.Ready()) && AllFit(rob, c.naregs)
    requires (ins.store ==> df.stores.Ready())
      && (ins.branch ==> df.snaps.Ready() && Fresh(Lives(rob), df.snaps.Index()))
    requires MapsOk(c, df, rob) && e == Entry(df, ins, Renamed(c, df, ins).rename)
    ensures AllFit(rob + [e], c.naregs) && MapsOk(c, Renamed(c, df, ins), rob + [e])
  {
    hide Renamed, Entry, EntryOk, MapAfter;
    RenamedFields(c, df, ins);
    EntryFields(c, df, ins);
    var (d, rob', n) := (Renamed(c, df, ins), rob + [e], |rob|);
    AfterPrefix(df.aregs, df.aregs, rob, rob', n);
    MapStep(df.aregs, rob', n);
    forall j | 0 <= j < n ensures EntryOk(c, df.aregs, rob', j) { EntryOkMoves(c, df.aregs, rob, rob', j); }
    assert EntryOk(c, df.aregs, rob', n) by { NewEntryOk(c, df.aregs, rob', n); }
    forall j | 0 <= j < n && 0 <= rob[j].spec < c.nsnapshots ensures d.saved[rob[j].spec] == rob[j].mapAtRename {
      assert Lives(rob)[j] == rob[j].spec;
    }
  }

  lemma NewEntryOk(c: Config, aregs: seq<nat>, rob: seq<InFlight>, n: nat)
    requires n < |rob| && |aregs| == c.naregs && AllFit(rob, c.naregs)
    requires rob[n].src1 == Tag(MapAfter(aregs, rob, n), rob[n].ins.rs1, c.npregs - 1)
    requires rob[n].src2 == Tag(MapAfter(aregs, rob, n), rob[n].ins.rs2, c.npregs - 1)
    requires rob[n].mapAtRename == MapAfter(aregs, rob, n + 1)
    ensures EntryOk(c, aregs, rob, n)
  {
  }

  /** The slot about to be allocated backs no areg and no in-flight instruction. */
  lemma IndexUnused(c: Config, df: Dataflow, rob: seq<InFlight>, leaked: bool)
    requires Ranged(c, df, rob) && Owns(df.regs, Holds(c, rob), Base(c, df.aregs, leaked)) && df.regs.Ready()
    ensures forall a :: 1 <= a < c.naregs ==> df.aregs[a] != df.regs.Index()
    ensures forall j :: 0 <= j < |rob| ==> rob[j].dst != df.regs.Index()
  {
    forall a | 1 <= a < c.naregs ensures df.aregs[a] != df.regs.Index() {
      assert df.aregs[a] in Base(c, df.aregs, leaked);
    }
    forall j | 0 <= j < |rob| && rob[j].dst != c.npregs - 1 ensures rob[j].dst != df.regs.Index() {
      assert Holds(c, rob)[j] == rob[j].dst;
    }
  }

  lemma RenameValues(c: Config, df: Dataflow, rob: seq<InFlight>, ins: Instr, e: InFlight, regs: seq<Word>)
    requires Ranged(c, df, rob) && Fits(ins, c.naregs) && (ins.writes ==> df.regs.Ready())
    requires (ins.store ==> df.stores.Ready()) && (ins.branch ==> df.snaps.Ready())
    requires |regs| == c.naregs && ValuesOk(c, df, rob, regs)
    requires ins.Writes() ==> forall a :: 1 <= a < c.naregs ==> df.aregs[a] != df.regs.Index()
    requires ins.Writes() ==> forall j :: 0 <= j < |rob| ==> rob[j].dst != df.regs.Index()
    requires e == Entry(df, ins, Renamed(c, df, ins).rename)
    requires Ranged(c, Renamed(c, df, ins), rob + [e])
    ensures ValuesOk(c, Renamed(c, df, ins), rob + [e], regs)
  {
    hide Renamed, Entry, ValueOf, MapAfter;
    RenamedFields(c, df, ins);
    EntryFields(c, df, ins);
    assert (rob + [e])[..|rob|] == rob;
    PrefixMeans(regs, df.aregs, rob, rob + [e]);
  }

  lemma RenameRanged(c: Config, df: Dataflow, rob: seq<InFlight>, ins: Instr, e: InFlight)
    requires Ranged(c, df, rob) && Fits(ins, c.naregs) && (ins.writes ==> df.regs.Ready())
    requires (ins.store ==> df.stores.Ready()) && (ins.branch ==> df.snaps.Ready())
    requires e == Entry(df, ins, Renamed(c, df, ins).rename)
    ensures Ranged(c, Renamed(c, df, ins), rob + [e])
  {
    hide Renamed, Entry;
    EntryFields(c, df, ins);
  }

  lemma RenameKeeps(c: Config, m: Machine, ins: Instr)
    requires Inv(c, m) && Enabled(c, m, Rename(ins))
    ensures Inv(c, Next(c, m, Rename(ins)))
  {
    hide ListsExact, MapsOk, ValuesOk, Renamed, Entry;
    var d := Renamed(c, m.df, ins);
    RenamedFields(c, m.df, ins);
    var e := Entry(m.df, ins, d.rename);
    RenameRanged(c, m.df, m.rob, ins, e);
    RenameLists(c, m.df, m.rob, m.leaked, ins, e);
    RenameMaps(c, m.df, m.rob, ins, e);
    if ins.Writes() { OwnsOf(c, m); IndexUnused(c, m.df, m.rob, m.leaked); }
    RenameValues(c, m.df, m.rob, ins, e, Regs(c, m));
  }

  lemma OwnsOf(c: Config, m: Machine)
    requires ListsExact(c, m.df, m.rob, m.leaked)
    ensures Owns(m.df.regs, Holds(c, m.rob), Base(c, m.df.aregs, m.leaked))
  {
    hide Owns, Tracks;
  }

  // ----- Changing one entry: compute, write back, resolve ----------------------------

  ghost predicate SameEntry(a: InFlight, b: InFlight) {
    && b == a.(stage := b.stage, spec := b.spec)
    && (b.spec == a.spec || b.spec == -1)
  }

  ghost predicate SameMaps(a: Dataflow, b: Dataflow) {
    a.rename == b.rename && a.saved == b.saved && a.aregs == b.aregs && a.archUsed == b.archUsed
  }

  lemma UpdateMaps(c: Config, df: Dataflow, df': Dataflow, rob: seq<InFlight>, j: nat, e: InFlight)
    requires Ranged(c, df, rob) && MapsOk(c, df, rob) && df'.Shaped(c) && SameMaps(df, df')
    requires j < |rob| && SameEntry(rob[j], e)
    ensures Ranged(c, df', rob[j := e]) && MapsOk(c, df', rob[j := e])
  {
    hide EntryOk, MapAfter;
    var rob' := rob[j := e];
    AfterPrefix(df.aregs, df.aregs, rob, rob', |rob|);
    forall i | 0 <= i < |rob| ensures EntryOk(c, df.aregs, rob', i) { EntryOkMoves(c, df.aregs, rob, rob', i); }
  }

  lemma UpdateValuesOf(regs: seq<Word>, rob: seq<InFlight>, j: nat, e: InFlight)
    requires j < |rob| && e.ins == rob[j].ins && e.dst == rob[j].dst && AllFit(rob, |regs|)
    ensures AllFit(rob[j := e], |regs|)
    ensures forall i :: 0 <= i < |rob| ==> ValueOf(regs, rob[j := e], i) == ValueOf(regs, rob, i)
  {
    hide MapAfter, ValueOf;
    SameProgramMeans(regs, Repeat(|regs|, 0), rob, rob[j := e]);
  }

  lemma ComputeValue(c: Config, m: Machine, j: nat, fw: int)
    requires Inv(c, m) && Enabled(c, m, Compute(j, fw))
    ensures Next(c, m, Compute(j, fw)).rob[j].stage == Computed(ValueOf(Regs(c, m), m.rob, j))
  {
    hide MapAfter, SpecAfter, ListsExact, ValuesOk, ArchOk;
    OwnsOf(c, m);
    assert EntryOk(c, m.df.aregs, m.rob, j);
    hide Owns;
    ReadExact(c, m, Regs(c, m), j, m.rob[j].ins.rs1, fw);
    ReadExact(c, m, Regs(c, m), j, m.rob[j].ins.rs2, fw);
  }

  lemma ComputeValues(c: Config, df: Dataflow, rob: seq<InFlight>, j: nat, regs: seq<Word>)
    requires Ranged(c, df, rob) && |regs| == c.naregs && ValuesOk(c, df, rob, regs)
    requires j < |rob| && rob[j].stage.Waiting?
    ensures var rob' := rob[j := rob[j].(stage := Computed(ValueOf(regs, rob, j)))];
      Ranged(c, df, rob') && ValuesOk(c, df, rob', regs)
  {
    hide ValueOf;
    UpdateValuesOf(regs, rob, j, rob[j].(stage := Computed(ValueOf(regs, rob, j))));
  }

  lemma RestageLists(c: Config, df: Dataflow, df': Dataflow, rob: seq<InFlight>, leaked: bool, j: nat, stage: Stage)
    requires ListsExact(c, df, rob, leaked) && j < |rob|
    requires df'.regs == df.regs && df'.stores == df.stores && df'.snaps == df.snaps && df'.aregs == df.aregs
    ensures ListsExact(c, df', rob[j := rob[j].(stage := stage)], leaked)
  {
    hide Exact;
    ListsUpdate(c, rob, j, rob[j].(stage := stage));
    assert Lives(rob)[j := rob[j].spec] == Lives(rob);
  }

  lemma ComputeKeeps(c: Config, m: Machine, j: nat, fw: int)
    requires Inv(c, m) && Enabled(c, m, Compute(j, fw))
    ensures Inv(c, Next(c, m, Compute(j, fw)))
  {
    var m' := Next(c, m, Compute(j, fw));
    ComputeValue(c, m, j, fw);
    hide ListsExact, MapsOk, ValuesOk, ArchOk, ValueOf;
    RestageLists(c, m.df, m.df, m.rob, m.leaked, j, m'.rob[j].stage);
    UpdateMaps(c, m.df, m.df, m.rob, j, m'.rob[j]);
    ComputeValues(c, m.df, m.rob, j, Regs(c, m));
  }

  lemma WriteBackValues(c: Config, df: Dataflow, rob: seq<InFlight>, j: nat, regs: seq<Word>)
    requires Ranged(c, df, rob) && |regs| == c.naregs && ValuesOk(c, df, rob, regs) && ShapeOk(c, rob)
    requires j < |rob| && rob[j].stage.Computed?
    requires rob[j].dst != c.npregs - 1 ==> forall a :: 1 <= a < c.naregs ==> df.aregs[a] != rob[j].dst
    requires rob[j].dst != c.npregs - 1 ==> forall i :: 0 <= i < |rob| && i != j ==> rob[i].dst != rob[j].dst
    ensures var df' := if rob[j].ins.writes then df.Write(c, rob[j].dst, rob[j].stage.val) else df;
      var rob' := rob[j := rob[j].(stage := Done)];
      Ranged(c, df', rob') && ValuesOk(c, df', rob', regs)
  {
    hide ValueOf;
    UpdateValuesOf(regs, rob, j, rob[j].(stage := Done));
  }

  lemma DstUnique(c: Config, m: Machine, j: nat)
    requires Ranged(c, m.df, m.rob) && Owns(m.df.regs, Holds(c, m.rob), Base(c, m.df.aregs, m.leaked))
    requires j < |m.rob| && m.rob[j].dst != c.npregs - 1
    ensures forall a :: 1 <= a < c.naregs ==> m.df.aregs[a] != m.rob[j].dst
    ensures forall i :: 0 <= i < |m.rob| && i != j ==> m.rob[i].dst != m.rob[j].dst
  {
    hide Owns;
    forall a | 1 <= a < c.naregs ensures m.df.aregs[a] != m.rob[j].dst { DstNotArch(c, m, j, a); }
    forall i | 0 <= i < |m.rob| && i != j ensures m.rob[i].dst != m.rob[j].dst {
      if m.rob[i].dst == m.rob[j].dst { SameDst(c, m, i, j); }
    }
  }

  lemma WriteBackKeeps(c: Config, m: Machine, j: nat)
    requires Inv(c, m) && Enabled(c, m, WriteBack(j))
    ensures Inv(c, Next(c, m, WriteBack(j)))
  {
    hide ListsExact, ValuesOk, EntryOk, SavedOk, Owns;
    var m' := Next(c, m, WriteBack(j));
    OwnsOf(c, m);
    if m.rob[j].dst != c.npregs - 1 { DstUnique(c, m, j); }
    RestageLists(c, m.df, m'.df, m.rob, m.leaked, j, Done);
    UpdateMaps(c, m.df, m'.df, m.rob, j, m'.rob[j]);
    WriteBackValues(c, m.df, m.rob, j, Regs(c, m));
  }

  lemma CorrectLists(c: Config, df: Dataflow, rob: seq<InFlight>, leaked: bool, j: nat)
    requires Ranged(c, df, rob) && ListsExact(c, df, rob, leaked) && j < |rob| && rob[j].spec >= 0
    ensures ListsExact(c, df.FreeSnapshot(c, rob[j].spec), rob[j := rob[j].(spec := -1)], leaked)
  {
    hide Exact, Dataflow.Shaped;
    var lv := Lives(rob);
    ListsUpdate(c, rob, j, rob[j].(spec := -1));
    CloseKeeps(df.regs, Holds(c, rob), Base(c, df.aregs, leaked), lv, j);
    CloseKeeps(df.stores, Stores(rob), {}, lv, j);
    ResolvedSnapsKeep(df.snaps, lv, j);
  }

  lemma RelabelValues(c: Config, df: Dataflow, df': Dataflow, rob: seq<InFlight>, j: nat, regs: seq<Word>)
    requires Ranged(c, df, rob) && |regs| == c.naregs && ValuesOk(c, df, rob, regs) && j < |rob|
    requires df'.Shaped(c) && df'.pregs == df.pregs && df'.ready == df.ready && df'.aregs == df.aregs
    ensures var rob' := rob[j := rob[j].(spec := -1)]; Ranged(c, df', rob') && ValuesOk(c, df', rob', regs)
  {
    hide ValueOf;
    UpdateValuesOf(regs, rob, j, rob[j].(spec := -1));
  }

  lemma CorrectKeeps(c: Config, m: Machine, j: nat)
    requires Inv(c, m) && Enabled(c, m, Correct(j))
    ensures Inv(c, Next(c, m, Correct(j)))
  {
    hide ListsExact, ValuesOk, MapsOk;
    var m' := Next(c, m, Correct(j));
    CorrectLists(c, m.df, m.rob, m.leaked, j);
    UpdateMaps(c, m.df, m'.df, m.rob, j, m'.rob[j]);
    RelabelValues(c, m.df, m'.df, m.rob, j, Regs(c, m));
  }

  // ----- Misprediction: cut, then change the last entry -------------------------------

  lemma MispredictLists(c: Config, df: Dataflow, rob: seq<InFlight>, leaked: bool, j: nat)
    requires Ranged(c, df, rob) && ListsExact(c, df, rob, leaked) && j < |rob| && rob[j].spec >= 0
    ensures var id := rob[j].spec;
      ListsExact(c, df.FreeSnapshot(c, id).Restore(c, id), rob[..j + 1][j := rob[j].(spec := -1)], leaked)
  {
    hide Exact, Dataflow.Shaped;
    var lv := Lives(rob);
    ListsCut(c, rob, j + 1);
    ListsUpdate(c, rob[..j + 1], j, rob[j].(spec := -1));
    RestoredKeeps(df.regs, Holds(c, rob), Base(c, df.aregs, leaked), lv, j);
    RestoredKeeps(df.stores, Stores(rob), {}, lv, j);
    RestoredSnapsKeep(df.snaps, lv, j);
  }

  lemma CutMaps(c: Config, df: Dataflow, df': Dataflow, rob: seq<InFlight>, j: nat)
    requires Ranged(c, df, rob) && MapsOk(c, df, rob) && j < |rob|
    requires df'.Shaped(c)
      && df' == df.(rename := rob[j].mapAtRename, regs := df'.regs, stores := df'.stores, snaps := df'.snaps)
    ensures Ranged(c, df', rob[..j + 1]) && MapsOk(c, df', rob[..j + 1])
  {
    hide MapAfter;
    var rob' := rob[..j + 1];
    AfterPrefix(df.aregs, df.aregs, rob, rob', j + 1);
    assert EntryOk(c, df.aregs, rob, j);
    hide EntryOk;
    forall i | 0 <= i <= j ensures EntryOk(c, df.aregs, rob', i) { EntryOkMoves(c, df.aregs, rob, rob', i); }
  }

  lemma CutValues(c: Config, df: Dataflow, rob: seq<InFlight>, j: nat, regs: seq<Word>)
    requires Ranged(c, df, rob) && |regs| == c.naregs && ValuesOk(c, df, rob, regs) && j < |rob|
    ensures Ranged(c, df, rob[..j + 1]) && ValuesOk(c, df, rob[..j + 1], regs)
  {
    hide ValueOf;
    PrefixMeans(regs, df.aregs, rob[..j + 1], rob);
  }

  lemma MispredictKeeps(c: Config, m: Machine, j: nat)
    requires Inv(c, m) && Enabled(c, m, Mispredict(j))
    ensures Inv(c, Next(c, m, Mispredict(j)))
  {
    hide ListsExact, ValuesOk, EntryOk, ShapeOk;
    var m' := Next(c, m, Mispredict(j));
    var cut := m.rob[..j + 1];
    assert m'.rob == cut[j := m.rob[j].(spec := -1)];
    MispredictLists(c, m.df, m.rob, m.leaked, j);
    CutMaps(c, m.df, m'.df, m.rob, j);
    UpdateMaps(c, m'.df, m'.df, cut, j, m'.rob[j]);
    CutValues(c, m.df, m.rob, j, Regs(c, m));
    RelabelValues(c, m.df, m'.df, cut, j, Regs(c, m));
  }

  // ----- Commit ---------------------------------------------------------------------

  lemma ArchUpdate(aregs: seq<nat>, a: nat, tag: nat)
    requires 1 <= a < |aregs|
    requires forall x, y :: 1 <= x < y < |aregs| ==> aregs[x] != aregs[y]
    ensures ArchSet(aregs[a := tag]) == ArchSet(aregs) - {aregs[a]} + {tag}
  {
    var (s, t) := (ArchSet(aregs[a := tag]), ArchSet(aregs) - {aregs[a]} + {tag});
    forall r | r in t ensures r in s {
      if r == tag { assert aregs[a := tag][a] == tag; } else {
        var x :| 1 <= x < |aregs| && aregs[x] == r;
        assert aregs[a := tag][x] == r;
      }
    }
  }

  /** The head's preg replaces the one it shadows, in the marks and in the base. */
  lemma RetireArch(c: Config, m: Machine)
    requires Enabled(c, m, Commit(false)) && ArchOk(c, m.df, m.leaked) && m.rob[0].ins.Writes()
    requires m.rob[0].dst < c.npregs - 1 && m.rob[0].dst !in Base(c, m.df.aregs, m.leaked)
    ensures ArchOk(c, Retired(c, m), m.leaked)
    ensures Base(c, Retired(c, m).aregs, m.leaked)
            == Base(c, m.df.aregs, m.leaked) - {m.df.aregs[m.rob[0].ins.rd]} + {m.rob[0].dst}
  {
    var (a, tag, d) := (m.rob[0].ins.rd, m.rob[0].dst, Retired(c, m));
    assert m.df.aregs[a] in ArchSet(m.df.aregs);
    assert d.aregs == m.df.aregs[a := tag] && d.archUsed == m.df.archUsed[m.df.aregs[a] := false][tag := true];
    ArchUpdate(m.df.aregs, a, tag);
    hide Retired;
    PromoteArch(c, m.df, d, m.leaked, a, tag);
  }

  lemma PromoteArch(c: Config, df: Dataflow, d: Dataflow, leaked: bool, a: nat, tag: nat)
    requires df.Shaped(c) && d.Shaped(c) && ArchOk(c, df, leaked) && 1 <= a < c.naregs && tag < c.npregs - 1
    requires tag !in Base(c, df.aregs, leaked) && df.aregs[a] in ArchSet(df.aregs)
    requires d.aregs == df.aregs[a := tag] && d.archUsed == df.archUsed[df.aregs[a] := false][tag := true]
    requires ArchSet(d.aregs) == ArchSet(df.aregs) - {df.aregs[a]} + {tag}
    ensures ArchOk(c, d, leaked)
    ensures Base(c, d.aregs, leaked) == Base(c, df.aregs, leaked) - {df.aregs[a]} + {tag}
  {
    forall x | 1 <= x < c.naregs ensures df.aregs[x] != tag { assert df.aregs[x] in ArchSet(df.aregs); }
    hide ArchSet, Dataflow.Shaped;
  }

  lemma RetireLists(c: Config, m: Machine)
    requires Enabled(c, m, Commit(false)) && ListsExact(c, m.df, m.rob, m.leaked) && ArchOk(c, m.df, m.leaked)
      && ShapeOk(c, m.rob)
    ensures ListsExact(c, Retired(c, m), m.rob[1..], m.leaked) && ArchOk(c, Retired(c, m), m.leaked)
  {
    hide Exact, ArchOk, ArchSet;
    var e := m.rob[0];
    var (h, st, lv) := (Holds(c, m.rob), Stores(m.rob), Lives(m.rob));
    ListsTail(c, m.rob);
    ReleasedKeeps(m.df.stores, st, {}, lv);
    ReleasedKeeps(m.df.snaps, lv, {}, lv);
    if e.ins.Writes() {
      OwnsOf(c, m);
      HeadNotBase(c, m);
      RetireArch(c, m);
      PromoteKeeps(m.df.regs, h, Base(c, m.df.aregs, m.leaked), lv, m.df.aregs[e.ins.rd]);
    } else {
      ReleasedKeeps(m.df.regs, h, Base(c, m.df.aregs, m.leaked), lv);
      ArchOkSame(c, m.df, Retired(c, m), m.leaked);
    }
  }

  lemma ArchOkSame(c: Config, a: Dataflow, b: Dataflow, leaked: bool)
    requires a.Shaped(c) && b.Shaped(c) && ArchOk(c, a, leaked) && a.aregs == b.aregs && a.archUsed == b.archUsed
    ensures ArchOk(c, b, leaked)
  {
  }

  lemma HeadNotBase(c: Config, m: Machine)
    requires Enabled(c, m, Commit(false)) && ShapeOk(c, m.rob) && m.rob[0].ins.Writes()
    requires Owns(m.df.regs, Holds(c, m.rob), Base(c, m.df.aregs, m.leaked))
    ensures m.rob[0].dst !in Base(c, m.df.aregs, m.leaked)
      && m.df.aregs[m.rob[0].ins.rd] in Base(c, m.df.aregs, m.leaked)
  {
    assert Holds(c, m.rob)[0] == m.rob[0].dst;
    assert m.df.aregs[m.rob[0].ins.rd] in ArchSet(m.df.aregs);
  }

  lemma RetireEntry(c: Config, aregs: seq<nat>, rob: seq<InFlight>, j: nat)
    requires |aregs| == c.naregs && AllFit(rob, c.naregs) && 0 < j < |rob| && EntryOk(c, aregs, rob, j)
    ensures AllFit(rob[1..], c.naregs) && EntryOk(c, MapAfter(aregs, rob, 1), rob[1..], j - 1)
  {
    var any := Repeat<Word>(c.naregs, 0);
    AfterRetire(any, aregs, rob, j);
    AfterRetire(any, aregs, rob, j + 1);
    hide MapAfter, SpecAfter;
    assert rob[1..][j - 1] == rob[j];
  }

  lemma RetireTables(c: Config, m: Machine)
    requires Enabled(c, m, Commit(false)) && ShapeOk(c, m.rob)
    ensures var d := Retired(c, m);
      d.aregs == MapAfter(m.df.aregs, m.rob, 1) && d.rename == m.df.rename && d.saved == m.df.saved
  {
    MapStep(m.df.aregs, m.rob, 0);
  }

  lemma RetireMaps(c: Config, m: Machine)
    requires Enabled(c, m, Commit(false)) && MapsOk(c, m.df, m.rob)
    ensures Ranged(c, Retired(c, m), m.rob[1..]) && MapsOk(c, Retired(c, m), m.rob[1..])
  {
    var (d, rob') := (Retired(c, m), m.rob[1..]);
    hide EntryOk;
    RetireTables(c, m);
    hide MapAfter, Retired;
    AfterRetire(Repeat<Word>(c.naregs, 0), m.df.aregs, m.rob, |m.rob|);
    forall j | 0 <= j < |rob'| ensures EntryOk(c, d.aregs, rob', j) { RetireEntry(c, m.df.aregs, m.rob, j + 1); }
  }

  lemma RetireValueOf(regs: seq<Word>, rob: seq<InFlight>, j: nat)
    requires 0 < j < |rob| && AllFit(rob, |regs|)
    ensures AllFit(rob[1..], |regs|) && ValueOf(Exec(regs, rob[0].ins), rob[1..], j - 1) == ValueOf(regs, rob, j)
  {
    hide MapAfter;
    AfterRetire(regs, Repeat<nat>(|regs|, 0), rob, j);
  }

  lemma RetireArchValues(c: Config, m: Machine, regs: seq<Word>)
    requires Enabled(c, m, Commit(false)) && ShapeOk(c, m.rob)
    requires |regs| == c.naregs && ValuesOk(c, m.df, m.rob, regs)
    ensures var (d, r) := (Retired(c, m), Exec(regs, m.rob[0].ins));
      r[0] == 0 && forall a :: 1 <= a < c.naregs ==> d.ready[d.aregs[a]] && d.pregs[d.aregs[a]] == r[a]
  {
    assert ValueOf(regs, m.rob, 0) == m.rob[0].ins.f(regs[m.rob[0].ins.rs1], regs[m.rob[0].ins.rs2]);
    hide ValueOf, SpecAfter;
  }

  lemma RetireValues(c: Config, m: Machine, regs: seq<Word>)
    requires Enabled(c, m, Commit(false)) && ShapeOk(c, m.rob) && Ranged(c, Retired(c, m), m.rob[1..])
    requires |regs| == c.naregs && ValuesOk(c, m.df, m.rob, regs)
    ensures ValuesOk(c, Retired(c, m), m.rob[1..], Exec(regs, m.rob[0].ins))
  {
    RetireArchValues(c, m, regs);
    hide ValueOf, SpecAfter, Exec;
    var (d, rob', r) := (Retired(c, m), m.rob[1..], Exec(regs, m.rob[0].ins));
    assert d.ready == m.df.ready && d.pregs == m.df.pregs;
    forall j | 0 <= j < |rob'| ensures rob'[j] == m.rob[j + 1] && ValueOf(r, rob', j) == ValueOf(regs, m.rob, j + 1) {
      RetireValueOf(regs, m.rob, j + 1);
    }
  }

  /** The machine after the head retired without a redirect. */
  ghost function Retire(c: Config, m: Machine): Machine
    requires Ranged(c, m.df, m.rob) && |m.rob| > 0
  {
    Machine(Retired(c, m), m.rob[1..], m.log + [m.rob[0].ins], m.leaked)
  }

  lemma LogGrows(c: Config, log: seq<Instr>, ins: Instr)
    requires Fits(ins, c.naregs) && forall i :: 0 <= i < |log| ==> Fits(log[i], c.naregs)
    ensures ExecAll(c.naregs, log + [ins]) == Exec(ExecAll(c.naregs, log), ins)
  {
    assert (log + [ins])[..|log|] == log;
  }

  lemma RetireKeeps(c: Config, m: Machine)
    requires Inv(c, m) && Enabled(c, m, Commit(false))
    ensures Inv(c, Retire(c, m))
  {
    hide ListsExact, ValuesOk, ArchOk, EntryOk;
    RetireLists(c, m);
    RetireMaps(c, m);
    RetireValues(c, m, Regs(c, m));
    LogGrows(c, m.log, m.rob[0].ins);
  }

  // ----- Rollback -------------------------------------------------------------------

  ghost function RolledBack(c: Config, m: Machine): Machine
    requires m.df.Shaped(c)
  {
    Machine(m.df.Rollback(c), [], m.log, WillLeak(c, m.df))
  }

  lemma AllFreeExact(n: nat, tracks: seq<seq<bool>>)
    requires forall i :: 0 <= i < |tracks| ==> |tracks[i]| == n
    ensures Exact(Tracked(Full(n), tracks), [], {}, [])
  {
  }

  lemma RollbackRegs(c: Config, df: Dataflow, leaked: bool)
    requires df.Shaped(c) && ArchOk(c, df, leaked)
    ensures Exact(df.regs.Set(Complement(df.archUsed)), [], Base(c, df.aregs, WillLeak(c, df)), [])
  {
    forall r | r in ArchSet(df.aregs) ensures r < c.npregs - 1 && df.archUsed[r] {
      var a :| 1 <= a < c.naregs && df.aregs[a] == r;
      assert df.aregs[a] < c.npregs - 1;
    }
  }

  lemma RollbackArch(c: Config, df: Dataflow, leaked: bool)
    requires df.Shaped(c) && ArchOk(c, df, leaked)
    ensures ArchOk(c, df.Rollback(c), WillLeak(c, df))
  {
    hide ArchSet;
  }

  lemma RollbackLists(c: Config, df: Dataflow, leaked: bool)
    requires df.Shaped(c) && ArchOk(c, df, leaked)
    ensures ListsExact(c, df.Rollback(c), [], WillLeak(c, df)) && ArchOk(c, df.Rollback(c), WillLeak(c, df))
  {
    hide Exact, ArchOk, Base;
    RollbackArch(c, df, leaked);
    assert Holds(c, []) == [] && Stores([]) == [] && Lives([]) == [];
    RollbackRegs(c, df, leaked);
    AllFreeExact(c.nstores, df.stores.tracks);
    AllFreeExact(c.nsnapshots, df.snaps.tracks);
  }

  lemma RollbackRest(c: Config, df: Dataflow, rob: seq<InFlight>, regs: seq<Word>)
    requires Ranged(c, df, rob) && |regs| == c.naregs && ValuesOk(c, df, rob, regs)
    ensures var d := df.Rollback(c); Ranged(c, d, []) && MapsOk(c, d, []) && ValuesOk(c, d, [], regs)
  {
    hide ValueOf;
  }

  lemma RollbackKeeps(c: Config, m: Machine)
    requires Inv(c, m)
    ensures Inv(c, RolledBack(c, m))
  {
    hide ListsExact, MapsOk, ArchOk, ValuesOk;
    RollbackLists(c, m.df, m.leaked);
    RollbackRest(c, m.df, m.rob, Regs(c, m));
  }

  // ----- Every event, every run -----------------------------------------------------

  lemma StepKeeps(c: Config, m: Machine, e: Event)
    requires Inv(c, m) && Enabled(c, m, e)
    ensures Inv(c, Next(c, m, e))
  {
    match e
    case Rename(ins) => RenameKeeps(c, m, ins);
    case Compute(j, fw) => ComputeKeeps(c, m, j, fw);
    case WriteBack(j) => WriteBackKeeps(c, m, j);
    case Correct(j) => CorrectKeeps(c, m, j);
    case Mispredict(j) => MispredictKeeps(c, m, j);
    case Commit(redirect) =>
      RetireKeeps(c, m);
      if redirect { RollbackKeeps(c, Retire(c, m)); }
    case Except => RollbackKeeps(c, m);
  }

  lemma InitRegs(c: Config)
    requires c.Ok()
    ensures Exact(Reset(c).regs, [], Base(c, Reset(c).aregs, false), [])
    ensures ArchOk(c, Reset(c), false)
  {
    var d := Reset(c);
    forall r | 0 <= r < c.npregs - 1 ensures r in ArchSet(d.aregs) <==> r < c.naregs - 1 {
      if r < c.naregs - 1 { assert d.aregs[r + 1] == r; }
    }
  }

  lemma InitInv(c: Config)
    requires c.Ok()
    ensures Inv(c, Init(c))
  {
    InitRegs(c);
    InitFree(c);
    InitRest(c);
    hide ArchOk, ArchSet, Exact, Reset, MapsOk, ValuesOk, Initial, InitialMap, ExecAll;
  }

  lemma InitRest(c: Config)
    requires c.Ok()
    ensures var m := Init(c);
      Ranged(c, m.df, m.rob) && MapsOk(c, m.df, m.rob) && LogFits(c, m) && ValuesOk(c, m.df, m.rob, Regs(c, m))
  {
  }

  lemma InitFree(c: Config)
    requires c.Ok()
    ensures Exact(Reset(c).stores, [], {}, []) && Exact(Reset(c).snaps, [], {}, [])
  {
  }
}
