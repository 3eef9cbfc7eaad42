/** What holds over every run of the renaming engine. */
module RenamingTheorems {
  import opened Options
  import opened FreeLists
  import opened Dataflow
  import opened Renaming
  import opened RenamingInvariant

  datatype Outcome = Stuck | At(m: Machine)

  /** The machine after a schedule of events from reset, if each was enabled in its turn. */
  ghost function After(c: Config, es: seq<Event>): Outcome
    requires c.Ok()
  {
    if |es| == 0 then At(Init(c)) else
      match After(c, es[..|es| - 1])
      case Stuck => Stuck
      case At(m) => if Enabled(c, m, es[|es| - 1]) then At(Next(c, m, es[|es| - 1])) else Stuck
  }

  lemma {:induction false} RunKeeps(c: Config, es: seq<Event>)
    requires c.Ok() && After(c, es).At?
    ensures Inv(c, After(c, es).m)
  {
    hide Inv, Enabled;
    if |es| == 0 {
      InitInv(c);
    } else {
      RunKeeps(c, es[..|es| - 1]);
      StepKeeps(c, After(c, es[..|es| - 1]).m, es[|es| - 1]);
    }
  }

  /** The committed registers, read through the architectural file and then the physical
      file, are what running the committed instructions one by one gives. */
  lemma SequentialMeaning(c: Config, es: seq<Event>)
    requires c.Ok() && After(c, es).At?
    ensures var m := After(c, es).m;
      && m.df.Shaped(c) && LogFits(c, m)
      && forall a :: 1 <= a < c.naregs ==> m.df.Read(m.df.aregs[a], map[]) == ExecAll(c.naregs, m.log)[a]
  {
    RunKeeps(c, es);
  }

  /** An instruction that reads its operands, possibly from a forwarding neighbour,
      computes what it would compute in sequential execution. */
  lemma OperandsSequential(c: Config, es: seq<Event>, j: nat, fw: int)
    requires c.Ok() && After(c, es).At? && Enabled(c, After(c, es).m, Compute(j, fw))
    ensures var m := After(c, es).m;
      && LogFits(c, m)
      && Next(c, m, Compute(j, fw)).rob[j].stage == Computed(ValueOf(ExecAll(c.naregs, m.log), m.rob, j))
  {
    RunKeeps(c, es);
    ComputeValue(c, After(c, es).m, j, fw);
  }

  // ----- The surviving program ------------------------------------------------------

  /** Committed instructions followed by those in flight. */
  ghost function Program(m: Machine): seq<Instr> {
    m.log + seq(|m.rob|, j requires 0 <= j < |m.rob| => m.rob[j].ins)
  }

  /** Only renaming extends the program and only a redirect cuts it, right after the
      redirecting instruction; nothing is reordered, dropped or committed twice. */
  lemma ProgramEvolves(c: Config, m: Machine, e: Event)
    requires Enabled(c, m, e)
    ensures var (p, p') := (Program(m), Program(Next(c, m, e)));
      match e {
        case Rename(ins) => p' == p + [ins]
        case Mispredict(j) => p' == p[..|m.log| + j + 1]
        case Commit(redirect) => p' == if redirect then p[..|m.log| + 1] else p
        case Except => p' == p[..|m.log|]
        case _ => p' == p
      }
  {
    var (p, p') := (Program(m), Program(Next(c, m, e)));
    match e {
      case Rename(ins) => assert p' == p + [ins];
      case Mispredict(j) => assert p' == p[..|m.log| + j + 1];
      case Commit(redirect) => assert p' == if redirect then p[..|m.log| + 1] else p;
      case Except => assert p' == p[..|m.log|];
      case _ => assert p' == p;
    }
  }

  // ----- Conservation of physical registers -----------------------------------------

  ghost predicate Covered(c: Config, m: Machine)
    requires m.df.Shaped(c)
  {
    forall r :: 0 <= r < c.npregs - 1 ==> m.df.regs.free[r] || r in ArchSet(m.df.aregs) || r in Holds(c, m.rob)
  }

  /** Free list, architectural pregs and in-flight destinations never overlap or repeat,
      and only preg naregs-1 can belong to none of them. */
  lemma Conservation(c: Config, es: seq<Event>)
    requires c.Ok() && After(c, es).At?
    ensures var m := After(c, es).m;
      && m.df.Shaped(c)
      && (forall r :: 0 <= r < c.npregs - 1 && m.df.regs.free[r] ==> r !in ArchSet(m.df.aregs) && r !in Holds(c, m.rob))
      && (forall r :: 0 <= r < c.npregs - 1 && r in ArchSet(m.df.aregs) ==> r !in Holds(c, m.rob))
      && (forall a, b :: 1 <= a < b < c.naregs ==> m.df.aregs[a] != m.df.aregs[b])
      && (forall i, j :: 0 <= i < j < |m.rob| && m.rob[i].dst != c.npregs - 1 ==> m.rob[i].dst != m.rob[j].dst)
      && (forall r :: 0 <= r < c.npregs - 1 && r != c.naregs - 1 ==>
            m.df.regs.free[r] || r in ArchSet(m.df.aregs) || r in Holds(c, m.rob))
  {
    RunKeeps(c, es);
    var m := After(c, es).m;
    hide MapsOk, ValuesOk, Tracks;
    forall i, j | 0 <= i < j < |m.rob| && m.rob[i].dst != c.npregs - 1 ensures m.rob[i].dst != m.rob[j].dst {
      assert Holds(c, m.rob)[i] == m.rob[i].dst;
      assert Holds(c, m.rob)[j] == m.rob[j].dst || m.rob[j].dst == c.npregs - 1;
    }
  }

  lemma CoveredIff(c: Config, m: Machine)
    requires Inv(c, m)
    ensures Covered(c, m) <==> !m.leaked
  {
    hide MapsOk, ValuesOk, Tracks;
    if m.leaked {
      var h := Holds(c, m.rob);
      assert c.naregs - 1 in Base(c, m.df.aregs, m.leaked);
      assert !m.df.regs.free[c.naregs - 1];
    }
  }

  /** Whether a rollback on the oldest instruction loses preg naregs-1: it is marked used
      without backing a register, which is the mark left over from reset, and the
      instruction does not bring it into use by committing first. */
  ghost predicate Loses(c: Config, m: Machine, commits: bool)
    requires Ranged(c, m.df, m.rob) && |m.rob| > 0
  {
    && m.df.archUsed[c.naregs - 1] && c.naregs - 1 !in ArchSet(m.df.aregs)
    && !(commits && m.rob[0].ins.Writes() && m.rob[0].dst == c.naregs - 1)
  }

  lemma RetiredLoses(c: Config, m: Machine)
    requires Inv(c, m) && Enabled(c, m, Commit(false))
    ensures WillLeak(c, Retired(c, m)) <==> Loses(c, m, true)
  {
    hide EntryOk, SavedOk, ValuesOk, Owns, Tracks;
    if m.rob[0].ins.Writes() {
      OwnsOf(c, m);
      HeadNotBase(c, m);
      ArchUpdate(m.df.aregs, m.rob[0].ins.rd, m.rob[0].dst);
    }
  }

  /** A rollback, by an exception or by a commit that redirects, covers every preg
      afterwards exactly when it does not lose preg naregs-1. */
  lemma RollbackCoversIff(c: Config, es: seq<Event>, e: Event)
    requires c.Ok() && After(c, es).At? && Enabled(c, After(c, es).m, e) && (e == Except || e == Commit(true))
    ensures var m := After(c, es).m;
      Covered(c, Next(c, m, e)) <==> !Loses(c, m, e.Commit?)
  {
    RunKeeps(c, es);
    var m := After(c, es).m;
    StepKeeps(c, m, e);
    CoveredIff(c, Next(c, m, e));
    LeaksWhen(c, m, e);
    hide *;
  }

  lemma LeaksWhen(c: Config, m: Machine, e: Event)
    requires Inv(c, m) && Enabled(c, m, e) && (e == Except || e == Commit(true))
    ensures Next(c, m, e).leaked <==> Loses(c, m, e.Commit?)
  {
    hide ListsExact, MapsOk, ValuesOk, ArchOk, Dataflow.Rollback, Retired;
    if e.Commit? { RetiredLoses(c, m); }
  }

  lemma AfterTwo(c: Config, a: Event, b: Event)
    requires c.Ok() && Enabled(c, Init(c), a) && Enabled(c, Next(c, Init(c), a), b)
    ensures After(c, [a, b]) == At(Next(c, Next(c, Init(c), a), b))
  {
    hide Enabled, Next, Init;
    assert [a, b][..1] == [a] && [a][..0] == [];
    assert After(c, []) == At(Init(c));
    assert After(c, [a]) == At(Next(c, Init(c), a));
  }

  lemma ResetMarked(c: Config)
    requires c.Ok()
    ensures WillLeak(c, Reset(c))
  {
  }

  /** Full coverage fails: in every configuration, a first instruction that raises an
      exception leaves preg naregs-1 in no list. */
  lemma ResetMarkLeaks(c: Config, f: (Word, Word) -> Word)
    requires c.Ok()
    ensures var es := [Rename(Instr(0, 0, 0, false, false, false, f)), Except];
      After(c, es).At? && After(c, es).m.df.Shaped(c) && !Covered(c, After(c, es).m)
  {
    var r := Rename(Instr(0, 0, 0, false, false, false, f));
    var (m0, m1) := (Init(c), Next(c, Init(c), r));
    InitInv(c);
    FirstRename(c, r);
    ResetMarked(c);
    hide *;
    StepKeeps(c, m0, r);
    ExceptEnabled(c, m1);
    LostUncovered(c, r, m0, m1);
  }

  /** An instruction that takes nothing leaves the state of reset. */
  lemma FirstRename(c: Config, r: Event)
    requires c.Ok() && r.Rename? && Fits(r.ins, c.naregs) && !r.ins.writes && !r.ins.store && !r.ins.branch
    ensures Enabled(c, Init(c), r)
    ensures var m := Next(c, Init(c), r); m.df == Reset(c) && |m.rob| == 1
  {
    hide Reset;
  }

  lemma ExceptEnabled(c: Config, m: Machine)
    requires Inv(c, m) && |m.rob| > 0
    ensures Enabled(c, m, Except) && Next(c, m, Except).leaked == WillLeak(c, m.df)
  {
    hide ListsExact, MapsOk, ValuesOk, ArchOk, Dataflow.Rollback;
  }

  lemma LostUncovered(c: Config, r: Event, m0: Machine, m1: Machine)
    requires c.Ok() && m0 == Init(c) && Enabled(c, m0, r) && m1 == Next(c, m0, r)
    requires Inv(c, m1) && Enabled(c, m1, Except) && Next(c, m1, Except).leaked
    ensures var es := [r, Except];
      After(c, es).At? && After(c, es).m.df.Shaped(c) && !Covered(c, After(c, es).m)
  {
    AfterTwo(c, r, Except);
    StepKeeps(c, m1, Except);
    hide Next, Enabled, Reset, ListsExact, MapsOk, ValuesOk, ArchOk;
    CoveredIff(c, Next(c, m1, Except));
  }

  /** Once lost, the preg stays lost. */
  lemma LeakStays(c: Config, m: Machine, e: Event)
    requires Inv(c, m) && Enabled(c, m, e) && m.leaked
    ensures Next(c, m, e).leaked
  {
    hide ListsExact, MapsOk, ValuesOk;
    if e.Commit? { RenamingInvariant.RetireKeeps(c, m); }
  }

  // ----- Exactness of a misprediction restore ---------------------------------------

  /** Restoring branch j brings back the rename map recorded when j was renamed, and
      frees the pregs, store ids and snapshot ids of younger instructions and no others
      (beyond j's own snapshot id, which is closed). */
  lemma RestoreExact(c: Config, es: seq<Event>, j: nat)
    requires c.Ok() && After(c, es).At? && Enabled(c, After(c, es).m, Mispredict(j))
    ensures var (m, m') := (After(c, es).m, Next(c, After(c, es).m, Mispredict(j)));
      && m'.df.rename == m.rob[j].mapAtRename
      && (forall r :: 0 <= r < c.npregs - 1 ==>
          (m'.df.regs.free[r] <==> m.df.regs.free[r] || r in Holds(c, m.rob)[j + 1..]))
      && (forall s :: 0 <= s < c.nstores ==>
          (m'.df.stores.free[s] <==> m.df.stores.free[s] || s in Stores(m.rob)[j + 1..]))
      && (forall s :: 0 <= s < c.nsnapshots ==>
            (m'.df.snaps.free[s] <==> m.df.snaps.free[s] || s == m.rob[j].spec || s in Lives(m.rob)[j + 1..]))
  {
    hide Exact, ValuesOk, ArchOk, EntryOk;
    RunKeeps(c, es);
    var m := After(c, es).m;
    hide After;
    var lv := Lives(m.rob);
    RevertExact(m.df.regs, Holds(c, m.rob), Base(c, m.df.aregs, m.leaked), lv, j);
    RevertExact(m.df.stores, Stores(m.rob), {}, lv, j);
    ReleaseKeeps(m.df.snaps, lv, {}, lv, j);
    RevertExact(m.df.snaps.Free(lv[j]), lv[j := -1], {}, lv, j);
    assert lv[j := -1][j + 1..] == lv[j + 1..];
  }

  /** The recorded map is the rename table right after renaming, whatever is in flight. */
  lemma RecordedMap(c: Config, m: Machine, ins: Instr)
    requires Enabled(c, m, Rename(ins))
    ensures var m' := Next(c, m, Rename(ins));
      && |m'.rob| == |m.rob| + 1 && m'.rob[|m.rob|].ins == ins && m'.rob[|m.rob|].mapAtRename == m'.df.rename
      && m'.rob[|m.rob|].stage == Waiting
      && (m'.rob[|m.rob|].spec >= 0 <==> ins.branch) && (m'.rob[|m.rob|].storeId >= 0 <==> ins.store)
  {
  }

  /** Where instruction k is after the event, if it is still in flight. */
  function Moved(k: nat, e: Event): Option<nat> {
    match e
    case Commit(redirect) => if redirect || k == 0 then None else Some(k - 1)
    case Except => None
    case Mispredict(j) => if k <= j then Some(k) else None
    case _ => Some(k)
  }

  /** An instruction that stays in flight keeps its record, its tags and its store id
      through every event; computing, writing back and resolving change what they should. */
  lemma RecordKept(c: Config, m: Machine, e: Event, k: nat)
    requires Enabled(c, m, e) && k < |m.rob| && Moved(k, e).Some?
    ensures var (m', i) := (Next(c, m, e), Moved(k, e).value);
      && i < |m'.rob|
      && m'.rob[i] == m.rob[k].(stage := m'.rob[i].stage, spec := m'.rob[i].spec)
      && m'.rob[i].spec == (if e == Correct(k) || e == Mispredict(k) then -1 else m.rob[k].spec)
      && (if e.Compute? && e.j == k then m'.rob[i].stage.Computed?
          else m'.rob[i].stage == if e == WriteBack(k) then Done else m.rob[k].stage)
  {
    hide Dataflow.Write, Dataflow.FreeSnapshot, Dataflow.Restore, Dataflow.Read, Renamed, Retired, Forwarded;
  }

  function MovedBy(k: nat, post: seq<Event>): Option<nat> {
    if |post| == 0 then Some(k) else
      var i := MovedBy(k, post[..|post| - 1]);
      if i.None? then None else Moved(i.value, post[|post| - 1])
  }

  lemma {:induction false} RecordSurvives(c: Config, pre: seq<Event>, ins: Instr, post: seq<Event>)
    requires c.Ok() && After(c, pre + [Rename(ins)] + post).At?
    ensures After(c, pre).At? && After(c, pre + [Rename(ins)]).At?
    ensures var (m, i) := (After(c, pre + [Rename(ins)] + post).m, MovedBy(|After(c, pre).m.rob|, post));
      i.Some? ==> i.value < |m.rob| && m.rob[i.value].ins == ins
                  && m.rob[i.value].mapAtRename == After(c, pre + [Rename(ins)]).m.df.rename
  {
    var (renamed, es) := (pre + [Rename(ins)], pre + [Rename(ins)] + post);
    hide Enabled, Next;
    if |post| == 0 {
      assert es == renamed && renamed[..|renamed| - 1] == pre;
      RecordedMap(c, After(c, pre).m, ins);
    } else {
      var (front, e) := (post[..|post| - 1], post[|post| - 1]);
      assert es[..|es| - 1] == renamed + front && es[|es| - 1] == e;
      RecordSurvives(c, pre, ins, front);
      var i := MovedBy(|After(c, pre).m.rob|, front);
      if i.Some? && Moved(i.value, e).Some? { RecordKept(c, After(c, renamed + front).m, e, i.value); }
    }
  }

  /** Over every run, with anything renamed, resolved, committed or recycled in between:
      restoring a branch gives the rename table as it was right after that branch was
      renamed. */
  lemma RestoresOwnTable(c: Config, pre: seq<Event>, ins: Instr, post: seq<Event>, j: nat)
    requires c.Ok() && After(c, pre + [Rename(ins)] + post).At?
    requires After(c, pre).At? ==> MovedBy(|After(c, pre).m.rob|, post) == Some(j)
    requires Enabled(c, After(c, pre + [Rename(ins)] + post).m, Mispredict(j))
    ensures After(c, pre + [Rename(ins)]).At?
    ensures Next(c, After(c, pre + [Rename(ins)] + post).m, Mispredict(j)).df.rename ==
      After(c, pre + [Rename(ins)]).m.df.rename
  {
    RecordSurvives(c, pre, ins, post);
    RestoreExact(c, pre + [Rename(ins)] + post, j);
    hide Enabled, Next, After, MovedBy;
  }

  /** The store-id mask names exactly the stores in flight, each under its own id. */
  lemma StoreMaskExact(c: Config, es: seq<Event>)
    requires c.Ok() && After(c, es).At?
    ensures var m := After(c, es).m;
      && m.df.Shaped(c)
      && (forall s :: 0 <= s < c.nstores ==> (!m.df.stores.free[s] <==> s in Stores(m.rob)))
      && (forall i, j :: 0 <= i < j < |m.rob| && m.rob[i].storeId >= 0 ==> m.rob[i].storeId != m.rob[j].storeId)
  {
    RunKeeps(c, es);
    var m := After(c, es).m;
    hide MapsOk, ValuesOk, Tracks;
    var st := Stores(m.rob);
    forall i, j | 0 <= i < j < |m.rob| && m.rob[i].storeId >= 0 ensures m.rob[i].storeId != m.rob[j].storeId {
      assert st[i] == m.rob[i].storeId && st[j] == m.rob[j].storeId;
    }
  }

  /** Over every run, the entry behind the zero tag is never written. */
  lemma {:induction false} ZeroUntouched(c: Config, es: seq<Event>)
    requires c.Ok() && After(c, es).At?
    ensures var df := After(c, es).m.df;
      |df.pregs| == |df.ready| == c.npregs && df.pregs[c.npregs - 1] == 0 && df.ready[c.npregs - 1]
  {
    if |es| > 0 {
      ZeroUntouched(c, es[..|es| - 1]);
      ZeroKept(c, After(c, es[..|es| - 1]).m, es[|es| - 1]);
    }
    hide Enabled, Next;
  }

  lemma ZeroKept(c: Config, m: Machine, e: Event)
    requires Enabled(c, m, e)
    ensures var (df, df') := (m.df, Next(c, m, e).df);
      && |df'.pregs| == |df.pregs| == |df'.ready| == |df.ready| == c.npregs
      && df'.pregs[c.npregs - 1] == df.pregs[c.npregs - 1] && df'.ready[c.npregs - 1] == df.ready[c.npregs - 1]
  {
    if e.Rename? { RenamedZero(c, m.df, e.ins); }
    if e.Commit? { RetiredZero(c, m); }
    hide Dataflow.Read, Renamed, Retired, Entry, Forwarded, WillLeak;
  }

  ghost predicate SameZero(a: Dataflow, b: Dataflow) {
    && |a.pregs| == |b.pregs| == |a.ready| == |b.ready|
    && |a.pregs| > 0 && a.pregs[|a.pregs| - 1] == b.pregs[|a.pregs| - 1]
        && a.ready[|a.pregs| - 1] == b.ready[|a.pregs| - 1]
  }

  lemma RenamedZero(c: Config, df: Dataflow, ins: Instr)
    requires df.Shaped(c) && Fits(ins, c.naregs)
    requires (ins.store ==> df.stores.Ready()) && (ins.branch ==> df.snaps.Ready())
    ensures SameZero(df, Renamed(c, df, ins))
  {
    hide Tracked.Alloc, Tracked.ResetTracking;
  }

  lemma RetiredZero(c: Config, m: Machine)
    requires Ranged(c, m.df, m.rob) && |m.rob| > 0
    ensures SameZero(m.df, Retired(c, m))
  {
    hide Tracked.Free;
  }

  // ----- When things may happen -----------------------------------------------------------

  /** Whoever produces the tag has written it back, or is the one forwarding right now. */
  ghost predicate Produced(m: Machine, tag: int, fw: int) {
    forall i :: 0 <= i < |m.rob| && m.rob[i].ins.Writes() && m.rob[i].dst == tag ==>
      m.rob[i].stage.Done? || (i == fw && m.rob[i].stage.Computed?)
  }

  lemma TagReady(c: Config, m: Machine, k: nat, a: nat, fw: int)
    requires Inv(c, m) && k <= |m.rob| && a < c.naregs && -1 <= fw < |m.rob|
    ensures var t := Tag(MapAfter(m.df.aregs, m.rob, k), a, c.npregs - 1);
      && 0 <= t < c.npregs
      && (m.df.IsReady(t) <==> Produced(m, t, -1))
      && (CanRead(m, t, fw) <==> Produced(m, t, fw))
  {
    var regs := Regs(c, m);
    OwnsOf(c, m);
    hide ListsExact, ArchOk, ExecAll, EntryOk, SavedOk;
    if a > 0 {
      var w := Writer(regs, m.df.aregs, m.rob, k, a);
      hide MapAfter, SpecAfter, ValueOf;
      forall i | 0 <= i < |m.rob| && m.rob[i].ins.Writes()
        ensures m.rob[i].dst != m.df.aregs[a]
      {
        DstNotArch(c, m, i, a);
      }
      if w >= 0 {
        forall i | 0 <= i < |m.rob| && m.rob[i].dst == m.rob[w].dst ensures i == w { SameDst(c, m, i, w); }
      }
    }
  }

  /** Over every run, a source is ready exactly when the in-flight instruction that produces
      its tag, if there is one, has written back; and it can be read exactly when that one
      has, or is forwarding its result. */
  lemma SourceReadyIff(c: Config, es: seq<Event>, j: nat, fw: int)
    requires c.Ok() && After(c, es).At? && j < |After(c, es).m.rob| && -1 <= fw < |After(c, es).m.rob|
    ensures var m := After(c, es).m;
      && Ranged(c, m.df, m.rob)
      && forall t :: t in [m.rob[j].src1, m.rob[j].src2] ==>
           && (m.df.IsReady(t) <==> Produced(m, t, -1))
           && (CanRead(m, t, fw) <==> Produced(m, t, fw))
  {
    RunKeeps(c, es);
    var m := After(c, es).m;
    assert EntryOk(c, m.df.aregs, m.rob, j);
    TagReady(c, m, j, m.rob[j].ins.rs1, fw);
    TagReady(c, m, j, m.rob[j].ins.rs2, fw);
    hide ListsExact, ArchOk, ValuesOk, MapAfter, Produced, CanRead, Dataflow.IsReady;
  }

  /** Over every run, results are computed as soon as their sources allow, and beyond that
      in any order whatever: an instruction can compute exactly when both its producers have
      written back or forward; any computed one can write back, any unresolved branch can
      resolve either way, and the oldest can commit once it is done and resolved. */
  lemma AnyOrder(c: Config, es: seq<Event>, j: nat, fw: int)
    requires c.Ok() && After(c, es).At? && j < |After(c, es).m.rob| && -1 <= fw < |After(c, es).m.rob|
    ensures var (m, e) := (After(c, es).m, After(c, es).m.rob[j]);
      && (Enabled(c, m, Compute(j, fw)) <==> e.stage.Waiting? && (fw >= 0 ==> m.rob[fw].stage.Computed?)
                                             && Produced(m, e.src1, fw) && Produced(m, e.src2, fw))
      && (Enabled(c, m, WriteBack(j)) <==> e.stage.Computed?)
      && (Enabled(c, m, Correct(j)) <==> e.spec >= 0) && (Enabled(c, m, Mispredict(j)) <==> e.spec >= 0)
      && (forall r :: Enabled(c, m, Commit(r)) <==> m.rob[0].stage.Done? && m.rob[0].spec == -1)
      && Enabled(c, m, Except)
  {
    SourceReadyIff(c, es, j, fw);
    hide After, CanRead, Produced, Dataflow.Shaped;
  }

  /** Nothing can get stuck: in every reachable state the oldest instruction can compute from
      the registers alone, or write back, or resolve, or commit. */
  lemma OldestMovesOn(c: Config, es: seq<Event>)
    requires c.Ok() && After(c, es).At? && |After(c, es).m.rob| > 0
    ensures var m := After(c, es).m;
      Enabled(c, m, match m.rob[0].stage {
        case Waiting => Compute(0, -1)
        case Computed(_) => WriteBack(0)
        case Done => if m.rob[0].spec >= 0 then Correct(0) else Commit(false)
      })
  {
    hide Inv, Enabled;
    RunKeeps(c, es);
    var m := After(c, es).m;
    hide After;
    match m.rob[0].stage {
      case Waiting => HeadComputes(c, m);
      case Computed(_) => HeadWritesBack(c, m);
      case Done => HeadLeaves(c, m);
    }
  }

  lemma HeadComputes(c: Config, m: Machine)
    requires Inv(c, m) && |m.rob| > 0 && m.rob[0].stage.Waiting?
    ensures Enabled(c, m, Compute(0, -1))
  {
    HeadSources(c, m);
    HeadReady(c, m, m.rob[0].ins.rs1);
    HeadReady(c, m, m.rob[0].ins.rs2);
    hide ListsExact, MapsOk, ArchOk, ValuesOk, Tag, CanRead, LogFits, MapAfter;
  }

  lemma HeadWritesBack(c: Config, m: Machine)
    requires Inv(c, m) && |m.rob| > 0 && m.rob[0].stage.Computed?
    ensures Enabled(c, m, WriteBack(0))
  {
    hide ListsExact, MapsOk, ArchOk, ValuesOk, LogFits;
  }

  lemma HeadLeaves(c: Config, m: Machine)
    requires Inv(c, m) && |m.rob| > 0 && m.rob[0].stage.Done?
    ensures Enabled(c, m, if m.rob[0].spec >= 0 then Correct(0) else Commit(false))
  {
    hide ListsExact, MapsOk, ArchOk, ValuesOk, LogFits;
  }

  lemma HeadSources(c: Config, m: Machine)
    requires Inv(c, m) && |m.rob| > 0
    ensures var (e, map_) := (m.rob[0], MapAfter(m.df.aregs, m.rob, 0));
      && e.src1 == Tag(map_, e.ins.rs1, c.npregs - 1) && e.src2 == Tag(map_, e.ins.rs2, c.npregs - 1)
      && Fits(e.ins, c.naregs)
  {
    hide ListsExact, ArchOk, ValuesOk, SavedOk, ShapeOk;
    assert EntryOk(c, m.df.aregs, m.rob, 0);
  }

  /** What backs an architectural register is always ready. */
  lemma HeadReady(c: Config, m: Machine, a: nat)
    requires Inv(c, m) && a < c.naregs
    ensures var t := Tag(MapAfter(m.df.aregs, m.rob, 0), a, c.npregs - 1); 0 <= t < c.npregs && CanRead(m, t, -1)
  {
    hide ListsExact, MapsOk, ArchOk;
  }

  ghost predicate Unheld(held: seq<int>, x: int) { forall i :: 0 <= i < |held| ==> held[i] != x }

  /** Some number below n is neither in the base nor held. */
  ghost predicate SomeLeft(n: nat, base: set<nat>, held: seq<int>) {
    exists r: nat :: r < n && r !in base && Unheld(held, r)
  }

  lemma ReadyIff(t: Tracked, hold: seq<int>, base: set<nat>)
    requires Owns(t, hold, base)
    ensures t.Ready() <==> SomeLeft(|t.free|, base, hold)
  {
    if t.Ready() {
      var r := Lowest(t.free);
      assert t.free[r];
      assert r !in base && Unheld(hold, r);
    }
    if r: nat :| r < |t.free| && r !in base && Unheld(hold, r) {
      assert t.free[r];
    }
  }

  /** Over every run, an instruction can be renamed exactly when a physical register is left
      for it, if it writes one, a store id, if it stores, and a snapshot, if it branches. */
  lemma RenamesIff(c: Config, es: seq<Event>, ins: Instr)
    requires c.Ok() && After(c, es).At? && Fits(ins, c.naregs)
    ensures var m := After(c, es).m;
      Enabled(c, m, Rename(ins)) <==>
        && (ins.writes ==> SomeLeft(c.npregs - 1, Base(c, m.df.aregs, m.leaked), Holds(c, m.rob)))
        && (ins.store ==> SomeLeft(c.nstores, {}, Stores(m.rob)))
        && (ins.branch ==> SomeLeft(c.nsnapshots, {}, Lives(m.rob)))
  {
    RunKeeps(c, es);
    var m := After(c, es).m;
    AllOwn(c, m);
    ReadyIff(m.df.regs, Holds(c, m.rob), Base(c, m.df.aregs, m.leaked));
    ReadyIff(m.df.stores, Stores(m.rob), {});
    ReadyIff(m.df.snaps, Lives(m.rob), {});
    hide ListsExact, MapsOk, ArchOk, ValuesOk, SomeLeft, Tracked.Ready, Base, Owns;
  }

  lemma AllOwn(c: Config, m: Machine)
    requires ListsExact(c, m.df, m.rob, m.leaked)
    ensures Owns(m.df.regs, Holds(c, m.rob), Base(c, m.df.aregs, m.leaked))
    ensures Owns(m.df.stores, Stores(m.rob), {}) && Owns(m.df.snaps, Lives(m.rob), {})
  {
    hide Owns, Tracks;
  }
}
