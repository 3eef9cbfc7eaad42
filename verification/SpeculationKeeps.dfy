/** Every cycle keeps the invariant of the delayed machine. */
module SpeculationKeeps {
  import opened Options
  import opened KillUnit
  import opened SequenceAllocator
  import opened ControlFlow
  import opened FreeLists
  import opened Speculation
  import opened SpeculationInvariant

  // ----- The window after a cycle, position by position ---------------------------------

  ghost predicate Acts(v: seq<Entry>, entry: Option<Entry>, in_: Input, mis: bool, commit: bool) {
    && (in_.resolve.Some? ==> in_.resolve.value.0 < |v| && v[in_.resolve.value.0].id >= 0)
    && (in_.writeback.Some? ==> in_.writeback.value < |v| && v[in_.writeback.value].id == -1)
    && (mis ==> in_.resolve.Some? && entry.None?)
    && (commit ==> |v| > 0 && v[0].id == -1)
  }

  ghost function ResolvedId(v: seq<Entry>, in_: Input): set<nat>
    requires in_.resolve.Some? ==> in_.resolve.value.0 < |v| && v[in_.resolve.value.0].id >= 0
  {
    if in_.resolve.Some? then {v[in_.resolve.value.0].id as nat} else {}
  }

  lemma AfterLength(v: seq<Entry>, entry: Option<Entry>, in_: Input, mis: bool, commit: bool)
    requires Acts(v, entry, in_, mis, commit)
    ensures |Immediate(v, entry, in_, mis, commit, false)| ==
            (if mis then in_.resolve.value.0 + 1 else |v| + (if entry.Some? then 1 else 0)) - (if commit then 1 else 0)
  {
  }

  lemma AfterAt(v: seq<Entry>, entry: Option<Entry>, in_: Input, mis: bool, commit: bool, i: nat)
    requires Acts(v, entry, in_, mis, commit) && i < |Immediate(v, entry, in_, mis, commit, false)|
    ensures var (e, p) := (Immediate(v, entry, in_, mis, commit, false)[i], if commit then i + 1 else i);
      && p <= |v| && (p == |v| ==> entry.Some?)
      && e == (if p == |v| then entry.value
               else v[p].(done := v[p].done || in_.writeback == Some(p),
                          id := if in_.resolve.Some? && in_.resolve.value.0 == p then -1 else v[p].id))
              .(mask := (if p == |v| then entry.value.mask else v[p].mask) - (if mis then {} else ResolvedId(v, in_)))
  {
    AfterLength(v, entry, in_, mis, commit);
    var w := Written(Registered(v, entry), in_.writeback);
    var p := if commit then i + 1 else i;
    assert w[p] == if p == |v| then entry.value else v[p].(done := v[p].done || in_.writeback == Some(p));
  }

  // ----- Masks and snapshot allocator ---------------------------------------------------

  ghost function Opened(entry: Option<Entry>): set<nat> {
    if entry.Some? && entry.value.id >= 0 then {entry.value.id as nat} else {}
  }

  ghost function SnapsAfter(snaps: Tracked, v: seq<Entry>, entry: Option<Entry>, in_: Input, mis: bool): Tracked
    requires snaps.Shaped(|snaps.free|, |snaps.tracks|) && |snaps.free| == |snaps.tracks|
    requires Opened(entry) != {} ==> snaps.Ready()
    requires in_.resolve.Some? ==> in_.resolve.value.0 < |v| && 0 <= v[in_.resolve.value.0].id < |snaps.free|
  {
    var s1 := TakeAndOpen(snaps, Opened(entry) != {}, Opened(entry) != {}, snaps.Index());
    if in_.resolve.None? then s1
    else
      var id := v[in_.resolve.value.0].id;
      if mis then s1.Free(id).Revert(id) else s1.Free(id)
  }

  ghost predicate EntryOk(v: seq<Entry>, snaps: Tracked, entry: Option<Entry>) {
    entry.Some? ==>
      && entry.value.mask == IdsBefore(IdsOf(v), |v|)
      && (entry.value.id == -1 || (snaps.Ready() && entry.value.id == snaps.Index()))
  }

  lemma RegisterMask(v: seq<Entry>, e: Entry)
    ensures IdsBefore(IdsOf(v + [e]), |v| + 1) == IdsBefore(IdsOf(v), |v|) + Opened(Some(e))
  {
    var ids := IdsOf(v + [e]);
    assert IdsBefore(ids, |v| + 1) == IdsBefore(ids, |v|) + Opened(Some(e));
    hide IdsBefore;
    IdsBeforeSame(ids, IdsOf(v), |v|);
  }

  lemma TakeNothing(snaps: Tracked)
    requires snaps.Shaped(|snaps.free|, |snaps.tracks|)
    ensures TakeAndOpen(snaps, false, false, snaps.Index()) == snaps
  {
  }

  lemma StepRegister(n: nat, v: seq<Entry>, snaps: Tracked, entry: Option<Entry>, in_: Input)
    requires WindowOk(n, v, snaps) && EntryOk(v, snaps, entry)
    ensures var w := Written(Registered(v, entry), in_.writeback);
      && WindowOk(n, w, TakeAndOpen(snaps, Opened(entry) != {}, Opened(entry) != {}, snaps.Index()))
      && IdsOf(w) == IdsOf(Registered(v, entry))
      && IdsBefore(IdsOf(w), |w|) == IdsBefore(IdsOf(v), |v|) + Opened(entry)
  {
    hide Exact, MasksExact, IdsBefore, TakeAndOpen;
    var v1 := Registered(v, entry);
    var s1 := TakeAndOpen(snaps, Opened(entry) != {}, Opened(entry) != {}, snaps.Index());
    if entry.Some? {
      assert Opened(entry) != {} <==> entry.value.id >= 0;
      OkRegister(n, v, snaps, entry.value, entry.value.id >= 0);
      RegisterMask(v, entry.value);
    } else {
      assert s1 == snaps by { TakeNothing(snaps); }
    }
    OkWritten(n, v1, s1, in_.writeback);
  }

  ghost function MaskAfter(v: seq<Entry>, entry: Option<Entry>, in_: Input, mis: bool): set<nat>
    requires in_.resolve.Some? ==> in_.resolve.value.0 < |v| && v[in_.resolve.value.0].id >= 0
    requires mis ==> in_.resolve.Some?
  {
    if mis then v[in_.resolve.value.0].mask else IdsBefore(IdsOf(v), |v|) + Opened(entry) - ResolvedId(v, in_)
  }

  lemma WrittenAt(v: seq<Entry>, entry: Option<Entry>, writeback: Option<nat>, j: nat)
    requires j < |v|
    ensures var w := Written(Registered(v, entry), writeback);
      && j < |w| && w[j].id == v[j].id && w[j].mask == v[j].mask
      && |Resolved(w, j, false)| == |w| && |Resolved(w, j, true)| == j + 1
  {
  }

  lemma StepResolve(n: nat, v: seq<Entry>, snaps: Tracked, entry: Option<Entry>, in_: Input, mis: bool)
    requires WindowOk(n, v, snaps) && EntryOk(v, snaps, entry) && Acts(v, entry, in_, mis, false)
    requires in_.resolve.Some? ==> v[in_.resolve.value.0].id < n
    ensures var w := Immediate(v, entry, in_, mis, false, false);
      && WindowOk(n, w, SnapsAfter(snaps, v, entry, in_, mis))
      && IdsBefore(IdsOf(w), |w|) == MaskAfter(v, entry, in_, mis)
  {
    hide MasksExact, Exact, IdsBefore, TakeAndOpen, Registered, Written, Resolved;
    StepRegister(n, v, snaps, entry, in_);
    if in_.resolve.Some? {
      var (w, j) := (Written(Registered(v, entry), in_.writeback), in_.resolve.value.0);
      var s1 := TakeAndOpen(snaps, Opened(entry) != {}, Opened(entry) != {}, snaps.Index());
      WrittenAt(v, entry, in_.writeback, j);
      hide WindowOk;
      if mis { OkMispredict(n, w, s1, j); } else { OkCorrect(n, w, s1, j); }
    }
  }

  lemma StepCommit(n: nat, v: seq<Entry>, snaps: Tracked, entry: Option<Entry>, in_: Input, mis: bool, commit: bool)
    requires WindowOk(n, v, snaps) && EntryOk(v, snaps, entry) && Acts(v, entry, in_, mis, commit)
    requires in_.resolve.Some? ==> v[in_.resolve.value.0].id < n
    ensures var w := Immediate(v, entry, in_, mis, commit, false);
      && WindowOk(n, w, SnapsAfter(snaps, v, entry, in_, mis))
      && IdsBefore(IdsOf(w), |w|) == MaskAfter(v, entry, in_, mis)
  {
    hide Exact, MasksExact, IdsBefore;
    var after := SnapsAfter(snaps, v, entry, in_, mis);
    hide *;
    StepResolve(n, v, snaps, entry, in_, mis);
    if commit {
      HeadGoes(v, entry, in_, mis);
      OkTail(n, Immediate(v, entry, in_, mis, false, false), after);
    }
  }

  lemma HeadGoes(v: seq<Entry>, entry: Option<Entry>, in_: Input, mis: bool)
    requires Acts(v, entry, in_, mis, true)
    ensures var w := Immediate(v, entry, in_, mis, false, false);
      |w| > 0 && w[0].id == -1 && Immediate(v, entry, in_, mis, true, false) == w[1..]
  {
    AfterLength(v, entry, in_, mis, false);
    AfterAt(v, entry, in_, mis, false, 0);
  }

  lemma ActsOk(n: nat, size: nat, s: System, in_: Input)
    requires Inv(n, size, s) && Sane(n, size, s, in_)
    ensures Acts(View(s), NewEntry(n, size, s, in_), in_, Mispredicts(s, in_), Commits(s, in_))
    ensures EntryOk(View(s), s.snaps, NewEntry(n, size, s, in_))
    ensures Commits(s, in_) ==> View(s)[0].done && View(s)[0].seqNo == s.r.win.head
  {
    if Commits(s, in_) { HeadResolved(n, size, s, in_); }
    hide WindowOk, RobOk, NumbersOk, SerialOk, PredictionsOk, IdsBefore;
  }

  lemma SnapsNext(n: nat, size: nat, s: System, in_: Input)
    requires Inv(n, size, s) && Sane(n, size, s, in_) && !CommitRedirects(s, in_)
    ensures Opened(NewEntry(n, size, s, in_)) != {} ==> s.snaps.Ready()
    ensures Next(n, size, s, in_).snaps ==
      SnapsAfter(s.snaps, View(s), NewEntry(n, size, s, in_), in_, Mispredicts(s, in_))
  {
    hide WindowOk, RobOk, NumbersOk, SerialOk, PredictionsOk, IdsBefore, MasksExact;
  }

  lemma CutMask(n: nat, v: seq<Entry>, snaps: Tracked, j: nat)
    requires WindowOk(n, v, snaps) && j < |v| && v[j].id >= 0
    ensures IdsBefore(IdsOf(v), |v|) - ({v[j].id as nat} + (Ids(n) - v[j].mask)) == v[j].mask
  {
    var (ids, all) := (IdsOf(v), IdsBefore(IdsOf(v), |v|));
    hide IdsBefore, Tracks;
    forall x: nat
      ensures x in v[j].mask ==> x in all && x != ids[j]
      ensures x in all ==> x < n
    {
      IdsBeforeIn(ids, |v|, x);
      IdsBeforeIn(ids, j, x);
    }
  }

  lemma NextBmask(n: nat, size: nat, s: System, in_: Input)
    requires Sane(n, size, s, in_) && !CommitRedirects(s, in_)
    ensures var e := NewEntry(n, size, s, in_);
      Next(n, size, s, in_).r.bmask == s.r.NextMask(RedirectOf(s, in_), Opened(e) != {}, s.snaps.Index(), false)
  {
  }

  lemma ResolvedIsNotNext(n: nat, v: seq<Entry>, snaps: Tracked, j: nat)
    requires WindowOk(n, v, snaps) && j < |v| && snaps.Ready()
    ensures snaps.Index() != v[j].id
  {
    assert IdsOf(v)[j] == v[j].id;
    hide MasksExact, IdsBefore;
    IndexFresh(snaps, IdsOf(v));
  }

  lemma MaskMatches(n: nat, v: seq<Entry>, snaps: Tracked, regs: Regs, r: Option<Redirect>, entry: Option<Entry>,
      in_: Input, mis: bool)
    requires WindowOk(n, v, snaps) && EntryOk(v, snaps, entry) && Acts(v, entry, in_, mis, false)
    requires |regs.pcPred| == n && regs.bmask == IdsBefore(IdsOf(v), |v|)
    requires r.Some? <==> in_.resolve.Some?
    requires r.Some? ==> r.value.specIdx == v[in_.resolve.value.0].id < n && r.value.mask == v[in_.resolve.value.0].mask
    requires mis <==> regs.BranchRedirect(r)
    ensures regs.NextMask(r, Opened(entry) != {}, snaps.Index(), false) == MaskAfter(v, entry, in_, mis)
  {
    if in_.resolve.Some? {
      var j := in_.resolve.value.0;
      CutMask(n, v, snaps, j);
      if snaps.Ready() { ResolvedIsNotNext(n, v, snaps, j); }
    }
    hide WindowOk, IdsBefore;
  }

  lemma MaskNext(n: nat, size: nat, s: System, in_: Input)
    requires Inv(n, size, s) && Sane(n, size, s, in_) && !CommitRedirects(s, in_)
    ensures in_.resolve.Some? ==> View(s)[in_.resolve.value.0].id >= 0
    ensures Next(n, size, s, in_).r.bmask == MaskAfter(View(s), NewEntry(n, size, s, in_), in_, Mispredicts(s, in_))
  {
    NextBmask(n, size, s, in_);
    ActsOk(n, size, s, in_);
    hide Next, WindowOk, RobOk, NumbersOk, SerialOk, PredictionsOk, IdsBefore, NewEntry, View;
    assert s.r.bmask == IdsBefore(IdsOf(View(s)), |View(s)|) && WindowOk(n, View(s), s.snaps);
    hide Inv;
    MaskMatches(n, View(s), s.snaps, s.r, RedirectOf(s, in_), NewEntry(n, size, s, in_), in_, Mispredicts(s, in_));
  }

  lemma WindowKept(n: nat, size: nat, s: System, in_: Input)
    requires Inv(n, size, s) && Sane(n, size, s, in_)
    ensures var (s', w) := (Next(n, size, s, in_), Now(n, size, s, in_));
      WindowOk(n, w, s'.snaps) && s'.r.bmask == IdsBefore(IdsOf(w), |w|)
  {
    if CommitRedirects(s, in_) {
      AbortSnaps(n, size, s, in_);
    } else {
      ActsOk(n, size, s, in_);
      SnapsNext(n, size, s, in_);
      MaskNext(n, size, s, in_);
      hide Inv, Next, WindowOk, IdsBefore, Immediate;
      assert WindowOk(n, View(s), s.snaps) by { InvWindow(n, size, s); }
      StepCommit(n, View(s), s.snaps, NewEntry(n, size, s, in_), in_, Mispredicts(s, in_), Commits(s, in_));
    }
  }

  lemma InvWindow(n: nat, size: nat, s: System)
    requires Inv(n, size, s)
    ensures WindowOk(n, View(s), s.snaps)
  {
  }

  lemma AbortSnaps(n: nat, size: nat, s: System, in_: Input)
    requires Inv(n, size, s) && Sane(n, size, s, in_) && CommitRedirects(s, in_)
    ensures var (s', w) := (Next(n, size, s, in_), Now(n, size, s, in_));
      WindowOk(n, w, s'.snaps) && s'.r.bmask == IdsBefore(IdsOf(w), |w|)
  {
    hide WindowOk, RobOk, NumbersOk, SerialOk, PredictionsOk, MasksExact;
    var s' := Next(n, size, s, in_);
    assert s'.snaps.free == Full(n) && s'.snaps.Shaped(n, n);
    assert Now(n, size, s, in_) == [];
    OkEmpty(n, s'.snaps);
    assert s'.snaps.Set(Full(n)) == s'.snaps;
  }

  // ----- Sequence numbers ---------------------------------------------------------------

  /** The list of live numbers after the cycle, as the window of the allocator keeps it. */
  ghost function NumbersAfter(live: seq<nat>, tail: nat, entry: bool, cut: Option<nat>, commit: bool): seq<nat>
    requires cut.Some? ==> cut.value < |live|
    requires commit ==> |live| > 0
  {
    Rest(if cut.Some? then live[..cut.value + 1] else if entry then live + [tail] else live, commit)
  }

  ghost function CutAt(s: System, in_: Input): Option<nat>
    requires Legal(s, in_) && forall i :: 0 <= i < |View(s)| ==> View(s)[i].id < |s.r.pcPred|
  {
    if CommitRedirects(s, in_) then Some(0)
    else if Mispredicts(s, in_) then Some(in_.resolve.value.0) else None
  }

  lemma NextWin(n: nat, size: nat, s: System, in_: Input)
    requires Inv(n, size, s) && Sane(n, size, s, in_)
    ensures var (cut, win) := (CutAt(s, in_), s.r.win);
      && size >= 2 && win.Valid(size) && (cut.Some? ==> cut.value < win.num)
      && (NewEntry(n, size, s, in_).Some? ==> win.num < size) && (Commits(s, in_) ==> win.num > 0)
      && Next(n, size, s, in_).r.win ==
         win.Cycle(size, NewEntry(n, size, s, in_).Some?, Commits(s, in_), cut.Some?,
                   if cut.Some? then win.Live(size)[cut.value] else 0)
  {
    hide WindowOk, RobOk, SerialOk, PredictionsOk, View;
    if CommitRedirects(s, in_) {
      assert s.r.win.Live(size)[0] == s.r.win.head;
    } else if Mispredicts(s, in_) {
      assert s.r.win.Live(size)[in_.resolve.value.0] == View(s)[in_.resolve.value.0].seqNo;
    }
  }

  lemma NextWindow(n: nat, size: nat, s: System, in_: Input)
    requires Inv(n, size, s) && Sane(n, size, s, in_)
    ensures var (s', cut) := (Next(n, size, s, in_), CutAt(s, in_));
      && s'.r.win.Valid(size)
      && (cut.Some? ==> cut.value < s.r.win.num)
      && s'.r.win.Live(size) ==
          NumbersAfter(s.r.win.Live(size), s.r.win.tail, NewEntry(n, size, s, in_).Some?, cut, Commits(s, in_))
  {
    hide Inv, Next, View, NewEntry, Commits, CommitRedirects, Mispredicts, Window.Live, Window.Cycle;
    NextWin(n, size, s, in_);
    var (cut, win, entry, commit) := (CutAt(s, in_), s.r.win, NewEntry(n, size, s, in_).Some?, Commits(s, in_));
    hide *;
    CycleExact(win, size, entry, commit, cut.Some?, if cut.Some? then cut.value else 0);
    NumbersAfterIs(win, size, entry, cut, commit);
  }

  lemma NumbersAfterIs(w: Window, size: nat, entry: bool, cut: Option<nat>, commit: bool)
    requires w.Valid(size) && (cut.Some? ==> cut.value < w.num) && (commit ==> w.num > 0)
    ensures NumbersAfter(w.Live(size), w.tail, entry, cut, commit)
         == Wanted(w, size, entry, commit, cut.Some?, if cut.Some? then cut.value else 0)
  {
  }

  lemma NumbersAt(live: seq<nat>, tail: nat, entry: bool, cut: Option<nat>, commit: bool, i: nat)
    requires (cut.Some? ==> cut.value < |live|) && (commit ==> |live| > 0)
    requires i < |NumbersAfter(live, tail, entry, cut, commit)|
    ensures var p := if commit then i + 1 else i;
      && p <= |live| && (p == |live| ==> entry && cut.None?)
      && NumbersAfter(live, tail, entry, cut, commit)[i] == if p == |live| then tail else live[p]
  {
  }

  lemma NumbersAfterAt(v: seq<Entry>, live: seq<nat>, tail: nat, entry: Option<Entry>, in_: Input, mis: bool,
      commit: bool)
    requires Acts(v, entry, in_, mis, commit) && |live| == |v| && (forall i :: 0 <= i < |v| ==> v[i].seqNo == live[i])
    requires entry.Some? ==> entry.value.seqNo == tail
    ensures var (w, l) := (Immediate(v, entry, in_, mis, commit, false),
                           NumbersAfter(live, tail, entry.Some?,
                                        if mis then Some(in_.resolve.value.0) else None, commit));
      |w| == |l| && forall i :: 0 <= i < |w| ==> w[i].seqNo == l[i]
  {
    AfterLength(v, entry, in_, mis, commit);
    var w := Immediate(v, entry, in_, mis, commit, false);
    var cut := if mis then Some(in_.resolve.value.0) else None;
    assert |w| == |NumbersAfter(live, tail, entry.Some?, cut, commit)|;
    hide Immediate, NumbersAfter;
    forall i | 0 <= i < |w| ensures w[i].seqNo == NumbersAfter(live, tail, entry.Some?, cut, commit)[i] {
      AfterAt(v, entry, in_, mis, commit, i);
      NumbersAt(live, tail, entry.Some?, cut, commit, i);
    }
  }

  lemma LiveNumbers(n: nat, size: nat, s: System, in_: Input)
    requires Inv(n, size, s) && Sane(n, size, s, in_)
    ensures var live := s.r.win.Live(size);
      && |live| == |View(s)| == s.r.win.num
      && (forall i :: 0 <= i < |View(s)| ==> View(s)[i].seqNo == live[i])
      && (NewEntry(n, size, s, in_).Some? ==> NewEntry(n, size, s, in_).value.seqNo == s.r.win.tail)
  {
    hide WindowOk, RobOk, SerialOk, PredictionsOk, View;
  }

  lemma NumbersKept(n: nat, size: nat, s: System, in_: Input)
    requires Inv(n, size, s) && Sane(n, size, s, in_)
    ensures NumbersOk(size, Next(n, size, s, in_).r.win, Now(n, size, s, in_))
  {
    var (v, entry, mis, commit) := (View(s), NewEntry(n, size, s, in_), Mispredicts(s, in_), Commits(s, in_));
    NextWindow(n, size, s, in_);
    ActsOk(n, size, s, in_);
    LiveNumbers(n, size, s, in_);
    assert CommitRedirects(s, in_) ==> commit;
    hide Inv, Next, Immediate, Sane, NewEntry, View, CommitRedirects, Commits, Window.Live, EntryOk;
    if CommitRedirects(s, in_) {
      ImmediateAborts(v, entry, in_, mis, commit);
    } else {
      NumbersAfterAt(v, s.r.win.Live(size), s.r.win.tail, entry, in_, mis, commit);
    }
  }

  lemma ImmediateAborts(v: seq<Entry>, entry: Option<Entry>, in_: Input, mis: bool, commit: bool)
    requires in_.resolve.Some? ==> in_.resolve.value.0 < |v|
    ensures Immediate(v, entry, in_, mis, commit, true) == []
  {
  }

  // ----- Serialization and predictions --------------------------------------------------

  lemma SerialAfter(v: seq<Entry>, entry: Option<Entry>, in_: Input, mis: bool, commit: bool, serial: bool)
    requires Acts(v, entry, in_, mis, commit) && SerialOk(serial, v)
    requires entry.Some? ==> !serial && (entry.value.serialize ==> |v| == 0)
    ensures SerialOk(if (entry.Some? && entry.value.serialize) || (serial && commit) then !serial else serial,
                     Immediate(v, entry, in_, mis, commit, false))
  {
    var w := Immediate(v, entry, in_, mis, commit, false);
    AfterLength(v, entry, in_, mis, commit);
    hide Immediate;
    forall i | 0 <= i < |w|
      ensures w[i].serialize ==
        (if (if commit then i + 1 else i) == |v| then entry.value else v[if commit then i + 1 else i]).serialize
    {
      AfterAt(v, entry, in_, mis, commit, i);
    }
  }

  lemma NextSerial(n: nat, size: nat, s: System, in_: Input)
    requires Sane(n, size, s, in_)
    ensures var (e, commit) := (NewEntry(n, size, s, in_), Commits(s, in_));
      && Next(n, size, s, in_).r.serial ==
         (if (e.Some? && e.value.serialize) || (s.r.serial && commit) then !s.r.serial else s.r.serial)
      && (e.Some? ==> !s.r.serial && (e.value.serialize ==> s.r.win.num == 0))
      && (CommitRedirects(s, in_) ==> e.None? && commit)
  {
  }

  lemma SerialKept(n: nat, size: nat, s: System, in_: Input)
    requires Inv(n, size, s) && Sane(n, size, s, in_)
    ensures SerialOk(Next(n, size, s, in_).r.serial, Now(n, size, s, in_))
  {
    var (v, entry, mis, commit) := (View(s), NewEntry(n, size, s, in_), Mispredicts(s, in_), Commits(s, in_));
    ActsOk(n, size, s, in_);
    LiveNumbers(n, size, s, in_);
    NextSerial(n, size, s, in_);
    hide Next, Immediate, NewEntry, View, WindowOk, RobOk, NumbersOk, PredictionsOk, SerialOk, Window.Live;
    assert SerialOk(s.r.serial, v);
    hide Inv, Commits, CommitRedirects;
    if CommitRedirects(s, in_) {
      ImmediateAborts(v, entry, in_, mis, commit);
      NothingSerial(s.r.serial && !commit);
    } else {
      SerialAfter(v, entry, in_, mis, commit, s.r.serial);
    }
  }

  lemma NothingSerial(serial: bool)
    requires !serial
    ensures SerialOk(serial, [])
  {
  }

  lemma AbortNoEntry(n: nat, size: nat, s: System, in_: Input)
    requires Sane(n, size, s, in_) && CommitRedirects(s, in_)
    ensures NewEntry(n, size, s, in_) == None
  {
  }

  lemma NextPredictions(n: nat, size: nat, s: System, in_: Input)
    requires Sane(n, size, s, in_)
    ensures var e := NewEntry(n, size, s, in_);
      Next(n, size, s, in_).r.pcPred
      == if e.Some? && e.value.id >= 0 then s.r.pcPred[s.snaps.Index() := e.value.pcSucc] else s.r.pcPred
  {
  }

  lemma PredictionsAfter(n: nat, v: seq<Entry>, snaps: Tracked, entry: Option<Entry>, in_: Input, mis: bool,
                         commit: bool, pcPred: seq<Word>)
    requires WindowOk(n, v, snaps) && Acts(v, entry, in_, mis, commit) && EntryOk(v, snaps, entry)
    requires |pcPred| == n && PredictionsOk(pcPred, v)
    ensures PredictionsOk(if entry.Some? && entry.value.id >= 0
                          then pcPred[snaps.Index() := entry.value.pcSucc] else pcPred,
                          Immediate(v, entry, in_, mis, commit, false))
  {
    var pred' := if entry.Some? && entry.value.id >= 0 then pcPred[snaps.Index() := entry.value.pcSucc] else pcPred;
    hide WindowOk, Immediate, IdsBefore;
    var w := Immediate(v, entry, in_, mis, commit, false);
    forall i | 0 <= i < |w| && 0 <= w[i].id < |pred'| ensures pred'[w[i].id] == w[i].pcSucc {
      AfterAt(v, entry, in_, mis, commit, i);
      var p := if commit then i + 1 else i;
      if p < |v| {
        assert pcPred[v[p].id] == v[p].pcSucc;
        if snaps.Ready() { ResolvedIsNotNext(n, v, snaps, p); }
      }
    }
  }

  lemma PredictionsKept(n: nat, size: nat, s: System, in_: Input)
    requires Inv(n, size, s) && Sane(n, size, s, in_)
    ensures PredictionsOk(Next(n, size, s, in_).r.pcPred, Now(n, size, s, in_))
  {
    var (v, entry, mis, commit) := (View(s), NewEntry(n, size, s, in_), Mispredicts(s, in_), Commits(s, in_));
    ActsOk(n, size, s, in_);
    InvWindow(n, size, s);
    NextPredictions(n, size, s, in_);
    hide WindowOk, RobOk, NumbersOk, SerialOk, PredictionsOk, Next, Immediate, Sane, NewEntry, View;
    if CommitRedirects(s, in_) {
      ImmediateAborts(v, entry, in_, mis, commit);
      NoPredictions(Next(n, size, s, in_).r.pcPred);
    } else {
      PredictionsAfter(n, v, s.snaps, entry, in_, mis, commit, s.r.pcPred);
    }
  }

  lemma NoPredictions(pcPred: seq<Word>)
    ensures PredictionsOk(pcPred, [])
  {
  }

  // ----- Reorder buffer -----------------------------------------------------------------

  lemma NextSlot(n: nat, size: nat, s: System, in_: Input, x: nat)
    requires Sane(n, size, s, in_) && x < size
    ensures |Next(n, size, s, in_).rob| == size
    ensures Next(n, size, s, in_).rob[x] ==
      if in_.writeback.Some? && View(s)[in_.writeback.value].seqNo == x
      then Slot(true, View(s)[in_.writeback.value].mask, View(s)[in_.writeback.value].uid)
      else Slot(SlotReady(s, x) && !(Commits(s, in_) && x == s.r.win.head), Out(s.rob[x].mask, s.r.kill), s.rob[x].uid)
  {
  }

  lemma SeqNosDistinct(size: nat, win: Window, v: seq<Entry>, i: nat, j: nat)
    requires NumbersOk(size, win, v) && i < |v| && j < |v|
    ensures v[i].seqNo == v[j].seqNo <==> i == j
    ensures v[i].seqNo == win.head <==> i == 0
    ensures v[i].seqNo < size
    ensures win.num != size ==> v[i].seqNo != win.tail
  {
  }

  /** The slot of a window instruction after the cycle. */
  lemma SlotAfter(n: nat, size: nat, s: System, in_: Input, p: nat)
    requires Inv(n, size, s) && Sane(n, size, s, in_) && p < |View(s)|
    ensures var (s', e) := (Next(n, size, s, in_), View(s)[p]);
      var done := e.done || in_.writeback == Some(p);
      && e.seqNo < |s'.rob|
      && (done ==> s'.rob[e.seqNo].uid == e.uid && s'.rob[e.seqNo].mask == e.mask && e.id == -1)
      && (s'.rob[e.seqNo].valid <==> done && !(Commits(s, in_) && p == 0))
  {
    var v := View(s);
    SeqNosDistinct(size, s.r.win, v, p, p);
    NextSlot(n, size, s, in_, v[p].seqNo);
    if in_.writeback.Some? { SeqNosDistinct(size, s.r.win, v, in_.writeback.value, p); }
    if Commits(s, in_) { HeadResolved(n, size, s, in_); }
    hide WindowOk, NumbersOk, SerialOk, PredictionsOk, Next, NewEntry, View;
  }

  lemma SlotReadyAfter(n: nat, size: nat, s: System, in_: Input, p: nat)
    requires Inv(n, size, s) && Sane(n, size, s, in_) && p < |View(s)|
    ensures var (s', e) := (Next(n, size, s, in_), View(s)[p]);
      var done := e.done || in_.writeback == Some(p);
      && e.seqNo < |s'.rob|
      && (done ==> s'.rob[e.seqNo].uid == e.uid && s'.rob[e.seqNo].mask == e.mask && e.id == -1)
      && (SlotReady(s', e.seqNo) <==> done && !(Commits(s, in_) && p == 0) && !CommitRedirects(s, in_)
                                      && (Mispredicts(s, in_) ==> p <= in_.resolve.value.0))
  {
    SlotAfter(n, size, s, in_, p);
    KeepIffCut(n, size, s, in_, p);
    NextFields(n, size, s, in_);
    hide Inv, Next, View;
  }

  /** A number outside the window has no ready slot. */
  lemma SlotNotReady(n: nat, size: nat, s: System, in_: Input, x: nat)
    requires Inv(n, size, s) && Sane(n, size, s, in_) && x < size
    requires forall p :: 0 <= p < |View(s)| ==> View(s)[p].seqNo != x
    ensures |Next(n, size, s, in_).rob| == size && !SlotReady(Next(n, size, s, in_), x)
  {
    NextSlot(n, size, s, in_, x);
    hide WindowOk, NumbersOk, SerialOk, PredictionsOk, Next, NewEntry, View;
  }

  /** RobOk for position i of the new window. */
  ghost predicate RobEntryOk(s: System, e: Entry) {
    && e.seqNo < |s.rob|
    && (SlotReady(s, e.seqNo) <==> e.done)
    && (e.done ==> s.rob[e.seqNo].uid == e.uid && Out(s.rob[e.seqNo].mask, s.r.kill) == e.mask && e.id == -1)
  }

  lemma RobEntryKept(n: nat, size: nat, s: System, in_: Input, i: nat)
    requires Inv(n, size, s) && Sane(n, size, s, in_) && i < |Now(n, size, s, in_)|
    ensures RobEntryOk(Next(n, size, s, in_), Now(n, size, s, in_)[i])
  {
    hide View, Immediate;
    var (v, entry, mis, commit) := (View(s), NewEntry(n, size, s, in_), Mispredicts(s, in_), Commits(s, in_));
    ActsOk(n, size, s, in_);
    if CommitRedirects(s, in_) { ImmediateAborts(v, entry, in_, mis, commit); }
    NextFields(n, size, s, in_);
    NextKillExact(n, size, s, in_);
    ClearExact(n, size, s, in_);
    AfterLength(v, entry, in_, mis, commit);
    AfterAt(v, entry, in_, mis, commit, i);
    var p := if commit then i + 1 else i;
    if p < |v| {
      SlotReadyAfter(n, size, s, in_, p);
      hide Inv, Next, View, Immediate, NewEntry;
    } else {
      NewSlot(n, size, s, in_);
      hide Inv, Next, View, Immediate;
    }
  }

  lemma ClearExact(n: nat, size: nat, s: System, in_: Input)
    requires Sane(n, size, s, in_)
    ensures s.r.ClearMask(RedirectOf(s, in_)) == if Mispredicts(s, in_) then {} else ResolvedId(View(s), in_)
  {
  }

  /** A fresh number starts with an empty slot. */
  lemma NewSlot(n: nat, size: nat, s: System, in_: Input)
    requires Inv(n, size, s) && Sane(n, size, s, in_) && NewEntry(n, size, s, in_).Some?
    ensures var (s', e) := (Next(n, size, s, in_), NewEntry(n, size, s, in_).value);
      e.seqNo < |s'.rob| && !SlotReady(s', e.seqNo) && !e.done
  {
    var v := View(s);
    assert s.r.win.num != size && NewEntry(n, size, s, in_).value.seqNo == s.r.win.tail < size;
    forall p | 0 <= p < |v| ensures v[p].seqNo != s.r.win.tail { SeqNosDistinct(size, s.r.win, v, p, p); }
    SlotNotReady(n, size, s, in_, s.r.win.tail);
  }

  lemma ReadyIsLive(n: nat, size: nat, s: System, in_: Input, x: nat) returns (p: nat)
    requires Inv(n, size, s) && Sane(n, size, s, in_) && x < size
    requires |Next(n, size, s, in_).rob| == size && SlotReady(Next(n, size, s, in_), x)
    ensures p < |View(s)| && View(s)[p].seqNo == x
  {
    hide *;
    assert exists p :: 0 <= p < |View(s)| && View(s)[p].seqNo == x by {
      if forall p :: 0 <= p < |View(s)| ==> View(s)[p].seqNo != x { SlotNotReady(n, size, s, in_, x); }
    }
    p :| 0 <= p < |View(s)| && View(s)[p].seqNo == x;
  }

  lemma PositionAfter(v: seq<Entry>, entry: Option<Entry>, in_: Input, mis: bool, commit: bool, p: nat) returns (i: nat)
    requires Acts(v, entry, in_, mis, commit) && p < |v| && (commit ==> p > 0) && (mis ==> p <= in_.resolve.value.0)
    ensures var w := Immediate(v, entry, in_, mis, commit, false); i < |w| && w[i].seqNo == v[p].seqNo
  {
    AfterLength(v, entry, in_, mis, commit);
    i := if commit then p - 1 else p;
    AfterAt(v, entry, in_, mis, commit, i);
  }

  /** Every ready slot belongs to an instruction of the new window. */
  lemma RobCovered(n: nat, size: nat, s: System, in_: Input, x: nat) returns (i: nat)
    requires Inv(n, size, s) && Sane(n, size, s, in_) && x < size
    requires |Next(n, size, s, in_).rob| == size && SlotReady(Next(n, size, s, in_), x)
    ensures i < |Now(n, size, s, in_)| && Now(n, size, s, in_)[i].seqNo == x
  {
    var (v, entry, mis, commit) := (View(s), NewEntry(n, size, s, in_), Mispredicts(s, in_), Commits(s, in_));
    var now := Now(n, size, s, in_);
    assert !CommitRedirects(s, in_) ==> now == Immediate(v, entry, in_, mis, commit, false);
    ActsOk(n, size, s, in_);
    hide *;
    var p := ReadyIsLive(n, size, s, in_, x);
    SlotReadyAfter(n, size, s, in_, p);
    i := PositionAfter(v, entry, in_, mis, commit, p);
  }

  lemma RobKept(n: nat, size: nat, s: System, in_: Input)
    requires Inv(n, size, s) && Sane(n, size, s, in_)
    ensures RobOk(size, Next(n, size, s, in_), Now(n, size, s, in_))
  {
    var (s', w) := (Next(n, size, s, in_), Now(n, size, s, in_));
    assert |s'.rob| == size;
    hide *;
    forall i | 0 <= i < |w| ensures RobEntryOk(s', w[i]) { RobEntryKept(n, size, s, in_, i); }
    forall x: nat | x < size && SlotReady(s', x) ensures exists i :: 0 <= i < |w| && w[i].seqNo == x {
      var i := RobCovered(n, size, s, in_, x);
      assert w[i].seqNo == x;
    }
    RobFrom(size, s', w);
  }

  lemma RobFrom(size: nat, s: System, w: seq<Entry>)
    requires |s.rob| == size && forall i :: 0 <= i < |w| ==> RobEntryOk(s, w[i])
    requires forall x: nat :: x < size && SlotReady(s, x) ==> exists i :: 0 <= i < |w| && w[i].seqNo == x
    ensures RobOk(size, s, w)
  {
    hide SlotReady;
  }

  // ----- All together -------------------------------------------------------------------

  lemma QuietKept(n: nat, size: nat, s: System, in_: Input)
    requires Inv(n, size, s) && Sane(n, size, s, in_)
    ensures var s' := Next(n, size, s, in_);
      |s'.r.pcPred| == n && (!s'.r.killPend ==> s'.r.kill == QUIET)
  {
  }

  lemma InvKeeps(n: nat, size: nat, s: System, in_: Input)
    requires Inv(n, size, s) && Sane(n, size, s, in_)
    ensures Inv(n, size, Next(n, size, s, in_))
  {
    Refines(n, size, s, in_);
    WindowKept(n, size, s, in_);
    NumbersKept(n, size, s, in_);
    SerialKept(n, size, s, in_);
    PredictionsKept(n, size, s, in_);
    RobKept(n, size, s, in_);
    QuietKept(n, size, s, in_);
    hide Next, Now, View, WindowOk, NumbersOk, SerialOk, PredictionsOk, RobOk, Sane, IdsBefore;
    assert Next(n, size, s, in_).r.win.Valid(size) by {
      NumbersValid(size, Next(n, size, s, in_).r.win, Now(n, size, s, in_));
    }
  }

  lemma NumbersValid(size: nat, win: Window, v: seq<Entry>)
    requires NumbersOk(size, win, v)
    ensures win.Valid(size)
  {
  }
}
