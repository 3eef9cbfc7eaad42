/** The delayed machine refines the immediate one, cycle by cycle. */
module SpeculationInvariant {
  import opened Options
  import opened KillUnit
  import opened SequenceAllocator
  import opened ControlFlow
  import opened FreeLists
  import opened Speculation

  // ----- Broadcasts that keep a prefix ------------------------------------------------

  lemma {:induction false} SurvivorsNone(p: seq<Entry>, k: Kill)
    requires forall i :: 0 <= i < |p| ==> !Keep(p[i].mask, k)
    ensures Survivors(p, k) == []
  {
    if |p| > 0 { SurvivorsNone(p[..|p| - 1], k); }
  }

  lemma {:induction false} SurvivorsPrefix(p: seq<Entry>, k: Kill, c: nat)
    requires c <= |p| && forall i :: 0 <= i < |p| ==> (Keep(p[i].mask, k) <==> i < c)
    ensures Survivors(p, k) == Cleared(p[..c], k)
  {
    if |p| > 0 {
      var q := p[..|p| - 1];
      if c == |p| {
        SurvivorsPrefix(q, k, c - 1);
        assert p[..c] == q + [p[c - 1]] && q[..c - 1] == q;
      } else {
        SurvivorsPrefix(q, k, c);
        assert q[..c] == p[..c];
      }
    }
  }

  // ----- What the next broadcast keeps -------------------------------------------------

  ghost predicate Mispredicts(s: System, in_: Input)
    requires Legal(s, in_) && forall i :: 0 <= i < |View(s)| ==> View(s)[i].id < |s.r.pcPred|
  {
    s.r.BranchRedirect(RedirectOf(s, in_))
  }

  /** The broadcast registered this cycle is the one this cycle's redirect calls for. */
  lemma NextKillExact(n: nat, size: nat, s: System, in_: Input)
    requires Sane(n, size, s, in_) && (!s.r.killPend ==> s.r.kill == QUIET)
    ensures var (r, cr) := (RedirectOf(s, in_), CommitRedirects(s, in_));
      s.r.NextKill(r, cr) == Kill(cr, s.r.KillMask(r), s.r.ClearMask(r))
  {
  }

  lemma KeepIffCut(n: nat, size: nat, s: System, in_: Input, i: nat)
    requires Sane(n, size, s, in_) && i < |View(s)|
    requires WindowOk(n, View(s), s.snaps) && (!s.r.killPend ==> s.r.kill == QUIET)
    ensures var cr := CommitRedirects(s, in_);
      Keep(View(s)[i].mask, s.r.NextKill(RedirectOf(s, in_), cr))
      <==> !cr && (Mispredicts(s, in_) ==> i <= in_.resolve.value.0)
  {
    NextKillExact(n, size, s, in_);
    if Mispredicts(s, in_) {
      var v := View(s);
      KillExact(n, v, s.snaps, in_.resolve.value.0, i);
    }
    hide WindowOk, SlotReady;
  }

  lemma CurrentMaskExact(n: nat, size: nat, s: System, in_: Input)
    requires Inv(n, size, s) && Sane(n, size, s, in_) && !Mispredicts(s, in_)
    ensures s.r.CurrentMask(RedirectOf(s, in_)) ==
            IdsBefore(IdsOf(View(s)), |View(s)|) -
            (if in_.resolve.Some? then {View(s)[in_.resolve.value.0].id as nat} else {})
  {
  }

  // ----- Refinement -----------------------------------------------------------------

  ghost function Now(n: nat, size: nat, s: System, in_: Input): seq<Entry>
    requires Sane(n, size, s, in_)
  {
    Immediate(View(s), NewEntry(n, size, s, in_), in_, Mispredicts(s, in_), Commits(s, in_), CommitRedirects(s, in_))
  }

  lemma RefinesAbort(n: nat, size: nat, s: System, in_: Input)
    requires Inv(n, size, s) && Sane(n, size, s, in_) && CommitRedirects(s, in_)
    ensures View(Next(n, size, s, in_)) == Now(n, size, s, in_)
  {
    NextKillExact(n, size, s, in_);
    SurvivorsNone(Next(n, size, s, in_).pipe, Next(n, size, s, in_).r.kill);
  }

  lemma HeadResolved(n: nat, size: nat, s: System, in_: Input)
    requires Inv(n, size, s) && Commits(s, in_)
    ensures |View(s)| > 0 && View(s)[0].done && View(s)[0].id == -1 && View(s)[0].seqNo == s.r.win.head
  {
    var v := View(s);
    assert s.r.win.Live(size)[0] == s.r.win.head;
  }

  /** What the pipeline stores after the cycle. */
  ghost function Stored(v: seq<Entry>, entry: Option<Entry>, in_: Input, commit: bool): seq<Entry> {
    var kept := Marked(v, in_.resolve, in_.writeback);
    (if commit && |kept| > 0 then kept[1..] else kept) + (if entry.Some? then [entry.value] else [])
  }

  ghost function StoredEntry(n: nat, size: nat, s: System, in_: Input): Option<Entry>
    requires Sane(n, size, s, in_)
  {
    var e := NewEntry(n, size, s, in_);
    if e.Some? then Some(e.value.(mask := s.r.CurrentMask(RedirectOf(s, in_)))) else None
  }

  lemma NextFields(n: nat, size: nat, s: System, in_: Input)
    requires Sane(n, size, s, in_)
    ensures Next(n, size, s, in_).pipe == Stored(View(s), StoredEntry(n, size, s, in_), in_, Commits(s, in_))
    ensures Next(n, size, s, in_).r.kill == s.r.NextKill(RedirectOf(s, in_), CommitRedirects(s, in_))
  {
  }

  lemma CutList(v: seq<Entry>, in_: Input, commit: bool, k: Kill)
    requires in_.resolve.Some? && in_.resolve.value.0 < |v| && k.clear == {}
    requires in_.writeback.Some? ==> in_.writeback.value < |v| && in_.writeback.value != in_.resolve.value.0
    requires commit ==> in_.resolve.value.0 > 0
    requires forall i :: 0 <= i < |v| ==> (Keep(v[i].mask, k) <==> i <= in_.resolve.value.0)
    ensures Survivors(Stored(v, None, in_, commit), k) == Immediate(v, None, in_, true, commit, false)
  {
    var (p, j, c) := (Stored(v, None, in_, commit), in_.resolve.value.0, if commit then 1 else 0);
    assert forall i :: 0 <= i < |p| ==> p[i].mask == v[i + c].mask;
    CutBody(v, in_, commit);
    hide Stored, Immediate;
    SurvivorsPrefix(p, k, j + 1 - c);
    var q := p[..j + 1 - c];
    hide Survivors, Keep;
    var a := Cleared(q, k);
    forall i | 0 <= i < |q| ensures a[i] == q[i] {
      assert a[i] == q[i].(mask := q[i].mask - k.clear);
    }
  }

  /** A cut without late clearing leaves the older instructions and the branch. */
  lemma CutBody(v: seq<Entry>, in_: Input, commit: bool)
    requires in_.resolve.Some? && in_.resolve.value.0 < |v|
    requires in_.writeback.Some? ==> in_.writeback.value < |v| && in_.writeback.value != in_.resolve.value.0
    requires commit ==> in_.resolve.value.0 > 0
    ensures var (p, j, c) := (Stored(v, None, in_, commit), in_.resolve.value.0, if commit then 1 else 0);
      |p| == |v| - c && p[..j + 1 - c] == Immediate(v, None, in_, true, commit, false)
  {
    var (j, m, w) := (in_.resolve.value.0, Marked(v, in_.resolve, in_.writeback), Written(v, in_.writeback));
    assert m[..j + 1] == w[..j] + [w[j].(id := -1)];
  }

  lemma WholeBody(v: seq<Entry>, entry: Option<Entry>, stored: Option<Entry>, in_: Input, k: Kill)
    requires in_.resolve.Some? ==> in_.resolve.value.0 < |v| && v[in_.resolve.value.0].id >= 0
    requires in_.writeback.Some? ==> in_.writeback.value < |v|
    requires k == Kill(false, {}, if in_.resolve.Some? then {v[in_.resolve.value.0].id as nat} else {})
    requires stored == if entry.Some? then Some(entry.value.(mask := entry.value.mask - k.clear)) else None
    ensures Cleared(Stored(v, stored, in_, false), k) == Immediate(v, entry, in_, false, false, false)
  {
    var (a, b) := (Cleared(Stored(v, stored, in_, false), k), Immediate(v, entry, in_, false, false, false));
    var w := Written(Registered(v, entry), in_.writeback);
    assert |a| == |b| == |w|;
    forall i | 0 <= i < |w| ensures a[i] == b[i] {
      if i < |v| {
        assert a[i] == Marked(v, in_.resolve, in_.writeback)[i].(mask := v[i].mask - k.clear);
        assert w[i] == v[i].(done := w[i].done);
      } else {
        assert w[i] == entry.value && a[i] == stored.value.(mask := stored.value.mask - k.clear);
      }
    }
  }

  lemma WholeList(v: seq<Entry>, entry: Option<Entry>, stored: Option<Entry>, in_: Input, commit: bool, k: Kill)
    requires in_.resolve.Some? ==> in_.resolve.value.0 < |v| && v[in_.resolve.value.0].id >= 0
    requires in_.writeback.Some? ==> in_.writeback.value < |v|
    requires commit ==> |v| > 0
    requires k == Kill(false, {}, if in_.resolve.Some? then {v[in_.resolve.value.0].id as nat} else {})
    requires stored == if entry.Some? then Some(entry.value.(mask := entry.value.mask - k.clear)) else None
    ensures Survivors(Stored(v, stored, in_, commit), k) == Immediate(v, entry, in_, false, commit, false)
  {
    WholeBody(v, entry, stored, in_, k);
    if commit { CommitDropsHead(v, entry, stored, in_); }
    hide Stored, Immediate;
    var (p, all) := (Stored(v, stored, in_, commit), Stored(v, stored, in_, false));
    SurvivorsPrefix(p, k, |p|);
    assert p[..|p|] == p;
    if commit { assert Cleared(all[1..], k) == Cleared(all, k)[1..]; }
  }

  lemma CommitDropsHead(v: seq<Entry>, entry: Option<Entry>, stored: Option<Entry>, in_: Input)
    requires |v| > 0 && (in_.resolve.Some? ==> in_.resolve.value.0 < |v|)
    ensures |Stored(v, stored, in_, false)| > 0 && |Immediate(v, entry, in_, false, false, false)| > 0
    ensures Stored(v, stored, in_, true) == Stored(v, stored, in_, false)[1..]
    ensures Immediate(v, entry, in_, false, true, false) == Immediate(v, entry, in_, false, false, false)[1..]
  {
  }

  lemma RefinesCut(n: nat, size: nat, s: System, in_: Input)
    requires Inv(n, size, s) && Sane(n, size, s, in_) && !CommitRedirects(s, in_) && Mispredicts(s, in_)
    ensures View(Next(n, size, s, in_)) == Now(n, size, s, in_)
  {
    var k := s.r.NextKill(RedirectOf(s, in_), false);
    if Commits(s, in_) { HeadResolved(n, size, s, in_); }
    NextFields(n, size, s, in_);
    NextKillExact(n, size, s, in_);
    assert NewEntry(n, size, s, in_) == None;
    forall i | 0 <= i < |View(s)| ensures Keep(View(s)[i].mask, k) <==> i <= in_.resolve.value.0 {
      KeepIffCut(n, size, s, in_, i);
    }
    hide Inv, Next, Stored, Immediate;
    CutList(View(s), in_, Commits(s, in_), k);
  }

  lemma RefinesWhole(n: nat, size: nat, s: System, in_: Input)
    requires Inv(n, size, s) && Sane(n, size, s, in_) && !CommitRedirects(s, in_) && !Mispredicts(s, in_)
    ensures View(Next(n, size, s, in_)) == Now(n, size, s, in_)
  {
    if Commits(s, in_) { HeadResolved(n, size, s, in_); }
    NextFields(n, size, s, in_);
    NextKillExact(n, size, s, in_);
    CurrentMaskExact(n, size, s, in_);
    hide Inv, Next, Stored, Immediate;
    WholeList(View(s), NewEntry(n, size, s, in_), StoredEntry(n, size, s, in_), in_, Commits(s, in_),
              s.r.NextKill(RedirectOf(s, in_), false));
  }

  /** After every cycle the survivors of the delayed broadcast are the window an immediate
      machine would have. */
  lemma Refines(n: nat, size: nat, s: System, in_: Input)
    requires Inv(n, size, s) && Sane(n, size, s, in_)
    ensures View(Next(n, size, s, in_)) == Now(n, size, s, in_)
  {
    if CommitRedirects(s, in_) { RefinesAbort(n, size, s, in_); }
    else if Mispredicts(s, in_) { RefinesCut(n, size, s, in_); }
    else { RefinesWhole(n, size, s, in_); }
  }

  // ----- Masks and snapshots stay exact ------------------------------------------------

  lemma {:induction false} IdsBeforeSame(a: seq<int>, b: seq<int>, k: nat)
    requires k <= |a| && k <= |b| && forall i :: 0 <= i < k ==> a[i] == b[i]
    ensures IdsBefore(a, k) == IdsBefore(b, k)
  {
    if k > 0 { IdsBeforeSame(a, b, k - 1); }
  }

  lemma {:induction false} IdsBeforeTail(a: seq<int>, k: nat)
    requires 0 < k <= |a| && a[0] == -1
    ensures IdsBefore(a[1..], k - 1) == IdsBefore(a, k)
  {
    if k > 1 { IdsBeforeTail(a, k - 1); }
  }

  lemma {:induction false} IdsBeforeDrop(a: seq<int>, j: nat, k: nat)
    requires j < |a| && k <= |a| && a[j] >= 0
    requires forall i :: 0 <= i < |a| && i != j ==> a[i] != a[j]
    ensures IdsBefore(a[j := -1], k) == IdsBefore(a, k) - {a[j] as nat}
  {
    if k > 0 { IdsBeforeDrop(a, j, k - 1); }
  }

  lemma MasksRegister(v: seq<Entry>, e: Entry)
    requires MasksExact(v) && e.mask == IdsBefore(IdsOf(v), |v|)
    ensures MasksExact(v + [e])
  {
    hide IdsBefore;
    forall i | 0 <= i <= |v| ensures IdsBefore(IdsOf(v + [e]), i) == IdsBefore(IdsOf(v), i) {
      IdsBeforeSame(IdsOf(v + [e]), IdsOf(v), i);
    }
  }

  lemma OkRegister(n: nat, v: seq<Entry>, snaps: Tracked, e: Entry, opens: bool)
    requires WindowOk(n, v, snaps) && (opens ==> snaps.Ready())
    requires e.mask == IdsBefore(IdsOf(v), |v|) && e.id == if opens then snaps.Index() else -1
    ensures WindowOk(n, v + [e], TakeAndOpen(snaps, opens, opens, snaps.Index()))
  {
    MasksRegister(v, e);
    assert TakeAndOpen(snaps, opens, opens, snaps.Index()).Shaped(n, n);
    hide Exact, TakeAndOpen, MasksExact, Fresh;
    if opens { IndexFresh(snaps, IdsOf(v)); }
    TakeAndOpenKeeps(snaps, IdsOf(v), {}, IdsOf(v), opens, opens, snaps.Index());
    assert IdsOf(v + [e]) == IdsOf(v) + [e.id];
  }

  lemma OkWritten(n: nat, v: seq<Entry>, snaps: Tracked, writeback: Option<nat>)
    requires WindowOk(n, v, snaps)
    ensures WindowOk(n, Written(v, writeback), snaps) && IdsOf(Written(v, writeback)) == IdsOf(v)
  {
    assert IdsOf(Written(v, writeback)) == IdsOf(v);
  }

  lemma LiveDistinct(snaps: Tracked, ids: seq<int>, j: nat)
    requires Exact(snaps, ids, {}, ids) && j < |ids| && ids[j] >= 0
    ensures forall i :: 0 <= i < |ids| && i != j ==> ids[i] != ids[j]
  {
    hide Tracks;
  }

  lemma MasksCorrect(v: seq<Entry>, j: nat)
    requires MasksExact(v) && j < |v| && v[j].id >= 0
    requires forall i :: 0 <= i < |v| && i != j ==> IdsOf(v)[i] != IdsOf(v)[j]
    ensures MasksExact(Resolved(v, j, false))
    ensures IdsOf(Resolved(v, j, false)) == IdsOf(v)[j := -1]
    ensures IdsBefore(IdsOf(v)[j := -1], |v|) == IdsBefore(IdsOf(v), |v|) - {v[j].id as nat}
  {
    hide IdsBefore;
    assert IdsOf(Resolved(v, j, false)) == IdsOf(v)[j := -1];
    forall i | 0 <= i <= |v| ensures IdsBefore(IdsOf(v)[j := -1], i) == IdsBefore(IdsOf(v), i) - {v[j].id as nat} {
      IdsBeforeDrop(IdsOf(v), j, i);
    }
  }

  lemma OkCorrect(n: nat, v: seq<Entry>, snaps: Tracked, j: nat)
    requires WindowOk(n, v, snaps) && j < |v| && 0 <= v[j].id < n
    ensures WindowOk(n, Resolved(v, j, false), snaps.Free(v[j].id))
    ensures IdsBefore(IdsOf(Resolved(v, j, false)), |v|) == IdsBefore(IdsOf(v), |v|) - {v[j].id as nat}
  {
    hide Exact, MasksExact, Resolved;
    LiveDistinct(snaps, IdsOf(v), j);
    MasksCorrect(v, j);
    ResolvedSnapsKeep(snaps, IdsOf(v), j);
  }

  lemma MispredictIds(v: seq<Entry>, j: nat)
    requires j < |v|
    ensures IdsOf(Resolved(v, j, true)) == IdsOf(v)[..j + 1][j := -1]
    ensures forall i :: 0 <= i <= j ==> Resolved(v, j, true)[i].mask == v[i].mask
  {
  }

  lemma MasksMispredict(v: seq<Entry>, j: nat)
    requires MasksExact(v) && j < |v|
    ensures MasksExact(Resolved(v, j, true))
    ensures IdsBefore(IdsOf(v)[..j + 1][j := -1], j + 1) == v[j].mask
  {
    var (w, ids, cut) := (Resolved(v, j, true), IdsOf(v), IdsOf(v)[..j + 1][j := -1]);
    assert IdsBefore(cut, j + 1) == IdsBefore(cut, j) by { hide MasksExact, Resolved; }
    MispredictIds(v, j);
    assert |w| == j + 1 && |ids| == |v|;
    hide IdsBefore, Resolved, IdsOf;
    forall i | 0 <= i <= j ensures IdsBefore(cut, i) == IdsBefore(ids, i) { IdsBeforeSame(cut, ids, i); }
    forall i | 0 <= i <= j ensures w[i].mask == IdsBefore(cut, i) {
      assert v[i].mask == IdsBefore(ids, i);
    }
  }

  lemma OkMispredict(n: nat, v: seq<Entry>, snaps: Tracked, j: nat)
    requires WindowOk(n, v, snaps) && j < |v| && 0 <= v[j].id < n
    ensures WindowOk(n, Resolved(v, j, true), snaps.Free(v[j].id).Revert(v[j].id))
    ensures IdsBefore(IdsOf(Resolved(v, j, true)), j + 1) == v[j].mask
  {
    assert snaps.Free(v[j].id).Revert(v[j].id).Shaped(n, n);
    hide Exact, MasksExact, Resolved, IdsBefore;
    MispredictIds(v, j);
    MasksMispredict(v, j);
    RestoredSnapsKeep(snaps, IdsOf(v), j);
  }

  lemma OkTail(n: nat, v: seq<Entry>, snaps: Tracked)
    requires WindowOk(n, v, snaps) && |v| > 0 && v[0].id == -1
    ensures WindowOk(n, v[1..], snaps)
    ensures IdsBefore(IdsOf(v[1..]), |v| - 1) == IdsBefore(IdsOf(v), |v|)
  {
    hide Exact, IdsBefore;
    var (ids, w) := (IdsOf(v), v[1..]);
    ReleasedKeeps(snaps, ids, {}, ids);
    assert IdsOf(w) == ids[1..];
    forall i | 0 <= i <= |w| ensures IdsBefore(IdsOf(w), i) == IdsBefore(ids, i + 1) { IdsBeforeTail(ids, i + 1); }
  }

  lemma OkEmpty(n: nat, snaps: Tracked)
    requires snaps.Shaped(n, n)
    ensures WindowOk(n, [], snaps.Set(Full(n)))
  {
  }
}
