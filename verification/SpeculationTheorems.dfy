/** What every run of the delayed machine guarantees. */
module SpeculationTheorems {
  import opened Options
  import opened KillUnit
  import opened SequenceAllocator
  import opened ControlFlow
  import opened FreeLists
  import opened Speculation
  import opened SpeculationInvariant
  import opened SpeculationKeeps

  function Reset(n: nat, size: nat): System {
    System(ResetRegs(n), Initial(n, 0, n), [], seq(size, _ => Slot(false, {}, 0)))
  }

  /** A run: the state, the instructions registered and those the reorder buffer handed to
      commit, each in the order it happened. */
  datatype Outcome = Stuck | At(s: System, registered: seq<nat>, retired: seq<nat>)

  ghost function Step(n: nat, size: nat, o: Outcome, in_: Input): Outcome
    requires o.At?
  {
    if !Sane(n, size, o.s, in_) then Stuck
    else
      var e := NewEntry(n, size, o.s, in_);
      At(Next(n, size, o.s, in_),
         o.registered + Joins(e),
         o.retired + (if Commits(o.s, in_) then [o.s.rob[o.s.r.win.head].uid] else []))
  }

  ghost function After(n: nat, size: nat, ins: seq<Input>): Outcome {
    if |ins| == 0 then At(Reset(n, size), [], [])
    else match After(n, size, ins[..|ins| - 1])
      case Stuck => Stuck
      case At(s, a, b) => Step(n, size, At(s, a, b), ins[|ins| - 1])
  }

  lemma InitInv(n: nat, size: nat)
    requires size >= 2
    ensures Inv(n, size, Reset(n, size))
  {
  }

  /** In a state of a run, a legal stimulus is all the cycle needs. */
  lemma SaneWhenLegal(n: nat, size: nat, s: System, in_: Input)
    requires Inv(n, size, s) && Legal(s, in_)
    ensures Sane(n, size, s, in_)
  {
    var v := View(s);
    forall i | 0 <= i < |v| ensures v[i].id < n { assert IdsOf(v)[i] == v[i].id; }
  }

  lemma {:induction false} RunKeeps(n: nat, size: nat, ins: seq<Input>)
    requires size >= 2 && After(n, size, ins).At?
    ensures Inv(n, size, After(n, size, ins).s)
  {
    hide Inv, Sane, Next, NewEntry;
    if |ins| == 0 {
      InitInv(n, size);
    } else {
      RunKeeps(n, size, ins[..|ins| - 1]);
      InvKeeps(n, size, After(n, size, ins[..|ins| - 1]).s, ins[|ins| - 1]);
    }
  }

  // ----- Kills and clears over runs -----------------------------------------------------

  ghost function Uids(v: seq<Entry>): seq<nat> { seq<nat>(|v|, i requires 0 <= i < |v| => v[i].uid) }

  /** Over every run, a branch that resolves mispredicts exactly when its target is not the
      successor it registered with. */
  lemma MispredictsIff(n: nat, size: nat, ins: seq<Input>, in_: Input)
    requires size >= 2 && After(n, size, ins).At? && Sane(n, size, After(n, size, ins).s, in_) && in_.resolve.Some?
    ensures var s := After(n, size, ins).s;
      Mispredicts(s, in_) <==> in_.resolve.value.1 != View(s)[in_.resolve.value.0].pcSucc
  {
    RunKeeps(n, size, ins);
    hide View, After, WindowOk, RobOk, NumbersOk;
  }

  /** How much of the window outlives the cycle, before the head retires: up to and with the
      head when commit redirects, up to and with a branch that does not go where it was
      predicted to, else all of it. */
  ghost function Youngest(n: nat, size: nat, s: System, in_: Input): nat
    requires Sane(n, size, s, in_)
  {
    if CommitRedirects(s, in_) then 1
    else if in_.resolve.Some? && in_.resolve.value.1 != View(s)[in_.resolve.value.0].pcSucc
    then in_.resolve.value.0 + 1
    else |View(s)|
  }

  /** One cycle on the instructions that survive its broadcast, by identity and order.  A
      mispredicted branch is the youngest left; a branch predicted right removes nobody,
      whatever stale copies of masks still sit in pipeline, queues and reorder buffer. */
  lemma CutExactly(n: nat, size: nat, ins: seq<Input>, in_: Input)
    requires size >= 2 && After(n, size, ins).At? && Sane(n, size, After(n, size, ins).s, in_)
    ensures var s := After(n, size, ins).s;
      var (u, c, cut) := (Uids(View(s)), if Commits(s, in_) then 1 else 0, Youngest(n, size, s, in_));
      && c <= cut <= |u|
      && Uids(View(Next(n, size, s, in_))) == u[c..cut] + Joins(NewEntry(n, size, s, in_))
  {
    var s := After(n, size, ins).s;
    RunKeeps(n, size, ins);
    if in_.resolve.Some? { MispredictsIff(n, size, ins, in_); }
    Refines(n, size, s, in_);
    ActsOk(n, size, s, in_);
    if CommitRedirects(s, in_) { AbortNoEntry(n, size, s, in_); }
    var (v, e, mis) := (View(s), NewEntry(n, size, s, in_), Mispredicts(s, in_));
    var (commit, abort, cut) := (Commits(s, in_), CommitRedirects(s, in_), Youngest(n, size, s, in_));
    assert (abort ==> commit) && cut == if abort then 1 else if mis then in_.resolve.value.0 + 1 else |v|;
    hide *;
    UidsNow(v, e, in_, mis, commit, abort);
  }

  /** Over every run, anything may come next: any offer, any commit, any unresolved branch
      resolving with any target, any resolved instruction writing back once. */
  lemma AnythingMayCome(n: nat, size: nat, ins: seq<Input>, in_: Input)
    requires size >= 2 && After(n, size, ins).At?
    requires var v := View(After(n, size, ins).s);
      && (in_.resolve.Some? ==> in_.resolve.value.0 < |v| && v[in_.resolve.value.0].id >= 0)
      && (in_.writeback.Some? ==> in_.writeback.value < |v| && v[in_.writeback.value].id == -1
                                  && !v[in_.writeback.value].done)
    ensures After(n, size, ins + [in_]).At?
  {
    RunKeeps(n, size, ins);
    SaneWhenLegal(n, size, After(n, size, ins).s, in_);
    assert (ins + [in_])[..|ins|] == ins;
    hide View, Sane, Inv, Next, NewEntry, Commits;
  }

  // ----- When things happen -------------------------------------------------------------

  /** Over every run, the head commits exactly when there is one, it has written back, and
      commit takes it; and that redirects exactly when commit says so. */
  lemma CommitsIff(n: nat, size: nat, ins: seq<Input>, in_: Input)
    requires size >= 2 && After(n, size, ins).At?
    ensures var s := After(n, size, ins).s;
      && (Commits(s, in_) <==> in_.commit.Some? && |View(s)| > 0 && View(s)[0].done)
      && (CommitRedirects(s, in_) <==> in_.commit == Some(true) && |View(s)| > 0 && View(s)[0].done)
  {
    RunKeeps(n, size, ins);
    var s := After(n, size, ins).s;
    if |View(s)| > 0 { assert s.r.win.Live(size)[0] == s.r.win.head; }
    hide View, After, WindowOk, SlotReady, SerialOk, PredictionsOk;
  }

  ghost predicate Unheld(v: seq<Entry>, x: int) { forall i :: 0 <= i < |v| ==> v[i].id != x }

  /** Some branch id is held by nobody. */
  ghost predicate IdFree(n: nat, v: seq<Entry>) { exists x :: 0 <= x < n && Unheld(v, x) }

  lemma ReadyIff(n: nat, v: seq<Entry>, snaps: Tracked)
    requires WindowOk(n, v, snaps)
    ensures snaps.Ready() <==> IdFree(n, v)
  {
    hide Tracks, IdsBefore, MasksExact;
    var ids := IdsOf(v);
    if snaps.Ready() {
      var x := Lowest(snaps.free);
      assert snaps.free[x];
      forall i | 0 <= i < |v| ensures v[i].id != x { assert ids[i] == v[i].id; }
      assert Unheld(v, x);
    }
    if IdFree(n, v) {
      var x :| 0 <= x < n && Unheld(v, x);
      assert x !in ids;
      assert snaps.free[x];
    }
  }

  lemma IndexUnheld(n: nat, v: seq<Entry>, snaps: Tracked)
    requires WindowOk(n, v, snaps) && snaps.Ready()
    ensures Unheld(v, snaps.Index())
  {
    hide Tracks, IdsBefore, MasksExact;
    forall i | 0 <= i < |v| ensures v[i].id != snaps.Index() { assert IdsOf(v)[i] == v[i].id; }
  }

  /** Over every run, what a surviving instruction is after a cycle without a redirecting
      commit: as it was, written back if it was just now, its branch resolved if it was just
      now, and its mask without the id of a branch predicted right. */
  lemma EntriesAfter(n: nat, size: nat, ins: seq<Input>, in_: Input, i: nat)
    requires size >= 2 && After(n, size, ins).At? && Sane(n, size, After(n, size, ins).s, in_)
    requires var s := After(n, size, ins).s; !CommitRedirects(s, in_) && i < |View(Next(n, size, s, in_))|
    ensures var (s, v, e) := (After(n, size, ins).s, View(After(n, size, ins).s),
      View(Next(n, size, After(n, size, ins).s, in_))[i]);
      var p := if Commits(s, in_) then i + 1 else i;
      && p <= |v|
      && (p < |v| ==>
           && e.(mask := {}) == v[p].(mask := {}, done := v[p].done || in_.writeback == Some(p),
                                      id := if in_.resolve.Some? && in_.resolve.value.0 == p then -1 else v[p].id)
           && forall x :: x in e.mask <==> x in v[p].mask && !(in_.resolve.Some? && x == v[in_.resolve.value.0].id
                                                            && in_.resolve.value.1 == v[in_.resolve.value.0].pcSucc))
  {
    hide Inv, View, Next, Immediate, CommitRedirects, After, Commits, Mispredicts, NewEntry, Acts;
    var s := After(n, size, ins).s;
    RunKeeps(n, size, ins);
    if in_.resolve.Some? { MispredictsIff(n, size, ins, in_); }
    Refines(n, size, s, in_);
    ActsOk(n, size, s, in_);
    var (v, e, mis, commit) := (View(s), NewEntry(n, size, s, in_), Mispredicts(s, in_), Commits(s, in_));
    assert View(Next(n, size, s, in_)) == Immediate(v, e, in_, mis, commit, false);
    assert in_.resolve.Some? ==> in_.resolve.value.0 < |v| && v[in_.resolve.value.0].id >= 0;
    assert mis ==> in_.resolve.Some? by { NoMisprediction(s, in_); }
    hide Sane;
    EntryShape(v, e, in_, mis, commit, i);
  }

  lemma NoMisprediction(s: System, in_: Input)
    requires Legal(s, in_) && forall i :: 0 <= i < |View(s)| ==> View(s)[i].id < |s.r.pcPred|
    ensures Mispredicts(s, in_) ==> in_.resolve.Some?
  {
  }

  lemma EntryShape(v: seq<Entry>, entry: Option<Entry>, in_: Input, mis: bool, commit: bool, i: nat)
    requires Acts(v, entry, in_, mis, commit) && i < |Immediate(v, entry, in_, mis, commit, false)|
    ensures var (e, p) := (Immediate(v, entry, in_, mis, commit, false)[i], if commit then i + 1 else i);
      && p <= |v|
      && (p < |v| ==>
           && e.(mask := {}) == v[p].(mask := {}, done := v[p].done || in_.writeback == Some(p),
                                      id := if in_.resolve.Some? && in_.resolve.value.0 == p then -1 else v[p].id)
           && forall x :: x in e.mask <==>
               x in v[p].mask && !(in_.resolve.Some? && x == v[in_.resolve.value.0].id && !mis))
  {
    AfterAt(v, entry, in_, mis, commit, i);
    hide Immediate;
  }

  /** Over every run, what registers is what decode offers, outside a redirect, when the
      window is not full, nothing serialized is in it, it is empty if the instruction
      serializes, a branch id is free if it speculates, and a store id if it stores. */
  lemma RegistersIff(n: nat, size: nat, ins: seq<Input>, in_: Input)
    requires size >= 2 && After(n, size, ins).At? && Sane(n, size, After(n, size, ins).s, in_)
    ensures var (s, v) := (After(n, size, ins).s, View(After(n, size, ins).s));
      NewEntry(n, size, s, in_).Some? <==>
        && in_.offer.Some?
        && !CommitRedirects(s, in_)
        && !(in_.resolve.Some? && in_.resolve.value.1 != v[in_.resolve.value.0].pcSucc)
        && |v| < size
        && (forall i :: 0 <= i < |v| ==> !v[i].serialize)
        && (in_.offer.value.serialize ==> |v| == 0)
        && (in_.offer.value.speculative ==> IdFree(n, v))
        && in_.offer.value.storeReady
  {
    RunKeeps(n, size, ins);
    var s := After(n, size, ins).s;
    if in_.resolve.Some? { MispredictsIff(n, size, ins, in_); }
    ReadyIff(n, View(s), s.snaps);
    assert s.r.IsRedirect(RedirectOf(s, in_), CommitRedirects(s, in_)) <==>
      CommitRedirects(s, in_) || (in_.resolve.Some? && in_.resolve.value.1 != View(s)[in_.resolve.value.0].pcSucc);
    hide View, After, WindowOk, RobOk, PredictionsOk, IdFree, CommitRedirects, Tracked.Ready, Regs.IsRedirect,
        IdsBefore;
  }

  /** And it registers as what it is, a branch under an id nobody holds. */
  lemma RegistersAs(n: nat, size: nat, ins: seq<Input>, in_: Input)
    requires size >= 2 && After(n, size, ins).At? && Sane(n, size, After(n, size, ins).s, in_)
    ensures var e := NewEntry(n, size, After(n, size, ins).s, in_);
      e.Some? ==>
        && e.value.uid == in_.offer.value.uid && e.value.pcSucc == in_.offer.value.pcSucc && !e.value.done
        && e.value.serialize == in_.offer.value.serialize
        && (if in_.offer.value.speculative then Unheld(View(After(n, size, ins).s), e.value.id) && e.value.id >= 0
            else e.value.id == -1)
  {
    RunKeeps(n, size, ins);
    var s := After(n, size, ins).s;
    if s.snaps.Ready() { IndexUnheld(n, View(s), s.snaps); }
    hide View, After, WindowOk, RobOk, PredictionsOk, CommitRedirects, Tracked.Ready, Regs.IsRedirect, IdsBefore;
  }

  ghost function Joins(e: Option<Entry>): seq<nat> { if e.Some? then [e.value.uid] else [] }

  lemma UidsNow(v: seq<Entry>, entry: Option<Entry>, in_: Input, mis: bool, commit: bool, abort: bool)
    requires Acts(v, entry, in_, mis, commit) && (abort ==> commit && entry.None?)
    ensures var (u, c, cut) := (Uids(v), if commit then 1 else 0,
                                 if abort then 1 else if mis then in_.resolve.value.0 + 1 else |v|);
      && c <= cut <= |u|
      && Uids(Immediate(v, entry, in_, mis, commit, abort)) == u[c..cut] + Joins(entry)
  {
    if !abort {
      AfterLength(v, entry, in_, mis, commit);
      hide Immediate;
      forall i | 0 <= i < |Immediate(v, entry, in_, mis, commit, false)|
        ensures var p := if commit then i + 1 else i;
          Immediate(v, entry, in_, mis, commit, false)[i].uid == if p == |v| then entry.value.uid else v[p].uid
      {
        AfterAt(v, entry, in_, mis, commit, i);
      }
      var (a, c, cut) := (Immediate(v, entry, in_, mis, commit, false), if commit then 1 else 0,
                          if mis then in_.resolve.value.0 + 1 else |v|);
      var b := Uids(v)[c..cut] + Joins(entry);
      assert |a| == |b|;
      hide *;
      SameUids(v, entry, a, b, c, cut);
    }
  }

  lemma SameUids(v: seq<Entry>, entry: Option<Entry>, a: seq<Entry>, b: seq<nat>, c: nat, cut: nat)
    requires c <= cut <= |v| && b == Uids(v)[c..cut] + Joins(entry) && |a| == |b| && (entry.Some? ==> cut == |v|)
    requires forall i :: 0 <= i < |a| ==>
      a[i].uid == if i + c == |v| then (if entry.Some? then entry.value.uid else 0) else v[i + c].uid
    ensures Uids(a) == b
  {
    forall i | 0 <= i < |a| ensures Uids(a)[i] == b[i] { }
  }

  /** A resolved id is gone from the branch mask register and from every surviving copy. */
  lemma ResolvedIdGone(n: nat, size: nat, ins: seq<Input>, in_: Input, i: nat)
    requires size >= 2 && After(n, size, ins).At? && Sane(n, size, After(n, size, ins).s, in_)
    requires var s := After(n, size, ins).s;
      in_.resolve.Some? && !CommitRedirects(s, in_) && i < |View(Next(n, size, s, in_))|
    ensures var (s, id) := (After(n, size, ins).s, View(After(n, size, ins).s)[in_.resolve.value.0].id);
      && id >= 0
      && id as nat !in View(Next(n, size, s, in_))[i].mask
      && id as nat !in Next(n, size, s, in_).r.bmask
  {
    RunKeeps(n, size, ins);
    var s := After(n, size, ins).s;
    var j := in_.resolve.value.0;
    Refines(n, size, s, in_);
    ActsOk(n, size, s, in_);
    MaskNext(n, size, s, in_);
    InvWindow(n, size, s);
    hide Inv, Sane, View, Next, NewEntry, Immediate, CommitRedirects, After, WindowOk, IdsBefore;
    var w := View(Next(n, size, s, in_));
    AfterLength(View(s), NewEntry(n, size, s, in_), in_, Mispredicts(s, in_), Commits(s, in_));
    AfterAt(View(s), NewEntry(n, size, s, in_), in_, Mispredicts(s, in_), Commits(s, in_), i);
    if Mispredicts(s, in_) {
      OlderMaskLacks(n, View(s), s.snaps, j, if Commits(s, in_) then i + 1 else i);
      OlderMaskLacks(n, View(s), s.snaps, j, j);
    }
  }

  lemma OlderMaskLacks(n: nat, v: seq<Entry>, snaps: Tracked, j: nat, p: nat)
    requires WindowOk(n, v, snaps) && p <= j < |v| && v[j].id >= 0
    ensures v[j].id as nat !in v[p].mask
  {
    IdsBeforeIn(IdsOf(v), p, v[j].id);
    hide IdsBefore, Tracks;
    assert IdsOf(v)[j] == v[j].id;
  }

  /** Why decode drops its instruction in a redirect cycle: the mask it would register with
      never meets the kill mask, so it would outlive every misprediction. */
  lemma WrongPathWouldSurvive(n: nat, size: nat, s: System, in_: Input)
    requires Inv(n, size, s) && Sane(n, size, s, in_) && Mispredicts(s, in_) && !CommitRedirects(s, in_)
    ensures Keep(s.r.CurrentMask(RedirectOf(s, in_)), s.r.NextKill(RedirectOf(s, in_), false))
  {
    NextKillExact(n, size, s, in_);
  }

  // ----- In-order retirement ------------------------------------------------------------

  /** a can be had from b by leaving some elements out. */
  ghost predicate Subsequence(a: seq<nat>, b: seq<nat>) {
    |a| == 0 || (|b| > 0 &&
      ((a[|a| - 1] == b[|b| - 1] && Subsequence(a[..|a| - 1], b[..|b| - 1])) || Subsequence(a, b[..|b| - 1])))
  }

  lemma {:induction false} SubsequencePrefix(a: seq<nat>, b: seq<nat>, c: nat)
    requires Subsequence(a, b) && c <= |a|
    ensures Subsequence(a[..c], b)
    decreases |b|
  {
    if c == |a| { assert a[..c] == a; }
    else if c > 0 {
      if Subsequence(a, b[..|b| - 1]) {
        SubsequencePrefix(a, b[..|b| - 1], c);
      } else {
        SubsequencePrefix(a[..|a| - 1], b[..|b| - 1], c);
        assert a[..|a| - 1][..c] == a[..c];
      }
    }
  }

  lemma SubsequenceAppend(a: seq<nat>, b: seq<nat>, x: nat)
    requires Subsequence(a, b)
    ensures Subsequence(a + [x], b + [x])
  {
    assert (a + [x])[..|a|] == a && (b + [x])[..|b|] == b;
  }

  lemma {:induction false} SubsequenceDistinct(a: seq<nat>, b: seq<nat>)
    requires Subsequence(a, b) && forall i, j :: 0 <= i < j < |b| ==> b[i] != b[j]
    ensures forall i :: 0 <= i < |a| ==> a[i] in b
    ensures forall i, j :: 0 <= i < j < |a| ==> a[i] != a[j]
    decreases |b|
  {
    if |a| > 0 {
      var c := b[..|b| - 1];
      if Subsequence(a, c) { SubsequenceDistinct(a, c); }
      else { SubsequenceDistinct(a[..|a| - 1], c); }
    }
  }

  /** The buffer hands out the oldest instruction of the window. */
  lemma RetiresOldest(n: nat, size: nat, s: System, in_: Input)
    requires Inv(n, size, s) && Commits(s, in_)
    ensures |View(s)| > 0 && s.rob[s.r.win.head].uid == View(s)[0].uid
  {
    HeadResolved(n, size, s, in_);
  }

  /** Instructions retire in registration order, each at most once, and only if they were
      registered; what is still in flight continues that order. */
  lemma {:induction false} RetiresInOrder(n: nat, size: nat, ins: seq<Input>)
    requires size >= 2 && After(n, size, ins).At?
    ensures var o := After(n, size, ins); Subsequence(o.retired + Uids(View(o.s)), o.registered)
  {
    hide Subsequence, View, Step;
    if |ins| > 0 {
      RetiresInOrder(n, size, ins[..|ins| - 1]);
      StepKeepsOrder(n, size, ins[..|ins| - 1], ins[|ins| - 1]);
    } else {
      EmptyAtReset(n, size);
      EmptySubsequence();
      assert [] + Uids([]) == [];
    }
  }

  lemma EmptyAtReset(n: nat, size: nat)
    ensures View(Reset(n, size)) == []
  {
    assert Survivors([], QUIET) == [];
  }

  lemma EmptySubsequence()
    ensures Subsequence([], [])
  {
  }

  lemma StepRecords(n: nat, size: nat, o: Outcome, in_: Input)
    requires o.At? && Inv(n, size, o.s) && Sane(n, size, o.s, in_)
    ensures var o' := Step(n, size, o, in_);
      && o'.At? && o'.s == Next(n, size, o.s, in_)
      && o'.registered == o.registered + Joins(NewEntry(n, size, o.s, in_))
      && (Commits(o.s, in_) ==> |View(o.s)| > 0)
      && o'.retired == o.retired + (if Commits(o.s, in_) then [View(o.s)[0].uid] else [])
      && (CommitRedirects(o.s, in_) ==> NewEntry(n, size, o.s, in_).None?)
  {
    if Commits(o.s, in_) { RetiresOldest(n, size, o.s, in_); }
    if CommitRedirects(o.s, in_) { AbortNoEntry(n, size, o.s, in_); }
    hide Inv, View, Next, NewEntry, Sane;
  }

  /** A cycle as a cut of the window: the first c retire, what lies from cut on is killed. */
  lemma StepAsCut(n: nat, size: nat, ins: seq<Input>, in_: Input) returns (c: nat, cut: nat, joins: seq<nat>)
    requires size >= 2 && After(n, size, ins).At? && Step(n, size, After(n, size, ins), in_).At?
    ensures var (o, o') := (After(n, size, ins), Step(n, size, After(n, size, ins), in_));
      var u := Uids(View(o.s));
      && c <= cut <= |u| && |joins| <= 1
      && o'.retired == o.retired + u[..c] && o'.registered == o.registered + joins
      && Uids(View(o'.s)) == u[c..cut] + joins
  {
    hide Inv, View, Next, After, NewEntry, Commits, CommitRedirects, Youngest;
    var o := After(n, size, ins);
    RunKeeps(n, size, ins);
    StepRecords(n, size, o, in_);
    CutExactly(n, size, ins, in_);
    cut := Youngest(n, size, o.s, in_);
    hide Step, Sane;
    c := if Commits(o.s, in_) then 1 else 0;
    joins := Joins(NewEntry(n, size, o.s, in_));
  }

  lemma StepKeepsOrder(n: nat, size: nat, ins: seq<Input>, in_: Input)
    requires size >= 2 && After(n, size, ins).At? && Step(n, size, After(n, size, ins), in_).At?
    requires var o := After(n, size, ins); Subsequence(o.retired + Uids(View(o.s)), o.registered)
    ensures var o := Step(n, size, After(n, size, ins), in_); Subsequence(o.retired + Uids(View(o.s)), o.registered)
  {
    hide View, Step, After, Subsequence, Uids;
    var o := After(n, size, ins);
    var c, cut, joins := StepAsCut(n, size, ins, in_);
    OrderKept(o.retired, Uids(View(o.s)), o.registered, c, cut, joins);
  }

  /** The first c of u leave for good, those from cut on are dropped, and at most one joins. */
  lemma OrderKept(done: seq<nat>, u: seq<nat>, all: seq<nat>, c: nat, cut: nat, joins: seq<nat>)
    requires Subsequence(done + u, all) && c <= cut <= |u| && |joins| <= 1
    ensures Subsequence((done + u[..c]) + (u[c..cut] + joins), all + joins)
  {
    hide Subsequence;
    var (head, rest) := (done + u[..c], u[c..cut]);
    SlicePieces(done, u, c, cut);
    SubsequencePrefix(done + u, all, |done| + cut);
    Associative(head, rest, joins);
    if |joins| == 1 {
      assert joins == [joins[0]];
      SubsequenceAppend(head + rest, all, joins[0]);
    } else {
      assert head + rest + joins == head + rest && all + joins == all;
    }
  }

  lemma SlicePieces(done: seq<nat>, u: seq<nat>, c: nat, cut: nat)
    requires c <= cut <= |u|
    ensures (done + u)[..|done| + cut] == (done + u[..c]) + u[c..cut]
  {
    assert (done + u)[..|done| + cut] == done + u[..cut];
    assert u[..cut] == u[..c] + u[c..cut];
    Associative(done, u[..c], u[c..cut]);
  }

  lemma Associative(a: seq<nat>, b: seq<nat>, c: seq<nat>)
    ensures (a + b) + c == a + (b + c)
  {
  }
}
