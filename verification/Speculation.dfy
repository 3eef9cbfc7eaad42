/** The whole speculation path: decode drop, control-flow registers, snapshot allocator,
    pipeline contents with their own copies of the branch masks, and reorder buffer.

    `pipe` holds every instruction that some stage register, issue slot or reorder-buffer
    entry still stores, wrong-path ones included until the broadcast reaches them.
    `View` is what survives this cycle's broadcast; it is the architectural window. */
module Speculation {
  import opened Options
  import opened KillUnit
  import opened SequenceAllocator
  import opened ControlFlow
  import opened FreeLists

  /** `id` is the branch id while the branch is unresolved, else -1. */
  datatype Entry = Entry(uid: nat, seqNo: nat, mask: set<nat>, id: int, pcSucc: Word, serialize: bool, done: bool)

  datatype Slot = Slot(valid: bool, mask: set<nat>, uid: nat)

  datatype System = System(r: Regs, snaps: Tracked, pipe: seq<Entry>, rob: seq<Slot>)

  /** Stimulus of one cycle.  `offer` is what decode holds; `resolve` and `writeback` name
      positions of the window; `commit` says whether commit may proceed and redirects. */
  datatype Input = Input(offer: Option<Request>, resolve: Option<(nat, Word)>, writeback: Option<nat>,
      commit: Option<bool>)

  // ----- What survives a broadcast ---------------------------------------------------

  function Survivors(pipe: seq<Entry>, k: Kill): seq<Entry> {
    if |pipe| == 0 then []
    else
      var e := pipe[|pipe| - 1];
      Survivors(pipe[..|pipe| - 1], k) + (if Keep(e.mask, k) then [e.(mask := Out(e.mask, k))] else [])
  }

  function Cleared(v: seq<Entry>, k: Kill): seq<Entry> {
    seq(|v|, i requires 0 <= i < |v| => v[i].(mask := Out(v[i].mask, k)))
  }

  function View(s: System): seq<Entry> { Survivors(s.pipe, s.r.kill) }

  predicate SlotReady(s: System, idx: nat)
    requires idx < |s.rob|
  {
    s.rob[idx].valid && Keep(s.rob[idx].mask, s.r.kill)
  }

  // ----- The cycle ------------------------------------------------------------------

  /** Commit happens when the head number exists and its buffer entry is ready. */
  predicate Commits(s: System, in_: Input) {
    in_.commit.Some? && s.r.win.num > 0 && s.r.win.head < |s.rob| && SlotReady(s, s.r.win.head)
  }

  predicate CommitRedirects(s: System, in_: Input) { Commits(s, in_) && in_.commit.value }

  /** Positions must exist; a branch resolves once and before it writes back, and an
      instruction writes back once. */
  ghost predicate Legal(s: System, in_: Input) {
    var v := View(s);
    && (in_.resolve.Some? ==> in_.resolve.value.0 < |v| && v[in_.resolve.value.0].id >= 0)
    && (in_.writeback.Some? ==>
        in_.writeback.value < |v| && v[in_.writeback.value].id == -1 && !v[in_.writeback.value].done)
  }

  /** The branch stage never asserts `force`. */
  ghost function RedirectOf(s: System, in_: Input): Option<Redirect>
    requires Legal(s, in_)
  {
    if in_.resolve.None? then None else
      var (i, target) := in_.resolve.value;
      var e := View(s)[i];
      Some(Redirect(e.seqNo, e.id, e.mask, target, false))
  }

  ghost predicate Sane(n: nat, size: nat, s: System, in_: Input) {
    && s.r.Shaped(n, size) && s.snaps.Shaped(n, n) && |s.rob| == size && size >= 2
    && Legal(s, in_)
    && forall i :: 0 <= i < |View(s)| ==> View(s)[i].id < n && View(s)[i].seqNo < size
  }

  /** Decode drops its instruction in a redirect cycle. */
  ghost function Offered(n: nat, size: nat, s: System, in_: Input): Option<Request>
    requires Sane(n, size, s, in_)
  {
    if s.r.IsRedirect(RedirectOf(s, in_), CommitRedirects(s, in_)) then None else in_.offer
  }

  function Marked(v: seq<Entry>, resolve: Option<(nat, Word)>, writeback: Option<nat>): seq<Entry> {
    seq(|v|, i requires 0 <= i < |v| =>
      var e := if resolve.Some? && resolve.value.0 == i then v[i].(id := -1) else v[i];
      if writeback.Some? && writeback.value == i then e.(done := true) else e)
  }

  ghost function Next(n: nat, size: nat, s: System, in_: Input): System
    requires Sane(n, size, s, in_)
  {
    var v := View(s);
    var r := RedirectOf(s, in_);
    var (commit, cr, q) := (Commits(s, in_), CommitRedirects(s, in_), Offered(n, size, s, in_));
    var accepted := s.r.Accepts(size, q, s.snaps.Ready());
    var opens := accepted && q.value.speculative;
    var id := s.snaps.Index();
    // snapshot, free_snapshot, restore, rollback, in the manager's order
    var snaps1 := if opens then s.snaps.Alloc().ResetTracking(id) else s.snaps;
    var snaps2 := if r.Some? then snaps1.Free(r.value.specIdx) else snaps1;
    var snaps3 := if s.r.BranchRedirect(r) then snaps2.Revert(r.value.specIdx) else snaps2;
    var snaps4 := if cr then snaps3.Set(Full(n)) else snaps3;
    var kept := Marked(v, in_.resolve, in_.writeback);
    var left := if commit && |kept| > 0 then kept[1..] else kept;
    var entry := if accepted
      then [Entry(q.value.uid, s.r.win.tail, s.r.CurrentMask(r), if opens then id else -1,
                  q.value.pcSucc, q.value.serialize, false)]
      else [];
    System(
      s.r.Next(n, size, r, q, s.snaps.Ready(), id, commit, cr),
      snaps4,
      left + entry,
      seq(size, x requires 0 <= x < size =>
        if in_.writeback.Some? && v[in_.writeback.value].seqNo == x
        then Slot(true, v[in_.writeback.value].mask, v[in_.writeback.value].uid)
        else Slot(SlotReady(s, x) && !(commit && x == s.r.win.head), Out(s.rob[x].mask, s.r.kill), s.rob[x].uid)))
  }

  // ----- The same cycle on the window, with nothing delayed ---------------------------

  ghost function IdsOf(v: seq<Entry>): seq<int> { seq(|v|, i requires 0 <= i < |v| => v[i].id) }

  /** The unresolved branches among the k oldest instructions. */
  ghost function IdsBefore(ids: seq<int>, k: nat): set<nat>
    requires k <= |ids|
  {
    if k == 0 then {} else IdsBefore(ids, k - 1) + (if ids[k - 1] >= 0 then {ids[k - 1] as nat} else {})
  }

  function Registered(v: seq<Entry>, entry: Option<Entry>): seq<Entry> {
    if entry.Some? then v + [entry.value] else v
  }

  function Written(v: seq<Entry>, writeback: Option<nat>): seq<Entry> {
    if writeback.Some? && writeback.value < |v| then v[writeback.value := v[writeback.value].(done := true)] else v
  }

  /** The branch at i gives up its id: everything younger goes, or everything forgets it. */
  function Resolved(v: seq<Entry>, i: nat, mispredicted: bool): seq<Entry>
    requires i < |v|
  {
    if mispredicted then v[..i] + [v[i].(id := -1)]
    else (seq(|v|, k requires 0 <= k < |v| =>
                var e := v[k].(mask := v[k].mask - (if v[i].id >= 0 then {v[i].id as nat} else {}));
                if k == i then e.(id := -1) else e))
  }

  function Retired(v: seq<Entry>, commit: bool, redirect: bool): seq<Entry> {
    if redirect then [] else if commit && |v| > 0 then v[1..] else v
  }

  ghost function Immediate(v: seq<Entry>, entry: Option<Entry>, in_: Input, mispredicted: bool, commit: bool,
      redirect: bool): seq<Entry>
    requires in_.resolve.Some? ==> in_.resolve.value.0 < |v|
  {
    var w := Written(Registered(v, entry), in_.writeback);
    Retired(if in_.resolve.Some? then Resolved(w, in_.resolve.value.0, mispredicted) else w, commit, redirect)
  }

  /** The entry a registration creates, masked by every branch still unresolved. */
  ghost function NewEntry(n: nat, size: nat, s: System, in_: Input): Option<Entry>
    requires Sane(n, size, s, in_)
  {
    var q := Offered(n, size, s, in_);
    if !s.r.Accepts(size, q, s.snaps.Ready()) then None else
      var v := View(s);
      Some(Entry(q.value.uid, s.r.win.tail, IdsBefore(IdsOf(v), |v|),
                 if q.value.speculative then s.snaps.Index() else -1,
                 q.value.pcSucc, q.value.serialize, false))
  }

  // ----- Invariant ------------------------------------------------------------------

  /** Every mask is the set of older unresolved branches. */
  ghost predicate MasksExact(v: seq<Entry>) {
    forall i :: 0 <= i < |v| ==> v[i].mask == IdsBefore(IdsOf(v), i)
  }

  /** Masks are exact and the snapshot allocator knows exactly the unresolved branches. */
  ghost predicate WindowOk(n: nat, v: seq<Entry>, snaps: Tracked) {
    snaps.Shaped(n, n) && Exact(snaps, IdsOf(v), {}, IdsOf(v)) && MasksExact(v)
  }

  ghost predicate NumbersOk(size: nat, win: Window, v: seq<Entry>) {
    && win.Valid(size) && win.num == |v|
    && forall i :: 0 <= i < |v| ==> v[i].seqNo == win.Live(size)[i]
  }

  /** A serialized instruction is alone, and blocks registration until it commits. */
  ghost predicate SerialOk(serial: bool, v: seq<Entry>) {
    && (serial <==> |v| > 0 && v[0].serialize)
    && (forall i :: 0 <= i < |v| && v[i].serialize ==> |v| == 1)
  }

  ghost predicate PredictionsOk(pcPred: seq<Word>, v: seq<Entry>) {
    forall i :: 0 <= i < |v| && 0 <= v[i].id < |pcPred| ==> pcPred[v[i].id] == v[i].pcSucc
  }

  ghost predicate RobOk(size: nat, s: System, v: seq<Entry>) {
    && |s.rob| == size
    && (forall i :: 0 <= i < |v| ==> v[i].seqNo < size)
    && (forall i :: 0 <= i < |v| ==>
          && (SlotReady(s, v[i].seqNo) <==> v[i].done)
          && (v[i].done ==>
              s.rob[v[i].seqNo].uid == v[i].uid && Out(s.rob[v[i].seqNo].mask, s.r.kill) == v[i].mask && v[i].id == -1))
    && (forall x :: 0 <= x < size && SlotReady(s, x) ==> exists i :: 0 <= i < |v| && v[i].seqNo == x)
  }

  ghost predicate Inv(n: nat, size: nat, s: System) {
    var v := View(s);
    && s.r.Shaped(n, size) && size >= 2
    && (!s.r.killPend ==> s.r.kill == QUIET)
    && WindowOk(n, v, s.snaps)
    && s.r.bmask == IdsBefore(IdsOf(v), |v|)
    && NumbersOk(size, s.r.win, v)
    && SerialOk(s.r.serial, v)
    && PredictionsOk(s.r.pcPred, v)
    && RobOk(size, s, v)
  }

  // ----- The kill mask is exact ------------------------------------------------------

  lemma {:induction false} IdsBeforeIn(ids: seq<int>, k: nat, x: nat)
    requires k <= |ids|
    ensures x in IdsBefore(ids, k) <==> exists j :: 0 <= j < k && ids[j] == x
  {
    if k > 0 { IdsBeforeIn(ids, k - 1, x); }
  }

  /** {own id} with the complement of the own mask meets exactly the masks of the younger
      instructions. */
  lemma KillExact(n: nat, v: seq<Entry>, snaps: Tracked, j: nat, i: nat)
    requires WindowOk(n, v, snaps) && j < |v| && v[j].id >= 0 && i < |v|
    ensures v[i].mask * ({v[j].id as nat} + (Ids(n) - v[j].mask)) != {} <==> i > j
  {
    var (ids, K) := (IdsOf(v), {v[j].id as nat} + (Ids(n) - v[j].mask));
    IdsBeforeIn(ids, i, ids[j]);
    if i > j {
      assert ids[j] as nat in v[i].mask * K;
    } else {
      forall x | x in v[i].mask ensures x !in K {
        IdsBeforeIn(ids, i, x);
        IdsBeforeIn(ids, j, x);
      }
    }
  }
}
