/** Branch masks and delayed kills.

    Every in-flight instruction carries the set of branches it was renamed under.  The
    control-flow manager registers the kill and clear masks of a redirect, so pipeline
    stages, issue slots and the reorder buffer see them one cycle late, while branch ids
    and sequence numbers are recycled at once.  `Next` is that machine; `Immediate` acts
    on the program-ordered window at once; `Refines` says they agree after every cycle. */
module KillUnit {

  datatype Kill = Kill(force: bool, kill: set<nat>, clear: set<nat>)

  const QUIET := Kill(false, {}, {})

  /** The drop controller: whether to keep an instruction, and its mask afterwards. */
  predicate Keep(mask: set<nat>, k: Kill) { mask * k.kill == {} && !k.force }

  function Out(mask: set<nat>, k: Kill): set<nat> { mask - k.clear }
}

module ControlFlow {
  import opened Options
  import opened KillUnit
  import opened SequenceAllocator

  type Word = int

  datatype Redirect = Redirect(seqNo: nat, specIdx: nat, mask: set<nat>, target: Word, force: bool)
  datatype Request = Request(uid: nat, speculative: bool, serialize: bool, pcSucc: Word, storeReady: bool)

  datatype Regs = Regs(bmask: set<nat>, serial: bool, killPend: bool, kill: Kill, win: Window, pcPred: seq<Word>) {

    ghost predicate Shaped(n: nat, size: nat) {
      |pcPred| == n && win.Valid(size)
    }

    predicate BranchRedirect(r: Option<Redirect>)
      requires r.Some? ==> r.value.specIdx < |pcPred|
    {
      r.Some? && (r.value.target != pcPred[r.value.specIdx] || r.value.force)
    }

    predicate IsRedirect(r: Option<Redirect>, commitRedirect: bool)
      requires r.Some? ==> r.value.specIdx < |pcPred|
    {
      commitRedirect || BranchRedirect(r)
    }

    function KillMask(r: Option<Redirect>): set<nat>
      requires r.Some? ==> r.value.specIdx < |pcPred|
    {
      if BranchRedirect(r) then {r.value.specIdx} + (Ids(|pcPred|) - r.value.mask) else {}
    }

    function ClearMask(r: Option<Redirect>): set<nat>
      requires r.Some? ==> r.value.specIdx < |pcPred|
    {
      if r.Some? && !BranchRedirect(r) then {r.value.specIdx} else {}
    }

    function CurrentMask(r: Option<Redirect>): set<nat>
      requires r.Some? ==> r.value.specIdx < |pcPred|
    {
      bmask - (KillMask(r) + ClearMask(r))
    }

    /** Whether a registration would be accepted this cycle. */
    predicate Success(size: nat, q: Request, snapReady: bool) {
      && win.num != size
      && (!q.speculative || snapReady) && q.storeReady
      && (!q.serialize || win.num == 0)
      && !serial
    }

    predicate Accepts(size: nat, q: Option<Request>, snapReady: bool) {
      q.Some? && Success(size, q.value, snapReady)
    }

    /** The branch mask register: every unresolved branch, the one being opened included. */
    function NextMask(r: Option<Redirect>, opens: bool, snapId: nat, commitRedirect: bool): set<nat>
      requires r.Some? ==> r.value.specIdx < |pcPred|
    {
      if !opens && r.None? && !commitRedirect then bmask
      else if commitRedirect then {}
      else CurrentMask(r) + (if opens then {snapId} else {})
    }

    predicate Event(r: Option<Redirect>, commitRedirect: bool) { commitRedirect || r.Some? }

    /** The registered broadcast; without an event or a pending one it keeps its value. */
    function NextKill(r: Option<Redirect>, commitRedirect: bool): Kill
      requires r.Some? ==> r.value.specIdx < |pcPred|
    {
      if killPend || Event(r, commitRedirect)
      then Kill((BranchRedirect(r) && r.value.force) || commitRedirect, KillMask(r), ClearMask(r))
      else kill
    }

    function Next(n: nat, size: nat, r: Option<Redirect>, q: Option<Request>, snapReady: bool, snapId: nat,
                  commit: bool, commitRedirect: bool): Regs
      requires Shaped(n, size)
      requires r.Some? ==> r.value.specIdx < n && r.value.seqNo < size
      requires (q.Some? && q.value.speculative && snapReady ==> snapId < n)
      requires (commit ==> win.num > 0) && (commitRedirect ==> commit)
    {
      var accepted := Accepts(size, q, snapReady);
      var opens := accepted && q.value.speculative;
      Regs(
        NextMask(r, opens, snapId, commitRedirect),
        if (accepted && q.value.serialize) || (serial && commit) then !serial else serial,
        Event(r, commitRedirect),
        NextKill(r, commitRedirect),
        win.Cycle(size, accepted, commit, IsRedirect(r, commitRedirect),
                  if commitRedirect then win.head else if r.Some? then r.value.seqNo else 0),
        if opens then pcPred[snapId := q.value.pcSucc] else pcPred)
    }
  }

  function Ids(n: nat): (s: set<nat>)
    ensures forall i: nat :: i in s <==> i < n
  {
    if n == 0 then {} else Ids(n - 1) + {n - 1}
  }

  function ResetRegs(n: nat): Regs {
    Regs({}, false, false, QUIET, Window(0, 0, 0), seq(n, _ => 0))
  }

  class ControlFlowManager {
    const n: nat
    var bmask: set<nat>
    var serial: bool
    var killPend: bool
    var regForce: bool
    var regKill: set<nat>
    var regClear: set<nat>
    var pcPred: seq<Word>
    const allocator: SequenceAllocator

    ghost function Value(): Regs
      reads this, allocator
    {
      Regs(bmask, serial, killPend, Kill(regForce, regKill, regClear), allocator.Value(), pcPred)
    }

    constructor (n: nat, size: nat)
      requires size > 0
      ensures this.n == n && allocator.size == size && fresh(allocator) && Value() == ResetRegs(n)
    {
      this.n := n;
      bmask, serial, killPend := {}, false, false;
      regForce, regKill, regClear := false, {}, {};
      pcPred := seq(n, _ => 0);
      allocator := new SequenceAllocator(size);
      new;
      assert pcPred == ResetRegs(n).pcPred;
    }

    /** The combinational masks of a redirect and the registers that take them. */
    method TickMasks(r: Option<Redirect>, opens: bool, snapId: nat, commitRedirect: bool)
      returns (branchMask: set<nat>, redirect: bool)
      requires |pcPred| == n && (r.Some? ==> r.value.specIdx < n)
      modifies this`bmask, this`killPend, this`regForce, this`regKill, this`regClear
      ensures branchMask == old(Value()).CurrentMask(r) && redirect == old(Value()).IsRedirect(r, commitRedirect)
      ensures bmask == old(Value()).NextMask(r, opens, snapId, commitRedirect)
      ensures killPend == old(Value()).Event(r, commitRedirect)
      ensures Kill(regForce, regKill, regClear) == old(Value()).NextKill(r, commitRedirect)
    {
      var (killMask, clearMask) := ({}, {});
      var branchRedirect := r.Some? && (r.value.target != pcPred[r.value.specIdx] || r.value.force);
      if branchRedirect {
        killMask := {r.value.specIdx} + (Ids(n) - r.value.mask);
      } else if r.Some? {
        clearMask := {r.value.specIdx};
      }
      redirect := commitRedirect || branchRedirect;
      branchMask := bmask - (killMask + clearMask);
      if opens || r.Some? || commitRedirect {
        if commitRedirect { bmask := {}; }
        else if opens { bmask := branchMask + {snapId}; }
        else { bmask := branchMask; }
      }
      if killPend || redirect || r.Some? {
        killPend := redirect || r.Some?;
        regForce := commitRedirect || (branchRedirect && r.value.force);
        regKill, regClear := killMask, clearMask;
      }
    }

    method RegisterSuccess(q: Option<Request>, snapReady: bool) returns (ok: bool)
      ensures ok == Value().Accepts(allocator.size, q, snapReady)
    {
      var rdy := allocator.AllocateReady();
      ok := q.Some? && rdy && (!q.value.speculative || snapReady) && q.value.storeReady
        && (!q.value.serialize || allocator.num == 0) && !serial;
    }

    /** One clock tick.  `seqNo` and `branchMask` go to a registration, `broadcast` is the
        registered kill message that the pipeline sees during this cycle, `redirect` and
        `target` go to fetch; a redirecting commit beats a branch. */
    method Tick(r: Option<Redirect>, q: Option<Request>, snapReady: bool, snapId: nat,
                commit: bool, commitRedirect: bool, commitTarget: Word)
      returns (accepted: bool, seqNo: nat, branchMask: set<nat>, broadcast: Kill, redirect: bool, target: Word)
      requires Value().Shaped(n, allocator.size)
      requires r.Some? ==> r.value.specIdx < n && r.value.seqNo < allocator.size
      requires (q.Some? && q.value.speculative && snapReady ==> snapId < n)
      requires (commit ==> allocator.num > 0) && (commitRedirect ==> commit)
      modifies this, allocator
      ensures Value() == old(Value()).Next(n, allocator.size, r, q, snapReady, snapId, commit, commitRedirect)
      ensures accepted == old(Value()).Accepts(allocator.size, q, snapReady)
      ensures seqNo == old(allocator.tail) && branchMask == old(Value()).CurrentMask(r)
        && broadcast == old(Value().kill)
      ensures redirect == old(Value()).IsRedirect(r, commitRedirect)
      ensures redirect ==> target == if commitRedirect then commitTarget else r.value.target
    {
      target := if commitRedirect then commitTarget else if r.Some? then r.value.target else 0;
      hide Window.Cycle, Regs.NextMask, Regs.NextKill, Regs.CurrentMask, Regs.Event;
      broadcast, seqNo := Kill(regForce, regKill, regClear), allocator.tail;
      accepted := RegisterSuccess(q, snapReady);
      var opens := accepted && q.value.speculative;
      branchMask, redirect := TickMasks(r, opens, snapId, commitRedirect);
      var idx := if commitRedirect then allocator.head else if r.Some? then r.value.seqNo else 0;
      if q.Some? { TickSerial(accepted && q.value.serialize, commit, opens, snapId, q.value.pcSucc); }
      else { TickSerial(false, commit, false, 0, 0); }
      allocator.Cycle(accepted, commit, redirect, idx);
    }

    method TickSerial(serialize: bool, commit: bool, opens: bool, snapId: nat, pcSucc: Word)
      requires opens ==> snapId < |pcPred|
      modifies this`serial, this`pcPred
      ensures serial == if serialize || (old(serial) && commit) then !old(serial) else old(serial)
      ensures pcPred == if opens then old(pcPred)[snapId := pcSucc] else old(pcPred)
    {
      if serialize || (serial && commit) { serial := !serial; }
      if opens { pcPred := pcPred[snapId := pcSucc]; }
    }
  }
}
