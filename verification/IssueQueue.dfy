/** The compacting issue queue.

    Slots may have holes.  Each cycle a kill message filters them, notifications wake
    sources in place and in flight, at most one entry issues, and a ripple of shift
    signals moves everything above the lowest hole down by one. */
module IssueQueue {
  import opened Options
  import opened KillUnit

  datatype Source = Source(val: bool, tag: nat, rdy: bool)

  datatype Entry = Entry(opaque_: nat, mask: set<nat>, ordered: bool, src0: Source, src1: Source)

  type Slot = Option<Entry>

  datatype Config = Config(ordered: bool, bypassReady: bool)

  /** One cycle's calls; `notify` is the set of tags announced. */
  datatype Input = Input(kill: Kill, notify: set<nat>, add: Option<Entry>, remove: bool)

  // ----- One slot -----------------------------------------------------------------------

  predicate Matches(s: Source, notify: set<nat>) { s.val && s.tag in notify }

  function Woken(s: Source, notify: set<nat>): Source { s.(rdy := s.rdy || Matches(s, notify)) }

  function Refreshed(e: Entry, in_: Input): Entry {
    e.(mask := Out(e.mask, in_.kill), src0 := Woken(e.src0, in_.notify), src1 := Woken(e.src1, in_.notify))
  }

  /** What a slot shows its neighbours: kill and notifications applied. */
  function Peek(s: Slot, in_: Input): Slot {
    if s.None? || !Keep(s.value.mask, in_.kill) then None else Some(Refreshed(s.value, in_))
  }

  /** Ready from the registered bits, or with the bypass from this cycle's too. */
  predicate Ready(c: Config, s: Slot, in_: Input) {
    && Peek(s, in_).Some?
    && if c.bypassReady then Peek(s, in_).value.src0.rdy && Peek(s, in_).value.src1.rdy
        else s.value.src0.rdy && s.value.src1.rdy
  }

  /** A slot's input registers: a source that is not used counts as ready. */
  function Latch(e: Entry): Entry {
    e.(src0 := e.src0.(rdy := e.src0.rdy || !e.src0.val), src1 := e.src1.(rdy := e.src1.rdy || !e.src1.val))
  }

  /** The entry as offered to the last slot, with this cycle's notifications forwarded. */
  function Forwarded(e: Entry, notify: set<nat>): Entry {
    e.(src0 := e.src0.(rdy := e.src0.tag in notify || e.src0.rdy),
        src1 := e.src1.(rdy := e.src1.tag in notify || e.src1.rdy))
  }

  // ----- The wires ----------------------------------------------------------------------

  function Peeks(slots: seq<Slot>, in_: Input): (p: seq<Slot>)
    ensures |p| == |slots|
  {
    seq(|slots|, i requires 0 <= i < |slots| => Peek(slots[i], in_))
  }

  function Readies(c: Config, slots: seq<Slot>, in_: Input): (r: seq<bool>)
    ensures |r| == |slots|
  {
    seq(|slots|, i requires 0 <= i < |slots| => Ready(c, slots[i], in_))
  }

  function Before(flags: seq<bool>, i: nat): bool
    requires i <= |flags|
  {
    i > 0 && (Before(flags, i - 1) || flags[i - 1])
  }

  predicate IsOrdered(s: Slot) { s.Some? && s.value.ordered }

  predicate IsUnordered(s: Slot) { s.Some? && !s.value.ordered }

  function Ordereds(p: seq<Slot>): seq<bool> { seq(|p|, i requires 0 <= i < |p| => IsOrdered(p[i])) }

  function Unordereds(p: seq<Slot>): seq<bool> { seq(|p|, i requires 0 <= i < |p| => IsUnordered(p[i])) }

  predicate WaitPred(p: seq<Slot>, i: nat)
    requires i < |p|
  {
    Before(Ordereds(p), i) || (IsOrdered(p[i]) && Before(Unordereds(p), i))
  }

  predicate FirstReady(ready: seq<bool>, i: nat)
    requires i < |ready|
  {
    ready[i] && !Before(ready, i)
  }

  predicate MayIssue(c: Config, p: seq<Slot>, ready: seq<bool>, i: nat)
    requires |p| == |ready| && i < |p|
  {
    FirstReady(ready, i) && !(c.ordered && WaitPred(p, i))
  }

  predicate WillIssue(c: Config, slots: seq<Slot>, in_: Input, i: nat)
    requires i < |slots|
  {
    in_.remove && MayIssue(c, Peeks(slots, in_), Readies(c, slots, in_), i)
  }

  /** Slot i empties or is empty: its own entry stays only if this fails. */
  predicate Hole(c: Config, slots: seq<Slot>, in_: Input, i: nat)
    requires i < |slots|
  {
    Peek(slots[i], in_).None? || WillIssue(c, slots, in_, i)
  }

  /** The entry of slot i + 1 moves to slot i. */
  predicate DoShift(c: Config, slots: seq<Slot>, in_: Input, i: nat)
    requires i + 1 < |slots|
  {
    && (Hole(c, slots, in_, i) || (i > 0 && DoShift(c, slots, in_, i - 1)))
    && !Hole(c, slots, in_, i + 1)
  }

  predicate Take(c: Config, slots: seq<Slot>, in_: Input, i: nat)
    requires i < |slots|
  {
    WillIssue(c, slots, in_, i) || (i > 0 && DoShift(c, slots, in_, i - 1))
  }

  predicate AddReady(c: Config, slots: seq<Slot>, in_: Input)
    requires |slots| > 0
  {
    var last := |slots| - 1;
    Peek(slots[last], in_).None? || Take(c, slots, in_, last)
  }

  predicate RemoveReady(c: Config, slots: seq<Slot>, in_: Input) {
    exists i :: 0 <= i < |slots| && MayIssue(c, Peeks(slots, in_), Readies(c, slots, in_), i)
  }

  function NextSlot(c: Config, slots: seq<Slot>, in_: Input, i: nat): Slot
    requires i < |slots|
  {
    if i + 1 < |slots| && DoShift(c, slots, in_, i) then Some(Latch(Peek(slots[i + 1], in_).value))
    else if i + 1 == |slots| && in_.add.Some? then Some(Latch(Forwarded(in_.add.value, in_.notify)))
    else if Take(c, slots, in_, i) then None
    else Peek(slots[i], in_)
  }

  /** The slots after the cycle. */
  function Next(c: Config, slots: seq<Slot>, in_: Input): seq<Slot> {
    seq(|slots|, i requires 0 <= i < |slots| => NextSlot(c, slots, in_, i))
  }

  // ----- The plain queue ----------------------------------------------------------------

  /** The entries in index order. */
  function Entries(slots: seq<Slot>): seq<Entry> {
    if |slots| == 0 then []
    else Entries(slots[..|slots| - 1]) + (if slots[|slots| - 1].Some? then [slots[|slots| - 1].value] else [])
  }

  predicate EntryReady(c: Config, e: Entry, in_: Input) { Ready(c, Some(e), in_) }

  /** Surviving entries, each with the state it had before the cycle. */
  function Surviving(q: seq<Entry>, in_: Input): seq<Entry> {
    if |q| == 0 then []
    else Surviving(q[..|q| - 1], in_) + (if Keep(q[|q| - 1].mask, in_.kill) then [q[|q| - 1]] else [])
  }

  function Updated(q: seq<Entry>, in_: Input): (r: seq<Entry>)
    ensures |r| == |q|
  {
    seq(|q|, i requires 0 <= i < |q| => Refreshed(q[i], in_))
  }

  /** The oldest ready entry, or the length. */
  function Oldest(c: Config, q: seq<Entry>, in_: Input, from: nat): (k: nat)
    requires from <= |q|
    ensures from <= k <= |q|
    ensures k < |q| ==> EntryReady(c, q[k], in_)
    ensures forall i :: from <= i < k ==> !EntryReady(c, q[i], in_)
    decreases |q| - from
  {
    if from == |q| || EntryReady(c, q[from], in_) then from else Oldest(c, q, in_, from + 1)
  }

  /** In an ordered queue an ordered entry waits for everything older, and everything waits
      for an older ordered entry. */
  predicate Waits(q: seq<Entry>, k: nat)
    requires k < |q|
  {
    exists i :: 0 <= i < k && (q[i].ordered || q[k].ordered)
  }

  predicate Issues(c: Config, q: seq<Entry>, in_: Input) {
    var k := Oldest(c, q, in_, 0);
    k < |q| && !(c.ordered && Waits(q, k))
  }

  function Removed(q: seq<Entry>, k: nat): seq<Entry>
    requires k < |q|
  {
    q[..k] + q[k + 1..]
  }

  /** One cycle on the plain queue: filter, wake, take one out, append. */
  function Step(c: Config, q: seq<Entry>, in_: Input): seq<Entry> {
    var kept := Surviving(q, in_);
    var now := Updated(kept, in_);
    var left := if in_.remove && Issues(c, kept, in_) then Removed(now, Oldest(c, kept, in_, 0)) else now;
    left + (if in_.add.Some? then [Latch(Forwarded(in_.add.value, in_.notify))] else [])
  }

  /** Unused sources are marked ready. */
  predicate Latched(e: Entry) { (e.src0.val || e.src0.rdy) && (e.src1.val || e.src1.rdy) }

  ghost predicate Valid(slots: seq<Slot>) {
    |slots| > 0 && forall i :: 0 <= i < |slots| && slots[i].Some? ==> Latched(slots[i].value)
  }
}
