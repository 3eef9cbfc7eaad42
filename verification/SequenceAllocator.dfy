/** The circular window of sequence numbers: allocate at the tail, free at the head,
    roll the tail back to a live number, all in one cycle. */
module SequenceAllocator {

  /** Register arithmetic modulo `size` on sums and differences of two indices. */
  function Wrap(a: int, size: nat): (r: nat)
    requires 0 - size <= a < 2 * size
    ensures r < size
  {
    if a < 0 then a + size else if a < size then a else a - size
  }

  lemma WrapIsMod(a: int, size: nat)
    requires size > 0 && 0 - size <= a < 2 * size
    ensures Wrap(a, size) == a % size
  {
    var (q, r) := (a / size, a % size);
    assert a == size * q + r && 0 <= r < size;
    assert -1 <= q <= 1 by {
      assert q >= 2 ==> size * q >= size * 2;
      assert q <= -2 ==> size * q <= size * -2;
    }
  }

  /** `size` is the number of indices, 2^bits; registers wrap at it. */
  datatype Window = Window(head: nat, tail: nat, num: nat) {

    ghost predicate Valid(size: nat) {
      size > 0 && head < size && tail < size && num <= size && tail == Wrap(head + num, size)
    }

    /** The live numbers, oldest first. */
    ghost function Live(size: nat): (l: seq<nat>)
      requires Valid(size)
      ensures |l| == num && forall i :: 0 <= i < num ==> l[i] == Wrap(head + i, size)
    {
      seq<nat>(num, i requires 0 <= i < num => Wrap(head + i, size))
    }

    function Cycle(size: nat, allocate: bool, free: bool, rollback: bool, idx: nat): Window
      requires Valid(size) && idx < size && (allocate ==> num < size) && (free ==> num > 0)
    {
      var tailNext := if rollback then Wrap(idx + 1, size) else Wrap(tail + 1, size);
      var headNext := if free then Wrap(head + 1, size) else head;
      var delta: nat := Wrap(tailNext as int - headNext as int, size);
      var numNext :=
        if rollback then (if delta == 0 && idx != head then size else delta)
        else if allocate && !free then num + 1
        else if free && !allocate then num - 1
        else num;
      Window(headNext, if allocate || rollback then tailNext else tail, numNext)
    }
  }

  ghost function Rest(live: seq<nat>, free: bool): seq<nat>
    requires free ==> |live| > 0
  {
    if free then live[1..] else live
  }

  lemma RollbackCycle(w: Window, size: nat, allocate: bool, free: bool, p: nat)
    requires w.Valid(size) && size >= 2 && p < w.num && (allocate ==> w.num < size)
    ensures var w' := w.Cycle(size, allocate, free, true, w.Live(size)[p]);
      && w'.Valid(size) && w'.num == p + 1 - (if free then 1 else 0)
      && w'.head == Wrap(w.head + (if free then 1 else 0), size)
  {
  }

  lemma PlainCycle(w: Window, size: nat, allocate: bool, free: bool, idx: nat)
    requires w.Valid(size) && idx < size && (allocate ==> w.num < size) && (free ==> w.num > 0)
    ensures var w' := w.Cycle(size, allocate, free, false, idx);
      && w'.Valid(size)
      && w'.num == w.num + (if allocate then 1 else 0) - (if free then 1 else 0)
      && w'.head == Wrap(w.head + (if free then 1 else 0), size)
  {
  }

  /** What one cycle should leave of the live numbers: a rollback cuts after its number
      and beats an allocation, an allocation appends the tail, and a free then drops the
      oldest. */
  ghost function Wanted(w: Window, size: nat, allocate: bool, free: bool, rollback: bool, p: nat): seq<nat>
    requires w.Valid(size) && (free ==> w.num > 0) && (rollback ==> p < w.num)
  {
    var live := w.Live(size);
    Rest(if rollback then live[..p + 1] else if allocate then live + [w.tail] else live, free)
  }

  /** One cycle of the registers is exactly that, whatever is called together, except for
      a rollback without a free in a window of one number, which loses the number. */
  lemma CycleExact(w: Window, size: nat, allocate: bool, free: bool, rollback: bool, p: nat)
    requires w.Valid(size)
    requires (allocate ==> w.num < size) && (free ==> w.num > 0) && (rollback ==> p < w.num)
    ensures var w' := w.Cycle(size, allocate, free, rollback, if rollback then w.Live(size)[p] else 0);
      && w'.Valid(size)
      && (w'.Live(size) == Wanted(w, size, allocate, free, rollback, p) <==> !(size == 1 && rollback && !free))
  {
    var live := w.Live(size);
    var w' := w.Cycle(size, allocate, free, rollback, if rollback then live[p] else 0);
    if size == 1 && rollback {
      assert w'.num == 0 && |Wanted(w, size, allocate, free, rollback, p)| == if free then 0 else 1;
      return;
    }
    if rollback { RollbackCycle(w, size, allocate, free, p); } else { PlainCycle(w, size, allocate, free, 0); }
    var all := if rollback then live[..p + 1] else if allocate then live + [w.tail] else live;
    assert forall i :: 0 <= i < |all| ==> all[i] == Wrap(w.head + i, size);
    hide Window.Cycle;
    ShiftedLive(w, w', size, all, free);
  }

  lemma ShiftedLive(w: Window, w': Window, size: nat, all: seq<nat>, free: bool)
    requires size > 0 && w'.Valid(size) && w.head < size && |all| <= size && (free ==> |all| > 0)
    requires forall i :: 0 <= i < |all| ==> all[i] == Wrap(w.head + i, size)
    requires w'.num == |all| - (if free then 1 else 0) && w'.head == Wrap(w.head + (if free then 1 else 0), size)
    ensures w'.Live(size) == Rest(all, free)
  {
    forall i | 0 <= i < w'.num ensures w'.Live(size)[i] == Rest(all, free)[i] {
    }
  }

  /** Without index bits the window cannot roll back: its only live number is lost. */
  lemma ZeroWidthLosesTheEntry()
    ensures var w := Window(0, 0, 1);
      w.Valid(1) && w.Live(1) == [0] && w.Cycle(1, false, false, true, 0).Live(1) != [0]
  {
    assert Window(0, 0, 1).Live(1)[0] == 0;
  }

  class SequenceAllocator {
    const size: nat
    var head: nat
    var tail: nat
    var num: nat

    ghost function Value(): Window
      reads this
    {
      Window(head, tail, num)
    }

    constructor (size: nat)
      requires size > 0
      ensures this.size == size && Value() == Window(0, 0, 0)
    {
      this.size := size;
      head, tail, num := 0, 0, 0;
    }

    method AllocateReady() returns (rdy: bool)
      ensures rdy <==> num != size
    {
      rdy := num != size;
    }

    method Cycle(allocate: bool, free: bool, rollback: bool, idx: nat)
      requires Value().Valid(size) && idx < size && (allocate ==> num < size) && (free ==> num > 0)
      modifies this
      ensures Value() == old(Value()).Cycle(size, allocate, free, rollback, idx)
    {
      hide Wrap;
      var tailNext := Wrap(tail + 1, size);
      if rollback { tailNext := Wrap(idx + 1, size); }
      var headNext := head;
      if free { headNext := Wrap(head + 1, size); }
      var delta: nat := Wrap(tailNext as int - headNext as int, size);
      if rollback {
        if delta == 0 && idx != head { num := size; } else { num := delta; }
      } else if allocate != free {
        if allocate { num := num + 1; } else { num := num - 1; }
      }
      if allocate || rollback { tail := tailNext; }
      head := headNext;
    }
  }
}
