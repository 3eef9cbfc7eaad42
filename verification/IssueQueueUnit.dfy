/** The queue as the hardware holds it: an array of slots updated in place. */
module IssueQueueUnit {
  import opened Options
  import opened KillUnit
  import opened IssueQueue
  import opened IssueQueueRefinement

  class CompactingIssueQueue {
    const c: Config
    const slots: array<Slot>

    constructor (c: Config, n: nat)
      requires n > 0
      ensures this.c == c && fresh(slots) && slots.Length == n && forall i :: 0 <= i < n ==> slots[i] == None
    {
      this.c := c;
      slots := new Slot[n](_ => None);
    }

    /** The first-ready and wait chains, as loops over the slots. */
    method Select(in_: Input) returns (first: int, issue: bool)
      requires slots.Length > 0
      ensures -1 <= first < slots.Length
      ensures forall i :: 0 <= i < slots.Length ==> (FirstReady(Readies(c, slots[..], in_), i) <==> i == first)
      ensures issue <==> first >= 0 && MayIssue(c, Peeks(slots[..], in_), Readies(c, slots[..], in_), first)
    {
      ghost var (p, r) := (Peeks(slots[..], in_), Readies(c, slots[..], in_));
      first, issue := -1, false;
      var prevOrdered, prevNonordered, prevReady := false, false, false;
      var i := 0;
      while i < slots.Length
        invariant 0 <= i <= slots.Length && -1 <= first < i
        invariant prevOrdered == Before(Ordereds(p), i) && prevNonordered == Before(Unordereds(p), i)
        invariant prevReady == Before(r, i) && (prevReady <==> first >= 0)
        invariant forall j :: 0 <= j < i ==> (FirstReady(r, j) <==> j == first)
        invariant issue <==> first >= 0 && MayIssue(c, p, r, first)
      {
        var peek := Peek(slots[i], in_);
        assert p[i] == peek;
        var ready := Ready(c, slots[i], in_);
        if ready && !prevReady {
          first := i;
          var wait := if IsOrdered(peek) then prevOrdered || prevNonordered else prevOrdered;
          issue := !(c.ordered && wait);
        }
        prevReady := prevReady || ready;
        prevOrdered := prevOrdered || IsOrdered(peek);
        prevNonordered := prevNonordered || IsUnordered(peek);
        i := i + 1;
      }
    }

    /** One clock tick, slots rewritten from the head up. */
    method Cycle(in_: Input) returns (addReady: bool, removed: Option<Entry>)
      requires Valid(slots[..]) && (in_.add.Some? ==> AddReady(c, slots[..], in_))
      modifies slots
      ensures slots[..] == Next(c, old(slots[..]), in_)
      ensures Valid(slots[..]) && Entries(slots[..]) == Step(c, Entries(old(slots[..])), in_)
      ensures addReady == AddReady(c, old(slots[..]), in_)
      ensures removed.Some? <==> in_.remove && RemoveReady(c, old(slots[..]), in_)
      ensures removed.Some? ==>
        var kept := Surviving(Entries(old(slots[..])), in_);
        var k := Oldest(c, kept, in_, 0);
        k < |kept| && removed == Some(Refreshed(kept[k], in_))
    {
      ghost var was := slots[..];
      hide WillIssue, Peek, Latch, Forwarded, Valid, AddReady, Next, Step, Oldest, Issues, MayIssue, RemoveReady;
      var will;
      will, removed := Choose(in_);
      Refines(c, was, in_);
      addReady := Shift(in_, will);
    }

    /** The slot that gives up its entry this cycle, or -1. */
    method Choose(in_: Input) returns (will: int, removed: Option<Entry>)
      requires Valid(slots[..])
      ensures forall i :: 0 <= i < slots.Length ==> (WillIssue(c, slots[..], in_, i) <==> i == will)
      ensures removed.Some? <==> in_.remove && RemoveReady(c, slots[..], in_)
      ensures removed.Some? ==>
        var kept := Surviving(Entries(slots[..]), in_);
        var k := Oldest(c, kept, in_, 0);
        k < |kept| && removed == Some(Refreshed(kept[k], in_))
    {
      hide Peek, Latch, Forwarded, Surviving, Entries, Issues, Oldest, Refreshed, Before;
      var first, issue := Select(in_);
      will := if in_.remove && issue then first else -1;
      RemoveReadyExact(c, slots[..], in_);
      removed := if will >= 0 then Peek(slots[will], in_) else None;
    }

    method Shift(in_: Input, will: int) returns (addReady: bool)
      requires Valid(slots[..])
      requires forall i :: 0 <= i < slots.Length ==> (WillIssue(c, slots[..], in_, i) <==> i == will)
      modifies slots
      ensures slots[..] == Next(c, old(slots[..]), in_)
      ensures addReady == AddReady(c, old(slots[..]), in_)
    {
      hide WillIssue, Peek, Latch, Latched, Forwarded, AddReady, NextSlot, Take;
      ghost var was := slots[..];
      var n := slots.Length;
      var shiftBelow := false;
      var i := 0;
      addReady := false;
      while i < n
        invariant 0 <= i <= n
        invariant forall j :: i <= j < n ==> slots[j] == was[j]
        invariant forall j :: 0 <= j < i ==> slots[j] == NextSlot(c, was, in_, j)
        invariant shiftBelow == (0 < i < n && DoShift(c, was, in_, i - 1))
        invariant i == n ==> addReady == AddReady(c, was, in_)
      {
        hide DoShift;
        i, shiftBelow, addReady := Advance(was, in_, i, will, shiftBelow);
      }
      assert slots[..] == Next(c, was, in_);
    }

    method Advance(ghost was: seq<Slot>, in_: Input, i: nat, will: int, shiftBelow: bool)
      returns (j: nat, shift: bool, addReady: bool)
      requires i < slots.Length == |was|
      requires forall k :: i <= k < |was| ==> slots[k] == was[k]
      requires forall k :: 0 <= k < |was| ==> (WillIssue(c, was, in_, k) <==> k == will)
      requires shiftBelow == (i > 0 && DoShift(c, was, in_, i - 1))
      modifies slots
      ensures j == i + 1 && slots[i] == NextSlot(c, was, in_, i)
      ensures forall k :: 0 <= k < |was| && k != i ==> slots[k] == old(slots[k])
      ensures shift == (j < |was| && DoShift(c, was, in_, i))
      ensures j == |was| ==> addReady == AddReady(c, was, in_)
    {
      hide WillIssue, Peek, Latch, Forwarded;
      var peek := Peek(slots[i], in_);
      var take := i == will || shiftBelow;
      shift, addReady := false, peek.None? || take;
      j := i + 1;
      if j < slots.Length {
        var above := Peek(slots[j], in_);
        shift := (peek.None? || take) && above.Some? && j != will;
        if shift { slots[i] := Some(Latch(above.value)); } else { slots[i] := if take then None else peek; }
      } else if in_.add.Some? {
        slots[i] := Some(Latch(Forwarded(in_.add.value, in_.notify)));
      } else {
        slots[i] := if take then None else peek;
      }
    }
  }
}
