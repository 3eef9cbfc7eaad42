/** The slots refine the plain queue. */
module IssueQueueRefinement {
  import opened Options
  import opened KillUnit
  import opened IssueQueue

  // ----- The ripple ---------------------------------------------------------------------

  ghost predicate HoleBelow(c: Config, slots: seq<Slot>, in_: Input, i: nat)
    requires i < |slots|
  {
    exists j :: 0 <= j <= i && Hole(c, slots, in_, j)
  }

  /** A slot empties exactly when some slot at or below it is a hole. */
  lemma {:induction false} Ripple(c: Config, slots: seq<Slot>, in_: Input, i: nat)
    requires i < |slots|
    ensures Hole(c, slots, in_, i) || (i > 0 && DoShift(c, slots, in_, i - 1)) <==> HoleBelow(c, slots, in_, i)
  {
    if i > 0 { Ripple(c, slots, in_, i - 1); }
    hide Hole;
    if HoleBelow(c, slots, in_, i) && !Hole(c, slots, in_, i) {
      var j :| 0 <= j <= i && Hole(c, slots, in_, j);
      assert HoleBelow(c, slots, in_, i - 1);
    }
  }

  /** There is room exactly when a slot is invalid or its entry issues. */
  lemma AddReadyExact(c: Config, slots: seq<Slot>, in_: Input)
    requires |slots| > 0
    ensures AddReady(c, slots, in_) <==> exists i :: 0 <= i < |slots| && Hole(c, slots, in_, i)
  {
    Ripple(c, slots, in_, |slots| - 1);
    hide WillIssue, Peek, DoShift;
  }

  /** The slots once the issuing entry has left. */
  ghost function Contents(c: Config, slots: seq<Slot>, in_: Input): (r: seq<Slot>)
    ensures |r| == |slots|
  {
    seq(|slots|, i requires 0 <= i < |slots| => if Hole(c, slots, in_, i) then None else Peek(slots[i], in_))
  }

  ghost function Added(in_: Input): Slot {
    if in_.add.Some? then Some(Latch(Forwarded(in_.add.value, in_.notify))) else None
  }

  lemma PeekLatched(s: Slot, in_: Input)
    requires s.Some? ==> Latched(s.value)
    ensures Peek(s, in_).Some? ==>
      s.Some? && Latched(Peek(s, in_).value) && Latch(Peek(s, in_).value) == Peek(s, in_).value
  {
  }

  lemma NextSlotExact(c: Config, slots: seq<Slot>, in_: Input, i: nat)
    requires Valid(slots) && i < |slots| && (in_.add.Some? ==> AddReady(c, slots, in_))
    ensures NextSlot(c, slots, in_, i) ==
      if !HoleBelow(c, slots, in_, i) then Contents(c, slots, in_)[i]
      else if i + 1 < |slots| then Contents(c, slots, in_)[i + 1]
      else Added(in_)
  {
    Ripple(c, slots, in_, i);
    if i + 1 < |slots| { PeekLatched(slots[i + 1], in_); }
    hide WillIssue, Peek, Latched, Latch, Forwarded, HoleBelow;
  }

  lemma {:induction false} EntriesConcat(a: seq<Slot>, b: seq<Slot>)
    ensures Entries(a + b) == Entries(a) + Entries(b)
  {
    if |b| == 0 {
      assert a + b == a;
    } else {
      EntriesConcat(a, b[..|b| - 1]);
      assert (a + b)[..|a + b| - 1] == a + b[..|b| - 1];
    }
  }

  lemma EntriesOne(s: Slot)
    ensures Entries([s]) == if s.Some? then [s.value] else []
  {
    assert Entries([s][..0]) == [];
  }

  lemma FirstHole(c: Config, slots: seq<Slot>, in_: Input, h: nat, i: nat)
    requires h < |slots| && i < |slots| && Hole(c, slots, in_, h) && forall j :: 0 <= j < h ==> !Hole(c, slots, in_, j)
    ensures HoleBelow(c, slots, in_, i) <==> i >= h
  {
    hide Hole;
  }

  /** Compaction loses, duplicates and reorders nothing. */
  lemma ShiftKeepsOrder(c: Config, slots: seq<Slot>, in_: Input)
    requires Valid(slots) && (in_.add.Some? ==> AddReady(c, slots, in_))
    ensures Entries(Next(c, slots, in_)) ==
      Entries(Contents(c, slots, in_)) + (if in_.add.Some? then [Added(in_).value] else [])
  {
    assert |slots| > 0;
    hide Entries, Next, Contents, Hole, AddReady, Valid, Peek;
    AddReadyExact(c, slots, in_);
    if h :| 0 <= h < |slots| && Hole(c, slots, in_, h) && forall j :: 0 <= j < h ==> !Hole(c, slots, in_, j) {
      ShiftOver(c, slots, in_, h);
    } else {
      NoHole(c, slots, in_, |slots|);
      NoShift(c, slots, in_);
      assert Entries(Next(c, slots, in_)) + [] == Entries(Next(c, slots, in_));
    }
  }

  lemma ShiftOver(c: Config, slots: seq<Slot>, in_: Input, h: nat)
    requires Valid(slots) && (in_.add.Some? ==> AddReady(c, slots, in_))
    requires h < |slots| && Hole(c, slots, in_, h) && forall j :: 0 <= j < h ==> !Hole(c, slots, in_, j)
    ensures Entries(Next(c, slots, in_)) ==
      Entries(Contents(c, slots, in_)) + (if in_.add.Some? then [Added(in_).value] else [])
  {
    hide Entries, NextSlot, Hole, AddReady, Latch, Forwarded, Valid, HoleBelow;
    var (con, next) := (Contents(c, slots, in_), Next(c, slots, in_));
    assert con[h] == None;
    forall i | 0 <= i < |slots| ensures ShiftedAt(con, next, h, Added(in_), i) {
      NextSlotExact(c, slots, in_, i);
      FirstHole(c, slots, in_, h, i);
    }
    hide Contents, Next;
    Compacted(con, next, h, Added(in_));
  }

  lemma NoShift(c: Config, slots: seq<Slot>, in_: Input)
    requires Valid(slots) && (in_.add.Some? ==> AddReady(c, slots, in_))
    requires forall j :: 0 <= j < |slots| ==> !Hole(c, slots, in_, j)
    ensures Next(c, slots, in_) == Contents(c, slots, in_)
  {
    hide NextSlot, Hole, AddReady, Valid;
    forall i | 0 <= i < |slots| ensures Next(c, slots, in_)[i] == Contents(c, slots, in_)[i] {
      NextSlotExact(c, slots, in_, i);
      assert !HoleBelow(c, slots, in_, i);
    }
  }

  lemma {:induction false} NoHole(c: Config, slots: seq<Slot>, in_: Input, i: nat)
    requires i <= |slots|
    requires !exists h :: 0 <= h < |slots| && Hole(c, slots, in_, h) && forall j :: 0 <= j < h ==>
      !Hole(c, slots, in_, j)
    ensures forall j :: 0 <= j < i ==> !Hole(c, slots, in_, j)
  {
    hide Hole;
    if i > 0 { NoHole(c, slots, in_, i - 1); }
  }

  ghost predicate ShiftedAt(con: seq<Slot>, next: seq<Slot>, h: nat, added: Slot, i: nat)
    requires |next| == |con| && i < |con|
  {
    next[i] == if i < h then con[i] else if i + 1 < |con| then con[i + 1] else added
  }

  lemma Compacted(con: seq<Slot>, next: seq<Slot>, h: nat, added: Slot)
    requires |next| == |con| && h < |con| && con[h] == None
    requires forall i :: 0 <= i < |con| ==> ShiftedAt(con, next, h, added, i)
    ensures Entries(next) == Entries(con) + (if added.Some? then [added.value] else [])
  {
    hide Entries;
    var (lo, hi) := (con[..h], con[h + 1..]);
    CompactedShape(con, next, h, added);
    EntriesConcat(lo + hi, [added]);
    EntriesConcat(lo, hi);
    EntriesConcat(lo + [None], hi);
    EntriesConcat(lo, [None]);
    EntriesOne(added);
    EntriesOne(None);
  }

  lemma CompactedShape(con: seq<Slot>, next: seq<Slot>, h: nat, added: Slot)
    requires |next| == |con| && h < |con| && con[h] == None
    requires forall i :: 0 <= i < |con| ==> ShiftedAt(con, next, h, added, i)
    ensures next == (con[..h] + con[h + 1..]) + [added] && con == (con[..h] + [None]) + con[h + 1..]
  {
    forall i | 0 <= i < |con| ensures next[i] == ((con[..h] + con[h + 1..]) + [added])[i] {
      assert ShiftedAt(con, next, h, added, i);
    }
  }

  // ----- Which entry issues -------------------------------------------------------------

  /** The surviving entries of the lowest i slots, as they were before the cycle. */
  ghost function KeptTo(slots: seq<Slot>, in_: Input, i: nat): seq<Entry>
    requires i <= |slots|
  {
    Surviving(Entries(slots[..i]), in_)
  }

  lemma {:induction false} KeptAll(q: seq<Entry>, in_: Input)
    ensures forall i :: 0 <= i < |Surviving(q, in_)| ==> Keep(Surviving(q, in_)[i].mask, in_.kill)
  {
    if |q| > 0 { KeptAll(q[..|q| - 1], in_); }
  }

  lemma SurvivingAppend(q: seq<Entry>, e: Entry, in_: Input)
    ensures Surviving(q + [e], in_) == Surviving(q, in_) + (if Keep(e.mask, in_.kill) then [e] else [])
  {
    assert (q + [e])[..|q|] == q;
  }

  lemma KeptToStep(slots: seq<Slot>, in_: Input, i: nat)
    requires i < |slots|
    ensures KeptTo(slots, in_, i + 1) ==
      KeptTo(slots, in_, i) + (if Peek(slots[i], in_).Some? then [slots[i].value] else [])
  {
    var (a, b) := (slots[..i], slots[..i + 1]);
    assert b[..|b| - 1] == a && b[|b| - 1] == slots[i];
    if slots[i].Some? {
      assert Entries(b) == Entries(a) + [slots[i].value];
      SurvivingAppend(Entries(a), slots[i].value, in_);
    } else {
      assert Entries(b) == Entries(a) + [] == Entries(a);
    }
  }

  lemma {:induction false} KeptPrefix(slots: seq<Slot>, in_: Input, i: nat, m: nat)
    requires i <= m <= |slots|
    ensures KeptTo(slots, in_, i) <= KeptTo(slots, in_, m)
    decreases m
  {
    if i < m {
      KeptPrefix(slots, in_, i, m - 1);
      KeptToStep(slots, in_, m - 1);
      hide KeptTo;
    }
  }

  /** Where slot i's entry sits among the survivors. */
  lemma RankOf(slots: seq<Slot>, in_: Input, i: nat)
    requires i < |slots| && Peek(slots[i], in_).Some?
    ensures var (r, all) := (|KeptTo(slots, in_, i)|, KeptTo(slots, in_, |slots|));
      r < |all| && all[r] == slots[i].value && all[..r] == KeptTo(slots, in_, i)
  {
    assert slots[i].Some?;
    hide KeptTo, Peek;
    KeptToStep(slots, in_, i);
    KeptPrefix(slots, in_, i + 1, |slots|);
    PrefixPlusOne(KeptTo(slots, in_, i), slots[i].value, KeptTo(slots, in_, |slots|));
  }

  lemma PrefixPlusOne(a: seq<Entry>, e: Entry, all: seq<Entry>)
    requires a + [e] <= all
    ensures |a| < |all| && all[|a|] == e && all[..|a|] == a
  {
    assert all[|a|] == (a + [e])[|a|];
    forall i | 0 <= i < |a| ensures all[..|a|][i] == a[i] { assert all[i] == (a + [e])[i]; }
  }

  lemma {:induction false} SlotOfRank(slots: seq<Slot>, in_: Input, m: nat, r: nat) returns (i: nat)
    requires m <= |slots| && r < |KeptTo(slots, in_, m)|
    ensures i < m && Peek(slots[i], in_).Some? && |KeptTo(slots, in_, i)| == r
  {
    assert m > 0;
    KeptToStep(slots, in_, m - 1);
    hide KeptTo, Peek;
    if r < |KeptTo(slots, in_, m - 1)| { i := SlotOfRank(slots, in_, m - 1, r); } else { i := m - 1; }
  }

  /** The chains of wires below slot i say what the survivors below it are like. */
  lemma {:induction false} Chains(c: Config, slots: seq<Slot>, in_: Input, i: nat)
    requires i <= |slots|
    ensures var (q, p) := (KeptTo(slots, in_, i), Peeks(slots, in_));
      && (Before(Readies(c, slots, in_), i) <==> exists r :: 0 <= r < |q| && EntryReady(c, q[r], in_))
      && (Before(Ordereds(p), i) <==> exists r :: 0 <= r < |q| && q[r].ordered)
      && (Before(Ordereds(p), i) || Before(Unordereds(p), i) <==> |q| > 0)
  {
    if i > 0 {
      Chains(c, slots, in_, i - 1);
      KeptToStep(slots, in_, i - 1);
      PeeksAt(c, slots, in_, i - 1);
      hide KeptTo, Peeks, Readies, Ordereds, Unordereds, Peek, Ready, EntryReady;
      var (q', q) := (KeptTo(slots, in_, i - 1), KeptTo(slots, in_, i));
      assert forall r :: 0 <= r < |q'| ==> q[r] == q'[r];
      if |q| > |q'| { assert q[|q'|] == slots[i - 1].value; }
    }
  }

  lemma PeeksAt(c: Config, slots: seq<Slot>, in_: Input, i: nat)
    requires i < |slots|
    ensures var (s, p) := (slots[i], Peeks(slots, in_));
      && (Readies(c, slots, in_)[i] <==> Peek(s, in_).Some? && EntryReady(c, s.value, in_))
      && (Ordereds(p)[i] <==> Peek(s, in_).Some? && s.value.ordered)
      && (Unordereds(p)[i] <==> Peek(s, in_).Some? && !s.value.ordered)
  {
  }

  /** The wires let exactly the oldest ready entry issue, if it need not wait. */
  lemma MayIssueExact(c: Config, slots: seq<Slot>, in_: Input, i: nat)
    requires i < |slots|
    ensures var all := KeptTo(slots, in_, |slots|);
      MayIssue(c, Peeks(slots, in_), Readies(c, slots, in_), i) <==>
      Peek(slots[i], in_).Some? && Issues(c, all, in_) && |KeptTo(slots, in_, i)| == Oldest(c, all, in_, 0)
  {
    var (p, all, q) := (Peeks(slots, in_), KeptTo(slots, in_, |slots|), KeptTo(slots, in_, i));
    Chains(c, slots, in_, i);
    if Peek(slots[i], in_).Some? {
      RankOf(slots, in_, i);
      hide KeptTo, Before, Matches;
      var r := |q|;
      assert forall j :: 0 <= j < r ==> all[j] == q[j];
      assert Ready(c, slots[i], in_) == EntryReady(c, all[r], in_);
      assert FirstReady(Readies(c, slots, in_), i) <==> Oldest(c, all, in_, 0) == r && EntryReady(c, all[r], in_);
      assert WaitPred(p, i) <==> Waits(all, r);
    }
  }

  // ----- One cycle ----------------------------------------------------------------------

  ghost function LeftOf(now: seq<Entry>, issues: bool, k: nat): seq<Entry> {
    if issues && k < |now| then Removed(now, k) else now
  }

  lemma LeftAppend(now: seq<Entry>, e: Entry, issues: bool, k: nat)
    ensures LeftOf(now + [e], issues, k) == LeftOf(now, issues, k) + (if issues && k == |now| then [] else [e])
  {
    if issues && k < |now| { assert (now + [e])[k + 1..] == now[k + 1..] + [e]; }
  }

  lemma ContentAt(c: Config, slots: seq<Slot>, in_: Input, j: nat)
    requires j < |slots|
    ensures var all := KeptTo(slots, in_, |slots|);
      Contents(c, slots, in_)[j] ==
      if in_.remove && Issues(c, all, in_) && |KeptTo(slots, in_, j)| == Oldest(c, all, in_, 0) then None
          else Peek(slots[j], in_)
  {
    hide KeptTo, Issues, MayIssue, Peek;
    MayIssueExact(c, slots, in_, j);
  }

  lemma {:induction false} ContentsTo(c: Config, slots: seq<Slot>, in_: Input, i: nat)
    requires i <= |slots|
    ensures var all := KeptTo(slots, in_, |slots|);
      Entries(Contents(c, slots, in_)[..i])
      == LeftOf(Updated(KeptTo(slots, in_, i), in_), in_.remove && Issues(c, all, in_), Oldest(c, all, in_, 0))
  {
    hide KeptTo, Issues, Contents, Entries, Refreshed, Oldest, Peek;
    if i > 0 {
      hide LeftOf;
      var j := i - 1;
      var (con, all) := (Contents(c, slots, in_), KeptTo(slots, in_, |slots|));
      var (issues, k) := (in_.remove && Issues(c, all, in_), Oldest(c, all, in_, 0));
      ContentsTo(c, slots, in_, j);
      KeptToStep(slots, in_, j);
      ContentAt(c, slots, in_, j);
      assert con[..i] == con[..j] + [con[j]];
      EntriesConcat(con[..j], [con[j]]);
      EntriesOne(con[j]);
      UpdatedStep(slots, in_, j);
      var now' := Updated(KeptTo(slots, in_, j), in_);
      if Peek(slots[j], in_).Some? { LeftAppend(now', Peek(slots[j], in_).value, issues, k); }
      hide Updated;
    } else {
      NoneKept(c, slots, in_);
    }
  }

  lemma NoneKept(c: Config, slots: seq<Slot>, in_: Input)
    ensures KeptTo(slots, in_, 0) == [] && Entries(Contents(c, slots, in_)[..0]) == []
  {
  }

  lemma UpdatedStep(slots: seq<Slot>, in_: Input, j: nat)
    requires j < |slots|
    ensures Updated(KeptTo(slots, in_, j + 1), in_) == Updated(KeptTo(slots, in_, j), in_)
      + (if Peek(slots[j], in_).Some? then [Peek(slots[j], in_).value] else [])
  {
    KeptToStep(slots, in_, j);
    hide KeptTo;
  }

  /** The valid slots in index order after a cycle are the plain queue after it, and the
      ready signals are the plain queue's. */
  lemma Refines(c: Config, slots: seq<Slot>, in_: Input)
    requires Valid(slots) && (in_.add.Some? ==> AddReady(c, slots, in_))
    ensures Entries(Next(c, slots, in_)) == Step(c, Entries(slots), in_)
    ensures Valid(Next(c, slots, in_)) && |Next(c, slots, in_)| == |slots|
  {
    var n := |slots|;
    ShiftKeepsOrder(c, slots, in_);
    ContentsTo(c, slots, in_, n);
    assert slots[..n] == slots && Contents(c, slots, in_)[..n] == Contents(c, slots, in_);
    NextValid(c, slots, in_);
    hide Surviving, Entries, Contents, Next, Valid, AddReady, Latch, Forwarded;
  }

  lemma NextValid(c: Config, slots: seq<Slot>, in_: Input)
    requires Valid(slots)
    ensures Valid(Next(c, slots, in_)) && |Next(c, slots, in_)| == |slots|
  {
    hide DoShift, Take, Keep, Out;
  }

  /** An entry is offered exactly when the plain queue issues, and it is that queue's oldest
      ready one with the cycle's kill and notifications applied. */
  lemma RemoveReadyExact(c: Config, slots: seq<Slot>, in_: Input)
    ensures var kept := Surviving(Entries(slots), in_);
      && (RemoveReady(c, slots, in_) <==> Issues(c, kept, in_))
      && forall i :: 0 <= i < |slots| && MayIssue(c, Peeks(slots, in_), Readies(c, slots, in_), i) ==>
           Oldest(c, kept, in_, 0) < |kept|
               && Peek(slots[i], in_) == Some(Refreshed(kept[Oldest(c, kept, in_, 0)], in_))
  {
    var all := KeptTo(slots, in_, |slots|);
    assert slots[..|slots|] == slots;
    hide Issues, Oldest, Surviving, Entries, MayIssue, Refreshed;
    if Issues(c, all, in_) {
      assert Oldest(c, all, in_, 0) < |all| by { OldestIssues(c, all, in_); }
      var i := SlotOfRank(slots, in_, |slots|, Oldest(c, all, in_, 0));
      MayIssueExact(c, slots, in_, i);
    }
    forall i | 0 <= i < |slots| && MayIssue(c, Peeks(slots, in_), Readies(c, slots, in_), i)
      ensures Issues(c, all, in_) && Oldest(c, all, in_, 0) < |all|
        && Peek(slots[i], in_) == Some(Refreshed(all[Oldest(c, all, in_, 0)], in_))
    {
      MayIssueExact(c, slots, in_, i);
      RankOf(slots, in_, i);
    }
  }

  lemma OldestIssues(c: Config, q: seq<Entry>, in_: Input)
    requires Issues(c, q, in_)
    ensures Oldest(c, q, in_, 0) < |q| && EntryReady(c, q[Oldest(c, q, in_, 0)], in_)
  {
  }
}
