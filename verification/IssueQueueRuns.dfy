/** Wake-ups over whole runs of the issue queue. */
module IssueQueueRuns {
  import opened Options
  import opened KillUnit
  import opened IssueQueue
  import opened IssueQueueRefinement

  ghost predicate Allowed(c: Config, slots: seq<Slot>, in_: Input) {
    |slots| > 0 && (in_.add.Some? ==> AddReady(c, slots, in_))
  }

  /** The slots after a run from an empty queue; None once a call was not allowed. */
  ghost function After(c: Config, n: nat, ins: seq<Input>): Option<seq<Slot>> {
    if |ins| == 0 then Some(seq(n, _ => None))
    else match After(c, n, ins[..|ins| - 1])
      case None => None
      case Some(slots) => if Allowed(c, slots, ins[|ins| - 1]) then Some(Next(c, slots, ins[|ins| - 1])) else None
  }

  ghost predicate Notified(tag: nat, ins: seq<Input>, from: nat) {
    exists u :: from <= u < |ins| && tag in ins[u].notify
  }

  /** The registered ready bit of a source added at cycle t. */
  ghost predicate SourceExact(added: Source, now: Source, ins: seq<Input>, t: nat) {
    && now.val == added.val && now.tag == added.tag
    && (now.rdy <==> !added.val || added.rdy || Notified(added.tag, ins, t))
  }

  /** The mask of what was added at cycle t, less every id cleared after t and before u. */
  ghost function MaskAt(ins: seq<Input>, t: nat, u: nat): set<nat>
    requires t < u <= |ins| && ins[t].add.Some?
  {
    set x | x in ins[t].add.value.mask && forall v :: t < v < u ==> x !in ins[v].kill.clear
  }

  /** e is the entry added at cycle t, woken by exactly the notifications since, with exactly
      the ids cleared since gone from its mask. */
  ghost predicate Born(e: Entry, ins: seq<Input>, t: nat) {
    && t < |ins| && ins[t].add.Some?
    && e.mask == MaskAt(ins, t, |ins|)
    && e.opaque_ == ins[t].add.value.opaque_ && e.ordered == ins[t].add.value.ordered
    && SourceExact(ins[t].add.value.src0, e.src0, ins, t)
    && SourceExact(ins[t].add.value.src1, e.src1, ins, t)
  }

  ghost predicate Pedigree(q: seq<Entry>, born: seq<nat>, ins: seq<Input>) {
    && |q| == |born|
    && (forall i, j :: 0 <= i < j < |born| ==> born[i] < born[j])
    && (forall i :: 0 <= i < |q| ==> Born(q[i], ins, born[i]))
  }

  /** The times of the entries that survive the broadcast. */
  ghost function Kept(q: seq<Entry>, born: seq<nat>, in_: Input): seq<nat>
    requires |q| == |born|
  {
    if |q| == 0 then []
    else
      var m := |q| - 1;
      Kept(q[..m], born[..m], in_) + (if Keep(q[m].mask, in_.kill) then [born[m]] else [])
  }

  lemma {:induction false} SurvivingPedigree(q: seq<Entry>, born: seq<nat>, ins: seq<Input>, in_: Input)
    requires Pedigree(q, born, ins)
    ensures Pedigree(Surviving(q, in_), Kept(q, born, in_), ins)
    ensures var b := Kept(q, born, in_); |b| > 0 ==> |born| > 0 && b[|b| - 1] <= born[|born| - 1]
  {
    hide Born;
    if |q| > 0 { SurvivingPedigree(q[..|q| - 1], born[..|q| - 1], ins, in_); }
  }

  ghost predicate KeptOf(q: seq<Entry>, born: seq<nat>, in_: Input, i: nat, t: nat)
    requires |q| == |born| && i < |q|
  {
    born[i] == t && Keep(q[i].mask, in_.kill)
  }

  lemma {:induction false} KeptIff(q: seq<Entry>, born: seq<nat>, in_: Input, t: nat)
    requires |q| == |born|
    ensures t in Kept(q, born, in_) <==> exists i :: 0 <= i < |q| && KeptOf(q, born, in_, i, t)
  {
    if |q| > 0 {
      var (m, p, b) := (|q| - 1, q[..|q| - 1], born[..|q| - 1]);
      KeptIff(p, b, in_, t);
      assert forall i :: 0 <= i < m ==> (KeptOf(p, b, in_, i, t) <==> KeptOf(q, born, in_, i, t));
      assert t in Kept(q, born, in_) <==> t in Kept(p, b, in_) || KeptOf(q, born, in_, m, t);
      hide KeptOf, Kept;
      if i :| 0 <= i < m && KeptOf(p, b, in_, i, t) { assert KeptOf(q, born, in_, i, t); }
      if i :| 0 <= i < |q| && KeptOf(q, born, in_, i, t) { assert i < m ==> KeptOf(p, b, in_, i, t); }
    }
  }

  lemma RemovedPedigree(q: seq<Entry>, born: seq<nat>, ins: seq<Input>, k: nat)
    requires Pedigree(q, born, ins) && k < |q|
    ensures Pedigree(Removed(q, k), born[..k] + born[k + 1..], ins)
  {
    hide Born;
  }

  lemma SourceWoken(added: Source, now: Source, ins: seq<Input>, in_: Input, t: nat)
    requires SourceExact(added, now, ins, t) && t < |ins|
    ensures SourceExact(added, Woken(now, in_.notify), ins + [in_], t)
  {
    var ins' := ins + [in_];
    if Notified(added.tag, ins, t) {
      var u :| t <= u < |ins| && added.tag in ins[u].notify;
      assert ins'[u] == ins[u];
    }
    if added.tag in in_.notify { assert ins'[|ins|] == in_; }
    if Notified(added.tag, ins', t) && !Notified(added.tag, ins, t) {
      var u :| t <= u < |ins'| && added.tag in ins'[u].notify;
      assert u == |ins|;
    }
  }

  lemma MaskCleared(ins: seq<Input>, in_: Input, t: nat)
    requires t < |ins| && ins[t].add.Some?
    ensures MaskAt(ins + [in_], t, |ins| + 1) == Out(MaskAt(ins, t, |ins|), in_.kill)
  {
    var (all, n) := (ins + [in_], |ins|);
    assert all[t] == ins[t] && all[n] == in_;
    forall x | x in MaskAt(ins, t, n) && x !in in_.kill.clear ensures x in MaskAt(all, t, n + 1) {
      forall v | t < v < n + 1 ensures x !in all[v].kill.clear { if v < n { assert all[v] == ins[v]; } }
    }
    forall x | x in MaskAt(all, t, n + 1) ensures x in MaskAt(ins, t, n) && x !in in_.kill.clear {
      forall v | t < v < n ensures x !in ins[v].kill.clear { assert all[v] == ins[v]; }
      assert x !in all[n].kill.clear;
    }
  }

  lemma UpdatedPedigree(q: seq<Entry>, born: seq<nat>, ins: seq<Input>, in_: Input)
    requires Pedigree(q, born, ins)
    ensures Pedigree(Updated(q, in_), born, ins + [in_])
  {
    hide SourceExact, MaskAt;
    forall i | 0 <= i < |q| ensures Born(Updated(q, in_)[i], ins + [in_], born[i]) {
      var a := ins[born[i]].add.value;
      SourceWoken(a.src0, q[i].src0, ins, in_, born[i]);
      SourceWoken(a.src1, q[i].src1, ins, in_, born[i]);
      MaskCleared(ins, in_, born[i]);
    }
  }

  lemma FreshBorn(ins: seq<Input>, in_: Input)
    requires in_.add.Some?
    ensures Born(Latch(Forwarded(in_.add.value, in_.notify)), ins + [in_], |ins|)
  {
    var ins' := ins + [in_];
    assert ins'[|ins|] == in_;
    forall tag: nat ensures Notified(tag, ins', |ins|) <==> tag in in_.notify { }
  }

  /** The time of the entry that issues in a cycle, if one does. */
  ghost function Handed(c: Config, q: seq<Entry>, born: seq<nat>, in_: Input): Option<nat>
    requires |q| == |born|
  {
    var (kept, b) := (Surviving(q, in_), Kept(q, born, in_));
    if in_.remove && Issues(c, kept, in_) && Oldest(c, kept, in_, 0) < |b| then Some(b[Oldest(c, kept, in_, 0)])
        else None
  }

  /** The times of the entries after a cycle at time `now`. */
  ghost function TimesAfter(c: Config, q: seq<Entry>, born: seq<nat>, in_: Input, now: nat): seq<nat>
    requires |q| == |born|
  {
    var (kept, b) := (Surviving(q, in_), Kept(q, born, in_));
    var k := Oldest(c, kept, in_, 0);
    (if Handed(c, q, born, in_).Some? then b[..k] + b[k + 1..] else b) + (if in_.add.Some? then [now] else [])
  }

  /** The survivors once the issuing one has left, and their times. */
  ghost function LeftEntries(c: Config, kept: seq<Entry>, in_: Input): seq<Entry> {
    if in_.remove && Issues(c, kept, in_) then Removed(Updated(kept, in_), Oldest(c, kept, in_, 0))
        else Updated(kept, in_)
  }

  ghost function LeftTimes(c: Config, kept: seq<Entry>, b: seq<nat>, in_: Input): seq<nat>
    requires |kept| == |b|
  {
    var k := Oldest(c, kept, in_, 0);
    if in_.remove && Issues(c, kept, in_) then b[..k] + b[k + 1..] else b
  }

  lemma LeftPedigree(c: Config, kept: seq<Entry>, b: seq<nat>, ins: seq<Input>, in_: Input)
    requires Pedigree(kept, b, ins)
    ensures Pedigree(LeftEntries(c, kept, in_), LeftTimes(c, kept, b, in_), ins + [in_])
    ensures forall i :: 0 <= i < |LeftTimes(c, kept, b, in_)| ==> LeftTimes(c, kept, b, in_)[i] < |ins|
  {
    hide Born, Updated, Issues, Oldest;
    UpdatedPedigree(kept, b, ins, in_);
    BornEarlier(kept, b, ins);
    if in_.remove && Issues(c, kept, in_) {
      OldestIssues(c, kept, in_);
      var (now, k) := (Updated(kept, in_), Oldest(c, kept, in_, 0));
      RemovedPedigree(now, b, ins + [in_], k);
    }
    hide Pedigree, Removed;
  }

  lemma StepPedigree(c: Config, q: seq<Entry>, born: seq<nat>, ins: seq<Input>, in_: Input)
    requires Pedigree(q, born, ins)
    ensures Pedigree(Step(c, q, in_), TimesAfter(c, q, born, in_, |ins|), ins + [in_])
  {
    hide Born, Latch, Forwarded, Surviving, Updated, Kept, Issues, Oldest, Removed;
    SurvivingPedigree(q, born, ins, in_);
    var (kept, b) := (Surviving(q, in_), Kept(q, born, in_));
    LeftPedigree(c, kept, b, ins, in_);
    PedigreeLength(q, born, ins);
    PedigreeLength(kept, b, ins);
    hide Pedigree;
    var (left, times) := (LeftEntries(c, kept, in_), LeftTimes(c, kept, b, in_));
    HandedWhenIssues(c, q, born, in_);
    if in_.add.Some? {
      FreshBorn(ins, in_);
      AppendPedigree(left, times, ins + [in_], Latch(Forwarded(in_.add.value, in_.notify)), |ins|);
    } else {
      assert left + [] == left && times + [] == times;
    }
  }

  lemma HandedWhenIssues(c: Config, q: seq<Entry>, born: seq<nat>, in_: Input)
    requires |q| == |born| && |Surviving(q, in_)| == |Kept(q, born, in_)|
    ensures Handed(c, q, born, in_).Some? <==> in_.remove && Issues(c, Surviving(q, in_), in_)
  {
    hide Surviving, Kept;
  }

  lemma AppendPedigree(q: seq<Entry>, born: seq<nat>, ins: seq<Input>, e: Entry, t: nat)
    requires Pedigree(q, born, ins) && Born(e, ins, t) && forall i :: 0 <= i < |born| ==> born[i] < t
    ensures Pedigree(q + [e], born + [t], ins)
  {
    hide Born;
  }

  lemma BornEarlier(q: seq<Entry>, born: seq<nat>, ins: seq<Input>)
    requires Pedigree(q, born, ins)
    ensures forall i :: 0 <= i < |born| ==> born[i] < |ins|
  {
    hide SourceExact;
    forall i | 0 <= i < |born| ensures born[i] < |ins| { assert Born(q[i], ins, born[i]); }
  }

  lemma {:induction false} EmptyQueue(n: nat)
    ensures Entries(seq(n, _ => None)) == []
  {
    if n > 0 {
      EmptyQueue(n - 1);
      var s: seq<Slot> := seq(n, _ => None);
      assert s[..n - 1] == seq(n - 1, _ => None);
    }
  }

  /** Over every run, the entries are additions in the order they were made, and a ready bit
      is set exactly when its source is unused, came ready, or was announced in the cycle of
      the addition or any later one, whatever shifting went on meanwhile. */
  lemma {:induction false} NoLostWakeUp(c: Config, n: nat, ins: seq<Input>) returns (born: seq<nat>)
    requires n > 0 && After(c, n, ins).Some?
    ensures Valid(After(c, n, ins).value) && |After(c, n, ins).value| == n
    ensures Pedigree(Entries(After(c, n, ins).value), born, ins)
  {
    hide Next, Entries, AddReady, Pedigree, Step;
    if |ins| == 0 {
      EmptyQueue(n);
      born := [];
      assert Pedigree([], born, ins) by { EmptyPedigree(ins); }
    } else {
      var (pre, in_) := (ins[..|ins| - 1], ins[|ins| - 1]);
      assert ins == pre + [in_];
      var slots := After(c, n, pre).value;
      var b := NoLostWakeUp(c, n, pre);
      Refines(c, slots, in_);
      StepPedigree(c, Entries(slots), b, pre, in_);
      PedigreeLength(Entries(slots), b, pre);
      born := TimesAfter(c, Entries(slots), b, in_, |pre|);
    }
  }

  lemma PedigreeLength(q: seq<Entry>, born: seq<nat>, ins: seq<Input>)
    requires Pedigree(q, born, ins)
    ensures |q| == |born|
  {
  }

  lemma EmptyPedigree(ins: seq<Input>)
    ensures Pedigree([], [], ins)
  {
  }

  /** What issues is the oldest entry whose sources have all been announced, by an earlier
      cycle or, with the bypass, by this one too. */
  lemma IssuesOldestWoken(c: Config, n: nat, ins: seq<Input>, in_: Input) returns (born: seq<nat>)
    requires n > 0 && After(c, n, ins).Some? && RemoveReady(c, After(c, n, ins).value, in_)
    ensures var kept := Surviving(Entries(After(c, n, ins).value), in_);
      var k := Oldest(c, kept, in_, 0);
      && k < |kept| && Pedigree(kept, born, ins)
      && forall i :: 0 <= i <= k ==>
           (i == k <==> Awake(ins[born[i]].add.value, Heard(c, ins, in_), born[i]))
  {
    var b := NoLostWakeUp(c, n, ins);
    var slots := After(c, n, ins).value;
    SurvivingPedigree(Entries(slots), b, ins, in_);
    born := Kept(Entries(slots), b, in_);
    RemoveReadyExact(c, slots, in_);
    KeptAll(Entries(slots), in_);
    var kept := Surviving(Entries(slots), in_);
    OldestIssues(c, kept, in_);
    var k := Oldest(c, kept, in_, 0);
    hide Next, Entries, Surviving, Issues, AddReady, Valid, After;
    forall i | 0 <= i <= k
      ensures EntryReady(c, kept[i], in_) <==>
        Awake(ins[born[i]].add.value, if c.bypassReady then ins + [in_] else ins, born[i])
    {
      AwakeExact(c, kept[i], ins, in_, born[i]);
    }
  }

  ghost predicate Announced(s: Source, ins: seq<Input>, t: nat) { !s.val || s.rdy || Notified(s.tag, ins, t) }

  ghost predicate Awake(e: Entry, ins: seq<Input>, t: nat) { Announced(e.src0, ins, t) && Announced(e.src1, ins, t) }

  lemma AwakeExact(c: Config, e: Entry, ins: seq<Input>, in_: Input, t: nat)
    requires Born(e, ins, t) && Keep(e.mask, in_.kill)
    ensures EntryReady(c, e, in_) <==> Awake(ins[t].add.value, if c.bypassReady then ins + [in_] else ins, t)
  {
    var a := ins[t].add.value;
    SourceWoken(a.src0, e.src0, ins, in_, t);
    SourceWoken(a.src1, e.src1, ins, in_, t);
    hide Notified, Keep;
  }

  /** The k-th survivor is the oldest awake one and ordering does not hold it back: in an
      ordered queue nothing older is ordered, and if it is ordered nothing is older. */
  ghost predicate MayGo(c: Config, born: seq<nat>, ins: seq<Input>, now: seq<Input>, k: nat)
    requires forall i :: 0 <= i < |born| ==> born[i] < |ins| && ins[born[i]].add.Some?
  {
    && k < |born| && Awake(ins[born[k]].add.value, now, born[k])
    && forall i :: 0 <= i < k ==>
         && !Awake(ins[born[i]].add.value, now, born[i])
         && (c.ordered ==> !ins[born[i]].add.value.ordered && !ins[born[k]].add.value.ordered)
  }

  /** The announcements that count for issuing: with the bypass, this cycle's too. */
  ghost function Heard(c: Config, ins: seq<Input>, in_: Input): seq<Input> {
    if c.bypassReady then ins + [in_] else ins
  }

  /** Over every run, the queue offers an entry exactly when one of its survivors may go. */
  lemma OffersIff(c: Config, n: nat, ins: seq<Input>, in_: Input) returns (born: seq<nat>)
    requires n > 0 && After(c, n, ins).Some?
    ensures Pedigree(Surviving(Entries(After(c, n, ins).value), in_), born, ins)
    ensures forall i :: 0 <= i < |born| ==> born[i] < |ins| && ins[born[i]].add.Some?
    ensures RemoveReady(c, After(c, n, ins).value, in_)
            <==> exists k :: 0 <= k < |born| && MayGo(c, born, ins, Heard(c, ins, in_), k)
  {
    var b := NoLostWakeUp(c, n, ins);
    var slots := After(c, n, ins).value;
    SurvivingPedigree(Entries(slots), b, ins, in_);
    born := Kept(Entries(slots), b, in_);
    RemoveReadyExact(c, slots, in_);
    KeptAll(Entries(slots), in_);
    var (kept, now) := (Surviving(Entries(slots), in_), Heard(c, ins, in_));
    hide Next, Entries, Surviving, AddReady, Valid, After, RemoveReady, Kept;
    forall i | 0 <= i < |kept|
      ensures born[i] < |ins| && ins[born[i]].add.Some? && kept[i].ordered == ins[born[i]].add.value.ordered
      ensures EntryReady(c, kept[i], in_) <==> Awake(ins[born[i]].add.value, now, born[i])
    {
      AwakeExact(c, kept[i], ins, in_, born[i]);
    }
    hide Born, EntryReady, Awake;
    var k := Oldest(c, kept, in_, 0);
    if Issues(c, kept, in_) { assert MayGo(c, born, ins, now, k); }
    if j :| 0 <= j < |born| && MayGo(c, born, ins, now, j) { assert j == k; }
  }

  /** Any cycle may follow, with an addition if there is room. */
  lemma RunsOn(c: Config, n: nat, ins: seq<Input>, in_: Input)
    requires n > 0 && After(c, n, ins).Some? && (in_.add.Some? ==> AddReady(c, After(c, n, ins).value, in_))
    ensures After(c, n, ins + [in_]).Some?
  {
    assert (ins + [in_])[..|ins|] == ins;
    var b := NoLostWakeUp(c, n, ins);
    hide AddReady, Next;
  }

  // ----- Who is in the queue --------------------------------------------------------------

  /** The broadcast of cycle v, later than t, is forced or meets the mask that the entry
      added at t has by then. */
  ghost predicate Hit(ins: seq<Input>, t: nat, v: nat) {
    && t < v < |ins| && ins[t].add.Some?
    && (ins[v].kill.force || MaskAt(ins, t, v) * ins[v].kill.kill != {})
  }

  ghost predicate Killed(ins: seq<Input>, t: nat) { exists v :: t < v < |ins| && Hit(ins, t, v) }

  /** What has been added and neither issued nor killed since. */
  ghost predicate Waiting(ins: seq<Input>, issued: seq<Option<nat>>, t: nat) {
    t < |ins| && ins[t].add.Some? && !Killed(ins, t) && Some(t) !in issued
  }

  /** In cycle v, and only if it was asked to and offered one, the queue hands out the entry
      that `issued` says. */
  ghost predicate HandsOut(c: Config, n: nat, ins: seq<Input>, v: nat, out: Option<nat>) {
    v < |ins| && match After(c, n, ins[..v])
      case None => false
      case Some(slots) =>
        && (out.Some? <==> ins[v].remove && RemoveReady(c, slots, ins[v]))
        && (out.Some? ==>
              var kept := Surviving(Entries(slots), ins[v]);
              var k := Oldest(c, kept, ins[v], 0);
              k < |kept| && Born(kept[k], ins[..v], out.value))
  }

  lemma HitSame(ins: seq<Input>, in_: Input, t: nat, v: nat)
    requires v < |ins|
    ensures Hit(ins + [in_], t, v) <==> Hit(ins, t, v)
  {
    if t < v {
      var all := ins + [in_];
      assert all[t] == ins[t] && all[v] == ins[v];
      if ins[t].add.Some? {
        assert forall u :: t < u < v ==> all[u] == ins[u];
        assert MaskAt(all, t, v) == MaskAt(ins, t, v);
      }
    }
  }

  lemma HitNow(e: Entry, ins: seq<Input>, in_: Input, t: nat)
    requires Born(e, ins, t)
    ensures Hit(ins + [in_], t, |ins|) <==> !Keep(e.mask, in_.kill)
  {
    var (all, n) := (ins + [in_], |ins|);
    assert all[t] == ins[t] && all[n] == in_ && forall u :: t < u < n ==> all[u] == ins[u];
    assert MaskAt(all, t, n) == MaskAt(ins, t, n);
    hide SourceExact;
  }

  lemma KilledStep(ins: seq<Input>, in_: Input, t: nat)
    ensures Killed(ins + [in_], t) <==> Killed(ins, t) || Hit(ins + [in_], t, |ins|)
  {
    var all := ins + [in_];
    forall v: nat | v < |ins| ensures Hit(all, t, v) <==> Hit(ins, t, v) { HitSame(ins, in_, t, v); }
    hide Hit;
    if v :| t < v < |ins| && Hit(ins, t, v) { assert Hit(all, t, v); }
    if v :| t < v < |all| && Hit(all, t, v) { assert v < |ins| ==> Hit(ins, t, v); }
    if Hit(all, t, |ins|) { assert t < |ins| by { HitLater(all, t, |ins|); } }
  }

  lemma HitLater(ins: seq<Input>, t: nat, v: nat)
    requires Hit(ins, t, v)
    ensures t < v
  {
  }

  lemma WaitingStep(c: Config, q: seq<Entry>, born: seq<nat>, ins: seq<Input>, issued: seq<Option<nat>>, in_: Input,
      t: nat)
    requires Pedigree(q, born, ins) && (t in born <==> Waiting(ins, issued, t))
    requires forall x :: x in issued && x.Some? ==> x.value < |ins|
    ensures t in TimesAfter(c, q, born, in_, |ins|) <==> Waiting(ins + [in_], issued + [Handed(c, q, born, in_)], t)
  {
    hide Born, Hit, Surviving, Kept, Killed, Keep, KeptOf, Issues, Oldest;
    var (kept, b, out) := (Surviving(q, in_), Kept(q, born, in_), Handed(c, q, born, in_));
    SurvivingPedigree(q, born, ins, in_);
    KeptIff(q, born, in_, t);
    KilledStep(ins, in_, t);
    BornEarlier(q, born, ins);
    BornEarlier(kept, b, ins);
    assert forall i :: 0 <= i < |q| ==> Born(q[i], ins, born[i]);
    forall i | 0 <= i < |q| && born[i] == t ensures Hit(ins + [in_], t, |ins|) <==> !Keep(q[i].mask, in_.kill) {
      HitNow(q[i], ins, in_, t);
    }
    KeptNow(q, born, in_, t, Hit(ins + [in_], t, |ins|));
    var k := Oldest(c, kept, in_, 0);
    assert t in TimesAfter(c, q, born, in_, |ins|) <==>
      (t in b && (out.Some? ==> t != b[k])) || (in_.add.Some? && t == |ins|) by { TimesIn(c, q, born, in_, |ins|, t); }
    assert Some(t) in issued + [out] <==> Some(t) in issued || out == Some(t);
    if t == |ins| {
      NotKilledYet(ins, in_);
      assert Some(t) !in issued;
      assert out != Some(t);
    } else if t < |ins| {
      assert (ins + [in_])[t] == ins[t];
    }
  }

  lemma NotKilledYet(ins: seq<Input>, in_: Input)
    ensures !Killed(ins + [in_], |ins|)
  {
  }

  lemma KeptNow(q: seq<Entry>, born: seq<nat>, in_: Input, t: nat, hit: bool)
    requires |q| == |born| && (t in Kept(q, born, in_) <==> exists i :: 0 <= i < |q| && KeptOf(q, born, in_, i, t))
    requires forall i :: 0 <= i < |q| && born[i] == t ==> (hit <==> !Keep(q[i].mask, in_.kill))
    ensures t in Kept(q, born, in_) <==> t in born && !hit
  {
    hide Keep, Kept;
    if t in born {
      var i :| 0 <= i < |born| && born[i] == t;
      assert !hit ==> KeptOf(q, born, in_, i, t);
    }
  }

  lemma TimesIn(c: Config, q: seq<Entry>, born: seq<nat>, in_: Input, now: nat, t: nat)
    requires |q| == |born|
    requires var b := Kept(q, born, in_); forall i, j :: 0 <= i < j < |b| ==> b[i] < b[j]
    ensures var b := Kept(q, born, in_);
      t in TimesAfter(c, q, born, in_, now) <==>
      (t in b && (Handed(c, q, born, in_).Some? ==> t != b[Oldest(c, Surviving(q, in_), in_, 0)]))
      || (in_.add.Some? && t == now)
  {
    hide Surviving, Kept, Issues, Oldest;
    var (b, k) := (Kept(q, born, in_), Oldest(c, Surviving(q, in_), in_, 0));
    if Handed(c, q, born, in_).Some? {
      assert b == b[..k] + [b[k]] + b[k + 1..];
      assert t in b <==> t in b[..k] || t == b[k] || t in b[k + 1..];
    }
  }

  lemma HandsOutNow(c: Config, n: nat, ins: seq<Input>, in_: Input, slots: seq<Slot>, born: seq<nat>)
    requires After(c, n, ins) == Some(slots) && Pedigree(Entries(slots), born, ins)
    ensures |born| == |Entries(slots)|
    ensures HandsOut(c, n, ins + [in_], |ins|, Handed(c, Entries(slots), born, in_))
  {
    hide After, Born, Surviving, Kept, RemoveReady, Issues, Oldest, Entries;
    var q := Entries(slots);
    assert (ins + [in_])[..|ins|] == ins && (ins + [in_])[|ins|] == in_;
    RemoveReadyExact(c, slots, in_);
    SurvivingPedigree(q, born, ins, in_);
    var (kept, b) := (Surviving(q, in_), Kept(q, born, in_));
    if Issues(c, kept, in_) { OldestIssues(c, kept, in_); }
    var k := Oldest(c, kept, in_, 0);
    assert |b| == |kept| && (k < |b| ==> Born(kept[k], ins, b[k]));
    hide Pedigree;
  }

  lemma HandsOutStill(c: Config, n: nat, ins: seq<Input>, in_: Input, v: nat, out: Option<nat>)
    requires HandsOut(c, n, ins, v, out)
    ensures HandsOut(c, n, ins + [in_], v, out)
  {
    assert (ins + [in_])[..v] == ins[..v] && (ins + [in_])[v] == ins[v];
    hide After, Born, Surviving, RemoveReady, Oldest, Entries;
  }

  /** Over every run, an entry is in the queue exactly when it has been added and neither
      handed out since nor killed since by a broadcast, forced or meeting its mask of that
      moment. */
  lemma {:induction false} InQueueExactly(c: Config, n: nat, ins: seq<Input>)
    returns (born: seq<nat>, issued: seq<Option<nat>>)
    requires n > 0 && After(c, n, ins).Some?
    ensures Valid(After(c, n, ins).value) && Pedigree(Entries(After(c, n, ins).value), born, ins)
    ensures |issued| == |ins| && forall v :: 0 <= v < |ins| ==> HandsOut(c, n, ins, v, issued[v])
    ensures forall x :: x in issued && x.Some? ==> x.value < |ins|
    ensures forall t: nat :: t in born <==> Waiting(ins, issued, t)
  {
    hide Next, Entries, AddReady, Pedigree, Step, HandsOut, Waiting, TimesAfter, Handed, Surviving, Oldest;
    if |ins| == 0 {
      EmptyQueue(n);
      born, issued := [], [];
      EmptyPedigree(ins);
      assert forall t: nat :: !Waiting(ins, issued, t) by { NobodyWaits(ins, issued); }
    } else {
      var (pre, in_) := (ins[..|ins| - 1], ins[|ins| - 1]);
      assert ins == pre + [in_];
      var slots := After(c, n, pre).value;
      var b, was := InQueueExactly(c, n, pre);
      Refines(c, slots, in_);
      StepPedigree(c, Entries(slots), b, pre, in_);
      HandsOutNow(c, n, pre, in_, slots, b);
      var out := Handed(c, Entries(slots), b, in_);
      born, issued := TimesAfter(c, Entries(slots), b, in_, |pre|), was + [out];
      forall v | 0 <= v < |ins| ensures HandsOut(c, n, ins, v, issued[v]) {
        if v < |pre| { HandsOutStill(c, n, pre, in_, v, was[v]); }
      }
      HandedEarlier(c, Entries(slots), b, pre, in_);
      forall t: nat ensures t in born <==> Waiting(ins, issued, t) {
        WaitingStep(c, Entries(slots), b, pre, was, in_, t);
      }
    }
  }

  lemma NobodyWaits(ins: seq<Input>, issued: seq<Option<nat>>)
    requires |ins| == 0
    ensures forall t: nat :: !Waiting(ins, issued, t)
  {
  }

  lemma HandedEarlier(c: Config, q: seq<Entry>, born: seq<nat>, ins: seq<Input>, in_: Input)
    requires Pedigree(q, born, ins)
    ensures |q| == |born| && (Handed(c, q, born, in_).Some? ==> Handed(c, q, born, in_).value < |ins|)
  {
    SurvivingPedigree(q, born, ins, in_);
    BornEarlier(Surviving(q, in_), Kept(q, born, in_), ins);
    hide Born, Surviving, Kept, Issues, Oldest;
  }
}
