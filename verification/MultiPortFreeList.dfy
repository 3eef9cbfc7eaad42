/** The multi-port free list: chained masks in one cycle, against calls made one by one. */
module MultiPortFreeList {
  import opened Options
  import opened FreeLists

  datatype Config = Config(nalloc: nat, nfree: nat, freeAllocBypass: bool, releaseAllocBypass: bool)

  /** One cycle's calls, one entry a port. */
  datatype Calls = Calls(frees: seq<Option<nat>>, allocs: seq<bool>, release: Option<seq<bool>>,
      set_: Option<seq<bool>>)

  predicate Fits(c: Config, n: nat, k: Calls) {
    && |k.frees| == c.nfree && |k.allocs| == c.nalloc
    && (forall i :: 0 <= i < |k.frees| && k.frees[i].Some? ==> k.frees[i].value < n)
    && (k.release.Some? ==> |k.release.value| == n)
    && (k.set_.Some? ==> |k.set_.value| == n)
  }

  // ----- Calls one by one -----------------------------------------------------------------

  function FreeAll(bits: seq<bool>, frees: seq<Option<nat>>): (r: seq<bool>)
    requires forall i :: 0 <= i < |frees| && frees[i].Some? ==> frees[i].value < |bits|
    ensures |r| == |bits|
  {
    if |frees| == 0 then bits
    else
      var b := FreeAll(bits, frees[..|frees| - 1]);
      var last := frees[|frees| - 1];
      if last.Some? then b[last.value := true] else b
  }

  /** A call takes the lowest free slot; without one it changes nothing. */
  function AllocOne(bits: seq<bool>, call: bool): (r: seq<bool>)
    ensures |r| == |bits|
  {
    if call && Lowest(bits) < |bits| then bits[Lowest(bits) := false] else bits
  }

  /** After the first j allocation ports. */
  function AllocUpTo(bits: seq<bool>, allocs: seq<bool>, j: nat): (r: seq<bool>)
    requires j <= |allocs|
    ensures |r| == |bits|
  {
    if j == 0 then bits else AllocOne(AllocUpTo(bits, allocs, j - 1), allocs[j - 1])
  }

  function Released(bits: seq<bool>, mask: Option<seq<bool>>): (r: seq<bool>)
    requires mask.Some? ==> |mask.value| == |bits|
    ensures |r| == |bits|
  {
    if mask.Some? then Union(bits, mask.value) else bits
  }

  /** What the allocation ports start from: frees and releases that are bypassed come first. */
  function Before(c: Config, bits: seq<bool>, k: Calls): (r: seq<bool>)
    requires Fits(c, |bits|, k)
    ensures |r| == |bits|
  {
    var b := if c.freeAllocBypass then FreeAll(bits, k.frees) else bits;
    if c.releaseAllocBypass then Released(b, k.release) else b
  }

  /** The calls in interface order. */
  function InOrder(c: Config, bits: seq<bool>, k: Calls): (r: seq<bool>)
    requires Fits(c, |bits|, k)
    ensures |r| == |bits|
  {
    var a := AllocUpTo(Before(c, bits, k), k.allocs, |k.allocs|);
    var b := if c.freeAllocBypass then a else FreeAll(a, k.frees);
    var d := if c.releaseAllocBypass then b else Released(b, k.release);
    if k.set_.Some? then k.set_.value else d
  }

  /** What the first j allocation ports answer: the slot, if there is one. */
  function Answers(bits: seq<bool>, allocs: seq<bool>, j: nat): (r: seq<Option<nat>>)
    requires j <= |allocs|
    ensures |r| == j
  {
    if j == 0 then []
    else
      var b := AllocUpTo(bits, allocs, j - 1);
      Answers(bits, allocs, j - 1) + [if Lowest(b) < |b| then Some(Lowest(b)) else None]
  }

  function AllAnswers(c: Config, bits: seq<bool>, k: Calls): (r: seq<Option<nat>>)
    requires Fits(c, |bits|, k)
    ensures |r| == |k.allocs|
  {
    Answers(Before(c, bits, k), k.allocs, |k.allocs|)
  }

  /** A port is called only when it is ready. */
  predicate Called(answers: seq<Option<nat>>, allocs: seq<bool>)
    requires |answers| == |allocs|
  {
    forall j :: 0 <= j < |allocs| && allocs[j] ==> answers[j].Some?
  }

  // ----- What the calls of a cycle amount to ----------------------------------------------

  /** A slot is free after the frees exactly when it was, or some port frees it. */
  lemma {:induction false} FreedIff(bits: seq<bool>, frees: seq<Option<nat>>, x: nat)
    requires (forall i :: 0 <= i < |frees| && frees[i].Some? ==> frees[i].value < |bits|) && x < |bits|
    ensures FreeAll(bits, frees)[x] <==> bits[x] || Some(x) in frees
  {
    if |frees| > 0 {
      FreedIff(bits, frees[..|frees| - 1], x);
      assert frees == frees[..|frees| - 1] + [frees[|frees| - 1]];
    }
  }

  ghost predicate Granted(answers: seq<Option<nat>>, allocs: seq<bool>, x: nat)
    requires |answers| <= |allocs|
  {
    exists i :: 0 <= i < |answers| && allocs[i] && answers[i] == Some(x)
  }

  /** A slot is free after the allocations exactly when it was and no port was granted it;
      each port is offered the lowest slot then still free, or none if none is. */
  lemma {:induction false} GrantedIff(bits: seq<bool>, allocs: seq<bool>, j: nat, x: nat)
    requires j <= |allocs| && x < |bits|
    ensures AllocUpTo(bits, allocs, j)[x] <==> bits[x] && !Granted(Answers(bits, allocs, j), allocs, x)
  {
    if j > 0 {
      GrantedIff(bits, allocs, j - 1, x);
      var (a, b) := (Answers(bits, allocs, j - 1), Answers(bits, allocs, j));
      assert forall i :: 0 <= i < j - 1 ==> b[i] == a[i];
      hide Lowest;
      assert Granted(b, allocs, x) <==> Granted(a, allocs, x) || (allocs[j - 1] && b[j - 1] == Some(x));
    }
  }

  lemma OfferedIff(bits: seq<bool>, allocs: seq<bool>, j: nat, x: nat)
    requires j < |allocs|
    ensures Answers(bits, allocs, |allocs|)[j] == Some(x) <==>
      x < |bits| && AllocUpTo(bits, allocs, j)[x] && forall y :: 0 <= y < x ==> !AllocUpTo(bits, allocs, j)[y]
  {
    AnswersPrefix(bits, allocs, j + 1, |allocs|);
    hide AllocUpTo;
  }

  /** Exactly which slots are free after a cycle, set aside: what was free before the
      allocations and not granted, and what is freed or released after them. */
  lemma CycleIff(c: Config, bits: seq<bool>, k: Calls, x: nat)
    requires Fits(c, |bits|, k) && x < |bits|
    ensures var released := k.release.Some? && k.release.value[x];
      Before(c, bits, k)[x] <==>
      (bits[x] || (c.freeAllocBypass && Some(x) in k.frees) || (c.releaseAllocBypass && released))
    ensures var released := k.release.Some? && k.release.value[x];
      var kept := Before(c, bits, k)[x] && !Granted(AllAnswers(c, bits, k), k.allocs, x);
      var after := (!c.freeAllocBypass && Some(x) in k.frees) || (!c.releaseAllocBypass && released);
      InOrder(c, bits, k)[x] <==> (if k.set_.Some? then k.set_.value[x] else kept || after)
  {
    var (b, n) := (Before(c, bits, k), |k.allocs|);
    FreedIff(bits, k.frees, x);
    GrantedIff(b, k.allocs, n, x);
    FreedIff(AllocUpTo(b, k.allocs, n), k.frees, x);
    hide FreeAll, AllocUpTo, Answers, Granted;
  }

  // ----- Masks ----------------------------------------------------------------------------

  function OneHot(n: nat, i: nat): (r: seq<bool>)
    ensures |r| == n
  {
    seq(n, x => x == i)
  }

  function Without(a: seq<bool>, b: seq<bool>): (r: seq<bool>)
    requires |a| == |b|
    ensures |r| == |a|
  {
    seq(|a|, i requires 0 <= i < |a| => a[i] && !b[i])
  }

  /** Or-ing in the mask of all frees is freeing one by one. */
  lemma {:induction false} FreeMask(bits: seq<bool>, frees: seq<Option<nat>>)
    requires forall i :: 0 <= i < |frees| && frees[i].Some? ==> frees[i].value < |bits|
    ensures FreeAll(bits, frees) == Union(bits, FreeAll(Empty(|bits|), frees))
  {
    if |frees| == 0 {
      assert Union(bits, Empty(|bits|)) == bits;
    } else {
      FreeMask(bits, frees[..|frees| - 1]);
    }
  }

  lemma UnionSwap(a: seq<bool>, b: seq<bool>, c: seq<bool>)
    requires |a| == |b| == |c|
    ensures Union(Union(a, b), c) == Union(Union(a, c), b)
  {
  }

  lemma AllocMask(bits: seq<bool>)
    requires Lowest(bits) < |bits|
    ensures Without(bits, OneHot(|bits|, Lowest(bits))) == bits[Lowest(bits) := false]
  {
  }

  // ----- The hardware -----------------------------------------------------------------------

  /** The priority decoder: a chain that keeps the first set bit; 0 when there is none. */
  method Decode(signal: seq<bool>) returns (valid: bool, decoded: nat)
    ensures valid <==> Lowest(signal) < |signal|
    ensures decoded == if valid then Lowest(signal) else 0
  {
    valid, decoded := false, 0;
    for i := 0 to |signal|
      invariant valid ==> decoded < i && signal[decoded] && forall x :: 0 <= x < decoded ==> !signal[x]
      invariant !valid ==> decoded == 0 && forall x :: 0 <= x < i ==> !signal[x]
    {
      if !valid && signal[i] { valid, decoded := true, i; }
    }
  }

  class FreeList {
    const c: Config
    var freeVector: seq<bool>

    constructor (nslots: nat, c: Config, used: nat)
      ensures this.c == c && freeVector == seq(nslots, i => i >= used)
    {
      this.c := c;
      freeVector := seq(nslots, i => i >= used);
    }

    method FreeMasks(frees: seq<Option<nat>>) returns (mask: seq<bool>)
      requires forall i :: 0 <= i < |frees| && frees[i].Some? ==> frees[i].value < |freeVector|
      ensures |mask| == |freeVector| && mask == FreeAll(Empty(|freeVector|), frees)
    {
      var n := |freeVector|;
      mask := Empty(n);
      for i := 0 to |frees|
        invariant |mask| == n && mask == FreeAll(Empty(n), frees[..i])
      {
        ghost var was := mask;
        assert frees[..i + 1][..i] == frees[..i];
        if frees[i].Some? {
          mask := Union(mask, OneHot(n, frees[i].value));
          assert mask == was[frees[i].value := true];
        }
      }
      assert frees[..|frees|] == frees;
    }

    /** The chain of allocation ports. */
    method AllocPorts(base: seq<bool>, allocs: seq<bool>) returns (inc: seq<bool>, answers: seq<Option<nat>>)
      requires Called(Answers(base, allocs, |allocs|), allocs)
      ensures inc == AllocUpTo(base, allocs, |allocs|) && answers == Answers(base, allocs, |allocs|)
    {
      inc, answers := base, [];
      for j := 0 to |allocs|
        invariant inc == AllocUpTo(base, allocs, j) && answers == Answers(base, allocs, j)
      {
        AnswersPrefix(base, allocs, j + 1, |allocs|);
        hide Lowest;
        var valid, decoded := Decode(inc);
        answers := answers + [if valid then Some(decoded) else None];
        if allocs[j] {
          AllocMask(inc);
          inc := Without(inc, OneHot(|inc|, decoded));
        }
      }
    }

    /** One clock tick gives the state and the answers of the calls made in interface order. */
    method Tick(k: Calls) returns (answers: seq<Option<nat>>)
      requires Fits(c, |freeVector|, k) && Called(AllAnswers(c, freeVector, k), k.allocs)
      modifies this
      ensures freeVector == InOrder(c, old(freeVector), k) && answers == AllAnswers(c, old(freeVector), k)
    {
      ghost var was := freeVector;
      var masks := FreeMasks(k.frees);
      var base := freeVector;
      if c.releaseAllocBypass && k.release.Some? { base := Union(base, k.release.value); }
      if c.freeAllocBypass { base := Union(base, masks); }
      BaseExact(c, was, k, masks);
      var inc;
      inc, answers := AllocPorts(base, k.allocs);
      var next := inc;
      if !c.releaseAllocBypass && k.release.Some? { next := Union(next, k.release.value); }
      if !c.freeAllocBypass { next := Union(next, masks); }
      AfterExact(c, inc, k, masks);
      freeVector := if k.set_.Some? then k.set_.value else next;
    }
  }

  lemma {:induction false} AnswersPrefix(bits: seq<bool>, allocs: seq<bool>, i: nat, j: nat)
    requires 0 < i <= j <= |allocs|
    ensures Answers(bits, allocs, j)[i - 1] == Answers(bits, allocs, i)[i - 1]
  {
    if i < j { AnswersPrefix(bits, allocs, i, j - 1); }
  }

  lemma BaseExact(c: Config, bits: seq<bool>, k: Calls, masks: seq<bool>)
    requires Fits(c, |bits|, k) && |masks| == |bits| && masks == FreeAll(Empty(|bits|), k.frees)
    ensures var b := if c.releaseAllocBypass && k.release.Some? then Union(bits, k.release.value) else bits;
      Before(c, bits, k) == if c.freeAllocBypass then Union(b, masks) else b
  {
    FreeMask(bits, k.frees);
    if k.release.Some? { UnionSwap(bits, k.release.value, masks); }
    hide FreeAll;
  }

  lemma AfterExact(c: Config, inc: seq<bool>, k: Calls, masks: seq<bool>)
    requires Fits(c, |inc|, k) && |masks| == |inc| && masks == FreeAll(Empty(|inc|), k.frees)
    ensures var b := if !c.releaseAllocBypass && k.release.Some? then Union(inc, k.release.value) else inc;
      var a := if c.freeAllocBypass then inc else FreeAll(inc, k.frees);
      (if c.releaseAllocBypass then a else Released(a, k.release)) == if c.freeAllocBypass then b else Union(b, masks)
  {
    FreeMask(inc, k.frees);
    if k.release.Some? { UnionSwap(inc, k.release.value, masks); }
    hide FreeAll;
  }

  // ----- The method-by-method model makes the same calls ------------------------------------

  method FreePorts(fl: FreeListFL, frees: seq<Option<nat>>)
    requires forall i :: 0 <= i < |frees| && frees[i].Some? ==> frees[i].value < |fl.bits|
    modifies fl
    ensures fl.bits == FreeAll(old(fl.bits), frees)
  {
    for i := 0 to |frees|
      invariant |fl.bits| == old(|fl.bits|) && fl.bits == FreeAll(old(fl.bits), frees[..i])
    {
      assert frees[..i + 1][..i] == frees[..i];
      if frees[i].Some? { fl.Free(frees[i].value); }
    }
    assert frees[..|frees|] == frees;
  }

  method ReleasePort(fl: FreeListFL, mask: Option<seq<bool>>)
    requires mask.Some? ==> |mask.value| == |fl.bits|
    modifies fl
    ensures fl.bits == Released(old(fl.bits), mask)
  {
    if mask.Some? { fl.Release(mask.value); }
  }

  method AllocPortsFL(fl: FreeListFL, allocs: seq<bool>) returns (answers: seq<Option<nat>>)
    modifies fl
    ensures fl.bits == AllocUpTo(old(fl.bits), allocs, |allocs|) && answers == Answers(old(fl.bits), allocs, |allocs|)
  {
    answers := [];
    for j := 0 to |allocs|
      invariant fl.bits == AllocUpTo(old(fl.bits), allocs, j) && answers == Answers(old(fl.bits), allocs, j)
    {
      answers := answers + [if Lowest(fl.bits) < |fl.bits| then Some(Lowest(fl.bits)) else None];
      if allocs[j] { var at, ok := fl.Alloc(); }
    }
  }

  method CycleFL(c: Config, fl: FreeListFL, k: Calls) returns (answers: seq<Option<nat>>)
    requires Fits(c, |fl.bits|, k)
    modifies fl
    ensures fl.bits == InOrder(c, old(fl.bits), k) && answers == AllAnswers(c, old(fl.bits), k)
  {
    if c.freeAllocBypass { FreePorts(fl, k.frees); }
    if c.releaseAllocBypass { ReleasePort(fl, k.release); }
    answers := AllocPortsFL(fl, k.allocs);
    if !c.freeAllocBypass { FreePorts(fl, k.frees); }
    if !c.releaseAllocBypass { ReleasePort(fl, k.release); }
    if k.set_.Some? { fl.Set(k.set_.value); }
  }

  // ----- Snapshots --------------------------------------------------------------------------

  /** Calls on a snapshotting free list: no bypass, release comes from a snapshot. */
  datatype SnapCalls = SnapCalls(frees: seq<Option<nat>>, allocs: seq<bool>, reset: Option<nat>, revert: Option<nat>,
      set_: Option<seq<bool>>)

  predicate SnapFits(c: Config, t: Tracked, k: SnapCalls) {
    && !c.freeAllocBypass && !c.releaseAllocBypass
    && Fits(c, |t.free|, Calls(k.frees, k.allocs, None, k.set_))
    && (k.reset.Some? ==> k.reset.value < |t.tracks|) && (k.revert.Some? ==> k.revert.value < |t.tracks|)
    && Called(Answers(t.free, k.allocs, |k.allocs|), k.allocs)
  }

  /** Allocations, each recorded in every snapshot. */
  function TrackedAllocs(t: Tracked, allocs: seq<bool>, j: nat): (r: Tracked)
    requires t.Shaped(|t.free|, |t.tracks|) && j <= |allocs|
    ensures r.Shaped(|t.free|, |t.tracks|)
  {
    if j == 0 then t
    else
      var p := TrackedAllocs(t, allocs, j - 1);
      if allocs[j - 1] && p.Ready() then p.Alloc() else p
  }

  /** What the first j allocations answer when made one by one. */
  function TrackedAnswers(t: Tracked, allocs: seq<bool>, j: nat): (r: seq<Option<nat>>)
    requires t.Shaped(|t.free|, |t.tracks|) && j <= |allocs|
    ensures |r| == j
  {
    if j == 0 then []
    else
      var p := TrackedAllocs(t, allocs, j - 1);
      TrackedAnswers(t, allocs, j - 1) + [if p.Ready() then Some(p.Index()) else None]
  }

  /** alloc, reset_alloc_tracking, revert_allocs, free, set, as separate calls. */
  function SnapInOrder(c: Config, t: Tracked, k: SnapCalls): Tracked
    requires t.Shaped(|t.free|, |t.tracks|) && SnapFits(c, t, k)
  {
    var a := TrackedAllocs(t, k.allocs, |k.allocs|);
    var b := if k.reset.Some? then a.ResetTracking(k.reset.value) else a;
    var d := if k.revert.Some? then b.Revert(k.revert.value) else b;
    var e := d.(free := FreeAll(d.free, k.frees));
    if k.set_.Some? then e.Set(k.set_.value) else e
  }

  /** Snapshot i after the writes of the allocation ports, as its register file dumps it. */
  function Written(t: Tracked, allocs: seq<bool>, i: nat, j: nat): (r: seq<bool>)
    requires t.Shaped(|t.free|, |t.tracks|) && i < |t.tracks| && j <= |allocs|
    ensures |r| == |t.free|
  {
    if j == 0 then t.tracks[i]
    else
      var b := AllocUpTo(t.free, allocs, j - 1);
      var w := Written(t, allocs, i, j - 1);
      if allocs[j - 1] && Lowest(b) < |b| then w[Lowest(b) := true] else w
  }

  /** One cycle of the hardware: the release is dropped when the snapshot it reads is being
      reset. */
  function SnapTick(c: Config, t: Tracked, k: SnapCalls): Tracked
    requires t.Shaped(|t.free|, |t.tracks|) && SnapFits(c, t, k)
  {
    var m := |k.allocs|;
    var mask := if k.revert.Some? && k.reset != k.revert then Some(Written(t, k.allocs, k.revert.value, m)) else None;
    Tracked(
      InOrder(c, t.free, Calls(k.frees, k.allocs, mask, k.set_)),
      seq(|t.tracks|, i requires 0 <= i < |t.tracks| =>
        if k.reset == Some(i) then Empty(|t.free|) else Written(t, k.allocs, i, m)))
  }

  /** What its allocation ports answer. */
  function SnapAnswers(c: Config, t: Tracked, k: SnapCalls): seq<Option<nat>>
    requires SnapFits(c, t, k)
  {
    AllAnswers(c, t.free, Calls(k.frees, k.allocs, None, k.set_))
  }

  lemma {:induction false} TrackedAllocsAre(t: Tracked, allocs: seq<bool>, j: nat)
    requires t.Shaped(|t.free|, |t.tracks|) && j <= |allocs|
    ensures var r := TrackedAllocs(t, allocs, j);
      && r.free == AllocUpTo(t.free, allocs, j)
      && TrackedAnswers(t, allocs, j) == Answers(t.free, allocs, j)
      && forall i :: 0 <= i < |t.tracks| ==> r.tracks[i] == Written(t, allocs, i, j)
  {
    if j > 0 { TrackedAllocsAre(t, allocs, j - 1); }
  }

  lemma UnionFrees(bits: seq<bool>, mask: seq<bool>, frees: seq<Option<nat>>)
    requires |bits| == |mask| && forall i :: 0 <= i < |frees| && frees[i].Some? ==> frees[i].value < |bits|
    ensures Union(FreeAll(bits, frees), mask) == FreeAll(Union(bits, mask), frees)
  {
    FreeMask(bits, frees);
    FreeMask(Union(bits, mask), frees);
    UnionSwap(bits, FreeAll(Empty(|bits|), frees), mask);
    hide FreeAll;
  }

  lemma UnionEmpty(bits: seq<bool>)
    ensures Union(bits, Empty(|bits|)) == bits
  {
  }

  /** One clock tick of the snapshotting free list, state and answers, is its calls in
      interface order, any ports, resetting and reverting the same snapshot included. */
  lemma SnapTickIsInOrder(c: Config, t: Tracked, k: SnapCalls)
    requires t.Shaped(|t.free|, |t.tracks|) && SnapFits(c, t, k)
    ensures SnapTick(c, t, k) == SnapInOrder(c, t, k)
    ensures SnapAnswers(c, t, k) == TrackedAnswers(t, k.allocs, |k.allocs|)
  {
    var m := |k.allocs|;
    TrackedAllocsAre(t, k.allocs, m);
    hide TrackedAllocs, TrackedAnswers, Answers, AllocUpTo, Written, FreeAll;
    var a := TrackedAllocs(t, k.allocs, m);
    assert SnapTick(c, t, k).tracks == SnapInOrder(c, t, k).tracks;
    if k.revert.Some? {
      if k.reset == k.revert { UnionEmpty(a.free); }
      else { UnionFrees(a.free, a.tracks[k.revert.value], k.frees); }
    }
  }

  /** The registers after a tick, given what the snapshots dump. */
  lemma RegistersAre(c: Config, t: Tracked, k: SnapCalls, dumps: seq<seq<bool>>)
    requires t.Shaped(|t.free|, |t.tracks|) && SnapFits(c, t, k)
    requires |dumps| == |t.tracks| && forall i :: 0 <= i < |dumps| ==> dumps[i] == Written(t, k.allocs, i, |k.allocs|)
    ensures var mask := if k.revert.Some? && k.reset != k.revert then Some(dumps[k.revert.value]) else None;
      && Fits(c, |t.free|, Calls(k.frees, k.allocs, mask, k.set_))
      && SnapTick(c, t, k) == Tracked(
           InOrder(c, t.free, Calls(k.frees, k.allocs, mask, k.set_)),
           if k.reset.Some? then dumps[k.reset.value := Empty(|t.free|)] else dumps)
  {
    hide InOrder, Written, Answers;
    var tracks := if k.reset.Some? then dumps[k.reset.value := Empty(|t.free|)] else dumps;
    assert SnapTick(c, t, k).tracks == tracks;
  }

  /** The hardware: a free list whose release mask is read from the register files that
      hold the snapshots. */
  class SnapshottingFreeList {
    const freeList: FreeList
    var snapshots: seq<seq<bool>>

    ghost function Value(): Tracked
      reads this, freeList
    {
      Tracked(freeList.freeVector, snapshots)
    }

    ghost predicate Valid()
      reads this, freeList
    {
      Value().Shaped(|freeList.freeVector|, |snapshots|)
    }

    constructor (nslots: nat, nsnapshots: nat, nalloc: nat, nfree: nat, used: nat)
      ensures fresh(freeList) && freeList.c == Config(nalloc, nfree, false, false)
      ensures Valid() && Value() == Initial(nslots, used, nsnapshots)
    {
      freeList := new FreeList(nslots, Config(nalloc, nfree, false, false), used);
      snapshots := seq(nsnapshots, _ => Empty(nslots));
    }

    /** What every snapshot dumps: its contents with this cycle's allocations written. */
    method Dumps(allocs: seq<bool>, answers: seq<Option<nat>>) returns (dumps: seq<seq<bool>>)
      requires Valid() && answers == Answers(freeList.freeVector, allocs, |allocs|) && Called(answers, allocs)
      ensures |dumps| == |snapshots| && forall i :: 0 <= i < |dumps| ==>
        dumps[i] == Written(Value(), allocs, i, |allocs|)
    {
      dumps := snapshots;
      for j := 0 to |allocs|
        invariant |dumps| == |snapshots| && forall i :: 0 <= i < |dumps| ==> dumps[i] == Written(Value(), allocs, i, j)
      {
        AnswersPrefix(freeList.freeVector, allocs, j + 1, |allocs|);
        hide Lowest, AllocUpTo;
        if allocs[j] { dumps := MarkAll(dumps, answers[j].value); }
      }
    }

    method Tick(k: SnapCalls) returns (answers: seq<Option<nat>>)
      requires Valid() && SnapFits(freeList.c, Value(), k)
      modifies this, freeList
      ensures Valid() && Value() == SnapInOrder(freeList.c, old(Value()), k)
      ensures answers == TrackedAnswers(old(Value()), k.allocs, |k.allocs|)
    {
      SnapTickIsInOrder(freeList.c, Value(), k);
      hide Answers, AllocUpTo, SnapInOrder, TrackedAnswers, InOrder;
      ghost var was := Value();
      var inc;
      inc, answers := freeList.AllocPorts(freeList.freeVector, k.allocs);
      var dumps := Dumps(k.allocs, answers);
      hide Written;
      var mask := if k.revert.Some? && k.reset != k.revert then Some(dumps[k.revert.value]) else None;
      answers := freeList.Tick(Calls(k.frees, k.allocs, mask, k.set_));
      snapshots := if k.reset.Some? then dumps[k.reset.value := Empty(|inc|)] else dumps;
      RegistersAre(freeList.c, was, k, dumps);
      hide *;
    }
  }

  /** The method-by-method model, called in interface order, does the same. */
  method CycleSnapFL(c: Config, fl: SnapshottingFreeListFL, k: SnapCalls) returns (answers: seq<Option<nat>>)
    requires fl.Valid() && SnapFits(c, fl.Value(), k)
    modifies fl, fl.freelist
    ensures fl.Valid() && fl.Value() == SnapInOrder(c, old(fl.Value()), k)
    ensures answers == TrackedAnswers(old(fl.Value()), k.allocs, |k.allocs|)
  {
    answers := SnapAllocPorts(c, fl, k);
    if k.reset.Some? { fl.ResetAllocTracking(k.reset.value); }
    if k.revert.Some? { fl.RevertAllocs(k.revert.value); }
    FreePorts(fl.freelist, k.frees);
    if k.set_.Some? { fl.Set(k.set_.value); }
  }

  method SnapAllocPorts(c: Config, fl: SnapshottingFreeListFL, k: SnapCalls) returns (answers: seq<Option<nat>>)
    requires fl.Valid() && SnapFits(c, fl.Value(), k)
    modifies fl, fl.freelist
    ensures fl.Valid() && fl.Value() == TrackedAllocs(old(fl.Value()), k.allocs, |k.allocs|)
    ensures answers == TrackedAnswers(old(fl.Value()), k.allocs, |k.allocs|)
  {
    ghost var was := fl.Value();
    answers := [];
    for j := 0 to |k.allocs|
      invariant fl.Valid() && fl.Value() == TrackedAllocs(was, k.allocs, j)
      invariant answers == TrackedAnswers(was, k.allocs, j)
    {
      PortReady(c, was, k, j);
      hide Lowest, Tracked.Alloc, Tracked.Ready, Tracked.Index, SnapFits;
      var rdy := fl.AllocReady();
      answers := answers + [if rdy then Some(Lowest(fl.freelist.bits)) else None];
      if k.allocs[j] { var at := fl.Alloc(); }
    }
  }

  /** A port that is called finds a free slot. */
  lemma PortReady(c: Config, t: Tracked, k: SnapCalls, j: nat)
    requires t.Shaped(|t.free|, |t.tracks|) && SnapFits(c, t, k) && j < |k.allocs|
    ensures k.allocs[j] ==> TrackedAllocs(t, k.allocs, j).Ready()
  {
    TrackedAllocsAre(t, k.allocs, j);
    AnswersPrefix(t.free, k.allocs, j + 1, |k.allocs|);
    hide Lowest, TrackedAllocs, TrackedAnswers, Written;
  }
}
