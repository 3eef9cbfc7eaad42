/** Free lists that can be rolled back to a snapshot.

    `FreeListFL` and `SnapshottingFreeListFL` are the method-by-method models; their
    abstract value is a `Tracked`: which slots are free, and for every snapshot id the
    slots allocated since that snapshot was last reset.  A tracking set is never
    un-recorded, so on its own it says little; `Owns` and `Tracks` relate it to the
    program-ordered list of holders, which is what makes a revert exact. */
module FreeLists {

  datatype Tracked = Tracked(free: seq<bool>, tracks: seq<seq<bool>>) {
    ghost predicate Shaped(n: nat, k: nat) {
      |free| == n && |tracks| == k && forall i :: 0 <= i < k ==> |tracks[i]| == n
    }

    predicate Ready() { Lowest(free) < |free| }

    function Index(): nat { Lowest(free) }

    function Alloc(): Tracked
      requires Shaped(|free|, |tracks|) && Ready()
    {
      Tracked(free[Index() := false], MarkAll(tracks, Index()))
    }

    function Free(i: nat): Tracked
      requires i < |free|
    {
      this.(free := free[i := true])
    }

    function ResetTracking(id: nat): Tracked
      requires id < |tracks|
    {
      this.(tracks := tracks[id := Empty(|free|)])
    }

    function Revert(id: nat): Tracked
      requires Shaped(|free|, |tracks|) && id < |tracks|
    {
      this.(free := Union(free, tracks[id]))
    }

    function Set(state: seq<bool>): Tracked { this.(free := state) }
  }

  /** The lowest set position, or the length when nothing is set. */
  function Lowest(v: seq<bool>): (r: nat)
    ensures r <= |v|
    ensures r < |v| ==> v[r]
    ensures forall i :: 0 <= i < r ==> !v[i]
  {
    if |v| == 0 then 0 else if v[0] then 0 else
      var t := Lowest(v[1..]);
      assert forall i :: 1 <= i < t + 1 ==> v[i] == v[1..][i - 1];
      t + 1
  }

  function Empty(n: nat): seq<bool> { seq(n, _ => false) }

  function Full(n: nat): seq<bool> { seq(n, _ => true) }

  function Complement(v: seq<bool>): seq<bool> { seq(|v|, i requires 0 <= i < |v| => !v[i]) }

  function Union(a: seq<bool>, b: seq<bool>): seq<bool>
    requires |a| == |b|
  {
    seq(|a|, i requires 0 <= i < |a| => a[i] || b[i])
  }

  function MarkAll(tracks: seq<seq<bool>>, i: nat): seq<seq<bool>>
    requires forall k :: 0 <= k < |tracks| ==> i < |tracks[k]|
  {
    seq(|tracks|, k requires 0 <= k < |tracks| => tracks[k][i := true])
  }

  /** Slots `used..n` are free, as after reset. */
  function Initial(n: nat, used: nat, k: nat): (t: Tracked)
    ensures t.Shaped(n, k)
  {
    Tracked(seq(n, i => i >= used), seq(k, _ => Empty(n)))
  }

  // ---------------------------------------------------------------------------------
  // Who holds what.  hold[j] is the slot held by the j-th oldest in-flight instruction
  // and live[p] the snapshot id it still has outstanding; -1 stands for none.  `base`
  // holds the slots owned outside the in-flight list.

  ghost predicate Owns(t: Tracked, hold: seq<int>, base: set<nat>) {
    && (forall j :: 0 <= j < |hold| ==> -1 <= hold[j] < |t.free|)
    && (forall j :: 0 <= j < |hold| && hold[j] >= 0 ==> !t.free[hold[j]] && hold[j] !in base)
    && (forall i, j :: 0 <= i < j < |hold| && hold[i] >= 0 ==> hold[i] != hold[j])
    && (forall b :: b in base ==> b < |t.free| && !t.free[b])
    && (forall r :: 0 <= r < |t.free| && !t.free[r] ==> r in base || r in hold)
  }

  ghost predicate Tracks(t: Tracked, hold: seq<int>, base: set<nat>, live: seq<int>) {
    && t.Shaped(|t.free|, |t.tracks|)
    && |hold| == |live|
    && (forall p :: 0 <= p < |live| ==> -1 <= live[p] < |t.tracks|)
    && (forall p, j :: 0 <= p < j < |hold| && live[p] >= 0 && 0 <= hold[j] < |t.free| ==> t.tracks[live[p]][hold[j]])
    && (forall p, j :: 0 <= j <= p < |hold| && live[p] >= 0 && 0 <= hold[j] < |t.free| ==> !t.tracks[live[p]][hold[j]])
    && (forall p, b :: 0 <= p < |hold| && live[p] >= 0 && b in base && b < |t.free| ==> !t.tracks[live[p]][b])
  }

  ghost predicate Exact(t: Tracked, hold: seq<int>, base: set<nat>, live: seq<int>) {
    Owns(t, hold, base) && Tracks(t, hold, base, live)
  }

  ghost predicate Fresh(live: seq<int>, id: nat) {
    forall p :: 0 <= p < |live| ==> live[p] != id
  }

  lemma AllocKeeps(t: Tracked, hold: seq<int>, base: set<nat>, live: seq<int>)
    requires Exact(t, hold, base, live) && t.Ready()
    ensures Exact(t.Alloc(), hold + [t.Index()], base, live + [-1])
  {
    AllocOwns(t, hold, base);
    AllocTracks(t, hold, base, live);
    hide *;
  }

  lemma AllocOwns(t: Tracked, hold: seq<int>, base: set<nat>)
    requires Owns(t, hold, base) && t.Shaped(|t.free|, |t.tracks|) && t.Ready()
    ensures Owns(t.Alloc(), hold + [t.Index()], base)
  {
    var (h, free, i) := (hold + [t.Index()], t.free, t.Index());
    assert h[|hold|] == i;
    assert t.Alloc().free == free[i := false];
    forall r | 0 <= r < |free| && !free[i := false][r] ensures r in base || r in h {
      if r != i && r !in base {
        var j :| 0 <= j < |hold| && hold[j] == r;
        assert h[j] == r;
      }
    }
  }

  lemma AllocTracks(t: Tracked, hold: seq<int>, base: set<nat>, live: seq<int>)
    requires Exact(t, hold, base, live) && t.Ready()
    ensures Tracks(t.Alloc(), hold + [t.Index()], base, live + [-1])
  {
  }

  lemma SkipKeeps(t: Tracked, hold: seq<int>, base: set<nat>, live: seq<int>)
    requires Exact(t, hold, base, live)
    ensures Exact(t, hold + [-1], base, live + [-1])
  {
    SkipOwns(t, hold, base);
    SkipTracks(t, hold, base, live);
    hide *;
  }

  lemma SkipOwns(t: Tracked, hold: seq<int>, base: set<nat>)
    requires Owns(t, hold, base)
    ensures Owns(t, hold + [-1], base)
  {
    var h := hold + [-1];
    forall r | 0 <= r < |t.free| && !t.free[r] ensures r in base || r in h {
      if r !in base {
        var j :| 0 <= j < |hold| && hold[j] == r;
        assert h[j] == r;
      }
    }
  }

  lemma SkipTracks(t: Tracked, hold: seq<int>, base: set<nat>, live: seq<int>)
    requires Tracks(t, hold, base, live)
    ensures Tracks(t, hold + [-1], base, live + [-1])
  {
  }

  /** Opening a snapshot for the youngest instruction, whose id nobody else has open. */
  lemma ResetKeeps(t: Tracked, hold: seq<int>, base: set<nat>, live: seq<int>, id: nat)
    requires Exact(t, hold, base, live) && id < |t.tracks| && Fresh(live, id) && |live| > 0
    ensures Exact(t.ResetTracking(id), hold, base, live[|live| - 1 := id])
  {
  }

  /** Closing the snapshot of instruction p. */
  lemma CloseKeeps(t: Tracked, hold: seq<int>, base: set<nat>, live: seq<int>, p: nat)
    requires Exact(t, hold, base, live) && p < |live|
    ensures Exact(t, hold, base, live[p := -1])
  {
  }

  /** Instruction p gives its slot back. */
  lemma ReleaseKeeps(t: Tracked, hold: seq<int>, base: set<nat>, live: seq<int>, p: nat)
    requires Exact(t, hold, base, live) && p < |hold| && hold[p] >= 0
    ensures Exact(t.Free(hold[p]), hold[p := -1], base, live)
  {
    var h := hold[p := -1];
    forall r | 0 <= r < |t.free| && !t.Free(hold[p]).free[r] ensures r in base || r in h {
      if r !in base {
        var j :| 0 <= j < |hold| && hold[j] == r;
        assert h[j] == r;
      }
    }
  }

  /** The oldest instruction leaves while holding nothing. */
  lemma RetireKeeps(t: Tracked, hold: seq<int>, base: set<nat>, live: seq<int>)
    requires Exact(t, hold, base, live) && |hold| > 0 && hold[0] == -1
    ensures Exact(t, hold[1..], base, live[1..])
  {
    forall r | 0 <= r < |t.free| && !t.free[r] ensures r in base || r in hold[1..] {
      if r !in base {
        var j :| 0 <= j < |hold| && hold[j] == r;
        assert hold[1..][j - 1] == r;
      }
    }
  }

  lemma PromoteTracks(t: Tracked, hold: seq<int>, base: set<nat>, live: seq<int>, out: nat)
    requires Exact(t, hold, base, live) && |hold| > 0 && hold[0] >= 0 && out in base
    ensures Tracks(t.Free(out), hold[1..], base - {out} + {hold[0]}, live[1..])
  {
  }

  /** The oldest instruction leaves and its slot replaces `old` in the base. */
  lemma PromoteKeeps(t: Tracked, hold: seq<int>, base: set<nat>, live: seq<int>, out: nat)
    requires Exact(t, hold, base, live) && |hold| > 0 && hold[0] >= 0 && out in base
    ensures Exact(t.Free(out), hold[1..], base - {out} + {hold[0]}, live[1..])
  {
    PromoteTracks(t, hold, base, live, out);
    hide Tracks;
    var b := base - {out} + {hold[0] as nat};
    forall r | 0 <= r < |t.free| && !t.Free(out).free[r] ensures r in b || r in hold[1..] {
      if r !in b {
        var j :| 0 <= j < |hold| && hold[j] == r;
        assert hold[1..][j - 1] == r;
      }
    }
  }

  /** Reverting to the snapshot of instruction p frees what every younger instruction
      holds, and nothing else. */
  lemma RevertExact(t: Tracked, hold: seq<int>, base: set<nat>, live: seq<int>, p: nat)
    requires Exact(t, hold, base, live) && p < |live| && live[p] >= 0
    ensures forall r :: 0 <= r < |t.free| ==> (t.Revert(live[p]).free[r] <==> t.free[r] || r in hold[p + 1..])
    ensures Exact(t.Revert(live[p]), hold[..p + 1], base, live[..p + 1])
  {
    var t' := t.Revert(live[p]);
    forall r | 0 <= r < |t.free| ensures t'.free[r] <==> t.free[r] || r in hold[p + 1..] {
      if !t.free[r] && r !in base {
        var j :| 0 <= j < |hold| && hold[j] == r;
        if j > p { assert hold[p + 1..][j - p - 1] == r; }
      }
    }
    forall r | 0 <= r < |t.free| && !t'.free[r] ensures r in base || r in hold[..p + 1] {
      if r !in base {
        var j :| 0 <= j < |hold| && hold[j] == r;
        if j <= p { assert hold[..p + 1][j] == r; }
      }
    }
  }

  /** Renaming one instruction: it may take a slot, and may open snapshot id. */
  function TakeAndOpen(t: Tracked, take: bool, open_: bool, id: nat): Tracked
    requires t.Shaped(|t.free|, |t.tracks|) && (take ==> t.Ready()) && (open_ ==> id < |t.tracks|)
  {
    var t1 := if take then t.Alloc() else t;
    if open_ then t1.ResetTracking(id) else t1
  }

  lemma IndexFresh(t: Tracked, live: seq<int>)
    requires Exact(t, live, {}, live) && t.Ready()
    ensures Fresh(live, t.Index())
  {
  }

  lemma TakeAndOpenKeeps(t: Tracked, hold: seq<int>, base: set<nat>, live: seq<int>, take: bool, open_: bool, id: nat)
    requires Exact(t, hold, base, live) && (take ==> t.Ready())
    requires open_ ==> id < |t.tracks| && Fresh(live, id)
    ensures Exact(TakeAndOpen(t, take, open_, id), hold + [if take then t.Index() else -1], base,
      live + [if open_ then id else -1])
  {
    if take { AllocKeeps(t, hold, base, live); } else { SkipKeeps(t, hold, base, live); }
    var (t1, h) := (if take then t.Alloc() else t, hold + [if take then t.Index() else -1]);
    var l := live + [-1];
    assert |t1.tracks| == |t.tracks|;
    if open_ {
      assert Fresh(l, id) && |l| - 1 == |live|;
      hide *;
      ResetKeeps(t1, h, base, l, id);
      assert l[|live| := id] == live + [id];
    }
    hide *;
  }

  /** Restoring to instruction p and closing its snapshot. */
  lemma RestoredKeeps(t: Tracked, hold: seq<int>, base: set<nat>, live: seq<int>, p: nat)
    requires Exact(t, hold, base, live) && p < |live| && live[p] >= 0
    ensures Exact(t.Revert(live[p]), hold[..p + 1], base, live[..p + 1][p := -1])
  {
    RevertExact(t, hold, base, live, p);
    CloseKeeps(t.Revert(live[p]), hold[..p + 1], base, live[..p + 1], p);
  }

  /** The same for the snapshot allocator itself, where the holders are the snapshots:
      p gives its own id back first. */
  lemma RestoredSnapsKeep(t: Tracked, live: seq<int>, p: nat)
    requires Exact(t, live, {}, live) && p < |live| && live[p] >= 0
    ensures Exact(t.Free(live[p]).Revert(live[p]), live[..p + 1][p := -1], {}, live[..p + 1][p := -1])
  {
    ReleaseKeeps(t, live, {}, live, p);
    RestoredKeeps(t.Free(live[p]), live[p := -1], {}, live, p);
    assert live[p := -1][..p + 1] == live[..p + 1][p := -1];
  }

  /** Resolving p correctly gives its snapshot id back. */
  lemma ResolvedSnapsKeep(t: Tracked, live: seq<int>, p: nat)
    requires Exact(t, live, {}, live) && p < |live| && live[p] >= 0
    ensures Exact(t.Free(live[p]), live[p := -1], {}, live[p := -1])
  {
    ReleaseKeeps(t, live, {}, live, p);
    CloseKeeps(t.Free(live[p]), live[p := -1], {}, live, p);
  }

  /** The oldest instruction gives its slot back, if any, and leaves. */
  lemma ReleasedKeeps(t: Tracked, hold: seq<int>, base: set<nat>, live: seq<int>)
    requires Exact(t, hold, base, live) && |hold| > 0
    ensures Exact(if hold[0] >= 0 then t.Free(hold[0]) else t, hold[1..], base, live[1..])
  {
    if hold[0] >= 0 {
      ReleaseKeeps(t, hold, base, live, 0);
      RetireKeeps(t.Free(hold[0]), hold[0 := -1], base, live);
      assert hold[0 := -1][1..] == hold[1..];
    } else {
      RetireKeeps(t, hold, base, live);
    }
  }

  // ---------------------------------------------------------------------------------

  class FreeListFL {
    var bits: seq<bool>

    constructor (nslots: nat, used: nat)
      ensures bits == seq(nslots, i => i >= used)
    {
      bits := seq(nslots, i => i >= used);
    }

    method Free(index: nat)
      requires index < |bits|
      modifies this
      ensures bits == old(bits)[index := true]
    {
      bits := bits[index := true];
    }

    /** Takes the lowest free slot; without one, nothing changes. */
    method Alloc() returns (index: nat, ok: bool)
      modifies this
      ensures index == Lowest(old(bits)) && (ok <==> index < |old(bits)|)
      ensures bits == if ok then old(bits)[index := false] else old(bits)
    {
      index := 0;
      while index < |bits|
        invariant 0 <= index <= |bits| && bits == old(bits)
        invariant forall i :: 0 <= i < index ==> !bits[i]
      {
        if bits[index] {
          bits := bits[index := false];
          return index, true;
        }
        index := index + 1;
      }
      ok := false;
    }

    method Release(mask: seq<bool>)
      requires |mask| == |bits|
      modifies this
      ensures bits == Union(old(bits), mask)
    {
      bits := Union(bits, mask);
    }

    method Set(state: seq<bool>)
      modifies this
      ensures bits == state
    {
      bits := state;
    }
  }

  class SnapshottingFreeListFL {
    const freelist: FreeListFL
    var snapshots: seq<seq<bool>>

    ghost function Value(): Tracked
      reads this, freelist
    {
      Tracked(freelist.bits, snapshots)
    }

    ghost predicate Valid()
      reads this, freelist
    {
      Value().Shaped(|freelist.bits|, |snapshots|)
    }

    constructor (nslots: nat, nsnapshots: nat, used: nat)
      ensures fresh(freelist) && Valid() && Value() == Initial(nslots, used, nsnapshots)
    {
      freelist := new FreeListFL(nslots, used);
      snapshots := seq(nsnapshots, _ => Empty(nslots));
    }

    method AllocReady() returns (rdy: bool)
      ensures rdy == Value().Ready()
    {
      rdy := Lowest(freelist.bits) < |freelist.bits|;
    }

    /** Allocates a slot and records it in every snapshot. */
    method Alloc() returns (index: nat)
      requires Valid() && Value().Ready()
      modifies this, freelist
      ensures Valid() && index == old(Value().Index()) && Value() == old(Value()).Alloc()
    {
      var ok;
      index, ok := freelist.Alloc();
      var i := 0;
      ghost var was := snapshots;
      while i < |snapshots|
        invariant 0 <= i <= |snapshots| == |was|
        invariant forall k :: 0 <= k < i ==> snapshots[k] == was[k][index := true]
        invariant forall k :: i <= k < |was| ==> snapshots[k] == was[k]
        invariant freelist.bits == old(freelist.bits)[index := false]
      {
        snapshots := snapshots[i := snapshots[i][index := true]];
        i := i + 1;
      }
      assert snapshots == MarkAll(was, index);
    }

    method Free(index: nat)
      requires Valid() && index < |freelist.bits|
      modifies freelist
      ensures Valid() && Value() == old(Value()).Free(index)
    {
      freelist.Free(index);
    }

    method ResetAllocTracking(id: nat)
      requires Valid() && id < |snapshots|
      modifies this
      ensures Valid() && Value() == old(Value()).ResetTracking(id)
    {
      snapshots := snapshots[id := Empty(|freelist.bits|)];
    }

    method RevertAllocs(id: nat)
      requires Valid() && id < |snapshots|
      modifies freelist
      ensures Valid() && Value() == old(Value()).Revert(id)
    {
      freelist.Release(snapshots[id]);
    }

    method Set(state: seq<bool>)
      requires Valid() && |state| == |freelist.bits|
      modifies freelist
      ensures Valid() && Value() == old(Value()).Set(state)
    {
      freelist.Set(state);
    }
  }
}
