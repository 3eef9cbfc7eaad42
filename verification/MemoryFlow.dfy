/** Store tables and the overlap checker. */
module MemoryFlow {
  import opened Words

  // ----- Overlap ------------------------------------------------------------------------

  /** The exclusive end, on the width of an address. */
  function End(m: nat, base: nat, size: nat): nat
    requires m > 0
  {
    (base + size) % m
  }

  lemma EndExact(m: nat, base: nat, size: nat)
    requires m > 0 && base + size <= m
    ensures End(m, base, size) == if base + size == m then 0 else base + size
  {
    if base + size == m { ModIs(m, m, 1, 0); } else { ModIs(base + size, m, 0, base + size); }
  }

  /** The checker on bases and ends of an address space of `m` bytes, ends wrapping. */
  function Disjoint(m: nat, baseA: nat, sizeA: nat, baseB: nat, sizeB: nat): bool
    requires m > 0
  {
    var (endA, endB) := (End(m, baseA, sizeA), End(m, baseB, sizeB));
    !((baseA >= baseB && baseA < endB) || (baseB >= baseA && baseB < endA))
  }

  predicate In(x: nat, base: nat, size: nat) { base <= x < base + size }

  ghost predicate Share(baseA: nat, sizeA: nat, baseB: nat, sizeB: nat) {
    exists x :: In(x, baseA, sizeA) && In(x, baseB, sizeB)
  }

  /** One of the ranges ends at the top of memory and the checker misses the other in it. */
  ghost predicate Blind(m: nat, baseA: nat, sizeA: nat, baseB: nat, sizeB: nat) {
    || (baseA + sizeA == m && (baseB > baseA || baseB + sizeB == m))
    || (baseB + sizeB == m && (baseA > baseB || baseA + sizeA == m))
  }

  /** For ranges inside memory the checker is right exactly when neither is blind. */
  lemma OverlapExactIff(m: nat, baseA: nat, sizeA: nat, baseB: nat, sizeB: nat)
    requires sizeA > 0 && sizeB > 0 && baseA + sizeA <= m && baseB + sizeB <= m
    ensures (Disjoint(m, baseA, sizeA, baseB, sizeB) <==> !Share(baseA, sizeA, baseB, sizeB))
            <==> !Blind(m, baseA, sizeA, baseB, sizeB)
  {
    hide Share, End;
    ShareIff(baseA, sizeA, baseB, sizeB);
    EndExact(m, baseA, sizeA);
    EndExact(m, baseB, sizeB);
  }

  /** Blind, the checker calls two ranges disjoint that are not. */
  lemma BlindMisses(m: nat, baseA: nat, sizeA: nat, baseB: nat, sizeB: nat)
    requires sizeA > 0 && sizeB > 0 && baseA + sizeA <= m && baseB + sizeB <= m && Blind(m, baseA, sizeA, baseB, sizeB)
    ensures Disjoint(m, baseA, sizeA, baseB, sizeB) && Share(baseA, sizeA, baseB, sizeB)
  {
    hide Share, End;
    ShareIff(baseA, sizeA, baseB, sizeB);
    EndExact(m, baseA, sizeA);
    EndExact(m, baseB, sizeB);
  }

  lemma ShareIff(baseA: nat, sizeA: nat, baseB: nat, sizeB: nat)
    requires sizeA > 0 && sizeB > 0
    ensures Share(baseA, sizeA, baseB, sizeB) <==> baseA < baseB + sizeB && baseB < baseA + sizeA
  {
    var x := if baseA >= baseB then baseA else baseB;
    if baseA < baseB + sizeB && baseB < baseA + sizeA {
      assert In(x, baseA, sizeA) && In(x, baseB, sizeB);
    }
  }

  /** A byte at the very top is called disjoint from itself. */
  lemma TopByteIsMissed()
    ensures Disjoint(256, 255, 1, 255, 1) && Share(255, 1, 255, 1)
  {
    assert In(255, 255, 1);
  }

  // ----- Tables -------------------------------------------------------------------------

  datatype Tables = Tables(addrs: seq<(nat, nat)>, addrValid: seq<bool>, datas: seq<seq<int>>, dataValid: seq<bool>) {
    ghost predicate Shaped(n: nat) { |addrs| == |addrValid| == |datas| == |dataValid| == n }

    function RegisterStore(id: nat): Tables
      requires id < |addrValid| == |dataValid|
    {
      this.(addrValid := addrValid[id := false], dataValid := dataValid[id := false])
    }

    function EnterAddress(id: nat, addr: nat, size: nat): Tables
      requires id < |addrs| == |addrValid|
    {
      this.(addrs := addrs[id := (addr, size)], addrValid := addrValid[id := true])
    }

    function EnterData(id: nat, data: seq<int>): Tables
      requires id < |datas| == |dataValid|
    {
      this.(datas := datas[id := data], dataValid := dataValid[id := true])
    }

    /** Some live store with a known address overlaps. */
    ghost predicate Pending(m: nat, live: set<nat>, addr: nat, size: nat)
      requires m > 0 && |addrs| == |addrValid|
    {
      exists i :: 0 <= i < |addrs| && i in live && addrValid[i] && !Disjoint(m, addr, size, addrs[i].0, addrs[i].1)
    }
  }

  class MemoryFlowManager {
    const m: nat
    const n: nat
    const addrs: array<(nat, nat)>
    const addrValid: array<bool>
    const datas: array<seq<int>>
    const dataValid: array<bool>

    ghost predicate Valid() {
      m > 0 && addrs.Length == addrValid.Length == datas.Length == dataValid.Length == n && addrValid != dataValid
    }

    ghost function Value(): Tables
      reads addrs, addrValid, datas, dataValid
    {
      Tables(addrs[..], addrValid[..], datas[..], dataValid[..])
    }

    constructor (m: nat, n: nat)
      requires m > 0
      ensures this.m == m && this.n == n && Valid() && fresh(addrs) && fresh(addrValid) && fresh(datas)
        && fresh(dataValid)
      ensures forall i :: 0 <= i < n ==> !addrValid[i] && !dataValid[i]
    {
      this.m, this.n := m, n;
      addrs := new (nat, nat)[n](_ => (0, 0));
      datas := new seq<int>[n](_ => []);
      var av := new bool[n](_ => false);
      var dv := new bool[n](_ => false);
      addrValid, dataValid := av, dv;
    }

    method RegisterStore(id: nat)
      requires Valid() && id < n
      modifies addrValid, dataValid
      ensures Value() == old(Value()).RegisterStore(id)
    {
      addrValid[id] := false;
      dataValid[id] := false;
    }

    method EnterStoreAddress(id: nat, addr: nat, size: nat)
      requires Valid() && id < n
      modifies addrs, addrValid
      ensures Value() == old(Value()).EnterAddress(id, addr, size)
    {
      addrs[id] := (addr, size);
      addrValid[id] := true;
    }

    method EnterStoreData(id: nat, data: seq<int>)
      requires Valid() && id < n
      modifies datas, dataValid
      ensures Value() == old(Value()).EnterData(id, data)
    {
      datas[id] := data;
      dataValid[id] := true;
    }

    method StoreDataAvailable(id: nat) returns (ret: bool)
      requires Valid() && id < n
      ensures ret == Value().dataValid[id]
    {
      ret := dataValid[id];
    }

    /** One overlap checker per slot, or-ed together. */
    method StorePending(live: set<nat>, addr: nat, size: nat) returns (pending: bool)
      requires Valid()
      ensures pending <==> Value().Pending(m, live, addr, size)
    {
      pending := false;
      var i := 0;
      while i < n
        invariant 0 <= i <= n
        invariant pending <==>
          exists j :: 0 <= j < i && j in live && addrValid[j] && !Disjoint(m, addr, size, addrs[j].0, addrs[j].1)
      {
        pending := pending || (!Disjoint(m, addr, size, addrs[i].0, addrs[i].1) && i in live && addrValid[i]);
        i := i + 1;
      }
    }
  }
}
