/** The arbiter between the store and the load side of one memory port.  One register, set
    by a sent store and cleared by a response or a sent load, decides where the next
    response goes. */
module MemoryArbiter {
  import opened Options

  /** What the memory still owes a response for, oldest first. */
  datatype Owed = LoadReq | StoreReq

  datatype Arbiter = Arbiter(storeInFlight: bool, owed: seq<Owed>)

  /** One cycle: whether a response has come, whether the load side takes one, what is sent. */
  datatype Traffic = Traffic(responds: bool, recvLoad: bool, sendStore: bool, sendLoad: bool)

  predicate RecvLoadReady(a: Arbiter, t: Traffic) { t.responds && !a.storeInFlight }

  predicate TakesResponse(a: Arbiter, t: Traffic) { t.responds && (a.storeInFlight || t.recvLoad) }

  /** What is still owed once this cycle's response is gone. */
  function Left(a: Arbiter, t: Traffic): seq<Owed>
    requires t.responds ==> |a.owed| > 0
  {
    if TakesResponse(a, t) then a.owed[1..] else a.owed
  }

  /** `depth` requests may be outstanding; the memory takes a new one only below that. */
  ghost predicate TrafficOk(depth: nat, a: Arbiter, t: Traffic) {
    && (t.responds ==> |a.owed| > 0)
    && (t.recvLoad ==> RecvLoadReady(a, t))
    && (t.sendStore || t.sendLoad ==> |Left(a, t)| < depth)
    && !(t.sendStore && t.sendLoad)
  }

  predicate FlagAfterRecv(a: Arbiter, t: Traffic) { !t.responds && a.storeInFlight }

  ghost function NextArbiter(depth: nat, a: Arbiter, t: Traffic): Arbiter
    requires TrafficOk(depth, a, t)
  {
    if t.sendStore then Arbiter(true, Left(a, t) + [StoreReq])
    else if t.sendLoad then Arbiter(false, Left(a, t) + [LoadReq])
    else Arbiter(FlagAfterRecv(a, t), Left(a, t))
  }

  ghost predicate AllLoads(owed: seq<Owed>) { forall i :: 0 <= i < |owed| ==> owed[i] == LoadReq }

  /** The flag tells every response owed: loads alone, or a single store. */
  ghost predicate Good(a: Arbiter) {
    if a.storeInFlight then a.owed == [StoreReq] else AllLoads(a.owed)
  }

  /** The flag is only up behind a store sent last. */
  ghost predicate Raised(a: Arbiter) {
    a.storeInFlight ==> |a.owed| > 0 && a.owed[|a.owed| - 1] == StoreReq
  }

  /** A store is sent only with nothing owed, a load only behind loads. */
  ghost predicate Orderly(a: Arbiter, t: Traffic)
    requires t.responds ==> |a.owed| > 0
  {
    && (t.sendStore ==> Left(a, t) == [])
    && (t.sendLoad ==> AllLoads(Left(a, t)))
  }

  /** A response reaches its side: a load's is offered to the load side, a store's is
      swallowed. */
  ghost predicate Routed(a: Arbiter, t: Traffic)
    requires t.responds ==> |a.owed| > 0
  {
    t.responds ==> if a.owed[0] == LoadReq then RecvLoadReady(a, t) else !RecvLoadReady(a, t) && TakesResponse(a, t)
  }

  lemma GoodRoutes(a: Arbiter, t: Traffic)
    requires Good(a) && (t.responds ==> |a.owed| > 0)
    ensures Routed(a, t)
    ensures RecvLoadReady(a, t) || TakesResponse(a, t) ==> t.responds
    ensures t.responds && a.owed[0] == LoadReq ==> (TakesResponse(a, t) <==> t.recvLoad)
    ensures FlagAfterRecv(a, t) <==> StoreReq in Left(a, t)
  {
    if FlagAfterRecv(a, t) { assert Left(a, t)[0] == StoreReq; }
  }

  /** For any depth: the flag goes on telling every response exactly when what is sent is
      sent in order. */
  lemma SendExact(depth: nat, a: Arbiter, t: Traffic)
    requires Good(a) && TrafficOk(depth, a, t)
    ensures Good(NextArbiter(depth, a, t)) <==> Orderly(a, t)
  {
    var (left, b) := (Left(a, t), NextArbiter(depth, a, t));
    if t.sendStore && left != [] { assert b.owed[0] == left[0] && |b.owed| > 1; }
    if t.sendLoad {
      assert b.owed[..|left|] == left;
      assert AllLoads(b.owed) ==> forall i :: 0 <= i < |left| ==> b.owed[i] == left[i] == LoadReq;
    }
  }

  /** A flag that no longer tells stays wrong until a response goes to the wrong side. */
  lemma BadStays(depth: nat, a: Arbiter, t: Traffic)
    requires !Good(a) && Raised(a) && TrafficOk(depth, a, t) && Routed(a, t)
    ensures !Good(NextArbiter(depth, a, t))
  {
    var (left, b) := (Left(a, t), NextArbiter(depth, a, t));
    assert exists i :: 0 <= i < |left| && left[i] == StoreReq by {
      if a.storeInFlight {
        assert left[|left| - 1] == StoreReq;
      } else {
        var i :| 0 <= i < |a.owed| && a.owed[i] != LoadReq;
        assert left[if TakesResponse(a, t) then i - 1 else i] == StoreReq;
      }
    }
    var i :| 0 <= i < |left| && left[i] == StoreReq;
    assert b.owed[i] == StoreReq;
    if t.sendStore { assert |b.owed| > 1; }
  }

  lemma RaisedKept(depth: nat, a: Arbiter, t: Traffic)
    requires Raised(a) && TrafficOk(depth, a, t)
    ensures Raised(NextArbiter(depth, a, t))
  {
  }

  // ----- Runs -----------------------------------------------------------------------------

  /** Nothing is sent, and the load side takes whatever it is offered. */
  function Drain(a: Arbiter): Traffic { Traffic(true, !a.storeInFlight, false, false) }

  /** Every response still owed reaches its side. */
  ghost predicate DrainsWell(a: Arbiter)
    decreases |a.owed|
  {
    a.owed == [] || (Routed(a, Drain(a)) && DrainsWell(NextArbiter(0, a, Drain(a))))
  }

  lemma {:induction false} DrainExact(a: Arbiter)
    requires Raised(a)
    ensures DrainsWell(a) <==> Good(a)
    decreases |a.owed|
  {
    if a.owed != [] {
      var (t, b) := (Drain(a), NextArbiter(0, a, Drain(a)));
      RaisedKept(0, a, t);
      DrainExact(b);
      if Good(a) {
        GoodRoutes(a, t);
        SendExact(0, a, t);
      } else if Routed(a, t) {
        BadStays(0, a, t);
      }
    }
  }

  /** The arbiter after some cycles from reset, if the traffic was possible. */
  ghost function After(depth: nat, ts: seq<Traffic>): Option<Arbiter> {
    if |ts| == 0 then Some(Arbiter(false, [])) else
      var (a, t) := (After(depth, ts[..|ts| - 1]), ts[|ts| - 1]);
      if a.Some? && TrafficOk(depth, a.value, t) then Some(NextArbiter(depth, a.value, t)) else None
  }

  ghost predicate AllRouted(depth: nat, ts: seq<Traffic>)
    requires After(depth, ts).Some?
  {
    |ts| == 0 || (AllRouted(depth, ts[..|ts| - 1]) && Routed(After(depth, ts[..|ts| - 1]).value, ts[|ts| - 1]))
  }

  ghost predicate AllOrderly(depth: nat, ts: seq<Traffic>)
    requires After(depth, ts).Some?
  {
    |ts| == 0 || (AllOrderly(depth, ts[..|ts| - 1]) && Orderly(After(depth, ts[..|ts| - 1]).value, ts[|ts| - 1]))
  }

  /** Over every run, at any depth: all responses, those still to come included, reach
      their side exactly when no store was sent with anything owed and no load behind a
      store. */
  lemma {:induction false} ArbiterMatches(depth: nat, ts: seq<Traffic>)
    requires After(depth, ts).Some?
    ensures AllRouted(depth, ts) && DrainsWell(After(depth, ts).value) <==> AllOrderly(depth, ts)
  {
    RunExact(depth, ts);
    DrainExact(After(depth, ts).value);
  }

  lemma {:induction false} RunExact(depth: nat, ts: seq<Traffic>)
    requires After(depth, ts).Some?
    ensures Raised(After(depth, ts).value)
    ensures AllRouted(depth, ts) && Good(After(depth, ts).value) <==> AllOrderly(depth, ts)
    ensures AllOrderly(depth, ts) ==> AllRouted(depth, ts) && Good(After(depth, ts).value)
  {
    if |ts| > 0 {
      var (before, t) := (ts[..|ts| - 1], ts[|ts| - 1]);
      RunExact(depth, before);
      var a := After(depth, before).value;
      RaisedKept(depth, a, t);
      if Good(a) {
        GoodRoutes(a, t);
        SendExact(depth, a, t);
      } else if Routed(a, t) {
        BadStays(depth, a, t);
      }
    }
  }

  /** With one request outstanding, as the repository's bus model allows on a port, traffic
      cannot be out of order. */
  lemma {:induction false} OneOutstanding(depth: nat, ts: seq<Traffic>)
    requires depth <= 1 && After(depth, ts).Some?
    ensures AllOrderly(depth, ts)
  {
    if |ts| > 0 { OneOutstanding(depth, ts[..|ts| - 1]); }
  }

  function Send(store: bool): Traffic { Traffic(false, false, store, !store) }

  /** With two, every pair but two loads goes wrong. */
  lemma PairOutstanding(depth: nat, first: bool, second: bool)
    requires depth >= 2
    ensures var ts := [Send(first), Send(second)];
      && After(depth, ts).Some?
      && (AllRouted(depth, ts) && DrainsWell(After(depth, ts).value) <==> !first && !second)
  {
    var (s, t) := (Send(first), Send(second));
    var (one, ts) := ([s], [s, t]);
    assert ts[..1] == one && one[..0] == [];
    var a := Arbiter(first, [if first then StoreReq else LoadReq]);
    assert After(depth, []) == Some(Arbiter(false, []));
    assert NextArbiter(depth, Arbiter(false, []), s) == a;
    assert After(depth, one) == Some(a) && AllOrderly(depth, []);
    assert Left(Arbiter(false, []), s) == [] && AllOrderly(depth, one);
    ArbiterMatches(depth, ts);
    assert AllOrderly(depth, ts) <==> Orderly(a, t);
    assert AllLoads(a.owed) <==> !first by { assert a.owed[0] == if first then StoreReq else LoadReq; }
  }

  /** Every possible traffic is matched exactly when at most one request is outstanding. */
  lemma DepthExact(depth: nat)
    ensures (forall ts :: After(depth, ts).Some? ==> AllRouted(depth, ts) && DrainsWell(After(depth, ts).value)) <==>
      depth <= 1
  {
    if depth >= 2 {
      PairOutstanding(depth, false, true);
    } else {
      forall ts: seq<Traffic> | After(depth, ts).Some?
        ensures AllRouted(depth, ts) && DrainsWell(After(depth, ts).value)
      {
        OneOutstanding(depth, ts);
        ArbiterMatches(depth, ts);
      }
    }
  }

  // ----- The register ---------------------------------------------------------------------

  class MemoryArbiter {
    var storeInFlight: bool

    constructor ()
      ensures !storeInFlight
    {
      storeInFlight := false;
    }

    /** One clock tick, with the memory responding when `responds` and taking a request
        when `sendRdy`; the sides call only what is ready.  `owed` is what the memory owes. */
    method Tick(responds: bool, recvLoad: bool, sendRdy: bool, sendStore: bool, sendLoad: bool, ghost depth: nat,
        ghost owed: seq<Owed>)
      returns (recvCall: bool, recvLoadRdy: bool, sendLoadRdy: bool, acksOutstanding: bool)
      requires TrafficOk(depth, Arbiter(storeInFlight, owed), Traffic(responds, recvLoad, sendStore, sendLoad))
      requires (sendStore || sendLoad ==> sendRdy)
      modifies this
      ensures var (a, t) := (Arbiter(old(storeInFlight), owed), Traffic(responds, recvLoad, sendStore, sendLoad));
        && recvCall == TakesResponse(a, t) && recvLoadRdy == RecvLoadReady(a, t)
        && storeInFlight == NextArbiter(depth, a, t).storeInFlight
        && acksOutstanding == FlagAfterRecv(a, t)
        && sendLoadRdy == (sendRdy && !sendStore)
    {
      acksOutstanding := storeInFlight;
      recvCall, recvLoadRdy := false, false;
      if responds {
        if storeInFlight {
          recvCall := true;
        } else {
          recvCall, recvLoadRdy := recvLoad, true;
        }
        acksOutstanding := false;
      }
      sendLoadRdy := sendRdy && !sendStore;
      if sendStore {
        storeInFlight := true;
      } else if sendLoad {
        storeInFlight := false;
      } else {
        storeInFlight := acksOutstanding;
      }
    }
  }
}
