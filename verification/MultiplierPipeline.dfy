/** The multiplier as an elastic pipeline: any stage may wait, nothing is lost. */
module MultiplierPipeline {
  import opened Options
  import opened Words
  import opened Multiplier

  // ----- Handshake, whatever the stages hold ----------------------------------------------

  /** A stage takes new work when it is empty or the next one takes its own. */
  predicate Rdy<T>(p: seq<Option<T>>, take: bool, i: nat)
    requires i < |p|
    decreases |p| - i
  {
    if i + 1 == |p| then take || p[i].None? else p[i].None? || Rdy(p, take, i + 1)
  }

  /** Work is taken in exactly when some stage from there on is empty or the last is taken. */
  lemma {:induction false} RdyIff<T>(p: seq<Option<T>>, take: bool, i: nat)
    requires i < |p|
    ensures Rdy(p, take, i) <==> take || exists j :: i <= j < |p| && p[j].None?
    decreases |p| - i
  {
    if i + 1 < |p| { RdyIff(p, take, i + 1); }
  }

  predicate HandsOn<T>(p: seq<Option<T>>, take: bool, i: nat)
    requires i < |p|
  {
    if i + 1 == |p| then take else Rdy(p, take, i + 1)
  }

  /** What arrives at stage i, as it was before. */
  function Arrives<T>(p: seq<Option<T>>, take: bool, enter: Option<T>, i: nat): Option<T>
    requires i < |p|
  {
    if !Rdy(p, take, i) then None else if i == 0 then enter else p[i - 1]
  }

  function Stays<T>(p: seq<Option<T>>, take: bool, i: nat): Option<T>
    requires i < |p|
  {
    if HandsOn(p, take, i) then None else p[i]
  }

  function Moved<T>(p: seq<Option<T>>, take: bool, enter: Option<T>): (r: seq<Option<T>>)
    ensures |r| == |p|
  {
    seq(|p|, i requires 0 <= i < |p| => if Arrives(p, take, enter, i).Some? then Arrives(p, take, enter, i)
        else Stays(p, take, i))
  }

  // ----- Registers ----------------------------------------------------------------------

  function StageIn(c: Config, i: nat, w: Option<Work>): Option<Work>
    requires c.Ok()
  {
    if w.None? then None else if i == 0 then w else Some(Advance(c, i, w.value))
  }

  /** One cycle; the first stage registers `First` of a new call. */
  function Next(c: Config, p: seq<Option<Work>>, take: bool, call: Option<Call>): (r: seq<Option<Work>>)
    requires c.Ok() && (call.Some? ==> call.value.Fits(c.m))
    ensures |r| == |p|
  {
    var enter := if call.Some? then Some(First(c, call.value)) else None;
    seq(|p|, i requires 0 <= i < |p| =>
      if Arrives(p, take, enter, i).Some? then StageIn(c, i, Arrives(p, take, enter, i)) else Stays(p, take, i))
  }

  /** Each stage holds what the calls it stands for make of it. */
  ghost predicate Holds(c: Config, p: seq<Option<Work>>, calls: seq<Option<Call>>)
    requires c.Ok()
  {
    && |p| == |calls|
    && (forall i :: 0 <= i < |p| ==> (p[i].Some? <==> calls[i].Some?))
    && (forall i :: 0 <= i < |p| && calls[i].Some? ==>
        calls[i].value.Fits(c.m) && p[i].value == WorkAt(c, calls[i].value, i))
  }

  lemma {:induction false} RdySame<S, T>(p: seq<Option<S>>, q: seq<Option<T>>, take: bool, i: nat)
    requires |p| == |q| && i < |p| && forall j :: 0 <= j < |p| ==> (p[j].Some? <==> q[j].Some?)
    ensures Rdy(p, take, i) == Rdy(q, take, i)
    decreases |p| - i
  {
    if i + 1 < |p| { RdySame(p, q, take, i + 1); }
  }

  lemma HoldsStep(c: Config, p: seq<Option<Work>>, calls: seq<Option<Call>>, take: bool, call: Option<Call>)
    requires c.Ok() && Holds(c, p, calls) && (call.Some? ==> call.value.Fits(c.m))
    ensures Holds(c, Next(c, p, take, call), Moved(calls, take, call))
  {
    var (p', calls') := (Next(c, p, take, call), Moved(calls, take, call));
    forall i | 0 <= i < |p|
      ensures (p'[i].Some? <==> calls'[i].Some?)
        && (calls'[i].Some? ==> calls'[i].value.Fits(c.m) && p'[i].value == WorkAt(c, calls'[i].value, i))
    {
      RdySame(p, calls, take, i);
      if i + 1 < |p| { RdySame(p, calls, take, i + 1); }
      hide Rdy, First, Advance;
    }
  }

  // ----- Order --------------------------------------------------------------------------

  ghost function Cell<T>(x: Option<T>): seq<T> { if x.Some? then [x.value] else [] }

  /** The contents of stages i on, from the output end. */
  ghost function From<T>(p: seq<Option<T>>, i: nat): seq<T>
    requires i <= |p|
    decreases |p| - i
  {
    if i == |p| then [] else From(p, i + 1) + Cell(p[i])
  }

  ghost function Taken<T>(p: seq<Option<T>>, take: bool): nat
    requires |p| > 0
  {
    if take && p[|p| - 1].Some? then 1 else 0
  }

  lemma Handed<T>(p: seq<Option<T>>, take: bool, enter: Option<T>, i: nat)
    requires i < |p|
    ensures Cell(Moved(p, take, enter)[i]) == Cell(Stays(p, take, i)) + Cell(Arrives(p, take, enter, i))
    ensures i + 1 < |p| ==> Cell(Arrives(p, take, enter, i + 1)) + Cell(Stays(p, take, i)) == Cell(p[i])
  {
    assert Rdy(p, take, i) ==> Stays(p, take, i).None?;
    hide Rdy;
    var (a, b) := (Cell(Stays(p, take, i)), Cell(Arrives(p, take, enter, i)));
    assert a + b == if a == [] then b else if b == [] then a else a + b;
  }

  lemma FromLast<T>(p: seq<Option<T>>, take: bool, enter: Option<T>)
    requires |p| > 0
    ensures var (last, t) := (|p| - 1, Taken(p, take));
      && From(p, last) == Cell(p[last]) && From(Moved(p, take, enter), last) == Cell(Moved(p, take, enter)[last])
      && t <= |Cell(p[last])| && Cell(p[last])[t..] == Cell(Stays(p, take, last))
  {
    assert From(p, |p|) == [] && From(Moved(p, take, enter), |p|) == [];
    hide Rdy, Moved;
  }

  /** One cycle: at most the last leaves, at most one joins, the rest keep their order. */
  lemma {:induction false} FromStep<T>(p: seq<Option<T>>, take: bool, enter: Option<T>, i: nat)
    requires i < |p|
    ensures Taken(p, take) <= |From(p, i)|
    ensures From(Moved(p, take, enter), i) == From(p, i)[Taken(p, take)..] + Cell(Arrives(p, take, enter, i))
    decreases |p| - i
  {
    hide Rdy, HandsOn, Arrives, Stays, Moved, Taken, Cell;
    var (q, t) := (Moved(p, take, enter), Taken(p, take));
    Handed(p, take, enter, i);
    if i + 1 == |p| {
      FromLast(p, take, enter);
    } else {
      var (m, x, y, z) := (From(p, i + 1), Cell(Arrives(p, take, enter, i + 1)), Cell(Stays(p, take, i)),
          Cell(Arrives(p, take, enter, i)));
      var cell := Cell(p[i]);
      assert From(p, i) == m + cell && From(q, i) == From(q, i + 1) + Cell(q[i]);
      hide *;
      FromStep(p, take, enter, i + 1);
      Regroup(m, cell, x, y, z, t);
    }
  }

  lemma Regroup<T>(m: seq<T>, c: seq<T>, x: seq<T>, y: seq<T>, z: seq<T>, t: nat)
    requires t <= |m| && x + y == c
    ensures (m[t..] + x) + (y + z) == (m + c)[t..] + z
  {
    assert (m + c)[t..] == m[t..] + c;
    var a := m[t..];
    assert (a + x) + (y + z) == (a + (x + y)) + z;
  }

  // ----- Runs ---------------------------------------------------------------------------

  datatype Input = Input(take: bool, call: Option<Call>)

  /** A run: the registers, the calls accepted and the results taken, each in order. */
  datatype Outcome = Stuck | At(p: seq<Option<Work>>, entered: seq<Call>, results: seq<nat>)

  ghost function Step(c: Config, o: Outcome, in_: Input): Outcome
    requires o.At? && c.Ok() && |o.p| == c.nstages && (in_.call.Some? ==> in_.call.value.Fits(c.m))
  {
    var last := |o.p| - 1;
    At(Next(c, o.p, in_.take, in_.call),
       o.entered + (if in_.call.Some? && Rdy(o.p, in_.take, 0) then [in_.call.value] else []),
       o.results + (if in_.take && o.p[last].Some? then [o.p[last].value.val] else []))
  }

  ghost function After(c: Config, ins: seq<Input>): Outcome
    requires c.Ok()
  {
    if |ins| == 0 then At(seq(c.nstages, _ => None), [], [])
    else match After(c, ins[..|ins| - 1])
      case Stuck => Stuck
      case At(p, a, b) =>
        var in_ := ins[|ins| - 1];
        if |p| == c.nstages && (in_.call.Some? ==> in_.call.value.Fits(c.m)) then Step(c, At(p, a, b), in_) else Stuck
  }

  ghost function Results(c: Config, calls: seq<Call>): (r: seq<nat>)
    requires c.Ok() && forall i :: 0 <= i < |calls| ==> calls[i].Fits(c.m)
    ensures |r| == |calls|
  {
    seq<nat>(|calls|, i requires 0 <= i < |calls| => Trunc(Product(c, calls[i]), c.Plen()))
  }

  /** The state of a run in terms of calls. */
  ghost predicate Accounted(c: Config, o: Outcome, calls: seq<Option<Call>>, done: seq<Call>)
    requires c.Ok()
  {
    && o.At? && |o.p| == c.nstages && Holds(c, o.p, calls)
    && (forall i :: 0 <= i < |o.entered| ==> o.entered[i].Fits(c.m))
    && (forall i :: 0 <= i < |done| ==> done[i].Fits(c.m))
    && done + From(calls, 0) == o.entered && o.results == Results(c, done)
  }

  lemma {:induction false} EmptyFrom<T>(n: nat, i: nat)
    requires i <= n
    ensures From<T>(seq(n, _ => None), i) == []
    decreases n - i
  {
    if i < n { EmptyFrom<T>(n, i + 1); }
  }

  lemma {:induction false} FirstOut<T>(p: seq<Option<T>>, i: nat)
    requires i < |p| && p[|p| - 1].Some?
    ensures |From(p, i)| > 0 && From(p, i)[0] == p[|p| - 1].value
    decreases |p| - i
  {
    if i + 1 < |p| { FirstOut(p, i + 1); } else { assert From(p, i + 1) == []; }
  }

  lemma ResultsAppend(c: Config, a: seq<Call>, x: Call)
    requires c.Ok() && (forall i :: 0 <= i < |a| ==> a[i].Fits(c.m)) && x.Fits(c.m)
    ensures Results(c, a + [x]) == Results(c, a) + [Trunc(Product(c, x), c.Plen())]
  {
  }

  /** The calls whose results have been taken after the cycle. */
  ghost function DoneAfter(calls: seq<Option<Call>>, done: seq<Call>, take: bool): seq<Call>
    requires |calls| > 0
  {
    if take && calls[|calls| - 1].Some? then done + [calls[|calls| - 1].value] else done
  }

  lemma DoneTaken(calls: seq<Option<Call>>, done: seq<Call>, take: bool)
    requires |calls| > 0
    ensures var t := Taken(calls, take);
      t <= |From(calls, 0)| && DoneAfter(calls, done, take) == done + From(calls, 0)[..t]
  {
    hide From;
    if Taken(calls, take) == 1 { FirstOut(calls, 0); }
  }

  /** Every accepted call is done or inside, in order. */
  lemma EnteredStep(calls: seq<Option<Call>>, done: seq<Call>, in_: Input)
    requires |calls| > 0
    ensures DoneAfter(calls, done, in_.take) + From(Moved(calls, in_.take, in_.call), 0)
            == done + From(calls, 0) + (if in_.call.Some? && Rdy(calls, in_.take, 0) then [in_.call.value] else [])
  {
    hide From, Moved;
    var (t, m, done') := (Taken(calls, in_.take), From(calls, 0), DoneAfter(calls, done, in_.take));
    FromStep(calls, in_.take, in_.call, 0);
    DoneTaken(calls, done, in_.take);
    hide Taken, DoneAfter;
    var cell := Cell(Arrives(calls, in_.take, in_.call, 0));
    assert cell == if in_.call.Some? && Rdy(calls, in_.take, 0) then [in_.call.value] else [];
    hide *;
    Rejoin(done, m, cell, t);
  }

  lemma Rejoin<T>(a: seq<T>, m: seq<T>, cell: seq<T>, t: nat)
    requires t <= |m|
    ensures a + m[..t] + (m[t..] + cell) == a + m + cell
  {
    assert m == m[..t] + m[t..];
  }

  lemma ResultsStep(c: Config, p: seq<Option<Work>>, calls: seq<Option<Call>>, done: seq<Call>, take: bool)
    requires c.Ok() && |p| == c.nstages && Holds(c, p, calls) && forall i :: 0 <= i < |done| ==> done[i].Fits(c.m)
    ensures var (last, d) := (c.nstages - 1, DoneAfter(calls, done, take));
      && (forall i :: 0 <= i < |d| ==> d[i].Fits(c.m))
      && Results(c, d) == Results(c, done) + (if take && p[last].Some? then [p[last].value.val] else [])
  {
    hide WorkAt, First, Advance, Product, Trunc;
    if take && p[c.nstages - 1].Some? {
      ProductExact(c, calls[c.nstages - 1].value);
      ResultsAppend(c, done, calls[c.nstages - 1].value);
    }
  }

  lemma AccountedStep(c: Config, o: Outcome, calls: seq<Option<Call>>, done: seq<Call>, in_: Input)
    requires c.Ok() && Accounted(c, o, calls, done) && (in_.call.Some? ==> in_.call.value.Fits(c.m))
    ensures Accounted(c, Step(c, o, in_), Moved(calls, in_.take, in_.call), DoneAfter(calls, done, in_.take))
  {
    HoldsStep(c, o.p, calls, in_.take, in_.call);
    RdySame(o.p, calls, in_.take, 0);
    EnteredStep(calls, done, in_);
    ResultsStep(c, o.p, calls, done, in_.take);
    hide Holds, Rdy, Moved, From, Next, Results, DoneAfter;
  }

  /** Over every pattern of stalls, results are those of the accepted calls, in their order,
      none lost or doubled, each the exact product on the width kept. */
  lemma {:induction false} ResultsInOrder(c: Config, ins: seq<Input>)
    returns (calls: seq<Option<Call>>, done: seq<Call>)
    requires c.Ok() && After(c, ins).At?
    ensures Accounted(c, After(c, ins), calls, done)
  {
    if |ins| == 0 {
      calls, done := seq(c.nstages, _ => None), [];
      EmptyFrom<Call>(c.nstages, 0);
    } else {
      var (pre, in_) := (ins[..|ins| - 1], ins[|ins| - 1]);
      var q, d := ResultsInOrder(c, pre);
      hide Accounted, Step;
      AccountedStep(c, After(c, pre), q, d, in_);
      calls, done := Moved(q, in_.take, in_.call), DoneAfter(q, d, in_.take);
    }
  }

  // ----- Multiply instructions ------------------------------------------------------------

  datatype Variant = N | H | HSU | U | HU

  datatype Op = Op(variant: Variant, narrow: bool)

  /** What the adapter asks of the multiplier: `w` is the width of the narrow form. */
  function Request(op: Op, rs1: nat, rs2: nat, w: nat, m: nat): (call: Call)
    requires 0 < w <= m && rs1 < Pow2(m) && rs2 < Pow2(m)
    ensures call.Fits(m)
  {
    var (a, b) := if op.narrow then (SignExtend(Trunc(rs1, w), w, m), SignExtend(Trunc(rs2, w), w, m)) else (rs1, rs2);
    Call(a, b, !(op.variant.U? || op.variant.HU?), op.variant.N? || op.variant.H?)
  }

  function Output(op: Op, res: nat, w: nat, m: nat): nat
    requires 0 < w <= m
  {
    if op.narrow then SignExtend(Trunc(res, w), w, m)
    else if op.variant.N? || op.variant.U? then Trunc(res, m)
    else Trunc(Shr(res, m), m)
  }

  /** The instructions: the low half, the high half of the product of signed or unsigned
      operands, or the sign-extended narrow product. */
  function Architectural(op: Op, rs1: nat, rs2: nat, w: nat, m: nat): nat
    requires 0 < w <= m && rs1 < Pow2(m) && rs2 < Pow2(m)
  {
    var (s1, s2) := (ToSigned(rs1, m), ToSigned(rs2, m));
    if op.narrow then SignExtend(Trunc(ToSigned(Trunc(rs1, w), w) * ToSigned(Trunc(rs2, w), w), w), w, m)
    else match op.variant
      case N => Trunc(rs1 * rs2, m)
      case U => Trunc(rs1 * rs2, m)
      case H => Trunc(Shr(Trunc(s1 * s2, 2 * m), m), m)
      case HSU => Trunc(Shr(Trunc(s1 * rs2, 2 * m), m), m)
      case HU => Trunc(Shr(Trunc(rs1 * rs2, 2 * m), m), m)
  }

  /** The low half does not depend on how the operands are read. */
  lemma LowHalf(x: nat, y: nat, signed1: bool, signed2: bool, m: nat, n: nat)
    requires 0 < m <= n && x < Pow2(m) && y < Pow2(m)
    ensures Trunc(Trunc(Operand(x, signed1, m) * Operand(y, signed2, m), n), m) == Trunc(x * y, m)
  {
    var (a, b) := (Operand(x, signed1, m), Operand(y, signed2, m));
    TruncSmall(x, m);
    TruncSmall(y, m);
    hide Trunc;
    TruncTrunc(a * b, n, m);
    TruncProduct(a, x, b, m);
    TruncProduct(b, y, x, m);
  }

  /** Every multiply instruction gets its architectural result from the wide product. */
  lemma InstructionExact(c: Config, op: Op, rs1: nat, rs2: nat, w: nat)
    requires c.Ok() && c.keepUpper && 0 < w <= c.m && rs1 < Pow2(c.m) && rs2 < Pow2(c.m)
    requires op.narrow ==> op.variant.N?
    ensures Output(op, Trunc(Product(c, Request(op, rs1, rs2, w, c.m)), c.Plen()), w, c.m) ==
      Architectural(op, rs1, rs2, w, c.m)
  {
    var (m, call) := (c.m, Request(op, rs1, rs2, w, c.m));
    if op.narrow {
      SignExtendExact(Trunc(rs1, w), w, m);
      SignExtendExact(Trunc(rs2, w), w, m);
      hide Trunc, SignExtend;
      TruncTrunc(Product(c, call), 2 * m, w);
    } else if op.variant.N? || op.variant.U? {
      hide Trunc;
      LowHalf(rs1, rs2, call.signed1, call.signed2, m, 2 * m);
    } else {
      hide Trunc, Shr;
    }
  }

  // ----- Machines -----------------------------------------------------------------------

  class MulPipelined {
    const c: Config
    const stages: array<Option<Work>>

    constructor (c: Config)
      requires c.Ok()
      ensures this.c == c && fresh(stages) && stages.Length == c.nstages && forall i :: 0 <= i < c.nstages ==>
        stages[i] == None
    {
      this.c := c;
      stages := new Option<Work>[c.nstages](_ => None);
    }

    method MultReady(take: bool) returns (rdy: bool)
      requires stages.Length > 0
      ensures rdy == Rdy(stages[..], take, 0)
    {
      var i := stages.Length - 1;
      rdy := take || stages[i].None?;
      while i > 0
        invariant 0 <= i < stages.Length
        invariant rdy == Rdy(stages[..], take, i)
      {
        i := i - 1;
        rdy := stages[i].None? || rdy;
      }
    }

    /** One clock tick, stages rewritten from the output end. */
    method Tick(take: bool, call: Option<Call>) returns (peek: Option<nat>, rdy: bool)
      requires c.Ok() && stages.Length == c.nstages && (call.Some? ==> call.value.Fits(c.m))
      modifies stages
      ensures stages[..] == Next(c, old(stages[..]), take, call)
      ensures peek == if old(stages[c.nstages - 1]).Some? then Some(old(stages[c.nstages - 1]).value.val) else None
      ensures rdy == Rdy(old(stages[..]), take, 0)
    {
      hide First, Advance;
      ghost var was := stages[..];
      var n := c.nstages;
      peek := if stages[n - 1].Some? then Some(stages[n - 1].value.val) else None;
      rdy := MultReady(take);
      var i, handsOn := n, take;
      while i > 0
        invariant 0 <= i <= n == stages.Length
        invariant forall j :: 0 <= j < i ==> stages[j] == was[j]
        invariant forall j :: i <= j < n ==> stages[j] == Next(c, was, take, call)[j]
        invariant i > 0 ==> handsOn == HandsOn(was, take, i - 1)
      {
        i := i - 1;
        handsOn := Rewrite(was, take, call, i, handsOn);
      }
    }

    method Rewrite(ghost was: seq<Option<Work>>, take: bool, call: Option<Call>, i: nat, handsOn: bool)
      returns (ready: bool)
      requires c.Ok() && i < stages.Length == c.nstages == |was| && (call.Some? ==> call.value.Fits(c.m))
      requires forall j :: 0 <= j <= i ==> stages[j] == was[j]
      requires handsOn == HandsOn(was, take, i)
      modifies stages
      ensures stages[i] == Next(c, was, take, call)[i]
      ensures forall j :: 0 <= j < stages.Length && j != i ==> stages[j] == old(stages[j])
      ensures i > 0 ==> ready == HandsOn(was, take, i - 1)
    {
      hide First, Advance;
      ready := stages[i].None? || handsOn;
      assert ready == Rdy(was, take, i);
      if ready {
        if i == 0 {
          stages[0] := if call.Some? then Some(First(c, call.value)) else if handsOn then None else stages[0];
        }
        else {
          stages[i] := if stages[i - 1].Some? then Some(Advance(c, i, stages[i - 1].value)) else if handsOn then None
              else stages[i];
        }
      }
    }
  }

  /** The product on twice the width, as the cycle-level model computes it. */
  function FullProduct(call: Call, m: nat): nat
    requires m > 0 && call.Fits(m)
  {
    Trunc(Operand(call.src1, call.signed1, m) * Operand(call.src2, call.signed2, m), 2 * m)
  }

  /** The cycle-level model: whole products in a row of slots shifted by a loop. */
  class MulCL {
    const c: Config
    var results: seq<Option<nat>>

    constructor (c: Config)
      requires c.Ok()
      ensures this.c == c && results == seq(c.nstages, _ => None)
    {
      this.c := c;
      results := seq(c.nstages, _ => None);
    }

    method Shift()
      requires |results| > 0
      modifies this
      ensures results == Moved(old(results), false, None)
    {
      ghost var was := results;
      var i := |results| - 1;
      while i > 0
        invariant 0 <= i < |results| == |was|
        invariant forall j :: 0 <= j < i ==> results[j] == was[j]
        invariant results[i] == Stays(was, false, i)
        invariant forall j :: i < j < |was| ==> results[j] == Moved(was, false, None)[j]
      {
        i := ShiftOne(was, i);
      }
      assert results == Moved(was, false, None);
    }

    method ShiftOne(ghost was: seq<Option<nat>>, i: nat) returns (j: nat)
      requires 0 < i < |results| == |was| && results[i - 1] == was[i - 1] && results[i] == Stays(was, false, i)
      modifies this
      ensures j == i - 1 && |results| == |was| && results[i] == Moved(was, false, None)[i]
        && results[j] == Stays(was, false, j)
      ensures forall k :: 0 <= k < |was| && k != i && k != j ==> results[k] == old(results[k])
    {
      j := i - 1;
      assert results[i].None? <==> Rdy(was, false, i);
      if results[i].None? { results := results[i := results[j]][j := None]; }
    }

    /** One cycle of calls: peek and take, shift, then a new multiplication if the first
        slot is free. */
    method Cycle(take: bool, call: Option<Call>) returns (peek: Option<nat>, rdy: bool)
      requires c.Ok() && |results| > 0 && (call.Some? ==> call.value.Fits(c.m))
      modifies this
      ensures peek == PeekSlots(c, old(results)) && rdy == Rdy(old(results), take, 0)
      ensures results == Moved(old(results), take, Slot(c, call))
    {
      hide Trunc, FullProduct;
      var last := |results| - 1;
      peek := if results[last].Some? then Some(Trunc(results[last].value, c.Plen())) else None;
      ghost var was := results;
      if take { results := results[last := None]; }
      TakeFirst(was, take);
      Shift();
      rdy := results[0].None?;
      var x := if call.Some? then Some(FullProduct(call.value, c.m)) else None;
      EnterLast(was, take, x);
      if rdy && call.Some? { results := results[0 := x]; }
    }
  }

  /** Clearing the last slot first is the same as handing it on. */
  lemma TakeFirst<T>(p: seq<Option<T>>, take: bool)
    requires |p| > 0
    ensures var q := if take then p[|p| - 1 := None] else p;
      && (forall i :: 0 <= i < |p| ==> Rdy(q, false, i) == Rdy(p, take, i))
      && Moved(q, false, None) == Moved(p, take, None)
  {
    var q := if take then p[|p| - 1 := None] else p;
    forall i | 0 <= i < |p| ensures Rdy(q, false, i) == Rdy(p, take, i) { TakeReady(p, q, take, i); }
    hide Rdy;
    var (a, b) := (Moved(q, false, None), Moved(p, take, None));
    forall i | 0 <= i < |p| ensures a[i] == b[i] { }
  }

  lemma {:induction false} TakeReady<T>(p: seq<Option<T>>, q: seq<Option<T>>, take: bool, i: nat)
    requires i < |p| && q == if take then p[|p| - 1 := None] else p
    ensures Rdy(q, false, i) == Rdy(p, take, i)
    decreases |p| - i
  {
    if i + 1 < |p| { TakeReady(p, q, take, i + 1); }
  }

  lemma EnterLast<T>(p: seq<Option<T>>, take: bool, x: Option<T>)
    requires |p| > 0
    ensures var q := Moved(p, take, None);
      && (q[0].None? <==> Rdy(p, take, 0))
      && Moved(p, take, x) == if Rdy(p, take, 0) && x.Some? then q[0 := x] else q
  {
    var (q, r) := (Moved(p, take, None), Moved(p, take, x));
    assert Rdy(p, take, 0) ==> Stays(p, take, 0).None?;
    assert !Rdy(p, take, 0) ==> Stays(p, take, 0).Some?;
    hide Rdy;
    forall i | 0 <= i < |p| ensures r[i] == if i == 0 && Rdy(p, take, 0) && x.Some? then x else q[i] { }
  }

  // ----- Registers and slots side by side -------------------------------------------------

  /** The slots that hold the products of these calls. */
  function Slots(c: Config, calls: seq<Option<Call>>): (r: seq<Option<nat>>)
    requires c.Ok()
    ensures |r| == |calls|
  {
    seq(|calls|, i requires 0 <= i < |calls| => Slot(c, calls[i]))
  }

  function Slot(c: Config, call: Option<Call>): Option<nat>
    requires c.Ok()
  {
    if call.Some? && call.value.Fits(c.m) then Some(FullProduct(call.value, c.m)) else None
  }

  function PeekRegisters(p: seq<Option<Work>>): Option<nat>
    requires |p| > 0
  {
    if p[|p| - 1].Some? then Some(p[|p| - 1].value.val) else None
  }

  function PeekSlots(c: Config, cl: seq<Option<nat>>): Option<nat>
    requires c.Ok() && |cl| > 0
  {
    if cl[|cl| - 1].Some? then Some(Trunc(cl[|cl| - 1].value, c.Plen())) else None
  }

  /** Registers and slots that stand for the same calls agree on what can be seen. */
  lemma {:induction false} RegistersMatchCL(c: Config, p: seq<Option<Work>>, calls: seq<Option<Call>>)
    requires c.Ok() && Holds(c, p, calls) && |p| == c.nstages
    ensures forall take, i :: 0 <= i < |p| ==> Rdy(p, take, i) == Rdy(Slots(c, calls), take, i)
    ensures PeekRegisters(p) == PeekSlots(c, Slots(c, calls))
  {
    var cl := Slots(c, calls);
    forall take, i | 0 <= i < |p| ensures Rdy(p, take, i) == Rdy(cl, take, i) { RdySame(p, cl, take, i); }
    var last := |p| - 1;
    if p[last].Some? {
      hide Trunc, Product, WorkAt;
      ProductExact(c, calls[last].value);
      TruncTrunc(Product(c, calls[last].value), 2 * c.m, c.Plen());
    }
  }

  lemma SlotsStep(c: Config, calls: seq<Option<Call>>, take: bool, call: Option<Call>)
    requires c.Ok() && |calls| > 0 && (call.Some? ==> call.value.Fits(c.m))
    requires forall i :: 0 <= i < |calls| && calls[i].Some? ==> calls[i].value.Fits(c.m)
    ensures Slots(c, Moved(calls, take, call)) == Moved(Slots(c, calls), take, Slot(c, call))
  {
    hide FullProduct;
    var (a, b) := (Slots(c, Moved(calls, take, call)), Moved(Slots(c, calls), take, Slot(c, call)));
    forall i | 0 <= i < |a| ensures a[i] == b[i] {
      RdySame(calls, Slots(c, calls), take, i);
      if i + 1 < |calls| { RdySame(calls, Slots(c, calls), take, i + 1); }
      hide Rdy;
    }
  }

  /** The cycle-level model after a run. */
  ghost function AfterCL(c: Config, ins: seq<Input>): (r: seq<Option<nat>>)
    requires c.Ok()
    ensures |r| == c.nstages
  {
    if |ins| == 0 then seq(c.nstages, _ => None)
    else Moved(AfterCL(c, ins[..|ins| - 1]), ins[|ins| - 1].take, Slot(c, ins[|ins| - 1].call))
  }

  lemma {:induction false} SameCalls(c: Config, ins: seq<Input>) returns (calls: seq<Option<Call>>)
    requires c.Ok() && After(c, ins).At?
    ensures Holds(c, After(c, ins).p, calls) && |calls| == c.nstages && AfterCL(c, ins) == Slots(c, calls)
  {
    hide Slot, WorkAt, Next;
    if |ins| == 0 {
      calls := seq(c.nstages, _ => None);
      NoSlot(c);
      assert AfterCL(c, ins) == Slots(c, calls);
    } else {
      var (pre, in_) := (ins[..|ins| - 1], ins[|ins| - 1]);
      var q := SameCalls(c, pre);
      calls := Moved(q, in_.take, in_.call);
      HoldsStep(c, After(c, pre).p, q, in_.take, in_.call);
      SlotsStep(c, q, in_.take, in_.call);
    }
  }

  lemma NoSlot(c: Config)
    requires c.Ok()
    ensures Slot(c, None) == None
  {
  }

  /** Over every run, the hardware and the cycle-level model, given the same inputs, are
      ready alike and show the same result, every cycle. */
  lemma CLAgrees(c: Config, ins: seq<Input>, take: bool)
    requires c.Ok() && After(c, ins).At?
    ensures var (p, cl) := (After(c, ins).p, AfterCL(c, ins));
      |p| == |cl| == c.nstages && Rdy(p, take, 0) == Rdy(cl, take, 0) && PeekRegisters(p) == PeekSlots(c, cl)
  {
    var calls := SameCalls(c, ins);
    RegistersMatchCL(c, After(c, ins).p, calls);
    assert Rdy(After(c, ins).p, take, 0) == Rdy(Slots(c, calls), take, 0);
  }
}
