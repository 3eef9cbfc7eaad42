/** A pipeline that cannot be killed, wrapped so that it can.

    The inner pipeline moves its messages as it likes, in order.  Next to it runs a row of
    tracking managers, one header per stage, which shift whenever they can; a killed header
    is marked dead rather than dropped, and its message is swallowed at the end. */
module PipelineWrapper {
  import opened Options
  import opened KillUnit

  /** `uid` tells messages and headers apart; only `mask` and `dead` change on the way. */
  datatype Header = Header(uid: nat, mask: set<nat>, dead: bool)

  datatype Wrapper = Wrapper(pipe: seq<Option<nat>>, vvms: seq<Option<Header>>)

  /** One cycle: the broadcast, which inner stages want to advance, what is offered to the
      inner pipeline, whether it accepts, whether the consumer takes. */
  datatype Input = Input(kill: Kill, moves: seq<bool>, offer: Option<Header>, accepts: bool, take: bool)

  function Tracked(h: Header, k: Kill): Header { h.(mask := Out(h.mask, k), dead := h.dead || !Keep(h.mask, k)) }

  predicate Shaped(n: nat, w: Wrapper, in_: Input) {
    n > 0 && |w.pipe| == n && |w.vvms| == n && |in_.moves| == n
  }

  // ----- Signals ------------------------------------------------------------------------

  /** Something at the end of both rows, and its header alive. */
  predicate PeekReady(w: Wrapper, k: Kill)
    requires |w.pipe| == |w.vvms| > 0
  {
    var last := |w.pipe| - 1;
    w.pipe[last].Some? && w.vvms[last].Some? && !Tracked(w.vvms[last].value, k).dead
  }

  predicate Leaves(w: Wrapper, in_: Input)
    requires |w.pipe| == |w.vvms| > 0
  {
    var last := |w.pipe| - 1;
    w.pipe[last].Some? && w.vvms[last].Some? && (Tracked(w.vvms[last].value, in_.kill).dead || in_.take)
  }

  /** The inner pipeline, as it pleases: stage i hands its message on. */
  predicate Moves(n: nat, w: Wrapper, in_: Input, i: nat)
    requires Shaped(n, w, in_) && i < n
    decreases n - i
  {
    if i + 1 == n then Leaves(w, in_)
    else w.pipe[i].Some? && in_.moves[i] && (w.pipe[i + 1].None? || Moves(n, w, in_, i + 1))
  }

  predicate Enters(n: nat, w: Wrapper, in_: Input)
    requires Shaped(n, w, in_)
  {
    in_.offer.Some? && in_.accepts && (w.pipe[0].None? || Moves(n, w, in_, 0))
  }

  /** The managers shift whenever the next one is clear or clearing. */
  predicate Shifts(n: nat, w: Wrapper, in_: Input, i: nat)
    requires Shaped(n, w, in_) && i < n
    decreases n - i
  {
    if i + 1 == n then Leaves(w, in_)
    else w.vvms[i].Some? && (w.vvms[i + 1].None? || Shifts(n, w, in_, i + 1))
  }

  function NextPipe(n: nat, w: Wrapper, in_: Input, i: nat): Option<nat>
    requires Shaped(n, w, in_) && i < n
  {
    if i == 0 && Enters(n, w, in_) then Some(in_.offer.value.uid)
    else if i > 0 && Moves(n, w, in_, i - 1) then w.pipe[i - 1]
    else if Moves(n, w, in_, i) then None
    else w.pipe[i]
  }

  function NextVvm(n: nat, w: Wrapper, in_: Input, i: nat): Option<Header>
    requires Shaped(n, w, in_) && i < n
  {
    if i == 0 && Enters(n, w, in_) then Some(in_.offer.value.(dead := false))
    else if i > 0 && Shifts(n, w, in_, i - 1) && w.vvms[i - 1].Some? then Some(Tracked(w.vvms[i - 1].value, in_.kill))
    else if Shifts(n, w, in_, i) || w.vvms[i].None? then None
    else Some(Tracked(w.vvms[i].value, in_.kill))
  }

  function Next(n: nat, w: Wrapper, in_: Input): Wrapper
    requires Shaped(n, w, in_)
  {
    Wrapper(seq(n, i requires 0 <= i < n => NextPipe(n, w, in_, i)),
        seq(n, i requires 0 <= i < n => NextVvm(n, w, in_, i)))
  }

  // ----- Reading the rows from the output end -------------------------------------------

  ghost function MsgsFrom(pipe: seq<Option<nat>>, i: nat): seq<nat>
    requires i <= |pipe|
    decreases |pipe| - i
  {
    if i == |pipe| then [] else MsgsFrom(pipe, i + 1) + (if pipe[i].Some? then [pipe[i].value] else [])
  }

  ghost function HeadersFrom(vvms: seq<Option<Header>>, i: nat): seq<Header>
    requires i <= |vvms|
    decreases |vvms| - i
  {
    if i == |vvms| then [] else HeadersFrom(vvms, i + 1) + (if vvms[i].Some? then [vvms[i].value] else [])
  }

  ghost function Uids(hs: seq<Header>): (r: seq<nat>)
    ensures |r| == |hs|
  {
    seq<nat>(|hs|, i requires 0 <= i < |hs| => hs[i].uid)
  }

  /** No header is behind its message: read from the output end, the messages at or beyond
      any stage are the first of the headers there, and all in all they are the same. */
  ghost predicate Matched(w: Wrapper) {
    && |w.pipe| == |w.vvms|
    && (forall i :: 0 <= i <= |w.pipe| ==> MsgsFrom(w.pipe, i) <= Uids(HeadersFrom(w.vvms, i)))
    && MsgsFrom(w.pipe, 0) == Uids(HeadersFrom(w.vvms, 0))
  }

  // ----- One cycle ----------------------------------------------------------------------

  /** Where message and header counts agree, a moving message's header moves too. */
  lemma {:induction false} HeaderMovesToo(n: nat, w: Wrapper, in_: Input, i: nat)
    requires Shaped(n, w, in_) && Matched(w) && i < n && w.vvms[i].Some? && Moves(n, w, in_, i)
    requires i + 1 <= n && |MsgsFrom(w.pipe, i + 1)| == |HeadersFrom(w.vvms, i + 1)|
    ensures Shifts(n, w, in_, i)
    decreases n - i
  {
    if i + 1 < n && w.vvms[i + 1].Some? {
      assert MsgsFrom(w.pipe, i + 2) <= Uids(HeadersFrom(w.vvms, i + 2));
      assert |MsgsFrom(w.pipe, i + 2)| <= |HeadersFrom(w.vvms, i + 2)|;
      HeaderMovesToo(n, w, in_, i + 1);
    }
  }

  /** A header is never overwritten: when the inner pipeline takes something in, the first
      manager is clear or clearing. */
  lemma NeverOverwritten(n: nat, w: Wrapper, in_: Input)
    requires Shaped(n, w, in_) && Matched(w) && Enters(n, w, in_)
    ensures w.vvms[0].None? || Shifts(n, w, in_, 0)
  {
    assert MsgsFrom(w.pipe, 1) <= Uids(HeadersFrom(w.vvms, 1));
    if w.vvms[0].Some? {
      assert |MsgsFrom(w.pipe, 1)| <= |HeadersFrom(w.vvms, 1)|;
      HeaderMovesToo(n, w, in_, 0);
    }
  }

  /** What is ready at the end of the inner pipeline has its own header beside it. */
  lemma EndsPaired(n: nat, w: Wrapper)
    requires Matched(w) && |w.pipe| == n > 0 && w.pipe[n - 1].Some?
    ensures w.vvms[n - 1].Some? && w.vvms[n - 1].value.uid == w.pipe[n - 1].value
  {
    var hs := HeadersFrom(w.vvms, n - 1);
    assert MsgsFrom(w.pipe, n) == [] && HeadersFrom(w.vvms, n) == [];
    assert MsgsFrom(w.pipe, n - 1) <= Uids(hs);
    assert MsgsFrom(w.pipe, n - 1)[0] == Uids(hs)[0] == hs[0].uid;
  }

  ghost function Left(n: nat, w: Wrapper, in_: Input): nat
    requires Shaped(n, w, in_)
  {
    if Leaves(w, in_) then 1 else 0
  }

  ghost function PipeIn(n: nat, w: Wrapper, in_: Input, i: nat): seq<nat>
    requires Shaped(n, w, in_) && i < n
  {
    if i == 0 then (if Enters(n, w, in_) then [in_.offer.value.uid] else [])
    else if Moves(n, w, in_, i - 1) then [w.pipe[i - 1].value] else []
  }

  ghost function VvmIn(n: nat, w: Wrapper, in_: Input, i: nat): seq<Header>
    requires Shaped(n, w, in_) && i < n
  {
    if i == 0 then (if Enters(n, w, in_) then [in_.offer.value.(dead := false)] else [])
    else if Shifts(n, w, in_, i - 1) then [Tracked(w.vvms[i - 1].value, in_.kill)] else []
  }

  ghost function AllTracked(hs: seq<Header>, k: Kill): (r: seq<Header>)
    ensures |r| == |hs| && Uids(r) == Uids(hs)
  {
    seq(|hs|, i requires 0 <= i < |hs| => Tracked(hs[i], k))
  }

  ghost function Cell<T>(c: Option<T>): seq<T> { if c.Some? then [c.value] else [] }

  lemma MsgsLast(pipe: seq<Option<nat>>, i: nat)
    requires i + 1 == |pipe|
    ensures MsgsFrom(pipe, i) == Cell(pipe[i])
  {
    assert MsgsFrom(pipe, i + 1) == [];
  }

  lemma HeadersLast(vvms: seq<Option<Header>>, i: nat)
    requires i + 1 == |vvms|
    ensures HeadersFrom(vvms, i) == Cell(vvms[i])
  {
    assert HeadersFrom(vvms, i + 1) == [];
  }

  lemma MovesHolds(n: nat, w: Wrapper, in_: Input, i: nat)
    requires Shaped(n, w, in_) && i < n
    ensures Moves(n, w, in_, i) ==> w.pipe[i].Some?
    ensures Shifts(n, w, in_, i) ==> w.vvms[i].Some?
  {
  }

  lemma MovesInto(n: nat, w: Wrapper, in_: Input, i: nat)
    requires Shaped(n, w, in_) && 0 < i < n
    ensures Moves(n, w, in_, i - 1) ==> w.pipe[i - 1].Some? && (w.pipe[i].None? || Moves(n, w, in_, i))
    ensures Shifts(n, w, in_, i - 1) ==> w.vvms[i - 1].Some? && (w.vvms[i].None? || Shifts(n, w, in_, i))
  {
  }

  /** One stage: what it holds, less what moves on, plus what moves in. */
  lemma PipeCell(n: nat, w: Wrapper, in_: Input, i: nat)
    requires Shaped(n, w, in_) && i < n
    ensures Moves(n, w, in_, i) ==> w.pipe[i].Some?
    ensures (if Moves(n, w, in_, i) then [] else Cell(w.pipe[i])) + PipeIn(n, w, in_, i) == Cell(NextPipe(n, w, in_, i))
  {
    hide Moves;
    if i > 0 { MovesInto(n, w, in_, i); }
    MovesHolds(n, w, in_, i);
    var (a, b) := (if Moves(n, w, in_, i) then [] else Cell(w.pipe[i]), PipeIn(n, w, in_, i));
    assert a == [] || b == [];
    assert Cell(NextPipe(n, w, in_, i)) == if a == [] then b else a;
    hide *;
    assert a + b == if a == [] then b else a;
  }

  lemma VvmCell(n: nat, w: Wrapper, in_: Input, i: nat)
    requires Shaped(n, w, in_) && Matched(w) && i < n
    ensures Shifts(n, w, in_, i) ==> w.vvms[i].Some?
    ensures Stays(n, w, in_, i) + VvmIn(n, w, in_, i) == Cell(NextVvm(n, w, in_, i))
  {
    hide Matched, Enters, Moves, Tracked, Shifts;
    if i == 0 && Enters(n, w, in_) { NeverOverwritten(n, w, in_); }
    if i > 0 { MovesInto(n, w, in_, i); }
    MovesHolds(n, w, in_, i);
    var (a, b) := (Stays(n, w, in_, i), VvmIn(n, w, in_, i));
    assert a == [] || b == [];
    assert Cell(NextVvm(n, w, in_, i)) == if a == [] then b else a;
    hide *;
    assert a + b == if a == [] then b else a;
  }

  /** What stage i keeps of its own. */
  ghost function Stays(n: nat, w: Wrapper, in_: Input, i: nat): seq<Header>
    requires Shaped(n, w, in_) && i < n
  {
    if Shifts(n, w, in_, i) || w.vvms[i].None? then [] else [Tracked(w.vvms[i].value, in_.kill)]
  }

  lemma DropConcat<T>(a: seq<T>, b: seq<T>, c: seq<T>, t: nat)
    requires t <= |a|
    ensures (a + b)[t..] + c == a[t..] + (b + c)
  {
  }

  /** The messages from stage i on: the taken one goes, the one moving in joins. */
  lemma {:induction false} MsgsStep(n: nat, w: Wrapper, in_: Input, i: nat)
    requires Shaped(n, w, in_) && i < n
    ensures Left(n, w, in_) <= |MsgsFrom(w.pipe, i)|
    ensures MsgsFrom(Next(n, w, in_).pipe, i) == MsgsFrom(w.pipe, i)[Left(n, w, in_)..] + PipeIn(n, w, in_, i)
    decreases n - i
  {
    var (w', t) := (Next(n, w, in_), Left(n, w, in_));
    assert w'.pipe[i] == NextPipe(n, w, in_, i);
    PipeCell(n, w, in_, i);
    if i + 1 == n {
      MsgsLast(w.pipe, i);
      MsgsLast(w'.pipe, i);
    } else {
      hide NextPipe, Enters, Next;
      MsgsStep(n, w, in_, i + 1);
      var (m, c) := (MsgsFrom(w.pipe, i + 1), Cell(w.pipe[i]));
      DropConcat(m, c, PipeIn(n, w, in_, i), t);
      if Moves(n, w, in_, i) { assert PipeIn(n, w, in_, i + 1) == c; }
    }
  }

  lemma TrackedConcat(a: seq<Header>, b: seq<Header>, k: Kill)
    ensures AllTracked(a + b, k) == AllTracked(a, k) + AllTracked(b, k)
  {
  }

  lemma TrackedOne(h: Header, k: Kill)
    ensures AllTracked([h], k) == [Tracked(h, k)] && AllTracked([], k) == []
  {
  }

  /** Whatever stage i hands on and keeps is what it held. */
  lemma HandedOn(n: nat, w: Wrapper, in_: Input, i: nat)
    requires Shaped(n, w, in_) && i + 1 < n
    ensures VvmIn(n, w, in_, i + 1) + Stays(n, w, in_, i) == AllTracked(Cell(w.vvms[i]), in_.kill)
  {
    assert Shifts(n, w, in_, i) ==> w.vvms[i].Some?;
    hide Shifts, Tracked;
    if w.vvms[i].Some? { TrackedOne(w.vvms[i].value, in_.kill); }
  }

  lemma Regroup(m: seq<Header>, c: seq<Header>, x: seq<Header>, y: seq<Header>, z: seq<Header>, t: nat, k: Kill)
    requires t <= |m| && x + y == AllTracked(c, k)
    ensures (AllTracked(m[t..], k) + x) + (y + z) == AllTracked((m + c)[t..], k) + z
  {
    TrackedConcat(m[t..], c, k);
    assert (m + c)[t..] == m[t..] + c;
    hide AllTracked;
    var a := AllTracked(m[t..], k);
    assert (a + x) + (y + z) == (a + (x + y)) + z;
  }

  lemma {:induction false} HeadersStep(n: nat, w: Wrapper, in_: Input, i: nat)
    requires Shaped(n, w, in_) && Matched(w) && i < n
    ensures Left(n, w, in_) <= |HeadersFrom(w.vvms, i)|
    ensures HeadersFrom(Next(n, w, in_).vvms, i)
         == AllTracked(HeadersFrom(w.vvms, i)[Left(n, w, in_)..], in_.kill) + VvmIn(n, w, in_, i)
    decreases n - i
  {
    hide Matched, Shifts, Moves, Tracked, HeadersFrom, NextVvm, AllTracked, VvmIn;
    var w' := Next(n, w, in_);
    assert w'.vvms[i] == NextVvm(n, w, in_, i) && |w'.vvms| == n;
    hide Next;
    VvmCell(n, w, in_, i);
    if i + 1 == n {
      HeadersLast(w.vvms, i);
      HeadersLast(w'.vvms, i);
      LastStays(n, w, in_);
      hide *;
    } else {
      HeadersStep(n, w, in_, i + 1);
      HandedOn(n, w, in_, i);
      HeadersMore(w.vvms, i);
      HeadersMore(w'.vvms, i);
      var (m, c, t) := (HeadersFrom(w.vvms, i + 1), Cell(w.vvms[i]), Left(n, w, in_));
      var (x, y, z) := (VvmIn(n, w, in_, i + 1), Stays(n, w, in_, i), VvmIn(n, w, in_, i));
      hide *;
      Regroup(m, c, x, y, z, t, in_.kill);
    }
  }

  lemma HeadersMore(vvms: seq<Option<Header>>, i: nat)
    requires i < |vvms|
    ensures HeadersFrom(vvms, i) == HeadersFrom(vvms, i + 1) + Cell(vvms[i])
  {
  }

  lemma LastStays(n: nat, w: Wrapper, in_: Input)
    requires Shaped(n, w, in_)
    ensures Left(n, w, in_) <= |Cell(w.vvms[n - 1])|
    ensures Stays(n, w, in_, n - 1) == AllTracked(Cell(w.vvms[n - 1])[Left(n, w, in_)..], in_.kill)
  {
    var c := Cell(w.vvms[n - 1]);
    assert c[0..] == c;
    assert Shifts(n, w, in_, n - 1) == Leaves(w, in_);
    if w.vvms[n - 1].Some? {
      TrackedOne(w.vvms[n - 1].value, in_.kill);
      assert c[1..] == [];
    }
    hide Tracked;
  }

  lemma UidsConcat(a: seq<Header>, b: seq<Header>)
    ensures Uids(a + b) == Uids(a) + Uids(b)
  {
  }

  lemma UidsDrop(a: seq<Header>, t: nat)
    requires t <= |a|
    ensures Uids(a[t..]) == Uids(a)[t..]
  {
  }

  /** Counts grow by at most one per stage, so where a message moves in past its header's
      count, the header moves in with it. */
  lemma PrefixKept(n: nat, w: Wrapper, in_: Input, i: nat)
    requires Shaped(n, w, in_) && Matched(w) && 0 < i < n
    ensures MsgsFrom(Next(n, w, in_).pipe, i) <= Uids(HeadersFrom(Next(n, w, in_).vvms, i))
  {
    var (m, h, t) := (MsgsFrom(w.pipe, i), HeadersFrom(w.vvms, i), Left(n, w, in_));
    MsgsStep(n, w, in_, i);
    HeadersStep(n, w, in_, i);
    assert m <= Uids(h) && MsgsFrom(w.pipe, i - 1) <= Uids(HeadersFrom(w.vvms, i - 1));
    UidsDrop(h, t);
    UidsConcat(AllTracked(h[t..], in_.kill), VvmIn(n, w, in_, i));
    if Moves(n, w, in_, i - 1) {
      assert MsgsFrom(w.pipe, i - 1) == m + [w.pipe[i - 1].value];
      if |m| == |h| {
        assert w.vvms[i - 1].Some?;
        HeaderMovesToo(n, w, in_, i - 1);
        assert Uids(HeadersFrom(w.vvms, i - 1))[|m|] == w.vvms[i - 1].value.uid;
      } else {
        assert Uids(HeadersFrom(w.vvms, i - 1))[..|h|] == Uids(h);
        assert m + [w.pipe[i - 1].value] <= Uids(h);
      }
    }
  }

  lemma MatchedKept(n: nat, w: Wrapper, in_: Input)
    requires Shaped(n, w, in_) && Matched(w)
    ensures Matched(Next(n, w, in_))
  {
    var (w', t) := (Next(n, w, in_), Left(n, w, in_));
    forall i | 0 < i < n ensures MsgsFrom(w'.pipe, i) <= Uids(HeadersFrom(w'.vvms, i)) { PrefixKept(n, w, in_, i); }
    MsgsStep(n, w, in_, 0);
    HeadersStep(n, w, in_, 0);
    UidsDrop(HeadersFrom(w.vvms, 0), t);
    UidsConcat(AllTracked(HeadersFrom(w.vvms, 0)[t..], in_.kill), VvmIn(n, w, in_, 0));
    assert MsgsFrom(w'.pipe, n) == [] && HeadersFrom(w'.vvms, n) == [];
  }

  // ----- Runs ---------------------------------------------------------------------------

  /** A run: what entered, what left, and what of that reached the consumer. */
  datatype Outcome = Stuck | At(w: Wrapper, entered: seq<nat>, left: seq<nat>, out: seq<nat>)

  ghost function Step(n: nat, o: Outcome, in_: Input): Outcome
    requires o.At? && Shaped(n, o.w, in_)
  {
    var last := n - 1;
    At(Next(n, o.w, in_),
       o.entered + (if Enters(n, o.w, in_) then [in_.offer.value.uid] else []),
       o.left + (if Leaves(o.w, in_) then [o.w.pipe[last].value] else []),
       o.out + (if Leaves(o.w, in_) && PeekReady(o.w, in_.kill) then [o.w.pipe[last].value] else []))
  }

  ghost function After(n: nat, ins: seq<Input>): Outcome {
    if |ins| == 0 then At(Wrapper(seq(n, _ => None), seq(n, _ => None)), [], [], [])
    else match After(n, ins[..|ins| - 1])
      case Stuck => Stuck
      case At(w, a, b, c) =>
        if Shaped(n, w, ins[|ins| - 1]) then Step(n, At(w, a, b, c), ins[|ins| - 1]) else Stuck
  }

  /** Any cycle may follow, whatever the inner pipeline and both sides do. */
  lemma {:induction false} RunsOn(n: nat, ins: seq<Input>)
    requires n > 0 && forall i :: 0 <= i < |ins| ==> |ins[i].moves| == n
    ensures After(n, ins).At? && |After(n, ins).w.pipe| == |After(n, ins).w.vvms| == n
  {
    if |ins| > 0 { RunsOn(n, ins[..|ins| - 1]); }
    hide Enters, Leaves, PeekReady, NextPipe, NextVvm;
  }

  lemma {:induction false} EmptyRows(n: nat, i: nat)
    requires i <= n
    ensures MsgsFrom(seq(n, _ => None), i) == [] && HeadersFrom(seq(n, _ => None), i) == []
    decreases n - i
  {
    if i < n { EmptyRows(n, i + 1); }
  }

  /** Over every run of every inner pipeline, messages leave in the order they entered, none
      lost or doubled, and headers and messages stay matched. */
  lemma {:induction false} RunMatched(n: nat, ins: seq<Input>)
    requires n > 0 && After(n, ins).At?
    ensures var o := After(n, ins);
      |o.w.pipe| == n && Matched(o.w) && o.left + MsgsFrom(o.w.pipe, 0) == o.entered
  {
    if |ins| == 0 {
      EmptyRows(n, 0);
      EmptyMatched(n);
    } else {
      RunMatched(n, ins[..|ins| - 1]);
      hide Matched, Shaped, Step, MsgsFrom;
      StepMatched(n, After(n, ins[..|ins| - 1]), ins[|ins| - 1]);
    }
  }

  lemma StepMatched(n: nat, o: Outcome, in_: Input)
    requires o.At? && Shaped(n, o.w, in_) && Matched(o.w) && o.left + MsgsFrom(o.w.pipe, 0) == o.entered
    ensures var o' := Step(n, o, in_);
      |o'.w.pipe| == n && Matched(o'.w) && o'.left + MsgsFrom(o'.w.pipe, 0) == o'.entered
  {
    hide Matched, Enters, Leaves, PeekReady, Moves, MsgsFrom;
    MatchedKept(n, o.w, in_);
    NextLength(n, o.w, in_);
    MsgsStep(n, o.w, in_, 0);
    FirstOut(n, o.w, in_);
    var (o', m, t) := (Step(n, o, in_), MsgsFrom(o.w.pipe, 0), Left(n, o.w, in_));
    var m' := MsgsFrom(o'.w.pipe, 0);
    assert o'.left == o.left + m[..t] && m' == m[t..] + PipeIn(n, o.w, in_, 0)
        && o'.entered == o.entered + PipeIn(n, o.w, in_, 0);
    hide *;
    assert m == m[..t] + m[t..];
  }

  lemma NextLength(n: nat, w: Wrapper, in_: Input)
    requires Shaped(n, w, in_)
    ensures |Next(n, w, in_).pipe| == n
  {
  }

  lemma EmptyMatched(n: nat)
    ensures Matched(Wrapper(seq(n, _ => None), seq(n, _ => None)))
  {
    var w := Wrapper(seq(n, _ => None), seq(n, _ => None));
    forall i | 0 <= i <= n ensures MsgsFrom(w.pipe, i) <= Uids(HeadersFrom(w.vvms, i)) { EmptyRows(n, i); }
    EmptyRows(n, 0);
  }

  lemma {:induction false} FirstMsg(pipe: seq<Option<nat>>, i: nat)
    requires i < |pipe| && pipe[|pipe| - 1].Some?
    ensures |MsgsFrom(pipe, i)| > 0 && MsgsFrom(pipe, i)[0] == pipe[|pipe| - 1].value
    decreases |pipe| - i
  {
    if i + 1 < |pipe| { FirstMsg(pipe, i + 1); } else { assert MsgsFrom(pipe, i + 1) == []; }
  }

  lemma FirstOut(n: nat, w: Wrapper, in_: Input)
    requires Shaped(n, w, in_)
    ensures Left(n, w, in_) <= |MsgsFrom(w.pipe, 0)|
    ensures MsgsFrom(w.pipe, 0)[..Left(n, w, in_)] == if Leaves(w, in_) then [w.pipe[n - 1].value] else []
  {
    if Leaves(w, in_) { FirstMsg(w.pipe, 0); }
  }

  // ----- What becomes of a header -------------------------------------------------------

  /** A header after every broadcast of some cycles. */
  ghost function Fate(h: Header, ins: seq<Input>): Header {
    if |ins| == 0 then h else Tracked(Fate(h, ins[..|ins| - 1]), ins[|ins| - 1].kill)
  }

  lemma {:induction false} FateUid(h: Header, ins: seq<Input>)
    ensures Fate(h, ins).uid == h.uid
  {
    if |ins| > 0 { FateUid(h, ins[..|ins| - 1]); }
  }

  /** Every id cleared by some broadcast is gone from the mask, and no other. */
  lemma {:induction false} FateMask(h: Header, ins: seq<Input>, x: nat)
    ensures x in Fate(h, ins).mask <==> x in h.mask && forall u :: 0 <= u < |ins| ==> x !in ins[u].kill.clear
  {
    if |ins| > 0 {
      var (m, pre) := (|ins| - 1, ins[..|ins| - 1]);
      FateMask(h, pre, x);
      assert forall u :: 0 <= u < m ==> pre[u] == ins[u];
    }
  }

  /** The broadcast of cycle u is forced or meets the mask the header has by then. */
  ghost predicate HitAt(h: Header, ins: seq<Input>, u: nat)
    requires u < |ins|
  {
    ins[u].kill.force || Fate(h, ins[..u]).mask * ins[u].kill.kill != {}
  }

  lemma HitStep(h: Header, ins: seq<Input>)
    requires |ins| > 0
    ensures var m := |ins| - 1;
      forall u :: 0 <= u < |ins| ==>
          HitAt(h, ins, u) == (if u == m then !Keep(Fate(h, ins[..m]).mask, ins[m].kill) else HitAt(h, ins[..m], u))
  {
    var m := |ins| - 1;
    forall u | 0 <= u < m ensures HitAt(h, ins, u) == HitAt(h, ins[..m], u) {
      assert ins[..m][..u] == ins[..u];
    }
  }

  /** Dead means some broadcast hit the mask the header had by then. */
  lemma {:induction false} FateDead(h: Header, ins: seq<Input>)
    ensures Fate(h, ins).dead <==> h.dead || exists u :: 0 <= u < |ins| && HitAt(h, ins, u)
  {
    if |ins| > 0 {
      var (m, pre) := (|ins| - 1, ins[..|ins| - 1]);
      FateDead(h, pre);
      HitStep(h, ins);
      assert Fate(h, ins).dead <==> Fate(h, pre).dead || HitAt(h, ins, m);
      hide HitAt, Fate;
      if u :| 0 <= u < m && HitAt(h, pre, u) { assert HitAt(h, ins, u); }
      if u :| 0 <= u < m && HitAt(h, ins, u) { assert HitAt(h, pre, u); }
    }
  }

  ghost predicate Entered(h: Header, ins: seq<Input>, t: nat) {
    t < |ins| && ins[t].offer.Some? && h == Fate(ins[t].offer.value.(dead := false), ins[t + 1..])
  }

  ghost predicate Fates(hs: seq<Header>, born: seq<nat>, ins: seq<Input>) {
    |born| == |hs| && forall j :: 0 <= j < |hs| ==> Entered(hs[j], ins, born[j])
  }

  lemma EnteredStep(h: Header, ins: seq<Input>, in_: Input, t: nat)
    requires Entered(h, ins, t)
    ensures Entered(Tracked(h, in_.kill), ins + [in_], t)
  {
    var all := ins + [in_];
    assert all[t] == ins[t];
    assert all[t + 1..][..|all[t + 1..]| - 1] == ins[t + 1..];
  }

  lemma FatesStep(hs: seq<Header>, born: seq<nat>, ins: seq<Input>, in_: Input, t: nat, offered: bool)
    requires Fates(hs, born, ins) && t <= |hs| && (offered ==> in_.offer.Some?)
    ensures Fates(AllTracked(hs[t..], in_.kill) + (if offered then [in_.offer.value.(dead := false)] else []),
                  born[t..] + (if offered then [|ins|] else []), ins + [in_])
  {
    var hs' := AllTracked(hs[t..], in_.kill);
    forall j | 0 <= j < |hs'| ensures Entered(hs'[j], ins + [in_], born[t..][j]) {
      EnteredStep(hs[t + j], ins, in_, born[t + j]);
    }
    if offered {
      assert (ins + [in_])[|ins| + 1..] == [];
      assert Entered(in_.offer.value.(dead := false), ins + [in_], |ins|);
    }
    hide Entered, Tracked;
  }

  // ----- When things enter and leave ----------------------------------------------------

  /** The cycles in which something entered. */
  ghost function EnterTimes(n: nat, ins: seq<Input>): seq<nat>
    requires After(n, ins).At?
  {
    if |ins| == 0 then [] else
      var (pre, in_) := (ins[..|ins| - 1], ins[|ins| - 1]);
      EnterTimes(n, pre) + (if Enters(n, After(n, pre).w, in_) then [|pre|] else [])
  }

  /** The cycles in which something left. */
  ghost function LeaveTimes(n: nat, ins: seq<Input>): seq<nat>
    requires After(n, ins).At?
  {
    if |ins| == 0 then [] else
      var (pre, in_) := (ins[..|ins| - 1], ins[|ins| - 1]);
      LeaveTimes(n, pre) + (if Leaves(After(n, pre).w, in_) then [|pre|] else [])
  }

  lemma {:induction false} RunTimes(n: nat, ins: seq<Input>)
    requires n > 0 && After(n, ins).At?
    ensures |EnterTimes(n, ins)| == |After(n, ins).entered| && |LeaveTimes(n, ins)| == |After(n, ins).left|
    ensures |After(n, ins).left| <= |After(n, ins).entered|
  {
    RunMatched(n, ins);
    hide MsgsFrom, Matched, Enters, Leaves, PeekReady, Next;
    if |ins| > 0 { RunTimes(n, ins[..|ins| - 1]); }
  }

  lemma Requeue(es: seq<nat>, k: nat, t: nat, last: seq<nat>)
    requires k + t <= |es|
    ensures (es + last)[k + t..] == es[k..][t..] + last
  {
  }

  /** Over every run, each header in the row is the one offered when its message entered,
      with exactly the broadcasts since then applied, however often it shifted. */
  lemma {:induction false} RunFates(n: nat, ins: seq<Input>)
    requires n > 0 && After(n, ins).At?
    ensures |After(n, ins).left| <= |EnterTimes(n, ins)|
    ensures Fates(HeadersFrom(After(n, ins).w.vvms, 0), EnterTimes(n, ins)[|After(n, ins).left|..], ins)
  {
    RunTimes(n, ins);
    if |ins| == 0 {
      EmptyRows(n, 0);
    } else {
      var (pre, in_) := (ins[..|ins| - 1], ins[|ins| - 1]);
      RunFates(n, pre);
      RunMatched(n, pre);
      hide Matched, Fates, HeadersFrom, Enters, Step, Shaped;
      FatesNext(n, After(n, pre), in_, EnterTimes(n, pre), pre);
      assert pre + [in_] == ins;
    }
  }

  lemma FatesNext(n: nat, o: Outcome, in_: Input, es: seq<nat>, ins: seq<Input>)
    requires o.At? && Shaped(n, o.w, in_) && Matched(o.w) && |o.left| <= |es|
    requires Fates(HeadersFrom(o.w.vvms, 0), es[|o.left|..], ins)
    ensures var (o', es') := (Step(n, o, in_), es + (if Enters(n, o.w, in_) then [|ins|] else []));
      |o'.left| <= |es'| && Fates(HeadersFrom(o'.w.vvms, 0), es'[|o'.left|..], ins + [in_])
  {
    hide Matched, Moves, Shifts, HeadersFrom, Leaves, Enters, PeekReady, Next, Entered;
    HeadersStep(n, o.w, in_, 0);
    var (t, enters, hs) := (Left(n, o.w, in_), Enters(n, o.w, in_), HeadersFrom(o.w.vvms, 0));
    EntersOffered(n, o.w, in_);
    var last := if enters then [|ins|] else [];
    assert VvmIn(n, o.w, in_, 0) == if enters then [in_.offer.value.(dead := false)] else [];
    assert t <= |hs| == |es| - |o.left| && |Step(n, o, in_).left| == |o.left| + t;
    hide *;
    FatesStep(hs, es[|o.left|..], ins, in_, t, enters);
    Requeue(es, |o.left|, t, last);
  }

  lemma EntersOffered(n: nat, w: Wrapper, in_: Input)
    requires Shaped(n, w, in_)
    ensures Enters(n, w, in_) ==> in_.offer.Some?
  {
  }

  lemma {:induction false} FirstHeader(vvms: seq<Option<Header>>, i: nat)
    requires i < |vvms| && vvms[|vvms| - 1].Some?
    ensures |HeadersFrom(vvms, i)| > 0 && HeadersFrom(vvms, i)[0] == vvms[|vvms| - 1].value
    decreases |vvms| - i
  {
    if i + 1 < |vvms| { FirstHeader(vvms, i + 1); } else { assert HeadersFrom(vvms, i + 1) == []; }
  }

  /** Nothing broadcast after cycle e, up to and including cycle g, kills what was offered
      in cycle e. */
  ghost predicate Lived(ins: seq<Input>, e: nat, g: nat) {
    e < |ins| && ins[e].offer.Some? && e < g < |ins|
        && !Fate(ins[e].offer.value.(dead := false), ins[e + 1..g + 1]).dead
  }

  /** Whatever the inner pipeline has ready is offered to the consumer exactly when no
      broadcast since it entered, this cycle's included, has killed it; else it is eaten. */
  lemma SurvivorsOnly(n: nat, ins: seq<Input>, in_: Input)
    requires n > 0 && After(n, ins).At? && Shaped(n, After(n, ins).w, in_)
    requires After(n, ins).w.pipe[n - 1].Some?
    ensures var (o, all, es) := (After(n, ins), ins + [in_], EnterTimes(n, ins));
      && |o.left| < |es|
      && var t := es[|o.left|];
      && t < |ins| && ins[t].offer.Some? && ins[t].offer.value.uid == o.w.pipe[n - 1].value
      && (PeekReady(o.w, in_.kill) <==> Lived(all, t, |ins|))
      && (Leaves(o.w, in_) <==> !Lived(all, t, |ins|) || in_.take)
  {
    hide Matched, HeadersFrom, After, Fate, Tracked, MsgsFrom, EnterTimes;
    var (o, all) := (After(n, ins), ins + [in_]);
    RunMatched(n, ins);
    EndsPaired(n, o.w);
    RunFates(n, ins);
    FirstHeader(o.w.vvms, 0);
    var (h, t) := (o.w.vvms[n - 1].value, EnterTimes(n, ins)[|o.left|]);
    assert EnterTimes(n, ins)[|o.left|..][0] == t;
    assert Entered(h, ins, t);
    FateUid(ins[t].offer.value.(dead := false), ins[t + 1..]);
    EnteredStep(h, ins, in_, t);
    assert all[t] == ins[t] && all[t + 1..|ins| + 1] == all[t + 1..];
  }

  /** The first k of what left that nothing killed while it was inside. */
  ghost function Kept(left: seq<nat>, es: seq<nat>, gs: seq<nat>, ins: seq<Input>, k: nat): seq<nat>
    requires k <= |left| && k <= |es| && k <= |gs|
  {
    if k == 0 then []
    else Kept(left, es, gs, ins, k - 1) + (if Lived(ins, es[k - 1], gs[k - 1]) then [left[k - 1]] else [])
  }

  lemma {:induction false} KeptSame(left: seq<nat>, es: seq<nat>, gs: seq<nat>, ins: seq<Input>,
                                    left': seq<nat>, es': seq<nat>, gs': seq<nat>, ins': seq<Input>, k: nat)
    requires k <= |left| && k <= |es| && k <= |gs| && left <= left' && es <= es' && gs <= gs' && ins <= ins'
    requires forall i :: 0 <= i < k ==> gs[i] < |ins|
    ensures Kept(left, es, gs, ins, k) == Kept(left', es', gs', ins', k)
  {
    if k > 0 {
      KeptSame(left, es, gs, ins, left', es', gs', ins', k - 1);
      var (e, g) := (es[k - 1], gs[k - 1]);
      if e < g { assert ins[e + 1..g + 1] == ins'[e + 1..g + 1] && ins[e] == ins'[e]; }
      hide Fate;
    }
  }

  lemma {:induction false} LeaveTimesBefore(n: nat, ins: seq<Input>)
    requires After(n, ins).At?
    ensures forall i :: 0 <= i < |LeaveTimes(n, ins)| ==> LeaveTimes(n, ins)[i] < |ins|
  {
    hide Leaves;
    if |ins| > 0 { LeaveTimesBefore(n, ins[..|ins| - 1]); }
  }

  lemma KeptOne(left: seq<nat>, x: nat, es: seq<nat>, es': seq<nat>, gs: seq<nat>, g: nat, ins: seq<Input>,
      ins': seq<Input>)
    requires |gs| == |left| < |es| && es <= es' && ins <= ins' && forall i :: 0 <= i < |gs| ==> gs[i] < |ins|
    ensures Kept(left + [x], es', gs + [g], ins', |left| + 1)
         == Kept(left, es, gs, ins, |left|) + (if Lived(ins', es[|left|], g) then [x] else [])
  {
    hide Lived;
    KeptSame(left, es, gs, ins, left + [x], es', gs + [g], ins', |left|);
  }

  lemma KeptNext(n: nat, o: Outcome, in_: Input, es: seq<nat>, es': seq<nat>, gs: seq<nat>, ins: seq<Input>)
    requires o.At? && Shaped(n, o.w, in_) && |gs| == |o.left| <= |es| && es <= es'
    requires (forall i :: 0 <= i < |gs| ==> gs[i] < |ins|) && o.out == Kept(o.left, es, gs, ins, |o.left|)
    requires Leaves(o.w, in_) ==> o.w.pipe[n - 1].Some?
    requires Leaves(o.w, in_) ==>
      |o.left| < |es| && (PeekReady(o.w, in_.kill) <==> Lived(ins + [in_], es[|o.left|], |ins|))
    ensures var (o', gs') := (Step(n, o, in_), gs + (if Leaves(o.w, in_) then [|ins|] else []));
      |gs'| == |o'.left| <= |es'| && o'.out == Kept(o'.left, es', gs', ins + [in_], |o'.left|)
  {
    hide Enters, Leaves, PeekReady, Next, Lived, Kept;
    var (leaves, x) := (Leaves(o.w, in_), if Leaves(o.w, in_) then o.w.pipe[n - 1].value else 0);
    var (left', out') := (Step(n, o, in_).left, Step(n, o, in_).out);
    assert left' == o.left + (if leaves then [x] else []);
    assert out' == o.out + (if leaves && PeekReady(o.w, in_.kill) then [x] else []);
    var peek := PeekReady(o.w, in_.kill);
    hide *;
    KeptMore(o.left, o.out, x, leaves, peek, es, es', gs, |ins|, ins, ins + [in_]);
  }

  lemma KeptMore(left: seq<nat>, out: seq<nat>, x: nat, leaves: bool, peek: bool,
                 es: seq<nat>, es': seq<nat>, gs: seq<nat>, g: nat, ins: seq<Input>, ins': seq<Input>)
    requires |gs| == |left| <= |es| && es <= es' && ins <= ins' && forall i :: 0 <= i < |gs| ==> gs[i] < |ins|
    requires out == Kept(left, es, gs, ins, |left|)
    requires leaves ==> |left| < |es| && (peek <==> Lived(ins', es[|left|], g))
    ensures var (left', gs') := (left + (if leaves then [x] else []), gs + (if leaves then [g] else []));
      && |gs'| == |left'| <= |es'|
      && out + (if leaves && peek then [x] else []) == Kept(left', es', gs', ins', |left'|)
  {
    hide Lived, Kept;
    if leaves {
      KeptOne(left, x, es, es', gs, g, ins, ins');
    } else {
      assert left + [] == left && gs + [] == gs && out + [] == out;
      KeptSame(left, es, gs, ins, left, es', gs, ins', |left|);
    }
  }

  /** Over every run, what reaches the consumer is, in order, exactly what left the inner
      pipeline without being killed between entering and leaving. */
  lemma {:induction false} SurvivorsOut(n: nat, ins: seq<Input>)
    requires n > 0 && After(n, ins).At?
    ensures var (o, es, gs) := (After(n, ins), EnterTimes(n, ins), LeaveTimes(n, ins));
      && |gs| == |o.left| <= |es|
      && o.out == Kept(o.left, es, gs, ins, |o.left|)
  {
    if |ins| > 0 {
      var (pre, in_) := (ins[..|ins| - 1], ins[|ins| - 1]);
      assert pre + [in_] == ins;
      hide *;
      Extended(n, pre, in_);
      SurvivorsOut(n, pre);
      LeaveTimesBefore(n, pre);
      var (o, es, es', gs) := (After(n, pre), EnterTimes(n, pre), EnterTimes(n, ins), LeaveTimes(n, pre));
      if Leaves(o.w, in_) { LeavesFull(n, o.w, in_); SurvivorsOnly(n, pre, in_); }
      KeptNext(n, o, in_, es, es', gs, pre);
    } else {
      hide Lived, EnterTimes;
    }
  }

  lemma Extended(n: nat, pre: seq<Input>, in_: Input)
    requires After(n, pre + [in_]).At?
    ensures var (o, ins) := (After(n, pre), pre + [in_]);
      && o.At? && Shaped(n, o.w, in_) && After(n, ins) == Step(n, o, in_)
      && EnterTimes(n, pre) <= EnterTimes(n, ins)
      && LeaveTimes(n, ins) == LeaveTimes(n, pre) + (if Leaves(o.w, in_) then [|pre|] else [])
  {
    assert (pre + [in_])[..|pre|] == pre;
    hide Step, Enters, Leaves, Shaped;
  }

  /** Nothing is offered or taken when the inner pipeline has nothing ready. */
  lemma LeavesFull(n: nat, w: Wrapper, in_: Input)
    requires Shaped(n, w, in_)
    ensures Leaves(w, in_) || PeekReady(w, in_.kill) ==> w.pipe[n - 1].Some?
  {
  }

  lemma {:induction false} MovesUnoffered(n: nat, w: Wrapper, in_: Input, i: nat)
    requires Shaped(n, w, in_) && i < n
    ensures Moves(n, w, in_.(offer := None), i) == Moves(n, w, in_, i)
    decreases n - i
  {
    if i + 1 < n { MovesUnoffered(n, w, in_, i + 1); }
  }

  /** What is offered enters exactly when the inner pipeline accepts and its first stage
      would otherwise be left empty. */
  lemma EntersIff(n: nat, w: Wrapper, in_: Input)
    requires Shaped(n, w, in_)
    ensures Enters(n, w, in_) <==>
      in_.offer.Some? && in_.accepts && NextPipe(n, w, in_.(offer := None), 0).None?
  {
    MovesUnoffered(n, w, in_, 0);
    hide Moves;
  }

  class TrackingManagers {
    const n: nat
    const vvms: array<Option<Header>>

    constructor (n: nat)
      requires n > 0
      ensures this.n == n && fresh(vvms) && vvms.Length == n && forall i :: 0 <= i < n ==> vvms[i] == None
    {
      this.n := n;
      vvms := new Option<Header>[n](_ => None);
    }

    /** One clock tick beside an inner pipeline in the state `w.pipe`, of which only the
        ready signal and the take signal are wired here. */
    method Tick(ghost w: Wrapper, in_: Input, innerReady: bool, entering: bool)
      returns (peekReady: bool, innerTake: bool)
      requires vvms.Length == n && w.vvms == vvms[..] && Shaped(n, w, in_)
      requires innerReady == w.pipe[n - 1].Some? && entering == Enters(n, w, in_)
      modifies vvms
      ensures peekReady == PeekReady(w, in_.kill) && innerTake == Leaves(w, in_)
      ensures vvms[..] == Next(n, w, in_).vvms
    {
      var last := vvms[n - 1];
      var dead := last.Some? && Tracked(last.value, in_.kill).dead;
      peekReady := innerReady && last.Some? && !dead;
      innerTake := innerReady && last.Some? && (dead || in_.take);
      assert Shifts(n, w, in_, n - 1) == innerTake && (entering ==> in_.offer.Some?);
      hide Tracked, Enters, Leaves, PeekReady, Moves, Shifts, NextVvm;
      var i, shift := n, innerTake;
      while i > 0
        invariant 0 <= i <= n
        invariant i > 0 ==> shift == Shifts(n, w, in_, i - 1)
        invariant forall j :: 0 <= j < i ==> vvms[j] == w.vvms[j]
        invariant forall j :: i <= j < n ==> vvms[j] == NextVvm(n, w, in_, j)
      {
        i := i - 1;
        shift := ShiftInto(w, in_, i, shift, entering);
      }
      assert vvms[..] == Next(n, w, in_).vvms;
    }

    /** Writes manager i from the one before it; returns whether that one handed on. */
    method ShiftInto(ghost w: Wrapper, in_: Input, i: nat, shift: bool, entering: bool) returns (before: bool)
      requires i < n == vvms.Length && Shaped(n, w, in_)
      requires shift == Shifts(n, w, in_, i) && entering == Enters(n, w, in_) && (entering ==> in_.offer.Some?)
      requires forall j :: 0 <= j <= i ==> vvms[j] == w.vvms[j]
      modifies vvms
      ensures vvms[i] == NextVvm(n, w, in_, i) && forall j :: 0 <= j < n && j != i ==> vvms[j] == old(vvms[j])
      ensures i > 0 ==> before == Shifts(n, w, in_, i - 1)
    {
      hide Tracked, Enters;
      var own := vvms[i];
      before := false;
      if i == 0 {
        vvms[0] := if entering then Some(in_.offer.value.(dead := false))
                   else if shift || own.None? then None else Some(Tracked(own.value, in_.kill));
      } else {
        before := vvms[i - 1].Some? && (own.None? || shift);
        vvms[i] := if before then Some(Tracked(vvms[i - 1].value, in_.kill))
                   else if shift || own.None? then None else Some(Tracked(own.value, in_.kill));
      }
    }
  }
}
