/** The content-addressed memory behind the branch target buffer. */
module Cam {
  import opened Options
  import Words

  type Key = int
  type Value = int

  datatype Entry = Entry(key: Key, value: Value, valid: bool)

  const BLANK := Entry(0, 0, false)

  datatype State = State(entries: seq<Entry>, counter: nat) {
    ghost predicate Shaped() { |entries| > 0 && counter < |entries| }
  }

  datatype Write = Write(key: Key, remove: bool, value: Value)

  predicate Hits(e: Entry, key: Key) { e.key == key && e.valid }

  function Matches(entries: seq<Entry>, key: Key): (r: seq<bool>)
    ensures |r| == |entries|
  {
    seq(|entries|, i requires 0 <= i < |entries| => Hits(entries[i], key))
  }

  function Invalids(entries: seq<Entry>): (r: seq<bool>)
    ensures |r| == |entries|
  {
    seq(|entries|, i requires 0 <= i < |entries| => !entries[i].valid)
  }

  /** The highest set position among the first i. */
  function Highest(p: seq<bool>, i: nat): (r: Option<nat>)
    requires i <= |p|
    ensures r.Some? ==> r.value < i && p[r.value] && forall j :: r.value < j < i ==> !p[j]
    ensures r.None? ==> forall j :: 0 <= j < i ==> !p[j]
  {
    if i == 0 then None else if p[i - 1] then Some(i - 1) else Highest(p, i - 1)
  }

  function Top(p: seq<bool>): (r: Option<nat>)
    ensures r.Some? ==> r.value < |p| && p[r.value]
    ensures r.None? ==> forall j :: 0 <= j < |p| ==> !p[j]
  {
    Highest(p, |p|)
  }

  // ----- One call -----------------------------------------------------------------------

  function Lookup(s: State, key: Key): (Value, bool)
    requires |s.entries| > 0
  {
    var hit := Top(Matches(s.entries, key));
    if hit.Some? then (s.entries[hit.value].value, true) else (s.entries[0].value, false)
  }

  function Bump(counter: nat, n: nat): nat { if counter + 1 == n then 0 else counter + 1 }

  /** A write goes to the entry with its key, else, unless it removes, to the highest invalid
      entry, else it replaces the one the counter names. */
  function DoWrite(s: State, w: Write): (r: State)
    requires |s.entries| > 0 && s.counter < |s.entries|
    ensures |r.entries| == |s.entries| && r.counter < |s.entries|
  {
    var new_ := Entry(w.key, w.value, !w.remove);
    var (hit, hole) := (Top(Matches(s.entries, w.key)), Top(Invalids(s.entries)));
    if hit.Some? then s.(entries := s.entries[hit.value := new_])
    else if w.remove then s
    else if hole.Some? then s.(entries := s.entries[hole.value := new_])
    else State(s.entries[s.counter := new_], Bump(s.counter, |s.entries|))
  }

  function DoClear(s: State): State { s.(entries := seq(|s.entries|, _ => BLANK)) }

  datatype Input = Input(write: Option<Write>, clear: bool)

  /** One cycle: the write, then the clear. */
  function Cycle(s: State, in_: Input): (r: State)
    requires |s.entries| > 0 && s.counter < |s.entries|
    ensures |r.entries| == |s.entries| && r.counter < |s.entries|
  {
    var t := if in_.write.Some? then DoWrite(s, in_.write.value) else s;
    if in_.clear then DoClear(t) else t
  }

  // ----- Method by method -----------------------------------------------------------------

  class RandomReplacementCAMFL {
    var entries: seq<Entry>
    var overwriteCounter: nat

    ghost function Value(): State
      reads this
    {
      State(entries, overwriteCounter)
    }

    constructor (nregs: nat)
      requires nregs > 0
      ensures Value().Shaped() && entries == seq(nregs, _ => BLANK)
    {
      entries := seq(nregs, _ => BLANK);
      overwriteCounter := 0;
    }

    method Read(key: Key) returns (value: Value, valid: bool)
      requires |entries| > 0
      ensures (value, valid) == Lookup(Value(), key)
    {
      var i := |entries|;
      while i > 0
        invariant 0 <= i <= |entries|
        invariant Highest(Matches(entries, key), |entries|) == Highest(Matches(entries, key), i)
      {
        i := i - 1;
        if Hits(entries[i], key) { return entries[i].value, true; }
      }
      return entries[0].value, false;
    }

    method Write(w: Write)
      requires Value().Shaped()
      modifies this
      ensures Value() == DoWrite(old(Value()), w) && Value().Shaped()
    {
      var new_ := Entry(w.key, w.value, !w.remove);
      var lastInvalid := None;
      var i := |entries|;
      while i > 0
        invariant 0 <= i <= |entries| && entries == old(entries) && overwriteCounter == old(overwriteCounter)
        invariant Top(Matches(entries, w.key)) == Highest(Matches(entries, w.key), i)
        invariant Top(Invalids(entries)) == if lastInvalid.Some? then lastInvalid else Highest(Invalids(entries), i)
      {
        i := i - 1;
        if Hits(entries[i], w.key) {
          entries := entries[i := new_];
          return;
        }
        if lastInvalid.None? && !entries[i].valid { lastInvalid := Some(i); }
      }
      if w.remove { return; }
      if lastInvalid.Some? {
        entries := entries[lastInvalid.value := new_];
      } else {
        entries := entries[overwriteCounter := new_];
        overwriteCounter := if overwriteCounter == |entries| - 1 then 0 else overwriteCounter + 1;
      }
    }

    method Clear()
      modifies this`entries
      ensures Value() == DoClear(old(Value()))
    {
      var i := 0;
      while i < |entries|
        invariant 0 <= i <= |entries| == old(|entries|)
        invariant forall j :: 0 <= j < i ==> entries[j] == BLANK
      {
        entries := entries[i := BLANK];
        i := i + 1;
      }
      assert entries == seq(|entries|, _ => BLANK);
    }
  }

  // ----- One clock tick -------------------------------------------------------------------

  class RandomReplacementCAM {
    var entries: seq<Entry>
    var overwriteCounter: nat

    ghost function Value(): State
      reads this
    {
      State(entries, overwriteCounter)
    }

    constructor (nregs: nat)
      requires nregs > 0
      ensures Value().Shaped() && entries == seq(nregs, _ => BLANK)
    {
      entries := seq(nregs, _ => BLANK);
      overwriteCounter := 0;
    }

    /** A priority chain from entry 0 up: later matches replace earlier ones. */
    method Chain(p: seq<bool>) returns (addr: nat, valid: bool)
      requires |p| > 0
      ensures addr < |p| && (if valid then Some(addr) else None) == Top(p) && (!valid ==> addr == 0)
    {
      addr, valid := 0, p[0];
      for i := 1 to |p|
        invariant addr < i && (if valid then Some(addr) else None) == Highest(p, i) && (!valid ==> addr == 0)
      {
        if p[i] { addr, valid := i, true; }
      }
    }

    method Read(key: Key) returns (value: Value, valid: bool)
      requires |entries| > 0
      ensures (value, valid) == Lookup(Value(), key)
    {
      var addr;
      addr, valid := Chain(Matches(entries, key));
      value := entries[addr].value;
    }

    /** Every entry decides for itself whether it is written. */
    method Tick(in_: Input)
      requires Value().Shaped()
      modifies this
      ensures Value() == Cycle(old(Value()), in_) && Value().Shaped()
    {
      var w := if in_.write.Some? then in_.write.value else Write(0, false, 0);
      var writeAddr, writeHit := Chain(Matches(entries, w.key));
      var invalidAddr, invalidHit := Chain(Invalids(entries));
      var overwrite := !w.remove && !writeHit && !invalidHit;
      ghost var was := Value();
      var next: seq<Entry> := [];
      for i := 0 to |entries|
        invariant |next| == i && Value() == was
        invariant forall j :: 0 <= j < i ==> next[j] == Cycle(was, in_).entries[j]
      {
        var writes := in_.write.Some? && ((overwrite && overwriteCounter == i) || (writeHit && writeAddr == i)
                                          || (!writeHit && invalidHit && invalidAddr == i && !w.remove));
        next := next + [if in_.clear then BLANK else if writes then Entry(w.key, w.value, !w.remove) else entries[i]];
      }
      assert next == Cycle(was, in_).entries;
      entries := next;
      if in_.write.Some? && overwrite {
        overwriteCounter := if overwriteCounter == |entries| - 1 then 0 else overwriteCounter + 1;
      }
    }
  }

  // ----- What it remembers ----------------------------------------------------------------

  ghost predicate KeysDistinct(entries: seq<Entry>) {
    forall i, j :: 0 <= i < j < |entries| && entries[i].valid && entries[j].valid ==> entries[i].key != entries[j].key
  }

  ghost function After(n: nat, ins: seq<Input>): (r: State)
    requires n > 0
    ensures r.Shaped() && |r.entries| == n
  {
    if |ins| == 0 then State(seq(n, _ => BLANK), 0) else Cycle(After(n, ins[..|ins| - 1]), ins[|ins| - 1])
  }

  /** The last thing said about a key: its value, or None after a remove, a clear, or nothing. */
  ghost function LastWritten(ins: seq<Input>, key: Key): Option<Value> {
    if |ins| == 0 then None
    else
      var in_ := ins[|ins| - 1];
      if in_.clear then None
      else if in_.write.Some? && in_.write.value.key == key
          then (if in_.write.value.remove then None else Some(in_.write.value.value))
      else LastWritten(ins[..|ins| - 1], key)
  }

  ghost predicate Fresh(entries: seq<Entry>, ins: seq<Input>) {
    forall i :: 0 <= i < |entries| && entries[i].valid ==> LastWritten(ins, entries[i].key) == Some(entries[i].value)
  }

  lemma WriteKeeps(s: State, w: Write)
    requires s.Shaped() && KeysDistinct(s.entries)
    ensures KeysDistinct(DoWrite(s, w).entries)
    ensures forall i :: 0 <= i < |s.entries| && DoWrite(s, w).entries[i].valid ==>
      if DoWrite(s, w).entries[i].key == w.key then !w.remove && DoWrite(s, w).entries[i].value == w.value
      else DoWrite(s, w).entries[i] == s.entries[i]
  {
    assert forall j :: 0 <= j < |s.entries| ==> Matches(s.entries, w.key)[j] == Hits(s.entries[j], w.key);
  }

  lemma {:induction false} RunKeeps(n: nat, ins: seq<Input>)
    requires n > 0
    ensures KeysDistinct(After(n, ins).entries) && Fresh(After(n, ins).entries, ins)
  {
    if |ins| > 0 {
      var (pre, in_) := (ins[..|ins| - 1], ins[|ins| - 1]);
      RunKeeps(n, pre);
      hide DoWrite;
      if in_.write.Some? { WriteKeeps(After(n, pre), in_.write.value); }
    }
  }

  /** Over every run, a hit returns the last value written to the key, with no later remove
      or clear. */
  lemma NeverStale(n: nat, ins: seq<Input>, key: Key)
    requires n > 0 && Lookup(After(n, ins), key).1
    ensures LastWritten(ins, key) == Some(Lookup(After(n, ins), key).0)
  {
    RunKeeps(n, ins);
  }

  /** A write that finds neither its key nor an empty entry. */
  ghost predicate Replacing(entries: seq<Entry>, w: Write) {
    !w.remove && forall i :: 0 <= i < |entries| ==> entries[i].valid && entries[i].key != w.key
  }

  /** After a write its key is found unless it was removed, and any other key is found as
      before unless its entry was replaced. */
  lemma WriteFinds(s: State, w: Write, key: Key)
    requires s.Shaped() && KeysDistinct(s.entries)
    ensures Lookup(DoWrite(s, w), key).1 <==>
      if key == w.key then !w.remove
      else Lookup(s, key).1 && !(Replacing(s.entries, w) && s.entries[s.counter].key == key)
  {
    var r := DoWrite(s, w).entries;
    ReadIff(s.entries, s.counter, key);
    ReadIff(r, DoWrite(s, w).counter, key);
    ReadIff(s.entries, s.counter, w.key);
    WriteKeeps(s, w);
    var at := WrittenAt(s, w);
    hide DoWrite, Lookup, KeysDistinct;
    if at.Some? { assert Hits(r[at.value], w.key) <==> !w.remove; }
    if i :| 0 <= i < |s.entries| && Hits(s.entries[i], key) {
      assert at != Some(i) ==> Hits(r[i], key);
    }
    if j :| 0 <= j < |r| && Hits(r[j], key) {
      assert at != Some(j) ==> Hits(s.entries[j], key);
    }
  }

  /** Where a write goes, if anywhere. */
  lemma WrittenAt(s: State, w: Write) returns (at: Option<nat>)
    requires s.Shaped() && KeysDistinct(s.entries)
    ensures at.Some? ==>
      at.value < |s.entries| && DoWrite(s, w).entries == s.entries[at.value := Entry(w.key, w.value, !w.remove)]
    ensures at.None? ==>
      w.remove && DoWrite(s, w) == s && forall i :: 0 <= i < |s.entries| ==> !Hits(s.entries[i], w.key)
    ensures at.Some? && w.remove ==> Hits(s.entries[at.value], w.key)
    ensures at.Some? && w.remove ==>
      forall i :: 0 <= i < |s.entries| && i != at.value ==> !Hits(s.entries[i], w.key)
    ensures Replacing(s.entries, w) ==> at == Some(s.counter) && DoWrite(s, w).counter == Bump(s.counter, |s.entries|)
    ensures !Replacing(s.entries, w) ==> DoWrite(s, w).counter == s.counter
    ensures !Replacing(s.entries, w) && at.Some? ==> !s.entries[at.value].valid || s.entries[at.value].key == w.key
  {
    var (hit, hole) := (Top(Matches(s.entries, w.key)), Top(Invalids(s.entries)));
    assert forall j :: 0 <= j < |s.entries| ==> Matches(s.entries, w.key)[j] == Hits(s.entries[j], w.key);
    assert forall j :: 0 <= j < |s.entries| ==> Invalids(s.entries)[j] == !s.entries[j].valid;
    at := if hit.Some? then hit else if w.remove then None else if hole.Some? then hole else Some(s.counter);
    hide Matches, Invalids, Top;
  }

  /** Over every run, exactly what is found after a cycle: nothing after a clear, a key just
      written, and what was found before and neither removed nor replaced. */
  lemma FoundIff(n: nat, ins: seq<Input>, in_: Input, key: Key)
    requires n > 0
    ensures var s := After(n, ins);
      Lookup(After(n, ins + [in_]), key).1 <==>
        && !in_.clear
        && (if in_.write.Some? && in_.write.value.key == key then !in_.write.value.remove
            else Lookup(s, key).1
                 && !(in_.write.Some? && Replacing(s.entries, in_.write.value) && s.entries[s.counter].key == key))
  {
    var s := After(n, ins);
    assert (ins + [in_])[..|ins|] == ins;
    RunKeeps(n, ins);
    if in_.write.Some? { WriteFinds(s, in_.write.value, key); }
    var t := After(n, ins + [in_]);
    ReadIff(t.entries, t.counter, key);
    hide DoWrite, Lookup, Replacing, KeysDistinct, Fresh;
    if in_.clear { assert forall i :: 0 <= i < n ==> t.entries[i] == BLANK; }
  }

  /** A key that was found and not removed is missed next exactly when its entry was
      replaced. */
  lemma MissesAreEvictions(n: nat, ins: seq<Input>, in_: Input, key: Key)
    requires n > 0 && Lookup(After(n, ins), key).1 && LastWritten(ins + [in_], key).Some?
    ensures Lookup(After(n, ins + [in_]), key).1 <==>
      !(in_.write.Some? && in_.write.value.key != key && !in_.clear && Replacing(After(n, ins).entries, in_.write.value)
        && After(n, ins).entries[After(n, ins).counter].key == key)
  {
    assert (ins + [in_])[..|ins|] == ins;
    FoundIff(n, ins, in_, key);
    hide After, Lookup, Replacing;
  }

  /** The replacements a run has made. */
  ghost function Replacements(n: nat, ins: seq<Input>): nat
    requires n > 0
  {
    if |ins| == 0 then 0
    else
      var (pre, in_) := (ins[..|ins| - 1], ins[|ins| - 1]);
      Replacements(n, pre) + (if in_.write.Some? && Replacing(After(n, pre).entries, in_.write.value) then 1 else 0)
  }

  lemma {:induction false} CounterTurns(n: nat, ins: seq<Input>)
    requires n > 0
    ensures exists laps :: Replacements(n, ins) == laps * n + After(n, ins).counter
  {
    if |ins| == 0 {
      assert Replacements(n, ins) == 0 * n + After(n, ins).counter;
    } else {
      var (pre, in_) := (ins[..|ins| - 1], ins[|ins| - 1]);
      CounterTurns(n, pre);
      RunKeeps(n, pre);
      var laps :| Replacements(n, pre) == laps * n + After(n, pre).counter;
      if in_.write.Some? { var at := WrittenAt(After(n, pre), in_.write.value); }
      hide DoWrite, Replacing, KeysDistinct, Fresh;
      assert (laps + 1) * n == laps * n + n;
      assert Replacements(n, ins) == laps * n + After(n, ins).counter
        || Replacements(n, ins) == (laps + 1) * n + After(n, ins).counter;
    }
  }

  /** Over every run, replacements take the entries in turn: each overwrites exactly the
      entry whose number is that of the replacements before it, modulo the size. */
  lemma ReplacesInTurn(n: nat, ins: seq<Input>, in_: Input)
    requires n > 0 && in_.write.Some? && !in_.clear && Replacing(After(n, ins).entries, in_.write.value)
    ensures var w := in_.write.value;
      After(n, ins + [in_]).entries == After(n, ins).entries[Replacements(n, ins) % n := Entry(w.key, w.value, true)]
  {
    assert (ins + [in_])[..|ins|] == ins;
    RunKeeps(n, ins);
    CounterTurns(n, ins);
    var (s, r) := (After(n, ins), Replacements(n, ins));
    var laps :| r == laps * n + s.counter;
    Words.ModIs(r, n, laps, s.counter);
    var at := WrittenAt(s, in_.write.value);
    hide DoWrite, Replacing, KeysDistinct, Fresh;
  }

  /** So n successive replacements name n different entries. */
  lemma TurnsDiffer(n: nat, a: nat, b: nat)
    requires n > 0 && a < b < a + n
    ensures a % n != b % n
  {
    var (p, q, e, f) := (a / n, b / n, a % n, b % n);
    assert a == p * n + e && b == q * n + f;
    hide *;
    assert (q - p) * n == q * n - p * n;
    Words.MultipleAtLeast(q - p, n);
  }

  lemma ReadIff(entries: seq<Entry>, counter: nat, key: Key)
    requires |entries| > 0
    ensures Lookup(State(entries, counter), key).1 <==> exists i :: 0 <= i < |entries| && Hits(entries[i], key)
  {
    assert forall j :: 0 <= j < |entries| ==> Matches(entries, key)[j] == Hits(entries[j], key);
  }
}
