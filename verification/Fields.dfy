/** Instruction fields: values scattered over a word, put there and read back. */
module Fields {
  import opened Options

  /** Bit vectors, lowest bit first. */
  type Bits = seq<bool>

  datatype Target = At(lo: nat) | Fixed(bits: Bits)

  /** `len` bits of the field from `fieldLo` on live at the target, or are required. */
  datatype Part = Part(target: Target, fieldLo: nat, len: nat)

  datatype FieldSpec = FieldSpec(width: nat, parts: seq<Part>)

  predicate InField(p: Part, i: nat) { p.fieldLo <= i < p.fieldLo + p.len }

  predicate InTarget(p: Part, i: nat) { p.target.At? && p.target.lo <= i < p.target.lo + p.len }

  /** Parts stay inside field and word. */
  predicate PartsFit(parts: seq<Part>, width: nat, n: nat) {
    forall k :: 0 <= k < |parts| ==>
      && parts[k].fieldLo + parts[k].len <= width
      && (parts[k].target.At? ==> parts[k].target.lo + parts[k].len <= n)
      && (parts[k].target.Fixed? ==> |parts[k].target.bits| == parts[k].len)
  }

  /** No two parts share a bit, of the field or of the word. */
  predicate Disjoint(parts: seq<Part>) {
    forall j, k :: 0 <= j < k < |parts| ==> Apart(parts[j], parts[k])
  }

  predicate Apart(p: Part, q: Part) {
    && (p.fieldLo + p.len <= q.fieldLo || q.fieldLo + q.len <= p.fieldLo)
    && (p.target.At? && q.target.At? ==> p.target.lo + p.len <= q.target.lo || q.target.lo + q.len <= p.target.lo)
  }

  ghost predicate Covered(parts: seq<Part>, i: nat) { exists k :: 0 <= k < |parts| && InField(parts[k], i) }

  /** Every bit of the field is in some part. */
  ghost predicate Tiled(parts: seq<Part>, width: nat) { forall i :: 0 <= i < width ==> Covered(parts, i) }

  ghost predicate Valid(f: FieldSpec, n: nat) {
    PartsFit(f.parts, f.width, n) && Disjoint(f.parts) && Tiled(f.parts, f.width)
  }

  function Put(x: Bits, lo: nat, bits: Bits): (r: Bits)
    requires lo + |bits| <= |x|
    ensures |r| == |x|
    ensures forall i :: 0 <= i < |x| ==> r[i] == if lo <= i < lo + |bits| then bits[i - lo] else x[i]
  {
    x[..lo] + bits + x[lo + |bits|..]
  }

  function Slice(x: Bits, lo: nat, len: nat): (r: Bits)
    requires lo + len <= |x|
    ensures |r| == len
  {
    x[lo..lo + len]
  }

  function AssembleOne(target: Bits, value: Bits, p: Part): (r: Option<Bits>)
    requires PartsFit([p], |value|, |target|)
    ensures r.Some? ==> |r.value| == |target|
  {
    assert [p][0] == p;
    if p.target.At? then Some(Put(target, p.target.lo, Slice(value, p.fieldLo, p.len)))
    else if Slice(value, p.fieldLo, p.len) != p.target.bits then None else Some(target)
  }

  /** The first k parts; None stands for the ValueError of a wrong fixed part. */
  function AssembleTo(target: Bits, value: Bits, parts: seq<Part>, k: nat): (r: Option<Bits>)
    requires PartsFit(parts, |value|, |target|) && k <= |parts|
    ensures r.Some? ==> |r.value| == |target|
  {
    if k == 0 then Some(target)
    else
      var t := AssembleTo(target, value, parts, k - 1);
      if t.None? then None else AssembleOne(t.value, value, parts[k - 1])
  }

  function DisassembleTo(source: Bits, width: nat, parts: seq<Part>, k: nat): (r: Bits)
    requires PartsFit(parts, width, |source|) && k <= |parts|
    ensures |r| == width
  {
    if k == 0 then seq(width, _ => false)
    else
      var p := parts[k - 1];
      Put(DisassembleTo(source, width, parts, k - 1), p.fieldLo,
          if p.target.At? then Slice(source, p.target.lo, p.len) else p.target.bits)
  }

  function Assemble(f: FieldSpec, target: Bits, value: Bits): (r: Option<Bits>)
    requires PartsFit(f.parts, f.width, |target|) && |value| == f.width
    ensures r.Some? ==> |r.value| == |target|
  {
    AssembleTo(target, value, f.parts, |f.parts|)
  }

  function Disassemble(f: FieldSpec, source: Bits): (r: Bits)
    requires PartsFit(f.parts, f.width, |source|)
    ensures |r| == f.width
  {
    DisassembleTo(source, f.width, f.parts, |f.parts|)
  }

  /** The fixed parts of a value are as required. */
  predicate FixedMatch(parts: seq<Part>, value: Bits, k: nat)
    requires k <= |parts| && forall j :: 0 <= j < k ==> parts[j].fieldLo + parts[j].len <= |value|
  {
    forall j :: 0 <= j < k && parts[j].target.Fixed? ==>
        Slice(value, parts[j].fieldLo, parts[j].len) == parts[j].target.bits
  }

  // ----- Bit by bit -----------------------------------------------------------------------

  ghost predicate Assembled(target: Bits, value: Bits, parts: seq<Part>, k: nat, r: Bits)
    requires PartsFit(parts, |value|, |target|) && k <= |parts|
  {
    && |r| == |target|
    && (forall j, i :: 0 <= j < k && 0 <= i < |target| && InTarget(parts[j], i) ==>
        r[i] == value[parts[j].fieldLo + i - parts[j].target.lo])
    && (forall i :: 0 <= i < |target| && (forall j :: 0 <= j < k ==> !InTarget(parts[j], i)) ==> r[i] == target[i])
  }

  lemma {:induction false} AssembleBits(target: Bits, value: Bits, parts: seq<Part>, k: nat)
    requires PartsFit(parts, |value|, |target|) && Disjoint(parts) && k <= |parts|
    ensures AssembleTo(target, value, parts, k).Some? <==> FixedMatch(parts, value, k)
    ensures AssembleTo(target, value, parts, k).Some? ==>
      Assembled(target, value, parts, k, AssembleTo(target, value, parts, k).value)
  {
    if k > 0 {
      AssembleBits(target, value, parts, k - 1);
      hide AssembleTo;
      AssembleStep(target, value, parts, k);
    }
  }

  lemma AssembleStep(target: Bits, value: Bits, parts: seq<Part>, k: nat)
    requires PartsFit(parts, |value|, |target|) && Disjoint(parts) && 0 < k <= |parts|
    requires AssembleTo(target, value, parts, k - 1).Some? <==> FixedMatch(parts, value, k - 1)
    requires AssembleTo(target, value, parts, k - 1).Some? ==>
      Assembled(target, value, parts, k - 1, AssembleTo(target, value, parts, k - 1).value)
    ensures AssembleTo(target, value, parts, k).Some? <==> FixedMatch(parts, value, k)
    ensures AssembleTo(target, value, parts, k).Some? ==>
      Assembled(target, value, parts, k, AssembleTo(target, value, parts, k).value)
  {
    var t := AssembleTo(target, value, parts, k - 1);
    assert AssembleTo(target, value, parts, k) == if t.None? then None else AssembleOne(t.value, value, parts[k - 1]);
    hide AssembleTo, Disjoint;
    if t.Some? && parts[k - 1].target.At? {
      forall j | 0 <= j < k - 1 ensures Apart(parts[j], parts[k - 1]) { DisjointAt(parts, j, k - 1); }
      PutPart(target, value, parts, k, t.value,
          Put(t.value, parts[k - 1].target.lo, Slice(value, parts[k - 1].fieldLo, parts[k - 1].len)));
    }
  }

  lemma DisjointAt(parts: seq<Part>, j: nat, k: nat)
    requires Disjoint(parts) && j < k < |parts|
    ensures Apart(parts[j], parts[k])
  {
  }

  lemma PutPart(target: Bits, value: Bits, parts: seq<Part>, k: nat, t: Bits, r: Bits)
    requires PartsFit(parts, |value|, |target|) && 0 < k <= |parts| && parts[k - 1].target.At?
    requires forall j :: 0 <= j < k - 1 ==> Apart(parts[j], parts[k - 1])
    requires Assembled(target, value, parts, k - 1, t)
    requires r == Put(t, parts[k - 1].target.lo, Slice(value, parts[k - 1].fieldLo, parts[k - 1].len))
    ensures Assembled(target, value, parts, k, r)
  {
    var p := parts[k - 1];
    assert forall i :: 0 <= i < |r| ==> r[i] == if InTarget(p, i) then value[p.fieldLo + i - p.target.lo] else t[i];
    hide Put, Slice;
    forall i | 0 <= i < |target| && (forall j :: 0 <= j < k ==> !InTarget(parts[j], i)) ensures r[i] == target[i] {
      assert !InTarget(parts[k - 1], i);
    }
  }

  ghost predicate Disassembled(source: Bits, parts: seq<Part>, k: nat, r: Bits)
    requires PartsFit(parts, |r|, |source|) && k <= |parts|
  {
    forall j, i :: 0 <= j < k && 0 <= i < |r| && InField(parts[j], i) ==>
      r[i] == if parts[j].target.At? then source[parts[j].target.lo + i - parts[j].fieldLo]
          else parts[j].target.bits[i - parts[j].fieldLo]
  }

  lemma {:induction false} DisassembleBits(source: Bits, width: nat, parts: seq<Part>, k: nat)
    requires PartsFit(parts, width, |source|) && Disjoint(parts) && k <= |parts|
    ensures Disassembled(source, parts, k, DisassembleTo(source, width, parts, k))
  {
    if k > 0 {
      DisassembleBits(source, width, parts, k - 1);
      var (t, p) := (DisassembleTo(source, width, parts, k - 1), parts[k - 1]);
      forall j | 0 <= j < k - 1 ensures Apart(parts[j], p) { DisjointAt(parts, j, k - 1); }
      var bits := if p.target.At? then Slice(source, p.target.lo, p.len) else p.target.bits;
      assert DisassembleTo(source, width, parts, k) == Put(t, p.fieldLo, bits);
      hide DisassembleTo, Disjoint, Put, Slice, Disassembled;
      PutField(source, parts, k, t, bits);
    }
  }

  lemma PutField(source: Bits, parts: seq<Part>, k: nat, t: Bits, bits: Bits)
    requires PartsFit(parts, |t|, |source|) && 0 < k <= |parts| && Disassembled(source, parts, k - 1, t)
    requires forall j :: 0 <= j < k - 1 ==> Apart(parts[j], parts[k - 1])
    requires var p := parts[k - 1]; bits == if p.target.At? then Slice(source, p.target.lo, p.len) else p.target.bits
    ensures Disassembled(source, parts, k, Put(t, parts[k - 1].fieldLo, bits))
  {
    var (p, r) := (parts[k - 1], Put(t, parts[k - 1].fieldLo, bits));
    forall j, i | 0 <= j < k && 0 <= i < |r| && InField(parts[j], i)
      ensures r[i] == if parts[j].target.At? then source[parts[j].target.lo + i - parts[j].fieldLo]
        else parts[j].target.bits[i - parts[j].fieldLo]
    {
      if j == k - 1 { assert r[i] == bits[i - p.fieldLo]; } else { assert r[i] == t[i]; }
    }
  }

  // ----- Round trips ----------------------------------------------------------------------

  /** Assembling succeeds exactly when the fixed parts agree; then reading back gives the
      value, and no bit outside the field's places has changed. */
  lemma RoundTrip(f: FieldSpec, target: Bits, value: Bits)
    requires Valid(f, |target|) && |value| == f.width
    ensures Assemble(f, target, value).Some? <==> FixedMatch(f.parts, value, |f.parts|)
    ensures Assemble(f, target, value).Some? ==>
      && Disassemble(f, Assemble(f, target, value).value) == value
      && forall i :: 0 <= i < |target| && (forall k :: 0 <= k < |f.parts| ==> !InTarget(f.parts[k], i)) ==>
           Assemble(f, target, value).value[i] == target[i]
  {
    var n := |f.parts|;
    AssembleBits(target, value, f.parts, n);
    if Assemble(f, target, value).Some? {
      var w := Assemble(f, target, value).value;
      DisassembleBits(w, f.width, f.parts, n);
      var r := Disassemble(f, w);
      hide AssembleTo, DisassembleTo, Disjoint;
      forall i | 0 <= i < f.width ensures r[i] == value[i] {
        assert Covered(f.parts, i);
        var k :| 0 <= k < n && InField(f.parts[k], i);
        ReadsBack(f, target, value, w, r, k, i);
      }
    }
  }

  lemma ReadsBack(f: FieldSpec, target: Bits, value: Bits, w: Bits, r: Bits, k: nat, i: nat)
    requires PartsFit(f.parts, f.width, |target|) && |value| == |r| == f.width && |w| == |target|
    requires FixedMatch(f.parts, value, |f.parts|) && Assembled(target, value, f.parts, |f.parts|, w)
      && Disassembled(w, f.parts, |f.parts|, r)
    requires k < |f.parts| && i < f.width && InField(f.parts[k], i)
    ensures r[i] == value[i]
  {
    var p := f.parts[k];
    if p.target.At? {
      var t := p.target.lo + i - p.fieldLo;
      assert InTarget(p, t);
      assert w[t] == value[p.fieldLo + t - p.target.lo];
    } else {
      assert Slice(value, p.fieldLo, p.len)[i - p.fieldLo] == value[i];
    }
  }

  /** Putting back what was read changes nothing. */
  lemma Rewrite(f: FieldSpec, source: Bits)
    requires Valid(f, |source|)
    ensures Assemble(f, source, Disassemble(f, source)) == Some(source)
  {
    var (n, v) := (|f.parts|, Disassemble(f, source));
    DisassembleBits(source, f.width, f.parts, n);
    AssembleBits(source, v, f.parts, n);
    hide AssembleTo, DisassembleTo, Disjoint, Tiled;
    ReadFixed(source, f.parts, v);
    var w := Assemble(f, source, v).value;
    forall i | 0 <= i < |source| ensures w[i] == source[i] {
      if j :| 0 <= j < n && InTarget(f.parts[j], i) {
        var p := f.parts[j];
        assert w[i] == v[p.fieldLo + i - p.target.lo];
        assert InField(p, p.fieldLo + i - p.target.lo);
      }
    }
    assert w == source;
  }

  lemma ReadFixed(source: Bits, parts: seq<Part>, v: Bits)
    requires PartsFit(parts, |v|, |source|) && Disassembled(source, parts, |parts|, v)
    ensures FixedMatch(parts, v, |parts|)
  {
    forall j | 0 <= j < |parts| && parts[j].target.Fixed?
      ensures Slice(v, parts[j].fieldLo, parts[j].len) == parts[j].target.bits
    {
      var p := parts[j];
      forall i | 0 <= i < p.len
        ensures Slice(v, p.fieldLo, p.len)[i] == p.target.bits[i]
      {
        assert InField(p, p.fieldLo + i);
      }
    }
  }

  lemma NextPart(target: Bits, done: Bits, value: Bits, parts: seq<Part>, k: nat)
    requires PartsFit(parts, |value|, |target|) && k < |parts| && AssembleTo(target, value, parts, k) == Some(done)
    ensures AssembleTo(target, value, parts, k + 1) == AssembleOne(done, value, parts[k])
  {
  }

  method AssembleInPlace(f: FieldSpec, target: array<bool>, value: Bits) returns (ok: bool)
    requires PartsFit(f.parts, f.width, target.Length) && |value| == f.width
    modifies target
    ensures ok == Assemble(f, old(target[..]), value).Some?
    ensures ok ==> target[..] == Assemble(f, old(target[..]), value).value
  {
    ghost var was := target[..];
    for k := 0 to |f.parts|
      invariant AssembleTo(was, value, f.parts, k) == Some(target[..])
    {
      var p := f.parts[k];
      NextPart(was, target[..], value, f.parts, k);
      if p.target.At? {
        WriteSlice(target, p.target.lo, value[p.fieldLo..p.fieldLo + p.len]);
      } else if value[p.fieldLo..p.fieldLo + p.len] != p.target.bits {
        StaysFailed(was, value, f.parts, k + 1, |f.parts|);
        return false;
      }
      hide AssembleTo, Put;
    }
    ok := true;
  }

  lemma {:induction false} StaysFailed(target: Bits, value: Bits, parts: seq<Part>, j: nat, k: nat)
    requires PartsFit(parts, |value|, |target|) && j <= k <= |parts| && AssembleTo(target, value, parts, j).None?
    ensures AssembleTo(target, value, parts, k).None?
  {
    if j < k { StaysFailed(target, value, parts, j, k - 1); }
  }

  method WriteSlice(x: array<bool>, lo: nat, bits: Bits)
    requires lo + |bits| <= x.Length
    modifies x
    ensures x[..] == Put(old(x[..]), lo, bits)
  {
    for i := 0 to |bits|
      invariant forall j :: 0 <= j < x.Length ==> x[j] == if lo <= j < lo + i then bits[j - lo] else old(x[j])
    {
      x[lo + i] := bits[i];
    }
    assert |x[..]| == |Put(old(x[..]), lo, bits)|;
  }

  // ----- The base instruction formats -----------------------------------------------------

  /** A field in one piece. */
  function Whole(lo: nat, width: nat): FieldSpec { FieldSpec(width, [Part(At(lo), 0, width)]) }

  const ZERO_BIT: Part := Part(Fixed([false]), 0, 1)

  datatype FieldName = Opcode | Funct2 | Funct3 | Funct7 | Rd | Rs1 | Rs2 | Shamt32 | Shamt64 | IImm | Csrnum | SImm
                     | BImm | UImm | JImm | CImm | Pred | Succ | Aq | Rl

  function Field(f: FieldName): FieldSpec {
    match f
    case Opcode => Whole(0, 7)
    case Funct2 => Whole(25, 2)
    case Funct3 => Whole(12, 3)
    case Funct7 => Whole(25, 7)
    case Rd => Whole(7, 5)
    case Rs1 => Whole(15, 5)
    case Rs2 => Whole(20, 5)
    case Shamt32 => Whole(20, 5)
    case Shamt64 => Whole(20, 6)
    case IImm => Whole(20, 12)
    case Csrnum => Whole(20, 12)
    case SImm => FieldSpec(12, [Part(At(7), 0, 5), Part(At(25), 5, 7)])
    case BImm => FieldSpec(13,
        [Part(At(31), 12, 1), Part(At(7), 11, 1), Part(At(25), 5, 6), Part(At(8), 1, 4), ZERO_BIT])
    case UImm => Whole(12, 20)
    case JImm => FieldSpec(21,
        [Part(At(31), 20, 1), Part(At(12), 12, 8), Part(At(20), 11, 1), Part(At(21), 1, 10), ZERO_BIT])
    case CImm => Whole(15, 5)
    case Pred => Whole(24, 4)
    case Succ => Whole(20, 4)
    case Aq => Whole(26, 1)
    case Rl => Whole(25, 1)
  }

  /** Every field of the table tiles its width with disjoint places in a 32-bit word, so the
      round trips hold for all of them. */
  lemma TableValid(f: FieldName)
    ensures Valid(Field(f), 32)
  {
    TableTiled(f);
    TableFits(f);
    TableDisjoint(f);
    hide Tiled, PartsFit, Disjoint, Field;
  }

  lemma TableFits(f: FieldName)
    ensures PartsFit(Field(f).parts, Field(f).width, 32)
  {
    hide Apart;
  }

  lemma TableDisjoint(f: FieldName)
    ensures Disjoint(Field(f).parts)
  {
    match f
    case SImm => var p := Field(f).parts; assert Apart(p[0], p[1]);
    case BImm => FiveApart(Field(f).parts);
    case JImm => FiveApart(Field(f).parts);
    case _ => assert |Field(f).parts| == 1;
  }

  lemma FiveApart(p: seq<Part>)
    requires |p| == 5 && Apart(p[0], p[1]) && Apart(p[0], p[2]) && Apart(p[0], p[3]) && Apart(p[0], p[4])
    requires Apart(p[1], p[2]) && Apart(p[1], p[3]) && Apart(p[1], p[4]) && Apart(p[2], p[3]) && Apart(p[2], p[4])
      && Apart(p[3], p[4])
    ensures Disjoint(p)
  {
    hide Apart;
  }

  lemma TableTiled(f: FieldName)
    ensures Tiled(Field(f).parts, Field(f).width)
  {
    var (p, w) := (Field(f).parts, Field(f).width);
    forall i | 0 <= i < w ensures Covered(p, i) {
      if |p| == 1 {
        assert InField(p[0], i);
      } else if |p| == 2 {
        assert InField(p[0], i) || InField(p[1], i);
      } else {
        assert InField(p[0], i) || InField(p[1], i) || InField(p[2], i) || InField(p[3], i) || InField(p[4], i);
      }
    }
  }

  // ----- Immediates -----------------------------------------------------------------------

  datatype ImmType = I | S | B | U | J | C | Shift32 | Shift64

  function FieldOf(t: ImmType): FieldName {
    match t
    case I => IImm
    case S => SImm
    case B => BImm
    case U => UImm
    case J => JImm
    case C => CImm
    case Shift32 => Shamt32
    case Shift64 => Shamt64
  }

  predicate ZeroExtended(t: ImmType) { t.C? || t.Shift32? || t.Shift64? }

  function Extend(x: Bits, zero: bool, len: nat): (r: Bits)
    requires 0 < |x| <= len
    ensures |r| == len
  {
    x + seq(len - |x|, _ => !zero && x[|x| - 1])
  }

  /** The model: read the field, extend it. */
  function DecodeFL(inst: Bits, t: ImmType, len: nat): (r: Bits)
    requires |inst| == 32 && len >= 21
    ensures |r| == len
  {
    TableValid(FieldOf(t));
    Extend(Disassemble(Field(FieldOf(t)), inst), ZeroExtended(t), len)
  }

  /** The wires of the hardware decoder, named slices of the word concatenated. */
  function Wires(inst: Bits, t: ImmType): (r: Bits)
    requires |inst| == 32
    ensures 0 < |r| <= 21
  {
    match t
    case I => inst[20..32]
    case S => inst[7..12] + inst[25..32]
    case B => [false] + inst[8..12] + inst[25..31] + inst[7..8] + inst[31..32]
    case U => inst[12..32]
    case J => [false] + inst[21..31] + inst[20..21] + inst[12..20] + inst[31..32]
    case C => inst[15..20]
    case Shift32 => inst[20..25]
    case Shift64 => inst[20..26]
  }

  function DecodeRtl(inst: Bits, t: ImmType, len: nat): (r: Bits)
    requires |inst| == 32 && len >= 21
    ensures |r| == len
  {
    Extend(Wires(inst, t), ZeroExtended(t), len)
  }

  /** For every instruction word, type and output width the decoder yields the field's value,
      extended. */
  lemma DecoderExact(inst: Bits, t: ImmType, len: nat)
    requires |inst| == 32 && len >= 21
    ensures DecodeRtl(inst, t, len) == DecodeFL(inst, t, len)
  {
    WiresAreField(inst, t);
  }

  lemma WiresAreField(inst: Bits, t: ImmType)
    requires |inst| == 32
    ensures PartsFit(Field(FieldOf(t)).parts, Field(FieldOf(t)).width, 32)
    ensures Wires(inst, t) == Disassemble(Field(FieldOf(t)), inst)
  {
    FieldParts(inst, FieldOf(t));
    var r := Disassemble(Field(FieldOf(t)), inst);
    hide Disassemble, PartRead;
    match t {
      case S => ReadS(inst, r);
      case B => ReadB(inst, r);
      case J => ReadJ(inst, r);
      case _ => ReadWhole(inst, t, r);
    }
  }

  lemma FieldParts(inst: Bits, name: FieldName)
    requires |inst| == 32
    ensures PartsFit(Field(name).parts, Field(name).width, 32)
    ensures forall k :: 0 <= k < |Field(name).parts| ==>
      PartRead(inst, Field(name).parts[k], Disassemble(Field(name), inst))
  {
    TableValid(name);
    hide Field, DisassembleTo, Disassembled, PartRead;
    var f := Field(name);
    DisassembleBits(inst, f.width, f.parts, |f.parts|);
    forall k | 0 <= k < |f.parts|
      ensures PartRead(inst, f.parts[k], Disassemble(f, inst))
    {
      ReadPart(inst, f.parts, Disassemble(f, inst), k);
    }
  }

  ghost predicate PartRead(source: Bits, p: Part, r: Bits)
    requires p.fieldLo + p.len <= |r| && (p.target.At? ==> p.target.lo + p.len <= |source|)
  {
    r[p.fieldLo..p.fieldLo + p.len] == if p.target.At? then source[p.target.lo..p.target.lo + p.len] else p.target.bits
  }

  lemma ReadPart(source: Bits, parts: seq<Part>, r: Bits, k: nat)
    requires PartsFit(parts, |r|, |source|) && Disassembled(source, parts, |parts|, r) && k < |parts|
    ensures PartRead(source, parts[k], r)
  {
    var p := parts[k];
    assert forall i :: p.fieldLo <= i < p.fieldLo + p.len ==> InField(p, i);
  }

  lemma ReadWhole(inst: Bits, t: ImmType, r: Bits)
    requires |inst| == 32 && !t.S? && !t.B? && !t.J? && |r| == Field(FieldOf(t)).width
    requires PartRead(inst, Field(FieldOf(t)).parts[0], r)
    ensures r == Wires(inst, t)
  {
    assert r[0..|r|] == r;
  }

  lemma ReadS(inst: Bits, r: Bits)
    requires |inst| == 32 && |r| == 12
    requires forall k :: 0 <= k < 2 ==> PartRead(inst, Field(SImm).parts[k], r)
    ensures r == Wires(inst, S)
  {
    var p := Field(SImm).parts;
    assert PartRead(inst, p[0], r) && PartRead(inst, p[1], r);
    assert r == r[0..5] + r[5..12];
  }

  lemma CutFive(r: Bits, a: nat, b: nat, c: nat, d: nat)
    requires a <= b <= c <= d <= |r|
    ensures r == r[0..a] + r[a..b] + r[b..c] + r[c..d] + r[d..|r|]
  {
  }

  lemma ReadB(inst: Bits, r: Bits)
    requires |inst| == 32 && |r| == 13
    requires forall k :: 0 <= k < 5 ==> PartRead(inst, Field(BImm).parts[k], r)
    ensures r == Wires(inst, B)
  {
    var p := Field(BImm).parts;
    assert PartRead(inst, p[0], r) && PartRead(inst, p[1], r) && PartRead(inst, p[2], r) && PartRead(inst, p[3], r)
        && PartRead(inst, p[4], r);
    CutFive(r, 1, 5, 11, 12);
  }

  lemma ReadJ(inst: Bits, r: Bits)
    requires |inst| == 32 && |r| == 21
    requires forall k :: 0 <= k < 5 ==> PartRead(inst, Field(JImm).parts[k], r)
    ensures r == Wires(inst, J)
  {
    var p := Field(JImm).parts;
    assert PartRead(inst, p[0], r) && PartRead(inst, p[1], r) && PartRead(inst, p[2], r) && PartRead(inst, p[3], r)
        && PartRead(inst, p[4], r);
    CutFive(r, 1, 11, 12, 20);
  }

  /** Bit i of an immediate, as section 2.3 of the RISC-V User-Level ISA v2.2 draws it, with
      U immediates not yet shifted; zero extension for shift amounts and CSR immediates. */
  function ImmBit(inst: Bits, t: ImmType, i: nat): bool
    requires |inst| == 32
  {
    match t
    case I => if i < 11 then inst[20 + i] else inst[31]
    case S => if i < 5 then inst[7 + i] else if i < 11 then inst[20 + i] else inst[31]
    case B => if i == 0 then false else if i < 5 then inst[7 + i] else if i < 11 then inst[20 + i]
              else if i == 11 then inst[7] else inst[31]
    case U => if i < 19 then inst[12 + i] else inst[31]
    case J => if i == 0 then false else if i < 11 then inst[20 + i] else if i == 11 then inst[20]
              else if i < 20 then inst[i] else inst[31]
    case C => i < 5 && inst[15 + i]
    case Shift32 => i < 5 && inst[20 + i]
    case Shift64 => i < 6 && inst[20 + i]
  }

  /** Every bit of what the decoder yields, on every output width. */
  lemma DecodedBits(inst: Bits, t: ImmType, len: nat, i: nat)
    requires |inst| == 32 && len >= 21 && i < len
    ensures DecodeRtl(inst, t, len)[i] == ImmBit(inst, t, i)
  {
    WireWidth(inst, t);
    var (w, x) := (|Wires(inst, t)|, if i < |Wires(inst, t)| then i else |Wires(inst, t)| - 1);
    WireBits(inst, t, x);
    hide Wires;
  }

  lemma WireWidth(inst: Bits, t: ImmType)
    requires |inst| == 32
    ensures |Wires(inst, t)| == Field(FieldOf(t)).width
  {
  }

  lemma WireBits(inst: Bits, t: ImmType, i: nat)
    requires |inst| == 32 && i < |Wires(inst, t)|
    ensures Wires(inst, t)[i] == ImmBit(inst, t, i)
  {
    match t {
      case B =>
        var (a, b) := ([false] + inst[8..12], [false] + inst[8..12] + inst[25..31]);
        assert Wires(inst, B) == b + inst[7..8] + inst[31..32];
        assert i < 5 ==> b[i] == a[i];
      case J =>
        var (a, b) := ([false] + inst[21..31], [false] + inst[21..31] + inst[20..21] + inst[12..20]);
        assert Wires(inst, J) == b + inst[31..32];
        assert i < 11 ==> b[i] == a[i];
      case _ =>
    }
  }

  /** From the width of the field on, it is the sign bit of the word, or zero. */
  lemma Extension(inst: Bits, t: ImmType, len: nat, i: nat)
    requires |inst| == 32 && len >= 21 && Field(FieldOf(t)).width <= i < len
    ensures DecodeRtl(inst, t, len)[i] <==> inst[31] && (t.I? || t.S? || t.B? || t.U? || t.J?)
  {
    DecodedBits(inst, t, len, i);
    hide DecodeRtl;
  }

  // ----- Whole words ----------------------------------------------------------------------

  function Get(name: FieldName, inst: Bits): (r: Bits)
    requires |inst| == 32
    ensures |r| == Field(name).width
  {
    TableValid(name);
    Disassemble(Field(name), inst)
  }

  lemma GetWhole(name: FieldName, inst: Bits, lo: nat)
    requires |inst| == 32 && Field(name) == Whole(lo, Field(name).width) && lo + Field(name).width <= 32
    ensures Get(name, inst) == Slice(inst, lo, Field(name).width)
  {
    FieldParts(inst, name);
    var r := Get(name, inst);
    assert PartRead(inst, Field(name).parts[0], r);
    assert r[0..|r|] == r;
  }

  lemma CommonFields(inst: Bits)
    requires |inst| == 32
    ensures Get(Opcode, inst) == Slice(inst, 0, 7) && Get(Rd, inst) == Slice(inst, 7, 5)
    ensures Get(Funct3, inst) == Slice(inst, 12, 3) && Get(Rs1, inst) == Slice(inst, 15, 5)
    ensures Get(Rs2, inst) == Slice(inst, 20, 5) && Get(Funct7, inst) == Slice(inst, 25, 7)
  {
    GetWhole(Opcode, inst, 0);
    GetWhole(Rd, inst, 7);
    GetWhole(Funct3, inst, 12);
    GetWhole(Rs1, inst, 15);
    GetWhole(Rs2, inst, 20);
    GetWhole(Funct7, inst, 25);
    hide Get, Slice;
  }

  lemma Join(x: Bits, lo: nat, mid: nat, hi: nat)
    requires lo <= mid <= hi <= |x|
    ensures Slice(x, lo, mid - lo) + Slice(x, mid, hi - mid) == Slice(x, lo, hi - lo)
  {
  }

  /** The slices below bit 12, 15, 20 and 25, and the word itself. */
  lemma Prefixes(inst: Bits)
    requires |inst| == 32
    ensures Slice(inst, 0, 7) + Slice(inst, 7, 5) == Slice(inst, 0, 12)
    ensures Slice(inst, 0, 12) + Slice(inst, 12, 3) == Slice(inst, 0, 15)
    ensures Slice(inst, 0, 15) + Slice(inst, 15, 5) == Slice(inst, 0, 20)
    ensures Slice(inst, 0, 20) + Slice(inst, 20, 5) == Slice(inst, 0, 25)
    ensures Slice(inst, 0, 25) + Slice(inst, 25, 7) == Slice(inst, 0, 32) == inst
  {
    Join(inst, 0, 7, 12);
    Join(inst, 0, 12, 15);
    Join(inst, 0, 15, 20);
    Join(inst, 0, 20, 25);
    Join(inst, 0, 25, 32);
    assert Slice(inst, 0, 32) == inst;
    hide Slice;
  }

  /** Register operations, and shifts by a 5-bit amount. */
  lemma WordR(inst: Bits)
    requires |inst| == 32
    ensures inst ==
      Get(Opcode, inst) + Get(Rd, inst) + Get(Funct3, inst) + Get(Rs1, inst) + Get(Rs2, inst) + Get(Funct7, inst)
    ensures Get(Shamt32, inst) == Get(Rs2, inst)
  {
    hide Get, Slice, Disassemble, Wires;
    CommonFields(inst);
    GetWhole(Shamt32, inst, 20);
    hide *;
    Prefixes(inst);
  }

  /** Immediates of 12 bits; a CSR number stands there too, and a CSR immediate in place of
      the first source. */
  lemma WordI(inst: Bits)
    requires |inst| == 32
    ensures inst == Get(Opcode, inst) + Get(Rd, inst) + Get(Funct3, inst) + Get(Rs1, inst) + Get(IImm, inst)
    ensures Get(Csrnum, inst) == Get(IImm, inst) && Get(CImm, inst) == Get(Rs1, inst)
  {
    hide Get, Slice, Disassemble, Wires;
    CommonFields(inst);
    GetWhole(IImm, inst, 20);
    GetWhole(Csrnum, inst, 20);
    GetWhole(CImm, inst, 15);
    hide *;
    Prefixes(inst);
    Join(inst, 0, 20, 32);
  }

  /** What the upper part of the word is cut into otherwise: 6-bit shift amounts, fences, and
      the ordering bits of atomics. */
  lemma WordUpper(inst: Bits)
    requires |inst| == 32
    ensures Get(Shamt64, inst) == Slice(Get(IImm, inst), 0, 6)
    ensures Get(Succ, inst) + Get(Pred, inst) == Slice(Get(IImm, inst), 0, 8)
    ensures Get(Rl, inst) + Get(Aq, inst) == Get(Funct2, inst) == Slice(Get(Funct7, inst), 0, 2)
  {
    hide Get, Slice, Disassemble;
    GetWhole(IImm, inst, 20);
    GetWhole(Shamt64, inst, 20);
    GetWhole(Succ, inst, 20);
    GetWhole(Pred, inst, 24);
    GetWhole(Rl, inst, 25);
    GetWhole(Aq, inst, 26);
    GetWhole(Funct2, inst, 25);
    GetWhole(Funct7, inst, 25);
    Join(inst, 20, 24, 28);
    Join(inst, 25, 26, 27);
    Within(inst, 20, 12, 6);
    Within(inst, 20, 12, 8);
    Within(inst, 25, 7, 2);
    hide *;
  }

  lemma Within(x: Bits, lo: nat, len: nat, k: nat)
    requires lo + len <= |x| && k <= len
    ensures Slice(Slice(x, lo, len), 0, k) == Slice(x, lo, k)
  {
  }

  lemma GetWires(inst: Bits, t: ImmType)
    requires |inst| == 32
    ensures Get(FieldOf(t), inst) == Wires(inst, t)
  {
    WiresAreField(inst, t);
    hide Wires, Disassemble;
  }

  lemma ImmS(inst: Bits, imm: Bits)
    requires |inst| == 32 && imm == Wires(inst, S)
    ensures |imm| == 12 && Slice(imm, 0, 5) == Slice(inst, 7, 5) && Slice(imm, 5, 7) == Slice(inst, 25, 7)
  {
  }

  /** Stores. */
  lemma WordS(inst: Bits)
    requires |inst| == 32
    ensures var imm := Get(SImm, inst);
      inst == Get(Opcode, inst) + Slice(imm, 0, 5) + Get(Funct3, inst) + Get(Rs1, inst) + Get(Rs2, inst) +
          Slice(imm, 5, 7)
  {
    hide Get, Slice, Disassemble, Wires;
    CommonFields(inst);
    GetWires(inst, S);
    ImmS(inst, Get(SImm, inst));
    hide *;
    Prefixes(inst);
  }

  /** Branches. */
  lemma WordB(inst: Bits)
    requires |inst| == 32
    ensures var imm := Get(BImm, inst);
      && !imm[0]
      && inst == Get(Opcode, inst) + (Slice(imm, 11, 1) + Slice(imm, 1, 4)) + Get(Funct3, inst) + Get(Rs1, inst)
                 + Get(Rs2, inst) + (Slice(imm, 5, 6) + Slice(imm, 12, 1))
  {
    hide Get, Slice, Disassemble, Wires;
    CommonFields(inst);
    GetWires(inst, B);
    ImmB(inst, Get(BImm, inst));
    hide *;
    Join(inst, 7, 8, 12);
    Join(inst, 25, 31, 32);
    Prefixes(inst);
  }

  lemma ImmB(inst: Bits, imm: Bits)
    requires |inst| == 32 && imm == Wires(inst, B)
    ensures |imm| == 13 && !imm[0]
    ensures Slice(imm, 11, 1) == Slice(inst, 7, 1) && Slice(imm, 1, 4) == Slice(inst, 8, 4)
    ensures Slice(imm, 5, 6) == Slice(inst, 25, 6) && Slice(imm, 12, 1) == Slice(inst, 31, 1)
  {
    WireWidth(inst, B);
    forall i: nat | i < 13 ensures imm[i] == ImmBit(inst, B, i) { WireBits(inst, B, i); }
    hide Wires;
  }

  /** Upper immediates. */
  lemma WordU(inst: Bits)
    requires |inst| == 32
    ensures inst == Get(Opcode, inst) + Get(Rd, inst) + Get(UImm, inst)
  {
    hide Get, Slice, Disassemble, Wires;
    CommonFields(inst);
    GetWhole(UImm, inst, 12);
    hide *;
    Prefixes(inst);
    Join(inst, 0, 12, 32);
  }

  /** Jumps. */
  lemma WordJ(inst: Bits)
    requires |inst| == 32
    ensures var imm := Get(JImm, inst);
      && !imm[0]
      && inst == Get(Opcode, inst) + Get(Rd, inst)
                 + (Slice(imm, 12, 8) + (Slice(imm, 11, 1) + (Slice(imm, 1, 10) + Slice(imm, 20, 1))))
  {
    hide Get, Slice, Disassemble, Wires;
    CommonFields(inst);
    GetWires(inst, J);
    ImmJ(inst, Get(JImm, inst));
    hide *;
    Join(inst, 21, 31, 32);
    Join(inst, 20, 21, 32);
    Join(inst, 12, 20, 32);
    Join(inst, 0, 12, 32);
    Prefixes(inst);
  }

  lemma ImmJ(inst: Bits, imm: Bits)
    requires |inst| == 32 && imm == Wires(inst, J)
    ensures |imm| == 21 && !imm[0]
    ensures Slice(imm, 12, 8) == Slice(inst, 12, 8) && Slice(imm, 11, 1) == Slice(inst, 20, 1)
    ensures Slice(imm, 1, 10) == Slice(inst, 21, 10) && Slice(imm, 20, 1) == Slice(inst, 31, 1)
  {
    WireWidth(inst, J);
    forall i: nat | i < 21 ensures imm[i] == ImmBit(inst, J, i) { WireBits(inst, J, i); }
    hide Wires;
  }
}
