/**
  The method codec generator (codegen.py): emitters that walk a field list and print an encoding and a
  decoding program. A program is a list of the statements the generator prints, and `RunEncode` and
  `RunDecode` say what the printed C code does. amqp_framing.c holds the instances.
 */
module Generator {
  import opened Wire
  import opened FieldTable
  import opened Fields

  /** Statements of an emitted encoder; `field` indexes the method's struct. */
  datatype EncodeOp =
    | ClearBits                           // bit_buffer = 0
    | OrBit(field: nat, bit: nat)         // if (m->f) bit_buffer |= (1 << bit)
    | PutBits                             // amqp_encode_8(bit_buffer)
    | Put(field: nat, ty: FieldType)

  /** Statements of an emitted decoder. */
  datatype DecodeOp =
    | GetBits                             // amqp_decode_8(&bit_buffer)
    | TestBit(field: nat, bit: nat)       // m->f = (bit_buffer & (1 << bit)) ? 1 : 0
    | Fetch(field: nat, ty: FieldType)

  // ----- The emitters -----

  /** `BitEncoder`: `bit` is the next bit position in the byte being collected. */
  class BitEncoder {
    var bit: nat
    var program: seq<EncodeOp>

    constructor ()
      ensures bit == 0 && program == []
    {
      bit, program := 0, [];
    }

    method Flush()
      modifies this
      ensures program == old(program) + Flushing(old(bit)) && bit == 0
    {
      if bit != 0 {
        program := program + [PutBits];
        bit := 0;
      }
    }

    method Emit(op: EncodeOp)
      modifies this
      ensures program == old(program) + (Flushing(old(bit)) + [op]) && bit == 0
    {
      Flush();
      program := program + [op];
    }

    method EncodeBit(field: nat)
      requires bit < 8
      modifies this
      ensures program == old(program) + FlagOps(field, old(bit))
      ensures bit == (old(bit) + 1) % 8
    {
      if bit == 0 {
        program := program + [ClearBits];
      }
      program := program + [OrBit(field, bit)];
      bit := bit + 1;
      if bit == 8 {
        Flush();
      }
    }
  }

  /** `BitDecoder` */
  class BitDecoder {
    var bit: nat
    var program: seq<DecodeOp>

    constructor ()
      ensures bit == 0 && program == []
    {
      bit, program := 0, [];
    }

    method Emit(op: DecodeOp)
      modifies this
      ensures program == old(program) + [op] && bit == 0
    {
      bit := 0;
      program := program + [op];
    }

    method DecodeBit(field: nat)
      requires bit < 8
      modifies this
      ensures program == old(program) + UnflagOps(field, old(bit))
      ensures bit == (old(bit) + 1) % 8
    {
      if bit == 0 {
        program := program + [GetBits];
      }
      program := program + [TestBit(field, bit)];
      bit := bit + 1;
      if bit == 8 {
        bit := 0;
      }
    }
  }

  function Flushing(bit: nat): seq<EncodeOp>
  {
    if bit == 0 then [] else [PutBits]
  }

  function FlagOps(field: nat, bit: nat): seq<EncodeOp>
  {
    (if bit == 0 then [ClearBits] else []) + [OrBit(field, bit)] + (if bit == 7 then [PutBits] else [])
  }

  function UnflagOps(field: nat, bit: nat): seq<DecodeOp>
  {
    (if bit == 0 then [GetBits] else []) + [TestBit(field, bit)]
  }

  /** What the encoder emits for the fields from `i` on, with `bit` bits collected so far. */
  function EncodeProgram(fs: seq<FieldType>, i: nat, bit: nat): seq<EncodeOp>
    requires i <= |fs| && bit < 8
    decreases |fs| - i
  {
    if i == |fs| then Flushing(bit)
    else if fs[i].Flag? then FlagOps(i, bit) + EncodeProgram(fs, i + 1, (bit + 1) % 8)
    else Flushing(bit) + [Put(i, fs[i])] + EncodeProgram(fs, i + 1, 0)
  }

  function DecodeProgram(fs: seq<FieldType>, i: nat, bit: nat): seq<DecodeOp>
    requires i <= |fs| && bit < 8
    decreases |fs| - i
  {
    if i == |fs| then []
    else if fs[i].Flag? then UnflagOps(i, bit) + DecodeProgram(fs, i + 1, (bit + 1) % 8)
    else [Fetch(i, fs[i])] + DecodeProgram(fs, i + 1, 0)
  }

  /** `genEncodeMethodFields` */
  method GenerateEncoder(fs: seq<FieldType>) returns (program: seq<EncodeOp>)
    ensures program == EncodeProgram(fs, 0, 0)
  {
    var emitter := new BitEncoder();
    for i := 0 to |fs|
      invariant emitter.bit < 8
      invariant emitter.program + EncodeProgram(fs, i, emitter.bit) == EncodeProgram(fs, 0, 0)
    {
      ghost var p, bit := emitter.program, emitter.bit;
      if fs[i].Flag? {
        emitter.EncodeBit(i);
        Reassociate(p, FlagOps(i, bit), EncodeProgram(fs, i + 1, emitter.bit));
      } else {
        emitter.Emit(Put(i, fs[i]));
        Reassociate(p, Flushing(bit) + [Put(i, fs[i])], EncodeProgram(fs, i + 1, 0));
      }
    }
    emitter.Flush();
    program := emitter.program;
  }

  /** `genDecodeMethodFields` */
  method GenerateDecoder(fs: seq<FieldType>) returns (program: seq<DecodeOp>)
    ensures program == DecodeProgram(fs, 0, 0)
  {
    var emitter := new BitDecoder();
    for i := 0 to |fs|
      invariant emitter.bit < 8
      invariant emitter.program + DecodeProgram(fs, i, emitter.bit) == DecodeProgram(fs, 0, 0)
    {
      ghost var p, bit := emitter.program, emitter.bit;
      if fs[i].Flag? {
        emitter.DecodeBit(i);
        Reassociate(p, UnflagOps(i, bit), DecodeProgram(fs, i + 1, emitter.bit));
      } else {
        emitter.Emit(Fetch(i, fs[i]));
        Reassociate(p, [Fetch(i, fs[i])], DecodeProgram(fs, i + 1, 0));
      }
    }
    program := emitter.program;
    assert program + [] == program;
  }

  // ----- What the emitted programs do -----

  /** `b |= (1 << k)` and `b & (1 << k)` on a byte. */
  function SetBit(b: nat, k: nat): nat
  {
    if k == 0 then (if b % 2 == 0 then b + 1 else b) else b % 2 + 2 * SetBit(b / 2, k - 1)
  }

  predicate HasBit(b: nat, k: nat)
  {
    if k == 0 then b % 2 == 1 else HasBit(b / 2, k - 1)
  }

  ghost predicate Typed(fs: seq<FieldType>, vs: seq<Value>)
  {
    |fs| == |vs| && forall i :: 0 <= i < |fs| ==> HasType(fs[i], vs[i])
  }

  ghost predicate AllEncodable(fs: seq<FieldType>, vs: seq<Value>, from: nat)
    requires Typed(fs, vs)
  {
    forall i :: from <= i < |fs| ==> Encodable(fs[i], vs[i])
  }

  ghost predicate AllRestorable(fs: seq<FieldType>, vs: seq<Value>)
    requires Typed(fs, vs)
  {
    forall i :: 0 <= i < |fs| ==> Restorable(fs[i], vs[i])
  }

  datatype Encoded = Failed(status: Status) | Written(bytes: Bytes)

  /**
    Runs an encoder on struct `vs` into a buffer of `cap` bytes; `out` is what it has written so far.
    A statement that does not suit the struct has no meaning in C.
   */
  function RunEncode(p: seq<EncodeOp>, vs: seq<Value>, cap: nat, out: Bytes, bits: nat): Encoded
    decreases p
  {
    if p == [] then Written(out)
    else
      match p[0]
      case ClearBits => RunEncode(p[1..], vs, cap, out, 0)
      case OrBit(f, k) =>
        if f >= |vs| || !vs[f].FlagValue? then Failed(Undefined)
        else RunEncode(p[1..], vs, cap, out, if vs[f].flag then SetBit(bits, k) else bits)
      case PutBits =>
        if |out| + 1 <= cap then RunEncode(p[1..], vs, cap, out + [bits % 256], bits) else Failed(BadAmqpData)
      case Put(f, ty) =>
        if f >= |vs| || ty.Flag? || !HasType(ty, vs[f]) then Failed(Undefined)
        else
          var st := PutOutcome(ty, vs[f], cap - |out|);
          if st == OK then RunEncode(p[1..], vs, cap, out + FieldBytes(ty, vs[f]), bits) else Failed(st)
  }

  type Struct = map<nat, Value>

  /** Runs a decoder; `m` is the struct filled so far. */
  function RunDecode(p: seq<DecodeOp>, s: Bytes, bits: nat, m: Struct): Parse<Struct>
    decreases p
  {
    if p == [] then Good(m, s)
    else
      match p[0]
      case GetBits =>
        var n := DecodeNum(s, 1);
        if n.Bad? then Bad(n.status) else RunDecode(p[1..], n.rest, n.value, m)
      case TestBit(f, k) => RunDecode(p[1..], s, bits, m[f := FlagValue(HasBit(bits, k))])
      case Fetch(f, ty) =>
        if ty.Flag? then Bad(Undefined)
        else
          var v := Get(ty, s);
          if v.Bad? then Bad(v.status) else RunDecode(p[1..], v.rest, bits, m[f := v.value])
  }

  // ----- The layout the programs implement: section 4.2.5.2 of AMQP 0-9-1 -----

  /** Consecutive bits share an octet, the first in the lowest place. */
  function Pack(bits: seq<bool>): nat
  {
    if bits == [] then 0 else (if bits[0] then 1 else 0) + 2 * Pack(bits[1..])
  }

  function PackOctet(bits: seq<bool>): Bytes
  {
    if bits == [] then [] else [Pack(bits) % 256]
  }

  /** The bytes of the fields from `i` on, with `pending` the bits of the octet being collected. */
  function Layout(fs: seq<FieldType>, vs: seq<Value>, i: nat, pending: seq<bool>): Bytes
    requires Typed(fs, vs) && i <= |fs|
    decreases |fs| - i
  {
    if i == |fs| then PackOctet(pending)
    else if fs[i].Flag? then
      var bits := pending + [vs[i].flag];
      if |bits| == 8 then PackOctet(bits) + Layout(fs, vs, i + 1, []) else Layout(fs, vs, i + 1, bits)
    else PackOctet(pending) + FieldBytes(fs[i], vs[i]) + Layout(fs, vs, i + 1, [])
  }

  function StructOf(vs: seq<Value>, n: nat): Struct
    requires n <= |vs|
  {
    map i: nat | i < n :: vs[i]
  }

  // ----- Bits -----

  lemma {:induction false} PackSnoc(bits: seq<bool>, flag: bool)
    ensures Pack(bits + [flag]) == if flag then SetBit(Pack(bits), |bits|) else Pack(bits)
  {
    if bits == [] {
      assert bits + [flag] == [flag] && [flag][1..] == [];
    } else {
      PackSnoc(bits[1..], flag);
      assert (bits + [flag])[1..] == bits[1..] + [flag];
    }
  }

  lemma {:induction false} PackHasBit(bits: seq<bool>, k: nat)
    requires k < |bits|
    ensures HasBit(Pack(bits), k) == bits[k]
  {
    if k > 0 {
      PackHasBit(bits[1..], k - 1);
    }
  }

  lemma {:induction false} PackBound(bits: seq<bool>, n: nat, bound: nat)
    requires |bits| <= n && bound == Pow2(n)
    ensures Pack(bits) < bound
  {
    if bits != [] {
      PackBound(bits[1..], n - 1, Pow2(n - 1));
    }
  }

  function Pow2(n: nat): (r: nat)
    ensures r > 0
  {
    if n == 0 then 1 else 2 * Pow2(n - 1)
  }

  lemma OctetBound(bits: seq<bool>)
    requires |bits| <= 8
    ensures Pack(bits) < 256
  {
    assert Pow2(4) == 16 && Pow2(6) == 64 && Pow2(8) == 256;
    PackBound(bits, 8, 256);
  }

  // ----- The emitted encoder computes the layout -----

  lemma RunCons(op: EncodeOp, p: seq<EncodeOp>)
    ensures ([op] + p)[0] == op && ([op] + p)[1..] == p
  {
  }

  lemma RunNothing(vs: seq<Value>, cap: nat, out: Bytes, bits: nat)
    ensures RunEncode([], vs, cap, out, bits) == Written(out)
  {
  }

  lemma RunFlush(pending: seq<bool>, p: seq<EncodeOp>, vs: seq<Value>, cap: nat, out: Bytes, bits: nat)
    requires pending != [] ==> bits == Pack(pending)
    ensures RunEncode(Flushing(|pending|) + p, vs, cap, out, bits) ==
            if pending != [] && |out| + 1 > cap then Failed(BadAmqpData)
            else RunEncode(p, vs, cap, out + PackOctet(pending), bits)
  {
    if pending == [] {
      assert Flushing(0) + p == p;
      assert out + PackOctet(pending) == out;
    } else {
      RunCons(PutBits, p);
    }
  }

  lemma RunFlag(f: nat, pending: seq<bool>, p: seq<EncodeOp>, vs: seq<Value>, cap: nat, out: Bytes, bits: nat)
    requires pending != [] ==> bits == Pack(pending)
    requires |pending| < 8 && f < |vs| && vs[f].FlagValue?
    ensures var octet := pending + [vs[f].flag];
            RunEncode(FlagOps(f, |pending|) + p, vs, cap, out, bits) ==
            if |octet| < 8 then RunEncode(p, vs, cap, out, Pack(octet))
            else if |out| + 1 > cap then Failed(BadAmqpData)
            else RunEncode(p, vs, cap, out + PackOctet(octet), Pack(octet))
  {
    var octet := pending + [vs[f].flag];
    PackSnoc(pending, vs[f].flag);
    var close := if |octet| == 8 then [PutBits] else [];
    var q := [OrBit(f, |pending|)] + (close + p);
    assert pending == [] ==> Pack(pending) == 0;
    if pending == [] {
      assert FlagOps(f, |pending|) + p == [ClearBits] + q;
      RunCons(ClearBits, q);
    } else {
      assert FlagOps(f, |pending|) + p == q;
    }
    RunCons(OrBit(f, |pending|), close + p);
    if |octet| == 8 {
      RunCons(PutBits, p);
    } else {
      assert close + p == p;
    }
  }

  lemma RunPut(f: nat, ty: FieldType, p: seq<EncodeOp>, vs: seq<Value>, cap: nat, out: Bytes, bits: nat)
    requires f < |vs| && !ty.Flag? && HasType(ty, vs[f])
    ensures var bytes := FieldBytes(ty, vs[f]);
            RunEncode([Put(f, ty)] + p, vs, cap, out, bits) ==
            if Encodable(ty, vs[f]) && |out| + |bytes| <= cap then RunEncode(p, vs, cap, out + bytes, bits)
            else Failed(PutOutcome(ty, vs[f], cap - |out|))
  {
    RunCons(Put(f, ty), p);
    PutFits(ty, vs[f], cap - |out|);
  }

  ghost predicate WritesLayout(
      fs: seq<FieldType>, vs: seq<Value>, i: nat, pending: seq<bool>, cap: nat, out: Bytes, bits: nat)
    requires Typed(fs, vs) && i <= |fs| && |pending| < 8
  {
    var r := RunEncode(EncodeProgram(fs, i, |pending|), vs, cap, out, bits);
    var all := out + Layout(fs, vs, i, pending);
    if AllEncodable(fs, vs, i) && |all| <= cap then r == Written(all) else r.Failed?
  }

  /** The emitted encoder writes the layout of the fields, and succeeds exactly when they are encodable and fit. */
  lemma {:induction false} EncoderWritesLayout(
      fs: seq<FieldType>, vs: seq<Value>, i: nat, pending: seq<bool>, cap: nat, out: Bytes, bits: nat)
    requires Typed(fs, vs) && i <= |fs| && |pending| < 8 && |out| <= cap
    requires pending != [] ==> bits == Pack(pending)
    ensures WritesLayout(fs, vs, i, pending, cap, out, bits)
    decreases |fs| - i
  {
    hide RunEncode, FieldBytes, Encodable, PutOutcome, Pack;
    if i == |fs| {
      RunFlush(pending, [], vs, cap, out, bits);
      RunNothing(vs, cap, out + PackOctet(pending), bits);
      assert Flushing(|pending|) + [] == Flushing(|pending|);
    } else if fs[i].Flag? {
      hide WritesLayout;
      FlagsAreEncodable(fs, vs, i);
      var octet := pending + [vs[i].flag];
      if |octet| < 8 {
        EncoderWritesLayout(fs, vs, i + 1, octet, cap, out, Pack(octet));
      } else if |out| + 1 <= cap {
        EncoderWritesLayout(fs, vs, i + 1, [], cap, out + PackOctet(octet), Pack(octet));
      }
      EncoderAtFlag(fs, vs, i, pending, cap, out, bits);
    } else {
      hide WritesLayout;
      var bytes, out1 := FieldBytes(fs[i], vs[i]), out + PackOctet(pending);
      if |out1| + |bytes| <= cap && Encodable(fs[i], vs[i]) {
        EncoderWritesLayout(fs, vs, i + 1, [], cap, out1 + bytes, bits);
      }
      EncoderAtField(fs, vs, i, pending, cap, out, bits);
    }
  }

  lemma EncoderAtFlag(fs: seq<FieldType>, vs: seq<Value>, i: nat, pending: seq<bool>, cap: nat, out: Bytes, bits: nat)
    requires Typed(fs, vs) && i < |fs| && |pending| < 8 && |out| <= cap && fs[i].Flag? && vs[i].FlagValue?
    requires pending != [] ==> bits == Pack(pending)
    requires var octet := pending + [vs[i].flag];
             if |octet| < 8 then WritesLayout(fs, vs, i + 1, octet, cap, out, Pack(octet))
             else |out| + 1 <= cap ==> WritesLayout(fs, vs, i + 1, [], cap, out + PackOctet(octet), Pack(octet))
    ensures WritesLayout(fs, vs, i, pending, cap, out, bits)
  {
    hide RunEncode, FieldBytes, Encodable, PutOutcome, Pack, FlagOps;
    var octet := pending + [vs[i].flag];
    RunFlag(i, pending, EncodeProgram(fs, i + 1, (|pending| + 1) % 8), vs, cap, out, bits);
    FlagsAreEncodable(fs, vs, i);
    hide AllEncodable, Typed;
    if |octet| == 8 {
      Reassociate(out, PackOctet(octet), Layout(fs, vs, i + 1, []));
    }
  }

  lemma EncoderAtField(fs: seq<FieldType>, vs: seq<Value>, i: nat, pending: seq<bool>, cap: nat, out: Bytes, bits: nat)
    requires Typed(fs, vs) && i < |fs| && |pending| < 8 && |out| <= cap && !fs[i].Flag?
    requires pending != [] ==> bits == Pack(pending)
    requires var bytes, out1 := FieldBytes(fs[i], vs[i]), out + PackOctet(pending);
             |out1| + |bytes| <= cap && Encodable(fs[i], vs[i]) ==> WritesLayout(fs, vs, i + 1, [], cap, out1 + bytes, bits)
    ensures WritesLayout(fs, vs, i, pending, cap, out, bits)
  {
    hide RunEncode, FieldBytes, Encodable, PutOutcome, Pack, Flushing;
    var next := EncodeProgram(fs, i + 1, 0);
    var bytes, tail := FieldBytes(fs[i], vs[i]), Layout(fs, vs, i + 1, []);
    var out1 := out + PackOctet(pending);
    Reassociate(Flushing(|pending|), [Put(i, fs[i])], next);
    RunFlush(pending, [Put(i, fs[i])] + next, vs, cap, out, bits);
    RunPut(i, fs[i], next, vs, cap, out1, bits);
    assert AllEncodable(fs, vs, i) <==> Encodable(fs[i], vs[i]) && AllEncodable(fs, vs, i + 1);
    hide AllEncodable, Typed;
    Reassociate(out, PackOctet(pending) + bytes, tail);
    Reassociate(out, PackOctet(pending), bytes);
  }

  lemma FlagsAreEncodable(fs: seq<FieldType>, vs: seq<Value>, i: nat)
    requires Typed(fs, vs) && i < |fs| && fs[i].Flag?
    ensures vs[i].FlagValue? && (AllEncodable(fs, vs, i) <==> AllEncodable(fs, vs, i + 1))
  {
    assert HasType(fs[i], vs[i]);
  }

  // ----- The emitted decoder reads the layout back -----

  /** All bits of the octet whose first bits are `pending`. */
  function Octet(fs: seq<FieldType>, vs: seq<Value>, i: nat, pending: seq<bool>): (r: seq<bool>)
    requires Typed(fs, vs) && i <= |fs| && |pending| <= 8
    ensures |pending| <= |r| <= 8 && r[..|pending|] == pending
    decreases |fs| - i
  {
    if i < |fs| && fs[i].Flag? && |pending| < 8 then Octet(fs, vs, i + 1, pending + [vs[i].flag]) else pending
  }

  /** What follows that octet in the layout. */
  function Behind(fs: seq<FieldType>, vs: seq<Value>, i: nat, pending: seq<bool>): Bytes
    requires Typed(fs, vs) && i <= |fs| && 0 < |pending| <= 8
    decreases |fs| - i
  {
    if i == |fs| then []
    else if |pending| == 8 then Layout(fs, vs, i, [])
    else if fs[i].Flag? then Behind(fs, vs, i + 1, pending + [vs[i].flag])
    else FieldBytes(fs[i], vs[i]) + Layout(fs, vs, i + 1, [])
  }

  lemma {:induction false} LayoutStartsWithOctet(fs: seq<FieldType>, vs: seq<Value>, i: nat, pending: seq<bool>)
    requires Typed(fs, vs) && i <= |fs| && 0 < |pending| < 8
    ensures Layout(fs, vs, i, pending) == [Pack(Octet(fs, vs, i, pending)) % 256] + Behind(fs, vs, i, pending)
    decreases |fs| - i
  {
    hide FieldBytes, Pack, Layout, Behind, Octet;
    OctetStep(fs, vs, i, pending);
    if i < |fs| && fs[i].Flag? {
      var bits := pending + [vs[i].flag];
      if |bits| < 8 {
        LayoutStartsWithOctet(fs, vs, i + 1, bits);
      } else {
        OctetStep(fs, vs, i + 1, bits);
      }
    } else if i < |fs| {
      Reassociate([Pack(pending) % 256], FieldBytes(fs[i], vs[i]), Layout(fs, vs, i + 1, []));
    }
  }

  /** One field of the layout, of its first octet and of what follows that. */
  lemma OctetStep(fs: seq<FieldType>, vs: seq<Value>, i: nat, pending: seq<bool>)
    requires Typed(fs, vs) && i <= |fs| && 0 < |pending| <= 8
    ensures |pending| == 8 ==>
              && Octet(fs, vs, i, pending) == pending
              && Behind(fs, vs, i, pending) == Layout(fs, vs, i, [])
    ensures i == |fs| ==>
              && Layout(fs, vs, i, pending) == [Pack(pending) % 256]
              && Octet(fs, vs, i, pending) == pending && Behind(fs, vs, i, pending) == []
    ensures i < |fs| && fs[i].Flag? && |pending| < 8 ==>
              && vs[i].FlagValue?
              && var bits := pending + [vs[i].flag];
                 && Layout(fs, vs, i, pending) ==
                    (if |bits| == 8 then [Pack(bits) % 256] + Layout(fs, vs, i + 1, []) else Layout(fs, vs, i + 1, bits))
                 && Octet(fs, vs, i, pending) == Octet(fs, vs, i + 1, bits) && Behind(fs, vs, i, pending) == Behind(fs, vs, i + 1, bits)
    ensures i < |fs| && !fs[i].Flag? && |pending| < 8 ==>
              && Layout(fs, vs, i, pending) == [Pack(pending) % 256] + FieldBytes(fs[i], vs[i]) + Layout(fs, vs, i + 1, [])
              && Octet(fs, vs, i, pending) == pending
              && Behind(fs, vs, i, pending) == FieldBytes(fs[i], vs[i]) + Layout(fs, vs, i + 1, [])
  {
    hide FieldBytes, Pack;
    assert i < |fs| ==> HasType(fs[i], vs[i]);
    assert i == |fs| ==> Layout(fs, vs, i, []) == [];
  }

  lemma StructStep(vs: seq<Value>, i: nat)
    requires i < |vs|
    ensures StructOf(vs, i)[i := vs[i]] == StructOf(vs, i + 1)
  {
  }

  lemma DecodeCons(op: DecodeOp, p: seq<DecodeOp>)
    ensures ([op] + p)[0] == op && ([op] + p)[1..] == p
  {
  }

  /** One flag: the bit is tested in an octet that is already loaded, or loaded now. */
  lemma DecodeFlag(f: nat, bit: nat, p: seq<DecodeOp>, s: Bytes, bits: nat, m: Struct, octet: Byte, rest: Bytes)
    requires if bit == 0 then s == [octet] + rest else s == rest && bits == octet
    ensures RunDecode(UnflagOps(f, bit) + p, s, bits, m) ==
            RunDecode(p, rest, octet, m[f := FlagValue(HasBit(octet, bit))])
  {
    DecodeCons(TestBit(f, bit), p);
    if bit == 0 {
      assert UnflagOps(f, bit) + p == [GetBits] + ([TestBit(f, bit)] + p);
      DecodeCons(GetBits, [TestBit(f, bit)] + p);
      assert Be(1, octet) == [octet];
      Pow256Values();
      DecodeNumOf(1, octet, rest);
    } else {
      assert UnflagOps(f, bit) + p == [TestBit(f, bit)] + p;
    }
  }

  lemma DecodeField(f: nat, ty: FieldType, v: Value, p: seq<DecodeOp>, bits: nat, m: Struct, rest: Bytes)
    requires !ty.Flag? && HasType(ty, v) && Restorable(ty, v)
    ensures RunDecode([Fetch(f, ty)] + p, FieldBytes(ty, v) + rest, bits, m) == RunDecode(p, rest, bits, m[f := v])
  {
    DecodeCons(Fetch(f, ty), p);
    FieldRoundTrip(ty, v, rest);
  }

  /** Where the emitted decoder stands at field `i`: in front of the layout, or behind an octet it has loaded. */
  function Ahead(fs: seq<FieldType>, vs: seq<Value>, i: nat, pending: seq<bool>): Bytes
    requires Typed(fs, vs) && i <= |fs| && |pending| <= 8
  {
    if pending == [] then Layout(fs, vs, i, []) else Behind(fs, vs, i, pending)
  }

  lemma DecodeFlagStep(fs: seq<FieldType>, vs: seq<Value>, i: nat, pending: seq<bool>, bits: nat, post: Bytes)
    requires Typed(fs, vs) && i < |fs| && fs[i].Flag? && |pending| < 8
    requires pending != [] ==> bits == Pack(Octet(fs, vs, i, pending))
    ensures vs[i].FlagValue?
    ensures var octet := pending + [vs[i].flag];
            RunDecode(DecodeProgram(fs, i, |pending|), Ahead(fs, vs, i, pending) + post, bits, StructOf(vs, i)) ==
            RunDecode(DecodeProgram(fs, i + 1, (|pending| + 1) % 8), Behind(fs, vs, i + 1, octet) + post,
                      Pack(Octet(fs, vs, i + 1, octet)), StructOf(vs, i + 1))
  {
    hide RunDecode, Pack, HasBit, StructOf;
    assert HasType(fs[i], vs[i]);
    var octet := pending + [vs[i].flag];
    var all := Octet(fs, vs, i + 1, octet);
    OctetBound(all);
    PackHasBit(all, |pending|);
    assert all[|pending|] == all[..|octet|][|pending|] == vs[i].flag;
    if pending == [] {
      LayoutStartsWithOctet(fs, vs, i + 1, octet);
      Reassociate([Pack(all)], Behind(fs, vs, i + 1, octet), post);
    }
    DecodeFlag(i, |pending|, DecodeProgram(fs, i + 1, (|pending| + 1) % 8), Ahead(fs, vs, i, pending) + post, bits,
               StructOf(vs, i), Pack(all), Behind(fs, vs, i + 1, octet) + post);
    assert FlagValue(all[|pending|]) == vs[i];
    StructStep(vs, i);
  }

  /** The emitted decoder, entered at field `i`, fills in the remaining fields. */
  lemma {:induction false} DecoderReadsLayout(
      fs: seq<FieldType>, vs: seq<Value>, i: nat, pending: seq<bool>, bits: nat, post: Bytes)
    requires Typed(fs, vs) && AllRestorable(fs, vs) && i <= |fs| && |pending| < 8
    requires pending != [] ==> bits == Pack(Octet(fs, vs, i, pending))
    ensures ReadsLayout(fs, vs, i, pending, bits, post)
    decreases |fs| - i
  {
    hide RunDecode, FieldBytes, Pack, HasBit, Encodable, Restorable, StructOf, Octet;
    if i == |fs| {
      DecodeNothing(Ahead(fs, vs, i, pending) + post, bits, StructOf(vs, i));
      assert [] + post == post;
    } else if fs[i].Flag? {
      hide ReadsLayout;
      DecodeFlagStep(fs, vs, i, pending, bits, post);
      var octet := pending + [vs[i].flag];
      var all := Pack(Octet(fs, vs, i + 1, octet));
      DecoderReadsLayout(fs, vs, i + 1, if |octet| == 8 then [] else octet, all, post);
      DecoderAtFlag(fs, vs, i, pending, bits, post);
    } else {
      hide ReadsLayout;
      DecoderReadsLayout(fs, vs, i + 1, [], bits, post);
      DecoderAtField(fs, vs, i, pending, bits, post);
    }
  }

  ghost predicate ReadsLayout(fs: seq<FieldType>, vs: seq<Value>, i: nat, pending: seq<bool>, bits: nat, post: Bytes)
    requires Typed(fs, vs) && i <= |fs| && |pending| < 8
  {
    RunDecode(DecodeProgram(fs, i, |pending|), Ahead(fs, vs, i, pending) + post, bits, StructOf(vs, i)) ==
    Good(StructOf(vs, |vs|), post)
  }

  lemma DecoderAtFlag(fs: seq<FieldType>, vs: seq<Value>, i: nat, pending: seq<bool>, bits: nat, post: Bytes)
    requires Typed(fs, vs) && i < |fs| && |pending| < 8 && fs[i].Flag? && vs[i].FlagValue?
    requires pending != [] ==> bits == Pack(Octet(fs, vs, i, pending))
    requires var octet := pending + [vs[i].flag];
             ReadsLayout(fs, vs, i + 1, if |octet| == 8 then [] else octet, Pack(Octet(fs, vs, i + 1, octet)), post)
    ensures ReadsLayout(fs, vs, i, pending, bits, post)
  {
    hide RunDecode, Pack, StructOf, Octet, Layout, Behind, DecodeProgram, HasType;
    DecodeFlagStep(fs, vs, i, pending, bits, post);
    var octet := pending + [vs[i].flag];
    if |octet| == 8 {
      BehindFull(fs, vs, i + 1, octet);
    }
  }

  lemma DecoderAtField(fs: seq<FieldType>, vs: seq<Value>, i: nat, pending: seq<bool>, bits: nat, post: Bytes)
    requires Typed(fs, vs) && AllRestorable(fs, vs) && i < |fs| && |pending| < 8 && !fs[i].Flag?
    requires ReadsLayout(fs, vs, i + 1, [], bits, post)
    ensures ReadsLayout(fs, vs, i, pending, bits, post)
  {
    hide RunDecode, FieldBytes, Pack, HasBit, Encodable, Restorable, StructOf, Octet;
    var tail := Layout(fs, vs, i + 1, []);
    AheadOfField(fs, vs, i, pending);
    Reassociate(FieldBytes(fs[i], vs[i]), tail, post);
    DecodeField(i, fs[i], vs[i], DecodeProgram(fs, i + 1, 0), bits, StructOf(vs, i), tail + post);
    StructStep(vs, i);
  }

  lemma AheadOfField(fs: seq<FieldType>, vs: seq<Value>, i: nat, pending: seq<bool>)
    requires Typed(fs, vs) && i < |fs| && !fs[i].Flag? && |pending| < 8
    ensures Ahead(fs, vs, i, pending) == FieldBytes(fs[i], vs[i]) + Layout(fs, vs, i + 1, [])
  {
    assert PackOctet([]) + FieldBytes(fs[i], vs[i]) == FieldBytes(fs[i], vs[i]);
  }

  lemma DecodeNothing(s: Bytes, bits: nat, m: Struct)
    ensures RunDecode([], s, bits, m) == Good(m, s)
  {
  }

  lemma BehindFull(fs: seq<FieldType>, vs: seq<Value>, i: nat, pending: seq<bool>)
    requires Typed(fs, vs) && i <= |fs| && |pending| == 8
    ensures Behind(fs, vs, i, pending) == Layout(fs, vs, i, [])
  {
  }

  // ----- Main result -----

  /**
    For every field list, the generated decoder inverts the generated encoder: whenever encoding a
    struct succeeds, decoding the bytes, whatever follows them, restores every field and consumes
    exactly what was written. This covers runs of more than eight bits and bits split by other fields.
   */
  lemma GeneratedCodecsAreInverse(fs: seq<FieldType>, vs: seq<Value>, cap: nat, post: Bytes)
    requires Typed(fs, vs) && AllRestorable(fs, vs)
    requires RunEncode(EncodeProgram(fs, 0, 0), vs, cap, [], 0).Written?
    ensures var bytes := RunEncode(EncodeProgram(fs, 0, 0), vs, cap, [], 0).bytes;
            |bytes| <= cap && RunDecode(DecodeProgram(fs, 0, 0), bytes + post, 0, map[]) == Good(StructOf(vs, |vs|), post)
  {
    EncoderWritesLayout(fs, vs, 0, [], cap, [], 0);
    assert [] + Layout(fs, vs, 0, []) == Layout(fs, vs, 0, []);
    assert StructOf(vs, 0) == map[];
    DecoderReadsLayout(fs, vs, 0, [], 0, post);
  }

  /** queue.declare: ticket, queue, passive, durable, exclusive, auto-delete, nowait, arguments. */
  const QUEUE_DECLARE: seq<FieldType> := [Number(2), Text(1), Flag, Flag, Flag, Flag, Flag, Nested]

  /** The encoder emitted for queue.declare is the one printed in amqp_framing.c. */
  lemma QueueDeclareEncoder()
    ensures EncodeProgram(QUEUE_DECLARE, 0, 0) ==
            [Put(0, Number(2)), Put(1, Text(1)), ClearBits, OrBit(2, 0), OrBit(3, 1), OrBit(4, 2), OrBit(5, 3),
             OrBit(6, 4), PutBits, Put(7, Nested)]
  {
    var fs := QUEUE_DECLARE;
    hide EncodeProgram;
    EncodeStep(fs, 8, 0);
    EncodeStep(fs, 7, 5);
    assert EncodeProgram(fs, 7, 5) == [PutBits, Put(7, Nested)];
    EncodeStep(fs, 6, 4);
    EncodeStep(fs, 5, 3);
    assert EncodeProgram(fs, 5, 3) == [OrBit(5, 3), OrBit(6, 4), PutBits, Put(7, Nested)];
    EncodeStep(fs, 4, 2);
    EncodeStep(fs, 3, 1);
    assert EncodeProgram(fs, 3, 1) == [OrBit(3, 1), OrBit(4, 2), OrBit(5, 3), OrBit(6, 4), PutBits, Put(7, Nested)];
    EncodeStep(fs, 2, 0);
    EncodeStep(fs, 1, 0);
    EncodeStep(fs, 0, 0);
  }

  lemma EncodeStep(fs: seq<FieldType>, i: nat, bit: nat)
    requires i <= |fs| && bit < 8
    ensures i == |fs| && bit == 0 ==> EncodeProgram(fs, i, bit) == []
    ensures i < |fs| && fs[i].Flag? && bit < 7 ==>
              EncodeProgram(fs, i, bit) == (if bit == 0 then [ClearBits] else []) + [OrBit(i, bit)] + EncodeProgram(fs, i + 1, bit + 1)
    ensures i < |fs| && !fs[i].Flag? ==>
              EncodeProgram(fs, i, bit) == (if bit == 0 then [] else [PutBits]) + [Put(i, fs[i])] + EncodeProgram(fs, i + 1, 0)
  {
  }

  /** And so is the decoder. */
  lemma QueueDeclareDecoder()
    ensures DecodeProgram(QUEUE_DECLARE, 0, 0) ==
            [Fetch(0, Number(2)), Fetch(1, Text(1)), GetBits, TestBit(2, 0), TestBit(3, 1), TestBit(4, 2),
             TestBit(5, 3), TestBit(6, 4), Fetch(7, Nested)]
  {
    var fs := QUEUE_DECLARE;
    hide DecodeProgram;
    DecodeStep(fs, 8, 0);
    DecodeStep(fs, 7, 5);
    DecodeStep(fs, 6, 4);
    DecodeStep(fs, 5, 3);
    assert DecodeProgram(fs, 5, 3) == [TestBit(5, 3), TestBit(6, 4), Fetch(7, Nested)];
    DecodeStep(fs, 4, 2);
    DecodeStep(fs, 3, 1);
    assert DecodeProgram(fs, 3, 1) == [TestBit(3, 1), TestBit(4, 2), TestBit(5, 3), TestBit(6, 4), Fetch(7, Nested)];
    DecodeStep(fs, 2, 0);
    DecodeStep(fs, 1, 0);
    DecodeStep(fs, 0, 0);
  }

  lemma DecodeStep(fs: seq<FieldType>, i: nat, bit: nat)
    requires i <= |fs| && bit < 8
    ensures i == |fs| ==> DecodeProgram(fs, i, bit) == []
    ensures i < |fs| && fs[i].Flag? && bit < 7 ==>
              DecodeProgram(fs, i, bit) == (if bit == 0 then [GetBits] else []) + [TestBit(i, bit)] + DecodeProgram(fs, i + 1, bit + 1)
    ensures i < |fs| && !fs[i].Flag? ==> DecodeProgram(fs, i, bit) == [Fetch(i, fs[i])] + DecodeProgram(fs, i + 1, 0)
  {
  }
}
