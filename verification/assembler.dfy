/** The stream writer of ia32assembler/AssemblerBase.cs: operands are written one after the other, and read back without
    marks between them. */
module Assemblers {
  import opened Bytes
  import opened Operands

  // the exceptions, in the order the code tests for them
  datatype Fault =
    | NoFault
    | RmOutOfRange
    | RegOutOfRange
    | BaseOutOfRange
    | IndexOutOfRange
    | ScaleNotPower
    | NoSibHere
    | NoDispHere
    | UnknownScale

  // what becomes of an operand: the first test that fails, with or without a ModR/M byte already written
  function Refusal(rm: RegMem, regop: int32): Fault {
    if rm.scale != -1 && rm.scale != 0 && !Scaled(rm) then UnknownScale
    else if rm.scale <= 0 && !(0 <= rm.reg < 8) then RmOutOfRange
    else if !(0 <= regop < 8) then RegOutOfRange
    else if !(0 <= rm.reg < 8) then BaseOutOfRange
    else if rm.scale > 0 && !(0 <= rm.index < 8) then IndexOutOfRange
    else NoFault
  }
  lemma RefusedExactly(rm: RegMem, regop: int32)
    ensures Refusal(rm, regop) == NoFault <==> Encodable(rm) && 0 <= regop < 8
  {}

  // An operand without a base is never written, although RegMem.cs offers two forms of it; all others are, if the
  // registers exist.
  lemma FormsRefused(r: int32, i: int32, s: int32, d: int32, regop: int32)
    requires 0 <= regop < 8
    ensures Refusal(Absolute(d), regop) == RmOutOfRange && Refusal(IndexOnly(i, s, d), regop) != NoFault
    ensures Refusal(Direct(r), regop) == NoFault <==> 0 <= r < 8
    ensures Refusal(Indirect(r, d), regop) == NoFault <==> 0 <= r < 8
    ensures s in {1, 2, 4, 8} ==> (Refusal(Indexed(r, i, s, d), regop) == NoFault <==> 0 <= r < 8 && 0 <= i < 8)
  {}
  class IA32AssemblerBase {
    var stream: seq<byte>
    var lastmod: AddressMode
    var lastrm: int32

    constructor ()
      ensures stream == [] && lastmod == ModIndirect && lastrm == 0
    {
      stream := [];
      lastmod := ModIndirect;
      lastrm := 0;
    }
    predicate WithSIB() reads this { lastmod != ModDirect && lastrm == 4 }
    predicate WithDisp() reads this {
      match lastmod
      case ModDirect => false
      case ModIndirect => lastrm == 4
      case _ => true
    }
    method WriteModRM(rm: int32, reg: int32, mod: AddressMode) returns (f: Fault)
      modifies this
      ensures f == if !(0 <= rm < 8) then RmOutOfRange else if !(0 <= reg < 8) then RegOutOfRange else NoFault
      ensures f == NoFault ==> stream == old(stream) + [Packed(rm, reg, ModBits(mod))] && lastmod == mod && lastrm == rm
      ensures f != NoFault ==> stream == old(stream) && lastmod == old(lastmod) && lastrm == old(lastrm)
    {
      if rm < 0 || 7 < rm { return RmOutOfRange; }
      if reg < 0 || 7 < reg { return RegOutOfRange; }
      lastmod, lastrm := mod, rm;
      stream := stream + [Packed(rm, reg, ModBits(mod))];
      return NoFault;
    }
    method WriteSIB(basereg: int32, index: int32, scale: int32) returns (f: Fault)
      modifies this`stream
      ensures f == if !(0 <= basereg < 8) then BaseOutOfRange else if !(0 <= index < 8) then IndexOutOfRange
                   else if !WithSIB() then NoSibHere else if scale in {0, 1, 2, 4, 8} then NoFault else ScaleNotPower
      ensures f == NoFault ==> stream == old(stream) + [Packed(basereg, index, ScaleBits(scale))]
      ensures f != NoFault ==> stream == old(stream)
    {
      if basereg < 0 || 7 < basereg { return BaseOutOfRange; }
      if index < 0 || 7 < index { return IndexOutOfRange; }
      if !WithSIB() { return NoSibHere; }
      var ss: int32;
      match scale {
        case 0 => ss := 0;
        case 1 => ss := 0;
        case 2 => ss := 1;
        case 4 => ss := 2;
        case 8 => ss := 3;
        case _ => return ScaleNotPower;
      }
      stream := stream + [Packed(basereg, index, ss)];
      return NoFault;
    }
    method WriteDisplacement(displacement: int32) returns (f: Fault)
      modifies this`stream
      ensures f == NoFault <==> lastmod == ModDisp8 || lastmod == ModDisp32 || (lastmod == ModIndirect && lastrm == 5)
      ensures f == NoFault
              ==> stream
                  == old(stream) + if lastmod == ModDisp8 then GetBytes(displacement)[..1] else GetBytes(displacement)
      ensures f != NoFault ==> stream == old(stream)
    {
      var size;
      match lastmod {
        case ModDirect => return NoDispHere;
        case ModIndirect =>
          if lastrm != 5 { return NoDispHere; }
          size := 4;
        case ModDisp8 => size := 1;
        case ModDisp32 => size := 4;
      }
      stream := stream + GetBytes(displacement)[..size];
      return NoFault;
    }
    // An operand is refused, or all its bytes are written; two refusals come after the ModR/M byte.
    method WriteModifiers(rm: RegMem, regop: int32) returns (f: Fault)
      modifies this
      ensures f == Refusal(rm, regop)
      ensures f == NoFault
              ==> Encodable(rm) && stream == old(stream) + Encode(rm, regop) && lastmod == ModeOf(rm)
                  && lastrm == if NeedsSib(rm) then 4 else rm.reg
      ensures f == BaseOutOfRange || f == IndexOutOfRange ==>
        stream == old(stream) + [Packed(ESP, regop, ModBits(ModeOf(rm)))] && lastmod == ModeOf(rm) && lastrm == 4
      ensures f in {RmOutOfRange, RegOutOfRange, UnknownScale} ==>
        stream == old(stream) && lastmod == old(lastmod) && lastrm == old(lastrm)
    {
      hide Packed, GetBytes;
      if rm.scale == -1 {
        f := WriteModRM(rm.reg, regop, ModDirect);
        return;
      }
      var index, scale, reg := rm.index, rm.scale, rm.reg;
      match scale {
        case 0 => if rm.reg == 4 { index, scale := ESP, 1; }
        case 1 => reg := 4;
        case 2 => reg := 4;
        case 4 => reg := 4;
        case 8 => reg := 4;
        case _ => return UnknownScale;
      }
      var mod;
      if rm.disp == 0 {
        mod := if rm.reg == 5 then ModDisp8 else ModIndirect;
      } else if -128 <= rm.disp && rm.disp <= 127 {
        mod := ModDisp8;
      } else {
        mod := ModDisp32;
      }
      f := WriteModRM(reg, regop, mod);
      if f != NoFault { return; }
      if reg == 4 {
        f := WriteSIB(rm.reg, index, scale);
        if f != NoFault { return; }
      }
      if mod == ModDisp8 || mod == ModDisp32 {
        f := WriteDisplacement(rm.disp);
      }
    }
  }

  // ---- the getters ----

  // WithSIB tells whether the last operand has a SIB byte; WithDisp is right about the displacement exactly if the
  // operand is not one with a SIB byte and no displacement.
  lemma GettersExact(a: IA32AssemblerBase, rm: RegMem)
    requires Encodable(rm) && a.lastmod == ModeOf(rm) && a.lastrm == if NeedsSib(rm) then 4 else rm.reg
    ensures a.WithSIB() <==> |Sib(rm)| == 1
    ensures (a.WithDisp() <==> |DispBytes(rm)| > 0) <==> !(NeedsSib(rm) && ModeOf(rm) == ModIndirect)
  {
    hide Packed, GetBytes;
  }

  // ---- streams of operands ----

  datatype Operand = Operand(rm: RegMem, regop: int32)
  predicate Valid(o: Operand) { Encodable(o.rm) && 0 <= o.regop < 8 }
  predicate AllValid(os: seq<Operand>) { forall i :: 0 <= i < |os| ==> Valid(os[i]) }
  function EncodeAll(os: seq<Operand>): seq<byte> requires AllValid(os) {
    if os == [] then [] else Encode(os[0].rm, os[0].regop) + EncodeAll(os[1..])
  }
  function ReadAs(o: Operand): (int, Place) { (o.regop as int, PlaceOf(o.rm)) }
  // the operands found in the bytes up to the first that does not end
  function DecodeAll(b: seq<byte>): seq<(int, Place)>
    decreases |b|
  {
    var d := Decode(b);
    if d.Decoded? && 0 < d.length <= |b| then [(d.reg, d.place)] + DecodeAll(b[d.length..]) else []
  }
  lemma {:induction false} StreamBack(os: seq<Operand>)
    requires AllValid(os)
    ensures DecodeAll(EncodeAll(os)) == seq(|os|, i requires 0 <= i < |os| => ReadAs(os[i]))
  {
    hide Decode, Encode, PlaceOf, Encodable;
    if os == [] { EmptyStream(); return; }
    var o, b := os[0], EncodeAll(os);
    var rest := EncodeAll(os[1..]);
    DecodeEncode(o.rm, o.regop, rest);
    EncodedSome(o);
    assert b[|Encode(o.rm, o.regop)|..] == rest;
    StreamBack(os[1..]);
    assert forall i :: 0 <= i < |os| - 1 ==> os[1..][i] == os[i + 1];
  }
  lemma EmptyStream() ensures DecodeAll([]) == [] {}
  lemma EncodedSome(o: Operand) requires Valid(o) ensures |Encode(o.rm, o.regop)| > 0 {}
  // No two lists of operands that mean different things are written as the same bytes.
  lemma StreamUnique(a: seq<Operand>, b: seq<Operand>)
    requires AllValid(a) && AllValid(b) && EncodeAll(a) == EncodeAll(b)
    ensures |a| == |b| && forall i :: 0 <= i < |a| ==> ReadAs(a[i]) == ReadAs(b[i])
  {
    hide Decode, Encode, EncodeAll, DecodeAll, PlaceOf, Encodable, Valid;
    StreamBack(a); StreamBack(b);
    var ra, rb := seq(|a|, i requires 0 <= i < |a| => ReadAs(a[i])), seq(|b|, i requires 0 <= i < |b| => ReadAs(b[i]));
    assert ra == rb;
    forall i | 0 <= i < |a| ensures ReadAs(a[i]) == ReadAs(b[i]) { assert ra[i] == rb[i]; }
  }
  lemma UniqueMeaning(o: Operand, o': Operand)
    requires Valid(o) && Valid(o') && ReadAs(o) == ReadAs(o') && !(o.rm.scale > 0 && o.rm.index == ESP)
      && !(o'.rm.scale > 0 && o'.rm.index == ESP)
    ensures o.regop == o'.regop && forall regs :: Meant(o.rm, regs) == Meant(o'.rm, regs)
  {
    SameMeaning(o.rm); SameMeaning(o'.rm);
  }

  // ---- the shortest form ----

  lemma DispRange(b: seq<byte>, at: nat)
    requires at < |b|
    ensures -128 <= Disp8(b, at) < 128
  {}
  // whatever bytes read as the operand's place, they are no fewer, unless an index ESP made the encoder write a SIB
  // byte for nothing
  lemma NoShorter(rm: RegMem, regop: int32, b: seq<byte>)
    requires Encodable(rm) && 0 <= regop < 8 && !(rm.scale > 0 && rm.index == ESP && rm.reg != ESP)
    requires Decode(b).Decoded? && Decode(b).place == PlaceOf(rm)
    ensures |Encode(rm, regop)| <= Decode(b).length
  {
    hide Packed, GetBytes, Low, Middle, High, Disp8, Disp32;
    if |b| > 1 { DispRange(b, 1); }
    if |b| > 2 { DispRange(b, 2); }
  }
  lemma ShorterForm(rm: RegMem, regop: int32)
    requires Encodable(rm) && 0 <= regop < 8 && rm.scale > 0 && rm.index == ESP && rm.reg != ESP
    ensures var plain := Indirect(rm.reg, rm.disp);
            Encodable(plain) && PlaceOf(plain) == PlaceOf(rm) && |Encode(plain, regop)| < |Encode(rm, regop)|
  {
    hide Packed, GetBytes;
  }
}
