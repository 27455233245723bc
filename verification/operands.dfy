/** The operand encoder of ia32assembler/AssemblerBase.cs and the operand value of ia32assembler/RegMem.cs. */
module Operands {
  import opened Bytes

  const ESP: int32 := 4
  const EBP: int32 := 5
  const INVALID: int32 := -1
  newtype int32 = x: int | -0x8000_0000 <= x < 0x8000_0000

  // ---- RegMem ----

  datatype RegMem = RegMem(reg: int32, index: int32, scale: int32, disp: int32) {
    predicate WithIndex() { scale > 0 }
  }
  function Direct(r: int32): RegMem { RegMem(r, INVALID, -1, 0) }
  function Indirect(reg: int32, disp: int32): RegMem { RegMem(reg, INVALID, 0, disp) }
  function Indexed(reg: int32, index: int32, scale: int32, disp: int32): RegMem { RegMem(reg, index, scale, disp) }
  // the two forms without a base
  function Absolute(disp: int32): RegMem { RegMem(INVALID, INVALID, 0, disp) }
  function IndexOnly(index: int32, scale: int32, disp: int32): RegMem { RegMem(INVALID, index, scale, disp) }

  // a register operand, or the address of a memory operand under the registers' values
  datatype Meaning = Register(n: int) | Address(a: int)
  // what the caller of the assembler means by the operand
  function Meant(rm: RegMem, regs: int -> int): Meaning {
    if rm.scale == -1 then Register(rm.reg as int)
    else Address(((if rm.reg == INVALID then 0 else regs(rm.reg as int))
      + (if rm.WithIndex() then regs(rm.index as int) * rm.scale as int else 0) + rm.disp as int) % TWO32)
  }
  // every form means what its arguments say
  lemma FormsMean(r: int32, i: int32, s: int32, d: int32, regs: int -> int)
    ensures Meant(Direct(r), regs) == Register(r as int)
    ensures r != INVALID ==> Meant(Indirect(r, d), regs) == Address((regs(r as int) + d as int) % TWO32)
    ensures r != INVALID && s > 0
      ==> Meant(Indexed(r, i, s, d), regs) == Address((regs(r as int) + regs(i as int) * s as int + d as int) % TWO32)
    ensures Meant(Absolute(d), regs) == Address(d as int % TWO32)
    ensures s > 0 ==> Meant(IndexOnly(i, s, d), regs) == Address((regs(i as int) * s as int + d as int) % TWO32)
  {}

  // ---- the processor's reading: section 2.1.5 of volume 2 of the Intel 64 and IA-32 Architectures Software
  // Developer's Manual ----

  // base and index are -1 if there is none
  datatype Place = InRegister(n: int) | InMemory(base: int, index: int, scale: int, disp: int)
  datatype Decoded = TooShort | Decoded(reg: int, place: Place, length: nat)

  function Low(b: byte): int { ((b as bv8) & 7) as int }
  function Middle(b: byte): int { (((b as bv8) >> 3) & 7) as int }
  function High(b: byte): int { ((b as bv8) >> 6) as int }
  function Signed(u: int, half: int): int { if u >= half then u - 2 * half else u }
  function Disp8(b: seq<byte>, i: nat): int requires i < |b| { Signed(b[i] as int, 128) }
  function Disp32(b: seq<byte>, i: nat): int requires i + 3 < |b| { Signed(Dword(b, i), 0x8000_0000) }
  function ScaleOf(ss: int): int { if ss == 0 then 1 else if ss == 1 then 2 else if ss == 2 then 4 else 8 }
  // an address form up to the displacement, whose size mod gives
  function DecodeDisp(b: seq<byte>, at: nat, reg: int, base: int, index: int, scale: int, size: int): Decoded {
    if at + size > |b| then TooShort
    else if size == 0 then Decoded(reg, InMemory(base, index, scale, 0), at)
    else if size == 1 && at < |b| then Decoded(reg, InMemory(base, index, scale, Disp8(b, at)), at + 1)
    else if at + 3 < |b| then Decoded(reg, InMemory(base, index, scale, Disp32(b, at)), at + 4)
    else TooShort
  }
  function DispSize(mod: int): int { if mod == 0 then 0 else if mod == 1 then 1 else 4 }
  function Decode(b: seq<byte>): Decoded {
    if |b| == 0 then TooShort
    else
      var mod, reg, rm := High(b[0]), Middle(b[0]), Low(b[0]);
      if mod == 3 then Decoded(reg, InRegister(rm), 1)
      else if rm != 4 then
        if mod == 0 && rm == 5 then DecodeDisp(b, 1, reg, -1, -1, 0, 4)
        else DecodeDisp(b, 1, reg, rm, -1, 0, DispSize(mod))
      else if |b| == 1 then TooShort
      else
        var base, index, scale := Low(b[1]), Middle(b[1]), ScaleOf(High(b[1]));
        var (i, s) := if index == 4 then (-1, 0) else (index, scale);
        if mod == 0 && base == 5 then DecodeDisp(b, 2, reg, -1, i, s, 4)
        else DecodeDisp(b, 2, reg, base, i, s, DispSize(mod))
  }
  function Read(p: Place, regs: int -> int): Meaning {
    match p
    case InRegister(n) => Register(n)
    case InMemory(base, index, scale, disp) =>
      Address(((if base == -1 then 0 else regs(base)) + (if index == -1 then 0 else regs(index) * scale)
        + disp) % TWO32)
  }

  // ---- the encoding ----

  datatype AddressMode = ModIndirect | ModDisp8 | ModDisp32 | ModDirect
  function ModBits(m: AddressMode): int32 {
    match m case ModIndirect => 0 case ModDisp8 => 1 case ModDisp32 => 2 case ModDirect => 3
  }

  // three fields of a byte, from the lowest bits up
  function Packed(low: int32, middle: int32, high: int32): byte
    requires 0 <= low < 8 && 0 <= middle < 8 && 0 <= high < 4 {
    ByteOf(Bits8(low) | (Bits8(middle) << 3) | (Bits8(high) << 6))
  }
  function Bits8(x: int32): bv8 requires 0 <= x < 8 { x as bv8 }
  function ByteOf(b: bv8): byte { b as byte }
  lemma Fields(l: bv8, m: bv8, h: bv8)
    requires l < 8 && m < 8 && h < 4
    ensures var b := l | (m << 3) | (h << 6); b & 7 == l && (b >> 3) & 7 == m && b >> 6 == h
  {}
  lemma ByteBack(b: bv8)
    ensures ByteOf(b) as bv8 == b
  {}
  lemma FieldBack(x: int32)
    requires 0 <= x < 8
    ensures Bits8(x) < 8 && (x < 4 ==> Bits8(x) < 4) && Bits8(x) as int == x as int
  {}
  lemma PackedParts(low: int32, middle: int32, high: int32)
    requires 0 <= low < 8 && 0 <= middle < 8 && 0 <= high < 4
    ensures var b := Packed(low, middle, high);
            Low(b) == low as int && Middle(b) == middle as int && High(b) == high as int
  {
    hide Bits8, ByteOf;
    FieldBack(low); FieldBack(middle); FieldBack(high);
    Fields(Bits8(low), Bits8(middle), Bits8(high));
    ByteBack(Bits8(low) | (Bits8(middle) << 3) | (Bits8(high) << 6));
  }
  // BitConverter.GetBytes
  function GetBytes(d: int32): (b: seq<byte>)
    ensures |b| == 4
  {
    DwordBytes(if d < 0 then d as int + TWO32 else d as int)
  }
  lemma GetBytesBack(d: int32)
    ensures Disp32(GetBytes(d), 0) == d as int && (-128 <= d < 128 ==> Disp8(GetBytes(d), 0) == d as int)
  {
    var u := if d < 0 then d as int + TWO32 else d as int;
    DwordBack(u);
    LowDigit(d as int);
  }
  lemma LowDigit(d: int)
    requires -TWO32 <= d
    ensures -128 <= d < 0 ==> (d + TWO32) % 256 == d + 256
    ensures 0 <= d < 128 ==> d % 256 == d
  {}

  // the bytes of an operand: the ModR/M byte, perhaps a SIB byte, and zero, one or four bytes of displacement
  predicate Scaled(rm: RegMem) { rm.scale == 1 || rm.scale == 2 || rm.scale == 4 || rm.scale == 8 }
  predicate Encodable(rm: RegMem) {
    0 <= rm.reg < 8 && (rm.scale == -1 || rm.scale == 0 || (Scaled(rm) && 0 <= rm.index < 8))
  }
  predicate NeedsSib(rm: RegMem) { rm.scale > 0 || (rm.scale == 0 && rm.reg == ESP) }
  function ModeOf(rm: RegMem): AddressMode {
    if rm.scale == -1 then ModDirect
    else if rm.disp == 0 && rm.reg != EBP then ModIndirect
    else if -128 <= rm.disp <= 127 then ModDisp8
    else ModDisp32
  }
  function ScaleBits(scale: int32): int32 {
    if scale == 2 then 1 else if scale == 4 then 2 else if scale == 8 then 3 else 0
  }
  function Sib(rm: RegMem): seq<byte> requires Encodable(rm) {
    if !NeedsSib(rm) then [] else [Packed(rm.reg, if rm.scale == 0 then ESP else rm.index, ScaleBits(rm.scale))]
  }
  function DispBytes(rm: RegMem): seq<byte> {
    match ModeOf(rm)
    case ModDisp8 => GetBytes(rm.disp)[..1]
    case ModDisp32 => GetBytes(rm.disp)
    case _ => []
  }
  function Encode(rm: RegMem, regop: int32): seq<byte> requires Encodable(rm) && 0 <= regop < 8 {
    [Packed(if NeedsSib(rm) then ESP else rm.reg, regop, ModBits(ModeOf(rm)))] + Sib(rm) + DispBytes(rm)
  }

  // ---- decoding undoes encoding ----

  // the place a processor finds in the bytes: ESP cannot be an index, so it reads as none
  function PlaceOf(rm: RegMem): Place {
    if rm.scale == -1 then InRegister(rm.reg as int)
    else if rm.scale > 0 && rm.index
      != ESP then InMemory(rm.reg as int, rm.index as int, rm.scale as int, rm.disp as int)
    else InMemory(rm.reg as int, -1, 0, rm.disp as int)
  }
  lemma DispBack(rm: RegMem, head: seq<byte>, rest: seq<byte>, reg: int, base: int, index: int, scale: int)
    requires rm.scale != -1
    ensures DecodeDisp(head + DispBytes(rm) + rest, |head|, reg, base, index, scale,
      DispSize(ModBits(ModeOf(rm)) as int))
         == Decoded(reg, InMemory(base, index, scale, rm.disp as int), |head| + |DispBytes(rm)|)
  {
    hide GetBytes, Signed;
    GetBytesBack(rm.disp);
    var b, at := head + DispBytes(rm) + rest, |head|;
    if ModeOf(rm).ModDisp8? {
      assert b[at] == GetBytes(rm.disp)[0];
    } else if ModeOf(rm).ModDisp32? {
      assert b[at..at + 4] == GetBytes(rm.disp);
      assert forall i :: 0 <= i < 4 ==> b[at + i] == GetBytes(rm.disp)[i];
    }
  }
  // The bytes of an operand, whatever follows them, read back as its place; exactly those bytes are read.
  lemma DecodeEncode(rm: RegMem, regop: int32, rest: seq<byte>)
    requires Encodable(rm) && 0 <= regop < 8
    ensures Decode(Encode(rm, regop) + rest) == Decoded(regop as int, PlaceOf(rm), |Encode(rm, regop)|)
  {
    hide Packed, Low, Middle, High, DecodeDisp;
    var low, sib, b := if NeedsSib(rm) then ESP else rm.reg, Sib(rm), Encode(rm, regop) + rest;
    PackedParts(low, regop, ModBits(ModeOf(rm)));
    assert b[0] == Packed(low, regop, ModBits(ModeOf(rm)));
    if rm.scale != -1 {
      if NeedsSib(rm) {
        PackedParts(rm.reg, if rm.scale == 0 then ESP else rm.index, ScaleBits(rm.scale));
        assert b[1] == sib[0];
      }
      DispBack(rm, [b[0]] + sib, rest, regop as int, rm.reg as int, Read0(PlaceOf(rm)).0, Read0(PlaceOf(rm)).1);
      assert b == [b[0]] + sib + DispBytes(rm) + rest;
    }
  }
  ghost function Read0(p: Place): (int, int) { if p.InMemory? then (p.index, p.scale) else (0, 0) }
  // The place means what the caller meant, in every state of the registers, exactly if the index is not ESP.
  lemma SameMeaning(rm: RegMem)
    requires Encodable(rm)
    ensures (forall regs: int -> int :: Read(PlaceOf(rm), regs) == Meant(rm, regs))
      <==> !(rm.scale > 0 && rm.index == ESP)
  {
    if rm.scale > 0 && rm.index == ESP {
      var regs: int -> int := r => if r == 4 then 1 else 0;
      assert Read(PlaceOf(rm), regs) != Meant(rm, regs) by {
        OtherAddress(regs(rm.reg as int) + rm.disp as int, rm.scale as int);
      }
    }
  }
  // The bytes of an operand, whatever follows them, name the register or the address its form was given.
  lemma FormsRead(r: int32, i: int32, s: int32, d: int32, regop: int32, rest: seq<byte>, regs: int -> int)
    requires 0 <= r < 8 && 0 <= regop < 8
    ensures FoundIn(Direct(r), regop, rest, regs) == Register(r as int)
    ensures FoundIn(Indirect(r, d), regop, rest, regs) == Address((regs(r as int) + d as int) % TWO32)
    ensures s in {1, 2, 4, 8} && 0 <= i < 8 && i != ESP
      ==> FoundIn(Indexed(r, i, s, d), regop, rest, regs)
          == Address((regs(r as int) + regs(i as int) * s as int + d as int) % TWO32)
  {
    FormsMean(r, i, s, d, regs);
    FoundMeant(Direct(r), regop, rest, regs);
    FoundMeant(Indirect(r, d), regop, rest, regs);
    if s in {1, 2, 4, 8} && 0 <= i < 8 && i != ESP { FoundMeant(Indexed(r, i, s, d), regop, rest, regs); }
  }
  // what the processor finds in the operand's bytes
  function FoundIn(rm: RegMem, regop: int32, rest: seq<byte>, regs: int -> int): Meaning
    requires Encodable(rm) && 0 <= regop < 8
  {
    DecodeEncode(rm, regop, rest);
    Read(Decode(Encode(rm, regop) + rest).place, regs)
  }
  lemma FoundMeant(rm: RegMem, regop: int32, rest: seq<byte>, regs: int -> int)
    requires Encodable(rm) && 0 <= regop < 8 && !(rm.scale > 0 && rm.index == ESP)
    ensures FoundIn(rm, regop, rest, regs) == Meant(rm, regs)
  {
    hide Decode, Encode, PlaceOf, Read, Meant;
    DecodeEncode(rm, regop, rest);
    SameMeaning(rm);
  }
  lemma OtherAddress(a: int, s: int)
    requires 0 < s <= 8
    ensures a % TWO32 != (a + s) % TWO32
  {}
}
