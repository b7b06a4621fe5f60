/** x86-64 instruction encoding: the REX prefix, the ModR/M and SIB bytes,
    memory operands with their displacements, and the few instructions the
    JIT writes (Intel 64 and IA-32 Architectures Software Developer's Manual,
    Volume 2, section 2.1 "Instruction format" and section 2.2.1 "REX
    prefixes"). Every encoder is a pure function from operands to bytes. */
module Assembler {
  import opened Bytes

  // ---- bit fields of an encoding byte ----

  /** Bits 7-6 of a byte: the `mod` field of ModR/M, the `scale` field of SIB. */
  function High2(b: bv8): (f: bv8)
    ensures f < 4
  {
    b >> 6
  }

  /** Bits 5-3 of a byte: the `reg` field of ModR/M, the `index` field of SIB. */
  function Mid3(b: bv8): (f: bv8)
    ensures f < 8
  {
    (b >> 3) & 7
  }

  /** Bits 2-0 of a byte: the `rm` field of ModR/M, the `base` field of SIB. */
  function Low3(b: bv8): (f: bv8)
    ensures f < 8
  {
    b & 7
  }

  /** Bit k of a byte. */
  predicate Bit(b: bv8, k: nat)
    requires k < 8
  {
    (b >> k) & 1 == 1
  }

  /** A register number put back together from a REX extension bit and a 3-bit field. */
  function Extended(ext: bool, low: bv8): (n: bv8)
    requires low < 8
    ensures n < 16 && n & 7 == low && (n >= 8 <==> ext)
  {
    if ext then low + 8 else low
  }

  /** `b as u8` for a `bool`. */
  function Flag(b: bool): bv8 { if b then 1 else 0 }

  /** The REX prefix `0100WRXB`. */
  function Rex(w: bool, r: bool, x: bool, b: bool): (byte: bv8)
    ensures byte >> 4 == 4
    ensures Bit(byte, 3) == w && Bit(byte, 2) == r && Bit(byte, 1) == x && Bit(byte, 0) == b
  {
    0x40 | (Flag(w) << 3) | (Flag(r) << 2) | (Flag(x) << 1) | Flag(b)
  }

  /** The ModR/M byte: `mod` in bits 7-6, `reg` in bits 5-3, `rm` in bits 2-0, each masked. */
  function ModRm(mode: bv8, reg: bv8, rm: bv8): (b: bv8)
    ensures High2(b) == mode & 3 && Mid3(b) == reg & 7 && Low3(b) == rm & 7
  {
    ((mode & 3) << 6) | ((reg & 7) << 3) | (rm & 7)
  }

  /** The SIB byte: `scale` in bits 7-6, `index` in bits 5-3, `base` in bits 2-0, each masked. */
  function Sib(scale: bv8, index: bv8, base: bv8): (b: bv8)
    ensures High2(b) == scale & 3 && Mid3(b) == index & 7 && Low3(b) == base & 7
  {
    ((scale & 3) << 6) | ((index & 7) << 3) | (base & 7)
  }

  /** Every byte is the ModR/M (or SIB) byte of its own three fields. */
  lemma ModRmOfFields(b: bv8)
    ensures ModRm(High2(b), Mid3(b), Low3(b)) == b
    ensures Sib(High2(b), Mid3(b), Low3(b)) == b
  {
  }

  // ---- registers ----

  datatype Register64 =
    | Rax | Rcx | Rdx | Rbx | Rsp | Rbp | Rsi | Rdi
    | R8 | R9 | R10 | R11 | R12 | R13 | R14 | R15
  {
    /** The register's 4-bit number: bits 2-0 go in an opcode or ModR/M field, bit 3 in REX. */
    function Number(): (n: bv8)
      ensures n < 16
    {
      match this
      case Rax => 0  case Rcx => 1  case Rdx => 2  case Rbx => 3
      case Rsp => 4  case Rbp => 5  case Rsi => 6  case Rdi => 7
      case R8 => 8   case R9 => 9   case R10 => 10 case R11 => 11
      case R12 => 12 case R13 => 13 case R14 => 14 case R15 => 15
    }

    /** The memory operand `[self + offset]`. */
    function WithOffset(offset: I32): (a: Addressing)
      ensures a.base == this && a.offset == offset
    {
      Addressing(this, offset)
    }

    /** The memory operand `[self]`. */
    function ToMem(): (a: Addressing)
      ensures a.base == this && a.offset == 0
    {
      Addressing(this, 0)
    }

    /** `push r64`: opcode `50+rd`, with REX.B for R8-R15. */
    function Push(): (code: seq<bv8>)
      ensures |code| == if Number() < 8 then 1 else 2
      ensures code[|code| - 1] == 0x50 + Low3(Number())
      ensures |code| == 2 ==> code[0] == Rex(false, false, false, true)
    {
      var number := Number();
      if number < 8 then [0x50 + number] else [0x41, 0x50 + number - 8]
    }

    /** `pop r64`: opcode `58+rd`, with REX.B for R8-R15. */
    function Pop(): (code: seq<bv8>)
      ensures |code| == if Number() < 8 then 1 else 2
      ensures code[|code| - 1] == 0x58 + Low3(Number())
      ensures |code| == 2 ==> code[0] == Rex(false, false, false, true)
    {
      var number := Number();
      if number < 8 then [0x58 + number] else [0x41, 0x58 + number - 8]
    }

    /** `mov self, src` (`89 /r`): REX.W, the opcode, then ModR/M with mod=3, reg=src, rm=self. */
    function MovFromReg(src: Register64): (code: seq<bv8>)
      ensures |code| == 3 && code[0] >> 3 == 9 && !Bit(code[0], 1) && code[1] == 0x89
      ensures High2(code[2]) == 3
      ensures Extended(Bit(code[0], 2), Mid3(code[2])) == src.Number()
      ensures Extended(Bit(code[0], 0), Low3(code[2])) == Number()
    {
      var destNumber := Number();
      var srcNumber := src.Number();
      [Rex(true, srcNumber >= 8, false, destNumber >= 8), 0x89, ModRm(3, srcNumber, destNumber)]
    }

    /** `mov self, imm64` (`REX.W B8+rd io`): ten bytes ending in the little-endian immediate. */
    function MovFromImm(src: I64): (code: seq<bv8>)
      ensures |code| == 10 && code[0] >> 1 == 0x24
      ensures High2(code[1]) == 2 && Mid3(code[1]) == 7
      ensures Extended(Bit(code[0], 0), Low3(code[1])) == Number()
      ensures AsI64(LeValue(code[2..])) == src
    {
      var number := Number();
      var prefix: seq<bv8> := if number < 8 then [0x48, 0xb8 + number] else [0x49, 0xb8 + number - 8];
      I64LeRoundTrip(src);
      assert (prefix + Le64(AsU64(src)))[2..] == Le64(AsU64(src));
      prefix + Le64(AsU64(src))
    }

    /** `mov self, [src]` (`REX.W 8B /r`): reg=self, the memory operand in rm. */
    function MovFromMem(src: Addressing): (code: seq<bv8>)
      ensures 3 <= |code| <= 8 && code[0] >> 3 == 9 && !Bit(code[0], 1) && code[1] == 0x8b
      ensures code[2..] == src.ToCode(Number())
      ensures Extended(Bit(code[0], 2), Mid3(code[2])) == Number()
      ensures Extended(Bit(code[0], 0), Low3(code[2])) == src.base.Number()
    {
      var destNumber := Number();
      var srcNumber := src.base.Number();
      ToCodeModRm(src, destNumber);
      [Rex(true, destNumber >= 8, false, srcNumber >= 8), 0x8b] + src.ToCode(destNumber)
    }

    /** `call r64` (`FF /2`), with REX.B for R8-R15. */
    function Call(): (code: seq<bv8>)
      ensures |code| == if Number() < 8 then 2 else 3
      ensures |code| == 3 ==> code[0] == Rex(false, false, false, true)
      ensures code[|code| - 2] == 0xff
      ensures High2(code[|code| - 1]) == 3 && Mid3(code[|code| - 1]) == 2
      ensures Extended(|code| == 3, Low3(code[|code| - 1])) == Number()
    {
      var number := Number();
      if number < 8 then [0xff, 0xd0 + number] else [0x41, 0xff, 0xd0 + number - 8]
    }

    /** `add self, src` (`REX.W 01 /r`): mod=3, reg=src, rm=self. */
    function AddReg(src: Register64): (code: seq<bv8>)
      ensures |code| == 3 && code[0] >> 3 == 9 && !Bit(code[0], 1) && code[1] == 0x01
      ensures High2(code[2]) == 3
      ensures Extended(Bit(code[0], 2), Mid3(code[2])) == src.Number()
      ensures Extended(Bit(code[0], 0), Low3(code[2])) == Number()
    {
      var destNumber := Number();
      var srcNumber := src.Number();
      [Rex(true, srcNumber >= 8, false, destNumber >= 8), 0x01, ModRm(3, srcNumber, destNumber)]
    }
  }

  /** The 64-bit register whose number is `n`. */
  function Register64Of(n: bv8): (r: Register64)
    requires n < 16
    ensures r.Number() == n
  {
    match n
    case 0 => Rax  case 1 => Rcx  case 2 => Rdx  case 3 => Rbx
    case 4 => Rsp  case 5 => Rbp  case 6 => Rsi  case 7 => Rdi
    case 8 => R8   case 9 => R9   case 10 => R10 case 11 => R11
    case 12 => R12 case 13 => R13 case 14 => R14 case _ => R15
  }

  /** Register numbering is injective: `Register64Of` undoes `Number`. */
  lemma Register64NumberInjective(r: Register64)
    ensures Register64Of(r.Number()) == r
  {
  }

  datatype Register32 =
    | Eax | Ecx | Edx | Ebx | Esp | Ebp | Esi | Edi
    | R8d | R9d | R10d | R11d | R12d | R13d | R14d | R15d
  {
    /** The register's 4-bit number, laid out as for `Register64`. */
    function Number(): (n: bv8)
      ensures n < 16
    {
      match this
      case Eax => 0  case Ecx => 1  case Edx => 2  case Ebx => 3
      case Esp => 4  case Ebp => 5  case Esi => 6  case Edi => 7
      case R8d => 8  case R9d => 9  case R10d => 10 case R11d => 11
      case R12d => 12 case R13d => 13 case R14d => 14 case R15d => 15
    }

    /** `mov self, imm32` (`B8+rd id`), with REX.B for R8D-R15D. */
    function MovFromImm(src: I32): (code: seq<bv8>)
      ensures |code| == if Number() < 8 then 5 else 6
      ensures |code| == 6 ==> code[0] == Rex(false, false, false, true)
      ensures code[|code| - 5] == 0xb8 + Low3(Number())
      ensures AsI32(LeValue(code[|code| - 4..])) == src
    {
      var number := Number();
      var opcode: seq<bv8> := if number < 8 then [0xb8 + number] else [0x41, 0xb8 + number - 8];
      I32LeRoundTrip(src);
      assert (opcode + Le32(AsU32(src)))[|opcode|..] == Le32(AsU32(src));
      opcode + Le32(AsU32(src))
    }

    /** `add self, src` (`01 /r`, always preceded by a REX byte with W clear). */
    function AddReg(src: Register32): (code: seq<bv8>)
      ensures |code| == 3 && code[0] >> 3 == 8 && !Bit(code[0], 1) && code[1] == 0x01
      ensures High2(code[2]) == 3
      ensures Extended(Bit(code[0], 2), Mid3(code[2])) == src.Number()
      ensures Extended(Bit(code[0], 0), Low3(code[2])) == Number()
    {
      var destNumber := Number();
      var srcNumber := src.Number();
      [Rex(false, srcNumber >= 8, false, destNumber >= 8), 0x01, ModRm(3, srcNumber, destNumber)]
    }
  }

  /** The 32-bit register whose number is `n`. */
  function Register32Of(n: bv8): (r: Register32)
    requires n < 16
    ensures r.Number() == n
  {
    match n
    case 0 => Eax  case 1 => Ecx  case 2 => Edx  case 3 => Ebx
    case 4 => Esp  case 5 => Ebp  case 6 => Esi  case 7 => Edi
    case 8 => R8d  case 9 => R9d  case 10 => R10d case 11 => R11d
    case 12 => R12d case 13 => R13d case 14 => R14d case _ => R15d
  }

  /** Register numbering is injective: `Register32Of` undoes `Number`. */
  lemma Register32NumberInjective(r: Register32)
    ensures Register32Of(r.Number()) == r
  {
  }

  // ---- memory operands ----

  /** True when `v` fits a sign-extended 8-bit displacement or immediate. */
  predicate IsI8(v: int) { -128 <= v <= 127 }

  /** Bases whose rm encoding 100 means "a SIB byte follows". */
  predicate NeedsSib(r: Register64) { r == Rsp || r == R12 }

  /** Bases whose rm encoding 101 with mod=0 would mean RIP-relative. */
  predicate NeedsDisplacement(r: Register64) { r == Rbp || r == R13 }

  /** The memory operand `[base + offset]`. */
  datatype Addressing = Addressing(base: Register64, offset: I32) {

    /** The same base with another offset. */
    function WithOffset(offset: I32): (a: Addressing)
      ensures a.base == base && a.offset == offset
    {
      this.(offset := offset)
    }

    /** The ModR/M byte, the SIB byte when the base needs one, and the
        displacement: none, 8 bits, or 32 bits little-endian. */
    function ToCode(regOpcode: bv8): (code: seq<bv8>)
      ensures 1 <= |code| <= 6
    {
      var number := base.Number();
      if offset == 0 then
        match base
        case Rsp | R12 => [ModRm(0, regOpcode, 4), Sib(0, 4, 4)]
        case Rbp | R13 => [ModRm(1, regOpcode, number), 0]
        case _ => [ModRm(0, regOpcode, number)]
      else if IsI8(offset) then
        match base
        case Rsp | R12 => [ModRm(1, regOpcode, 4), Sib(0, 4, 4), LowByte(offset)]
        case _ => [ModRm(1, regOpcode, number), LowByte(offset)]
      else
        match base
        case Rsp | R12 => [ModRm(2, regOpcode, 4), Sib(0, 4, 4)] + Le32(AsU32(offset))
        case _ => [ModRm(2, regOpcode, number)] + Le32(AsU32(offset))
    }

    /** `push [base + offset]` (`FF /6`), with REX.B for R8-R15 bases. */
    function Push(): (code: seq<bv8>)
      ensures |code| == (if base.Number() >= 8 then 1 else 0) + 1 + |ToCode(6)|
      ensures base.Number() >= 8 ==> code[0] == Rex(false, false, false, true)
      ensures var k := if base.Number() >= 8 then 1 else 0;
        code[k] == 0xff && code[k + 1..] == ToCode(6)
    {
      var prefix: seq<bv8> := if base.Number() >= 8 then [0x41] else [];
      var code := prefix + [0xff] + ToCode(6);
      assert code[|prefix| + 1..] == ToCode(6);
      code
    }

    /** `mov [base + offset], src` (`REX.W 89 /r`): reg=src, the memory operand in rm. */
    function MovFromReg(src: Register64): (code: seq<bv8>)
      ensures 3 <= |code| <= 8 && code[0] >> 3 == 9 && !Bit(code[0], 1) && code[1] == 0x89
      ensures code[2..] == ToCode(src.Number())
      ensures Extended(Bit(code[0], 2), Mid3(code[2])) == src.Number()
      ensures Extended(Bit(code[0], 0), Low3(code[2])) == base.Number()
    {
      var destNumber := base.Number();
      var srcNumber := src.Number();
      ToCodeModRm(this, srcNumber);
      [Rex(true, srcNumber >= 8, false, destNumber >= 8), 0x89] + ToCode(srcNumber)
    }
  }

  /** An 8-bit two's-complement value survives truncation to a byte. */
  lemma SignedLowByte(v: int)
    requires IsI8(v)
    ensures SignedByte(LowByte(v)) == v
  {
  }

  /** The `mod` field `ToCode` chooses: 0 for no displacement, 1 for 8 bits, 2 for 32 bits. */
  function DisplacementMode(a: Addressing): (mode: bv8)
    ensures mode <= 2
    ensures mode == 0 <==> a.offset == 0 && !NeedsDisplacement(a.base)
    ensures mode == 1 ==> IsI8(a.offset)
    ensures mode == 2 <==> !IsI8(a.offset)
  {
    if a.offset == 0 then (if NeedsDisplacement(a.base) then 1 else 0)
    else if IsI8(a.offset) then 1
    else 2
  }

  /** The ModR/M byte of a memory operand carries the reg/opcode field, the
      chosen `mod`, and the low bits of the base register, where 100 means
      "a SIB byte follows" and is used exactly for RSP and R12; mod=0 never
      appears with rm=101 (which would mean RIP-relative). */
  lemma ToCodeModRm(a: Addressing, regOpcode: bv8)
    ensures var b := a.ToCode(regOpcode)[0];
      && High2(b) == DisplacementMode(a)
      && Mid3(b) == regOpcode & 7
      && Low3(b) == Low3(a.base.Number())
      && (Low3(b) == 4 <==> NeedsSib(a.base))
      && (High2(b) == 0 ==> Low3(b) != 5)
  {
    var code := a.ToCode(regOpcode);
    var rm: bv8 := if NeedsSib(a.base) then 4 else a.base.Number();
    assert code[0] == ModRm(DisplacementMode(a), regOpcode, rm);
  }

  /** After the ModR/M byte (and the SIB byte `24` for RSP and R12) comes the
      displacement of the chosen size, which reads back as the offset. */
  lemma ToCodeDisplacement(a: Addressing, regOpcode: bv8)
    ensures var code := a.ToCode(regOpcode);
      var d := if NeedsSib(a.base) then 2 else 1;
      && d <= |code|
      && (d == 2 ==> code[1] == 0x24)
      && (DisplacementMode(a) == 0 ==> |code| == d)
      && (DisplacementMode(a) == 1 ==> |code| == d + 1 && SignedByte(code[d]) == a.offset)
      && (DisplacementMode(a) == 2 ==> |code| == d + 4 && AsI32(LeValue(code[d..])) == a.offset)
  {
    var code := a.ToCode(regOpcode);
    var d := if NeedsSib(a.base) then 2 else 1;
    match DisplacementMode(a)
    case 0 =>
    case 1 =>
      if a.offset != 0 {
        SignedLowByte(a.offset);
      }
    case 2 =>
      I32LeRoundTrip(a.offset);
      assert code[d..] == Le32(AsU32(a.offset));
  }

  // ---- immediates and `ret` ----

  /** `push imm8` (`6A ib`) when the value fits 8 bits, else `push imm32` (`68 id`). */
  function PushImmediate(v: I32): (code: seq<bv8>)
    ensures IsI8(v) ==> |code| == 2 && code[0] == 0x6a && SignedByte(code[1]) == v
    ensures !IsI8(v) ==> |code| == 5 && code[0] == 0x68 && AsI32(LeValue(code[1..])) == v
  {
    if IsI8(v) then
      SignedLowByte(v);
      [0x6a, LowByte(v)]
    else
      I32LeRoundTrip(v);
      assert ([0x68] + Le32(AsU32(v)))[1..] == Le32(AsU32(v));
      [0x68] + Le32(AsU32(v))
  }

  /** `ret`: the one byte `C3`. */
  function Ret(): (code: seq<bv8>)
    ensures |code| == 1 && code[0] == 0xc3
  {
    [0xc3]
  }
}
