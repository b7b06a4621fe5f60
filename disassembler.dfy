/** A reference decoder for the x86-64 forms the JIT writes, read off the
    instruction format (REX prefix, opcode, ModR/M, SIB, displacement,
    immediate). It accepts only those forms and rejects the rest, and it is
    the partner of the encoders in `Assembler`: decoding an encoding gives
    back the instruction and its length, whatever bytes follow. */
module Disassembler {
  import opened Bytes
  import opened Assembler

  datatype Option<T> = None | Some(value: T)

  /** The instructions the encoders of `Assembler` produce. */
  datatype Instr =
    | PushReg(reg: Register64)
    | PushImm(imm: I32)
    | PushMem(mem: Addressing)
    | PopReg(reg: Register64)
    | MovRegReg(dst: Register64, src: Register64)
    | MovReg32Imm(dst32: Register32, imm: I32)
    | MovRegImm64(dst: Register64, imm64: I64)
    | MovRegMem(dst: Register64, mem: Addressing)
    | MovMemReg(mem: Addressing, src: Register64)
    | CallReg(reg: Register64)
    | Return
    | AddRegReg(dst: Register64, src: Register64)
    | AddReg32Reg32(dst32: Register32, src32: Register32)

  /** The bytes the assembler writes for an instruction. */
  function Encode(i: Instr): (code: seq<bv8>)
    ensures 1 <= |code| <= 10
  {
    match i
    case PushReg(r) => r.Push()
    case PushImm(v) => PushImmediate(v)
    case PushMem(m) => m.Push()
    case PopReg(r) => r.Pop()
    case MovRegReg(d, s) => d.MovFromReg(s)
    case MovReg32Imm(d, v) => d.MovFromImm(v)
    case MovRegImm64(d, v) => d.MovFromImm(v)
    case MovRegMem(d, m) => d.MovFromMem(m)
    case MovMemReg(m, s) => m.MovFromReg(s)
    case CallReg(r) => r.Call()
    case Return => Ret()
    case AddRegReg(d, s) => d.AddReg(s)
    case AddReg32Reg32(d, s) => d.AddReg(s)
  }

  /** A decoded memory operand: the ModR/M reg field, the address, the byte count. */
  datatype MemOperand = MemOperand(reg: bv8, addr: Addressing, len: nat)

  /** Decodes ModR/M, an optional SIB byte without index, and the displacement;
      `baseExt` is the REX.B bit. */
  function DecodeMem(m: seq<bv8>, baseExt: bool): (r: Option<MemOperand>)
    ensures r.Some? ==> 1 <= r.value.len <= |m| && r.value.reg < 8
  {
    if |m| == 0 then None
    else
      var modrm := m[0];
      var mode := High2(modrm);
      var rm := Low3(modrm);
      var d := if rm == 4 then 2 else 1;
      if mode == 3 || |m| < d then None
      else if rm == 4 && Mid3(m[1]) != 4 then None
      else
        var baseLow := if rm == 4 then Low3(m[1]) else rm;
        if mode == 0 && baseLow == 5 then None
        else
          var dispLen := if mode == 0 then 0 else if mode == 1 then 1 else 4;
          if |m| < d + dispLen then None
          else
            var disp: I32 :=
              if mode == 0 then 0
              else if mode == 1 then SignedByte(m[d])
              else AsI32(LeValue(m[d..d + 4]));
            Some(MemOperand(Mid3(modrm), Addressing(Register64Of(Extended(baseExt, baseLow)), disp), d + dispLen))
  }

  /** Decodes the opcode at position `p` (0, or 1 after a REX prefix with bits W, R, X, B). */
  function DecodeOpcode(c: seq<bv8>, p: nat, w: bool, r: bool, x: bool, b: bool): (res: Option<(Instr, nat)>)
    requires p <= 1
    ensures res.Some? ==> p < res.value.1 <= |c|
  {
    if |c| <= p || x then None
    else
      var op := c[p];
      if 0x50 <= op < 0x60 && !w && !r then Some((DecodePushPop(op, b), p + 1))
      else if (op == 0x6a || op == 0x68) && p == 0 then DecodePushImmediate(c)
      else if 0xb8 <= op < 0xc0 && !r then DecodeMovImm(c, p, w, b)
      else if op == 0xff && !w && !r then DecodeGroupFf(c, p, b)
      else if (op == 0x89 || op == 0x8b) && w then DecodeMov(c, p, r, b)
      else if op == 0x01 then DecodeAdd(c, p, w, r, b)
      else if op == 0xc3 && p == 0 then Some((Return, 1))
      else None
  }

  /** `50+rd` (push) and `58+rd` (pop). */
  function DecodePushPop(op: bv8, b: bool): Instr
    requires 0x50 <= op < 0x60
  {
    if op < 0x58 then PushReg(Register64Of(Extended(b, op - 0x50)))
    else PopReg(Register64Of(Extended(b, op - 0x58)))
  }

  /** `6A ib` and `68 id`, never after a REX prefix. */
  function DecodePushImmediate(c: seq<bv8>): (res: Option<(Instr, nat)>)
    requires 1 <= |c| && (c[0] == 0x6a || c[0] == 0x68)
    ensures res.Some? ==> 1 < res.value.1 <= |c|
  {
    if c[0] == 0x6a then
      if |c| < 2 then None else Some((PushImm(SignedByte(c[1])), 2))
    else
      if |c| < 5 then None else Some((PushImm(AsI32(LeValue(c[1..5]))), 5))
  }

  /** `B8+rd id` (32-bit register), or `REX.W B8+rd io` (64-bit register). */
  function DecodeMovImm(c: seq<bv8>, p: nat, w: bool, b: bool): (res: Option<(Instr, nat)>)
    requires p < |c| && 0xb8 <= c[p] < 0xc0
    ensures res.Some? ==> p < res.value.1 <= |c|
  {
    var op := c[p];
    if w then
      if |c| < p + 9 then None
      else Some((MovRegImm64(Register64Of(Extended(b, op - 0xb8)), AsI64(LeValue(c[p + 1..p + 9]))), p + 9))
    else
      if |c| < p + 5 then None
      else Some((MovReg32Imm(Register32Of(Extended(b, op - 0xb8)), AsI32(LeValue(c[p + 1..p + 5]))), p + 5))
  }

  /** `FF /2` with a register (call) and `FF /6` with memory (push). */
  function DecodeGroupFf(c: seq<bv8>, p: nat, b: bool): (res: Option<(Instr, nat)>)
    requires p < |c|
    ensures res.Some? ==> p < res.value.1 <= |c|
  {
    if |c| < p + 2 then None
    else
      var modrm := c[p + 1];
      if High2(modrm) == 3 && Mid3(modrm) == 2 then
        Some((CallReg(Register64Of(Extended(b, Low3(modrm)))), p + 2))
      else if High2(modrm) != 3 && Mid3(modrm) == 6 then
        match DecodeMem(c[p + 1..], b)
        case None => None
        case Some(mo) => Some((PushMem(mo.addr), p + 1 + mo.len))
      else None
  }

  /** `REX.W 89 /r` (store, or register to register) and `REX.W 8B /r` (load). */
  function DecodeMov(c: seq<bv8>, p: nat, r: bool, b: bool): (res: Option<(Instr, nat)>)
    requires p < |c| && (c[p] == 0x89 || c[p] == 0x8b)
    ensures res.Some? ==> p < res.value.1 <= |c|
  {
    var op := c[p];
    if |c| < p + 2 then None
    else
      var modrm := c[p + 1];
      var regNumber := Extended(r, Mid3(modrm));
      if High2(modrm) == 3 then
        if op == 0x89 then Some((MovRegReg(Register64Of(Extended(b, Low3(modrm))), Register64Of(regNumber)), p + 2))
        else None
      else
        match DecodeMem(c[p + 1..], b)
        case None => None
        case Some(mo) =>
          if op == 0x89 then Some((MovMemReg(mo.addr, Register64Of(regNumber)), p + 1 + mo.len))
          else Some((MovRegMem(Register64Of(regNumber), mo.addr), p + 1 + mo.len))
  }

  /** `01 /r` between registers, 64-bit with REX.W and 32-bit without. */
  function DecodeAdd(c: seq<bv8>, p: nat, w: bool, r: bool, b: bool): (res: Option<(Instr, nat)>)
    requires p < |c|
    ensures res.Some? ==> p < res.value.1 <= |c|
  {
    if |c| < p + 2 || High2(c[p + 1]) != 3 then None
    else
      var modrm := c[p + 1];
      if w then
        Some((AddRegReg(Register64Of(Extended(b, Low3(modrm))), Register64Of(Extended(r, Mid3(modrm)))), p + 2))
      else
        Some((AddReg32Reg32(Register32Of(Extended(b, Low3(modrm))), Register32Of(Extended(r, Mid3(modrm)))), p + 2))
  }

  /** Decodes one instruction at the start of `c`: the instruction and its length. */
  function Decode(c: seq<bv8>): (r: Option<(Instr, nat)>)
    ensures r.Some? ==> 1 <= r.value.1 <= |c|
  {
    if |c| == 0 then None
    else if c[0] >> 4 == 4 then DecodeOpcode(c, 1, Bit(c[0], 3), Bit(c[0], 2), Bit(c[0], 1), Bit(c[0], 0))
    else DecodeOpcode(c, 0, false, false, false, false)
  }

  /** Decodes a whole byte string into instructions, or fails. */
  function Disassemble(c: seq<bv8>): Option<seq<Instr>>
    decreases |c|
  {
    if c == [] then Some([])
    else
      match Decode(c)
      case None => None
      case Some((i, n)) =>
        match Disassemble(c[n..])
        case None => None
        case Some(tail) => Some([i] + tail)
  }

  /** The bytes of an instruction sequence, one encoding after another. */
  function EncodeAll(instrs: seq<Instr>): (code: seq<bv8>)
    ensures |instrs| <= |code|
  {
    if instrs == [] then [] else Encode(instrs[0]) + EncodeAll(instrs[1..])
  }

  // ---- decoding inverts encoding ----

  /** A register number is its REX extension bit and its low three bits. */
  lemma ExtendedOfNumber(n: bv8)
    requires n < 16
    ensures Extended(n >= 8, Low3(n)) == n
  {
  }

  /** A memory operand decodes to its address, its reg field and its length. */
  lemma DecodeMemToCode(a: Addressing, reg: bv8, rest: seq<bv8>)
    ensures DecodeMem(a.ToCode(reg) + rest, a.base.Number() >= 8)
         == Some(MemOperand(reg & 7, a, |a.ToCode(reg)|))
  {
    var code := a.ToCode(reg);
    var m := code + rest;
    ToCodeModRm(a, reg);
    ToCodeDisplacement(a, reg);
    Register64NumberInjective(a.base);
    ExtendedOfNumber(a.base.Number());
    var d := if NeedsSib(a.base) then 2 else 1;
    assert m[0] == code[0];
    if d == 2 {
      assert m[1] == 0x24;
    }
    match DisplacementMode(a)
    case 0 =>
    case 1 =>
      assert m[d] == code[d];
    case 2 =>
      assert m[d..d + 4] == code[d..];
  }

  lemma DecodePushReg(r: Register64, rest: seq<bv8>)
    ensures Decode(r.Push() + rest) == Some((PushReg(r), |r.Push()|))
  {
    var c := r.Push() + rest;
    Register64NumberInjective(r);
    ExtendedOfNumber(r.Number());
    assert c[..|r.Push()|] == r.Push();
  }

  lemma DecodePopReg(r: Register64, rest: seq<bv8>)
    ensures Decode(r.Pop() + rest) == Some((PopReg(r), |r.Pop()|))
  {
    var c := r.Pop() + rest;
    Register64NumberInjective(r);
    ExtendedOfNumber(r.Number());
    assert c[..|r.Pop()|] == r.Pop();
  }

  lemma DecodePushImm(v: I32, rest: seq<bv8>)
    ensures Decode(PushImmediate(v) + rest) == Some((PushImm(v), |PushImmediate(v)|))
  {
    var code := PushImmediate(v);
    var c := code + rest;
    assert c[0] == code[0];
    if IsI8(v) {
      assert c[1] == code[1];
    } else {
      assert c[1..5] == code[1..];
    }
  }

  lemma DecodePushMem(a: Addressing, rest: seq<bv8>)
    ensures Decode(a.Push() + rest) == Some((PushMem(a), |a.Push()|))
  {
    var code := a.Push();
    var ext := a.base.Number() >= 8;
    var k := if ext then 1 else 0;
    var c := code + rest;
    assert c[k] == 0xff;
    assert c[k + 1..] == a.ToCode(6) + rest;
    GroupFfMemOperand(c, k, a, rest);
    assert DecodeOpcode(c, k, false, false, false, ext) == DecodeGroupFf(c, k, ext);
    if ext {
      assert c[0] == Rex(false, false, false, true);
      assert Decode(c) == DecodeOpcode(c, 1, false, false, false, true);
    } else {
      assert Decode(c) == DecodeOpcode(c, 0, false, false, false, false);
    }
  }

  /** `FF /6` followed by the encoding of a memory operand decodes as a push of it. */
  lemma GroupFfMemOperand(c: seq<bv8>, k: nat, a: Addressing, rest: seq<bv8>)
    requires k < |c| && c[k + 1..] == a.ToCode(6) + rest
    ensures DecodeGroupFf(c, k, a.base.Number() >= 8) == Some((PushMem(a), k + 1 + |a.ToCode(6)|))
  {
    DecodeMemToCode(a, 6, rest);
    ToCodeModRm(a, 6);
    assert c[k + 1] == a.ToCode(6)[0];
  }

  lemma DecodeMovRegReg(d: Register64, s: Register64, rest: seq<bv8>)
    ensures Decode(d.MovFromReg(s) + rest) == Some((MovRegReg(d, s), 3))
  {
    var code := d.MovFromReg(s);
    var c := code + rest;
    Register64NumberInjective(d);
    Register64NumberInjective(s);
    assert c[0] == code[0] && c[1] == code[1] && c[2] == code[2];
  }

  lemma DecodeAddRegReg(d: Register64, s: Register64, rest: seq<bv8>)
    ensures Decode(d.AddReg(s) + rest) == Some((AddRegReg(d, s), 3))
  {
    var code := d.AddReg(s);
    var c := code + rest;
    Register64NumberInjective(d);
    Register64NumberInjective(s);
    assert c[0] == code[0] && c[1] == code[1] && c[2] == code[2];
  }

  lemma DecodeAddReg32Reg32(d: Register32, s: Register32, rest: seq<bv8>)
    ensures Decode(d.AddReg(s) + rest) == Some((AddReg32Reg32(d, s), 3))
  {
    var code := d.AddReg(s);
    var c := code + rest;
    Register32NumberInjective(d);
    Register32NumberInjective(s);
    assert c[0] == code[0] && c[1] == code[1] && c[2] == code[2];
  }

  lemma DecodeMovReg32Imm(d: Register32, v: I32, rest: seq<bv8>)
    ensures Decode(d.MovFromImm(v) + rest) == Some((MovReg32Imm(d, v), |d.MovFromImm(v)|))
  {
    var code := d.MovFromImm(v);
    var n := |code|;
    var c := code + rest;
    Register32NumberInjective(d);
    ExtendedOfNumber(d.Number());
    assert c[0] == code[0] && c[n - 5] == code[n - 5];
    assert c[n - 4..n] == code[n - 4..];
  }

  lemma DecodeMovRegImm64(d: Register64, v: I64, rest: seq<bv8>)
    ensures Decode(d.MovFromImm(v) + rest) == Some((MovRegImm64(d, v), 10))
  {
    var code := d.MovFromImm(v);
    var c := code + rest;
    Register64NumberInjective(d);
    assert c[0] == code[0] && c[1] == code[1];
    assert c[2..10] == code[2..];
  }

  lemma DecodeMovRegMem(d: Register64, a: Addressing, rest: seq<bv8>)
    ensures Decode(d.MovFromMem(a) + rest) == Some((MovRegMem(d, a), |d.MovFromMem(a)|))
  {
    var code := d.MovFromMem(a);
    var c := code + rest;
    assert c[0] == code[0] && c[1] == code[1];
    assert c[2..] == a.ToCode(d.Number()) + rest;
    MovMemOperand(c, 0x8b, d, a, rest);
    assert Decode(c) == DecodeOpcode(c, 1, true, d.Number() >= 8, false, a.base.Number() >= 8);
  }

  lemma DecodeMovMemReg(a: Addressing, s: Register64, rest: seq<bv8>)
    ensures Decode(a.MovFromReg(s) + rest) == Some((MovMemReg(a, s), |a.MovFromReg(s)|))
  {
    var code := a.MovFromReg(s);
    var c := code + rest;
    assert c[0] == code[0] && c[1] == code[1];
    assert c[2..] == a.ToCode(s.Number()) + rest;
    MovMemOperand(c, 0x89, s, a, rest);
    assert Decode(c) == DecodeOpcode(c, 1, true, s.Number() >= 8, false, a.base.Number() >= 8);
  }

  /** `REX.W 89` or `REX.W 8B` followed by the encoding of a memory operand
      decodes as a store to it or a load from it. */
  lemma MovMemOperand(c: seq<bv8>, op: bv8, reg: Register64, a: Addressing, rest: seq<bv8>)
    requires op == 0x89 || op == 0x8b
    requires 2 <= |c| && c[1] == op && c[2..] == a.ToCode(reg.Number()) + rest
    ensures DecodeMov(c, 1, reg.Number() >= 8, a.base.Number() >= 8)
      == Some((if op == 0x89 then MovMemReg(a, reg) else MovRegMem(reg, a), 2 + |a.ToCode(reg.Number())|))
  {
    Register64NumberInjective(reg);
    DecodeMemToCode(a, reg.Number(), rest);
    ToCodeModRm(a, reg.Number());
    ExtendedOfNumber(reg.Number());
    assert c[2] == a.ToCode(reg.Number())[0];
  }

  lemma DecodeCallReg(r: Register64, rest: seq<bv8>)
    ensures Decode(r.Call() + rest) == Some((CallReg(r), |r.Call()|))
  {
    var code := r.Call();
    var c := code + rest;
    Register64NumberInjective(r);
    assert c[..|code|] == code;
  }

  /** Decoding the encoding of any instruction, followed by any bytes, gives
      back the instruction and the length of its encoding. */
  lemma DecodeEncode(i: Instr, rest: seq<bv8>)
    ensures Decode(Encode(i) + rest) == Some((i, |Encode(i)|))
  {
    if i.PushReg? || i.PushImm? || i.PushMem? || i.PopReg? || i.CallReg? || i.Return? {
      DecodeEncodeStack(i, rest);
    } else if i.MovRegReg? || i.MovReg32Imm? || i.MovRegImm64? {
      DecodeEncodeMovNoMem(i, rest);
    } else {
      DecodeEncodeOther(i, rest);
    }
  }

  /** The stack and control instructions. */
  lemma DecodeEncodeStack(i: Instr, rest: seq<bv8>)
    requires i.PushReg? || i.PushImm? || i.PushMem? || i.PopReg? || i.CallReg? || i.Return?
    ensures Decode(Encode(i) + rest) == Some((i, |Encode(i)|))
  {
    if i.PushReg? {
      DecodePushReg(i.reg, rest);
    } else if i.PushImm? {
      DecodePushImm(i.imm, rest);
    } else if i.PushMem? {
      DecodePushMem(i.mem, rest);
    } else if i.PopReg? {
      DecodePopReg(i.reg, rest);
    } else if i.CallReg? {
      DecodeCallReg(i.reg, rest);
    }
  }

  /** The moves without a memory operand. */
  lemma DecodeEncodeMovNoMem(i: Instr, rest: seq<bv8>)
    requires i.MovRegReg? || i.MovReg32Imm? || i.MovRegImm64?
    ensures Decode(Encode(i) + rest) == Some((i, |Encode(i)|))
  {
    if i.MovRegReg? {
      DecodeMovRegReg(i.dst, i.src, rest);
    } else if i.MovReg32Imm? {
      DecodeMovReg32Imm(i.dst32, i.imm, rest);
    } else {
      DecodeMovRegImm64(i.dst, i.imm64, rest);
    }
  }

  /** The moves with a memory operand and the adds. */
  lemma DecodeEncodeOther(i: Instr, rest: seq<bv8>)
    requires i.MovRegMem? || i.MovMemReg? || i.AddRegReg? || i.AddReg32Reg32?
    ensures Decode(Encode(i) + rest) == Some((i, |Encode(i)|))
  {
    if i.MovRegMem? {
      DecodeMovRegMem(i.dst, i.mem, rest);
    } else if i.MovMemReg? {
      DecodeMovMemReg(i.mem, i.src, rest);
    } else if i.AddRegReg? {
      DecodeAddRegReg(i.dst, i.src, rest);
    } else {
      DecodeAddReg32Reg32(i.dst32, i.src32, rest);
    }
  }

  /** Disassembling the encoding of an instruction sequence gives it back. */
  lemma {:induction false} DisassembleEncodeAll(instrs: seq<Instr>)
    ensures Disassemble(EncodeAll(instrs)) == Some(instrs)
  {
    if instrs != [] {
      var code := EncodeAll(instrs);
      var rest := EncodeAll(instrs[1..]);
      DecodeEncode(instrs[0], rest);
      DisassembleEncodeAll(instrs[1..]);
      assert code == Encode(instrs[0]) + rest;
      assert code[|Encode(instrs[0])|..] == rest;
      assert [instrs[0]] + instrs[1..] == instrs;
    }
  }

  /** Encoding is injective: two instructions with the same bytes are equal. */
  lemma EncodeInjective(i: Instr, j: Instr)
    requires Encode(i) == Encode(j)
    ensures i == j
  {
    DecodeEncode(i, []);
    DecodeEncode(j, []);
    assert Encode(i) + [] == Encode(i);
    assert Encode(j) + [] == Encode(j);
  }

  // ---- decoding reads only what it reports ----

  /** A memory operand is decoded from its own bytes alone. */
  lemma DecodeMemPrefix(m: seq<bv8>, ext: bool, rest: seq<bv8>)
    requires DecodeMem(m, ext).Some?
    ensures DecodeMem(m + rest, ext) == DecodeMem(m, ext)
  {
    var c := m + rest;
    var mode := High2(m[0]);
    var d := if Low3(m[0]) == 4 then 2 else 1;
    assert c[0] == m[0];
    if d == 2 {
      assert c[1] == m[1];
    }
    if mode == 1 {
      assert c[d] == m[d];
    } else if mode == 2 {
      assert c[d..d + 4] == m[d..d + 4];
    }
  }

  /** An opcode and its operands are decoded from their own bytes alone. */
  lemma DecodeOpcodePrefix(c: seq<bv8>, p: nat, w: bool, r: bool, x: bool, b: bool, rest: seq<bv8>)
    requires p <= 1
    requires DecodeOpcode(c, p, w, r, x, b).Some?
    ensures DecodeOpcode(c + rest, p, w, r, x, b) == DecodeOpcode(c, p, w, r, x, b)
  {
    if c[p] < 0x80 {
      LowOpcodePrefix(c, p, w, r, x, b, rest);
    } else {
      HighOpcodePrefix(c, p, w, r, x, b, rest);
    }
  }

  /** The opcodes below 80: push, pop, push immediate and add. */
  lemma LowOpcodePrefix(c: seq<bv8>, p: nat, w: bool, r: bool, x: bool, b: bool, rest: seq<bv8>)
    requires p <= 1
    requires DecodeOpcode(c, p, w, r, x, b).Some? && c[p] < 0x80
    ensures DecodeOpcode(c + rest, p, w, r, x, b) == DecodeOpcode(c, p, w, r, x, b)
  {
    var e := c + rest;
    var op := c[p];
    assert e[p] == op;
    if (op == 0x6a || op == 0x68) && p == 0 {
      PushImmPrefix(c, rest);
    } else if op == 0x01 {
      assert e[p + 1] == c[p + 1];
    }
  }

  /** The opcodes from 80: mov, the FF group and ret. */
  lemma HighOpcodePrefix(c: seq<bv8>, p: nat, w: bool, r: bool, x: bool, b: bool, rest: seq<bv8>)
    requires p <= 1
    requires DecodeOpcode(c, p, w, r, x, b).Some? && c[p] >= 0x80
    ensures DecodeOpcode(c + rest, p, w, r, x, b) == DecodeOpcode(c, p, w, r, x, b)
  {
    var e := c + rest;
    var op := c[p];
    assert e[p] == op;
    if 0xb8 <= op < 0xc0 && !r {
      MovImmPrefix(c, p, w, b, rest);
    } else if op == 0xff && !w && !r {
      OperandPrefix(c, p, b, rest);
    } else if (op == 0x89 || op == 0x8b) && w {
      OperandPrefix(c, p, b, rest);
    }
  }

  lemma PushImmPrefix(c: seq<bv8>, rest: seq<bv8>)
    requires 1 <= |c| && (c[0] == 0x6a || c[0] == 0x68)
    requires DecodePushImmediate(c).Some?
    ensures DecodePushImmediate(c + rest) == DecodePushImmediate(c)
  {
    var e := c + rest;
    assert e[0] == c[0];
    if c[0] == 0x6a {
      assert e[1] == c[1];
    } else {
      assert e[1..5] == c[1..5];
    }
  }

  lemma MovImmPrefix(c: seq<bv8>, p: nat, w: bool, b: bool, rest: seq<bv8>)
    requires p < |c| && 0xb8 <= c[p] < 0xc0
    requires DecodeMovImm(c, p, w, b).Some?
    ensures DecodeMovImm(c + rest, p, w, b) == DecodeMovImm(c, p, w, b)
  {
    var e := c + rest;
    assert e[p] == c[p];
    if w {
      assert e[p + 1..p + 9] == c[p + 1..p + 9];
    } else {
      assert e[p + 1..p + 5] == c[p + 1..p + 5];
    }
  }

  /** The ModR/M byte after an opcode, and the memory operand it starts,
      read the same with more bytes behind them. */
  lemma OperandPrefix(c: seq<bv8>, p: nat, b: bool, rest: seq<bv8>)
    requires p < |c|
    ensures p + 1 < |c| ==> (c + rest)[p + 1] == c[p + 1]
    ensures p + 1 < |c| && DecodeMem(c[p + 1..], b).Some? ==>
      DecodeMem((c + rest)[p + 1..], b) == DecodeMem(c[p + 1..], b)
  {
    var e := c + rest;
    if p + 1 < |c| {
      assert e[p + 1..] == c[p + 1..] + rest;
      if DecodeMem(c[p + 1..], b).Some? {
        DecodeMemPrefix(c[p + 1..], b, rest);
      }
    }
  }

  /** An instruction is decoded from its own bytes alone: what follows it
      does not change it. */
  lemma DecodePrefix(c: seq<bv8>, rest: seq<bv8>)
    requires Decode(c).Some?
    ensures Decode(c + rest) == Decode(c)
  {
    var e := c + rest;
    assert e[0] == c[0];
    if c[0] >> 4 == 4 {
      DecodeOpcodePrefix(c, 1, Bit(c[0], 3), Bit(c[0], 2), Bit(c[0], 1), Bit(c[0], 0), rest);
    } else {
      DecodeOpcodePrefix(c, 0, false, false, false, false, rest);
    }
  }

  /** The listing of a byte string that disassembles followed by more bytes
      is its listing followed by theirs, and fails exactly when theirs does. */
  lemma {:induction false} DisassembleAppend(a: seq<bv8>, b: seq<bv8>)
    requires Disassemble(a).Some?
    ensures Disassemble(a + b) ==
      if Disassemble(b).Some? then Some(Disassemble(a).value + Disassemble(b).value) else None
    decreases |a|
  {
    if a == [] {
      assert a + b == b;
      if Disassemble(b).Some? {
        assert Disassemble(a).value + Disassemble(b).value == Disassemble(b).value;
      }
    } else {
      var (i, n) := Decode(a).value;
      DecodePrefix(a, b);
      assert (a + b)[n..] == a[n..] + b;
      DisassembleAppend(a[n..], b);
      if Disassemble(b).Some? {
        var x, y := Disassemble(a[n..]).value, Disassemble(b).value;
        assert Disassemble(a) == Some([i] + x);
        assert Disassemble(a + b) == Some([i] + (x + y));
        assert [i] + (x + y) == [i] + x + y;
      }
    }
  }
}
