/** What the compiler's hand-written byte templates are as x86-64
    instructions: each template disassembles to the instructions its source
    comment names, and where the assembler has an encoder for them the
    template is that encoding. */
module Listing {
  import opened Bytes
  import opened Assembler
  import opened Disassembler
  import opened Compiler
  import Wasm
  import Store

  // ---- building listings ----

  /** Two listings one after the other. */
  lemma ListsAppend(a: seq<bv8>, ia: seq<Instr>, b: seq<bv8>, ib: seq<Instr>)
    requires Disassemble(a) == Some(ia) && Disassemble(b) == Some(ib)
    ensures Disassemble(a + b) == Some(ia + ib)
  {
    DisassembleAppend(a, b);
  }

  /** The pieces of a sequence of sequences, one after the other. */
  function Flatten<T>(ps: seq<seq<T>>): (r: seq<T>)
    ensures ps != [] ==> r == Flatten(ps[..|ps| - 1]) + ps[|ps| - 1]
  {
    if ps == [] then [] else Flatten(ps[..|ps| - 1]) + ps[|ps| - 1]
  }

  /** Pieces that each disassemble to their own listing disassemble, one
      after the other, to those listings one after the other. */
  lemma {:induction false} ListsFlatten(ps: seq<seq<bv8>>, ls: seq<seq<Instr>>)
    requires |ps| == |ls|
    requires forall k :: 0 <= k < |ps| ==> Disassemble(ps[k]) == Some(ls[k])
    ensures Disassemble(Flatten(ps)) == Some(Flatten(ls))
  {
    if ps != [] {
      var n := |ps| - 1;
      ListsFlatten(ps[..n], ls[..n]);
      ListsAppend(Flatten(ps[..n]), Flatten(ls[..n]), ps[n], ls[n]);
    }
  }

  /** f(0), ..., f(k-1). */
  function Ascending<T>(f: nat -> seq<T>, k: nat): (ps: seq<seq<T>>)
    ensures |ps| == k && forall i :: 0 <= i < k ==> ps[i] == f(i)
  {
    if k == 0 then [] else Ascending(f, k - 1) + [f(k - 1)]
  }

  /** f(n-1) down to f(i). */
  function Descending<T>(f: nat -> seq<T>, n: nat, i: nat): (ps: seq<seq<T>>)
    requires i <= n
    ensures |ps| == n - i && forall k :: 0 <= k < n - i ==> ps[k] == f(n - 1 - k)
    decreases n - i
  {
    if i == n then [] else Descending(f, n, i + 1) + [f(i)]
  }

  /** `p` decodes, as a whole, to the one instruction `i`. */
  predicate DecodesTo(p: seq<bv8>, i: Instr) {
    Decode(p) == Some((i, |p|))
  }

  /** The assembler's encoding of an instruction decodes to it. */
  lemma EncodingDecodes(p: seq<bv8>, i: Instr)
    requires p == Encode(i)
    ensures DecodesTo(p, i)
  {
    DecodeEncode(i, []);
    assert Encode(i) + [] == Encode(i);
  }

  /** Bytes that decode to one instruction are a listing of it. */
  lemma ListsDecodedOne(p: seq<bv8>, i: Instr)
    requires DecodesTo(p, i)
    ensures Disassemble(p) == Some([i])
  {
    assert p[|p|..] == [];
    assert Disassemble(p[|p|..]) == Some([]);
    assert [i] + [] == [i];
  }

  /** Each element on its own. */
  function Singletons<T>(s: seq<T>): (r: seq<seq<T>>)
    ensures |r| == |s| && forall k :: 0 <= k < |s| ==> r[k] == [s[k]]
  {
    if s == [] then [] else Singletons(s[..|s| - 1]) + [[s[|s| - 1]]]
  }

  /** Putting the singletons back together gives the sequence. */
  lemma {:induction false} FlattenSingletons<T>(s: seq<T>)
    ensures Flatten(Singletons(s)) == s
  {
    if s != [] {
      var n := |s| - 1;
      FlattenSingletons(s[..n]);
      assert Singletons(s)[..n] == Singletons(s[..n]);
      assert s[..n] + [s[n]] == s;
    }
  }

  /** Pieces that each decode to one instruction disassemble, one after the
      other, to those instructions in order. */
  lemma ListsDecodes(ps: seq<seq<bv8>>, instrs: seq<Instr>)
    requires |ps| == |instrs|
    requires forall k :: 0 <= k < |ps| ==> DecodesTo(ps[k], instrs[k])
    ensures Disassemble(Flatten(ps)) == Some(instrs)
  {
    var ls := Singletons(instrs);
    forall k | 0 <= k < |ps| ensures Disassemble(ps[k]) == Some(ls[k]) {
      ListsDecodedOne(ps[k], instrs[k]);
    }
    ListsFlatten(ps, ls);
    FlattenSingletons(instrs);
  }

  lemma Flatten2<T>(a: seq<T>, b: seq<T>)
    ensures Flatten([a, b]) == a + b
  {
    assert [a, b][..1] == [a];
    assert [a][..0] == [];
  }

  lemma Flatten3<T>(a: seq<T>, b: seq<T>, c: seq<T>)
    ensures Flatten([a, b, c]) == a + b + c
  {
    assert [a, b, c][..2] == [a, b];
    Flatten2(a, b);
  }

  lemma Flatten4<T>(a: seq<T>, b: seq<T>, c: seq<T>, d: seq<T>)
    ensures Flatten([a, b, c, d]) == a + b + c + d
  {
    assert [a, b, c, d][..3] == [a, b, c];
    Flatten3(a, b, c);
  }

  lemma Flatten5<T>(a: seq<T>, b: seq<T>, c: seq<T>, d: seq<T>, e: seq<T>)
    ensures Flatten([a, b, c, d, e]) == a + b + c + d + e
  {
    assert [a, b, c, d, e][..4] == [a, b, c, d];
    Flatten4(a, b, c, d);
  }

  // ---- memory operands with a displacement ----

  /** `mov rax, [rdi + d]` with a disp8. */
  lemma LoadRdiDisp8(d: I32, b: bv8)
    requires d != 0 && IsI8(d) && b == LowByte(d)
    ensures DecodesTo([0x48, 0x8b, 0x47, b], MovRegMem(Rax, Addressing(Rdi, d)))
  {
    var a := Addressing(Rdi, d);
    assert a.ToCode(0) == [ModRm(1, 0, 7), b];
    EncodingDecodes([0x48, 0x8b, 0x47, b], MovRegMem(Rax, a));
  }

  /** `mov rax, [rbp + d]` with a disp8. */
  lemma LoadRbpDisp8(d: I32, b: bv8)
    requires d != 0 && IsI8(d) && b == LowByte(d)
    ensures DecodesTo([0x48, 0x8b, 0x45, b], MovRegMem(Rax, Addressing(Rbp, d)))
  {
    var a := Addressing(Rbp, d);
    assert a.ToCode(0) == [ModRm(1, 0, 5), b];
    EncodingDecodes([0x48, 0x8b, 0x45, b], MovRegMem(Rax, a));
  }

  /** `mov rax, [rbp + d]` spelled with a disp32, read straight from the
      decoder: the four bytes read back as the `i32` they spell, also where
      the assembler itself would choose a disp8. */
  lemma LoadRbpWide(u: U32)
    ensures DecodesTo([0x48, 0x8b, 0x85] + Le32(u), MovRegMem(Rax, Addressing(Rbp, AsI32(u))))
  {
    var c := [0x48, 0x8b, 0x85] + Le32(u);
    Le32Value(u);
    var m := c[2..];
    assert m == [0x85] + Le32(u);
    assert m[1..5] == Le32(u);
    assert DecodeMem(m, false) == Some(MemOperand(0, Addressing(Rbp, AsI32(u)), 5));
  }

  /** `mov [rax + d], rdi` with a disp8. */
  lemma StoreDisp8(d: I32, b: bv8)
    requires d != 0 && IsI8(d) && b == LowByte(d)
    ensures DecodesTo([0x48, 0x89, 0x78, b], MovMemReg(Addressing(Rax, d), Rdi))
  {
    var a := Addressing(Rax, d);
    assert a.ToCode(7) == [ModRm(1, 7, 0), b];
    EncodingDecodes([0x48, 0x89, 0x78, b], MovMemReg(a, Rdi));
  }

  /** `mov [rax + d], rdi` spelled with a disp32, read straight from the decoder. */
  lemma StoreWide(u: U32)
    ensures DecodesTo([0x48, 0x89, 0xb8] + Le32(u), MovMemReg(Addressing(Rax, AsI32(u)), Rdi))
  {
    var c := [0x48, 0x89, 0xb8] + Le32(u);
    Le32Value(u);
    var m := c[2..];
    assert m == [0xb8] + Le32(u);
    assert m[1..5] == Le32(u);
    assert DecodeMem(m, false) == Some(MemOperand(7, Addressing(Rax, AsI32(u)), 5));
  }

  // ---- compile_func ----

  /** `push rbp`, `mov rbp, rsp`, `push rsi`, `push rdx`. */
  const PROLOGUE_LISTING: seq<Instr> := [PushReg(Rbp), MovRegReg(Rbp, Rsp), PushReg(Rsi), PushReg(Rdx)]

  lemma PrologueLists()
    ensures Disassemble(PROLOGUE) == Some(PROLOGUE_LISTING)
  {
    var ps: seq<seq<bv8>> := [[0x55], [0x48, 0x89, 0xe5], [0x56], [0x52]];
    assert DecodesTo(ps[0], PROLOGUE_LISTING[0]);
    assert DecodesTo(ps[1], PROLOGUE_LISTING[1]);
    assert DecodesTo(ps[2], PROLOGUE_LISTING[2]);
    assert DecodesTo(ps[3], PROLOGUE_LISTING[3]);
    Flatten4(ps[0], ps[1], ps[2], ps[3]);
    ListsDecodes(ps, PROLOGUE_LISTING);
  }

  /** `mov rax, [rdi + 8i]`, `push rax`. */
  function ParamLoadListing(i: nat): seq<Instr>
    requires i < MAX_PARAMS
  {
    [MovRegMem(Rax, Addressing(Rdi, 8 * i)), PushReg(Rax)]
  }

  /** The load of parameter i reads the i-th word of the argument array. */
  lemma ParamLoadLists(i: nat)
    requires i < MAX_PARAMS
    ensures Disassemble(ParamLoad(i)) == Some(ParamLoadListing(i))
  {
    var l := ParamLoadListing(i);
    var ps: seq<seq<bv8>> := [ParamMov(i), [0x50]];
    if i == 0 {
      assert DecodesTo(ps[0], l[0]);
    } else {
      LoadRdiDisp8(8 * i, LowByte(8 * i));
    }
    assert DecodesTo(ps[1], l[1]);
    Flatten2(ps[0], ps[1]);
    ListsDecodes(ps, l);
  }

  /** The loads of parameters 0 to k-1, in that order. */
  function ParamLoadsListing(k: nat): (instrs: seq<Instr>)
    requires k <= MAX_PARAMS
    ensures |instrs| == 2 * k
    ensures forall i :: 0 <= i < k ==> instrs[2 * i] == MovRegMem(Rax, Addressing(Rdi, 8 * i))
  {
    if k == 0 then [] else ParamLoadsListing(k - 1) + ParamLoadListing(k - 1)
  }

  /** The load of parameter i, and nothing past the supported count. */
  function ParamLoadAt(i: nat): seq<bv8> {
    if i < MAX_PARAMS then ParamLoad(i) else []
  }

  function ParamLoadListingAt(i: nat): seq<Instr> {
    if i < MAX_PARAMS then ParamLoadListing(i) else []
  }

  lemma {:induction false} ParamLoadsPieces(k: nat)
    requires k <= MAX_PARAMS
    ensures Flatten(Ascending(ParamLoadAt, k)) == ParamLoads(k)
    ensures Flatten(Ascending(ParamLoadListingAt, k)) == ParamLoadsListing(k)
  {
    if k > 0 {
      ParamLoadsPieces(k - 1);
      var ps := Ascending(ParamLoadAt, k);
      assert ps[..k - 1] == Ascending(ParamLoadAt, k - 1);
      var ls := Ascending(ParamLoadListingAt, k);
      assert ls[..k - 1] == Ascending(ParamLoadListingAt, k - 1);
    }
  }

  /** The parameter loads read the argument words in order. */
  lemma ParamLoadsLists(k: nat)
    requires k <= MAX_PARAMS
    ensures Disassemble(ParamLoads(k)) == Some(ParamLoadsListing(k))
  {
    var ps, ls := Ascending(ParamLoadAt, k), Ascending(ParamLoadListingAt, k);
    forall i | 0 <= i < k ensures Disassemble(ps[i]) == Some(ls[i]) {
      ParamLoadLists(i);
    }
    ListsFlatten(ps, ls);
    ParamLoadsPieces(k);
  }

  /** The epilogue's first two instructions: `pop rax`, `mov rcx, [rbp - 8]`. */
  const EPILOGUE_HEAD: seq<bv8> := [0x58] + [0x48, 0x8b, 0x4d, 0xf8]

  /** `mov rdx, 0` (`REX.W C7 /0 id`), which the assembler has no encoder for. */
  const MOV_RDX_ZERO: seq<bv8> := [0x48, 0xc7, 0xc2, 0x00, 0x00, 0x00, 0x00]

  /** The epilogue's last five instructions: `mov [rcx], rdx`,
      `mov [rcx + 8], rax`, `mov rsp, rbp`, `pop rbp`, `ret`. */
  const EPILOGUE_TAIL: seq<bv8> := [0x48, 0x89, 0x11] + [0x48, 0x89, 0x41, 0x08] + [0x48, 0x89, 0xec] + [0x5d] + [0xc3]

  const EPILOGUE_HEAD_LISTING: seq<Instr> := [PopReg(Rax), MovRegMem(Rcx, Addressing(Rbp, -8))]

  const EPILOGUE_TAIL_LISTING: seq<Instr> :=
    [MovMemReg(Addressing(Rcx, 0), Rdx), MovMemReg(Addressing(Rcx, 8), Rax), MovRegReg(Rsp, Rbp), PopReg(Rbp), Return]

  /** The epilogue is its head, `mov rdx, 0` and its tail. */
  lemma EpilogueParts()
    ensures EPILOGUE == EPILOGUE_HEAD + MOV_RDX_ZERO + EPILOGUE_TAIL
  {
  }

  lemma EpilogueHeadLists()
    ensures Disassemble(EPILOGUE_HEAD) == Some(EPILOGUE_HEAD_LISTING)
  {
    var ps: seq<seq<bv8>> := [[0x58], [0x48, 0x8b, 0x4d, 0xf8]];
    assert DecodesTo(ps[0], EPILOGUE_HEAD_LISTING[0]);
    assert DecodesTo(ps[1], EPILOGUE_HEAD_LISTING[1]);
    Flatten2(ps[0], ps[1]);
    ListsDecodes(ps, EPILOGUE_HEAD_LISTING);
  }

  lemma EpilogueTailLists()
    ensures Disassemble(EPILOGUE_TAIL) == Some(EPILOGUE_TAIL_LISTING)
  {
    var ps: seq<seq<bv8>> := [[0x48, 0x89, 0x11], [0x48, 0x89, 0x41, 0x08], [0x48, 0x89, 0xec], [0x5d], [0xc3]];
    assert DecodesTo(ps[0], EPILOGUE_TAIL_LISTING[0]);
    assert DecodesTo(ps[1], EPILOGUE_TAIL_LISTING[1]);
    assert DecodesTo(ps[2], EPILOGUE_TAIL_LISTING[2]);
    assert DecodesTo(ps[3], EPILOGUE_TAIL_LISTING[3]);
    assert DecodesTo(ps[4], EPILOGUE_TAIL_LISTING[4]);
    Flatten5(ps[0], ps[1], ps[2], ps[3], ps[4]);
    ListsDecodes(ps, EPILOGUE_TAIL_LISTING);
  }

  /** `mov rdx, 0` is outside the instructions the disassembler knows,
      whatever follows it. */
  lemma MovRdxZeroUnlisted(rest: seq<bv8>)
    ensures Decode(MOV_RDX_ZERO + rest) == None
  {
    var c := MOV_RDX_ZERO + rest;
    assert c[0] == 0x48 && c[1] == 0xc7;
  }

  // ---- compile: local.get, the constants, add ----

  /** `mov rax, [rbp - offset]` (the displacement is `-offset` as an `i32`), `push rax`. */
  function LocalGetListing(localIndex: U32): seq<Instr> {
    var offset: int := LocalOffset(localIndex);
    [MovRegMem(Rax, Addressing(Rbp, AsI32(-offset))), PushReg(Rax)]
  }

  /** Two integers that agree modulo 256 have the same low byte. */
  lemma LowByteCongruent(v: int, w: int)
    requires (v - w) % 256 == 0
    ensures LowByte(v) == LowByte(w)
  {
    assert v % 256 == w % 256;
  }

  /** Two integers that agree modulo 2^32 read the same as an `i32`. */
  lemma AsI32Congruent(v: int, w: int)
    requires (v - w) % TWO_32 == 0
    ensures AsI32(v) == AsI32(w)
  {
    assert v % TWO_32 == w % TWO_32;
  }

  /** Reducing modulo 2^32 first does not change the reading as an `i32`. */
  lemma AsI32OfMod(v: int)
    ensures AsI32(v % TWO_32) == AsI32(v)
  {
    assert (v % TWO_32) % TWO_32 == v % TWO_32;
  }

  /** Minus a value up to 2^31, read as an `i32`, is itself. */
  lemma NegAsI32(offset: int)
    requires 0 <= offset <= TWO_31
    ensures AsI32(-offset) == -offset
  {
  }

  /** The load of `local.get` when the offset wraps to 0. */
  lemma LocalGetZero(localIndex: U32)
    requires LocalOffset(localIndex) == 0
    ensures DecodesTo(LocalGetMov(localIndex), LocalGetListing(localIndex)[0])
  {
    NegAsI32(0);
    assert LocalGetMov(localIndex) == [0x48, 0x8b, 0x45, 0x00];
    assert DecodesTo([0x48, 0x8b, 0x45, 0x00], MovRegMem(Rax, Addressing(Rbp, 0)));
  }

  /** The load of `local.get` for offsets from 1 to 128: `256 - offset` is
      the low byte of `-offset`. */
  lemma LocalGetDisp8(localIndex: U32)
    requires 0 < LocalOffset(localIndex) <= 128
    ensures DecodesTo(LocalGetMov(localIndex), LocalGetListing(localIndex)[0])
  {
    var offset: int := LocalOffset(localIndex);
    NegAsI32(offset);
    LowByteCongruent(-offset, 256 - offset);
    LoadRbpDisp8(-offset, LowByte(256 - offset));
  }

  /** The load of `local.get` for offsets above 128: the disp32
      `2^32 - offset` reads back as the `i32` `-offset`. */
  lemma LocalGetFar(localIndex: U32)
    requires 128 < LocalOffset(localIndex)
    ensures DecodesTo(LocalGetMov(localIndex), LocalGetListing(localIndex)[0])
  {
    var offset: int := LocalOffset(localIndex);
    assert LocalGetMov(localIndex) == [0x48, 0x8b, 0x85] + Le32(TWO_32 - offset);
    LoadRbpWide(TWO_32 - offset);
    AsI32Congruent(TWO_32 - offset, -offset);
  }

  /** `local.get` loads the slot `offset` bytes below `rbp`, for every local index. */
  lemma LocalGetLists(localIndex: U32)
    ensures Disassemble(LocalGetCode(localIndex)) == Some(LocalGetListing(localIndex))
  {
    var l := LocalGetListing(localIndex);
    var ps: seq<seq<bv8>> := [LocalGetMov(localIndex), [0x50]];
    if LocalOffset(localIndex) == 0 {
      LocalGetZero(localIndex);
    } else if LocalOffset(localIndex) <= 128 {
      LocalGetDisp8(localIndex);
    } else {
      LocalGetFar(localIndex);
    }
    assert DecodesTo(ps[1], l[1]);
    Flatten2(ps[0], ps[1]);
    ListsDecodes(ps, l);
  }

  /** `push imm8` of a constant up to 127. */
  lemma PushImm8Decodes(v: int)
    requires 0 <= v <= 127
    ensures DecodesTo([0x6a, LowByte(v)], PushImm(v))
  {
    EncodingDecodes([0x6a, LowByte(v)], PushImm(v));
  }

  /** `push imm32` of a constant from 128 to 0x7fffffff. */
  lemma PushImm32Decodes(v: int)
    requires 127 < v <= 0x7fff_ffff
    ensures DecodesTo([0x68] + Le32(v), PushImm(v))
  {
    PushImm32Encodes(v);
    EncodingDecodes([0x68] + Le32(v), PushImm(v));
  }

  /** `mov rax, imm64`, `push rax`. */
  lemma MovRaxPushLists(imm: I64, bytes: seq<bv8>)
    requires bytes == Le64(AsU64(imm))
    ensures Disassemble([0x48, 0xb8] + bytes + [0x50]) == Some([MovRegImm64(Rax, imm), PushReg(Rax)])
  {
    var ps: seq<seq<bv8>> := [[0x48, 0xb8] + bytes, [0x50]];
    EncodingDecodes(ps[0], MovRegImm64(Rax, imm));
    assert DecodesTo(ps[1], PushReg(Rax));
    Flatten2(ps[0], ps[1]);
    ListsDecodes(ps, [MovRegImm64(Rax, imm), PushReg(Rax)]);
  }

  /** `i32.const` pushes the value's 32 bits zero-extended: `push imm` up to
      0x7fffffff, else `mov rax, imm64` and `push rax`. */
  function I32ConstListing(value: I32): seq<Instr> {
    var v := AsU32(value);
    if v <= 0x7fff_ffff then [PushImm(v)] else [MovRegImm64(Rax, v), PushReg(Rax)]
  }

  lemma I32ConstLists(value: I32)
    ensures Disassemble(I32ConstCode(value)) == Some(I32ConstListing(value))
  {
    var v := AsU32(value);
    if v <= 127 {
      PushImm8Decodes(v);
      ListsDecodedOne([0x6a, LowByte(v)], PushImm(v));
    } else if v <= 0x7fff_ffff {
      PushImm32Decodes(v);
      ListsDecodedOne([0x68] + Le32(v), PushImm(v));
    } else {
      var bytes := Le32(v) + [0x00, 0x00, 0x00, 0x00];
      Le64OfU32(v);
      assert AsU64(v) == v;
      MovRaxPushLists(v, bytes);
      assert I32ConstCode(value) == [0x48, 0xb8] + bytes + [0x50];
    }
  }

  /** `i64.const` pushes the value: `push imm` (sign-extended) up to
      0x7fffffff, else `mov rax, imm64` and `push rax`. */
  function I64ConstListing(value: I64): seq<Instr> {
    var v := AsU64(value);
    if v <= 0x7fff_ffff then [PushImm(v)] else [MovRegImm64(Rax, value), PushReg(Rax)]
  }

  lemma I64ConstLists(value: I64)
    ensures Disassemble(I64ConstCode(value)) == Some(I64ConstListing(value))
  {
    var v := AsU64(value);
    if v <= 127 {
      PushImm8Decodes(v);
      ListsDecodedOne([0x6a, LowByte(v)], PushImm(v));
    } else if v <= 0x7fff_ffff {
      PushImm32Decodes(v);
      ListsDecodedOne([0x68] + Le32(v), PushImm(v));
    } else {
      MovRaxPushLists(value, Le64(v));
    }
  }

  /** A byte string whose first instruction is followed by bytes that do
      not disassemble does not disassemble either. */
  lemma UnlistedAfterFirst(c: seq<bv8>, i: Instr, n: nat)
    requires c != [] && Decode(c) == Some((i, n)) && n <= |c| && Disassemble(c[n..]) == None
    ensures Disassemble(c) == None
  {
  }

  /** The layout of the template as written, for values from 128 to 0x7fffffff. */
  lemma I64ConstAsWrittenLayout(value: I64)
    requires 127 < AsU64(value) <= 0x7fff_ffff
    ensures I64ConstCode(value) == [0x68] + Le32(AsU64(value))
    ensures I64ConstCodeAsWritten(value) == I64ConstCode(value) + [0x00, 0x00, 0x00, 0x00]
  {
    var v := AsU64(value);
    Le64OfU32(v);
    assert [0x68] + (Le32(v) + [0x00, 0x00, 0x00, 0x00]) == [0x68] + Le32(v) + [0x00, 0x00, 0x00, 0x00];
  }

  /** `push imm32` as the assembler encodes it. */
  lemma PushImm32Encodes(v: int)
    requires 127 < v <= 0x7fff_ffff
    ensures Encode(PushImm(v)) == [0x68] + Le32(v)
  {
  }

  /** The `i64.const` template as written: for values from 128 to 0x7fffffff
      it is the intended `push imm32` followed by four stray zero bytes, and
      the whole no longer disassembles. */
  lemma I64ConstAsWrittenStrayBytes(value: I64)
    requires 127 < AsU64(value) <= 0x7fff_ffff
    ensures I64ConstCodeAsWritten(value) == I64ConstCode(value) + [0x00, 0x00, 0x00, 0x00]
    ensures Decode(I64ConstCodeAsWritten(value)) == Some((PushImm(AsU64(value)), 5))
    ensures Disassemble(I64ConstCodeAsWritten(value)) == None
  {
    var v := AsU64(value);
    var zeros: seq<bv8> := [0x00, 0x00, 0x00, 0x00];
    var code := [0x68] + Le32(v);
    var c := code + zeros;
    I64ConstAsWrittenLayout(value);
    PushImm32Encodes(v);
    DecodeEncode(PushImm(v), zeros);
    assert c[5..] == zeros;
    assert Decode(zeros) == None;
    UnlistedAfterFirst(c, PushImm(v), 5);
  }

  /** `pop rdi`, `pop rax`, `add eax, edi`, `push rax`. */
  const I32_ADD_LISTING: seq<Instr> := [PopReg(Rdi), PopReg(Rax), AddReg32Reg32(Eax, Edi), PushReg(Rax)]

  /** The `i32.add` template's `add` is the assembler's without the REX
      byte that carries no bit (`40`); it decodes the same. */
  lemma I32AddLists()
    ensures Encode(AddReg32Reg32(Eax, Edi)) == [0x40, 0x01, 0xf8]
    ensures Disassemble(I32_ADD_CODE) == Some(I32_ADD_LISTING)
  {
    var ps: seq<seq<bv8>> := [[0x5f], [0x58], [0x01, 0xf8], [0x50]];
    assert DecodesTo(ps[0], I32_ADD_LISTING[0]);
    assert DecodesTo(ps[1], I32_ADD_LISTING[1]);
    assert DecodesTo(ps[2], I32_ADD_LISTING[2]);
    assert DecodesTo(ps[3], I32_ADD_LISTING[3]);
    Flatten4(ps[0], ps[1], ps[2], ps[3]);
    ListsDecodes(ps, I32_ADD_LISTING);
  }

  /** `pop rdi`, `pop rax`, `add rax, rdi`, `push rax`. */
  const I64_ADD_LISTING: seq<Instr> := [PopReg(Rdi), PopReg(Rax), AddRegReg(Rax, Rdi), PushReg(Rax)]

  lemma I64AddLists()
    ensures Disassemble(I64_ADD_CODE) == Some(I64_ADD_LISTING)
  {
    var ps: seq<seq<bv8>> := [[0x5f], [0x58], [0x48, 0x01, 0xf8], [0x50]];
    assert DecodesTo(ps[0], I64_ADD_LISTING[0]);
    assert DecodesTo(ps[1], I64_ADD_LISTING[1]);
    assert DecodesTo(ps[2], I64_ADD_LISTING[2]);
    assert DecodesTo(ps[3], I64_ADD_LISTING[3]);
    Flatten4(ps[0], ps[1], ps[2], ps[3]);
    ListsDecodes(ps, I64_ADD_LISTING);
  }

  // ---- compile: call ----

  /** `mov edi, argsNum`, `mov r10, allocArgs`, `call r10`. */
  function CallHeadListing(argsNum: U32, addrs: HostAddresses): seq<Instr> {
    [MovReg32Imm(Edi, AsI32(argsNum)), MovRegImm64(R10, AsI64(addrs.allocArgs)), CallReg(R10)]
  }

  /** `mov r10, imm64` of an address. */
  lemma MovR10Decodes(address: U64)
    ensures DecodesTo([0x49, 0xba] + Le64(address), MovRegImm64(R10, AsI64(address)))
  {
    AsU64OfAsI64(address);
    EncodingDecodes([0x49, 0xba] + Le64(address), MovRegImm64(R10, AsI64(address)));
  }

  /** `mov r32, imm32` of an unsigned value, for the register whose opcode is `op`. */
  lemma MovReg32Decodes(r: Register32, op: bv8, v: U32)
    requires (r == Edi && op == 0xbf) || (r == Esi && op == 0xbe) || (r == Ecx && op == 0xb9)
    ensures DecodesTo([op] + Le32(v), MovReg32Imm(r, AsI32(v)))
  {
    AsU32OfAsI32(v);
    EncodingDecodes([op] + Le32(v), MovReg32Imm(r, AsI32(v)));
  }

  lemma CallHeadLists(argsNum: U32, addrs: HostAddresses)
    ensures Disassemble(CallHead(argsNum, addrs)) == Some(CallHeadListing(argsNum, addrs))
  {
    var l := CallHeadListing(argsNum, addrs);
    var ps: seq<seq<bv8>> := [[0xbf] + Le32(argsNum), [0x49, 0xba] + Le64(addrs.allocArgs), [0x41, 0xff, 0xd2]];
    MovReg32Decodes(Edi, 0xbf, argsNum);
    MovR10Decodes(addrs.allocArgs);
    assert DecodesTo(ps[2], l[2]);
    Flatten3(ps[0], ps[1], ps[2]);
    ListsDecodes(ps, l);
  }

  /** `pop rdi`, `mov [rax + offset], rdi` with the offset 8i as an `i32`. */
  function ArgStoreListing(i: nat): seq<Instr> {
    [PopReg(Rdi), MovMemReg(Addressing(Rax, AsI32(8 * i)), Rdi)]
  }

  /** The store of argument i for offsets 8 to 120 (u32 arithmetic). */
  lemma ArgStoreNear(i: nat)
    requires 0 < (8 * i) % TWO_32 < 128
    ensures DecodesTo(ArgStoreMov(i), ArgStoreListing(i)[1])
  {
    var offset := (8 * i) % TWO_32;
    AsI32OfMod(8 * i);
    assert AsI32(offset) == offset;
    StoreDisp8(offset, LowByte(offset));
  }

  /** The store of argument i for offsets from 128 up: the disp32 reads back
      as the `i32` `8i`. */
  lemma ArgStoreFar(i: nat)
    requires 128 <= (8 * i) % TWO_32
    ensures DecodesTo(ArgStoreMov(i), ArgStoreListing(i)[1])
  {
    var offset := (8 * i) % TWO_32;
    assert ArgStoreMov(i) == [0x48, 0x89, 0xb8] + Le32(offset);
    StoreWide(offset);
    AsI32OfMod(8 * i);
  }

  /** The store at offset 0 (the first argument's): the template spells the
      zero displacement out as a byte, which the assembler would leave off;
      it decodes the same. */
  lemma ArgStoreZero(i: nat)
    requires (8 * i) % TWO_32 == 0
    ensures DecodesTo(ArgStoreMov(i), ArgStoreListing(i)[1])
  {
    AsI32OfMod(8 * i);
    assert AsI32(0) == 0;
    assert ArgStoreMov(i) == [0x48, 0x89, 0x78, 0x00];
    assert DecodesTo([0x48, 0x89, 0x78, 0x00], MovMemReg(Addressing(Rax, 0), Rdi));
  }

  /** The `mov` of the store of argument i, for every i. */
  lemma ArgStoreMovDecodes(i: nat)
    ensures DecodesTo(ArgStoreMov(i), ArgStoreListing(i)[1])
  {
    var offset := (8 * i) % TWO_32;
    if offset == 0 {
      ArgStoreZero(i);
    } else if offset < 128 {
      ArgStoreNear(i);
    } else {
      ArgStoreFar(i);
    }
  }

  /** The store of argument i writes the i-th word of the array at `rax`. */
  lemma ArgStoreLists(i: nat)
    ensures Disassemble(ArgStore(i)) == Some(ArgStoreListing(i))
  {
    var l := ArgStoreListing(i);
    var ps: seq<seq<bv8>> := [[0x5f], ArgStoreMov(i)];
    assert DecodesTo(ps[0], l[0]);
    ArgStoreMovDecodes(i);
    Flatten2(ps[0], ps[1]);
    ListsDecodes(ps, l);
  }

  /** The encoding the assembler gives the first argument's store has no displacement byte. */
  lemma ArgStoreZeroNotAssembled()
    ensures Encode(MovMemReg(Addressing(Rax, 0), Rdi)) == [0x48, 0x89, 0x38]
  {
  }

  /** The stores of arguments n-1 down to i, in that order. */
  function ArgStoresListing(n: nat, i: nat): (instrs: seq<Instr>)
    requires i <= n
    ensures |instrs| == 2 * (n - i)
    decreases n - i
  {
    if i == n then [] else ArgStoresListing(n, i + 1) + ArgStoreListing(i)
  }

  lemma {:induction false} ArgStoresPieces(n: nat, i: nat)
    requires i <= n
    ensures Flatten(Descending(ArgStore, n, i)) == ArgStores(n, i)
    ensures Flatten(Descending(ArgStoreListing, n, i)) == ArgStoresListing(n, i)
    decreases n - i
  {
    if i < n {
      ArgStoresPieces(n, i + 1);
      var ps := Descending(ArgStore, n, i);
      assert ps[..n - i - 1] == Descending(ArgStore, n, i + 1);
      var ls := Descending(ArgStoreListing, n, i);
      assert ls[..n - i - 1] == Descending(ArgStoreListing, n, i + 1);
    }
  }

  /** The stores of arguments n-1 down to i. */
  lemma ArgStoresLists(n: nat, i: nat)
    requires i <= n
    ensures Disassemble(ArgStores(n, i)) == Some(ArgStoresListing(n, i))
  {
    var ps, ls := Descending(ArgStore, n, i), Descending(ArgStoreListing, n, i);
    forall k | 0 <= k < n - i ensures Disassemble(ps[k]) == Some(ls[k]) {
      ArgStoreLists(n - 1 - k);
    }
    ListsFlatten(ps, ls);
    ArgStoresPieces(n, i);
  }

  /** `mov rdi, [rbp - 16]` (the runtime), `mov esi, functionIndex`,
      `mov rdx, [rbp - 8]` (the result pointer), `mov ecx, argsNum`. */
  function CallTailFrontListing(functionIndex: U32, argsNum: U32): seq<Instr> {
    [ MovRegMem(Rdi, Addressing(Rbp, -16)), MovReg32Imm(Esi, AsI32(functionIndex)),
      MovRegMem(Rdx, Addressing(Rbp, -8)), MovReg32Imm(Ecx, AsI32(argsNum)) ]
  }

  /** `mov r8, rax` (the array), `mov r10, callFuncInternal`, `call r10`,
      `push [rax + 8]`. */
  function CallTailBackListing(addrs: HostAddresses): seq<Instr> {
    [ MovRegReg(R8, Rax), MovRegImm64(R10, AsI64(addrs.callFuncInternal)),
      CallReg(R10), PushMem(Addressing(Rax, 8)) ]
  }

  function CallTailListing(functionIndex: U32, argsNum: U32, addrs: HostAddresses): seq<Instr> {
    CallTailFrontListing(functionIndex, argsNum) + CallTailBackListing(addrs)
  }

  /** The tail's first four instructions: they read the saved runtime and
      result pointers and set the index and count. */
  function CallTailFront(functionIndex: U32, argsNum: U32): seq<bv8> {
    [0x48, 0x8b, 0x7d, 0xf0] + ([0xbe] + Le32(functionIndex)) + [0x48, 0x8b, 0x55, 0xf8] + ([0xb9] + Le32(argsNum))
  }

  /** The tail's last four instructions: pass the array, call, push the result. */
  function CallTailBack(addrs: HostAddresses): seq<bv8> {
    [0x49, 0x89, 0xc0] + ([0x49, 0xba] + Le64(addrs.callFuncInternal)) + [0x41, 0xff, 0xd2] + [0xff, 0x70, 0x08]
  }

  lemma CallTailParts(functionIndex: U32, argsNum: U32, addrs: HostAddresses)
    ensures CallTail(functionIndex, argsNum, addrs) == CallTailFront(functionIndex, argsNum) + CallTailBack(addrs)
  {
  }

  lemma CallTailFrontLists(functionIndex: U32, argsNum: U32)
    ensures Disassemble(CallTailFront(functionIndex, argsNum)) == Some(CallTailFrontListing(functionIndex, argsNum))
  {
    var l := CallTailFrontListing(functionIndex, argsNum);
    var ps: seq<seq<bv8>> := [[0x48, 0x8b, 0x7d, 0xf0], [0xbe] + Le32(functionIndex), [0x48, 0x8b, 0x55, 0xf8], [0xb9] + Le32(argsNum)];
    assert DecodesTo(ps[0], l[0]);
    MovReg32Decodes(Esi, 0xbe, functionIndex);
    assert DecodesTo(ps[2], l[2]);
    MovReg32Decodes(Ecx, 0xb9, argsNum);
    Flatten4(ps[0], ps[1], ps[2], ps[3]);
    ListsDecodes(ps, l);
  }

  lemma CallTailBackLists(addrs: HostAddresses)
    ensures Disassemble(CallTailBack(addrs)) == Some(CallTailBackListing(addrs))
  {
    var l := CallTailBackListing(addrs);
    var ps: seq<seq<bv8>> := [[0x49, 0x89, 0xc0], [0x49, 0xba] + Le64(addrs.callFuncInternal), [0x41, 0xff, 0xd2], [0xff, 0x70, 0x08]];
    assert DecodesTo(ps[0], l[0]);
    MovR10Decodes(addrs.callFuncInternal);
    assert DecodesTo(ps[2], l[2]);
    assert DecodesTo(ps[3], l[3]);
    Flatten4(ps[0], ps[1], ps[2], ps[3]);
    ListsDecodes(ps, l);
  }

  lemma CallTailLists(functionIndex: U32, argsNum: U32, addrs: HostAddresses)
    ensures Disassemble(CallTail(functionIndex, argsNum, addrs)) == Some(CallTailListing(functionIndex, argsNum, addrs))
  {
    CallTailParts(functionIndex, argsNum, addrs);
    CallTailFrontLists(functionIndex, argsNum);
    CallTailBackLists(addrs);
    ListsAppend(CallTailFront(functionIndex, argsNum), CallTailFrontListing(functionIndex, argsNum),
      CallTailBack(addrs), CallTailBackListing(addrs));
  }

  /** A `call`: the head, the stores from the last argument down to the
      first, the tail. */
  function CallListing(functionIndex: U32, funcType: Wasm.FuncType, addrs: HostAddresses): seq<Instr> {
    var argsNum := AsU32(|funcType.params|);
    CallHeadListing(argsNum, addrs) + ArgStoresListing(argsNum, 0) + CallTailListing(functionIndex, argsNum, addrs)
  }

  lemma CallLists(functionIndex: U32, funcType: Wasm.FuncType, addrs: HostAddresses)
    ensures Disassemble(CallCode(functionIndex, funcType, addrs)) == Some(CallListing(functionIndex, funcType, addrs))
  {
    var argsNum := AsU32(|funcType.params|);
    CallHeadLists(argsNum, addrs);
    ArgStoresLists(argsNum, 0);
    CallTailLists(functionIndex, argsNum, addrs);
    ListsAppend(CallHead(argsNum, addrs), CallHeadListing(argsNum, addrs),
      ArgStores(argsNum, 0), ArgStoresListing(argsNum, 0));
    ListsAppend(CallHead(argsNum, addrs) + ArgStores(argsNum, 0),
      CallHeadListing(argsNum, addrs) + ArgStoresListing(argsNum, 0),
      CallTail(functionIndex, argsNum, addrs), CallTailListing(functionIndex, argsNum, addrs));
  }

  // ---- one operator ----

  /** The instructions one compilable operator becomes. */
  function OpListing(op: Wasm.Operator, store: Store.Store, addrs: HostAddresses): seq<Instr>
    requires OpCode(op, store, addrs).Ok?
  {
    match op
    case Call(functionIndex) => CallListing(functionIndex, store.GetFuncTypeFromFuncIndex(functionIndex).value, addrs)
    case LocalGet(localIndex) => LocalGetListing(localIndex)
    case I32Const(value) => I32ConstListing(value)
    case I64Const(value) => I64ConstListing(value)
    case I32Add => I32_ADD_LISTING
    case I64Add => I64_ADD_LISTING
    case End => []
  }

  /** An `i64.const` whose template as written leaves four stray bytes. */
  predicate HasStrayBytes(op: Wasm.Operator) {
    op.I64Const? && 127 < AsU64(op.i64Value) <= 0x7fff_ffff
  }

  /** The bytes of every compilable operator disassemble to its instructions,
      except an `i64.const` with stray bytes: its bytes do not disassemble,
      and without the stray bytes they are its instructions. */
  lemma OpCodeLists(op: Wasm.Operator, store: Store.Store, addrs: HostAddresses)
    requires OpCode(op, store, addrs).Ok?
    ensures !HasStrayBytes(op) ==> Disassemble(OpCode(op, store, addrs).value) == Some(OpListing(op, store, addrs))
    ensures HasStrayBytes(op) ==>
      && Disassemble(OpCode(op, store, addrs).value) == None
      && OpCode(op, store, addrs).value == I64ConstCode(op.i64Value) + [0x00, 0x00, 0x00, 0x00]
      && Disassemble(I64ConstCode(op.i64Value)) == Some(OpListing(op, store, addrs))
  {
    match op
    case Call(functionIndex) => CallLists(functionIndex, store.GetFuncTypeFromFuncIndex(functionIndex).value, addrs);
    case LocalGet(localIndex) => LocalGetLists(localIndex);
    case I32Const(value) => I32ConstLists(value);
    case I64Const(value) =>
      if HasStrayBytes(op) {
        I64ConstAsWrittenStrayBytes(value);
      }
      I64ConstLists(value);
    case I32Add => I32AddLists();
    case I64Add => I64AddLists();
    case End =>
  }
}
