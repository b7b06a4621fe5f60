/** The code emitter: a fixed code area written through a cursor, the byte
    template each WebAssembly operator becomes, and the prologue and
    epilogue around a function body. The raw pointers of the source become
    indices into the code area: `current` is `p_current`, `funcStart` is
    `p_func_start`. What each template is as x86-64 instructions is stated
    in module `Listing`. */
module Compiler {
  import opened Bytes
  import opened Wasm
  import opened Errors
  import Store

  /** The size of the code area. */
  const CODE_AREA_SIZE: nat := 1024

  /** The most parameters a function may have: their offsets from `rdi` must fit a disp8 (128 / 8). */
  const MAX_PARAMS: nat := 16

  /** The messages of the unsupported cases. */
  const TOO_MANY_PARAMS: string := "more than 16 parameters are not supported yet"
  const LOCALS_UNSUPPORTED: string := "local variables are not supported yet"
  const MULTIPLE_RESULTS: string := "multiple return values are not supported yet"
  const UNIMPLEMENTED_INSTRUCTION: string := "unimplemented instruction: "

  /** The host addresses baked into a `call`: of the helper that allocates the
      argument array and of the runtime's function-call entry point. */
  datatype HostAddresses = HostAddresses(allocArgs: U64, callFuncInternal: U64)

  // ---- operator templates ----

  /** How far below `rbp` local `localIndex` lives: past the saved `rsi`
      and `rdx` words come the locals, 8 bytes each (u32 arithmetic). */
  function LocalOffset(localIndex: U32): (offset: U32)
    ensures offset % 8 == 0
    ensures 24 + 8 * localIndex < TWO_32 ==> offset == 24 + 8 * localIndex
    ensures (offset - (24 + 8 * localIndex)) % TWO_32 == 0
  {
    (24 + 8 * localIndex) % TWO_32
  }

  /** `local.get`: load the local into `rax`, then push it. */
  function LocalGetCode(localIndex: U32): (code: seq<bv8>)
    ensures |code| == if LocalOffset(localIndex) <= 128 then 5 else 8
    ensures code[..|code| - 1] == LocalGetMov(localIndex) && code[|code| - 1] == 0x50
  {
    LocalGetMov(localIndex) + [0x50]
  }

  /** `mov rax, [rbp - offset]`: disp8 when the offset reaches, else disp32;
      either way the displacement plus the offset wraps to zero. */
  function LocalGetMov(localIndex: U32): (code: seq<bv8>)
    ensures LocalOffset(localIndex) <= 128 ==>
      && |code| == 4 && code[..3] == [0x48, 0x8b, 0x45]
      && (code[3] as int + LocalOffset(localIndex)) % 256 == 0
    ensures LocalOffset(localIndex) > 128 ==>
      && |code| == 7 && code[..3] == [0x48, 0x8b, 0x85]
      && LeValue(code[3..]) + LocalOffset(localIndex) == TWO_32
  {
    var offset := LocalOffset(localIndex);
    if offset <= 128 then
      [0x48, 0x8b, 0x45, LowByte(256 - offset)]
    else
      Le32Value(TWO_32 - offset);
      assert ([0x48, 0x8b, 0x85] + Le32(TWO_32 - offset))[3..] == Le32(TWO_32 - offset);
      [0x48, 0x8b, 0x85] + Le32(TWO_32 - offset)
  }

  /** `i32.const`: on the bits of the value as u32, `push imm8`, `push imm32`,
      or `mov rax, imm64` (zero-extended) and `push rax`. */
  function I32ConstCode(value: I32): (code: seq<bv8>)
    ensures AsU32(value) <= 127 ==> |code| == 2 && code[0] == 0x6a && code[1] as int == AsU32(value)
    ensures 127 < AsU32(value) <= 0x7fff_ffff ==>
      |code| == 5 && code[0] == 0x68 && LeValue(code[1..]) == AsU32(value)
    ensures 0x7fff_ffff < AsU32(value) ==>
      && |code| == 11 && code[..2] == [0x48, 0xb8]
      && LeValue(code[2..10]) == AsU32(value) && code[10] == 0x50
  {
    var v := AsU32(value);
    if v <= 127 then
      [0x6a, LowByte(v)]
    else if v <= 0x7fff_ffff then
      Le32Value(v);
      assert ([0x68] + Le32(v))[1..] == Le32(v);
      [0x68] + Le32(v)
    else
      Le64OfU32(v);
      Le64Value(v);
      assert ([0x48, 0xb8] + Le32(v) + [0x00, 0x00, 0x00, 0x00] + [0x50])[2..10] == Le64(v);
      [0x48, 0xb8] + Le32(v) + [0x00, 0x00, 0x00, 0x00] + [0x50]
  }

  /** `i64.const` as written: its `push imm32` form is followed by all eight
      bytes of the value instead of four; its other forms are the intended ones. */
  function I64ConstCodeAsWritten(value: I64): (code: seq<bv8>)
    ensures 127 < AsU64(value) <= 0x7fff_ffff ==>
      |code| == 9 && code[0] == 0x68 && LeValue(code[1..]) == AsU64(value)
    ensures !(127 < AsU64(value) <= 0x7fff_ffff) ==> code == I64ConstCode(value)
  {
    var v := AsU64(value);
    if v <= 127 then
      [0x6a, LowByte(v)]
    else if v <= 0x7fff_ffff then
      Le64Value(v);
      assert ([0x68] + Le64(v))[1..] == Le64(v);
      [0x68] + Le64(v)
    else
      [0x48, 0xb8] + Le64(v) + [0x50]
  }

  /** `i64.const` as intended: on the bits of the value as u64, `push imm8`,
      `push imm32`, or `mov rax, imm64` and `push rax`. */
  function I64ConstCode(value: I64): (code: seq<bv8>)
    ensures AsU64(value) <= 127 ==> |code| == 2 && code[0] == 0x6a && code[1] as int == AsU64(value)
    ensures 127 < AsU64(value) <= 0x7fff_ffff ==>
      |code| == 5 && code[0] == 0x68 && LeValue(code[1..]) == AsU64(value)
    ensures 0x7fff_ffff < AsU64(value) ==>
      && |code| == 11 && code[..2] == [0x48, 0xb8]
      && LeValue(code[2..10]) == AsU64(value) && code[10] == 0x50
  {
    var v := AsU64(value);
    if v <= 127 then
      [0x6a, LowByte(v)]
    else if v <= 0x7fff_ffff then
      Le32Value(v);
      assert ([0x68] + Le32(v))[1..] == Le32(v);
      [0x68] + Le32(v)
    else
      Le64Value(v);
      assert ([0x48, 0xb8] + Le64(v) + [0x50])[2..10] == Le64(v);
      [0x48, 0xb8] + Le64(v) + [0x50]
  }

  /** `i32.add`: `pop rdi`, `pop rax`, `add eax, edi`, `push rax`. */
  const I32_ADD_CODE: seq<bv8> := [0x5f] + [0x58] + [0x01, 0xf8] + [0x50]

  /** `i64.add`: `pop rdi`, `pop rax`, `add rax, rdi`, `push rax`. */
  const I64_ADD_CODE: seq<bv8> := [0x5f] + [0x58] + [0x48, 0x01, 0xf8] + [0x50]

  /** Before the stores of a `call`: `mov edi, argsNum`, `mov r10, allocArgs`, `call r10`. */
  function CallHead(argsNum: U32, addrs: HostAddresses): (code: seq<bv8>)
    ensures |code| == 18
    ensures code[0] == 0xbf && LeValue(code[1..5]) == argsNum
    ensures code[5..7] == [0x49, 0xba] && LeValue(code[7..15]) == addrs.allocArgs
    ensures code[15..] == [0x41, 0xff, 0xd2]
  {
    var count := [0xbf] + Le32(argsNum);
    var helper := [0x49, 0xba] + Le64(addrs.allocArgs);
    Le32Value(argsNum);
    Le64Value(addrs.allocArgs);
    assert count[1..] == Le32(argsNum) && helper[2..] == Le64(addrs.allocArgs);
    assert (count + helper + [0x41, 0xff, 0xd2])[1..5] == count[1..];
    assert (count + helper + [0x41, 0xff, 0xd2])[5..15] == helper;
    count + helper + [0x41, 0xff, 0xd2]
  }

  /** The store of argument i: `pop rdi`, then `mov [rax + 8i], rdi` (u32 arithmetic). */
  function ArgStore(i: nat): seq<bv8> {
    [0x5f] + ArgStoreMov(i)
  }

  /** `mov [rax + 8i], rdi`: disp8 below 128, else disp32. */
  function ArgStoreMov(i: nat): seq<bv8> {
    var offset := (8 * i) % TWO_32;
    if offset < 128 then [0x48, 0x89, 0x78, LowByte(offset)] else [0x48, 0x89, 0xb8] + Le32(offset)
  }

  /** The store of argument i is `pop rdi` and a `mov [rax + d], rdi` whose
      displacement is `8i` in u32 arithmetic: one byte below 128, else four. */
  lemma ArgStoreLayout(i: nat)
    ensures var code, offset := ArgStore(i), (8 * i) % TWO_32;
      && code[0] == 0x5f && code[1..] == ArgStoreMov(i)
      && (offset < 128 ==> |code| == 5 && code[1..4] == [0x48, 0x89, 0x78] && code[4] as int == offset)
      && (offset >= 128 ==> |code| == 8 && code[1..4] == [0x48, 0x89, 0xb8] && LeValue(code[4..]) == offset)
  {
    var offset := (8 * i) % TWO_32;
    if offset >= 128 {
      Le32Value(offset);
      assert ArgStore(i)[4..] == Le32(offset);
    }
  }

  /** The stores of arguments n-1 down to i, in that order: 5 to 8 bytes each. */
  function ArgStores(n: nat, i: nat): (code: seq<bv8>)
    requires i <= n
    ensures 5 * (n - i) <= |code| <= 8 * (n - i)
    decreases n - i
  {
    if i == n then [] else ArgStores(n, i + 1) + ArgStore(i)
  }

  /** After the stores of a `call`: the runtime, the function index, the result
      pointer, the count and the array as arguments, `call r10` into the runtime,
      then `push [rax + 8]` of the returned value. */
  function CallTail(functionIndex: U32, argsNum: U32, addrs: HostAddresses): seq<bv8> {
    [0x48, 0x8b, 0x7d, 0xf0]
    + ([0xbe] + Le32(functionIndex))
    + [0x48, 0x8b, 0x55, 0xf8]
    + ([0xb9] + Le32(argsNum))
    + [0x49, 0x89, 0xc0]
    + ([0x49, 0xba] + Le64(addrs.callFuncInternal))
    + [0x41, 0xff, 0xd2]
    + [0xff, 0x70, 0x08]
  }

  /** The tail of a `call` is 37 bytes, with the function index, the argument
      count and the runtime's entry point as its immediates, and ends with
      `call r10` and `push [rax + 8]`. */
  lemma CallTailLayout(functionIndex: U32, argsNum: U32, addrs: HostAddresses)
    ensures var code := CallTail(functionIndex, argsNum, addrs);
      && |code| == 37
      && LeValue(code[5..9]) == functionIndex && LeValue(code[14..18]) == argsNum
      && LeValue(code[23..31]) == addrs.callFuncInternal
      && code[31..] == [0x41, 0xff, 0xd2, 0xff, 0x70, 0x08]
  {
    var code := CallTail(functionIndex, argsNum, addrs);
    Le32Value(functionIndex);
    Le32Value(argsNum);
    Le64Value(addrs.callFuncInternal);
    assert code[5..9] == Le32(functionIndex);
    assert code[14..18] == Le32(argsNum);
    assert code[23..31] == Le64(addrs.callFuncInternal);
  }

  /** `call`: the argument count is the parameter count as u32; the head,
      then 5 to 8 bytes per argument, then the tail. */
  function CallCode(functionIndex: U32, funcType: FuncType, addrs: HostAddresses): (code: seq<bv8>)
    ensures var argsNum := AsU32(|funcType.params|);
      && 55 + 5 * argsNum <= |code| <= 55 + 8 * argsNum
      && code[..18] == CallHead(argsNum, addrs)
      && code[|code| - 37..] == CallTail(functionIndex, argsNum, addrs)
  {
    var argsNum := AsU32(|funcType.params|);
    CallHead(argsNum, addrs) + ArgStores(argsNum, 0) + CallTail(functionIndex, argsNum, addrs)
  }

  /** The bytes one operator becomes, or why it cannot be compiled: the callee's
      type is missing, or the operator is not supported. */
  function OpCode(op: Operator, store: Store.Store, addrs: HostAddresses): (r: Result<seq<bv8>>)
    ensures r.Err? <==> op.Other? || (op.Call? && store.GetFuncTypeFromFuncIndex(op.functionIndex).Err?)
    ensures r.Err? && op.Call? ==> r.error == store.GetFuncTypeFromFuncIndex(op.functionIndex).error
    ensures r.Err? && !op.Call? ==> r.error.Unimplemented?
  {
    match op
    case Call(functionIndex) =>
      (match store.GetFuncTypeFromFuncIndex(functionIndex)
       case Err(e) => Err(e)
       case Ok(funcType) => Ok(CallCode(functionIndex, funcType, addrs)))
    case LocalGet(localIndex) => Ok(LocalGetCode(localIndex))
    case I32Const(value) => Ok(I32ConstCode(value))
    case I64Const(value) => Ok(I64ConstCodeAsWritten(value))
    case I32Add => Ok(I32_ADD_CODE)
    case I64Add => Ok(I64_ADD_CODE)
    case End => Ok([])
    case Other(mnemonic) => Err(Unimplemented(UNIMPLEMENTED_INSTRUCTION + mnemonic))
  }

  // ---- compiling operator sequences and functions ----

  /** The bytes written and the outcome: an error stops compilation, and the
      bytes written before it stay in the code area. */
  datatype Emission = Emission(bytes: seq<bv8>, outcome: Result<()>)

  /** Writing the codes in order, stopping at the first error. */
  function Emit(codes: seq<Result<seq<bv8>>>): (e: Emission)
    ensures e.outcome.Ok? <==> forall i :: 0 <= i < |codes| ==> codes[i].Ok?
    ensures e.outcome.Ok? ==> e.outcome == Ok(())
  {
    if codes == [] then Emission([], Ok(()))
    else
      assert forall i :: 0 < i < |codes| ==> codes[i] == codes[1..][i - 1];
      match codes[0]
      case Err(err) => Emission([], Err(err))
      case Ok(bytes) =>
        var rest := Emit(codes[1..]);
        Emission(bytes + rest.bytes, rest.outcome)
  }

  /** Writing `a + b` is writing `a`, then, if that succeeded, writing `b` after it. */
  lemma {:induction false} EmitAppend(a: seq<Result<seq<bv8>>>, b: seq<Result<seq<bv8>>>)
    ensures Emit(a + b) == if Emit(a).outcome.Ok? then Emission(Emit(a).bytes + Emit(b).bytes, Emit(b).outcome) else Emit(a)
    decreases |a|
  {
    if a == [] {
      assert a + b == b;
    } else {
      assert (a + b)[0] == a[0] && (a + b)[1..] == a[1..] + b;
      EmitAppend(a[1..], b);
    }
  }

  /** One more code after a prefix that was written: its bytes are added, or
      its error ends the writing with the prefix's bytes. */
  lemma EmitStep(codes: seq<Result<seq<bv8>>>, k: nat)
    requires k < |codes| && Emit(codes[..k]).outcome.Ok?
    ensures Emit(codes[..k + 1]) ==
      if codes[k].Ok? then Emission(Emit(codes[..k]).bytes + codes[k].value, Ok(()))
      else Emission(Emit(codes[..k]).bytes, Err(codes[k].error))
  {
    EmitAppend(codes[..k], [codes[k]]);
    assert codes[..k] + [codes[k]] == codes[..k + 1];
    assert [codes[k]][1..] == [];
  }

  /** The bytes of a prefix that was written begin the bytes of the whole; a
      prefix that failed is the whole story. */
  lemma EmitPrefix(codes: seq<Result<seq<bv8>>>, k: nat)
    requires k <= |codes|
    ensures Emit(codes[..k]).outcome.Ok? ==>
      |Emit(codes[..k]).bytes| <= |Emit(codes).bytes| && Emit(codes).bytes[..|Emit(codes[..k]).bytes|] == Emit(codes[..k]).bytes
    ensures Emit(codes[..k]).outcome.Err? ==> Emit(codes) == Emit(codes[..k])
  {
    EmitAppend(codes[..k], codes[k..]);
    assert codes[..k] + codes[k..] == codes;
  }

  /** What writing one more code needs and gives: room for its bytes
      within the whole, and either the longer prefix or the whole outcome. */
  lemma EmitNext(codes: seq<Result<seq<bv8>>>, k: nat)
    requires k < |codes| && Emit(codes[..k]).outcome.Ok?
    ensures codes[k].Ok? ==>
      && |Emit(codes[..k]).bytes| + |codes[k].value| <= |Emit(codes).bytes|
      && Emit(codes[..k + 1]) == Emission(Emit(codes[..k]).bytes + codes[k].value, Ok(()))
    ensures codes[k].Err? ==> Emit(codes) == Emission(Emit(codes[..k]).bytes, Err(codes[k].error))
  {
    EmitStep(codes, k);
    EmitPrefix(codes, k + 1);
  }

  /** The code of each operator, in order. */
  function OpCodes(ops: seq<Operator>, store: Store.Store, addrs: HostAddresses): (codes: seq<Result<seq<bv8>>>)
    ensures |codes| == |ops|
    ensures forall i :: 0 <= i < |ops| ==> codes[i] == OpCode(ops[i], store, addrs)
  {
    if ops == [] then [] else [OpCode(ops[0], store, addrs)] + OpCodes(ops[1..], store, addrs)
  }

  /** The operators compiled in order. */
  function OpsEmission(ops: seq<Operator>, store: Store.Store, addrs: HostAddresses): (e: Emission)
    ensures e.outcome.Ok? <==> forall i :: 0 <= i < |ops| ==> OpCode(ops[i], store, addrs).Ok?
  {
    Emit(OpCodes(ops, store, addrs))
  }

  /** Every operator before the first unsupported one is compiled, and that
      one's error is the outcome. */
  lemma OpsEmissionError(ops: seq<Operator>, k: nat, store: Store.Store, addrs: HostAddresses)
    requires k < |ops| && OpCode(ops[k], store, addrs).Err?
    requires forall j :: 0 <= j < k ==> OpCode(ops[j], store, addrs).Ok?
    ensures OpsEmission(ops, store, addrs).outcome == Err(OpCode(ops[k], store, addrs).error)
    ensures OpsEmission(ops, store, addrs).bytes == OpsEmission(ops[..k], store, addrs).bytes
  {
    var codes := OpCodes(ops, store, addrs);
    assert OpCodes(ops[..k], store, addrs) == codes[..k];
    EmitPrefix(codes, k + 1);
    EmitStep(codes, k);
  }

  /** The codes of `a + b` are the codes of `a`, then those of `b`. */
  lemma {:induction false} OpCodesAppend(a: seq<Operator>, b: seq<Operator>, store: Store.Store, addrs: HostAddresses)
    ensures OpCodes(a + b, store, addrs) == OpCodes(a, store, addrs) + OpCodes(b, store, addrs)
    decreases |a|
  {
    if a == [] {
      assert a + b == b;
    } else {
      assert (a + b)[0] == a[0] && (a + b)[1..] == a[1..] + b;
      OpCodesAppend(a[1..], b, store, addrs);
    }
  }

  /** Compiling `a + b` compiles `a` and then, if that succeeded, `b` after it. */
  lemma OpsEmissionAppend(a: seq<Operator>, b: seq<Operator>, store: Store.Store, addrs: HostAddresses)
    ensures var ea := OpsEmission(a, store, addrs);
      OpsEmission(a + b, store, addrs) ==
        if ea.outcome.Ok? then Emission(ea.bytes + OpsEmission(b, store, addrs).bytes, OpsEmission(b, store, addrs).outcome)
        else ea
  {
    OpCodesAppend(a, b, store, addrs);
    EmitAppend(OpCodes(a, store, addrs), OpCodes(b, store, addrs));
  }

  /** Appending two sequences one piece at a time. */
  lemma AppendAssoc(a: seq<bv8>, b: seq<bv8>, c: seq<bv8>)
    ensures a + b + c == a + (b + c)
  {
  }

  /** `push rbp`, `mov rbp, rsp`, `push rsi`, `push rdx`. */
  const PROLOGUE: seq<bv8> := [0x55] + [0x48, 0x89, 0xe5] + [0x56] + [0x52]

  /** `pop rax`, `mov rcx, [rbp - 8]`, `mov rdx, 0`, `mov [rcx], rdx`,
      `mov [rcx + 8], rax`, `mov rsp, rbp`, `pop rbp`, `ret`. */
  const EPILOGUE: seq<bv8> :=
    [0x58]
    + [0x48, 0x8b, 0x4d, 0xf8]
    + [0x48, 0xc7, 0xc2, 0x00, 0x00, 0x00, 0x00]
    + [0x48, 0x89, 0x11]
    + [0x48, 0x89, 0x41, 0x08]
    + [0x48, 0x89, 0xec]
    + [0x5d]
    + [0xc3]

  /** The load of parameter i from the argument array at `rdi`, then `push rax`. */
  function ParamLoad(i: nat): seq<bv8>
    requires i < MAX_PARAMS
  {
    ParamMov(i) + [0x50]
  }

  /** `mov rax, [rdi]` for the first parameter, `mov rax, [rdi + 8i]` after it
      (the byte `i as u8 * 8`, which cannot overflow below 16). */
  function ParamMov(i: nat): seq<bv8>
    requires i < MAX_PARAMS
  {
    if i == 0 then [0x48, 0x8b, 0x07] else [0x48, 0x8b, 0x47, LowByte(8 * i)]
  }

  /** The load of parameter i is `mov rax, [rdi]` or `mov rax, [rdi + d]`
      with the displacement byte `8i`, then `push rax`. */
  lemma ParamLoadLayout(i: nat)
    requires i < MAX_PARAMS
    ensures var code := ParamLoad(i);
      && code[|code| - 1] == 0x50 && code[..|code| - 1] == ParamMov(i)
      && (i == 0 ==> code == [0x48, 0x8b, 0x07, 0x50])
      && (i > 0 ==> |code| == 5 && code[..3] == [0x48, 0x8b, 0x47] && code[3] as int == 8 * i)
  {
    assert ParamLoad(i)[..|ParamLoad(i)| - 1] == ParamMov(i);
  }

  /** How many parameters `compile_func` loads before it stops: all of them,
      or the first 16 when there are more. */
  function LoadedParams(count: nat): nat {
    if count <= MAX_PARAMS then count else MAX_PARAMS
  }

  /** The loads of parameters 0 to k-1, in that order. */
  function ParamLoads(k: nat): (code: seq<bv8>)
    requires k <= MAX_PARAMS
    ensures |code| == if k == 0 then 0 else 5 * k - 1
  {
    if k == 0 then [] else ParamLoads(k - 1) + ParamLoad(k - 1)
  }

  /** Compiling function `funcIndex`: look up its code and type, write the
      prologue and the parameter loads, the body and the epilogue. More than
      16 parameters, declared locals and more than one result are
      unsupported; each stops compilation where the source panics. */
  function FuncEmission(funcIndex: U32, store: Store.Store, addrs: HostAddresses): (e: Emission)
    ensures store.GetCode(funcIndex).Err? ==> e == Emission([], Err(store.GetCode(funcIndex).error))
    ensures store.GetCode(funcIndex).Ok? && store.GetFuncTypeFromFuncIndex(funcIndex).Err? ==>
      e == Emission([], Err(store.GetFuncTypeFromFuncIndex(funcIndex).error))
    ensures e.bytes != [] ==> store.GetCode(funcIndex).Ok? && store.GetFuncTypeFromFuncIndex(funcIndex).Ok?
  {
    match store.GetCode(funcIndex)
    case Err(e) => Emission([], Err(e))
    case Ok(func) =>
      match store.GetFuncTypeFromFuncIndex(funcIndex)
      case Err(e) => Emission([], Err(e))
      case Ok(funcType) => FuncBodyEmission(func, funcType, store, addrs)
  }

  /** Bytes that begin with the prologue still do after more are appended. */
  lemma PrologueFirst(a: seq<bv8>, b: seq<bv8>)
    requires |a| >= |PROLOGUE| && a[..|PROLOGUE|] == PROLOGUE
    ensures (a + b)[..|PROLOGUE|] == PROLOGUE
  {
    assert (a + b)[..|PROLOGUE|] == a[..|PROLOGUE|];
  }

  /** Compiling a function once its code and type are found. */
  function FuncBodyEmission(func: Func, funcType: FuncType, store: Store.Store, addrs: HostAddresses): (e: Emission)
    ensures |e.bytes| >= |PROLOGUE| && e.bytes[..|PROLOGUE|] == PROLOGUE
    ensures |funcType.params| > MAX_PARAMS ==> e.outcome == Err(Unimplemented(TOO_MANY_PARAMS))
    ensures |funcType.params| <= MAX_PARAMS && func.locals != [] ==> e.outcome == Err(Unimplemented(LOCALS_UNSUPPORTED))
    ensures |funcType.params| <= MAX_PARAMS && func.locals == [] ==>
      var body := OpsEmission(func.body, store, addrs);
      && (body.outcome.Err? ==> e.outcome == body.outcome)
      && (body.outcome.Ok? && |funcType.results| > 1 ==> e.outcome == Err(Unimplemented(MULTIPLE_RESULTS)))
      && (body.outcome.Ok? && |funcType.results| <= 1 ==> e.outcome == Ok(()) && e.bytes[|e.bytes| - 1] == 0xc3)
  {
    var head := PROLOGUE + ParamLoads(LoadedParams(|funcType.params|));
    if |funcType.params| > MAX_PARAMS then Emission(head, Err(Unimplemented(TOO_MANY_PARAMS)))
    else if func.locals != [] then Emission(head, Err(Unimplemented(LOCALS_UNSUPPORTED)))
    else
      var body := OpsEmission(func.body, store, addrs);
      PrologueFirst(head, body.bytes);
      if body.outcome.Err? then Emission(head + body.bytes, body.outcome)
      else if |funcType.results| > 1 then Emission(head + body.bytes, Err(Unimplemented(MULTIPLE_RESULTS)))
      else
        PrologueFirst(head + body.bytes, EPILOGUE);
        Emission(head + body.bytes + EPILOGUE, Ok(()))
  }

  /** A function compiles exactly when its code and type exist, it has at
      most 16 parameters, no locals, a body of supported operators and at
      most one result; then the bytes are the prologue, the parameter loads,
      the body and the epilogue, which ends in `ret`. */
  lemma FuncEmissionSucceeds(funcIndex: U32, store: Store.Store, addrs: HostAddresses)
    ensures var e := FuncEmission(funcIndex, store, addrs);
      e.outcome.Ok? <==>
        && store.GetCode(funcIndex).Ok? && store.GetFuncTypeFromFuncIndex(funcIndex).Ok?
        && |store.GetFuncTypeFromFuncIndex(funcIndex).value.params| <= MAX_PARAMS
        && store.GetCode(funcIndex).value.locals == []
        && OpsEmission(store.GetCode(funcIndex).value.body, store, addrs).outcome.Ok?
        && |store.GetFuncTypeFromFuncIndex(funcIndex).value.results| <= 1
    ensures var e := FuncEmission(funcIndex, store, addrs);
      e.outcome.Ok? ==>
        var funcType := store.GetFuncTypeFromFuncIndex(funcIndex).value;
        var body := OpsEmission(store.GetCode(funcIndex).value.body, store, addrs).bytes;
        && e.bytes == PROLOGUE + ParamLoads(|funcType.params|) + body + EPILOGUE
        && e.bytes[..6] == PROLOGUE
        && e.bytes[|e.bytes| - 1] == 0xc3
  {
    var e := FuncEmission(funcIndex, store, addrs);
    if e.outcome.Ok? {
      assert e.bytes[..6] == PROLOGUE;
    }
  }

  /** Splitting the argument stores at any i between. */
  lemma {:induction false} ArgStoresSplit(n: nat, i: nat, j: nat)
    requires j <= i <= n
    ensures ArgStores(n, j) == ArgStores(n, i) + ArgStores(i, j)
    decreases i - j
  {
    if j < i {
      ArgStoresSplit(n, i, j + 1);
      assert ArgStores(n, j) == ArgStores(n, j + 1) + ArgStore(j);
      assert ArgStores(i, j) == ArgStores(i, j + 1) + ArgStore(j);
      AppendAssoc(ArgStores(n, i), ArgStores(i, j + 1), ArgStore(j));
    } else {
      assert ArgStores(i, j) == [];
    }
  }

  /** Parameter loads grow with the count. */
  lemma ParamLoadsNext(i: nat)
    requires i < MAX_PARAMS
    ensures ParamLoads(i + 1) == ParamLoads(i) + ParamLoad(i)
  {
  }

  lemma ParamLoadsGrow(i: nat, k: nat)
    requires i <= k <= MAX_PARAMS
    ensures |ParamLoads(i)| <= |ParamLoads(k)|
  {
  }

  // ---- the code area ----

  class Compiler {
    /** The code area (the bytes from `p_start`). */
    const code: array<bv8>
    /** The write cursor: the next byte written goes to `code[current]`. */
    var current: nat
    /** Where the function being compiled starts. */
    var funcStart: nat

    predicate Valid()
      reads this
    {
      code.Length == CODE_AREA_SIZE && funcStart <= current <= code.Length
    }

    /** A fresh code area with both markers at its start. Allocating and
        protecting the memory is not part of this model. */
    constructor ()
      ensures Valid() && fresh(code)
      ensures current == 0 && funcStart == 0
    {
      code := new bv8[CODE_AREA_SIZE];
      current := 0;
      funcStart := 0;
    }

    /** `push_code`: writes `bytes` at the cursor, one at a time, and moves
        the cursor past them; nothing before or after them changes. */
    method PushCode(bytes: seq<bv8>)
      requires Valid() && current + |bytes| <= code.Length
      modifies this, code
      ensures Valid() && funcStart == old(funcStart)
      ensures current == old(current) + |bytes|
      ensures code[..current] == old(code[..current]) + bytes
      ensures forall k :: current <= k < code.Length ==> code[k] == old(code[k])
    {
      ghost var end := current + |bytes|;
      for k := 0 to |bytes|
        invariant Valid() && funcStart == old(funcStart)
        invariant current == old(current) + k
        invariant code[..current] == old(code[..current]) + bytes[..k]
        invariant code[end..] == old(code[end..])
      {
        code[current] := bytes[k];
        current := current + 1;
      }
    }

    /** `push rax`. */
    method PushRax()
      requires Valid() && current + 1 <= code.Length
      modifies this, code
      ensures Valid() && funcStart == old(funcStart) && current == old(current) + 1
      ensures code[..current] == old(code[..current]) + [0x50]
      ensures forall k :: current <= k < code.Length ==> code[k] == old(code[k])
    {
      PushCode([0x50]);
    }

    /** `pop rax`. */
    method PopRax()
      requires Valid() && current + 1 <= code.Length
      modifies this, code
      ensures Valid() && funcStart == old(funcStart) && current == old(current) + 1
      ensures code[..current] == old(code[..current]) + [0x58]
      ensures forall k :: current <= k < code.Length ==> code[k] == old(code[k])
    {
      PushCode([0x58]);
    }

    /** `pop rdi`. */
    method PopRdi()
      requires Valid() && current + 1 <= code.Length
      modifies this, code
      ensures Valid() && funcStart == old(funcStart) && current == old(current) + 1
      ensures code[..current] == old(code[..current]) + [0x5f]
      ensures forall k :: current <= k < code.Length ==> code[k] == old(code[k])
    {
      PushCode([0x5f]);
    }

    /** `extract_func`: hands out where the finished function starts and
        starts the next one at the cursor; the code area does not change. */
    method ExtractFunc() returns (entry: nat)
      requires Valid()
      modifies this
      ensures Valid() && entry == old(funcStart) && entry <= current
      ensures funcStart == current && current == old(current)
    {
      entry := funcStart;
      funcStart := current;
    }

    /** The head of a `call`: `mov edi, argsNum`, `mov r10, allocArgs`, `call r10`. */
    method EmitCallHead(argsNum: U32, addrs: HostAddresses)
      requires Valid() && current + |CallHead(argsNum, addrs)| <= code.Length
      modifies this, code
      ensures Valid() && funcStart == old(funcStart)
      ensures code[..current] == old(code[..current]) + CallHead(argsNum, addrs)
      ensures forall k :: current <= k < code.Length ==> code[k] == old(code[k])
    {
      ghost var start := code[..current];
      ghost var written: seq<bv8> := [0xbf] + Le32(argsNum);
      PushCode([0xbf] + Le32(argsNum));
      PushCode([0x49, 0xba] + Le64(addrs.allocArgs));
      AppendAssoc(start, written, [0x49, 0xba] + Le64(addrs.allocArgs));
      written := written + ([0x49, 0xba] + Le64(addrs.allocArgs));
      PushCode([0x41, 0xff, 0xd2]);
      AppendAssoc(start, written, [0x41, 0xff, 0xd2]);
    }

    /** The argument stores of a `call`, from the last argument down to the
        first, each popping one argument into its slot. */
    method EmitArgStores(argsNum: U32)
      requires Valid() && current + |ArgStores(argsNum, 0)| <= code.Length
      modifies this, code
      ensures Valid() && funcStart == old(funcStart)
      ensures code[..current] == old(code[..current]) + ArgStores(argsNum, 0)
      ensures forall k :: current <= k < code.Length ==> code[k] == old(code[k])
    {
      ghost var start := code[..current];
      assert start + ArgStores(argsNum, argsNum) == start;
      for i := argsNum downto 0
        invariant Valid() && funcStart == old(funcStart)
        invariant code[..current] == start + ArgStores(argsNum, i)
        invariant forall k :: current <= k < code.Length ==> code[k] == old(code[k])
        invariant current + |ArgStores(i, 0)| <= code.Length
      {
        ArgStoresSplit(i + 1, i, 0);
        ArgStoresSplit(argsNum, i + 1, i);
        EmitArgStore(i);
        AppendAssoc(start, ArgStores(argsNum, i + 1), ArgStore(i));
      }
    }

    /** One pass of the store loop: `pop rdi`, then `mov [rax + 8i], rdi`. */
    method EmitArgStore(i: nat)
      requires Valid() && current + |ArgStore(i)| <= code.Length
      modifies this, code
      ensures Valid() && funcStart == old(funcStart)
      ensures code[..current] == old(code[..current]) + ArgStore(i)
      ensures forall k :: current <= k < code.Length ==> code[k] == old(code[k])
    {
      ghost var start := code[..current];
      PopRdi();
      var offset := (8 * i) % TWO_32;
      if offset < 128 {
        PushCode([0x48, 0x89, 0x78, LowByte(offset)]);
      } else {
        PushCode([0x48, 0x89, 0xb8] + Le32(offset));
      }
      AppendAssoc(start, [0x5f], ArgStoreMov(i));
    }

    /** The tail of a `call`: load the runtime, the function index, the
        result pointer, the count and the array into the argument
        registers, call `call_func_internal`, push the result word. */
    method EmitCallTail(functionIndex: U32, argsNum: U32, addrs: HostAddresses)
      requires Valid() && current + |CallTail(functionIndex, argsNum, addrs)| <= code.Length
      modifies this, code
      ensures Valid() && funcStart == old(funcStart)
      ensures code[..current] == old(code[..current]) + CallTail(functionIndex, argsNum, addrs)
      ensures forall k :: current <= k < code.Length ==> code[k] == old(code[k])
    {
      ghost var stored := code[..current];
      ghost var acc: seq<bv8> := [0x48, 0x8b, 0x7d, 0xf0];
      PushCode([0x48, 0x8b, 0x7d, 0xf0]);
      PushCode([0xbe] + Le32(functionIndex));
      AppendAssoc(stored, acc, [0xbe] + Le32(functionIndex));
      acc := acc + ([0xbe] + Le32(functionIndex));
      PushCode([0x48, 0x8b, 0x55, 0xf8]);
      AppendAssoc(stored, acc, [0x48, 0x8b, 0x55, 0xf8]);
      acc := acc + [0x48, 0x8b, 0x55, 0xf8];
      PushCode([0xb9] + Le32(argsNum));
      AppendAssoc(stored, acc, [0xb9] + Le32(argsNum));
      acc := acc + ([0xb9] + Le32(argsNum));
      PushCode([0x49, 0x89, 0xc0]);
      AppendAssoc(stored, acc, [0x49, 0x89, 0xc0]);
      acc := acc + [0x49, 0x89, 0xc0];
      PushCode([0x49, 0xba] + Le64(addrs.callFuncInternal));
      AppendAssoc(stored, acc, [0x49, 0xba] + Le64(addrs.callFuncInternal));
      acc := acc + ([0x49, 0xba] + Le64(addrs.callFuncInternal));
      PushCode([0x41, 0xff, 0xd2]);
      AppendAssoc(stored, acc, [0x41, 0xff, 0xd2]);
      acc := acc + [0x41, 0xff, 0xd2];
      PushCode([0xff, 0x70, 0x08]);
      AppendAssoc(stored, acc, [0xff, 0x70, 0x08]);
    }

    /** The `call` arm: the head, the argument stores from the last argument
        down to the first, then the tail. */
    method EmitCall(functionIndex: U32, funcType: FuncType, addrs: HostAddresses)
      requires Valid() && current + |CallCode(functionIndex, funcType, addrs)| <= code.Length
      modifies this, code
      ensures Valid() && funcStart == old(funcStart)
      ensures code[..current] == old(code[..current]) + CallCode(functionIndex, funcType, addrs)
      ensures forall k :: current <= k < code.Length ==> code[k] == old(code[k])
    {
      var argsNum := AsU32(|funcType.params|);
      ghost var start := code[..current];
      ghost var head := CallHead(argsNum, addrs);
      ghost var stores := ArgStores(argsNum, 0);
      ghost var tail := CallTail(functionIndex, argsNum, addrs);
      EmitCallHead(argsNum, addrs);
      EmitArgStores(argsNum);
      AppendAssoc(start, head, stores);
      EmitCallTail(functionIndex, argsNum, addrs);
      AppendAssoc(start, head + stores, tail);
    }

    /** `local.get`: `mov rax, [rbp - offset]` with the displacement byte
        `256 - offset` up to 128, else the 32-bit `2^32 - offset`; then `push rax`. */
    method EmitLocalGet(localIndex: U32)
      requires Valid() && current + |LocalGetCode(localIndex)| <= code.Length
      modifies this, code
      ensures Valid() && funcStart == old(funcStart)
      ensures code[..current] == old(code[..current]) + LocalGetCode(localIndex)
      ensures forall k :: current <= k < code.Length ==> code[k] == old(code[k])
    {
      ghost var start := code[..current];
      var offset := LocalOffset(localIndex);
      if offset <= 128 {
        PushCode([0x48, 0x8b, 0x45, LowByte(256 - offset)]);
      } else {
        PushCode([0x48, 0x8b, 0x85] + Le32(TWO_32 - offset));
      }
      PushRax();
      AppendAssoc(start, LocalGetMov(localIndex), [0x50]);
    }

    /** `i32.const`: the value's 32 bits, zero-extended, pushed. */
    method EmitI32Const(value: I32)
      requires Valid() && current + |I32ConstCode(value)| <= code.Length
      modifies this, code
      ensures Valid() && funcStart == old(funcStart)
      ensures code[..current] == old(code[..current]) + I32ConstCode(value)
      ensures forall k :: current <= k < code.Length ==> code[k] == old(code[k])
    {
      ghost var start := code[..current];
      var v := AsU32(value);
      if v <= 127 {
        PushCode([0x6a, LowByte(v)]);
      } else if v <= 0x7fff_ffff {
        PushCode([0x68] + Le32(v));
      } else {
        PushCode([0x48, 0xb8] + Le32(v) + [0x00, 0x00, 0x00, 0x00]);
        PushRax();
        AppendAssoc(start, [0x48, 0xb8] + Le32(v) + [0x00, 0x00, 0x00, 0x00], [0x50]);
      }
    }

    /** `i64.const`, with the `push imm32` form followed by all eight bytes
        of the value, as the source writes it. */
    method EmitI64Const(value: I64)
      requires Valid() && current + |I64ConstCodeAsWritten(value)| <= code.Length
      modifies this, code
      ensures Valid() && funcStart == old(funcStart)
      ensures code[..current] == old(code[..current]) + I64ConstCodeAsWritten(value)
      ensures forall k :: current <= k < code.Length ==> code[k] == old(code[k])
    {
      ghost var start := code[..current];
      var v := AsU64(value);
      if v <= 127 {
        PushCode([0x6a, LowByte(v)]);
      } else if v <= 0x7fff_ffff {
        PushCode([0x68] + Le64(v));
      } else {
        PushCode([0x48, 0xb8] + Le64(v));
        PushRax();
        AppendAssoc(start, [0x48, 0xb8] + Le64(v), [0x50]);
      }
    }

    /** `i32.add` and `i64.add`: pop both operands, add, push the sum. */
    method EmitAdd(addCode: seq<bv8>)
      requires Valid() && current + 1 + 1 + |addCode| + 1 <= code.Length
      modifies this, code
      ensures Valid() && funcStart == old(funcStart)
      ensures code[..current] == old(code[..current]) + ([0x5f] + [0x58] + addCode + [0x50])
      ensures forall k :: current <= k < code.Length ==> code[k] == old(code[k])
    {
      ghost var start := code[..current];
      PopRdi();
      PopRax();
      AppendAssoc(start, [0x5f], [0x58]);
      PushCode(addCode);
      AppendAssoc(start, [0x5f] + [0x58], addCode);
      PushRax();
      AppendAssoc(start, [0x5f] + [0x58] + addCode, [0x50]);
    }

    /** One operator of `compile`: writes its template, or writes nothing
        and reports why it cannot be compiled. */
    method CompileOp(op: Operator, store: Store.Store, addrs: HostAddresses) returns (r: Result<()>)
      requires Valid()
      requires OpCode(op, store, addrs).Ok? ==> current + |OpCode(op, store, addrs).value| <= code.Length
      modifies this, code
      ensures Valid() && funcStart == old(funcStart)
      ensures r.Ok? <==> OpCode(op, store, addrs).Ok?
      ensures r.Err? ==> r.error == OpCode(op, store, addrs).error
      ensures code[..current] == old(code[..current]) + (if r.Ok? then OpCode(op, store, addrs).value else [])
      ensures forall k :: current <= k < code.Length ==> code[k] == old(code[k])
    {
      ghost var start := code[..current];
      assert start + [] == start;
      match op
      case Call(functionIndex) =>
        var funcType :- store.GetFuncTypeFromFuncIndex(functionIndex);
        EmitCall(functionIndex, funcType, addrs);
        r := Ok(());
      case LocalGet(localIndex) =>
        EmitLocalGet(localIndex);
        r := Ok(());
      case I32Const(value) =>
        EmitI32Const(value);
        r := Ok(());
      case I64Const(value) =>
        EmitI64Const(value);
        r := Ok(());
      case I32Add =>
        EmitAdd([0x01, 0xf8]);
        r := Ok(());
      case I64Add =>
        EmitAdd([0x48, 0x01, 0xf8]);
        r := Ok(());
      case End =>
        r := Ok(());
      case Other(mnemonic) =>
        r := Err(Unimplemented(UNIMPLEMENTED_INSTRUCTION + mnemonic));
    }

    /** `compile`: the operators in order; the first one that cannot be
        compiled stops it, with the bytes of those before it written. */
    method Compile(ops: seq<Operator>, store: Store.Store, addrs: HostAddresses) returns (r: Result<()>)
      requires Valid() && current + |OpsEmission(ops, store, addrs).bytes| <= code.Length
      modifies this, code
      ensures Valid() && funcStart == old(funcStart)
      ensures code[..current] == old(code[..current]) + OpsEmission(ops, store, addrs).bytes
      ensures forall k :: current <= k < code.Length ==> code[k] == old(code[k])
      ensures r == OpsEmission(ops, store, addrs).outcome
    {
      ghost var start := code[..current];
      ghost var codes := OpCodes(ops, store, addrs);
      ghost var whole := Emit(codes);
      assert whole == OpsEmission(ops, store, addrs);
      assert start + [] == start;
      for k := 0 to |ops|
        invariant Valid() && funcStart == old(funcStart)
        invariant Emit(codes[..k]).outcome.Ok?
        invariant code[..current] == start + Emit(codes[..k]).bytes
        invariant forall k :: current <= k < code.Length ==> code[k] == old(code[k])
      {
        EmitNext(codes, k);
        ghost var before := Emit(codes[..k]).bytes;
        assert codes[k] == OpCode(ops[k], store, addrs);
        r := CompileOp(ops[k], store, addrs);
        if r.Err? {
          assert whole == Emission(before, r);
          assert before + [] == before;
          return;
        }
        AppendAssoc(start, before, codes[k].value);
      }
      assert codes[..|ops|] == codes;
      r := Ok(());
      assert whole.outcome == r;
    }

    /** The prologue of `compile_func`. */
    method EmitPrologue()
      requires Valid() && current + |PROLOGUE| <= code.Length
      modifies this, code
      ensures Valid() && funcStart == old(funcStart) && current == old(current) + |PROLOGUE|
      ensures code[..current] == old(code[..current]) + PROLOGUE
      ensures forall k :: current <= k < code.Length ==> code[k] == old(code[k])
    {
      ghost var start := code[..current];
      ghost var acc: seq<bv8> := [0x55];
      PushCode([0x55]);
      PushCode([0x48, 0x89, 0xe5]);
      AppendAssoc(start, acc, [0x48, 0x89, 0xe5]);
      acc := acc + [0x48, 0x89, 0xe5];
      PushCode([0x56]);
      AppendAssoc(start, acc, [0x56]);
      acc := acc + [0x56];
      PushCode([0x52]);
      AppendAssoc(start, acc, [0x52]);
      acc := acc + [0x52];
    }

    /** The load of parameter i: `mov rax, [rdi + 8i]` (`[rdi]` for the
        first), then `push rax`. */
    method LoadParam(i: nat)
      requires Valid() && i < MAX_PARAMS && current + |ParamLoad(i)| <= code.Length
      modifies this, code
      ensures Valid() && funcStart == old(funcStart) && current == old(current) + |ParamLoad(i)|
      ensures code[..current] == old(code[..current]) + ParamLoad(i)
      ensures forall k :: current <= k < code.Length ==> code[k] == old(code[k])
    {
      ghost var start := code[..current];
      if i == 0 {
        PushCode([0x48, 0x8b, 0x07]);
      } else {
        PushCode([0x48, 0x8b, 0x47, LowByte(8 * i)]);
      }
      PushRax();
      AppendAssoc(start, ParamMov(i), [0x50]);
    }

    /** The loads of parameters 0 to k-1. */
    method LoadFirstParams(k: nat)
      requires Valid() && k <= MAX_PARAMS && current + |ParamLoads(k)| <= code.Length
      modifies this, code
      ensures Valid() && funcStart == old(funcStart) && current == old(current) + |ParamLoads(k)|
      ensures code[..current] == old(code[..current]) + ParamLoads(k)
      ensures forall k :: current <= k < code.Length ==> code[k] == old(code[k])
    {
      ghost var start := code[..current];
      assert start + ParamLoads(0) == start;
      for i := 0 to k
        invariant Valid() && funcStart == old(funcStart)
        invariant current == old(current) + |ParamLoads(i)|
        invariant code[..current] == start + ParamLoads(i)
        invariant forall k :: current <= k < code.Length ==> code[k] == old(code[k])
      {
        ParamLoadsGrow(i + 1, k);
        ParamLoadsNext(i);
        ghost var before := ParamLoads(i);
        LoadParam(i);
        AppendAssoc(start, before, ParamLoad(i));
      }
    }

    /** The parameter loads of `compile_func`: one per parameter, stopping
        at the seventeenth, which is unsupported. */
    method LoadParams(count: nat) returns (r: Result<()>)
      requires Valid() && current + |ParamLoads(LoadedParams(count))| <= code.Length
      modifies this, code
      ensures Valid() && funcStart == old(funcStart)
      ensures code[..current] == old(code[..current]) + ParamLoads(LoadedParams(count))
      ensures forall k :: current <= k < code.Length ==> code[k] == old(code[k])
      ensures r == if count <= MAX_PARAMS then Ok(()) else Err(Unimplemented(TOO_MANY_PARAMS))
    {
      LoadFirstParams(LoadedParams(count));
      if count > MAX_PARAMS {
        return Err(Unimplemented(TOO_MANY_PARAMS));
      }
      r := Ok(());
    }

    /** The epilogue of `compile_func`. */
    method EmitEpilogue()
      requires Valid() && current + |EPILOGUE| <= code.Length
      modifies this, code
      ensures Valid() && funcStart == old(funcStart) && current == old(current) + |EPILOGUE|
      ensures code[..current] == old(code[..current]) + EPILOGUE
      ensures forall k :: current <= k < code.Length ==> code[k] == old(code[k])
    {
      ghost var start := code[..current];
      ghost var acc: seq<bv8> := [0x58];
      PopRax();
      PushCode([0x48, 0x8b, 0x4d, 0xf8]);
      AppendAssoc(start, acc, [0x48, 0x8b, 0x4d, 0xf8]);
      acc := acc + [0x48, 0x8b, 0x4d, 0xf8];
      PushCode([0x48, 0xc7, 0xc2, 0x00, 0x00, 0x00, 0x00]);
      AppendAssoc(start, acc, [0x48, 0xc7, 0xc2, 0x00, 0x00, 0x00, 0x00]);
      acc := acc + [0x48, 0xc7, 0xc2, 0x00, 0x00, 0x00, 0x00];
      PushCode([0x48, 0x89, 0x11]);
      AppendAssoc(start, acc, [0x48, 0x89, 0x11]);
      acc := acc + [0x48, 0x89, 0x11];
      PushCode([0x48, 0x89, 0x41, 0x08]);
      AppendAssoc(start, acc, [0x48, 0x89, 0x41, 0x08]);
      acc := acc + [0x48, 0x89, 0x41, 0x08];
      PushCode([0x48, 0x89, 0xec]);
      AppendAssoc(start, acc, [0x48, 0x89, 0xec]);
      acc := acc + [0x48, 0x89, 0xec];
      PushCode([0x5d]);
      AppendAssoc(start, acc, [0x5d]);
      acc := acc + [0x5d];
      PushCode([0xc3]);
      AppendAssoc(start, acc, [0xc3]);
      acc := acc + [0xc3];
    }

    /** The prologue and the parameter loads. */
    method EmitHead(count: nat) returns (r: Result<()>)
      requires Valid() && current + |PROLOGUE + ParamLoads(LoadedParams(count))| <= code.Length
      modifies this, code
      ensures Valid() && funcStart == old(funcStart)
      ensures code[..current] == old(code[..current]) + (PROLOGUE + ParamLoads(LoadedParams(count)))
      ensures forall k :: current <= k < code.Length ==> code[k] == old(code[k])
      ensures r == if count <= MAX_PARAMS then Ok(()) else Err(Unimplemented(TOO_MANY_PARAMS))
    {
      ghost var start := code[..current];
      EmitPrologue();
      r := LoadParams(count);
      AppendAssoc(start, PROLOGUE, ParamLoads(LoadedParams(count)));
    }

    /** `compile_func` once the code and the type are found: the prologue
        and the parameter loads, the body, and the epilogue; each
        unsupported feature stops it where the source panics, with what was
        written before it left in place. */
    method CompileBody(func: Func, funcType: FuncType, store: Store.Store, addrs: HostAddresses) returns (r: Result<()>)
      requires Valid() && current + |FuncBodyEmission(func, funcType, store, addrs).bytes| <= code.Length
      modifies this, code
      ensures Valid() && funcStart == old(funcStart)
      ensures code[..current] == old(code[..current]) + FuncBodyEmission(func, funcType, store, addrs).bytes
      ensures forall k :: current <= k < code.Length ==> code[k] == old(code[k])
      ensures r == FuncBodyEmission(func, funcType, store, addrs).outcome
    {
      ghost var start := code[..current];
      ghost var e := FuncBodyEmission(func, funcType, store, addrs);
      ghost var head := PROLOGUE + ParamLoads(LoadedParams(|funcType.params|));
      ghost var body := OpsEmission(func.body, store, addrs);
      r := EmitHead(|funcType.params|);
      if r.Err? {
        assert e == Emission(head, r);
        return;
      }
      if func.locals != [] {
        assert e == Emission(head, Err(Unimplemented(LOCALS_UNSUPPORTED)));
        return Err(Unimplemented(LOCALS_UNSUPPORTED));
      }
      assert |e.bytes| >= |head + body.bytes|;
      r := Compile(func.body, store, addrs);
      AppendAssoc(start, head, body.bytes);
      if r.Err? {
        assert e == Emission(head + body.bytes, r);
        return;
      }
      if |funcType.results| > 1 {
        assert e == Emission(head + body.bytes, Err(Unimplemented(MULTIPLE_RESULTS)));
        return Err(Unimplemented(MULTIPLE_RESULTS));
      }
      assert e == Emission(head + body.bytes + EPILOGUE, Ok(()));
      EmitEpilogue();
      AppendAssoc(start, head + body.bytes, EPILOGUE);
      r := Ok(());
    }

    /** `compile_func`: look up the code and the type, each missing one an
        error before anything is written, then compile the body. */
    method CompileFunc(funcIndex: U32, store: Store.Store, addrs: HostAddresses) returns (r: Result<()>)
      requires Valid() && current + |FuncEmission(funcIndex, store, addrs).bytes| <= code.Length
      modifies this, code
      ensures Valid() && funcStart == old(funcStart)
      ensures code[..current] == old(code[..current]) + FuncEmission(funcIndex, store, addrs).bytes
      ensures forall k :: current <= k < code.Length ==> code[k] == old(code[k])
      ensures r == FuncEmission(funcIndex, store, addrs).outcome
    {
      ghost var start := code[..current];
      assert start + [] == start;
      var func :- store.GetCode(funcIndex);
      var funcType :- store.GetFuncTypeFromFuncIndex(funcIndex);
      r := CompileBody(func, funcType, store, addrs);
    }
  }
}
