# wasm_jit in Dafny

This project models the core of `wasm_jit`, a small WebAssembly-to-x86-64 JIT compiler written in Rust, and proves properties of that model. The model has four parts:

- **The x86-64 encoder** of `src/assembler.rs`:
  - REX, ModR/M and SIB packing;
  - register numbers;
  - memory operands with no, 8-bit or 32-bit displacement;
  - `push`, `pop`, `mov`, `call`, `add` and `ret`.

  The encoders follow the instruction format of the Intel 64 and IA-32 Architectures Software Developer's Manual, Volume 2, sections 2.1 and 2.2.1. Module `Disassembler` is a reference decoder written from that format, and it is the encoder's partner: decoding any encoding gives back the instruction and its length (`DecodeEncode`).
- **The code emitter** of `src/compiler.rs`. Class `Compiler.Compiler` holds the 1024-byte code area as an `array<bv8>`, with two indices:
  - `current` stands for `p_current`;
  - `funcStart` stands for `p_func_start`.

  Its methods write the byte template of each WebAssembly operator, and the prologue and epilogue of a function, exactly as the source does, and leave every byte after the cursor unchanged. Each method is proved against a specification function on sequences:
  - `OpCode` gives the bytes of one operator;
  - `OpsEmission` gives the bytes of an operator sequence;
  - `FuncEmission` gives the bytes of a whole function.

  Module `Listing` proves what those templates are as instructions: each one disassembles to the instructions its source comment names.
- **The store lookups** of `src/runtime/store.rs`: the export map keyed by name, and the lookups from function index to type index to function type, each missing level with its own error.
- **The runtime** of `src/runtime.rs`:
  - values as the 64-bit words passed to generated code, and back;
  - `Runtime::init`;
  - the checks `call_func_by_name` makes before any generated code runs.

Modules `Bytes`, `Wasm` and `Errors` hold the shared parts:

- `Bytes`: integer widths, little-endian encoding, two's complement, decimal strings.
- `Wasm`: the parsed module.
- `Errors`: the error enum of `src/runtime/error.rs`, plus the failures the source raises by `bail!` or by panicking.

## Model

| member | source | states |
|---|---|---|
| Bytes.LowByte | src/assembler.rs:73 | `x as u8` keeps the value modulo 256 |
| Bytes.AsU32 | src/compiler.rs:143 | the cast to u32 agrees with its input modulo 2^32 |
| Bytes.AsI32 | src/runtime.rs:44 | the cast to i32 agrees with its input modulo 2^32 |
| Bytes.AsU64 | src/compiler.rs:159 | the cast to u64 agrees with its input modulo 2^64 |
| Bytes.AsI64 | src/runtime.rs:45 | the cast to i64 agrees with its input modulo 2^64 |
| Bytes.Le32 | src/assembler.rs:191 | `to_le_bytes` of a u32 is 4 bytes |
| Bytes.Le64 | src/assembler.rs:270 | `to_le_bytes` of a u64 is 8 bytes |
| Bytes.Le32RoundTrip | src/assembler.rs:191 | the 4 little-endian bytes read back as the value, and every 4 bytes are the encoding of what they read as |
| Bytes.I32LeRoundTrip | src/assembler.rs:254 | an i32 written as its 4 little-endian bytes reads back as itself |
| Bytes.I64LeRoundTrip | src/assembler.rs:270 | an i64 written as its 8 little-endian bytes reads back as itself |
| Bytes.Le64OfU32 | src/compiler.rs:153 | a u32 zero-extended to 8 little-endian bytes is its 4 bytes followed by four zeros |
| Bytes.AsI32OfAsU32 | src/runtime.rs:35-44 | an i32 cast to u32 and back is itself |
| Bytes.AsI64OfAsU64 | src/runtime.rs:36-45 | an i64 cast to u64 and back is itself |
| Bytes.DecimalString | src/runtime/store.rs:42 | `to_string` of an index is a non-empty string of digits with no leading zero |
| Bytes.DecimalRoundTrip | src/runtime/store.rs:42 | the decimal string reads back as the index |
| Assembler.Rex | src/assembler.rs:97-99 | the high nibble is 4 and bits 3, 2, 1, 0 are W, R, X, B |
| Assembler.ModRm | src/assembler.rs:101-103 | bits 7-6, 5-3 and 2-0 are `mod & 3`, `reg & 7` and `rm & 7` |
| Assembler.Sib | src/assembler.rs:105-107 | bits 7-6, 5-3 and 2-0 are `scale & 3`, `index & 7` and `base & 7` |
| Assembler.ModRmOfFields | src/assembler.rs:101-107 | packing the three fields of any byte gives the byte back, for ModR/M and for SIB |
| Assembler.Register64.Number | src/assembler.rs:110-130 | a register number is in 0..=15 |
| Assembler.Register64Of | src/assembler.rs:110-130 | every number in 0..=15 is some register's number |
| Assembler.Register64NumberInjective | src/assembler.rs:110-130 | the number determines the register |
| Assembler.Register32.Number | src/assembler.rs:145-165 | a register number is in 0..=15 |
| Assembler.Register32Of | src/assembler.rs:145-165 | every number in 0..=15 is some register's number |
| Assembler.Register32NumberInjective | src/assembler.rs:145-165 | the number determines the register |
| Assembler.Register64.WithOffset | src/assembler.rs:132-134 | the address has this base and the given offset |
| Assembler.Register64.ToMem | src/assembler.rs:136-141 | the address has this base and offset 0 |
| Assembler.Addressing.WithOffset | src/assembler.rs:48-50 | only the offset changes and the base is kept |
| Assembler.Addressing.ToCode | src/assembler.rs:52-94 | a memory operand is 1 to 6 bytes |
| Assembler.DisplacementMode | src/assembler.rs:56-92 | `mod` is 0 exactly for a zero offset off a base other than RBP/R13, 2 exactly when the offset does not fit 8 bits, and 1 otherwise |
| Assembler.ToCodeModRm | src/assembler.rs:52-94 | the ModR/M byte holds the chosen `mod`, the reg field and the base's low bits; rm=100 (a SIB follows) exactly for RSP/R12; mod=0 never comes with rm=101 |
| Assembler.ToCodeDisplacement | src/assembler.rs:52-94 | RSP/R12 insert SIB `0x24`; then no displacement, one byte that reads back as the signed offset, or four little-endian bytes that read back as the offset |
| Assembler.SignedLowByte | src/assembler.rs:68-78 | an offset in -128..=127 truncated to a byte reads back as itself |
| Assembler.Register64.Push | src/assembler.rs:172-184 | one byte `0x50+n` below R8, otherwise `0x41` then `0x50+(n-8)` |
| Assembler.PushImmediate | src/assembler.rs:186-194 | `6a` and a byte that reads back as v when v fits 8 bits; otherwise `68` and 4 little-endian bytes that read back as v |
| Assembler.Addressing.Push | src/assembler.rs:196-207 | an optional `0x41` for R8-R15 bases, `0xff`, then the operand with reg field 6 |
| Assembler.Register64.Pop | src/assembler.rs:213-225 | one byte `0x58+n` below R8, otherwise `0x41` then `0x58+(n-8)` |
| Assembler.Register64.MovFromReg | src/assembler.rs:231-242 | 3 bytes: REX.W with the R and B extensions, `0x89`, and ModR/M with mod=3, reg=src, rm=dest |
| Assembler.Register32.MovFromImm | src/assembler.rs:244-257 | 5 or 6 bytes: an optional `0x41`, `0xb8+(n&7)`, then 4 bytes that read back as the immediate |
| Assembler.Register64.MovFromImm | src/assembler.rs:259-273 | 10 bytes: `0x48`/`0x49`, `0xb8+(n&7)`, then 8 bytes that read back as the immediate |
| Assembler.Register64.MovFromMem | src/assembler.rs:275-285 | REX.W, `0x8b`, then the operand with reg=dest; the REX bits extend dest and base |
| Assembler.Addressing.MovFromReg | src/assembler.rs:287-297 | REX.W, `0x89`, then the operand with reg=src; the REX bits extend src and base |
| Assembler.Register64.Call | src/assembler.rs:303-317 | an optional `0x41`, `0xff`, and ModR/M with mod=3, reg=2 and the register in rm |
| Assembler.Register64.AddReg | src/assembler.rs:327-337 | 3 bytes: REX.W with the R and B extensions, `0x01`, and ModR/M with mod=3, reg=src, rm=dest |
| Assembler.Register32.AddReg | src/assembler.rs:339-349 | 3 bytes: REX without W, `0x01`, and ModR/M with mod=3, reg=src, rm=dest |
| Assembler.Ret | src/assembler.rs:319-321 | `ret` is the one byte `c3` |
| Disassembler.Encode | src/assembler.rs:172-321 | every encoding is 1 to 10 bytes |
| Disassembler.DecodeMemToCode | src/assembler.rs:52-94 | a memory operand decodes back to its reg field, address and length, whatever follows |
| Disassembler.DecodePushReg | src/assembler.rs:172-184 | `push reg` decodes back to itself |
| Disassembler.DecodePushImm | src/assembler.rs:186-194 | `push imm` decodes back to itself |
| Disassembler.DecodePushMem | src/assembler.rs:196-207 | `push [mem]` decodes back to itself |
| Disassembler.DecodePopReg | src/assembler.rs:213-225 | `pop reg` decodes back to itself |
| Disassembler.DecodeMovRegReg | src/assembler.rs:231-242 | `mov reg, reg` decodes back to itself in 3 bytes |
| Disassembler.DecodeMovReg32Imm | src/assembler.rs:244-257 | `mov r32, imm32` decodes back to itself |
| Disassembler.DecodeMovRegImm64 | src/assembler.rs:259-273 | `mov r64, imm64` decodes back to itself in 10 bytes |
| Disassembler.DecodeMovRegMem | src/assembler.rs:275-285 | `mov reg, [mem]` decodes back to itself |
| Disassembler.DecodeMovMemReg | src/assembler.rs:287-297 | `mov [mem], reg` decodes back to itself |
| Disassembler.DecodeCallReg | src/assembler.rs:303-317 | `call reg` decodes back to itself |
| Disassembler.DecodeAddRegReg | src/assembler.rs:327-337 | `add r64, r64` decodes back to itself in 3 bytes |
| Disassembler.DecodeAddReg32Reg32 | src/assembler.rs:339-349 | `add r32, r32` decodes back to itself in 3 bytes |
| Disassembler.DecodeEncode | src/assembler.rs:172-349 | every instruction the assembler encodes decodes back to itself and its length, whatever bytes follow |
| Disassembler.DisassembleEncodeAll | src/assembler.rs:172-349 | any sequence of encoded instructions disassembles back to that sequence |
| Disassembler.EncodeInjective | src/assembler.rs:172-349 | two instructions with the same encoding are the same instruction |
| Compiler.LocalOffset | src/compiler.rs:80-82 | `24 + 8*i` in u32 arithmetic: equal to it when it does not wrap, a multiple of 8, and congruent to it modulo 2^32 |
| Compiler.LocalGetMov | src/compiler.rs:126-139 | up to offset 128, `48 8b 45` and one displacement byte; above it, `48 8b 85` and four; either way the displacement plus the offset wraps to 0, so it is `-offset` |
| Compiler.LocalGetCode | src/compiler.rs:125-141 | the load, then `50` (`push rax`): 5 bytes up to offset 128, else 8 |
| Compiler.I32ConstCode | src/compiler.rs:142-157 | on the value's u32 bits: `6a` and the value up to 127; `68` and 4 bytes that read back as the value up to 0x7fffffff; else `48 b8`, 8 bytes that read back as the value, and `50` |
| Compiler.I64ConstCodeAsWritten | src/compiler.rs:158-171 | from 128 to 0x7fffffff, 9 bytes: `68` and all 8 bytes of the value; at every other value, the intended template |
| Compiler.I64ConstCode | src/compiler.rs:158-171 | the intended template, on the value's u64 bits: `6a` and the value up to 127; `68` and 4 bytes that read back as the value up to 0x7fffffff; else `48 b8`, 8 bytes that read back as the value, and `50` |
| Compiler.CallHead | src/compiler.rs:92-96 | 18 bytes: `bf` and 4 bytes that read back as `argsNum`, `49 ba` and 8 bytes that read back as the allocator's address, then `41 ff d2` |
| Compiler.ArgStoreLayout | src/compiler.rs:98-107 | `5f`, then `48 89 78` and one displacement byte below 128, else `48 89 b8` and four; the displacement reads back as `8i` in u32 arithmetic |
| Compiler.ArgStores | src/compiler.rs:97-108 | 5 to 8 bytes per argument |
| Compiler.CallTailLayout | src/compiler.rs:109-123 | 37 bytes; bytes 5-8 read back as the function index, 14-17 as `argsNum`, 23-30 as the runtime's entry point; it ends in `41 ff d2 ff 70 08` |
| Compiler.CallCode | src/compiler.rs:87-124 | the head, 5 to 8 bytes per argument (the parameter count as u32), then the tail |
| Compiler.OpCode | src/compiler.rs:86-189 | an operator fails exactly when it is unsupported or is a call whose callee type is missing; the call's error is the store's error |
| Compiler.Emit | src/compiler.rs:85-191 | writing succeeds exactly when every code is compilable |
| Compiler.EmitAppend | src/compiler.rs:85-191 | writing `a + b` writes `a`, then `b` if `a` succeeded; the first error stops compilation |
| Compiler.OpCodes | src/compiler.rs:85-86 | one code per operator, in order |
| Compiler.OpCodesAppend | src/compiler.rs:85-86 | the codes of `a + b` are those of `a` followed by those of `b` |
| Compiler.OpsEmission | src/compiler.rs:84-192 | compiling operators succeeds exactly when every operator is compilable |
| Compiler.OpsEmissionAppend | src/compiler.rs:84-192 | the output for `a + b` is the output for `a` followed by the output for `b`, and an error in `a` ends compilation there |
| Compiler.OpsEmissionError | src/compiler.rs:84-192 | the first unsupported operator's error is the outcome, and the bytes are those before it |
| Compiler.ParamLoadLayout | src/compiler.rs:208-215 | `48 8b 07 50` for the first parameter; after it `48 8b 47`, the byte `8i`, then `50` |
| Compiler.ParamLoads | src/compiler.rs:207-216 | the loads of k parameters are 5k-1 bytes |
| Compiler.ArgStoresSplit | src/compiler.rs:97-108 | the argument stores split at any index between |
| Compiler.FuncEmission | src/compiler.rs:200-202 | a missing code or type is the error and nothing is written; the code is looked up first |
| Compiler.FuncBodyEmission | src/compiler.rs:203-233 | the bytes begin with the prologue; more than 16 parameters, then locals, then the body's error, then more than one result decide the error, in that order; otherwise it succeeds and ends in `c3` |
| Compiler.FuncEmissionSucceeds | src/compiler.rs:200-233 | a function compiles exactly when its code and type exist, it has at most 16 parameters, no locals, supported operators and at most one result; then the bytes are the prologue `55 48 89 e5 56 52`, the parameter loads, the body and the epilogue, ending in `c3` |
| Compiler.Compiler.constructor | src/compiler.rs:42-46 | a fresh code area with both markers at its start |
| Compiler.Compiler.PushCode | src/compiler.rs:61-66 | the bytes are written at the cursor, the cursor advances by their length, and everything before and after is unchanged |
| Compiler.Compiler.PushRax | src/compiler.rs:68-70 | appends `50` |
| Compiler.Compiler.PopRax | src/compiler.rs:72-74 | appends `58` |
| Compiler.Compiler.PopRdi | src/compiler.rs:76-78 | appends `5f` |
| Compiler.Compiler.ExtractFunc | src/compiler.rs:194-198 | returns the old function start and moves the start to the cursor |
| Compiler.Compiler.EmitCallHead | src/compiler.rs:92-96 | appends `mov edi, argsNum`, `mov r10, allocArgs`, `call r10` |
| Compiler.Compiler.EmitArgStores | src/compiler.rs:97-108 | the loop appends the stores of arguments `argsNum-1` down to 0 |
| Compiler.Compiler.EmitArgStore | src/compiler.rs:98-107 | one pass of the store loop: appends the store of argument i |
| Compiler.Compiler.EmitCallTail | src/compiler.rs:109-123 | appends the argument set-up, the call into the runtime and the push of the result |
| Compiler.Compiler.EmitCall | src/compiler.rs:87-124 | appends exactly the `call` template for the callee's parameter count |
| Compiler.Compiler.EmitLocalGet | src/compiler.rs:125-141 | appends exactly the `local.get` template |
| Compiler.Compiler.EmitI32Const | src/compiler.rs:142-157 | appends exactly the `i32.const` template |
| Compiler.Compiler.EmitI64Const | src/compiler.rs:158-171 | appends the `i64.const` template as written, stray bytes included (see Findings) |
| Compiler.Compiler.EmitAdd | src/compiler.rs:172-186 | appends `pop rdi`, `pop rax`, the add, `push rax` |
| Compiler.Compiler.CompileOp | src/compiler.rs:86-189 | succeeds exactly when the operator compiles, with its error otherwise, and appends its bytes only on success |
| Compiler.Compiler.Compile | src/compiler.rs:84-192 | the loop appends the operators' code in order and stops at the first error |
| Compiler.Compiler.EmitPrologue | src/compiler.rs:203-206 | appends `55 48 89 e5 56 52` |
| Compiler.Compiler.LoadParam | src/compiler.rs:208-215 | appends the load of parameter i and `push rax` |
| Compiler.Compiler.LoadFirstParams | src/compiler.rs:207-216 | the loop appends the loads of parameters 0 to k-1 in order |
| Compiler.Compiler.LoadParams | src/compiler.rs:207-216 | loads every parameter when there are at most 16; else loads 16 and fails with the source's message |
| Compiler.Compiler.EmitEpilogue | src/compiler.rs:224-231 | appends the epilogue, ending in `c3` |
| Compiler.Compiler.EmitHead | src/compiler.rs:203-216 | appends the prologue and the parameter loads |
| Compiler.Compiler.CompileBody | src/compiler.rs:203-232 | appends the bytes of `FuncBodyEmission` and returns its outcome |
| Compiler.Compiler.CompileFunc | src/compiler.rs:200-233 | looks up code, then type, and appends exactly `FuncEmission`'s bytes with its outcome |
| Listing.PrologueLists | src/compiler.rs:203-206 | the prologue is `push rbp`, `mov rbp, rsp`, `push rsi`, `push rdx` |
| Listing.ParamLoadLists | src/compiler.rs:208-215 | the load of parameter i is `mov rax, [rdi + 8i]`, `push rax` |
| Listing.ParamLoadsListing | src/compiler.rs:207-216 | the 2i-th instruction loads the i-th word of the argument array |
| Listing.ParamLoadsLists | src/compiler.rs:207-216 | the parameter loads disassemble to the loads of words 0 to k-1, in order |
| Listing.EpilogueParts | src/compiler.rs:224-231 | the epilogue is its head, `mov rdx, 0` and its tail |
| Listing.EpilogueHeadLists | src/compiler.rs:224-225 | `pop rax`, `mov rcx, [rbp - 8]` |
| Listing.MovRdxZeroUnlisted | src/compiler.rs:226 | `mov rdx, 0` is not one of the assembler's forms |
| Listing.EpilogueTailLists | src/compiler.rs:227-231 | `mov [rcx], rdx`, `mov [rcx + 8], rax`, `mov rsp, rbp`, `pop rbp`, `ret` |
| Listing.LocalGetZero | src/compiler.rs:127-129 | when the offset wraps to 0, the disp8 form loads `[rbp + 0]` |
| Listing.LocalGetDisp8 | src/compiler.rs:127-129 | for offsets 1 to 128, `256 - offset` is the disp8 of `[rbp - offset]` |
| Listing.LoadRbpWide | src/compiler.rs:132-138 | `48 8b 85` and any four bytes decode as `mov rax, [rbp + d]`, with d the bytes read as an i32 |
| Listing.LocalGetFar | src/compiler.rs:130-139 | above offset 128, the disp32 `u32::MAX - offset + 1` reads back as `-offset` |
| Listing.LocalGetLists | src/compiler.rs:125-141 | `local.get` is `mov rax, [rbp - offset]`, `push rax`, for every local index |
| Listing.I32ConstLists | src/compiler.rs:142-157 | `i32.const` pushes the value's 32 bits zero-extended: `push imm` up to 0x7fffffff, else `mov rax, imm64`, `push rax` |
| Listing.I64ConstLists | src/compiler.rs:158-171 | `i64.const` as intended pushes the value: `push imm` up to 0x7fffffff, else `mov rax, imm64`, `push rax` |
| Listing.I64ConstAsWrittenLayout | src/compiler.rs:163-164 | the template as written is the intended one followed by four zero bytes |
| Listing.I64ConstAsWrittenStrayBytes | src/compiler.rs:163-164 | as written, a value from 128 to 0x7fffffff gives `push imm32` followed by four stray zero bytes, and the whole does not disassemble |
| Listing.I32AddLists | src/compiler.rs:172-186 | `pop rdi`, `pop rax`, `add eax, edi`, `push rax`; the assembler's own `add eax, edi` carries a REX byte `40` the template omits |
| Listing.I64AddLists | src/compiler.rs:172-186 | `pop rdi`, `pop rax`, `add rax, rdi`, `push rax` |
| Listing.CallHeadLists | src/compiler.rs:92-96 | `mov edi, argsNum`, `mov r10, allocArgs`, `call r10` |
| Listing.StoreWide | src/compiler.rs:104-106 | `48 89 b8` and any four bytes decode as `mov [rax + d], rdi`, with d the bytes read as an i32 |
| Listing.ArgStoreLists | src/compiler.rs:98-107 | the store of argument i is `pop rdi`, `mov [rax + 8i], rdi`, for every i |
| Listing.ArgStoreZeroNotAssembled | src/compiler.rs:101 | the assembler would write the first argument's store without the zero displacement byte the template has |
| Listing.ArgStoresListing | src/compiler.rs:97-108 | two instructions per argument |
| Listing.ArgStoresLists | src/compiler.rs:97-108 | the stores disassemble to exactly `argsNum` pop-and-store pairs, at offsets `8i` for i from `argsNum-1` down to 0 |
| Listing.CallTailFrontLists | src/compiler.rs:109-114 | `mov rdi, [rbp - 16]`, `mov esi, functionIndex`, `mov rdx, [rbp - 8]`, `mov ecx, argsNum` |
| Listing.CallTailBackLists | src/compiler.rs:115-123 | `mov r8, rax`, `mov r10, callFuncInternal`, `call r10`, `push [rax + 8]` |
| Listing.CallTailLists | src/compiler.rs:109-123 | the tail is the front followed by the back |
| Listing.CallLists | src/compiler.rs:87-124 | a `call` is the head, the stores from the last argument down and the tail |
| Listing.OpCodeLists | src/compiler.rs:86-189 | the bytes of every compilable operator disassemble to its instructions, except an `i64.const` from 128 to 0x7fffffff: its bytes do not disassemble, and without their four stray bytes they are its instructions |
| Store.ExportMap | src/runtime/store.rs:23-28 | the map's keys are the export names; each name maps to an export of that name, the last one in the list |
| Store.ExportMapDistinct | src/runtime/store.rs:23-28 | with distinct names, every export is found under its own name |
| Store.KeyedByNameUnique | src/runtime/store.rs:23-28 | there is only one map keyed by name for a list of exports |
| Store.New | src/runtime/store.rs:19-30 | the tables are copied unchanged and the exports keyed by name |
| Store.GetExportOfNew | src/runtime/store.rs:19-36 | in a store built from a module, a name is found exactly when some export carries it, and what is found has that name |
| Store.Store.GetExport | src/runtime/store.rs:32-36 | succeeds exactly when the name is a key, and fails with `ExportNotFound(name)` otherwise |
| Store.Store.GetFuncTypeFromFuncIndex | src/runtime/store.rs:38-48 | `types[funcs[i]]`; `FunctionNotFound` when `i >= |funcs|`, `FunctionTypeNotFound` when `funcs[i] >= |types|`, both with i in decimal |
| Store.Store.GetCode | src/runtime/store.rs:50-54 | `code[i]` when `i < |code|`, else `FunctionNotFound` with i in decimal |
| Runtime.Value.Type | src/runtime.rs:25-30 | a value's type is one of the four number types |
| Runtime.Value.ToU64 | src/runtime.rs:33-40 | an i32 is sign-extended (low 32 bits its u32 bits, high 32 bits all ones exactly when negative); an i64 keeps its bits with the sign in bit 63; a float's bit pattern is zero-extended |
| Runtime.FromU64 | src/runtime.rs:42-50 | an integer type truncates the word to its width; any other type than the four number types is unimplemented |
| Runtime.FromU64ToU64 | src/runtime.rs:33-50 | every value survives the trip through a word |
| Runtime.ArgWords | src/runtime.rs:86 | the arguments' words keep their length and order |
| Runtime.Init | src/runtime.rs:56-68 | the tables are copied unchanged and the exports keyed by name |
| Runtime.CallFuncByName | src/runtime.rs:70-86 | succeeds exactly when the export exists, is a function and its index and type index are in range; fails in that order with `ExportNotFound`, not-a-function, `FunctionNotFound`, `FunctionTypeNotFound` |
| Runtime.CallFuncByNameAgreesWithStore | src/runtime.rs:70-85 | for one module, the runtime's checks succeed exactly when the store's lookups do and give the same type, and every error names the export looked up |

## Left out

- `Compiler::new`, `Compiler::free`, `alloc_u64_array` and `dealloc_u64_array`, which allocate, protect and free memory through foreign calls. The constructor only stands for the code area `new` hands out.
- `extract_func`'s `transmute` to a function pointer, and running the generated code. `ExtractFunc` returns the entry index instead.
- The run-time addresses of `alloc_u64_array` and `Runtime::call_func_internal` baked into a `call`. They are the parameter `HostAddresses`.
- The half of `call_func_by_name` after the lookups: compiling, calling the code, reading the result buffer, downcasting the error and freeing memory. It goes through raw pointers and foreign code. Besides, `src/runtime.rs:93` passes `compile_func` a function and a type, which does not match the signature at `src/compiler.rs:200`.
- Floating point. `F32` and `F64` values are their IEEE 754 bit patterns, which is all `to_bits` and `from_bits` do with them.
- `src/parser.rs` (a loop over the `wasmparser` library, whose readers are not part of this model), `src/main.rs` and `tests/test.rs` (which read `.wasm` files and print or check results of running the code).
- The 1024-byte code area is not bounds-checked by `push_code`, so every writing method requires room for its bytes instead of modelling an overflow.
- Panics: where the source panics through `unimplemented!` (an unsupported operator, more than 16 parameters, declared locals, more than one result, a value type other than i32/i64/f32/f64), the model returns an `Unimplemented` error and keeps the bytes written before it.
- Overflow checks. `local_offset` and `8 * i` are u32 arithmetic; the model wraps modulo 2^32, as a release build does, where a debug build would panic.
- `Listing.MovRdxZeroUnlisted`: the epilogue's `mov rdx, 0` (`48 c7 c2 imm32`) has no encoder in the assembler and so no instruction in `Disassembler`. The epilogue is listed as its head and its tail around those 7 bytes, not as one listing.
- `Listing.LocalGetLists`: above offset 2^32 - 128 the template writes a four-byte displacement that would fit in one byte. It is listed as the instruction it decodes to, not as the assembler's encoding. `Listing.ArgStoreLists` does the same for offsets `8i` from 2^32 - 120 up.
- `Listing.ArgStoreLists`: the first argument's store `48 89 78 00` spells a zero displacement the assembler would leave out (`ArgStoreZeroNotAssembled`). It is listed as the instruction it decodes to, not as the assembler's encoding.

## Findings

| source | as written | input that shows it | evidently intended | confidence | as-written member | corrected member |
|---|---|---|---|---|---|---|
| src/compiler.rs:163-164 | the `push imm32` form of `i64.const` appends all 8 bytes of the u64 value | `i64.const 128` gives `68 80 00 00 00 00 00 00 00`: `push 128` followed by four stray zero bytes, which the processor would run as two `add [rax], al` | the 4 little-endian bytes of the value, as in `i32.const` | high; not executed | Listing.I64ConstAsWrittenStrayBytes | Listing.I64ConstLists |

`Compiler.I64ConstCodeAsWritten` is the template as written, and `OpCode` and `EmitI64Const` write it, as the source does. `Compiler.I64ConstCode` is the corrected template. `Listing.I64ConstLists` proves that it is the intended instructions, and `Listing.OpCodeLists` proves that it is what remains of the written bytes once the stray bytes are removed.
