/** The parsed WebAssembly module the runtime and the compiler work from:
    function types, the function section (one type index per function), the
    code bodies and the exports. `ValType`, `FuncType`, `Export`,
    `ExternalKind` and `Operator` stand for the parser library's types of
    the same names, reduced to what the JIT looks at. */
module Wasm {
  import opened Bytes

  datatype ValType = I32 | I64 | F32 | F64 | V128 | Ref

  datatype FuncType = FuncType(params: seq<ValType>, results: seq<ValType>)

  datatype ExternalKind = Func | Table | Memory | Global | Tag

  datatype Export = Export(name: string, kind: ExternalKind, index: U32)

  /** The operators the compiler translates; every other operator is `Other`. */
  datatype Operator =
    | Call(functionIndex: U32)
    | LocalGet(localIndex: U32)
    | I32Const(i32Value: I32)
    | I64Const(i64Value: I64)
    | I32Add
    | I64Add
    | End
    | Other(mnemonic: string)

  /** A code-section entry: declared locals (count, type) and the operators of the body. */
  datatype Func = FuncBody(locals: seq<(U32, ValType)>, body: seq<Operator>)

  datatype WasmModule = WasmModule(
    types: seq<FuncType>,
    funcs: seq<U32>,
    code: seq<Func>,
    exports: seq<Export>)
}
