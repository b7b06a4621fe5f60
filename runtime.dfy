/** The runtime: values passed in and out of JIT code as 64-bit words, the
    runtime built from a parsed module, and the checks `call_func_by_name`
    makes before any generated code runs. */
module Runtime {
  import opened Bytes
  import Wasm
  import opened Errors
  import Store

  /** A WebAssembly value. A float is held as its IEEE 754 bit pattern, which
      is all the runtime does with it (`to_bits` and `from_bits`). */
  datatype Value =
    | I32(i32: I32)
    | I64(i64: I64)
    | F32(f32Bits: U32)
    | F64(f64Bits: U64)
  {
    /** The value type a value belongs to. */
    function Type(): (t: Wasm.ValType)
      ensures t.I32? || t.I64? || t.F32? || t.F64?
    {
      match this
      case I32(_) => Wasm.I32
      case I64(_) => Wasm.I64
      case F32(_) => Wasm.F32
      case F64(_) => Wasm.F64
    }

    /** The 64-bit word passed to JIT code: integers are sign-extended
        (`as u64`), a float's bit pattern is zero-extended. */
    function ToU64(): (w: U64)
      ensures I32? ==> w % TWO_32 == AsU32(i32) && w / TWO_32 == (if i32 < 0 then TWO_32 - 1 else 0)
      ensures I64? ==> AsI64(w) == i64 && (w < TWO_63 <==> i64 >= 0)
      ensures F32? ==> w == f32Bits
      ensures F64? ==> w == f64Bits
    {
      match this
      case I32(v) => AsU64(v)
      case I64(v) => AsU64(v)
      case F32(bits) => bits
      case F64(bits) => bits
    }
  }

  /** The value of type `t` held in a 64-bit word: integers are truncated to
      their width (`as i32`, `as i64`), floats take the low 32 or all 64 bits.
      Any other type is unimplemented. */
  function FromU64(w: U64, t: Wasm.ValType): (r: Result<Value>)
    ensures r.Ok? <==> t.I32? || t.I64? || t.F32? || t.F64?
    ensures r.Ok? ==> r.value.Type() == t
    ensures t.I32? ==> r == Ok(I32(AsI32(w)))
    ensures t.I64? ==> r == Ok(I64(AsI64(w)))
    ensures r.Err? ==> r.error.Unimplemented?
  {
    match t
    case I32 => Ok(I32(AsI32(w)))
    case I64 => Ok(I64(AsI64(w)))
    case F32 => Ok(F32(w % TWO_32))
    case F64 => Ok(F64(w))
    case V128 => Err(Unimplemented("Unsupported value type: V128"))
    case Ref => Err(Unimplemented("Unsupported value type: Ref"))
  }

  /** A value survives the trip through a 64-bit word. */
  lemma FromU64ToU64(v: Value)
    ensures FromU64(v.ToU64(), v.Type()) == Ok(v)
  {
    match v
    case I32(x) =>
      AsI32OfAsU32(x);
      assert AsI32(AsU64(x)) == AsI32(AsU32(x));
    case I64(x) =>
      AsI64OfAsU64(x);
    case F32(_) =>
    case F64(_) =>
  }

  /** The argument words, in argument order. */
  function ArgWords(args: seq<Value>): (words: seq<U64>)
    ensures |words| == |args|
    ensures forall i :: 0 <= i < |args| ==> words[i] == args[i].ToU64()
  {
    if args == [] then [] else [args[0].ToU64()] + ArgWords(args[1..])
  }

  datatype Runtime = Runtime(
    types: seq<Wasm.FuncType>,
    funcs: seq<U32>,
    code: seq<Wasm.Func>,
    exports: map<string, Wasm.Export>)

  /** The runtime of a parsed module: its tables unchanged, its exports keyed by name. */
  function Init(m: Wasm.WasmModule): (rt: Runtime)
    ensures rt.types == m.types && rt.funcs == m.funcs && rt.code == m.code
    ensures Store.KeyedByName(rt.exports, m.exports)
  {
    Runtime.Runtime(m.types, m.funcs, m.code, Store.ExportMap(m.exports))
  }

  /** What the checks hand to compilation and execution: the function index,
      its type and the arguments as words. */
  datatype Call = Call(index: U32, funcType: Wasm.FuncType, argWords: seq<U64>)

  /** The export called `name` is a function whose index and type index are in
      range. */
  predicate Callable(rt: Runtime, name: string) {
    && name in rt.exports
    && rt.exports[name].kind == Wasm.Func
    && rt.exports[name].index < |rt.funcs|
    && rt.funcs[rt.exports[name].index] < |rt.types|
  }

  /** The checks `call_func_by_name` makes, in order, before compiling: the
      export exists, it is a function, its index is in the function section,
      and its type index is in the type section. Past the first check the
      errors carry the export's own name. */
  function CallFuncByName(rt: Runtime, name: string, args: seq<Value>): (r: Result<Call>)
    ensures r.Ok? <==> Callable(rt, name)
    ensures name !in rt.exports <==> r == Err(Error.Runtime(ExportNotFound(name)))
    ensures name in rt.exports && rt.exports[name].kind != Wasm.Func
      ==> r == Err(ExportKindNotFunction(rt.exports[name].name))
    ensures name in rt.exports && rt.exports[name].kind == Wasm.Func && rt.exports[name].index >= |rt.funcs|
      ==> r == Err(Error.Runtime(FunctionNotFound(rt.exports[name].name)))
    ensures name in rt.exports && rt.exports[name].kind == Wasm.Func && rt.exports[name].index < |rt.funcs|
        && rt.funcs[rt.exports[name].index] >= |rt.types|
      ==> r == Err(Error.Runtime(FunctionTypeNotFound(rt.exports[name].name)))
    ensures r.Ok? ==>
      && r.value.index == rt.exports[name].index
      && r.value.funcType == rt.types[rt.funcs[r.value.index]]
      && |r.value.argWords| == |args|
      && (forall i :: 0 <= i < |args| ==> r.value.argWords[i] == args[i].ToU64())
  {
    if name !in rt.exports then Err(Error.Runtime(ExportNotFound(name)))
    else
      var e := rt.exports[name];
      if e.kind != Wasm.Func then Err(ExportKindNotFunction(e.name))
      else if e.index >= |rt.funcs| then Err(Error.Runtime(FunctionNotFound(e.name)))
      else
        var typeIndex := rt.funcs[e.index];
        if typeIndex >= |rt.types| then Err(Error.Runtime(FunctionTypeNotFound(e.name)))
        else Ok(Call.Call(e.index, rt.types[typeIndex], ArgWords(args)))
  }

  /** For a runtime built from a module, the checks succeed exactly when the
      store of the same module finds the export as a function and finds its
      type, and both give the same type; a failure names the export looked up. */
  lemma CallFuncByNameAgreesWithStore(m: Wasm.WasmModule, name: string, args: seq<Value>)
    ensures var r := CallFuncByName(Init(m), name, args);
      var s := Store.New(m);
      && (r.Ok? <==> s.GetExport(name).Ok? && s.GetExport(name).value.kind == Wasm.Func
                     && s.GetFuncTypeFromFuncIndex(s.GetExport(name).value.index).Ok?)
      && (r.Ok? ==> r.value.funcType == s.GetFuncTypeFromFuncIndex(r.value.index).value)
      && (r.Err? && !r.error.Runtime? ==> r.error == ExportKindNotFunction(name))
      && (r.Err? && r.error.Runtime? ==>
            r.error.runtimeError == ExportNotFound(name)
            || r.error.runtimeError == FunctionNotFound(name)
            || r.error.runtimeError == FunctionTypeNotFound(name))
  {
    var rt := Init(m);
    var s := Store.New(m);
    Store.KeyedByNameUnique(rt.exports, s.exports, m.exports);
  }
}
