/** The store the compiler consults: the module's tables and its exports
    keyed by name, with lookups that report which level is missing. Every
    lookup is a function of the store, so none of them changes it. */
module Store {
  import opened Bytes
  import opened Wasm
  import opened Errors

  /** The export at position j is the last one in the list with its name. */
  predicate LastWithName(exports: seq<Export>, j: int)
    requires 0 <= j < |exports|
  {
    forall k :: j < k < |exports| ==> exports[k].name != exports[j].name
  }

  /** `m` maps exactly the export names to exports of that name, and each name
      to the last export that carries it (collecting pairs into a hash map
      keeps the last value inserted for a key). */
  predicate KeyedByName(m: map<string, Export>, exports: seq<Export>) {
    && m.Keys == (set e | e in exports :: e.name)
    && (forall name :: name in m ==> m[name].name == name && m[name] in exports)
    && (forall j :: 0 <= j < |exports| && LastWithName(exports, j) ==> m[exports[j].name] == exports[j])
  }

  /** The name-to-export map built from the export list, inserting in list order. */
  function ExportMap(exports: seq<Export>): (m: map<string, Export>)
    ensures KeyedByName(m, exports)
  {
    if exports == [] then map[]
    else
      var init := exports[..|exports| - 1];
      var last := exports[|exports| - 1];
      var prev := ExportMap(init);
      ExportMapStep(prev, init, last);
      assert init + [last] == exports;
      prev[last.name := last]
  }

  /** Inserting one more export keeps the map keyed by name. */
  lemma ExportMapStep(m: map<string, Export>, init: seq<Export>, last: Export)
    requires KeyedByName(m, init)
    ensures KeyedByName(m[last.name := last], init + [last])
  {
    ExportMapStepKeys(m, init, last);
    ExportMapStepLast(m, init, last);
  }

  /** After inserting one more export the keys are the names of all exports. */
  lemma ExportMapStepKeys(m: map<string, Export>, init: seq<Export>, last: Export)
    requires KeyedByName(m, init)
    ensures m[last.name := last].Keys == (set e | e in init + [last] :: e.name)
  {
    var exports := init + [last];
    var m' := m[last.name := last];
    forall name | name in m'.Keys ensures name in (set e | e in exports :: e.name) {
      if name != last.name {
        var e :| e in init && e.name == name;
        assert e in exports;
      } else {
        assert exports[|init|] == last;
      }
    }
    forall name | name in (set e | e in exports :: e.name) ensures name in m'.Keys {
      var e :| e in exports && e.name == name;
      if e != last {
        assert e in init;
      }
    }
  }

  /** After inserting one more export each name maps to its last export. */
  lemma ExportMapStepLast(m: map<string, Export>, init: seq<Export>, last: Export)
    requires KeyedByName(m, init)
    ensures forall j :: 0 <= j < |init + [last]| && LastWithName(init + [last], j) ==>
              m[last.name := last][(init + [last])[j].name] == (init + [last])[j]
  {
    var exports := init + [last];
    var m' := m[last.name := last];
    forall j | 0 <= j < |exports| && LastWithName(exports, j)
      ensures m'[exports[j].name] == exports[j]
    {
      if j < |init| {
        assert exports[|init|] == last;
        assert exports[j] == init[j];
        forall k | j < k < |init| ensures init[k].name != init[j].name {
          assert exports[k] == init[k];
        }
        assert LastWithName(init, j);
      }
    }
  }

  /** With distinct names, every export is found under its own name. */
  lemma ExportMapDistinct(exports: seq<Export>)
    requires forall i, j :: 0 <= i < j < |exports| ==> exports[i].name != exports[j].name
    ensures forall j :: 0 <= j < |exports| ==> ExportMap(exports)[exports[j].name] == exports[j]
  {
    forall j | 0 <= j < |exports| ensures ExportMap(exports)[exports[j].name] == exports[j] {
      assert LastWithName(exports, j);
    }
  }

  /** Being keyed by name determines the map: `ExportMap` is the only such map. */
  lemma KeyedByNameUnique(m1: map<string, Export>, m2: map<string, Export>, exports: seq<Export>)
    requires KeyedByName(m1, exports) && KeyedByName(m2, exports)
    ensures m1 == m2
  {
    forall name | name in m1 ensures m1[name] == m2[name] {
      var e :| e in exports && e.name == name;
      var j := LastIndexOf(exports, name, |exports| - 1);
      assert LastWithName(exports, j);
    }
  }

  /** The position of the last export named `name` at or before position `hi`,
      when some export at or before `hi` has that name. */
  function LastIndexOf(exports: seq<Export>, name: string, hi: int): (j: nat)
    requires hi < |exports|
    requires exists i :: 0 <= i <= hi && exports[i].name == name
    ensures j <= hi && exports[j].name == name
    ensures forall k :: j < k <= hi ==> exports[k].name != name
    decreases hi
  {
    if exports[hi].name == name then hi else LastIndexOf(exports, name, hi - 1)
  }

  datatype Store = Store(
    types: seq<FuncType>,
    funcs: seq<U32>,
    code: seq<Func>,
    exports: map<string, Export>)
  {
    /** The export called `name`, or `ExportNotFound(name)`. */
    function GetExport(name: string): (r: Result<Export>)
      ensures r.Ok? <==> name in exports
      ensures r.Ok? ==> r.value == exports[name]
      ensures r.Err? ==> r.error == Runtime(ExportNotFound(name))
    {
      if name in exports then Ok(exports[name]) else Err(Runtime(ExportNotFound(name)))
    }

    /** Function index to type index to type; each missing level has its own
        error, carrying the function index in decimal. */
    function GetFuncTypeFromFuncIndex(index: U32): (r: Result<FuncType>)
      ensures r.Ok? <==> index < |funcs| && funcs[index] < |types|
      ensures r.Ok? ==> r.value == types[funcs[index]]
      ensures index >= |funcs| ==> r == Err(Runtime(FunctionNotFound(DecimalString(index))))
      ensures index < |funcs| && funcs[index] >= |types|
        ==> r == Err(Runtime(FunctionTypeNotFound(DecimalString(index))))
    {
      if index >= |funcs| then Err(Runtime(FunctionNotFound(DecimalString(index))))
      else
        var typeIndex := funcs[index];
        if typeIndex >= |types| then Err(Runtime(FunctionTypeNotFound(DecimalString(index))))
        else Ok(types[typeIndex])
    }

    /** The code body of a function, or `FunctionNotFound` with the index in decimal. */
    function GetCode(index: U32): (r: Result<Func>)
      ensures r.Ok? <==> index < |code|
      ensures r.Ok? ==> r.value == code[index]
      ensures r.Err? ==> r.error == Runtime(FunctionNotFound(DecimalString(index)))
    {
      if index < |code| then Ok(code[index]) else Err(Runtime(FunctionNotFound(DecimalString(index))))
    }
  }

  /** The store of a parsed module: its tables unchanged, its exports keyed by name. */
  function New(m: WasmModule): (s: Store)
    ensures s.types == m.types && s.funcs == m.funcs && s.code == m.code
    ensures KeyedByName(s.exports, m.exports)
  {
    Store(m.types, m.funcs, m.code, ExportMap(m.exports))
  }

  /** In a store built from a module, a name is found exactly when some export
      carries it, and what is found is an export of the module with that name. */
  lemma GetExportOfNew(m: WasmModule, name: string)
    ensures New(m).GetExport(name).Ok? <==> exists e :: e in m.exports && e.name == name
    ensures New(m).GetExport(name).Ok? ==>
      New(m).GetExport(name).value.name == name && New(m).GetExport(name).value in m.exports
  {
    var s := New(m);
    if exists e :: e in m.exports && e.name == name {
      var e :| e in m.exports && e.name == name;
      assert name in (set e | e in m.exports :: e.name);
    }
  }
}
