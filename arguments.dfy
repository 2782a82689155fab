/**
 * Turning the command line into call arguments: the named export is looked
 * up in the parsed module, followed through the function section to its
 * signature in the type section, and each declared parameter is built from
 * the positional argument at the same position.
 */
module Arguments {
  import opened Wrappers
  import opened Decimal

  /** The WebAssembly value types a parameter can have. */
  datatype ValueType = I32 | I64 | F32 | F64

  /** What an export refers to, by its index in the matching index space. */
  datatype Internal = Function(index: nat) | Table(index: nat) | Memory(index: nat) | Global(index: nat)

  datatype ExportEntry = ExportEntry(field: string, internal: Internal)

  /** What an import brings in; imported functions come first in the function index space. */
  datatype External = ImportedFunction(typeRef: nat) | ImportedTable | ImportedMemory | ImportedGlobal

  datatype ImportEntry = ImportEntry(moduleName: string, field: string, external: External)

  datatype FunctionType = FunctionType(params: seq<ValueType>, results: seq<ValueType>)

  /** The sections of a parsed module that the conversion reads; each may be absent.
      A function-section entry is the type-section index of a function defined
      in the module. */
  datatype Module = Module(
    exportSection: Option<seq<ExportEntry>>,
    importSection: Option<seq<ImportEntry>>,
    functionSection: Option<seq<nat>>,
    typeSection: Option<seq<FunctionType>>)

  /** A call argument; floats are carried as their bit patterns. */
  datatype RuntimeValue = I32Value(i: int) | I64Value(i: int) | F32Value(bits32: bv32) | F64Value(bits64: bv64)

  /** Why the arguments cannot be built; each one aborts the program. */
  datatype InvokeError =
    | NoExportSection
    | NoFunctionSection
    | NoTypeSection
    | ExportNotFound
    | NotAFunction
    | IndexUnderflow                // `function_index - import_section_len` goes below zero
    | FunctionIndexOutOfRange
    | TypeIndexOutOfRange
    | MissingArgument(position: nat)
    | BadArgument(position: nat, expected: ValueType)

  /** The position of the first export entry with the given name. */
  function FindExport(entries: seq<ExportEntry>, name: string): (r: Option<nat>)
    ensures r.Some? ==> r.value < |entries| && entries[r.value].field == name
    ensures r.Some? ==> forall j :: 0 <= j < r.value ==> entries[j].field != name
    ensures r.None? <==> forall j :: 0 <= j < |entries| ==> entries[j].field != name
  {
    if entries == [] then None
    else if entries[0].field == name then Some(0)
    else
      match FindExport(entries[1..], name)
      case None => None
      case Some(k) => Some(k + 1)
  }

  /** The positions of the imports that are functions. */
  function FunctionImportPositions(imports: seq<ImportEntry>): set<nat>
  {
    set k | 0 <= k < |imports| && imports[k].external.ImportedFunction?
  }

  /** The number of imports that are functions; tables, memories and globals are skipped. */
  function FunctionImportCount(imports: seq<ImportEntry>): (r: nat)
    ensures r <= |imports|
  {
    if imports == [] then 0
    else
      FunctionImportCount(imports[..|imports| - 1])
      + (if imports[|imports| - 1].external.ImportedFunction? then 1 else 0)
  }

  /** The import count is the number of positions holding a function import. */
  lemma {:induction false} FunctionImportCountIsCardinality(imports: seq<ImportEntry>)
    ensures FunctionImportCount(imports) == |FunctionImportPositions(imports)|
  {
    if imports != [] {
      var n := |imports| - 1;
      FunctionImportCountIsCardinality(imports[..n]);
      var before := FunctionImportPositions(imports[..n]);
      assert n !in before;
      if imports[n].external.ImportedFunction? {
        assert FunctionImportPositions(imports) == before + {n};
      } else {
        assert FunctionImportPositions(imports) == before;
      }
    }
  }

  /** The number of imported functions; a module without an import section has none. */
  function ImportedFunctions(m: Module): nat
  {
    match m.importSection
    case None => 0
    case Some(imports) => FunctionImportCount(imports)
  }

  /** What the first export with the given name refers to, if there is one. */
  function Exported(m: Module, name: string): Option<Internal>
    requires m.exportSection.Some?
  {
    match FindExport(m.exportSection.value, name)
    case None => None
    case Some(k) => Some(m.exportSection.value[k].internal)
  }

  predicate HasSections(m: Module)
  {
    m.exportSection.Some? && m.functionSection.Some? && m.typeSection.Some?
  }

  /** Where the named export led: its entry, its function index, the index of
      its entry in the function section, and its signature. */
  datatype Resolved = Resolved(exportIndex: nat, functionIndex: nat, sectionIndex: nat, signature: FunctionType)

  /** Follows the named export to the signature of the function it exports. */
  function Resolve(m: Module, name: string): (r: Result<Resolved, InvokeError>)
    ensures r == Err(NoExportSection) <==> m.exportSection.None?
    ensures r == Err(NoFunctionSection) <==> m.exportSection.Some? && m.functionSection.None?
    ensures r == Err(NoTypeSection) <==> m.exportSection.Some? && m.functionSection.Some? && m.typeSection.None?
    ensures r == Err(ExportNotFound) <==>
      HasSections(m) && forall j :: 0 <= j < |m.exportSection.value| ==> m.exportSection.value[j].field != name
    ensures r == Err(NotAFunction) <==>
      HasSections(m) && Exported(m, name).Some? && !Exported(m, name).value.Function?
    ensures r == Err(IndexUnderflow) <==>
      HasSections(m) && Exported(m, name).Some? && Exported(m, name).value.Function?
      && Exported(m, name).value.index < ImportedFunctions(m)
    ensures r == Err(FunctionIndexOutOfRange) <==>
      HasSections(m) && Exported(m, name).Some? && Exported(m, name).value.Function?
      && ImportedFunctions(m) + |m.functionSection.value| <= Exported(m, name).value.index
    ensures r == Err(TypeIndexOutOfRange) <==>
      HasSections(m) && Exported(m, name).Some? && Exported(m, name).value.Function?
      && ImportedFunctions(m) <= Exported(m, name).value.index < ImportedFunctions(m) + |m.functionSection.value|
      && m.functionSection.value[Exported(m, name).value.index - ImportedFunctions(m)] >= |m.typeSection.value|
    ensures r.Ok? ==> HasSections(m)
    ensures r.Ok? ==>
      var e, exports := r.value, m.exportSection.value;
      && e.exportIndex < |exports|
      && exports[e.exportIndex].field == name
      && (forall j :: 0 <= j < e.exportIndex ==> exports[j].field != name)
      && exports[e.exportIndex].internal == Function(e.functionIndex)
      && e.functionIndex == ImportedFunctions(m) + e.sectionIndex
      && e.sectionIndex < |m.functionSection.value|
      && m.functionSection.value[e.sectionIndex] < |m.typeSection.value|
      && e.signature == m.typeSection.value[m.functionSection.value[e.sectionIndex]]
  {
    if m.exportSection.None? then Err(NoExportSection)
    else if m.functionSection.None? then Err(NoFunctionSection)
    else if m.typeSection.None? then Err(NoTypeSection)
    else
      var exports, functions, types := m.exportSection.value, m.functionSection.value, m.typeSection.value;
      match FindExport(exports, name)
      case None => Err(ExportNotFound)
      case Some(k) =>
        match exports[k].internal
        case Function(index) =>
          var imported := ImportedFunctions(m);
          if index < imported then Err(IndexUnderflow)
          else if index - imported >= |functions| then Err(FunctionIndexOutOfRange)
          else if functions[index - imported] >= |types| then Err(TypeIndexOutOfRange)
          else Ok(Resolved(k, index, index - imported, types[functions[index - imported]]))
        case _ => Err(NotAFunction)
  }

  /** The value's variant is the one for the parameter's type. */
  predicate HasType(v: RuntimeValue, t: ValueType)
  {
    match t
    case I32 => v.I32Value?
    case I64 => v.I64Value?
    case F32 => v.F32Value?
    case F64 => v.F64Value?
  }

  /** Builds one argument of type `t` from its text; float parsing is supplied
      by the caller. */
  function ConvertArg(t: ValueType, s: string, parseF32: string -> Option<bv32>, parseF64: string -> Option<bv64>)
    : (r: Option<RuntimeValue>)
    ensures r.Some? ==> HasType(r.value, t)
    ensures t == I32 ==> r.Some? == ParseSigned(s, I32_BOUND).Some?
    ensures t == I32 && r.Some? ==> r.value.i == ParseSigned(s, I32_BOUND).value
    ensures t == I64 ==> r.Some? == ParseSigned(s, I64_BOUND).Some?
    ensures t == I64 && r.Some? ==> r.value.i == ParseSigned(s, I64_BOUND).value
    ensures t == F32 ==> r.Some? == parseF32(s).Some?
    ensures t == F32 && r.Some? ==> r.value.bits32 == parseF32(s).value
    ensures t == F64 ==> r.Some? == parseF64(s).Some?
    ensures t == F64 && r.Some? ==> r.value.bits64 == parseF64(s).value
  {
    match t
    case I32 => (match ParseSigned(s, I32_BOUND) case Some(v) => Some(I32Value(v)) case None => None)
    case I64 => (match ParseSigned(s, I64_BOUND) case Some(v) => Some(I64Value(v)) case None => None)
    case F32 => (match parseF32(s) case Some(b) => Some(F32Value(b)) case None => None)
    case F64 => (match parseF64(s) case Some(b) => Some(F64Value(b)) case None => None)
  }

  /** Parameter `k` has an argument and that argument converts. */
  predicate Converts(params: seq<ValueType>, args: seq<string>, k: nat,
                     parseF32: string -> Option<bv32>, parseF64: string -> Option<bv64>)
    requires k < |params|
  {
    k < |args| && ConvertArg(params[k], args[k], parseF32, parseF64).Some?
  }

  /** Parameter `k` has an argument, and that argument converts to `v`. */
  predicate ConvertsTo(params: seq<ValueType>, args: seq<string>, k: nat, v: RuntimeValue,
                       parseF32: string -> Option<bv32>, parseF64: string -> Option<bv64>)
  {
    k < |params| && k < |args| && ConvertArg(params[k], args[k], parseF32, parseF64) == Some(v)
  }

  /** Converts the parameters from position `from` on, in order, stopping at
      the first one that has no argument or whose argument does not convert. */
  function ConvertFrom(params: seq<ValueType>, args: seq<string>, from: nat,
                       parseF32: string -> Option<bv32>, parseF64: string -> Option<bv64>)
    : (r: Result<seq<RuntimeValue>, InvokeError>)
    requires from <= |params|
    decreases |params| - from
    ensures r.Ok? <==> forall k :: from <= k < |params| ==> Converts(params, args, k, parseF32, parseF64)
    ensures r.Ok? ==> |r.value| == |params| - from
    ensures r.Ok? ==> forall j :: 0 <= j < |r.value| ==> ConvertsTo(params, args, from + j, r.value[j], parseF32, parseF64)
    ensures r.Err? ==> r.error.MissingArgument? || r.error.BadArgument?
    ensures r.Err? ==>
      && from <= r.error.position < |params|
      && !Converts(params, args, r.error.position, parseF32, parseF64)
      && (forall k :: from <= k < r.error.position ==> Converts(params, args, k, parseF32, parseF64))
      && (r.error.MissingArgument? <==> r.error.position >= |args|)
      && (r.error.BadArgument? ==> r.error.expected == params[r.error.position])
  {
    if from == |params| then Ok([])
    else if from >= |args| then
      assert !Converts(params, args, from, parseF32, parseF64);
      Err(MissingArgument(from))
    else
      match ConvertArg(params[from], args[from], parseF32, parseF64)
      case None =>
        assert !Converts(params, args, from, parseF32, parseF64);
        Err(BadArgument(from, params[from]))
      case Some(v) =>
        match ConvertFrom(params, args, from + 1, parseF32, parseF64)
        case Ok(rest) =>
          var out := [v] + rest;
          assert forall j :: 1 <= j < |out| ==> out[j] == rest[j - 1];
          Ok(out)
        case Err(e) => Err(e)
  }

  /** One runtime value per declared parameter, in order, each of the
      parameter's type; the first parameter without a usable argument aborts.
      Arguments beyond the parameters are ignored. */
  function ConvertArgs(params: seq<ValueType>, args: seq<string>,
                       parseF32: string -> Option<bv32>, parseF64: string -> Option<bv64>)
    : (r: Result<seq<RuntimeValue>, InvokeError>)
    ensures r.Ok? <==> |params| <= |args| && forall k :: 0 <= k < |params| ==> Converts(params, args, k, parseF32, parseF64)
    ensures r.Ok? ==> |r.value| == |params| && forall k :: 0 <= k < |params| ==> HasType(r.value[k], params[k])
    ensures r.Ok? ==> forall k :: 0 <= k < |params| ==> ConvertArg(params[k], args[k], parseF32, parseF64) == Some(r.value[k])
    ensures r.Err? ==>
      && (r.error.MissingArgument? || r.error.BadArgument?)
      && r.error.position < |params|
      && !Converts(params, args, r.error.position, parseF32, parseF64)
      && (forall k :: 0 <= k < r.error.position ==> Converts(params, args, k, parseF32, parseF64))
      && (r.error.MissingArgument? <==> r.error.position >= |args|)
      && (r.error.BadArgument? ==> r.error.expected == params[r.error.position])
  {
    var r := ConvertFrom(params, args, 0, parseF32, parseF64);
    assert r.Ok? && |params| > 0 ==> Converts(params, args, |params| - 1, parseF32, parseF64);
    r
  }

  /** The argument block of `main`: resolve the export, then convert the
      positional arguments against its parameter list. */
  function CallArguments(m: Module, name: string, args: seq<string>,
                         parseF32: string -> Option<bv32>, parseF64: string -> Option<bv64>)
    : (r: Result<seq<RuntimeValue>, InvokeError>)
    ensures Resolve(m, name).Err? ==> r == Err(Resolve(m, name).error)
    ensures Resolve(m, name).Ok? ==>
      var params := Resolve(m, name).value.signature.params;
      r.Ok? <==> |params| <= |args| && forall k :: 0 <= k < |params| ==> Converts(params, args, k, parseF32, parseF64)
    ensures r.Ok? ==>
      var params := Resolve(m, name).value.signature.params;
      && |r.value| == |params|
      && forall k :: 0 <= k < |params| ==>
           HasType(r.value[k], params[k]) && ConvertArg(params[k], args[k], parseF32, parseF64) == Some(r.value[k])
    ensures Resolve(m, name).Ok? && r.Err? ==>
      var params := Resolve(m, name).value.signature.params;
      && (r.error.MissingArgument? || r.error.BadArgument?)
      && r.error.position < |params|
      && !Converts(params, args, r.error.position, parseF32, parseF64)
      && (forall k :: 0 <= k < r.error.position ==> Converts(params, args, k, parseF32, parseF64))
      && (r.error.MissingArgument? <==> r.error.position >= |args|)
      && (r.error.BadArgument? ==> r.error.expected == params[r.error.position])
  {
    match Resolve(m, name)
    case Err(e) => Err(e)
    case Ok(resolved) => ConvertArgs(resolved.signature.params, args, parseF32, parseF64)
  }

  /** Integers rendered as text and passed for integer parameters convert
      back to the same integers. */
  lemma {:induction false} ConvertRendered(params: seq<ValueType>, values: seq<int>,
                                           parseF32: string -> Option<bv32>, parseF64: string -> Option<bv64>)
    requires |values| == |params|
    requires forall k :: 0 <= k < |params| ==> params[k] == I32 || params[k] == I64
    requires forall k :: 0 <= k < |params| ==>
      var bound := if params[k] == I32 then I32_BOUND else I64_BOUND;
      -(bound as int) <= values[k] < bound
    ensures var args := seq(|values|, k requires 0 <= k < |values| => Render(values[k]));
      var r := ConvertArgs(params, args, parseF32, parseF64);
      && r.Ok?
      && forall k :: 0 <= k < |params| ==> r.value[k].i == values[k]
  {
    var args := seq(|values|, k requires 0 <= k < |values| => Render(values[k]));
    forall k | 0 <= k < |params|
      ensures ConvertArg(params[k], args[k], parseF32, parseF64).Some?
      ensures ConvertArg(params[k], args[k], parseF32, parseF64).value.i == values[k]
    {
      ParseRender(values[k], if params[k] == I32 then I32_BOUND else I64_BOUND);
    }
  }
}
