/**
 * Globals of an AOT module: the loader lays them out, instantiation fills the global data following the
 * same layout, and the C API reads and writes them there.
 */
module Globals {
  import opened Words

  datatype ValueType = I32 | I64 | F32 | F64 | V128 | FuncRef | ExternRef

  /** wasm_value_type_size */
  function Size(t: ValueType): (n: nat)
    ensures n == 4 || n == 8 || n == 16
    ensures (n == 8 <==> t == I64 || t == F64) && (n == 16 <==> t == V128)
  {
    match t
    case I64 => 8
    case F64 => 8
    case V128 => 16
    case _ => 4
  }

  /** The 16 bytes of a value union; a value takes up as many of them as its type says. */
  type Slot = s: seq<byte> | |s| == 16 witness seq(16, _ => 0)

  datatype Init = GetGlobal(index: uint32) | NullRef | Const(value: Slot)

  datatype Import = Import(valueType: ValueType, isMutable: bool, linked: Slot)

  datatype Global = Global(valueType: ValueType, init: Init)

  // ---- The layout ----

  /** The sum of the sizes of the first i types. */
  function Offset(types: seq<ValueType>, i: nat): nat
    requires i <= |types|
  {
    if i == 0 then 0 else Offset(types, i - 1) + Size(types[i - 1])
  }

  lemma OffsetNext(types: seq<ValueType>, i: nat)
    requires i < |types|
    ensures Offset(types, i + 1) == Offset(types, i) + Size(types[i]) && Offset(types, 0) == 0
  {}

  /** Offsets are contiguous, so a global ends before any later one starts. */
  lemma {:induction false} OffsetsAscend(types: seq<ValueType>, i: nat, j: nat)
    requires i < j <= |types|
    ensures Offset(types, i) + Size(types[i]) <= Offset(types, j)
    decreases j
  {
    if i < j - 1 { OffsetsAscend(types, i, j - 1); }
  }

  /** The bytes of global i. */
  function Cell(data: seq<byte>, types: seq<ValueType>, i: nat): seq<byte>
    requires i < |types| && Offset(types, i) + Size(types[i]) <= |data|
  {
    data[Offset(types, i)..Offset(types, i) + Size(types[i])]
  }

  /** Bytes stored for global i; all cells but that one stay. */
  ghost predicate OnlyCell(types: seq<ValueType>, i: nat, before: seq<byte>, after: seq<byte>)
    requires i < |types|
  {
    && |after| == |before| == Offset(types, |types|)
    && forall k :: 0 <= k < |before| && !(Offset(types, i) <= k < Offset(types, i) + Size(types[i])) ==>
         after[k] == before[k]
  }

  lemma CellInside(types: seq<ValueType>, i: nat)
    requires i < |types|
    ensures Offset(types, i) + Size(types[i]) <= Offset(types, |types|)
  {
    OffsetsAscend(types, i, |types|);
  }

  lemma OtherCellsStay(types: seq<ValueType>, i: nat, j: nat, before: seq<byte>, after: seq<byte>)
    requires i < |types| && j < |types| && i != j && OnlyCell(types, i, before, after)
    ensures Offset(types, j) + Size(types[j]) <= |before|
    ensures Cell(after, types, j) == Cell(before, types, j)
  {
    CellInside(types, j);
    OffsetsAscend(types, if i < j then i else j, if i < j then j else i);
  }

  // ---- Loading ----

  ghost function ImportTypes(imports: seq<Import>): (types: seq<ValueType>)
    ensures |types| == |imports| && forall i :: 0 <= i < |imports| ==> types[i] == imports[i].valueType
  {
    if imports == [] then [] else [imports[0].valueType] + ImportTypes(imports[1..])
  }

  ghost function GlobalTypes(globals: seq<Global>): (types: seq<ValueType>)
    ensures |types| == |globals| && forall i :: 0 <= i < |globals| ==> types[i] == globals[i].valueType
  {
    if globals == [] then [] else [globals[0].valueType] + GlobalTypes(globals[1..])
  }

  class AotModule {
    const imports: seq<Import>
    const globals: seq<Global>
    var importOffsets: seq<nat>
    var globalOffsets: seq<nat>
    var globalDataSize: uint32

    /** The types of all globals, imports first. */
    ghost const types: seq<ValueType>

    ghost predicate Typed() {
      && |types| == |imports| + |globals|
      && (forall i :: 0 <= i < |imports| ==> types[i] == imports[i].valueType)
      && forall i :: 0 <= i < |globals| ==> types[|imports| + i] == globals[i].valueType
    }

    ghost predicate ImportsLoaded(n: nat)
      requires Typed() && n <= |imports|
      reads this
    {
      |importOffsets| == n && forall i :: 0 <= i < n ==> importOffsets[i] == Offset(types, i)
    }

    ghost predicate GlobalsLoaded(n: nat)
      requires Typed() && n <= |globals|
      reads this
    {
      |globalOffsets| == n && forall i :: 0 <= i < n ==> globalOffsets[i] == Offset(types, |imports| + i)
    }

    /** The loader's result: every offset is the sum of the sizes in front of it. */
    ghost predicate Loaded()
      reads this
    {
      && Typed() && ImportsLoaded(|imports|) && GlobalsLoaded(|globals|)
      && globalDataSize == Offset(types, |types|)
    }

    constructor (imports: seq<Import>, globals: seq<Global>)
      ensures this.imports == imports && this.globals == globals && globalDataSize == 0 && Typed()
    {
      this.imports, this.globals := imports, globals;
      types := ImportTypes(imports) + GlobalTypes(globals);
      importOffsets, globalOffsets, globalDataSize := [], [], 0;
    }

    /** load_import_globals */
    method LoadImportGlobals()
      requires Typed() && globalDataSize == 0 && Offset(types, |types|) <= UINT32_MAX
      modifies this
      ensures ImportsLoaded(|imports|) && globalDataSize == Offset(types, |imports|)
    {
      hide Size;
      var dataOffset: uint32 := 0;
      importOffsets := [];
      for i := 0 to |imports|
        invariant dataOffset == globalDataSize == Offset(types, i) && ImportsLoaded(i)
      {
        CellInside(types, i);
        var size := Size(imports[i].valueType);
        importOffsets := importOffsets + [dataOffset];
        dataOffset := Wrap32(dataOffset + size);
        globalDataSize := Wrap32(globalDataSize + size);
      }
    }

    /** load_globals: the first offset is found behind the last import. */
    method LoadGlobals()
      requires Typed() && ImportsLoaded(|imports|) && globalDataSize == Offset(types, |imports|)
      requires Offset(types, |types|) <= UINT32_MAX
      modifies this
      ensures Loaded()
    {
      hide Size;
      assert Offset(types, 0) == 0;
      hide Offset;
      hide Wrap32;
      var dataOffset: uint32 := 0;
      var n := |imports|;
      if n > 0 {
        CellInside(types, n - 1);
        OffsetNext(types, n - 1);
        WrapSmall(Offset(types, n));
        dataOffset := Wrap32(importOffsets[n - 1] + Size(imports[n - 1].valueType));
      }
      globalOffsets := [];
      for i := 0 to |globals|
        invariant ImportsLoaded(n) && GlobalsLoaded(i)
        invariant dataOffset == globalDataSize == Offset(types, n + i)
      {
        dataOffset := AddGlobal(i, dataOffset);
      }
    }

    method AddGlobal(i: nat, dataOffset: uint32) returns (next: uint32)
      requires Typed() && ImportsLoaded(|imports|) && i < |globals| && GlobalsLoaded(i)
      requires dataOffset == globalDataSize == Offset(types, |imports| + i) && Offset(types, |types|) <= UINT32_MAX
      modifies this
      ensures importOffsets == old(importOffsets) && GlobalsLoaded(i + 1)
      ensures next == globalDataSize == Offset(types, |imports| + i + 1)
    {
      CellInside(types, |imports| + i);
      OffsetNext(types, |imports| + i);
      WrapSmall(Offset(types, |imports| + i + 1));
      hide Size;
      hide Offset;
      hide Wrap32;
      var size := Size(globals[i].valueType);
      globalOffsets := globalOffsets + [dataOffset];
      next := Wrap32(dataOffset + size);
      globalDataSize := Wrap32(globalDataSize + size);
    }
  }

  // ---- Instances ----

  /** A number as the C API passes it; floats by their bits. */
  datatype Value = I32Value(i32: uint32) | I64Value(i64: uint64) | F32Value(f32: uint32) | F64Value(f64: uint64)

  predicate Numeric(t: ValueType) {
    t.I32? || t.I64? || t.F32? || t.F64?
  }

  predicate OfType(v: Value, t: ValueType) {
    match v
    case I32Value(_) => t.I32?
    case I64Value(_) => t.I64?
    case F32Value(_) => t.F32?
    case F64Value(_) => t.F64?
  }

  function LE64(v: uint64): (s: seq<byte>)
    ensures |s| == 8
  {
    LE32(v % 0x1_0000_0000) + LE32(v / 0x1_0000_0000)
  }

  function Bits(v: Value): seq<byte> {
    match v
    case I32Value(w) => LE32(w)
    case F32Value(w) => LE32(w)
    case I64Value(w) => LE64(w)
    case F64Value(w) => LE64(w)
  }

  function FromBits(t: ValueType, s: seq<byte>): Option<Value>
    requires |s| == Size(t)
  {
    match t
    case I32 => Some(I32Value(GetLE32(s, 0)))
    case F32 => Some(F32Value(GetLE32(s, 0)))
    case I64 => Some(I64Value(GetLE32(s, 0) + 0x1_0000_0000 * GetLE32(s, 4)))
    case F64 => Some(F64Value(GetLE32(s, 0) + 0x1_0000_0000 * GetLE32(s, 4)))
    case _ => None
  }

  lemma BitsRoundTrip(v: Value, t: ValueType)
    requires OfType(v, t)
    ensures |Bits(v)| == Size(t) && FromBits(t, Bits(v)) == Some(v)
  {
    match v
    case I32Value(w) => LE32At(Bits(v), 0, w);
    case F32Value(w) => LE32At(Bits(v), 0, w);
    case I64Value(w) => LE64At(w);
    case F64Value(w) => LE64At(w);
  }

  /** The number of which the bytes are the digits, base 256, the lowest first. */
  function Number(bytes: seq<byte>): nat {
    if bytes == [] then 0 else bytes[0] as int + 0x100 * Number(bytes[1..])
  }

  function NumberOf(v: Value): nat {
    match v
    case I32Value(w) => w
    case I64Value(w) => w
    case F32Value(w) => w
    case F64Value(w) => w
  }

  lemma {:induction false} NumberJoined(s: seq<byte>, t: seq<byte>)
    requires |s| == 4
    ensures Number(s) == GetLE32(s, 0) && Number(s + t) == Number(s) + 0x1_0000_0000 * Number(t)
  {
    var u := s + t;
    assert u[1..][1..][1..][1..] == t && s[1..][1..][1..][1..] == [];
    assert Number(u) == u[0] as int + 0x100 * Number(u[1..]);
    assert Number(u[1..]) == u[1] as int + 0x100 * Number(u[1..][1..]);
    assert Number(u[1..][1..]) == u[2] as int + 0x100 * Number(u[1..][1..][1..]);
    assert Number(u[1..][1..][1..]) == u[3] as int + 0x100 * Number(t);
    assert Number(s[1..]) == s[1] as int + 0x100 * Number(s[1..][1..]);
    assert Number(s[1..][1..]) == s[2] as int + 0x100 * Number(s[1..][1..][1..]);
    assert Number(s[1..][1..][1..]) == s[3] as int;
  }

  /** Numbers lie in their cells with the lowest byte first. */
  lemma BytesOfNumber(t: ValueType, s: seq<byte>)
    requires |s| == Size(t)
    ensures
      var v := FromBits(t, s);
      if t == I32 || t == I64 || t == F32 || t == F64 then
        Numeric(t) && v.Some? && OfType(v.value, t) && NumberOf(v.value) == Number(s)
      else !Numeric(t) && v == None
  {
    hide Number;
    NumberJoined(s[..4], s[4..]);
    assert s == s[..4] + s[4..];
    if |s| == 8 { NumberJoined(s[4..], []); }
    assert s[4..] + [] == s[4..];
    NumberOfNone();
  }

  lemma NumberOfNone()
    ensures Number([]) == 0
  {}

  lemma LE64At(w: uint64)
    ensures GetLE32(LE64(w), 0) == w % 0x1_0000_0000 && GetLE32(LE64(w), 4) == w / 0x1_0000_0000
  {
    assert LE64(w)[0..4] == LE32(w % 0x1_0000_0000) && LE64(w)[4..8] == LE32(w / 0x1_0000_0000);
    LE32At(LE64(w), 0, w % 0x1_0000_0000);
    LE32At(LE64(w), 4, w / 0x1_0000_0000);
  }

  /** check_global_init_expr; it is the first import whose mutability is looked at, not the one named. */
  predicate ImportNamed(imports: seq<Import>, index: uint32) {
    index < |imports| && !imports[0].isMutable
  }

  /** The first bytes of the value a defined global starts with. */
  function InitialBits(imports: seq<Import>, g: Global): (r: Option<seq<byte>>)
    ensures r.Some? ==> |r.value| <= Size(g.valueType)
  {
    match g.init
    case GetGlobal(index) =>
      if ImportNamed(imports, index) then Some(imports[index].linked[..Size(g.valueType)]) else None
    case NullRef => Some(LE32(UINT32_MAX))
    case Const(value) => Some(value[..Size(g.valueType)])
  }

  /** Instantiation gets past every initialiser. */
  ghost predicate Accepted(imports: seq<Import>, globals: seq<Global>) {
    forall g <- globals :: InitialBits(imports, g).Some?
  }

  /** What is required of a constant expression: a global that it names is imported and immutable. */
  ghost predicate ConstantInits(imports: seq<Import>, globals: seq<Global>) {
    forall g <- globals :: g.init.GetGlobal? ==> g.init.index < |imports| && !imports[g.init.index].isMutable
  }

  ghost predicate NamesGlobal(globals: seq<Global>) {
    exists g <- globals :: g.init.GetGlobal?
  }

  /** Some initialiser names a global that is not imported. */
  ghost predicate NamesDefined(imports: seq<Import>, globals: seq<Global>) {
    exists g <- globals :: g.init.GetGlobal? && g.init.index >= |imports|
  }

  ghost predicate NamesMutable(imports: seq<Import>, globals: seq<Global>) {
    exists g <- globals :: g.init.GetGlobal? && g.init.index < |imports| && imports[g.init.index].isMutable
  }

  /**
   * Exactly the modules with constant initialisers are accepted, unless some initialiser names a global,
   * all named globals are imported, and the first import is mutable while none of those named is, or the
   * other way round.
   */
  lemma InitCheckExact(imports: seq<Import>, globals: seq<Global>)
    ensures (Accepted(imports, globals) <==> ConstantInits(imports, globals)) <==>
      || !NamesGlobal(globals) || NamesDefined(imports, globals)
      || (imports != [] && (imports[0].isMutable <==> NamesMutable(imports, globals)))
  {
    if NamesGlobal(globals) && !NamesDefined(imports, globals) {
      var g :| g in globals && g.init.GetGlobal?;
      assert Accepted(imports, globals) <==> !imports[0].isMutable by {
        assert InitialBits(imports, g).Some? <==> ImportNamed(imports, g.init.index);
      }
      assert ConstantInits(imports, globals) <==> !NamesMutable(imports, globals);
    }
  }

  class AotInstance {
    const m: AotModule
    const globalData: array<byte>

    ghost predicate Valid()
      reads m
    {
      m.Loaded() && globalData.Length == m.globalDataSize
    }

    ghost function Data(): seq<byte>
      reads globalData
    {
      globalData[..]
    }

    /** The data as malloc leaves it after memset. */
    constructor (m: AotModule)
      requires m.Loaded()
      ensures Valid() && this.m == m && fresh(globalData)
    {
      this.m := m;
      globalData := new byte[m.globalDataSize](_ => 0);
    }

    /** Where the data of global i is, as both halves of the C API look it up. */
    function DataOffset(i: nat): nat
      requires Valid() && i < |m.types|
      reads m
    {
      if i < |m.imports| then m.importOffsets[i] else m.globalOffsets[i - |m.imports|]
    }

    function TypeOf(i: nat): ValueType
      requires m.Typed() && i < |m.types|
    {
      if i < |m.imports| then m.imports[i].valueType else m.globals[i - |m.imports|].valueType
    }

    lemma Found(i: nat)
      requires Valid() && i < |m.types|
      ensures DataOffset(i) == Offset(m.types, i) && TypeOf(i) == m.types[i]
      ensures DataOffset(i) + Size(TypeOf(i)) <= globalData.Length
    {
      CellInside(m.types, i);
    }

    /** What global i starts with, if its initialiser is accepted. */
    ghost function Starts(i: nat): Option<seq<byte>>
      requires m.Typed() && i < |m.types|
      ensures Starts(i).Some? ==> |Starts(i).value| <= Size(m.types[i])
    {
      if i < |m.imports| then Some(m.imports[i].linked[..Size(m.types[i])])
      else InitialBits(m.imports, m.globals[i - |m.imports|])
    }

    /** Global i starts the way it should; it is zero behind a shorter start. */
    ghost predicate Initialised(i: nat)
      requires m.Typed() && i < |m.types|
      reads globalData
    {
      && Offset(m.types, i) + Size(m.types[i]) <= globalData.Length && Starts(i).Some?
      && Starts(i).value <= Cell(globalData[..], m.types, i)
    }

    /** Global i has these bytes. */
    ghost predicate Reads(i: nat, bytes: seq<byte>)
      requires m.Typed() && i < |m.types|
      reads globalData
    {
      Offset(m.types, i) + Size(m.types[i]) <= globalData.Length && Cell(globalData[..], m.types, i) == bytes
    }

    /**
     * The value of defined global i by its initialiser: that of the import it names, the number given, or the
     * null reference of four bytes.
     */
    ghost predicate StartsAsGiven(i: nat)
      requires m.Typed() && i < |m.globals|
      reads globalData
    {
      var k, size := |m.imports| + i, Size(m.globals[i].valueType);
      match m.globals[i].init
      case GetGlobal(j) => j < |m.imports| && Reads(k, m.imports[j].linked[..size])
      case Const(value) => Reads(k, value[..size])
      case NullRef =>
        && Offset(m.types, k) + size <= globalData.Length
        && Cell(globalData[..], m.types, k)[..4] == [0xFF, 0xFF, 0xFF, 0xFF]
    }

    lemma AllStart()
      requires Valid() && forall i :: 0 <= i < |m.types| ==> Initialised(i)
      ensures forall i: nat :: i < |m.imports| ==> Reads(i, m.imports[i].linked[..Size(m.types[i])])
      ensures forall i: nat :: i < |m.globals| ==> StartsAsGiven(i)
    {
      hide Offset;
      forall i: nat | i < |m.imports| ensures Reads(i, m.imports[i].linked[..Size(m.types[i])]) {
        assert Initialised(i);
      }
      forall i: nat | i < |m.globals| ensures StartsAsGiven(i) {
        assert Initialised(|m.imports| + i);
      }
    }

    /** init_global_data at a pointer that is the offset of global i. */
    method InitGlobalData(p: nat, bits: seq<byte>, ghost i: nat)
      requires Valid() && i < |m.types| && p == Offset(m.types, i) && |bits| <= Size(m.types[i])
      modifies globalData
      ensures OnlyCell(m.types, i, old(Data()), Data())
      ensures Offset(m.types, i) + Size(m.types[i]) <= |Data()| && bits <= Cell(Data(), m.types, i)
    {
      CellInside(m.types, i);
      Store(globalData, p, bits);
    }

    /** The next global's start, behind those already written. */
    method InitNext(p: nat, bits: seq<byte>, ghost i: nat)
      requires Valid() && i < |m.types| && p == Offset(m.types, i) && Starts(i) == Some(bits)
      requires forall j :: 0 <= j < i ==> Initialised(j)
      modifies globalData
      ensures forall j :: 0 <= j <= i ==> Initialised(j)
    {
      ghost var before := Data();
      InitGlobalData(p, bits, i);
      forall j | 0 <= j < i ensures Initialised(j) {
        assert old(Initialised(j));
        OtherCellsStay(m.types, i, j, before, Data());
      }
    }

    /** global_instantiate: its assertions about offsets and size hold. */
    method Instantiate() returns (ok: bool)
      requires Valid()
      modifies globalData
      ensures ok <==> Accepted(m.imports, m.globals)
      ensures ok ==> forall i :: 0 <= i < |m.types| ==> Initialised(i)
      ensures ok ==> forall i: nat :: i < |m.imports| ==> Reads(i, m.imports[i].linked[..Size(m.types[i])])
      ensures ok ==> forall i: nat :: i < |m.globals| ==> StartsAsGiven(i)
    {
      hide Size;
      var p, n := 0, |m.imports|;
      for i := 0 to n
        invariant p == Offset(m.types, i)
        invariant forall k :: 0 <= k < i ==> Initialised(k)
      {
        assert m.importOffsets[i] == p;
        InitNext(p, m.imports[i].linked[..Size(m.imports[i].valueType)], i);
        p := p + Size(m.imports[i].valueType);
      }
      for i := 0 to |m.globals|
        invariant p == Offset(m.types, n + i)
        invariant forall k :: 0 <= k < n + i ==> Initialised(k)
      {
        assert m.globalOffsets[i] == p;
        var bits := InitialBits(m.imports, m.globals[i]);
        if bits.None? {
          assert m.globals[i] in m.globals;
          return false;
        }
        InitNext(p, bits.value, n + i);
        p := p + Size(m.globals[i].valueType);
      }
      assert m.globalDataSize == p;
      forall i | 0 <= i < |m.globals| ensures InitialBits(m.imports, m.globals[i]).Some? {
        assert Initialised(n + i);
      }
      AllStart();
      ok := true;
    }

    /** aot_global_set: the global reads as v from then on, and no other global changes; only numbers can be set. */
    method GlobalSet(i: uint16, v: Value) returns (ok: bool)
      requires Valid() && i < |m.types| && !m.types[i].ExternRef? && (Numeric(m.types[i]) ==> OfType(v, m.types[i]))
      modifies globalData
      ensures ok <==> Numeric(m.types[i])
      ensures !ok ==> Data() == old(Data())
      ensures ok ==> OnlyCell(m.types, i, old(Data()), Data())
      ensures ok ==> Offset(m.types, i) + Size(m.types[i]) <= |Data()|
      ensures ok ==> FromBits(m.types[i], Cell(Data(), m.types, i)) == Some(v)
    {
      hide Offset;
      Found(i);
      var t, p := TypeOf(i), DataOffset(i);
      if !Numeric(t) { return false; }
      BitsRoundTrip(v, t);
      hide Bits;
      hide FromBits;
      hide Size;
      InitGlobalData(p, Bits(v), i);
      ok := true;
    }

    /** aot_global_get */
    method GlobalGet(i: uint16) returns (r: Option<Value>)
      requires Valid() && i < |m.types| && !m.types[i].ExternRef?
      ensures Offset(m.types, i) + Size(m.types[i]) <= |Data()|
      ensures r == FromBits(m.types[i], Cell(Data(), m.types, i)) && (r.Some? <==> Numeric(m.types[i]))
    {
      Found(i);
      var t, p := TypeOf(i), DataOffset(i);
      r := FromBits(t, globalData[p..p + Size(t)]);
    }
  }

  /**
   * A module with two imports and a global that names the second: whether that one is mutable makes no
   * difference, so a mutable import is accepted and an immutable one is refused.
   */
  method NameSecondImport(firstMutable: bool, secondMutable: bool, linked: Slot) returns (ok: bool)
    ensures ok <==> !firstMutable
  {
    var imports := [Import(I32, firstMutable, linked), Import(I32, secondMutable, linked)];
    var globals := [Global(I32, GetGlobal(1))];
    var m := new AotModule(imports, globals);
    assert m.types[0] == m.imports[0].valueType && m.types[1] == m.imports[1].valueType;
    assert m.types[|m.imports| + 0] == m.globals[0].valueType;
    OffsetNext(m.types, 0);
    OffsetNext(m.types, 1);
    OffsetNext(m.types, 2);
    m.LoadImportGlobals();
    m.LoadGlobals();
    var instance := new AotInstance(m);
    ok := instance.Instantiate();
    assert InitialBits(imports, globals[0]).Some? <==> !firstMutable;
    assert Accepted(imports, globals) <==> InitialBits(imports, globals[0]).Some?;
  }
}
