/** The pass that reads vertex attributes from storage buffers (src/transform/vertex_pulling.cc). */
module VertexPulling {
  import opened Wrappers
  import opened Decimal

  // --- Programs ---

  datatype Scalar = U32 | I32 | F32

  datatype Op = Plus | Times | Divide

  /** `Element` is an element of the array that is a member of a storage buffer. */
  datatype Expr =
    | Ident(name: string)
    | Uint(n: nat)
    | Binary(op: Op, left: Expr, right: Expr)
    | Element(buffer: string, field: string, index: Expr)
    | Bitcast(ty: Scalar, e: Expr)
    | MakeVector(ty: Scalar, parts: seq<Expr>)

  /** An assignment without a right-hand side is what an unsupported format leaves. `Other` is any
      statement of the original program. */
  datatype Stmt =
    | DeclareLocal(name: string, ty: Scalar)
    | Assign(name: string, rhs: Option<Expr>)
    | Block(body: seq<Stmt>)
    | Other(id: nat)

  datatype StorageClass = Input | Private | Storage | OtherClass

  datatype Builtin = VertexIndex | InstanceIndex | OtherBuiltin

  datatype Decoration = Location(n: nat) | BuiltinDeco(builtin: Builtin) | Binding(n: nat) | Group(n: nat) | OtherDeco

  /** The type is a number that says which one it is, I32_TYPE for the inserted index variables. */
  datatype Variable = Variable(name: string, storage: StorageClass, ty: nat, decorations: seq<Decoration>)

  const I32_TYPE: nat := 0
  const BUFFER_TYPE: nat := 1

  datatype Function = Function(name: string, isVertex: bool, body: seq<Stmt>)

  datatype Program = Program(globals: seq<Variable>, functions: seq<Function>)

  // --- The vertex state ---

  datatype Format =
    | FormatU32 | FormatI32 | FormatF32 | FormatVec2F32 | FormatVec3F32 | FormatVec4F32
    | Unsupported(code: nat)

  datatype Step = PerVertex | PerInstance

  datatype Attribute = Attribute(format: Format, offset: nat, location: nat)

  datatype Layout = Layout(stride: nat, step: Step, attributes: seq<Attribute>)

  /** The names the pass makes up. */
  datatype Labels = Labels(bufferPrefix: string, field: string, pos: string, vertexIndex: string, instanceIndex: string)

  const PULLING := Labels("_tint_pulling_vertex_buffer_", "_tint_vertex_data", "_tint_pulling_pos",
                          "_tint_pulling_vertex_index", "_tint_pulling_instance_index")

  function Wrap(n: int): nat {
    n % 0x1_0000_0000
  }

  // --- What the pass builds ---

  predicate Uses(layouts: seq<Layout>, step: Step) {
    exists k :: 0 <= k < |layouts| && layouts[k].step == step
  }

  function IndexOf(step: Step): Builtin {
    if step.PerVertex? then VertexIndex else InstanceIndex
  }

  function DefaultName(l: Labels, step: Step): string {
    if step.PerVertex? then l.vertexIndex else l.instanceIndex
  }

  /** The first input variable that is the builtin b. */
  function FindBuiltin(vs: seq<Variable>, b: Builtin): Option<string> {
    if vs == [] then None
    else if vs[0].storage.Input? && BuiltinDeco(b) in vs[0].decorations then Some(vs[0].name)
    else FindBuiltin(vs[1..], b)
  }

  /** The input variable v is the builtin b. */
  predicate IsInput(v: Variable, b: Builtin) {
    v.storage.Input? && BuiltinDeco(b) in v.decorations
  }

  lemma {:induction false} FindBuiltinIs(vs: seq<Variable>, b: Builtin)
    ensures FindBuiltin(vs, b).None? <==> forall v | v in vs :: !IsInput(v, b)
    ensures FindBuiltin(vs, b).Some? ==> exists v :: v in vs && IsInput(v, b) && v.name == FindBuiltin(vs, b).value
  {
    if vs != [] {
      assert vs == [vs[0]] + vs[1..];
      FindBuiltinIs(vs[1..], b);
      if IsInput(vs[0], b) {
        assert vs[0] in vs && vs[0].name == FindBuiltin(vs, b).value;
      }
    }
  }

  function IndexName(l: Labels, layouts: seq<Layout>, vs: seq<Variable>, step: Step): string {
    if !Uses(layouts, step) then ""
    else
      var found := FindBuiltin(vs, IndexOf(step));
      if found.Some? then found.value else DefaultName(l, step)
  }

  function IndexVariable(l: Labels, step: Step): Variable {
    Variable(DefaultName(l, step), Input, I32_TYPE, [BuiltinDeco(IndexOf(step))])
  }

  function InsertedIndex(l: Labels, layouts: seq<Layout>, vs: seq<Variable>, step: Step): seq<Variable> {
    if Uses(layouts, step) && FindBuiltin(vs, IndexOf(step)).None? then [IndexVariable(l, step)] else []
  }

  function LocationIn(ds: seq<Decoration>): Option<nat> {
    if ds == [] then None else if ds[0].Location? then Some(ds[0].n) else LocationIn(ds[1..])
  }

  function LocationOf(v: Variable): Option<nat> {
    if v.storage.Input? then LocationIn(v.decorations) else None
  }

  /** The last input variable with a location gets its attributes. */
  function LocationMap(vs: seq<Variable>): map<nat, string> {
    if vs == [] then map[]
    else
      var v := vs[|vs| - 1];
      var rest := LocationMap(vs[..|vs| - 1]);
      if LocationOf(v).Some? then rest[LocationOf(v).value := v.name] else rest
  }

  function Converted(v: Variable): Variable {
    if LocationOf(v).Some? then Variable(v.name, Private, v.ty, []) else v
  }

  function ConvertedAll(vs: seq<Variable>): seq<Variable> {
    if vs == [] then [] else ConvertedAll(vs[..|vs| - 1]) + [Converted(vs[|vs| - 1])]
  }

  function BufferName(l: Labels, i: nat): string {
    l.bufferPrefix + ToString(i)
  }

  function BufferVariables(l: Labels, n: nat, group: nat): seq<Variable> {
    if n == 0 then []
    else BufferVariables(l, n - 1, group) + [Variable(BufferName(l, n - 1), Storage, BUFFER_TYPE, [Binding(n - 1), Group(group)])]
  }

  function AccessU32(l: Labels, buffer: nat, pos: Expr): Expr {
    Element(BufferName(l, buffer), l.field, Binary(Divide, pos, Uint(4)))
  }

  function AccessF32(l: Labels, buffer: nat, pos: Expr): Expr {
    Bitcast(F32, AccessU32(l, buffer, pos))
  }

  function PartAt(l: Labels, buffer: nat, elementStride: nat, i: nat): Expr {
    AccessF32(l, buffer, Binary(Plus, Ident(l.pos), Uint(Wrap(elementStride * i))))
  }

  function Parts(l: Labels, buffer: nat, elementStride: nat, count: nat): seq<Expr> {
    if count == 0 then [] else Parts(l, buffer, elementStride, count - 1) + [PartAt(l, buffer, elementStride, count - 1)]
  }

  function AccessByFormat(l: Labels, buffer: nat, format: Format): Option<Expr> {
    match format
    case FormatU32 => Some(AccessU32(l, buffer, Ident(l.pos)))
    case FormatI32 => Some(Bitcast(I32, AccessU32(l, buffer, Ident(l.pos))))
    case FormatF32 => Some(AccessF32(l, buffer, Ident(l.pos)))
    case FormatVec2F32 => Some(MakeVector(F32, Parts(l, buffer, 4, 2)))
    case FormatVec3F32 => Some(MakeVector(F32, Parts(l, buffer, 4, 3)))
    case FormatVec4F32 => Some(MakeVector(F32, Parts(l, buffer, 4, 4)))
    case Unsupported(_) => None
  }

  /** One attribute of one buffer. */
  datatype Pull = Pull(buffer: nat, layout: Layout, attribute: Attribute)

  function PullsOf(buffer: nat, layout: Layout, attributes: seq<Attribute>): seq<Pull> {
    if attributes == [] then []
    else PullsOf(buffer, layout, attributes[..|attributes| - 1]) + [Pull(buffer, layout, attributes[|attributes| - 1])]
  }

  function Pulls(layouts: seq<Layout>): seq<Pull> {
    if layouts == [] then []
    else
      var n := |layouts| - 1;
      Pulls(layouts[..n]) + PullsOf(n, layouts[n], layouts[n].attributes)
  }

  /** What the preamble is built from: the locations' variables and the index variables. */
  datatype Wiring = Wiring(locations: map<nat, string>, vertexName: string, instanceName: string)

  function NameFor(wiring: Wiring, step: Step): string {
    if step.PerVertex? then wiring.vertexName else wiring.instanceName
  }

  function PositionOf(wiring: Wiring, pull: Pull): Expr {
    Binary(Plus,
           Binary(Times, Ident(NameFor(wiring, pull.layout.step)), Uint(Wrap(pull.layout.stride))),
           Uint(Wrap(pull.attribute.offset)))
  }

  function EmittedFor(l: Labels, wiring: Wiring, pull: Pull): seq<Stmt> {
    if pull.attribute.location !in wiring.locations then []
    else
      [Assign(l.pos, Some(PositionOf(wiring, pull))),
       Assign(wiring.locations[pull.attribute.location], AccessByFormat(l, pull.buffer, pull.attribute.format))]
  }

  function Emitted(l: Labels, wiring: Wiring, pulls: seq<Pull>): seq<Stmt> {
    if pulls == [] then [] else Emitted(l, wiring, pulls[..|pulls| - 1]) + EmittedFor(l, wiring, pulls[|pulls| - 1])
  }

  function Preamble(l: Labels, wiring: Wiring, layouts: seq<Layout>): seq<Stmt> {
    [DeclareLocal(l.pos, I32)] + Emitted(l, wiring, Pulls(layouts))
  }

  function WiringOf(l: Labels, layouts: seq<Layout>, vs: seq<Variable>): Wiring {
    Wiring(LocationMap(vs), IndexName(l, layouts, vs, PerVertex), IndexName(l, layouts, vs, PerInstance))
  }

  predicate IsEntry(f: Function, name: string) {
    f.name == name && f.isVertex
  }

  /** The first vertex function of that name. */
  predicate FirstEntry(fs: seq<Function>, name: string, k: nat) {
    k < |fs| && IsEntry(fs[k], name) && forall j | 0 <= j < k :: !IsEntry(fs[j], name)
  }

  function EntryPoint(fs: seq<Function>, name: string): (k: Option<nat>)
    ensures k.Some? ==> k.value < |fs| && fs[k.value].name == name && fs[k.value].isVertex
  {
    if fs == [] then None
    else if fs[0].name == name && fs[0].isVertex then Some(0)
    else match EntryPoint(fs[1..], name) case None => None case Some(k) => Some(k + 1)
  }

  function Pulled(l: Labels, layouts: seq<Layout>, group: nat, k: nat, p: Program): Program
    requires k < |p.functions|
  {
    var f := p.functions[k];
    Program(InsertedIndex(l, layouts, p.globals, PerVertex) + InsertedIndex(l, layouts, p.globals, PerInstance) +
            BufferVariables(l, |layouts|, group) + ConvertedAll(p.globals),
            p.functions[k := f.(body := [Block(Preamble(l, WiringOf(l, layouts, p.globals), layouts))] + f.body)])
  }

  // --- The pass as it runs ---

  datatype Error = VertexStateNotSet | EntryPointNotFound

  class State {
    const labels: Labels
    const layouts: seq<Layout>
    const group: nat
    const program: Program
    var vertexIndexName: string
    var instanceIndexName: string
    var locationToVar: map<nat, string>
    var replacements: map<nat, Variable>
    var added: seq<Variable>

    constructor (labels: Labels, layouts: seq<Layout>, group: nat, program: Program)
      ensures this.labels == labels && this.layouts == layouts && this.group == group && this.program == program
      ensures vertexIndexName == "" && instanceIndexName == "" && locationToVar == map[]
      ensures replacements == map[] && added == []
    {
      this.labels, this.layouts, this.group, this.program := labels, layouts, group, program;
      vertexIndexName, instanceIndexName, locationToVar, replacements, added := "", "", map[], map[], [];
    }

    method UsesStep(step: Step) returns (used: bool)
      ensures used == Uses(layouts, step)
    {
      var k := 0;
      while k < |layouts|
        invariant 0 <= k <= |layouts| && forall j | 0 <= j < k :: layouts[j].step != step
      {
        if layouts[k].step == step {
          return true;
        }
        k := k + 1;
      }
      return false;
    }

    method FindInput(b: Builtin) returns (name: Option<string>)
      ensures name == FindBuiltin(program.globals, b)
      ensures name.None? <==> forall v | v in program.globals :: !IsInput(v, b)
      ensures name.Some? ==> exists v :: v in program.globals && IsInput(v, b) && v.name == name.value
    {
      FindBuiltinIs(program.globals, b);
      var vs, k := program.globals, 0;
      while k < |vs|
        invariant 0 <= k <= |vs| && FindBuiltin(vs, b) == FindBuiltin(vs[k..], b)
      {
        if vs[k].storage.Input? {
          var d := 0;
          while d < |vs[k].decorations|
            invariant 0 <= d <= |vs[k].decorations| && BuiltinDeco(b) !in vs[k].decorations[..d]
          {
            if vs[k].decorations[d] == BuiltinDeco(b) {
              return Some(vs[k].name);
            }
            d := d + 1;
          }
          assert vs[k].decorations[..d] == vs[k].decorations;
        }
        k := k + 1;
      }
      return None;
    }

    /** Where some buffer steps by a builtin's number, the input variable that is the builtin is found, or one
        is added when there is none. */
    ghost predicate FoundOrInserted(b: Builtin, used: bool, name: string, fallback: string, before: seq<Variable>, after: seq<Variable>) {
      if !used then name == "" && after == before
      else if exists v :: v in program.globals && IsInput(v, b) then
        after == before && exists v :: v in program.globals && IsInput(v, b) && v.name == name
      else name == fallback && after == before + [Variable(fallback, Input, I32_TYPE, [BuiltinDeco(b)])]
    }

    method FindOrInsertVertexIndexIfUsed()
      requires vertexIndexName == ""
      modifies this`vertexIndexName, this`added
      ensures FoundOrInserted(VertexIndex, exists k :: 0 <= k < |layouts| && layouts[k].step == PerVertex,
                              vertexIndexName, labels.vertexIndex, old(added), added)
      ensures vertexIndexName == IndexName(labels, layouts, program.globals, PerVertex)
      ensures added == old(added) + InsertedIndex(labels, layouts, program.globals, PerVertex)
    {
      var used := UsesStep(PerVertex);
      if !used {
        return;
      }
      var found := FindInput(VertexIndex);
      if found.Some? {
        vertexIndexName := found.value;
        return;
      }
      vertexIndexName := labels.vertexIndex;
      added := added + [IndexVariable(labels, PerVertex)];
    }

    method FindOrInsertInstanceIndexIfUsed()
      requires instanceIndexName == ""
      modifies this`instanceIndexName, this`added
      ensures FoundOrInserted(InstanceIndex, exists k :: 0 <= k < |layouts| && layouts[k].step == PerInstance,
                              instanceIndexName, labels.instanceIndex, old(added), added)
      ensures instanceIndexName == IndexName(labels, layouts, program.globals, PerInstance)
      ensures added == old(added) + InsertedIndex(labels, layouts, program.globals, PerInstance)
    {
      var used := UsesStep(PerInstance);
      if !used {
        return;
      }
      var found := FindInput(InstanceIndex);
      if found.Some? {
        instanceIndexName := found.value;
        return;
      }
      instanceIndexName := labels.instanceIndex;
      added := added + [IndexVariable(labels, PerInstance)];
    }

    /** Exactly the variables with a location have a replacement, their private version. */
    ghost predicate Replaced(k: nat)
      requires k <= |program.globals|
      reads this`replacements
    {
      forall j | 0 <= j < k ::
        (j in replacements <==> LocationOf(program.globals[j]).Some?) &&
        (j in replacements ==> replacements[j] == Converted(program.globals[j]))
    }

    method ConvertVertexInputVariablesToPrivate()
      requires locationToVar == map[] && replacements == map[]
      modifies this`locationToVar, this`replacements
      ensures locationToVar == LocationMap(program.globals)
      ensures Replaced(|program.globals|)
    {
      var vs, k := program.globals, 0;
      while k < |vs|
        invariant 0 <= k <= |vs| && locationToVar == LocationMap(vs[..k])
        invariant Replaced(k)
        invariant forall j | j in replacements :: j < k
      {
        assert vs[..k + 1] == vs[..k] + [vs[k]];
        if vs[k].storage.Input? {
          var location := FindLocation(vs[k].decorations);
          if location.Some? {
            locationToVar := locationToVar[location.value := vs[k].name];
            replacements := replacements[k := Variable(vs[k].name, Private, vs[k].ty, [])];
          }
        }
        k := k + 1;
      }
      assert vs[..k] == vs;
    }

    method FindLocation(ds: seq<Decoration>) returns (location: Option<nat>)
      ensures location == LocationIn(ds)
    {
      var d := 0;
      while d < |ds|
        invariant 0 <= d <= |ds| && LocationIn(ds) == LocationIn(ds[d..])
      {
        if ds[d].Location? {
          return Some(ds[d].n);
        }
        d := d + 1;
      }
      return None;
    }

    method AddVertexStorageBuffers()
      modifies this`added
      ensures added == old(added) + BufferVariables(labels, |layouts|, group)
    {
      var i := 0;
      while i < |layouts|
        invariant 0 <= i <= |layouts| && added == old(added) + BufferVariables(labels, i, group)
      {
        added := added + [Variable(BufferName(labels, i), Storage, BUFFER_TYPE, [Binding(i), Group(group)])];
        i := i + 1;
      }
    }

    /** The steps before the program is cloned. */
    method Prepare()
      requires vertexIndexName == "" && instanceIndexName == "" && locationToVar == map[]
      requires replacements == map[] && added == []
      modifies this
      ensures Wired() == WiringOf(labels, layouts, program.globals) && Replaced(|program.globals|)
      ensures added == InsertedIndex(labels, layouts, program.globals, PerVertex) +
        InsertedIndex(labels, layouts, program.globals, PerInstance) + BufferVariables(labels, |layouts|, group)
    {
      FindOrInsertVertexIndexIfUsed();
      FindOrInsertInstanceIndexIfUsed();
      ConvertVertexInputVariablesToPrivate();
      AddVertexStorageBuffers();
    }

    ghost function Wired(): Wiring
      reads this
    {
      Wiring(locationToVar, vertexIndexName, instanceIndexName)
    }

    method CreateVertexPullingPreamble() returns (stmts: seq<Stmt>)
      ensures stmts == Preamble(labels, Wired(), layouts)
    {
      stmts := [DeclareLocal(labels.pos, I32)];
      var i := 0;
      while i < |layouts|
        invariant 0 <= i <= |layouts|
        invariant stmts == Preamble(labels, Wired(), layouts[..i])
      {
        var more := PullBuffer(i);
        stmts := stmts + more;
        assert layouts[..i + 1][..i] == layouts[..i];
        EmittedConcat(labels, Wired(), Pulls(layouts[..i]), PullsOf(i, layouts[i], layouts[i].attributes));
        i := i + 1;
      }
      assert layouts[..i] == layouts;
    }

    /** The statements for the attributes of one buffer. */
    method PullBuffer(i: nat) returns (stmts: seq<Stmt>)
      requires i < |layouts|
      ensures stmts == Emitted(labels, Wired(), PullsOf(i, layouts[i], layouts[i].attributes))
    {
      stmts := [];
      var layout, k := layouts[i], 0;
      while k < |layout.attributes|
        invariant 0 <= k <= |layout.attributes|
        invariant stmts == Emitted(labels, Wired(), PullsOf(i, layout, layout.attributes[..k]))
      {
        assert layout.attributes[..k + 1][..k] == layout.attributes[..k];
        var more := PullAttribute(i, layout, layout.attributes[k]);
        stmts := stmts + more;
        k := k + 1;
      }
      assert layout.attributes[..k] == layout.attributes;
    }

    method PullAttribute(i: nat, layout: Layout, a: Attribute) returns (stmts: seq<Stmt>)
      ensures stmts == EmittedFor(labels, Wired(), Pull(i, layout, a))
    {
      if a.location !in locationToVar {
        return [];
      }
      var name := if layout.step == PerVertex then vertexIndexName else instanceIndexName;
      var pos := Binary(Plus, Binary(Times, Ident(name), Uint(Wrap(layout.stride))), Uint(Wrap(a.offset)));
      var access := Access(i, a.format);
      return [Assign(labels.pos, Some(pos)), Assign(locationToVar[a.location], access)];
    }

    method Access(buffer: nat, format: Format) returns (e: Option<Expr>)
      ensures e == AccessByFormat(labels, buffer, format)
    {
      match format {
        case FormatU32 => return Some(AccessU32(labels, buffer, Ident(labels.pos)));
        case FormatI32 => return Some(Bitcast(I32, AccessU32(labels, buffer, Ident(labels.pos))));
        case FormatF32 => return Some(AccessF32(labels, buffer, Ident(labels.pos)));
        case FormatVec2F32 =>
          var vector := AccessVec(buffer, 4, 2);
          return Some(vector);
        case FormatVec3F32 =>
          var vector := AccessVec(buffer, 4, 3);
          return Some(vector);
        case FormatVec4F32 =>
          var vector := AccessVec(buffer, 4, 4);
          return Some(vector);
        case Unsupported(_) => return None;
      }
    }

    method AccessVec(buffer: nat, elementStride: nat, count: nat) returns (e: Expr)
      ensures e == MakeVector(F32, Parts(labels, buffer, elementStride, count))
    {
      var parts, i := [], 0;
      while i < count
        invariant 0 <= i <= count && parts == Parts(labels, buffer, elementStride, i)
      {
        var pos := Binary(Plus, Ident(labels.pos), Uint(Wrap(elementStride * i)));
        parts := parts + [AccessF32(labels, buffer, pos)];
        i := i + 1;
      }
      return MakeVector(F32, parts);
    }

    /** CloneContext::Clone() with the replacements registered. */
    method CloneGlobals() returns (vs: seq<Variable>)
      requires Replaced(|program.globals|)
      ensures vs == ConvertedAll(program.globals)
    {
      vs := [];
      var k := 0;
      while k < |program.globals|
        invariant 0 <= k <= |program.globals| && vs == ConvertedAll(program.globals[..k])
      {
        assert program.globals[..k + 1] == program.globals[..k] + [program.globals[k]];
        vs := vs + [if k in replacements then replacements[k] else program.globals[k]];
        k := k + 1;
      }
      assert program.globals[..k] == program.globals;
    }
  }

  lemma {:induction false} EmittedConcat(l: Labels, wiring: Wiring, a: seq<Pull>, b: seq<Pull>)
    ensures Emitted(l, wiring, a + b) == Emitted(l, wiring, a) + Emitted(l, wiring, b)
    decreases |b|
  {
    if b == [] {
      assert a + b == a;
    } else {
      assert (a + b)[..|a + b| - 1] == a + b[..|b| - 1];
      EmittedConcat(l, wiring, a, b[..|b| - 1]);
    }
  }

  method FindEntryPoint(fs: seq<Function>, name: string) returns (k: Option<nat>)
    ensures k == EntryPoint(fs, name)
    ensures k.None? ==> forall j | 0 <= j < |fs| :: !IsEntry(fs[j], name)
    ensures k.Some? ==> FirstEntry(fs, name, k.value)
  {
    var i := 0;
    while i < |fs|
      invariant 0 <= i <= |fs| && forall j | 0 <= j < i :: !IsEntry(fs[j], name)
      invariant EntryPoint(fs, name) == match EntryPoint(fs[i..], name) case None => None case Some(j) => Some(i + j)
    {
      if fs[i].name == name && fs[i].isVertex {
        return Some(i);
      }
      assert fs[i..][1..] == fs[i + 1..];
      i := i + 1;
    }
    return None;
  }

  /** Run(). */
  method Run(l: Labels, state: Option<seq<Layout>>, entry: string, group: nat, p: Program) returns (r: Result<Program, Error>)
    ensures r == if state.None? then Err(VertexStateNotSet)
                 else if EntryPoint(p.functions, entry).None? then Err(EntryPointNotFound)
                 else Ok(Pulled(l, state.value, group, EntryPoint(p.functions, entry).value, p))
    ensures r == Err(EntryPointNotFound) <==> state.Some? && forall j | 0 <= j < |p.functions| :: !IsEntry(p.functions[j], entry)
    ensures r.Ok? ==> exists k :: FirstEntry(p.functions, entry, k) && r.value == Pulled(l, state.value, group, k, p)
  {
    if state.None? {
      return Err(VertexStateNotSet);
    }
    var k := FindEntryPoint(p.functions, entry);
    if k.None? {
      return Err(EntryPointNotFound);
    }
    var q := PullInputs(l, state.value, group, k.value, p);
    return Ok(q);
  }

  method PullInputs(l: Labels, layouts: seq<Layout>, group: nat, k: nat, p: Program) returns (q: Program)
    requires k < |p.functions|
    ensures q == Pulled(l, layouts, group, k, p)
  {
    var s := new State(l, layouts, group, p);
    s.Prepare();
    var globals := s.CloneGlobals();
    var preamble := s.CreateVertexPullingPreamble();
    var f := p.functions[k];
    return Program(s.added + globals, p.functions[k := f.(body := [Block(preamble)] + f.body)]);
  }
}
