/** The pass that adds the first vertex and instance to the index builtins
    (src/transform/first_index_offset.cc). */
module FirstIndexOffset {
  import opened Wrappers
  import opened Shaders

  /** The names the pass makes up. */
  datatype Labels = Labels(buffer: string, vertexField: string, instanceField: string, prefix: string)

  const TINT := Labels("tint_first_index_data", "tint_first_vertex_index", "tint_first_instance_index", "tint_first_index_offset_")

  // --- What the pass builds ---

  function Renamed(l: Labels, v: Variable): Variable {
    if IndexBuiltin(v.decorations).Some? then v.(name := l.prefix + v.name) else v
  }

  function RenamedAll(l: Labels, vs: seq<Variable>): seq<Variable> {
    if vs == [] then [] else RenamedAll(l, vs[..|vs| - 1]) + [Renamed(l, vs[|vs| - 1])]
  }

  predicate Has(vs: seq<Variable>, b: Builtin) {
    exists v :: v in vs && IndexBuiltin(v.decorations) == Some(b)
  }

  /** The last variable that is the index builtin b. */
  function LastNamed(vs: seq<Variable>, b: Builtin): string {
    if vs == [] then ""
    else if IndexBuiltin(vs[|vs| - 1].decorations) == Some(b) then vs[|vs| - 1].name
    else LastNamed(vs[..|vs| - 1], b)
  }

  function InstanceOffset(hasVertex: bool): nat {
    if hasVertex then 4 else 0
  }

  function Buffer(l: Labels, hasVertex: bool, hasInstance: bool): Variable {
    Variable(l.buffer, [OtherDeco, OtherDeco],
             (if hasVertex then [Field(l.vertexField, 0)] else []) +
             (if hasInstance then [Field(l.instanceField, InstanceOffset(hasVertex))] else []))
  }

  /** The k-th variable is the builtin b, and none behind it is. */
  ghost predicate LastAt(vs: seq<Variable>, b: Builtin, k: nat) {
    && k < |vs| && IndexBuiltin(vs[k].decorations) == Some(b)
    && forall j | k < j < |vs| :: IndexBuiltin(vs[j].decorations) != Some(b)
  }

  lemma {:induction false} LastNamedIs(vs: seq<Variable>, b: Builtin)
    ensures !Has(vs, b) ==> LastNamed(vs, b) == ""
    ensures Has(vs, b) ==> exists k: nat :: LastAt(vs, b, k) && vs[k].name == LastNamed(vs, b)
  {
    if vs != [] {
      var n := |vs| - 1;
      LastNamedIs(vs[..n], b);
      assert vs == vs[..n] + [vs[n]];
      if IndexBuiltin(vs[n].decorations) == Some(b) {
        assert LastAt(vs, b, n);
      } else if Has(vs, b) {
        assert Has(vs[..n], b);
        var k: nat :| LastAt(vs[..n], b, k) && vs[..n][k].name == LastNamed(vs[..n], b);
        LastEarlier(vs, b, k);
      }
    }
  }

  lemma LastEarlier(vs: seq<Variable>, b: Builtin, k: nat)
    requires vs != [] && IndexBuiltin(vs[|vs| - 1].decorations) != Some(b) && LastAt(vs[..|vs| - 1], b, k)
    ensures LastAt(vs, b, k)
  {
    forall j | k < j < |vs|
      ensures IndexBuiltin(vs[j].decorations) != Some(b)
    {
      if j < |vs| - 1 {
        assert vs[..|vs| - 1][j] == vs[j];
      }
    }
  }

  /** The fields are words one after another from the start of the buffer, without gaps or overlaps. */
  ghost predicate Packed(fields: seq<Field>) {
    forall i | 0 <= i < |fields| :: fields[i].offset == 4 * i
  }

  function FirstBuiltin(ds: seq<Decoration>): Option<Builtin> {
    if ds == [] then None else if ds[0].BuiltinDeco? then Some(ds[0].builtin) else FirstBuiltin(ds[1..])
  }

  /** local_referenced_builtin_variables(), of which the pass uses the builtins. */
  function LocalBuiltins(vs: seq<Variable>): seq<Builtin> {
    if vs == [] then []
    else
      LocalBuiltins(vs[..|vs| - 1]) +
      (match FirstBuiltin(vs[|vs| - 1].decorations) case None => [] case Some(b) => [b])
  }

  function Label(l: Labels, b: Builtin): string {
    if b.VertexIndex? then l.vertexField else l.instanceField
  }

  /** CreateFirstIndexOffset(). */
  function OffsetDeclaration(l: Labels, name: string, field: string): Stmt {
    Declare(name, true, Binary(Plus, Ident(l.prefix + name), Member(l.buffer, field)))
  }

  function Inserted(l: Labels, globals: seq<Variable>, bs: seq<Builtin>): seq<Stmt> {
    if bs == [] then []
    else
      var b := bs[|bs| - 1];
      Inserted(l, globals, bs[..|bs| - 1]) +
      if b.OtherBuiltin? then [] else [OffsetDeclaration(l, LastNamed(globals, b), Label(l, b))]
  }

  /** The new function's list of references is empty until the program is determined again. */
  function NewFunction(l: Labels, globals: seq<Variable>, f: Function): Function {
    f.(body := Inserted(l, globals, LocalBuiltins(f.locals)) + f.body, locals := [])
  }

  function NewFunctions(l: Labels, globals: seq<Variable>, fs: seq<Function>): seq<Function> {
    if fs == [] then [] else NewFunctions(l, globals, fs[..|fs| - 1]) + [NewFunction(l, globals, fs[|fs| - 1])]
  }

  /** The flags say which index builtins the program, or one transformed before, declares. */
  function Transformed(l: Labels, p: Program, hasVertex: bool, hasInstance: bool): Program {
    Program(RenamedAll(l, p.globals) + (if p.functions == [] then [] else [Buffer(l, hasVertex, hasInstance)]),
            NewFunctions(l, p.globals, p.functions))
  }

  // --- The pass as it runs ---

  class FirstIndexOffset {
    const labels: Labels
    var hasVertexIndex: bool
    var hasInstanceIndex: bool
    var vertexIndexOffset: nat
    var instanceIndexOffset: nat

    constructor (labels: Labels)
      ensures this.labels == labels && !hasVertexIndex && !hasInstanceIndex
      ensures vertexIndexOffset == 0 && instanceIndexOffset == 0
    {
      this.labels := labels;
      hasVertexIndex, hasInstanceIndex, vertexIndexOffset, instanceIndexOffset := false, false, 0, 0;
    }

    method AddUniformBuffer() returns (buffer: Variable)
      modifies this`vertexIndexOffset, this`instanceIndexOffset
      ensures buffer == Buffer(labels, hasVertexIndex, hasInstanceIndex) && Packed(buffer.fields)
      ensures |buffer.fields| == (if hasVertexIndex then 1 else 0) + (if hasInstanceIndex then 1 else 0)
      ensures hasVertexIndex ==> Field(labels.vertexField, vertexIndexOffset) in buffer.fields
      ensures hasInstanceIndex ==> Field(labels.instanceField, instanceIndexOffset) in buffer.fields
      ensures vertexIndexOffset == if hasVertexIndex then 0 else old(vertexIndexOffset)
      ensures instanceIndexOffset == if hasInstanceIndex then InstanceOffset(hasVertexIndex) else old(instanceIndexOffset)
    {
      var fields, offset := [], 0;
      if hasVertexIndex {
        fields := fields + [Field(labels.vertexField, offset)];
        vertexIndexOffset := offset;
        offset := offset + 4;
      }
      if hasInstanceIndex {
        fields := fields + [Field(labels.instanceField, offset)];
        instanceIndexOffset := offset;
        offset := offset + 4;
      }
      assert hasInstanceIndex ==> fields[|fields| - 1] == Field(labels.instanceField, instanceIndexOffset);
      assert hasVertexIndex ==> fields[0] == Field(labels.vertexField, vertexIndexOffset);
      buffer := Variable(labels.buffer, [OtherDeco, OtherDeco], fields);
    }

    /** The replacer of variables: it looks for the first index builtin, and says which it found. */
    method CloneVariable(v: Variable) returns (r: Variable, found: Option<Builtin>)
      modifies this`hasVertexIndex, this`hasInstanceIndex
      ensures r == Renamed(labels, v) && found == IndexBuiltin(v.decorations)
      ensures hasVertexIndex == (old(hasVertexIndex) || found == Some(VertexIndex))
      ensures hasInstanceIndex == (old(hasInstanceIndex) || found == Some(InstanceIndex))
    {
      var k := 0;
      while k < |v.decorations|
        invariant 0 <= k <= |v.decorations| && IndexBuiltin(v.decorations) == IndexBuiltin(v.decorations[k..])
        invariant hasVertexIndex == old(hasVertexIndex) && hasInstanceIndex == old(hasInstanceIndex)
      {
        var d := v.decorations[k];
        if d.BuiltinDeco? {
          if d.builtin.VertexIndex? {
            hasVertexIndex := true;
            return v.(name := labels.prefix + v.name), Some(VertexIndex);
          } else if d.builtin.InstanceIndex? {
            hasInstanceIndex := true;
            return v.(name := labels.prefix + v.name), Some(InstanceIndex);
          }
        }
        k := k + 1;
      }
      return v, None;
    }

    /** The cloned variables, and the captured names of the index builtins. */
    method CloneVariables(vs: seq<Variable>) returns (rs: seq<Variable>, vertexName: string, instanceName: string)
      modifies this`hasVertexIndex, this`hasInstanceIndex
      ensures rs == RenamedAll(labels, vs)
      ensures vertexName == LastNamed(vs, VertexIndex) && instanceName == LastNamed(vs, InstanceIndex)
      ensures hasVertexIndex == (old(hasVertexIndex) || Has(vs, VertexIndex))
      ensures hasInstanceIndex == (old(hasInstanceIndex) || Has(vs, InstanceIndex))
    {
      rs, vertexName, instanceName := [], "", "";
      var k := 0;
      while k < |vs|
        invariant 0 <= k <= |vs| && rs == RenamedAll(labels, vs[..k])
        invariant vertexName == LastNamed(vs[..k], VertexIndex) && instanceName == LastNamed(vs[..k], InstanceIndex)
        invariant hasVertexIndex == (old(hasVertexIndex) || Has(vs[..k], VertexIndex))
        invariant hasInstanceIndex == (old(hasInstanceIndex) || Has(vs[..k], InstanceIndex))
      {
        var r, found := CloneVariable(vs[k]);
        rs := rs + [r];
        if found == Some(VertexIndex) {
          vertexName := vs[k].name;
        } else if found == Some(InstanceIndex) {
          instanceName := vs[k].name;
        }
        assert vs[..k + 1] == vs[..k] + [vs[k]];
        HasMore(vs[..k], vs[k], VertexIndex);
        HasMore(vs[..k], vs[k], InstanceIndex);
        k := k + 1;
      }
      assert vs[..k] == vs;
    }

    lemma HasMore(vs: seq<Variable>, v: Variable, b: Builtin)
      ensures Has(vs + [v], b) <==> Has(vs, b) || IndexBuiltin(v.decorations) == Some(b)
    {
      assert forall u :: u in vs + [v] <==> u in vs || u == v;
    }

    /** The replacer of functions, with CloneWithStatementsAtStart(). */
    method CloneFunction(f: Function, vertexName: string, instanceName: string, ghost globals: seq<Variable>) returns (r: Function)
      requires vertexName == LastNamed(globals, VertexIndex) && instanceName == LastNamed(globals, InstanceIndex)
      ensures r == NewFunction(labels, globals, f)
    {
      var statements := [];
      var bs := LocalReferencedBuiltins(f.locals);
      var k := 0;
      while k < |bs|
        invariant 0 <= k <= |bs| && statements == Inserted(labels, globals, bs[..k])
      {
        assert bs[..k + 1] == bs[..k] + [bs[k]];
        if bs[k] == VertexIndex {
          statements := statements + [OffsetDeclaration(labels, vertexName, labels.vertexField)];
        } else if bs[k] == InstanceIndex {
          statements := statements + [OffsetDeclaration(labels, instanceName, labels.instanceField)];
        }
        k := k + 1;
      }
      assert bs[..k] == bs;
      var body := WithStatementsAtStart(f.body, statements);
      r := f.(body := body, locals := []);
    }

    /** The loop of CloneWithStatementsAtStart(). */
    method WithStatementsAtStart(body: seq<Stmt>, statements: seq<Stmt>) returns (all: seq<Stmt>)
      ensures all == statements + body
    {
      all := statements;
      var n := 0;
      while n < |body|
        invariant 0 <= n <= |body| && all == statements + body[..n]
      {
        all := all + [body[n]];
        n := n + 1;
      }
      assert body[..n] == body;
    }

    method LocalReferencedBuiltins(vs: seq<Variable>) returns (bs: seq<Builtin>)
      ensures bs == LocalBuiltins(vs)
    {
      bs := [];
      var k := 0;
      while k < |vs|
        invariant 0 <= k <= |vs| && bs == LocalBuiltins(vs[..k])
      {
        assert vs[..k + 1] == vs[..k] + [vs[k]];
        var ds, d := vs[k].decorations, 0;
        while d < |ds| && !ds[d].BuiltinDeco?
          invariant 0 <= d <= |ds| && FirstBuiltin(ds) == FirstBuiltin(ds[d..])
        {
          d := d + 1;
        }
        if d < |ds| {
          bs := bs + [ds[d].builtin];
        }
        k := k + 1;
      }
      assert vs[..k] == vs;
    }

    /** None is the error that the program has been transformed already. The buffer is created with
        the first function, whether or not it uses an index builtin. */
    method Run(p: Program) returns (r: Option<Program>)
      modifies this
      ensures r == if exists v :: v in p.globals && v.name == labels.buffer then None
                   else Some(Transformed(labels, p, hasVertexIndex, hasInstanceIndex))
      ensures r.Some? ==> hasVertexIndex == (old(hasVertexIndex) || Has(p.globals, VertexIndex))
      ensures r.Some? ==> hasInstanceIndex == (old(hasInstanceIndex) || Has(p.globals, InstanceIndex))
      ensures r.Some? && p.functions != [] && hasVertexIndex ==> vertexIndexOffset == 0
      ensures r.Some? && p.functions != [] && hasInstanceIndex ==> instanceIndexOffset == InstanceOffset(hasVertexIndex)
    {
      var applied := AlreadyApplied(p);
      if applied {
        return None;
      }
      var globals, vertexName, instanceName := CloneVariables(p.globals);
      var buffer, functions := CloneFunctions(p.functions, vertexName, instanceName, p.globals);
      if buffer.Some? {
        globals := globals + [buffer.value];
      } else {
        assert globals == globals + [];
      }
      return Some(Program(globals, functions));
    }

    method CloneFunctions(fs: seq<Function>, vertexName: string, instanceName: string, ghost globals: seq<Variable>)
      returns (buffer: Option<Variable>, rs: seq<Function>)
      requires vertexName == LastNamed(globals, VertexIndex) && instanceName == LastNamed(globals, InstanceIndex)
      modifies this`vertexIndexOffset, this`instanceIndexOffset
      ensures rs == NewFunctions(labels, globals, fs)
      ensures buffer == if fs == [] then None else Some(Buffer(labels, hasVertexIndex, hasInstanceIndex))
      ensures fs != [] && hasVertexIndex ==> vertexIndexOffset == 0
      ensures fs != [] && hasInstanceIndex ==> instanceIndexOffset == InstanceOffset(hasVertexIndex)
    {
      rs, buffer := [], None;
      var k := 0;
      while k < |fs|
        invariant 0 <= k <= |fs| && rs == NewFunctions(labels, globals, fs[..k])
        invariant buffer == if k == 0 then None else Some(Buffer(labels, hasVertexIndex, hasInstanceIndex))
        invariant k > 0 && hasVertexIndex ==> vertexIndexOffset == 0
        invariant k > 0 && hasInstanceIndex ==> instanceIndexOffset == InstanceOffset(hasVertexIndex)
      {
        if buffer.None? {
          var added := AddUniformBuffer();
          buffer := Some(added);
        }
        var f := CloneFunction(fs[k], vertexName, instanceName, globals);
        rs := rs + [f];
        assert fs[..k + 1] == fs[..k] + [fs[k]];
        k := k + 1;
      }
      assert fs[..k] == fs;
    }

    method AlreadyApplied(p: Program) returns (applied: bool)
      ensures applied <==> exists v :: v in p.globals && v.name == labels.buffer
    {
      var k := 0;
      while k < |p.globals|
        invariant 0 <= k <= |p.globals| && forall j | 0 <= j < k :: p.globals[j].name != labels.buffer
      {
        if p.globals[k].name == labels.buffer {
          return true;
        }
        k := k + 1;
      }
      return false;
    }
  }
}
