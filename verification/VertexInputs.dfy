/** The program after vertex pulling, in the terms of whoever draws: each located input gets the bytes that the
    vertex state names for this vertex and instance. */
module VertexInputs {
  import opened Wrappers
  import opened Decimal
  import opened VertexPulling
  import opened VertexReads

  // --- Drawing ---

  /** One run of the vertex stage: the vertex's and the instance's number, and the bytes bound to each
      binding of each group. */
  datatype Draw = Draw(vertex: nat, instance: nat, bound: map<(nat, nat), seq<Byte>>)

  /** A module's input variables that are index builtins hold the numbers, and its storage variables the bytes
      bound where they are declared; all others have some value. */
  ghost predicate Supplies(draw: Draw, field: string, vs: seq<Variable>, buffers: Buffers, vars: Values) {
    && (forall v | v in vs && IsInput(v, VertexIndex) :: HoldsNumber(vars, v.name, draw.vertex))
    && (forall v | v in vs && IsInput(v, InstanceIndex) :: HoldsNumber(vars, v.name, draw.instance))
    && (forall v, b: nat, g: nat | v in vs && v.storage.Storage? && Binding(b) in v.decorations && Group(g) in v.decorations &&
          (g, b) in draw.bound :: (v.name, field) in buffers && buffers[(v.name, field)] == draw.bound[(g, b)])
    && forall v | v in vs && !v.storage.Storage? :: v.name in vars
  }

  ghost predicate HoldsNumber(vars: Values, name: string, n: nat) {
    name in vars && vars[name].Word? && vars[name].bits == n
  }

  /** The input variable v is at a location: its first location decoration says which. */
  ghost predicate Located(v: Variable, location: nat) {
    v.storage.Input? && exists d :: 0 <= d < |v.decorations| && FirstLocation(v.decorations, d, location)
  }

  ghost predicate FirstLocation(ds: seq<Decoration>, d: nat, location: nat)
    requires d < |ds|
  {
    ds[d] == Location(location) && forall e | 0 <= e < d :: !ds[e].Location?
  }

  /** The last variable at a location gets its attributes. */
  ghost predicate Owner(vs: seq<Variable>, j: nat, location: nat) {
    j < |vs| && Located(vs[j], location) && forall m | j < m < |vs| :: !Located(vs[m], location)
  }

  ghost predicate AttributeFor(layouts: seq<Layout>, i: nat, a: nat, location: nat) {
    i < |layouts| && a < |layouts[i].attributes| && layouts[i].attributes[a].location == location
  }

  /** The last attribute for a location. */
  ghost predicate LastAttribute(layouts: seq<Layout>, i: nat, a: nat, location: nat) {
    AttributeFor(layouts, i, a, location) &&
    forall n: nat, b: nat | AttributeFor(layouts, n, b, location) :: n < i || (n == i && b <= a)
  }

  /** Where this vertex's or instance's attribute starts. */
  function Start(draw: Draw, layout: Layout, a: Attribute): nat {
    (match layout.step case PerVertex => draw.vertex case PerInstance => draw.instance) * layout.stride + a.offset
  }

  /** The bytes a format takes, or 0 if it is not supported. */
  function Size(f: Format): nat {
    match f
    case FormatU32 => 4
    case FormatI32 => 4
    case FormatF32 => 4
    case FormatVec2F32 => 8
    case FormatVec3F32 => 12
    case FormatVec4F32 => 16
    case Unsupported(_) => 0
  }

  ghost predicate InBounds(bytes: seq<Byte>, at: nat, f: Format) {
    Size(f) > 0 && at % 4 == 0 && at + Size(f) <= |bytes| && at + Size(f) <= 0x8000_0000
  }

  /** The value that a format gives the bytes from a position on. */
  function ReadAs(f: Format, bytes: seq<Byte>, at: nat): Value
    requires Size(f) > 0 && at + Size(f) <= |bytes|
  {
    match f
    case FormatU32 => Word(U32, Decode(bytes, at))
    case FormatI32 => Word(I32, Decode(bytes, at))
    case FormatF32 => Word(F32, Decode(bytes, at))
    case FormatVec2F32 => Vector(F32, [Decode(bytes, at), Decode(bytes, at + 4)])
    case FormatVec3F32 => Vector(F32, [Decode(bytes, at), Decode(bytes, at + 4), Decode(bytes, at + 8)])
    case FormatVec4F32 =>
      Vector(F32, [Decode(bytes, at), Decode(bytes, at + 4), Decode(bytes, at + 8), Decode(bytes, at + 12)])
  }

  /** Every buffer is bound, and every attribute for the location of some variable lies inside its own. */
  ghost predicate Drawable(draw: Draw, layouts: seq<Layout>, group: nat, vs: seq<Variable>) {
    && (forall i: nat | i < |layouts| :: (group, i) in draw.bound)
    && forall i: nat, a: nat, v, location: nat | AttributeFor(layouts, i, a, location) && v in vs && Located(v, location) ::
         AttributeInBounds(draw, layouts, group, i, a)
  }

  ghost predicate AttributeInBounds(draw: Draw, layouts: seq<Layout>, group: nat, i: nat, a: nat) {
    && i < |layouts| && a < |layouts[i].attributes| && (group, i) in draw.bound
    && InBounds(draw.bound[(group, i)], Start(draw, layouts[i], layouts[i].attributes[a]), layouts[i].attributes[a].format)
  }

  ghost predicate NamesApart(vs: seq<Variable>) {
    forall u, v | u in vs && v in vs && u.name == v.name :: u == v
  }

  /** Module variables have names of their own, before the pass and after it, none of them the position
      variable's; and no index builtin has a location. */
  ghost predicate Ordinary(l: Labels, p: Program, q: Program) {
    && NamesApart(p.globals) && NamesApart(q.globals)
    && (forall v | v in q.globals :: v.name != l.pos)
    && forall v, location: nat | v in p.globals && (IsInput(v, VertexIndex) || IsInput(v, InstanceIndex)) :: !Located(v, location)
  }

  /** The names that the pass makes up for a program with these buffers. */
  ghost predicate MadeUp(l: Labels, n: nat, name: string) {
    name == l.pos || name == l.vertexIndex || name == l.instanceIndex || exists i: nat :: i < n && name == BufferName(l, i)
  }

  ghost predicate LabelsApart(l: Labels) {
    && l.pos != l.vertexIndex && l.pos != l.instanceIndex && l.vertexIndex != l.instanceIndex
    && !(l.bufferPrefix <= l.pos) && !(l.bufferPrefix <= l.vertexIndex) && !(l.bufferPrefix <= l.instanceIndex)
  }

  lemma PullingApart()
    ensures LabelsApart(PULLING)
  {
    var l := PULLING;
    assert l.pos[14] != l.vertexIndex[14] && l.pos[14] != l.instanceIndex[14] && l.vertexIndex[14] != l.instanceIndex[14];
    assert l.bufferPrefix[14] != l.pos[14] && l.bufferPrefix[14] != l.instanceIndex[14] && l.bufferPrefix[21] != l.vertexIndex[21];
  }

  /** A program that does not use the made-up names stays ordinary. */
  lemma OrdinaryResult(l: Labels, layouts: seq<Layout>, group: nat, k: nat, p: Program)
    requires k < |p.functions| && LabelsApart(l) && NamesApart(p.globals)
    requires forall v | v in p.globals :: !MadeUp(l, |layouts|, v.name)
    requires forall v, location: nat | v in p.globals && (IsInput(v, VertexIndex) || IsInput(v, InstanceIndex)) :: !Located(v, location)
    ensures Ordinary(l, p, Pulled(l, layouts, group, k, p))
  {
    var q := Pulled(l, layouts, group, k, p);
    var added := InsertedIndex(l, layouts, p.globals, PerVertex) + InsertedIndex(l, layouts, p.globals, PerInstance) +
      BufferVariables(l, |layouts|, group);
    assert forall v :: v in q.globals <==> v in added || v in ConvertedAll(p.globals);
    AddedApart(l, layouts, group, p.globals);
    ConvertedApart(l, |layouts|, p.globals);
  }

  /** The variables the pass adds. */
  lemma AddedApart(l: Labels, layouts: seq<Layout>, group: nat, vs: seq<Variable>)
    requires LabelsApart(l)
    ensures
      var added := InsertedIndex(l, layouts, vs, PerVertex) + InsertedIndex(l, layouts, vs, PerInstance) +
        BufferVariables(l, |layouts|, group);
      NamesApart(added) && forall v | v in added :: MadeUp(l, |layouts|, v.name) && v.name != l.pos
  {
    var indices, own := InsertedIndex(l, layouts, vs, PerVertex) + InsertedIndex(l, layouts, vs, PerInstance),
      BufferVariables(l, |layouts|, group);
    assert forall v | v in indices :: v == IndexVariable(l, PerVertex) || v == IndexVariable(l, PerInstance);
    forall u: Variable, v: Variable | u in indices + own && v in indices + own && u.name == v.name
      ensures u == v
    {
      if u in own {
        BuffersApart(l, |layouts|, group, u, v);
      } else if v in own {
        BuffersApart(l, |layouts|, group, v, u);
      }
    }
    forall v | v in own
      ensures MadeUp(l, |layouts|, v.name) && v.name != l.pos
    {
      BuffersApart(l, |layouts|, group, v, v);
    }
  }

  /** The program's own. */
  lemma ConvertedApart(l: Labels, n: nat, vs: seq<Variable>)
    requires NamesApart(vs) && forall v | v in vs :: !MadeUp(l, n, v.name)
    ensures NamesApart(ConvertedAll(vs)) && forall v | v in ConvertedAll(vs) :: !MadeUp(l, n, v.name)
  {
    ConvertedFrom(vs);
    forall u | u in ConvertedAll(vs)
      ensures exists v :: v in vs && u == Converted(v) && u.name == v.name
    {
      var v :| v in vs && u == Converted(v);
      assert u.name == v.name;
    }
  }

  lemma {:induction false} ConvertedFrom(vs: seq<Variable>)
    ensures forall u | u in ConvertedAll(vs) :: exists v :: v in vs && u == Converted(v)
  {
    if vs != [] {
      ConvertedFrom(vs[..|vs| - 1]);
      assert vs == vs[..|vs| - 1] + [vs[|vs| - 1]];
    }
  }

  lemma {:induction false} BuffersFrom(l: Labels, n: nat, group: nat)
    ensures forall u | u in BufferVariables(l, n, group) ::
      exists i: nat :: i < n && u == Variable(BufferName(l, i), Storage, BUFFER_TYPE, [Binding(i), Group(group)])
  {
    if n > 0 {
      BuffersFrom(l, n - 1, group);
    }
  }

  /** A buffer's name is no other buffer's, and begins as no other made-up name does. */
  lemma BuffersApart(l: Labels, n: nat, group: nat, u: Variable, v: Variable)
    requires u in BufferVariables(l, n, group) && u.name == v.name
    ensures MadeUp(l, n, v.name) && l.bufferPrefix <= v.name
    ensures v in BufferVariables(l, n, group) ==> u == v
  {
    BuffersFrom(l, n, group);
    var i: nat :| i < n && u == Variable(BufferName(l, i), Storage, BUFFER_TYPE, [Binding(i), Group(group)]);
    assert BufferName(l, i)[|l.bufferPrefix|..] == ToString(i);
    if v in BufferVariables(l, n, group) {
      var j: nat :| j < n && v == Variable(BufferName(l, j), Storage, BUFFER_TYPE, [Binding(j), Group(group)]);
      assert BufferName(l, j)[|l.bufferPrefix|..] == ToString(j);
      RoundTrip(i);
      RoundTrip(j);
    }
  }

  /** Nothing is two builtins at once, and bindings and groups are given once. */
  ghost predicate PlainDecorations(vs: seq<Variable>) {
    && (forall v | v in vs :: !(IsInput(v, VertexIndex) && IsInput(v, InstanceIndex)))
    && forall v, b: nat, c: nat | v in vs ::
         && (Binding(b) in v.decorations && Binding(c) in v.decorations ==> b == c)
         && (Group(b) in v.decorations && Group(c) in v.decorations ==> b == c)
  }

  ghost predicate BoundTo(draw: Draw, v: Variable, b: nat, g: nat) {
    Binding(b) in v.decorations && Group(g) in v.decorations && (g, b) in draw.bound
  }

  ghost function BytesFor(draw: Draw, v: Variable): seq<Byte> {
    if exists b: nat, g: nat :: BoundTo(draw, v, b, g) then
      var b: nat, g: nat :| BoundTo(draw, v, b, g);
      draw.bound[(g, b)]
    else []
  }

  lemma BytesAre(draw: Draw, vs: seq<Variable>, v: Variable, b: nat, g: nat)
    requires PlainDecorations(vs) && v in vs && BoundTo(draw, v, b, g)
    ensures BytesFor(draw, v) == draw.bound[(g, b)]
  {
  }

  function Numbered(draw: Draw, v: Variable): Value {
    Word(U32, if IsInput(v, VertexIndex) then draw.vertex else draw.instance)
  }

  /** Such a module can be supplied for every draw. */
  lemma SomeMachine(draw: Draw, field: string, vs: seq<Variable>) returns (buffers: Buffers, vars: Values)
    requires NamesApart(vs) && PlainDecorations(vs)
    ensures Supplies(draw, field, vs, buffers, vars)
  {
    buffers := map v | v in vs && v.storage.Storage? :: (v.name, field) := BytesFor(draw, v);
    vars := map v | v in vs :: v.name := Numbered(draw, v);
    assert forall v | v in vs :: v.name in vars && vars[v.name] == Numbered(draw, v);
    forall v, b: nat, g: nat | v in vs && v.storage.Storage? && Binding(b) in v.decorations && Group(g) in v.decorations && (g, b) in draw.bound
      ensures (v.name, field) in buffers && buffers[(v.name, field)] == draw.bound[(g, b)]
    {
      BytesAre(draw, vs, v, b, g);
    }
  }

  // --- Locations ---

  lemma {:induction false} LocationInIs(ds: seq<Decoration>, location: nat)
    ensures LocationIn(ds) == Some(location) <==> exists d :: 0 <= d < |ds| && FirstLocation(ds, d, location)
  {
    if ds != [] {
      LocationInIs(ds[1..], location);
      if ds[0].Location? {
        assert ds[0] == Location(location) ==> FirstLocation(ds, 0, location);
      } else {
        LaterLocation(ds, location);
      }
    }
  }

  lemma LaterLocation(ds: seq<Decoration>, location: nat)
    requires ds != [] && !ds[0].Location?
    ensures (exists d :: 0 <= d < |ds| && FirstLocation(ds, d, location)) <==>
      exists d :: 0 <= d < |ds[1..]| && FirstLocation(ds[1..], d, location)
  {
    forall d | 0 < d < |ds|
      ensures FirstLocation(ds, d, location) <==> FirstLocation(ds[1..], d - 1, location)
    {
      assert forall e | 0 <= e < d - 1 :: ds[1..][e] == ds[e + 1];
      assert forall e | 0 < e < d :: ds[e] == ds[1..][e - 1];
    }
    if d :| 0 <= d < |ds[1..]| && FirstLocation(ds[1..], d, location) {
      assert FirstLocation(ds, d + 1, location);
    }
  }

  lemma LocatedIs(v: Variable, location: nat)
    ensures Located(v, location) <==> LocationOf(v) == Some(location)
  {
    LocationInIs(v.decorations, location);
  }

  lemma OwnerEarlier(vs: seq<Variable>, j: nat, location: nat)
    requires vs != [] && !Located(vs[|vs| - 1], location)
    ensures Owner(vs, j, location) <==> Owner(vs[..|vs| - 1], j, location)
  {
    var n := |vs| - 1;
    if Owner(vs[..n], j, location) {
      forall m | j < m < |vs|
        ensures !Located(vs[m], location)
      {
        assert m < n ==> vs[m] == vs[..n][m];
      }
    }
    if Owner(vs, j, location) {
      assert forall m | 0 <= m < n :: vs[..n][m] == vs[m];
    }
  }

  lemma {:induction false} LocationMapOwned(vs: seq<Variable>, location: nat) returns (j: nat)
    requires location in LocationMap(vs)
    ensures Owner(vs, j, location) && LocationMap(vs)[location] == vs[j].name
  {
    var n := |vs| - 1;
    LocatedIs(vs[n], location);
    if Located(vs[n], location) {
      j := n;
    } else {
      j := LocationMapOwned(vs[..n], location);
      OwnerEarlier(vs, j, location);
    }
  }

  lemma {:induction false} OwnerMapped(vs: seq<Variable>, j: nat, location: nat)
    requires Owner(vs, j, location)
    ensures location in LocationMap(vs) && LocationMap(vs)[location] == vs[j].name
  {
    var n := |vs| - 1;
    LocatedIs(vs[n], location);
    if !Located(vs[n], location) {
      OwnerEarlier(vs, j, location);
      OwnerMapped(vs[..n], j, location);
    }
  }

  // --- Attributes ---

  lemma {:induction false} LastPullConcat(a: seq<Pull>, b: seq<Pull>, location: nat)
    ensures LastPull(a + b, location) == if LastPull(b, location).Some? then LastPull(b, location) else LastPull(a, location)
    decreases |b|
  {
    if b == [] {
      assert a + b == a;
    } else {
      assert (a + b)[..|a + b| - 1] == a + b[..|b| - 1];
      LastPullConcat(a, b[..|b| - 1], location);
    }
  }

  lemma {:induction false} LastOfBuffer(i: nat, layout: Layout, attributes: seq<Attribute>, location: nat) returns (a: Option<nat>)
    ensures a.None? ==> LastPull(PullsOf(i, layout, attributes), location) == None
    ensures a.None? ==> forall b | 0 <= b < |attributes| :: attributes[b].location != location
    ensures a.Some? ==> a.value < |attributes| && attributes[a.value].location == location
    ensures a.Some? ==> LastPull(PullsOf(i, layout, attributes), location) == Some(Pull(i, layout, attributes[a.value]))
    ensures a.Some? ==> forall b | a.value < b < |attributes| :: attributes[b].location != location
  {
    a := None;
    if attributes != [] {
      var n := |attributes| - 1;
      var all := PullsOf(i, layout, attributes);
      assert all[..|all| - 1] == PullsOf(i, layout, attributes[..n]) && all[|all| - 1] == Pull(i, layout, attributes[n]);
      if attributes[n].location == location {
        a := Some(n);
      } else {
        a := LastOfBuffer(i, layout, attributes[..n], location);
        assert forall b | 0 <= b < n :: attributes[..n][b] == attributes[b];
      }
    }
  }

  /** The last pull for a location is that of the last attribute for it. */
  lemma {:induction false} LastOfAll(layouts: seq<Layout>, location: nat) returns (i: nat, a: Option<nat>)
    ensures a.None? ==> LastPull(Pulls(layouts), location) == None
    ensures a.None? ==> forall n: nat, b: nat :: !AttributeFor(layouts, n, b, location)
    ensures a.Some? ==> LastAttribute(layouts, i, a.value, location)
    ensures a.Some? ==> LastPull(Pulls(layouts), location) == Some(Pull(i, layouts[i], layouts[i].attributes[a.value]))
  {
    i, a := 0, None;
    if layouts != [] {
      var n := |layouts| - 1;
      LastPullConcat(Pulls(layouts[..n]), PullsOf(n, layouts[n], layouts[n].attributes), location);
      i := n;
      a := LastOfBuffer(n, layouts[n], layouts[n].attributes, location);
      if a.None? {
        i, a := LastOfAll(layouts[..n], location);
        assert forall m: nat, b: nat ::
          AttributeFor(layouts, m, b, location) <==> AttributeFor(layouts[..n], m, b, location);
      }
    }
  }

  /** The pulls are the attributes, buffer by buffer. */
  lemma {:induction false} PullOrigin(layouts: seq<Layout>, k: nat) returns (i: nat, a: nat)
    requires k < |Pulls(layouts)|
    ensures i < |layouts| && a < |layouts[i].attributes| && Pulls(layouts)[k] == Pull(i, layouts[i], layouts[i].attributes[a])
  {
    var n := |layouts| - 1;
    var before, own := Pulls(layouts[..n]), PullsOf(n, layouts[n], layouts[n].attributes);
    assert Pulls(layouts) == before + own;
    if k < |before| {
      i, a := PullOrigin(layouts[..n], k);
    } else {
      i := n;
      a := PullOriginIn(n, layouts[n], layouts[n].attributes, k - |before|);
    }
  }

  lemma {:induction false} PullOriginIn(i: nat, layout: Layout, attributes: seq<Attribute>, k: nat) returns (a: nat)
    requires k < |PullsOf(i, layout, attributes)|
    ensures a < |attributes| && PullsOf(i, layout, attributes)[k] == Pull(i, layout, attributes[a])
  {
    var n := |attributes| - 1;
    var before := PullsOf(i, layout, attributes[..n]);
    assert PullsOf(i, layout, attributes) == before + [Pull(i, layout, attributes[n])];
    a := n;
    if k < |before| {
      a := PullOriginIn(i, layout, attributes[..n], k);
    }
  }

  // --- Bytes ---

  lemma ReadAsDecoded(bytes: seq<Byte>, at: nat, f: Format)
    requires InBounds(bytes, at, f)
    ensures FitsAt(bytes, at, f) && Decoded(bytes, at, f) == ReadAs(f, bytes, at)
  {
    var d := Decode(bytes, at);
    assert DecodedWords(bytes, at, 1) == [d] by {
      assert DecodedWords(bytes, at, 0) == [];
    }
    if Count(f) > 1 {
      assert DecodedWords(bytes, at, 2) == [d] + [Decode(bytes, at + 4)] == [d, Decode(bytes, at + 4)];
    }
    if Count(f) > 2 {
      assert DecodedWords(bytes, at, 3) == [d, Decode(bytes, at + 4)] + [Decode(bytes, at + 8)];
    }
    if Count(f) > 3 {
      assert DecodedWords(bytes, at, 4) == DecodedWords(bytes, at, 3) + [Decode(bytes, at + 12)];
    }
  }

  // --- The result's own variables ---

  lemma {:induction false} ConvertedIn(vs: seq<Variable>)
    ensures forall v | v in vs :: Converted(v) in ConvertedAll(vs)
  {
    if vs != [] {
      ConvertedIn(vs[..|vs| - 1]);
      assert vs == vs[..|vs| - 1] + [vs[|vs| - 1]];
    }
  }

  /** The variable that holds buffer i. */
  ghost predicate HoldsBuffer(l: Labels, group: nat, i: nat, v: Variable) {
    v.storage.Storage? && v.name == BufferName(l, i) && Binding(i) in v.decorations && Group(group) in v.decorations
  }

  lemma {:induction false} BufferIn(l: Labels, n: nat, group: nat, i: nat) returns (v: Variable)
    requires i < n
    ensures v in BufferVariables(l, n, group) && HoldsBuffer(l, group, i, v)
  {
    if i < n - 1 {
      v := BufferIn(l, n - 1, group, i);
    } else {
      v := Variable(BufferName(l, i), Storage, BUFFER_TYPE, [Binding(i), Group(group)]);
      assert v.decorations[0] == Binding(i) && v.decorations[1] == Group(group);
    }
  }

  lemma BuffersBound(l: Labels, layouts: seq<Layout>, group: nat, k: nat, p: Program, draw: Draw, buffers: Buffers, vars: Values, i: nat)
    requires k < |p.functions| && i < |layouts| && (group, i) in draw.bound
    requires Supplies(draw, l.field, Pulled(l, layouts, group, k, p).globals, buffers, vars)
    ensures (BufferName(l, i), l.field) in buffers && Bytes(l, buffers, i) == draw.bound[(group, i)]
  {
    var v := BufferIn(l, |layouts|, group, i);
    assert v in Pulled(l, layouts, group, k, p).globals;
  }

  function NumberOf(draw: Draw, step: Step): nat {
    match step case PerVertex => draw.vertex case PerInstance => draw.instance
  }

  /** The index variable of a step that some buffer has holds the number of that step, and has no location. */
  lemma IndexHolds(l: Labels, layouts: seq<Layout>, group: nat, k: nat, p: Program, draw: Draw, buffers: Buffers, vars: Values, i: nat)
    requires k < |p.functions| && i < |layouts| && Ordinary(l, p, Pulled(l, layouts, group, k, p))
    requires Supplies(draw, l.field, Pulled(l, layouts, group, k, p).globals, buffers, vars)
    ensures
      var name := IndexName(l, layouts, p.globals, layouts[i].step);
      HoldsNumber(vars, name, NumberOf(draw, layouts[i].step)) && NotLocated(l, p.globals, name)
  {
    var vs, step, q := p.globals, layouts[i].step, Pulled(l, layouts, group, k, p);
    var b := if step.PerVertex? then VertexIndex else InstanceIndex;
    var name := IndexName(l, layouts, vs, step);
    FindBuiltinIs(vs, b);
    ConvertedIn(vs);
    assert Uses(layouts, step);
    if FindBuiltin(vs, b).Some? {
      var u :| u in vs && IsInput(u, b) && u.name == name;
      LocationNone(p, q, l, u);
      assert Converted(u) == u && u in q.globals;
      assert forall v | v in vs && v.name == name :: v == u;
    } else {
      var u := IndexVariable(l, step);
      assert u in q.globals && u.decorations[0] == BuiltinDeco(b) && IsInput(u, b);
      forall v | v in vs && v.name == name
        ensures LocationOf(v).None?
      {
        assert Converted(v) in q.globals && Converted(v) == u;
      }
    }
  }

  lemma LocationNone(p: Program, q: Program, l: Labels, v: Variable)
    requires Ordinary(l, p, q) && v in p.globals && (IsInput(v, VertexIndex) || IsInput(v, InstanceIndex))
    ensures LocationOf(v).None?
  {
    if LocationOf(v).Some? {
      LocatedIs(v, LocationOf(v).value);
    }
  }

  /** What BlockLoads asks for. */
  lemma BlockReady(l: Labels, layouts: seq<Layout>, group: nat, k: nat, p: Program, draw: Draw, buffers: Buffers, vars: Values)
    requires k < |p.functions| && Ordinary(l, p, Pulled(l, layouts, group, k, p)) && Drawable(draw, layouts, group, p.globals)
    requires Supplies(draw, l.field, Pulled(l, layouts, group, k, p).globals, buffers, vars)
    ensures PlainInputs(l, layouts, p.globals) && Provided(l, layouts, p.globals, buffers, vars)
  {
    var q := Pulled(l, layouts, group, k, p);
    ConvertedIn(p.globals);
    forall v | v in p.globals
      ensures v.name != l.pos && (v.storage.Input? ==> v.name in vars)
    {
      assert Converted(v) in q.globals;
    }
    forall i | 0 <= i < |layouts|
      ensures NotLocated(l, p.globals, IndexName(l, layouts, p.globals, layouts[i].step))
      ensures HoldsNumber(vars, IndexName(l, layouts, p.globals, layouts[i].step), NumberOf(draw, layouts[i].step))
      ensures (BufferName(l, i), l.field) in buffers
    {
      IndexHolds(l, layouts, group, k, p, draw, buffers, vars, i);
      BuffersBound(l, layouts, group, k, p, draw, buffers, vars, i);
    }
  }

  /** An attribute as the preamble sees it. */
  lemma PullSeen(l: Labels, layouts: seq<Layout>, group: nat, k: nat, p: Program, draw: Draw, buffers: Buffers, vars: Values, i: nat, a: nat)
    requires k < |p.functions| && Ordinary(l, p, Pulled(l, layouts, group, k, p)) && Drawable(draw, layouts, group, p.globals)
    requires Supplies(draw, l.field, Pulled(l, layouts, group, k, p).globals, buffers, vars)
    requires i < |layouts| && a < |layouts[i].attributes|
    ensures
      var wiring, pull := WiringOf(l, layouts, p.globals), Pull(i, layouts[i], layouts[i].attributes[a]);
      && At(wiring, vars, pull) == Start(draw, layouts[i], layouts[i].attributes[a])
      && Bytes(l, buffers, i) == draw.bound[(group, i)]
  {
    IndexHolds(l, layouts, group, k, p, draw, buffers, vars, i);
    BuffersBound(l, layouts, group, k, p, draw, buffers, vars, i);
    assert NameFor(WiringOf(l, layouts, p.globals), layouts[i].step) == IndexName(l, layouts, p.globals, layouts[i].step);
  }

  lemma AllInBounds(l: Labels, layouts: seq<Layout>, group: nat, k: nat, p: Program, draw: Draw, buffers: Buffers, vars: Values)
    requires k < |p.functions| && Ordinary(l, p, Pulled(l, layouts, group, k, p)) && Drawable(draw, layouts, group, p.globals)
    requires Supplies(draw, l.field, Pulled(l, layouts, group, k, p).globals, buffers, vars)
    ensures AllFit(l, WiringOf(l, layouts, p.globals), buffers, vars, Pulls(layouts))
  {
    var wiring, pulls := WiringOf(l, layouts, p.globals), Pulls(layouts);
    forall n | 0 <= n < |pulls| && pulls[n].attribute.location in wiring.locations
      ensures Fits(l, wiring, buffers, vars, pulls[n])
    {
      var i, a := PullOrigin(layouts, n);
      AttributeIsIn(draw, layouts, group, p.globals, i, a);
      PullSeen(l, layouts, group, k, p, draw, buffers, vars, i, a);
      var attribute := layouts[i].attributes[a];
      ReadAsDecoded(draw.bound[(group, i)], Start(draw, layouts[i], attribute), attribute.format);
    }
  }

  lemma AttributeIsIn(draw: Draw, layouts: seq<Layout>, group: nat, vs: seq<Variable>, i: nat, a: nat)
    requires Drawable(draw, layouts, group, vs) && i < |layouts| && a < |layouts[i].attributes|
    requires layouts[i].attributes[a].location in LocationMap(vs)
    ensures AttributeInBounds(draw, layouts, group, i, a)
  {
    var location := layouts[i].attributes[a].location;
    var j := LocationMapOwned(vs, location);
    assert AttributeFor(layouts, i, a, location) && vs[j] in vs && Located(vs[j], location);
  }

  // --- The main result ---

  /** The variable at a location holds what the last attribute for it names, or is unchanged if there is none. */
  ghost predicate Loaded(draw: Draw, layouts: seq<Layout>, group: nat, location: nat, x: string, before: Values, after: Values) {
    && x in before && x in after
    && ((forall i: nat, a: nat :: !AttributeFor(layouts, i, a, location)) ==> after[x] == before[x])
    && forall i, a | LastAttribute(layouts, i, a, location) :: LoadedBy(draw, layouts, group, i, a, after[x])
  }

  ghost predicate LoadedBy(draw: Draw, layouts: seq<Layout>, group: nat, i: nat, a: nat, v: Value) {
    AttributeInBounds(draw, layouts, group, i, a) &&
    var attribute := layouts[i].attributes[a];
    v == ReadAs(attribute.format, draw.bound[(group, i)], Start(draw, layouts[i], attribute))
  }

  /** The result's module variables: the program's, with located inputs made private, and otherwise only inputs
      that are index builtins and storage buffers. */
  lemma VariablesKept(l: Labels, layouts: seq<Layout>, group: nat, k: nat, p: Program)
    requires k < |p.functions|
    ensures
      var q := Pulled(l, layouts, group, k, p);
      && (forall v, location: nat | v in p.globals && Located(v, location) :: Variable(v.name, Private, v.ty, []) in q.globals)
      && (forall v | v in p.globals && (forall location: nat :: !Located(v, location)) :: v in q.globals)
      && forall u | u in q.globals ::
           || u in p.globals
           || (exists v, location: nat :: v in p.globals && Located(v, location) && u == Variable(v.name, Private, v.ty, []))
           || IsInput(u, VertexIndex) || IsInput(u, InstanceIndex)
           || exists i: nat :: i < |layouts| && HoldsBuffer(l, group, i, u)
  {
    var q := Pulled(l, layouts, group, k, p);
    ConvertedIn(p.globals);
    ConvertedFrom(p.globals);
    forall v
      ensures LocationOf(v).Some? <==> exists location: nat :: Located(v, location)
    {
      if LocationOf(v).Some? {
        LocatedIs(v, LocationOf(v).value);
      }
      if location: nat :| Located(v, location) {
        LocatedIs(v, location);
      }
    }
    forall u | u in BufferVariables(l, |layouts|, group)
      ensures exists i: nat :: i < |layouts| && HoldsBuffer(l, group, i, u)
    {
      BufferHolds(l, |layouts|, group, u);
    }
    assert BuiltinDeco(VertexIndex) == IndexVariable(l, PerVertex).decorations[0];
    assert BuiltinDeco(InstanceIndex) == IndexVariable(l, PerInstance).decorations[0];
  }

  lemma BufferHolds(l: Labels, n: nat, group: nat, u: Variable)
    requires u in BufferVariables(l, n, group)
    ensures exists i: nat :: i < n && HoldsBuffer(l, group, i, u)
  {
    BuffersFrom(l, n, group);
    var i: nat :| i < n && u == Variable(BufferName(l, i), Storage, BUFFER_TYPE, [Binding(i), Group(group)]);
    assert u.decorations[0] == Binding(i) && u.decorations[1] == Group(group);
    assert HoldsBuffer(l, group, i, u);
  }

  /** The result differs from the program in its entry point, which starts with a block; for every draw the
      block leaves the bytes of the last attribute for each location in the variable there, and all other
      variables as they were. */
  lemma InputsLoaded(l: Labels, layouts: seq<Layout>, group: nat, k: nat, p: Program, draw: Draw, buffers: Buffers, vars: Values)
    requires k < |p.functions| && Ordinary(l, p, Pulled(l, layouts, group, k, p)) && Drawable(draw, layouts, group, p.globals)
    requires Supplies(draw, l.field, Pulled(l, layouts, group, k, p).globals, buffers, vars)
    ensures
      var fs := Pulled(l, layouts, group, k, p).functions;
      && |fs| == |p.functions| && (forall j | 0 <= j < |fs| && j != k :: fs[j] == p.functions[j])
      && |fs[k].body| > 0 && fs[k].body[0].Block? && fs[k] == p.functions[k].(body := [fs[k].body[0]] + p.functions[k].body)
    ensures
      var after := RunBlock(buffers, vars, Pulled(l, layouts, group, k, p).functions[k].body[0].body);
      && after.Some? && after.value.Keys == vars.Keys
      && (forall j: nat, location: nat | Owner(p.globals, j, location) ::
            Loaded(draw, layouts, group, location, p.globals[j].name, vars, after.value))
      && forall x | x in vars && (forall j: nat, location: nat | Owner(p.globals, j, location) :: p.globals[j].name != x) ::
           after.value[x] == vars[x]
  {
    var wiring := WiringOf(l, layouts, p.globals);
    BlockReady(l, layouts, group, k, p, draw, buffers, vars);
    AllInBounds(l, layouts, group, k, p, draw, buffers, vars);
    BlockLoads(l, layouts, group, k, p, buffers, vars);
    var after := RunBlock(buffers, vars, Pulled(l, layouts, group, k, p).functions[k].body[0].body).value;
    forall j: nat, location: nat | Owner(p.globals, j, location)
      ensures Loaded(draw, layouts, group, location, p.globals[j].name, vars, after)
    {
      OwnerMapped(p.globals, j, location);
      LoadedSeen(l, layouts, group, k, p, draw, buffers, vars, after, location, p.globals[j].name);
    }
    forall x | x in vars && forall j: nat, location: nat | Owner(p.globals, j, location) :: p.globals[j].name != x
      ensures after[x] == vars[x]
    {
      if location :| location in wiring.locations && wiring.locations[location] == x {
        var j := LocationMapOwned(p.globals, location);
      }
    }
  }

  lemma LoadedSeen(l: Labels, layouts: seq<Layout>, group: nat, k: nat, p: Program, draw: Draw, buffers: Buffers, vars: Values,
                   after: Values, location: nat, x: string)
    requires k < |p.functions| && Ordinary(l, p, Pulled(l, layouts, group, k, p)) && Drawable(draw, layouts, group, p.globals)
    requires Supplies(draw, l.field, Pulled(l, layouts, group, k, p).globals, buffers, vars)
    requires location in WiringOf(l, layouts, p.globals).locations
    requires LoadedFrom(l, WiringOf(l, layouts, p.globals), buffers, vars, after, LastPull(Pulls(layouts), location), x)
    ensures Loaded(draw, layouts, group, location, x, vars, after)
  {
    var i, a := LastOfAll(layouts, location);
    if a.Some? {
      var attribute := layouts[i].attributes[a.value];
      AttributeIsIn(draw, layouts, group, p.globals, i, a.value);
      PullSeen(l, layouts, group, k, p, draw, buffers, vars, i, a.value);
      ReadAsDecoded(draw.bound[(group, i)], Start(draw, layouts[i], attribute), attribute.format);
      assert LoadedBy(draw, layouts, group, i, a.value, after[x]);
      forall n, b | LastAttribute(layouts, n, b, location)
        ensures n == i && b == a.value
      {
      }
    } else {
      forall n, b
        ensures !LastAttribute(layouts, n, b, location)
      {
      }
    }
  }
}
