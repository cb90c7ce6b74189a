/** What the vertex-pulling preamble does when it runs. */
module VertexReads {
  import opened Wrappers
  import opened Decimal
  import opened VertexPulling

  // --- Running ---

  type Byte = b: nat | b < 256

  datatype Value = Word(ty: Scalar, bits: nat) | Vector(ty: Scalar, words: seq<nat>)

  /** The storage buffers, by buffer and member name. */
  type Buffers = map<(string, string), seq<Byte>>

  type Values = map<string, Value>

  /** The storage buffers, the module variables and the locals. */
  datatype Machine = Machine(buffers: Buffers, vars: Values, locals: Values)

  /** The four bytes at a position, the lowest first. */
  function Decode(bytes: seq<Byte>, at: nat): (bits: nat)
    requires at + 4 <= |bytes|
    ensures bits < 0x1_0000_0000
  {
    var b0, b1, b2, b3 := bytes[at] as nat, bytes[at + 1] as nat, bytes[at + 2] as nat, bytes[at + 3] as nat;
    b0 + 0x100 * b1 + 0x1_0000 * b2 + 0x100_0000 * b3
  }

  function Signed(bits: nat): int {
    if bits < 0x8000_0000 then bits else bits - 0x1_0000_0000
  }

  function Div(a: nat, b: nat): nat
    requires b > 0
  {
    a / b
  }

  function Magnitude(a: int): nat {
    if a >= 0 then a else -a
  }

  /** Division truncates towards zero. */
  function Quotient(a: int, b: int): int
    requires b != 0
  {
    var q: int := Div(Magnitude(a), Magnitude(b));
    if (a >= 0) == (b > 0) then q else -q
  }

  function DivideBits(ty: Scalar, a: nat, b: nat): Option<nat> {
    if ty.I32? then
      if Signed(b) == 0 then None else Some(Wrap(Quotient(Signed(a), Signed(b))))
    else
      if b == 0 then None else Some(Div(a, b))
  }

  function Apply(op: Op, ty: Scalar, a: nat, b: nat): Option<nat> {
    match op
    case Plus => Some(Wrap(a + b))
    case Times => Some(Wrap(a * b))
    case Divide => DivideBits(ty, a, b)
  }

  /** An index has a type: a signed one may be negative, which no element has. */
  function IndexValue(v: Value): Option<nat> {
    if !v.Word? || v.ty.F32? then None
    else if v.ty.U32? then Some(v.bits)
    else if Signed(v.bits) >= 0 then Some(Signed(v.bits))
    else None
  }

  /** None is a failure: a missing name, or an access outside a buffer. The type of an operation is
      that of its left operand. */
  function Eval(m: Machine, e: Expr): Option<Value>
    decreases e, 0
  {
    match e
    case Ident(n) => if n in m.locals then Some(m.locals[n]) else if n in m.vars then Some(m.vars[n]) else None
    case Uint(n) => Some(Word(U32, Wrap(n)))
    case Binary(op, l, r) =>
      var a, b := Eval(m, l), Eval(m, r);
      if a.None? || b.None? || !a.value.Word? || !b.value.Word? then None
      else
        var bits := Apply(op, a.value.ty, a.value.bits, b.value.bits);
        if bits.Some? then Some(Word(a.value.ty, bits.value)) else None
    case Element(buffer, field, index) =>
      var i := Eval(m, index);
      if i.None? || (buffer, field) !in m.buffers then None
      else ElementAt(m.buffers[(buffer, field)], IndexValue(i.value))
    case Bitcast(ty, x) =>
      var v := Eval(m, x);
      if v.Some? && v.value.Word? then Some(Word(ty, v.value.bits)) else None
    case MakeVector(ty, parts) =>
      var words := EvalParts(m, ty, parts);
      if words.Some? then Some(Vector(ty, words.value)) else None
  }

  /** The array is of 32-bit words, with a stride of 4. */
  function ElementAt(bytes: seq<Byte>, i: Option<nat>): Option<Value> {
    if i.Some? && 4 * i.value + 4 <= |bytes| then Some(Word(U32, Decode(bytes, 4 * i.value))) else None
  }

  function EvalParts(m: Machine, ty: Scalar, parts: seq<Expr>): Option<seq<nat>>
    decreases parts, 0
  {
    if parts == [] then Some([])
    else
      var n := |parts| - 1;
      var words, v := EvalParts(m, ty, parts[..n]), Eval(m, parts[n]);
      if words.None? || v.None? || !v.value.Word? || v.value.ty != ty then None else Some(words.value + [v.value.bits])
  }

  /** A local keeps its type, and takes only words. */
  function Exec(m: Machine, s: Stmt): Option<Machine> {
    match s
    case DeclareLocal(n, ty) => Some(m.(locals := m.locals[n := Word(ty, 0)]))
    case Assign(n, rhs) =>
      var v := if rhs.Some? then Eval(m, rhs.value) else None;
      if v.None? then None
      else if n in m.locals then
        if v.value.Word? && m.locals[n].Word? then Some(m.(locals := m.locals[n := Word(m.locals[n].ty, v.value.bits)])) else None
      else if n in m.vars then Some(m.(vars := m.vars[n := v.value]))
      else None
    case Block(_) => None
    case Other(_) => None
  }

  function ExecAll(m: Machine, ss: seq<Stmt>): Option<Machine> {
    if ss == [] then Some(m)
    else
      var mid := ExecAll(m, ss[..|ss| - 1]);
      if mid.None? then None else Exec(mid.value, ss[|ss| - 1])
  }

  /** A block without nested ones, at the start of a function without parameters: what it leaves in the
      module variables. */
  function RunBlock(buffers: Buffers, vars: Values, ss: seq<Stmt>): Option<Values> {
    var m := ExecAll(Machine(buffers, vars, map[]), ss);
    if m.Some? then Some(m.value.vars) else None
  }

  lemma {:induction false} ExecSplit(m: Machine, a: seq<Stmt>, b: seq<Stmt>)
    ensures ExecAll(m, a + b) == if ExecAll(m, a).None? then None else ExecAll(ExecAll(m, a).value, b)
    decreases |b|
  {
    if b == [] {
      assert a + b == a;
    } else {
      assert (a + b)[..|a + b| - 1] == a + b[..|b| - 1];
      ExecSplit(m, a, b[..|b| - 1]);
    }
  }

  lemma ExecOne(m: Machine, s: Stmt)
    ensures ExecAll(m, [s]) == Exec(m, s)
  {
    assert [s][..0] == [];
  }

  // --- What an attribute's access reads ---

  /** The byte position the code computes, from the bits of the index. */
  function Position(index: nat, stride: nat, offset: nat): nat {
    Wrap(Wrap(index * Wrap(stride)) + Wrap(offset))
  }

  /** The index of word i after a position, as the code computes it, if it is not negative. */
  function WordIndex(pos: nat, i: nat): Option<nat> {
    IndexValue(Word(I32, Wrap(Quotient(Signed(Wrap(pos + Wrap(4 * i))), 4))))
  }

  function Count(f: Format): nat {
    match f
    case FormatVec2F32 => 2
    case FormatVec3F32 => 3
    case FormatVec4F32 => 4
    case _ => 1
  }

  function WordsAt(bytes: seq<Byte>, pos: nat, count: nat): Option<seq<nat>> {
    if count == 0 then Some([])
    else
      var words, v := WordsAt(bytes, pos, count - 1), ElementAt(bytes, WordIndex(pos, count - 1));
      if words.None? || v.None? then None else Some(words.value + [v.value.bits])
  }

  /** Words of a format, as a value of the type it gives. */
  function Shaped(f: Format, words: seq<nat>): Value
    requires |words| > 0
  {
    match f
    case FormatU32 => Word(U32, words[0])
    case FormatI32 => Word(I32, words[0])
    case FormatF32 => Word(F32, words[0])
    case _ => Vector(F32, words)
  }

  /** What the access gives. */
  function ValueAt(bytes: seq<Byte>, pos: nat, f: Format): Option<Value> {
    var words := WordsAt(bytes, pos, Count(f));
    if f.Unsupported? || words.None? || words.value == [] then None else Some(Shaped(f, words.value))
  }

  ghost predicate Posed(l: Labels, m: Machine, buffer: nat, pos: nat) {
    && l.pos in m.locals && m.locals[l.pos] == Word(I32, pos) && pos < 0x1_0000_0000
    && (BufferName(l, buffer), l.field) in m.buffers
  }

  function Bytes(l: Labels, buffers: Buffers, buffer: nat): seq<Byte> {
    if (BufferName(l, buffer), l.field) in buffers then buffers[(BufferName(l, buffer), l.field)] else []
  }

  lemma ReadsWord(l: Labels, m: Machine, buffer: nat, pos: nat, at: Expr, i: nat)
    requires Posed(l, m, buffer, pos) && Eval(m, at) == Some(Word(I32, Wrap(pos + Wrap(4 * i))))
    ensures Eval(m, AccessU32(l, buffer, at)) == ElementAt(Bytes(l, m.buffers, buffer), WordIndex(pos, i))
  {
    assert Eval(m, Uint(4)) == Some(Word(U32, 4));
    var q := Binary(Divide, at, Uint(4));
    assert Eval(m, q) == Some(Word(I32, Wrap(Quotient(Signed(Wrap(pos + Wrap(4 * i))), 4))));
  }

  lemma ReadsFirst(l: Labels, m: Machine, buffer: nat, pos: nat)
    requires Posed(l, m, buffer, pos)
    ensures Eval(m, AccessU32(l, buffer, Ident(l.pos))) == ElementAt(Bytes(l, m.buffers, buffer), WordIndex(pos, 0))
  {
    assert Wrap(pos + Wrap(4 * 0)) == pos;
    ReadsWord(l, m, buffer, pos, Ident(l.pos), 0);
  }

  lemma ReadsPart(l: Labels, m: Machine, buffer: nat, pos: nat, i: nat)
    requires Posed(l, m, buffer, pos)
    ensures
      var v := ElementAt(Bytes(l, m.buffers, buffer), WordIndex(pos, i));
      Eval(m, PartAt(l, buffer, 4, i)) == if v.Some? then Some(Word(F32, v.value.bits)) else None
  {
    var at := Binary(Plus, Ident(l.pos), Uint(Wrap(4 * i)));
    assert Eval(m, Uint(Wrap(4 * i))) == Some(Word(U32, Wrap(4 * i)));
    ReadsWord(l, m, buffer, pos, at, i);
  }

  lemma {:induction false} ReadsParts(l: Labels, m: Machine, buffer: nat, pos: nat, count: nat)
    requires Posed(l, m, buffer, pos)
    ensures EvalParts(m, F32, Parts(l, buffer, 4, count)) == WordsAt(Bytes(l, m.buffers, buffer), pos, count)
    ensures |Parts(l, buffer, 4, count)| == count
  {
    if count > 0 {
      ReadsParts(l, m, buffer, pos, count - 1);
      ReadsPart(l, m, buffer, pos, count - 1);
      assert Parts(l, buffer, 4, count)[..count - 1] == Parts(l, buffer, 4, count - 1);
    }
  }

  lemma {:induction false} WordsLength(bytes: seq<Byte>, pos: nat, count: nat)
    ensures WordsAt(bytes, pos, count).Some? ==> |WordsAt(bytes, pos, count).value| == count
  {
    if count > 0 {
      WordsLength(bytes, pos, count - 1);
    }
  }

  /** The generated access reads what ValueAt says, or fails with it. */
  lemma AccessReads(l: Labels, m: Machine, buffer: nat, pos: nat, f: Format)
    requires Posed(l, m, buffer, pos)
    ensures
      var e := AccessByFormat(l, buffer, f);
      (if e.Some? then Eval(m, e.value) else None) == ValueAt(Bytes(l, m.buffers, buffer), pos, f)
  {
    var bytes := Bytes(l, m.buffers, buffer);
    WordsLength(bytes, pos, Count(f));
    if f.FormatVec2F32? || f.FormatVec3F32? || f.FormatVec4F32? {
      ReadsParts(l, m, buffer, pos, Count(f));
    } else if !f.Unsupported? {
      ReadsFirst(l, m, buffer, pos);
      assert WordsAt(bytes, pos, 0) == Some([]);
      var v := ElementAt(bytes, WordIndex(pos, 0));
      assert WordsAt(bytes, pos, 1) == if v.None? then None else Some([] + [v.value.bits]);
    }
  }

  // --- The whole preamble ---

  /** The index that a pull's buffer steps by is a word under a name of its own. */
  ghost predicate Indexed(l: Labels, wiring: Wiring, vars: Values, step: Step) {
    var n := NameFor(wiring, step);
    n != l.pos && n in vars && vars[n].Word? && n !in wiring.locations.Values
  }

  function IndexBits(wiring: Wiring, vars: Values, step: Step): nat {
    var n := NameFor(wiring, step);
    if n in vars && vars[n].Word? then vars[n].bits else 0
  }

  /** The module holds the variables the preamble names, and the position variable hides none of them. */
  ghost predicate Wired(l: Labels, wiring: Wiring, vars: Values) {
    && l.pos !in wiring.locations.Values
    && forall loc | loc in wiring.locations :: wiring.locations[loc] in vars
  }

  ghost predicate Pullable(l: Labels, wiring: Wiring, buffers: Buffers, vars: Values, pull: Pull) {
    Indexed(l, wiring, vars, pull.layout.step) && (BufferName(l, pull.buffer), l.field) in buffers
  }

  /** What an attribute gives its variable. */
  function PullValue(l: Labels, wiring: Wiring, buffers: Buffers, vars: Values, pull: Pull): Option<Value> {
    ValueAt(Bytes(l, buffers, pull.buffer),
            Position(IndexBits(wiring, vars, pull.layout.step), pull.layout.stride, pull.attribute.offset),
            pull.attribute.format)
  }

  /** The variables after some attributes have been read. */
  function AfterPulls(l: Labels, wiring: Wiring, buffers: Buffers, vars: Values, pulls: seq<Pull>): Option<Values> {
    if pulls == [] then Some(vars)
    else
      var before, pull := AfterPulls(l, wiring, buffers, vars, pulls[..|pulls| - 1]), pulls[|pulls| - 1];
      if before.None? || pull.attribute.location !in wiring.locations then before
      else
        var v := PullValue(l, wiring, buffers, vars, pull);
        if v.None? then None else Some(before.value[wiring.locations[pull.attribute.location] := v.value])
  }

  /** The position variable after a pull. */
  lemma PositionRuns(l: Labels, wiring: Wiring, m: Machine, pull: Pull)
    requires Indexed(l, wiring, m.vars, pull.layout.step) && m.locals.Keys == {l.pos}
    ensures Eval(m, PositionOf(wiring, pull)) ==
      Some(Word(m.vars[NameFor(wiring, pull.layout.step)].ty,
                Position(IndexBits(wiring, m.vars, pull.layout.step), pull.layout.stride, pull.attribute.offset)))
  {
    var n := NameFor(wiring, pull.layout.step);
    assert Eval(m, Ident(n)) == Some(m.vars[n]);
    assert Eval(m, Uint(Wrap(pull.layout.stride))) == Some(Word(U32, Wrap(pull.layout.stride)));
    assert Eval(m, Uint(Wrap(pull.attribute.offset))) == Some(Word(U32, Wrap(pull.attribute.offset)));
  }

  /** The statements for one attribute. */
  lemma PullRuns(l: Labels, wiring: Wiring, m: Machine, pull: Pull)
    requires Wired(l, wiring, m.vars) && Pullable(l, wiring, m.buffers, m.vars, pull)
    requires m.locals.Keys == {l.pos} && m.locals[l.pos].Word? && m.locals[l.pos].ty.I32?
    requires pull.attribute.location in wiring.locations
    ensures
      var pos := Position(IndexBits(wiring, m.vars, pull.layout.step), pull.layout.stride, pull.attribute.offset);
      var v := PullValue(l, wiring, m.buffers, m.vars, pull);
      ExecAll(m, EmittedFor(l, wiring, pull)) ==
        if v.None? then None
        else Some(Machine(m.buffers, m.vars[wiring.locations[pull.attribute.location] := v.value], map[l.pos := Word(I32, pos)]))
  {
    var pos := Position(IndexBits(wiring, m.vars, pull.layout.step), pull.layout.stride, pull.attribute.offset);
    var x := wiring.locations[pull.attribute.location];
    var place, load := Assign(l.pos, Some(PositionOf(wiring, pull))), Assign(x, AccessByFormat(l, pull.buffer, pull.attribute.format));
    PositionRuns(l, wiring, m, pull);
    var mid := m.(locals := m.locals[l.pos := Word(I32, pos)]);
    assert Exec(m, place) == Some(mid);
    assert mid.locals == map[l.pos := Word(I32, pos)];
    AccessReads(l, mid, pull.buffer, pos, pull.attribute.format);
    ExecOne(m, place);
    ExecOne(mid, load);
    ExecSplit(m, [place], [load]);
    assert EmittedFor(l, wiring, pull) == [place] + [load];
  }

  /** Reading attributes leaves the variables of no location as they were, and loses none. */
  lemma {:induction false} OthersUnchanged(l: Labels, wiring: Wiring, buffers: Buffers, vars: Values, pulls: seq<Pull>)
    requires Wired(l, wiring, vars) && AfterPulls(l, wiring, buffers, vars, pulls).Some?
    ensures AfterPulls(l, wiring, buffers, vars, pulls).value.Keys == vars.Keys
    ensures forall x | x in vars && x !in wiring.locations.Values :: AfterPulls(l, wiring, buffers, vars, pulls).value[x] == vars[x]
  {
    if pulls != [] {
      OthersUnchanged(l, wiring, buffers, vars, pulls[..|pulls| - 1]);
      var loc := pulls[|pulls| - 1].attribute.location;
      assert loc in wiring.locations ==> wiring.locations[loc] in wiring.locations.Values;
    }
  }

  ghost predicate AllPullable(l: Labels, wiring: Wiring, buffers: Buffers, vars: Values, pulls: seq<Pull>) {
    forall k | 0 <= k < |pulls| :: Pullable(l, wiring, buffers, vars, pulls[k])
  }

  lemma {:induction false} PullsRun(l: Labels, wiring: Wiring, buffers: Buffers, vars: Values, pulls: seq<Pull>) returns (pos: nat)
    requires Wired(l, wiring, vars) && AllPullable(l, wiring, buffers, vars, pulls)
    ensures
      var after := AfterPulls(l, wiring, buffers, vars, pulls);
      ExecAll(Machine(buffers, vars, map[l.pos := Word(I32, 0)]), Emitted(l, wiring, pulls)) ==
        if after.None? then None else Some(Machine(buffers, after.value, map[l.pos := Word(I32, pos)]))
  {
    pos := 0;
    if pulls != [] {
      var init, pull := pulls[..|pulls| - 1], pulls[|pulls| - 1];
      pos := PullsRun(l, wiring, buffers, vars, init);
      ExecSplit(Machine(buffers, vars, map[l.pos := Word(I32, 0)]), Emitted(l, wiring, init), EmittedFor(l, wiring, pull));
      var before := AfterPulls(l, wiring, buffers, vars, init);
      if before.Some? && pull.attribute.location in wiring.locations {
        OthersUnchanged(l, wiring, buffers, vars, init);
        assert Pullable(l, wiring, buffers, vars, pull);
        SameIndex(l, wiring, buffers, vars, before.value, pull);
        PullRuns(l, wiring, Machine(buffers, before.value, map[l.pos := Word(I32, pos)]), pull);
        pos := Position(IndexBits(wiring, vars, pull.layout.step), pull.layout.stride, pull.attribute.offset);
      }
    }
  }

  lemma SameIndex(l: Labels, wiring: Wiring, buffers: Buffers, vars: Values, later: Values, pull: Pull)
    requires Wired(l, wiring, vars) && Pullable(l, wiring, buffers, vars, pull)
    requires later.Keys == vars.Keys && forall x | x in vars && x !in wiring.locations.Values :: later[x] == vars[x]
    ensures Wired(l, wiring, later) && Pullable(l, wiring, buffers, later, pull)
    ensures IndexBits(wiring, later, pull.layout.step) == IndexBits(wiring, vars, pull.layout.step)
    ensures PullValue(l, wiring, buffers, later, pull) == PullValue(l, wiring, buffers, vars, pull)
  {
  }

  /** Running the preamble block does to the module variables what reading the attributes in order
      does, and fails when one of them cannot be read. */
  lemma PreambleRuns(l: Labels, wiring: Wiring, buffers: Buffers, vars: Values, layouts: seq<Layout>)
    requires Wired(l, wiring, vars) && AllPullable(l, wiring, buffers, vars, Pulls(layouts))
    ensures RunBlock(buffers, vars, Preamble(l, wiring, layouts)) == AfterPulls(l, wiring, buffers, vars, Pulls(layouts))
  {
    var m, decl := Machine(buffers, vars, map[]), DeclareLocal(l.pos, I32);
    ExecOne(m, decl);
    ExecSplit(m, [decl], Emitted(l, wiring, Pulls(layouts)));
    var pos := PullsRun(l, wiring, buffers, vars, Pulls(layouts));
  }

  // --- Which attribute a variable ends up with ---

  /** The last of the pulls that names a location. */
  function LastPull(pulls: seq<Pull>, location: nat): Option<Pull> {
    if pulls == [] then None
    else if pulls[|pulls| - 1].attribute.location == location then Some(pulls[|pulls| - 1])
    else LastPull(pulls[..|pulls| - 1], location)
  }

  ghost predicate OwnVariables(wiring: Wiring) {
    forall a, b | a in wiring.locations && b in wiring.locations && wiring.locations[a] == wiring.locations[b] :: a == b
  }

  lemma {:induction false} LastPullWins(l: Labels, wiring: Wiring, buffers: Buffers, vars: Values, pulls: seq<Pull>, location: nat)
    requires Wired(l, wiring, vars) && OwnVariables(wiring) && location in wiring.locations
    requires AfterPulls(l, wiring, buffers, vars, pulls).Some?
    ensures
      var x, last := wiring.locations[location], LastPull(pulls, location);
      x in AfterPulls(l, wiring, buffers, vars, pulls).value &&
      Some(AfterPulls(l, wiring, buffers, vars, pulls).value[x]) ==
        if last.None? then Some(vars[x]) else PullValue(l, wiring, buffers, vars, last.value)
  {
    if pulls != [] && pulls[|pulls| - 1].attribute.location != location {
      LastPullWins(l, wiring, buffers, vars, pulls[..|pulls| - 1], location);
    }
  }

  /** The preamble runs to its end exactly when every attribute with a variable can be read. */
  lemma {:induction false} RunsIffReadable(l: Labels, wiring: Wiring, buffers: Buffers, vars: Values, pulls: seq<Pull>)
    ensures AfterPulls(l, wiring, buffers, vars, pulls).Some? <==>
      forall k | 0 <= k < |pulls| && pulls[k].attribute.location in wiring.locations ::
        PullValue(l, wiring, buffers, vars, pulls[k]).Some?
  {
    if pulls != [] {
      RunsIffReadable(l, wiring, buffers, vars, pulls[..|pulls| - 1]);
      assert pulls == pulls[..|pulls| - 1] + [pulls[|pulls| - 1]];
    }
  }

  // --- Positions and words ---

  lemma WrapAdds(n: int, k: nat)
    ensures Wrap(n + k * 0x1_0000_0000) == Wrap(n)
  {
  }

  /** Truncating the stride and the offset to 32 bits changes nothing modulo 2^32. */
  lemma PositionWraps(index: nat, stride: nat, offset: nat)
    ensures Position(index, stride, offset) == Wrap(index * stride + offset)
  {
    var q, r := stride / 0x1_0000_0000, Wrap(stride);
    assert stride == r + q * 0x1_0000_0000;
    assert index * stride == index * r + (index * q) * 0x1_0000_0000;
    WrapAdds(index * r, index * q);
    WrapSum(index * stride, offset);
    assert Wrap(index * r) == Wrap(index * stride);
  }

  lemma WrapSum(a: nat, b: nat)
    ensures Wrap(Wrap(a) + Wrap(b)) == Wrap(a + b)
  {
    var qa, qb := a / 0x1_0000_0000, b / 0x1_0000_0000;
    assert a + b == Wrap(a) + Wrap(b) + (qa + qb) * 0x1_0000_0000;
    WrapAdds(Wrap(a) + Wrap(b), qa + qb);
  }

  /** A position below 2^31 is divided as a number. */
  lemma WordIndexSmall(pos: nat, i: nat)
    requires pos + 4 * i < 0x8000_0000
    ensures WordIndex(pos, i) == Some(pos / 4 + i)
  {
    assert Wrap(pos + Wrap(4 * i)) == pos + 4 * i;
    assert Quotient(pos + 4 * i, 4) == (pos + 4 * i) / 4 == pos / 4 + i;
  }

  /** The index of part i is that of the word its byte position falls in exactly when the position has
      not reached the sign bit. */
  lemma WordIndexExact(index: nat, stride: nat, offset: nat, at: nat, i: nat)
    requires at == index * stride + offset
    ensures WordIndex(Position(index, stride, offset), i) == Some((at + 4 * i) / 4) <==> at + 4 * i < 0x8000_0000
  {
    PositionWraps(index, stride, offset);
    WordIndexShift(at, i);
    WordIndexOf(at + 4 * i);
  }

  lemma WordIndexOf(byte: nat)
    ensures WordIndex(Wrap(byte), 0) == Some(byte / 4) <==> byte < 0x8000_0000
  {
    var pos := Wrap(byte);
    assert Wrap(pos + Wrap(4 * 0)) == pos;
    if pos < 0x8000_0000 {
      WordIndexSmall(pos, 0);
      assert byte >= 0x8000_0000 ==> byte >= pos + 0x1_0000_0000;
    } else {
      WordIndexLarge(pos);
      assert byte >= pos;
    }
  }

  /** A position with the sign bit set gives no index, or the first word's. */
  lemma WordIndexLarge(pos: nat)
    requires 0x8000_0000 <= pos < 0x1_0000_0000
    ensures WordIndex(pos, 0) == None || WordIndex(pos, 0) == Some(0)
  {
    assert Wrap(pos + Wrap(4 * 0)) == pos;
    var m: int := 0x1_0000_0000 - pos;
    var q: int := m / 4;
    assert Signed(pos) == -m && Magnitude(-m) == m;
    assert Quotient(-m, 4) == -q;
    if q > 0 {
      WrapNegative(q);
    }
  }

  lemma WrapNegative(q: int)
    requires 0 < q <= 0x2000_0000
    ensures Wrap(-q) == 0x1_0000_0000 - q
  {
    WrapAdds(-q, 1);
  }

  function DecodedWords(bytes: seq<Byte>, at: nat, count: nat): (words: seq<nat>)
    requires at + 4 * count <= |bytes|
    ensures |words| == count
  {
    if count == 0 then [] else DecodedWords(bytes, at, count - 1) + [Decode(bytes, at + 4 * (count - 1))]
  }

  lemma {:induction false} WordsDecoded(bytes: seq<Byte>, at: nat, count: nat)
    requires at % 4 == 0 && at + 4 * count <= |bytes| && at + 4 * count <= 0x8000_0000
    ensures WordsAt(bytes, at, count) == Some(DecodedWords(bytes, at, count))
  {
    if count > 0 {
      WordsDecoded(bytes, at, count - 1);
      WordIndexSmall(at, count - 1);
      assert 4 * (at / 4 + (count - 1)) == at + 4 * (count - 1);
    }
  }

  /** The byte position of an attribute. */
  function At(wiring: Wiring, vars: Values, pull: Pull): nat {
    IndexBits(wiring, vars, pull.layout.step) * pull.layout.stride + pull.attribute.offset
  }

  /** An attribute that fits: its format is supported, and its bytes are aligned, inside the buffer and
      below the sign bit. */
  ghost predicate Fits(l: Labels, wiring: Wiring, buffers: Buffers, vars: Values, pull: Pull) {
    FitsAt(Bytes(l, buffers, pull.buffer), At(wiring, vars, pull), pull.attribute.format)
  }

  ghost predicate FitsAt(bytes: seq<Byte>, at: nat, f: Format) {
    !f.Unsupported? && at % 4 == 0 && at + 4 * Count(f) <= |bytes| && at + 4 * Count(f) <= 0x8000_0000
  }

  /** The bytes at a position, word by word, in the shape of a format. */
  function Decoded(bytes: seq<Byte>, at: nat, f: Format): Value
    requires at + 4 * Count(f) <= |bytes|
  {
    Shaped(f, DecodedWords(bytes, at, Count(f)))
  }

  /** An attribute that fits is read from index * stride + offset of its buffer. */
  lemma FittingDecodes(l: Labels, wiring: Wiring, buffers: Buffers, vars: Values, pull: Pull)
    requires Fits(l, wiring, buffers, vars, pull)
    ensures PullValue(l, wiring, buffers, vars, pull) ==
      Some(Decoded(Bytes(l, buffers, pull.buffer), At(wiring, vars, pull), pull.attribute.format))
  {
    var at := At(wiring, vars, pull);
    PositionWraps(IndexBits(wiring, vars, pull.layout.step), pull.layout.stride, pull.attribute.offset);
    assert Wrap(at) == at;
    ValueDecodes(Bytes(l, buffers, pull.buffer), at, pull.attribute.format);
  }

  lemma ValueDecodes(bytes: seq<Byte>, at: nat, f: Format)
    requires FitsAt(bytes, at, f)
    ensures ValueAt(bytes, at, f) == Some(Decoded(bytes, at, f))
  {
    WordsDecoded(bytes, at, Count(f));
  }

  // --- Exactly when an attribute is its bytes ---

  /** Every byte is 0 but the one at k, which is 1. */
  function Spike(size: nat, k: nat): (bytes: seq<Byte>)
    ensures |bytes| == size && forall i | 0 <= i < size :: bytes[i] == if i == k then 1 else 0
  {
    seq(size, i => if i == k then 1 else 0)
  }

  /** Reading another word than the one at a position shows in some buffer. */
  lemma OtherWordDiffers(size: nat, k: nat, at: nat)
    requires at + 4 <= size && 4 * k != at
    ensures ElementAt(Spike(size, 4 * k), Some(k)) != Some(Word(U32, Decode(Spike(size, 4 * k), at)))
  {
    var bytes := Spike(size, 4 * k);
    if 4 * k + 4 <= size {
      assert Decode(bytes, 4 * k) == 1;
      assert bytes[at] == 0;
    }
  }

  /** In every buffer that is long enough, an element is the four bytes at a position. */
  ghost predicate WordReads(byte: nat, w: Option<nat>) {
    forall bytes: seq<Byte> | |bytes| >= byte + 4 :: ElementAt(bytes, w) == Some(Word(U32, Decode(bytes, byte)))
  }

  lemma WordReadsExactly(byte: nat, w: Option<nat>)
    ensures WordReads(byte, w) <==> w.Some? && 4 * w.value == byte
  {
    if w.Some? && 4 * w.value != byte {
      OtherWordDiffers(byte + 4, w.value, byte);
      assert |Spike(byte + 4, 4 * w.value)| >= byte + 4;
    } else if w.None? {
      assert ElementAt(Spike(byte + 4, 0), w) == None;
    }
  }

  lemma RightWord(byte: nat, w: Option<nat>)
    requires w == Some(byte / 4) <==> byte < 0x8000_0000
    ensures w.Some? && 4 * w.value == byte <==> byte % 4 == 0 && byte < 0x8000_0000
  {
    if w.Some? && 4 * w.value == byte {
      assert byte / 4 == w.value;
    }
    assert byte == 4 * (byte / 4) + byte % 4;
  }

  /** The word the code reads for part i is the four bytes at the part's position, in every buffer, exactly
      when the position is aligned and has not reached the sign bit. */
  lemma AlignmentNeeded(at: nat, i: nat)
    ensures WordReads(at + 4 * i, WordIndex(Wrap(at), i)) <==> at % 4 == 0 && at + 4 * i < 0x8000_0000
  {
    WordIndexShift(at, i);
    WordIndexOf(at + 4 * i);
    AlignmentOf(at + 4 * i, WordIndex(Wrap(at), i));
    ModFour(at, i);
  }

  lemma AlignmentOf(byte: nat, w: Option<nat>)
    requires w == Some(byte / 4) <==> byte < 0x8000_0000
    ensures WordReads(byte, w) <==> byte % 4 == 0 && byte < 0x8000_0000
  {
    WordReadsExactly(byte, w);
    RightWord(byte, w);
  }

  lemma ModFour(at: nat, i: nat)
    ensures (at + 4 * i) % 4 == at % 4
  {
  }

  /** Each part of a value that is decoded is the word at its own position. */
  lemma {:induction false} DecodedPart(bytes: seq<Byte>, pos: nat, at: nat, count: nat, i: nat)
    requires at + 4 * count <= |bytes| && i < count && WordsAt(bytes, pos, count) == Some(DecodedWords(bytes, at, count))
    ensures ElementAt(bytes, WordIndex(pos, i)) == Some(Word(U32, Decode(bytes, at + 4 * i)))
  {
    var n := count - 1;
    var words, v := WordsAt(bytes, pos, n), ElementAt(bytes, WordIndex(pos, n));
    WordsLength(bytes, pos, n);
    assert words.value + [v.value.bits] == DecodedWords(bytes, at, n) + [Decode(bytes, at + 4 * n)];
    assert (words.value + [v.value.bits])[n] == v.value.bits;
    if i < n {
      assert (words.value + [v.value.bits])[..n] == words.value;
      assert (DecodedWords(bytes, at, n) + [Decode(bytes, at + 4 * n)])[..n] == DecodedWords(bytes, at, n);
      DecodedPart(bytes, pos, at, n, i);
    }
  }

  lemma ShapedApart(f: Format, a: seq<nat>, b: seq<nat>)
    requires !f.Unsupported? && |a| == |b| == Count(f) && Shaped(f, a) == Shaped(f, b)
    ensures a == b
  {
  }

  lemma ValueParts(bytes: seq<Byte>, pos: nat, at: nat, f: Format)
    requires !f.Unsupported? && at + 4 * Count(f) <= |bytes| && ValueAt(bytes, pos, f) == Some(Decoded(bytes, at, f))
    ensures WordsAt(bytes, pos, Count(f)) == Some(DecodedWords(bytes, at, Count(f)))
  {
    WordsLength(bytes, pos, Count(f));
    ShapedApart(f, WordsAt(bytes, pos, Count(f)).value, DecodedWords(bytes, at, Count(f)));
  }

  /** In every buffer that is long enough, the access reads the bytes at a position. */
  ghost predicate ReadsBytes(pos: nat, at: nat, f: Format) {
    forall bytes: seq<Byte> | |bytes| >= at + 4 * Count(f) + 4 :: ValueAt(bytes, pos, f) == Some(Decoded(bytes, at, f))
  }

  /** Then the index of each part is that of the word there. */
  lemma ReadsBytesIndex(pos: nat, at: nat, f: Format, i: nat)
    requires !f.Unsupported? && ReadsBytes(pos, at, f) && i < Count(f)
    ensures WordIndex(pos, i).Some? && 4 * WordIndex(pos, i).value == at + 4 * i
  {
    var size, w := at + 4 * Count(f) + 4, WordIndex(pos, i);
    if w.Some? && 4 * w.value != at + 4 * i {
      OtherWordDiffers(size, w.value, at + 4 * i);
    }
    var bytes := Spike(size, if w.Some? then 4 * w.value else 0);
    ReadsOne(pos, at, f, i, bytes);
  }

  lemma ReadsOne(pos: nat, at: nat, f: Format, i: nat, bytes: seq<Byte>)
    requires !f.Unsupported? && ReadsBytes(pos, at, f) && i < Count(f) && |bytes| >= at + 4 * Count(f) + 4
    ensures ElementAt(bytes, WordIndex(pos, i)) == Some(Word(U32, Decode(bytes, at + 4 * i)))
  {
    assert ValueAt(bytes, pos, f) == Some(Decoded(bytes, at, f));
    ValueParts(bytes, pos, at, f);
    DecodedPart(bytes, pos, at, Count(f), i);
  }

  lemma WordIndexShift(at: nat, i: nat)
    ensures WordIndex(Wrap(at), i) == WordIndex(Wrap(at + 4 * i), 0)
  {
    WrapSum(at, 4 * i);
    WrapSum(at + 4 * i, 0);
  }

  /** An attribute at byte position `at` is read from its own bytes, in every buffer, exactly when the
      position is aligned and the attribute ends below the sign bit. */
  lemma ReadsBytesExactly(index: nat, stride: nat, offset: nat, at: nat, f: Format)
    requires !f.Unsupported? && at == index * stride + offset
    ensures ReadsBytes(Position(index, stride, offset), at, f) <==> at % 4 == 0 && at + 4 * Count(f) <= 0x8000_0000
  {
    PositionWraps(index, stride, offset);
    if ReadsBytes(Wrap(at), at, f) {
      ReadsBytesOnlyIf(at, f);
    }
    if at % 4 == 0 && at + 4 * Count(f) <= 0x8000_0000 {
      ReadsBytesIf(at, f);
    }
  }

  lemma ReadsBytesOnlyIf(at: nat, f: Format)
    requires !f.Unsupported? && ReadsBytes(Wrap(at), at, f)
    ensures at % 4 == 0 && at + 4 * Count(f) <= 0x8000_0000
  {
    var last := Count(f) - 1;
    ReadsBytesIndex(Wrap(at), at, f, 0);
    MultipleOfFour(at, WordIndex(Wrap(at), 0).value);
    LastWordOf(at, f, last);
  }

  lemma MultipleOfFour(at: nat, k: nat)
    requires at == 4 * k
    ensures at % 4 == 0
  {
  }

  lemma LastWordOf(at: nat, f: Format, last: nat)
    requires !f.Unsupported? && ReadsBytes(Wrap(at), at, f) && last == Count(f) - 1
    ensures at + 4 * last + 4 <= 0x8000_0000
  {
    ReadsBytesIndex(Wrap(at), at, f, last);
    WordIndexShift(at, last);
    LastWordLow(at + 4 * last, WordIndex(Wrap(at), last).value);
  }

  lemma LastWordLow(byte: nat, w: nat)
    requires WordIndex(Wrap(byte), 0) == Some(w) && 4 * w == byte
    ensures byte + 4 <= 0x8000_0000
  {
    WordIndexOf(byte);
    assert byte / 4 == w;
  }

  lemma ReadsBytesIf(at: nat, f: Format)
    requires !f.Unsupported? && at % 4 == 0 && at + 4 * Count(f) <= 0x8000_0000
    ensures ReadsBytes(Wrap(at), at, f)
  {
    assert Wrap(at) == at;
    forall bytes: seq<Byte> | |bytes| >= at + 4 * Count(f) + 4
      ensures ValueAt(bytes, Wrap(at), f) == Some(Decoded(bytes, at, f))
    {
      ValueDecodes(bytes, at, f);
    }
  }

  // --- The program after the pass ---

  lemma {:induction false} LocationNames(vs: seq<Variable>)
    ensures forall loc | loc in LocationMap(vs) ::
      exists v :: v in vs && LocationOf(v) == Some(loc) && v.name == LocationMap(vs)[loc]
  {
    if vs != [] {
      LocationNames(vs[..|vs| - 1]);
      assert vs == vs[..|vs| - 1] + [vs[|vs| - 1]];
    }
  }

  lemma {:induction false} PullsKnown(layouts: seq<Layout>)
    ensures forall k | 0 <= k < |Pulls(layouts)| ::
      Pulls(layouts)[k].buffer < |layouts| && Pulls(layouts)[k].layout == layouts[Pulls(layouts)[k].buffer]
  {
    if layouts != [] {
      var n := |layouts| - 1;
      PullsKnown(layouts[..n]);
      PullsOfKnown(n, layouts[n], layouts[n].attributes);
    }
  }

  lemma {:induction false} PullsOfKnown(buffer: nat, layout: Layout, attributes: seq<Attribute>)
    ensures forall k | 0 <= k < |PullsOf(buffer, layout, attributes)| ::
      PullsOf(buffer, layout, attributes)[k].buffer == buffer && PullsOf(buffer, layout, attributes)[k].layout == layout
  {
    if attributes != [] {
      PullsOfKnown(buffer, layout, attributes[..|attributes| - 1]);
    }
  }

  /** The module variables have names of their own, none of them the position variable's, and no
      index variable has a location. */
  ghost predicate PlainInputs(l: Labels, layouts: seq<Layout>, vs: seq<Variable>) {
    && (forall u, v | u in vs && v in vs && u.name == v.name :: u == v)
    && (forall v | v in vs :: v.name != l.pos)
    && forall k | 0 <= k < |layouts| :: NotLocated(l, vs, IndexName(l, layouts, vs, layouts[k].step))
  }

  ghost predicate NotLocated(l: Labels, vs: seq<Variable>, name: string) {
    name != l.pos && forall v | v in vs && v.name == name :: LocationOf(v).None?
  }

  /** The machine holds a value for every module variable, words for the index variables, and the
      buffers. */
  ghost predicate Provided(l: Labels, layouts: seq<Layout>, vs: seq<Variable>, buffers: Buffers, vars: Values) {
    && (forall v | v in vs && v.storage.Input? :: v.name in vars)
    && forall k | 0 <= k < |layouts| ::
         && IndexName(l, layouts, vs, layouts[k].step) in vars && vars[IndexName(l, layouts, vs, layouts[k].step)].Word?
         && (BufferName(l, k), l.field) in buffers
  }

  lemma WiringHolds(l: Labels, layouts: seq<Layout>, vs: seq<Variable>, buffers: Buffers, vars: Values)
    requires PlainInputs(l, layouts, vs) && Provided(l, layouts, vs, buffers, vars)
    ensures
      var wiring := WiringOf(l, layouts, vs);
      Wired(l, wiring, vars) && OwnVariables(wiring) && AllPullable(l, wiring, buffers, vars, Pulls(layouts))
  {
    var wiring := WiringOf(l, layouts, vs);
    LocationNames(vs);
    PullsKnown(layouts);
    forall k | 0 <= k < |Pulls(layouts)|
      ensures Pullable(l, wiring, buffers, vars, Pulls(layouts)[k])
    {
      var pull := Pulls(layouts)[k];
      var n := IndexName(l, layouts, vs, layouts[pull.buffer].step);
      assert NotLocated(l, vs, n);
      assert NameFor(wiring, pull.layout.step) == n;
    }
  }

  /** The entry point of the result starts with a block that leaves in each location's variable the
      bytes at index * stride + offset of the last attribute for the location, and changes nothing
      else. */
  lemma BlockLoads(l: Labels, layouts: seq<Layout>, group: nat, k: nat, p: Program, buffers: Buffers, vars: Values)
    requires k < |p.functions| && PlainInputs(l, layouts, p.globals) && Provided(l, layouts, p.globals, buffers, vars)
    requires AllFit(l, WiringOf(l, layouts, p.globals), buffers, vars, Pulls(layouts))
    ensures
      var wiring, body := WiringOf(l, layouts, p.globals), Pulled(l, layouts, group, k, p).functions[k].body;
      body[1..] == p.functions[k].body && body[0].Block? &&
      var after := RunBlock(buffers, vars, body[0].body);
      && after.Some? && after.value.Keys == vars.Keys
      && (forall x | x in vars && x !in wiring.locations.Values :: after.value[x] == vars[x])
      && forall location | location in wiring.locations ::
           LoadedFrom(l, wiring, buffers, vars, after.value, LastPull(Pulls(layouts), location), wiring.locations[location])
  {
    var wiring, pulls := WiringOf(l, layouts, p.globals), Pulls(layouts);
    WiringHolds(l, layouts, p.globals, buffers, vars);
    PreambleRuns(l, wiring, buffers, vars, layouts);
    AllReadable(l, wiring, buffers, vars, pulls);
    OthersUnchanged(l, wiring, buffers, vars, pulls);
    forall location | location in wiring.locations
      ensures LoadedFrom(l, wiring, buffers, vars, AfterPulls(l, wiring, buffers, vars, pulls).value,
                         LastPull(pulls, location), wiring.locations[location])
    {
      LoadedAt(l, wiring, buffers, vars, pulls, location);
    }
  }

  /** The variable x holds what the attribute says, or what it held before if there is none. */
  ghost predicate LoadedFrom(l: Labels, wiring: Wiring, buffers: Buffers, vars: Values,
                             after: Values, last: Option<Pull>, x: string) {
    && x in after && x in vars
    && (last.None? ==> after[x] == vars[x])
    && (last.Some? ==>
          && Fits(l, wiring, buffers, vars, last.value)
          && after[x] == Decoded(Bytes(l, buffers, last.value.buffer), At(wiring, vars, last.value), last.value.attribute.format))
  }

  ghost predicate AllFit(l: Labels, wiring: Wiring, buffers: Buffers, vars: Values, pulls: seq<Pull>) {
    forall i | 0 <= i < |pulls| && pulls[i].attribute.location in wiring.locations :: Fits(l, wiring, buffers, vars, pulls[i])
  }

  lemma AllReadable(l: Labels, wiring: Wiring, buffers: Buffers, vars: Values, pulls: seq<Pull>)
    requires AllFit(l, wiring, buffers, vars, pulls)
    ensures AfterPulls(l, wiring, buffers, vars, pulls).Some?
  {
    forall i | 0 <= i < |pulls| && pulls[i].attribute.location in wiring.locations
      ensures PullValue(l, wiring, buffers, vars, pulls[i]).Some?
    {
      FittingDecodes(l, wiring, buffers, vars, pulls[i]);
    }
    RunsIffReadable(l, wiring, buffers, vars, pulls);
  }

  lemma LoadedAt(l: Labels, wiring: Wiring, buffers: Buffers, vars: Values, pulls: seq<Pull>, location: nat)
    requires Wired(l, wiring, vars) && OwnVariables(wiring) && location in wiring.locations
    requires AllFit(l, wiring, buffers, vars, pulls) && AfterPulls(l, wiring, buffers, vars, pulls).Some?
    ensures LoadedFrom(l, wiring, buffers, vars, AfterPulls(l, wiring, buffers, vars, pulls).value,
                       LastPull(pulls, location), wiring.locations[location])
  {
    LastPullWins(l, wiring, buffers, vars, pulls, location);
    if LastPull(pulls, location).Some? {
      LastPullIn(pulls, location);
      FittingDecodes(l, wiring, buffers, vars, LastPull(pulls, location).value);
    }
  }

  lemma {:induction false} LastPullIn(pulls: seq<Pull>, location: nat)
    requires LastPull(pulls, location).Some?
    ensures LastPull(pulls, location).value in pulls && LastPull(pulls, location).value.attribute.location == location
  {
    if pulls[|pulls| - 1].attribute.location != location {
      LastPullIn(pulls[..|pulls| - 1], location);
    }
  }
}
