/** Expressions, the types the determiner gives them (src/type_determiner.cc), and the values they
    evaluate to. The arithmetic of scalars is a parameter, so f32 rounding is any function at all. */
module Shapes {
  import opened Wrappers
  import opened Types

  datatype BinaryOp =
    | And | Or | Xor | ShiftLeft | ShiftRight | Add | Subtract | Divide | Modulo
    | Multiply
    | LogicalAnd | LogicalOr | Equal | NotEqual | LessThan | GreaterThan | LessThanEqual | GreaterThanEqual

  predicate Compares(op: BinaryOp) {
    || op.LogicalAnd? || op.LogicalOr? || op.Equal? || op.NotEqual?
    || op.LessThan? || op.GreaterThan? || op.LessThanEqual? || op.GreaterThanEqual?
  }

  datatype Literal = BoolLit(b: bool) | SintLit(i: int) | UintLit(u: nat) | FloatLit(bits: nat)

  /** `ToU32` is the constructor u32(e), `Min` and `ArrayLength` are the intrinsics. `Operation` is any
      other expression that computes a value from those of its operands: a constructor, a cast, a unary
      operator, an intrinsic, or a call without side effects; ty is the type it is determined to have. */
  datatype Expr =
    | Scalar(lit: Literal)
    | Ident(name: string)
    | Index(base: Expr, idx: Expr)
    | Dot(structure: Expr, member: string)
    | Binary(op: BinaryOp, lhs: Expr, rhs: Expr)
    | ToU32(e: Expr)
    | Min(lhs: Expr, rhs: Expr)
    | ArrayLength(e: Expr)
    | Operation(id: nat, ty: Type, args: seq<Expr>)

  datatype Variable = Variable(ty: Type, isConst: bool, storage: StorageClass)
  type Env = map<string, Variable>

  // --- The determiner ---

  function LiteralType(lit: Literal): Type {
    match lit case BoolLit(_) => Bool case SintLit(_) => I32 case UintLit(_) => U32 case FloatLit(_) => F32
  }

  /** The type a determination leaves on an expression, or None when it reports an error. */
  function TypeOf(env: Env, e: Expr): Option<Type> {
    match e
    case Scalar(lit) => Some(LiteralType(lit))
    case Ident(name) => if name in env then Some(IdentType(env[name])) else None
    case Index(base, idx) =>
      (match (TypeOf(env, base), TypeOf(env, idx))
       case (Some(res), Some(_)) => IndexType(res)
       case _ => None)
    case Dot(structure, member) =>
      (match TypeOf(env, structure)
       case Some(res) => MemberType(res, member)
       case None => None)
    case Binary(op, lhs, rhs) =>
      (match (TypeOf(env, lhs), TypeOf(env, rhs))
       case (Some(l), Some(r)) => Some(BinaryType(op, l, r))
       case _ => None)
    case ToU32(a) => if TypeOf(env, a).Some? then Some(U32) else None
    case Min(a, b) =>
      (match (TypeOf(env, a), TypeOf(env, b))
       case (Some(l), Some(r)) => if l.UnwrapPtr() == r.UnwrapPtr() then Some(l.UnwrapPtr()) else None
       case _ => None)
    case ArrayLength(a) => if TypeOf(env, a).Some? then Some(U32) else None
    case Operation(_, ty, args) => if forall i | 0 <= i < |args| :: TypeOf(env, args[i]).Some? then Some(ty) else None
  }

  /** A constant has its type; a variable is always a pointer. */
  function IdentType(v: Variable): Type {
    if v.isConst || v.ty.Pointer? then v.ty else Pointer(v.ty, v.storage)
  }

  function IndexType(res: Type): Option<Type> {
    match res.UnwrapAll()
    case Array(elem, _, _) =>
      if res.Pointer? then Some(Pointer(elem, res.storage))
      else if elem.IsScalar() then Some(elem)
      else Some(Pointer(elem, FunctionClass))
    case Vector(elem, _) => Some(if res.Pointer? then Pointer(elem, res.storage) else elem)
    case Matrix(elem, rows, _) =>
      Some(if res.Pointer? then Pointer(Vector(elem, rows), res.storage) else Vector(elem, rows))
    case _ => None
  }

  function FindMember(members: seq<Member>, name: string): Option<Type> {
    if members == [] then None
    else if members[0].name == name then Some(members[0].ty)
    else FindMember(members[1..], name)
  }

  function MemberType(res: Type, member: string): Option<Type> {
    match res.UnwrapPtr().Unwrap()
    case Struct(_, members) =>
      (match FindMember(members, member)
       case None => None
       case Some(t) => Some(if res.Pointer? then Pointer(t, res.storage) else t))
    case Vector(elem, _) =>
      if |member| == 1 then Some(if res.Pointer? then Pointer(elem, res.storage) else elem)
      else Some(Vector(elem, |member|))
    case _ => None
  }

  function BinaryType(op: BinaryOp, l: Type, r: Type): Type {
    if op == Multiply then ProductType(l.UnwrapPtr(), r.UnwrapPtr())
    else if Compares(op) then
      if l.UnwrapPtr().Vector? then Vector(Bool, l.UnwrapPtr().size) else Bool
    else l.UnwrapPtr()
  }

  /** The order of these tests matters: later ones rely on earlier ones having failed. */
  function ProductType(l: Type, r: Type): Type {
    if l.Matrix? && r.Matrix? then Matrix(l.elem, l.rows, r.columns)
    else if l.Matrix? && r.Vector? then Vector(l.elem, l.rows)
    else if l.Vector? && r.Matrix? then Vector(r.elem, r.columns)
    else if l.Matrix? then l
    else if r.Matrix? then r
    else if l.Vector? && r.Vector? then l
    else if l.Vector? then l
    else if r.Vector? then r
    else l
  }

  // --- Values ---

  datatype Value =
    | BoolV(b: bool) | IntV(i: int) | UintV(u: nat) | FloatV(bits: nat)
    | VecV(elems: seq<Value>)
    | MatV(cols: seq<seq<Value>>)
    | ArrV(elems: seq<Value>)
    | StructV(fields: seq<(string, Value)>)
    | SamplerV | VoidV
  {
    predicate IsScalar() {
      BoolV? || IntV? || UintV? || FloatV?
    }
  }

  /** The value has the shape of the type; pointers, aliases and access controls are transparent.
      A runtime array may have any length a u32 can express, but not zero. */
  ghost predicate HasShape(v: Value, t: Type)
    decreases t, 0
  {
    match t
    case Void => v.VoidV?
    case Sampler(_) => v.SamplerV?
    case Bool => v.BoolV?
    case I32 => v.IntV? && -0x8000_0000 <= v.i < 0x8000_0000
    case U32 => v.UintV? && v.u < 0x1_0000_0000
    case F32 => v.FloatV? && v.bits < 0x1_0000_0000
    case Vector(elem, size) => v.VecV? && |v.elems| == size && AllShaped(v.elems, elem)
    case Matrix(elem, rows, columns) =>
      v.MatV? && |v.cols| == columns && forall j | 0 <= j < columns :: |v.cols[j]| == rows && AllShaped(v.cols[j], elem)
    case Array(elem, size, _) =>
      v.ArrV? && (if size == 0 then 1 <= |v.elems| < 0x1_0000_0000 else |v.elems| == size) && AllShaped(v.elems, elem)
    case Struct(_, members) =>
      v.StructV? && |v.fields| == |members|
      && forall k | 0 <= k < |members| :: v.fields[k].0 == members[k].name && HasShape(v.fields[k].1, members[k].ty)
    case Alias(_, sub) => HasShape(v, sub)
    case Access(_, sub) => HasShape(v, sub)
    case Pointer(sub, _) => HasShape(v, sub)
  }

  ghost predicate AllShaped(vs: seq<Value>, t: Type)
    decreases t, 1
  {
    forall k | 0 <= k < |vs| :: HasShape(vs[k], t)
  }

  /** Types as the language allows them: vectors and matrices of 2 to 4 scalars, lengths below 2^31. */
  predicate WellFormed(t: Type) {
    match t
    case Vector(elem, size) => 2 <= size <= 4 && elem.IsScalar()
    case Matrix(elem, rows, columns) => 2 <= rows <= 4 && 2 <= columns <= 4 && elem.IsScalar()
    case Array(elem, size, _) => size < 0x8000_0000 && WellFormed(elem)
    case Struct(_, members) => forall k | 0 <= k < |members| :: WellFormed(members[k].ty)
    case Alias(_, sub) => WellFormed(sub)
    case Access(_, sub) => WellFormed(sub)
    case Pointer(sub, _) => WellFormed(sub)
    case _ => true
  }

  lemma {:induction false} Transparent(v: Value, t: Type)
    ensures HasShape(v, t.Unwrap()) <==> HasShape(v, t)
    ensures HasShape(v, t.UnwrapPtr()) <==> HasShape(v, t)
  {
    if t.Alias? || t.Access? {
      Transparent(v, t.sub);
    }
  }

  lemma TransparentAll(v: Value, t: Type)
    ensures HasShape(v, t.UnwrapAll()) <==> HasShape(v, t)
    ensures HasShape(v, t.UnwrapPtr().Unwrap()) <==> HasShape(v, t)
  {
    Transparent(v, t);
    Transparent(v, t.UnwrapPtr());
    Transparent(v, t.Unwrap());
    Transparent(v, t.Unwrap().UnwrapPtr());
  }

  lemma {:induction false} WellFormedUnwrap(t: Type)
    requires WellFormed(t)
    ensures WellFormed(t.Unwrap()) && WellFormed(t.UnwrapPtr())
  {
    if t.Alias? || t.Access? {
      WellFormedUnwrap(t.sub);
    }
  }

  lemma WellFormedUnwrapAll(t: Type)
    requires WellFormed(t)
    ensures WellFormed(t.UnwrapAll()) && WellFormed(t.UnwrapPtr().Unwrap())
  {
    WellFormedUnwrap(t);
    WellFormedUnwrap(t.UnwrapPtr());
    WellFormedUnwrap(t.Unwrap());
    WellFormedUnwrap(t.Unwrap().UnwrapPtr());
  }

  // --- Arithmetic ---

  /** What the machine does with two scalars, and what the other operations compute. */
  datatype Prims = Prims(scalar: (BinaryOp, Value, Value) -> Value, operation: (nat, Type, seq<Value>) -> Value)

  ghost function ScalarType(v: Value): Type {
    match v case BoolV(_) => Bool case IntV(_) => I32 case UintV(_) => U32 case _ => F32
  }

  /** All that is asked of scalar arithmetic: comparisons give booleans, other operators stay in
      the type of their left operand, and u32 subtraction wraps; and of other operations, that their
      values have their types. */
  ghost predicate GoodPrims(p: Prims) {
    && (forall op, a: Value, b: Value :: a.IsScalar() && b.IsScalar() && HasShape(a, ScalarType(a)) ==>
          HasShape(p.scalar(op, a, b), if Compares(op) then Bool else ScalarType(a)))
    && (forall x: nat, y: nat :: p.scalar(Subtract, UintV(x), UintV(y)) == UintV((x - y) % 0x1_0000_0000))
    && forall id, ty, vs :: WellFormed(ty) ==> HasShape(p.operation(id, ty, vs), ty)
  }

  // --- Places keep the storage class of their variable ---

  /** The type of the variable that a chain of accesses starts from. */
  function RootType(env: Env, e: Expr): Option<Type> {
    match e
    case Ident(name) => if name in env then Some(IdentType(env[name])) else None
    case Index(base, _) => RootType(env, base)
    case Dot(structure, _) => RootType(env, structure)
    case _ => None
  }

  /** Some access of the chain picks more than one element of a vector. */
  predicate Swizzled(env: Env, e: Expr) {
    match e
    case Index(base, _) => Swizzled(env, base)
    case Dot(structure, member) =>
      Swizzled(env, structure) ||
      (|member| != 1 && TypeOf(env, structure).Some? && TypeOf(env, structure).value.UnwrapPtr().Unwrap().Vector?)
    case _ => false
  }

  /** A chain of accesses to a variable is a place, a pointer in the variable's storage class, exactly when no
      access in it picks more than one element. */
  lemma {:induction false} PlaceStorage(env: Env, e: Expr)
    requires Accepts(env, e) && forall x | x in env :: WellFormed(env[x].ty)
    requires RootType(env, e).Some? && RootType(env, e).value.Pointer?
    ensures TypeOf(env, e).value.Pointer? <==> !Swizzled(env, e)
    ensures TypeOf(env, e).value.Pointer? ==> TypeOf(env, e).value.storage == RootType(env, e).value.storage
    ensures Swizzled(env, e) ==> ScalarOrVector(TypeOf(env, e).value)
  {
    match e {
      case Index(base, _) => PlaceStorage(env, base);
      case Dot(structure, _) =>
        PlaceStorage(env, structure);
        TypesWellFormed(env, structure);
        WellFormedUnwrapAll(TypeOf(env, structure).value);
      case _ =>
    }
  }

  /** An element of an array value is a place of function class exactly when it is not a scalar. */
  lemma ElementOfValue(res: Type)
    requires !res.Pointer? && res.UnwrapAll().Array? && !res.UnwrapAll().elem.Pointer?
    ensures IndexType(res).Some?
    ensures IndexType(res).value.Pointer? <==> !res.UnwrapAll().elem.IsScalar()
    ensures IndexType(res).value.Pointer? ==> IndexType(res).value.storage == FunctionClass
    ensures IndexType(res).value.UnwrapPtr() == res.UnwrapAll().elem
  {
  }

  predicate ScalarOrVector(t: Type) {
    t.IsScalar() || (t.Vector? && t.elem.IsScalar())
  }

  // --- There are such machines and stores ---

  /** Some value of every well-formed type. */
  function Default(t: Type): Value {
    match t
    case Void => VoidV
    case Sampler(_) => SamplerV
    case Bool => BoolV(false)
    case I32 => IntV(0)
    case U32 => UintV(0)
    case F32 => FloatV(0)
    case Vector(elem, size) => VecV(seq(size, i => Default(elem)))
    case Matrix(elem, rows, columns) => MatV(seq(columns, j => seq(rows, i => Default(elem))))
    case Array(elem, size, _) => ArrV(seq(if size == 0 then 1 else size, i => Default(elem)))
    case Struct(_, members) =>
      StructV(seq(|members|, k requires 0 <= k < |members| => (members[k].name, Default(members[k].ty))))
    case Alias(_, sub) => Default(sub)
    case Access(_, sub) => Default(sub)
    case Pointer(sub, _) => Default(sub)
  }

  lemma {:induction false} DefaultShaped(t: Type)
    ensures HasShape(Default(t), t)
  {
    match t {
      case Vector(elem, _) => DefaultShaped(elem);
      case Matrix(elem, _, _) => DefaultShaped(elem);
      case Array(elem, _, _) => DefaultShaped(elem);
      case Struct(_, members) =>
        forall k | 0 <= k < |members|
          ensures HasShape(Default(members[k].ty), members[k].ty)
        {
          DefaultShaped(members[k].ty);
        }
      case Alias(_, sub) => DefaultShaped(sub);
      case Access(_, sub) => DefaultShaped(sub);
      case Pointer(sub, _) => DefaultShaped(sub);
      case _ =>
    }
  }

  /** A machine that subtracts u32 values, compares by saying no, and otherwise does nothing much. */
  function SimpleMachine(): Prims {
    Prims((op: BinaryOp, a: Value, b: Value) =>
            if Compares(op) then BoolV(false)
            else if op.Subtract? && a.UintV? && b.UintV? then UintV((a.u - b.u) % 0x1_0000_0000)
            else a,
          (id, ty, vs) => Default(ty))
  }

  /** What is asked of machines and stores can be had, in every environment of well-formed types. */
  lemma MachineAndStore(env: Env) returns (p: Prims, store: Store)
    requires forall x | x in env :: WellFormed(env[x].ty)
    ensures GoodPrims(p) && Conforms(env, store)
  {
    p, store := SimpleMachine(), map x | x in env :: Default(env[x].ty);
    SimpleIsGood();
    forall x | x in env
      ensures HasShape(store[x], env[x].ty)
    {
      DefaultShaped(env[x].ty);
    }
  }

  lemma SimpleIsGood()
    ensures GoodPrims(SimpleMachine())
  {
    SimpleScalars();
    SimpleOperations();
  }

  lemma SimpleScalars()
    ensures forall op, a: Value, b: Value :: a.IsScalar() && b.IsScalar() && HasShape(a, ScalarType(a)) ==>
      HasShape(SimpleMachine().scalar(op, a, b), if Compares(op) then Bool else ScalarType(a))
  {
    forall op, a: Value, b: Value | a.IsScalar() && b.IsScalar() && HasShape(a, ScalarType(a))
      ensures HasShape(SimpleMachine().scalar(op, a, b), if Compares(op) then Bool else ScalarType(a))
    {
      SimpleScalar(op, a, b);
    }
  }

  lemma SimpleOperations()
    ensures forall id, ty, vs :: HasShape(SimpleMachine().operation(id, ty, vs), ty)
  {
    forall id, ty, vs
      ensures HasShape(SimpleMachine().operation(id, ty, vs), ty)
    {
      DefaultShaped(ty);
    }
  }

  lemma SimpleScalar(op: BinaryOp, a: Value, b: Value)
    requires a.IsScalar() && HasShape(a, ScalarType(a))
    ensures HasShape(SimpleMachine().scalar(op, a, b), if Compares(op) then Bool else ScalarType(a))
  {
    if !Compares(op) && op.Subtract? && a.UintV? && b.UintV? {
      assert ScalarType(a) == U32;
    }
  }

  function Zip(p: Prims, op: BinaryOp, a: seq<Value>, b: seq<Value>): (r: seq<Value>)
    requires |a| == |b|
    ensures |r| == |a|
  {
    seq(|a|, i requires 0 <= i < |a| => p.scalar(op, a[i], b[i]))
  }

  predicate Rectangular(cols: seq<seq<Value>>) {
    |cols| > 0 && forall j | 0 <= j < |cols| :: |cols[j]| == |cols[0]|
  }

  function Inner(p: Prims, a: seq<Value>, b: seq<Value>): Value
    requires |a| == |b| > 0
  {
    var n := |a| - 1;
    var last := p.scalar(Multiply, a[n], b[n]);
    if n == 0 then last else p.scalar(Add, Inner(p, a[..n], b[..n]), last)
  }

  function Row(cols: seq<seq<Value>>, i: nat): (r: seq<Value>)
    requires Rectangular(cols) && i < |cols[0]|
    ensures |r| == |cols|
  {
    seq(|cols|, k requires 0 <= k < |cols| => cols[k][i])
  }

  function MatVec(p: Prims, cols: seq<seq<Value>>, v: seq<Value>): (r: seq<Value>)
    requires Rectangular(cols) && |v| == |cols|
    ensures |r| == |cols[0]|
  {
    seq(|cols[0]|, i requires 0 <= i < |cols[0]| => Inner(p, Row(cols, i), v))
  }

  function VecMat(p: Prims, v: seq<Value>, cols: seq<seq<Value>>): (r: seq<Value>)
    requires |v| > 0 && forall j | 0 <= j < |cols| :: |cols[j]| == |v|
    ensures |r| == |cols|
  {
    seq(|cols|, j requires 0 <= j < |cols| => Inner(p, v, cols[j]))
  }

  function Scale(p: Prims, v: seq<Value>, s: Value, left: bool): (r: seq<Value>)
    ensures |r| == |v|
  {
    seq(|v|, i requires 0 <= i < |v| => if left then p.scalar(Multiply, s, v[i]) else p.scalar(Multiply, v[i], s))
  }

  function ScaleMat(p: Prims, cols: seq<seq<Value>>, s: Value, left: bool): (r: seq<seq<Value>>)
    ensures |r| == |cols| && forall j | 0 <= j < |cols| :: r[j] == Scale(p, cols[j], s, left)
  {
    seq(|cols|, j requires 0 <= j < |cols| => Scale(p, cols[j], s, left))
  }

  function Product(p: Prims, a: Value, b: Value): Option<Value> {
    match (a, b)
    case (MatV(m), MatV(n)) =>
      if Rectangular(m) && forall j | 0 <= j < |n| :: |n[j]| == |m| then
        Some(MatV(seq(|n|, j requires 0 <= j < |n| => MatVec(p, m, n[j]))))
      else None
    case (MatV(m), VecV(v)) => if Rectangular(m) && |v| == |m| then Some(VecV(MatVec(p, m, v))) else None
    case (VecV(v), MatV(m)) =>
      if |v| > 0 && forall j | 0 <= j < |m| :: |m[j]| == |v| then Some(VecV(VecMat(p, v, m))) else None
    case (VecV(v), VecV(w)) => if |v| == |w| then Some(VecV(Zip(p, Multiply, v, w))) else None
    case (MatV(m), s) => if s.IsScalar() then Some(MatV(ScaleMat(p, m, s, false))) else None
    case (VecV(v), s) => if s.IsScalar() then Some(VecV(Scale(p, v, s, false))) else None
    case (s, MatV(m)) => if s.IsScalar() then Some(MatV(ScaleMat(p, m, s, true))) else None
    case (s, VecV(v)) => if s.IsScalar() then Some(VecV(Scale(p, v, s, true))) else None
    case (s, t) => if s.IsScalar() && t.IsScalar() then Some(p.scalar(Multiply, s, t)) else None
  }

  function EvalBinary(p: Prims, op: BinaryOp, a: Value, b: Value): Option<Value> {
    if op == Multiply then Product(p, a, b)
    else match (a, b)
      case (VecV(v), VecV(w)) => if |v| == |w| then Some(VecV(Zip(p, op, v, w))) else None
      case (MatV(m), MatV(n)) =>
        if !Compares(op) && |m| == |n| && forall j | 0 <= j < |m| :: |m[j]| == |n[j]| then
          Some(MatV(seq(|m|, j requires 0 <= j < |m| => Zip(p, op, m[j], n[j]))))
        else None
      case (s, t) => if s.IsScalar() && t.IsScalar() then Some(p.scalar(op, s, t)) else None
  }

  // --- Evaluation ---

  type Store = map<string, Value>

  /** Stuck is a program the language rejects; OutOfBounds is an access outside its object. */
  datatype Trap = OutOfBounds | Stuck

  function Components(v: Value): Option<seq<Value>> {
    match v
    case VecV(elems) => Some(elems)
    case ArrV(elems) => Some(elems)
    case MatV(cols) => Some(seq(|cols|, j requires 0 <= j < |cols| => VecV(cols[j])))
    case _ => None
  }

  function IndexOf(v: Value): Option<int> {
    match v case IntV(i) => Some(i) case UintV(u) => Some(u) case _ => None
  }

  function AccessAt(v: Value, idx: Value): Result<Value, Trap> {
    match (Components(v), IndexOf(idx))
    case (Some(elems), Some(i)) => if 0 <= i < |elems| then Ok(elems[i]) else Err(OutOfBounds)
    case _ => Err(Stuck)
  }

  function FindField(fields: seq<(string, Value)>, name: string): Option<Value> {
    if fields == [] then None
    else if fields[0].0 == name then Some(fields[0].1)
    else FindField(fields[1..], name)
  }

  function Letter(c: char): nat {
    if c == 'x' || c == 'r' then 0
    else if c == 'y' || c == 'g' then 1
    else if c == 'z' || c == 'b' then 2
    else if c == 'w' || c == 'a' then 3
    else 4
  }

  predicate IsSwizzle(member: string, size: nat) {
    1 <= |member| <= 4 && forall k | 0 <= k < |member| :: Letter(member[k]) < size
  }

  function Select(v: Value, member: string): Result<Value, Trap> {
    match v
    case StructV(fields) =>
      (match FindField(fields, member) case Some(w) => Ok(w) case None => Err(Stuck))
    case VecV(elems) =>
      if !IsSwizzle(member, |elems|) then Err(Stuck)
      else if |member| == 1 then Ok(elems[Letter(member[0])])
      else Ok(VecV(seq(|member|, k requires 0 <= k < |member| => elems[Letter(member[k])])))
    case _ => Err(Stuck)
  }

  /** u32(e) keeps the bits of an i32. */
  function AsU32(v: Value): Result<Value, Trap> {
    match v
    case IntV(i) => Ok(UintV(i % 0x1_0000_0000))
    case UintV(u) => Ok(v)
    case _ => Err(Stuck)
  }

  function LiteralValue(lit: Literal): Value {
    match lit case BoolLit(b) => BoolV(b) case SintLit(i) => IntV(i) case UintLit(u) => UintV(u) case FloatLit(f) => FloatV(f)
  }

  function Eval(p: Prims, store: Store, e: Expr): Result<Value, Trap> {
    match e
    case Scalar(lit) => Ok(LiteralValue(lit))
    case Ident(name) => if name in store then Ok(store[name]) else Err(Stuck)
    case Index(base, idx) =>
      (match Eval(p, store, base)
       case Err(t) => Err(t)
       case Ok(v) =>
         match Eval(p, store, idx)
         case Err(t) => Err(t)
         case Ok(i) => AccessAt(v, i))
    case Dot(structure, member) =>
      (match Eval(p, store, structure)
       case Err(t) => Err(t)
       case Ok(v) => Select(v, member))
    case Binary(op, lhs, rhs) =>
      (match Eval(p, store, lhs)
       case Err(t) => Err(t)
       case Ok(a) =>
         match Eval(p, store, rhs)
         case Err(t) => Err(t)
         case Ok(b) => match EvalBinary(p, op, a, b) case Some(v) => Ok(v) case None => Err(Stuck))
    case ToU32(a) =>
      (match Eval(p, store, a)
       case Err(t) => Err(t)
       case Ok(v) => AsU32(v))
    case Min(l, r) =>
      (match Eval(p, store, l)
       case Err(t) => Err(t)
       case Ok(a) =>
         match Eval(p, store, r)
         case Err(t) => Err(t)
         case Ok(b) => if a.UintV? && b.UintV? then Ok(if b.u < a.u then b else a) else Err(Stuck))
    case ArrayLength(a) =>
      (match Eval(p, store, a)
       case Err(t) => Err(t)
       case Ok(v) => if v.ArrV? then Ok(UintV(|v.elems|)) else Err(Stuck))
    case Operation(id, ty, args) =>
      (match Collect(seq(|args|, i requires 0 <= i < |args| => Eval(p, store, args[i])))
       case Err(t) => Err(t)
       case Ok(vs) => Ok(p.operation(id, ty, vs)))
  }

  // --- Which expressions the language accepts ---

  predicate LiteralInRange(lit: Literal) {
    match lit
    case BoolLit(_) => true
    case SintLit(i) => -0x8000_0000 <= i < 0x8000_0000
    case UintLit(u) => u < 0x1_0000_0000
    case FloatLit(bits) => bits < 0x1_0000_0000
  }

  predicate IntScalar(t: Type) {
    t.I32? || t.U32?
  }

  predicate NumericShape(t: Type) {
    t.IsScalar() || t.Vector? || t.Matrix?
  }

  /** Operand shapes an operator accepts, wrappers removed. */
  predicate Compatible(op: BinaryOp, l: Type, r: Type) {
    if op == Multiply then
      if l.Matrix? && r.Matrix? then l.elem == r.elem && l.columns == r.rows
      else if l.Matrix? && r.Vector? then l.elem == r.elem && l.columns == r.size
      else if l.Vector? && r.Matrix? then l.elem == r.elem && l.size == r.rows
      else if l.Vector? && r.Vector? then l == r
      else if (l.Matrix? || l.Vector?) && r.IsScalar() then l.elem == r
      else if l.IsScalar() && (r.Matrix? || r.Vector?) then r.elem == l
      else l.IsScalar() && l == r
    else
      (l == r || ((op == ShiftLeft || op == ShiftRight) && SameDims(l, r)))
      && NumericShape(l) && NumericShape(r) && (Compares(op) ==> !l.Matrix?)
  }

  predicate SameDims(l: Type, r: Type) {
    (l.IsScalar() && r.IsScalar()) || (l.Vector? && r.Vector? && l.size == r.size)
  }

  predicate Wrapped(t: Type) {
    t.UnwrapPtr().Alias? || t.UnwrapPtr().Access?
  }

  /** The condition, read off the operand types, under which a product gets the right shape:
      nothing is hidden by an alias or access control (hl and hr say which operands are), or what
      is hidden does not change the outcome of the tests. */
  predicate ProductSeen(hl: bool, hr: bool, l: Type, r: Type) {
    if l.Matrix? && r.Matrix? then
      if hl && hr then l.columns == r.columns
      else if hl then l.rows == r.rows
      else hr ==> l.columns == r.columns
    else if l.Matrix? && r.Vector? then
      if hl then !hr && l.rows == l.columns else !hr
    else if l.Vector? && r.Matrix? then
      if hr then l.size == r.columns else !hl
    else l.IsScalar() && !r.IsScalar() ==> !hr
  }

  /** Where the determiner, which removes only a pointer from an operand, still sees its shape. */
  predicate Seen(op: BinaryOp, l: Type, r: Type) {
    && (op == Multiply ==> ProductSeen(Wrapped(l), Wrapped(r), l.UnwrapAll(), r.UnwrapAll()))
    && (Compares(op) ==> !(Wrapped(l) && l.UnwrapAll().Vector?))
  }

  /** Accepted expressions: the language's conditions, and Seen, which is the determiner's own. */
  predicate Accepts(env: Env, e: Expr) {
    TypeOf(env, e).Some? &&
    match e
    case Scalar(lit) => LiteralInRange(lit)
    case Ident(_) => true
    case Index(base, idx) =>
      Accepts(env, base) && Accepts(env, idx) && IntScalar(TypeOf(env, idx).value.UnwrapAll())
    case Dot(structure, member) =>
      Accepts(env, structure)
      && var t := TypeOf(env, structure).value.UnwrapPtr().Unwrap();
         t.Vector? ==> IsSwizzle(member, t.size) && |member| <= 4
    case Binary(op, lhs, rhs) =>
      Accepts(env, lhs) && Accepts(env, rhs)
      && var l, r := TypeOf(env, lhs).value, TypeOf(env, rhs).value;
         Compatible(op, l.UnwrapAll(), r.UnwrapAll()) && Seen(op, l, r)
    case ToU32(a) => Accepts(env, a) && IntScalar(TypeOf(env, a).value.UnwrapAll())
    case Min(a, b) =>
      Accepts(env, a) && Accepts(env, b)
      && TypeOf(env, a).value.UnwrapAll() == U32 && TypeOf(env, b).value.UnwrapAll() == U32
    case ArrayLength(a) =>
      Accepts(env, a) && TypeOf(env, a).value.UnwrapAll().Array? && TypeOf(env, a).value.UnwrapAll().size == 0
    case Operation(_, ty, args) => WellFormed(ty) && forall i | 0 <= i < |args| :: Accepts(env, args[i])
  }

  ghost predicate Conforms(env: Env, store: Store) {
    forall x | x in env :: WellFormed(env[x].ty) && x in store && HasShape(store[x], env[x].ty)
  }

  // --- Soundness ---

  /** A trap, if any, is an access out of bounds; otherwise the value has the type's shape. */
  ghost predicate Sound(r: Result<Value, Trap>, t: Type) {
    match r case Ok(v) => HasShape(v, t) case Err(trap) => trap == OutOfBounds
  }

  lemma {:induction false} FindFieldSound(fields: seq<(string, Value)>, members: seq<Member>, name: string)
    requires |fields| == |members| && FindMember(members, name).Some?
    requires forall k | 0 <= k < |members| :: fields[k].0 == members[k].name && HasShape(fields[k].1, members[k].ty)
    requires forall k | 0 <= k < |members| :: WellFormed(members[k].ty)
    ensures FindField(fields, name).Some? && HasShape(FindField(fields, name).value, FindMember(members, name).value)
    ensures WellFormed(FindMember(members, name).value)
  {
    if members[0].name != name {
      FindFieldSound(fields[1..], members[1..], name);
    }
  }

  predicate Indexable(t: Type) {
    t.Array? || t.Vector? || t.Matrix?
  }

  function ElementType(t: Type): Type
    requires Indexable(t)
  {
    if t.Matrix? then Vector(t.elem, t.rows) else t.elem
  }

  /** The number of elements a type fixes; 0 for a runtime array. */
  function Length(t: Type): nat
    requires Indexable(t)
  {
    if t.Matrix? then t.columns else t.size
  }

  lemma ComponentsShaped(v: Value, t: Type)
    requires Indexable(t) && HasShape(v, t)
    ensures Components(v).Some? && AllShaped(Components(v).value, ElementType(t))
    ensures if t.Array? && t.size == 0 then 1 <= |Components(v).value| < 0x1_0000_0000 && v.ArrV?
            else |Components(v).value| == Length(t)
  {
    if t.Matrix? {
      assert forall j | 0 <= j < |v.cols| :: HasShape(VecV(v.cols[j]), Vector(t.elem, t.rows));
    }
  }

  lemma IndexTypeElement(res: Type)
    requires WellFormed(res) && IndexType(res).Some?
    ensures Indexable(res.UnwrapAll()) && WellFormed(res.UnwrapAll()) && WellFormed(IndexType(res).value)
    ensures IndexType(res).value.UnwrapPtr() == ElementType(res.UnwrapAll()).UnwrapPtr()
         || IndexType(res).value.UnwrapPtr() == ElementType(res.UnwrapAll())
  {
    WellFormedUnwrapAll(res);
  }

  lemma IndexNumber(i: Value, it: Type)
    requires HasShape(i, it) && IntScalar(it.UnwrapAll())
    ensures IndexOf(i).Some?
  {
    TransparentAll(i, it);
  }

  /** Taking an element: in bounds it has the type the determiner gives, else the access traps. */
  lemma IndexSound(v: Value, i: Value, res: Type, it: Type)
    requires HasShape(v, res) && WellFormed(res) && IndexType(res).Some?
    requires HasShape(i, it) && IntScalar(it.UnwrapAll())
    ensures Sound(AccessAt(v, i), IndexType(res).value)
  {
    IndexNumber(i, it);
    IndexTypeElement(res);
    TransparentAll(v, res);
    ComponentsShaped(v, res.UnwrapAll());
    if AccessAt(v, i).Ok? {
      var w := AccessAt(v, i).value;
      assert HasShape(w, ElementType(res.UnwrapAll()));
      Transparent(w, IndexType(res).value);
      Transparent(w, ElementType(res.UnwrapAll()));
    }
  }

  lemma MemberSound(v: Value, res: Type, member: string)
    requires HasShape(v, res) && WellFormed(res) && MemberType(res, member).Some?
    requires var t := res.UnwrapPtr().Unwrap(); t.Vector? ==> IsSwizzle(member, t.size)
    ensures Select(v, member).Ok? && HasShape(Select(v, member).value, MemberType(res, member).value)
    ensures |member| != 1 ==> res.UnwrapPtr().Unwrap().Struct? || MemberType(res, member).value.Vector?
    ensures WellFormed(MemberType(res, member).value)
  {
    TransparentAll(v, res);
    WellFormedUnwrapAll(res);
    var t := res.UnwrapPtr().Unwrap();
    if t.Struct? {
      FindFieldSound(v.fields, t.members, member);
    }
  }

  lemma {:induction false} InnerSound(p: Prims, a: seq<Value>, b: seq<Value>, t: Type)
    requires GoodPrims(p) && t.IsScalar() && |a| == |b| > 0 && AllShaped(a, t) && AllShaped(b, t)
    ensures HasShape(Inner(p, a, b), t)
  {
    var n := |a| - 1;
    if n > 0 {
      InnerSound(p, a[..n], b[..n], t);
    }
  }

  function ResultScalar(op: BinaryOp, t: Type): Type {
    if Compares(op) then Bool else t
  }

  lemma PrimSound(p: Prims, op: BinaryOp, a: Value, b: Value, t: Type)
    requires GoodPrims(p) && t.IsScalar() && HasShape(a, t) && b.IsScalar()
    ensures HasShape(p.scalar(op, a, b), ResultScalar(op, t))
  {
    assert ScalarType(a) == t;
  }

  lemma ZipSound(p: Prims, op: BinaryOp, a: seq<Value>, b: seq<Value>, t: Type)
    requires GoodPrims(p) && t.IsScalar() && AllShaped(a, t) && |a| == |b|
    requires forall i | 0 <= i < |b| :: b[i].IsScalar()
    ensures AllShaped(Zip(p, op, a, b), ResultScalar(op, t))
  {
    forall i | 0 <= i < |a|
      ensures HasShape(Zip(p, op, a, b)[i], ResultScalar(op, t))
    {
      PrimSound(p, op, a[i], b[i], t);
    }
  }

  lemma ScaleSound(p: Prims, v: seq<Value>, s: Value, left: bool, t: Type)
    requires GoodPrims(p) && t.IsScalar() && AllShaped(v, t) && HasShape(s, t)
    ensures AllShaped(Scale(p, v, s, left), t)
  {
    forall i | 0 <= i < |v|
      ensures HasShape(Scale(p, v, s, left)[i], t)
    {
      PrimSound(p, Multiply, s, v[i], t);
      PrimSound(p, Multiply, v[i], s, t);
    }
  }

  lemma MatVecSound(p: Prims, cols: seq<seq<Value>>, v: seq<Value>, t: Type)
    requires GoodPrims(p) && t.IsScalar() && Rectangular(cols) && |v| == |cols|
    requires AllShaped(v, t) && forall j | 0 <= j < |cols| :: AllShaped(cols[j], t)
    ensures AllShaped(MatVec(p, cols, v), t)
  {
    forall i | 0 <= i < |cols[0]|
      ensures HasShape(MatVec(p, cols, v)[i], t)
    {
      InnerSound(p, Row(cols, i), v, t);
    }
  }

  lemma VecMatSound(p: Prims, v: seq<Value>, cols: seq<seq<Value>>, t: Type)
    requires GoodPrims(p) && t.IsScalar() && |v| > 0 && forall j | 0 <= j < |cols| :: |cols[j]| == |v|
    requires AllShaped(v, t) && forall j | 0 <= j < |cols| :: AllShaped(cols[j], t)
    ensures AllShaped(VecMat(p, v, cols), t)
  {
    forall j | 0 <= j < |cols|
      ensures HasShape(VecMat(p, v, cols)[j], t)
    {
      InnerSound(p, v, cols[j], t);
    }
  }

  lemma MatrixProductSound(p: Prims, m: seq<seq<Value>>, n: seq<seq<Value>>, l: Type, r: Type)
    requires GoodPrims(p) && HasShape(MatV(m), l) && HasShape(MatV(n), r) && WellFormed(l) && WellFormed(r)
    requires l.Matrix? && r.Matrix? && Compatible(Multiply, l, r)
    ensures Product(p, MatV(m), MatV(n)).Some?
    ensures HasShape(Product(p, MatV(m), MatV(n)).value, Matrix(l.elem, l.rows, r.columns))
  {
    assert Rectangular(m);
    forall j | 0 <= j < |n|
      ensures AllShaped(MatVec(p, m, n[j]), l.elem)
    {
      MatVecSound(p, m, n[j], l.elem);
    }
  }

  lemma ScaledMatrixSound(p: Prims, m: seq<seq<Value>>, s: Value, left: bool, t: Type)
    requires GoodPrims(p) && t.Matrix? && WellFormed(t) && HasShape(MatV(m), t) && HasShape(s, t.elem)
    ensures HasShape(MatV(ScaleMat(p, m, s, left)), t)
  {
    forall j | 0 <= j < |m|
      ensures AllShaped(ScaleMat(p, m, s, left)[j], t.elem)
    {
      ScaleSound(p, m[j], s, left, t.elem);
    }
  }

  /** Matrix by matrix, matrix by vector and vector by matrix products have the rows of the left
      operand and the columns of the right one; the other products keep the larger operand's shape. */
  lemma ProductSound(p: Prims, a: Value, b: Value, l: Type, r: Type)
    requires GoodPrims(p) && HasShape(a, l) && HasShape(b, r) && WellFormed(l) && WellFormed(r)
    requires Compatible(Multiply, l, r)
    ensures Product(p, a, b).Some? && HasShape(Product(p, a, b).value, ProductType(l, r))
  {
    if l.Matrix? || r.Matrix? {
      MatrixOperandSound(p, a, b, l, r);
    } else if l.Vector? && r.Vector? {
      ZipSound(p, Multiply, a.elems, b.elems, l.elem);
    } else if l.Vector? {
      ScaleSound(p, a.elems, b, false, l.elem);
    } else if r.Vector? {
      ScaleSound(p, b.elems, a, true, r.elem);
    } else {
      PrimSound(p, Multiply, a, b, l);
    }
  }

  lemma MatrixOperandSound(p: Prims, a: Value, b: Value, l: Type, r: Type)
    requires GoodPrims(p) && HasShape(a, l) && HasShape(b, r) && WellFormed(l) && WellFormed(r)
    requires Compatible(Multiply, l, r) && (l.Matrix? || r.Matrix?)
    ensures Product(p, a, b).Some? && HasShape(Product(p, a, b).value, ProductType(l, r))
  {
    if l.Matrix? && r.Matrix? {
      MatrixProductSound(p, a.cols, b.cols, l, r);
    } else if l.Matrix? && r.Vector? {
      MatVecSound(p, a.cols, b.elems, l.elem);
    } else if l.Vector? && r.Matrix? {
      VecMatSound(p, a.elems, b.cols, r.elem);
    } else if l.Matrix? {
      ScaledMatrixSound(p, a.cols, b, false, l);
    } else {
      ScaledMatrixSound(p, b.cols, a, true, r);
    }
  }

  lemma ElementwiseSound(p: Prims, op: BinaryOp, a: Value, b: Value, l: Type, r: Type)
    requires GoodPrims(p) && HasShape(a, l) && HasShape(b, r) && WellFormed(l) && WellFormed(r)
    requires op != Multiply && Compatible(op, l, r)
    ensures EvalBinary(p, op, a, b).Some?
    ensures HasShape(EvalBinary(p, op, a, b).value, if Compares(op) then if l.Vector? then Vector(Bool, l.size) else Bool else l)
  {
    if l.Vector? {
      VectorsSound(p, op, a, b, l, r);
    } else if l.Matrix? {
      MatricesSound(p, op, a, b, l, r);
    } else {
      PrimSound(p, op, a, b, l);
    }
  }

  lemma VectorsSound(p: Prims, op: BinaryOp, a: Value, b: Value, l: Type, r: Type)
    requires GoodPrims(p) && HasShape(a, l) && HasShape(b, r) && WellFormed(l) && WellFormed(r)
    requires l.Vector? && op != Multiply && Compatible(op, l, r)
    ensures EvalBinary(p, op, a, b).Some?
    ensures HasShape(EvalBinary(p, op, a, b).value, if Compares(op) then Vector(Bool, l.size) else l)
  {
    ZipSound(p, op, a.elems, b.elems, l.elem);
  }

  lemma MatricesSound(p: Prims, op: BinaryOp, a: Value, b: Value, l: Type, r: Type)
    requires GoodPrims(p) && HasShape(a, l) && HasShape(b, r) && WellFormed(l) && WellFormed(r)
    requires l.Matrix? && op != Multiply && Compatible(op, l, r)
    ensures EvalBinary(p, op, a, b).Some? && HasShape(EvalBinary(p, op, a, b).value, l)
  {
    forall j | 0 <= j < |a.cols|
      ensures AllShaped(Zip(p, op, a.cols[j], b.cols[j]), l.elem)
    {
      ZipSound(p, op, a.cols[j], b.cols[j], l.elem);
    }
  }

  lemma MultipliedSound(p: Prims, a: Value, b: Value, l: Type, r: Type)
    requires GoodPrims(p) && HasShape(a, l) && HasShape(b, r) && WellFormed(l) && WellFormed(r)
    requires Compatible(Multiply, l.UnwrapAll(), r.UnwrapAll()) && Seen(Multiply, l, r)
    ensures Product(p, a, b).Some? && HasShape(Product(p, a, b).value, BinaryType(Multiply, l, r))
  {
    TransparentAll(a, l);
    TransparentAll(b, r);
    WellFormedUnwrapAll(l);
    WellFormedUnwrapAll(r);
    ProductSound(p, a, b, l.UnwrapAll(), r.UnwrapAll());
    ProductExact(l, r);
    TransparentAll(Product(p, a, b).value, BinaryType(Multiply, l, r));
  }

  lemma CombinedSound(p: Prims, op: BinaryOp, a: Value, b: Value, l: Type, r: Type)
    requires GoodPrims(p) && HasShape(a, l) && HasShape(b, r) && WellFormed(l) && WellFormed(r)
    requires op != Multiply && Compatible(op, l.UnwrapAll(), r.UnwrapAll()) && Seen(op, l, r)
    ensures EvalBinary(p, op, a, b).Some? && HasShape(EvalBinary(p, op, a, b).value, BinaryType(op, l, r))
  {
    TransparentAll(a, l);
    TransparentAll(b, r);
    WellFormedUnwrapAll(l);
    WellFormedUnwrapAll(r);
    ElementwiseSound(p, op, a, b, l.UnwrapAll(), r.UnwrapAll());
    var v := EvalBinary(p, op, a, b).value;
    ComparedType(op, l, r);
    Transparent(v, l);
    TransparentAll(v, l);
  }

  lemma ComparedType(op: BinaryOp, l: Type, r: Type)
    requires op != Multiply && Compatible(op, l.UnwrapAll(), r.UnwrapAll()) && Seen(op, l, r)
    ensures BinaryType(op, l, r) ==
      if !Compares(op) then l.UnwrapPtr()
      else if l.UnwrapAll().Vector? then Vector(Bool, l.UnwrapAll().size) else Bool
  {
    if Compares(op) {
      ComparisonExact(op, l, r);
    }
  }

  lemma BinarySound(p: Prims, op: BinaryOp, a: Value, b: Value, l: Type, r: Type)
    requires GoodPrims(p) && HasShape(a, l) && HasShape(b, r) && WellFormed(l) && WellFormed(r)
    requires Compatible(op, l.UnwrapAll(), r.UnwrapAll()) && Seen(op, l, r)
    ensures EvalBinary(p, op, a, b).Some? && HasShape(EvalBinary(p, op, a, b).value, BinaryType(op, l, r))
  {
    if op == Multiply {
      MultipliedSound(p, a, b, l, r);
    } else {
      CombinedSound(p, op, a, b, l, r);
    }
  }

  lemma {:induction false} TypesWellFormed(env: Env, e: Expr)
    requires Accepts(env, e) && forall x | x in env :: WellFormed(env[x].ty)
    ensures WellFormed(TypeOf(env, e).value)
  {
    match e {
      case Scalar(_) =>
      case Ident(_) =>
      case Index(base, _) =>
        TypesWellFormed(env, base);
        IndexTypeElement(TypeOf(env, base).value);
      case Dot(structure, member) =>
        TypesWellFormed(env, structure);
        MemberWellFormed(TypeOf(env, structure).value, member);
      case Binary(op, lhs, rhs) =>
        TypesWellFormed(env, lhs);
        TypesWellFormed(env, rhs);
        BinaryWellFormed(op, TypeOf(env, lhs).value, TypeOf(env, rhs).value);
      case ToU32(_) =>
      case Min(a, _) =>
        TypesWellFormed(env, a);
        WellFormedUnwrap(TypeOf(env, a).value);
      case ArrayLength(_) =>
      case Operation(_, _, _) =>
    }
  }

  /** The determiner's types are the shapes of the values: evaluating an accepted expression either
      accesses out of bounds or gives a value of the determined type. */
  lemma {:induction false} TypeSound(p: Prims, env: Env, store: Store, e: Expr)
    requires GoodPrims(p) && Conforms(env, store) && Accepts(env, e)
    ensures Sound(Eval(p, store, e), TypeOf(env, e).value) && WellFormed(TypeOf(env, e).value)
    decreases e, 1
  {
    match e {
      case Scalar(_) =>
      case Ident(_) =>
      case Index(base, idx) =>
        TypeSound(p, env, store, base);
        TypeSound(p, env, store, idx);
        IndexedSound(p, env, store, base, idx);
      case Dot(structure, member) =>
        TypeSound(p, env, store, structure);
        SelectedSound(p, env, store, structure, member);
      case Binary(op, lhs, rhs) =>
        TypeSound(p, env, store, lhs);
        TypeSound(p, env, store, rhs);
        OperatedSound(p, env, store, op, lhs, rhs);
      case ToU32(a) =>
        TypeSound(p, env, store, a);
        ConvertedSound(p, env, store, a);
      case Min(a, b) =>
        TypeSound(p, env, store, a);
        TypeSound(p, env, store, b);
        MinSound(p, env, store, a, b);
      case ArrayLength(a) =>
        TypeSound(p, env, store, a);
        LengthSound(p, env, store, a);
      case Operation(_, _, _) =>
        OperandsSound(p, env, store, e);
        OperationSound(p, env, store, e);
    }
  }

  lemma {:induction false} OperandsSound(p: Prims, env: Env, store: Store, e: Expr)
    requires GoodPrims(p) && Conforms(env, store) && e.Operation? && Accepts(env, e)
    ensures forall i | 0 <= i < |e.args| :: SoundExpr(p, env, store, e.args[i])
    decreases e, 0
  {
    forall i | 0 <= i < |e.args|
      ensures SoundExpr(p, env, store, e.args[i])
    {
      TypeSound(p, env, store, e.args[i]);
    }
  }

  lemma OperationSound(p: Prims, env: Env, store: Store, e: Expr)
    requires GoodPrims(p) && e.Operation? && Accepts(env, e)
    requires forall i | 0 <= i < |e.args| :: SoundExpr(p, env, store, e.args[i])
    ensures SoundExpr(p, env, store, e)
  {
    CollectFacts(seq(|e.args|, i requires 0 <= i < |e.args| => Eval(p, store, e.args[i])));
  }

  ghost predicate SoundExpr(p: Prims, env: Env, store: Store, e: Expr) {
    TypeOf(env, e).Some? && Sound(Eval(p, store, e), TypeOf(env, e).value) && WellFormed(TypeOf(env, e).value)
  }

  lemma IndexedSound(p: Prims, env: Env, store: Store, base: Expr, idx: Expr)
    requires SoundExpr(p, env, store, base) && SoundExpr(p, env, store, idx) && Accepts(env, Index(base, idx))
    ensures SoundExpr(p, env, store, Index(base, idx))
  {
    var v, i := Eval(p, store, base), Eval(p, store, idx);
    var res, it := TypeOf(env, base).value, TypeOf(env, idx).value;
    IndexTypeElement(res);
    if v.Ok? && i.Ok? {
      IndexSound(v.value, i.value, res, it);
    }
  }

  lemma SelectedSound(p: Prims, env: Env, store: Store, structure: Expr, member: string)
    requires SoundExpr(p, env, store, structure) && Accepts(env, Dot(structure, member))
    ensures SoundExpr(p, env, store, Dot(structure, member))
  {
    var v, res := Eval(p, store, structure), TypeOf(env, structure).value;
    MemberWellFormed(res, member);
    if v.Ok? {
      MemberSound(v.value, res, member);
    }
  }

  lemma MemberWellFormed(res: Type, member: string)
    requires WellFormed(res) && MemberType(res, member).Some?
    requires var t := res.UnwrapPtr().Unwrap(); t.Vector? ==> IsSwizzle(member, t.size)
    ensures WellFormed(MemberType(res, member).value)
  {
    WellFormedUnwrapAll(res);
    var t := res.UnwrapPtr().Unwrap();
    if t.Struct? {
      FoundWellFormed(t.members, member);
    }
  }

  lemma {:induction false} FoundWellFormed(members: seq<Member>, name: string)
    requires FindMember(members, name).Some? && forall k | 0 <= k < |members| :: WellFormed(members[k].ty)
    ensures WellFormed(FindMember(members, name).value)
  {
    if members[0].name != name {
      FoundWellFormed(members[1..], name);
    }
  }

  lemma OperatedSound(p: Prims, env: Env, store: Store, op: BinaryOp, lhs: Expr, rhs: Expr)
    requires GoodPrims(p) && SoundExpr(p, env, store, lhs) && SoundExpr(p, env, store, rhs)
    requires Accepts(env, Binary(op, lhs, rhs))
    ensures SoundExpr(p, env, store, Binary(op, lhs, rhs))
  {
    var a, b := Eval(p, store, lhs), Eval(p, store, rhs);
    var l, r := TypeOf(env, lhs).value, TypeOf(env, rhs).value;
    BinaryWellFormed(op, l, r);
    if a.Ok? && b.Ok? {
      BinarySound(p, op, a.value, b.value, l, r);
    }
  }

  lemma BinaryWellFormed(op: BinaryOp, l: Type, r: Type)
    requires WellFormed(l) && WellFormed(r) && Compatible(op, l.UnwrapAll(), r.UnwrapAll()) && Seen(op, l, r)
    ensures WellFormed(BinaryType(op, l, r))
  {
    if op == Multiply {
      ProductWellFormed(l.UnwrapPtr(), r.UnwrapPtr());
    }
  }

  lemma ProductWellFormed(x: Type, y: Type)
    requires WellFormed(x) && WellFormed(y)
    ensures WellFormed(ProductType(x, y))
  {
  }

  lemma ConvertedSound(p: Prims, env: Env, store: Store, a: Expr)
    requires SoundExpr(p, env, store, a) && Accepts(env, ToU32(a))
    ensures SoundExpr(p, env, store, ToU32(a))
  {
    if Eval(p, store, a).Ok? {
      TransparentAll(Eval(p, store, a).value, TypeOf(env, a).value);
    }
  }

  lemma MinSound(p: Prims, env: Env, store: Store, a: Expr, b: Expr)
    requires SoundExpr(p, env, store, a) && SoundExpr(p, env, store, b) && Accepts(env, Min(a, b))
    ensures SoundExpr(p, env, store, Min(a, b))
  {
    var va, vb := Eval(p, store, a), Eval(p, store, b);
    WellFormedUnwrap(TypeOf(env, a).value);
    if va.Ok? && vb.Ok? {
      UintOf(va.value, TypeOf(env, a).value);
      UintOf(vb.value, TypeOf(env, b).value);
      U32Shaped(Eval(p, store, Min(a, b)).value, TypeOf(env, a).value);
    }
  }

  lemma UintOf(v: Value, t: Type)
    requires HasShape(v, t) && t.UnwrapAll() == U32
    ensures v.UintV? && HasShape(v, U32)
  {
    TransparentAll(v, t);
  }

  /** A u32 has the shape of any wrapping of u32, the pointer removed. */
  lemma U32Shaped(v: Value, t: Type)
    requires HasShape(v, U32) && t.UnwrapAll() == U32
    ensures HasShape(v, t.UnwrapPtr())
  {
    TransparentAll(v, t);
    Transparent(v, t);
    Transparent(v, t.UnwrapPtr());
    Transparent(v, t.UnwrapPtr().Unwrap());
  }

  lemma LengthSound(p: Prims, env: Env, store: Store, a: Expr)
    requires SoundExpr(p, env, store, a) && Accepts(env, ArrayLength(a))
    ensures SoundExpr(p, env, store, ArrayLength(a))
  {
    if Eval(p, store, a).Ok? {
      TransparentAll(Eval(p, store, a).value, TypeOf(env, a).value);
    }
  }

  // --- Where the determiner loses the shape ---

  /** A comparison of compatible operands gets the right type unless the left operand is a vector
      behind an alias or access control; then it gets bool instead of a vector of bool. */
  lemma ComparisonExact(op: BinaryOp, l: Type, r: Type)
    requires Compares(op) && Compatible(op, l.UnwrapAll(), r.UnwrapAll())
    ensures BinaryType(op, l, r) == BinaryType(op, l.UnwrapAll(), r.UnwrapAll())
       <==> !(Wrapped(l) && l.UnwrapAll().Vector?)
  {
  }

  lemma Hidden(t: Type)
    requires NumericShape(t.UnwrapAll())
    ensures Wrapped(t) ==> !t.UnwrapPtr().Matrix? && !t.UnwrapPtr().Vector?
    ensures !Wrapped(t) ==> t.UnwrapPtr() == t.UnwrapAll()
    ensures t.UnwrapPtr().UnwrapAll() == t.UnwrapAll() && t.UnwrapAll().UnwrapAll() == t.UnwrapAll()
  {
  }

  lemma ProductOfSeen(x: Type, y: Type, l: Type, r: Type, hl: bool, hr: bool)
    requires Compatible(Multiply, l, r) && x.UnwrapAll() == l && y.UnwrapAll() == r
    requires if hl then !x.Matrix? && !x.Vector? else x == l
    requires if hr then !y.Matrix? && !y.Vector? else y == r
    ensures ProductType(x, y).UnwrapAll() == ProductType(l, r) <==> ProductSeen(hl, hr, l, r)
  {
    if hl && hr {
    } else if hl {
    } else if hr {
    } else {
    }
  }

  /** The determiner gives a product of compatible operands the right shape exactly when ProductSeen. */
  lemma ProductExact(l: Type, r: Type)
    requires Compatible(Multiply, l.UnwrapAll(), r.UnwrapAll())
    ensures BinaryType(Multiply, l, r).UnwrapAll() == ProductType(l.UnwrapAll(), r.UnwrapAll())
       <==> ProductSeen(Wrapped(l), Wrapped(r), l.UnwrapAll(), r.UnwrapAll())
  {
    Hidden(l);
    Hidden(r);
    ProductOfSeen(l.UnwrapPtr(), r.UnwrapPtr(), l.UnwrapAll(), r.UnwrapAll(), Wrapped(l), Wrapped(r));
  }
}
