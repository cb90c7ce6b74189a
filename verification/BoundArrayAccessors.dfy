/** The pass that clamps every index (src/transform/bound_array_accessors.cc). */
module BoundArrayAccessors {
  import opened Wrappers
  import opened Types
  import opened Shapes

  /** The diagnostics of the pass. */
  datatype Diagnostic = InvalidZeroSize | UnknownScalarConstructor

  function MinInt(a: int, b: int): int { if b < a then b else a }
  function MaxInt(a: int, b: int): int { if a < b then b else a }

  /** static_cast<int32_t> of a uint32_t. */
  function AsInt32(n: nat): int {
    if n < 0x8000_0000 then n else n - 0x1_0000_0000
  }

  /** A literal index is rewritten to be within bounds. */
  function ClampLiteral(lit: Literal, size: nat): Result<Literal, Diagnostic>
    requires size > 0
  {
    match lit
    case SintLit(v) => Ok(SintLit(MaxInt(MinInt(v, AsInt32(size) - 1), 0)))
    case UintLit(v) => Ok(UintLit(MinInt(v, size - 1)))
    case _ => Err(UnknownScalarConstructor)
  }

  /** The new index for an access to an object of type t, given its cloned operands. */
  function NewIndex(t: Type, base: Expr, idx: Expr, idx': Expr): Result<Expr, Diagnostic> {
    if !Indexable(t) then Ok(idx')
    else if Length(t) == 0 then
      if t.Array? then
        Ok(Min(ToU32(idx'), Binary(Subtract, ArrayLength(base), Scalar(UintLit(1)))))
      else Err(InvalidZeroSize)
    else if idx.Scalar? then
      match ClampLiteral(idx.lit, Length(t))
      case Ok(lit) => Ok(Scalar(lit))
      case Err(d) => Err(d)
    else Ok(Min(ToU32(idx'), Scalar(UintLit(Length(t) - 1))))
  }

  /** The whole pass on one expression: every access at every depth, including those inside index
      expressions and inside the operand that arrayLength copies. */
  function Transform(env: Env, e: Expr): Result<Expr, Diagnostic> {
    match e
    case Scalar(_) => Ok(e)
    case Ident(_) => Ok(e)
    case Index(base, idx) =>
      (match (Transform(env, base), Transform(env, idx))
       case (Ok(b), Ok(i)) =>
         var t := match TypeOf(env, base) case Some(res) => res.UnwrapAll() case None => Void;
         (match NewIndex(t, b, idx, i) case Ok(i') => Ok(Index(b, i')) case Err(d) => Err(d))
       case (Err(d), _) => Err(d)
       case (_, Err(d)) => Err(d))
    case Dot(structure, member) =>
      (match Transform(env, structure) case Ok(s) => Ok(Dot(s, member)) case Err(d) => Err(d))
    case Binary(op, lhs, rhs) =>
      (match (Transform(env, lhs), Transform(env, rhs))
       case (Ok(l), Ok(r)) => Ok(Binary(op, l, r))
       case (Err(d), _) => Err(d)
       case (_, Err(d)) => Err(d))
    case ToU32(a) => (match Transform(env, a) case Ok(b) => Ok(ToU32(b)) case Err(d) => Err(d))
    case Min(a, b) =>
      (match (Transform(env, a), Transform(env, b))
       case (Ok(l), Ok(r)) => Ok(Min(l, r))
       case (Err(d), _) => Err(d)
       case (_, Err(d)) => Err(d))
    case ArrayLength(a) => (match Transform(env, a) case Ok(b) => Ok(ArrayLength(b)) case Err(d) => Err(d))
    case Operation(id, ty, args) =>
      (match Collect(seq(|args|, i requires 0 <= i < |args| => Transform(env, args[i])))
       case Ok(bs) => Ok(Operation(id, ty, bs))
       case Err(d) => Err(d))
  }

  /** The rewritten expression is there, is accepted, and keeps the determined type. */
  ghost predicate Retyped(env: Env, e: Expr) {
    && Transform(env, e).Ok?
    && Accepts(env, Transform(env, e).value)
    && TypeOf(env, Transform(env, e).value) == TypeOf(env, e)
  }

  /** An accepted index expression: an i32 or u32, so far as the determiner sees. */
  ghost predicate IndexLike(env: Env, i: Expr) {
    Accepts(env, i) && IntScalar(TypeOf(env, i).value.UnwrapAll())
  }

  lemma RuntimeIndexAccepted(env: Env, b: Expr, i: Expr)
    requires IndexLike(env, i) && Accepts(env, ArrayLength(b))
    ensures IndexLike(env, Min(ToU32(i), Binary(Subtract, ArrayLength(b), Scalar(UintLit(1)))))
  {
    LastIndexAccepted(env, b);
    ConversionAccepted(env, i);
    MinAccepted(env, ToU32(i), Binary(Subtract, ArrayLength(b), Scalar(UintLit(1))));
  }

  lemma ConversionAccepted(env: Env, i: Expr)
    requires IndexLike(env, i)
    ensures Accepts(env, ToU32(i)) && TypeOf(env, ToU32(i)) == Some(U32)
  {
  }

  lemma MinAccepted(env: Env, a: Expr, b: Expr)
    requires Accepts(env, a) && Accepts(env, b) && TypeOf(env, a) == TypeOf(env, b) == Some(U32)
    ensures IndexLike(env, Min(a, b))
  {
    assert U32.UnwrapAll() == U32;
  }

  lemma LastIndexAccepted(env: Env, b: Expr)
    requires Accepts(env, ArrayLength(b))
    ensures
      var last := Binary(Subtract, ArrayLength(b), Scalar(UintLit(1)));
      Accepts(env, last) && TypeOf(env, last) == Some(U32)
  {
    assert U32.UnwrapAll() == U32 && NumericShape(U32);
  }

  lemma DynamicIndexAccepted(env: Env, i: Expr, size: nat)
    requires IndexLike(env, i) && 0 < size < 0x8000_0000
    ensures IndexLike(env, Min(ToU32(i), Scalar(UintLit(size - 1))))
  {
    ConversionAccepted(env, i);
    MinAccepted(env, ToU32(i), Scalar(UintLit(size - 1)));
  }

  lemma LiteralIndexAccepted(env: Env, lit: Literal, size: nat)
    requires IndexLike(env, Scalar(lit)) && 0 < size < 0x8000_0000
    ensures ClampLiteral(lit, size).Ok? && IndexLike(env, Scalar(ClampLiteral(lit, size).value))
  {
  }

  lemma NewIndexAccepted(env: Env, t: Type, b: Expr, idx: Expr, i: Expr)
    requires Indexable(t) && WellFormed(t)
    requires IndexLike(env, idx) && IndexLike(env, i) && TypeOf(env, b).Some? && Accepts(env, b)
    requires TypeOf(env, b).value.UnwrapAll() == t
    ensures NewIndex(t, b, idx, i).Ok? && IndexLike(env, NewIndex(t, b, idx, i).value)
  {
    if Length(t) == 0 {
      LengthAccepted(env, b);
      RuntimeIndexAccepted(env, b, i);
    } else if idx.Scalar? {
      LiteralIndexAccepted(env, idx.lit, Length(t));
    } else {
      DynamicIndexAccepted(env, i, Length(t));
    }
  }

  lemma LengthAccepted(env: Env, b: Expr)
    requires Accepts(env, b) && WellFormed(TypeOf(env, b).value.UnwrapAll())
    requires var t := TypeOf(env, b).value.UnwrapAll(); Indexable(t) && Length(t) == 0
    ensures Accepts(env, ArrayLength(b))
  {
  }

  lemma IndexRetyped(env: Env, base: Expr, idx: Expr)
    requires Accepts(env, Index(base, idx)) && Retyped(env, base) && Retyped(env, idx)
    requires WellFormed(TypeOf(env, base).value)
    ensures Retyped(env, Index(base, idx))
  {
    var res := TypeOf(env, base).value;
    IndexTypeElement(res);
    NewIndexAccepted(env, res.UnwrapAll(), Transform(env, base).value, idx, Transform(env, idx).value);
  }

  lemma OtherRetyped(env: Env, e: Expr)
    requires Accepts(env, e)
    requires match e
             case Dot(a, _) => Retyped(env, a)
             case Binary(_, a, b) => Retyped(env, a) && Retyped(env, b)
             case Min(a, b) => Retyped(env, a) && Retyped(env, b)
             case ToU32(a) => Retyped(env, a)
             case ArrayLength(a) => Retyped(env, a)
             case _ => false
    ensures Retyped(env, e)
  {
  }

  lemma OperationRetyped(env: Env, e: Expr)
    requires e.Operation? && Accepts(env, e) && forall i | 0 <= i < |e.args| :: Retyped(env, e.args[i])
    ensures Retyped(env, e)
    ensures Transform(env, e).value.Operation? && |Transform(env, e).value.args| == |e.args|
    ensures forall i | 0 <= i < |e.args| :: Transform(env, e.args[i]) == Ok(Transform(env, e).value.args[i])
  {
    CollectFacts(seq(|e.args|, i requires 0 <= i < |e.args| => Transform(env, e.args[i])));
  }

  /** The pass succeeds on every accepted expression and its output is accepted at the same type. */
  lemma {:induction false} TransformTypes(env: Env, e: Expr)
    requires Accepts(env, e) && forall x | x in env :: WellFormed(env[x].ty)
    ensures Retyped(env, e)
  {
    match e {
      case Scalar(_) =>
      case Ident(_) =>
      case Index(base, idx) =>
        TransformTypes(env, base);
        TransformTypes(env, idx);
        TypesWellFormed(env, base);
        IndexRetyped(env, base, idx);
      case Dot(a, _) =>
        TransformTypes(env, a);
        OtherRetyped(env, e);
      case Binary(_, a, b) =>
        TransformTypes(env, a);
        TransformTypes(env, b);
        OtherRetyped(env, e);
      case Min(a, b) =>
        TransformTypes(env, a);
        TransformTypes(env, b);
        OtherRetyped(env, e);
      case ToU32(a) =>
        TransformTypes(env, a);
        OtherRetyped(env, e);
      case ArrayLength(a) =>
        TransformTypes(env, a);
        OtherRetyped(env, e);
      case Operation(_, _, args) =>
        forall i | 0 <= i < |args|
          ensures Retyped(env, args[i])
        {
          TransformTypes(env, args[i]);
        }
        OperationRetyped(env, e);
    }
  }

  // --- What the rewritten indices select ---

  /** The index a rewritten access uses when its object has n elements and its index evaluates to i. */
  function Clamped(i: int, n: nat): (k: nat)
    requires n > 0
    ensures k < n
  {
    MinInt(i % 0x1_0000_0000, n - 1)
  }

  /** What the header promises: before the start becomes 0, past the end becomes n - 1. */
  function Documented(i: int, n: nat): nat
    requires n > 0
  {
    MaxInt(MinInt(i, n - 1), 0)
  }

  /** The evaluated index of the rewritten access: the clamped one, or for a literal the documented one. */
  lemma NewIndexValue(p: Prims, store: Store, t: Type, v: Value, n: nat, b: Expr, idx: Expr, idx': Expr, i: Value)
    requires GoodPrims(p) && Indexable(t) && WellFormed(t)
    requires if Length(t) == 0 then t.Array? && v.ArrV? && n == |v.elems| else n == Length(t)
    requires 1 <= n < 0x1_0000_0000
    requires Eval(p, store, b) == Ok(v) && Eval(p, store, idx') == Ok(i) && IndexOf(i).Some?
    requires i.UintV? ==> i.u < 0x1_0000_0000
    requires idx.Scalar? ==> LiteralValue(idx.lit) == i
    ensures NewIndex(t, b, idx, idx').Ok?
    ensures
      var k := Eval(p, store, NewIndex(t, b, idx, idx').value);
      && k.Ok? && IndexOf(k.value) ==
           Some(if idx.Scalar? && Length(t) != 0 then Documented(IndexOf(i).value, n) else Clamped(IndexOf(i).value, n))
  {
    if Length(t) == 0 {
      LastIndex(p, n);
      RuntimeIndexValue(p, store, v, b, idx', i);
    } else {
      SizedIndexValue(p, store, t, b, idx, idx', i);
    }
  }

  lemma SizedIndexValue(p: Prims, store: Store, t: Type, b: Expr, idx: Expr, idx': Expr, i: Value)
    requires Indexable(t) && WellFormed(t) && 1 <= Length(t) < 0x8000_0000
    requires Eval(p, store, idx') == Ok(i) && IndexOf(i).Some?
    requires i.UintV? ==> i.u < 0x1_0000_0000
    requires idx.Scalar? ==> LiteralValue(idx.lit) == i
    ensures NewIndex(t, b, idx, idx').Ok?
    ensures
      var k := Eval(p, store, NewIndex(t, b, idx, idx').value);
      && k.Ok? && IndexOf(k.value) ==
           Some(if idx.Scalar? then Documented(IndexOf(i).value, Length(t)) else Clamped(IndexOf(i).value, Length(t)))
  {
    if idx.Scalar? {
      LiteralIndexValue(idx.lit, Length(t));
    } else {
      DynamicIndexValue(p, store, Length(t), idx', i);
    }
  }

  lemma LiteralIndexValue(lit: Literal, n: nat)
    requires 1 <= n < 0x8000_0000 && IndexOf(LiteralValue(lit)).Some?
    ensures ClampLiteral(lit, n).Ok?
    ensures IndexOf(LiteralValue(ClampLiteral(lit, n).value)) == Some(Documented(IndexOf(LiteralValue(lit)).value, n))
  {
  }

  lemma DynamicIndexValue(p: Prims, store: Store, n: nat, idx': Expr, i: Value)
    requires 1 <= n && Eval(p, store, idx') == Ok(i) && IndexOf(i).Some?
    requires i.UintV? ==> i.u < 0x1_0000_0000
    ensures Eval(p, store, Min(ToU32(idx'), Scalar(UintLit(n - 1)))) == Ok(UintV(Clamped(IndexOf(i).value, n)))
  {
    ConvertedValue(p, store, idx', i);
    MinValue(p, store, ToU32(idx'), Scalar(UintLit(n - 1)), IndexOf(i).value, n);
  }

  lemma ConvertedValue(p: Prims, store: Store, idx': Expr, i: Value)
    requires Eval(p, store, idx') == Ok(i) && IndexOf(i).Some?
    requires i.UintV? ==> i.u < 0x1_0000_0000
    ensures Eval(p, store, ToU32(idx')) == Ok(UintV(IndexOf(i).value % 0x1_0000_0000))
  {
  }

  lemma MinValue(p: Prims, store: Store, a: Expr, b: Expr, i: int, n: nat)
    requires 1 <= n && Eval(p, store, a) == Ok(UintV(i % 0x1_0000_0000)) && Eval(p, store, b) == Ok(UintV(n - 1))
    ensures Eval(p, store, Min(a, b)) == Ok(UintV(Clamped(i, n)))
  {
  }

  lemma LastIndex(p: Prims, n: nat)
    requires GoodPrims(p) && 1 <= n < 0x1_0000_0000
    ensures p.scalar(Subtract, UintV(n), UintV(1)) == UintV(n - 1)
  {
    var x: nat, y: nat := n, 1;
    assert p.scalar(Subtract, UintV(x), UintV(y)) == UintV((x - y) % 0x1_0000_0000);
  }

  lemma RuntimeIndexValue(p: Prims, store: Store, v: Value, b: Expr, idx': Expr, i: Value)
    requires v.ArrV? && 1 <= |v.elems| < 0x1_0000_0000
    requires p.scalar(Subtract, UintV(|v.elems|), UintV(1)) == UintV(|v.elems| - 1)
    requires Eval(p, store, b) == Ok(v) && Eval(p, store, idx') == Ok(i) && IndexOf(i).Some?
    requires i.UintV? ==> i.u < 0x1_0000_0000
    ensures Eval(p, store, Min(ToU32(idx'), Binary(Subtract, ArrayLength(b), Scalar(UintLit(1)))))
         == Ok(UintV(Clamped(IndexOf(i).value, |v.elems|)))
  {
    ConvertedValue(p, store, idx', i);
    LastIndexOf(p, store, v, b);
    MinValue(p, store, ToU32(idx'), Binary(Subtract, ArrayLength(b), Scalar(UintLit(1))), IndexOf(i).value, |v.elems|);
  }

  lemma LastIndexOf(p: Prims, store: Store, v: Value, b: Expr)
    requires v.ArrV? && 1 <= |v.elems| && Eval(p, store, b) == Ok(v)
    requires p.scalar(Subtract, UintV(|v.elems|), UintV(1)) == UintV(|v.elems| - 1)
    ensures Eval(p, store, Binary(Subtract, ArrayLength(b), Scalar(UintLit(1)))) == Ok(UintV(|v.elems| - 1))
  {
    assert Eval(p, store, ArrayLength(b)) == Ok(UintV(|v.elems|));
  }

  /** The header's promise is kept exactly for indices that are not negative, or when there is one
      element only: a negative dynamic index becomes the last element instead of the first. */
  lemma ClampedAsDocumented(i: int, n: nat)
    requires -0x8000_0000 <= i < 0x1_0000_0000 && 0 < n < 0x8000_0000
    ensures Clamped(i, n) == Documented(i, n) <==> i >= 0 || n == 1
    ensures i < 0 ==> Clamped(i, n) == n - 1
    ensures 0 <= i < n ==> Clamped(i, n) == Documented(i, n) == i
  {
  }

  // --- Bounds safety ---

  /** The rewritten expression evaluates without a trap to a value of the determined type, and to
      the original's value if the original makes no access out of bounds. */
  ghost predicate Tamed(p: Prims, env: Env, store: Store, e: Expr) {
    && Transform(env, e).Ok? && TypeOf(env, e).Some?
    && var r := Eval(p, store, Transform(env, e).value);
       && r.Ok? && HasShape(r.value, TypeOf(env, e).value)
       && (Eval(p, store, e).Ok? ==> r == Eval(p, store, e))
  }

  /** Where the original access is in bounds, the rewritten one picks the same element; elsewhere it
      picks the clamped one. */
  ghost predicate SameElement(p: Prims, env: Env, store: Store, base: Expr, idx: Expr)
    requires Tamed(p, env, store, base) && Tamed(p, env, store, idx) && Transform(env, Index(base, idx)).Ok?
  {
    var v := Eval(p, store, Transform(env, base).value).value;
    var i := Eval(p, store, Transform(env, idx).value).value;
    var e' := Transform(env, Index(base, idx)).value;
    && TypeOf(env, base).Some? && Indexable(TypeOf(env, base).value.UnwrapAll())
    && e'.Index? && e'.base == Transform(env, base).value
    && Eval(p, store, e'.idx).Ok? && Components(v).Some? && IndexOf(i).Some?
    && |Components(v).value| > 0
    && var n, k := |Components(v).value|, IndexOf(Eval(p, store, e'.idx).value);
       && k == Some(if idx.Scalar? && Length(TypeOf(env, base).value.UnwrapAll()) != 0
                    then Documented(IndexOf(i).value, n) else Clamped(IndexOf(i).value, n))
       && (0 <= IndexOf(i).value < n ==> k == IndexOf(i))
  }

  lemma IndexTamed(p: Prims, env: Env, store: Store, base: Expr, idx: Expr)
    requires GoodPrims(p) && Conforms(env, store) && Accepts(env, Index(base, idx))
    requires Tamed(p, env, store, base) && Tamed(p, env, store, idx)
    ensures Tamed(p, env, store, Index(base, idx))
    ensures SameElement(p, env, store, base, idx)
  {
    TypesWellFormed(env, base);
    IndexElement(p, env, store, base, idx);
    var e' := Transform(env, Index(base, idx)).value;
    ElementTamed(p, env, store, base, idx, Eval(p, store, e'.base).value, Eval(p, store, e'.idx).value);
  }

  /** An access whose object has value v and whose rewritten index has value k, one of the object's. */
  lemma ElementTamed(p: Prims, env: Env, store: Store, base: Expr, idx: Expr, v: Value, k: Value)
    requires TypeOf(env, Index(base, idx)).Some? && Transform(env, Index(base, idx)).Ok?
    requires WellFormed(TypeOf(env, base).value) && HasShape(v, TypeOf(env, base).value)
    requires
      var e' := Transform(env, Index(base, idx)).value;
      e'.Index? && Eval(p, store, e'.base) == Ok(v) && Eval(p, store, e'.idx) == Ok(k)
    requires Components(v).Some? && IndexOf(k).Some? && 0 <= IndexOf(k).value < |Components(v).value|
    requires Eval(p, store, base).Ok? ==> Eval(p, store, base) == Ok(v)
    requires Eval(p, store, idx).Ok? ==> AccessAt(v, Eval(p, store, idx).value).Ok? ==> IndexOf(Eval(p, store, idx).value) == IndexOf(k)
    ensures Tamed(p, env, store, Index(base, idx))
  {
    IndexSoundAt(v, k, TypeOf(env, base).value);
    assert Eval(p, store, Transform(env, Index(base, idx)).value) == AccessAt(v, k);
  }

  /** Which element the rewritten access picks, and that it is one of the object's. */
  lemma IndexElement(p: Prims, env: Env, store: Store, base: Expr, idx: Expr)
    requires GoodPrims(p) && Accepts(env, Index(base, idx)) && WellFormed(TypeOf(env, base).value)
    requires Tamed(p, env, store, base) && Tamed(p, env, store, idx)
    ensures Transform(env, Index(base, idx)).Ok? && SameElement(p, env, store, base, idx)
    ensures
      var e' := Transform(env, Index(base, idx)).value;
      var v, k := Eval(p, store, Transform(env, base).value).value, IndexOf(Eval(p, store, e'.idx).value);
      0 <= k.value < |Components(v).value|
  {
    OperandFacts(p, env, store, base, idx);
    var t := TypeOf(env, base).value.UnwrapAll();
    var b, i := Transform(env, base).value, Transform(env, idx).value;
    var v, k := Eval(p, store, b).value, Eval(p, store, i).value;
    NewIndexValue(p, store, t, v, |Components(v).value|, b, idx, i, k);
    SmallIndex(IndexOf(k).value, |Components(v).value|);
  }

  lemma SmallIndex(i: int, n: nat)
    requires n > 0
    ensures 0 <= Documented(i, n) < n
    ensures 0 <= i < n < 0x1_0000_0000 ==> Clamped(i, n) == Documented(i, n) == i
  {
  }

  lemma OperandFacts(p: Prims, env: Env, store: Store, base: Expr, idx: Expr)
    requires Accepts(env, Index(base, idx)) && WellFormed(TypeOf(env, base).value)
    requires Tamed(p, env, store, base) && Tamed(p, env, store, idx)
    ensures
      var t := TypeOf(env, base).value.UnwrapAll();
      var v := Eval(p, store, Transform(env, base).value).value;
      var i := Eval(p, store, Transform(env, idx).value).value;
      && Indexable(t) && WellFormed(t)
      && Components(v).Some?
      && (if Length(t) == 0 then t.Array? && v.ArrV? && |Components(v).value| == |v.elems|
          else |Components(v).value| == Length(t))
      && 1 <= |Components(v).value| < 0x1_0000_0000
      && IndexOf(i).Some? && (i.UintV? ==> i.u < 0x1_0000_0000)
      && (idx.Scalar? ==> LiteralValue(idx.lit) == i)
  {
    var res, it := TypeOf(env, base).value, TypeOf(env, idx).value;
    var v := Eval(p, store, Transform(env, base).value).value;
    var i := Eval(p, store, Transform(env, idx).value).value;
    IndexTypeElement(res);
    IndexNumber(i, it);
    TransparentAll(i, it);
    TransparentAll(v, res);
    ComponentsShaped(v, res.UnwrapAll());
  }

  /** An access in bounds, whatever the type of the index. */
  lemma IndexSoundAt(v: Value, k: Value, res: Type)
    requires HasShape(v, res) && WellFormed(res) && IndexType(res).Some?
    requires Components(v).Some? && IndexOf(k).Some? && 0 <= IndexOf(k).value < |Components(v).value|
    ensures AccessAt(v, k).Ok? && HasShape(AccessAt(v, k).value, IndexType(res).value)
  {
    IndexTypeElement(res);
    TransparentAll(v, res);
    ComponentsShaped(v, res.UnwrapAll());
    var w := AccessAt(v, k).value;
    assert HasShape(w, ElementType(res.UnwrapAll()));
    Transparent(w, IndexType(res).value);
    Transparent(w, ElementType(res.UnwrapAll()));
  }

  lemma OtherTamed(p: Prims, env: Env, store: Store, e: Expr)
    requires Retyped(env, e) && SoundExpr(p, env, store, Transform(env, e).value)
    requires match e
             case Dot(a, _) => Tamed(p, env, store, a)
             case Binary(_, a, b) => Tamed(p, env, store, a) && Tamed(p, env, store, b)
             case Min(a, b) => Tamed(p, env, store, a) && Tamed(p, env, store, b)
             case ToU32(a) => Tamed(p, env, store, a)
             case ArrayLength(a) => Tamed(p, env, store, a)
             case _ => false
    ensures Tamed(p, env, store, e)
  {
    match e {
      case Binary(_, a, b) => TwoTamed(p, env, store, e, a, b);
      case Min(a, b) => TwoTamed(p, env, store, e, a, b);
      case _ =>
    }
  }

  lemma TwoTamed(p: Prims, env: Env, store: Store, e: Expr, a: Expr, b: Expr)
    requires Retyped(env, e) && SoundExpr(p, env, store, Transform(env, e).value)
    requires Tamed(p, env, store, a) && Tamed(p, env, store, b)
    requires (e.Binary? && a == e.lhs && b == e.rhs) || e == Min(a, b)
    ensures Tamed(p, env, store, e)
  {
  }

  lemma RewrittenSound(p: Prims, env: Env, store: Store, e: Expr)
    requires GoodPrims(p) && Conforms(env, store) && Accepts(env, e)
    ensures Retyped(env, e) && SoundExpr(p, env, store, Transform(env, e).value)
  {
    TransformTypes(env, e);
    TypeSound(p, env, store, Transform(env, e).value);
  }

  /** Bounds safety and meaning preservation: for every store, the rewritten expression never
      accesses out of bounds, and it has the original's value whenever the original is in bounds. */
  lemma {:induction false} TransformSafe(p: Prims, env: Env, store: Store, e: Expr)
    requires GoodPrims(p) && Conforms(env, store) && Accepts(env, e)
    ensures Tamed(p, env, store, e)
    decreases e, 1
  {
    match e {
      case Index(base, idx) =>
        TransformSafe(p, env, store, base);
        TransformSafe(p, env, store, idx);
        IndexTamed(p, env, store, base, idx);
      case Operation(_, _, _) =>
        OperandsSafe(p, env, store, e);
        OperationSafe(p, env, store, e);
      case _ => NestedSafe(p, env, store, e);
    }
  }

  lemma {:induction false} NestedSafe(p: Prims, env: Env, store: Store, e: Expr)
    requires GoodPrims(p) && Conforms(env, store) && Accepts(env, e) && !e.Index? && !e.Operation?
    ensures Tamed(p, env, store, e)
    decreases e, 0
  {
    match e {
      case Scalar(_) =>
      case Ident(_) =>
      case Dot(a, _) => TransformSafe(p, env, store, a);
      case ToU32(a) => TransformSafe(p, env, store, a);
      case ArrayLength(a) => TransformSafe(p, env, store, a);
      case Binary(_, a, b) =>
        TransformSafe(p, env, store, a);
        TransformSafe(p, env, store, b);
      case Min(a, b) =>
        TransformSafe(p, env, store, a);
        TransformSafe(p, env, store, b);
    }
    RewrittenSound(p, env, store, e);
    if !e.Scalar? && !e.Ident? {
      OtherTamed(p, env, store, e);
    }
  }

  lemma {:induction false} OperandsSafe(p: Prims, env: Env, store: Store, e: Expr)
    requires GoodPrims(p) && Conforms(env, store) && e.Operation? && Accepts(env, e)
    ensures forall i | 0 <= i < |e.args| :: Tamed(p, env, store, e.args[i])
    decreases e, 0
  {
    forall i | 0 <= i < |e.args|
      ensures Tamed(p, env, store, e.args[i])
    {
      TransformSafe(p, env, store, e.args[i]);
    }
  }

  lemma OperationSafe(p: Prims, env: Env, store: Store, e: Expr)
    requires GoodPrims(p) && Conforms(env, store) && e.Operation? && Accepts(env, e)
    requires forall i | 0 <= i < |e.args| :: Tamed(p, env, store, e.args[i])
    ensures Tamed(p, env, store, e)
  {
    RewrittenSound(p, env, store, e);
    forall i | 0 <= i < |e.args|
      ensures Retyped(env, e.args[i])
    {
      TransformTypes(env, e.args[i]);
    }
    OperationRetyped(env, e);
    var old_ := seq(|e.args|, i requires 0 <= i < |e.args| => Eval(p, store, e.args[i]));
    var args' := Transform(env, e).value.args;
    var new_ := seq(|args'|, i requires 0 <= i < |args'| => Eval(p, store, args'[i]));
    CollectAgrees(old_, new_);
  }

  lemma CollectAgrees<T, E>(rs: seq<Result<T, E>>, better: seq<Result<T, E>>)
    requires |better| == |rs| && forall i | 0 <= i < |rs| :: better[i].Ok? && (rs[i].Ok? ==> better[i] == rs[i])
    ensures Collect(better).Ok? && (Collect(rs).Ok? ==> Collect(better) == Collect(rs))
  {
    CollectFacts(rs);
    CollectFacts(better);
    if Collect(rs).Ok? {
      assert Collect(better).value == Collect(rs).value;
    }
  }

  /** Running the pass again never changes a value, for indices in or out of bounds. */
  lemma TransformTwice(p: Prims, env: Env, store: Store, e: Expr)
    requires GoodPrims(p) && Conforms(env, store) && Accepts(env, e)
    ensures Transform(env, e).Ok? && Transform(env, Transform(env, e).value).Ok?
    ensures Eval(p, store, Transform(env, Transform(env, e).value).value) == Eval(p, store, Transform(env, e).value)
  {
    TransformTypes(env, e);
    TransformSafe(p, env, store, e);
    TransformSafe(p, env, store, Transform(env, e).value);
  }
}
