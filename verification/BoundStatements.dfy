/** The bounds pass on statements: assignments through accesses, branches, loops and jumps. A local
    declaration with an initializer is an assignment to its variable. */
module BoundStatements {
  import opened Wrappers
  import opened Types
  import opened Shapes
  import opened BoundArrayAccessors

  datatype Stmt =
    | Skip
    | Seq(first: Stmt, second: Stmt)
    | Assign(lhs: Expr, rhs: Expr)
    | If(cond: Expr, thn: Stmt, els: Stmt)
    | Loop(body: Stmt, continuing: Stmt)
    | Evaluate(e: Expr)
    | Break
    | Continue
    | Return(value: Option<Expr>)

  // --- Assignment ---

  /** The object v with its element k replaced. */
  function Replaced(v: Value, k: nat, w: Value): Option<Value>
    requires Components(v).Some? && k < |Components(v).value|
  {
    match v
    case VecV(elems) => Some(VecV(elems[k := w]))
    case ArrV(elems) => Some(ArrV(elems[k := w]))
    case MatV(cols) => if w.VecV? then Some(MatV(cols[k := w.elems])) else None
    case _ => None
  }

  function ReplaceField(fields: seq<(string, Value)>, name: string, w: Value): (r: seq<(string, Value)>)
    ensures |r| == |fields|
  {
    if fields == [] then []
    else if fields[0].0 == name then [(name, w)] + fields[1..]
    else [fields[0]] + ReplaceField(fields[1..], name, w)
  }

  function ReplacedMember(v: Value, member: string, w: Value): Option<Value> {
    match v
    case StructV(fields) =>
      if FindField(fields, member).Some? then Some(StructV(ReplaceField(fields, member, w))) else None
    case VecV(elems) =>
      if |member| == 1 && IsSwizzle(member, |elems|) then Some(VecV(elems[Letter(member[0]) := w])) else None
    case _ => None
  }

  /** Stores w in the place lhs denotes. */
  function Write(p: Prims, store: Store, lhs: Expr, w: Value): Result<Store, Trap>
    decreases lhs, 0
  {
    match lhs
    case Ident(x) => if x in store then Ok(store[x := w]) else Err(Stuck)
    case Index(base, idx) =>
      (match Eval(p, store, base)
       case Err(t) => Err(t)
       case Ok(v) =>
         match Eval(p, store, idx)
         case Err(t) => Err(t)
         case Ok(i) =>
           match AccessAt(v, i)
           case Err(t) => Err(t)
           case Ok(_) => WriteBack(p, store, base, Replaced(v, IndexOf(i).value, w)))
    case Dot(structure, member) =>
      (match Eval(p, store, structure)
       case Err(t) => Err(t)
       case Ok(v) => WriteBack(p, store, structure, ReplacedMember(v, member, w)))
    case _ => Err(Stuck)
  }

  function WriteBack(p: Prims, store: Store, base: Expr, u: Option<Value>): Result<Store, Trap>
    decreases base, 1
  {
    match u case None => Err(Stuck) case Some(v) => Write(p, store, base, v)
  }

  /** Places that can be assigned: they start at a variable and do not end in a wider swizzle. */
  predicate Place(env: Env, e: Expr) {
    match e
    case Ident(x) => x in env
    case Index(base, _) => Place(env, base)
    case Dot(a, member) =>
      Place(env, a) && TypeOf(env, a).Some?
      && (TypeOf(env, a).value.UnwrapPtr().Unwrap().Vector? ==> |member| == 1)
    case _ => false
  }

  predicate AcceptsStmt(env: Env, s: Stmt) {
    match s
    case Skip => true
    case Seq(a, b) => AcceptsStmt(env, a) && AcceptsStmt(env, b)
    case Assign(lhs, rhs) =>
      && Accepts(env, lhs) && Accepts(env, rhs) && Place(env, lhs)
      && TypeOf(env, lhs).value.UnwrapAll() == TypeOf(env, rhs).value.UnwrapAll()
    case If(cond, a, b) => Condition(env, cond) && AcceptsStmt(env, a) && AcceptsStmt(env, b)
    case Loop(body, continuing) => AcceptsStmt(env, body) && AcceptsStmt(env, continuing)
    case Evaluate(e) => Accepts(env, e)
    case Break => true
    case Continue => true
    case Return(value) => value.Some? ==> Accepts(env, value.value)
  }

  predicate Condition(env: Env, cond: Expr) {
    Accepts(env, cond) && TypeOf(env, cond).value.UnwrapAll() == Bool
  }

  // --- Execution, bounded by fuel so that loops need not end ---

  datatype Outcome =
    | Done(store: Store) | Broke(store: Store) | Continued(store: Store) | Returned(store: Store, val: Option<Value>)
    | Trapped(trap: Trap) | OutOfFuel

  function Exec(p: Prims, store: Store, s: Stmt, fuel: nat): Outcome
    decreases fuel, s
  {
    match s
    case Skip => Done(store)
    case Seq(a, b) =>
      (match Exec(p, store, a, fuel) case Done(st) => Exec(p, st, b, fuel) case o => o)
    case Assign(lhs, rhs) =>
      (match Eval(p, store, rhs)
       case Err(t) => Trapped(t)
       case Ok(v) => match Write(p, store, lhs, v) case Ok(st) => Done(st) case Err(t) => Trapped(t))
    case If(cond, a, b) =>
      (match Eval(p, store, cond)
       case Err(t) => Trapped(t)
       case Ok(v) => if !v.BoolV? then Trapped(Stuck) else if v.b then Exec(p, store, a, fuel) else Exec(p, store, b, fuel))
    case Loop(body, continuing) =>
      if fuel == 0 then OutOfFuel
      else
        (match Resumed(Exec(p, store, body, fuel - 1))
         case Done(st) =>
           (match Resumed(Exec(p, st, continuing, fuel - 1)) case Done(st') => Exec(p, st', s, fuel - 1) case o => Leave(o))
         case o => Leave(o))
    case Evaluate(e) => (match Eval(p, store, e) case Err(t) => Trapped(t) case Ok(_) => Done(store))
    case Break => Broke(store)
    case Continue => Continued(store)
    case Return(value) =>
      if value.None? then Returned(store, None)
      else match Eval(p, store, value.value) case Err(t) => Trapped(t) case Ok(v) => Returned(store, Some(v))
  }

  /** A block that continues goes on with what follows in the turn. */
  function Resumed(o: Outcome): Outcome {
    if o.Continued? then Done(o.store) else o
  }

  /** A loop is left by a break. */
  function Leave(o: Outcome): Outcome {
    if o.Broke? then Done(o.store) else o
  }

  // --- The pass ---

  /** The pass on an accepted statement, whose expressions it never rejects. */
  function TransformStmt(env: Env, s: Stmt): Stmt
    requires AcceptsStmt(env, s) && forall x | x in env :: WellFormed(env[x].ty)
  {
    match s
    case Skip => Skip
    case Seq(a, b) => Seq(TransformStmt(env, a), TransformStmt(env, b))
    case Assign(lhs, rhs) =>
      TransformTypes(env, lhs);
      TransformTypes(env, rhs);
      Assign(Transform(env, lhs).value, Transform(env, rhs).value)
    case If(cond, a, b) =>
      TransformTypes(env, cond);
      If(Transform(env, cond).value, TransformStmt(env, a), TransformStmt(env, b))
    case Loop(body, continuing) => Loop(TransformStmt(env, body), TransformStmt(env, continuing))
    case Evaluate(e) =>
      TransformTypes(env, e);
      Evaluate(Transform(env, e).value)
    case Break => Break
    case Continue => Continue
    case Return(value) =>
      if value.None? then Return(None)
      else
        TransformTypes(env, value.value);
        Return(Some(Transform(env, value.value).value))
  }

  // --- Writing through a rewritten place ---

  lemma ReplacedShaped(v: Value, k: nat, w: Value, res: Type)
    requires HasShape(v, res) && WellFormed(res) && IndexType(res).Some? && HasShape(w, IndexType(res).value)
    requires Components(v).Some? && k < |Components(v).value|
    ensures Replaced(v, k, w).Some? && HasShape(Replaced(v, k, w).value, res)
  {
    IndexTypeElement(res);
    var t := res.UnwrapAll();
    TransparentAll(v, res);
    Transparent(w, IndexType(res).value);
    Transparent(w, ElementType(t));
    assert HasShape(w, ElementType(t));
    ReplacedElement(v, k, w, t);
    TransparentAll(Replaced(v, k, w).value, res);
  }

  lemma ReplacedElement(v: Value, k: nat, w: Value, t: Type)
    requires Indexable(t) && HasShape(v, t) && HasShape(w, ElementType(t))
    requires Components(v).Some? && k < |Components(v).value|
    ensures Replaced(v, k, w).Some? && HasShape(Replaced(v, k, w).value, t)
  {
  }

  lemma {:induction false} ReplacedFieldShaped(fields: seq<(string, Value)>, members: seq<Member>, name: string, w: Value)
    requires |fields| == |members| && FindMember(members, name).Some? && HasShape(w, FindMember(members, name).value)
    requires forall k | 0 <= k < |members| :: fields[k].0 == members[k].name && HasShape(fields[k].1, members[k].ty)
    ensures FindField(fields, name).Some?
    ensures forall k | 0 <= k < |members| ::
              ReplaceField(fields, name, w)[k].0 == members[k].name && HasShape(ReplaceField(fields, name, w)[k].1, members[k].ty)
  {
    if members[0].name != name {
      ReplacedFieldShaped(fields[1..], members[1..], name, w);
    }
  }

  lemma ReplacedMemberShaped(v: Value, res: Type, member: string, w: Value)
    requires HasShape(v, res) && WellFormed(res) && MemberType(res, member).Some?
    requires HasShape(w, MemberType(res, member).value)
    requires var t := res.UnwrapPtr().Unwrap(); t.Vector? ==> |member| == 1 && IsSwizzle(member, t.size)
    ensures ReplacedMember(v, member, w).Some? && HasShape(ReplacedMember(v, member, w).value, res)
  {
    var t := res.UnwrapPtr().Unwrap();
    TransparentAll(v, res);
    WellFormedUnwrapAll(res);
    Transparent(w, MemberType(res, member).value);
    if t.Struct? {
      ReplacedFieldShaped(v.fields, t.members, member, w);
    }
    TransparentAll(ReplacedMember(v, member, w).value, res);
  }

  /** A write through a rewritten place succeeds, keeps every variable's shape, and writes what the
      original writes whenever the original stays in bounds. */
  ghost predicate WriteTamed(p: Prims, env: Env, store: Store, lhs: Expr, w: Value) {
    && Transform(env, lhs).Ok?
    && var r := Write(p, store, Transform(env, lhs).value, w);
       && r.Ok? && Conforms(env, r.value)
       && (Write(p, store, lhs, w).Ok? ==> r == Write(p, store, lhs, w))
  }

  /** One step of a write through an access: the rewritten place puts w in an element of the base
      object, the original's element if that one exists. */
  lemma IndexPlace(p: Prims, env: Env, store: Store, base: Expr, idx: Expr, w: Value) returns (u: Value)
    requires GoodPrims(p) && Conforms(env, store) && Accepts(env, Index(base, idx))
    requires HasShape(w, TypeOf(env, Index(base, idx)).value)
    ensures Transform(env, Index(base, idx)).Ok? && Transform(env, base).Ok? && HasShape(u, TypeOf(env, base).value)
    ensures Write(p, store, Transform(env, Index(base, idx)).value, w) == Write(p, store, Transform(env, base).value, u)
    ensures Write(p, store, Index(base, idx), w).Ok? ==>
              Write(p, store, Index(base, idx), w) == Write(p, store, base, u)
  {
    TypesWellFormed(env, base);
    TransformSafe(p, env, store, base);
    TransformSafe(p, env, store, idx);
    IndexTamed(p, env, store, base, idx);
    var b, e' := Transform(env, base).value, Transform(env, Index(base, idx)).value;
    var v, k := Eval(p, store, b).value, IndexOf(Eval(p, store, e'.idx).value).value;
    SmallIndex(IndexOf(Eval(p, store, Transform(env, idx).value).value).value, |Components(v).value|);
    ReplacedShaped(v, k, w, TypeOf(env, base).value);
    u := Replaced(v, k, w).value;
    WriteIndex(p, store, b, e'.idx, v, k, w, u);
    if Write(p, store, Index(base, idx), w).Ok? {
      OriginalIndex(p, env, store, base, idx, w);
      WriteIndex(p, store, base, idx, v, k, w, u);
    }
  }

  /** Where the original write succeeds, its base and index are those of the rewritten one. */
  lemma OriginalIndex(p: Prims, env: Env, store: Store, base: Expr, idx: Expr, w: Value)
    requires Tamed(p, env, store, base) && Tamed(p, env, store, idx) && Transform(env, Index(base, idx)).Ok?
    requires SameElement(p, env, store, base, idx) && Write(p, store, Index(base, idx), w).Ok?
    ensures Eval(p, store, base) == Eval(p, store, Transform(env, base).value)
    ensures Eval(p, store, idx).Ok?
    ensures
      var e' := Transform(env, Index(base, idx)).value;
      IndexOf(Eval(p, store, idx).value) == IndexOf(Eval(p, store, e'.idx).value)
  {
  }

  lemma WriteIndex(p: Prims, store: Store, base: Expr, idx: Expr, v: Value, k: nat, w: Value, u: Value)
    requires Eval(p, store, base) == Ok(v) && Components(v).Some? && k < |Components(v).value|
    requires Eval(p, store, idx).Ok? && IndexOf(Eval(p, store, idx).value) == Some(k)
    requires Replaced(v, k, w) == Some(u)
    ensures Write(p, store, Index(base, idx), w) == Write(p, store, base, u)
  {
  }

  lemma MemberPlace(p: Prims, env: Env, store: Store, a: Expr, member: string, w: Value) returns (u: Value)
    requires GoodPrims(p) && Conforms(env, store) && Accepts(env, Dot(a, member)) && Place(env, Dot(a, member))
    requires HasShape(w, TypeOf(env, Dot(a, member)).value)
    ensures Transform(env, Dot(a, member)).Ok? && Transform(env, a).Ok? && HasShape(u, TypeOf(env, a).value)
    ensures Write(p, store, Transform(env, Dot(a, member)).value, w) == Write(p, store, Transform(env, a).value, u)
    ensures Write(p, store, Dot(a, member), w).Ok? ==>
              Write(p, store, Dot(a, member), w) == Write(p, store, a, u)
  {
    TypesWellFormed(env, a);
    TransformSafe(p, env, store, a);
    var v := Eval(p, store, Transform(env, a).value).value;
    ReplacedMemberShaped(v, TypeOf(env, a).value, member, w);
    u := ReplacedMember(v, member, w).value;
  }

  lemma {:induction false} WriteSafe(p: Prims, env: Env, store: Store, lhs: Expr, w: Value)
    requires GoodPrims(p) && Conforms(env, store) && Accepts(env, lhs) && Place(env, lhs)
    requires HasShape(w, TypeOf(env, lhs).value)
    ensures WriteTamed(p, env, store, lhs, w)
  {
    match lhs {
      case Ident(x) =>
        Transparent(w, TypeOf(env, lhs).value);
      case Index(base, idx) =>
        var u := IndexPlace(p, env, store, base, idx, w);
        WriteSafe(p, env, store, base, u);
      case Dot(a, member) =>
        var u := MemberPlace(p, env, store, a, member, w);
        WriteSafe(p, env, store, a, u);
    }
  }

  // --- Whole runs ---

  /** For every store and every fuel: the rewritten statement never traps and keeps shapes, and its
      outcome is the original's unless the original traps. */
  ghost predicate RunTamed(p: Prims, env: Env, store: Store, s: Stmt, fuel: nat)
    requires AcceptsStmt(env, s) && forall x | x in env :: WellFormed(env[x].ty)
  {
    var r := Exec(p, store, TransformStmt(env, s), fuel);
    && !r.Trapped?
    && (!r.OutOfFuel? ==> Conforms(env, r.store))
    && (!Exec(p, store, s, fuel).Trapped? ==> r == Exec(p, store, s, fuel))
  }

  lemma {:induction false} RunSafe(p: Prims, env: Env, store: Store, s: Stmt, fuel: nat)
    requires GoodPrims(p) && Conforms(env, store) && AcceptsStmt(env, s)
    ensures RunTamed(p, env, store, s, fuel)
    decreases fuel, s, 2
  {
    match s {
      case Skip =>
      case Seq(_, _) => RunSequence(p, env, store, s, fuel);
      case Assign(lhs, rhs) => AssignSafe(p, env, store, lhs, rhs, fuel);
      case If(_, _, _) => RunBranch(p, env, store, s, fuel);
      case Loop(_, _) => RunLoop(p, env, store, s, fuel);
      case Evaluate(e) => TransformSafe(p, env, store, e);
      case Break =>
      case Continue =>
      case Return(value) =>
        if value.Some? {
          TransformSafe(p, env, store, value.value);
        }
    }
  }

  lemma {:induction false} RunSequence(p: Prims, env: Env, store: Store, s: Stmt, fuel: nat)
    requires GoodPrims(p) && Conforms(env, store) && AcceptsStmt(env, s) && s.Seq?
    ensures RunTamed(p, env, store, s, fuel)
    decreases fuel, s, 0
  {
    RunSafe(p, env, store, s.first, fuel);
    var r := Exec(p, store, TransformStmt(env, s.first), fuel);
    if r.Done? {
      RunSafe(p, env, r.store, s.second, fuel);
    }
    SequenceSafe(p, env, store, s.first, s.second, fuel);
  }

  lemma {:induction false} RunBranch(p: Prims, env: Env, store: Store, s: Stmt, fuel: nat)
    requires GoodPrims(p) && Conforms(env, store) && AcceptsStmt(env, s) && s.If?
    ensures RunTamed(p, env, store, s, fuel)
    decreases fuel, s, 0
  {
    RunSafe(p, env, store, s.thn, fuel);
    RunSafe(p, env, store, s.els, fuel);
    ConditionSafe(p, env, store, s.cond);
    BranchSafe(p, env, store, s.cond, s.thn, s.els, fuel);
  }

  lemma {:induction false} RunLoop(p: Prims, env: Env, store: Store, s: Stmt, fuel: nat)
    requires GoodPrims(p) && Conforms(env, store) && AcceptsStmt(env, s) && s.Loop?
    ensures RunTamed(p, env, store, s, fuel)
    decreases fuel, s, 1
  {
    if fuel > 0 {
      RunSafe(p, env, store, s.body, fuel - 1);
      var r := Resumed(Exec(p, store, TransformStmt(env, s.body), fuel - 1));
      if r.Done? {
        RunContinuing(p, env, r.store, s, fuel);
      }
      TurnSafe(p, env, store, s, fuel);
    }
  }

  /** The continuing block and the turns after it. */
  ghost predicate RestTamed(p: Prims, env: Env, store: Store, s: Stmt, fuel: nat)
    requires AcceptsStmt(env, s) && s.Loop? && fuel > 0 && forall x | x in env :: WellFormed(env[x].ty)
  {
    && RunTamed(p, env, store, s.continuing, fuel - 1)
    && var r := Resumed(Exec(p, store, TransformStmt(env, s.continuing), fuel - 1));
       r.Done? ==> RunTamed(p, env, r.store, s, fuel - 1)
  }

  lemma {:induction false} RunContinuing(p: Prims, env: Env, store: Store, s: Stmt, fuel: nat)
    requires GoodPrims(p) && Conforms(env, store) && AcceptsStmt(env, s) && s.Loop? && fuel > 0
    ensures RestTamed(p, env, store, s, fuel)
    decreases fuel, s, 0
  {
    RunSafe(p, env, store, s.continuing, fuel - 1);
    var r := Resumed(Exec(p, store, TransformStmt(env, s.continuing), fuel - 1));
    if r.Done? {
      RunSafe(p, env, r.store, s, fuel - 1);
    }
  }

  lemma SequenceSafe(p: Prims, env: Env, store: Store, a: Stmt, b: Stmt, fuel: nat)
    requires Conforms(env, store) && AcceptsStmt(env, Seq(a, b)) && RunTamed(p, env, store, a, fuel)
    requires
      var r := Exec(p, store, TransformStmt(env, a), fuel);
      r.Done? ==> RunTamed(p, env, r.store, b, fuel)
    ensures RunTamed(p, env, store, Seq(a, b), fuel)
  {
  }

  lemma BranchSafe(p: Prims, env: Env, store: Store, cond: Expr, a: Stmt, b: Stmt, fuel: nat)
    requires Conforms(env, store) && AcceptsStmt(env, If(cond, a, b))
    requires Tamed(p, env, store, cond) && Eval(p, store, Transform(env, cond).value).value.BoolV?
    requires RunTamed(p, env, store, a, fuel) && RunTamed(p, env, store, b, fuel)
    ensures RunTamed(p, env, store, If(cond, a, b), fuel)
  {
  }

  lemma TurnSafe(p: Prims, env: Env, store: Store, s: Stmt, fuel: nat)
    requires Conforms(env, store) && AcceptsStmt(env, s) && s.Loop? && fuel > 0
    requires RunTamed(p, env, store, s.body, fuel - 1)
    requires
      var r := Resumed(Exec(p, store, TransformStmt(env, s.body), fuel - 1));
      r.Done? ==> RestTamed(p, env, r.store, s, fuel)
    ensures RunTamed(p, env, store, s, fuel)
  {
  }

  lemma ConditionSafe(p: Prims, env: Env, store: Store, cond: Expr)
    requires GoodPrims(p) && Conforms(env, store) && Condition(env, cond)
    ensures Tamed(p, env, store, cond) && Eval(p, store, Transform(env, cond).value).value.BoolV?
  {
    TransformSafe(p, env, store, cond);
    TransparentAll(Eval(p, store, Transform(env, cond).value).value, TypeOf(env, cond).value);
  }

  lemma AssignSafe(p: Prims, env: Env, store: Store, lhs: Expr, rhs: Expr, fuel: nat)
    requires GoodPrims(p) && Conforms(env, store) && AcceptsStmt(env, Assign(lhs, rhs))
    ensures RunTamed(p, env, store, Assign(lhs, rhs), fuel)
  {
    TransformSafe(p, env, store, rhs);
    var v := Eval(p, store, Transform(env, rhs).value).value;
    TransparentAll(v, TypeOf(env, rhs).value);
    TransparentAll(v, TypeOf(env, lhs).value);
    WriteSafe(p, env, store, lhs, v);
  }
}
