/** Shader programs over 32-bit unsigned words, with lexical scopes, and what running them gives. */
module Shaders {
  import opened Wrappers

  datatype Builtin = VertexIndex | InstanceIndex | OtherBuiltin

  datatype Decoration = BuiltinDeco(builtin: Builtin) | OtherDeco

  datatype Field = Field(name: string, offset: nat)

  /** A module variable; one with fields is a uniform buffer. */
  datatype Variable = Variable(name: string, decorations: seq<Decoration>, fields: seq<Field>)

  datatype Op = Plus | Minus | Times | Less

  datatype Expr =
    | Lit(n: nat)
    | Ident(name: string)
    | Member(base: string, field: string)
    | Binary(op: Op, left: Expr, right: Expr)
    | Call(callee: string, args: seq<Expr>)

  datatype Stmt =
    | Assign(name: string, e: Expr)
    | Declare(name: string, isConst: bool, e: Expr)
    | Block(body: seq<Stmt>)
    | If(cond: Expr, body: seq<Stmt>, elses: seq<Stmt>)
    | Loop(body: seq<Stmt>, continuing: seq<Stmt>)
    | Return(e: Expr)
    | ExprStmt(e: Expr)
    | Break

  /** `locals` are the module variables the determiner found the body to reference. */
  datatype Function = Function(name: string, params: seq<string>, body: seq<Stmt>, locals: seq<Variable>)

  datatype Program = Program(globals: seq<Variable>, functions: seq<Function>)

  // --- Running ---

  /** What the outside provides: the index builtins, and the words of the uniform buffers. */
  datatype World = World(vertex: nat, instance: nat, words: map<(string, nat), nat>)

  datatype Binding = Binding(val: nat, isConst: bool)

  type Scopes = seq<map<string, Binding>>

  type Store = map<string, nat>

  datatype Val = Val(val: nat, store: Store)

  datatype Vals = Vals(vals: seq<nat>, store: Store)

  datatype Flow = Normal | Broke | Returned(val: nat)

  datatype After = After(store: Store, scopes: Scopes, flow: Flow)

  function Wrap(n: int): nat {
    n % 0x1_0000_0000
  }

  function Find(globals: seq<Variable>, n: string): Option<Variable> {
    if globals == [] then None else if globals[0].name == n then Some(globals[0]) else Find(globals[1..], n)
  }

  function FindFunction(functions: seq<Function>, n: string): Option<Function> {
    if functions == [] then None
    else if functions[0].name == n then Some(functions[0])
    else FindFunction(functions[1..], n)
  }

  /** The first index builtin among the decorations. */
  function IndexBuiltin(ds: seq<Decoration>): Option<Builtin> {
    if ds == [] then None
    else if ds[0].BuiltinDeco? && !ds[0].builtin.OtherBuiltin? then Some(ds[0].builtin)
    else IndexBuiltin(ds[1..])
  }

  function Provided(w: World, b: Builtin): nat {
    if b.VertexIndex? then w.vertex else w.instance
  }

  function OffsetOf(fields: seq<Field>, n: string): Option<nat> {
    if fields == [] then None else if fields[0].name == n then Some(fields[0].offset) else OffsetOf(fields[1..], n)
  }

  /** The innermost binding of a name. */
  function Local(sc: Scopes, n: string): Option<Binding> {
    if sc == [] then None
    else if n in sc[|sc| - 1] then Some(sc[|sc| - 1][n])
    else Local(sc[..|sc| - 1], n)
  }

  /** A name that is not local is a module variable: an index builtin, or one with a stored value. */
  function ReadGlobal(p: Program, w: World, g: Store, n: string): Option<nat> {
    match Find(p.globals, n)
    case None => None
    case Some(v) =>
      var b := IndexBuiltin(v.decorations);
      if b.Some? then Some(Provided(w, b.value))
      else if n in g then Some(g[n])
      else None
  }

  function Read(p: Program, w: World, g: Store, sc: Scopes, n: string): Option<nat> {
    var b := Local(sc, n);
    if b.Some? then Some(b.value.val) else ReadGlobal(p, w, g, n)
  }

  function ReadMember(p: Program, w: World, sc: Scopes, base: string, field: string): Option<nat> {
    if Local(sc, base).Some? then None
    else match Find(p.globals, base)
      case None => None
      case Some(v) =>
        var at := OffsetOf(v.fields, field);
        if at.Some? && (base, at.value) in w.words then Some(w.words[(base, at.value)]) else None
  }

  function Apply(op: Op, a: nat, b: nat): nat {
    match op
    case Plus => Wrap(a + b)
    case Minus => Wrap(a - b)
    case Times => Wrap(a * b)
    case Less => if a < b then 1 else 0
  }

  function Bind(sc: Scopes, n: string, b: Binding): Scopes
    requires |sc| > 0
  {
    sc[|sc| - 1 := sc[|sc| - 1][n := b]]
  }

  /** The innermost binding takes the value, unless it is const. */
  function SetLocal(sc: Scopes, n: string, val: nat): Option<Scopes> {
    if sc == [] then None
    else
      var top, rest := sc[|sc| - 1], sc[..|sc| - 1];
      if n in top then
        if top[n].isConst then None else Some(rest + [top[n := Binding(val, false)]])
      else match SetLocal(rest, n, val)
        case None => None
        case Some(below) => Some(below + [top])
  }

  function Write(p: Program, g: Store, sc: Scopes, n: string, val: nat): Option<After> {
    if Local(sc, n).Some? then
      var after := SetLocal(sc, n, val);
      if after.Some? then Some(After(g, after.value, Normal)) else None
    else
      var v := Find(p.globals, n);
      if v.Some? && IndexBuiltin(v.value.decorations).None? then Some(After(g[n := val], sc, Normal)) else None
  }

  /** None is a failure: an unknown name, a write to a constant, or fuel that has run out. */
  function Eval(p: Program, w: World, fuel: nat, g: Store, sc: Scopes, e: Expr): Option<Val>
    decreases fuel, e, 0
  {
    match e
    case Lit(n) => Some(Val(Wrap(n), g))
    case Ident(n) => var r := Read(p, w, g, sc, n); if r.Some? then Some(Val(r.value, g)) else None
    case Member(b, f) => var r := ReadMember(p, w, sc, b, f); if r.Some? then Some(Val(r.value, g)) else None
    case Binary(op, l, r) =>
      var a := Eval(p, w, fuel, g, sc, l);
      if a.None? then None
      else
        var b := Eval(p, w, fuel, a.value.store, sc, r);
        if b.None? then None else Some(Val(Apply(op, a.value.val, b.value.val), b.value.store))
    case Call(f, args) =>
      var vs := EvalAll(p, w, fuel, g, sc, args);
      if vs.None? || fuel == 0 then None else Invoke(p, w, fuel - 1, vs.value.store, f, vs.value.vals)
  }

  function EvalAll(p: Program, w: World, fuel: nat, g: Store, sc: Scopes, es: seq<Expr>): Option<Vals>
    decreases fuel, es, 0
  {
    if es == [] then Some(Vals([], g))
    else
      var v := Eval(p, w, fuel, g, sc, es[0]);
      if v.None? then None
      else
        var vs := EvalAll(p, w, fuel, v.value.store, sc, es[1..]);
        if vs.None? then None else Some(Vals([v.value.val] + vs.value.vals, vs.value.store))
  }

  function Frame(params: seq<string>, vals: seq<nat>): map<string, Binding>
    requires |params| == |vals|
  {
    if params == [] then map[]
    else Frame(params[..|params| - 1], vals[..|vals| - 1])[params[|params| - 1] := Binding(vals[|vals| - 1], true)]
  }

  /** A call, with fuel for the calls and loop turns inside it. */
  function Invoke(p: Program, w: World, fuel: nat, g: Store, f: string, vals: seq<nat>): Option<Val>
    decreases fuel
  {
    var fn := FindFunction(p.functions, f);
    if fn.None? || |fn.value.params| != |vals| then None
    else Outcome(Exec(p, w, fuel, g, [Frame(fn.value.params, vals)], fn.value.body))
  }

  function Outcome(r: Option<After>): Option<Val> {
    if r.None? || r.value.flow.Broke? then None
    else Some(Val(if r.value.flow.Returned? then r.value.flow.val else 0, r.value.store))
  }

  function Exec(p: Program, w: World, fuel: nat, g: Store, sc: Scopes, ss: seq<Stmt>): (r: Option<After>)
    requires |sc| > 0
    ensures r.Some? ==> |r.value.scopes| == |sc|
    decreases fuel, ss, 0
  {
    if ss == [] then Some(After(g, sc, Normal))
    else
      var a := ExecStmt(p, w, fuel, g, sc, ss[0]);
      if a.None? || !a.value.flow.Normal? then a
      else Exec(p, w, fuel, a.value.store, a.value.scopes, ss[1..])
  }

  function Pop(a: Option<After>): (r: Option<After>)
    requires a.Some? ==> |a.value.scopes| > 0
    ensures r.Some? <==> a.Some?
    ensures r.Some? ==> |r.value.scopes| == |a.value.scopes| - 1
  {
    if a.None? then None else Some(a.value.(scopes := a.value.scopes[..|a.value.scopes| - 1]))
  }

  function ExecStmt(p: Program, w: World, fuel: nat, g: Store, sc: Scopes, s: Stmt): (r: Option<After>)
    requires |sc| > 0
    ensures r.Some? ==> |r.value.scopes| == |sc|
    decreases fuel, s, 1
  {
    match s
    case Assign(n, e) =>
      var v := Eval(p, w, fuel, g, sc, e);
      if v.None? then None else SetLength(sc, n, v.value.val); Write(p, v.value.store, sc, n, v.value.val)
    case Declare(n, isConst, e) =>
      var v := Eval(p, w, fuel, g, sc, e);
      if v.None? then None else Some(After(v.value.store, Bind(sc, n, Binding(v.value.val, isConst)), Normal))
    case Block(body) => Pop(Exec(p, w, fuel, g, sc + [map[]], body))
    case If(cond, body, elses) =>
      var v := Eval(p, w, fuel, g, sc, cond);
      if v.None? then None
      else Pop(Exec(p, w, fuel, v.value.store, sc + [map[]], if v.value.val != 0 then body else elses))
    case Loop(_, _) =>
      var turn := Turn(p, w, fuel, g, sc, s);
      if turn.None? || turn.value.flow.Returned? then turn
      else if turn.value.flow.Broke? then Some(turn.value.(flow := Normal))
      else if fuel == 0 then None
      else ExecStmt(p, w, fuel - 1, turn.value.store, turn.value.scopes, s)
    case Return(e) =>
      var v := Eval(p, w, fuel, g, sc, e);
      if v.None? then None else Some(After(v.value.store, sc, Returned(v.value.val)))
    case ExprStmt(e) =>
      var v := Eval(p, w, fuel, g, sc, e);
      if v.None? then None else Some(After(v.value.store, sc, Normal))
    case Break => Some(After(g, sc, Broke))
  }

  /** One turn of a loop: the continuing block sees what the body declared. */
  function Turn(p: Program, w: World, fuel: nat, g: Store, sc: Scopes, s: Stmt): (r: Option<After>)
    requires |sc| > 0 && s.Loop?
    ensures r.Some? ==> |r.value.scopes| == |sc|
    decreases fuel, s, 0
  {
    var a := Exec(p, w, fuel, g, sc + [map[]], s.body);
    if a.None? || !a.value.flow.Normal? then Pop(a)
    else Pop(Exec(p, w, fuel, a.value.store, a.value.scopes, s.continuing))
  }

  lemma {:induction false} SetLength(sc: Scopes, n: string, val: nat)
    ensures SetLocal(sc, n, val).Some? ==> |SetLocal(sc, n, val).value| == |sc|
  {
    if sc != [] && n !in sc[|sc| - 1] {
      SetLength(sc[..|sc| - 1], n, val);
    }
  }

  // --- Scoping ---

  /** The variables an expression names. */
  function Names(e: Expr): set<string>
    decreases e, 0
  {
    match e
    case Lit(_) => {}
    case Ident(n) => {n}
    case Member(b, _) => {b}
    case Binary(_, l, r) => Names(l) + Names(r)
    case Call(_, args) => NamesAll(args)
  }

  function NamesAll(es: seq<Expr>): set<string>
    decreases es, 0
  {
    if es == [] then {} else Names(es[0]) + NamesAll(es[1..])
  }

  /** What a statement adds to the scope of those after it. */
  function Declares(s: Stmt): set<string> {
    if s.Declare? then {s.name} else {}
  }

  function DeclaredBy(ss: seq<Stmt>): set<string> {
    if ss == [] then {} else Declares(ss[0]) + DeclaredBy(ss[1..])
  }

  /** The names that mean module variables, given the names in scope. */
  function FreeIn(s: Stmt, scope: set<string>): set<string>
    decreases s, 1
  {
    match s
    case Assign(n, e) => Names(e) + {n} - scope
    case Declare(_, _, e) => Names(e) - scope
    case Block(body) => Free(body, scope)
    case If(cond, body, elses) => (Names(cond) - scope) + Free(body, scope) + Free(elses, scope)
    case Loop(body, continuing) => Free(body, scope) + Free(continuing, scope + DeclaredBy(body))
    case Return(e) => Names(e) - scope
    case ExprStmt(e) => Names(e) - scope
    case Break => {}
  }

  function Free(ss: seq<Stmt>, scope: set<string>): set<string>
    decreases ss, 0
  {
    if ss == [] then {} else FreeIn(ss[0], scope) + Free(ss[1..], scope + Declares(ss[0]))
  }

  /** A larger scope hides exactly the added names. */
  lemma {:induction false} FreeHides(ss: seq<Stmt>, scope: set<string>, more: set<string>)
    ensures Free(ss, scope + more) == Free(ss, scope) - more
    decreases ss, 0
  {
    if ss != [] {
      FreeInHides(ss[0], scope, more);
      FreeHides(ss[1..], scope + Declares(ss[0]), more);
      assert scope + more + Declares(ss[0]) == scope + Declares(ss[0]) + more;
    }
  }

  lemma {:induction false} FreeInHides(s: Stmt, scope: set<string>, more: set<string>)
    ensures FreeIn(s, scope + more) == FreeIn(s, scope) - more
    decreases s, 1
  {
    match s {
      case Block(body) => FreeHides(body, scope, more);
      case If(_, body, elses) =>
        FreeHides(body, scope, more);
        FreeHides(elses, scope, more);
      case Loop(body, continuing) =>
        FreeHides(body, scope, more);
        FreeHides(continuing, scope + DeclaredBy(body), more);
        assert scope + more + DeclaredBy(body) == scope + DeclaredBy(body) + more;
      case _ =>
    }
  }

  /** Frames only gain names. */
  ghost predicate Grown(a: Scopes, b: Scopes) {
    |a| == |b| && forall k | 0 <= k < |a| :: a[k].Keys <= b[k].Keys
  }

  /** All names of the scope are bound. */
  ghost predicate Covers(sc: Scopes, scope: set<string>) {
    forall n | n in scope :: Local(sc, n).Some?
  }

  lemma {:induction false} LocalGrown(a: Scopes, b: Scopes, n: string)
    requires Grown(a, b) && Local(a, n).Some?
    ensures Local(b, n).Some?
  {
    if n !in a[|a| - 1] && n !in b[|b| - 1] {
      LocalGrown(a[..|a| - 1], b[..|b| - 1], n);
    }
  }

  lemma CoversGrown(a: Scopes, b: Scopes, scope: set<string>)
    requires Grown(a, b) && Covers(a, scope)
    ensures Covers(b, scope)
  {
    forall n | n in scope
      ensures Local(b, n).Some?
    {
      LocalGrown(a, b, n);
    }
  }

  lemma {:induction false} SetGrown(sc: Scopes, n: string, val: nat)
    requires SetLocal(sc, n, val).Some?
    ensures Grown(sc, SetLocal(sc, n, val).value)
  {
    if n !in sc[|sc| - 1] {
      SetGrown(sc[..|sc| - 1], n, val);
    }
  }

  lemma {:induction false} ExecGrown(p: Program, w: World, fuel: nat, g: Store, sc: Scopes, ss: seq<Stmt>)
    requires |sc| > 0 && Exec(p, w, fuel, g, sc, ss).Some?
    ensures Grown(sc, Exec(p, w, fuel, g, sc, ss).value.scopes)
    decreases fuel, ss, 0
  {
    if ss != [] {
      StmtGrown(p, w, fuel, g, sc, ss[0]);
      var a := ExecStmt(p, w, fuel, g, sc, ss[0]).value;
      if a.flow.Normal? {
        ExecGrown(p, w, fuel, a.store, a.scopes, ss[1..]);
      }
    }
  }

  lemma {:induction false} StmtGrown(p: Program, w: World, fuel: nat, g: Store, sc: Scopes, s: Stmt)
    requires |sc| > 0 && ExecStmt(p, w, fuel, g, sc, s).Some?
    ensures Grown(sc, ExecStmt(p, w, fuel, g, sc, s).value.scopes)
    decreases fuel, s, 1
  {
    match s {
      case Assign(n, e) =>
        var v := Eval(p, w, fuel, g, sc, e).value;
        if SetLocal(sc, n, v.val).Some? {
          SetGrown(sc, n, v.val);
        }
      case Block(body) => ExecGrown(p, w, fuel, g, sc + [map[]], body);
      case If(cond, body, elses) =>
        var v := Eval(p, w, fuel, g, sc, cond).value;
        ExecGrown(p, w, fuel, v.store, sc + [map[]], if v.val != 0 then body else elses);
      case Loop(_, _) =>
        TurnGrown(p, w, fuel, g, sc, s);
        var turn := Turn(p, w, fuel, g, sc, s).value;
        if turn.flow.Normal? {
          StmtGrown(p, w, fuel - 1, turn.store, turn.scopes, s);
        }
      case _ =>
    }
  }

  lemma {:induction false} TurnGrown(p: Program, w: World, fuel: nat, g: Store, sc: Scopes, s: Stmt)
    requires |sc| > 0 && s.Loop? && Turn(p, w, fuel, g, sc, s).Some?
    ensures Grown(sc, Turn(p, w, fuel, g, sc, s).value.scopes)
    decreases fuel, s, 0
  {
    ExecGrown(p, w, fuel, g, sc + [map[]], s.body);
    var a := Exec(p, w, fuel, g, sc + [map[]], s.body).value;
    if a.flow.Normal? {
      ExecGrown(p, w, fuel, a.store, a.scopes, s.continuing);
    }
  }

  /** Statements that run to their end leave everything they declare bound. */
  lemma {:induction false} DeclaredCovered(p: Program, w: World, fuel: nat, g: Store, sc: Scopes, ss: seq<Stmt>, scope: set<string>)
    requires |sc| > 0 && Covers(sc, scope)
    requires Exec(p, w, fuel, g, sc, ss).Some? && Exec(p, w, fuel, g, sc, ss).value.flow.Normal?
    ensures Covers(Exec(p, w, fuel, g, sc, ss).value.scopes, scope + DeclaredBy(ss))
    decreases ss
  {
    if ss != [] {
      StmtCovered(p, w, fuel, g, sc, ss[0], scope);
      var a := ExecStmt(p, w, fuel, g, sc, ss[0]).value;
      DeclaredCovered(p, w, fuel, a.store, a.scopes, ss[1..], scope + Declares(ss[0]));
      assert scope + DeclaredBy(ss) == scope + Declares(ss[0]) + DeclaredBy(ss[1..]);
    }
  }

  lemma StmtCovered(p: Program, w: World, fuel: nat, g: Store, sc: Scopes, s: Stmt, scope: set<string>)
    requires |sc| > 0 && Covers(sc, scope) && ExecStmt(p, w, fuel, g, sc, s).Some?
    ensures Covers(ExecStmt(p, w, fuel, g, sc, s).value.scopes, scope + Declares(s))
  {
    StmtGrown(p, w, fuel, g, sc, s);
    CoversGrown(sc, ExecStmt(p, w, fuel, g, sc, s).value.scopes, scope);
  }
}
