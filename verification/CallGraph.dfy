/** What the type determiner learns about functions (src/type_determiner.cc, src/ast/function.cc):
    which module variables each one references, and who calls whom. */
module CallGraph {
  import opened Wrappers
  import opened Symbols
  import opened Types

  datatype Variable = Variable(symbol: Symbol, storage: StorageClass, isConst: bool)

  /** `Other` is any expression whose operands are determined in order, and which then gets a type, or an
      error: `typed` says which. A call of an intrinsic gets an error in the same way. */
  datatype Expr =
    | Ident(sym: Symbol)
    | Call(callee: Symbol, args: seq<Expr>, typed: bool)
    | Other(operands: seq<Expr>, typed: bool)

  datatype Stmt =
    | Assign(lhs: Expr, rhs: Expr)
    | Block(stmts: seq<Stmt>)
    | CallStmt(e: Expr)
    | If(cond: Expr, body: seq<Stmt>, elses: seq<Stmt>)
    | Else(guard: Option<Expr>, body: seq<Stmt>)
    | Loop(body: seq<Stmt>, continuing: seq<Stmt>)
    | Return(value: Option<Expr>)
    | Switch(cond: Expr, cases: seq<Stmt>)
    | Case(body: seq<Stmt>)
    | VarDecl(v: Variable, init: Option<Expr>)
    | Jump  // break, continue, discard, fallthrough

  // --- The walk over a body, flattened ---

  /** What the walk does, in order: it looks up an identifier, types an expression, types a call if it is
      one of an intrinsic, records a call, or declares a local. */
  datatype Event =
    | Use(sym: Symbol) | Typing(ok: bool) | IntrinsicTyping(sym: Symbol, ok: bool) | Calls(callee: Symbol) | Declare(v: Variable)

  function ExprEvents(e: Expr): seq<Event>
    decreases e, 0
  {
    match e
    case Ident(s) => [Use(s)]
    case Call(f, args, typed) => [Use(f)] + ExprsEvents(args) + [IntrinsicTyping(f, typed), Calls(f), Use(f)]
    case Other(operands, typed) => ExprsEvents(operands) + [Typing(typed)]
  }

  function ExprsEvents(es: seq<Expr>): seq<Event>
    decreases es, 0
  {
    if es == [] then [] else ExprsEvents(es[..|es| - 1]) + ExprEvents(es[|es| - 1])
  }

  function OptEvents(e: Option<Expr>): seq<Event> {
    match e case None => [] case Some(x) => ExprEvents(x)
  }

  /** A local is in scope of its own initializer; nested blocks open no scope. */
  function StmtEvents(s: Stmt): seq<Event>
    decreases s, 0
  {
    match s
    case Assign(lhs, rhs) => ExprEvents(lhs) + ExprEvents(rhs)
    case Block(stmts) => StmtsEvents(stmts)
    case CallStmt(e) => ExprEvents(e)
    case If(cond, body, elses) => ExprEvents(cond) + StmtsEvents(body) + StmtsEvents(elses)
    case Else(cond, body) => OptEvents(cond) + StmtsEvents(body)
    case Loop(body, continuing) => StmtsEvents(body) + StmtsEvents(continuing)
    case Return(value) => OptEvents(value)
    case Switch(cond, cases) => ExprEvents(cond) + StmtsEvents(cases)
    case Case(body) => StmtsEvents(body)
    case VarDecl(v, init) => [Declare(v)] + OptEvents(init)
    case Jump => []
  }

  function StmtsEvents(ss: seq<Stmt>): seq<Event>
    decreases ss, 0
  {
    if ss == [] then [] else StmtsEvents(ss[..|ss| - 1]) + StmtEvents(ss[|ss| - 1])
  }

  // --- The effect of each event ---

  /** What the determiner knows besides the function at hand, which is `self`: the module variables,
      the functions already registered, what each function of the program references so far, and
      the names of intrinsics. */
  datatype Env = Env(
    globals: map<Symbol, Variable>,
    registered: set<Symbol>,
    program: map<Symbol, seq<Variable>>,
    intrinsics: set<Symbol>,
    self: Symbol)

  /** The function's own scope, and the lists it has collected. */
  datatype State = State(
    scope: map<Symbol, Variable>,
    refs: seq<Variable>,
    locals: seq<Variable>,
    calls: seq<Symbol>)

  function Lookup(env: Env, scope: map<Symbol, Variable>, s: Symbol): Option<Variable> {
    if s in scope then Some(scope[s]) else if s in env.globals then Some(env.globals[s]) else None
  }

  function Syms(vs: seq<Variable>): set<Symbol> {
    set v | v in vs :: v.symbol
  }

  /** The scan-and-push of add_referenced_module_variable(): one entry per symbol. */
  function Added(vs: seq<Variable>, v: Variable): seq<Variable> {
    if v.symbol in Syms(vs) then vs else vs + [v]
  }

  predicate ModuleClass(v: Variable) {
    v.storage != NoClass && v.storage != FunctionClass
  }

  function AddedAll(vs: seq<Variable>, more: seq<Variable>): seq<Variable> {
    if more == [] then vs
    else
      var sofar := AddedAll(vs, more[..|more| - 1]);
      var v := more[|more| - 1];
      if ModuleClass(v) then Added(sofar, v) else sofar
  }

  function Referenced(st: State, v: Variable): State {
    if ModuleClass(v) then st.(refs := Added(st.refs, v), locals := Added(st.locals, v)) else st
  }

  predicate IsIntrinsic(env: Env, scope: map<Symbol, Variable>, s: Symbol) {
    Lookup(env, scope, s).None? && s !in env.registered && s in env.intrinsics
  }

  /** None is a reported error. */
  function Step(env: Env, st: State, ev: Event): Option<State> {
    match ev
    case Use(s) =>
      (match Lookup(env, st.scope, s)
       case Some(v) => Some(Referenced(st, v))
       case None => if s in env.registered || s in env.intrinsics then Some(st) else None)
    case Typing(ok) => if ok then Some(st) else None
    case IntrinsicTyping(f, ok) => if IsIntrinsic(env, st.scope, f) && !ok then None else Some(st)
    case Calls(f) =>
      if IsIntrinsic(env, st.scope, f) then Some(st)
      else if f !in env.program then None
      else Some(st.(calls := st.calls + [f],
                    refs := AddedAll(st.refs, if f == env.self then st.refs else env.program[f])))
    case Declare(v) =>
      if v.isConst then Some(st.(scope := st.scope[v.symbol := v]))
      else if ModuleClass(v) then None
      else Some(st.(scope := st.scope[v.symbol := v.(storage := FunctionClass)]))
  }

  function Run(env: Env, st: State, evs: seq<Event>): Option<State> {
    if evs == [] then Some(st)
    else match Run(env, st, evs[..|evs| - 1])
      case None => None
      case Some(mid) => Step(env, mid, evs[|evs| - 1])
  }

  /** Walking one piece after another. */
  lemma {:induction false} RunSplit(env: Env, st: State, a: seq<Event>, b: seq<Event>)
    ensures Run(env, st, a + b) ==
      match Run(env, st, a) case None => None case Some(mid) => Run(env, mid, b)
    decreases |b|
  {
    if b == [] {
      assert a + b == a;
    } else {
      RunSplit(env, st, a, b[..|b| - 1]);
      assert (a + b)[..|a + b| - 1] == a + b[..|b| - 1];
    }
  }

  lemma RunOne(env: Env, st: State, ev: Event)
    ensures Run(env, st, [ev]) == Step(env, st, ev)
  {
    assert [ev][..0] == [];
  }

  /** Whether a walk fails does not depend on what other functions reference. */
  lemma {:induction false} FailureIsLocal(env: Env, other: Env, st: State, st': State, evs: seq<Event>)
    requires env.globals == other.globals && env.registered == other.registered && env.intrinsics == other.intrinsics
    requires env.program.Keys == other.program.Keys && st.scope == st'.scope
    ensures Run(env, st, evs).Some? <==> Run(other, st', evs).Some?
    ensures Run(env, st, evs).Some? ==> Run(env, st, evs).value.scope == Run(other, st', evs).value.scope
  {
    if evs != [] {
      FailureIsLocal(env, other, st, st', evs[..|evs| - 1]);
    }
  }

  // --- One function: what its lists mean ---

  /** No two entries for one symbol, and only module variables. */
  ghost predicate Tidy(vs: seq<Variable>) {
    && (forall i, j | 0 <= i < j < |vs| :: vs[i].symbol != vs[j].symbol)
    && forall i | 0 <= i < |vs| :: ModuleClass(vs[i])
  }

  lemma AddedFacts(vs: seq<Variable>, v: Variable)
    ensures Syms(Added(vs, v)) == Syms(vs) + {v.symbol}
    ensures Tidy(vs) && ModuleClass(v) ==> Tidy(Added(vs, v))
  {
    if v.symbol !in Syms(vs) {
      assert forall w :: w in vs + [v] <==> w in vs || w == v;
      forall i | 0 <= i < |vs|
        ensures vs[i].symbol != v.symbol
      {
        assert vs[i] in vs;
      }
    }
  }

  lemma {:induction false} AddedAllFacts(vs: seq<Variable>, more: seq<Variable>)
    requires Tidy(more)
    ensures Syms(AddedAll(vs, more)) == Syms(vs) + Syms(more)
    ensures Tidy(vs) ==> Tidy(AddedAll(vs, more))
  {
    if more == [] {
      assert Syms(more) == {};
    } else {
      var init, v := more[..|more| - 1], more[|more| - 1];
      AddedAllFacts(vs, init);
      AddedFacts(AddedAll(vs, init), v);
      assert more == init + [v];
      assert Syms(more) == Syms(init) + {v.symbol};
    }
  }

  /** Inheriting one's own list changes nothing. */
  lemma {:induction false} AddedSelf(vs: seq<Variable>, more: seq<Variable>)
    requires forall i | 0 <= i < |more| :: more[i] in vs
    ensures AddedAll(vs, more) == vs
  {
    if more != [] {
      AddedSelf(vs, more[..|more| - 1]);
      assert more[|more| - 1] in vs;
    }
  }

  ghost predicate TidyEnv(env: Env) {
    forall f | f in env.program :: Tidy(env.program[f])
  }

  /** The symbols inherited through the recorded calls. */
  ghost function Inherited(env: Env, calls: seq<Symbol>): set<Symbol> {
    set f, s | f in calls && f in env.program && f != env.self && s in Syms(env.program[f]) :: s
  }

  lemma InheritedMore(env: Env, calls: seq<Symbol>, f: Symbol)
    ensures Inherited(env, calls + [f]) ==
      Inherited(env, calls) + (if f in env.program && f != env.self then Syms(env.program[f]) else {})
  {
  }

  /** The list of referenced variables is the local references plus what the callees reference. */
  ghost predicate Balanced(env: Env, st: State) {
    && Tidy(st.refs) && Tidy(st.locals)
    && Syms(st.refs) == Syms(st.locals) + Inherited(env, st.calls)
    && forall f | f in st.calls :: f in env.program
  }

  lemma StepBalanced(env: Env, st: State, ev: Event)
    requires TidyEnv(env) && Balanced(env, st) && Step(env, st, ev).Some?
    ensures Balanced(env, Step(env, st, ev).value)
  {
    match ev {
      case Use(s) =>
        var v := Lookup(env, st.scope, s);
        if v.Some? && ModuleClass(v.value) {
          AddedFacts(st.refs, v.value);
          AddedFacts(st.locals, v.value);
        }
      case Calls(f) =>
        if !IsIntrinsic(env, st.scope, f) {
          CallBalanced(env, st, f);
        }
      case _ =>
    }
  }

  lemma CallBalanced(env: Env, st: State, f: Symbol)
    requires TidyEnv(env) && Balanced(env, st) && f in env.program
    ensures Balanced(env, st.(calls := st.calls + [f],
                              refs := AddedAll(st.refs, if f == env.self then st.refs else env.program[f])))
  {
    InheritedMore(env, st.calls, f);
    if f == env.self {
      AddedSelf(st.refs, st.refs);
    } else {
      AddedAllFacts(st.refs, env.program[f]);
    }
  }

  lemma {:induction false} RunBalanced(env: Env, st: State, evs: seq<Event>)
    requires TidyEnv(env) && Balanced(env, st) && Run(env, st, evs).Some?
    ensures Balanced(env, Run(env, st, evs).value)
  {
    if evs != [] {
      RunBalanced(env, st, evs[..|evs| - 1]);
      StepBalanced(env, Run(env, st, evs[..|evs| - 1]).value, evs[|evs| - 1]);
    }
  }

  // --- Scopes: which declaration an identifier means ---

  function Declared(v: Variable): Variable {
    if v.isConst then v else v.(storage := FunctionClass)
  }

  /** Parameters, overlaid with the declarations walked so far: nested blocks do not matter, and
      neither do other functions. */
  function ScopeAfter(params: map<Symbol, Variable>, evs: seq<Event>): map<Symbol, Variable> {
    if evs == [] then params
    else
      var before := ScopeAfter(params, evs[..|evs| - 1]);
      match evs[|evs| - 1]
      case Declare(v) => before[v.symbol := Declared(v)]
      case _ => before
  }

  lemma {:induction false} ScopeIsOverlay(env: Env, st: State, evs: seq<Event>)
    requires Run(env, st, evs).Some?
    ensures Run(env, st, evs).value.scope == ScopeAfter(st.scope, evs)
  {
    if evs != [] {
      ScopeIsOverlay(env, st, evs[..|evs| - 1]);
    }
  }

  /** Position k looks up a module variable: no own declaration or parameter of that name stands
      before it, or one that is itself of a module class. */
  ghost predicate RefersAt(env: Env, params: map<Symbol, Variable>, evs: seq<Event>, k: nat, s: Symbol)
    requires k < |evs|
  {
    evs[k].Use?
    && var v := Lookup(env, ScopeAfter(params, evs[..k]), evs[k].sym);
       v.Some? && ModuleClass(v.value) && v.value.symbol == s
  }

  /** The local references are exactly the module variables that some identifier of the body means. */
  lemma {:induction false} LocalsExact(env: Env, st: State, evs: seq<Event>, s: Symbol)
    requires Run(env, st, evs).Some?
    ensures s in Syms(Run(env, st, evs).value.locals) <==>
      s in Syms(st.locals) || exists k :: 0 <= k < |evs| && RefersAt(env, st.scope, evs, k, s)
  {
    if evs != [] {
      var init, n := evs[..|evs| - 1], |evs| - 1;
      var mid := Run(env, st, init).value;
      LocalsExact(env, st, init, s);
      ScopeIsOverlay(env, st, init);
      assert forall k | 0 <= k < n :: init[..k] == evs[..k];
      assert forall k | 0 <= k < n :: RefersAt(env, st.scope, init, k, s) <==> RefersAt(env, st.scope, evs, k, s);
      match evs[n] {
        case Use(x) =>
          var v := Lookup(env, mid.scope, x);
          if v.Some? && ModuleClass(v.value) {
            AddedFacts(mid.locals, v.value);
          }
          assert RefersAt(env, st.scope, evs, n, s) <==> v.Some? && ModuleClass(v.value) && v.value.symbol == s;
        case _ =>
      }
    }
  }

  // --- Calls go to registered functions ---

  /** Every recorded call is followed by a lookup of the callee. */
  ghost predicate LookedUp(evs: seq<Event>) {
    forall k | 0 <= k < |evs| && evs[k].Calls? :: k + 1 < |evs| && evs[k + 1] == Use(evs[k].callee)
  }

  /** No parameter, module variable or local has the name of a function. */
  ghost predicate Apart(env: Env, params: map<Symbol, Variable>, evs: seq<Event>) {
    && (forall s :: s in params ==> s !in env.program)
    && (forall s :: s in env.globals ==> s !in env.program)
    && forall k | 0 <= k < |evs| && evs[k].Declare? :: evs[k].v.symbol !in env.program
  }

  lemma LookedUpConcat(a: seq<Event>, b: seq<Event>)
    requires LookedUp(a) && LookedUp(b)
    ensures LookedUp(a + b)
  {
    forall k | 0 <= k < |a + b| && (a + b)[k].Calls?
      ensures k + 1 < |a + b| && (a + b)[k + 1] == Use((a + b)[k].callee)
    {
      if k < |a| {
        assert a[k + 1] == Use(a[k].callee);
      } else {
        assert b[k - |a| + 1] == Use(b[k - |a|].callee);
      }
    }
  }

  lemma {:induction false} ExprLookedUp(e: Expr)
    ensures LookedUp(ExprEvents(e))
    decreases e, 0
  {
    match e {
      case Ident(_) =>
      case Call(f, args, typed) =>
        ExprsLookedUp(args);
        LookedUpConcat([Use(f)], ExprsEvents(args));
        LookedUpConcat([Use(f)] + ExprsEvents(args), [IntrinsicTyping(f, typed), Calls(f), Use(f)]);
      case Other(operands, typed) =>
        ExprsLookedUp(operands);
        LookedUpConcat(ExprsEvents(operands), [Typing(typed)]);
    }
  }

  lemma {:induction false} ExprsLookedUp(es: seq<Expr>)
    ensures LookedUp(ExprsEvents(es))
    decreases es, 0
  {
    if es != [] {
      ExprsLookedUp(es[..|es| - 1]);
      ExprLookedUp(es[|es| - 1]);
      LookedUpConcat(ExprsEvents(es[..|es| - 1]), ExprEvents(es[|es| - 1]));
    }
  }

  lemma OptLookedUp(e: Option<Expr>)
    ensures LookedUp(OptEvents(e))
  {
    if e.Some? {
      ExprLookedUp(e.value);
    }
  }

  lemma {:induction false} StmtLookedUp(s: Stmt)
    ensures LookedUp(StmtEvents(s))
    decreases s, 0
  {
    match s {
      case Assign(lhs, rhs) =>
        ExprLookedUp(lhs);
        ExprLookedUp(rhs);
        LookedUpConcat(ExprEvents(lhs), ExprEvents(rhs));
      case Block(stmts) => StmtsLookedUp(stmts);
      case CallStmt(e) => ExprLookedUp(e);
      case If(cond, body, elses) =>
        ExprLookedUp(cond);
        StmtsLookedUp(body);
        StmtsLookedUp(elses);
        LookedUpConcat(ExprEvents(cond), StmtsEvents(body));
        LookedUpConcat(ExprEvents(cond) + StmtsEvents(body), StmtsEvents(elses));
      case Else(cond, body) =>
        OptLookedUp(cond);
        StmtsLookedUp(body);
        LookedUpConcat(OptEvents(cond), StmtsEvents(body));
      case Loop(body, continuing) =>
        StmtsLookedUp(body);
        StmtsLookedUp(continuing);
        LookedUpConcat(StmtsEvents(body), StmtsEvents(continuing));
      case Return(value) => OptLookedUp(value);
      case Switch(cond, cases) =>
        ExprLookedUp(cond);
        StmtsLookedUp(cases);
        LookedUpConcat(ExprEvents(cond), StmtsEvents(cases));
      case Case(body) => StmtsLookedUp(body);
      case VarDecl(v, init) =>
        OptLookedUp(init);
        LookedUpConcat([Declare(v)], OptEvents(init));
      case Jump =>
    }
  }

  lemma {:induction false} StmtsLookedUp(ss: seq<Stmt>)
    ensures LookedUp(StmtsEvents(ss))
    decreases ss, 0
  {
    if ss != [] {
      StmtsLookedUp(ss[..|ss| - 1]);
      StmtLookedUp(ss[|ss| - 1]);
      LookedUpConcat(StmtsEvents(ss[..|ss| - 1]), StmtEvents(ss[|ss| - 1]));
    }
  }

  lemma {:induction false} ScopeApart(env: Env, params: map<Symbol, Variable>, evs: seq<Event>, s: Symbol)
    requires Apart(env, params, evs) && s in env.program
    ensures Lookup(env, ScopeAfter(params, evs), s).None?
  {
    if evs != [] {
      var init := evs[..|evs| - 1];
      assert forall k | 0 <= k < |init| :: init[k] == evs[k];
      ScopeApart(env, params, init, s);
    }
  }

  lemma RunPrefix(env: Env, st: State, evs: seq<Event>, k: nat)
    requires k <= |evs| && Run(env, st, evs).Some?
    ensures Run(env, st, evs[..k]).Some?
  {
    assert evs == evs[..k] + evs[k..];
    RunSplit(env, st, evs[..k], evs[k..]);
  }

  /** A recorded call comes from some event that was not an intrinsic's. */
  lemma {:induction false} CallOrigin(env: Env, st: State, evs: seq<Event>, f: Symbol) returns (k: nat)
    requires Run(env, st, evs).Some? && f in Run(env, st, evs).value.calls && f !in st.calls
    ensures k < |evs| && evs[k] == Calls(f) && Run(env, st, evs[..k]).Some? && f in env.program
    ensures !IsIntrinsic(env, Run(env, st, evs[..k]).value.scope, f)
  {
    var init := evs[..|evs| - 1];
    var mid := Run(env, st, init).value;
    if f in mid.calls {
      k := CallOrigin(env, st, init, f);
      assert init[..k] == evs[..k];
    } else {
      k := |evs| - 1;
    }
  }

  /** Every recorded call goes to a function registered by then. */
  lemma CallsRegistered(env: Env, st: State, evs: seq<Event>, f: Symbol)
    requires LookedUp(evs) && Apart(env, st.scope, evs) && st.calls == []
    requires Run(env, st, evs).Some? && f in Run(env, st, evs).value.calls
    ensures f in env.registered
  {
    var k := CallOrigin(env, st, evs, f);
    assert evs[k + 1] == Use(f);
    RunPrefix(env, st, evs, k + 2);
    assert evs[..k + 2][..k + 1] == evs[..k + 1] && evs[..k + 1][..k] == evs[..k];
    var mid := Run(env, st, evs[..k + 1]).value;
    ScopeIsOverlay(env, st, evs[..k + 1]);
    ScopeIsOverlay(env, st, evs[..k]);
    assert Apart(env, st.scope, evs[..k]) && Apart(env, st.scope, evs[..k + 1]);
    ScopeApart(env, st.scope, evs[..k], f);
    ScopeApart(env, st.scope, evs[..k + 1], f);
    assert Step(env, mid, Use(f)).Some?;
  }

  lemma {:induction false} CallKept(env: Env, st: State, evs: seq<Event>, f: Symbol)
    requires Run(env, st, evs).Some? && Calls(f) in evs && f in env.registered
    ensures f in Run(env, st, evs).value.calls
  {
    var init, last := evs[..|evs| - 1], evs[|evs| - 1];
    assert evs == init + [last];
    if last != Calls(f) {
      CallKept(env, st, init, f);
    }
    StepKeepsCalls(env, Run(env, st, init).value, last, f);
  }

  lemma StepKeepsCalls(env: Env, st: State, ev: Event, f: Symbol)
    requires Step(env, st, ev).Some? && f in env.registered && (f in st.calls || ev == Calls(f))
    ensures f in Step(env, st, ev).value.calls
  {
  }

  /** The recorded calls of a function are the calls in its body to functions registered by then. */
  lemma CallsExact(env: Env, st: State, evs: seq<Event>, f: Symbol)
    requires LookedUp(evs) && Apart(env, st.scope, evs) && st.calls == [] && Run(env, st, evs).Some?
    ensures f in Run(env, st, evs).value.calls <==> Calls(f) in evs && f in env.registered
  {
    if f in Run(env, st, evs).value.calls {
      CallsRegistered(env, st, evs, f);
      var k := CallOrigin(env, st, evs, f);
    } else if Calls(f) in evs && f in env.registered {
      CallKept(env, st, evs, f);
    }
  }
}
