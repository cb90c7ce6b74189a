/** The determiner's walk over functions as it runs (src/type_determiner.cc, src/ast/function.cc). */
module TypeDeterminer {
  import opened Wrappers
  import opened Symbols
  import opened Types
  import opened Scopes
  import opened CallGraph
  import opened CallClosure
  import S = BodySyntax

  class Function {
    const symbol: Symbol
    const params: seq<Variable>
    const body: seq<Stmt>
    const isEntryPoint: bool
    var referenced: seq<Variable>
    var localReferenced: seq<Variable>
    var ancestors: seq<Symbol>

    constructor (symbol: Symbol, params: seq<Variable>, body: seq<Stmt>, isEntryPoint: bool)
      ensures this.symbol == symbol && this.params == params && this.body == body && this.isEntryPoint == isEntryPoint
      ensures referenced == [] && localReferenced == [] && ancestors == []
    {
      this.symbol, this.params, this.body, this.isEntryPoint := symbol, params, body, isEntryPoint;
      referenced, localReferenced, ancestors := [], [], [];
    }

    method AddReferencedModuleVariable(v: Variable)
      modifies this`referenced
      ensures referenced == Added(old(referenced), v)
    {
      var found := HasSymbol(referenced, v.symbol);
      if found {
        return;
      }
      referenced := referenced + [v];
    }

    method AddLocalReferencedModuleVariable(v: Variable)
      modifies this`localReferenced
      ensures localReferenced == Added(old(localReferenced), v)
    {
      var found := HasSymbol(localReferenced, v.symbol);
      if found {
        return;
      }
      localReferenced := localReferenced + [v];
    }

    method AddAncestorEntryPoint(ep: Symbol)
      modifies this`ancestors
      ensures ancestors == if ep in old(ancestors) then old(ancestors) else old(ancestors) + [ep]
    {
      var has := HasAncestorEntryPoint(ep);
      if !has {
        ancestors := ancestors + [ep];
      }
    }

    method HasAncestorEntryPoint(ep: Symbol) returns (has: bool)
      ensures has <==> ep in ancestors
    {
      var k := 0;
      while k < |ancestors|
        invariant 0 <= k <= |ancestors| && ep !in ancestors[..k]
      {
        if ancestors[k] == ep {
          return true;
        }
        k := k + 1;
      }
      assert ancestors[..k] == ancestors;
      return false;
    }
  }

  /** The scan over a list of variables by symbol. */
  method HasSymbol(vs: seq<Variable>, s: Symbol) returns (found: bool)
    ensures found <==> s in Syms(vs)
  {
    var k := 0;
    while k < |vs|
      invariant 0 <= k <= |vs| && forall j | 0 <= j < k :: vs[j].symbol != s
    {
      if vs[k].symbol == s {
        assert vs[k] in vs;
        return true;
      }
      k := k + 1;
    }
    return false;
  }

  /** The scope that setting the variables one after another builds. */
  function ScopeOf(vs: seq<Variable>): map<Symbol, Variable> {
    if vs == [] then map[] else ScopeOf(vs[..|vs| - 1])[vs[|vs| - 1].symbol := vs[|vs| - 1]]
  }

  class TypeDeterminer {
    /** The program's functions and module variables, in declaration order. */
    const functions: seq<Function>
    const variables: seq<Variable>
    ghost const globals: map<Symbol, Variable>
    const intrinsics: set<Symbol>
    const variableStack: ScopeStack<Variable>
    var callerToCallee: map<Symbol, seq<Symbol>>
    var symbolToFunction: map<Symbol, Function>
    var current: Function?

    constructor (functions: seq<Function>, variables: seq<Variable>, intrinsics: set<Symbol>)
      ensures this.functions == functions && this.variables == variables && this.intrinsics == intrinsics
      ensures globals == ScopeOf(variables)
      ensures fresh(variableStack) && variableStack.stack == [map[]]
      ensures callerToCallee == map[] && symbolToFunction == map[] && current == null
    {
      this.functions, this.variables, this.intrinsics := functions, variables, intrinsics;
      globals := ScopeOf(variables);
      variableStack := new ScopeStack<Variable>();
      callerToCallee, symbolToFunction, current := map[], map[], null;
    }

    ghost predicate UniqueSymbols() {
      forall i, j | 0 <= i < j < |functions| :: functions[i].symbol != functions[j].symbol
    }

    ghost function CallsOf(s: Symbol): seq<Symbol>
      reads this`callerToCallee
    {
      if s in callerToCallee then callerToCallee[s] else []
    }

    /** The walk of the current function has reached state st, in the surroundings env. */
    ghost predicate Walking(env: Env, st: State)
      reads this, variableStack, functions
    {
      && current != null && current in functions && UniqueSymbols()
      && variableStack.stack == [env.globals, st.scope]
      && env.self == current.symbol && env.self in env.registered
      && env.registered == symbolToFunction.Keys && env.intrinsics == intrinsics
      && current.referenced == st.refs && current.localReferenced == st.locals && CallsOf(env.self) == st.calls
      && (forall s :: s in env.program <==> exists i :: 0 <= i < |functions| && functions[i].symbol == s)
      && forall i | 0 <= i < |functions| && functions[i] != current :: env.program[functions[i].symbol] == functions[i].referenced
    }

    /** FunctionList::Find(). */
    method Find(s: Symbol) returns (f: Function?)
      ensures f == null ==> forall i | 0 <= i < |functions| :: functions[i].symbol != s
      ensures f != null ==> f in functions && f.symbol == s
    {
      var i := 0;
      while i < |functions|
        invariant 0 <= i <= |functions| && forall j | 0 <= j < i :: functions[j].symbol != s
      {
        if functions[i].symbol == s {
          return functions[i];
        }
        i := i + 1;
      }
      return null;
    }

    /** set_referenced_from_function_if_needed(). */
    method SetReferenced(v: Variable, local: bool, ghost env: Env, ghost st: State)
      requires Walking(env, st)
      modifies current`referenced, current`localReferenced
      ensures Walking(env, if !ModuleClass(v) then st
                           else if local then Referenced(st, v)
                           else st.(refs := Added(st.refs, v)))
    {
      if v.storage == NoClass || v.storage == FunctionClass {
        return;
      }
      current.AddReferencedModuleVariable(v);
      if local {
        current.AddLocalReferencedModuleVariable(v);
      }
    }

    /** DetermineIdentifier(): a variable, else a registered function, else an intrinsic, else an error. */
    method DetermineIdentifier(s: Symbol, ghost env: Env, ghost st: State) returns (ok: bool, intrinsic: bool)
      requires Walking(env, st)
      modifies current`referenced, current`localReferenced
      ensures ok == Step(env, st, Use(s)).Some?
      ensures ok ==> Walking(env, Step(env, st, Use(s)).value) && intrinsic == IsIntrinsic(env, st.scope, s)
    {
      var found, _ := variableStack.Get(s);
      LookupIsOverlay(env, st.scope, s);
      if found.Some? {
        SetReferenced(found.value, true, env, st);
        return true, false;
      }
      if s in symbolToFunction {
        return true, false;
      }
      return s in intrinsics, s in intrinsics;
    }

    lemma LookupIsOverlay(env: Env, scope: map<Symbol, Variable>, s: Symbol)
      ensures
        var all := Overlay([env.globals, scope]);
        Lookup(env, scope, s) == if s in all then Some(all[s]) else None
    {
      assert [env.globals, scope][..1] == [env.globals];
      assert Overlay([env.globals]) == Overlay([]) + env.globals by {
        assert [env.globals][..0] == [];
      }
    }

    /** The part of DetermineCall() that records the call and inherits the callee's references. */
    method RecordCall(f: Symbol, ghost env: Env, ghost st: State) returns (ok: bool)
      requires Walking(env, st) && !IsIntrinsic(env, st.scope, f)
      modifies this`callerToCallee, current`referenced, current`localReferenced
      ensures forall s | s != env.self :: CallsOf(s) == old(CallsOf(s))
      ensures ok == Step(env, st, Calls(f)).Some?
      ensures ok ==> Walking(env, Step(env, st, Calls(f)).value)
    {
      var self := current.symbol;
      callerToCallee := callerToCallee[self := (if self in callerToCallee then callerToCallee[self] else []) + [f]];
      var callee := Find(f);
      if callee == null {
        return false;
      }
      InheritFrom(callee.referenced, env, st.(calls := st.calls + [f]));
      return true;
    }

    method InheritFrom(vars: seq<Variable>, ghost env: Env, ghost st: State)
      requires Walking(env, st)
      modifies current`referenced, current`localReferenced
      ensures Walking(env, st.(refs := AddedAll(st.refs, vars)))
    {
      var k := 0;
      while k < |vars|
        invariant 0 <= k <= |vars|
        invariant Walking(env, st.(refs := AddedAll(st.refs, vars[..k])))
      {
        assert vars[..k + 1][..k] == vars[..k];
        SetReferenced(vars[k], false, env, st.(refs := AddedAll(st.refs, vars[..k])));
        k := k + 1;
      }
      assert vars[..k] == vars;
    }

    // --- The walk ---

    /** A piece of the walk has run: it fails when its events do, else its state is theirs; nothing
        outside the current function and its scope has changed. */
    twostate predicate Walked(env: Env, st: State, evs: seq<Event>, ok: bool)
      reads this, variableStack, functions
    {
      && current == old(current) && symbolToFunction == old(symbolToFunction)
      && (forall s | s != env.self :: CallsOf(s) == old(CallsOf(s)))
      && ok == Run(env, st, evs).Some?
      && (ok ==> Walking(env, Run(env, st, evs).value))
    }

    method DetermineExpr(e: Expr, ghost env: Env, ghost st: State) returns (ok: bool)
      requires Walking(env, st)
      modifies this`callerToCallee, current`referenced, current`localReferenced
      ensures Walked(env, st, ExprEvents(e), ok)
      decreases e, 0
    {
      match e {
        case Ident(s) =>
          RunOne(env, st, Use(s));
          var known, _ := DetermineIdentifier(s, env, st);
          ok := known;
        case Call(f, args, typed) =>
          ok := DetermineCall(f, args, typed, env, st);
        case Other(operands, typed) =>
          ok := DetermineOther(operands, typed, env, st);
      }
    }

    method DetermineOther(operands: seq<Expr>, typed: bool, ghost env: Env, ghost st: State) returns (ok: bool)
      requires Walking(env, st)
      modifies this`callerToCallee, current`referenced, current`localReferenced
      ensures Walked(env, st, ExprEvents(Other(operands, typed)), ok)
      decreases operands, 1
    {
      RunSplit(env, st, ExprsEvents(operands), [Typing(typed)]);
      ok := DetermineExprs(operands, env, st);
      if ok {
        RunOne(env, Run(env, st, ExprsEvents(operands)).value, Typing(typed));
        ok := typed;
      }
    }

    method DetermineExprs(es: seq<Expr>, ghost env: Env, ghost st: State) returns (ok: bool)
      requires Walking(env, st)
      modifies this`callerToCallee, current`referenced, current`localReferenced
      ensures Walked(env, st, ExprsEvents(es), ok)
      decreases es, 0
    {
      var k := 0;
      while k < |es|
        invariant 0 <= k <= |es| && Walked(env, st, ExprsEvents(es[..k]), true)
      {
        ghost var mid := Run(env, st, ExprsEvents(es[..k])).value;
        ok := DetermineExpr(es[k], env, mid);
        assert es[..k + 1][..k] == es[..k];
        RunSplit(env, st, ExprsEvents(es[..k]), ExprEvents(es[k]));
        if !ok {
          RunPrefixFails(env, st, es, k + 1);
          return false;
        }
        k := k + 1;
      }
      assert es[..k] == es;
      return true;
    }

    lemma {:induction false} RunPrefixFails(env: Env, st: State, es: seq<Expr>, k: nat)
      requires k <= |es| && Run(env, st, ExprsEvents(es[..k])).None?
      ensures Run(env, st, ExprsEvents(es)).None?
      decreases |es| - k
    {
      if k < |es| {
        assert es[..k + 1][..k] == es[..k];
        RunSplit(env, st, ExprsEvents(es[..k]), ExprEvents(es[k]));
        RunPrefixFails(env, st, es, k + 1);
      } else {
        assert es[..k] == es;
      }
    }

    /** The callee's identifier is looked up and the arguments are walked; then a call of an intrinsic is
        typed, and any other is recorded and its identifier looked up again. */
    method DetermineCall(f: Symbol, args: seq<Expr>, typed: bool, ghost env: Env, ghost st: State) returns (ok: bool)
      requires Walking(env, st)
      modifies this`callerToCallee, current`referenced, current`localReferenced
      ensures Walked(env, st, ExprEvents(Call(f, args, typed)), ok)
      decreases args, 1
    {
      ghost var a, b, c := [Use(f)], ExprsEvents(args), [IntrinsicTyping(f, typed), Event.Calls(f), Use(f)];
      assert ExprEvents(Call(f, args, typed)) == a + b + c;
      RunSplit(env, st, a + b, c);
      RunSplit(env, st, a, b);
      RunOne(env, st, Use(f));
      var intrinsic;
      ok, intrinsic := DetermineIdentifier(f, env, st);
      if !ok {
        return false;
      }
      ghost var st1 := Step(env, st, Use(f)).value;
      ok := DetermineExprs(args, env, st1);
      if !ok {
        return false;
      }
      ghost var st2 := Run(env, st1, b).value;
      ScopeKept(env, st1, args);
      CallEvents(env, st2, f, typed);
      if intrinsic {
        return typed;
      }
      ok := RecordCall(f, env, st2);
      if ok {
        var known, _ := DetermineIdentifier(f, env, Step(env, st2, Event.Calls(f)).value);
        ok := known;
      }
    }

    /** What follows the arguments of a call. */
    lemma CallEvents(env: Env, st: State, f: Symbol, typed: bool)
      ensures
        var r := Run(env, st, [IntrinsicTyping(f, typed), Event.Calls(f), Use(f)]);
        if IsIntrinsic(env, st.scope, f) then r == if typed then Some(st) else None
        else r == match Step(env, st, Event.Calls(f)) case None => None case Some(mid) => Step(env, mid, Use(f))
    {
      var evs := [IntrinsicTyping(f, typed), Event.Calls(f), Use(f)];
      assert evs == [IntrinsicTyping(f, typed)] + [Event.Calls(f), Use(f)];
      RunSplit(env, st, [IntrinsicTyping(f, typed)], [Event.Calls(f), Use(f)]);
      RunOne(env, st, IntrinsicTyping(f, typed));
      RunTwo(env, st, Event.Calls(f), Use(f));
    }

    lemma RunTwo(env: Env, st: State, a: Event, b: Event)
      ensures Run(env, st, [a, b]) == match Step(env, st, a) case None => None case Some(mid) => Step(env, mid, b)
    {
      assert [a, b][..1] == [a];
      RunOne(env, st, a);
    }

    /** Expressions declare nothing. */
    lemma {:induction false} ScopeKept(env: Env, st: State, es: seq<Expr>)
      requires Run(env, st, ExprsEvents(es)).Some?
      ensures Run(env, st, ExprsEvents(es)).value.scope == st.scope
    {
      NoDeclarations(es);
      UsesKeepScope(env, st, ExprsEvents(es));
    }

    lemma {:induction false} NoDeclarations(es: seq<Expr>)
      ensures forall k | 0 <= k < |ExprsEvents(es)| :: !ExprsEvents(es)[k].Declare?
      decreases es, 0
    {
      if es != [] {
        NoDeclarations(es[..|es| - 1]);
        NoDeclaration(es[|es| - 1]);
      }
    }

    lemma {:induction false} NoDeclaration(e: Expr)
      ensures forall k | 0 <= k < |ExprEvents(e)| :: !ExprEvents(e)[k].Declare?
      decreases e, 0
    {
      match e {
        case Ident(_) =>
        case Call(_, args, _) => NoDeclarations(args);
        case Other(operands, _) => NoDeclarations(operands);
      }
    }

    lemma {:induction false} UsesKeepScope(env: Env, st: State, evs: seq<Event>)
      requires Run(env, st, evs).Some? && forall k | 0 <= k < |evs| :: !evs[k].Declare?
      ensures Run(env, st, evs).value.scope == st.scope
    {
      if evs != [] {
        UsesKeepScope(env, st, evs[..|evs| - 1]);
      }
    }

    method DetermineOptional(e: Option<Expr>, ghost env: Env, ghost st: State) returns (ok: bool)
      requires Walking(env, st)
      modifies this`callerToCallee, current`referenced, current`localReferenced
      ensures Walked(env, st, OptEvents(e), ok)
    {
      if e.None? {
        return true;
      }
      ok := DetermineExpr(e.value, env, st);
    }

    /** A local that is not const becomes a function-class variable; it must not be a module one. It
        enters the scope before its initializer is walked. */
    method DetermineDeclaration(v: Variable, init: Option<Expr>, ghost env: Env, ghost st: State) returns (ok: bool)
      requires Walking(env, st)
      modifies this`callerToCallee, variableStack, current`referenced, current`localReferenced
      ensures Walked(env, st, StmtEvents(VarDecl(v, init)), ok)
    {
      RunSplit(env, st, [Declare(v)], OptEvents(init));
      RunOne(env, st, Declare(v));
      if !v.isConst && v.storage != FunctionClass && v.storage != NoClass {
        return false;
      }
      var w := if v.isConst then v else v.(storage := FunctionClass);
      variableStack.Set(v.symbol, w);
      ok := DetermineOptional(init, env, st.(scope := st.scope[v.symbol := w]));
    }

    method DetermineStmt(s: Stmt, ghost env: Env, ghost st: State) returns (ok: bool)
      requires Walking(env, st)
      modifies this`callerToCallee, variableStack, current`referenced, current`localReferenced
      ensures Walked(env, st, StmtEvents(s), ok)
      decreases s, 0
    {
      match s {
        case Assign(lhs, rhs) =>
          RunSplit(env, st, ExprEvents(lhs), ExprEvents(rhs));
          ok := DetermineExpr(lhs, env, st);
          if ok {
            ok := DetermineExpr(rhs, env, Run(env, st, ExprEvents(lhs)).value);
          }
        case Block(stmts) =>
          ok := DetermineStatements(stmts, env, st);
        case CallStmt(e) =>
          ok := DetermineExpr(e, env, st);
        case If(cond, body, elses) =>
          RunSplit(env, st, ExprEvents(cond) + StmtsEvents(body), StmtsEvents(elses));
          ok := DetermineGuarded(Some(cond), body, env, st);
          if ok {
            ok := DetermineStatements(elses, env, Run(env, st, ExprEvents(cond) + StmtsEvents(body)).value);
          }
        case Else(cond, body) =>
          ok := DetermineGuarded(cond, body, env, st);
        case Loop(body, continuing) =>
          RunSplit(env, st, StmtsEvents(body), StmtsEvents(continuing));
          ok := DetermineStatements(body, env, st);
          if ok {
            ok := DetermineStatements(continuing, env, Run(env, st, StmtsEvents(body)).value);
          }
        case Return(value) =>
          ok := DetermineOptional(value, env, st);
        case Switch(cond, cases) =>
          ok := DetermineGuarded(Some(cond), cases, env, st);
        case Case(body) =>
          ok := DetermineStatements(body, env, st);
        case VarDecl(v, init) =>
          ok := DetermineDeclaration(v, init, env, st);
        case Jump =>
          ok := true;
      }
    }

    /** A condition, if there is one, and then statements. */
    method DetermineGuarded(cond: Option<Expr>, body: seq<Stmt>, ghost env: Env, ghost st: State) returns (ok: bool)
      requires Walking(env, st)
      modifies this`callerToCallee, variableStack, current`referenced, current`localReferenced
      ensures Walked(env, st, OptEvents(cond) + StmtsEvents(body), ok)
      decreases body, 1
    {
      RunSplit(env, st, OptEvents(cond), StmtsEvents(body));
      ok := DetermineOptional(cond, env, st);
      if ok {
        ok := DetermineStatements(body, env, Run(env, st, OptEvents(cond)).value);
      }
    }

    method DetermineStatements(ss: seq<Stmt>, ghost env: Env, ghost st: State) returns (ok: bool)
      requires Walking(env, st)
      modifies this`callerToCallee, variableStack, current`referenced, current`localReferenced
      ensures Walked(env, st, StmtsEvents(ss), ok)
      decreases ss, 0
    {
      var k := 0;
      while k < |ss|
        invariant 0 <= k <= |ss| && Walked(env, st, StmtsEvents(ss[..k]), true)
      {
        ghost var mid := Run(env, st, StmtsEvents(ss[..k])).value;
        ok := DetermineStmt(ss[k], env, mid);
        assert ss[..k + 1][..k] == ss[..k];
        RunSplit(env, st, StmtsEvents(ss[..k]), StmtEvents(ss[k]));
        if !ok {
          StatementPrefixFails(env, st, ss, k + 1);
          return false;
        }
        k := k + 1;
      }
      assert ss[..k] == ss;
      return true;
    }

    lemma {:induction false} StatementPrefixFails(env: Env, st: State, ss: seq<Stmt>, k: nat)
      requires k <= |ss| && Run(env, st, StmtsEvents(ss[..k])).None?
      ensures Run(env, st, StmtsEvents(ss)).None?
      decreases |ss| - k
    {
      if k < |ss| {
        assert ss[..k + 1][..k] == ss[..k];
        RunSplit(env, st, StmtsEvents(ss[..k]), StmtEvents(ss[k]));
        StatementPrefixFails(env, st, ss, k + 1);
      } else {
        assert ss[..k] == ss;
      }
    }

    // --- Functions ---

    ghost predicate Idle()
      reads this, variableStack
    {
      current == null && variableStack.stack == [globals] && UniqueSymbols()
    }

    /** What is known when the walk of f starts. */
    ghost function EnvFor(f: Function): Env
      requires UniqueSymbols()
      reads this, functions`referenced
    {
      Env(globals, symbolToFunction.Keys + {f.symbol}, map g | g in functions :: g.symbol := g.referenced, intrinsics, f.symbol)
    }

    method PushParameters(params: seq<Variable>)
      requires variableStack.stack == [globals]
      modifies variableStack
      ensures variableStack.stack == [globals, ScopeOf(params)]
    {
      variableStack.PushScope();
      var k := 0;
      while k < |params|
        invariant 0 <= k <= |params|
        invariant variableStack.stack == [globals, ScopeOf(params[..k])]
      {
        assert params[..k + 1][..k] == params[..k];
        variableStack.Set(params[k].symbol, params[k]);
        k := k + 1;
      }
      assert params[..k] == params;
    }

    /** The walk of f starts. */
    method Start(f: Function) returns (ghost env: Env)
      requires Idle() && f in functions
      requires f.referenced == [] && f.localReferenced == [] && CallsOf(f.symbol) == []
      modifies this`symbolToFunction, this`current, variableStack
      ensures env == old(EnvFor(f)) && symbolToFunction == old(symbolToFunction)[f.symbol := f] && current == f
      ensures Walking(env, Entered(f))
    {
      env := EnvFor(f);
      EnvKnown(env);
      symbolToFunction := symbolToFunction[f.symbol := f];
      current := f;
      PushParameters(f.params);
    }

    /** DetermineFunction(): on success the stack is what it was, and the function's lists are what
        the walk of its body collected. */
    method DetermineFunction(f: Function) returns (ok: bool, ghost env: Env)
      requires Idle() && f in functions
      requires f.referenced == [] && f.localReferenced == [] && CallsOf(f.symbol) == []
      modifies this`callerToCallee, this`symbolToFunction, this`current, variableStack, f`referenced, f`localReferenced
      ensures env == old(EnvFor(f)) && ok == Outcome(env, f).Some?
      ensures ok ==> Idle() && symbolToFunction == old(symbolToFunction)[f.symbol := f]
      ensures ok ==> InfoOf(f) == Outcome(env, f).value
      ensures forall s | s != f.symbol :: CallsOf(s) == old(CallsOf(s))
    {
      env := Start(f);
      ok := DetermineStatements(f.body, env, Entered(f));
      if !ok {
        return;
      }
      variableStack.PopScope();
      current := null;
    }

    ghost function InfoOf(f: Function): Info
      reads this`callerToCallee, f`referenced, f`localReferenced
    {
      Info(f.symbol, f.referenced, f.localReferenced, CallsOf(f.symbol))
    }

    /** What the walk of a function collects. */
    ghost function Outcome(env: Env, f: Function): Option<Info> {
      match Run(env, Entered(f), StmtsEvents(f.body))
      case None => None
      case Some(st) => Some(Info(f.symbol, st.refs, st.locals, st.calls))
    }

    lemma EnvKnown(env: Env)
      requires UniqueSymbols() && env.program == map g | g in functions :: g.symbol := g.referenced
      ensures forall s :: s in env.program <==> exists i :: 0 <= i < |functions| && functions[i].symbol == s
      ensures forall i | 0 <= i < |functions| :: env.program[functions[i].symbol] == functions[i].referenced
    {
      forall i | 0 <= i < |functions|
        ensures functions[i].symbol in env.program && env.program[functions[i].symbol] == functions[i].referenced
      {
        assert functions[i] in functions;
      }
    }

    // --- The program ---

    ghost function Infos(): (r: seq<Info>)
      reads this`callerToCallee, functions`referenced, functions`localReferenced
      ensures |r| == |functions| && forall i | 0 <= i < |r| :: r[i] == InfoOf(functions[i])
    {
      InfosUpTo(|functions|)
    }

    ghost function InfosUpTo(n: nat): (r: seq<Info>)
      requires n <= |functions|
      reads this`callerToCallee, functions`referenced, functions`localReferenced
      ensures |r| == n && forall i | 0 <= i < n :: r[i] == InfoOf(functions[i])
    {
      if n == 0 then [] else InfosUpTo(n - 1) + [InfoOf(functions[n - 1])]
    }

    /** No parameter, module variable or local bears the name of a function. */
    ghost predicate NamesApart() {
      forall i, j | 0 <= i < |functions| && 0 <= j < |functions| :: NotIn(functions[i].symbol, functions[j])
    }

    ghost predicate NotIn(s: Symbol, f: Function) {
      s !in ScopeOf(f.params) && s !in globals && forall v | S.DeclaredIn(f.body, v) :: v.symbol != s
    }

    lemma NotInEvents(s: Symbol, f: Function)
      ensures NotIn(s, f) <==>
        && s !in ScopeOf(f.params) && s !in globals
        && forall k | 0 <= k < |StmtsEvents(f.body)| && StmtsEvents(f.body)[k].Declare? :: StmtsEvents(f.body)[k].v.symbol != s
    {
      var evs := StmtsEvents(f.body);
      if s !in ScopeOf(f.params) && s !in globals {
        forall v | S.DeclaredIn(f.body, v) && (forall k | 0 <= k < |evs| && evs[k].Declare? :: evs[k].v.symbol != s)
          ensures v.symbol != s
        {
          S.EventsExact(f.body, Declare(v));
          var k :| 0 <= k < |evs| && evs[k] == Declare(v);
        }
        forall k | 0 <= k < |evs| && evs[k].Declare? && NotIn(s, f)
          ensures evs[k].v.symbol != s
        {
          assert evs[k] == Declare(evs[k].v);
          S.EventsExact(f.body, evs[k]);
        }
      }
    }

    /** The first k functions have been walked, the others not. */
    ghost predicate Reached(k: nat)
      reads this, variableStack, functions`referenced, functions`localReferenced
      requires k <= |functions|
    {
      && Idle() && WellBuilt(Infos())
      && (forall i | k <= i < |functions| :: Unwalked(Infos()[i]))
      && FirstRegistered(symbolToFunction, k) && forall i | 0 <= i < k :: Known(i, Infos()[i])
    }

    ghost predicate FirstRegistered(registered: map<Symbol, Function>, k: nat)
      requires k <= |functions|
    {
      && (forall s :: s in registered <==> exists i :: 0 <= i < k && functions[i].symbol == s)
      && forall i | 0 <= i < k :: registered[functions[i].symbol] == functions[i]
    }

    /** Some identifier of f means the module variable s. */
    ghost predicate Mentions(f: Function, s: Symbol) {
      S.Mentioned(globals, ScopeOf(f.params), f.body, s)
    }

    /** The body of the i-th function calls the j-th one, which is declared no later. */
    ghost predicate CallsInBody(i: nat, j: nat)
      requires i < |functions| && j < |functions|
    {
      j <= i && S.CalledIn(functions[i].body, functions[j].symbol)
    }

    /** What is recorded for a function is what its body says. */
    ghost predicate Known(i: nat, info: Info)
      requires i < |functions|
    {
      && (forall s :: s in Syms(info.locals) <==> Mentions(functions[i], s))
      && forall j | 0 <= j < |functions| :: functions[j].symbol in info.calls <==> CallsInBody(i, j)
    }

    ghost function Entered(f: Function): State {
      State(ScopeOf(f.params), [], [], [])
    }

    lemma OutcomeMentions(env: Env, f: Function, s: Symbol)
      requires env.globals == globals && Outcome(env, f).Some?
      ensures s in Syms(Outcome(env, f).value.locals) <==> Mentions(f, s)
    {
      LocalsExact(env, Entered(f), StmtsEvents(f.body), s);
      S.MentionsExact(env, ScopeOf(f.params), f.body, s);
      assert s !in Syms([]);
    }

    lemma OutcomeCalls(env: Env, infos: seq<Info>, k: nat, c: Symbol)
      requires NamesApart() && k < |functions| == |infos| && env.globals == globals
      requires (forall i | 0 <= i < |infos| :: infos[i].symbol == functions[i].symbol) && Describes(env, infos, k)
      requires Outcome(env, functions[k]).Some?
      ensures c in Outcome(env, functions[k]).value.calls <==>
        c in env.registered && S.CalledIn(functions[k].body, c)
    {
      var f := functions[k];
      StmtsLookedUp(f.body);
      S.EventsExact(f.body, Event.Calls(c));
      forall s | s in env.program
        ensures NotIn(s, f)
      {
        var j :| 0 <= j < |infos| && infos[j].symbol == s;
        assert functions[j].symbol == s;
      }
      NotInAll(env, f);
      CallsExact(env, Entered(f), StmtsEvents(f.body), c);
    }

    lemma NotInAll(env: Env, f: Function)
      requires env.globals == globals && forall s | s in env.program :: NotIn(s, f)
      ensures Apart(env, ScopeOf(f.params), StmtsEvents(f.body))
    {
      forall s | s in env.program
        ensures s !in ScopeOf(f.params) && s !in globals
        ensures forall k | 0 <= k < |StmtsEvents(f.body)| && StmtsEvents(f.body)[k].Declare? ::
          StmtsEvents(f.body)[k].v.symbol != s
      {
        NotInEvents(s, f);
      }
    }

    lemma OutcomeBuilt(env: Env, infos: seq<Info>, k: nat)
      requires NamesApart() && |infos| == |functions| && k < |infos|
      requires forall i | 0 <= i < |infos| :: infos[i].symbol == functions[i].symbol
      requires WellBuilt(infos) && forall i | k <= i < |infos| :: Unwalked(infos[i])
      requires Describes(env, infos, k) && env.globals == globals
      requires Outcome(env, functions[k]).Some?
      ensures WellBuilt(infos[k := Outcome(env, functions[k]).value])
    {
      var f := functions[k];
      var after := Run(env, Entered(f), StmtsEvents(f.body)).value;
      DescribedTidy(env, infos, k);
      RunBalanced(env, Entered(f), StmtsEvents(f.body));
      forall c | c in after.calls
        ensures c in env.registered
      {
        OutcomeCalls(env, infos, k, c);
      }
      WalkKeepsBuilt(infos, k, env, after);
    }

    lemma EnvDescribes(k: nat)
      requires k < |functions| && UniqueSymbols() && FirstRegistered(symbolToFunction, k)
      ensures Describes(EnvFor(functions[k]), Infos(), k)
    {
      var env, infos := EnvFor(functions[k]), Infos();
      EnvKnown(env);
      SymbolsFrom(infos, env.program.Keys, |functions|);
      RegisteredNext(k);
      SymbolsFrom(infos, env.registered, k + 1);
    }

    lemma RegisteredNext(k: nat)
      requires k < |functions| && UniqueSymbols() && FirstRegistered(symbolToFunction, k)
      ensures forall s :: s in EnvFor(functions[k]).registered <==> exists i :: 0 <= i < k + 1 && functions[i].symbol == s
    {
      var registered := EnvFor(functions[k]).registered;
      forall s
        ensures s in registered <==> exists i :: 0 <= i < k + 1 && functions[i].symbol == s
      {
        assert s in registered <==> s in symbolToFunction || s == functions[k].symbol;
      }
    }

    lemma SymbolsFrom(infos: seq<Info>, known: set<Symbol>, n: nat)
      requires n <= |functions| == |infos| && forall i | 0 <= i < n :: infos[i].symbol == functions[i].symbol
      requires forall s :: s in known <==> exists i :: 0 <= i < n && functions[i].symbol == s
      ensures NamesOf(known, infos, n)
    {
      forall s
        ensures s in known <==> exists i :: 0 <= i < n && infos[i].symbol == s
      {
        if s in known {
          var i :| 0 <= i < n && functions[i].symbol == s;
          assert infos[i].symbol == s;
        }
        forall i | 0 <= i < n && infos[i].symbol == s
          ensures s in known
        {
          assert functions[i].symbol == s;
        }
      }
    }

    /** Only the k-th function's lists have moved. */
    twostate lemma InfosMoved(k: nat)
      requires k < |functions| && UniqueSymbols()
      requires forall s | s != functions[k].symbol :: CallsOf(s) == old(CallsOf(s))
      requires forall g | g in functions && g != functions[k] :: unchanged(g`referenced, g`localReferenced)
      ensures Infos() == old(Infos())[k := InfoOf(functions[k])]
    {
      forall i | 0 <= i < |functions| && i != k
        ensures InfoOf(functions[i]) == old(InfoOf(functions[i]))
      {
        assert functions[i].symbol != functions[k].symbol;
        assert functions[i] in functions;
      }
    }

    /** What the names in the k-th function mean: module variables, functions declared no later, all
        functions, and intrinsics. */
    ghost function Surroundings(k: nat): Env
      requires k < |functions|
    {
      Env(globals, set i | 0 <= i <= k :: functions[i].symbol, map f | f in functions :: f.symbol := [],
          intrinsics, functions[k].symbol)
    }

    /** The body of the k-th function is resolved: every name in it is known where it stands, and everything
        that is to get a type gets one. */
    ghost predicate Succeeds(k: nat)
      requires k < |functions|
    {
      S.ResolvedIn(Surroundings(k), ScopeOf(functions[k].params), functions[k].body)
    }

    /** Then, and only then, the walk of the body gets through. */
    lemma SucceedsWalk(k: nat)
      requires k < |functions|
      ensures Succeeds(k) <==> Outcome(Surroundings(k), functions[k]).Some?
    {
      S.WalkPasses(Surroundings(k), ScopeOf(functions[k].params), functions[k].body);
      S.PassesAnywhere(Surroundings(k), Entered(functions[k]), StmtsEvents(functions[k].body));
    }

    lemma OutcomeSucceeds(env: Env, infos: seq<Info>, k: nat)
      requires k < |functions| == |infos| && env.globals == globals && env.intrinsics == intrinsics
      requires (forall i | 0 <= i < |infos| :: infos[i].symbol == functions[i].symbol) && Describes(env, infos, k)
      ensures Outcome(env, functions[k]).Some? <==> Succeeds(k)
    {
      var other := Surroundings(k);
      SucceedsWalk(k);
      forall s
        ensures s in env.registered <==> s in other.registered
        ensures s in env.program <==> s in other.program
      {
        SameNames(env, infos, k, s);
      }
      FailureIsLocal(env, other, Entered(functions[k]), Entered(functions[k]), StmtsEvents(functions[k].body));
    }

    lemma EnvSucceeds(k: nat)
      requires k < |functions| && UniqueSymbols() && FirstRegistered(symbolToFunction, k)
      ensures Outcome(EnvFor(functions[k]), functions[k]).Some? <==> Succeeds(k)
    {
      EnvDescribes(k);
      OutcomeSucceeds(EnvFor(functions[k]), Infos(), k);
    }

    lemma SameNames(env: Env, infos: seq<Info>, k: nat, s: Symbol)
      requires k < |functions| == |infos|
      requires (forall i | 0 <= i < |infos| :: infos[i].symbol == functions[i].symbol) && Describes(env, infos, k)
      ensures s in env.registered <==> s in Surroundings(k).registered
      ensures s in env.program <==> s in Surroundings(k).program
    {
      if s in env.registered {
        var i :| 0 <= i < k + 1 && infos[i].symbol == s;
        assert functions[i].symbol == s;
      }
      if s in Surroundings(k).registered {
        var i :| 0 <= i <= k && functions[i].symbol == s;
        assert infos[i].symbol == s;
      }
      if s in env.program {
        var i :| 0 <= i < |infos| && infos[i].symbol == s;
        assert functions[i] in functions;
      }
      if s in Surroundings(k).program {
        var f :| f in functions && f.symbol == s;
        var i :| 0 <= i < |functions| && functions[i] == f;
        assert infos[i].symbol == s;
      }
    }

    /** The k-th walk, and what it does to what is known of the functions. */
    method WalkNext(k: nat) returns (ok: bool, ghost env: Env, ghost infos: seq<Info>)
      requires k < |functions| && Idle() && FirstRegistered(symbolToFunction, k) && Unwalked(Infos()[k])
      modifies this`callerToCallee, this`symbolToFunction, this`current, variableStack
      modifies functions`referenced, functions`localReferenced
      ensures infos == old(Infos()) && env == old(EnvFor(functions[k])) && ok == Outcome(env, functions[k]).Some?
      ensures ok ==> Idle() && symbolToFunction == old(symbolToFunction)[functions[k].symbol := functions[k]]
      ensures ok ==> Infos() == infos[k := Outcome(env, functions[k]).value]
    {
      infos := Infos();
      ok, env := DetermineFunction(functions[k]);
      if ok {
        InfosMoved(k);
      }
    }

    /** What is known before the k-th walk, apart from the state it changes. */
    ghost predicate Before(infos: seq<Info>, was: map<Symbol, Function>, env: Env, k: nat) {
      && k < |functions| == |infos| && UniqueSymbols() && WellBuilt(infos)
      && (forall i | 0 <= i < |infos| :: infos[i].symbol == functions[i].symbol) && Describes(env, infos, k)
      && env.globals == globals
      && (forall i | k <= i < |infos| :: Unwalked(infos[i]))
      && FirstRegistered(was, k) && forall i | 0 <= i < k :: Known(i, infos[i])
    }

    lemma ReachedBefore(k: nat)
      requires k < |functions| && Reached(k)
      ensures Before(Infos(), symbolToFunction, EnvFor(functions[k]), k)
    {
      EnvDescribes(k);
    }

    method DetermineNext(k: nat) returns (ok: bool, ghost env: Env)
      requires k < |functions| && Reached(k) && NamesApart()
      modifies this`callerToCallee, this`symbolToFunction, this`current, variableStack
      modifies functions`referenced, functions`localReferenced
      ensures env == old(EnvFor(functions[k])) && ok == Outcome(env, functions[k]).Some?
      ensures ok ==> Reached(k + 1)
    {
      ReachedBefore(k);
      ghost var was := symbolToFunction;
      ghost var infos;
      ok, env, infos := WalkNext(k);
      if ok {
        Advance(k, infos, was, env);
      }
    }

    lemma OutcomeKnown(env: Env, infos: seq<Info>, k: nat)
      requires NamesApart() && UniqueSymbols() && k < |functions| == |infos| && env.globals == globals
      requires (forall i | 0 <= i < |infos| :: infos[i].symbol == functions[i].symbol) && Describes(env, infos, k)
      requires Outcome(env, functions[k]).Some?
      ensures Known(k, Outcome(env, functions[k]).value)
    {
      forall s
        ensures s in Syms(Outcome(env, functions[k]).value.locals) <==> Mentions(functions[k], s)
      {
        OutcomeMentions(env, functions[k], s);
      }
      forall j | 0 <= j < |functions|
        ensures functions[j].symbol in Outcome(env, functions[k]).value.calls <==> CallsInBody(k, j)
      {
        OutcomeCalls(env, infos, k, functions[j].symbol);
        RegisteredBy(env, infos, k, j);
      }
    }

    lemma RegisteredBy(env: Env, infos: seq<Info>, k: nat, j: nat)
      requires UniqueSymbols() && k < |functions| == |infos| && j < |functions|
      requires (forall i | 0 <= i < |infos| :: infos[i].symbol == functions[i].symbol) && Describes(env, infos, k)
      ensures functions[j].symbol in env.registered <==> j <= k
    {
      assert infos[j].symbol == functions[j].symbol;
      if functions[j].symbol in env.registered {
        var i :| 0 <= i < k + 1 && infos[i].symbol == functions[j].symbol;
        assert i == j;
      }
    }

    lemma Advance(k: nat, infos: seq<Info>, was: map<Symbol, Function>, env: Env)
      requires Before(infos, was, env, k) && Idle() && NamesApart() && Outcome(env, functions[k]).Some?
      requires Infos() == infos[k := Outcome(env, functions[k]).value]
      requires symbolToFunction == was[functions[k].symbol := functions[k]]
      ensures Reached(k + 1)
    {
      OutcomeBuilt(env, infos, k);
      OutcomeKnown(env, infos, k);
      RegisteredMore(was, k);
      assert Infos()[k] == Outcome(env, functions[k]).value;
      forall i | 0 <= i < k + 1
        ensures Known(i, Infos()[i])
      {
        if i < k {
          assert Infos()[i] == infos[i];
        }
      }
    }

    lemma RegisteredMore(was: map<Symbol, Function>, k: nat)
      requires k < |functions| && UniqueSymbols() && FirstRegistered(was, k)
      ensures FirstRegistered(was[functions[k].symbol := functions[k]], k + 1)
    {
      var now := was[functions[k].symbol := functions[k]];
      forall i | 0 <= i < k
        ensures now[functions[i].symbol] == functions[i]
      {
        assert functions[i].symbol != functions[k].symbol;
      }
    }

    method TryNext(k: nat) returns (ok: bool)
      requires k < |functions| && Reached(k) && NamesApart()
      modifies this`callerToCallee, this`symbolToFunction, this`current, variableStack
      modifies functions`referenced, functions`localReferenced
      ensures ok <==> Succeeds(k)
      ensures ok ==> Reached(k + 1)
    {
      EnvSucceeds(k);
      ghost var env;
      ok, env := DetermineNext(k);
    }

    ghost predicate AllSucceed(n: nat)
      requires n <= |functions|
    {
      forall k | 0 <= k < n :: Succeeds(k)
    }

    lemma OneMoreSucceeds(n: nat)
      requires n < |functions| && AllSucceed(n)
      ensures AllSucceed(n + 1) <==> Succeeds(n)
      ensures !Succeeds(n) ==> !AllSucceed(|functions|)
    {
      if Succeeds(n) {
        forall k | 0 <= k < n + 1
          ensures Succeeds(k)
        {
          assert k == n || k < n;
        }
      }
    }

    method DetermineFunctions() returns (ok: bool)
      requires Reached(0) && NamesApart()
      modifies this`callerToCallee, this`symbolToFunction, this`current, variableStack
      modifies functions`referenced, functions`localReferenced
      ensures ok <==> AllSucceed(|functions|)
      ensures ok ==> Reached(|functions|)
    {
      var k := 0;
      while k < |functions|
        invariant 0 <= k <= |functions| && Reached(k) && AllSucceed(k)
      {
        OneMoreSucceeds(k);
        ok := TryNext(k);
        if !ok {
          return false;
        }
        k := k + 1;
      }
      return true;
    }

    // --- Entry points ---

    ghost predicate Settled(infos: seq<Info>)
      reads this`callerToCallee, this`symbolToFunction, functions`referenced, functions`localReferenced
    {
      && infos == Infos() && UniqueSymbols() && WellBuilt(infos)
      && FirstRegistered(symbolToFunction, |functions|)
    }

    ghost predicate ListedOnce()
      reads functions`ancestors
    {
      forall k, a, b | 0 <= k < |functions| && 0 <= a < b < |functions[k].ancestors| ::
        functions[k].ancestors[a] != functions[k].ancestors[b]
    }

    ghost predicate Listed(s: Symbol, k: nat)
      requires k < |functions|
      reads functions`ancestors
    {
      s in functions[k].ancestors
    }

    /** Some of the symbols names a function that reaches k. */
    ghost predicate Reaching(infos: seq<Info>, callees: seq<Symbol>, k: nat) {
      exists j :: 0 <= j < |infos| && infos[j].symbol in callees && Reaches(infos, j, k)
    }

    lemma ReachingMore(infos: seq<Info>, callees: seq<Symbol>, j: nat, k: nat)
      requires UniqueSymbols() && infos == Infos() && j < |infos|
      ensures Reaching(infos, callees + [infos[j].symbol], k) <==> Reaching(infos, callees, k) || Reaches(infos, j, k)
    {
      if Reaching(infos, callees + [infos[j].symbol], k) && !Reaching(infos, callees, k) {
        var m :| 0 <= m < |infos| && infos[m].symbol in callees + [infos[j].symbol] && Reaches(infos, m, k);
        assert m == j;
      }
    }

    /** set_entry_points(): the entry point is added to i and to everything i reaches. */
    method SetEntryPoints(fnSym: Symbol, ep: Symbol, ghost infos: seq<Info>, ghost i: nat)
      requires Settled(infos) && ListedOnce() && i < |functions| && functions[i].symbol == fnSym
      requires NoLoopFrom(infos, i)
      modifies functions`ancestors
      ensures ListedOnce()
      ensures forall k, s | 0 <= k < |functions| ::
        Listed(s, k) <==> old(Listed(s, k)) || (s == ep && Reaches(infos, i, k))
      decreases i, 1
    {
      AddTo(i, ep, symbolToFunction[fnSym]);
      SetForCallees(fnSym, ep, infos, i);
      forall k | 0 <= k < |functions|
        ensures Reaches(infos, i, k) <==> i == k || Reaching(infos, infos[i].calls, k)
      {
        ReachesStep(infos, i, k);
      }
    }

    method AddTo(ghost i: nat, ep: Symbol, f: Function)
      requires UniqueSymbols() && ListedOnce() && i < |functions| && f == functions[i]
      modifies functions`ancestors
      ensures ListedOnce()
      ensures forall k, s | 0 <= k < |functions| :: Listed(s, k) <==> old(Listed(s, k)) || (s == ep && k == i)
    {
      f.AddAncestorEntryPoint(ep);
      forall k | 0 <= k < |functions|
        ensures functions[k].ancestors == if k == i then f.ancestors else old(functions[k].ancestors)
      {
        assert k != i ==> functions[k].symbol != functions[i].symbol;
      }
    }

    method SetForCallees(fnSym: Symbol, ep: Symbol, ghost infos: seq<Info>, ghost i: nat)
      requires Settled(infos) && ListedOnce() && i < |functions| && functions[i].symbol == fnSym
      requires NoLoopFrom(infos, i)
      modifies functions`ancestors
      ensures ListedOnce()
      ensures forall k, s | 0 <= k < |functions| ::
        Listed(s, k) <==> old(Listed(s, k)) || (s == ep && Reaching(infos, infos[i].calls, k))
      decreases i, 0
    {
      var callees := if fnSym in callerToCallee then callerToCallee[fnSym] else [];
      assert callees == infos[i].calls;
      var c := 0;
      while c < |callees|
        invariant 0 <= c <= |callees| && Settled(infos) && ListedOnce()
        invariant forall k, s | 0 <= k < |functions| ::
          Listed(s, k) <==> old(Listed(s, k)) || (s == ep && Reaching(infos, callees[..c], k))
      {
        ghost var j := Callee(infos, i, callees[c]);
        SetEntryPoints(callees[c], ep, infos, j);
        assert callees[..c + 1] == callees[..c] + [infos[j].symbol];
        forall k
          ensures Reaching(infos, callees[..c + 1], k) <==> Reaching(infos, callees[..c], k) || Reaches(infos, j, k)
        {
          ReachingMore(infos, callees[..c], j, k);
        }
        c := c + 1;
      }
      assert callees[..c] == callees;
    }

    lemma Callee(infos: seq<Info>, i: nat, s: Symbol) returns (j: nat)
      requires Settled(infos) && i < |functions| && s in infos[i].calls && NoLoopFrom(infos, i)
      ensures j < i && functions[j].symbol == s && NoLoopFrom(infos, j)
    {
      assert CallsBack(infos, i);
      j :| 0 <= j <= i && infos[j].symbol == s;
      CallsGoBack(infos, i, j);
    }

    // --- The whole run ---

    /** Nothing has been determined yet. */
    ghost predicate Untouched()
      reads this, variableStack, functions
    {
      && variableStack.stack == [map[]] && globals == ScopeOf(variables) && current == null
      && callerToCallee == map[] && symbolToFunction == map[]
      && forall i | 0 <= i < |functions| ::
        functions[i].referenced == [] && functions[i].localReferenced == []
    }

    ghost predicate NoneListed()
      reads functions`ancestors
    {
      forall k | 0 <= k < |functions| :: functions[k].ancestors == []
    }

    method SetGlobals()
      requires variableStack.stack == [map[]] && globals == ScopeOf(variables)
      modifies variableStack
      ensures variableStack.stack == [globals]
    {
      var k := 0;
      while k < |variables|
        invariant 0 <= k <= |variables| && variableStack.stack == [ScopeOf(variables[..k])]
      {
        assert variables[..k + 1][..k] == variables[..k];
        variableStack.SetGlobal(variables[k].symbol, variables[k]);
        k := k + 1;
      }
      assert variables[..k] == variables;
    }

    /** Everything is known of every function, and entry points are still to be spread. */
    ghost predicate Determined()
      reads this, variableStack, functions`referenced, functions`localReferenced
    {
      Settled(Infos()) && variableStack.stack == [globals] && forall i | 0 <= i < |functions| :: Known(i, Infos()[i])
    }

    lemma Unstarted()
      requires Untouched() && UniqueSymbols()
      ensures WellBuilt(Infos()) && forall i | 0 <= i < |functions| :: Unwalked(Infos()[i])
    {
      forall i | 0 <= i < |functions|
        ensures CallsBack(Infos(), i) && Tidy(Infos()[i].refs) && Inherits(Infos(), i)
      {
        assert Infos()[i] == InfoOf(functions[i]);
      }
    }

    /** An entry point among the first n functions is named s and leads to k. */
    ghost predicate EnteredFrom(infos: seq<Info>, n: nat, s: Symbol, k: nat)
      requires n <= |functions|
    {
      exists e :: 0 <= e < n && functions[e].isEntryPoint && functions[e].symbol == s && LeadsTo(infos, e, k)
    }

    /** Every function lists the ones among the first n functions that are entry points leading to it. */
    ghost predicate AncestorsUpTo(infos: seq<Info>, n: nat)
      requires n <= |functions|
      reads functions`ancestors
    {
      forall k, s | 0 <= k < |functions| :: Listed(s, k) <==> EnteredFrom(infos, n, s, k)
    }

    /** Nothing that an entry point reaches calls itself. */
    ghost predicate EntriesEnd(infos: seq<Info>) {
      forall e | 0 <= e < |functions| && functions[e].isEntryPoint :: NoLoopFrom(infos, e)
    }

    method SpreadEntryPoints(ghost infos: seq<Info>)
      requires Settled(infos) && NoneListed() && EntriesEnd(infos)
      modifies functions`ancestors
      ensures Settled(infos) && ListedOnce() && AncestorsUpTo(infos, |functions|)
    {
      var e := 0;
      while e < |functions|
        invariant 0 <= e <= |functions| && Settled(infos) && ListedOnce() && AncestorsUpTo(infos, e)
      {
        SpreadFrom(e, infos);
        e := e + 1;
      }
    }

    method SpreadFrom(e: nat, ghost infos: seq<Info>)
      requires Settled(infos) && ListedOnce() && e < |functions| && AncestorsUpTo(infos, e) && EntriesEnd(infos)
      modifies functions`ancestors
      ensures Settled(infos) && ListedOnce() && AncestorsUpTo(infos, e + 1)
    {
      forall k, s | 0 <= k < |functions|
        ensures EnteredFrom(infos, e + 1, s, k) <==> (EnteredFrom(infos, e, s, k) ||
          (functions[e].isEntryPoint && functions[e].symbol == s && Reaching(infos, infos[e].calls, k)))
      {
        EnteredNext(infos, e, s, k);
      }
      if functions[e].isEntryPoint {
        SetForCallees(functions[e].symbol, functions[e].symbol, infos, e);
      }
    }

    lemma EnteredNext(infos: seq<Info>, e: nat, s: Symbol, k: nat)
      requires e < |functions| == |infos|
      ensures EnteredFrom(infos, e + 1, s, k) <==> (EnteredFrom(infos, e, s, k) ||
        (functions[e].isEntryPoint && functions[e].symbol == s && Reaching(infos, infos[e].calls, k)))
    {
      CallsStep(infos, e, k);
      if LeadsTo(infos, e, k) {
        var j :| 0 <= j < |infos| && Edge(infos, e, j) && Reaches(infos, j, k);
        assert infos[j].symbol in infos[e].calls;
      }
      if Reaching(infos, infos[e].calls, k) {
        var j :| 0 <= j < |infos| && infos[j].symbol in infos[e].calls && Reaches(infos, j, k);
        assert Edge(infos, e, j);
      }
    }

    /** The part of Determine() that walks the program: it ends for every program. */
    method DetermineAll() returns (ok: bool)
      requires Untouched() && UniqueSymbols() && NamesApart()
      modifies this`callerToCallee, this`symbolToFunction, this`current, variableStack
      modifies functions`referenced, functions`localReferenced
      ensures ok <==> AllSucceed(|functions|)
      ensures ok ==> Determined() && ReferencesExact()
    {
      Unstarted();
      SetGlobals();
      ok := DetermineFunctions();
      if ok {
        AllMentioned();
      }
    }

    /** Determine(). It succeeds exactly when every walk does. Each function then ends up with the module
        variables mentioned in some function it reaches by calls, and with the entry points that lead
        to it. It does not end when all walks succeed and an entry point reaches a function that calls
        itself. */
    method Determine() returns (ok: bool)
      requires Untouched() && NoneListed() && UniqueSymbols() && NamesApart()
      requires AllSucceed(|functions|) ==> EntriesEnd(Bodies())
      modifies this`callerToCallee, this`symbolToFunction, this`current, variableStack
      modifies functions`referenced, functions`localReferenced, functions`ancestors
      ensures ok <==> AllSucceed(|functions|)
      ensures ok ==> Determined() && ListedOnce()
      ensures ok ==> ReferencesExact() && AncestorsUpTo(Infos(), |functions|)
    {
      ok := DetermineAll();
      if ok {
        Spread();
      }
    }

    /** The part of Determine() that spreads the entry points. */
    method Spread()
      requires Determined() && NoneListed() && EntriesEnd(Bodies())
      modifies functions`ancestors
      ensures Determined() && ListedOnce() && ReferencesExact() && AncestorsUpTo(Infos(), |functions|)
    {
      ghost var infos := Infos();
      BodiesAgree(infos);
      SpreadEntryPoints(infos);
      assert Infos() == infos;
      AllMentioned();
    }

    // --- The calls as the bodies have them ---

    ghost function CallsAmong(i: nat, n: nat): seq<Symbol>
      requires i < |functions| && n <= |functions|
    {
      if n == 0 then []
      else CallsAmong(i, n - 1) + if CallsInBody(i, n - 1) then [functions[n - 1].symbol] else []
    }

    /** The functions with the calls in their bodies to themselves and to earlier ones. */
    ghost function Bodies(): (r: seq<Info>)
      ensures |r| == |functions|
      ensures forall i | 0 <= i < |r| :: r[i] == Info(functions[i].symbol, [], [], CallsAmong(i, |functions|))
    {
      seq(|functions|, i requires 0 <= i < |functions| => Info(functions[i].symbol, [], [], CallsAmong(i, |functions|)))
    }

    lemma {:induction false} CallsAmongHas(i: nat, n: nat, j: nat)
      requires UniqueSymbols() && i < |functions| && n <= |functions| && j < |functions|
      ensures functions[j].symbol in CallsAmong(i, n) <==> j < n && CallsInBody(i, j)
    {
      if n > 0 {
        CallsAmongHas(i, n - 1, j);
        assert functions[j].symbol == functions[n - 1].symbol <==> j == n - 1;
      }
    }

    lemma BodyEdge(i: nat, j: nat)
      requires UniqueSymbols()
      ensures Edge(Bodies(), i, j) <==> i < |functions| && j < |functions| && CallsInBody(i, j)
    {
      if i < |functions| && j < |functions| {
        CallsAmongHas(i, |functions|, j);
        assert Bodies()[i].calls == CallsAmong(i, |functions|) && Bodies()[j].symbol == functions[j].symbol;
      }
    }

    /** What the determiner records agrees with the bodies. */
    lemma BodiesAgree(infos: seq<Info>)
      requires Determined() && infos == Infos()
      ensures forall i: nat, j: nat :: Reaches(infos, i, j) <==> Reaches(Bodies(), i, j)
      ensures EntriesEnd(infos) <==> EntriesEnd(Bodies())
    {
      forall i: nat, j: nat
        ensures Edge(infos, i, j) <==> Edge(Bodies(), i, j)
      {
        BodyEdge(i, j);
        if i < |functions| && j < |functions| {
          assert Known(i, infos[i]) && infos[j] == InfoOf(functions[j]);
        }
      }
      SameCalls(infos, Bodies());
    }

    /** After the walks, spreading the entry points ends exactly when no entry point reaches a function
        that calls itself. */
    lemma SpreadingEndsExactly()
      requires Determined()
      ensures (forall e | 0 <= e < |functions| && functions[e].isEntryPoint :: EndsSometime(Infos(), e)) <==>
        EntriesEnd(Bodies())
    {
      BodiesAgree(Infos());
      forall e | 0 <= e < |functions|
        ensures EndsSometime(Infos(), e) <==> NoLoopFrom(Infos(), e)
      {
        EndsExactly(Infos(), e);
      }
    }

    /** A function that calls itself, and an entry point that calls it. */
    ghost predicate SelfCalling() {
      && |functions| == 2 && functions[0].symbol != functions[1].symbol && functions[1].isEntryPoint
      && (forall i | 0 <= i < 2 :: functions[i].params == [])
      && (forall i | 0 <= i < 2 :: functions[i].body == [CallStmt(Expr.Call(functions[0].symbol, [], true))])
      && functions[0].symbol !in globals && functions[1].symbol !in globals
    }

    /** All its walks succeed, and then the entry point is spread forever. */
    lemma SelfCallsNeverEnd()
      requires SelfCalling()
      ensures AllSucceed(|functions|) && !EntriesEnd(Bodies())
      ensures !EndsSometime(Bodies(), 1)
    {
      forall i | 0 <= i < |functions|
        ensures Succeeds(i)
      {
        SelfCallWalk(i);
      }
      SelfCallEdges();
      LoopReached(Bodies(), 1, 0);
    }

    lemma SelfCallEdges()
      requires SelfCalling()
      ensures Edge(Bodies(), 1, 0) && Edge(Bodies(), 0, 0)
    {
      SelfCallWalk(0);
      SelfCallWalk(1);
      BodyEdge(1, 0);
      BodyEdge(0, 0);
    }

    lemma SelfCallWalk(i: nat)
      requires SelfCalling() && i < 2
      ensures Succeeds(i) && CallsInBody(i, 0)
    {
      SucceedsWalk(i);
      S.EventsExact(functions[i].body, Event.Calls(functions[0].symbol));
      var f, env := functions[0].symbol, Surroundings(i);
      var call := Expr.Call(f, [], true);
      var last := [IntrinsicTyping(f, true), Event.Calls(f), Use(f)];
      assert ExprEvents(call) == [Use(f)] + last;
      assert [CallStmt(call)][..0] == [];
      assert StmtsEvents([CallStmt(call)]) == [] + StmtEvents(CallStmt(call)) == [Use(f)] + last;
      assert functions[0] in functions;
      var st := Entered(functions[i]);
      RunSplit(env, st, [Use(f)], last);
      RunOne(env, st, Use(f));
      assert Step(env, st, Use(f)) == Some(st);
      CallEvents(env, st, f, true);
      assert last[1] == Event.Calls(f);
      assert ([Use(f)] + last)[2] == Event.Calls(f);
    }

    /** Some function that i reaches by zero or more calls mentions s. */
    ghost predicate MentionedFrom(i: nat, s: Symbol)
      reads this`callerToCallee, functions`referenced, functions`localReferenced
    {
      exists j :: 0 <= j < |functions| && Reaches(Infos(), i, j) && Mentions(functions[j], s)
    }

    ghost predicate ReferencesExact()
      reads this`callerToCallee, functions`referenced, functions`localReferenced
    {
      forall i, s | 0 <= i < |functions| :: s in Syms(functions[i].referenced) <==> MentionedFrom(i, s)
    }

    lemma AllMentioned()
      requires Determined()
      ensures ReferencesExact()
    {
      forall i, s | 0 <= i < |functions|
        ensures s in Syms(functions[i].referenced) <==> MentionedFrom(i, s)
      {
        ReferencesMentioned(i, s);
      }
    }

    lemma ReferencesMentioned(i: nat, s: Symbol)
      requires Determined() && i < |functions|
      ensures s in Syms(functions[i].referenced) <==> MentionedFrom(i, s)
    {
      ReferencesAreClosure(Infos(), i, s);
      assert Infos()[i] == InfoOf(functions[i]);
      forall j | 0 <= j < |functions|
        ensures s in Syms(Infos()[j].locals) <==> Mentions(functions[j], s)
      {
        assert Known(j, Infos()[j]);
      }
    }
  }
}
