/** When the result of the first-index pass is well scoped, and what that asks of the determiner. */
module FirstIndexScoping {
  import opened Wrappers
  import opened Symbols
  import opened Types
  import opened Shaders
  import opened FirstIndexOffset
  import opened FirstIndexSimulation
  import CG = CallGraph
  import TD = TypeDeterminer
  import CC = CallClosure
  import BS = BodySyntax

  /** A new pass over p, and where it says the first indices are to be stored. */
  method RunOnce(p: Program) returns (r: Option<Program>, firstVertexOffset: nat, firstInstanceOffset: nat)
    ensures r == if exists v :: v in p.globals && v.name == TINT.buffer then None else Some(Target(TINT, p))
    ensures r.Some? && p.functions != [] && Has(p.globals, VertexIndex) ==> firstVertexOffset == OffsetFor(p, VertexIndex)
    ensures r.Some? && p.functions != [] && Has(p.globals, InstanceIndex) ==> firstInstanceOffset == OffsetFor(p, InstanceIndex)
    ensures Sound(TINT, p) ==> r.Some?
  {
    var pass := new FirstIndexOffset(TINT);
    r := pass.Run(p);
    firstVertexOffset, firstInstanceOffset := pass.vertexIndexOffset, pass.instanceIndexOffset;
    assert Generated(TINT, p, TINT.buffer);
  }

  /** A world in which the shader's own numbers are another's. */
  function Numbered(w: World, p: Program, firstVertex: nat, firstInstance: nat): World {
    w.(vertex := if Has(p.globals, VertexIndex) then Wrap(w.vertex + firstVertex) else w.vertex,
       instance := if Has(p.globals, InstanceIndex) then Wrap(w.instance + firstInstance) else w.instance)
  }

  /** The pass run, and any two first indices stored where it says: they are both there, and every call then
      gives what the program gives when the index builtins start at them. */
  method RunAndStore(p: Program, w: World, firstVertex: nat, firstInstance: nat) returns (q: Program, stored: World)
    requires Sound(TINT, p) && p.functions != []
    ensures q == Target(TINT, p) && Supplied(TINT, p, stored)
    ensures stored.vertex == w.vertex && stored.instance == w.instance
    ensures forall n, at | n != TINT.buffer :: (n, at) in stored.words <==> (n, at) in w.words
    ensures forall n, at | n != TINT.buffer && (n, at) in w.words :: stored.words[(n, at)] == w.words[(n, at)]
    ensures Shifted(TINT, p, stored) == Numbered(stored, p, firstVertex, firstInstance)
    ensures Ready(TINT, p) ==> forall fuel: nat, g, name, vals ::
      Invoke(q, stored, fuel, g, name, vals) == Invoke(p, Numbered(stored, p, firstVertex, firstInstance), fuel, g, name, vals)
  {
    var r, vertexOffset, instanceOffset := RunOnce(p);
    q := r.value;
    var words := w.words;
    if Has(p.globals, VertexIndex) {
      words := words[(TINT.buffer, vertexOffset) := firstVertex];
    }
    if Has(p.globals, InstanceIndex) {
      words := words[(TINT.buffer, instanceOffset) := firstInstance];
    }
    stored := w.(words := words);
    if Ready(TINT, p) {
      forall fuel: nat, g, name, vals
        ensures Invoke(q, stored, fuel, g, name, vals) == Invoke(p, Shifted(TINT, p, stored), fuel, g, name, vals)
      {
        SimInvoke(TINT, p, stored, fuel, g, name, vals);
      }
    }
  }

  /** A function whose list holds no index builtin keeps its body, and only such a function. */
  lemma {:induction false} NothingInserted(l: Labels, globals: seq<Variable>, bs: seq<Builtin>)
    ensures Inserted(l, globals, bs) == [] <==> forall b | b in bs :: b.OtherBuiltin?
  {
    if bs != [] {
      NothingInserted(l, globals, bs[..|bs| - 1]);
      assert bs == bs[..|bs| - 1] + [bs[|bs| - 1]];
    }
  }

  // --- Well-scoped programs ---

  /** Every name that is not local is a module variable. */
  ghost predicate Closed(p: Program) {
    forall f | f in p.functions :: Resolved(p, f.body, Params(f))
  }

  ghost predicate Resolved(p: Program, ss: seq<Stmt>, scope: set<string>) {
    forall n | n in Free(ss, scope) :: Find(p.globals, n).Some?
  }

  lemma {:induction false} FreeConcat(a: seq<Stmt>, b: seq<Stmt>, scope: set<string>)
    ensures Free(a + b, scope) == Free(a, scope) + Free(b, scope + DeclaredBy(a))
    decreases a
  {
    if a == [] {
      assert a + b == b && scope + {} == scope;
    } else {
      assert (a + b)[1..] == a[1..] + b;
      FreeConcat(a[1..], b, scope + Declares(a[0]));
      assert scope + Declares(a[0]) + DeclaredBy(a[1..]) == scope + DeclaredBy(a);
    }
  }

  lemma {:induction false} DeclaredConcat(a: seq<Stmt>, b: seq<Stmt>)
    ensures DeclaredBy(a + b) == DeclaredBy(a) + DeclaredBy(b)
  {
    if a == [] {
      assert a + b == b;
    } else {
      assert (a + b)[1..] == a[1..] + b;
      DeclaredConcat(a[1..], b);
    }
  }

  /** The added declarations bring the listed index builtins into scope, and name only what the
      pass adds to the module. */
  lemma {:induction false} InsertedScope(l: Labels, p: Program, bs: seq<Builtin>, scope: set<string>)
    requires Sound(l, p) && p.functions != [] && forall b | b in bs && !b.OtherBuiltin? :: Has(p.globals, b)
    ensures DeclaredBy(Inserted(l, p.globals, bs)) == Constants(p, World(0, 0, map[]), bs).Keys
    ensures forall n | n in Free(Inserted(l, p.globals, bs), scope) :: Find(Target(l, p).globals, n).Some?
  {
    if bs != [] {
      var init, b := bs[..|bs| - 1], bs[|bs| - 1];
      assert b in bs && forall c | c in init :: c in bs;
      InsertedScope(l, p, init, scope);
      var before := Inserted(l, p.globals, init);
      if b.OtherBuiltin? {
        assert Inserted(l, p.globals, bs) == before;
      } else {
        var st := OffsetDeclaration(l, LastNamed(p.globals, b), Label(l, b));
        DeclarationScope(l, p, b, scope + DeclaredBy(before));
        FreeConcat(before, [st], scope);
        DeclaredConcat(before, [st]);
      }
    }
  }

  lemma DeclarationScope(l: Labels, p: Program, b: Builtin, scope: set<string>)
    requires Sound(l, p) && p.functions != [] && Has(p.globals, b) && !b.OtherBuiltin?
    ensures
      var name := LastNamed(p.globals, b);
      && DeclaredBy([OffsetDeclaration(l, name, Label(l, b))]) == {name}
      && forall n | n in Free([OffsetDeclaration(l, name, Label(l, b))], scope) :: Find(Target(l, p).globals, n).Some?
  {
    var name := LastNamed(p.globals, b);
    var st := OffsetDeclaration(l, name, Label(l, b));
    TargetIndex(l, p, b);
    TargetBuffer(l, p);
    assert [st][1..] == [];
    assert Names(st.e) == {l.prefix + name, l.buffer};
  }

  lemma {:induction false} NewMembers(l: Labels, globals: seq<Variable>, fs: seq<Function>)
    ensures forall f | f in fs :: NewFunction(l, globals, f) in NewFunctions(l, globals, fs)
    ensures forall g | g in NewFunctions(l, globals, fs) :: exists f :: f in fs && g == NewFunction(l, globals, f)
  {
    if fs != [] {
      NewMembers(l, globals, fs[..|fs| - 1]);
      assert fs == fs[..|fs| - 1] + [fs[|fs| - 1]];
    }
  }

  /** For one function: its new version names only module variables of the result exactly when the
      old one named only module variables and its index builtins are listed. */
  lemma ClosedFunction(l: Labels, p: Program, f: Function)
    requires Sound(l, p) && f in p.functions
    ensures
      Resolved(Target(l, p), NewFunction(l, p.globals, f).body, Params(f)) <==>
      Covered(p, f) && Resolved(p, f.body, Params(f))
  {
    var body := NewFunction(l, p.globals, f).body;
    NewFree(l, p, f);
    if Resolved(Target(l, p), body, Params(f)) {
      forall n | n in Free(f.body, Params(f))
        ensures Find(p.globals, n).Some? && (Index(p, n).Some? ==> Listed(f, n))
      {
        NameResolves(l, p, f, n);
      }
      assert Covered(p, f);
    }
    if Covered(p, f) && Resolved(p, f.body, Params(f)) {
      forall n | n in Free(body, Params(f))
        ensures Find(Target(l, p).globals, n).Some?
      {
        if n in Free(f.body, Params(f)) {
          NameResolves(l, p, f, n);
        }
      }
    }
  }

  function AddedNames(p: Program, f: Function): set<string> {
    Constants(p, World(0, 0, map[]), LocalBuiltins(f.locals)).Keys
  }

  /** Of the old body's names, the new function hides the added ones. */
  lemma NewFree(l: Labels, p: Program, f: Function)
    requires Sound(l, p) && f in p.functions
    ensures forall n | n in Free(f.body, Params(f)) && n !in AddedNames(p, f) :: n in Free(NewFunction(l, p.globals, f).body, Params(f))
    ensures forall n | n in Free(NewFunction(l, p.globals, f).body, Params(f)) ::
      Find(Target(l, p).globals, n).Some? || (n in Free(f.body, Params(f)) && n !in AddedNames(p, f))
  {
    var bs := LocalBuiltins(f.locals);
    var added := Inserted(l, p.globals, bs);
    ListedBuiltins(p, f.locals);
    InsertedScope(l, p, bs, Params(f));
    FreeConcat(added, f.body, Params(f));
    FreeHides(f.body, Params(f), DeclaredBy(added));
  }

  lemma NameResolves(l: Labels, p: Program, f: Function, n: string)
    requires Sound(l, p) && f in p.functions && n in Free(f.body, Params(f))
    ensures (n in AddedNames(p, f) || Find(Target(l, p).globals, n).Some?) <==>
      (Find(p.globals, n).Some? && (Index(p, n).Some? ==> Listed(f, n)))
  {
    TargetFind(l, p, n);
    if n in AddedNames(p, f) {
      DeclaredIsListed(l, p, f, n);
    }
    if Index(p, n).Some? && Listed(f, n) {
      ListedIsDeclared(p, f, n);
    }
  }

  lemma DeclaredIsListed(l: Labels, p: Program, f: Function, n: string)
    requires Sound(l, p) && f in p.functions && n in Constants(p, World(0, 0, map[]), LocalBuiltins(f.locals))
    ensures Index(p, n).Some? && Listed(f, n)
  {
    var bs := LocalBuiltins(f.locals);
    ListedBuiltins(p, f.locals);
    ConstantsKeys(p, World(0, 0, map[]), bs);
    var b :| b in bs && !b.OtherBuiltin? && n == LastNamed(p.globals, b);
    TargetIndex(l, p, b);
  }

  lemma ListedIsDeclared(p: Program, f: Function, n: string)
    requires PlainGlobals(p.globals) && ListsGlobals(p, f) && Index(p, n).Some? && Listed(f, n)
    ensures n in Constants(p, World(0, 0, map[]), LocalBuiltins(f.locals))
  {
    ListedBuiltins(p, f.locals);
    ConstantsKeys(p, World(0, 0, map[]), LocalBuiltins(f.locals));
    var v :| v in f.locals && v.name == n;
    IndexByName(p, v);
  }

  /** The result is well scoped exactly when the program was and each function's list holds every
      index builtin its body reads. */
  lemma ClosedExactly(l: Labels, p: Program)
    requires Sound(l, p)
    ensures Closed(Target(l, p)) <==> Closed(p) && forall f | f in p.functions :: Covered(p, f)
  {
    var q := Target(l, p);
    NewMembers(l, p.globals, p.functions);
    forall f | f in p.functions
      ensures NewFunction(l, p.globals, f) in q.functions
      ensures Resolved(q, NewFunction(l, p.globals, f).body, Params(f)) <==> Covered(p, f) && Resolved(p, f.body, Params(f))
    {
      ClosedFunction(l, p, f);
    }
    assert forall f :: Params(NewFunction(l, p.globals, f)) == Params(f);
  }

  // --- What the determiner lists ---

  /** A body as the determiner walks it; its expressions have types. */
  function Walked(ids: string -> Symbol, e: Expr): CG.Expr
    decreases e, 0
  {
    match e
    case Lit(_) => CG.Other([], true)
    case Ident(n) => CG.Ident(ids(n))
    case Member(b, _) => CG.Other([CG.Ident(ids(b))], true)
    case Binary(_, l, r) => CG.Other([Walked(ids, l), Walked(ids, r)], true)
    case Call(f, args) => CG.Expr.Call(ids(f), WalkedArgs(ids, args), true)
  }

  function WalkedArgs(ids: string -> Symbol, es: seq<Expr>): (r: seq<CG.Expr>)
    decreases es, 0
  {
    if es == [] then [] else [Walked(ids, es[0])] + WalkedArgs(ids, es[1..])
  }

  function LocalVariable(ids: string -> Symbol, n: string, isConst: bool): CG.Variable {
    CG.Variable(ids(n), NoClass, isConst)
  }

  function WalkedStmt(ids: string -> Symbol, s: Stmt): CG.Stmt
    decreases s, 0
  {
    match s
    case Assign(n, e) => CG.Stmt.Assign(CG.Ident(ids(n)), Walked(ids, e))
    case Declare(n, isConst, e) => CG.VarDecl(LocalVariable(ids, n, isConst), Some(Walked(ids, e)))
    case Block(body) => CG.Stmt.Block(WalkedStmts(ids, body))
    case If(cond, body, elses) =>
      CG.Stmt.If(Walked(ids, cond), WalkedStmts(ids, body), [CG.Else(None, WalkedStmts(ids, elses))])
    case Loop(body, continuing) => CG.Stmt.Loop(WalkedStmts(ids, body), WalkedStmts(ids, continuing))
    case Return(e) => CG.Stmt.Return(Some(Walked(ids, e)))
    case ExprStmt(e) => CG.CallStmt(Walked(ids, e))
    case Break => CG.Jump
  }

  function WalkedStmts(ids: string -> Symbol, ss: seq<Stmt>): (r: seq<CG.Stmt>)
    decreases ss, 0
  {
    if ss == [] then [] else [WalkedStmt(ids, ss[0])] + WalkedStmts(ids, ss[1..])
  }

  function Class(v: Variable): StorageClass {
    if IndexBuiltin(v.decorations).Some? then Input else if v.fields != [] then Uniform else Private
  }

  function ModuleScope(ids: string -> Symbol, vs: seq<Variable>): map<Symbol, CG.Variable> {
    if vs == [] then map[]
    else
      var v := vs[|vs| - 1];
      ModuleScope(ids, vs[..|vs| - 1])[ids(v.name) := CG.Variable(ids(v.name), Class(v), false)]
  }

  function ParamScope(ids: string -> Symbol, params: seq<string>): map<Symbol, CG.Variable> {
    if params == [] then map[]
    else ParamScope(ids, params[..|params| - 1])[ids(params[|params| - 1]) := LocalVariable(ids, params[|params| - 1], true)]
  }

  ghost function Surroundings(ids: string -> Symbol, p: Program): CG.Env {
    CG.Env(ModuleScope(ids, p.globals), {}, map[], {}, INVALID)
  }

  ghost function Events(ids: string -> Symbol, f: Function): seq<CG.Event> {
    CG.StmtsEvents(WalkedStmts(ids, f.body))
  }

  /** The determiner's walk over f looks the module variable n up. */
  ghost predicate Recorded(ids: string -> Symbol, p: Program, f: Function, n: string) {
    exists k :: 0 <= k < |Events(ids, f)| &&
      CG.RefersAt(Surroundings(ids, p), ParamScope(ids, f.params), Events(ids, f), k, ids(n))
  }

  /** The functions' lists are the ones the determiner leaves, as far as index builtins go. */
  ghost predicate Determined(ids: string -> Symbol, p: Program) {
    forall f, v | f in p.functions && v in p.globals && IndexBuiltin(v.decorations).Some? ::
      v in f.locals <==> Recorded(ids, p, f, v.name)
  }

  // --- The determiner's run ---

  function ModuleVariables(ids: string -> Symbol, vs: seq<Variable>): seq<CG.Variable> {
    if vs == [] then []
    else ModuleVariables(ids, vs[..|vs| - 1]) + [CG.Variable(ids(vs[|vs| - 1].name), Class(vs[|vs| - 1]), false)]
  }

  function ParamVariables(ids: string -> Symbol, params: seq<string>): seq<CG.Variable> {
    if params == [] then [] else ParamVariables(ids, params[..|params| - 1]) + [LocalVariable(ids, params[|params| - 1], true)]
  }

  /** The determiner d was made for the program p. */
  ghost predicate MadeFor(ids: string -> Symbol, p: Program, d: TD.TypeDeterminer) {
    && d.variables == ModuleVariables(ids, p.globals) && d.globals == TD.ScopeOf(d.variables)
    && |d.functions| == |p.functions|
    && forall i | 0 <= i < |p.functions| ::
         && d.functions[i].symbol == ids(p.functions[i].name)
         && d.functions[i].params == ParamVariables(ids, p.functions[i].params)
         && d.functions[i].body == WalkedStmts(ids, p.functions[i].body)
  }

  /** The functions of p hold the lists that d has left. */
  ghost predicate HoldsLists(ids: string -> Symbol, p: Program, d: TD.TypeDeterminer)
    requires |d.functions| == |p.functions|
    reads d.functions`localReferenced
  {
    forall i, v | 0 <= i < |p.functions| && v in p.globals ::
      v in p.functions[i].locals <==> ids(v.name) in CG.Syms(d.functions[i].localReferenced)
  }

  lemma {:induction false} ModuleScopeOf(ids: string -> Symbol, vs: seq<Variable>)
    ensures TD.ScopeOf(ModuleVariables(ids, vs)) == ModuleScope(ids, vs)
  {
    if vs != [] {
      ModuleScopeOf(ids, vs[..|vs| - 1]);
      var all := ModuleVariables(ids, vs);
      assert all[..|all| - 1] == ModuleVariables(ids, vs[..|vs| - 1]);
    }
  }

  lemma {:induction false} ParamScopeOf(ids: string -> Symbol, params: seq<string>)
    ensures TD.ScopeOf(ParamVariables(ids, params)) == ParamScope(ids, params)
  {
    if params != [] {
      ParamScopeOf(ids, params[..|params| - 1]);
      var all := ParamVariables(ids, params);
      assert all[..|all| - 1] == ParamVariables(ids, params[..|params| - 1]);
    }
  }

  /** Recording is what the determiner calls mentioning. */
  lemma MentionsIsRecorded(ids: string -> Symbol, p: Program, d: TD.TypeDeterminer, i: nat, n: string)
    requires MadeFor(ids, p, d) && i < |p.functions|
    ensures d.Mentions(d.functions[i], ids(n)) <==> Recorded(ids, p, p.functions[i], n)
  {
    var f, evs := p.functions[i], Events(ids, p.functions[i]);
    ModuleScopeOf(ids, p.globals);
    ParamScopeOf(ids, f.params);
    BS.MentionsExact(Surroundings(ids, p), ParamScope(ids, f.params), d.functions[i].body, ids(n));
    assert BS.Hit(Surroundings(ids, p), ParamScope(ids, f.params), evs, ids(n)) <==> Recorded(ids, p, f, n);
  }

  /** When the determiner has finished, the lists it leaves are what its walk records. */
  lemma DeterminedByRun(ids: string -> Symbol, p: Program, d: TD.TypeDeterminer)
    requires MadeFor(ids, p, d) && d.Determined() && HoldsLists(ids, p, d)
    ensures Determined(ids, p)
  {
    forall f, v | f in p.functions && v in p.globals && IndexBuiltin(v.decorations).Some?
      ensures v in f.locals <==> Recorded(ids, p, f, v.name)
    {
      var i :| 0 <= i < |p.functions| && p.functions[i] == f;
      MentionsIsRecorded(ids, p, d, i, v.name);
      assert d.Known(i, d.Infos()[i]) && d.Infos()[i] == d.InfoOf(d.functions[i]);
    }
  }

  /** The names that a program gives to something. */
  ghost predicate Named(p: Program, n: string) {
    || (exists v :: v in p.globals && v.name == n)
    || exists f :: f in p.functions && (n == f.name || n in f.params || n in DeclaredAnywhere(f.body))
  }

  /** Different names of the program have different symbols. */
  ghost predicate Injective(ids: string -> Symbol, p: Program) {
    forall a, b | Named(p, a) && Named(p, b) && ids(a) == ids(b) :: a == b
  }

  function IdsOf(m: map<string, Symbol>): string -> Symbol {
    n => if n in m then m[n] else INVALID
  }

  /** A symbol table that holds the program's names gives them different symbols. */
  lemma TableInjective(table: SymbolTable, p: Program)
    requires table.Valid() && forall n | Named(p, n) :: n in table.nameToSymbol
    ensures Injective(IdsOf(table.nameToSymbol), p)
  {
  }

  lemma GlobalsApart(ids: string -> Symbol, p: Program)
    requires Injective(ids, p) && PlainGlobals(p.globals)
    ensures forall i, j | 0 <= i < j < |p.globals| :: ids(p.globals[i].name) != ids(p.globals[j].name)
  {
    forall i, j | 0 <= i < j < |p.globals|
      ensures ids(p.globals[i].name) != ids(p.globals[j].name)
    {
      assert p.globals[i] in p.globals && p.globals[j] in p.globals;
      assert Named(p, p.globals[i].name) && Named(p, p.globals[j].name);
    }
  }

  // --- Reads are recorded unless a declaration hides them from the walk ---

  /** Everything declared in a body, at any depth. */
  function AllDeclared(s: Stmt): set<string>
    decreases s, 1
  {
    match s
    case Declare(n, _, _) => {n}
    case Block(body) => DeclaredAnywhere(body)
    case If(_, body, elses) => DeclaredAnywhere(body) + DeclaredAnywhere(elses)
    case Loop(body, continuing) => DeclaredAnywhere(body) + DeclaredAnywhere(continuing)
    case _ => {}
  }

  function DeclaredAnywhere(ss: seq<Stmt>): set<string>
    decreases ss, 0
  {
    if ss == [] then {} else AllDeclared(ss[0]) + DeclaredAnywhere(ss[1..])
  }

  lemma HeadAndLast<T>(x: T, s: seq<T>)
    requires s != []
    ensures ([x] + s)[..|s|] == [x] + s[..|s| - 1] && ([x] + s)[|s|] == s[|s| - 1]
  {
  }

  lemma Associate(a: seq<CG.Event>, b: seq<CG.Event>, c: seq<CG.Event>)
    ensures (a + b) + c == a + (b + c)
  {
  }

  lemma {:induction false} ExprsEventsHead(e: CG.Expr, es: seq<CG.Expr>)
    ensures CG.ExprsEvents([e] + es) == CG.ExprEvents(e) + CG.ExprsEvents(es)
    decreases |es|
  {
    if es == [] {
      assert [e] + es == [e] && [e][..0] == [];
      assert CG.ExprsEvents([e]) == [] + CG.ExprEvents(e);
    } else {
      var n := |es| - 1;
      HeadAndLast(e, es);
      ExprsEventsHead(e, es[..n]);
      Associate(CG.ExprEvents(e), CG.ExprsEvents(es[..n]), CG.ExprEvents(es[n]));
    }
  }

  lemma {:induction false} StmtsEventsHead(s: CG.Stmt, ss: seq<CG.Stmt>)
    ensures CG.StmtsEvents([s] + ss) == CG.StmtEvents(s) + CG.StmtsEvents(ss)
    decreases |ss|
  {
    if ss == [] {
      assert [s] + ss == [s] && [s][..0] == [];
      assert CG.StmtsEvents([s]) == [] + CG.StmtEvents(s);
    } else {
      var n := |ss| - 1;
      HeadAndLast(s, ss);
      StmtsEventsHead(s, ss[..n]);
      Associate(CG.StmtEvents(s), CG.StmtsEvents(ss[..n]), CG.StmtEvents(ss[n]));
    }
  }

  lemma {:induction false} NamesUsed(ids: string -> Symbol, e: Expr, n: string)
    requires n in Names(e)
    ensures CG.Use(ids(n)) in CG.ExprEvents(Walked(ids, e))
    decreases e, 0
  {
    match e {
      case Member(b, _) =>
        ExprsEventsHead(CG.Ident(ids(b)), []);
      case Binary(_, l, r) =>
        ExprsEventsHead(Walked(ids, l), [Walked(ids, r)]);
        ExprsEventsHead(Walked(ids, r), []);
        assert [Walked(ids, l)] + [Walked(ids, r)] == [Walked(ids, l), Walked(ids, r)];
        if n in Names(l) {
          NamesUsed(ids, l, n);
        } else {
          NamesUsed(ids, r, n);
        }
      case Call(f, args) => ArgsUsed(ids, args, n);
      case _ =>
    }
  }

  lemma {:induction false} ArgsUsed(ids: string -> Symbol, es: seq<Expr>, n: string)
    requires n in NamesAll(es)
    ensures CG.Use(ids(n)) in CG.ExprsEvents(WalkedArgs(ids, es))
    decreases es, 0
  {
    ExprsEventsHead(Walked(ids, es[0]), WalkedArgs(ids, es[1..]));
    if n in Names(es[0]) {
      NamesUsed(ids, es[0], n);
    } else {
      ArgsUsed(ids, es[1..], n);
    }
  }

  lemma {:induction false} FreeUsed(ids: string -> Symbol, ss: seq<Stmt>, scope: set<string>, n: string)
    requires n in Free(ss, scope)
    ensures CG.Use(ids(n)) in CG.StmtsEvents(WalkedStmts(ids, ss))
    decreases ss, 0
  {
    StmtsEventsHead(WalkedStmt(ids, ss[0]), WalkedStmts(ids, ss[1..]));
    if n in FreeIn(ss[0], scope) {
      FreeInUsed(ids, ss[0], scope, n);
    } else {
      FreeUsed(ids, ss[1..], scope + Declares(ss[0]), n);
    }
  }

  lemma {:induction false} FreeInUsed(ids: string -> Symbol, s: Stmt, scope: set<string>, n: string)
    requires n in FreeIn(s, scope)
    ensures CG.Use(ids(n)) in CG.StmtEvents(WalkedStmt(ids, s))
    decreases s, 1
  {
    match s {
      case Assign(x, e) =>
        if n in Names(e) {
          NamesUsed(ids, e, n);
        }
      case Declare(_, _, e) => NamesUsed(ids, e, n);
      case Block(body) => FreeUsed(ids, body, scope, n);
      case If(cond, body, elses) =>
        ElseEvents(WalkedStmts(ids, elses));
        if n in Names(cond) {
          NamesUsed(ids, cond, n);
        }
        if n in Free(body, scope) {
          FreeUsed(ids, body, scope, n);
        }
        if n in Free(elses, scope) {
          FreeUsed(ids, elses, scope, n);
        }
      case Loop(body, continuing) =>
        if n in Free(body, scope) {
          FreeUsed(ids, body, scope, n);
        } else {
          FreeUsed(ids, continuing, scope + DeclaredBy(body), n);
        }
      case Return(e) => NamesUsed(ids, e, n);
      case ExprStmt(e) => NamesUsed(ids, e, n);
      case Break =>
    }
  }

  lemma ElseEvents(elses: seq<CG.Stmt>)
    ensures CG.StmtsEvents([CG.Else(None, elses)]) == CG.StmtsEvents(elses)
  {
    assert [CG.Else(None, elses)] + [] == [CG.Else(None, elses)];
    StmtsEventsHead(CG.Else(None, elses), []);
  }

  /** Expressions declare nothing, and statements only what they say. */
  lemma {:induction false} EventsDeclare(ids: string -> Symbol, ss: seq<Stmt>, v: CG.Variable)
    requires CG.Declare(v) in CG.StmtsEvents(WalkedStmts(ids, ss))
    ensures exists n :: n in DeclaredAnywhere(ss) && v.symbol == ids(n) && v.storage == NoClass
    decreases ss, 0
  {
    StmtsEventsHead(WalkedStmt(ids, ss[0]), WalkedStmts(ids, ss[1..]));
    if CG.Declare(v) in CG.StmtEvents(WalkedStmt(ids, ss[0])) {
      EventDeclares(ids, ss[0], v);
    } else {
      EventsDeclare(ids, ss[1..], v);
    }
  }

  lemma {:induction false} EventDeclares(ids: string -> Symbol, s: Stmt, v: CG.Variable)
    requires CG.Declare(v) in CG.StmtEvents(WalkedStmt(ids, s))
    ensures exists n :: n in AllDeclared(s) && v.symbol == ids(n) && v.storage == NoClass
    decreases s, 1
  {
    match s {
      case Assign(_, e) => NoDeclaration(Walked(ids, e), v);
      case Declare(n, isConst, e) =>
        NoDeclaration(Walked(ids, e), v);
        assert n in AllDeclared(s) && v == LocalVariable(ids, n, isConst);
      case Block(body) => EventsDeclare(ids, body, v);
      case If(cond, body, elses) =>
        ElseEvents(WalkedStmts(ids, elses));
        NoDeclaration(Walked(ids, cond), v);
        if CG.Declare(v) in CG.StmtsEvents(WalkedStmts(ids, body)) {
          EventsDeclare(ids, body, v);
        } else {
          EventsDeclare(ids, elses, v);
        }
      case Loop(body, continuing) =>
        if CG.Declare(v) in CG.StmtsEvents(WalkedStmts(ids, body)) {
          EventsDeclare(ids, body, v);
        } else {
          EventsDeclare(ids, continuing, v);
        }
      case Return(e) => NoDeclaration(Walked(ids, e), v);
      case ExprStmt(e) => NoDeclaration(Walked(ids, e), v);
      case Break => assert false;
    }
  }

  lemma {:induction false} NoDeclaration(e: CG.Expr, v: CG.Variable)
    ensures CG.Declare(v) !in CG.ExprEvents(e)
    decreases e, 0
  {
    match e {
      case Ident(_) =>
      case Call(_, args, _) => NoDeclarations(args, v);
      case Other(operands, _) => NoDeclarations(operands, v);
    }
  }

  lemma {:induction false} NoDeclarations(es: seq<CG.Expr>, v: CG.Variable)
    ensures CG.Declare(v) !in CG.ExprsEvents(es)
    decreases es, 0
  {
    if es != [] {
      NoDeclarations(es[..|es| - 1], v);
      NoDeclaration(es[|es| - 1], v);
    }
  }

  /** What the walk has in scope: parameters, and declarations it has passed, all of them local. */
  lemma {:induction false} ScopeOrigin(ids: string -> Symbol, params: seq<string>, evs: seq<CG.Event>, s: Symbol)
    requires forall k | 0 <= k < |evs| && evs[k].Declare? :: evs[k].v.storage == NoClass
    requires s in CG.ScopeAfter(ParamScope(ids, params), evs)
    ensures !CG.ModuleClass(CG.ScopeAfter(ParamScope(ids, params), evs)[s])
    ensures (exists n :: n in params && s == ids(n)) || exists k :: 0 <= k < |evs| && evs[k].Declare? && evs[k].v.symbol == s
  {
    if evs == [] {
      ParamOrigin(ids, params, s);
    } else {
      var init, last := evs[..|evs| - 1], evs[|evs| - 1];
      assert forall k | 0 <= k < |init| :: init[k] == evs[k];
      if !last.Declare? || last.v.symbol != s {
        ScopeOrigin(ids, params, init, s);
      }
    }
  }

  lemma {:induction false} ParamOrigin(ids: string -> Symbol, params: seq<string>, s: Symbol)
    requires s in ParamScope(ids, params)
    ensures ParamScope(ids, params)[s].storage == NoClass && exists n :: n in params && s == ids(n)
  {
    var n := |params| - 1;
    assert params == params[..n] + [params[n]];
    if s != ids(params[n]) {
      ParamOrigin(ids, params[..n], s);
    }
  }

  lemma {:induction false} ParamsInScope(ids: string -> Symbol, params: seq<string>, evs: seq<CG.Event>, n: string)
    requires n in params
    ensures ids(n) in CG.ScopeAfter(ParamScope(ids, params), evs)
  {
    if evs != [] {
      ParamsInScope(ids, params, evs[..|evs| - 1], n);
    } else if params[|params| - 1] != n {
      assert params == params[..|params| - 1] + [params[|params| - 1]];
      ParamsInScope(ids, params[..|params| - 1], [], n);
    }
  }

  lemma {:induction false} ModuleScopeAt(ids: string -> Symbol, vs: seq<Variable>)
    requires forall i, j | 0 <= i < j < |vs| :: ids(vs[i].name) != ids(vs[j].name)
    ensures forall k | 0 <= k < |vs| ::
      ids(vs[k].name) in ModuleScope(ids, vs) &&
      ModuleScope(ids, vs)[ids(vs[k].name)] == CG.Variable(ids(vs[k].name), Class(vs[k]), false)
    ensures forall s | s in ModuleScope(ids, vs) :: ModuleScope(ids, vs)[s].symbol == s
  {
    if vs != [] {
      ModuleScopeAt(ids, vs[..|vs| - 1]);
    }
  }

  lemma DeclarationsLocal(ids: string -> Symbol, f: Function)
    ensures
      var evs := Events(ids, f);
      forall k | 0 <= k < |evs| && evs[k].Declare? ::
        evs[k].v.storage == NoClass && exists n :: n in DeclaredAnywhere(f.body) && evs[k].v.symbol == ids(n)
  {
    var evs := Events(ids, f);
    forall k | 0 <= k < |evs| && evs[k].Declare?
      ensures evs[k].v.storage == NoClass && exists n :: n in DeclaredAnywhere(f.body) && evs[k].v.symbol == ids(n)
    {
      assert evs[k] in evs;
      EventsDeclare(ids, f.body, evs[k].v);
    }
  }

  /** A recorded module variable is no parameter. */
  lemma RecordedNotParam(ids: string -> Symbol, p: Program, f: Function, n: string)
    requires Injective(ids, p) && PlainGlobals(p.globals) && Recorded(ids, p, f, n)
    ensures n !in f.params
  {
    GlobalsApart(ids, p);
    var evs := Events(ids, f);
    var k :| 0 <= k < |evs| && CG.RefersAt(Surroundings(ids, p), ParamScope(ids, f.params), evs, k, ids(n));
    DeclarationsLocal(ids, f);
    ModuleScopeAt(ids, p.globals);
    if evs[k].sym in CG.ScopeAfter(ParamScope(ids, f.params), evs[..k]) {
      ScopeOrigin(ids, f.params, evs[..k], evs[k].sym);
    } else if n in f.params {
      ParamsInScope(ids, f.params, evs[..k], n);
    }
  }

  /** A read of an index builtin is recorded unless some declaration of the body bears its name. */
  lemma RecordedUnlessHidden(ids: string -> Symbol, p: Program, f: Function, n: string)
    requires Injective(ids, p) && PlainGlobals(p.globals) && f in p.functions
    requires n in Free(f.body, Params(f)) && Index(p, n).Some? && n !in DeclaredAnywhere(f.body)
    ensures Recorded(ids, p, f, n)
  {
    var evs := Events(ids, f);
    FreeUsed(ids, f.body, Params(f), n);
    var k :| 0 <= k < |evs| && evs[k] == CG.Use(ids(n));
    FreeHides(f.body, {}, Params(f));
    assert {} + Params(f) == Params(f);
    FindIn(p.globals, n);
    NotInScope(ids, p, f, k, n);
    GlobalsApart(ids, p);
    var m :| 0 <= m < |p.globals| && p.globals[m] == Find(p.globals, n).value;
    ModuleScopeAt(ids, p.globals);
    assert CG.RefersAt(Surroundings(ids, p), ParamScope(ids, f.params), evs, k, ids(n));
  }

  lemma NotInScope(ids: string -> Symbol, p: Program, f: Function, k: nat, n: string)
    requires Injective(ids, p) && f in p.functions && Named(p, n)
    requires k <= |Events(ids, f)| && n !in f.params && n !in DeclaredAnywhere(f.body)
    ensures ids(n) !in CG.ScopeAfter(ParamScope(ids, f.params), Events(ids, f)[..k])
  {
    var evs := Events(ids, f);
    DeclarationsLocal(ids, f);
    if ids(n) in CG.ScopeAfter(ParamScope(ids, f.params), evs[..k]) {
      ScopeOrigin(ids, f.params, evs[..k], ids(n));
      var m :| (m in f.params || m in DeclaredAnywhere(f.body)) && ids(m) == ids(n);
      assert Named(p, m);
    }
  }

  /** No local of any function bears the name of an index builtin. */
  ghost predicate NothingHidden(p: Program) {
    forall f, n | f in p.functions && Index(p, n).Some? :: n !in DeclaredAnywhere(f.body)
  }

  ghost predicate ListsOfGlobals(p: Program) {
    forall f, v | f in p.functions && v in f.locals :: v in p.globals
  }

  lemma ReadyIfRecorded(ids: string -> Symbol, l: Labels, p: Program)
    requires Injective(ids, p) && Determined(ids, p) && ListsOfGlobals(p)
    requires PlainGlobals(p.globals) && NoClash(l, p)
    ensures Sound(l, p) && (Ready(l, p) <==> AllRecorded(ids, p))
  {
    forall f | f in p.functions
      ensures ListsGlobals(p, f)
    {
      forall v | v in f.locals && IndexBuiltin(v.decorations).Some?
        ensures v.name !in f.params
      {
        RecordedNotParam(ids, p, f, v.name);
      }
    }
    forall f | f in p.functions
      ensures Covered(p, f) <==> ReadsRecorded(ids, p, f)
    {
      CoveredIffRecorded(ids, p, f);
    }
  }

  lemma CoveredIffRecorded(ids: string -> Symbol, p: Program, f: Function)
    requires PlainGlobals(p.globals) && Determined(ids, p) && f in p.functions && ListsGlobals(p, f)
    ensures Covered(p, f) <==> ReadsRecorded(ids, p, f)
  {
    forall n | n in Free(f.body, Params(f)) && Index(p, n).Some?
      ensures Listed(f, n) <==> Recorded(ids, p, f, n)
    {
      ListedIffRecorded(ids, p, f, n);
    }
  }

  /** Where nothing is hidden, everything is recorded. */
  lemma RecordedIfNothingHidden(ids: string -> Symbol, p: Program)
    requires Injective(ids, p) && PlainGlobals(p.globals) && NothingHidden(p)
    ensures AllRecorded(ids, p)
  {
    forall f, n | f in p.functions && n in Free(f.body, Params(f)) && Index(p, n).Some?
      ensures Recorded(ids, p, f, n)
    {
      RecordedUnlessHidden(ids, p, f, n);
    }
  }

  /** For the lists that the determiner leaves, the condition on the text: the result is well scoped
      exactly when the program was and the walk records every read of an index builtin. */
  lemma ClosedIffRecorded(ids: string -> Symbol, l: Labels, p: Program)
    requires Sound(l, p) && Determined(ids, p)
    ensures Closed(Target(l, p)) <==> Closed(p) && AllRecorded(ids, p)
  {
    ClosedExactly(l, p);
    forall f | f in p.functions
      ensures Covered(p, f) <==> ReadsRecorded(ids, p, f)
    {
      CoveredIffRecorded(ids, p, f);
    }
  }

  ghost predicate ReadsRecorded(ids: string -> Symbol, p: Program, f: Function) {
    forall n | n in Free(f.body, Params(f)) && Index(p, n).Some? :: Recorded(ids, p, f, n)
  }

  ghost predicate AllRecorded(ids: string -> Symbol, p: Program) {
    forall f | f in p.functions :: ReadsRecorded(ids, p, f)
  }

  lemma ListedIffRecorded(ids: string -> Symbol, p: Program, f: Function, n: string)
    requires PlainGlobals(p.globals) && Determined(ids, p) && f in p.functions && ListsGlobals(p, f) && Index(p, n).Some?
    ensures Listed(f, n) <==> Recorded(ids, p, f, n)
  {
    FindIn(p.globals, n);
    var v := Find(p.globals, n).value;
    if Listed(f, n) {
      var u :| u in f.locals && u.name == n;
      IndexByName(p, u);
    }
  }

  /** A program whose lists are those that the determiner leaves, and in which the walk records every read
      of an index builtin, runs after the pass as it did before, with the first index added to the
      builtin. */
  lemma FirstIndexAdded(ids: string -> Symbol, d: TD.TypeDeterminer, l: Labels, p: Program, w: World,
                        fuel: nat, g: Store, name: string, vals: seq<nat>)
    requires Injective(ids, p) && MadeFor(ids, p, d) && d.Determined() && HoldsLists(ids, p, d) && ListsOfGlobals(p)
    requires PlainGlobals(p.globals) && NoClash(l, p) && AllRecorded(ids, p) && Supplied(l, p, w)
    ensures Invoke(Target(l, p), w, fuel, g, name, vals) == Invoke(p, Shifted(l, p, w), fuel, g, name, vals)
  {
    DeterminedByRun(ids, p, d);
    ReadyIfRecorded(ids, l, p);
    SimInvoke(l, p, w, fuel, g, name, vals);
  }

  // --- A program the pass breaks ---

  /** A nested block declares a local with the builtin's name, and the builtin is read afterwards. */
  function Hiding(n: string): Program {
    Program([Variable(n, [BuiltinDeco(VertexIndex)], [])],
            [Function("f", [], [Block([Declare(n, true, Lit(1))]), Return(Ident(n))], [])])
  }

  lemma HidingEvents(ids: string -> Symbol, n: string)
    ensures Events(ids, Hiding(n).functions[0]) == [CG.Declare(LocalVariable(ids, n, true)), CG.Typing(true), CG.Use(ids(n))]
  {
    var decl, ret := Declare(n, true, Lit(1)), Return(Ident(n));
    var block := Block([decl]);
    assert [block, ret][1..] == [ret] && [ret][1..] == [] && [decl][1..] == [];
    assert WalkedStmts(ids, [decl]) == [WalkedStmt(ids, decl)] + [];
    assert WalkedStmts(ids, [ret]) == [WalkedStmt(ids, ret)] + [];
    assert WalkedStmts(ids, [block, ret]) == [WalkedStmt(ids, block)] + WalkedStmts(ids, [ret]);
    StmtsEventsHead(WalkedStmt(ids, decl), []);
    StmtsEventsHead(WalkedStmt(ids, ret), []);
    StmtsEventsHead(WalkedStmt(ids, block), WalkedStmts(ids, [ret]));
    assert CG.ExprEvents(CG.Other([], true)) == [CG.Typing(true)];
    assert CG.StmtEvents(WalkedStmt(ids, decl)) == [CG.Declare(LocalVariable(ids, n, true))] + [CG.Typing(true)];
  }

  /** The walk takes the read for the nested local, so the function's empty list is what the
      determiner leaves. */
  lemma HidingDetermined(ids: string -> Symbol, n: string)
    ensures Determined(ids, Hiding(n)) && ListsOfGlobals(Hiding(n))
  {
    var p := Hiding(n);
    var f, evs := p.functions[0], Events(ids, p.functions[0]);
    HidingEvents(ids, n);
    var scope := ParamScope(ids, f.params);
    assert evs[..2][..1] == [CG.Declare(LocalVariable(ids, n, true))] && evs[..2][..1][..0] == [];
    assert CG.ScopeAfter(scope, evs[..2][..1]) == map[ids(n) := LocalVariable(ids, n, true)];
    assert CG.ScopeAfter(scope, evs[..2]) == map[ids(n) := LocalVariable(ids, n, true)];
    assert !CG.RefersAt(Surroundings(ids, p), scope, evs, 0, ids(n));
    assert !CG.RefersAt(Surroundings(ids, p), scope, evs, 1, ids(n));
    assert !CG.RefersAt(Surroundings(ids, p), scope, evs, 2, ids(n));
  }

  /** A determiner made for the program can be run, and its walk succeeds. */
  lemma HidingSucceeds(ids: string -> Symbol, n: string, d: TD.TypeDeterminer)
    requires Injective(ids, Hiding(n)) && n != "f" && MadeFor(ids, Hiding(n), d)
    ensures d.UniqueSymbols() && d.NamesApart() && d.AllSucceed(|d.functions|) && d.EntriesEnd(d.Bodies())
  {
    HidingApart(ids, n, d);
    HidingWalk(ids, n, d);
    HidingCallsNothing(ids, n, d);
  }

  lemma HidingApart(ids: string -> Symbol, n: string, d: TD.TypeDeterminer)
    requires Injective(ids, Hiding(n)) && n != "f" && MadeFor(ids, Hiding(n), d)
    ensures d.UniqueSymbols() && d.NamesApart()
  {
    var p := Hiding(n);
    var f := p.functions[0];
    assert p.globals[0] in p.globals && f in p.functions && Named(p, n) && Named(p, "f");
    HidingEvents(ids, n);
    ParamScopeOf(ids, f.params);
    ModuleScopeOf(ids, p.globals);
    assert ModuleScope(ids, p.globals).Keys == {ids(n)} by {
      assert p.globals[..0] == [];
    }
    d.NotInEvents(ids("f"), d.functions[0]);
    assert d.NotIn(ids("f"), d.functions[0]);
  }

  lemma HidingWalk(ids: string -> Symbol, n: string, d: TD.TypeDeterminer)
    requires MadeFor(ids, Hiding(n), d)
    ensures d.Succeeds(0)
  {
    HidingEvents(ids, n);
    d.SucceedsWalk(0);
    var env, st := d.Surroundings(0), d.Entered(d.functions[0]);
    var local := LocalVariable(ids, n, true);
    var after := st.(scope := st.scope[ids(n) := local]);
    d.RunTwo(env, st, CG.Declare(local), CG.Typing(true));
    CG.RunSplit(env, st, [CG.Declare(local), CG.Typing(true)], [CG.Use(ids(n))]);
    CG.RunOne(env, after, CG.Use(ids(n)));
    assert [CG.Declare(local), CG.Typing(true)] + [CG.Use(ids(n))] == [CG.Declare(local), CG.Typing(true), CG.Use(ids(n))];
  }

  lemma HidingCallsNothing(ids: string -> Symbol, n: string, d: TD.TypeDeterminer)
    requires MadeFor(ids, Hiding(n), d) && d.UniqueSymbols()
    ensures d.EntriesEnd(d.Bodies())
  {
    HidingEvents(ids, n);
    forall e, j | 0 <= e < |d.functions| && 0 <= j < |d.functions|
      ensures !CC.Edge(d.Bodies(), e, j)
    {
      d.BodyEdge(e, j);
      BS.EventsExact(d.functions[e].body, CG.Event.Calls(d.functions[j].symbol));
    }
  }

  /** After that run the list of the function does not hold the builtin. */
  lemma HidingLists(ids: string -> Symbol, n: string, d: TD.TypeDeterminer)
    requires MadeFor(ids, Hiding(n), d) && d.Determined()
    ensures HoldsLists(ids, Hiding(n), d)
  {
    var p := Hiding(n);
    HidingDetermined(ids, n);
    MentionsIsRecorded(ids, p, d, 0, n);
    assert d.Known(0, d.Infos()[0]) && d.Infos()[0] == d.InfoOf(d.functions[0]);
    assert p.globals[0] in p.globals && p.functions[0] in p.functions;
  }

  lemma HidingSound(l: Labels, n: string)
    requires l.vertexField != l.instanceField && !(l.prefix <= l.buffer) && n != l.buffer
    ensures Sound(l, Hiding(n))
  {
    var p := Hiding(n);
    HidingFree(n);
    assert |l.prefix + n| > |n|;
    assert !Generated(l, p, n);
  }

  /** The program is well scoped and returns the builtin; after the pass it names a variable that is
      gone. */
  lemma HidingBreaks(l: Labels, n: string, w: World, fuel: nat, g: Store)
    requires l.vertexField != l.instanceField && !(l.prefix <= l.buffer) && n != l.buffer
    ensures Closed(Hiding(n)) && !Closed(Target(l, Hiding(n)))
    ensures Invoke(Hiding(n), w, fuel, g, "f", []) == Some(Val(w.vertex, g))
    ensures Invoke(Target(l, Hiding(n)), w, fuel, g, "f", []) == None
  {
    var p, q := Hiding(n), Target(l, Hiding(n));
    var f := p.functions[0];
    HidingSound(l, n);
    HidingFree(n);
    FindAt(p.globals, 0);
    assert n in Free(f.body, Params(f)) && !Covered(p, f);
    ClosedExactly(l, p);
    TargetFind(l, p, n);
    HidingRuns(p, n, w, fuel, g);
    HidingRuns(q, n, w, fuel, g);
    assert NewFunctions(l, p.globals, []) == [];
    assert q.functions == [NewFunction(l, p.globals, f)];
    assert NewFunction(l, p.globals, f).body == f.body;
  }

  lemma HidingFree(n: string)
    ensures Free(Hiding(n).functions[0].body, {}) == {n} && Params(Hiding(n).functions[0]) == {}
  {
    var decl, ret := Declare(n, true, Lit(1)), Return(Ident(n));
    var block := Block([decl]);
    assert [block, ret][1..] == [ret] && [ret][1..] == [] && [decl][1..] == [];
    assert Free([decl], {}) == FreeIn(decl, {}) + Free([], {} + Declares(decl));
    assert FreeIn(block, {}) == {};
    assert Free([ret], {} + Declares(block)) == {n};
  }

  lemma HidingRuns(p: Program, n: string, w: World, fuel: nat, g: Store)
    ensures Outcome(Exec(p, w, fuel, g, [map[]], Hiding(n).functions[0].body)) ==
      var r := ReadGlobal(p, w, g, n); if r.Some? then Some(Val(r.value, g)) else None
  {
    var block, ret := Block([Declare(n, true, Lit(1))]), Return(Ident(n));
    var body := [block, ret];
    assert Hiding(n).functions[0].body == body && body[1..] == [ret] && [ret][1..] == [];
    NestedLocalRuns(p, n, w, fuel, g);
    assert Exec(p, w, fuel, g, [map[]], body) == Exec(p, w, fuel, g, [map[]], [ret]);
    NotLocal(map[], n);
    var r := ReadGlobal(p, w, g, n);
    assert Read(p, w, g, [map[]], n) == r;
    if r.Some? {
      assert ExecStmt(p, w, fuel, g, [map[]], ret) == Some(After(g, [map[]], Returned(r.value)));
      assert Exec(p, w, fuel, g, [map[]], [ret]) == Some(After(g, [map[]], Returned(r.value)));
    } else {
      assert ExecStmt(p, w, fuel, g, [map[]], ret) == None;
      assert Exec(p, w, fuel, g, [map[]], [ret]) == None;
    }
  }

  lemma NestedLocalRuns(p: Program, n: string, w: World, fuel: nat, g: Store)
    ensures ExecStmt(p, w, fuel, g, [map[]], Block([Declare(n, true, Lit(1))])) == Some(After(g, [map[]], Normal))
  {
    var decl := Declare(n, true, Lit(1));
    var bound := Bind([map[]] + [map[]], n, Binding(1, true));
    assert [decl][1..] == [];
    assert Eval(p, w, fuel, g, [map[]] + [map[]], Lit(1)) == Some(Val(1, g));
    assert ExecStmt(p, w, fuel, g, [map[]] + [map[]], decl) == Some(After(g, bound, Normal));
    assert Exec(p, w, fuel, g, bound, []) == Some(After(g, bound, Normal));
    assert Exec(p, w, fuel, g, [map[]] + [map[]], [decl]) == Some(After(g, bound, Normal));
    assert bound[..1] == [map[]];
  }
}
