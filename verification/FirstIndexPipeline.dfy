/** The determiner and the first-index pass one after the other, on a program that only has its text. */
module FirstIndexPipeline {
  import opened Wrappers
  import opened Symbols
  import opened Types
  import opened Shaders
  import opened FirstIndexOffset
  import opened FirstIndexSimulation
  import opened FirstIndexScoping
  import CG = CallGraph
  import TD = TypeDeterminer
  import CC = CallClosure

  /** Functions have names of their own, which nothing else bears. */
  ghost predicate FunctionsApart(p: Program) {
    && (forall i, j | 0 <= i < j < |p.functions| :: p.functions[i].name != p.functions[j].name)
    && forall f, g | f in p.functions && g in p.functions ::
         && f.name !in g.params && f.name !in DeclaredAnywhere(g.body)
         && forall v | v in p.globals :: v.name != f.name
  }

  // --- Making the determiner ---

  method MakeFunctions(ids: string -> Symbol, fs: seq<Function>) returns (rs: seq<TD.Function>)
    ensures |rs| == |fs| && forall i | 0 <= i < |fs| :: fresh(rs[i]) && MadeFrom(ids, fs[i], rs[i])
    ensures forall i | 0 <= i < |rs| :: rs[i].referenced == [] && rs[i].localReferenced == []
  {
    rs := [];
    while |rs| < |fs|
      invariant |rs| <= |fs|
      invariant forall i | 0 <= i < |rs| :: fresh(rs[i]) && MadeFrom(ids, fs[i], rs[i])
      invariant forall i | 0 <= i < |rs| :: rs[i].referenced == [] && rs[i].localReferenced == []
    {
      var f := fs[|rs|];
      var r := new TD.Function(ids(f.name), ParamVariables(ids, f.params), WalkedStmts(ids, f.body), false);
      rs := rs + [r];
    }
  }

  ghost predicate MadeFrom(ids: string -> Symbol, f: Function, r: TD.Function) {
    r.symbol == ids(f.name) && r.params == ParamVariables(ids, f.params) && r.body == WalkedStmts(ids, f.body)
  }

  /** A determiner for the program, before its run. Which functions are entry points does not matter to the
      lists. */
  method MakeDeterminer(ids: string -> Symbol, p: Program) returns (d: TD.TypeDeterminer)
    ensures fresh(d) && fresh(d.variableStack) && forall i | 0 <= i < |d.functions| :: fresh(d.functions[i])
    ensures MadeFor(ids, p, d) && d.Untouched()
  {
    var functions := MakeFunctions(ids, p.functions);
    d := new TD.TypeDeterminer(functions, ModuleVariables(ids, p.globals), {});
    assert forall i | 0 <= i < |p.functions| :: MadeFrom(ids, p.functions[i], d.functions[i]);
  }

  lemma MadeApart(ids: string -> Symbol, p: Program, d: TD.TypeDeterminer)
    requires Injective(ids, p) && FunctionsApart(p) && MadeFor(ids, p, d)
    ensures d.UniqueSymbols() && d.NamesApart()
  {
    forall i, j | 0 <= i < j < |d.functions|
      ensures d.functions[i].symbol != d.functions[j].symbol
    {
      NamedFunction(p, i);
      NamedFunction(p, j);
    }
    forall i, j | 0 <= i < |d.functions| && 0 <= j < |d.functions|
      ensures d.NotIn(d.functions[i].symbol, d.functions[j])
    {
      NameNotIn(ids, p, d, i, j);
    }
  }

  lemma NamedFunction(p: Program, i: nat)
    requires i < |p.functions|
    ensures p.functions[i] in p.functions && Named(p, p.functions[i].name)
  {
  }

  lemma NameNotIn(ids: string -> Symbol, p: Program, d: TD.TypeDeterminer, i: nat, j: nat)
    requires Injective(ids, p) && FunctionsApart(p) && MadeFor(ids, p, d) && i < |p.functions| && j < |p.functions|
    ensures d.NotIn(d.functions[i].symbol, d.functions[j])
  {
    var f, g := p.functions[i], p.functions[j];
    ParamScopeOf(ids, g.params);
    ModuleScopeOf(ids, p.globals);
    NoParameter(ids, p, f, g);
    NoModuleVariable(ids, p, f);
    NoLocal(ids, p, f, g);
    assert CG.StmtsEvents(d.functions[j].body) == Events(ids, g);
    d.NotInEvents(d.functions[i].symbol, d.functions[j]);
  }

  lemma NoParameter(ids: string -> Symbol, p: Program, f: Function, g: Function)
    requires Injective(ids, p) && FunctionsApart(p) && f in p.functions && g in p.functions
    ensures ids(f.name) !in ParamScope(ids, g.params)
  {
    forall n | n in g.params
      ensures ids(n) != ids(f.name)
    {
      assert Named(p, n) && Named(p, f.name);
    }
    if ids(f.name) in ParamScope(ids, g.params) {
      ParamOrigin(ids, g.params, ids(f.name));
    }
  }

  lemma NoModuleVariable(ids: string -> Symbol, p: Program, f: Function)
    requires Injective(ids, p) && FunctionsApart(p) && f in p.functions
    ensures ids(f.name) !in ModuleScope(ids, p.globals)
  {
    forall v | v in p.globals
      ensures ids(v.name) != ids(f.name)
    {
      assert Named(p, v.name) && Named(p, f.name);
    }
    if ids(f.name) in ModuleScope(ids, p.globals) {
      var v := ModuleOrigin(ids, p.globals, ids(f.name));
    }
  }

  lemma NoLocal(ids: string -> Symbol, p: Program, f: Function, g: Function)
    requires Injective(ids, p) && FunctionsApart(p) && f in p.functions && g in p.functions
    ensures forall k | 0 <= k < |Events(ids, g)| && Events(ids, g)[k].Declare? :: Events(ids, g)[k].v.symbol != ids(f.name)
  {
    DeclarationsLocal(ids, g);
    forall n | n in DeclaredAnywhere(g.body)
      ensures ids(n) != ids(f.name)
    {
      assert Named(p, n) && Named(p, f.name);
    }
  }

  lemma {:induction false} ModuleOrigin(ids: string -> Symbol, vs: seq<Variable>, s: Symbol) returns (v: Variable)
    requires s in ModuleScope(ids, vs)
    ensures v in vs && ids(v.name) == s
  {
    v := vs[|vs| - 1];
    if ids(v.name) != s {
      v := ModuleOrigin(ids, vs[..|vs| - 1], s);
    }
  }

  // --- From the text to the lists ---

  /** The same program but for the lists. */
  ghost predicate SameText(p: Program, q: Program) {
    && q.globals == p.globals && |q.functions| == |p.functions|
    && forall i | 0 <= i < |p.functions| :: q.functions[i] == p.functions[i].(locals := q.functions[i].locals)
  }

  /** The module variables whose symbols are in a list. */
  method Listing(ids: string -> Symbol, globals: seq<Variable>, list: seq<CG.Variable>) returns (vs: seq<Variable>)
    ensures forall v :: v in vs <==> v in globals && ids(v.name) in CG.Syms(list)
  {
    vs := [];
    var k := 0;
    while k < |globals|
      invariant 0 <= k <= |globals|
      invariant forall v :: v in vs <==> v in globals[..k] && ids(v.name) in CG.Syms(list)
    {
      var has := TD.HasSymbol(list, ids(globals[k].name));
      if has {
        vs := vs + [globals[k]];
      }
      assert globals[..k + 1] == globals[..k] + [globals[k]];
      k := k + 1;
    }
    assert globals[..k] == globals;
  }

  method FillLists(ids: string -> Symbol, p: Program, d: TD.TypeDeterminer) returns (q: Program)
    requires |d.functions| == |p.functions|
    ensures SameText(p, q) && HoldsLists(ids, q, d) && ListsOfGlobals(q)
  {
    var fs: seq<Function> := [];
    while |fs| < |p.functions|
      invariant |fs| <= |p.functions|
      invariant forall i | 0 <= i < |fs| :: fs[i] == p.functions[i].(locals := fs[i].locals)
      invariant forall i, v | 0 <= i < |fs| ::
        v in fs[i].locals <==> v in p.globals && ids(v.name) in CG.Syms(d.functions[i].localReferenced)
    {
      var k := |fs|;
      var vs := Listing(ids, p.globals, d.functions[k].localReferenced);
      fs := fs + [p.functions[k].(locals := vs)];
    }
    q := Program(p.globals, fs);
  }

  method RunDeterminer(ids: string -> Symbol, p: Program) returns (ok: bool, d: TD.TypeDeterminer)
    requires Injective(ids, p) && FunctionsApart(p)
    ensures MadeFor(ids, p, d) && (ok <==> d.AllSucceed(|d.functions|)) && (ok ==> d.Determined())
  {
    d := MakeDeterminer(ids, p);
    MadeApart(ids, p, d);
    ok := d.DetermineAll();
  }

  lemma MadeForBoth(ids: string -> Symbol, p: Program, q: Program, d: TD.TypeDeterminer)
    requires SameText(p, q) && MadeFor(ids, p, d)
    ensures MadeFor(ids, q, d)
  {
  }

  /** The determiner run on a program's text: when it succeeds, the program with the lists it leaves meets
      what FirstIndexAdded asks of a determined program. */
  method Determine(ids: string -> Symbol, p: Program) returns (ok: bool, q: Program, d: TD.TypeDeterminer)
    requires Injective(ids, p) && FunctionsApart(p)
    ensures MadeFor(ids, p, d) && (ok <==> d.AllSucceed(|d.functions|))
    ensures ok ==> SameText(p, q) && MadeFor(ids, q, d) && d.Determined() && HoldsLists(ids, q, d) && ListsOfGlobals(q)
  {
    ok, d := RunDeterminer(ids, p);
    q := p;
    if ok {
      q := FillLists(ids, p, d);
      MadeForBoth(ids, p, q, d);
    }
  }

  /** Nothing about names or reads depends on the lists. */
  lemma SameTextFacts(ids: string -> Symbol, p: Program, q: Program)
    requires SameText(p, q)
    ensures Injective(ids, p) <==> Injective(ids, q)
    ensures AllRecorded(ids, p) <==> AllRecorded(ids, q)
  {
    forall n
      ensures Named(p, n) <==> Named(q, n)
    {
      if Named(p, n) {
        SameNamed(p, q, n);
      }
      if Named(q, n) {
        SameNamed(q, p, n);
      }
    }
    if AllRecorded(ids, p) {
      SameRecorded(ids, p, q);
    }
    if AllRecorded(ids, q) {
      SameRecorded(ids, q, p);
    }
  }

  lemma SameNamed(p: Program, q: Program, n: string)
    requires SameText(p, q) && Named(p, n)
    ensures Named(q, n)
  {
    if f :| f in p.functions && (n == f.name || n in f.params || n in DeclaredAnywhere(f.body)) {
      var i :| 0 <= i < |p.functions| && p.functions[i] == f;
      assert q.functions[i] in q.functions;
    }
  }

  lemma SameRecorded(ids: string -> Symbol, p: Program, q: Program)
    requires SameText(p, q) && AllRecorded(ids, p)
    ensures AllRecorded(ids, q)
  {
    forall g | g in q.functions
      ensures ReadsRecorded(ids, q, g)
    {
      var i :| 0 <= i < |q.functions| && q.functions[i] == g;
      var f := p.functions[i];
      assert f in p.functions && ReadsRecorded(ids, p, f);
      var evs := Events(ids, f);
      assert evs == Events(ids, g) && Params(f) == Params(g) && f.params == g.params;
      forall n | n in Free(g.body, Params(g)) && Index(q, n).Some?
        ensures Recorded(ids, q, g, n)
      {
        assert Recorded(ids, p, f, n);
        var k :| 0 <= k < |evs| && CG.RefersAt(Surroundings(ids, p), ParamScope(ids, f.params), evs, k, ids(n));
        assert CG.RefersAt(Surroundings(ids, q), ParamScope(ids, g.params), Events(ids, g), k, ids(n));
      }
    }
  }

  /** The determiner takes the program that the pass breaks, and leaves the list that breaks it. */
  method DetermineHiding(ids: string -> Symbol, n: string) returns (q: Program, d: TD.TypeDeterminer)
    requires Injective(ids, Hiding(n)) && n != "f"
    ensures q == Hiding(n) && MadeFor(ids, q, d) && d.Determined() && HoldsLists(ids, q, d)
  {
    var p := Hiding(n);
    assert DeclaredAnywhere(p.functions[0].body) == {n} by {
      HidingDeclares(n);
    }
    var ok;
    ok, q, d := Determine(ids, p);
    HidingSucceeds(ids, n, d);
    HidingLists(ids, n, d);
    q := p;
  }

  lemma HidingDeclares(n: string)
    ensures DeclaredAnywhere(Hiding(n).functions[0].body) == {n}
  {
    var decl, ret := Declare(n, true, Lit(1)), Return(Ident(n));
    assert [Block([decl]), ret][1..] == [ret] && [ret][1..] == [] && [decl][1..] == [];
    assert DeclaredAnywhere([decl]) == AllDeclared(decl) + DeclaredAnywhere([]);
    assert AllDeclared(Block([decl])) == {n} && AllDeclared(ret) == {};
    assert DeclaredAnywhere([ret]) == AllDeclared(ret) + DeclaredAnywhere([]);
  }

  /** A symbol table that knows both names serves. */
  lemma HidingHasIds(table: SymbolTable, n: string)
    requires table.Valid() && n in table.nameToSymbol && "f" in table.nameToSymbol
    ensures Injective(IdsOf(table.nameToSymbol), Hiding(n))
  {
    HidingDeclares(n);
    forall m | Named(Hiding(n), m)
      ensures m in table.nameToSymbol
    {
    }
    TableInjective(table, Hiding(n));
  }
}
