/** What a body says by its syntax alone: which names it uses, calls and declares, and what they mean; and that
    the determiner's walk meets exactly these. */
module BodySyntax {
  import opened Wrappers
  import opened Symbols
  import opened Types
  import opened CallGraph

  // --- Expressions ---

  function Operands(e: Expr): (r: seq<Expr>)
    ensures forall k | 0 <= k < |r| :: e decreases to r[k]
  {
    match e
    case Ident(_) => []
    case Call(_, args, _) => args
    case Other(operands, _) => operands
  }

  /** The name an expression itself stands for or calls. */
  function OwnName(e: Expr): Option<Symbol> {
    match e
    case Ident(s) => Some(s)
    case Call(f, _, _) => Some(f)
    case Other(_, _) => None
  }

  ghost predicate Uses(e: Expr, s: Symbol) {
    OwnName(e) == Some(s) || exists k | 0 <= k < |Operands(e)| :: Uses(Operands(e)[k], s)
  }

  ghost predicate CallsTo(e: Expr, f: Symbol) {
    (e.Call? && e.callee == f) || exists k | 0 <= k < |Operands(e)| :: CallsTo(Operands(e)[k], f)
  }

  // --- Statements ---

  function Given(e: Option<Expr>): seq<Expr> {
    match e case None => [] case Some(x) => [x]
  }

  /** A statement's own expressions. */
  function Parts(st: Stmt): seq<Expr> {
    match st
    case Assign(lhs, rhs) => [lhs, rhs]
    case CallStmt(e) => [e]
    case If(cond, _, _) => [cond]
    case Else(guard, _) => Given(guard)
    case Return(value) => Given(value)
    case Switch(cond, _) => [cond]
    case VarDecl(_, init) => Given(init)
    case _ => []
  }

  /** The statements inside it. */
  function Inner(st: Stmt): (r: seq<seq<Stmt>>)
    ensures forall k | 0 <= k < |r| :: st decreases to r[k]
  {
    match st
    case Block(stmts) => [stmts]
    case If(_, body, elses) => [body, elses]
    case Else(_, body) => [body]
    case Loop(body, continuing) => [body, continuing]
    case Switch(_, cases) => [cases]
    case Case(body) => [body]
    case _ => []
  }

  /** Some expression in the statements, at any depth, uses the name. */
  ghost predicate UsedIn(ss: seq<Stmt>, s: Symbol)
    decreases ss, 0
  {
    exists i | 0 <= i < |ss| :: UsedBy(ss[i], s)
  }

  ghost predicate UsedBy(st: Stmt, s: Symbol)
    decreases st, 0
  {
    || (exists i | 0 <= i < |Parts(st)| :: Uses(Parts(st)[i], s))
    || exists j | 0 <= j < |Inner(st)| :: UsedIn(Inner(st)[j], s)
  }

  ghost predicate CalledIn(ss: seq<Stmt>, f: Symbol)
    decreases ss, 0
  {
    exists i | 0 <= i < |ss| :: CalledBy(ss[i], f)
  }

  ghost predicate CalledBy(st: Stmt, f: Symbol)
    decreases st, 0
  {
    || (exists i | 0 <= i < |Parts(st)| :: CallsTo(Parts(st)[i], f))
    || exists j | 0 <= j < |Inner(st)| :: CalledIn(Inner(st)[j], f)
  }

  ghost predicate DeclaredIn(ss: seq<Stmt>, v: Variable)
    decreases ss, 0
  {
    exists i | 0 <= i < |ss| :: DeclaredBy(ss[i], v)
  }

  ghost predicate DeclaredBy(st: Stmt, v: Variable)
    decreases st, 0
  {
    (st.VarDecl? && st.v == v) || exists j | 0 <= j < |Inner(st)| :: DeclaredIn(Inner(st)[j], v)
  }

  // --- The walk's events, part by part ---

  function ListsEvents(lists: seq<seq<Stmt>>): seq<Event> {
    if lists == [] then [] else ListsEvents(lists[..|lists| - 1]) + StmtsEvents(lists[|lists| - 1])
  }

  function OwnEvents(st: Stmt): seq<Event> {
    if st.VarDecl? then [Declare(st.v)] else []
  }

  lemma OneExpr(e: Expr)
    ensures ExprsEvents([e]) == ExprEvents(e)
  {
    assert [e][..0] == [];
  }

  lemma TwoExprs(a: Expr, b: Expr)
    ensures ExprsEvents([a, b]) == ExprEvents(a) + ExprEvents(b)
  {
    assert [a, b][..1] == [a];
    OneExpr(a);
  }

  lemma GivenEvents(e: Option<Expr>)
    ensures ExprsEvents(Given(e)) == OptEvents(e)
  {
    if e.Some? {
      OneExpr(e.value);
    }
  }

  lemma OneList(a: seq<Stmt>)
    ensures ListsEvents([a]) == StmtsEvents(a)
  {
    assert [a][..0] == [];
  }

  lemma TwoLists(a: seq<Stmt>, b: seq<Stmt>)
    ensures ListsEvents([a, b]) == StmtsEvents(a) + StmtsEvents(b)
  {
    assert [a, b][..1] == [a];
    OneList(a);
  }

  lemma Empties(evs: seq<Event>)
    ensures [] + evs == evs && evs + [] == evs
  {
  }

  /** Statements without nested ones. */
  lemma FlatEvents(st: Stmt)
    requires Inner(st) == [] && !st.VarDecl?
    ensures StmtEvents(st) == ExprsEvents(Parts(st))
  {
    match st {
      case Assign(lhs, rhs) => TwoExprs(lhs, rhs);
      case CallStmt(e) => OneExpr(e);
      case Return(value) => GivenEvents(value);
      case _ =>
    }
  }

  /** Statements without expressions of their own. */
  lemma NestEvents(st: Stmt)
    requires st.Block? || st.Loop? || st.Case?
    ensures StmtEvents(st) == ListsEvents(Inner(st)) && Parts(st) == []
  {
    match st {
      case Block(stmts) => OneList(stmts);
      case Loop(body, continuing) => TwoLists(body, continuing);
      case Case(body) => OneList(body);
    }
  }

  lemma IfEvents(st: Stmt)
    requires st.If?
    ensures StmtEvents(st) == ExprsEvents(Parts(st)) + ListsEvents(Inner(st))
  {
    var a, b, c := ExprEvents(st.cond), StmtsEvents(st.body), StmtsEvents(st.elses);
    OneExpr(st.cond);
    TwoLists(st.body, st.elses);
    assert a + b + c == a + (b + c);
  }

  lemma GuardedEvents(st: Stmt)
    requires st.Else? || st.Switch?
    ensures StmtEvents(st) == ExprsEvents(Parts(st)) + ListsEvents(Inner(st))
  {
    match st {
      case Else(guard, body) =>
        GivenEvents(guard);
        OneList(body);
      case Switch(cond, cases) =>
        OneExpr(cond);
        OneList(cases);
    }
  }

  /** A statement declares its variable, then its expressions are walked, then the statements inside. */
  lemma EventsByPart(st: Stmt)
    ensures StmtEvents(st) == OwnEvents(st) + ExprsEvents(Parts(st)) + ListsEvents(Inner(st))
  {
    Empties(ExprsEvents(Parts(st)));
    Empties(ListsEvents(Inner(st)));
    Empties(OwnEvents(st) + ExprsEvents(Parts(st)));
    if st.VarDecl? {
      GivenEvents(st.init);
    } else if st.If? {
      IfEvents(st);
    } else if st.Else? || st.Switch? {
      GuardedEvents(st);
    } else if st.Block? || st.Loop? || st.Case? {
      NestEvents(st);
    } else {
      FlatEvents(st);
    }
  }

  // --- Which events there are ---

  /** The event comes from the syntax: a use, a call or a declaration. */
  ghost predicate Says(ss: seq<Stmt>, ev: Event)
    requires ev.Use? || ev.Calls? || ev.Declare?
  {
    match ev
    case Use(s) => UsedIn(ss, s)
    case Calls(f) => CalledIn(ss, f)
    case Declare(v) => DeclaredIn(ss, v)
    case _ => false
  }

  ghost predicate SaysBy(st: Stmt, ev: Event)
    requires ev.Use? || ev.Calls? || ev.Declare?
  {
    match ev
    case Use(s) => UsedBy(st, s)
    case Calls(f) => CalledBy(st, f)
    case Declare(v) => DeclaredBy(st, v)
    case _ => false
  }

  ghost predicate ExprSays(e: Expr, ev: Event)
    requires ev.Use? || ev.Calls? || ev.Declare?
  {
    match ev
    case Use(s) => Uses(e, s)
    case Calls(f) => CallsTo(e, f)
    case _ => false
  }

  lemma ExprSaysByPart(e: Expr, ev: Event)
    requires ev.Use? || ev.Calls? || ev.Declare?
    ensures ExprSays(e, ev) <==>
      || (ev.Use? && OwnName(e) == Some(ev.sym))
      || (ev.Calls? && e.Call? && e.callee == ev.callee)
      || exists k | 0 <= k < |Operands(e)| :: ExprSays(Operands(e)[k], ev)
  {
    match ev {
      case Use(s) => assert Uses(e, s) <==> ExprSays(e, ev);
      case Calls(f) => assert CallsTo(e, f) <==> ExprSays(e, ev);
      case Declare(_) => assert !ExprSays(e, ev);
    }
  }

  lemma {:induction false} ExprEventsExact(e: Expr, ev: Event)
    requires ev.Use? || ev.Calls? || ev.Declare?
    ensures ev in ExprEvents(e) <==> ExprSays(e, ev)
    decreases e, 0
  {
    match e {
      case Ident(_) =>
      case Call(f, args, typed) =>
        ExprsEventsExact(args, ev);
        ExprSaysByPart(e, ev);
        assert Operands(e) == args && OwnName(e) == Some(f);
        assert ev in ExprEvents(e) <==> ev == Use(f) || ev in ExprsEvents(args) || ev == Event.Calls(f);
      case Other(operands, typed) =>
        ExprsEventsExact(operands, ev);
        ExprSaysByPart(e, ev);
        assert Operands(e) == operands && OwnName(e) == None;
        assert ev in ExprEvents(e) <==> ev in ExprsEvents(operands);
    }
  }

  lemma {:induction false} ExprsEventsExact(es: seq<Expr>, ev: Event)
    requires ev.Use? || ev.Calls? || ev.Declare?
    ensures ev in ExprsEvents(es) <==> exists k | 0 <= k < |es| :: ExprSays(es[k], ev)
    decreases es, 0
  {
    if es != [] {
      var init, last := es[..|es| - 1], es[|es| - 1];
      ExprsEventsExact(init, ev);
      ExprEventsExact(last, ev);
      assert forall k | 0 <= k < |init| :: es[k] == init[k];
    }
  }

  /** The walk over statements looks up exactly the names they use, calls exactly what they call and declares
      exactly what they declare, at any depth. */
  lemma {:induction false} EventsExact(ss: seq<Stmt>, ev: Event)
    requires ev.Use? || ev.Calls? || ev.Declare?
    ensures ev in StmtsEvents(ss) <==> Says(ss, ev)
    decreases ss, 0
  {
    if ss != [] {
      var init, last := ss[..|ss| - 1], ss[|ss| - 1];
      EventsExact(init, ev);
      StmtEventsExact(last, ev);
      SaysMore(ss, ev);
    } else {
      assert !Says(ss, ev);
    }
  }

  lemma SaysMore(ss: seq<Stmt>, ev: Event)
    requires ss != [] && (ev.Use? || ev.Calls? || ev.Declare?)
    ensures Says(ss, ev) <==> Says(ss[..|ss| - 1], ev) || SaysBy(ss[|ss| - 1], ev)
  {
    var init := ss[..|ss| - 1];
    assert forall k | 0 <= k < |init| :: ss[k] == init[k];
  }

  lemma {:induction false} StmtEventsExact(st: Stmt, ev: Event)
    requires ev.Use? || ev.Calls? || ev.Declare?
    ensures ev in StmtEvents(st) <==> SaysBy(st, ev)
    decreases st, 0
  {
    forall j | 0 <= j < |Inner(st)|
      ensures ev in StmtsEvents(Inner(st)[j]) <==> Says(Inner(st)[j], ev)
    {
      EventsExact(Inner(st)[j], ev);
    }
    PartsExact(st, ev);
    SaysByPart(st, ev);
  }

  /** For any classification of the events of the statements inside. */
  lemma PartsExact(st: Stmt, ev: Event)
    requires ev.Use? || ev.Calls? || ev.Declare?
    ensures ev in StmtEvents(st) <==>
      || ev in OwnEvents(st)
      || (exists i | 0 <= i < |Parts(st)| :: ExprSays(Parts(st)[i], ev))
      || exists j | 0 <= j < |Inner(st)| :: ev in StmtsEvents(Inner(st)[j])
  {
    EventsByPart(st);
    ExprsEventsExact(Parts(st), ev);
    InLists(Inner(st), ev);
  }

  lemma SaysByPart(st: Stmt, ev: Event)
    requires ev.Use? || ev.Calls? || ev.Declare?
    ensures SaysBy(st, ev) <==>
      || ev in OwnEvents(st)
      || (exists i | 0 <= i < |Parts(st)| :: ExprSays(Parts(st)[i], ev))
      || exists j | 0 <= j < |Inner(st)| :: Says(Inner(st)[j], ev)
  {
    match ev {
      case Use(s) => assert UsedBy(st, s) <==> SaysBy(st, ev);
      case Calls(f) => assert CalledBy(st, f) <==> SaysBy(st, ev);
      case Declare(v) => assert DeclaredBy(st, v) <==> SaysBy(st, ev);
    }
  }

  lemma {:induction false} InLists(lists: seq<seq<Stmt>>, ev: Event)
    ensures ev in ListsEvents(lists) <==> exists j | 0 <= j < |lists| :: ev in StmtsEvents(lists[j])
  {
    if lists != [] {
      var init, last := lists[..|lists| - 1], lists[|lists| - 1];
      InLists(init, ev);
      if ev in ListsEvents(init) {
        var j :| 0 <= j < |init| && ev in StmtsEvents(init[j]);
        assert lists[j] == init[j];
      }
      forall j | 0 <= j < |lists| && ev in StmtsEvents(lists[j])
        ensures ev in ListsEvents(lists)
      {
        if j < |init| {
          assert init[j] == lists[j];
        }
      }
    }
  }

  // --- What names mean ---

  /** What a declaration adds to the scope. */
  function Bound(scope: map<Symbol, Variable>, st: Stmt): map<Symbol, Variable> {
    if st.VarDecl? then scope[st.v.symbol := Declared(st.v)] else scope
  }

  /** The scope behind a statement: nested statements open no scope. */
  function Behind(scope: map<Symbol, Variable>, st: Stmt): map<Symbol, Variable>
    decreases st, 0
  {
    BehindLists(Bound(scope, st), st, |Inner(st)|)
  }

  /** The scope behind the first n lists inside a statement. */
  function BehindLists(scope: map<Symbol, Variable>, st: Stmt, n: nat): map<Symbol, Variable>
    requires n <= |Inner(st)|
    decreases st, 0, n
  {
    if n == 0 then scope else BehindAll(BehindLists(scope, st, n - 1), Inner(st)[n - 1])
  }

  function BehindAll(scope: map<Symbol, Variable>, ss: seq<Stmt>): map<Symbol, Variable>
    decreases ss, 0
  {
    if ss == [] then scope else Behind(BehindAll(scope, ss[..|ss| - 1]), ss[|ss| - 1])
  }

  /** In this scope the name x means the module variable s. */
  predicate Refers(globals: map<Symbol, Variable>, scope: map<Symbol, Variable>, x: Symbol, s: Symbol) {
    if x in scope then ModuleClass(scope[x]) && scope[x].symbol == s
    else x in globals && ModuleClass(globals[x]) && globals[x].symbol == s
  }

  /** Some name in the statements means the module variable s where it stands. */
  ghost predicate Mentioned(globals: map<Symbol, Variable>, scope: map<Symbol, Variable>, ss: seq<Stmt>, s: Symbol)
    decreases ss, 0
  {
    ss != [] &&
    var init, last := ss[..|ss| - 1], ss[|ss| - 1];
    Mentioned(globals, scope, init, s) || MentionedBy(globals, BehindAll(scope, init), last, s)
  }

  ghost predicate MentionedBy(globals: map<Symbol, Variable>, scope: map<Symbol, Variable>, st: Stmt, s: Symbol)
    decreases st, 0
  {
    || MentionedInParts(globals, Bound(scope, st), Parts(st), s)
    || MentionedInLists(globals, Bound(scope, st), st, |Inner(st)|, s)
  }

  /** The same for the first n lists inside a statement. */
  ghost predicate MentionedInLists(globals: map<Symbol, Variable>, scope: map<Symbol, Variable>, st: Stmt, n: nat, s: Symbol)
    requires n <= |Inner(st)|
    decreases st, 0, n
  {
    n > 0 &&
    (MentionedInLists(globals, scope, st, n - 1, s) || Mentioned(globals, BehindLists(scope, st, n - 1), Inner(st)[n - 1], s))
  }

  ghost predicate MentionedInParts(globals: map<Symbol, Variable>, scope: map<Symbol, Variable>, es: seq<Expr>, s: Symbol) {
    exists i, x | 0 <= i < |es| :: Uses(es[i], x) && Refers(globals, scope, x, s)
  }

  // --- The walk finds these meanings ---

  /** Some event looks the module variable s up. */
  ghost predicate Hit(env: Env, scope: map<Symbol, Variable>, evs: seq<Event>, s: Symbol) {
    exists k | 0 <= k < |evs| :: RefersAt(env, scope, evs, k, s)
  }

  lemma {:induction false} ScopeConcat(scope: map<Symbol, Variable>, a: seq<Event>, b: seq<Event>)
    ensures ScopeAfter(scope, a + b) == ScopeAfter(ScopeAfter(scope, a), b)
    decreases |b|
  {
    if b == [] {
      assert a + b == a;
    } else {
      assert (a + b)[..|a + b| - 1] == a + b[..|b| - 1];
      ScopeConcat(scope, a, b[..|b| - 1]);
    }
  }

  lemma HitLeft(env: Env, scope: map<Symbol, Variable>, a: seq<Event>, b: seq<Event>, k: nat, s: Symbol)
    requires k < |a|
    ensures RefersAt(env, scope, a + b, k, s) <==> RefersAt(env, scope, a, k, s)
  {
    assert (a + b)[..k] == a[..k];
  }

  lemma HitRight(env: Env, scope: map<Symbol, Variable>, a: seq<Event>, b: seq<Event>, k: nat, s: Symbol)
    requires k < |b|
    ensures RefersAt(env, scope, a + b, |a| + k, s) <==> RefersAt(env, ScopeAfter(scope, a), b, k, s)
  {
    assert (a + b)[..|a| + k] == a + b[..k];
    ScopeConcat(scope, a, b[..k]);
  }

  lemma HitConcat(env: Env, scope: map<Symbol, Variable>, a: seq<Event>, b: seq<Event>, s: Symbol)
    ensures Hit(env, scope, a + b, s) <==> Hit(env, scope, a, s) || Hit(env, ScopeAfter(scope, a), b, s)
  {
    if Hit(env, scope, a + b, s) {
      var k :| 0 <= k < |a + b| && RefersAt(env, scope, a + b, k, s);
      if k < |a| {
        HitLeft(env, scope, a, b, k, s);
      } else {
        HitRight(env, scope, a, b, k - |a|, s);
      }
    }
    if Hit(env, scope, a, s) {
      var k :| 0 <= k < |a| && RefersAt(env, scope, a, k, s);
      HitLeft(env, scope, a, b, k, s);
    }
    if Hit(env, ScopeAfter(scope, a), b, s) {
      var k :| 0 <= k < |b| && RefersAt(env, ScopeAfter(scope, a), b, k, s);
      HitRight(env, scope, a, b, k, s);
    }
  }

  lemma HitThree(env: Env, scope: map<Symbol, Variable>, a: seq<Event>, b: seq<Event>, c: seq<Event>, s: Symbol)
    requires ScopeAfter(ScopeAfter(scope, a), b) == ScopeAfter(scope, a)
    ensures ScopeAfter(scope, a + b + c) == ScopeAfter(ScopeAfter(scope, a), c)
    ensures Hit(env, scope, a + b + c, s) <==>
      Hit(env, scope, a, s) || Hit(env, ScopeAfter(scope, a), b, s) || Hit(env, ScopeAfter(scope, a), c, s)
  {
    ScopeConcat(scope, a, b);
    ScopeConcat(scope, a + b, c);
    HitConcat(env, scope, a, b, s);
    HitConcat(env, scope, a + b, c, s);
  }

  /** Where nothing is declared, the scope stays and the position does not matter. */
  lemma {:induction false} UndeclaredHits(env: Env, scope: map<Symbol, Variable>, evs: seq<Event>, s: Symbol)
    requires forall k | 0 <= k < |evs| :: !evs[k].Declare?
    ensures ScopeAfter(scope, evs) == scope
    ensures Hit(env, scope, evs, s) <==> exists x :: Use(x) in evs && Refers(env.globals, scope, x, s)
  {
    if evs == [] {
      assert !Hit(env, scope, evs, s);
    } else {
      var init, last := evs[..|evs| - 1], evs[|evs| - 1];
      UndeclaredHits(env, scope, init, s);
      assert evs == init + [last];
      HitConcat(env, scope, init, [last], s);
      HitOne(env, scope, last, s);
    }
  }

  lemma HitOne(env: Env, scope: map<Symbol, Variable>, ev: Event, s: Symbol)
    ensures Hit(env, scope, [ev], s) <==> ev.Use? && Refers(env.globals, scope, ev.sym, s)
  {
    assert [ev][..0] == [];
    assert RefersAt(env, scope, [ev], 0, s) <==> ev.Use? && Refers(env.globals, scope, ev.sym, s);
  }

  lemma {:induction false} PartsDeclareNothing(es: seq<Expr>)
    ensures forall k | 0 <= k < |ExprsEvents(es)| :: !ExprsEvents(es)[k].Declare?
  {
    forall k | 0 <= k < |ExprsEvents(es)|
      ensures !ExprsEvents(es)[k].Declare?
    {
      if ExprsEvents(es)[k].Declare? {
        ExprsEventsExact(es, ExprsEvents(es)[k]);
      }
    }
  }

  lemma PartsHit(env: Env, scope: map<Symbol, Variable>, es: seq<Expr>, s: Symbol)
    ensures ScopeAfter(scope, ExprsEvents(es)) == scope
    ensures Hit(env, scope, ExprsEvents(es), s) <==> MentionedInParts(env.globals, scope, es, s)
  {
    PartsDeclareNothing(es);
    UndeclaredHits(env, scope, ExprsEvents(es), s);
    forall x
      ensures Use(x) in ExprsEvents(es) <==> exists i | 0 <= i < |es| :: Uses(es[i], x)
    {
      ExprsEventsExact(es, Use(x));
      assert forall i | 0 <= i < |es| :: ExprSays(es[i], Use(x)) <==> Uses(es[i], x);
    }
  }

  /** The walk over statements leaves the scope that the syntax says, and looks up exactly the module
      variables that are mentioned. */
  lemma {:induction false} MentionsExact(env: Env, scope: map<Symbol, Variable>, ss: seq<Stmt>, s: Symbol)
    ensures ScopeAfter(scope, StmtsEvents(ss)) == BehindAll(scope, ss)
    ensures Hit(env, scope, StmtsEvents(ss), s) <==> Mentioned(env.globals, scope, ss, s)
    decreases ss, 0
  {
    if ss == [] {
      assert !Hit(env, scope, [], s);
    } else {
      var init, last := ss[..|ss| - 1], ss[|ss| - 1];
      MentionsExact(env, scope, init, s);
      var mid := BehindAll(scope, init);
      StmtMentionsExact(env, mid, last, s);
      ScopeConcat(scope, StmtsEvents(init), StmtEvents(last));
      HitConcat(env, scope, StmtsEvents(init), StmtEvents(last), s);
    }
  }

  lemma {:induction false} StmtMentionsExact(env: Env, scope: map<Symbol, Variable>, st: Stmt, s: Symbol)
    ensures ScopeAfter(scope, StmtEvents(st)) == Behind(scope, st)
    ensures Hit(env, scope, StmtEvents(st), s) <==> MentionedBy(env.globals, scope, st, s)
    decreases st, 0
  {
    var own, parts := OwnEvents(st), ExprsEvents(Parts(st));
    var inside := Bound(scope, st);
    EventsByPart(st);
    OwnHits(env, scope, st, s);
    PartsHit(env, inside, Parts(st), s);
    ListsMentionsExact(env, inside, st, |Inner(st)|, s);
    Whole(Inner(st));
    HitThree(env, scope, own, parts, ListsEvents(Inner(st)), s);
  }

  lemma ListsEventsNext(lists: seq<seq<Stmt>>, n: nat)
    requires 0 < n <= |lists|
    ensures ListsEvents(lists[..n]) == ListsEvents(lists[..n - 1]) + StmtsEvents(lists[n - 1])
  {
    assert lists[..n][..n - 1] == lists[..n - 1];
  }

  lemma Whole<T>(s: seq<T>)
    ensures s[..|s|] == s
  {
  }

  lemma OwnHits(env: Env, scope: map<Symbol, Variable>, st: Stmt, s: Symbol)
    ensures ScopeAfter(scope, OwnEvents(st)) == Bound(scope, st)
    ensures !Hit(env, scope, OwnEvents(st), s)
  {
    if st.VarDecl? {
      assert [Declare(st.v)][..0] == [];
      HitOne(env, scope, Declare(st.v), s);
    }
  }

  lemma {:induction false} ListsMentionsExact(env: Env, scope: map<Symbol, Variable>, st: Stmt, n: nat, s: Symbol)
    requires n <= |Inner(st)|
    ensures ScopeAfter(scope, ListsEvents(Inner(st)[..n])) == BehindLists(scope, st, n)
    ensures Hit(env, scope, ListsEvents(Inner(st)[..n]), s) <==> MentionedInLists(env.globals, scope, st, n, s)
    decreases st, 0, n
  {
    if n == 0 {
      assert !Hit(env, scope, [], s);
    } else {
      var before, list := Inner(st)[..n - 1], Inner(st)[n - 1];
      ListsEventsNext(Inner(st), n);
      ListsMentionsExact(env, scope, st, n - 1, s);
      MentionsExact(env, BehindLists(scope, st, n - 1), list, s);
      ScopeConcat(scope, ListsEvents(before), StmtsEvents(list));
      HitConcat(env, scope, ListsEvents(before), StmtsEvents(list), s);
    }
  }

  // --- Which bodies the walk gets through ---

  predicate Known(env: Env, scope: map<Symbol, Variable>, s: Symbol) {
    s in scope || s in env.globals || s in env.registered || s in env.intrinsics
  }

  /** Every name in the expression is known, every call is of a function of the program or a typed one of an
      intrinsic, and every other expression gets a type. */
  predicate Resolved(env: Env, scope: map<Symbol, Variable>, e: Expr) {
    && (forall k | 0 <= k < |Operands(e)| :: Resolved(env, scope, Operands(e)[k]))
    && match e
       case Ident(s) => Known(env, scope, s)
       case Call(f, _, typed) => Known(env, scope, f) && if IsIntrinsic(env, scope, f) then typed else f in env.program
       case Other(_, typed) => typed
  }

  predicate AllResolved(env: Env, scope: map<Symbol, Variable>, es: seq<Expr>) {
    forall k | 0 <= k < |es| :: Resolved(env, scope, es[k])
  }

  /** The same for statements, of which none declares a variable of a module class. */
  predicate ResolvedIn(env: Env, scope: map<Symbol, Variable>, ss: seq<Stmt>)
    decreases ss, 0
  {
    ss == [] ||
    var init, last := ss[..|ss| - 1], ss[|ss| - 1];
    ResolvedIn(env, scope, init) && ResolvedBy(env, BehindAll(scope, init), last)
  }

  predicate ResolvedBy(env: Env, scope: map<Symbol, Variable>, st: Stmt)
    decreases st, 0
  {
    && (st.VarDecl? ==> st.v.isConst || !ModuleClass(st.v))
    && AllResolved(env, Bound(scope, st), Parts(st))
    && ResolvedLists(env, Bound(scope, st), st, |Inner(st)|)
  }

  predicate ResolvedLists(env: Env, scope: map<Symbol, Variable>, st: Stmt, n: nat)
    requires n <= |Inner(st)|
    decreases st, 0, n
  {
    n == 0 || (ResolvedLists(env, scope, st, n - 1) && ResolvedIn(env, BehindLists(scope, st, n - 1), Inner(st)[n - 1]))
  }

  ghost predicate Passes(env: Env, scope: map<Symbol, Variable>, evs: seq<Event>) {
    Run(env, State(scope, [], [], []), evs).Some?
  }

  /** Only the scope of a state matters. */
  lemma PassesAnywhere(env: Env, st: State, evs: seq<Event>)
    ensures Run(env, st, evs).Some? <==> Passes(env, st.scope, evs)
  {
    FailureIsLocal(env, env, st, State(st.scope, [], [], []), evs);
  }

  lemma PassesConcat(env: Env, scope: map<Symbol, Variable>, a: seq<Event>, b: seq<Event>)
    ensures Passes(env, scope, a + b) <==> Passes(env, scope, a) && Passes(env, ScopeAfter(scope, a), b)
  {
    var st := State(scope, [], [], []);
    RunSplit(env, st, a, b);
    if Run(env, st, a).Some? {
      ScopeIsOverlay(env, st, a);
      PassesAnywhere(env, Run(env, st, a).value, b);
    }
  }

  lemma PassesOne(env: Env, scope: map<Symbol, Variable>, ev: Event)
    ensures Passes(env, scope, [ev]) <==> Step(env, State(scope, [], [], []), ev).Some?
  {
    RunOne(env, State(scope, [], [], []), ev);
  }

  lemma CallPasses(env: Env, scope: map<Symbol, Variable>, f: Symbol, typed: bool)
    requires Known(env, scope, f)
    ensures Passes(env, scope, [IntrinsicTyping(f, typed), Event.Calls(f), Use(f)]) <==>
      if IsIntrinsic(env, scope, f) then typed else f in env.program
  {
    var a, b, c := IntrinsicTyping(f, typed), Event.Calls(f), Use(f);
    assert [a, b, c] == [a] + [b] + [c];
    PassesConcat(env, scope, [a], [b]);
    PassesConcat(env, scope, [a] + [b], [c]);
    OneUndeclared(scope, a);
    OneUndeclared(scope, b);
    ScopeConcat(scope, [a], [b]);
    PassesOne(env, scope, a);
    PassesOne(env, scope, b);
    PassesOne(env, scope, c);
  }

  lemma OneUndeclared(scope: map<Symbol, Variable>, ev: Event)
    requires !ev.Declare?
    ensures ScopeAfter(scope, [ev]) == scope
  {
    assert [ev][..0] == [];
  }

  lemma {:induction false} ExprPasses(env: Env, scope: map<Symbol, Variable>, e: Expr)
    ensures Passes(env, scope, ExprEvents(e)) <==> Resolved(env, scope, e)
    decreases e, 0
  {
    match e {
      case Ident(s) => PassesOne(env, scope, Use(s));
      case Call(f, args, typed) =>
        var a, b, c := [Use(f)], ExprsEvents(args), [IntrinsicTyping(f, typed), Event.Calls(f), Use(f)];
        ExprsPass(env, scope, args);
        OneUndeclared(scope, Use(f));
        ScopeConcat(scope, a, b);
        PassesConcat(env, scope, a, b);
        PassesConcat(env, scope, a + b, c);
        PassesOne(env, scope, Use(f));
        assert Operands(e) == args;
        if Known(env, scope, f) {
          CallPasses(env, scope, f, typed);
        }
      case Other(operands, typed) =>
        ExprsPass(env, scope, operands);
        PassesConcat(env, scope, ExprsEvents(operands), [Typing(typed)]);
        PassesOne(env, scope, Typing(typed));
        assert Operands(e) == operands;
    }
  }

  lemma {:induction false} ExprsPass(env: Env, scope: map<Symbol, Variable>, es: seq<Expr>)
    ensures ScopeAfter(scope, ExprsEvents(es)) == scope
    ensures Passes(env, scope, ExprsEvents(es)) <==> AllResolved(env, scope, es)
    decreases es, 0
  {
    PartsHit(env, scope, es, INVALID);
    if es != [] {
      var init, last := es[..|es| - 1], es[|es| - 1];
      ExprsPass(env, scope, init);
      ExprPasses(env, scope, last);
      PassesConcat(env, scope, ExprsEvents(init), ExprEvents(last));
      AllResolvedMore(env, scope, es);
    }
  }

  lemma AllResolvedMore(env: Env, scope: map<Symbol, Variable>, es: seq<Expr>)
    requires es != []
    ensures AllResolved(env, scope, es) <==> AllResolved(env, scope, es[..|es| - 1]) && Resolved(env, scope, es[|es| - 1])
  {
    assert es == es[..|es| - 1] + [es[|es| - 1]];
  }

  /** The walk over statements gets through exactly when they are resolved. */
  lemma {:induction false} WalkPasses(env: Env, scope: map<Symbol, Variable>, ss: seq<Stmt>)
    ensures Passes(env, scope, StmtsEvents(ss)) <==> ResolvedIn(env, scope, ss)
    decreases ss, 0
  {
    if ss != [] {
      var init, last := ss[..|ss| - 1], ss[|ss| - 1];
      WalkPasses(env, scope, init);
      MentionsExact(env, scope, init, INVALID);
      StmtPasses(env, BehindAll(scope, init), last);
      PassesConcat(env, scope, StmtsEvents(init), StmtEvents(last));
    }
  }

  lemma {:induction false} StmtPasses(env: Env, scope: map<Symbol, Variable>, st: Stmt)
    ensures Passes(env, scope, StmtEvents(st)) <==> ResolvedBy(env, scope, st)
    decreases st, 0
  {
    var own, parts, lists := OwnEvents(st), ExprsEvents(Parts(st)), ListsEvents(Inner(st));
    var inside := Bound(scope, st);
    EventsByPart(st);
    OwnHits(env, scope, st, INVALID);
    OwnPasses(env, scope, st);
    ExprsPass(env, inside, Parts(st));
    ListsPass(env, inside, st, |Inner(st)|);
    assert Inner(st)[..|Inner(st)|] == Inner(st);
    ScopeConcat(scope, own, parts);
    PassesConcat(env, scope, own, parts);
    PassesConcat(env, scope, own + parts, lists);
  }

  lemma OwnPasses(env: Env, scope: map<Symbol, Variable>, st: Stmt)
    ensures Passes(env, scope, OwnEvents(st)) <==> (st.VarDecl? ==> st.v.isConst || !ModuleClass(st.v))
  {
    if st.VarDecl? {
      PassesOne(env, scope, Declare(st.v));
    }
  }

  lemma {:induction false} ListsPass(env: Env, scope: map<Symbol, Variable>, st: Stmt, n: nat)
    requires n <= |Inner(st)|
    ensures Passes(env, scope, ListsEvents(Inner(st)[..n])) <==> ResolvedLists(env, scope, st, n)
    decreases st, 0, n
  {
    if n > 0 {
      var before, list := Inner(st)[..n - 1], Inner(st)[n - 1];
      ListsEventsNext(Inner(st), n);
      ListsPass(env, scope, st, n - 1);
      ListsMentionsExact(env, scope, st, n - 1, INVALID);
      WalkPasses(env, BehindLists(scope, st, n - 1), list);
      PassesConcat(env, scope, ListsEvents(before), StmtsEvents(list));
    }
  }
}
