/** Running a program after the first-index pass gives what the original gives when the index
    builtins already include the first index. */
module FirstIndexSimulation {
  import opened Wrappers
  import opened Shaders
  import opened FirstIndexOffset

  // --- What the pass needs ---

  function Index(p: Program, n: string): Option<Builtin> {
    match Find(p.globals, n) case None => None case Some(v) => IndexBuiltin(v.decorations)
  }

  /** The variables the pass adds to the module. */
  ghost predicate Generated(l: Labels, p: Program, n: string) {
    n == l.buffer || exists v :: v in p.globals && IndexBuiltin(v.decorations).Some? && n == l.prefix + v.name
  }

  function Params(f: Function): set<string> {
    set n | n in f.params
  }

  /** Module variables have names of their own, and at most one is each index builtin: a plain word
      whose index builtin is its only one. */
  ghost predicate PlainGlobals(vs: seq<Variable>) {
    && (forall i, j | 0 <= i < j < |vs| :: vs[i].name != vs[j].name)
    && (forall i, j | 0 <= i < j < |vs| && IndexBuiltin(vs[i].decorations).Some? ::
          IndexBuiltin(vs[j].decorations) != IndexBuiltin(vs[i].decorations))
    && forall i | 0 <= i < |vs| && IndexBuiltin(vs[i].decorations).Some? ::
         FirstBuiltin(vs[i].decorations) == IndexBuiltin(vs[i].decorations) && vs[i].fields == []
  }

  /** No name of the program is one that the pass makes up. */
  ghost predicate NoClash(l: Labels, p: Program) {
    && l.vertexField != l.instanceField && !(l.prefix <= l.buffer)
    && (forall v | v in p.globals :: !Generated(l, p, v.name))
    && forall f, n | f in p.functions && Generated(l, p, n) :: n !in f.params && n !in Free(f.body, Params(f))
  }

  /** The lists of local references hold module variables, and no parameter hides a listed index builtin. */
  ghost predicate ListsGlobals(p: Program, f: Function) {
    forall v | v in f.locals :: v in p.globals && (IndexBuiltin(v.decorations).Some? ==> v.name !in f.params)
  }

  /** Every index builtin that the body reads is in the function's list. */
  ghost predicate Covered(p: Program, f: Function) {
    forall n | n in Free(f.body, Params(f)) && Index(p, n).Some? :: Listed(f, n)
  }

  ghost predicate Listed(f: Function, n: string) {
    exists v :: v in f.locals && v.name == n
  }

  ghost predicate Sound(l: Labels, p: Program) {
    PlainGlobals(p.globals) && NoClash(l, p) && forall f | f in p.functions :: ListsGlobals(p, f)
  }

  ghost predicate Ready(l: Labels, p: Program) {
    Sound(l, p) && forall f | f in p.functions :: Covered(p, f)
  }

  /** What a new pass makes of p. */
  function Target(l: Labels, p: Program): Program {
    Transformed(l, p, Has(p.globals, VertexIndex), Has(p.globals, InstanceIndex))
  }

  /** Where the pass says the first index of a builtin is to be stored. */
  function OffsetFor(p: Program, b: Builtin): nat {
    if b.VertexIndex? then 0 else InstanceOffset(Has(p.globals, VertexIndex))
  }

  /** The buffer holds the first index of each index builtin that the program declares. */
  ghost predicate Supplied(l: Labels, p: Program, w: World) {
    && (Has(p.globals, VertexIndex) ==> (l.buffer, OffsetFor(p, VertexIndex)) in w.words)
    && (Has(p.globals, InstanceIndex) ==> (l.buffer, OffsetFor(p, InstanceIndex)) in w.words)
  }

  /** The world in which the original program is to run. */
  function Shifted(l: Labels, p: Program, w: World): World
    requires Supplied(l, p, w)
  {
    w.(vertex := ShiftedIndex(l, p, w, VertexIndex), instance := ShiftedIndex(l, p, w, InstanceIndex))
  }

  function ShiftedIndex(l: Labels, p: Program, w: World, b: Builtin): nat
    requires Supplied(l, p, w) && !b.OtherBuiltin?
  {
    if Has(p.globals, b) then Wrap(Provided(w, b) + w.words[(l.buffer, OffsetFor(p, b))]) else Provided(w, b)
  }

  // --- The module variables of the result ---

  lemma {:induction false} FindAt(vs: seq<Variable>, k: nat)
    requires k < |vs| && forall i, j | 0 <= i < j < |vs| :: vs[i].name != vs[j].name
    ensures Find(vs, vs[k].name) == Some(vs[k])
  {
    if k > 0 {
      FindAt(vs[1..], k - 1);
    }
  }

  lemma {:induction false} FindIn(vs: seq<Variable>, n: string)
    ensures Find(vs, n).None? <==> forall k | 0 <= k < |vs| :: vs[k].name != n
    ensures Find(vs, n).Some? ==> Find(vs, n).value in vs && Find(vs, n).value.name == n
  {
    if vs != [] && vs[0].name != n {
      FindIn(vs[1..], n);
    }
  }

  lemma {:induction false} RenamedAt(l: Labels, vs: seq<Variable>)
    ensures |RenamedAll(l, vs)| == |vs| && forall k | 0 <= k < |vs| :: RenamedAll(l, vs)[k] == Renamed(l, vs[k])
  {
    if vs != [] {
      RenamedAt(l, vs[..|vs| - 1]);
    }
  }

  lemma PrefixCancels(prefix: string, a: string, b: string)
    requires prefix + a == prefix + b
    ensures a == b
  {
    assert (prefix + a)[|prefix|..] == a;
    assert (prefix + b)[|prefix|..] == b;
  }

  lemma RenamedUnique(l: Labels, p: Program)
    requires Sound(l, p)
    ensures
      var vs := RenamedAll(l, p.globals);
      forall i, j | 0 <= i < j < |vs| :: vs[i].name != vs[j].name
  {
    var vs := RenamedAll(l, p.globals);
    RenamedAt(l, p.globals);
    forall i, j | 0 <= i < j < |vs|
      ensures vs[i].name != vs[j].name
    {
      var a, b := p.globals[i], p.globals[j];
      assert a in p.globals && b in p.globals;
      assert !Generated(l, p, a.name) && !Generated(l, p, b.name);
      if IndexBuiltin(a.decorations).Some? && IndexBuiltin(b.decorations).Some? {
        if vs[i].name == vs[j].name {
          PrefixCancels(l.prefix, a.name, b.name);
        }
      }
    }
  }

  lemma {:induction false} FindAppend(vs: seq<Variable>, v: Variable, n: string)
    ensures Find(vs + [v], n) == if Find(vs, n).Some? then Find(vs, n) else if v.name == n then Some(v) else None
  {
    if vs != [] {
      assert (vs + [v])[1..] == vs[1..] + [v];
      FindAppend(vs[1..], v, n);
    }
  }

  /** Other names mean what they did, except that index builtins are gone. */
  lemma TargetFind(l: Labels, p: Program, n: string)
    requires Sound(l, p) && !Generated(l, p, n)
    ensures Find(Target(l, p).globals, n) == if Index(p, n).Some? then None else Find(p.globals, n)
  {
    var vs := RenamedAll(l, p.globals);
    RenamedAt(l, p.globals);
    RenamedUnique(l, p);
    FindIn(vs, n);
    FindIn(p.globals, n);
    if p.functions != [] {
      FindAppend(vs, Buffer(l, Has(p.globals, VertexIndex), Has(p.globals, InstanceIndex)), n);
    } else {
      assert vs + [] == vs;
    }
    if Find(p.globals, n).Some? {
      var k :| 0 <= k < |p.globals| && p.globals[k].name == n;
      FindAt(p.globals, k);
      assert vs[k] == Renamed(l, p.globals[k]);
      if Index(p, n).None? {
        FindAt(vs, k);
      } else {
        NoneRenamedTo(l, p, n);
      }
    } else {
      NoneRenamedTo(l, p, n);
    }
  }

  lemma NoneRenamedTo(l: Labels, p: Program, n: string)
    requires Sound(l, p) && !Generated(l, p, n) && (Find(p.globals, n).None? || Index(p, n).Some?)
    ensures Find(RenamedAll(l, p.globals), n).None?
  {
    var vs := RenamedAll(l, p.globals);
    RenamedAt(l, p.globals);
    FindIn(vs, n);
    FindIn(p.globals, n);
    forall k | 0 <= k < |vs|
      ensures vs[k].name != n
    {
      assert p.globals[k] in p.globals;
      if p.globals[k].name == n {
        FindAt(p.globals, k);
      }
    }
  }

  /** The variable that is the builtin b, under its new name. */
  lemma TargetIndex(l: Labels, p: Program, b: Builtin)
    requires Sound(l, p) && p.functions != [] && Has(p.globals, b) && !b.OtherBuiltin?
    ensures Index(p, LastNamed(p.globals, b)) == Some(b)
    ensures Index(Target(l, p), l.prefix + LastNamed(p.globals, b)) == Some(b)
    ensures !Generated(l, p, LastNamed(p.globals, b)) && Generated(l, p, l.prefix + LastNamed(p.globals, b))
  {
    var vs := RenamedAll(l, p.globals);
    var k := LastIndex(p.globals, b);
    RenamedAt(l, p.globals);
    RenamedUnique(l, p);
    FindAt(p.globals, k);
    FindAt(vs, k);
    FindAppend(vs, Buffer(l, Has(p.globals, VertexIndex), Has(p.globals, InstanceIndex)), vs[k].name);
    assert p.globals[k] in p.globals;
  }

  lemma {:induction false} LastIndex(vs: seq<Variable>, b: Builtin) returns (k: nat)
    requires Has(vs, b)
    ensures k < |vs| && vs[k].name == LastNamed(vs, b) && IndexBuiltin(vs[k].decorations) == Some(b)
  {
    var n := |vs| - 1;
    if IndexBuiltin(vs[n].decorations) == Some(b) {
      k := n;
    } else {
      assert vs == vs[..n] + [vs[n]];
      k := LastIndex(vs[..n], b);
    }
  }

  lemma TargetBuffer(l: Labels, p: Program)
    requires Sound(l, p) && p.functions != []
    ensures Find(Target(l, p).globals, l.buffer) == Some(Buffer(l, Has(p.globals, VertexIndex), Has(p.globals, InstanceIndex)))
  {
    var vs := RenamedAll(l, p.globals);
    RenamedAt(l, p.globals);
    FindIn(vs, l.buffer);
    forall k | 0 <= k < |vs|
      ensures vs[k].name != l.buffer
    {
      var v := p.globals[k];
      assert v in p.globals && !Generated(l, p, v.name);
      assert (l.prefix + v.name)[..|l.prefix|] == l.prefix;
    }
    FindAppend(vs, Buffer(l, Has(p.globals, VertexIndex), Has(p.globals, InstanceIndex)), l.buffer);
  }

  lemma OffsetOfLabel(l: Labels, p: Program, b: Builtin)
    requires l.vertexField != l.instanceField && Has(p.globals, b) && !b.OtherBuiltin?
    ensures OffsetOf(Buffer(l, Has(p.globals, VertexIndex), Has(p.globals, InstanceIndex)).fields, Label(l, b)) == Some(OffsetFor(p, b))
  {
  }

  lemma TintLabels()
    ensures TINT.vertexField != TINT.instanceField && !(TINT.prefix <= TINT.buffer)
  {
    assert TINT.vertexField[11] != TINT.instanceField[11];
    assert TINT.prefix[17] != TINT.buffer[17];
  }

  // --- Scopes with the added constants underneath ---

  function Over(ins: map<string, Binding>, s: Scopes): (r: Scopes)
    ensures |r| == |s|
  {
    if s == [] then [] else [ins + s[0]] + s[1..]
  }

  function OverAfter(ins: map<string, Binding>, a: Option<After>): Option<After> {
    if a.None? then None else Some(a.value.(scopes := Over(ins, a.value.scopes)))
  }

  lemma OverInit(ins: map<string, Binding>, s: Scopes)
    requires |s| > 1
    ensures Over(ins, s)[|s| - 1] == s[|s| - 1] && Over(ins, s)[..|s| - 1] == Over(ins, s[..|s| - 1])
  {
  }

  lemma OverPush(ins: map<string, Binding>, s: Scopes, top: map<string, Binding>)
    requires |s| > 0
    ensures Over(ins, s + [top]) == Over(ins, s) + [top]
  {
  }

  lemma {:induction false} LocalOver(ins: map<string, Binding>, s: Scopes, n: string)
    requires |s| > 0
    ensures Local(Over(ins, s), n) ==
      if Local(s, n).Some? then Local(s, n) else if n in ins then Some(ins[n]) else None
  {
    if |s| > 1 {
      OverInit(ins, s);
      LocalOver(ins, s[..|s| - 1], n);
    } else {
      assert Local(s[..0], n).None?;
      assert Over(ins, s)[..0] == [];
    }
  }

  lemma {:induction false} SetOver(ins: map<string, Binding>, s: Scopes, n: string, val: nat)
    requires |s| > 0 && Local(s, n).Some?
    ensures
      var was, now := SetLocal(s, n, val), SetLocal(Over(ins, s), n, val);
      (was.None? && now.None?) || (was.Some? && now.Some? && |was.value| == |s| && now.value == Over(ins, was.value))
  {
    if |s| > 1 {
      OverInit(ins, s);
      var top, rest := s[|s| - 1], s[..|s| - 1];
      if n in top {
        OverPush(ins, rest, top[n := Binding(val, false)]);
      } else {
        SetOver(ins, rest, n, val);
        if SetLocal(rest, n, val).Some? {
          OverPush(ins, SetLocal(rest, n, val).value, top);
        }
      }
    } else {
      assert s == [s[0]] && s[..0] == [];
      SetOverBottom(ins, s[0], n, val);
    }
  }

  lemma SetOverBottom(ins: map<string, Binding>, top: map<string, Binding>, n: string, val: nat)
    requires n in top
    ensures SetLocal([top], n, val) == if top[n].isConst then None else Some([top[n := Binding(val, false)]])
    ensures SetLocal(Over(ins, [top]), n, val) ==
      if top[n].isConst then None else Some(Over(ins, [top[n := Binding(val, false)]]))
  {
    assert [top][..0] == [];
    assert Over(ins, [top]) == [ins + top];
    assert [ins + top][..0] == [];
    assert [] + [top[n := Binding(val, false)]] == [top[n := Binding(val, false)]];
    assert Over(ins, [top[n := Binding(val, false)]]) == [ins + top[n := Binding(val, false)]];
    assert [] + [(ins + top)[n := Binding(val, false)]] == [(ins + top)[n := Binding(val, false)]];
    assert (ins + top)[n := Binding(val, false)] == ins + top[n := Binding(val, false)];
  }

  lemma {:induction false} ConstStays(ins: map<string, Binding>, s: Scopes, n: string, val: nat)
    requires |s| > 0 && Local(s, n).None? && n in ins && ins[n].isConst
    ensures SetLocal(Over(ins, s), n, val).None?
  {
    if |s| > 1 {
      var top, rest := s[|s| - 1], s[..|s| - 1];
      OverInit(ins, s);
      ConstStays(ins, rest, n, val);
      assert n !in top && SetLocal(Over(ins, rest), n, val).None?;
    } else {
      assert s == [s[0]];
      ConstAtBottom(ins, s[0], n, val);
    }
  }

  lemma ConstAtBottom(ins: map<string, Binding>, top: map<string, Binding>, n: string, val: nat)
    requires n !in top && n in ins && ins[n].isConst
    ensures SetLocal(Over(ins, [top]), n, val).None?
  {
    assert Over(ins, [top]) == [ins + top];
    assert [ins + top][..0] == [];
  }

  lemma BindOver(ins: map<string, Binding>, s: Scopes, n: string, b: Binding)
    requires |s| > 0
    ensures Bind(Over(ins, s), n, b) == Over(ins, Bind(s, n, b))
  {
    if |s| == 1 {
      assert (ins + s[0])[n := b] == ins + s[0][n := b];
    }
  }

  lemma CoversPush(s: Scopes, scope: set<string>)
    requires Covers(s, scope)
    ensures Covers(s + [map[]], scope)
  {
    assert (s + [map[]])[..|s|] == s;
  }

  // --- The simulation ---

  /** The names may be looked up under the constants: they are not made up by the pass, and those that
      are index builtins have a constant. */
  ghost predicate Allowed(l: Labels, p: Program, ins: map<string, Binding>, ns: set<string>) {
    forall n | n in ns :: !Generated(l, p, n) && (Index(p, n).Some? ==> n in ins)
  }

  /** The constants hold what the original program reads. */
  ghost predicate Holds(p: Program, sw: World, ins: map<string, Binding>) {
    forall n | n in ins :: Index(p, n).Some? && ins[n] == Binding(Provided(sw, Index(p, n).value), true)
  }

  ghost predicate Going(l: Labels, p: Program, w: World, ins: map<string, Binding>) {
    Ready(l, p) && Supplied(l, p, w) && Holds(p, Shifted(l, p, w), ins)
  }

  lemma SimRead(l: Labels, p: Program, w: World, ins: map<string, Binding>, g: Store, s: Scopes, n: string)
    requires Going(l, p, w, ins) && |s| > 0 && (Local(s, n).None? ==> Allowed(l, p, ins, {n}))
    ensures Read(Target(l, p), w, g, Over(ins, s), n) == Read(p, Shifted(l, p, w), g, s, n)
  {
    LocalOver(ins, s, n);
    if Local(s, n).None? && n !in ins {
      TargetFind(l, p, n);
    }
  }

  lemma SimMember(l: Labels, p: Program, w: World, ins: map<string, Binding>, s: Scopes, n: string, field: string)
    requires Going(l, p, w, ins) && |s| > 0 && (Local(s, n).None? ==> Allowed(l, p, ins, {n}))
    ensures ReadMember(Target(l, p), w, Over(ins, s), n, field) == ReadMember(p, Shifted(l, p, w), s, n, field)
  {
    LocalOver(ins, s, n);
    if Local(s, n).None? {
      if n in ins {
        FindIn(p.globals, n);
      } else {
        TargetFind(l, p, n);
      }
    }
  }

  lemma SimWrite(l: Labels, p: Program, w: World, ins: map<string, Binding>, g: Store, s: Scopes, n: string, val: nat)
    requires Going(l, p, w, ins) && |s| > 0 && (Local(s, n).None? ==> Allowed(l, p, ins, {n}))
    ensures Write(Target(l, p), g, Over(ins, s), n, val) == OverAfter(ins, Write(p, g, s, n, val))
  {
    LocalOver(ins, s, n);
    if Local(s, n).Some? {
      SetOver(ins, s, n, val);
    } else if n in ins {
      ConstStays(ins, s, n, val);
    } else {
      TargetFind(l, p, n);
    }
  }

  lemma {:induction false} SimEval(l: Labels, p: Program, w: World, ins: map<string, Binding>,
                                   fuel: nat, g: Store, s: Scopes, e: Expr, scope: set<string>)
    requires Going(l, p, w, ins) && |s| > 0 && Covers(s, scope) && Allowed(l, p, ins, Names(e) - scope)
    ensures Eval(Target(l, p), w, fuel, g, Over(ins, s), e) == Eval(p, Shifted(l, p, w), fuel, g, s, e)
    decreases fuel, e, 1
  {
    match e {
      case Lit(_) =>
      case Ident(n) => SimRead(l, p, w, ins, g, s, n);
      case Member(n, field) => SimMember(l, p, w, ins, s, n, field);
      case Binary(_, _, _) => SimBinary(l, p, w, ins, fuel, g, s, e, scope);
      case Call(_, _) => SimCall(l, p, w, ins, fuel, g, s, e, scope);
    }
  }

  lemma {:induction false} SimBinary(l: Labels, p: Program, w: World, ins: map<string, Binding>,
                                     fuel: nat, g: Store, s: Scopes, e: Expr, scope: set<string>)
    requires e.Binary? && Going(l, p, w, ins) && |s| > 0 && Covers(s, scope) && Allowed(l, p, ins, Names(e) - scope)
    ensures Eval(Target(l, p), w, fuel, g, Over(ins, s), e) == Eval(p, Shifted(l, p, w), fuel, g, s, e)
    decreases fuel, e, 0
  {
    SimEval(l, p, w, ins, fuel, g, s, e.left, scope);
    var a := Eval(p, Shifted(l, p, w), fuel, g, s, e.left);
    if a.Some? {
      SimEval(l, p, w, ins, fuel, a.value.store, s, e.right, scope);
    }
  }

  lemma {:induction false} SimCall(l: Labels, p: Program, w: World, ins: map<string, Binding>,
                                     fuel: nat, g: Store, s: Scopes, e: Expr, scope: set<string>)
    requires e.Call? && Going(l, p, w, ins) && |s| > 0 && Covers(s, scope) && Allowed(l, p, ins, Names(e) - scope)
    ensures Eval(Target(l, p), w, fuel, g, Over(ins, s), e) == Eval(p, Shifted(l, p, w), fuel, g, s, e)
    decreases fuel, e, 0
  {
    SimEvalAll(l, p, w, ins, fuel, g, s, e.args, scope);
    var vs := EvalAll(p, Shifted(l, p, w), fuel, g, s, e.args);
    if vs.Some? && fuel > 0 {
      SimInvoke(l, p, w, fuel - 1, vs.value.store, e.callee, vs.value.vals);
    }
  }

  lemma {:induction false} SimEvalAll(l: Labels, p: Program, w: World, ins: map<string, Binding>,
                                      fuel: nat, g: Store, s: Scopes, es: seq<Expr>, scope: set<string>)
    requires Going(l, p, w, ins) && |s| > 0 && Covers(s, scope) && Allowed(l, p, ins, NamesAll(es) - scope)
    ensures EvalAll(Target(l, p), w, fuel, g, Over(ins, s), es) == EvalAll(p, Shifted(l, p, w), fuel, g, s, es)
    decreases fuel, es, 0
  {
    if es != [] {
      SimEval(l, p, w, ins, fuel, g, s, es[0], scope);
      var v := Eval(p, Shifted(l, p, w), fuel, g, s, es[0]);
      if v.Some? {
        SimEvalAll(l, p, w, ins, fuel, v.value.store, s, es[1..], scope);
      }
    }
  }

  /** Any call, whatever the arguments, the stored values and the fuel: the same result and the same
      stored values afterwards, or failure in both programs. */
  lemma {:induction false} SimInvoke(l: Labels, p: Program, w: World, fuel: nat, g: Store, name: string, vals: seq<nat>)
    requires Ready(l, p) && Supplied(l, p, w)
    ensures Invoke(Target(l, p), w, fuel, g, name, vals) == Invoke(p, Shifted(l, p, w), fuel, g, name, vals)
    decreases fuel
  {
    FindNew(l, p.globals, p.functions, name);
    var fn := FindFunction(p.functions, name);
    if fn.Some? && |fn.value.params| == |vals| {
      SimBody(l, p, w, fuel, g, fn.value, vals);
    }
  }

  lemma {:induction false} SimBody(l: Labels, p: Program, w: World, fuel: nat, g: Store, f: Function, vals: seq<nat>)
    requires Ready(l, p) && Supplied(l, p, w) && f in p.functions && |f.params| == |vals|
    ensures Outcome(Exec(Target(l, p), w, fuel, g, [Frame(f.params, vals)], NewFunction(l, p.globals, f).body)) ==
      Outcome(Exec(p, Shifted(l, p, w), fuel, g, [Frame(f.params, vals)], f.body))
    decreases fuel, f.body, 1
  {
    EntersOver(l, p, w, fuel, g, f, vals);
    SimExec(l, p, w, Constants(p, Shifted(l, p, w), LocalBuiltins(f.locals)), fuel, g, [Frame(f.params, vals)], f.body, Params(f));
  }

  lemma {:induction false} SimExec(l: Labels, p: Program, w: World, ins: map<string, Binding>,
                                   fuel: nat, g: Store, s: Scopes, ss: seq<Stmt>, scope: set<string>)
    requires Going(l, p, w, ins) && |s| > 0 && Covers(s, scope) && Allowed(l, p, ins, Free(ss, scope))
    ensures Exec(Target(l, p), w, fuel, g, Over(ins, s), ss) == OverAfter(ins, Exec(p, Shifted(l, p, w), fuel, g, s, ss))
    decreases fuel, ss, 0
  {
    if ss != [] {
      SimStmt(l, p, w, ins, fuel, g, s, ss[0], scope);
      var a := ExecStmt(p, Shifted(l, p, w), fuel, g, s, ss[0]);
      if a.Some? && a.value.flow.Normal? {
        StmtCovered(p, Shifted(l, p, w), fuel, g, s, ss[0], scope);
        SimExec(l, p, w, ins, fuel, a.value.store, a.value.scopes, ss[1..], scope + Declares(ss[0]));
      }
    }
  }

  /** The same for statements in a scope of their own. */
  lemma {:induction false} SimNested(l: Labels, p: Program, w: World, ins: map<string, Binding>,
                                     fuel: nat, g: Store, s: Scopes, ss: seq<Stmt>, scope: set<string>)
    requires Going(l, p, w, ins) && |s| > 0 && Covers(s, scope) && Allowed(l, p, ins, Free(ss, scope))
    ensures Exec(Target(l, p), w, fuel, g, Over(ins, s) + [map[]], ss) ==
      OverAfter(ins, Exec(p, Shifted(l, p, w), fuel, g, s + [map[]], ss))
    decreases fuel, ss, 1
  {
    CoversPush(s, scope);
    OverPush(ins, s, map[]);
    SimExec(l, p, w, ins, fuel, g, s + [map[]], ss, scope);
  }

  lemma PopOver(ins: map<string, Binding>, a: Option<After>)
    requires a.Some? ==> |a.value.scopes| > 1
    ensures Pop(OverAfter(ins, a)) == OverAfter(ins, Pop(a))
  {
    if a.Some? {
      OverInit(ins, a.value.scopes);
    }
  }

  lemma {:induction false} SimStmt(l: Labels, p: Program, w: World, ins: map<string, Binding>,
                                   fuel: nat, g: Store, s: Scopes, st: Stmt, scope: set<string>)
    requires Going(l, p, w, ins) && |s| > 0 && Covers(s, scope) && Allowed(l, p, ins, FreeIn(st, scope))
    ensures ExecStmt(Target(l, p), w, fuel, g, Over(ins, s), st) == OverAfter(ins, ExecStmt(p, Shifted(l, p, w), fuel, g, s, st))
    decreases fuel, st, 2
  {
    match st {
      case Assign(_, _) => SimSet(l, p, w, ins, fuel, g, s, st, scope);
      case Declare(_, _, _) => SimSet(l, p, w, ins, fuel, g, s, st, scope);
      case Block(body) =>
        SimNested(l, p, w, ins, fuel, g, s, body, scope);
        PopOver(ins, Exec(p, Shifted(l, p, w), fuel, g, s + [map[]], body));
      case If(_, _, _) => SimIf(l, p, w, ins, fuel, g, s, st, scope);
      case Loop(_, _) => SimLoop(l, p, w, ins, fuel, g, s, st, scope);
      case Return(e) => SimEval(l, p, w, ins, fuel, g, s, e, scope);
      case ExprStmt(e) => SimEval(l, p, w, ins, fuel, g, s, e, scope);
      case Break =>
    }
  }

  lemma {:induction false} SimSet(l: Labels, p: Program, w: World, ins: map<string, Binding>,
                                   fuel: nat, g: Store, s: Scopes, st: Stmt, scope: set<string>)
    requires (st.Assign? || st.Declare?) && Going(l, p, w, ins) && |s| > 0 && Covers(s, scope) && Allowed(l, p, ins, FreeIn(st, scope))
    ensures ExecStmt(Target(l, p), w, fuel, g, Over(ins, s), st) == OverAfter(ins, ExecStmt(p, Shifted(l, p, w), fuel, g, s, st))
    decreases fuel, st, 1
  {
    var sw := Shifted(l, p, w);
    SimEval(l, p, w, ins, fuel, g, s, st.e, scope);
    var v := Eval(p, sw, fuel, g, s, st.e);
    if v.Some? {
      if st.Assign? {
        SimWrite(l, p, w, ins, v.value.store, s, st.name, v.value.val);
      } else {
        BindOver(ins, s, st.name, Binding(v.value.val, st.isConst));
      }
    }
  }

  lemma {:induction false} SimIf(l: Labels, p: Program, w: World, ins: map<string, Binding>,
                                   fuel: nat, g: Store, s: Scopes, st: Stmt, scope: set<string>)
    requires st.If? && Going(l, p, w, ins) && |s| > 0 && Covers(s, scope) && Allowed(l, p, ins, FreeIn(st, scope))
    ensures ExecStmt(Target(l, p), w, fuel, g, Over(ins, s), st) == OverAfter(ins, ExecStmt(p, Shifted(l, p, w), fuel, g, s, st))
    decreases fuel, st, 1
  {
    var sw := Shifted(l, p, w);
    SimEval(l, p, w, ins, fuel, g, s, st.cond, scope);
    var v := Eval(p, sw, fuel, g, s, st.cond);
    if v.Some? {
      var taken := if v.value.val != 0 then st.body else st.elses;
      SimNested(l, p, w, ins, fuel, v.value.store, s, taken, scope);
      PopOver(ins, Exec(p, sw, fuel, v.value.store, s + [map[]], taken));
    }
  }

  lemma {:induction false} SimLoop(l: Labels, p: Program, w: World, ins: map<string, Binding>,
                                   fuel: nat, g: Store, s: Scopes, st: Stmt, scope: set<string>)
    requires st.Loop? && Going(l, p, w, ins) && |s| > 0 && Covers(s, scope) && Allowed(l, p, ins, FreeIn(st, scope))
    ensures ExecStmt(Target(l, p), w, fuel, g, Over(ins, s), st) == OverAfter(ins, ExecStmt(p, Shifted(l, p, w), fuel, g, s, st))
    decreases fuel, st, 1
  {
    SimTurn(l, p, w, ins, fuel, g, s, st, scope);
    LoopFromTurn(Target(l, p), w, fuel, g, Over(ins, s), st);
    LoopFromTurn(p, Shifted(l, p, w), fuel, g, s, st);
    var turn := Turn(p, Shifted(l, p, w), fuel, g, s, st);
    var next := None;
    if turn.Some? && fuel > 0 {
      TurnCovers(p, Shifted(l, p, w), fuel, g, s, st, scope);
      SimLoop(l, p, w, ins, fuel - 1, turn.value.store, turn.value.scopes, st, scope);
      next := ExecStmt(p, Shifted(l, p, w), fuel - 1, turn.value.store, turn.value.scopes, st);
    }
    AfterTurnOver(ins, turn, next, fuel);
  }

  lemma AfterTurnOver(ins: map<string, Binding>, turn: Option<After>, next: Option<After>, fuel: nat)
    ensures AfterTurn(OverAfter(ins, turn), OverAfter(ins, next), fuel) == OverAfter(ins, AfterTurn(turn, next, fuel))
  {
  }

  function AfterTurn(turn: Option<After>, next: Option<After>, fuel: nat): Option<After> {
    if turn.None? || turn.value.flow.Returned? then turn
    else if turn.value.flow.Broke? then Some(turn.value.(flow := Normal))
    else if fuel == 0 then None
    else next
  }

  /** A loop in terms of its first turn. */
  lemma LoopFromTurn(p: Program, w: World, fuel: nat, g: Store, s: Scopes, st: Stmt)
    requires st.Loop? && |s| > 0
    ensures
      var turn := Turn(p, w, fuel, g, s, st);
      ExecStmt(p, w, fuel, g, s, st) ==
        AfterTurn(turn, if turn.Some? && fuel > 0 then ExecStmt(p, w, fuel - 1, turn.value.store, turn.value.scopes, st) else None, fuel)
  {
  }

  lemma TurnCovers(p: Program, sw: World, fuel: nat, g: Store, s: Scopes, st: Stmt, scope: set<string>)
    requires st.Loop? && |s| > 0 && Covers(s, scope) && Turn(p, sw, fuel, g, s, st).Some?
    ensures Covers(Turn(p, sw, fuel, g, s, st).value.scopes, scope)
  {
    TurnGrown(p, sw, fuel, g, s, st);
    CoversGrown(s, Turn(p, sw, fuel, g, s, st).value.scopes, scope);
  }

  lemma {:induction false} SimTurn(l: Labels, p: Program, w: World, ins: map<string, Binding>,
                                   fuel: nat, g: Store, s: Scopes, st: Stmt, scope: set<string>)
    requires st.Loop? && Going(l, p, w, ins) && |s| > 0 && Covers(s, scope) && Allowed(l, p, ins, FreeIn(st, scope))
    ensures Turn(Target(l, p), w, fuel, g, Over(ins, s), st) == OverAfter(ins, Turn(p, Shifted(l, p, w), fuel, g, s, st))
    decreases fuel, st, 0
  {
    var sw := Shifted(l, p, w);
    SimNested(l, p, w, ins, fuel, g, s, st.body, scope);
    var a := Exec(p, sw, fuel, g, s + [map[]], st.body);
    PopOver(ins, a);
    if a.Some? && a.value.flow.Normal? {
      CoversPush(s, scope);
      DeclaredCovered(p, sw, fuel, g, s + [map[]], st.body, scope);
      SimExec(l, p, w, ins, fuel, a.value.store, a.value.scopes, st.continuing, scope + DeclaredBy(st.body));
      PopOver(ins, Exec(p, sw, fuel, a.value.store, a.value.scopes, st.continuing));
    }
  }

  // --- Entering a function ---

  function Constants(p: Program, sw: World, bs: seq<Builtin>): map<string, Binding> {
    if bs == [] then map[]
    else
      var rest, b := Constants(p, sw, bs[..|bs| - 1]), bs[|bs| - 1];
      if b.OtherBuiltin? then rest else rest[LastNamed(p.globals, b) := Binding(Provided(sw, b), true)]
  }

  lemma {:induction false} FindNew(l: Labels, globals: seq<Variable>, fs: seq<Function>, name: string)
    ensures FindFunction(NewFunctions(l, globals, fs), name) ==
      (match FindFunction(fs, name) case None => None case Some(f) => Some(NewFunction(l, globals, f)))
    ensures FindFunction(fs, name).Some? ==> FindFunction(fs, name).value in fs
  {
    if fs != [] {
      var init, f := fs[..|fs| - 1], fs[|fs| - 1];
      FindNew(l, globals, init, name);
      FindFunctionAppend(init, f, name);
      FindFunctionAppend(NewFunctions(l, globals, init), NewFunction(l, globals, f), name);
      assert fs == init + [f];
    }
  }

  lemma {:induction false} FindFunctionAppend(fs: seq<Function>, f: Function, name: string)
    ensures FindFunction(fs + [f], name) ==
      if FindFunction(fs, name).Some? then FindFunction(fs, name) else if f.name == name then Some(f) else None
  {
    if fs != [] {
      assert (fs + [f])[1..] == fs[1..] + [f];
      FindFunctionAppend(fs[1..], f, name);
    }
  }

  lemma {:induction false} ExecConcat(p: Program, w: World, fuel: nat, g: Store, s: Scopes, a: seq<Stmt>, b: seq<Stmt>)
    requires |s| > 0
    ensures
      var mid := Exec(p, w, fuel, g, s, a);
      Exec(p, w, fuel, g, s, a + b) ==
        if mid.None? || !mid.value.flow.Normal? then mid else Exec(p, w, fuel, mid.value.store, mid.value.scopes, b)
    decreases a
  {
    if a == [] {
      assert a + b == b;
    } else {
      assert (a + b)[1..] == a[1..] + b;
      var first := ExecStmt(p, w, fuel, g, s, a[0]);
      if first.Some? && first.value.flow.Normal? {
        ExecConcat(p, w, fuel, first.value.store, first.value.scopes, a[1..], b);
      }
    }
  }

  lemma {:induction false} FrameKeys(params: seq<string>, vals: seq<nat>)
    requires |params| == |vals|
    ensures Frame(params, vals).Keys == set n | n in params
  {
    if params != [] {
      FrameKeys(params[..|params| - 1], vals[..|vals| - 1]);
      assert params == params[..|params| - 1] + [params[|params| - 1]];
    }
  }

  /** A listed index builtin is a module variable of the program, found under its name. */
  lemma {:induction false} ListedBuiltins(p: Program, vs: seq<Variable>)
    requires PlainGlobals(p.globals) && forall v | v in vs :: v in p.globals
    ensures forall b | b in LocalBuiltins(vs) && !b.OtherBuiltin? ::
      Has(p.globals, b) && exists v :: v in vs && v.name == LastNamed(p.globals, b)
    ensures forall v | v in vs && IndexBuiltin(v.decorations).Some? :: IndexBuiltin(v.decorations).value in LocalBuiltins(vs)
  {
    if vs != [] {
      var init, v := vs[..|vs| - 1], vs[|vs| - 1];
      ListedBuiltins(p, init);
      assert vs == init + [v] && v in vs;
      var k :| 0 <= k < |p.globals| && p.globals[k] == v;
      FirstIsIndex(v.decorations);
      var b := FirstBuiltin(v.decorations);
      if b.Some? && !b.value.OtherBuiltin? {
        assert Has(p.globals, b.value);
        var m := LastIndex(p.globals, b.value);
        assert m == k;
      }
    }
  }

  lemma {:induction false} FirstIsIndex(ds: seq<Decoration>)
    ensures FirstBuiltin(ds).Some? && !FirstBuiltin(ds).value.OtherBuiltin? ==> IndexBuiltin(ds) == FirstBuiltin(ds)
  {
    if ds != [] && !ds[0].BuiltinDeco? {
      FirstIsIndex(ds[1..]);
    }
  }

  ghost predicate Runs(l: Labels, p: Program, w: World, fuel: nat, g: Store, frame: map<string, Binding>,
                       stmts: seq<Stmt>, consts: map<string, Binding>) {
    && Exec(Target(l, p), w, fuel, g, [frame], stmts) == Some(After(g, [frame + consts], Normal))
    && forall n | n in consts :: !Generated(l, p, n)
  }

  /** The added declarations, run in the frame of the parameters, bind the constants. */
  lemma {:induction false} InsertedRuns(l: Labels, p: Program, w: World, fuel: nat, g: Store, frame: map<string, Binding>, bs: seq<Builtin>)
    requires Sound(l, p) && p.functions != [] && Supplied(l, p, w)
    requires forall b | b in bs && !b.OtherBuiltin? :: Has(p.globals, b)
    requires forall n | n in frame :: !Generated(l, p, n)
    ensures Runs(l, p, w, fuel, g, frame, Inserted(l, p.globals, bs), Constants(p, Shifted(l, p, w), bs))
    ensures Holds(p, Shifted(l, p, w), Constants(p, Shifted(l, p, w), bs))
    decreases bs
  {
    if bs == [] {
      assert frame + map[] == frame;
    } else {
      var init, b := bs[..|bs| - 1], bs[|bs| - 1];
      assert b in bs && forall c | c in init :: c in bs;
      InsertedRuns(l, p, w, fuel, g, frame, init);
      if b.OtherBuiltin? {
        assert Inserted(l, p.globals, bs) == Inserted(l, p.globals, init);
      } else {
        TargetIndex(l, p, b);
        OneMoreRuns(l, p, w, fuel, g, frame, Inserted(l, p.globals, init), Constants(p, Shifted(l, p, w), init), b);
      }
    }
  }

  lemma OneMoreRuns(l: Labels, p: Program, w: World, fuel: nat, g: Store, frame: map<string, Binding>,
                    stmts: seq<Stmt>, consts: map<string, Binding>, b: Builtin)
    requires Sound(l, p) && p.functions != [] && Supplied(l, p, w) && Has(p.globals, b) && !b.OtherBuiltin?
    requires (forall n | n in frame :: !Generated(l, p, n)) && Runs(l, p, w, fuel, g, frame, stmts, consts)
    ensures
      var name := LastNamed(p.globals, b);
      Runs(l, p, w, fuel, g, frame, stmts + [OffsetDeclaration(l, name, Label(l, b))],
           consts[name := Binding(Provided(Shifted(l, p, w), b), true)])
  {
    var name, c := LastNamed(p.globals, b), Binding(Provided(Shifted(l, p, w), b), true);
    TargetIndex(l, p, b);
    DeclarationRuns(l, p, w, fuel, g, frame + consts, b);
    RunsThen(l, p, w, fuel, g, frame, stmts, consts, OffsetDeclaration(l, name, Label(l, b)), name, c);
  }

  lemma RunsThen(l: Labels, p: Program, w: World, fuel: nat, g: Store, frame: map<string, Binding>,
                 stmts: seq<Stmt>, consts: map<string, Binding>, st: Stmt, name: string, c: Binding)
    requires Runs(l, p, w, fuel, g, frame, stmts, consts) && !Generated(l, p, name)
    requires Exec(Target(l, p), w, fuel, g, [frame + consts], [st]) == Some(After(g, [(frame + consts)[name := c]], Normal))
    ensures Runs(l, p, w, fuel, g, frame, stmts + [st], consts[name := c])
  {
    ExecConcat(Target(l, p), w, fuel, g, [frame], stmts, [st]);
    assert frame + consts[name := c] == (frame + consts)[name := c];
  }

  lemma DeclarationRuns(l: Labels, p: Program, w: World, fuel: nat, g: Store, top: map<string, Binding>, b: Builtin)
    requires Sound(l, p) && p.functions != [] && Supplied(l, p, w) && Has(p.globals, b) && !b.OtherBuiltin?
    requires forall n | n in top :: !Generated(l, p, n)
    ensures
      var name, sw := LastNamed(p.globals, b), Shifted(l, p, w);
      Exec(Target(l, p), w, fuel, g, [top], [OffsetDeclaration(l, name, Label(l, b))]) ==
        Some(After(g, [top[name := Binding(Provided(sw, b), true)]], Normal))
  {
    var name := LastNamed(p.globals, b);
    IndexRead(l, p, w, g, top, b);
    OffsetRead(l, p, w, top, b);
    DeclareSum(Target(l, p), w, fuel, g, top, name, l.prefix + name, l.buffer, Label(l, b),
               Provided(w, b), w.words[(l.buffer, OffsetFor(p, b))]);
  }

  lemma DeclareSum(q: Program, w: World, fuel: nat, g: Store, top: map<string, Binding>,
                   name: string, left: string, base: string, field: string, a: nat, b: nat)
    requires Read(q, w, g, [top], left) == Some(a) && ReadMember(q, w, [top], base, field) == Some(b)
    ensures Exec(q, w, fuel, g, [top], [Declare(name, true, Binary(Plus, Ident(left), Member(base, field)))]) ==
      Some(After(g, [top[name := Binding(Wrap(a + b), true)]], Normal))
  {
    var st := Declare(name, true, Binary(Plus, Ident(left), Member(base, field)));
    assert Eval(q, w, fuel, g, [top], st.e) == Some(Val(Wrap(a + b), g));
    assert Bind([top], name, Binding(Wrap(a + b), true)) == [top[name := Binding(Wrap(a + b), true)]];
    assert ExecStmt(q, w, fuel, g, [top], st) == Some(After(g, [top[name := Binding(Wrap(a + b), true)]], Normal));
    assert [st][1..] == [];
  }

  lemma NotLocal(top: map<string, Binding>, n: string)
    requires n !in top
    ensures Local([top], n).None?
  {
    assert [top][..0] == [];
  }

  lemma IndexRead(l: Labels, p: Program, w: World, g: Store, top: map<string, Binding>, b: Builtin)
    requires Sound(l, p) && p.functions != [] && Has(p.globals, b) && !b.OtherBuiltin?
    requires forall n | n in top :: !Generated(l, p, n)
    ensures Read(Target(l, p), w, g, [top], l.prefix + LastNamed(p.globals, b)) == Some(Provided(w, b))
  {
    TargetIndex(l, p, b);
    NotLocal(top, l.prefix + LastNamed(p.globals, b));
  }

  lemma OffsetRead(l: Labels, p: Program, w: World, top: map<string, Binding>, b: Builtin)
    requires Sound(l, p) && p.functions != [] && Supplied(l, p, w) && Has(p.globals, b) && !b.OtherBuiltin?
    requires forall n | n in top :: !Generated(l, p, n)
    ensures ReadMember(Target(l, p), w, [top], l.buffer, Label(l, b)) == Some(w.words[(l.buffer, OffsetFor(p, b))])
  {
    TargetBuffer(l, p);
    OffsetOfLabel(l, p, b);
    assert Generated(l, p, l.buffer);
    NotLocal(top, l.buffer);
  }

  /** A transformed function starts its old body with the constants beneath the parameters. */
  lemma EntersOver(l: Labels, p: Program, w: World, fuel: nat, g: Store, f: Function, vals: seq<nat>)
    requires Ready(l, p) && Supplied(l, p, w) && f in p.functions && |f.params| == |vals|
    ensures
      var ins, s := Constants(p, Shifted(l, p, w), LocalBuiltins(f.locals)), [Frame(f.params, vals)];
      && Going(l, p, w, ins) && Covers(s, Params(f)) && Allowed(l, p, ins, Free(f.body, Params(f)))
      && Exec(Target(l, p), w, fuel, g, s, NewFunction(l, p.globals, f).body) ==
           Exec(Target(l, p), w, fuel, g, Over(ins, s), f.body)
  {
    var bs, frame := LocalBuiltins(f.locals), Frame(f.params, vals);
    FrameKeys(f.params, vals);
    ListedBuiltins(p, f.locals);
    forall n | n in frame
      ensures !Generated(l, p, n)
    {
      assert n in f.params;
    }
    InsertedRuns(l, p, w, fuel, g, frame, bs);
    ExecConcat(Target(l, p), w, fuel, g, [frame], Inserted(l, p.globals, bs), f.body);
    ConstantsBeneath(l, p, Shifted(l, p, w), f, frame);
    BodyAllowed(l, p, w, f);
  }

  /** No parameter hides a constant. */
  lemma ConstantsBeneath(l: Labels, p: Program, sw: World, f: Function, frame: map<string, Binding>)
    requires Sound(l, p) && f in p.functions && frame.Keys == Params(f)
    ensures [frame + Constants(p, sw, LocalBuiltins(f.locals))] == Over(Constants(p, sw, LocalBuiltins(f.locals)), [frame])
  {
    var ins := Constants(p, sw, LocalBuiltins(f.locals));
    forall n | n in ins
      ensures n !in frame
    {
      ConstantNotParam(p, sw, f, n);
    }
    assert frame + ins == ins + frame;
  }

  lemma ConstantNotParam(p: Program, sw: World, f: Function, n: string)
    requires PlainGlobals(p.globals) && ListsGlobals(p, f) && n in Constants(p, sw, LocalBuiltins(f.locals))
    ensures n !in f.params
  {
    var bs := LocalBuiltins(f.locals);
    ConstantsKeys(p, sw, bs);
    var b :| b in bs && !b.OtherBuiltin? && n == LastNamed(p.globals, b);
    ListedBuiltins(p, f.locals);
    var v :| v in f.locals && v.name == LastNamed(p.globals, b);
    IndexByName(p, v);
    var m := LastIndex(p.globals, b);
    FindAt(p.globals, m);
  }

  lemma {:induction false} ConstantsKeys(p: Program, sw: World, bs: seq<Builtin>)
    ensures forall n :: n in Constants(p, sw, bs) <==> exists b :: b in bs && !b.OtherBuiltin? && n == LastNamed(p.globals, b)
  {
    if bs != [] {
      ConstantsKeys(p, sw, bs[..|bs| - 1]);
      assert bs == bs[..|bs| - 1] + [bs[|bs| - 1]];
    }
  }

  lemma BodyAllowed(l: Labels, p: Program, w: World, f: Function)
    requires Ready(l, p) && Supplied(l, p, w) && f in p.functions
    ensures Allowed(l, p, Constants(p, Shifted(l, p, w), LocalBuiltins(f.locals)), Free(f.body, Params(f)))
  {
    var bs := LocalBuiltins(f.locals);
    ListedBuiltins(p, f.locals);
    ConstantsKeys(p, Shifted(l, p, w), bs);
    forall n | n in Free(f.body, Params(f)) && Index(p, n).Some?
      ensures n in Constants(p, Shifted(l, p, w), bs)
    {
      assert Covered(p, f);
      var v :| v in f.locals && v.name == n;
      IndexByName(p, v);
    }
  }

  /** A module variable is found by its name, and an index builtin also by its builtin. */
  lemma IndexByName(p: Program, v: Variable)
    requires PlainGlobals(p.globals) && v in p.globals
    ensures Find(p.globals, v.name) == Some(v)
    ensures
      var b := IndexBuiltin(v.decorations);
      b.Some? ==> !b.value.OtherBuiltin? && Has(p.globals, b.value) && LastNamed(p.globals, b.value) == v.name
  {
    var k :| 0 <= k < |p.globals| && p.globals[k] == v;
    FindAt(p.globals, k);
    IndexIsNotOther(v.decorations);
    if IndexBuiltin(v.decorations).Some? {
      var m := LastIndex(p.globals, IndexBuiltin(v.decorations).value);
      assert m == k;
    }
  }

  lemma {:induction false} IndexIsNotOther(ds: seq<Decoration>)
    ensures IndexBuiltin(ds).Some? ==> !IndexBuiltin(ds).value.OtherBuiltin?
  {
    if ds != [] {
      IndexIsNotOther(ds[1..]);
    }
  }
}
