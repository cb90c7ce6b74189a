/** The incremental lists of the determiner are closures over call paths. */
module CallClosure {
  import opened Symbols
  import opened CallGraph

  /** What is known of a function, in declaration order, once its body has been walked. */
  datatype Info = Info(symbol: Symbol, refs: seq<Variable>, locals: seq<Variable>, calls: seq<Symbol>)

  ghost predicate Edge(infos: seq<Info>, i: nat, j: nat) {
    i < |infos| && j < |infos| && infos[j].symbol in infos[i].calls
  }

  /** Every call goes to the caller itself or to a function declared earlier, and each list of
      references is the local one plus those of the direct callees, as they were at the call. */
  ghost predicate WellBuilt(infos: seq<Info>) {
    && (forall i, j | 0 <= i < j < |infos| :: infos[i].symbol != infos[j].symbol)
    && forall i | 0 <= i < |infos| :: CallsBack(infos, i) && Tidy(infos[i].refs) && Inherits(infos, i)
  }

  ghost predicate CallsBack(infos: seq<Info>, i: nat)
    requires i < |infos|
  {
    forall s | s in infos[i].calls :: exists j :: 0 <= j <= i && infos[j].symbol == s
  }

  ghost predicate Inherits(infos: seq<Info>, i: nat)
    requires i < |infos|
  {
    forall s :: s in Syms(infos[i].refs) <==>
      s in Syms(infos[i].locals) || exists j :: 0 <= j < i && Edge(infos, i, j) && s in Syms(infos[j].refs)
  }

  ghost predicate Unwalked(info: Info) {
    info.refs == [] && info.locals == [] && info.calls == []
  }

  /** The symbols of the first n functions. */
  ghost predicate NamesOf(known: set<Symbol>, infos: seq<Info>, n: nat)
    requires n <= |infos|
  {
    forall s :: s in known <==> exists i :: 0 <= i < n && infos[i].symbol == s
  }

  ghost predicate Describes(env: Env, infos: seq<Info>, k: nat)
    requires k < |infos|
  {
    && env.self == infos[k].symbol
    && NamesOf(env.program.Keys, infos, |infos|) && NamesOf(env.registered, infos, k + 1)
    && forall i | 0 <= i < |infos| :: env.program[infos[i].symbol] == infos[i].refs
  }

  function Walk(info: Info, st: State): Info {
    Info(info.symbol, st.refs, st.locals, st.calls)
  }

  /** Walking the next function keeps the earlier ones well built. */
  lemma WalkKeepsBuilt(infos: seq<Info>, k: nat, env: Env, st: State)
    requires k < |infos| && WellBuilt(infos) && (forall i | k <= i < |infos| :: Unwalked(infos[i]))
    requires Describes(env, infos, k) && Balanced(env, st) && forall f | f in st.calls :: f in env.registered
    ensures WellBuilt(infos[k := Walk(infos[k], st)])
  {
    var next := infos[k := Walk(infos[k], st)];
    forall i | 0 <= i < |next|
      ensures CallsBack(next, i) && Tidy(next[i].refs) && Inherits(next, i)
    {
      assert CallsBack(infos, i) && Inherits(infos, i);
      if i == k {
        WalkedCallsBack(infos, k, env, st);
        WalkedInherits(infos, k, env, st);
      } else {
        OthersKept(infos, k, i, Walk(infos[k], st));
      }
    }
  }

  lemma DescribedTidy(env: Env, infos: seq<Info>, k: nat)
    requires k < |infos| && WellBuilt(infos) && Describes(env, infos, k)
    ensures TidyEnv(env)
  {
    forall f | f in env.program
      ensures Tidy(env.program[f])
    {
      var i :| 0 <= i < |infos| && infos[i].symbol == f;
      assert env.program[infos[i].symbol] == infos[i].refs;
    }
  }

  lemma OthersKept(infos: seq<Info>, k: nat, i: nat, info: Info)
    requires i != k < |infos| && i < |infos| && info.symbol == infos[k].symbol
    requires CallsBack(infos, i) && Inherits(infos, i) && (i > k ==> Unwalked(infos[i]))
    ensures CallsBack(infos[k := info], i) && Inherits(infos[k := info], i)
  {
    var next := infos[k := info];
    forall s | s in next[i].calls
      ensures exists j :: 0 <= j <= i && next[j].symbol == s
    {
      var j :| 0 <= j <= i && infos[j].symbol == s;
      assert next[j].symbol == s;
    }
    assert forall j | 0 <= j < i :: Edge(next, i, j) <==> Edge(infos, i, j);
  }

  lemma WalkedCallsBack(infos: seq<Info>, k: nat, env: Env, st: State)
    requires k < |infos| && Describes(env, infos, k) && forall f | f in st.calls :: f in env.registered
    ensures CallsBack(infos[k := Walk(infos[k], st)], k)
  {
    var next := infos[k := Walk(infos[k], st)];
    forall s | s in st.calls
      ensures exists j :: 0 <= j <= k && next[j].symbol == s
    {
      var j :| 0 <= j <= k && infos[j].symbol == s;
      assert next[j].symbol == s;
    }
  }

  lemma WalkedInherits(infos: seq<Info>, k: nat, env: Env, st: State)
    requires k < |infos| && WellBuilt(infos)
    requires Describes(env, infos, k) && Balanced(env, st) && forall f | f in st.calls :: f in env.registered
    ensures Inherits(infos[k := Walk(infos[k], st)], k)
  {
    var next := infos[k := Walk(infos[k], st)];
    forall s
      ensures s in Inherited(env, st.calls) <==> exists j :: 0 <= j < k && Edge(next, k, j) && s in Syms(next[j].refs)
    {
      if s in Inherited(env, st.calls) {
        var j := InheritedFrom(infos, k, env, st.calls, s);
        assert Edge(next, k, j);
      }
      forall j | 0 <= j < k && Edge(next, k, j) && s in Syms(next[j].refs)
        ensures s in Inherited(env, st.calls)
      {
        assert infos[j].symbol in env.program && infos[j].symbol != infos[k].symbol;
      }
    }
  }

  lemma InheritedFrom(infos: seq<Info>, k: nat, env: Env, calls: seq<Symbol>, s: Symbol) returns (j: nat)
    requires k < |infos| && Describes(env, infos, k) && (forall f | f in calls :: f in env.registered)
    requires s in Inherited(env, calls)
    ensures j < k && infos[j].symbol in calls && s in Syms(infos[j].refs)
  {
    var f :| f in calls && f in env.program && f != env.self && s in Syms(env.program[f]);
    j :| 0 <= j <= k && infos[j].symbol == f;
  }

  /** A call path: functions, each calling the next. */
  ghost predicate Path(infos: seq<Info>, p: seq<nat>) {
    && |p| > 0
    && (forall k | 0 <= k < |p| :: p[k] < |infos|)
    && forall k | 0 < k < |p| :: Edge(infos, p[k - 1], p[k])
  }

  ghost predicate PathFromTo(infos: seq<Info>, p: seq<nat>, i: nat, j: nat) {
    Path(infos, p) && p[0] == i && p[|p| - 1] == j
  }

  ghost predicate Reaches(infos: seq<Info>, i: nat, j: nat) {
    exists p :: PathFromTo(infos, p, i, j)
  }

  lemma EdgeEarlier(infos: seq<Info>, i: nat, j: nat)
    requires WellBuilt(infos) && Edge(infos, i, j)
    ensures j <= i
  {
    assert CallsBack(infos, i);
    var k :| 0 <= k <= i && infos[k].symbol == infos[j].symbol;
    assert k == j;
  }

  lemma ReachesSelf(infos: seq<Info>, i: nat)
    requires i < |infos|
    ensures Reaches(infos, i, i)
  {
    assert PathFromTo(infos, [i], i, i);
  }

  lemma PathHead(infos: seq<Info>, p: seq<nat>, i: nat, j: nat)
    requires PathFromTo(infos, p, i, j) && |p| > 1
    ensures Edge(infos, i, p[1]) && PathFromTo(infos, p[1..], p[1], j)
  {
    var q := p[1..];
    assert forall k | 0 < k < |q| :: Edge(infos, q[k - 1], q[k]) by {
      forall k | 0 < k < |q|
        ensures Edge(infos, q[k - 1], q[k])
      {
        assert Edge(infos, p[(k + 1) - 1], p[k + 1]);
      }
    }
  }

  lemma PathCons(infos: seq<Info>, i: nat, q: seq<nat>, k: nat, j: nat)
    requires Edge(infos, i, k) && PathFromTo(infos, q, k, j)
    ensures PathFromTo(infos, [i] + q, i, j)
  {
    var p := [i] + q;
    forall m | 0 < m < |p|
      ensures Edge(infos, p[m - 1], p[m])
    {
      if m > 1 {
        assert Edge(infos, q[(m - 1) - 1], q[m - 1]);
      }
    }
  }

  /** Reaching is being there, or taking one call first. */
  lemma ReachesStep(infos: seq<Info>, i: nat, j: nat)
    requires i < |infos|
    ensures Reaches(infos, i, j) <==> i == j || exists k :: 0 <= k < |infos| && Edge(infos, i, k) && Reaches(infos, k, j)
  {
    ReachesSelf(infos, i);
    if Reaches(infos, i, j) && i != j {
      var p :| PathFromTo(infos, p, i, j);
      PathHead(infos, p, i, j);
      assert Reaches(infos, p[1], j);
    }
    if exists k :: 0 <= k < |infos| && Edge(infos, i, k) && Reaches(infos, k, j) {
      var k :| 0 <= k < |infos| && Edge(infos, i, k) && Reaches(infos, k, j);
      var q :| PathFromTo(infos, q, k, j);
      PathCons(infos, i, q, k, j);
    }
  }

  /** A function's references are exactly the local references of the functions it reaches by zero
      or more calls, although each list was inherited from direct callees only. */
  lemma {:induction false} ReferencesAreClosure(infos: seq<Info>, i: nat, s: Symbol)
    requires WellBuilt(infos) && i < |infos|
    ensures s in Syms(infos[i].refs) <==>
      exists j :: 0 <= j < |infos| && Reaches(infos, i, j) && s in Syms(infos[j].locals)
    decreases i
  {
    assert Inherits(infos, i);
    if s in Syms(infos[i].refs) {
      if s in Syms(infos[i].locals) {
        ReachesSelf(infos, i);
      } else {
        var k :| 0 <= k < i && Edge(infos, i, k) && s in Syms(infos[k].refs);
        ReferencesAreClosure(infos, k, s);
        var j :| 0 <= j < |infos| && Reaches(infos, k, j) && s in Syms(infos[j].locals);
        ReachesStep(infos, i, j);
      }
    }
    forall j | 0 <= j < |infos| && Reaches(infos, i, j) && s in Syms(infos[j].locals)
      ensures s in Syms(infos[i].refs)
    {
      var p :| PathFromTo(infos, p, i, j);
      PathReferences(infos, p, i, j, s);
    }
  }

  lemma {:induction false} PathReferences(infos: seq<Info>, p: seq<nat>, i: nat, j: nat, s: Symbol)
    requires WellBuilt(infos) && PathFromTo(infos, p, i, j) && s in Syms(infos[j].locals)
    ensures s in Syms(infos[i].refs)
    decreases |p|
  {
    assert Inherits(infos, i);
    if |p| > 1 {
      PathHead(infos, p, i, j);
      EdgeEarlier(infos, i, p[1]);
      PathReferences(infos, p[1..], p[1], j, s);
    }
  }

  // --- Entry points ---

  /** Nothing that i reaches by zero or more calls calls itself directly. The determiner registers a
      function before it walks its body, so it does not reject such calls. */
  ghost predicate NoLoopFrom(infos: seq<Info>, i: nat) {
    forall j | 0 <= j < |infos| && Reaches(infos, i, j) :: !Edge(infos, j, j)
  }

  /** Then every recorded call goes to a strictly earlier function, from which nothing loops either. */
  lemma CallsGoBack(infos: seq<Info>, i: nat, j: nat)
    requires WellBuilt(infos) && NoLoopFrom(infos, i) && Edge(infos, i, j)
    ensures j < i && NoLoopFrom(infos, j)
  {
    EdgeEarlier(infos, i, j);
    ReachesSelf(infos, i);
    forall k | 0 <= k < |infos| && Reaches(infos, j, k)
      ensures Reaches(infos, i, k)
    {
      ReachesStep(infos, i, k);
    }
  }

  lemma {:induction false} PathsGoBack(infos: seq<Info>, p: seq<nat>, i: nat, j: nat)
    requires WellBuilt(infos) && NoLoopFrom(infos, i) && PathFromTo(infos, p, i, j)
    ensures j <= i && (|p| > 1 ==> j < i)
    decreases |p|
  {
    if |p| > 1 {
      PathHead(infos, p, i, j);
      CallsGoBack(infos, i, p[1]);
      PathsGoBack(infos, p[1..], p[1], j);
    }
  }

  /** set_entry_points() on i returns when calls may be nested `fuel` deep. */
  ghost predicate Ends(infos: seq<Info>, i: nat, fuel: nat)
    decreases fuel
  {
    fuel > 0 && forall j | 0 <= j < |infos| && Edge(infos, i, j) :: Ends(infos, j, fuel - 1)
  }

  lemma {:induction false} EndsMore(infos: seq<Info>, i: nat, fuel: nat, more: nat)
    requires Ends(infos, i, fuel) && fuel <= more
    ensures Ends(infos, i, more)
    decreases fuel
  {
    forall j | 0 <= j < |infos| && Edge(infos, i, j)
      ensures Ends(infos, j, more - 1)
    {
      EndsMore(infos, j, fuel - 1, more - 1);
    }
  }

  lemma {:induction false} LoopNeverEnds(infos: seq<Info>, i: nat, fuel: nat)
    requires Edge(infos, i, i)
    ensures !Ends(infos, i, fuel)
    decreases fuel
  {
    if fuel > 0 {
      LoopNeverEnds(infos, i, fuel - 1);
    }
  }

  lemma {:induction false} EndsAlong(infos: seq<Info>, p: seq<nat>, i: nat, j: nat, fuel: nat) returns (left: nat)
    requires Ends(infos, i, fuel) && PathFromTo(infos, p, i, j)
    ensures Ends(infos, j, left)
    decreases |p|
  {
    left := fuel;
    if |p| > 1 {
      PathHead(infos, p, i, j);
      left := EndsAlong(infos, p[1..], p[1], j, fuel - 1);
    }
  }

  lemma {:induction false} EndsInTime(infos: seq<Info>, i: nat)
    requires WellBuilt(infos) && i < |infos| && NoLoopFrom(infos, i)
    ensures Ends(infos, i, i + 1)
  {
    forall j | 0 <= j < |infos| && Edge(infos, i, j)
      ensures Ends(infos, j, i)
    {
      CallsGoBack(infos, i, j);
      EndsInTime(infos, j);
      EndsMore(infos, j, j + 1, i);
    }
  }

  ghost predicate EndsSometime(infos: seq<Info>, i: nat) {
    exists fuel: nat :: Ends(infos, i, fuel)
  }

  /** The recursion over callees ends exactly when it reaches no function that calls itself. */
  lemma EndsExactly(infos: seq<Info>, i: nat)
    requires WellBuilt(infos) && i < |infos|
    ensures EndsSometime(infos, i) <==> NoLoopFrom(infos, i)
  {
    if NoLoopFrom(infos, i) {
      EndsInTime(infos, i);
    }
    if EndsSometime(infos, i) {
      var fuel: nat :| Ends(infos, i, fuel);
      forall j | 0 <= j < |infos| && Reaches(infos, i, j)
        ensures !Edge(infos, j, j)
      {
        var p :| PathFromTo(infos, p, i, j);
        var left := EndsAlong(infos, p, i, j, fuel);
        if Edge(infos, j, j) {
          LoopNeverEnds(infos, j, left);
        }
      }
    }
  }

  /** A call of a function that calls itself never ends. */
  lemma LoopReached(infos: seq<Info>, i: nat, j: nat)
    requires Edge(infos, i, j) && Edge(infos, j, j)
    ensures !NoLoopFrom(infos, i) && !EndsSometime(infos, i)
  {
    ReachesSelf(infos, j);
    ReachesStep(infos, i, j);
    if EndsSometime(infos, i) {
      var fuel: nat :| Ends(infos, i, fuel);
      LoopNeverEnds(infos, j, fuel - 1);
    }
  }

  /** Reaching and looping depend on the calls alone. */
  lemma SameCalls(a: seq<Info>, b: seq<Info>)
    requires |a| == |b| && forall i: nat, j: nat :: Edge(a, i, j) <==> Edge(b, i, j)
    ensures forall i: nat, j: nat :: Reaches(a, i, j) <==> Reaches(b, i, j)
    ensures forall i: nat :: NoLoopFrom(a, i) <==> NoLoopFrom(b, i)
  {
    forall p: seq<nat>
      ensures Path(a, p) <==> Path(b, p)
    {
    }
    forall i: nat, j: nat
      ensures Reaches(a, i, j) <==> Reaches(b, i, j)
    {
      if p :| PathFromTo(a, p, i, j) {
        assert PathFromTo(b, p, i, j);
      }
      if p :| PathFromTo(b, p, i, j) {
        assert PathFromTo(a, p, i, j);
      }
    }
  }

  /** A call path of at least one call. */
  ghost predicate LeadsTo(infos: seq<Info>, e: nat, j: nat) {
    exists p :: PathFromTo(infos, p, e, j) && |p| > 1
  }

  lemma CallsStep(infos: seq<Info>, e: nat, j: nat)
    requires e < |infos|
    ensures LeadsTo(infos, e, j) <==> exists k :: 0 <= k < |infos| && Edge(infos, e, k) && Reaches(infos, k, j)
  {
    if LeadsTo(infos, e, j) {
      var p :| PathFromTo(infos, p, e, j) && |p| > 1;
      PathHead(infos, p, e, j);
      assert Reaches(infos, p[1], j);
    }
    if exists k :: 0 <= k < |infos| && Edge(infos, e, k) && Reaches(infos, k, j) {
      var k :| 0 <= k < |infos| && Edge(infos, e, k) && Reaches(infos, k, j);
      var q :| PathFromTo(infos, q, k, j);
      PathCons(infos, e, q, k, j);
      assert |[e] + q| > 1;
    }
  }
}
