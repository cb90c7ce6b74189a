/** The memoised program cloner (src/clone_context.h, src/clone_context.cc). */
module Cloning {
  import opened Wrappers
  import opened Symbols
  import opened Graph
  import opened Sets
  import D = Demangler

  /** What a replacer builds instead of the default copy. A part is cloned through the context, is
      made on the spot, or names a symbol in the destination. */
  datatype Recipe = Recipe(layout: seq<Frag>, parts: seq<Part>)
  datatype Part = Null | CloneOf(node: Node?) | CloneSym(sym: Symbol) | NewSym(name: string) | Make(recipe: Recipe)

  /** What a replacer returns: an object it builds, or one that exists already. */
  datatype Answer = Built(recipe: Recipe) | Existing(node: Node)

  /** What a replacer does: it may clone and make parts that it drops again, and then it returns. None
      stands for the null it returns to decline. */
  datatype Reply = Reply(dropped: seq<Part>, answer: Option<Answer>)

  /** A function registered with ReplaceAll(). */
  type Replacer = Node -> Reply

  /** How a memo entry came about. */
  datatype Plan = Given | ByReplacer(recipe: Recipe) | ByExisting(node: Node) | Default
  {
    /** The entry is an object that was not made for it. */
    predicate Foreign() {
      Given? || ByExisting?
    }
  }

  /** The replacers before k decline n. */
  ghost predicate Decline(transforms: seq<Replacer>, n: Node, k: nat)
    requires k <= |transforms|
  {
    forall i | 0 <= i < k :: transforms[i](n).answer.None?
  }

  /** The k-th replacer is the first to answer for n, and p is what it answers. */
  ghost predicate Answers(transforms: seq<Replacer>, n: Node, k: nat, p: Plan)
    requires k < |transforms|
  {
    Decline(transforms, n, k) && transforms[k](n).answer.Some? && p == PlanOf(transforms[k](n).answer.value)
  }

  /** The plan for n is the answer of the first replacer that gives one, and the default copy if and only if
      all decline. */
  ghost predicate Chosen(transforms: seq<Replacer>, n: Node, p: Plan) {
    && (p.Default? <==> Decline(transforms, n, |transforms|))
    && (p.Default? || exists k :: 0 <= k < |transforms| && Answers(transforms, n, k, p))
  }

  function PlanOf(made: Answer): (p: Plan)
    ensures p.ByReplacer? <==> made.Built?
    ensures p.ByExisting? <==> made.Existing?
  {
    match made
    case Built(r) => ByReplacer(r)
    case Existing(m) => ByExisting(m)
  }

  function Decide(transforms: seq<Replacer>, n: Node): (p: Plan)
    ensures !p.Given?
  {
    if transforms == [] then Default
    else if transforms[0](n).answer.Some? then PlanOf(transforms[0](n).answer.value)
    else Decide(transforms[1..], n)
  }

  /** There is one such plan, and only one. */
  lemma {:induction false} DecideChosen(transforms: seq<Replacer>, n: Node)
    ensures Chosen(transforms, n, Decide(transforms, n))
    ensures forall p | Chosen(transforms, n, p) :: p == Decide(transforms, n)
  {
    var k := DecidedAt(transforms, n);
    forall p | Chosen(transforms, n, p)
      ensures p == Decide(transforms, n)
    {
      if k < |transforms| {
        var j :| 0 <= j < |transforms| && Answers(transforms, n, j, p);
        assert j == k;
      }
    }
  }

  lemma {:induction false} DecidedAt(transforms: seq<Replacer>, n: Node) returns (k: nat)
    ensures k <= |transforms| && Decline(transforms, n, k)
    ensures if k < |transforms| then Answers(transforms, n, k, Decide(transforms, n)) else Decide(transforms, n) == Default
  {
    k := 0;
    if transforms != [] && transforms[0](n).answer.None? {
      var j := DecidedAt(transforms[1..], n);
      k := j + 1;
      assert forall i | 0 < i < |transforms| :: transforms[i] == transforms[1..][i - 1];
    }
  }

  /** No replacer makes anything for n before it declines. */
  ghost predicate QuietlyDeclined(transforms: seq<Replacer>, n: Node) {
    forall f | f in transforms :: f(n).dropped == []
  }

  /** Every node a recipe clones is owned by the source and lies below `bound`; new names are in `names`. */
  ghost predicate Legal(depth: map<Node, nat>, names: set<string>, bound: nat, r: Recipe)
    decreases r
  {
    forall i | 0 <= i < |r.parts| :: LegalPart(depth, names, bound, r.parts[i])
  }

  ghost predicate LegalPart(depth: map<Node, nat>, names: set<string>, bound: nat, p: Part)
    decreases p
  {
    match p
    case CloneOf(m) => m != null ==> m in depth && depth[m] < bound
    case NewSym(x) => x in names
    case Make(q) => Legal(depth, names, bound, q)
    case _ => true
  }

  /** A replacer clones only strict descendants of the node it is called for. */
  ghost predicate LegalReplacer(depth: map<Node, nat>, names: set<string>, f: Replacer) {
    forall n | n in depth :: LegalReply(depth, names, depth[n], f(n))
  }

  ghost predicate LegalReply(depth: map<Node, nat>, names: set<string>, bound: nat, r: Reply) {
    && (forall i | 0 <= i < |r.dropped| :: LegalPart(depth, names, bound, r.dropped[i]))
    && (r.answer.Some? && r.answer.value.Built? ==> Legal(depth, names, bound, r.answer.value.recipe))
  }

  // --- What a memo entry must look like ---

  ghost predicate SymImage(names: map<Symbol, string>, syms: map<string, Symbol>, s: Symbol, s': Symbol) {
    && s' == RenamedSym(names, syms, s)
    && (NameIn(names, s) == "" || NameIn(names, s) in syms)
  }

  ghost predicate NodeImage(memo: map<Node, Node>, m: Node?, f: Field) {
    if m == null then f == Ref(null) else m in memo && f == Ref(memo[m])
  }

  ghost predicate FieldImage(memo: map<Node, Node>, names: map<Symbol, string>, syms: map<string, Symbol>, f: Field, f': Field) {
    match f
    case Ref(m) => NodeImage(memo, m, f')
    case Sym(s) => f'.Sym? && SymImage(names, syms, s, f'.sym)
  }

  /** c is the default copy of n: same class and scalars, each field the image of n's field. */
  ghost predicate Copied(memo: map<Node, Node>, names: map<Symbol, string>, syms: map<string, Symbol>, n: Node, c: Node) {
    && c.layout == n.layout
    && |c.fields| == |n.fields|
    && forall i | 0 <= i < |n.fields| :: FieldImage(memo, names, syms, n.fields[i], c.fields[i])
  }

  /** c is what recipe r builds. */
  ghost predicate Cooked(memo: map<Node, Node>, names: map<Symbol, string>, syms: map<string, Symbol>, r: Recipe, c: Node)
    decreases r
  {
    && c.layout == r.layout
    && |c.fields| == |r.parts|
    && forall i | 0 <= i < |r.parts| :: PartImage(memo, names, syms, r.parts[i], c.fields[i])
  }

  ghost predicate PartImage(memo: map<Node, Node>, names: map<Symbol, string>, syms: map<string, Symbol>, p: Part, f: Field)
    decreases p
  {
    match p
    case Null => f == Ref(null)
    case CloneOf(m) => NodeImage(memo, m, f)
    case CloneSym(s) => f.Sym? && SymImage(names, syms, s, f.sym)
    case NewSym(x) => f.Sym? && f.sym == (if x in syms then syms[x] else INVALID) && (x == "" || x in syms)
    case Make(q) => f.Ref? && f.node != null && Cooked(memo, names, syms, q, f.node)
  }

  /** What it takes to make the part has been cloned and registered. */
  ghost predicate Done(memo: map<Node, Node>, names: map<Symbol, string>, syms: map<string, Symbol>, p: Part)
    decreases p
  {
    match p
    case Null => true
    case CloneOf(m) => m != null ==> m in memo
    case CloneSym(s) => NameIn(names, s) == "" || NameIn(names, s) in syms
    case NewSym(x) => x == "" || x in syms
    case Make(q) => forall i | 0 <= i < |q.parts| :: Done(memo, names, syms, q.parts[i])
  }

  ghost predicate AllDone(memo: map<Node, Node>, names: map<Symbol, string>, syms: map<string, Symbol>, parts: seq<Part>) {
    forall i | 0 <= i < |parts| :: Done(memo, names, syms, parts[i])
  }

  lemma {:induction false} DoneGrows(memo: map<Node, Node>, memo': map<Node, Node>, names: map<Symbol, string>,
      syms: map<string, Symbol>, syms': map<string, Symbol>, p: Part)
    requires Within(memo, memo') && Within(syms, syms') && Done(memo, names, syms, p)
    ensures Done(memo', names, syms', p)
    decreases p
  {
    if p.Make? {
      forall i | 0 <= i < |p.recipe.parts|
        ensures Done(memo', names, syms', p.recipe.parts[i])
      {
        DoneGrows(memo, memo', names, syms, syms', p.recipe.parts[i]);
      }
    }
  }

  lemma AllDoneGrows(memo: map<Node, Node>, memo': map<Node, Node>, names: map<Symbol, string>,
      syms: map<string, Symbol>, syms': map<string, Symbol>, parts: seq<Part>)
    requires Within(memo, memo') && Within(syms, syms') && AllDone(memo, names, syms, parts)
    ensures AllDone(memo', names, syms', parts)
  {
    forall i | 0 <= i < |parts|
      ensures Done(memo', names, syms', parts[i])
    {
      DoneGrows(memo, memo', names, syms, syms', parts[i]);
    }
  }

  lemma {:induction false} ImageDone(memo: map<Node, Node>, names: map<Symbol, string>, syms: map<string, Symbol>, p: Part, f: Field)
    requires PartImage(memo, names, syms, p, f)
    ensures Done(memo, names, syms, p)
    decreases p
  {
    if p.Make? {
      forall i | 0 <= i < |p.recipe.parts|
        ensures Done(memo, names, syms, p.recipe.parts[i])
      {
        ImageDone(memo, names, syms, p.recipe.parts[i], f.node.fields[i]);
      }
    }
  }

  ghost predicate Entry(memo: map<Node, Node>, names: map<Symbol, string>, syms: map<string, Symbol>, p: Plan, n: Node, c: Node) {
    match p
    case Given => true
    case ByReplacer(r) => Cooked(memo, names, syms, r, c)
    case ByExisting(m) => c == m
    case Default => Copied(memo, names, syms, n, c)
  }

  ghost predicate Entries(memo: map<Node, Node>, names: map<Symbol, string>, syms: map<string, Symbol>, plan: map<Node, Plan>) {
    && plan.Keys == memo.Keys
    && forall n {:trigger Entry(memo, names, syms, plan[n], n, memo[n])} | n in memo ::
         Entry(memo, names, syms, plan[n], n, memo[n])
  }

  /** Different nodes have different copies, unless Replace() or a replacer gave them existing objects. */
  ghost predicate Distinct(memo: map<Node, Node>, plan: map<Node, Plan>)
    requires plan.Keys == memo.Keys
  {
    forall a, b | a in memo && b in memo && a != b && !plan[a].Foreign() && !plan[b].Foreign() :: memo[a] != memo[b]
  }

  /** Map extension: `b` has every binding of `a`. */
  ghost predicate Within<K, V>(a: map<K, V>, b: map<K, V>) {
    forall k :: k in a ==> k in b && b[k] == a[k]
  }

  lemma {:induction false} CookedGrows(memo: map<Node, Node>, memo': map<Node, Node>, names: map<Symbol, string>,
      syms: map<string, Symbol>, syms': map<string, Symbol>, r: Recipe, c: Node)
    requires Within(memo, memo') && Within(syms, syms') && "" !in syms'
    requires Cooked(memo, names, syms, r, c)
    ensures Cooked(memo', names, syms', r, c)
    decreases r
  {
    forall i | 0 <= i < |r.parts|
      ensures PartImage(memo', names, syms', r.parts[i], c.fields[i])
    {
      PartGrows(memo, memo', names, syms, syms', r.parts[i], c.fields[i]);
    }
  }

  lemma {:induction false} PartGrows(memo: map<Node, Node>, memo': map<Node, Node>, names: map<Symbol, string>,
      syms: map<string, Symbol>, syms': map<string, Symbol>, p: Part, f: Field)
    requires Within(memo, memo') && Within(syms, syms') && "" !in syms'
    requires PartImage(memo, names, syms, p, f)
    ensures PartImage(memo', names, syms', p, f)
    decreases p
  {
    if p.Make? {
      CookedGrows(memo, memo', names, syms, syms', p.recipe, f.node);
    }
  }

  lemma EntryGrows(memo: map<Node, Node>, memo': map<Node, Node>, names: map<Symbol, string>,
      syms: map<string, Symbol>, syms': map<string, Symbol>, p: Plan, n: Node, c: Node)
    requires Within(memo, memo') && Within(syms, syms') && "" !in syms'
    requires Entry(memo, names, syms, p, n, c)
    ensures Entry(memo', names, syms', p, n, c)
  {
    if p.ByReplacer? {
      CookedGrows(memo, memo', names, syms, syms', p.recipe, c);
    }
  }

  // --- Programs ---

  class Program {
    const symbols: SymbolTable
    const constructedTypes: seq<Node>
    const globalVariables: seq<Node>
    const functions: seq<Node>
    /** The nodes the program owns, with a depth for each. */
    ghost const depth: map<Node, nat>

    constructor (symbols: SymbolTable, types: seq<Node>, variables: seq<Node>, functions: seq<Node>, ghost depth: map<Node, nat>)
      ensures this.symbols == symbols && this.depth == depth
      ensures this.constructedTypes == types && this.globalVariables == variables && this.functions == functions
    {
      this.symbols, this.depth := symbols, depth;
      this.constructedTypes, this.globalVariables, this.functions := types, variables, functions;
    }

    ghost function Roots(): seq<Node> {
      constructedTypes + globalVariables + functions
    }

    ghost predicate Valid()
      reads symbols
    {
      && symbols.Valid()
      && Acyclic(depth)
      && forall n | n in Roots() :: n in depth
    }
  }

  class ProgramBuilder {
    const symbols: SymbolTable
    var constructedTypes: seq<Node>
    var globalVariables: seq<Node>
    var functions: seq<Node>

    constructor ()
      ensures fresh(symbols) && symbols.Valid() && symbols.nameToSymbol == map[]
      ensures constructedTypes == globalVariables == functions == []
    {
      symbols := new SymbolTable();
      constructedTypes, globalVariables, functions := [], [], [];
    }
  }

  function Indices(n: nat): (s: set<nat>)
    ensures forall i: nat :: i in s <==> i < n
  {
    if n == 0 then {} else Indices(n - 1) + {n - 1}
  }

  class CloneContext {
    const dst: ProgramBuilder
    const src: Program
    var cloned: map<Node, Node>
    var transforms: seq<Replacer>
    /** How each entry of `cloned` was made. */
    ghost var plan: map<Node, Plan>
    /** All names this context may register in `dst`: fewer than 2^31, so symbols stay ints. */
    ghost const names: set<string>

    ghost predicate Valid()
      reads this, dst.symbols, src.symbols
    {
      && dst.symbols != src.symbols
      && src.Valid() && dst.symbols.Valid()
      && (forall s :: s in src.symbols.symbolToName ==> src.symbols.symbolToName[s] in names)
      && dst.symbols.nameToSymbol.Keys <= names && |names| <= D.INT_MAX
      && (forall i | 0 <= i < |transforms| :: LegalReplacer(src.depth, names, transforms[i]))
      && plan.Keys == cloned.Keys && cloned.Keys <= src.depth.Keys
      && Entries(cloned, src.symbols.symbolToName, dst.symbols.nameToSymbol, plan)
      && Distinct(cloned, plan)
    }

    constructor (to: ProgramBuilder, from: Program, ghost names: set<string>)
      requires from.Valid() && to.symbols.Valid() && to.symbols != from.symbols
      requires forall s :: s in from.symbols.symbolToName ==> from.symbols.symbolToName[s] in names
      requires to.symbols.nameToSymbol.Keys <= names && |names| <= D.INT_MAX
      ensures Valid() && dst == to && src == from && this.names == names
      ensures cloned == map[] && plan == map[] && transforms == []
    {
      dst, src, this.names := to, from, names;
      cloned, transforms, plan := map[], [], map[];
    }

    /** Everything cloning does to the context: the memo and the symbol table only grow, entries never
        change, and new entries follow the replacers and, unless a replacer returned an existing
        object, were allocated since. */
    twostate predicate Extended()
      reads this, dst.symbols
    {
      && Within(old(cloned), cloned) && Within(old(plan), plan)
      && Within(old(dst.symbols.nameToSymbol), dst.symbols.nameToSymbol)
      && transforms == old(transforms)
      && forall n :: n in cloned && n !in old(cloned) ==>
           n in plan && plan[n] == Decide(transforms, n) && (plan[n].ByExisting? || fresh(cloned[n]))
    }

    /** Extended, and only nodes that lie below `bound` were added. */
    twostate predicate Grew(bound: nat)
      reads this, dst.symbols
    {
      && Extended()
      && forall n :: n in cloned && n !in old(cloned) ==> n in src.depth && src.depth[n] < bound
    }

    /** ReplaceAll(): appended, so consulted after the replacers registered before. */
    method ReplaceAll(replacer: Replacer)
      requires Valid() && LegalReplacer(src.depth, names, replacer)
      modifies this`transforms
      ensures Valid() && transforms == old(transforms) + [replacer]
    {
      transforms := transforms + [replacer];
    }

    /** Replace(): has no effect when `what` is already in the memo. */
    method Replace(what: Node, with: Node)
      requires Valid() && what in src.depth
      modifies this`cloned, this`plan
      ensures Valid()
      ensures what in old(cloned) ==> cloned == old(cloned) && plan == old(plan)
      ensures what !in old(cloned) ==> cloned == old(cloned)[what := with] && plan == old(plan)[what := Given]
    {
      Emplace(what, with, Given);
    }

    /** unordered_map::emplace. */
    method Emplace(a: Node, c: Node, ghost how: Plan)
      requires Valid() && a in src.depth
      requires Entry(cloned, src.symbols.symbolToName, dst.symbols.nameToSymbol, how, a, c)
      requires !how.Foreign() ==> c !in cloned.Values
      modifies this`cloned, this`plan
      ensures Valid()
      ensures a in old(cloned) ==> cloned == old(cloned) && plan == old(plan)
      ensures a !in old(cloned) ==> cloned == old(cloned)[a := c] && plan == old(plan)[a := how]
    {
      if a !in cloned {
        ghost var names, syms := src.symbols.symbolToName, dst.symbols.nameToSymbol;
        ghost var memo := cloned[a := c];
        forall n | n in memo
          ensures Entry(memo, names, syms, plan[a := how][n], n, memo[n])
        {
          EntryGrows(cloned, memo, names, syms, syms, plan[a := how][n], n, memo[n]);
        }
        cloned := cloned[a := c];
        plan := plan[a := how];
      }
    }

    /** Clone(Symbol): registers the same name in the destination. */
    method CloneSymbol(s: Symbol) returns (s': Symbol)
      requires Valid()
      modifies dst.symbols
      ensures Valid() && Grew(0)
      ensures SymImage(src.symbols.symbolToName, dst.symbols.nameToSymbol, s, s')
    {
      var name := src.symbols.NameFor(s);
      s' := Register(name);
    }

    method Register(name: string) returns (s: Symbol)
      requires Valid() && (name == "" || name in names)
      modifies dst.symbols
      ensures Valid() && Grew(0)
      ensures name == "" ==> s == INVALID
      ensures name != "" ==> name in dst.symbols.nameToSymbol && s == dst.symbols.nameToSymbol[name]
    {
      ghost var before := dst.symbols.nameToSymbol;
      dst.symbols.Count();
      SubsetSize(before.Keys, names);
      s := dst.symbols.Register(name);
      forall n | n in cloned
        ensures Entry(cloned, src.symbols.symbolToName, dst.symbols.nameToSymbol, plan[n], n, cloned[n])
      {
        EntryGrows(cloned, cloned, src.symbols.symbolToName, before, dst.symbols.nameToSymbol, plan[n], n, cloned[n]);
      }
    }

    ghost function Above(a: Node?): nat
      requires a != null ==> a in src.depth
    {
      if a == null then 0 else src.depth[a] + 1
    }

    /** Clone(T*): null for null, else the memo's entry, made now if there was none. */
    method Clone(a: Node?) returns (c: Node?)
      requires Valid() && (a != null ==> a in src.depth)
      modifies this`cloned, this`plan, dst.symbols
      ensures Valid() && Grew(Above(a))
      ensures NodeImage(cloned, a, Ref(c))
      ensures a != null && a !in old(cloned) ==> Chosen(transforms, a, plan[a])
      decreases Above(a), 3
    {
      if a == null {
        return null;
      }
      DecideChosen(transforms, a);
      c := LookupOrTransform(a);
      if c != null {
        return c;
      }
      c := CopyNode(a);
    }

    /** The first clone of a node that no replacer takes. */
    method CopyNode(a: Node) returns (c: Node)
      requires Valid() && a in src.depth && a !in cloned && Decide(transforms, a) == Default
      modifies this`cloned, this`plan, dst.symbols
      ensures Valid() && Grew(Above(a))
      ensures a in cloned && cloned[a] == c
      decreases Above(a), 2
    {
      var fields := CopyFields(a);
      c := new Node(a.layout, fields);
      Emplace(a, c, Default);
    }

    /** The memo's entry, or what the first willing replacer makes, or null. */
    method LookupOrTransform(a: Node) returns (c: Node?)
      requires Valid() && a in src.depth
      modifies this`cloned, this`plan, dst.symbols
      ensures Valid() && Grew(Above(a))
      ensures c != null ==> a in cloned && cloned[a] == c
      ensures c != null && a !in old(cloned) ==> Chosen(transforms, a, plan[a]) && !plan[a].Default?
      ensures c == null ==> a !in cloned && Decide(transforms, a) == Default && Chosen(transforms, a, Default) && Grew(src.depth[a])
      ensures c == null ==> forall j | 0 <= j < |transforms| :: Dropped(transforms[j](a).dropped)
      ensures c == null && QuietlyDeclined(transforms, a) ==>
                cloned == old(cloned) && plan == old(plan) && unchanged(dst.symbols)
      decreases Above(a), 2
    {
      DecideChosen(transforms, a);
      if a in cloned {
        return cloned[a];
      }
      var i := 0;
      while i < |transforms|
        invariant 0 <= i <= |transforms|
        invariant Valid() && Grew(src.depth[a])
        invariant Decide(transforms, a) == Decide(transforms[i..], a)
        invariant forall j | 0 <= j < i :: Dropped(transforms[j](a).dropped)
        invariant QuietlyDeclined(transforms, a) ==>
          cloned == old(cloned) && plan == old(plan) && unchanged(dst.symbols)
      {
        var reply := transforms[i](a);
        assert LegalReply(src.depth, names, src.depth[a], reply);
        MakeNext(a, i);
        if reply.answer.Some? {
          c := Apply(a, reply.answer.value);
          return c;
        }
        i := i + 1;
      }
      return null;
    }

    /** What the i-th replacer makes for a and drops. */
    method MakeNext(a: Node, i: nat)
      requires Valid() && a in src.depth && i < |transforms| && forall j | 0 <= j < i :: Dropped(transforms[j](a).dropped)
      modifies this`cloned, this`plan, dst.symbols
      ensures Valid() && Grew(src.depth[a])
      ensures forall j | 0 <= j < i + 1 :: Dropped(transforms[j](a).dropped)
      ensures transforms[i](a).dropped == [] ==> cloned == old(cloned) && plan == old(plan) && unchanged(dst.symbols)
      decreases Above(a), 0
    {
      assert LegalReply(src.depth, names, src.depth[a], transforms[i](a));
      ghost var memo, syms := cloned, dst.symbols.nameToSymbol;
      MakeAll(transforms[i](a).dropped, src.depth[a]);
      forall j | 0 <= j < i
        ensures Dropped(transforms[j](a).dropped)
      {
        AllDoneGrows(memo, cloned, src.symbols.symbolToName, syms, dst.symbols.nameToSymbol, transforms[j](a).dropped);
      }
    }

    ghost predicate Dropped(parts: seq<Part>)
      reads this`cloned, src.symbols, dst.symbols
    {
      AllDone(cloned, src.symbols.symbolToName, dst.symbols.nameToSymbol, parts)
    }

    /** What a replacer makes and drops. */
    method MakeAll(parts: seq<Part>, ghost bound: nat)
      requires Valid() && forall i | 0 <= i < |parts| :: LegalPart(src.depth, names, bound, parts[i])
      modifies this`cloned, this`plan, dst.symbols
      ensures Valid() && Grew(bound) && Dropped(parts)
      ensures parts == [] ==> cloned == old(cloned) && plan == old(plan) && unchanged(dst.symbols)
      decreases bound, 5
    {
      for k := 0 to |parts|
        invariant Valid() && Grew(bound) && Dropped(parts[..k])
        invariant parts == [] ==> cloned == old(cloned) && plan == old(plan) && unchanged(dst.symbols)
      {
        MakeOne(parts, k, bound);
      }
      assert parts[..|parts|] == parts;
    }

    method MakeOne(parts: seq<Part>, k: nat, ghost bound: nat)
      requires Valid() && k < |parts| && Dropped(parts[..k]) && LegalPart(src.depth, names, bound, parts[k])
      modifies this`cloned, this`plan, dst.symbols
      ensures Valid() && Grew(bound) && Dropped(parts[..k + 1])
      decreases bound, 4, parts
    {
      ghost var memo, syms := cloned, dst.symbols.nameToSymbol;
      var f := BuildPart(parts[k], bound);
      AllDoneGrows(memo, cloned, src.symbols.symbolToName, syms, dst.symbols.nameToSymbol, parts[..k]);
      ImageDone(cloned, src.symbols.symbolToName, dst.symbols.nameToSymbol, parts[k], f);
      assert parts[..k + 1] == parts[..k] + [parts[k]];
    }

    /** What a replacer returns enters the memo. */
    method Apply(a: Node, made: Answer) returns (c: Node)
      requires Valid() && a in src.depth && a !in cloned
      requires made.Built? ==> Legal(src.depth, names, src.depth[a], made.recipe)
      requires Decide(transforms, a) == PlanOf(made)
      modifies this`cloned, this`plan, dst.symbols
      ensures Valid() && Grew(Above(a))
      ensures a in cloned && cloned[a] == c
      decreases Above(a), 1
    {
      match made {
        case Built(r) =>
          c := Build(r, Above(a) - 1);
          Emplace(a, c, ByReplacer(r));
        case Existing(m) =>
          c := m;
          Emplace(a, m, ByExisting(m));
      }
    }

    /** Runs a replacer's recipe. The new object is not in the memo yet. */
    method Build(r: Recipe, ghost bound: nat) returns (c: Node)
      requires Valid() && Legal(src.depth, names, bound, r)
      modifies this`cloned, this`plan, dst.symbols
      ensures Valid() && Grew(bound)
      ensures fresh(c) && c !in cloned.Values
      ensures Cooked(cloned, src.symbols.symbolToName, dst.symbols.nameToSymbol, r, c)
      decreases bound, 4, r
    {
      var fields: seq<Field> := [];
      while |fields| < |r.parts|
        invariant |fields| <= |r.parts|
        invariant Valid() && Grew(bound)
        invariant forall i | 0 <= i < |fields| ::
          PartImage(cloned, src.symbols.symbolToName, dst.symbols.nameToSymbol, r.parts[i], fields[i])
      {
        label turn:
        var f := BuildPart(r.parts[|fields|], bound);
        forall i | 0 <= i < |fields|
          ensures PartImage(cloned, src.symbols.symbolToName, dst.symbols.nameToSymbol, r.parts[i], fields[i])
        {
          PartGrows(old@turn(cloned), cloned, src.symbols.symbolToName, old@turn(dst.symbols.nameToSymbol),
                    dst.symbols.nameToSymbol, r.parts[i], fields[i]);
        }
        fields := fields + [f];
      }
      c := new Node(r.layout, fields);
    }

    method BuildPart(p: Part, ghost bound: nat) returns (f: Field)
      requires Valid() && LegalPart(src.depth, names, bound, p)
      modifies this`cloned, this`plan, dst.symbols
      ensures Valid() && Grew(bound)
      ensures PartImage(cloned, src.symbols.symbolToName, dst.symbols.nameToSymbol, p, f)
      decreases bound, 4, p
    {
      match p {
        case Null => f := Ref(null);
        case CloneOf(m) =>
          var c := Clone(m);
          f := Ref(c);
        case CloneSym(s) =>
          var s' := CloneSymbol(s);
          f := Sym(s');
        case NewSym(x) =>
          var s' := Register(x);
          f := Sym(s');
        case Make(q) =>
          var c := Build(q, bound);
          f := Ref(c);
      }
    }

    /** Node::Clone() for the default copy. The order in which the arguments of a C++ call are
        evaluated is not fixed, so the fields are cloned in any order. */
    method CopyFields(a: Node) returns (fields: seq<Field>)
      requires Valid() && a in src.depth
      modifies this`cloned, this`plan, dst.symbols
      ensures Valid() && Grew(src.depth[a])
      ensures |fields| == |a.fields|
      ensures forall i | 0 <= i < |a.fields| ::
                FieldImage(cloned, src.symbols.symbolToName, dst.symbols.nameToSymbol, a.fields[i], fields[i])
      decreases Above(a), 1
    {
      var todo := Indices(|a.fields|);
      fields := a.fields;
      while todo != {}
        invariant Valid() && Grew(src.depth[a]) && |fields| == |a.fields|
        invariant forall i | 0 <= i < |a.fields| && i !in todo ::
          FieldImage(cloned, src.symbols.symbolToName, dst.symbols.nameToSymbol, a.fields[i], fields[i])
        decreases todo
      {
        var i :| i in todo;
        var f := CloneField(a.fields[i], src.depth[a]);
        fields := fields[i := f];
        todo := todo - {i};
      }
    }

    method CloneField(f: Field, ghost bound: nat) returns (f': Field)
      requires Valid() && (f.Ref? && f.node != null ==> f.node in src.depth && src.depth[f.node] < bound)
      modifies this`cloned, this`plan, dst.symbols
      ensures Valid() && Grew(bound)
      ensures FieldImage(cloned, src.symbols.symbolToName, dst.symbols.nameToSymbol, f, f')
      decreases bound, 4
    {
      match f {
        case Ref(m) =>
          var c := Clone(m);
          f' := Ref(c);
        case Sym(s) =>
          var s' := CloneSymbol(s);
          f' := Sym(s');
      }
    }

    /** One of the three loops of Clone(): the images of a list of roots, in order. */
    method CloneList(roots: seq<Node>) returns (images: seq<Node>)
      requires Valid() && Owned(roots, src.depth)
      modifies this`cloned, this`plan, dst.symbols
      ensures Valid() && Extended()
      ensures Imaged(cloned, roots, images)
    {
      images := [];
      while |images| < |roots|
        invariant |images| <= |roots|
        invariant Valid() && Extended()
        invariant Imaged(cloned, roots[..|images|], images)
      {
        label turn:
        var c := Clone(roots[|images|]);
        var image: Node := c;
        ImagedMore(old@turn(cloned), cloned, roots, images, image);
        images := images + [image];
      }
      assert roots[..|images|] == roots;
    }

    /** Clone(): the whole program, list by list. */
    method CloneProgram() returns (ghost types: seq<Node>, ghost variables: seq<Node>, ghost functions: seq<Node>)
      requires Valid()
      modifies this`cloned, this`plan, dst, dst.symbols
      ensures Valid() && Extended()
      ensures dst.constructedTypes == old(dst.constructedTypes) + types && Imaged(cloned, src.constructedTypes, types)
      ensures dst.globalVariables == old(dst.globalVariables) + variables && Imaged(cloned, src.globalVariables, variables)
      ensures dst.functions == old(dst.functions) + functions && Imaged(cloned, src.functions, functions)
    {
      RootsOwned(src);
      var ts := CloneList(src.constructedTypes);
      dst.constructedTypes := dst.constructedTypes + ts;
      var vs := CloneList(src.globalVariables);
      dst.globalVariables := dst.globalVariables + vs;
      var fs := CloneList(src.functions);
      dst.functions := dst.functions + fs;
      types, variables, functions := ts, vs, fs;
    }
  }

  ghost predicate Owned(roots: seq<Node>, depth: map<Node, nat>) {
    forall i | 0 <= i < |roots| :: roots[i] in depth
  }

  ghost predicate Imaged(memo: map<Node, Node>, roots: seq<Node>, images: seq<Node>) {
    |images| == |roots| && forall i | 0 <= i < |roots| :: roots[i] in memo && images[i] == memo[roots[i]]
  }

  lemma ImagedMore(memo: map<Node, Node>, memo': map<Node, Node>, roots: seq<Node>, images: seq<Node>, image: Node)
    requires |images| < |roots| && Imaged(memo, roots[..|images|], images) && Within(memo, memo')
    requires roots[|images|] in memo' && image == memo'[roots[|images|]]
    ensures Imaged(memo', roots[..|images| + 1], images + [image])
  {
  }

  lemma RootsOwned(p: Program)
    requires p.Valid()
    ensures Owned(p.constructedTypes, p.depth) && Owned(p.globalVariables, p.depth) && Owned(p.functions, p.depth)
  {
    assert forall n | n in p.constructedTypes + p.globalVariables + p.functions :: n in p.depth;
  }
}
