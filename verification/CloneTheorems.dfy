/** What a clone is: an isomorphic, disjoint copy that prints like its source. */
module CloneTheorems {
  import opened Wrappers
  import opened Symbols
  import opened Graph
  import opened Sets
  import opened Cloning
  import D = Demangler

  ghost predicate AllDefault(memo: map<Node, Node>, plan: map<Node, Plan>) {
    forall n | n in memo :: n in plan && plan[n] == Default
  }

  /** Without replacements the copy of a node unfolds to the node's own tree, symbols renamed. */
  lemma {:induction false} CopyUnfolds(memo: map<Node, Node>, names: map<Symbol, string>, syms: map<string, Symbol>,
      plan: map<Node, Plan>, n: Node, t: Tree)
    requires Entries(memo, names, syms, plan) && AllDefault(memo, plan)
    requires n in memo && Represents(n, t)
    ensures Represents(memo[n], Renamed(names, syms, t)) && Known(names, syms, t)
    decreases t
  {
    assert Entry(memo, names, syms, plan[n], n, memo[n]);
    forall i | 0 <= i < |t.items|
      ensures Shows(memo[n].fields[i], Renamed(names, syms, t).items[i])
      ensures match t.items[i]
              case Absent => true
              case Leaf(s) => NameIn(names, s) == "" || NameIn(names, s) in syms
              case Child(u) => Known(names, syms, u)
    {
      assert Shows(n.fields[i], t.items[i]);
      assert FieldImage(memo, names, syms, n.fields[i], memo[n].fields[i]);
      if t.items[i].Child? {
        CopyUnfolds(memo, names, syms, plan, n.fields[i].node, t.items[i].tree);
      }
    }
  }

  /** What a source node stands for in the destination: the object given for it, what the
      first willing replacer builds or returns, or its own fields, with every descendant standing for its own meaning. */
  ghost predicate Means(memo: map<Node, Node>, names: map<Symbol, string>, syms: map<string, Symbol>,
      plan: map<Node, Plan>, n: Node, u: Tree)
    requires plan.Keys == memo.Keys
    decreases u, 1
  {
    n in memo &&
    match plan[n]
    case Given => Represents(memo[n], u)
    case ByReplacer(r) => RecipeMeans(memo, names, syms, plan, r, u)
    case ByExisting(m) => Represents(m, u)
    case Default =>
      && u.layout == n.layout
      && |u.items| == |n.fields|
      && forall i | 0 <= i < |u.items| :: FieldMeans(memo, names, syms, plan, n.fields[i], u.items[i])
  }

  ghost predicate FieldMeans(memo: map<Node, Node>, names: map<Symbol, string>, syms: map<string, Symbol>,
      plan: map<Node, Plan>, f: Field, item: Item)
    requires plan.Keys == memo.Keys
    decreases item, 2
  {
    match f
    case Ref(m) => if m == null then item == Absent else item.Child? && Means(memo, names, syms, plan, m, item.tree)
    case Sym(s) => item == Leaf(RenamedSym(names, syms, s))
  }

  ghost predicate RecipeMeans(memo: map<Node, Node>, names: map<Symbol, string>, syms: map<string, Symbol>,
      plan: map<Node, Plan>, r: Recipe, u: Tree)
    requires plan.Keys == memo.Keys
    decreases u, 0
  {
    && u.layout == r.layout
    && |u.items| == |r.parts|
    && forall i | 0 <= i < |u.items| :: PartMeans(memo, names, syms, plan, r.parts[i], u.items[i])
  }

  ghost predicate PartMeans(memo: map<Node, Node>, names: map<Symbol, string>, syms: map<string, Symbol>,
      plan: map<Node, Plan>, p: Part, item: Item)
    requires plan.Keys == memo.Keys
    decreases item, 3
  {
    match p
    case Null => item == Absent
    case CloneOf(m) => FieldMeans(memo, names, syms, plan, Ref(m), item)
    case CloneSym(s) => item == Leaf(RenamedSym(names, syms, s))
    case NewSym(x) => item == Leaf(if x in syms then syms[x] else INVALID)
    case Make(q) => item.Child? && RecipeMeans(memo, names, syms, plan, q, item.tree)
  }

  /** With any replacements, the memo's object for a node unfolds to exactly what the node means. */
  lemma {:induction false} CloneMeans(memo: map<Node, Node>, names: map<Symbol, string>, syms: map<string, Symbol>,
      plan: map<Node, Plan>, n: Node, u: Tree)
    requires Entries(memo, names, syms, plan) && n in memo
    ensures Means(memo, names, syms, plan, n, u) <==> Represents(memo[n], u)
    decreases u, 1
  {
    assert Entry(memo, names, syms, plan[n], n, memo[n]);
    match plan[n] {
      case Given =>
      case ByReplacer(r) => CookedMeans(memo, names, syms, plan, r, memo[n], u);
      case ByExisting(_) =>
      case Default =>
        if |u.items| == |n.fields| {
          forall i | 0 <= i < |u.items|
            ensures FieldMeans(memo, names, syms, plan, n.fields[i], u.items[i]) <==> Shows(memo[n].fields[i], u.items[i])
          {
            assert FieldImage(memo, names, syms, n.fields[i], memo[n].fields[i]);
            if n.fields[i].Ref? {
              NodeMeans(memo, names, syms, plan, n.fields[i].node, memo[n].fields[i], u.items[i]);
            }
          }
        }
    }
  }

  lemma {:induction false} NodeMeans(memo: map<Node, Node>, names: map<Symbol, string>, syms: map<string, Symbol>,
      plan: map<Node, Plan>, m: Node?, f: Field, item: Item)
    requires Entries(memo, names, syms, plan) && NodeImage(memo, m, f)
    ensures FieldMeans(memo, names, syms, plan, Ref(m), item) <==> Shows(f, item)
    decreases item, 2
  {
    if m != null && item.Child? {
      CloneMeans(memo, names, syms, plan, m, item.tree);
    }
  }

  lemma {:induction false} CookedMeans(memo: map<Node, Node>, names: map<Symbol, string>, syms: map<string, Symbol>,
      plan: map<Node, Plan>, r: Recipe, c: Node, u: Tree)
    requires Entries(memo, names, syms, plan) && Cooked(memo, names, syms, r, c)
    ensures RecipeMeans(memo, names, syms, plan, r, u) <==> Represents(c, u)
    decreases u, 0
  {
    if |u.items| == |r.parts| {
      forall i | 0 <= i < |u.items|
        ensures PartMeans(memo, names, syms, plan, r.parts[i], u.items[i]) <==> Shows(c.fields[i], u.items[i])
      {
        assert PartImage(memo, names, syms, r.parts[i], c.fields[i]);
        match r.parts[i] {
          case CloneOf(m) => NodeMeans(memo, names, syms, plan, m, c.fields[i], u.items[i]);
          case Make(q) =>
            if u.items[i].Child? {
              CookedMeans(memo, names, syms, plan, q, c.fields[i].node, u.items[i].tree);
            }
          case _ =>
        }
      }
    }
  }

  /** Sharing is kept: two fields refer to one node exactly when their copies refer to one copy. */
  lemma SharingKept(memo: map<Node, Node>, names: map<Symbol, string>, syms: map<string, Symbol>, plan: map<Node, Plan>,
      a: Node, i: nat, b: Node, j: nat)
    requires Entries(memo, names, syms, plan) && AllDefault(memo, plan) && Distinct(memo, plan)
    requires a in memo && b in memo && i < |a.fields| && j < |b.fields|
    requires a.fields[i].Ref? && b.fields[j].Ref?
    ensures |memo[a].fields| == |a.fields| && |memo[b].fields| == |b.fields|
    ensures a.fields[i] == b.fields[j] <==> memo[a].fields[i] == memo[b].fields[j]
  {
    assert Entry(memo, names, syms, plan[a], a, memo[a]) && Entry(memo, names, syms, plan[b], b, memo[b]);
    assert FieldImage(memo, names, syms, a.fields[i], memo[a].fields[i]);
    assert FieldImage(memo, names, syms, b.fields[j], memo[b].fields[j]);
  }

  lemma ImagesUnfold(memo: map<Node, Node>, names: map<Symbol, string>, syms: map<string, Symbol>,
      plan: map<Node, Plan>, roots: seq<Node>, images: seq<Node>, ts: seq<Tree>)
    requires Entries(memo, names, syms, plan) && AllDefault(memo, plan)
    requires Imaged(memo, roots, images) && RepresentAll(roots, ts)
    ensures RepresentAll(images, RenamedAll(names, syms, ts))
    ensures forall i | 0 <= i < |ts| :: Known(names, syms, ts[i])
  {
    forall i | 0 <= i < |ts|
      ensures Represents(images[i], Renamed(names, syms, ts[i])) && Known(names, syms, ts[i])
    {
      CopyUnfolds(memo, names, syms, plan, roots[i], ts[i]);
    }
  }

  /** The text a list of roots prints as, demangled with the given table. */
  ghost function Demangled(names: map<Symbol, string>, ts: seq<Tree>): D.Outcome {
    D.Demangled(names, D.Mangled(PrintAll(ts)))
  }

  /** What the program's printer must respect: the text around symbols holds no marker, every shown
      symbol is registered and fits an int. */
  ghost predicate Printable(names: map<Symbol, string>, ts: seq<Tree>) {
    D.IntSymbols(PrintAll(ts)) && D.Clean("", D.Resolve(names, PrintAll(ts)))
  }

  /** Whatever tree list the source unfolds to, the copies unfold to it with other symbol numbers,
      and the demangled texts are the same: the source's print with the original names. */
  ghost predicate PrintsAlike(names: map<Symbol, string>, syms: map<string, Symbol>, names': map<Symbol, string>,
      srcRoots: seq<Node>, roots: seq<Node>)
  {
    forall ts | RepresentAll(srcRoots, ts) ::
      && RepresentAll(roots, RenamedAll(names, syms, ts))
      && (Printable(names, ts) ==>
            Demangled(names', RenamedAll(names, syms, ts)) == Demangled(names, ts)
              == Ok(D.Plain(D.Resolve(names, PrintAll(ts)))))
  }

  lemma CopiesPrintAlike(memo: map<Node, Node>, names: map<Symbol, string>, syms: map<string, Symbol>,
      plan: map<Node, Plan>, names': map<Symbol, string>, srcRoots: seq<Node>, roots: seq<Node>)
    requires Entries(memo, names, syms, plan) && AllDefault(memo, plan) && Imaged(memo, srcRoots, roots)
    requires forall n :: n in syms ==> syms[n] <= D.INT_MAX && syms[n] in names' && names'[syms[n]] == n
    ensures PrintsAlike(names, syms, names', srcRoots, roots)
  {
    forall ts | RepresentAll(srcRoots, ts)
      ensures RepresentAll(roots, RenamedAll(names, syms, ts))
      ensures Printable(names, ts) ==>
                Demangled(names', RenamedAll(names, syms, ts)) == Demangled(names, ts)
                  == Ok(D.Plain(D.Resolve(names, PrintAll(ts))))
    {
      ImagesUnfold(memo, names, syms, plan, srcRoots, roots, ts);
      if Printable(names, ts) {
        SamePrint(names, syms, names', ts);
      }
    }
  }

  lemma AllCopied(memo: map<Node, Node>, names: map<Symbol, string>, syms: map<string, Symbol>, plan: map<Node, Plan>)
    requires Entries(memo, names, syms, plan) && AllDefault(memo, plan)
    ensures forall n | n in memo :: Copied(memo, names, syms, n, memo[n])
  {
    forall n | n in memo
      ensures Copied(memo, names, syms, n, memo[n])
    {
      assert Entry(memo, names, syms, plan[n], n, memo[n]);
    }
  }

  lemma SmallSymbols(ctx: CloneContext)
    requires ctx.Valid()
    ensures
      var syms := ctx.dst.symbols.nameToSymbol;
      var names := ctx.dst.symbols.symbolToName;
      forall n :: n in syms ==> syms[n] <= D.INT_MAX && syms[n] in names && names[syms[n]] == n
  {
    ctx.dst.symbols.Count();
    SubsetSize(ctx.dst.symbols.nameToSymbol.Keys, ctx.names);
  }

  lemma RootsImaged(memo: map<Node, Node>, src: Program, types: seq<Node>, variables: seq<Node>, functions: seq<Node>,
      out: ProgramBuilder)
    requires Imaged(memo, src.constructedTypes, types) && out.constructedTypes == [] + types
    requires Imaged(memo, src.globalVariables, variables) && out.globalVariables == [] + variables
    requires Imaged(memo, src.functions, functions) && out.functions == [] + functions
    ensures Imaged(memo, src.Roots(), out.constructedTypes + out.globalVariables + out.functions)
  {
  }

  /** The roots unfold to one list of trees, and to no other. */
  ghost predicate UnfoldToOne(roots: seq<Node>) {
    && (exists ts :: RepresentAll(roots, ts))
    && forall ts, us | RepresentAll(roots, ts) && RepresentAll(roots, us) :: ts == us
  }

  lemma RootsUnfold(src: Program)
    requires src.Valid()
    ensures UnfoldToOne(src.Roots())
  {
    var roots := src.Roots();
    var ts := seq(|roots|, i requires 0 <= i < |roots| => (assert roots[i] in roots; Unfold(src.depth, roots[i])));
    assert RepresentAll(roots, ts);
    forall us, vs | RepresentAll(roots, us) && RepresentAll(roots, vs)
      ensures us == vs
    {
      forall i | 0 <= i < |roots|
        ensures us[i] == vs[i]
      {
        UnfoldsOnce(roots[i], us[i], vs[i]);
      }
    }
  }

  /** Program::CloneAsBuilder(). `memo` is the context's map at the end. The source unfolds to exactly one
      list of trees, and the clone prints like it once each is demangled with its own table, whatever
      numbers the symbols have; no object of the source occurs among the copies, and different nodes
      have different copies. */
  method CloneAsBuilder(src: Program) returns (out: ProgramBuilder, ghost roots: seq<Node>, ghost memo: map<Node, Node>)
    requires src.Valid() && src.symbols.nextSymbol - 1 <= D.INT_MAX
    ensures fresh(out) && out.symbols.Valid()
    ensures roots == out.constructedTypes + out.globalVariables + out.functions && Imaged(memo, src.Roots(), roots)
    ensures forall n | n in memo :: fresh(memo[n]) && Copied(memo, src.symbols.symbolToName, out.symbols.nameToSymbol, n, memo[n])
    ensures forall a, b | a in memo && b in memo && a != b :: memo[a] != memo[b]
    ensures UnfoldToOne(src.Roots())
    ensures PrintsAlike(src.symbols.symbolToName, out.symbols.nameToSymbol, out.symbols.symbolToName, src.Roots(), roots)
  {
    RootsUnfold(src);
    out := new ProgramBuilder();
    src.symbols.Count();
    var ctx := new CloneContext(out, src, src.symbols.nameToSymbol.Keys);
    ghost var types, variables, functions := ctx.CloneProgram();
    memo := ctx.cloned;
    roots := out.constructedTypes + out.globalVariables + out.functions;
    RootsImaged(memo, src, types, variables, functions, out);
    ghost var names, syms := src.symbols.symbolToName, out.symbols.nameToSymbol;
    AllCopied(memo, names, syms, ctx.plan);
    SmallSymbols(ctx);
    CopiesPrintAlike(memo, names, syms, ctx.plan, out.symbols.symbolToName, src.Roots(), roots);
  }
}
