/** Program graphs: immutable nodes, the trees they unfold to, and their printed form.
    One node class stands for every AST node and type class: `fields` are the members its Clone()
    passes through the context, `layout` is its class with its scalar members, as it prints. */
module Graph {
  import opened Wrappers
  import opened Symbols
  import D = Demangler

  datatype Field = Ref(node: Node?) | Sym(sym: Symbol)

  /** A printed node is fixed text with fields shown in any order, any number of times. */
  datatype Frag = Lit(text: string) | Show(field: nat)

  class Node {
    const layout: seq<Frag>
    const fields: seq<Field>

    constructor (layout: seq<Frag>, fields: seq<Field>)
      ensures this.layout == layout && this.fields == fields
    {
      this.layout, this.fields := layout, fields;
    }
  }

  /** The finite tree a node unfolds to when sharing is forgotten. */
  datatype Tree = Tree(layout: seq<Frag>, items: seq<Item>)
  datatype Item = Absent | Child(tree: Tree) | Leaf(sym: Symbol)

  ghost predicate Represents(n: Node, t: Tree)
    decreases t
  {
    && n.layout == t.layout
    && |n.fields| == |t.items|
    && forall i | 0 <= i < |t.items| :: Shows(n.fields[i], t.items[i])
  }

  ghost predicate Shows(f: Field, item: Item)
    decreases item
  {
    match item
    case Absent => f == Ref(null)
    case Child(t) => f.Ref? && f.node != null && Represents(f.node, t)
    case Leaf(s) => f == Sym(s)
  }

  /** The nodes of a program with a depth for each: children are owned too and lie strictly deeper
      down, so no node is its own descendant. */
  ghost predicate Acyclic(depth: map<Node, nat>) {
    forall n, i | n in depth && 0 <= i < |n.fields| && n.fields[i].Ref? && n.fields[i].node != null ::
      n.fields[i].node in depth && depth[n.fields[i].node] < depth[n]
  }

  /** In an acyclic program every node unfolds to a tree. */
  ghost function Unfold(depth: map<Node, nat>, n: Node): (t: Tree)
    requires Acyclic(depth) && n in depth
    ensures Represents(n, t)
    decreases depth[n]
  {
    Tree(n.layout, seq(|n.fields|, i requires 0 <= i < |n.fields| =>
      match n.fields[i]
      case Sym(s) => Leaf(s)
      case Ref(m) => if m == null then Absent else Child(Unfold(depth, m))))
  }

  // --- Printing ---

  function Print(t: Tree): seq<D.Piece<Symbol>>
    decreases t, |t.layout| + 1
  {
    PrintFrom(t, 0)
  }

  function PrintFrom(t: Tree, k: nat): seq<D.Piece<Symbol>>
    requires k <= |t.layout|
    decreases t, |t.layout| - k
  {
    if k == |t.layout| then [] else PrintFrag(t, k) + PrintFrom(t, k + 1)
  }

  function PrintFrag(t: Tree, k: nat): seq<D.Piece<Symbol>>
    requires k < |t.layout|
    decreases t, 0
  {
    match t.layout[k]
    case Lit(text) => [D.Text(text)]
    case Show(i) =>
      if |t.items| <= i then []
      else match t.items[i]
        case Absent => []
        case Leaf(s) => [D.Mention(s)]
        case Child(u) => Print(u)
  }

  function PrintAll(ts: seq<Tree>): seq<D.Piece<Symbol>> {
    if ts == [] then [] else Print(ts[0]) + PrintAll(ts[1..])
  }

  // --- Renaming symbols ---

  /** The symbol of another table that has the same name, or the invalid symbol if nameless. */
  function RenamedSym(names: map<Symbol, string>, syms: map<string, Symbol>, s: Symbol): Symbol {
    if NameIn(names, s) in syms then syms[NameIn(names, s)] else INVALID
  }

  function Renamed(names: map<Symbol, string>, syms: map<string, Symbol>, t: Tree): (u: Tree)
    ensures u.layout == t.layout && |u.items| == |t.items|
    decreases t
  {
    Tree(t.layout, seq(|t.items|, i requires 0 <= i < |t.items| =>
      match t.items[i]
      case Absent => Absent
      case Leaf(s) => Leaf(RenamedSym(names, syms, s))
      case Child(u) => Child(Renamed(names, syms, u))))
  }

  function RenamedPieces(names: map<Symbol, string>, syms: map<string, Symbol>, ps: seq<D.Piece<Symbol>>)
    : (r: seq<D.Piece<Symbol>>)
    ensures |r| == |ps|
    ensures forall i | 0 <= i < |ps| ::
              r[i] == match ps[i] case Text(t) => D.Text(t) case Mention(s) => D.Mention(RenamedSym(names, syms, s))
  {
    seq(|ps|, i requires 0 <= i < |ps| =>
      match ps[i] case Text(t) => D.Text(t) case Mention(s) => D.Mention(RenamedSym(names, syms, s)))
  }

  /** Printing a renamed tree is renaming the printed pieces. */
  lemma {:induction false} PrintRenamed(names: map<Symbol, string>, syms: map<string, Symbol>, t: Tree)
    ensures Print(Renamed(names, syms, t)) == RenamedPieces(names, syms, Print(t))
    decreases t, |t.layout| + 1
  {
    PrintFromRenamed(names, syms, t, 0);
  }

  lemma {:induction false} PrintFromRenamed(names: map<Symbol, string>, syms: map<string, Symbol>, t: Tree, k: nat)
    requires k <= |t.layout|
    ensures PrintFrom(Renamed(names, syms, t), k) == RenamedPieces(names, syms, PrintFrom(t, k))
    decreases t, |t.layout| - k
  {
    if k < |t.layout| {
      var u := Renamed(names, syms, t);
      PrintFromRenamed(names, syms, t, k + 1);
      assert PrintFrag(u, k) == RenamedPieces(names, syms, PrintFrag(t, k)) by {
        if t.layout[k].Show? && t.layout[k].field < |t.items| && t.items[t.layout[k].field].Child? {
          PrintRenamed(names, syms, t.items[t.layout[k].field].tree);
        }
      }
      RenamedConcat(names, syms, PrintFrag(t, k), PrintFrom(t, k + 1));
    }
  }

  lemma RenamedConcat(names: map<Symbol, string>, syms: map<string, Symbol>, a: seq<D.Piece<Symbol>>, b: seq<D.Piece<Symbol>>)
    ensures RenamedPieces(names, syms, a + b) == RenamedPieces(names, syms, a) + RenamedPieces(names, syms, b)
  {
  }

  lemma {:induction false} PrintAllRenamed(names: map<Symbol, string>, syms: map<string, Symbol>, ts: seq<Tree>, us: seq<Tree>)
    requires |us| == |ts| && forall i | 0 <= i < |ts| :: us[i] == Renamed(names, syms, ts[i])
    ensures PrintAll(us) == RenamedPieces(names, syms, PrintAll(ts))
  {
    if ts != [] {
      PrintRenamed(names, syms, ts[0]);
      PrintAllRenamed(names, syms, ts[1..], us[1..]);
      RenamedConcat(names, syms, Print(ts[0]), PrintAll(ts[1..]));
    }
  }

  /** Renaming into a table that knows every name leaves the named print unchanged. */
  lemma {:induction false} ResolveRenamed(
      names: map<Symbol, string>, syms: map<string, Symbol>, names': map<Symbol, string>, ps: seq<D.Piece<Symbol>>)
    requires forall n :: n in syms ==> syms[n] in names' && names'[syms[n]] == n
    requires forall i | 0 <= i < |ps| && ps[i].Mention? :: NameIn(names, ps[i].sym) in syms
    ensures D.Resolve(names', RenamedPieces(names, syms, ps)) == D.Resolve(names, ps)
  {
    if ps != [] {
      ResolveRenamed(names, syms, names', ps[1..]);
      assert RenamedPieces(names, syms, ps)[1..] == RenamedPieces(names, syms, ps[1..]);
    }
  }

  // --- Facts about a list of roots ---

  ghost predicate RepresentAll(ns: seq<Node>, ts: seq<Tree>) {
    |ns| == |ts| && forall i | 0 <= i < |ns| :: Represents(ns[i], ts[i])
  }

  function RenamedAll(names: map<Symbol, string>, syms: map<string, Symbol>, ts: seq<Tree>): (us: seq<Tree>)
    ensures |us| == |ts| && forall i | 0 <= i < |ts| :: us[i] == Renamed(names, syms, ts[i])
  {
    seq(|ts|, i requires 0 <= i < |ts| => Renamed(names, syms, ts[i]))
  }

  /** A node unfolds to one tree only. */
  lemma {:induction false} UnfoldsOnce(n: Node, t: Tree, u: Tree)
    requires Represents(n, t) && Represents(n, u)
    ensures t == u
    decreases t
  {
    forall i | 0 <= i < |t.items|
      ensures t.items[i] == u.items[i]
    {
      assert Shows(n.fields[i], t.items[i]) && Shows(n.fields[i], u.items[i]);
      if t.items[i].Child? {
        UnfoldsOnce(n.fields[i].node, t.items[i].tree, u.items[i].tree);
      }
    }
  }

  /** Every symbol shown by the tree that has a name at all has its name in `syms`. */
  ghost predicate Known(names: map<Symbol, string>, syms: map<string, Symbol>, t: Tree)
    decreases t
  {
    forall i | 0 <= i < |t.items| ::
      match t.items[i]
      case Absent => true
      case Leaf(s) => NameIn(names, s) == "" || NameIn(names, s) in syms
      case Child(u) => Known(names, syms, u)
  }

  ghost predicate KnownPieces(names: map<Symbol, string>, syms: map<string, Symbol>, ps: seq<D.Piece<Symbol>>) {
    forall i | 0 <= i < |ps| && ps[i].Mention? :: NameIn(names, ps[i].sym) == "" || NameIn(names, ps[i].sym) in syms
  }

  lemma {:induction false} KnownPrint(names: map<Symbol, string>, syms: map<string, Symbol>, t: Tree, k: nat)
    requires Known(names, syms, t) && k <= |t.layout|
    ensures KnownPieces(names, syms, PrintFrom(t, k))
    decreases t, |t.layout| - k
  {
    if k < |t.layout| {
      KnownPrint(names, syms, t, k + 1);
      assert KnownPieces(names, syms, PrintFrag(t, k)) by {
        if t.layout[k].Show? && t.layout[k].field < |t.items| {
          var item := t.items[t.layout[k].field];
          if item.Child? {
            KnownPrint(names, syms, item.tree, 0);
          }
        }
      }
    }
  }

  lemma {:induction false} KnownPrintAll(names: map<Symbol, string>, syms: map<string, Symbol>, ts: seq<Tree>)
    requires forall i | 0 <= i < |ts| :: Known(names, syms, ts[i])
    ensures KnownPieces(names, syms, PrintAll(ts))
  {
    if ts != [] {
      KnownPrint(names, syms, ts[0], 0);
      KnownPrintAll(names, syms, ts[1..]);
    }
  }

  /** Printing before and after renaming into another table reads the same once demangled. */
  lemma SamePrint(names: map<Symbol, string>, syms: map<string, Symbol>, names': map<Symbol, string>, ts: seq<Tree>)
    requires forall n :: n in syms ==> syms[n] <= D.INT_MAX && syms[n] in names' && names'[syms[n]] == n
    requires forall i | 0 <= i < |ts| :: Known(names, syms, ts[i])
    requires D.IntSymbols(PrintAll(ts)) && D.Clean("", D.Resolve(names, PrintAll(ts)))
    ensures D.Demangled(names', D.Mangled(PrintAll(RenamedAll(names, syms, ts))))
         == D.Demangled(names, D.Mangled(PrintAll(ts)))
         == Ok(D.Plain(D.Resolve(names, PrintAll(ts))))
  {
    var ps := PrintAll(ts);
    var qs := PrintAll(RenamedAll(names, syms, ts));
    PrintAllRenamed(names, syms, ts, RenamedAll(names, syms, ts));
    KnownPrintAll(names, syms, ts);
    D.CleanMentions(names, "", ps);
    ResolveRenamed(names, syms, names', ps);
    D.DemangleInverse(names, "", ps);
    D.DemangleInverse(names', "", qs);
    D.Regroup(D.Mangled(ps), "", "");
    D.Regroup(D.Mangled(qs), "", "");
    D.Regroup(D.Plain(D.Resolve(names, ps)), "", "");
  }
}
