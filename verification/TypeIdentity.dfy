/** When a type's printed name determines the type. */
module TypeIdentity {
  import opened Wrappers
  import opened Symbols
  import opened Types
  import opened TypeNames

  /** The members of a struct are those its symbol stands for. */
  predicate Consistent(structs: map<Symbol, seq<Member>>, t: Type) {
    match t
    case Struct(sym, members) => sym in structs && structs[sym] == members
    case Array(elem, _, _) => Consistent(structs, elem)
    case Vector(elem, _) => Consistent(structs, elem)
    case Matrix(elem, _, _) => Consistent(structs, elem)
    case Alias(_, sub) => Consistent(structs, sub)
    case Access(_, sub) => Consistent(structs, sub)
    case Pointer(sub, _) => Consistent(structs, sub)
    case _ => true
  }

  // --- A type as its heads and its arrays ---

  /** An array's size, 0 for a runtime array, and its stride. */
  datatype Extent = Extent(size: nat, stride: Option<nat>)

  predicate Bare(x: Extent) {
    x.size == 0 && x.stride.None?
  }

  function Tokens(x: Extent): seq<Token> {
    (if x.size == 0 then [] else [SizeTok(x.size)]) + (if x.stride.None? then [] else [StrideTok(x.stride.value)])
  }

  function Heads(t: Type): seq<Token> {
    [Head(t)] + match Sub(t) case None => [] case Some(u) => Heads(u)
  }

  /** The arrays of a type, from the innermost to the outermost. */
  function Extents(t: Type): seq<Extent> {
    match Sub(t)
    case None => []
    case Some(u) => Extents(u) + Own(t)
  }

  function Flat(xs: seq<Extent>): seq<Token> {
    if xs == [] then [] else Tokens(xs[0]) + Flat(xs[1..])
  }

  lemma {:induction false} FlatConcat(a: seq<Extent>, b: seq<Extent>)
    ensures Flat(a + b) == Flat(a) + Flat(b)
  {
    if a == [] {
      assert a + b == b;
    } else {
      assert (a + b)[1..] == a[1..] + b;
      FlatConcat(a[1..], b);
    }
  }

  lemma FlatOne(x: Extent)
    ensures Flat([x]) == Tokens(x)
  {
    assert [x][1..] == [];
  }

  function Own(t: Type): seq<Extent> {
    if t.Array? then [Extent(t.size, t.stride)] else []
  }

  lemma SuffixFlat(t: Type)
    ensures Suffix(t) == Flat(Own(t))
  {
    if t.Array? {
      FlatOne(Extent(t.size, t.stride));
    }
  }

  /** A word is the heads and then what all the arrays leave. */
  lemma {:induction false} WordIsHeadsAndExtents(t: Type)
    ensures Word(t) == Heads(t) + Flat(Extents(t))
  {
    if Sub(t).Some? {
      var u := Sub(t).value;
      WordIsHeadsAndExtents(u);
      SuffixFlat(t);
      FlatConcat(Extents(u), Own(t));
      Regroup(Head(t), Heads(u), Flat(Extents(u)), Suffix(t));
    }
  }

  lemma Regroup(h: Token, a: seq<Token>, b: seq<Token>, c: seq<Token>)
    ensures [h] + (a + b + c) == [h] + a + (b + c)
  {
  }

  predicate IsSuffix(k: Token) {
    k.SizeTok? || k.StrideTok?
  }

  lemma {:induction false} FlatSuffixes(xs: seq<Extent>)
    ensures forall k | k in Flat(xs) :: IsSuffix(k)
  {
    if xs != [] {
      FlatSuffixes(xs[1..]);
    }
  }

  lemma {:induction false} HeadsNotSuffixes(t: Type)
    ensures forall k | k in Heads(t) :: !IsSuffix(k)
  {
    if Sub(t).Some? {
      HeadsNotSuffixes(Sub(t).value);
    }
  }

  lemma {:induction false} SplitAtSuffix(h: seq<Token>, f: seq<Token>, h': seq<Token>, f': seq<Token>)
    requires h + f == h' + f'
    requires (forall k | k in h :: !IsSuffix(k)) && (forall k | k in h' :: !IsSuffix(k))
    requires (forall k | k in f :: IsSuffix(k)) && (forall k | k in f' :: IsSuffix(k))
    ensures h == h' && f == f'
  {
    assert h != [] ==> (h + f)[0] == h[0] && (h + f)[1..] == h[1..] + f;
    assert h' != [] ==> (h' + f')[0] == h'[0] && (h' + f')[1..] == h'[1..] + f';
    assert h == [] ==> h + f == f;
    assert h' == [] ==> h' + f' == f';
    assert h != [] ==> h[0] in h;
    assert h' != [] ==> h'[0] in h';
    assert f != [] ==> f[0] in f;
    assert f' != [] ==> f'[0] in f';
    if h != [] && h' != [] {
      SplitAtSuffix(h[1..], f, h'[1..], f');
      assert h == [h[0]] + h[1..] && h' == [h'[0]] + h'[1..];
    }
  }

  /** Two types have the same name exactly when they have the same heads and their arrays leave the
      same tokens; then they have as many arrays. */
  lemma SameNameParts(a: Type, b: Type)
    ensures TypeName(a) == TypeName(b) <==> Heads(a) == Heads(b) && Flat(Extents(a)) == Flat(Extents(b))
    ensures Heads(a) == Heads(b) ==> |Extents(a)| == |Extents(b)|
  {
    SameNameSameWord(a, b);
    WordIsHeadsAndExtents(a);
    WordIsHeadsAndExtents(b);
    if Word(a) == Word(b) {
      HeadsNotSuffixes(a);
      HeadsNotSuffixes(b);
      FlatSuffixes(Extents(a));
      FlatSuffixes(Extents(b));
      SplitAtSuffix(Heads(a), Flat(Extents(a)), Heads(b), Flat(Extents(b)));
    }
    if Heads(a) == Heads(b) {
      SameHeads(a, b);
    }
  }

  lemma {:induction false} SameHeads(a: Type, b: Type)
    requires Heads(a) == Heads(b)
    ensures |Extents(a)| == |Extents(b)|
  {
    SameHeadsSub(a, b);
    if Sub(a).Some? {
      SameHeads(Sub(a).value, Sub(b).value);
    }
  }

  lemma SameHeadsSub(a: Type, b: Type)
    requires Heads(a) == Heads(b)
    ensures Head(a) == Head(b) && Sub(a).Some? == Sub(b).Some? && a.Array? == b.Array?
    ensures Sub(a).Some? ==> Heads(Sub(a).value) == Heads(Sub(b).value)
  {
    assert Heads(a)[0] == Heads(b)[0];
    assert Heads(a)[1..] == Heads(b)[1..];
  }

  /** Heads and arrays make up a type. */
  lemma {:induction false} PartsDetermine(structs: map<Symbol, seq<Member>>, a: Type, b: Type)
    requires Consistent(structs, a) && Consistent(structs, b) && Heads(a) == Heads(b) && Extents(a) == Extents(b)
    ensures a == b
  {
    SameHeadsSub(a, b);
    if Sub(a).Some? {
      var u, v := Sub(a).value, Sub(b).value;
      SameHeads(u, v);
      assert Extents(a)[..|Extents(u)|] == Extents(u) && Extents(b)[..|Extents(v)|] == Extents(v);
      PartsDetermine(structs, u, v);
      if a.Array? {
        assert Extents(a)[|Extents(u)|] == Extents(b)[|Extents(v)|];
      }
    }
  }

  /** The type with other arrays in the same places. */
  function WithExtents(t: Type, xs: seq<Extent>): (u: Type)
    requires |xs| == |Extents(t)|
    decreases t
  {
    match t
    case Array(elem, _, _) =>
      var own := xs[|xs| - 1];
      Array(WithExtents(elem, xs[..|xs| - 1]), own.size, own.stride)
    case Vector(elem, size) => Vector(WithExtents(elem, xs), size)
    case Matrix(elem, rows, columns) => Matrix(WithExtents(elem, xs), rows, columns)
    case Alias(sym, sub) => Alias(sym, WithExtents(sub, xs))
    case Access(access, sub) => Access(access, WithExtents(sub, xs))
    case Pointer(sub, storage) => Pointer(WithExtents(sub, xs), storage)
    case _ => t
  }

  lemma {:induction false} WithExtentsHas(structs: map<Symbol, seq<Member>>, t: Type, xs: seq<Extent>)
    requires |xs| == |Extents(t)| && Consistent(structs, t)
    ensures Heads(WithExtents(t, xs)) == Heads(t) && Extents(WithExtents(t, xs)) == xs
    ensures Consistent(structs, WithExtents(t, xs))
    decreases t
  {
    if Sub(t).Some? {
      WithExtentsHas(structs, Sub(t).value, if t.Array? then xs[..|xs| - 1] else xs);
    }
  }

  // --- Reading the arrays back ---

  /** Either no array has a size or a stride, or every one has, and no size without a stride stands
      right before, which is right inside, a stride without a size. */
  predicate Readable(xs: seq<Extent>) {
    || (forall i | 0 <= i < |xs| :: Bare(xs[i]))
    || ((forall i | 0 <= i < |xs| :: !Bare(xs[i])) &&
        forall i | 0 < i < |xs| :: !(xs[i - 1].stride.None? && xs[i].size == 0))
  }

  predicate Pair(w: seq<Token>) {
    |w| > 1 && w[0].SizeTok? && w[1].StrideTok?
  }

  /** The fewest arrays that leave these tokens. */
  function Fewest(w: seq<Token>): seq<Extent> {
    if w == [] then []
    else if Pair(w) then [Extent(w[0].size, Some(w[1].stride))] + Fewest(w[2..])
    else if w[0].StrideTok? then [Extent(0, Some(w[0].stride))] + Fewest(w[1..])
    else [Extent(if w[0].SizeTok? then w[0].size else 0, None)] + Fewest(w[1..])
  }

  /** No arrays are fewer, and only one list of arrays is as short. */
  lemma {:induction false} FewestIsLeast(xs: seq<Extent>)
    ensures |xs| >= |Fewest(Flat(xs))|
    ensures |xs| == |Fewest(Flat(xs))| ==> xs == Fewest(Flat(xs))
  {
    if xs != [] {
      var rest := Flat(xs[1..]);
      FewestIsLeast(xs[1..]);
      FewestStep(xs[0], rest);
      assert xs == [xs[0]] + xs[1..];
    }
  }

  /** One more array in front: it is bare, or it is cut off, or its size is drawn to a stride behind. */
  lemma FewestStep(x: Extent, rest: seq<Token>)
    ensures Bare(x) ==> Tokens(x) + rest == rest
    ensures !Bare(x) && !(x.stride.None? && rest != [] && rest[0].StrideTok?) ==> Fewest(Tokens(x) + rest) == [x] + Fewest(rest)
    ensures !Bare(x) && x.stride.None? && rest != [] && rest[0].StrideTok? ==> |Fewest(Tokens(x) + rest)| == |Fewest(rest)|
  {
    var w := Tokens(x) + rest;
    if x.size != 0 && x.stride.Some? {
      assert w[0] == SizeTok(x.size) && w[1] == StrideTok(x.stride.value) && w[2..] == rest;
    } else if !Bare(x) {
      assert w[0] == Tokens(x)[0] && w[1..] == rest;
      if x.stride.None? && rest != [] {
        assert w[1] == rest[0];
        assert w[2..] == rest[1..];
      }
    }
  }

  /** Readable arrays, unless all bare, are as few as their tokens allow. */
  lemma {:induction false} ReadableIsFewest(xs: seq<Extent>)
    requires (forall i | 0 <= i < |xs| :: !Bare(xs[i]))
    requires forall i | 0 < i < |xs| :: !(xs[i - 1].stride.None? && xs[i].size == 0)
    ensures Fewest(Flat(xs)) == xs
  {
    if xs != [] {
      var rest := Flat(xs[1..]);
      assert forall i | 0 < i < |xs[1..]| :: xs[1..][i - 1] == xs[i] && xs[1..][i] == xs[i + 1];
      ReadableIsFewest(xs[1..]);
      FewestStep(xs[0], rest);
      if |xs| > 1 {
        assert rest[0] == Tokens(xs[1])[0];
      }
    }
  }

  lemma {:induction false} BareFlat(xs: seq<Extent>)
    ensures Flat(xs) == [] <==> forall i | 0 <= i < |xs| :: Bare(xs[i])
  {
    if xs != [] {
      BareFlat(xs[1..]);
      if forall i | 0 <= i < |xs[1..]| :: Bare(xs[1..][i]) {
        assert forall i | 1 <= i < |xs| :: xs[i] == xs[1..][i - 1];
      } else {
        var i :| 0 <= i < |xs[1..]| && !Bare(xs[1..][i]);
        assert xs[i + 1] == xs[1..][i];
      }
    }
  }

  lemma ReadableUnique(xs: seq<Extent>, ys: seq<Extent>)
    requires Readable(xs) && |ys| == |xs| && Flat(ys) == Flat(xs)
    ensures ys == xs
  {
    if forall i | 0 <= i < |xs| :: Bare(xs[i]) {
      BareFlat(xs);
      BareFlat(ys);
    } else {
      ReadableIsFewest(xs);
      FewestIsLeast(ys);
    }
  }

  /** Replacing two neighbours by two that leave the same tokens. */
  lemma FlatSwap(xs: seq<Extent>, k: nat, a: Extent, b: Extent)
    requires k + 1 < |xs| && Tokens(a) + Tokens(b) == Tokens(xs[k]) + Tokens(xs[k + 1])
    ensures Flat(xs[k := a][k + 1 := b]) == Flat(xs)
  {
    var ys := xs[k := a][k + 1 := b];
    FlatThree(xs, k);
    FlatThree(ys, k);
    assert ys[..k] == xs[..k] && ys[k + 2..] == xs[k + 2..];
  }

  lemma FlatThree(xs: seq<Extent>, k: nat)
    requires k + 1 < |xs|
    ensures Flat(xs) == Flat(xs[..k]) + (Tokens(xs[k]) + Tokens(xs[k + 1])) + Flat(xs[k + 2..])
  {
    var front, two, back := xs[..k], [xs[k], xs[k + 1]], xs[k + 2..];
    Cut(xs, k);
    FlatConcat(front + two, back);
    FlatConcat(front, two);
    FlatTwo(xs[k], xs[k + 1]);
  }

  lemma Cut(xs: seq<Extent>, k: nat)
    requires k + 1 < |xs|
    ensures xs == xs[..k] + [xs[k], xs[k + 1]] + xs[k + 2..]
  {
  }

  lemma FlatTwo(a: Extent, b: Extent)
    ensures Flat([a, b]) == Tokens(a) + Tokens(b)
  {
    assert [a, b][1..] == [b];
    FlatOne(b);
  }

  /** Between a bare array and another there is a place where the two kinds meet. */
  lemma {:induction false} KindsMeet(xs: seq<Extent>, i: nat, j: nat) returns (k: nat)
    requires i < |xs| && j < |xs| && Bare(xs[i]) && !Bare(xs[j])
    ensures k + 1 < |xs| && Bare(xs[k]) != Bare(xs[k + 1])
    decreases if i < j then j - i else i - j
  {
    var m := if i < j then j - 1 else j + 1;
    if Bare(xs[m]) {
      k := if i < j then m else j;
    } else {
      k := KindsMeet(xs, i, m);
    }
  }

  /** Arrays that are not readable have a double. */
  lemma UnreadableDouble(xs: seq<Extent>) returns (ys: seq<Extent>)
    requires !Readable(xs)
    ensures |ys| == |xs| && ys != xs && Flat(ys) == Flat(xs)
  {
    var j :| 0 <= j < |xs| && !Bare(xs[j]);
    if i :| 0 <= i < |xs| && Bare(xs[i]) {
      var k := KindsMeet(xs, i, j);
      ys := xs[k := xs[k + 1]][k + 1 := xs[k]];
      FlatSwap(xs, k, xs[k + 1], xs[k]);
      assert ys[k] != xs[k];
    } else {
      var k :| 0 < k < |xs| && xs[k - 1].stride.None? && xs[k].size == 0;
      var both := Extent(xs[k - 1].size, xs[k].stride);
      ys := xs[k - 1 := both][k := Extent(0, None)];
      FlatSwap(xs, k - 1, both, Extent(0, None));
      assert ys[k] != xs[k];
    }
  }

  // --- When the name determines the type ---

  /** A type's name can be read back. */
  predicate Unambiguous(t: Type) {
    Readable(Extents(t))
  }

  /** Among types whose structs are determined by their symbols, no other type has the name of t
      exactly when t is unambiguous. */
  lemma NameDeterminesType(structs: map<Symbol, seq<Member>>, t: Type)
    requires Consistent(structs, t)
    ensures (forall u | Consistent(structs, u) && TypeName(u) == TypeName(t) :: u == t) <==> Unambiguous(t)
  {
    if Unambiguous(t) {
      forall u | Consistent(structs, u) && TypeName(u) == TypeName(t)
        ensures u == t
      {
        UnambiguousNamesDiffer(structs, t, u);
      }
    } else {
      var u := AmbiguousDouble(structs, t);
    }
  }

  lemma UnambiguousNamesDiffer(structs: map<Symbol, seq<Member>>, a: Type, b: Type)
    requires Consistent(structs, a) && Consistent(structs, b) && Unambiguous(a)
    ensures TypeName(a) == TypeName(b) <==> a == b
  {
    if TypeName(a) == TypeName(b) {
      SameNameParts(a, b);
      ReadableUnique(Extents(a), Extents(b));
      PartsDetermine(structs, a, b);
    }
  }

  /** Another type of the same form with the same name. */
  lemma AmbiguousDouble(structs: map<Symbol, seq<Member>>, t: Type) returns (u: Type)
    requires Consistent(structs, t) && !Unambiguous(t)
    ensures Consistent(structs, u) && u != t && TypeName(u) == TypeName(t) && Heads(u) == Heads(t)
  {
    var xs := UnreadableDouble(Extents(t));
    u := WithExtents(t, xs);
    WithExtentsHas(structs, t, xs);
    SameNameParts(u, t);
  }

  // --- Among types with runtime arrays outermost only ---

  /** Only the outermost array may be a runtime array, as in types that a program can declare. */
  predicate OuterRuntime(xs: seq<Extent>) {
    forall i | 0 <= i < |xs| - 1 :: xs[i].size > 0
  }

  /** A runtime array stands around another array, and exactly one of the two has a stride. */
  predicate Movable(xs: seq<Extent>) {
    var n := |xs|;
    n > 1 && xs[n - 1].size == 0 && xs[n - 1].stride.Some? != xs[n - 2].stride.Some?
  }

  /** The stride moved to the other one of the two outermost arrays. */
  function Moved(xs: seq<Extent>): (ys: seq<Extent>)
    requires Movable(xs)
    ensures |ys| == |xs|
  {
    var n := |xs|;
    xs[n - 2 := Extent(xs[n - 2].size, xs[n - 1].stride)][n - 1 := Extent(0, xs[n - 2].stride)]
  }

  lemma MovedDouble(xs: seq<Extent>)
    requires OuterRuntime(xs) && Movable(xs)
    ensures OuterRuntime(Moved(xs)) && Moved(xs) != xs && Flat(Moved(xs)) == Flat(xs)
  {
    var n := |xs|;
    var a, b := Extent(xs[n - 2].size, xs[n - 1].stride), Extent(0, xs[n - 2].stride);
    assert Tokens(a) + Tokens(b) == Tokens(xs[n - 2]) + Tokens(xs[n - 1]);
    FlatSwap(xs, n - 2, a, b);
    assert Moved(xs)[n - 1] == b && b != xs[n - 1];
  }

  /** Such arrays can be read in no third way. */
  lemma {:induction false} MovedOnly(xs: seq<Extent>, ys: seq<Extent>)
    requires OuterRuntime(xs) && OuterRuntime(ys) && |ys| == |xs| && Flat(ys) == Flat(xs)
    ensures ys == xs || (Movable(xs) && ys == Moved(xs))
  {
    if |xs| == 1 {
      FlatOne(xs[0]);
      FlatOne(ys[0]);
      OneRead(xs[0], ys[0]);
    } else if |xs| == 2 {
      FlatTwo(xs[0], xs[1]);
      FlatTwo(ys[0], ys[1]);
      assert xs == [xs[0], xs[1]] && ys == [ys[0], ys[1]];
      TwoRead(xs[0], xs[1], ys[0], ys[1]);
    } else if |xs| > 2 {
      FirstRead(xs, ys);
      MovedOnly(xs[1..], ys[1..]);
      assert xs == [xs[0]] + xs[1..] && ys == [ys[0]] + ys[1..];
    }
  }

  lemma OneRead(x: Extent, y: Extent)
    requires Tokens(x) == Tokens(y)
    ensures x == y
  {
    assert Tokens(x) != [] ==> Tokens(x)[0] == Tokens(y)[0];
    assert |Tokens(x)| == 2 ==> Tokens(x)[1] == Tokens(y)[1];
  }

  lemma TwoRead(a: Extent, b: Extent, c: Extent, d: Extent)
    requires a.size > 0 && c.size > 0 && Tokens(a) + Tokens(b) == Tokens(c) + Tokens(d)
    ensures (a == c && b == d) ||
      (b.size == 0 == d.size && a.size == c.size && a.stride == d.stride && b.stride == c.stride && a.stride.Some? != b.stride.Some?)
  {
    var w, v := Tokens(a) + Tokens(b), Tokens(c) + Tokens(d);
    assert w[0] == SizeTok(a.size) && v[0] == SizeTok(c.size);
    assert forall i | 0 <= i < |w| :: w[i] == v[i];
    if a.stride.Some? == c.stride.Some? {
      assert a.stride.Some? ==> w[1] == StrideTok(a.stride.value) && v[1] == StrideTok(c.stride.value);
      assert w[|Tokens(a)|..] == Tokens(b) && v[|Tokens(a)|..] == Tokens(d);
      OneRead(b, d);
    } else if a.stride.Some? {
      StrideOnly(a, b, c, d);
    } else {
      StrideOnly(c, d, a, b);
    }
  }

  lemma StrideOnly(a: Extent, b: Extent, c: Extent, d: Extent)
    requires a.size > 0 && c.size > 0 && Tokens(a) + Tokens(b) == Tokens(c) + Tokens(d)
    requires a.stride.Some? && c.stride.None?
    ensures b == Extent(0, None) && d == Extent(0, a.stride) && a.size == c.size
  {
    var w, v := Tokens(a) + Tokens(b), Tokens(c) + Tokens(d);
    assert w[0] == SizeTok(a.size) && v[0] == SizeTok(c.size);
    assert w[1] == StrideTok(a.stride.value);
    assert v[1..] == Tokens(d) && w[2..] == Tokens(b);
    assert Tokens(d)[0] == w[1];
  }

  /** An array with another sized one around it is read back. */
  lemma FirstRead(xs: seq<Extent>, ys: seq<Extent>)
    requires |ys| == |xs| > 2 && Flat(ys) == Flat(xs) && OuterRuntime(xs) && OuterRuntime(ys)
    ensures xs[0] == ys[0] && Flat(xs[1..]) == Flat(ys[1..])
  {
    assert xs[0].size > 0 && ys[0].size > 0 && xs[1].size > 0 && ys[1].size > 0;
    FirstOf(xs);
    FirstOf(ys);
    assert Flat(xs[1..]) == Flat(xs)[|Tokens(xs[0])|..] && Flat(ys[1..]) == Flat(ys)[|Tokens(ys[0])|..];
  }

  lemma FirstOf(xs: seq<Extent>)
    requires |xs| > 1 && xs[0].size > 0 && xs[1].size > 0
    ensures |Flat(xs)| > 1 && Flat(xs)[0] == SizeTok(xs[0].size)
    ensures Flat(xs)[1] == if xs[0].stride.Some? then StrideTok(xs[0].stride.value) else SizeTok(xs[1].size)
  {
    assert Flat(xs) == Tokens(xs[0]) + Flat(xs[1..]);
    assert Flat(xs[1..]) == Tokens(xs[1]) + Flat(xs[1..][1..]);
    assert Flat(xs[1..])[0] == SizeTok(xs[1].size);
  }

  /** Among such types no other one has the name of t exactly when its outermost array is not a runtime
      array around another array, exactly one of the two having a stride. */
  lemma OuterNameDeterminesType(structs: map<Symbol, seq<Member>>, t: Type)
    requires Consistent(structs, t) && OuterRuntime(Extents(t))
    ensures
      (forall u | Consistent(structs, u) && OuterRuntime(Extents(u)) && TypeName(u) == TypeName(t) :: u == t) <==>
      !Movable(Extents(t))
  {
    if Movable(Extents(t)) {
      var u := MovedType(structs, t);
    } else {
      forall u | Consistent(structs, u) && OuterRuntime(Extents(u)) && TypeName(u) == TypeName(t)
        ensures u == t
      {
        SameNameParts(t, u);
        MovedOnly(Extents(t), Extents(u));
        PartsDetermine(structs, t, u);
      }
    }
  }

  /** Otherwise there is exactly one other. */
  lemma MovedType(structs: map<Symbol, seq<Member>>, t: Type) returns (u: Type)
    requires Consistent(structs, t) && OuterRuntime(Extents(t)) && Movable(Extents(t))
    ensures Consistent(structs, u) && OuterRuntime(Extents(u)) && u != t && TypeName(u) == TypeName(t)
    ensures forall v | Consistent(structs, v) && OuterRuntime(Extents(v)) && TypeName(v) == TypeName(t) :: v == t || v == u
  {
    var xs := Extents(t);
    MovedDouble(xs);
    u := WithExtents(t, Moved(xs));
    WithExtentsHas(structs, t, Moved(xs));
    SameNameParts(u, t);
    forall v | Consistent(structs, v) && OuterRuntime(Extents(v)) && TypeName(v) == TypeName(t)
      ensures v == t || v == u
    {
      SameNameParts(t, v);
      MovedOnly(xs, Extents(v));
      if Extents(v) == xs {
        PartsDetermine(structs, t, v);
      } else {
        PartsDetermine(structs, u, v);
      }
    }
  }

  /** Every array carries a stride. */
  predicate Strided(t: Type) {
    match Sub(t)
    case None => true
    case Some(u) => (t.Array? ==> t.stride.Some?) && Strided(u)
  }

  lemma {:induction false} StridedUnambiguous(t: Type)
    requires Strided(t)
    ensures Unambiguous(t) && forall i | 0 <= i < |Extents(t)| :: Extents(t)[i].stride.Some?
  {
    if Sub(t).Some? {
      StridedUnambiguous(Sub(t).value);
    }
  }

  /** Every array has a size and no stride, as in the types of function and private variables. */
  predicate Sized(t: Type) {
    match Sub(t)
    case None => true
    case Some(u) => (t.Array? ==> t.size > 0 && t.stride.None?) && Sized(u)
  }

  lemma {:induction false} SizedUnambiguous(t: Type)
    requires Sized(t)
    ensures Unambiguous(t) && forall i | 0 <= i < |Extents(t)| :: Extents(t)[i].size > 0
  {
    if Sub(t).Some? {
      SizedUnambiguous(Sub(t).value);
    }
  }

  /** The double of an unstrided runtime array around a strided one: an array of n strided elements
      that are unstrided runtime arrays has the same name. */
  lemma MixedStridesCollide(n: nat, stride: nat)
    requires n > 0
    ensures
      var inner := Array(Array(F32, 0, None), n, Some(stride));
      var outer := Array(Array(F32, n, Some(stride)), 0, None);
      inner != outer && TypeName(inner) == TypeName(outer) && !Unambiguous(inner) && !Unambiguous(outer)
  {
    var inner := Array(Array(F32, 0, None), n, Some(stride));
    var outer := Array(Array(F32, n, Some(stride)), 0, None);
    assert Extents(F32) == [];
    assert Extents(inner) == [Extent(0, None), Extent(n, Some(stride))];
    assert Extents(outer) == [Extent(n, Some(stride)), Extent(0, None)];
    assert Bare(Extents(inner)[0]) && !Bare(Extents(inner)[1]) && Bare(Extents(outer)[1]) && !Bare(Extents(outer)[0]);
    FlatSwap(Extents(inner), 0, Extent(n, Some(stride)), Extent(0, None));
    assert Heads(F32) == [F32Tok];
    assert Heads(inner.elem) == Heads(outer.elem);
    SameNameParts(inner, outer);
  }
}
