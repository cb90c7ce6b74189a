/** Printed type names (the type_name() members of src/type), read back by a lexer. */
module TypeNames {
  import opened Wrappers
  import opened Symbols
  import opened Types
  import Decimal

  function StorageText(sc: StorageClass): string {
    match sc
    case NoClass => "none" case Input => "in" case Output => "out" case Uniform => "uniform"
    case Workgroup => "workgroup" case UniformConstant => "uniform_constant" case Storage => "storage"
    case Image => "image" case Private => "private" case FunctionClass => "function"
  }

  function AccessText(a: AccessControl): string {
    match a case ReadOnly => "read_only" case WriteOnly => "write_only" case ReadWrite => "read_write"
  }

  function TypeName(t: Type): string {
    match t
    case Void => "__void" case Bool => "__bool" case I32 => "__i32" case U32 => "__u32" case F32 => "__f32"
    case Sampler(comparison) => if comparison then "__sampler_comparison" else "__sampler_sampler"
    case Vector(elem, size) => "__vec_" + Decimal.ToString(size) + TypeName(elem)
    case Matrix(elem, rows, columns) =>
      "__mat_" + Decimal.ToString(rows) + "_" + Decimal.ToString(columns) + TypeName(elem)
    case Array(elem, size, stride) =>
      "__array" + TypeName(elem)
      + (if size == 0 then "" else "_" + Decimal.ToString(size))
      + (if stride.None? then "" else "_stride_" + Decimal.ToString(stride.value))
    case Struct(sym, _) => "__struct_" + ToStr(sym)
    case Alias(sym, sub) => "__alias_" + ToStr(sym) + TypeName(sub)
    case Access(access, sub) => "__access_control_" + AccessText(access) + TypeName(sub)
    case Pointer(sub, storage) => "__ptr_" + StorageText(storage) + TypeName(sub)
  }

  // --- A name as a word of tokens ---

  datatype Token =
    | ArrayTok | VectorTok(size: nat) | MatrixTok(rows: nat, columns: nat)
    | AliasTok(sym: Symbol) | AccessTok(access: AccessControl) | PointerTok(storage: StorageClass)
    | VoidTok | BoolTok | I32Tok | U32Tok | F32Tok | SamplerTok(comparison: bool) | StructTok(sym: Symbol)
    | SizeTok(size: nat) | StrideTok(stride: nat)

  function Text(k: Token): string {
    match k
    case ArrayTok => "__array"
    case VectorTok(n) => "__vec_" + Decimal.ToString(n)
    case MatrixTok(r, c) => "__mat_" + Decimal.ToString(r) + "_" + Decimal.ToString(c)
    case AliasTok(s) => "__alias_" + ToStr(s)
    case AccessTok(a) => "__access_control_" + AccessText(a)
    case PointerTok(sc) => "__ptr_" + StorageText(sc)
    case VoidTok => "__void" case BoolTok => "__bool" case I32Tok => "__i32" case U32Tok => "__u32" case F32Tok => "__f32"
    case SamplerTok(comparison) => if comparison then "__sampler_comparison" else "__sampler_sampler"
    case StructTok(s) => "__struct_" + ToStr(s)
    case SizeTok(n) => "_" + Decimal.ToString(n)
    case StrideTok(n) => "_stride_" + Decimal.ToString(n)
  }

  function Concat(ss: seq<string>): string {
    if ss == [] then "" else ss[0] + Concat(ss[1..])
  }

  function Texts(w: seq<Token>): (ss: seq<string>)
    ensures |ss| == |w|
  {
    seq(|w|, i requires 0 <= i < |w| => Text(w[i]))
  }

  function Render(w: seq<Token>): string {
    Concat(Texts(w))
  }

  // --- The word of a type ---

  /** The token a name starts with. */
  function Head(t: Type): Token {
    match t
    case Void => VoidTok case Bool => BoolTok case I32 => I32Tok case U32 => U32Tok case F32 => F32Tok
    case Sampler(comparison) => SamplerTok(comparison)
    case Struct(sym, _) => StructTok(sym)
    case Vector(_, size) => VectorTok(size)
    case Matrix(_, rows, columns) => MatrixTok(rows, columns)
    case Array(_, _, _) => ArrayTok
    case Alias(sym, _) => AliasTok(sym)
    case Access(access, _) => AccessTok(access)
    case Pointer(_, storage) => PointerTok(storage)
  }

  /** The type a name goes on with. */
  function Sub(t: Type): (s: Option<Type>)
    ensures s.Some? ==> s.value < t
  {
    match t
    case Vector(elem, _) => Some(elem)
    case Matrix(elem, _, _) => Some(elem)
    case Array(elem, _, _) => Some(elem)
    case Alias(_, sub) => Some(sub)
    case Access(_, sub) => Some(sub)
    case Pointer(sub, _) => Some(sub)
    case _ => None
  }

  /** The tokens a name ends with: an array's size and stride. */
  function Suffix(t: Type): seq<Token> {
    if !t.Array? then []
    else if t.size == 0 then if t.stride.None? then [] else [StrideTok(t.stride.value)]
    else if t.stride.None? then [SizeTok(t.size)]
    else [SizeTok(t.size), StrideTok(t.stride.value)]
  }

  /** The tokens of a type's name. Array sizes and strides stand after the element, so nested
      arrays leave all of theirs at the end. */
  function Word(t: Type): seq<Token> {
    match Sub(t)
    case None => [Head(t)]
    case Some(u) => [Head(t)] + (Word(u) + Suffix(t))
  }

  lemma {:induction false} ConcatSplit(a: seq<string>, b: seq<string>)
    ensures Concat(a + b) == Concat(a) + Concat(b)
  {
    if a == [] {
      assert a + b == b;
    } else {
      ConcatSplit(a[1..], b);
      assert (a + b)[1..] == a[1..] + b;
      assert a[0] + (Concat(a[1..]) + Concat(b)) == a[0] + Concat(a[1..]) + Concat(b);
    }
  }

  lemma RenderSplit(a: seq<Token>, b: seq<Token>)
    ensures Render(a + b) == Render(a) + Render(b)
  {
    assert Texts(a + b) == Texts(a) + Texts(b);
    ConcatSplit(Texts(a), Texts(b));
  }

  lemma RenderFirst(k: Token, w: seq<Token>)
    ensures Render([k]) == Text(k) && Render([k] + w) == Text(k) + Render(w)
  {
    assert Texts([k]) == [Text(k)];
    assert Concat([Text(k)]) == Text(k) + Concat([]);
    RenderSplit([k], w);
  }

  lemma RenderSuffix(t: Type)
    requires t.Array?
    ensures Render(Suffix(t)) ==
      (if t.size == 0 then "" else "_" + Decimal.ToString(t.size))
      + (if t.stride.None? then "" else "_stride_" + Decimal.ToString(t.stride.value))
  {
    var last := if t.stride.None? then [] else [StrideTok(t.stride.value)];
    if t.stride.Some? {
      RenderFirst(StrideTok(t.stride.value), []);
    }
    if t.size != 0 {
      RenderFirst(SizeTok(t.size), last);
      assert Suffix(t) == [SizeTok(t.size)] + last;
    } else {
      assert Suffix(t) == last;
    }
  }

  /** How a name is put together from its head, its subtype's name and its suffix. */
  lemma NameParts(t: Type)
    ensures TypeName(t) ==
      match Sub(t)
      case None => Text(Head(t))
      case Some(u) => Text(Head(t)) + (TypeName(u) + Render(Suffix(t)))
  {
    if t.Array? {
      ArrayParts(t);
    } else if Sub(t).Some? {
      Regroup(Text(Head(t)), TypeName(Sub(t).value), "", "");
    }
  }

  lemma ArrayParts(t: Type)
    requires t.Array?
    ensures TypeName(t) == Text(Head(t)) + (TypeName(t.elem) + Render(Suffix(t)))
  {
    RenderSuffix(t);
    Regroup("__array", TypeName(t.elem), if t.size == 0 then "" else "_" + Decimal.ToString(t.size),
            if t.stride.None? then "" else "_stride_" + Decimal.ToString(t.stride.value));
  }

  lemma Regroup(a: string, b: string, c: string, d: string)
    ensures a + (b + (c + d)) == a + b + c + d
    ensures c == d == "" ==> a + (b + c) == a + b
  {
  }

  /** The name of a type is its word, printed. */
  lemma {:induction false} NameIsWord(t: Type)
    ensures TypeName(t) == Render(Word(t))
  {
    NameParts(t);
    if Sub(t).Some? {
      var u := Sub(t).value;
      NameIsWord(u);
      RenderFirst(Head(t), Word(u) + Suffix(t));
      RenderSplit(Word(u), Suffix(t));
    } else {
      RenderFirst(Head(t), []);
    }
  }

  // --- The lexer ---

  function At(s: string, i: nat): char {
    if i < |s| then s[i] else ' '
  }

  function Drop(s: string, n: nat): string {
    if n <= |s| then s[n..] else ""
  }

  function Number(s: string): (nat, string) {
    (Decimal.ValueOf(s[..Decimal.DigitRun(s)]), s[Decimal.DigitRun(s)..])
  }

  function LexSymbol(s: string): (Symbol, string) {
    var (n, rest) := Number(Drop(s, |MARKER|));
    (n % 0x1_0000_0000, rest)
  }

  function LexStorage(s: string): (StorageClass, string) {
    var c := At(s, 0);
    if c == 'n' then (NoClass, Drop(s, 4))
    else if c == 'o' then (Output, Drop(s, 3))
    else if c == 'w' then (Workgroup, Drop(s, 9))
    else if c == 's' then (Storage, Drop(s, 7))
    else if c == 'p' then (Private, Drop(s, 7))
    else if c == 'f' then (FunctionClass, Drop(s, 8))
    else if c == 'i' then if At(s, 1) == 'n' then (Input, Drop(s, 2)) else (Image, Drop(s, 5))
    else if At(s, 8) == 'c' then (UniformConstant, Drop(s, 16))
    else (Uniform, Drop(s, 7))
  }

  function LexAccess(s: string): (AccessControl, string) {
    if At(s, 0) == 'w' then (WriteOnly, Drop(s, 10))
    else if At(s, 5) == 'o' then (ReadOnly, Drop(s, 9))
    else (ReadWrite, Drop(s, 10))
  }

  /** Reads one token; two or three characters tell which one it is. */
  function LexOne(s: string): (Token, string) {
    var c, d := At(s, 2), At(s, 3);
    if At(s, 1) != '_' then
      if At(s, 1) == 's' then var (n, rest) := Number(Drop(s, 8)); (StrideTok(n), rest)
      else var (n, rest) := Number(Drop(s, 1)); (SizeTok(n), rest)
    else if c == 'a' then
      if d == 'r' then (ArrayTok, Drop(s, 7))
      else if d == 'l' then var (sym, rest) := LexSymbol(Drop(s, 8)); (AliasTok(sym), rest)
      else var (a, rest) := LexAccess(Drop(s, 17)); (AccessTok(a), rest)
    else if c == 'v' then
      if d == 'o' then (VoidTok, Drop(s, 6))
      else var (n, rest) := Number(Drop(s, 6)); (VectorTok(n), rest)
    else if c == 'm' then
      var (r, rest) := Number(Drop(s, 6));
      var (n, rest') := Number(Drop(rest, 1));
      (MatrixTok(r, n), rest')
    else if c == 'p' then var (sc, rest) := LexStorage(Drop(s, 6)); (PointerTok(sc), rest)
    else if c == 's' then
      if d == 't' then var (sym, rest) := LexSymbol(Drop(s, 9)); (StructTok(sym), rest)
      else if At(s, 10) == 's' then (SamplerTok(false), Drop(s, 17))
      else (SamplerTok(true), Drop(s, 20))
    else if c == 'b' then (BoolTok, Drop(s, 6))
    else if c == 'i' then (I32Tok, Drop(s, 5))
    else if c == 'u' then (U32Tok, Drop(s, 5))
    else (F32Tok, Drop(s, 5))
  }

  /** The tokens of a name. */
  function Lex(s: string): seq<Token>
    decreases |s|
  {
    if s == "" then []
    else
      var (k, rest) := LexOne(s);
      if |rest| < |s| then [k] + Lex(rest) else [k]
  }

  /** What may follow a token in a name: nothing, or another token. */
  predicate Tail(rest: string) {
    rest != "" ==> rest[0] == '_' && At(rest, 1) != 'c'
  }

  lemma PrefixOf(p: string, x: string)
    ensures Drop(p + x, |p|) == x
    ensures forall i: nat | i < |p| :: At(p + x, i) == p[i]
  {
    assert (p + x)[|p|..] == x;
  }

  lemma NumberReads(n: nat, rest: string)
    requires !Decimal.StartsWithDigit(rest)
    ensures Number(Decimal.ToString(n) + rest) == (n, rest)
  {
    var d := Decimal.ToString(n);
    Decimal.DigitRunStops(d, rest);
    Decimal.RoundTrip(n);
    assert (d + rest)[..|d|] == d && (d + rest)[|d|..] == rest;
  }

  lemma SymbolReads(s: Symbol, rest: string)
    requires Tail(rest)
    ensures LexSymbol(ToStr(s) + rest) == (s, rest)
  {
    var d := Decimal.ToString(s);
    assert ToStr(s) + rest == MARKER + (d + rest);
    PrefixOf(MARKER, d + rest);
    NumberReads(s, rest);
  }

  lemma StorageReads(sc: StorageClass, rest: string)
    requires Tail(rest)
    ensures LexStorage(StorageText(sc) + rest) == (sc, rest)
  {
    PrefixOf(StorageText(sc), rest);
    if sc == Uniform && |rest| > 1 {
      assert At(StorageText(sc) + rest, 8) == rest[1];
    }
  }

  lemma AccessReads(a: AccessControl, rest: string)
    ensures LexAccess(AccessText(a) + rest) == (a, rest)
  {
    PrefixOf(AccessText(a), rest);
  }

  lemma FixedReads(k: Token, rest: string)
    requires k.ArrayTok? || k.VoidTok? || k.BoolTok? || k.I32Tok? || k.U32Tok? || k.F32Tok? || k.SamplerTok?
    ensures LexOne(Text(k) + rest) == (k, rest)
  {
    var s := Text(k) + rest;
    PrefixOf(Text(k), rest);
    assert At(s, 1) == Text(k)[1] && At(s, 2) == Text(k)[2] && At(s, 3) == Text(k)[3];
    if k.SamplerTok? {
      assert At(s, 10) == Text(k)[10];
    }
  }

  lemma NumberedReads(k: Token, rest: string)
    requires Tail(rest) && (k.VectorTok? || k.StrideTok?)
    ensures LexOne(Text(k) + rest) == (k, rest)
  {
    if k.VectorTok? {
      HeadReads("__vec_", Decimal.ToString(k.size), rest);
      NumberReads(k.size, rest);
    } else {
      HeadReads("_stride_", Decimal.ToString(k.stride), rest);
      NumberReads(k.stride, rest);
    }
  }

  lemma AliasReads(sym: Symbol, rest: string)
    requires Tail(rest)
    ensures LexOne(Text(AliasTok(sym)) + rest) == (AliasTok(sym), rest)
  {
    SymbolReads(sym, rest);
    HeadReads("__alias_", ToStr(sym), rest);
    var s := Text(AliasTok(sym)) + rest;
    assert At(s, 1) == '_' && At(s, 2) == 'a' && At(s, 3) == 'l';
    assert Drop(s, 8) == ToStr(sym) + rest;
  }

  lemma StructReads(sym: Symbol, rest: string)
    requires Tail(rest)
    ensures LexOne(Text(StructTok(sym)) + rest) == (StructTok(sym), rest)
  {
    SymbolReads(sym, rest);
    HeadReads("__struct_", ToStr(sym), rest);
    var s := Text(StructTok(sym)) + rest;
    assert At(s, 1) == '_' && At(s, 2) == 's' && At(s, 3) == 't';
    assert Drop(s, 9) == ToStr(sym) + rest;
  }

  lemma AccessTokReads(a: AccessControl, rest: string)
    requires Tail(rest)
    ensures LexOne(Text(AccessTok(a)) + rest) == (AccessTok(a), rest)
  {
    AccessReads(a, rest);
    HeadReads("__access_control_", AccessText(a), rest);
    var s := Text(AccessTok(a)) + rest;
    assert At(s, 1) == '_' && At(s, 2) == 'a' && At(s, 3) == 'c';
    assert Drop(s, 17) == AccessText(a) + rest;
  }

  lemma PointerReads(sc: StorageClass, rest: string)
    requires Tail(rest)
    ensures LexOne(Text(PointerTok(sc)) + rest) == (PointerTok(sc), rest)
  {
    StorageReads(sc, rest);
    HeadReads("__ptr_", StorageText(sc), rest);
    var s := Text(PointerTok(sc)) + rest;
    assert At(s, 1) == '_' && At(s, 2) == 'p';
    assert Drop(s, 6) == StorageText(sc) + rest;
  }

  /** The lexer reads a printed token back. */
  lemma TokenReads(k: Token, rest: string)
    requires Tail(rest)
    ensures LexOne(Text(k) + rest) == (k, rest)
  {
    if k.VectorTok? || k.StrideTok? {
      NumberedReads(k, rest);
    } else if k.AliasTok? {
      AliasReads(k.sym, rest);
    } else if k.StructTok? {
      StructReads(k.sym, rest);
    } else if k.AccessTok? {
      AccessTokReads(k.access, rest);
    } else if k.PointerTok? {
      PointerReads(k.storage, rest);
    } else if k.MatrixTok? {
      MatrixReads(k.rows, k.columns, rest);
    } else if k.SizeTok? {
      SizeReads(k.size, rest);
    } else {
      FixedReads(k, rest);
    }
  }

  lemma HeadReads(head: string, body: string, rest: string)
    ensures Drop(head + body + rest, |head|) == body + rest
    ensures forall i: nat | i < |head| :: At(head + body + rest, i) == head[i]
  {
    assert head + body + rest == head + (body + rest);
    PrefixOf(head, body + rest);
  }

  lemma SizeReads(n: nat, rest: string)
    requires Tail(rest)
    ensures LexOne(Text(SizeTok(n)) + rest) == (SizeTok(n), rest)
  {
    HeadReads("_", Decimal.ToString(n), rest);
    NumberReads(n, rest);
    assert At("_" + Decimal.ToString(n) + rest, 1) == Decimal.ToString(n)[0];
  }

  lemma MatrixReads(r: nat, c: nat, rest: string)
    requires Tail(rest)
    ensures LexOne(Text(MatrixTok(r, c)) + rest) == (MatrixTok(r, c), rest)
  {
    var after := "_" + Decimal.ToString(c) + rest;
    MatrixText(Decimal.ToString(r), Decimal.ToString(c), rest);
    HeadReads("__mat_", Decimal.ToString(r), after);
    NumberReads(r, after);
    HeadReads("_", Decimal.ToString(c), rest);
    NumberReads(c, rest);
    var s := Text(MatrixTok(r, c)) + rest;
    assert At(s, 1) == '_' && At(s, 2) == 'm';
    assert Drop(s, 6) == Decimal.ToString(r) + after;
    assert Drop(after, 1) == Decimal.ToString(c) + rest;
  }

  lemma MatrixText(r: string, c: string, rest: string)
    ensures "__mat_" + r + "_" + c + rest == "__mat_" + r + ("_" + c + rest)
  {
  }

  lemma RenderTail(w: seq<Token>)
    ensures Tail(Render(w))
  {
    if w != [] {
      TextStart(w[0]);
      RenderFirst(w[0], w[1..]);
      assert [w[0]] + w[1..] == w;
      assert Render(w)[0] == Text(w[0])[0] && Render(w)[1] == Text(w[0])[1];
    }
  }

  lemma TextStart(k: Token)
    ensures |Text(k)| >= 2 && Text(k)[0] == '_' && Text(k)[1] != 'c'
  {
    if k.SizeTok? {
      assert Text(k)[1] == Decimal.ToString(k.size)[0];
    }
  }

  /** The lexer is a left inverse of printing. */
  lemma {:induction false} LexRender(w: seq<Token>)
    ensures Lex(Render(w)) == w
  {
    if w != [] {
      LexRender(w[1..]);
      RenderTail(w[1..]);
      RenderFirst(w[0], w[1..]);
      assert [w[0]] + w[1..] == w;
      TokenReads(w[0], Render(w[1..]));
      TextStart(w[0]);
    }
  }

  /** Two types have the same name exactly when they have the same word. */
  lemma SameNameSameWord(a: Type, b: Type)
    ensures TypeName(a) == TypeName(b) <==> Word(a) == Word(b)
  {
    NameIsWord(a);
    NameIsWord(b);
    LexRender(Word(a));
    LexRender(Word(b));
  }
}
