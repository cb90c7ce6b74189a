/** Sizes and alignments of types in buffers (src/type/array_type.cc, struct_type.cc, matrix_type.cc,
    vector_type.cc). Struct sizes are rounded up in single-precision arithmetic, as the program does. */
module Layout {
  import opened Wrappers
  import opened Types

  datatype MemoryLayout = UniformBuffer | StorageBuffer

  // --- Rounding in float ---

  const EXACT := 0x100_0000  // 2^24: the integers up to here are floats

  /** The distance between neighbouring floats at n. */
  function Ulp(n: nat): (u: nat)
    ensures u > 0
  {
    if n < EXACT then 1 else 2 * Ulp(n / 2)
  }

  /** static_cast<float> of an integer: to the nearest float, and in a tie to the one whose
      distance count is even. */
  function ToFloat(n: nat): int {
    Nearest(n, Ulp(n))
  }

  function Nearest(n: nat, u: nat): int
    requires u > 0
  {
    var r := n % u;
    if 2 * r < u || (2 * r == u && n % (2 * u) < u) then n - r else n - r + u
  }

  /** alignment * ceil(x / alignment), the multiple of the alignment at or after x. Alignments are 4, 8
      or 16; with 0 the program casts a quotient by zero, which host-shareable types never do, and 0
      stands for that undefined result. */
  function CeilTo(x: int, alignment: nat): int {
    if alignment == 0 then 0
    else if x % alignment == 0 then x
    else x - x % alignment + alignment
  }

  function FloatRoundUp(n: nat, alignment: nat): int {
    CeilTo(ToFloat(n), alignment)
  }

  function RoundUp16(n: nat): nat {
    if n % 16 == 0 then n else n - n % 16 + 16
  }

  // --- BaseAlignment and MinBufferBindingSize ---

  function Align(t: Type, m: MemoryLayout): nat {
    match t
    case F32 => 4 case I32 => 4 case U32 => 4
    case Vector(elem, size) => VectorAlign(Align(elem, m), size)
    case Matrix(elem, rows, _) =>
      var column := VectorAlign(Align(elem, m), rows);
      if m.UniformBuffer? then RoundUp16(column) else column
    case Array(elem, _, _) => if m.UniformBuffer? then RoundUp16(Align(elem, m)) else Align(elem, m)
    case Struct(_, members) => if m.UniformBuffer? then RoundUp16(MaxAlign(members, m)) else MaxAlign(members, m)
    case Alias(_, sub) => Align(sub, m)
    case Access(_, sub) => Align(sub, m)
    case _ => 0
  }

  function VectorAlign(elem: nat, size: nat): nat {
    if size == 2 then 2 * elem else if size == 3 || size == 4 then 4 * elem else 0
  }

  /** The largest alignment of a member. */
  function MaxAlign(members: seq<Member>, m: MemoryLayout): nat {
    if members == [] then 0
    else
      var rest := MaxAlign(members[..|members| - 1], m);
      var last := Align(members[|members| - 1].ty, m);
      if last > rest then last else rest
  }

  /** What n elements take at a given stride. */
  function Span(n: nat, stride: nat): nat {
    n * stride
  }

  function MinSize(t: Type, m: MemoryLayout): int {
    match t
    case F32 => 4 case I32 => 4 case U32 => 4
    case Vector(elem, size) => size * MinSize(elem, m)
    case Matrix(elem, rows, columns) =>
      (columns - 1) * VectorAlign(Align(elem, m), rows) + rows * MinSize(elem, m)
    case Array(elem, size, stride) =>
      if stride.None? then 0
      else if size == 0 then stride.value
      else Span(size - 1, stride.value) % 0x1_0000_0000 + MinSize(elem, m)
    case Struct(_, members) =>
      if members == [] || members[|members| - 1].offset.None? then 0
      else
        var last := members[|members| - 1];
        var size := MinSize(last.ty, m);
        if size <= 0 then 0
        else FloatRoundUp(last.offset.value + size, Align(t, m))
    case Alias(_, sub) => MinSize(sub, m)
    case Access(_, sub) => MinSize(sub, m)
    case _ => 0
  }

  method StructAlignment(t: Type, m: MemoryLayout) returns (alignment: nat)
    requires t.Struct?
    ensures alignment == Align(t, m)
    ensures forall k | 0 <= k < |t.members| :: Align(t.members[k].ty, m) <= alignment
  {
    var max := LargestAlignment(t.members, m);
    alignment := if m.UniformBuffer? then RoundUp16(max) else max;
  }

  /** The loop of Struct::BaseAlignment(). */
  method LargestAlignment(members: seq<Member>, m: MemoryLayout) returns (max: nat)
    ensures max == MaxAlign(members, m)
    ensures forall k | 0 <= k < |members| :: Align(members[k].ty, m) <= max
  {
    max := 0;
    var k := 0;
    while k < |members|
      invariant 0 <= k <= |members| && max == MaxAlign(members[..k], m)
    {
      assert members[..k + 1][..k] == members[..k];
      if Align(members[k].ty, m) > max {
        max := Align(members[k].ty, m);
      }
      k := k + 1;
    }
    assert members[..k] == members;
    MaxIsLargest(members, m);
  }

  lemma {:induction false} MaxIsLargest(members: seq<Member>, m: MemoryLayout)
    ensures forall k | 0 <= k < |members| :: Align(members[k].ty, m) <= MaxAlign(members, m)
  {
    if members != [] {
      MaxIsLargest(members[..|members| - 1], m);
    }
  }

  // --- Alignment structure ---

  predicate Numeric(t: Type) {
    t.F32? || t.I32? || t.U32?
  }

  /** Vectors and matrices hold scalars and have 2 to 4 rows. */
  predicate Plain(t: Type) {
    match t
    case Vector(elem, size) => elem.IsScalar() && 2 <= size <= 4
    case Matrix(elem, rows, columns) => elem.IsScalar() && 2 <= rows <= 4 && 2 <= columns <= 4
    case Array(elem, _, _) => Plain(elem)
    case Struct(_, members) => forall k | 0 <= k < |members| :: Plain(members[k].ty)
    case Alias(_, sub) => Plain(sub)
    case Access(_, sub) => Plain(sub)
    case _ => true
  }

  predicate IsAlignment(a: nat) {
    a == 0 || a == 4 || a == 8 || a == 16
  }

  lemma RoundedAlignment(a: nat)
    requires IsAlignment(a)
    ensures RoundUp16(a) == if a == 0 then 0 else 16
  {
  }

  /** Alignments are 0, 4, 8 or 16; aggregates in uniform buffers have 0 or 16; and a type never
      needs less in a uniform buffer than in a storage buffer. */
  lemma {:induction false} AlignmentValues(t: Type, m: MemoryLayout)
    requires Plain(t)
    ensures IsAlignment(Align(t, m))
    ensures m.UniformBuffer? && (t.Array? || t.Matrix? || t.Struct?) ==> Align(t, m) == 0 || Align(t, m) == 16
    ensures Align(t, StorageBuffer) <= Align(t, UniformBuffer)
  {
    match t {
      case Array(elem, _, _) =>
        AlignmentValues(elem, m);
        AlignmentValues(elem, UniformBuffer);
        RoundedAlignment(Align(elem, UniformBuffer));
      case Struct(_, members) =>
        MaxAlignmentValues(members, m);
        MaxAlignmentValues(members, UniformBuffer);
        RoundedAlignment(MaxAlign(members, UniformBuffer));
      case Matrix(elem, rows, _) =>
        RoundedAlignment(VectorAlign(Align(elem, m), rows));
      case Alias(_, sub) => AlignmentValues(sub, m);
      case Access(_, sub) => AlignmentValues(sub, m);
      case _ =>
    }
  }

  lemma {:induction false} MaxAlignmentValues(members: seq<Member>, m: MemoryLayout)
    requires forall k | 0 <= k < |members| :: Plain(members[k].ty)
    ensures IsAlignment(MaxAlign(members, m))
    ensures MaxAlign(members, StorageBuffer) <= MaxAlign(members, UniformBuffer)
    ensures forall k | 0 <= k < |members| :: Align(members[k].ty, m) <= MaxAlign(members, m)
  {
    if members != [] {
      MaxAlignmentValues(members[..|members| - 1], m);
      AlignmentValues(members[|members| - 1].ty, m);
    }
  }

  /** A struct's alignment is a multiple of each member's. */
  lemma MemberAlignment(t: Type, m: MemoryLayout, k: nat)
    requires Plain(t) && t.Struct? && k < |t.members| && Align(t.members[k].ty, m) != 0
    ensures Align(t, m) != 0 && Align(t, m) % Align(t.members[k].ty, m) == 0
  {
    AlignmentValues(t, m);
    AlignmentValues(t.members[k].ty, m);
    MaxAlignmentValues(t.members, m);
    Divides(Align(t.members[k].ty, m), Align(t, m));
  }

  lemma Divides(a: nat, b: nat)
    requires IsAlignment(a) && IsAlignment(b) && 0 < a <= b
    ensures b % a == 0
  {
    if a == 4 {
      assert 4 % 4 == 0 && 8 % 4 == 0 && 16 % 4 == 0;
    } else if a == 8 {
      assert 8 % 8 == 0 && 16 % 8 == 0;
    } else {
      assert 16 % 16 == 0;
    }
  }

  // --- Float rounding: exactly when it covers ---

  lemma {:induction false} UlpPowers(n: nat)
    ensures Ulp(n) == 1 || Ulp(n) == 2 || Ulp(n) == 4 || Ulp(n) == 8 || Ulp(n) % 16 == 0
    ensures n < EXACT ==> Ulp(n) == 1
  {
    if n >= EXACT {
      UlpPowers(n / 2);
    }
  }

  lemma NearestBounds(n: nat, u: nat)
    requires u > 0
    ensures n - u < Nearest(n, u) < n + u
  {
    var r := n % u;
    assert 0 <= r < u;
  }

  lemma NearestSmall(n: nat)
    ensures Nearest(n, 1) == n && Nearest(n, 2) % 2 == 0 && Nearest(n, 4) % 4 == 0 && Nearest(n, 8) % 8 == 0
  {
    Floor2(n);
    Floor4(n);
    Floor8(n);
    assert n % 1 == 0;
  }

  lemma NearestLarge(n: nat, k: nat)
    requires k > 0
    ensures Nearest(n, 16 * k) % 16 == 0
  {
    var u := 16 * k;
    var q := n / u;
    assert n - n % u == u * q;
    assert u * q == 16 * (k * q);
    var z := k * q;
    assert n - n % u == 16 * z;
    assert 16 * z % 16 == 0 && 16 * (z + k) % 16 == 0;
  }

  /** A float is a multiple of its Ulp and less than one Ulp away from the integer. */
  lemma FloatNear(n: nat)
    ensures n - Ulp(n) < ToFloat(n) < n + Ulp(n)
    ensures Ulp(n) == 1 ==> ToFloat(n) == n
    ensures Ulp(n) == 2 ==> ToFloat(n) % 2 == 0
    ensures Ulp(n) == 4 ==> ToFloat(n) % 4 == 0
    ensures Ulp(n) == 8 ==> ToFloat(n) % 8 == 0
    ensures Ulp(n) % 16 == 0 ==> ToFloat(n) % 16 == 0
  {
    NearestBounds(n, Ulp(n));
    NearestSmall(n);
    if Ulp(n) % 16 == 0 {
      NearestLarge(n, Ulp(n) / 16);
    }
  }

  /** A whole number that single precision holds: its significand has 24 bits. */
  predicate IsFloat(x: nat) {
    x <= EXACT || (x % 2 == 0 && IsFloat(x / 2))
  }

  function Distance(a: int, b: int): nat {
    if a >= b then a - b else b - a
  }

  lemma Gaps(u: nat, p: nat, q: nat)
    ensures p < q ==> u * p + u <= u * q
    ensures p <= q ==> u * p <= u * q
  {
    if p <= q {
      assert u * q == u * p + u * (q - p);
    }
    if p < q {
      assert u * (q - p) == u + u * (q - p - 1);
    }
  }

  lemma DivMod(n: nat, u: nat)
    requires u > 0
    ensures n == u * (n / u) + n % u
  {
  }

  lemma Divide(n: nat, u: nat) returns (q: nat, r: nat)
    requires u > 0
    ensures n == u * q + r && r < u && r == n % u
  {
    q, r := n / u, n % u;
    DivMod(n, u);
  }

  lemma DivUnique(n: nat, u: nat, q: nat, r: nat)
    requires u > 0 && n == u * q + r && r < u
    ensures n / u == q && n % u == r
  {
    DivMod(n, u);
    Gaps(u, n / u, q);
    Gaps(u, q, n / u);
  }

  lemma MultipleMod(u: nat, q: nat)
    requires u > 0
    ensures (u * q) % u == 0
  {
    DivUnique(u * q, u, q, 0);
  }

  lemma {:induction false} UlpRange(n: nat)
    ensures n >= EXACT ==> 0x80_0000 * Ulp(n) <= n < EXACT * Ulp(n)
  {
    if n >= EXACT {
      UlpRange(n / 2);
    }
  }

  lemma {:induction false} MultipleIsFloat(n: nat, k: nat)
    requires k <= EXACT
    ensures IsFloat(Ulp(n) * k)
  {
    if n >= EXACT {
      MultipleIsFloat(n / 2, k);
      TwiceFloat(Ulp(n / 2) * k);
      assert Ulp(n) * k == 2 * (Ulp(n / 2) * k);
    }
  }

  lemma TwiceFloat(x: nat)
    requires IsFloat(x)
    ensures IsFloat(2 * x)
  {
    assert 2 * x / 2 == x;
  }

  /** From 2^23 spacings on, floats are multiples of the spacing. */
  lemma {:induction false} FloatIsMultiple(n: nat, x: nat)
    requires IsFloat(x) && x >= 0x80_0000 * Ulp(n)
    ensures x % Ulp(n) == 0
  {
    if n >= EXACT {
      FloatIsEven(x, Ulp(n / 2));
      if x > EXACT {
        FloatIsMultiple(n / 2, x / 2);
        TwiceMultiple(x / 2, Ulp(n / 2));
      }
    } else {
      assert x % 1 == 0;
    }
  }

  lemma FloatIsEven(x: nat, v: nat)
    requires IsFloat(x) && x >= EXACT * v && v > 0
    ensures x % 2 == 0 && (x <= EXACT ==> x == EXACT && v == 1)
  {
    if x <= EXACT {
      assert EXACT * v >= EXACT;
      assert v > 1 ==> EXACT * v >= 2 * EXACT;
    }
  }

  lemma TwiceMultiple(y: nat, v: nat)
    requires v > 0 && y % v == 0
    ensures (2 * y) % (2 * v) == 0
  {
    var q := y / v;
    DivMod(y, v);
    assert 2 * y == (2 * v) * q;
    MultipleMod(2 * v, q);
  }

  lemma NearestIs(n: nat, u: nat)
    requires u > 0
    ensures Distance(Nearest(n, u), n) <= n % u && Distance(Nearest(n, u), n) <= u - n % u
  {
  }

  lemma NearestMultiple(n: nat, u: nat, x: nat)
    requires u > 0 && x % u == 0
    ensures Distance(Nearest(n, u), n) <= Distance(x, n)
  {
    var p, r := Divide(n, u);
    var q, z := Divide(x, u);
    Gaps(u, p, q);
    Gaps(u, q, p);
    NearestIs(n, u);
  }

  lemma NoFloatNearer(n: nat, x: nat)
    requires n >= EXACT && IsFloat(x)
    ensures Distance(ToFloat(n), n) <= Distance(x, n)
  {
    var u := Ulp(n);
    UlpRange(n);
    if x >= 0x80_0000 * u {
      FloatIsMultiple(n, x);
      NearestMultiple(n, u, x);
    } else {
      MultipleMod(u, 0x80_0000);
      NearestMultiple(n, u, u * 0x80_0000);
    }
  }

  /** The float is one of the two multiples around n, both of which have 24-bit significands. */
  lemma Significand(n: nat) returns (q: nat)
    requires n >= EXACT
    ensures q < EXACT && (ToFloat(n) == Ulp(n) * q || ToFloat(n) == Ulp(n) * q + Ulp(n))
  {
    var r;
    q, r := Divide(n, Ulp(n));
    UlpRange(n);
    Gaps(Ulp(n), EXACT, q);
  }

  lemma NeighbourIsFloat(n: nat, q: nat, x: int)
    requires q < EXACT && (x == Ulp(n) * q || x == Ulp(n) * q + Ulp(n))
    ensures x >= 0 && IsFloat(x)
  {
    assert Ulp(n) * (q + 1) == Ulp(n) * q + Ulp(n);
    MultipleIsFloat(n, if x == Ulp(n) * q then q else q + 1);
  }

  lemma ToFloatIsFloat(n: nat)
    ensures ToFloat(n) >= 0 && IsFloat(ToFloat(n))
  {
    if n >= EXACT {
      var q := Significand(n);
      NeighbourIsFloat(n, q, ToFloat(n));
    } else {
      SmallIsExact(n);
    }
  }

  lemma SmallIsExact(n: nat)
    requires n < EXACT
    ensures ToFloat(n) == n
  {
    FloatNear(n);
  }

  lemma HalfArithmetic(n: nat, u: nat, k: nat, s: nat)
    requires n == (2 * u) * k + s
    ensures n == u * (2 * k) + s && n == u * (2 * k + 1) + s - u
  {
    assert (2 * u) * k == u * (2 * k);
    assert u * (2 * k + 1) == u * (2 * k) + u;
  }

  lemma HalfMod(n: nat, u: nat, k: nat, s: nat)
    requires u > 0 && n == (2 * u) * k + s && s < 2 * u
    ensures n % u == if s < u then s else s - u
  {
    HalfArithmetic(n, u, k, s);
    if s < u {
      DivUnique(n, u, 2 * k, s);
    } else {
      DivUnique(n, u, 2 * k + 1, s - u);
    }
  }

  lemma TieToEven(n: nat, u: nat)
    requires u > 0 && 2 * Distance(Nearest(n, u), n) == u
    ensures Nearest(n, u) % (2 * u) == 0
  {
    var k, s := Divide(n, 2 * u);
    HalfMod(n, u, k, s);
    EvenMultiple(u, k, if s < u then Nearest(n, u) else Nearest(n, u) - 2 * u);
  }

  lemma EvenMultiple(u: nat, k: nat, x: int)
    requires u > 0 && x == (2 * u) * k
    ensures x % (2 * u) == 0 && (x + 2 * u) % (2 * u) == 0
  {
    MultipleMod(2 * u, k);
    MultipleMod(2 * u, k + 1);
    assert (2 * u) * (k + 1) == (2 * u) * k + 2 * u;
  }

  /** The conversion gives a float, and none is nearer to the integer; halfway between two it takes the one
      with an even significand. */
  lemma NearestFloat(n: nat)
    ensures ToFloat(n) >= 0 && IsFloat(ToFloat(n))
    ensures forall x: nat | IsFloat(x) :: Distance(ToFloat(n), n) <= Distance(x, n)
    ensures 2 * Distance(ToFloat(n), n) == Ulp(n) ==> ToFloat(n) % (2 * Ulp(n)) == 0
  {
    ToFloatIsFloat(n);
    FloatNear(n);
    UlpPowers(n);
    forall x: nat | IsFloat(x)
      ensures Distance(ToFloat(n), n) <= Distance(x, n)
    {
      if n >= EXACT {
        NoFloatNearer(n, x);
      }
    }
    if 2 * Distance(ToFloat(n), n) == Ulp(n) {
      TieToEven(n, Ulp(n));
    }
  }

  /** Rounding up reaches the unrounded size exactly when the float is not below it, or is below it
      but between two multiples of the alignment. */
  predicate FloatCovers(n: nat, alignment: nat)
    requires alignment > 0
  {
    ToFloat(n) >= n || ToFloat(n) % alignment != 0
  }

  lemma RoundUpCovers(n: nat, a: nat)
    requires a == 4 || a == 8 || a == 16
    ensures FloatRoundUp(n, a) >= n <==> FloatCovers(n, a)
    ensures n < EXACT ==> FloatCovers(n, a)
  {
    FloatNear(n);
    UlpPowers(n);
    CeilFacts(ToFloat(n), a);
    CeilBetween(ToFloat(n), a, Ulp(n));
  }

  lemma Floor2(x: int)
    ensures (x - x % 2) % 2 == 0 && (x - x % 2 + 2) % 2 == 0
  {
    var q := x / 2;
    assert x - x % 2 == 2 * q;
  }

  lemma Floor4(x: int)
    ensures (x - x % 4) % 4 == 0 && (x - x % 4 + 4) % 4 == 0
  {
    var q := x / 4;
    assert x - x % 4 == 4 * q;
  }

  lemma Floor8(x: int)
    ensures (x - x % 8) % 8 == 0 && (x - x % 8 + 8) % 8 == 0
  {
    var q := x / 8;
    assert x - x % 8 == 8 * q;
  }

  lemma Floor16(x: int)
    ensures (x - x % 16) % 16 == 0 && (x - x % 16 + 16) % 16 == 0
  {
    var q := x / 16;
    assert x - x % 16 == 16 * q;
  }

  lemma CeilFacts(x: int, a: nat)
    requires a == 4 || a == 8 || a == 16
    ensures x <= CeilTo(x, a) < x + a && CeilTo(x, a) % a == 0
    ensures x % a == 0 <==> CeilTo(x, a) == x
  {
    if a == 4 {
      Floor4(x);
      assert CeilTo(x, 4) % 4 == 0;
    } else if a == 8 {
      Floor8(x);
      assert CeilTo(x, 8) % 8 == 0;
    } else {
      Floor16(x);
      assert CeilTo(x, 16) % 16 == 0;
    }
  }

  lemma CeilLeast(x: int, a: nat, n: int)
    requires a == 4 || a == 8 || a == 16
    requires n >= x && n % a == 0
    ensures CeilTo(x, a) <= n
  {
    if a == 4 {
      var q, k := n / 4, x / 4;
      assert n == 4 * q && x == 4 * k + x % 4;
    } else if a == 8 {
      var q, k := n / 8, x / 8;
      assert n == 8 * q && x == 8 * k + x % 8;
    } else {
      var q, k := n / 16, x / 16;
      assert n == 16 * q && x == 16 * k + x % 16;
    }
  }

  lemma Residues(x: int)
    ensures x % 16 % 8 == x % 8 && x % 16 % 4 == x % 4 && x % 16 % 2 == x % 2
  {
    Residue8(x);
    Residue4(x);
    Residue2(x);
  }

  lemma Residue8(x: int)
    ensures x % 16 % 8 == x % 8
  {
    var q, r := x / 16, x % 16;
    assert x == 8 * (2 * q) + r;
  }

  lemma Residue4(x: int)
    ensures x % 16 % 4 == x % 4
  {
    var q, r := x / 16, x % 16;
    assert x == 4 * (4 * q) + r;
  }

  lemma Residue2(x: int)
    ensures x % 16 % 2 == x % 2
  {
    var q, r := x / 16, x % 16;
    var k := 8 * q;
    assert x == 2 * k + r;
    Parity(k, r);
  }

  lemma Parity(k: int, r: int)
    ensures (2 * k + r) % 2 == r % 2
  {
  }

  /** A multiple of u that is not a multiple of a is at least u below the next multiple of a. */
  lemma CeilBetween(x: int, a: nat, u: nat)
    requires a == 4 || a == 8 || a == 16
    requires (u == 1) || (u == 2 && x % 2 == 0) || (u == 4 && x % 4 == 0) || (u == 8 && x % 8 == 0)
          || (u % 16 == 0 && x % 16 == 0)
    ensures x % a != 0 ==> CeilTo(x, a) >= x + u
  {
    Residues(x);
    var r := x % 16;
    if a == 4 {
      assert x % 4 == r % 4;
    } else if a == 8 {
      assert x % 8 == r % 8;
    } else {
      assert x % 16 == r;
    }
  }

  // --- Float rounding: exactly when it rounds as integers would ---

  /** Rounding in float gives the least multiple at or after n when it covers n and the float has not
      moved past a multiple. */
  predicate FloatExact(n: nat, alignment: nat)
    requires alignment > 0
  {
    FloatCovers(n, alignment) && (Ulp(n) <= alignment || ToFloat(n) - n < alignment)
  }

  lemma RoundUpExact(n: nat, a: nat)
    requires a == 4 || a == 8 || a == 16
    ensures FloatRoundUp(n, a) == CeilTo(n, a) <==> FloatExact(n, a)
    ensures n < EXACT ==> FloatExact(n, a)
  {
    FloatNear(n);
    UlpPowers(n);
    if ToFloat(n) < n {
      RoundUpBelow(n, a);
    } else if ToFloat(n) > n && Ulp(n) <= a {
      RoundUpFine(n, a);
    } else if ToFloat(n) > n {
      RoundUpCoarse(n, a);
    }
  }

  /** Between neighbouring multiples there is nothing. */
  lemma Gap(x: int, y: int, d: nat)
    requires d == 1 || d == 2 || d == 4 || d == 8 || d == 16
    requires x % d == 0 && y % d == 0 && x < y
    ensures x + d <= y
  {
    if d == 2 {
      assert x == 2 * (x / 2) && y == 2 * (y / 2);
    } else if d == 4 {
      assert x == 4 * (x / 4) && y == 4 * (y / 4);
    } else if d == 8 {
      assert x == 8 * (x / 8) && y == 8 * (y / 8);
    } else if d == 16 {
      assert x == 16 * (x / 16) && y == 16 * (y / 16);
    }
  }

  /** Both ends round to the same multiple when neither passes the other's. */
  lemma SameCeil(x: int, y: int, a: nat)
    requires a == 4 || a == 8 || a == 16
    requires x <= CeilTo(y, a) && y <= CeilTo(x, a)
    ensures CeilTo(x, a) == CeilTo(y, a)
  {
    CeilFacts(x, a);
    CeilFacts(y, a);
    CeilLeast(x, a, CeilTo(y, a));
    CeilLeast(y, a, CeilTo(x, a));
  }

  /** The float is below the integer. */
  lemma RoundUpBelow(n: nat, a: nat)
    requires (a == 4 || a == 8 || a == 16) && ToFloat(n) < n
    ensures FloatRoundUp(n, a) == CeilTo(n, a) <==> FloatExact(n, a)
  {
    var f := ToFloat(n);
    FloatNear(n);
    UlpPowers(n);
    CeilFacts(f, a);
    CeilFacts(n, a);
    if f % a != 0 {
      CeilBetween(f, a, Ulp(n));
      SameCeil(f, n, a);
      assert Ulp(n) <= CeilTo(f, a) - f < a;
    }
  }

  lemma MultipleOfUlp(n: nat)
    requires Ulp(n) <= 16
    ensures ToFloat(n) % Ulp(n) == 0 && (Ulp(n) == 1 || Ulp(n) == 2 || Ulp(n) == 4 || Ulp(n) == 8 || Ulp(n) == 16)
  {
    FloatNear(n);
    UlpPowers(n);
    assert Ulp(n) % 16 == 0 ==> Ulp(n) == 16;
  }

  lemma MultipleOfLess(x: int, u: nat, a: nat)
    requires (u == 1 || u == 2 || u == 4 || u == 8 || u == 16) && (a == 4 || a == 8 || a == 16) && u <= a
    requires x % a == 0
    ensures x % u == 0
  {
    Halves(x);
    if u == 1 {
      assert x % 1 == 0;
    }
  }

  lemma Halves(x: int)
    ensures x % 16 == 0 ==> x % 8 == 0
    ensures x % 8 == 0 ==> x % 4 == 0
    ensures x % 4 == 0 ==> x % 2 == 0
  {
    Residues(x);
    var r := x % 16;
    assert r % 8 == 0 ==> r % 4 == 0;
    assert r % 4 == 0 ==> r % 2 == 0;
  }

  /** It is above, and the floats are no wider apart than the multiples. */
  lemma RoundUpFine(n: nat, a: nat)
    requires (a == 4 || a == 8 || a == 16) && ToFloat(n) > n && Ulp(n) <= a
    ensures FloatRoundUp(n, a) == CeilTo(n, a)
  {
    var f, c := ToFloat(n), CeilTo(n, a);
    FloatNear(n);
    CeilFacts(n, a);
    CeilFacts(f, a);
    if c < f {
      MultipleOfUlp(n);
      MultipleOfLess(c, Ulp(n), a);
      Gap(c, f, Ulp(n));
    }
    SameCeil(f, n, a);
  }

  /** It is above, and the floats are wider apart: it is a multiple itself. */
  lemma RoundUpCoarse(n: nat, a: nat)
    requires (a == 4 || a == 8 || a == 16) && ToFloat(n) > n && Ulp(n) > a
    ensures FloatRoundUp(n, a) == CeilTo(n, a) <==> FloatExact(n, a)
  {
    var f, c := ToFloat(n), CeilTo(n, a);
    FloatNear(n);
    UlpPowers(n);
    CeilFacts(n, a);
    CoarseMultiple(n, a);
    CeilLeast(n, a, f);
    if f - n < a {
      if c < f {
        Gap(c, f, a);
      }
    } else {
      StepDown(f, a);
      CeilLeast(n, a, f - a);
    }
  }

  lemma CoarseMultiple(n: nat, a: nat)
    requires (a == 4 || a == 8 || a == 16) && Ulp(n) > a
    ensures ToFloat(n) % a == 0
  {
    FloatNear(n);
    UlpPowers(n);
    if Ulp(n) == 8 {
      MultipleOfLess(ToFloat(n), 4, 8);
    } else {
      MultipleOfLess(ToFloat(n), a, 16);
    }
  }

  lemma StepDown(x: int, a: nat)
    requires (a == 4 || a == 8 || a == 16) && x % a == 0
    ensures (x - a) % a == 0
  {
    var q := x / a;
    if a == 4 {
      Multiples(q - 1);
      assert x - 4 == 4 * (q - 1);
    } else if a == 8 {
      Multiples(q - 1);
      assert x - 8 == 8 * (q - 1);
    } else {
      Multiples(q - 1);
      assert x - 16 == 16 * (q - 1);
    }
  }

  lemma Multiples(k: int)
    ensures 4 * k % 4 == 0 && 8 * k % 8 == 0 && 16 * k % 16 == 0
  {
  }

  // --- Alignments are those of the largest scalar or vector inside ---

  predicate PowerOfTwo(n: nat) {
    n == 1 || (n > 1 && n % 2 == 0 && PowerOfTwo(n / 2))
  }

  /** The least power of two that holds a number of bytes. */
  predicate LeastHolding(a: nat, bytes: nat) {
    PowerOfTwo(a) && bytes <= a < 2 * bytes
  }

  lemma SmallPowers(a: nat)
    requires PowerOfTwo(a) && 4 <= a < 32
    ensures a == 4 || a == 8 || a == 16
  {
    assert PowerOfTwo(a / 2) && PowerOfTwo(a / 2 / 2);
    if a / 2 / 2 > 1 {
      assert PowerOfTwo(a / 2 / 2 / 2);
    }
  }

  lemma VectorAlignLeast(a: nat, size: nat)
    requires 2 <= size <= 4
    ensures LeastHolding(a, 4 * size) <==> a == VectorAlign(4, size)
  {
    assert PowerOfTwo(1) && PowerOfTwo(2) && PowerOfTwo(4) && PowerOfTwo(8) && PowerOfTwo(16);
    if LeastHolding(a, 4 * size) {
      SmallPowers(a);
    }
  }

  /** A scalar or vector, or a column of a matrix, inside t needs the alignment a. */
  ghost predicate Needs(t: Type, a: nat) {
    match t
    case F32 => LeastHolding(a, 4) case I32 => LeastHolding(a, 4) case U32 => LeastHolding(a, 4)
    case Vector(_, size) => LeastHolding(a, 4 * size)
    case Matrix(_, rows, _) => LeastHolding(a, 4 * rows)
    case Array(elem, _, _) => Needs(elem, a)
    case Struct(_, members) => exists k | 0 <= k < |members| :: Needs(members[k].ty, a)
    case Alias(_, sub) => Needs(sub, a)
    case Access(_, sub) => Needs(sub, a)
    case _ => false
  }

  predicate Aggregate(t: Type) {
    match t
    case Array(_, _, _) => true
    case Matrix(_, _, _) => true
    case Struct(_, _) => true
    case Alias(_, sub) => Aggregate(sub)
    case Access(_, sub) => Aggregate(sub)
    case _ => false
  }

  /** The alignment is 16 for aggregates in uniform buffers, and otherwise the largest one needed inside. */
  ghost predicate AlignedFor(t: Type, m: MemoryLayout, a: nat) {
    if m.UniformBuffer? && Aggregate(t) then a == 16 else Needs(t, a) && forall b: nat | Needs(t, b) :: b <= a
  }

  ghost predicate Aligned(t: Type, m: MemoryLayout) {
    AlignedFor(t, m, Align(t, m)) && (Align(t, m) == 4 || Align(t, m) == 8 || Align(t, m) == 16)
  }

  lemma {:induction false} AlignmentExact(t: Type, m: MemoryLayout)
    requires HostShareable(t, m)
    ensures Aligned(t, m)
    decreases t, 1
  {
    match t {
      case Vector(_, size) => VectorAligned(t, m);
      case Matrix(_, _, _) => MatrixAligned(t, m);
      case Array(elem, _, _) =>
        AlignmentExact(elem, m);
        ArrayAligned(t, m);
      case Struct(_, members) =>
        AllExact(members, m);
        MembersAligned(t, m);
      case Alias(_, sub) => AlignmentExact(sub, m);
      case Access(_, sub) => AlignmentExact(sub, m);
      case _ => ScalarAligned();
    }
  }

  lemma {:induction false} AllExact(members: seq<Member>, m: MemoryLayout)
    requires forall k | 0 <= k < |members| :: HostShareable(members[k].ty, m)
    ensures AllAligned(members, m)
    decreases members, 0
  {
    forall k | 0 <= k < |members|
      ensures Aligned(members[k].ty, m)
    {
      AlignmentExact(members[k].ty, m);
    }
  }

  lemma ScalarAligned()
    ensures forall a: nat :: LeastHolding(a, 4) <==> a == 4
  {
    assert PowerOfTwo(4) by {
      assert PowerOfTwo(1) && PowerOfTwo(2);
    }
    forall a: nat | LeastHolding(a, 4)
      ensures a == 4
    {
      SmallPowers(a);
    }
  }

  lemma ArrayAligned(t: Type, m: MemoryLayout)
    requires t.Array? && Aligned(t.elem, m)
    ensures Aligned(t, m)
  {
    RoundedAlignment(Align(t.elem, m));
  }

  lemma VectorAligned(t: Type, m: MemoryLayout)
    requires t.Vector? && HostShareable(t, m)
    ensures Aligned(t, m)
  {
    forall a: nat
      ensures Needs(t, a) <==> a == Align(t, m)
    {
      VectorAlignLeast(a, t.size);
    }
  }

  lemma MatrixAligned(t: Type, m: MemoryLayout)
    requires t.Matrix? && HostShareable(t, m)
    ensures Aligned(t, m)
  {
    forall a: nat
      ensures Needs(t, a) <==> a == VectorAlign(4, t.rows)
    {
      VectorAlignLeast(a, t.rows);
    }
  }

  ghost predicate AllAligned(members: seq<Member>, m: MemoryLayout) {
    forall k | 0 <= k < |members| ::
      Aligned(members[k].ty, m)
  }

  lemma MembersAligned(t: Type, m: MemoryLayout)
    requires t.Struct? && t.members != [] && AllAligned(t.members, m)
    ensures Aligned(t, m)
  {
    var k := MaxAttained(t.members, m);
    if m.StorageBuffer? {
      assert Needs(t.members[k].ty, Align(t, m));
      forall b: nat | Needs(t, b)
        ensures b <= Align(t, m)
      {
        NeededByMember(t, b);
      }
    }
  }

  lemma NeededByMember(t: Type, b: nat)
    requires t.Struct? && AllAligned(t.members, StorageBuffer) && Needs(t, b)
    ensures b <= MaxAlign(t.members, StorageBuffer)
  {
    var j :| 0 <= j < |t.members| && Needs(t.members[j].ty, b);
    assert b <= Align(t.members[j].ty, StorageBuffer);
    MaxIsLargest(t.members, StorageBuffer);
  }

  lemma {:induction false} MaxAttained(members: seq<Member>, m: MemoryLayout) returns (k: nat)
    requires members != []
    ensures k < |members| && Align(members[k].ty, m) == MaxAlign(members, m)
  {
    var n := |members| - 1;
    k := n;
    if n > 0 && MaxAlign(members, m) != Align(members[n].ty, m) {
      k := MaxAttained(members[..n], m);
    } else if n == 0 {
      assert members[..n] == [];
    }
  }

  // --- Every byte of every scalar is covered ---

  /** A type the host can share in this layout: strides leave room for the element and their 32-bit
      product does not wrap; members have offsets, are in order and do not overlap; and the struct's
      size is one that float rounding covers. */
  predicate HostShareable(t: Type, m: MemoryLayout) {
    match t
    case F32 => true case I32 => true case U32 => true
    case Vector(elem, size) => Numeric(elem) && 2 <= size <= 4
    case Matrix(elem, rows, columns) => Numeric(elem) && 2 <= rows <= 4 && 2 <= columns <= 4
    case Array(elem, size, stride) =>
      && HostShareable(elem, m) && stride.Some? && MinSize(elem, m) <= stride.value
      && (size > 0 ==> Span(size - 1, stride.value) < 0x1_0000_0000)
    case Struct(_, members) =>
      && members != []
      && (forall k | 0 <= k < |members| :: HostShareable(members[k].ty, m) && members[k].offset.Some?)
      && (forall k | 0 < k < |members| ::
            members[k - 1].offset.value + MinSize(members[k - 1].ty, m) <= members[k].offset.value)
      && Align(t, m) > 0 && FloatCovers(End(t, m), Align(t, m))
    case Alias(_, sub) => HostShareable(sub, m)
    case Access(_, sub) => HostShareable(sub, m)
    case _ => false
  }

  /** Where the last member ends. */
  function End(t: Type, m: MemoryLayout): nat
    requires t.Struct? && t.members != []
  {
    var last := t.members[|t.members| - 1];
    (if last.offset.Some? then last.offset.value else 0) + if MinSize(last.ty, m) < 0 then 0 else MinSize(last.ty, m)
  }

  /** Row i of column j, when columns stand `pitch` bytes apart. */
  function InColumn(pitch: nat, j: nat, i: nat): nat {
    Span(j, pitch) + 4 * i
  }

  /** A scalar of t lies at byte `off`; of a runtime array only the first element exists for sure. */
  ghost predicate LeafAt(t: Type, m: MemoryLayout, off: int) {
    match t
    case F32 => off == 0 case I32 => off == 0 case U32 => off == 0
    case Vector(elem, size) => exists i | 0 <= i < size :: LeafAt(elem, m, off - i * 4)
    case Matrix(elem, rows, columns) =>
      exists pitch, j, i | 0 <= j < columns && 0 <= i < rows ::
        LeastHolding(pitch, 4 * rows) && off == InColumn(pitch, j, i)
    case Array(elem, size, stride) =>
      stride.Some? && exists i | 0 <= i < (if size == 0 then 1 else size) :: LeafAt(elem, m, off - Span(i, stride.value))
    case Struct(_, members) =>
      exists k | 0 <= k < |members| :: members[k].offset.Some? && LeafAt(members[k].ty, m, off - members[k].offset.value)
    case Alias(_, sub) => LeafAt(sub, m, off)
    case Access(_, sub) => LeafAt(sub, m, off)
    case _ => false
  }

  /** The four bytes of every scalar lie inside the binding size, at any depth of nesting. */
  lemma {:induction false} SizeCovers(t: Type, m: MemoryLayout, off: int)
    requires HostShareable(t, m) && LeafAt(t, m, off)
    ensures 0 <= off && off + 4 <= MinSize(t, m)
  {
    match t {
      case Vector(elem, size) =>
        VectorCovers(t, m, off);
      case Matrix(elem, rows, columns) =>
        MatrixCovers(t, m, off);
      case Array(elem, size, stride) =>
        var i := LeafElement(t, m, off);
        SizeCovers(elem, m, off - Span(i, stride.value));
      case Struct(_, members) =>
        var k := LeafMember(t, m, off);
        SizeCovers(members[k].ty, m, off - members[k].offset.value);
      case Alias(_, sub) => SizeCovers(sub, m, off);
      case Access(_, sub) => SizeCovers(sub, m, off);
      case _ =>
    }
  }

  lemma VectorCovers(t: Type, m: MemoryLayout, off: int)
    requires t.Vector? && HostShareable(t, m) && LeafAt(t, m, off)
    ensures 0 <= off && off + 4 <= MinSize(t, m)
  {
  }

  /** The element a scalar of an array lies in, which itself lies inside the array's size. */
  lemma LeafElement(t: Type, m: MemoryLayout, off: int) returns (i: nat)
    requires t.Array? && HostShareable(t, m) && LeafAt(t, m, off)
    ensures HostShareable(t.elem, m) && LeafAt(t.elem, m, off - Span(i, t.stride.value))
    ensures Span(i, t.stride.value) + MinSize(t.elem, m) <= MinSize(t, m)
  {
    var k :| 0 <= k < (if t.size == 0 then 1 else t.size) && LeafAt(t.elem, m, off - Span(k, t.stride.value));
    i := k;
    ElementCovers(t, m, i);
  }

  lemma LeafMember(t: Type, m: MemoryLayout, off: int) returns (k: nat)
    requires t.Struct? && HostShareable(t, m) && LeafAt(t, m, off)
    ensures k < |t.members| && HostShareable(t.members[k].ty, m) && t.members[k].offset.Some?
    ensures LeafAt(t.members[k].ty, m, off - t.members[k].offset.value)
    ensures t.members[k].offset.value + MinSize(t.members[k].ty, m) <= MinSize(t, m)
  {
    k := LeafOfMember(t, m, off);
    MemberCovers(t, m, k);
  }

  lemma LeafOfMember(t: Type, m: MemoryLayout, off: int) returns (k: nat)
    requires t.Struct? && LeafAt(t, m, off)
    ensures k < |t.members| && t.members[k].offset.Some?
    ensures LeafAt(t.members[k].ty, m, off - t.members[k].offset.value)
  {
    k :| 0 <= k < |t.members| && t.members[k].offset.Some?
         && LeafAt(t.members[k].ty, m, off - t.members[k].offset.value);
  }

  lemma ElementCovers(t: Type, m: MemoryLayout, i: nat)
    requires t.Array? && HostShareable(t, m) && i < (if t.size == 0 then 1 else t.size)
    ensures Span(i, t.stride.value) + MinSize(t.elem, m) <= MinSize(t, m)
  {
    if t.size > 0 {
      StrideOrder(i, t.size - 1, t.stride.value);
    }
  }

  lemma MemberCovers(t: Type, m: MemoryLayout, k: nat)
    requires t.Struct? && HostShareable(t, m) && k < |t.members|
    ensures t.members[k].offset.value + MinSize(t.members[k].ty, m) <= MinSize(t, m)
  {
    MembersOrdered(t.members, m, k, |t.members| - 1);
    StructCovers(t, m);
  }

  lemma StrideOrder(i: nat, n: nat, stride: nat)
    requires i <= n
    ensures Span(i, stride) <= Span(n, stride)
  {
    assert n * stride == i * stride + (n - i) * stride;
  }

  lemma MatrixCovers(t: Type, m: MemoryLayout, off: int)
    requires t.Matrix? && HostShareable(t, m) && LeafAt(t, m, off)
    ensures 0 <= off && off + 4 <= MinSize(t, m)
  {
    var pitch, j, i :| 0 <= j < t.columns && 0 <= i < t.rows &&
      LeastHolding(pitch, 4 * t.rows) && off == InColumn(pitch, j, i);
    VectorAlignLeast(pitch, t.rows);
    StrideOrder(j, t.columns - 1, pitch);
  }

  /** Vectors, matrices and arrays of known size, and what they hold. */
  predicate Fixed(t: Type) {
    match t
    case Array(elem, size, _) => size > 0 && Fixed(elem)
    case Struct(_, _) => false
    case Alias(_, sub) => Fixed(sub)
    case Access(_, sub) => Fixed(sub)
    case _ => true
  }

  /** Sizes of these are tight: some scalar ends exactly there. A struct's last member of such a type ends
      exactly where rounding up starts. */
  lemma {:induction false} SizeTight(t: Type, m: MemoryLayout)
    requires HostShareable(t, m) && Fixed(t)
    ensures LeafAt(t, m, MinSize(t, m) - 4)
  {
    match t {
      case Vector(elem, size) =>
        assert LeafAt(elem, m, MinSize(t, m) - 4 - (size - 1) * 4);
      case Matrix(_, _, _) => MatrixTight(t, m);
      case Array(elem, size, stride) =>
        SizeTight(elem, m);
        assert MinSize(elem, m) - 4 == MinSize(t, m) - 4 - Span(size - 1, stride.value);
      case Alias(_, sub) => SizeTight(sub, m);
      case Access(_, sub) => SizeTight(sub, m);
      case _ =>
    }
  }

  lemma MatrixTight(t: Type, m: MemoryLayout)
    requires t.Matrix? && HostShareable(t, m)
    ensures LeafAt(t, m, MinSize(t, m) - 4)
  {
    var pitch, j, i := VectorAlign(4, t.rows), t.columns - 1, t.rows - 1;
    VectorAlignLeast(pitch, t.rows);
    assert Span(j, pitch) == (t.columns - 1) * VectorAlign(4, t.rows);
    assert MinSize(t, m) - 4 == InColumn(pitch, j, i);
  }

  /** A runtime array's size is where a second element would begin. */
  lemma RuntimeTight(t: Type, m: MemoryLayout, off: int)
    requires t.Array? && t.size == 0 && HostShareable(t, m) && LeafAt(t.elem, m, off)
    ensures LeafAt(t, m, off) && LeafAt(Array(t.elem, 2, t.stride), m, MinSize(t, m) + off)
  {
    assert off - Span(0, t.stride.value) == off;
    assert MinSize(t, m) + off - Span(1, t.stride.value) == off;
  }

  lemma StructTight(t: Type, m: MemoryLayout)
    requires t.Struct? && HostShareable(t, m) && Fixed(t.members[|t.members| - 1].ty)
    ensures LeafAt(t, m, End(t, m) - 4) && MinSize(t, m) >= End(t, m)
  {
    var k := |t.members| - 1;
    SizeTight(t.members[k].ty, m);
    StructCovers(t, m);
    assert LeafAt(t.members[k].ty, m, End(t, m) - 4 - t.members[k].offset.value);
  }

  /** Every host-shareable type has a size. */
  lemma {:induction false} HasSize(t: Type, m: MemoryLayout)
    requires HostShareable(t, m)
    ensures MinSize(t, m) > 0 && Plain(t)
  {
    match t {
      case Array(elem, _, _) => HasSize(elem, m);
      case Struct(_, members) =>
        forall k | 0 <= k < |members|
          ensures MinSize(members[k].ty, m) > 0 && Plain(members[k].ty)
        {
          HasSize(members[k].ty, m);
        }
        StructSize(t, m);
      case Alias(_, sub) => HasSize(sub, m);
      case Access(_, sub) => HasSize(sub, m);
      case _ =>
    }
  }

  lemma StructSize(t: Type, m: MemoryLayout)
    requires t.Struct? && HostShareable(t, m) && Plain(t) && MinSize(t.members[|t.members| - 1].ty, m) > 0
    ensures MinSize(t, m) == FloatRoundUp(End(t, m), Align(t, m)) >= End(t, m) > 0
    ensures Align(t, m) == 4 || Align(t, m) == 8 || Align(t, m) == 16
  {
    AlignmentValues(t, m);
    RoundUpCovers(End(t, m), Align(t, m));
  }

  lemma StructCovers(t: Type, m: MemoryLayout)
    requires t.Struct? && HostShareable(t, m)
    ensures MinSize(t, m) >= End(t, m)
    ensures End(t, m) == t.members[|t.members| - 1].offset.value + MinSize(t.members[|t.members| - 1].ty, m)
  {
    HasSize(t, m);
    HasSize(t.members[|t.members| - 1].ty, m);
    StructSize(t, m);
  }

  lemma {:induction false} MembersOrdered(members: seq<Member>, m: MemoryLayout, i: nat, j: nat)
    requires i <= j < |members|
    requires forall k | 0 <= k < |members| :: HostShareable(members[k].ty, m) && members[k].offset.Some?
    requires forall k | 0 < k < |members| ::
               members[k - 1].offset.value + MinSize(members[k - 1].ty, m) <= members[k].offset.value
    ensures members[i].offset.value + MinSize(members[i].ty, m) <= members[j].offset.value + MinSize(members[j].ty, m)
    decreases j - i
  {
    if i < j {
      MembersOrdered(members, m, i, j - 1);
      HasSize(members[j].ty, m);
    }
  }

  /** A struct's size is the least multiple of its alignment that holds its members exactly when float
      rounding is exact there, as it always is below 2^24 bytes. */
  lemma LeastMultiple(t: Type, m: MemoryLayout)
    requires t.Struct? && HostShareable(t, m)
    ensures Align(t, m) > 0 && IsLeastMultiple(MinSize(t, m), End(t, m), Align(t, m)) <==> FloatExact(End(t, m), Align(t, m))
    ensures End(t, m) < EXACT ==> FloatExact(End(t, m), Align(t, m))
  {
    HasSize(t, m);
    HasSize(t.members[|t.members| - 1].ty, m);
    StructSize(t, m);
    RoundUpExact(End(t, m), Align(t, m));
    LeastIsCeil(MinSize(t, m), End(t, m), Align(t, m));
  }

  ghost predicate IsLeastMultiple(size: int, end: int, a: nat)
    requires a > 0
  {
    size % a == 0 && size >= end && forall n | n % a == 0 && n >= end :: size <= n
  }

  lemma LeastIsCeil(size: int, end: int, a: nat)
    requires a == 4 || a == 8 || a == 16
    ensures IsLeastMultiple(size, end, a) <==> size == CeilTo(end, a)
  {
    CeilFacts(end, a);
    forall n | n % a == 0 && n >= end
      ensures CeilTo(end, a) <= n
    {
      CeilLeast(end, a, n);
    }
  }

  // --- Where the arithmetic falls short ---

  /** An array's size reaches its last element exactly when the 32-bit product does not wrap. */
  lemma WrapExact(elem: Type, size: nat, stride: nat, m: MemoryLayout)
    requires size > 0
    ensures MinSize(Array(elem, size, Some(stride)), m) >= Span(size - 1, stride) + MinSize(elem, m)
       <==> Span(size - 1, stride) < 0x1_0000_0000
  {
  }

  /** From 2^26 bytes on, rounding in float can drop the last scalar of a buffer. */
  lemma FloatLosesBytes()
    ensures
      var t := Struct(1, [Member("data", Array(U32, 0x100_0001, Some(4)), Some(0))]);
      && LeafAt(t, StorageBuffer, 0x400_0000)
      && MinSize(t, StorageBuffer) == 0x400_0000
  {
    var array_ := Array(U32, 0x100_0001, Some(4));
    var t := Struct(1, [Member("data", array_, Some(0))]);
    assert Span(0x100_0000, 4) == 0x400_0000;
    assert LeafAt(U32, StorageBuffer, 0x400_0000 - Span(0x100_0000, 4));
    assert LeafAt(array_, StorageBuffer, 0x400_0000 - 0);
    assert t.members[0].offset.Some? && LeafAt(t.members[0].ty, StorageBuffer, 0x400_0000 - t.members[0].offset.value);
    assert MaxAlign(t.members, StorageBuffer) == 4;
    assert MinSize(array_, StorageBuffer) == 0x400_0004;
    assert Ulp(0x400_0004) == 2 * Ulp(0x200_0002) == 4 * Ulp(0x100_0001) == 8 * Ulp(0x80_0000) == 8;
    assert ToFloat(0x400_0004) == 0x400_0000;
  }
}
