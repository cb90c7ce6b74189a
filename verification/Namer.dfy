/** Names for SPIR-V ids and struct members (src/reader/spirv/namer.cc). */
module Namer {
  import Decimal
  import opened Sets

  const RESERVED: seq<string> := [
    "array", "as", "asm", "bf16", "binding", "block", "bool", "break", "builtin", "case", "cast", "compute",
    "const", "constant_id", "continue", "default", "discard", "do", "else", "elseif", "entry_point", "enum",
    "f16", "f32", "fallthrough", "false", "fn", "for", "fragment", "i16", "i32", "i64", "i8", "if", "image",
    "import", "in", "let", "location", "loop", "mat2x2", "mat2x3", "mat2x4", "mat3x2", "mat3x3", "mat3x4",
    "mat4x2", "mat4x3", "mat4x4", "offset", "out", "premerge", "private", "ptr", "regardless", "return", "set",
    "storage", "struct", "switch", "true", "type", "typedef", "u16", "u32", "u64", "u8", "uniform",
    "uniform_constant", "unless", "using", "var", "vec2", "vec3", "vec4", "vertex", "void", "while", "workgroup"
  ]

  // --- Sanitized names ---

  predicate IsLetter(c: char) {
    'a' <= c <= 'z' || 'A' <= c <= 'Z'
  }

  predicate IsNameChar(c: char) {
    IsLetter(c) || c == '_' || Decimal.IsDigit(c)
  }

  /** An identifier: a letter, then letters, digits and underscores. */
  predicate IsIdentifier(s: string) {
    |s| > 0 && IsLetter(s[0]) && forall i | 0 <= i < |s| :: IsNameChar(s[i])
  }

  /** The first character cannot start a name: it is an underscore, a digit or not valid at all. */
  predicate NeedsPrefix(c: char) {
    c == '_' || Decimal.IsDigit(c) || !IsNameChar(c)
  }

  method Sanitize(suggested: string) returns (result: string)
    ensures result == Sanitized(suggested)
  {
    if suggested == "" {
      return "empty";
    }
    result := if NeedsPrefix(suggested[0]) then "x" else "";
    var i := 0;
    while i < |suggested|
      invariant 0 <= i <= |suggested|
      invariant result == (if NeedsPrefix(suggested[0]) then "x" else "") + Replaced(suggested[..i])
    {
      result := result + [if IsNameChar(suggested[i]) then suggested[i] else '_'];
      i := i + 1;
    }
    assert suggested[..i] == suggested;
  }

  function Replaced(s: string): (r: string)
    ensures |r| == |s|
  {
    seq(|s|, i requires 0 <= i < |s| => if IsNameChar(s[i]) then s[i] else '_')
  }

  function Sanitized(s: string): string {
    if s == "" then "empty"
    else (if NeedsPrefix(s[0]) then "x" else "") + Replaced(s)
  }

  /** A sanitized name is an identifier, and a suggestion that already is one is kept. */
  lemma SanitizedIsIdentifier(s: string)
    ensures IsIdentifier(Sanitized(s))
    ensures IsIdentifier(s) ==> Sanitized(s) == s
  {
  }

  const LOWER := "abcdefghijklmnopqrstuvwxyz"
  const UPPER := "ABCDEFGHIJKLMNOPQRSTUVWXYZ"
  const DIGITS := "0123456789"

  lemma LowerIs(c: char)
    ensures 'a' <= c <= 'z' <==> c in LOWER
  {
    if 'a' <= c <= 'z' {
      assert LOWER[c as int - 'a' as int] == c;
    }
  }

  lemma UpperIs(c: char)
    ensures 'A' <= c <= 'Z' <==> c in UPPER
  {
    if 'A' <= c <= 'Z' {
      assert UPPER[c as int - 'A' as int] == c;
    }
  }

  lemma DigitIs(c: char)
    ensures Decimal.IsDigit(c) <==> c in DIGITS
  {
    if Decimal.IsDigit(c) {
      assert DIGITS[c as int - '0' as int] == c;
    }
  }

  lemma NameCharIs(c: char)
    ensures IsNameChar(c) <==> c in LOWER || c in UPPER || c == '_' || c in DIGITS
    ensures Decimal.IsDigit(c) <==> c in DIGITS
  {
    LowerIs(c);
    UpperIs(c);
    DigitIs(c);
  }

  /** The valid characters. */
  predicate Listed(c: char) {
    c in LOWER || c in UPPER || c == '_' || c in DIGITS
  }

  /** r is s character by character behind a prefix of p characters: what is not in the lists of valid ones has
      become an underscore. */
  predicate Cleaned(s: string, r: string, p: nat) {
    |r| == p + |s| && forall i | 0 <= i < |s| :: r[p + i] == if Listed(s[i]) then s[i] else '_'
  }

  /** An x comes first where the name would otherwise start with an underscore, a digit or an invalid character. */
  lemma SanitizedChars(s: string)
    ensures s == "" ==> Sanitized(s) == "empty"
    ensures s != "" && (s[0] == '_' || s[0] in DIGITS || !Listed(s[0])) ==> Sanitized(s)[0] == 'x' && Cleaned(s, Sanitized(s), 1)
    ensures s != "" && !(s[0] == '_' || s[0] in DIGITS || !Listed(s[0])) ==> Cleaned(s, Sanitized(s), 0)
  {
    if s != "" {
      NameCharIs(s[0]);
      ReplacedChars(s);
      if NeedsPrefix(s[0]) {
        CleanedBehind(s, Replaced(s), 'x');
        assert Sanitized(s) == ['x'] + Replaced(s);
      } else {
        assert Sanitized(s) == Replaced(s);
      }
    }
  }

  lemma CleanedBehind(s: string, r: string, c: char)
    requires Cleaned(s, r, 0)
    ensures Cleaned(s, [c] + r, 1)
  {
    assert ([c] + r)[1..] == r;
  }

  lemma ReplacedChars(s: string)
    ensures Cleaned(s, Replaced(s), 0)
  {
    forall i | 0 <= i < |s|
      ensures Replaced(s)[i] == if Listed(s[i]) then s[i] else '_'
    {
      NameCharIs(s[i]);
    }
  }

  // --- Derived names ---

  /** The k-th name tried for a base: the base itself, then base_1, base_2, ... */
  function Candidate(base: string, k: nat): string {
    if k == 0 then base else base + "_" + Decimal.ToString(k)
  }

  lemma CandidatesDiffer(base: string, j: nat, k: nat)
    requires Candidate(base, j) == Candidate(base, k)
    ensures j == k
  {
    if j != 0 && k != 0 {
      assert Candidate(base, j)[|base| + 1..] == Decimal.ToString(j);
      assert Candidate(base, k)[|base| + 1..] == Decimal.ToString(k);
      Decimal.Injective(j, k);
    } else {
      assert j > 0 ==> |Candidate(base, j)| > |base|;
      assert k > 0 ==> |Candidate(base, k)| > |base|;
    }
  }

  lemma CandidateIsIdentifier(base: string, k: nat)
    requires IsIdentifier(base)
    ensures IsIdentifier(Candidate(base, k))
  {
  }

  ghost function FirstCandidates(base: string, from: nat, n: nat): (s: set<string>)
    ensures forall k | from <= k < n :: Candidate(base, k) in s
  {
    set k | from <= k < n :: Candidate(base, k)
  }

  lemma {:induction false} ManyCandidates(base: string, from: nat, n: nat)
    requires from <= n
    ensures |FirstCandidates(base, from, n)| == n - from
    decreases n
  {
    if from < n {
      ManyCandidates(base, from, n - 1);
      var s := FirstCandidates(base, from, n - 1);
      if Candidate(base, n - 1) in s {
        var k :| from <= k < n - 1 && Candidate(base, k) == Candidate(base, n - 1);
        CandidatesDiffer(base, k, n - 1);
      }
      assert FirstCandidates(base, from, n) == s + {Candidate(base, n - 1)};
    } else {
      assert FirstCandidates(base, from, n) == {};
    }
  }

  /** Pigeonhole: of more candidates than there are used names, one is unused. */
  lemma SomeUnused(base: string, used: set<string>, from: nat)
    ensures exists k :: from <= k <= from + |used| && Candidate(base, k) !in used
  {
    if forall k | from <= k <= from + |used| :: Candidate(base, k) in used {
      ManyCandidates(base, from, from + |used| + 1);
      assert FirstCandidates(base, from, from + |used| + 1) <= used;
      SubsetSize(FirstCandidates(base, from, from + |used| + 1), used);
    }
  }

  /** The number of the first unused candidate, at most as many tries away as there are used names. */
  ghost function FirstUnused(base: string, used: set<string>, from: nat): (k: nat)
    ensures from <= k <= from + |used| && Candidate(base, k) !in used
    ensures forall j | from <= j < k :: Candidate(base, j) in used
  {
    SomeUnused(base, used, from);
    var bound :| from <= bound <= from + |used| && Candidate(base, bound) !in used;
    Search(base, used, from, bound)
  }

  ghost function Search(base: string, used: set<string>, from: nat, bound: nat): (k: nat)
    requires from <= bound && Candidate(base, bound) !in used
    ensures from <= k <= bound && Candidate(base, k) !in used
    ensures forall j | from <= j < k :: Candidate(base, j) in used
    decreases bound - from
  {
    if Candidate(base, from) !in used then from else Search(base, used, from + 1, bound)
  }

  /** The unused name the search settles on. */
  ghost function Derived(base: string, used: set<string>): (name: string)
    ensures name !in used
    ensures base !in used ==> name == base
    ensures IsIdentifier(base) ==> IsIdentifier(name)
  {
    CandidateIsIdentifier2(base, FirstUnused(base, used, 0));
    Candidate(base, FirstUnused(base, used, 0))
  }

  function Numbered(base: string, k: nat): string {
    base + "_" + Decimal.ToString(k)
  }

  ghost predicate LeastFree(base: string, used: set<string>, k: nat) {
    k > 0 && Numbered(base, k) !in used && forall j: nat | 0 < j < k :: Numbered(base, j) in used
  }

  /** The derived name is the base itself if it is free, and otherwise the base with the least number from 1 on
      that makes a free one. */
  lemma DerivedLeast(base: string, used: set<string>)
    ensures base !in used ==> Derived(base, used) == base
    ensures base in used ==> exists k :: LeastFree(base, used, k) && Derived(base, used) == Numbered(base, k)
  {
    var k := FirstUnused(base, used, 0);
    assert forall j: nat | j < k :: Candidate(base, j) in used;
    assert Candidate(base, 0) == base;
    assert k > 0 ==> Derived(base, used) == Numbered(base, k);
    forall j: nat | 0 < j < k
      ensures Numbered(base, j) in used
    {
      assert Candidate(base, j) in used;
    }
    assert k > 0 ==> LeastFree(base, used, k);
  }

  lemma CandidateIsIdentifier2(base: string, k: nat)
    ensures IsIdentifier(base) ==> IsIdentifier(Candidate(base, k))
  {
    if IsIdentifier(base) {
      CandidateIsIdentifier(base, k);
    }
  }

  ghost predicate Distinct(names: seq<string>) {
    forall i, j | 0 <= i < j < |names| :: names[i] != names[j]
  }

  /** vector::resize(): cuts, or pads with empty strings. */
  function Resize(v: seq<string>, n: nat): (r: seq<string>)
    ensures |r| == n
    ensures forall i | 0 <= i < n :: r[i] == if i < |v| then v[i] else ""
  {
    seq(n, i requires 0 <= i < n => if i < |v| then v[i] else "")
  }

  function MemberNames(names: map<nat, seq<string>>, structId: nat): seq<string> {
    if structId in names then names[structId] else []
  }

  class Namer {
    var idToName: map<nat, string>
    var nameToId: map<string, nat>
    var structMemberNames: map<nat, seq<string>>
    /** The names given out so far, in order: to ids and as derived names. */
    ghost var issued: seq<string>
    /** The reserved words. */
    const reserved: seq<string>

    /** Ids and their names are mutually inverse; names given out are pairwise distinct and never
        reserved words; member suggestions are sanitized or still missing. */
    ghost predicate Valid()
      reads this
    {
      && (forall w | w in reserved :: w in nameToId)
      && (forall id | id in idToName ::
            && idToName[id] in nameToId && nameToId[idToName[id]] == id
            && idToName[id] in issued)
      && Distinct(issued)
      && (forall n | n in issued :: n in nameToId && n !in reserved)
      && (forall n | n in nameToId :: n in reserved || n in issued)
      && (forall sid, k | sid in structMemberNames && 0 <= k < |structMemberNames[sid]| ::
            structMemberNames[sid][k] == "" || IsIdentifier(structMemberNames[sid][k]))
    }

    /** Every id's name is an identifier, as it is when all names come from sanitized suggestions. */
    ghost predicate AllIdentifiers()
      reads this
    {
      forall id | id in idToName :: IsIdentifier(idToName[id])
    }

    constructor ()
      ensures Valid() && AllIdentifiers() && idToName == map[] && issued == [] && structMemberNames == map[]
      ensures reserved == RESERVED && forall n :: n in nameToId <==> n in reserved
    {
      idToName, nameToId, structMemberNames, issued, reserved := map[], map[], map[], [], RESERVED;
      new;
      var i := 0;
      while i < |reserved|
        invariant 0 <= i <= |reserved|
        invariant idToName == map[] && issued == [] && structMemberNames == map[]
        invariant forall n :: n in nameToId <==> n in reserved[..i]
      {
        nameToId := nameToId[reserved[i] := 0];
        i := i + 1;
      }
    }

    /** Different ids never share a name. */
    lemma IdsApart(a: nat, b: nat)
      requires Valid() && a in idToName && b in idToName && idToName[a] == idToName[b]
      ensures a == b
    {
    }

    /** Tries the candidates in turn; the number of tries is at most one more than the number of
        registered names, which must leave the counter an int. */
    method FindUnusedDerivedName(base: string) returns (name: string)
      requires |nameToId| < 0x7FFF_FFFF
      ensures name == Derived(base, nameToId.Keys)
    {
      ghost var last := FirstUnused(base, nameToId.Keys, 0);
      var i := 0;
      name := base;
      while name in nameToId
        invariant 0 <= i <= last <= |nameToId.Keys| && name == Candidate(base, i)
        decreases last - i
      {
        i := i + 1;
        name := base + "_" + Decimal.ToString(i);
      }
    }

    method MakeDerivedName(base: string) returns (name: string)
      requires Valid() && |nameToId| < 0x7FFF_FFFF
      modifies this`nameToId, this`issued
      ensures Valid() && issued == old(issued) + [name]
      ensures name == Derived(base, old(nameToId).Keys) && nameToId == old(nameToId)[name := 0]
      ensures IsIdentifier(base) ==> IsIdentifier(name)
    {
      name := FindUnusedDerivedName(base);
      nameToId := nameToId[name := 0];
      issued := issued + [name];
    }

    predicate HasName(id: nat)
      reads this
    {
      id in idToName
    }

    /** Fails and changes nothing when the id already has a name. Any name is taken over: the namer
        stays valid exactly when it was not taken yet, and keeps to identifiers exactly when it is one. */
    method SaveName(id: nat, name: string) returns (ok: bool)
      modifies this`idToName, this`nameToId, this`issued
      ensures ok == !old(HasName(id))
      ensures !ok ==> idToName == old(idToName) && nameToId == old(nameToId) && issued == old(issued)
      ensures ok ==> idToName == old(idToName)[id := name] && nameToId == old(nameToId)[name := id]
                     && issued == old(issued) + [name]
      ensures ok && old(Valid()) ==> (Valid() <==> name !in old(nameToId))
      ensures ok && old(AllIdentifiers()) ==> (AllIdentifiers() <==> IsIdentifier(name))
    {
      if HasName(id) {
        return false;
      }
      idToName := idToName[id := name];
      nameToId := nameToId[name := id];
      issued := issued + [name];
      ok := true;
      IssuedMore(old(issued), name);
      assert id in idToName;
    }

    lemma IssuedMore(names: seq<string>, name: string)
      ensures Distinct(names + [name]) <==> Distinct(names) && name !in names
      ensures forall n :: n in names + [name] <==> n in names || n == name
    {
      var all := names + [name];
      if name in names {
        var k :| 0 <= k < |names| && names[k] == name;
        assert all[k] == all[|names|];
      }
      if Distinct(all) {
        assert forall i, j | 0 <= i < j < |names| :: names[i] == all[i] && names[j] == all[j];
      }
    }

    method SuggestSanitizedName(id: nat, suggested: string) returns (ok: bool)
      requires Valid() && |nameToId| < 0x7FFF_FFFF
      modifies this`idToName, this`nameToId, this`issued
      ensures Valid() && ok == !old(HasName(id))
      ensures old(AllIdentifiers()) ==> AllIdentifiers()
      ensures !ok ==> idToName == old(idToName) && nameToId == old(nameToId) && issued == old(issued)
      ensures ok ==>
        var name := Derived(Sanitized(suggested), old(nameToId).Keys);
        && idToName == old(idToName)[id := name] && nameToId == old(nameToId)[name := id]
        && issued == old(issued) + [name] && IsIdentifier(name)
    {
      if HasName(id) {
        return false;
      }
      var base := Sanitize(suggested);
      SanitizedIsIdentifier(suggested);
      var name := FindUnusedDerivedName(base);
      ok := SaveName(id, name);
    }

    /** The id's name, made from its number if it has none. */
    method Name(id: nat) returns (name: string)
      requires Valid() && |nameToId| < 0x7FFF_FFFF
      modifies this`idToName, this`nameToId, this`issued
      ensures Valid() && id in idToName && name == idToName[id]
      ensures old(AllIdentifiers()) ==> AllIdentifiers()
      ensures old(HasName(id)) ==> idToName == old(idToName) && nameToId == old(nameToId) && issued == old(issued)
      ensures !old(HasName(id)) ==>
        name == Derived(Sanitized("x_" + Decimal.ToString(id)), old(nameToId).Keys)
        && idToName == old(idToName)[id := name] && nameToId == old(nameToId)[name := id]
    {
      if !HasName(id) {
        var _ := SuggestSanitizedName(id, "x_" + Decimal.ToString(id));
      }
      name := idToName[id];
    }

    /** The first suggestion for a member wins. */
    method SuggestSanitizedMemberName(structId: nat, index: nat, suggested: string) returns (ok: bool)
      requires Valid() && index < 0xFFFF_FFFF
      modifies this`structMemberNames
      ensures Valid()
      ensures
        var v := MemberNames(old(structMemberNames), structId);
        var w := Resize(v, if |v| < index + 1 then index + 1 else |v|);
        && ok == (w[index] == "")
        && structMemberNames == old(structMemberNames)[structId := if ok then w[index := Sanitized(suggested)] else w]
    {
      var v := MemberNames(structMemberNames, structId);
      var w := Resize(v, if |v| < index + 1 then index + 1 else |v|);
      ok := w[index] == "";
      if ok {
        var name := Sanitize(suggested);
        SanitizedIsIdentifier(suggested);
        w := w[index := name];
      }
      structMemberNames := structMemberNames[structId := w];
    }

    /** The lambda that picks a name not used yet, starting from the suggestion. */
    static method Disambiguate(used: set<string>, suggestion: string) returns (name: string)
      requires |used| < 0xFFFF_FFFF
      ensures name == Derived(suggestion, used)
    {
      if suggestion !in used {
        return suggestion;
      }
      ghost var last := FirstUnused(suggestion, used, 0);
      var i := 1;
      name := suggestion + "_" + Decimal.ToString(1);
      while name in used
        invariant 1 <= i <= last <= |used| && name == Candidate(suggestion, i)
        decreases last - i
      {
        i := i + 1;
        name := suggestion + "_" + Decimal.ToString(i);
      }
    }

    /** Ends with a name for each member: all are identifiers and pairwise distinct; first every
        suggestion is made different from the earlier ones, and then the missing names are made up. */
    method ResolveMemberNamesForStruct(structId: nat, numMembers: nat)
      requires Valid() && numMembers < 0xFFFF_FFFF
      modifies this`structMemberNames
      ensures Valid()
      ensures structId in structMemberNames
      ensures structMemberNames == old(structMemberNames)[structId := structMemberNames[structId]]
      ensures Resolution(Resize(MemberNames(old(structMemberNames), structId), numMembers), structMemberNames[structId])
    {
      var suggested := Resize(MemberNames(structMemberNames, structId), numMembers);
      var names, used := ResolveSuggested(suggested);
      names := GenerateMissing(suggested, names, used);
      structMemberNames := structMemberNames[structId := names];
    }
  }

  ghost predicate Suggestions(s: seq<string>) {
    forall i | 0 <= i < |s| :: s[i] == "" || IsIdentifier(s[i])
  }

  /** The names taken so far: the non-empty ones, all different, exactly those in `used`. */
  ghost predicate Taken(names: seq<string>, used: set<string>) {
    && Suggestions(names)
    && (forall i, j | 0 <= i < j < |names| && names[i] != "" :: names[i] != names[j])
    && (forall i | 0 <= i < |names| && names[i] != "" :: names[i] in used)
    && (forall x | x in used :: x in names && x != "")
  }

  lemma TakeOne(names: seq<string>, used: set<string>, i: nat, name: string)
    requires Taken(names, used) && i < |names| && names[i] == "" && name !in used && IsIdentifier(name)
    ensures Taken(names[i := name], used + {name})
  {
    var names' := names[i := name];
    assert names'[i] == name;
    forall x | x in used + {name}
      ensures x in names'
    {
      if x in used {
        var j :| 0 <= j < |names| && names[j] == x;
        assert names'[j] == x;
      }
    }
  }

  /** The final names of the suggested members before the i-th. */
  function Earlier(suggested: seq<string>, names: seq<string>, i: nat): set<string>
    requires i <= |suggested| == |names|
  {
    if i == 0 then {}
    else Earlier(suggested, names, i - 1) + if suggested[i - 1] != "" then {names[i - 1]} else {}
  }

  /** The final names of all suggested members and of all members before the i-th. */
  function Before(suggested: seq<string>, names: seq<string>, i: nat): set<string>
    requires i <= |suggested| == |names|
  {
    if i == 0 then Earlier(suggested, names, |names|) else Before(suggested, names, i - 1) + {names[i - 1]}
  }

  lemma {:induction false} EarlierAgrees(suggested: seq<string>, a: seq<string>, b: seq<string>, i: nat)
    requires i <= |suggested| == |a| == |b| && forall j | 0 <= j < i && suggested[j] != "" :: a[j] == b[j]
    ensures Earlier(suggested, a, i) == Earlier(suggested, b, i)
  {
    if i > 0 {
      EarlierAgrees(suggested, a, b, i - 1);
    }
  }

  lemma {:induction false} BeforeAgrees(suggested: seq<string>, a: seq<string>, b: seq<string>, i: nat)
    requires i <= |suggested| == |a| == |b|
    requires forall j | 0 <= j < |a| && (j < i || suggested[j] != "") :: a[j] == b[j]
    ensures Before(suggested, a, i) == Before(suggested, b, i)
  {
    if i > 0 {
      BeforeAgrees(suggested, a, b, i - 1);
    } else {
      EarlierAgrees(suggested, a, b, |a|);
    }
  }

  /** The i-th suggestion, if there is one, has become the first name derived from it that no earlier one
      has become. */
  ghost predicate KeptAt(suggested: seq<string>, names: seq<string>, i: nat)
    requires i < |suggested| == |names|
  {
    suggested[i] != "" ==> names[i] == Derived(suggested[i], Earlier(suggested, names, i))
  }

  ghost predicate Kept(suggested: seq<string>, names: seq<string>, n: nat)
    requires n <= |suggested| == |names|
  {
    forall i | 0 <= i < n :: KeptAt(suggested, names, i)
  }

  /** The i-th member, if it has no suggestion, has the first name derived from fieldN that no suggested
      member and no earlier member has. */
  ghost predicate GeneratedAt(suggested: seq<string>, names: seq<string>, i: nat)
    requires i < |suggested| == |names|
  {
    suggested[i] == "" ==> names[i] == Derived(FieldName(i), Before(suggested, names, i))
  }

  ghost predicate Generated(suggested: seq<string>, names: seq<string>, n: nat)
    requires n <= |suggested| == |names|
  {
    forall i | 0 <= i < n :: GeneratedAt(suggested, names, i)
  }

  /** Changing other names, or names from n on, keeps what is known before n. */
  lemma KeptAgrees(suggested: seq<string>, a: seq<string>, b: seq<string>, n: nat)
    requires n <= |suggested| == |a| == |b| && Kept(suggested, a, n)
    requires forall j | 0 <= j < n && suggested[j] != "" :: a[j] == b[j]
    ensures Kept(suggested, b, n)
  {
    forall i | 0 <= i < n
      ensures KeptAt(suggested, b, i)
    {
      assert KeptAt(suggested, a, i);
      EarlierAgrees(suggested, a, b, i);
    }
  }

  lemma GeneratedAgrees(suggested: seq<string>, a: seq<string>, b: seq<string>, n: nat)
    requires n <= |suggested| == |a| == |b| && Generated(suggested, a, n)
    requires forall j | 0 <= j < |a| && (j < n || suggested[j] != "") :: a[j] == b[j]
    ensures Generated(suggested, b, n)
  {
    forall i | 0 <= i < n
      ensures GeneratedAt(suggested, b, i)
    {
      assert GeneratedAt(suggested, a, i);
      BeforeAgrees(suggested, a, b, i);
    }
  }

  /** The first pass has come to member n. */
  ghost predicate FirstPass(suggested: seq<string>, names: seq<string>, used: set<string>, n: nat) {
    && n <= |names| == |suggested| && Taken(names, used)
    && (forall i | 0 <= i < n :: names[i] == "" <==> suggested[i] == "")
    && (forall i | n <= i < |names| :: names[i] == "")
    && Kept(suggested, names, n) && used == Earlier(suggested, names, n)
  }

  lemma FirstStep(suggested: seq<string>, names: seq<string>, used: set<string>, n: nat, name: string)
    requires FirstPass(suggested, names, used, n) && n < |suggested| && IsIdentifier(suggested[n])
    requires name == Derived(suggested[n], used)
    ensures FirstPass(suggested, names[n := name], used + {name}, n + 1)
  {
    var names' := names[n := name];
    TakeOne(names, used, n, name);
    FirstKept(suggested, names, used, n, name);
    forall i | 0 <= i < n + 1
      ensures names'[i] == "" <==> suggested[i] == ""
    {
      assert i < n ==> names'[i] == names[i];
    }
  }

  lemma FirstKept(suggested: seq<string>, names: seq<string>, used: set<string>, n: nat, name: string)
    requires n < |suggested| == |names| && Kept(suggested, names, n) && used == Earlier(suggested, names, n)
    requires suggested[n] != "" && name == Derived(suggested[n], used)
    ensures Kept(suggested, names[n := name], n + 1) && Earlier(suggested, names[n := name], n + 1) == used + {name}
  {
    var names' := names[n := name];
    EarlierAgrees(suggested, names, names', n);
    KeptAgrees(suggested, names, names', n);
    assert KeptAt(suggested, names', n);
  }

  lemma FirstSkip(suggested: seq<string>, names: seq<string>, used: set<string>, n: nat)
    requires FirstPass(suggested, names, used, n) && n < |suggested| && suggested[n] == ""
    ensures FirstPass(suggested, names, used, n + 1)
  {
    assert KeptAt(suggested, names, n);
  }

  /** Makes the suggestions different, in order. */
  method ResolveSuggested(suggested: seq<string>) returns (names: seq<string>, used: set<string>)
    requires Suggestions(suggested) && |suggested| < 0xFFFF_FFFF
    ensures FirstPass(suggested, names, used, |suggested|)
  {
    names, used := Resize([], |suggested|), {};
    var n := 0;
    while n < |suggested|
      invariant FirstPass(suggested, names, used, n)
    {
      names, used := ResolveOne(suggested, names, used, n);
      n := n + 1;
    }
  }

  method ResolveOne(suggested: seq<string>, before: seq<string>, taken: set<string>, n: nat) returns (names: seq<string>, used: set<string>)
    requires Suggestions(suggested) && |suggested| < 0xFFFF_FFFF
    requires FirstPass(suggested, before, taken, n) && n < |suggested|
    ensures FirstPass(suggested, names, used, n + 1)
  {
    names, used := before, taken;
    if suggested[n] != "" {
      TakenSize(before, taken);
      var name := Namer.Disambiguate(taken, suggested[n]);
      FirstStep(suggested, before, taken, n, name);
      names := before[n := name];
      used := taken + {name};
    } else {
      FirstSkip(suggested, before, taken, n);
    }
  }

  /** The second pass has come to member n. */
  ghost predicate SecondPass(suggested: seq<string>, resolved: seq<string>, names: seq<string>, used: set<string>, n: nat) {
    && n <= |names| == |resolved| == |suggested| && Taken(names, used)
    && (forall i | 0 <= i < |names| && suggested[i] != "" :: names[i] == resolved[i] != "")
    && (forall i | 0 <= i < n :: names[i] != "")
    && (forall i | n <= i < |names| && suggested[i] == "" :: names[i] == "")
    && Generated(suggested, names, n) && used == Before(suggested, names, n)
  }

  lemma SecondStep(suggested: seq<string>, resolved: seq<string>, names: seq<string>, used: set<string>, n: nat, name: string)
    requires SecondPass(suggested, resolved, names, used, n) && n < |suggested| && suggested[n] == ""
    requires name == Derived(FieldName(n), used)
    ensures SecondPass(suggested, resolved, names[n := name], used + {name}, n + 1)
  {
    var names' := names[n := name];
    FieldIsIdentifier(n);
    TakeOne(names, used, n, name);
    SecondGenerated(suggested, names, used, n, name);
    forall i | 0 <= i < n + 1
      ensures names'[i] != ""
    {
      assert i < n ==> names'[i] == names[i];
    }
  }

  lemma SecondGenerated(suggested: seq<string>, names: seq<string>, used: set<string>, n: nat, name: string)
    requires n < |suggested| == |names| && Generated(suggested, names, n) && used == Before(suggested, names, n)
    requires suggested[n] == "" && name == Derived(FieldName(n), used)
    ensures Generated(suggested, names[n := name], n + 1) && Before(suggested, names[n := name], n + 1) == used + {name}
  {
    var names' := names[n := name];
    BeforeAgrees(suggested, names, names', n);
    GeneratedAgrees(suggested, names, names', n);
    assert GeneratedAt(suggested, names', n);
  }

  lemma SecondSkip(suggested: seq<string>, resolved: seq<string>, names: seq<string>, used: set<string>, n: nat)
    requires SecondPass(suggested, resolved, names, used, n) && n < |suggested| && suggested[n] != ""
    ensures SecondPass(suggested, resolved, names, used, n + 1)
  {
    SuggestedBefore(suggested, names, n, n);
  }

  /** Makes up names for the members without a suggestion. */
  method GenerateMissing(suggested: seq<string>, resolved: seq<string>, taken: set<string>) returns (names: seq<string>)
    requires |suggested| < 0xFFFF_FFFF && FirstPass(suggested, resolved, taken, |suggested|)
    ensures Resolution(suggested, names)
  {
    names := resolved;
    var used := taken;
    var n := 0;
    while n < |suggested|
      invariant SecondPass(suggested, resolved, names, used, n)
    {
      names, used := GenerateOne(suggested, resolved, names, used, n);
      n := n + 1;
    }
    KeptAgrees(suggested, resolved, names, |names|);
  }

  method GenerateOne(suggested: seq<string>, ghost resolved: seq<string>, before: seq<string>, taken: set<string>, n: nat)
    returns (names: seq<string>, used: set<string>)
    requires |suggested| < 0xFFFF_FFFF && SecondPass(suggested, resolved, before, taken, n) && n < |suggested|
    ensures SecondPass(suggested, resolved, names, used, n + 1)
  {
    names, used := before, taken;
    if before[n] == "" {
      TakenSize(before, taken);
      var name := Namer.Disambiguate(taken, FieldName(n));
      SecondStep(suggested, resolved, before, taken, n, name);
      names := before[n := name];
      used := taken + {name};
    } else {
      SecondSkip(suggested, resolved, before, taken, n);
    }
  }

  lemma {:induction false} SuggestedBefore(suggested: seq<string>, names: seq<string>, i: nat, k: nat)
    requires k < |suggested| == |names| && i <= |names| && suggested[k] != ""
    ensures names[k] in Before(suggested, names, i)
  {
    if i > 0 {
      SuggestedBefore(suggested, names, i - 1, k);
    } else {
      SuggestedEarlier(suggested, names, |names|, k);
    }
  }

  lemma {:induction false} SuggestedEarlier(suggested: seq<string>, names: seq<string>, i: nat, k: nat)
    requires k < i <= |suggested| == |names| && suggested[k] != ""
    ensures names[k] in Earlier(suggested, names, i)
  {
    if k < i - 1 {
      SuggestedEarlier(suggested, names, i - 1, k);
    }
  }

  lemma {:induction false} DistinctCount(names: seq<string>)
    ensures |set x | x in names| <= |names|
  {
    if names == [] {
      assert (set x | x in names) == {};
    } else {
      DistinctCount(names[1..]);
      assert (set x | x in names) == (set x | x in names[1..]) + {names[0]};
    }
  }

  lemma TakenSize(names: seq<string>, used: set<string>)
    requires Taken(names, used)
    ensures |used| <= |names|
  {
    DistinctCount(names);
    SubsetSize(used, set x | x in names);
  }

  lemma FieldIsIdentifier(n: nat)
    ensures IsIdentifier(FieldName(n))
  {
  }

  /** What resolving makes of suggestions, where an empty string is a missing suggestion. */
  ghost predicate Resolution(suggested: seq<string>, names: seq<string>) {
    && |names| == |suggested|
    && Distinct(names)
    && (forall i | 0 <= i < |names| :: names[i] != "" && IsIdentifier(names[i]))
    && Kept(suggested, names, |names|) && Generated(suggested, names, |names|)
  }

  function FieldName(i: nat): (s: string) {
    "field" + Decimal.ToString(i)
  }

  /** A suggestion is kept exactly when no earlier suggested member ends up with it, and a member without
      one is called fieldN exactly when no suggested member and no earlier member is. */
  lemma KeptExactly(suggested: seq<string>, names: seq<string>, i: nat)
    requires Resolution(suggested, names) && i < |names|
    ensures suggested[i] != "" ==> (names[i] == suggested[i] <==> suggested[i] !in Earlier(suggested, names, i))
    ensures suggested[i] == "" ==> (names[i] == FieldName(i) <==> FieldName(i) !in Before(suggested, names, i))
  {
    assert KeptAt(suggested, names, i) && GeneratedAt(suggested, names, i);
  }

  /** Resolving leaves no choice: the suggestions determine all names. */
  lemma {:induction false} ResolutionUnique(suggested: seq<string>, names: seq<string>, others: seq<string>, i: nat)
    requires Resolution(suggested, names) && Resolution(suggested, others) && i < |names|
    ensures names[i] == others[i]
    decreases suggested[i] == "", i
  {
    assert KeptAt(suggested, names, i) && KeptAt(suggested, others, i);
    assert GeneratedAt(suggested, names, i) && GeneratedAt(suggested, others, i);
    if suggested[i] != "" {
      forall j | 0 <= j < i && suggested[j] != ""
        ensures names[j] == others[j]
      {
        ResolutionUnique(suggested, names, others, j);
      }
      EarlierAgrees(suggested, names, others, i);
    } else {
      forall j | 0 <= j < |names| && (j < i || suggested[j] != "")
        ensures names[j] == others[j]
      {
        ResolutionUnique(suggested, names, others, j);
      }
      BeforeAgrees(suggested, names, others, i);
    }
  }

  /** When no two suggestions are equal, every one of them is kept. */
  lemma {:induction false} DistinctSuggestionsKept(suggested: seq<string>, names: seq<string>, i: nat)
    requires |names| == |suggested| && Kept(suggested, names, |names|)
    requires forall a, b | 0 <= a < b < |suggested| && suggested[a] != "" :: suggested[a] != suggested[b]
    requires i < |names| && suggested[i] != ""
    ensures names[i] == suggested[i]
  {
    assert KeptAt(suggested, names, i);
    forall j | 0 <= j < i && suggested[j] != ""
      ensures names[j] == suggested[j]
    {
      DistinctSuggestionsKept(suggested, names, j);
    }
    NotEarlier(suggested, names, i, suggested[i]);
  }

  lemma {:induction false} NotEarlier(suggested: seq<string>, names: seq<string>, i: nat, name: string)
    requires i <= |suggested| == |names| && forall j | 0 <= j < i && suggested[j] != "" :: names[j] != name
    ensures name !in Earlier(suggested, names, i)
  {
    if i > 0 {
      NotEarlier(suggested, names, i - 1, name);
    }
  }
}
