/** Replacing mangled symbols by their names (src/demangler.cc), and why that undoes mangled printing. */
module Demangler {
  import opened Wrappers
  import opened Symbols
  import Decimal

  /** What std::stoi throws on the digits that follow a marker. */
  datatype StoiError = InvalidArgument | OutOfRange

  const INT_MAX := 0x7FFF_FFFF

  type Outcome = Result<string, StoiError>

  predicate OccursAt(s: string, i: nat) {
    i + |MARKER| <= |s| && s[i..i + |MARKER|] == MARKER
  }

  predicate MarkerFree(s: string) {
    forall i: nat | i <= |s| :: !OccursAt(s, i)
  }

  lemma OccursShift(s: string, from: nat, k: nat)
    requires from <= |s|
    ensures OccursAt(s[from..], k) <==> OccursAt(s, from + k)
  {
    if from + k + |MARKER| <= |s| {
      assert s[from..][k..k + |MARKER|] == s[from + k..from + k + |MARKER|];
    }
  }

  /** The first occurrence of the marker in s. */
  function FirstMarker(s: string): (r: Option<nat>)
    ensures r.Some? ==> OccursAt(s, r.value) && forall k: nat | k < r.value :: !OccursAt(s, k)
    ensures r.None? ==> MarkerFree(s)
  {
    if |s| < |MARKER| then None
    else if OccursAt(s, 0) then Some(0)
    else
      assert forall k: nat :: OccursAt(s, k + 1) <==> OccursAt(s[1..], k) by {
        forall k: nat { OccursShift(s, 1, k); }
      }
      assert forall k: nat | OccursAt(s, k) :: k == (k - 1) + 1 && OccursAt(s[1..], k - 1);
      match FirstMarker(s[1..])
      case None => None
      case Some(k) => Some(k + 1)
  }

  /** std::string::find(marker, from): the first occurrence at or after `from`. */
  method Find(s: string, from: nat) returns (idx: Option<nat>)
    requires from <= |s|
    ensures idx == (match FirstMarker(s[from..]) case None => None case Some(k) => Some(from + k))
  {
    var i := from;
    while i < |s|
      invariant from <= i <= |s|
      invariant forall k: nat | k < i - from :: !OccursAt(s[from..], k)
    {
      OccursShift(s, from, i - from);
      if OccursAt(s, i) {
        FirstMarkerIs(s[from..], i - from);
        return Some(i);
      }
      i := i + 1;
    }
    FirstMarkerNone(s[from..]);
    return None;
  }

  lemma FirstMarkerIs(s: string, i: nat)
    requires OccursAt(s, i) && forall k: nat | k < i :: !OccursAt(s, k)
    ensures FirstMarker(s) == Some(i)
  {
  }

  lemma FirstMarkerNone(s: string)
    requires forall k: nat | k < |s| :: !OccursAt(s, k)
    ensures FirstMarker(s) == None
  {
  }

  /** What the scan meets next in the text not read yet. */
  datatype Scan = Done | Throws(error: StoiError) | Found(text: string, sym: Symbol, rest: string)

  function ScanOf(s: string): (r: Scan)
    ensures r.Found? ==> |r.text| + |MARKER| + |r.rest| < |s|
  {
    match FirstMarker(s)
    case None => Done
    case Some(idx) =>
      var after := s[idx + |MARKER|..];
      var len := Decimal.DigitRun(after);
      match Stoi(after[..len])
      case Err(e) => Throws(e)
      case Ok(v) => Found(s[..idx], v, after[len..])
  }

  /** The result of demangling s with the given table, reading s once from left to right. */
  function Demangled(names: map<Symbol, string>, s: string): Outcome
    decreases |s|
  {
    match ScanOf(s)
    case Done => Ok(s)
    case Throws(e) => Err(e)
    case Found(text, v, rest) => Prefixed(text + NameIn(names, v), Demangled(names, rest))
  }

  function Stoi(digits: string): Result<Symbol, StoiError>
    requires Decimal.AllDigits(digits)
  {
    if digits == [] then Err(InvalidArgument)
    else if Decimal.ValueOf(digits) > INT_MAX then Err(OutOfRange)
    else Ok(Decimal.ValueOf(digits))
  }

  function Prefixed(prefix: string, r: Outcome): Outcome {
    match r
    case Ok(s) => Ok(prefix + s)
    case Err(e) => Err(e)
  }

  /** The digits that start at startIdx, and where they end. */
  method ReadId(ret: string, startIdx: nat) returns (endIdx: nat, id: string)
    requires startIdx <= |ret|
    ensures startIdx <= endIdx <= |ret|
    ensures Decimal.AllDigits(id) && id == ret[startIdx..][..Decimal.DigitRun(ret[startIdx..])]
    ensures ret[endIdx..] == ret[startIdx..][Decimal.DigitRun(ret[startIdx..])..]
  {
    endIdx := startIdx;
    while endIdx < |ret| && Decimal.IsDigit(ret[endIdx])
      invariant startIdx <= endIdx <= |ret|
      invariant Decimal.DigitRun(ret[startIdx..]) == endIdx - startIdx + Decimal.DigitRun(ret[endIdx..])
    {
      assert ret[endIdx..][1..] == ret[endIdx + 1..];
      endIdx := endIdx + 1;
    }
    id := ret[startIdx..][..endIdx - startIdx];
  }

  /** One search: where the next marker starts, where its digits end, and the symbol they give. */
  method Next(ret: string, pos: nat) returns (idx: nat, endIdx: nat, scan: Scan)
    requires pos <= |ret|
    ensures scan == ScanOf(ret[pos..])
    ensures scan.Found? ==> pos <= idx <= endIdx <= |ret| && scan.text == ret[pos..idx] && scan.rest == ret[endIdx..]
  {
    var found := Find(ret, pos);
    idx, endIdx, scan := pos, pos, Done;
    if found.None? {
      return;
    }
    idx := found.value;
    var id;
    endIdx, id := ReadId(ret, idx + |MARKER|);
    ScanAt(ret, pos, idx, endIdx);
    match Stoi(id) {
      case Err(e) => scan := Throws(e);
      case Ok(v) => scan := Found(ret[pos..idx], v, ret[endIdx..]);
    }
  }

  /** The scan of what is not read yet, in places of the whole text. */
  lemma ScanAt(ret: string, pos: nat, idx: nat, endIdx: nat)
    requires pos <= idx && idx + |MARKER| <= |ret| && FirstMarker(ret[pos..]) == Some(idx - pos)
    requires endIdx <= |ret| && ret[endIdx..] == ret[idx + |MARKER|..][Decimal.DigitRun(ret[idx + |MARKER|..])..]
    ensures
      var after := ret[idx + |MARKER|..];
      ScanOf(ret[pos..]) == match Stoi(after[..Decimal.DigitRun(after)])
        case Err(e) => Throws(e)
        case Ok(v) => Found(ret[pos..idx], v, ret[endIdx..])
  {
    assert ret[idx + |MARKER|..] == ret[pos..][idx - pos + |MARKER|..];
    assert ret[pos..][..idx - pos] == ret[pos..idx];
  }

  /** The in-place loop: it rewrites `ret` and never looks again at text it has inserted. */
  method Demangle(symbols: SymbolTable, str: string) returns (r: Outcome)
    requires symbols.Valid()
    ensures r == Demangled(symbols.symbolToName, str)
  {
    ghost var names := symbols.symbolToName;
    var ret := str;
    var pos: nat := 0;
    ghost var done, unread := "", str;
    PrefixedTwice("", "", Demangled(names, str));
    while true
      invariant ret == done + unread && pos == |done|
      invariant Demangled(names, str) == Prefixed(done, Demangled(names, unread))
      decreases |ret| - pos
    {
      assert ret[pos..] == unread && ret[..pos] == done;
      var idx, endIdx, scan := Next(ret, pos);
      match scan {
        case Done =>
          return Ok(ret);
        case Throws(e) =>
          return Err(e);
        case Found(_, v, _) =>
          var name := symbols.NameFor(v);
          Splice(ret, done, idx, endIdx, name);
          PrefixedTwice(done, scan.text + name, Demangled(names, scan.rest));
          ret := ret[..idx] + name + ret[endIdx..];
          pos := idx + |name|;
          done, unread := done + (scan.text + name), scan.rest;
      }
    }
  }

  /** std::string::replace(idx, endIdx - idx, name), as seen from the text already read. */
  lemma Splice(ret: string, done: string, idx: nat, endIdx: nat, name: string)
    requires |done| <= idx <= endIdx <= |ret| && ret[..|done|] == done
    ensures ret[..idx] + name + ret[endIdx..] == done + (ret[|done|..idx] + name) + ret[endIdx..]
    ensures |done + (ret[|done|..idx] + name)| == idx + |name|
  {
    assert ret[..idx] == done + ret[|done|..idx];
  }

  lemma PrefixedTwice(a: string, b: string, r: Outcome)
    ensures Prefixed(a, Prefixed(b, r)) == Prefixed(a + b, r)
    ensures Prefixed("", r) == r
  {
    if r.Ok? {
      assert a + (b + r.value) == a + b + r.value;
      assert "" + r.value == r.value;
    }
  }

  // --- Mangled printing and its inverse ---

  /** Printed output as pieces: plain text, or the mention of a symbol. S is Symbol for what a
      program holds, and string once every symbol has been replaced by its name. */
  datatype Piece<S> = Text(text: string) | Mention(sym: S)

  function Mangled(ps: seq<Piece<Symbol>>): string {
    if ps == [] then ""
    else (match ps[0] case Text(t) => t case Mention(s) => ToStr(s)) + Mangled(ps[1..])
  }

  function Plain(ps: seq<Piece<string>>): string {
    if ps == [] then ""
    else (match ps[0] case Text(t) => t case Mention(n) => n) + Plain(ps[1..])
  }

  function Resolve(names: map<Symbol, string>, ps: seq<Piece<Symbol>>): (r: seq<Piece<string>>)
    ensures |r| == |ps|
  {
    if ps == [] then []
    else [match ps[0] case Text(t) => Text(t) case Mention(s) => Mention(NameIn(names, s))]
         + Resolve(names, ps[1..])
  }

  predicate GoesOnWithDigit<S>(ps: seq<Piece<S>>) {
    ps != [] && ps[0].Text?
    && if ps[0].text == "" then GoesOnWithDigit(ps[1..]) else Decimal.IsDigit(ps[0].text[0])
  }

  /** Text pieces, merged when adjacent and after `pending`, hold no marker; every mention is
      registered and is not followed by a digit. Nothing is asked of the names themselves. */
  predicate Clean(pending: string, ps: seq<Piece<string>>)
    decreases |ps|
  {
    if ps == [] then MarkerFree(pending)
    else match ps[0]
      case Text(t) => Clean(pending + t, ps[1..])
      case Mention(n) =>
        MarkerFree(pending) && n != "" && !GoesOnWithDigit(ps[1..]) && Clean("", ps[1..])
  }

  /** Every mentioned symbol fits in the int that std::stoi returns. */
  predicate IntSymbols(ps: seq<Piece<Symbol>>) {
    forall i | 0 <= i < |ps| && ps[i].Mention? :: ps[i].sym <= INT_MAX
  }

  lemma OccursInPrefix(text: string, rest: string, k: nat)
    requires k + |MARKER| <= |text|
    ensures OccursAt(text + rest, k) <==> OccursAt(text, k)
  {
    assert (text + rest)[k..k + |MARKER|] == text[k..k + |MARKER|];
  }

  /** A 't' stands only at offsets 0 and 3 of an occurrence, and an 'i' only at offset 1. */
  lemma OccurrenceChars(s: string, k: nat)
    requires OccursAt(s, k)
    ensures forall i | k <= i < k + |MARKER| :: s[i] == 't' <==> i == k || i == k + 3
    ensures forall i | k <= i < k + |MARKER| :: s[i] == 'i' <==> i == k + 1
  {
    assert forall i | k <= i < k + |MARKER| :: s[i] == s[k..k + |MARKER|][i - k];
  }

  /** The marker cannot overlap itself, so it is found exactly where it was printed. */
  lemma MarkerHasNoBorder(text: string, rest: string)
    requires MarkerFree(text)
    ensures FirstMarker(text + MARKER + rest) == Some(|text|)
  {
    var s := text + MARKER + rest;
    assert s[|text|..|text| + |MARKER|] == MARKER;
    forall k: nat | k < |text|
      ensures !OccursAt(s, k)
    {
      if k + |MARKER| <= |text| {
        OccursInPrefix(text, MARKER + rest, k);
      }
      assert text + (MARKER + rest) == s;
      if OccursAt(s, k) {
        var first, second := s[|text|], s[|text| + 1];
        OccurrenceChars(s, k);
        OccurrenceChars(s, |text|);
        assert false;
      }
    }
    FirstMarkerIs(s, |text|);
  }

  lemma {:induction false} GoesOnMangled(names: map<Symbol, string>, ps: seq<Piece<Symbol>>)
    requires !GoesOnWithDigit(Resolve(names, ps))
    ensures !Decimal.StartsWithDigit(Mangled(ps))
  {
    if ps != [] && ps[0].Text? && ps[0].text == "" {
      GoesOnMangled(names, ps[1..]);
    }
  }

  /** Demangling a mangled print gives the same print with the original names, even when those
      names contain the marker themselves. */
  lemma {:induction false} DemangleInverse(names: map<Symbol, string>, pending: string, ps: seq<Piece<Symbol>>)
    requires IntSymbols(ps) && Clean(pending, Resolve(names, ps))
    ensures Demangled(names, pending + Mangled(ps)) == Ok(pending + Plain(Resolve(names, ps)))
    decreases |ps|
  {
    if ps == [] {
      FirstMarkerNone(pending);
      assert pending + Mangled(ps) == pending;
      assert pending + Plain(Resolve(names, ps)) == pending;
    } else if ps[0].Text? {
      DemangleInverse(names, pending + ps[0].text, ps[1..]);
      Regroup(pending, ps[0].text, Mangled(ps[1..]));
      Regroup(pending, ps[0].text, Plain(Resolve(names, ps[1..])));
    } else {
      DemangleInverse(names, "", ps[1..]);
      GoesOnMangled(names, ps[1..]);
      DemangleMention(names, pending, ps[0].sym, Mangled(ps[1..]), Plain(Resolve(names, ps[1..])));
    }
  }

  lemma Regroup(a: string, b: string, c: string)
    ensures a + (b + c) == a + b + c
    ensures "" + a == a
  {
  }

  lemma DemangleMention(names: map<Symbol, string>, text: string, s: Symbol, rest: string, plain: string)
    requires MarkerFree(text) && s <= INT_MAX && !Decimal.StartsWithDigit(rest)
    requires Demangled(names, "" + rest) == Ok("" + plain)
    ensures Demangled(names, text + (ToStr(s) + rest)) == Ok(text + (NameIn(names, s) + plain))
  {
    var digits := Decimal.ToString(s);
    var after := digits + rest;
    var whole := text + MARKER + after;
    assert text + (ToStr(s) + rest) == whole;
    MarkerHasNoBorder(text, after);
    Decimal.DigitRunStops(digits, rest);
    Decimal.RoundTrip(s);
    assert whole[|text| + |MARKER|..] == after;
    assert after[..|digits|] == digits && after[|digits|..] == rest;
    assert whole[..|text|] == text;
    Regroup(rest, "", "");
    Regroup(plain, "", "");
    Regroup(text, NameIn(names, s), plain);
  }

  /** The condition on texts is needed: a marker that no digit follows makes the program throw. */
  lemma StrayMarkerThrows(names: map<Symbol, string>, text: string, rest: string)
    requires MarkerFree(text) && !Decimal.StartsWithDigit(rest)
    ensures Demangled(names, text + MARKER + rest) == Err(InvalidArgument)
  {
    MarkerHasNoBorder(text, rest);
    assert (text + MARKER + rest)[|text| + |MARKER|..] == rest;
  }

  // --- When demangling succeeds ---

  /** What std::stoi makes of the digits behind a marker. */
  function SymbolAt(s: string, i: nat): Result<Symbol, StoiError>
    requires i + |MARKER| <= |s|
  {
    var after := s[i + |MARKER|..];
    Stoi(after[..Decimal.DigitRun(after)])
  }

  lemma SymbolShift(s: string, from: nat, k: nat)
    requires from <= |s| && from + k + |MARKER| <= |s|
    ensures SymbolAt(s[from..], k) == SymbolAt(s, from + k)
  {
    assert s[from..][k + |MARKER|..] == s[from + k + |MARKER|..];
  }

  /** No marker starts inside another. */
  lemma NoOverlap(s: string, i: nat, j: nat)
    requires OccursAt(s, i) && OccursAt(s, j) && i < j
    ensures i + |MARKER| <= j
  {
    OccurrenceChars(s, i);
    OccurrenceChars(s, j);
    assert s[j] == 't' && s[j + 1] == 'i';
  }

  /** Nor in the digits behind one. */
  lemma BehindDigits(s: string, i: nat, j: nat)
    requires OccursAt(s, i) && OccursAt(s, j) && i < j
    ensures i + |MARKER| + Decimal.DigitRun(s[i + |MARKER|..]) <= j
  {
    NoOverlap(s, i, j);
    OccurrenceChars(s, j);
    DigitsOf(s[i + |MARKER|..]);
    assert s[j] == s[i + |MARKER|..][j - (i + |MARKER|)] == 't';
  }

  lemma DigitsOf(s: string)
    ensures forall k | 0 <= k < Decimal.DigitRun(s) :: Decimal.IsDigit(s[k])
  {
    assert forall k | 0 <= k < Decimal.DigitRun(s) :: s[..Decimal.DigitRun(s)][k] == s[k];
  }

  /** Where reading goes on behind the first marker, and what it leaves to be read. */
  lemma NextOccurrence(s: string, idx: nat, r: nat, j: nat)
    requires FirstMarker(s) == Some(idx) && OccursAt(s, j) && j != idx
    requires r == NumberEnd(s, idx)
    ensures idx < j && r <= j && OccursAt(s[r..], j - r) && SymbolAt(s[r..], j - r) == SymbolAt(s, j)
  {
    BehindDigits(s, idx, j);
    OccursShift(s, r, j - r);
    SymbolShift(s, r, j - r);
  }

  /** Where the digits behind the marker at idx end. */
  function NumberEnd(s: string, idx: nat): (r: nat)
    requires idx + |MARKER| <= |s|
    ensures idx + |MARKER| <= r <= |s|
  {
    idx + |MARKER| + Decimal.DigitRun(s[idx + |MARKER|..])
  }

  /** The outcome in terms of the first marker. */
  lemma FirstDecides(names: map<Symbol, string>, s: string, idx: nat)
    requires FirstMarker(s) == Some(idx)
    ensures SymbolAt(s, idx).Err? ==> Demangled(names, s) == Err(SymbolAt(s, idx).error)
    ensures
      var rest := Demangled(names, s[NumberEnd(s, idx)..]);
      SymbolAt(s, idx).Ok? ==>
        (rest.Ok? <==> Demangled(names, s).Ok?) && (rest.Err? ==> Demangled(names, s) == Err(rest.error))
  {
    var after := s[idx + |MARKER|..];
    assert after[Decimal.DigitRun(after)..] == s[NumberEnd(s, idx)..];
  }

  lemma ShiftedGood(s: string, idx: nat, at: nat)
    requires FirstMarker(s) == Some(idx) && SymbolAt(s, idx).Ok?
    requires forall j: nat | j < at && OccursAt(s[NumberEnd(s, idx)..], j) :: SymbolAt(s[NumberEnd(s, idx)..], j).Ok?
    ensures forall j: nat | j < NumberEnd(s, idx) + at && OccursAt(s, j) :: SymbolAt(s, j).Ok?
  {
    forall j: nat | j < NumberEnd(s, idx) + at && OccursAt(s, j)
      ensures SymbolAt(s, j).Ok?
    {
      if j != idx {
        NextOccurrence(s, idx, NumberEnd(s, idx), j);
      }
    }
  }

  /** Demangling throws what the first marker with a bad number makes std::stoi throw: nothing is
      skipped, and no marker that the names bring in is read. */
  lemma {:induction false} FirstBadMarker(names: map<Symbol, string>, s: string, e: StoiError) returns (at: nat)
    requires Demangled(names, s) == Err(e)
    ensures OccursAt(s, at) && SymbolAt(s, at) == Err(e)
    ensures forall j: nat | j < at && OccursAt(s, j) :: SymbolAt(s, j).Ok?
    decreases |s|, 1
  {
    at := FirstMarker(s).value;
    FirstDecides(names, s, at);
    if SymbolAt(s, at).Ok? {
      at := LaterBadMarker(names, s, at, e);
    }
  }

  lemma {:induction false} LaterBadMarker(names: map<Symbol, string>, s: string, idx: nat, e: StoiError) returns (at: nat)
    requires FirstMarker(s) == Some(idx) && SymbolAt(s, idx).Ok? && Demangled(names, s[NumberEnd(s, idx)..]) == Err(e)
    ensures OccursAt(s, at) && SymbolAt(s, at) == Err(e)
    ensures forall j: nat | j < at && OccursAt(s, j) :: SymbolAt(s, j).Ok?
    decreases |s|, 0
  {
    var r := NumberEnd(s, idx);
    var k := FirstBadMarker(names, s[r..], e);
    at := r + k;
    ShiftedGood(s, idx, k);
    ShiftedBad(s, r, k, at, e);
  }

  lemma ShiftedBad(s: string, from: nat, k: nat, at: nat, e: StoiError)
    requires from <= |s| && at == from + k && OccursAt(s[from..], k) && SymbolAt(s[from..], k) == Err(e)
    ensures OccursAt(s, at) && SymbolAt(s, at) == Err(e)
  {
    OccursShift(s, from, k);
    SymbolShift(s, from, k);
  }

  lemma {:induction false} GoodMarkers(names: map<Symbol, string>, s: string)
    requires Demangled(names, s).Ok?
    ensures forall i: nat | OccursAt(s, i) :: SymbolAt(s, i).Ok?
    decreases |s|
  {
    if FirstMarker(s).Some? {
      var idx := FirstMarker(s).value;
      FirstDecides(names, s, idx);
      GoodMarkers(names, s[NumberEnd(s, idx)..]);
      ShiftedGood(s, idx, |s|);
    }
  }

  /** Demangling succeeds exactly when every marker is followed by a number that is an int. */
  lemma DemanglesExactly(names: map<Symbol, string>, s: string)
    ensures Demangled(names, s).Ok? <==> forall i: nat | OccursAt(s, i) :: SymbolAt(s, i).Ok?
  {
    if Demangled(names, s).Ok? {
      GoodMarkers(names, s);
    } else {
      var at := FirstBadMarker(names, s, Demangled(names, s).error);
    }
  }

  lemma {:induction false} CleanMentions(names: map<Symbol, string>, pending: string, ps: seq<Piece<Symbol>>)
    requires Clean(pending, Resolve(names, ps))
    ensures forall i | 0 <= i < |ps| && ps[i].Mention? :: NameIn(names, ps[i].sym) != ""
    decreases |ps|
  {
    if ps != [] {
      CleanMentions(names, if ps[0].Text? then pending + ps[0].text else "", ps[1..]);
    }
  }
}
