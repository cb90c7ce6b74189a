/** Symbols and the symbol table (src/symbol.h, src/symbol_table.cc). */
module Symbols {
  import Decimal

  /** A symbol is a 32-bit value; the all-ones value is the invalid symbol. */
  type Symbol = n: nat | n < 0x1_0000_0000

  const INVALID: Symbol := 0xFFFF_FFFF
  const MARKER := "tint_symbol_"

  function ToStr(s: Symbol): string {
    MARKER + Decimal.ToString(s)
  }

  /** The name a table gives to a symbol: the empty string when it is not registered. */
  function NameIn(names: map<Symbol, string>, s: Symbol): string {
    if s in names then names[s] else ""
  }

  class SymbolTable {
    // The value given to the next registered name.
    var nextSymbol: Symbol
    var symbolToName: map<Symbol, string>
    var nameToSymbol: map<string, Symbol>

    /** The maps are mutually inverse, dense below nextSymbol, and never hold the empty name. */
    ghost predicate Valid()
      reads this
    {
      && 1 <= nextSymbol
      && (forall s :: s in symbolToName <==> 1 <= s < nextSymbol)
      && (forall s :: s in symbolToName ==>
            && symbolToName[s] != ""
            && symbolToName[s] in nameToSymbol
            && nameToSymbol[symbolToName[s]] == s)
      && (forall n :: n in nameToSymbol ==>
            && nameToSymbol[n] in symbolToName
            && symbolToName[nameToSymbol[n]] == n)
    }

    constructor ()
      ensures Valid()
      ensures nextSymbol == 1 && nameToSymbol == map[] && symbolToName == map[]
    {
      nextSymbol, symbolToName, nameToSymbol := 1, map[], map[];
    }

    /** Registers a name, in any table. The counter is 32 bits wide and wraps; the maps stay inverse
        exactly when the name needs no new symbol or the counter has not reached the invalid one. */
    method Register(name: string) returns (sym: Symbol)
      modifies this
      ensures old(Valid()) ==> (Valid() <==> name == "" || name in old(nameToSymbol) || old(nextSymbol) < INVALID)
      ensures name == "" ==> sym == INVALID && unchanged(this)
      ensures name != "" && name in old(nameToSymbol) ==> sym == old(nameToSymbol[name]) && unchanged(this)
      ensures name != "" && name !in old(nameToSymbol) ==>
                && sym == old(nextSymbol)
                && nextSymbol == (old(nextSymbol) + 1) % 0x1_0000_0000
                && nameToSymbol == old(nameToSymbol)[name := sym]
                && symbolToName == old(symbolToName)[sym := name]
    {
      if name == "" {
        return INVALID;
      }
      if name in nameToSymbol {
        return nameToSymbol[name];
      }
      sym := nextSymbol;
      nextSymbol := (nextSymbol + 1) % 0x1_0000_0000;
      nameToSymbol := nameToSymbol[name := sym];
      symbolToName := symbolToName[sym := name];
    }

    /** The only symbol whose name is `name`, or the invalid symbol when there is none. */
    method Get(name: string) returns (sym: Symbol)
      requires Valid()
      ensures name in nameToSymbol ==> sym in symbolToName && symbolToName[sym] == name
      ensures name !in nameToSymbol ==> sym == INVALID && forall s :: s in symbolToName ==> symbolToName[s] != name
    {
      sym := if name in nameToSymbol then nameToSymbol[name] else INVALID;
    }

    method NameFor(sym: Symbol) returns (name: string)
      requires Valid()
      ensures name == NameIn(symbolToName, sym)
      ensures name != "" <==> 1 <= sym < nextSymbol
    {
      name := if sym in symbolToName then symbolToName[sym] else "";
    }

    /** A table holds exactly one symbol per name, counted by nextSymbol. */
    lemma Count()
      requires Valid()
      ensures |nameToSymbol| == nextSymbol - 1
    {
      var syms := symbolToName.Keys;
      CountKeys(syms, nextSymbol);
      var names := nameToSymbol.Keys;
      assert syms == set n | n in names :: nameToSymbol[n];
      CountImage(names, nameToSymbol);
    }
  }

  lemma {:induction false} CountKeys(keys: set<Symbol>, bound: nat)
    requires 1 <= bound
    requires forall s: Symbol :: s in keys <==> 1 <= s < bound
    requires bound <= 0x1_0000_0000
    ensures |keys| == bound - 1
  {
    if bound == 1 {
      assert keys == {};
    } else {
      CountKeys(keys - {bound - 1}, bound - 1);
    }
  }

  lemma {:induction false} CountImage(names: set<string>, m: map<string, Symbol>)
    requires names <= m.Keys
    requires forall a, b :: a in names && b in names && m[a] == m[b] ==> a == b
    ensures |set n | n in names :: m[n]| == |names|
    decreases |names|
  {
    if names != {} {
      var x :| x in names;
      CountImage(names - {x}, m);
      assert (set n | n in names :: m[n]) == (set n | n in names - {x} :: m[n]) + {m[x]};
    }
  }
}
