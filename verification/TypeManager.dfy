/** Hash-consing of types by printed name (src/type/type_manager.h). */
module TypeManager {
  import opened Wrappers
  import opened Symbols
  import opened Types
  import opened TypeNames
  import opened TypeIdentity

  class TypeObject {
    const ty: Type
    constructor (ty: Type)
      ensures this.ty == ty
    {
      this.ty := ty;
    }
  }

  class Manager {
    var byName: map<string, TypeObject>
    /** The objects this manager owns. */
    var types: seq<TypeObject>
    /** Every call of Get so far: what was asked for, and the object returned. */
    ghost var log: seq<(Type, TypeObject)>

    /** Objects are filed under their own name, and past answers are still the filed ones. */
    ghost predicate Valid()
      reads this
    {
      && (forall n | n in byName :: TypeName(byName[n].ty) == n)
      && (forall i | 0 <= i < |log| :: TypeName(log[i].0) in byName && byName[TypeName(log[i].0)] == log[i].1)
    }

    constructor ()
      ensures Valid() && byName == map[] && types == [] && log == []
    {
      byName, types, log := map[], [], [];
    }

    /** Wrap(): shares the types of `inner` without owning them. */
    constructor Wrap(inner: Manager)
      requires inner.Valid()
      ensures Valid() && byName == inner.byName && types == [] && log == []
    {
      byName, types, log := inner.byName, [], [];
    }

    /** Get<T>(args...): the filed object of that name, or a new one. */
    method Get(t: Type) returns (c: TypeObject)
      requires Valid()
      modifies this
      ensures Valid() && log == old(log) + [(t, c)]
      ensures TypeName(c.ty) == TypeName(t)
      ensures TypeName(t) in old(byName) ==> c == old(byName)[TypeName(t)] && byName == old(byName) && types == old(types)
      ensures TypeName(t) !in old(byName) ==>
                fresh(c) && c.ty == t && byName == old(byName)[TypeName(t) := c] && types == old(types) + [c]
    {
      var name := TypeName(t);
      if name in byName {
        c := byName[name];
      } else {
        c := new TypeObject(t);
        byName := byName[name := c];
        types := types + [c];
      }
      log := log + [(t, c)];
    }

    /** Over any run of calls, two answers are the same object exactly when the types asked for have
        the same word; and when one of the types is unambiguous, exactly when they are equal. */
    lemma SameObject(structs: map<Symbol, seq<Member>>, i: nat, j: nat)
      requires Valid() && i < |log| && j < |log|
      ensures log[i].1 == log[j].1 <==> Word(log[i].0) == Word(log[j].0)
      ensures Consistent(structs, log[i].0) && Consistent(structs, log[j].0) && Unambiguous(log[i].0) ==>
                (log[i].1 == log[j].1 <==> log[i].0 == log[j].0)
    {
      var a, b := log[i].0, log[j].0;
      SameNameSameWord(a, b);
      assert TypeName(log[i].1.ty) == TypeName(a) && TypeName(log[j].1.ty) == TypeName(b);
      if Consistent(structs, a) && Consistent(structs, b) && Unambiguous(a) {
        UnambiguousNamesDiffer(structs, a, b);
      }
    }

    /** The object returned has the type asked for, whenever that type is unambiguous; an ambiguous type
        has a double whose object it would be given. */
    lemma FaithfulObject(structs: map<Symbol, seq<Member>>, i: nat)
      requires Valid() && i < |log|
      requires Consistent(structs, log[i].0) && Consistent(structs, log[i].1.ty)
      ensures Unambiguous(log[i].0) ==> log[i].1.ty == log[i].0
      ensures !Unambiguous(log[i].0) ==>
        exists u :: Consistent(structs, u) && u != log[i].0 && TypeName(u) == TypeName(log[i].1.ty)
    {
      if Unambiguous(log[i].0) {
        UnambiguousNamesDiffer(structs, log[i].0, log[i].1.ty);
      } else {
        var u := AmbiguousDouble(structs, log[i].0);
      }
    }
  }
}
