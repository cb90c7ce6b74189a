/** A stack of scopes over a global one that is never popped (src/scope_stack.h). */
module Scopes {
  import opened Wrappers
  import opened Symbols

  /** All scopes laid over each other, inner ones hiding outer ones. */
  function Overlay<T>(stack: seq<map<Symbol, T>>): map<Symbol, T> {
    if stack == [] then map[] else Overlay(stack[..|stack| - 1]) + stack[|stack| - 1]
  }

  function With<T>(scope: map<Symbol, T>, symbol: Symbol, val: T): map<Symbol, T> {
    scope[symbol := val]
  }

  class ScopeStack<T> {
    var stack: seq<map<Symbol, T>>

    ghost predicate Valid()
      reads this
    {
      |stack| >= 1
    }

    constructor ()
      ensures Valid() && stack == [map[]]
    {
      stack := [map[]];
    }

    method PushScope()
      requires Valid()
      modifies this
      ensures Valid() && stack == old(stack) + [map[]]
      ensures Overlay(stack) == Overlay(old(stack))
    {
      stack := stack + [map[]];
      assert stack[..|stack| - 1] == old(stack);
    }

    /** Has no effect on the global scope. */
    method PopScope()
      requires Valid()
      modifies this
      ensures Valid()
      ensures stack == if |old(stack)| > 1 then old(stack)[..|old(stack)| - 1] else old(stack)
    {
      if |stack| > 1 {
        stack := stack[..|stack| - 1];
      }
    }

    method SetGlobal(symbol: Symbol, val: T)
      requires Valid()
      modifies this
      ensures Valid() && stack == old(stack)[0 := With(old(stack)[0], symbol, val)]
    {
      stack := stack[0 := With(stack[0], symbol, val)];
    }

    method Set(symbol: Symbol, val: T)
      requires Valid()
      modifies this
      ensures Valid() && |stack| == |old(stack)|
      ensures stack == old(stack)[|stack| - 1 := With(old(stack)[|stack| - 1], symbol, val)]
      ensures Overlay(stack) == Overlay(old(stack))[symbol := val]
    {
      var top := |stack| - 1;
      stack := stack[top := With(stack[top], symbol, val)];
      assert stack[..top] == old(stack)[..top];
    }

    /** The reverse scan finds what the overlaid scopes hold, and tells whether only the global
        scope held it. */
    method Get(symbol: Symbol) returns (ret: Option<T>, isGlobal: bool)
      requires Valid()
      ensures ret == if symbol in Overlay(stack) then Some(Overlay(stack)[symbol]) else None
      ensures isGlobal <==> symbol in stack[0] && forall k | 0 < k < |stack| :: symbol !in stack[k]
    {
      var i := |stack|;
      assert stack[..i] == stack;
      while i > 0
        invariant 0 <= i <= |stack|
        invariant forall k | i <= k < |stack| :: symbol !in stack[k]
        invariant symbol in Overlay(stack) <==> symbol in Overlay(stack[..i])
        invariant symbol in Overlay(stack) ==> Overlay(stack)[symbol] == Overlay(stack[..i])[symbol]
      {
        i := i - 1;
        assert stack[..i + 1][..i] == stack[..i];
        if symbol in stack[i] {
          return Some(stack[i][symbol]), i == 0;
        }
      }
      return None, false;
    }
  }
}
