/** The type system (src/type). */
module Types {
  import opened Wrappers
  import opened Symbols

  datatype AccessControl = ReadOnly | WriteOnly | ReadWrite
  datatype StorageClass =
    | NoClass | Input | Output | Uniform | Workgroup | UniformConstant | Storage | Image | Private | FunctionClass

  /** A struct member: `offset` is its offset decoration, if it has one. */
  datatype Member = Member(name: string, ty: Type, offset: Option<nat>)

  /** An array of size 0 is a runtime array; `stride` is its first stride decoration, if any. */
  datatype Type =
    | Void | Bool | I32 | U32 | F32
    | Sampler(comparison: bool)
    | Vector(elem: Type, size: nat)
    | Matrix(elem: Type, rows: nat, columns: nat)
    | Array(elem: Type, size: nat, stride: Option<nat>)
    | Struct(sym: Symbol, members: seq<Member>)
    | Alias(sym: Symbol, sub: Type)
    | Access(access: AccessControl, sub: Type)
    | Pointer(sub: Type, storage: StorageClass)
  {
    predicate IsScalar() {
      Bool? || I32? || U32? || F32?
    }

    function UnwrapPtr(): Type {
      if Pointer? then sub else this
    }

    function Unwrap(): (t: Type)
      ensures !t.Alias? && !t.Access?
      ensures !Alias? && !Access? ==> t == this
    {
      if Alias? || Access? then sub.Unwrap() else this
    }

    function UnwrapAll(): Type {
      Unwrap().UnwrapPtr().Unwrap()
    }
  }

  /** Type::UnwrapIfNeeded(): the loop walks down aliases and access controls in any mixture. */
  method UnwrapIfNeeded(t: Type) returns (where_: Type)
    ensures where_ == t.Unwrap()
  {
    where_ := t;
    while true
      invariant where_.Unwrap() == t.Unwrap()
      decreases where_
    {
      if where_.Alias? || where_.Access? {
        where_ := where_.sub;
      } else {
        break;
      }
    }
  }
}
