/** The type rules that validation applies to registers and accessor chains. */
module Typing {
  import opened Wrappers
  import opened Ast

  type Scope = map<string, TypeNode>

  datatype Environment = Environment(
    globals: map<string, TypeNode>,
    functions: set<string>,
    immutableBacking: set<string>,
    structs: map<string, seq<Argument>>)

  predicate IsInteger(t: TypeNode) {
    !t.isView && t.pointers == 0
    && t.base in ["bool", "i8", "i16", "i32", "i64", "u8", "u16", "u32", "u64"]
  }

  predicate IsFloating(t: TypeNode) {
    !t.isView && t.pointers == 0 && (t.base == "f32" || t.base == "f64")
  }

  /** The first field of that name. */
  function FindField(fields: seq<Argument>, name: string): Option<TypeNode> {
    if fields == [] then None
    else if fields[0].name == name then Some(fields[0].typ)
    else FindField(fields[1..], name)
  }

  /** The type one accessor further on; None where validation raises an error. */
  function AccessorType(t: TypeNode, accessor: Accessor, env: Environment): Option<TypeNode> {
    if t.isView then None
    else
      match accessor
      case Index(_) =>
        if t.pointers > 1 || (t.pointers == 1 && t.base != "void")
        then Some(t.(pointers := t.pointers - 1)) else None
      case Field(name) =>
        if t.pointers > 0 || t.base !in env.structs then None
        else
          match FindField(env.structs[t.base], name)
          case None => None
          case Some(f) => Some(f.(isConst := f.isConst || t.isConst, isVolatile := f.isVolatile || t.isVolatile))
  }

  function ChainType(t: TypeNode, accessors: seq<Accessor>, env: Environment): Option<TypeNode>
    decreases accessors
  {
    if accessors == [] then Some(t)
    else
      match AccessorType(t, accessors[0], env)
      case None => None
      case Some(next) => ChainType(next, accessors[1..], env)
  }

  /** A local hides a global of the same name. */
  function RegisterType(reg: Register, scope: Scope, env: Environment): Option<TypeNode> {
    if reg.name in scope then ChainType(scope[reg.name], reg.accessors, env)
    else if reg.name in env.globals then ChainType(env.globals[reg.name], reg.accessors, env)
    else None
  }

  /** What is known of a value's type: nothing (arrays, special registers), null, or a type. */
  datatype Known = Unknown | NullPointer | OfType(typ: TypeNode)

  function Primitive(base: string, pointers: nat): TypeNode {
    TypeNode(base, pointers, false, false, false, None)
  }

  function ValueType(value: Value, scope: Scope, env: Environment): Option<Known> {
    match value
    case Integer(_) => Some(OfType(Primitive("i64", 0)))
    case Floating(_) => Some(OfType(Primitive("f64", 0)))
    case Truth(_) => Some(OfType(Primitive("bool", 0)))
    case Text(_) => Some(OfType(Primitive("i8", 1)))
    case Null => Some(NullPointer)
    case Array(_) | Special(_) => Some(Unknown)
    case Named(reg) =>
      if reg.accessors == [] && reg.name !in scope && reg.name !in env.globals && reg.name in env.functions
      then Some(OfType(Primitive("void", 1)))
      else
        match RegisterType(reg, scope, env)
        case None => None
        case Some(t) => Some(OfType(t))
  }

  predicate IsPointer(known: Known) {
    known.OfType? && known.typ.pointers > 0
  }
}
