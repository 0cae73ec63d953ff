/** The syntax tree that the parser builds and validation walks. */
module Ast {
  import opened Wrappers

  datatype TypeNode = TypeNode(
    base: string,
    pointers: nat,
    isView: bool,
    isConst: bool,
    isVolatile: bool,
    alignment: Option<nat>)

  datatype Accessor = Index(index: nat) | Field(name: string)

  datatype Register = Register(name: string, accessors: seq<Accessor>)

  /** A floating-point literal keeps its spelling. */
  datatype Value =
    | Integer(value: int)
    | Floating(spelling: string)
    | Text(content: string)
    | Named(register: Register)
    | Array(items: seq<Value>)
    | Special(name: string)
    | Truth(flag: bool)
    | Null

  datatype Instruction = Instruction(name: string, isSpecial: bool)

  datatype Target = NoTarget | RegisterTarget(register: Register) | SpecialTarget(name: string)

  datatype Command = Command(
    volatileAccess: bool,
    declared: Option<TypeNode>,
    target: Target,
    instruction: Option<Instruction>,
    values: seq<Value>)

  /** A lone semicolon. */
  const EMPTY_COMMAND := Command(false, None, NoTarget, None, [])

  datatype Argument = Argument(typ: TypeNode, name: string)

  datatype Declaration =
    | Entry(name: string, block: seq<Command>)
    | Struct(typ: TypeNode, fields: seq<Argument>)
    | Func(typ: TypeNode, name: string, args: seq<Argument>, body: Option<seq<Command>>)
    | Global(typ: TypeNode, name: string, value: Value)
    | Constant(typ: TypeNode, name: string, value: Value)

  predicate HasIndex(accessors: seq<Accessor>) {
    exists i :: 0 <= i < |accessors| && accessors[i].Index?
  }

  predicate IsPlain(value: Value) {
    value.Named? && value.register.accessors == []
  }
}
