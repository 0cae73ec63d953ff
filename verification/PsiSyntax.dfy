/** PSI command lists over scalar integer locals. */
module PsiSyntax {
  import opened Wrappers

  datatype IntType = IntType(width: nat, unsigned: bool)

  datatype Operand = Number(value: int) | Truth(flag: bool) | Register(name: string)

  datatype BinaryOp =
    | Add | Sub | Mul | Div | Mod | Eq | Neq | Gt | Lt | Gte | Lte
    | And | Or | Xor | Lsh | Rsh | Land | Lor

  /** `Foreign` stands for any instruction whose effect lies outside the scalar locals
      (calls, loads, stores, special instructions); `guards` counts the trap conditions
      that are tested before it. */
  datatype Computation =
    | Copy(source: Operand)
    | Binary(op: BinaryOp, lhs: Operand, rhs: Operand)
    | Not(operand: Operand)
    | Lnot(operand: Operand)
    | Foreign(name: string, guards: nat, args: seq<Operand>, width: nat)

  datatype Command =
    | Empty
    | Declare(name: string, typ: IntType, init: Option<Computation>)
    | Assign(name: string, comp: Computation)
    | Perform(comp: Computation)
    | Label(mark: string)
    | Jmp(target: string)
    | Cjmp(condition: Operand, target: string)
    | Ret(value: Option<Operand>)

  datatype Program = Program(
    args: seq<(string, IntType)>,
    commands: seq<Command>,
    globals: map<string, IntType>,
    result: Option<IntType>)

  /** What validation guarantees before a body is lowered: labels are unique, and so are the
      names of arguments and local declarations together. */
  ghost predicate Validated(p: Program) {
    && (forall i, j :: 0 <= i < j < |p.args| ==> p.args[i].0 != p.args[j].0)
    && (forall i, j :: 0 <= i < j < |p.commands| && p.commands[i].Label? && p.commands[j].Label?
          ==> p.commands[i].mark != p.commands[j].mark)
    && (forall i, j :: 0 <= i < j < |p.commands| && p.commands[i].Declare? && p.commands[j].Declare?
          ==> p.commands[i].name != p.commands[j].name)
    && (forall i, j :: 0 <= i < |p.args| && 0 <= j < |p.commands| && p.commands[j].Declare?
          ==> p.args[i].0 != p.commands[j].name)
  }

  function ArgumentTypes(args: seq<(string, IntType)>): map<string, IntType> {
    if args == [] then map[]
    else ArgumentTypes(args[..|args| - 1])[args[|args| - 1].0 := args[|args| - 1].1]
  }

  /** The locals a command at index i may name: the arguments and the earlier declarations. */
  function VisibleLocals(p: Program, i: nat): map<string, IntType>
    requires i <= |p.commands|
  {
    if i == 0 then ArgumentTypes(p.args)
    else
      var before := VisibleLocals(p, i - 1);
      match p.commands[i - 1]
      case Declare(name, typ, _) => if name in before then before else before[name := typ]
      case _ => before
  }

  datatype Scope = Scope(locals: map<string, IntType>, globals: map<string, IntType>)

  function TypeOf(scope: Scope, name: string): Option<IntType> {
    if name in scope.locals then Some(scope.locals[name])
    else if name in scope.globals then Some(scope.globals[name])
    else None
  }

  predicate IsUnsigned(scope: Scope, v: Operand) {
    v.Register? && TypeOf(scope, v.name).Some? && TypeOf(scope, v.name).value.unsigned
  }

  function DeclaredNames(commands: seq<Command>): set<string> {
    set i | 0 <= i < |commands| && commands[i].Declare? :: commands[i].name
  }
}
