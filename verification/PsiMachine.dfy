/** The source machine: a program counter over a flat command list. */
module PsiMachine {
  import opened Words
  import opened Wrappers
  import opened PsiSyntax

  type Globals = map<string, Word>

  /** A foreign instruction as the environment met it, with everything it could read at that moment. */
  datatype Event = Event(name: string, args: seq<Word>, globals: Globals, locals: map<string, Word>)

  /** What the environment sees of a run: everything that happened before, the globals, and the locals. */
  datatype Memory = Memory(trace: seq<Event>, globals: Globals, locals: map<string, Word>)

  /** An answer may change globals and locals; a local it does not mention keeps its value. */
  datatype Response = Result(value: Word, globals: Globals, locals: map<string, Word>) | Abort

  predicate Injective(places: map<string, nat>) {
    forall a, b :: a in places && b in places && a != b ==> places[a] != places[b]
  }

  /** Every local has a slot of its own. */
  type Places = places: map<string, nat> | Injective(places) witness map[]

  /** The environment of a run: where it finds each local, what each guard reports and how each foreign
      instruction answers. It stands for loads and stores through pointers to locals as well as for calls. */
  datatype Oracle = Oracle(
    places: Places,
    guard: (Memory, string, nat, seq<Word>) -> bool,
    respond: (Memory, string, seq<Word>) -> Response)

  datatype Outcome =
    | Returned(value: Option<Word>, globals: Globals, trace: seq<Event>)
    | Trapped(globals: Globals, trace: seq<Event>)
    | Wrong

  datatype State = State(locals: map<string, Word>, globals: Globals, trace: seq<Event>)

  datatype Config = Running(pc: nat, state: State) | Halted(outcome: Outcome)

  function Read(scope: Scope, s: State, name: string): Word {
    if name in scope.locals then (if name in s.locals then s.locals[name] else 0)
    else if name in s.globals then s.globals[name] else 0
  }

  function Write(scope: Scope, s: State, name: string, x: Word): State {
    if name in scope.locals then s.(locals := s.locals[name := x])
    else s.(globals := s.globals[name := x])
  }

  datatype Typed = Typed(width: nat, bits: Word) | Unbound

  function EvalOperand(scope: Scope, s: State, v: Operand): Typed {
    match v
    case Number(n) => Typed(64, Wrap(64, n))
    case Truth(b) => Typed(1, BoolWord(b))
    case Register(name) =>
      match TypeOf(scope, name)
      case Some(t) => Typed(t.width, Read(scope, s, name))
      case None => Unbound
  }

  /** Conversion between integer widths; the destination's signedness chooses the extension. */
  function Coerce(from: nat, to: nat, unsigned: bool, x: Word): Word {
    if from == to then x
    else if from < to && !unsigned then Wrap(to, Signed(from, x))
    else if from < to then x
    else Wrap(to, x)
  }

  datatype BinaryResult = Ok(width: nat, bits: Word) | Traps

  predicate Less(unsigned: bool, w: nat, a: Word, b: Word) {
    if unsigned then a < b else Signed(w, a) < Signed(w, b)
  }

  predicate DivisionTraps(unsigned: bool, w: nat, a: Word, b: Word) {
    b == 0 || (!unsigned && a == Wrap(w, Pow2(if w > 0 then w - 1 else 0)) && b == Wrap(w, -1))
  }

  function EvalBinary(op: BinaryOp, unsigned: bool, w: nat, a: Word, b: Word): BinaryResult {
    match op
    case Add => Ok(w, Wrap(w, a + b))
    case Sub => Ok(w, Wrap(w, a - b))
    case Mul => Ok(w, Product(w, a, b))
    case Div => if DivisionTraps(unsigned, w, a, b) then Traps else Ok(w, Quotient(unsigned, w, a, b))
    case Mod => if DivisionTraps(unsigned, w, a, b) then Traps else Ok(w, Remainder(unsigned, w, a, b))
    case Eq => Ok(1, BoolWord(a == b))
    case Neq => Ok(1, BoolWord(a != b))
    case Gt => Ok(1, BoolWord(Less(unsigned, w, b, a)))
    case Lt => Ok(1, BoolWord(Less(unsigned, w, a, b)))
    case Gte => Ok(1, BoolWord(!Less(unsigned, w, a, b)))
    case Lte => Ok(1, BoolWord(!Less(unsigned, w, b, a)))
    case And => Ok(w, BitAnd(w, a, b))
    case Or => Ok(w, BitOr(w, a, b))
    case Xor => Ok(w, BitXor(w, a, b))
    case Lsh => if b >= Wrap(w, w) then Traps else Ok(w, ShiftLeft(w, a, b))
    case Rsh => if b >= Wrap(w, w) then Traps else Ok(w, ShiftRight(unsigned, w, a, b))
    case Land => Ok(1, BoolWord(a != 0 && b != 0))
    case Lor => Ok(1, BoolWord(a != 0 || b != 0))
  }

  /** The locals that the environment can find. */
  function Visible(o: Oracle, s: State): Memory {
    Memory(s.trace, s.globals, map name | name in o.places && name in s.locals :: s.locals[name])
  }

  function Rewritten(o: Oracle, locals: map<string, Word>, answer: map<string, Word>): map<string, Word> {
    map name | name in locals :: if name in o.places && name in answer then answer[name] else locals[name]
  }

  datatype Computed =
    | Value(width: nat, bits: Word, after: State)
    | Crash(globals: Globals, trace: seq<Event>)
    | Undefined

  function EvalOperands(scope: Scope, s: State, vs: seq<Operand>): Option<seq<Word>> {
    if vs == [] then Some([])
    else
      match (EvalOperand(scope, s, vs[0]), EvalOperands(scope, s, vs[1..]))
      case (Typed(_, x), Some(xs)) => Some([x] + xs)
      case _ => None
  }

  predicate AnyGuard(o: Oracle, m: Memory, name: string, guards: nat, args: seq<Word>) {
    exists k: nat | k < guards :: o.guard(m, name, k, args)
  }

  /** A foreign instruction traps when one of its guards does, and otherwise the environment answers. */
  function Answer(o: Oracle, s: State, name: string, guards: nat, xs: seq<Word>, width: nat): Computed {
    if AnyGuard(o, Visible(o, s), name, guards, xs) then Crash(s.globals, s.trace)
    else
      var trace := s.trace + [Event(name, xs, s.globals, Visible(o, s).locals)];
      match o.respond(Visible(o, s), name, xs)
      case Result(x, globals, locals) => Value(width, x, State(Rewritten(o, s.locals, locals), globals, trace))
      case Abort => Crash(s.globals, trace)
  }

  function EvalComputation(o: Oracle, scope: Scope, s: State, c: Computation): Computed {
    match c
    case Copy(v) =>
      (match EvalOperand(scope, s, v)
       case Typed(w, x) => Value(w, x, s)
       case Unbound => Undefined)
    case Not(v) =>
      (match EvalOperand(scope, s, v)
       case Typed(w, x) => Value(w, BitNot(w, x), s)
       case Unbound => Undefined)
    case Lnot(v) =>
      (match EvalOperand(scope, s, v)
       case Typed(w, x) => Value(1, BoolWord(x == 0), s)
       case Unbound => Undefined)
    case Binary(op, lhs, rhs) =>
      (match (EvalOperand(scope, s, lhs), EvalOperand(scope, s, rhs))
       case (Typed(w, a), Typed(w', b)) =>
         var unsigned := IsUnsigned(scope, lhs);
         (match EvalBinary(op, unsigned, w, a, Coerce(w', w, unsigned, b))
          case Ok(width, x) => Value(width, x, s)
          case Traps => Crash(s.globals, s.trace))
       case _ => Undefined)
    case Foreign(name, guards, args, width) =>
      match EvalOperands(scope, s, args)
      case None => Undefined
      case Some(xs) => Answer(o, s, name, guards, xs, width)
  }

  /** Index just after the first label of the given name. */
  function AfterLabel(commands: seq<Command>, name: string, from: nat): Option<nat>
    requires from <= |commands|
    decreases |commands| - from
  {
    if from == |commands| then None
    else if commands[from] == Label(name) then Some(from + 1)
    else AfterLabel(commands, name, from + 1)
  }

  function JumpTo(p: Program, name: string, s: State): Config {
    match AfterLabel(p.commands, name, 0)
    case Some(i) => Running(i, s)
    case None => Halted(Wrong)
  }

  /** Stores a computed value into a name after converting it to the name's type. */
  function StoreComputed(scope: Scope, name: string, t: IntType, v: Computed, pc: nat): Config {
    match v
    case Value(w, x, after) => Running(pc + 1, Write(scope, after, name, Coerce(w, t.width, t.unsigned, x)))
    case Crash(globals, trace) => Halted(Trapped(globals, trace))
    case Undefined => Halted(Wrong)
  }

  /** One command of the source machine. A declaration without an initializer changes nothing. */
  function Step(p: Program, o: Oracle, c: Config): Config {
    if c.Halted? then c
    else if c.pc > |p.commands| then Halted(Wrong)
    else
      var s := c.state;
      var scope := Scope(VisibleLocals(p, c.pc), p.globals);
      if c.pc == |p.commands| then
        if p.result.None? then Halted(Returned(None, s.globals, s.trace)) else Halted(Wrong)
      else
        match p.commands[c.pc]
        case Empty => Running(c.pc + 1, s)
        case Label(_) => Running(c.pc + 1, s)
        case Declare(name, t, None) => Running(c.pc + 1, s)
        case Declare(name, t, Some(comp)) =>
          var inner := scope.(locals := scope.locals[name := t]);
          StoreComputed(inner, name, t, EvalComputation(o, scope, s, comp), c.pc)
        case Assign(name, comp) =>
          (match TypeOf(scope, name)
           case Some(t) => StoreComputed(scope, name, t, EvalComputation(o, scope, s, comp), c.pc)
           case None => Halted(Wrong))
        case Perform(comp) =>
          (match EvalComputation(o, scope, s, comp)
           case Value(_, _, after) => Running(c.pc + 1, after)
           case Crash(globals, trace) => Halted(Trapped(globals, trace))
           case Undefined => Halted(Wrong))
        case Jmp(target) => JumpTo(p, target, s)
        case Cjmp(v, target) =>
          (match EvalOperand(scope, s, v)
           case Typed(_, x) => if x != 0 then JumpTo(p, target, s) else Running(c.pc + 1, s)
           case Unbound => Halted(Wrong))
        case Ret(None) =>
          if p.result.None? then Halted(Returned(None, s.globals, s.trace)) else Halted(Wrong)
        case Ret(Some(v)) =>
          match (EvalOperand(scope, s, v), p.result)
          case (Typed(w, x), Some(t)) =>
            Halted(Returned(Some(Coerce(w, t.width, t.unsigned, x)), s.globals, s.trace))
          case _ => Halted(Wrong)
  }

  function BindArguments(args: seq<(string, IntType)>, inputs: seq<Word>, locals: map<string, Word>): map<string, Word>
    requires |inputs| == |args|
  {
    if args == [] then locals
    else
      var n := |args| - 1;
      BindArguments(args[..n], inputs[..n], locals)[args[n].0 := inputs[n]]
  }

  /** Every local is zero at entry, whether or not its declaration is ever reached. */
  function InitialLocals(p: Program, inputs: seq<Word>): map<string, Word>
    requires |inputs| == |p.args|
  {
    BindArguments(p.args, inputs, map name | name in DeclaredNames(p.commands) :: 0)
  }

  function Start(p: Program, inputs: seq<Word>, globals: Globals): Config
    requires |inputs| == |p.args|
  {
    Running(0, State(InitialLocals(p, inputs), globals, []))
  }

  function Run(p: Program, o: Oracle, c: Config, n: nat): Config
    decreases n
  {
    if n == 0 then c else Run(p, o, Step(p, o, c), n - 1)
  }
}
