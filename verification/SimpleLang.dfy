/** The structured lines handed to the compiler back end, and what running them means. */
module SimpleLang {
  import opened Wrappers
  import opened KoalaBear

  /** A variable, or a cell of an array of constant size, named by the array's label and the constant index. */
  datatype Var = Name(text: string) | Cell(id: nat, index: nat)

  datatype Operand = Variable(name: Var) | Literal(value: F)

  datatype MathOp = Plus | Minus | Times | Over

  datatype Line =
    | ForwardDeclaration(x: Var)
    | ConstMalloc(id: nat, size: nat)
    | Assignment(target: Operand, op: MathOp, arg0: Operand, arg1: Operand)
    | AssertEq(left: Operand, right: Operand)
    | IfNotZero(condition: Operand, thenBranch: Block, elseBranch: Block)
    | Match(value: Operand, arms: Arms, offset: nat)
    | FunctionCall(callee: string, args: seq<Operand>, results: seq<Var>)
    | FunctionRet(data: seq<Operand>)
    | Abort

  datatype Block = Done | Then(line: Line, rest: Block)

  datatype Arms = NoArms | Arm(body: Block, others: Arms)

  datatype Function = Function(name: string, arguments: seq<Var>, nReturned: nat, body: Block)

  type Program = map<string, Function>

  function CountArms(arms: Arms): nat {
    if arms.NoArms? then 0 else 1 + CountArms(arms.others)
  }

  // -- Names -------------------------------------------------------------------

  function Named(o: Operand): set<Var> {
    if o.Variable? then {o.name} else {}
  }

  function AllNamed(os: seq<Operand>): set<Var> {
    set o | o in os && o.Variable? :: o.name
  }

  /** Names that are declared or assigned somewhere in the block. */
  function Declared(block: Block): set<Var> {
    match block
    case Done => {}
    case Then(line, rest) =>
      (match line
       case ForwardDeclaration(x) => {x}
       case Assignment(target, _, _, _) => Named(target)
       case IfNotZero(_, a, b) => Declared(a) + Declared(b)
       case Match(_, arms, _) => DeclaredInArms(arms)
       case _ => {}) + Declared(rest)
  }

  function DeclaredInArms(arms: Arms): set<Var> {
    if arms.NoArms? then {} else Declared(arms.body) + DeclaredInArms(arms.others)
  }

  /** Names read somewhere in the block; the target of an assignment is not a read. */
  function Used(block: Block): set<Var> {
    match block
    case Done => {}
    case Then(line, rest) =>
      (match line
       case Assignment(_, _, a, b) => Named(a) + Named(b)
       case AssertEq(a, b) => Named(a) + Named(b)
       case IfNotZero(c, a, b) => Named(c) + Used(a) + Used(b)
       case Match(v, arms, _) => Named(v) + UsedInArms(arms)
       case FunctionCall(_, args, _) => AllNamed(args)
       case FunctionRet(data) => AllNamed(data)
       case _ => {}) + Used(rest)
  }

  function UsedInArms(arms: Arms): set<Var> {
    if arms.NoArms? then {} else Used(arms.body) + UsedInArms(arms.others)
  }

  /** Stores to these variables are dropped by the compiler; a store to a cell never is. */
  function DeadStores(body: Block): set<Var> {
    set x | x in Declared(body) && x.Name? && x !in Used(body)
  }

  /** The cells of an array. */
  function CellsOf(id: nat, size: nat): set<Var> {
    set k | 0 <= k < size :: Cell(id, k)
  }

  // -- Meaning -------------------------------------------------------------------

  type Env = map<Var, F>

  datatype Outcome =
    | Falls(env: Env)
    | Returns(values: seq<F>)
    | Panics
    | Undefined
    | OutsideArms
    | OutOfFuel

  /** The equation an assignment states; division is the equation of the product. */
  predicate Holds(op: MathOp, a: F, b: F, r: F) {
    match op
    case Plus => r == FAdd(a, b)
    case Minus => FAdd(r, b) == a
    case Times => r == FMul(a, b)
    case Over => FMul(r, b) == a
  }

  function Apply(op: MathOp, a: F, b: F): Option<F> {
    match op
    case Plus => Some(FAdd(a, b))
    case Minus => Some(FSub(a, b))
    case Times => Some(FMul(a, b))
    case Over => if b == 0 then None else Some(FDiv(a, b))
  }

  /** Only a name in scope that already has a value can be read. */
  function Lookup(o: Operand, scope: set<Var>, env: Env): Option<F> {
    match o
    case Literal(v) => Some(v)
    case Variable(x) => if x in scope && x in env then Some(env[x]) else None
  }

  function LookupAll(os: seq<Operand>, scope: set<Var>, env: Env): (r: Option<seq<F>>)
    ensures r.Some? ==> |r.value| == |os|
  {
    if os == [] then Some([])
    else
      var v, vs := Lookup(os[0], scope, env), LookupAll(os[1..], scope, env);
      if v.None? || vs.None? then None else Some([v.value] + vs.value)
  }

  datatype Local = Local(scope: set<Var>, env: Env)

  /**
   * A variable out of scope is brought into scope on its first write, a cell only
   * by its array. Names are declared once per path: a second declaration of a name
   * that already has a value has no meaning, except for one that is never read.
   */
  function Introduce(l: Local, o: Operand, dead: set<Var>): Option<Local> {
    if o.Literal? || o.name in l.scope then Some(l)
    else if o.name.Cell? || (o.name in l.env && o.name !in dead) then None
    else Some(Local(l.scope + {o.name}, l.env - {o.name}))
  }

  datatype Progress = Continues(l: Local) | Stops(outcome: Outcome)

  /** Gives o the value v; an operand that has a value already is compared with it. */
  function Unify(l: Local, o: Operand, v: F): Progress {
    match o
    case Literal(c) => if c == v then Continues(l) else Stops(Panics)
    case Variable(x) =>
      if x !in l.env then Continues(l.(env := l.env[x := v]))
      else if l.env[x] == v then Continues(l)
      else Stops(Panics)
  }

  function Assign(l: Local, target: Operand, op: MathOp, a: Operand, b: Operand, dead: set<Var>): Progress {
    if target.Variable? && target.name in dead then Continues(l)
    else
      var l' := Introduce(l, target, dead);
      if l'.None? then Stops(Undefined)
      else
        var l1 := l'.value;
        var va, vb := Lookup(a, l1.scope, l1.env), Lookup(b, l1.scope, l1.env);
        var vt := Lookup(target, l1.scope, l1.env);
        if va.None? || vb.None? then Stops(Undefined)
        else if vt.Some? then (if Holds(op, va.value, vb.value, vt.value) then Continues(l1) else Stops(Panics))
        else
          var v := Apply(op, va.value, vb.value);
          if v.None? then Stops(Panics) else Unify(l1, target, v.value)
  }

  /** The side without a value takes the value of the other. */
  function Equate(l: Local, left: Operand, right: Operand, dead: set<Var>): Progress {
    var l' := Introduce(l, left, dead);
    if l'.None? then Stops(Undefined)
    else
      var l'' := Introduce(l'.value, right, dead);
      if l''.None? then Stops(Undefined)
      else
        var l1 := l''.value;
        var va, vb := Lookup(left, l1.scope, l1.env), Lookup(right, l1.scope, l1.env);
        if va.Some? then Unify(l1, right, va.value)
        else if vb.Some? then Unify(l1, left, vb.value)
        else Stops(Undefined)
  }

  function IntroduceAll(l: Local, xs: seq<Var>, dead: set<Var>): Option<Local>
    decreases |xs|
  {
    if xs == [] then Some(l)
    else
      var l' := Introduce(l, Variable(xs[0]), dead);
      if l'.None? then None else IntroduceAll(l'.value, xs[1..], dead)
  }

  function UnifyAll(l: Local, xs: seq<Var>, vs: seq<F>): (r: Progress)
    requires |xs| == |vs|
    ensures r.Stops? ==> r.outcome.Panics?
    decreases |xs|
  {
    if xs == [] then Continues(l)
    else
      var p := Unify(l, Variable(xs[0]), vs[0]);
      if p.Stops? then p else UnifyAll(p.l, xs[1..], vs[1..])
  }

  function Bindings(xs: seq<Var>, vs: seq<F>): Env
    requires |xs| == |vs|
  {
    if xs == [] then map[] else Bindings(xs[..|xs| - 1], vs[..|xs| - 1])[xs[|xs| - 1] := vs[|xs| - 1]]
  }

  function Arguments(f: Function): set<Var> {
    set x | x in f.arguments
  }

  /**
   * Runs a block in a function. With `drop` the stores the compiler calls dead are left out; without it every line
   * counts. `main` cannot be called, a call with the wrong number of values, a read of an unset name and a function
   * that ends without returning have no meaning; nor has a match value outside the arms, which no check of the text
   * can rule out.
   */
  function Execute(p: Program, drop: bool, dead: set<Var>, block: Block, l: Local, fuel: nat): Outcome
    decreases fuel, block
  {
    match block
    case Done => Falls(l.env)
    case Then(line, rest) =>
      match line
      case ForwardDeclaration(x) =>
        if x in dead then Execute(p, drop, dead, rest, l, fuel)
        else if x in l.scope || x in l.env then Undefined
        else Execute(p, drop, dead, rest, l.(scope := l.scope + {x}), fuel)
      case ConstMalloc(id, size) =>
        if CellsOf(id, size) !! l.scope + l.env.Keys then
            Execute(p, drop, dead, rest, l.(scope := l.scope + CellsOf(id, size)), fuel)
        else Undefined
      case Assignment(target, op, a, b) =>
        var r := Assign(l, target, op, a, b, dead);
        if r.Stops? then r.outcome else Execute(p, drop, dead, rest, r.l, fuel)
      case AssertEq(left, right) =>
        var r := Equate(l, left, right, dead);
        if r.Stops? then r.outcome else Execute(p, drop, dead, rest, r.l, fuel)
      case IfNotZero(condition, thenBranch, elseBranch) =>
        var c := Lookup(condition, l.scope, l.env);
        if c.None? then Undefined
        else
          var r := if c.value != 0 then Execute(p, drop, dead, thenBranch, l, fuel)
              else Execute(p, drop, dead, elseBranch, l, fuel);
          if r.Falls? then Execute(p, drop, dead, rest, l.(env := r.env), fuel) else r
      case Match(value, arms, offset) =>
        var v := Lookup(value, l.scope, l.env);
        if v.None? then Undefined
        else if v.value < offset then OutsideArms
        else
          var r := ExecuteArm(p, drop, dead, arms, v.value - offset, l, fuel);
          if r.Falls? then Execute(p, drop, dead, rest, l.(env := r.env), fuel) else r
      case FunctionCall(callee, args, results) =>
        if callee !in p || callee == "main" then Undefined
        else
          var f := p[callee];
          var vs := LookupAll(args, l.scope, l.env);
          var l' := IntroduceAll(l, results, dead);
          if vs.None? || |args| != |f.arguments| || |results| != f.nReturned || l'.None? then Undefined
          else if fuel == 0 then OutOfFuel
          else
            var r := Execute(p, drop, if drop then DeadStores(f.body) else {}, f.body,
                Local(Arguments(f), Bindings(f.arguments, vs.value)), fuel - 1);
            if r.Returns? && |r.values| == |results| then
              var u := UnifyAll(l'.value, results, r.values);
              if u.Stops? then u.outcome else Execute(p, drop, dead, rest, u.l, fuel)
            else if r.Panics? || r.OutOfFuel? || r.OutsideArms? then r
            else Undefined
      case FunctionRet(data) =>
        var vs := LookupAll(data, l.scope, l.env);
        if vs.None? then Undefined else Returns(vs.value)
      case Abort => Panics
  }

  function ExecuteArm(p: Program, drop: bool, dead: set<Var>, arms: Arms, k: nat, l: Local, fuel: nat): Outcome
    decreases fuel, arms
  {
    if arms.NoArms? then OutsideArms
    else if k == 0 then Execute(p, drop, dead, arms.body, l, fuel)
    else ExecuteArm(p, drop, dead, arms.others, k - 1, l, fuel)
  }
}
