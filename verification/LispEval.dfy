/** The evaluator of the LISP interpreter: what evaluating a tree means, as a function of the tree, the
    local environment and the global state, with the nesting of user-function calls bounded by a fuel. */
module LispEval {
  import opened LispReader

  const MAX_GLOBALS: nat := 128
  const MAX_ARGS: nat := 16

  type Env = map<string, Node>

  /** The global environment and everything printed so far. */
  datatype State = State(globals: Env, out: string)

  /** How an evaluation ends: with a node, in something the C program may not do (an access through a
      null pointer, past an array, an int overflow), or because user functions are nested more deeply
      than the fuel allows. */
  datatype Answer = Value(node: Node) | Fault | Spent

  datatype Outcome = Outcome(answer: Answer, state: State)

  datatype Gathered = All(values: seq<Node>, state: State) | Cut(outcome: Outcome)

  /** The num field of a node; it is zero in every node that is not a number. */
  function NumOf(t: Node): int { if t.Num? then t.n else 0 }

  /** The sym field of a node: symbols and errors have one, in other nodes it is empty. */
  function SymOf(t: Node): string {
    if t.Sym? then t.name else if t.Err? then t.msg else ""
  }

  predicate Fits(n: int) { -0x8000_0000 <= n < 0x8000_0000 }

  /** An int result; signed overflow is outside the language. */
  function Number(n: int): Answer { if Fits(n) then Value(Num(n)) else Fault }

  predicate Builtin(name: string) {
    name == "+" || name == "-" || name == "*" || name == "/" || name == "print"
  }

  predicate Special(t: Node) { t == Sym("defun") || t == Sym("setq") }

  /** Setting a global: a full environment takes no new name. */
  function Set(globals: Env, name: string, value: Node): Env {
    if name in globals || |globals| < MAX_GLOBALS then globals[name := value] else globals
  }

  function Lookup(name: string, locals: Env, globals: Env): Node {
    if name in locals then locals[name]
    else if name in globals then globals[name]
    else if Builtin(name) then Sym(name)
    else Err("Variavel/Funcao nao definida")
  }

  /** The parameters bound to the arguments, as many as there are of both; of two parameters with the
      same name the first one counts. */
  function Bind(params: Node, args: seq<Node>): Env
    decreases |args|
  {
    if params.List? && args != [] then Bind(params.rest, args[1..])[SymOf(params.first) := args[0]]
    else map[]
  }

  datatype Operator = Plus | Minus | Times

  function Combine(op: Operator, a: int, b: int): int {
    match op
    case Plus => a + b
    case Minus => a - b
    case Times => a * b
  }

  /** The arguments taken into an accumulator from left to right, each step in int arithmetic. */
  function Accumulate(op: Operator, acc: int, args: seq<Node>): (r: Answer)
    ensures r.Fault? || (r.Value? && r.node.Num?)
    decreases |args|
  {
    if args == [] then Value(Num(acc))
    else
      var next := Combine(op, acc, NumOf(args[0]));
      if Fits(next) then Accumulate(op, next, args[1..]) else Fault
  }

  function Abs(n: int): nat { if n < 0 then -n else n }

  /** Division in C: the quotient of the magnitudes, with the sign the operands call for. */
  function TruncDiv(a: int, b: int): int
    requires b != 0
  {
    var q := Abs(a) / Abs(b);
    if (a < 0) == (b < 0) then q else -q
  }

  /** The remainder is smaller than the divisor and has the dividend's sign. */
  lemma TruncDivRemainder(a: int, b: int)
    requires b != 0
    ensures Abs(a - TruncDiv(a, b) * b) < Abs(b)
    ensures (a >= 0 ==> a - TruncDiv(a, b) * b >= 0) && (a <= 0 ==> a - TruncDiv(a, b) * b <= 0)
  {
    var d := Abs(b);
    var q := Abs(a) / d;
    Division(Abs(a), d);
    assert TruncDiv(a, b) * b == (if a < 0 then -(q * d) else q * d) by {
      SignedProduct(q, b);
    }
  }

  lemma Division(m: nat, d: nat)
    requires d > 0
    ensures 0 <= m - m / d * d < d
  {
  }

  lemma SignedProduct(q: nat, b: int)
    ensures q * b == (if b < 0 then -(q * Abs(b)) else q * Abs(b)) && (0 - q) * b == -(q * b)
  {
  }

  function Shown(t: Node): string {
    (if t.Num? then Decimal(t.n) else if t.Sym? then t.name else "") + " "
  }

  /** The decimal form is made by negating a negative number, which the least int does not survive. */
  predicate Printable(t: Node) { t.Num? ==> Fits(t.n) && Fits(-t.n) }

  function ShownAll(args: seq<Node>): string {
    if args == [] then "" else Shown(args[0]) + ShownAll(args[1..])
  }

  /** A value that is not a user function, applied. */
  function Apply(f: Node, args: seq<Node>, s: State): Outcome
    requires !f.Func?
  {
    if f == Sym("+") then Outcome(Accumulate(Plus, 0, args), s)
    else if f == Sym("-") then
      if |args| == 0 then Outcome(Fault, s)
      else if |args| == 1 then Outcome(Number(-NumOf(args[0])), s)
      else Outcome(Accumulate(Minus, NumOf(args[0]), args[1..]), s)
    else if f == Sym("*") then Outcome(Accumulate(Times, 1, args), s)
    else if f == Sym("/") then
      if |args| > 1 && NumOf(args[1]) != 0 then
        Outcome(Number(TruncDiv(NumOf(args[0]), NumOf(args[1]))), s)
      else Outcome(Value(Err("Divisao por zero")), s)
    else if f == Sym("print") then
      if forall i :: 0 <= i < |args| ==> Printable(args[i]) then
        Outcome(Value(Nil), State(s.globals, s.out + ShownAll(args) + "\n"))
      else Outcome(Fault, s)
    else Outcome(Value(Err("Nao e uma funcao valida")), s)
  }

  /** A function definition: a name and a parameter list must be there, the body may be missing. */
  function Defun(form: Node, s: State): Outcome {
    if form.List? && form.rest.List? then
      var body := if form.rest.rest.List? then form.rest.rest.first else Nil;
      Outcome(Value(Sym("ok")), State(Set(s.globals, SymOf(form.first), Func(form.rest.first, body)), s.out))
    else Outcome(Fault, s)
  }

  function Eval(fuel: nat, ast: Node, locals: Env, s: State): Outcome
    decreases fuel, ast, 1
  {
    match ast
    case Num(_) => Outcome(Value(ast), s)
    case Nil => Outcome(Value(ast), s)
    case Sym(name) => Outcome(Value(Lookup(name, locals, s.globals)), s)
    case List(first, rest) =>
      if first == Sym("defun") then Defun(rest, s)
      else if first == Sym("setq") then Setq(fuel, rest, locals, s)
      else
        var f := Eval(fuel, first, locals, s);
        if !f.answer.Value? || f.answer.node.Err? then f
        else
          var args := EvalArgs(fuel, rest, locals, f.state, []);
          if args.Cut? then args.outcome
          else if !f.answer.node.Func? then Apply(f.answer.node, args.values, args.state)
          else if fuel == 0 then Outcome(Spent, args.state)
          else Eval(fuel - 1, f.answer.node.body, Bind(f.answer.node.params, args.values), args.state)
    case _ => Outcome(Value(Err("Erro de avaliacao")), s)
  }

  /** An assignment; a missing value stands for the empty list. */
  function Setq(fuel: nat, form: Node, locals: Env, s: State): Outcome
    decreases fuel, form, 0
  {
    if !form.List? then Outcome(Fault, s)
    else
      var v := if form.rest.List? then Eval(fuel, form.rest.first, locals, s) else Outcome(Value(Nil), s);
      if !v.answer.Value? then v
      else Outcome(v.answer, State(Set(v.state.globals, SymOf(form.first), v.answer.node), v.state.out))
  }

  /** The arguments, evaluated from left to right. There is room for sixteen. */
  function EvalArgs(fuel: nat, items: Node, locals: Env, s: State, done: seq<Node>): Gathered
    decreases fuel, items, 0
  {
    if !items.List? then All(done, s)
    else
      var v := Eval(fuel, items.first, locals, s);
      if !v.answer.Value? then Cut(v)
      else if |done| >= MAX_ARGS then Cut(Outcome(Fault, v.state))
      else EvalArgs(fuel, items.rest, locals, v.state, done + [v.answer.node])
  }

  // -- arithmetic

  /** Formulas over the four operations, and what they mean as arithmetic. */
  datatype Formula = Lit(n: int) | Add(l: Formula, r: Formula) | Sub(l: Formula, r: Formula)
    | Mul(l: Formula, r: Formula) | Div(l: Formula, r: Formula)

  function Meaning(e: Formula): int {
    match e
    case Lit(n) => n
    case Add(l, r) => Meaning(l) + Meaning(r)
    case Sub(l, r) => Meaning(l) - Meaning(r)
    case Mul(l, r) => Meaning(l) * Meaning(r)
    case Div(l, r) => if Meaning(r) == 0 then 0 else TruncDiv(Meaning(l), Meaning(r))
  }

  /** Every part has a meaning that is an int. */
  predicate InRange(e: Formula) {
    && Fits(Meaning(e))
    && (e.Lit? || (InRange(e.l) && InRange(e.r)))
    && (e.Div? ==> Meaning(e.r) != 0)
  }

  function OperatorOf(e: Formula): string
    requires !e.Lit?
  {
    match e
    case Add(_, _) => "+"
    case Sub(_, _) => "-"
    case Mul(_, _) => "*"
    case Div(_, _) => "/"
  }

  function Tree(e: Formula): Node {
    if e.Lit? then Num(e.n) else List(Sym(OperatorOf(e)), List(Tree(e.l), List(Tree(e.r), Nil)))
  }

  predicate OperatorsFree(env: Env) { "+" !in env && "-" !in env && "*" !in env && "/" !in env }

  /** A formula evaluates to its meaning, unless the program has rebound an operator. */
  lemma {:induction false} FormulaEvaluates(fuel: nat, e: Formula, locals: Env, s: State)
    requires InRange(e) && OperatorsFree(locals) && OperatorsFree(s.globals)
    ensures Eval(fuel, Tree(e), locals, s) == Outcome(Value(Num(Meaning(e))), s)
    decreases e
  {
    hide Apply, Meaning;
    if e.Lit? {
      MeaningOf(e);
    } else {
      FormulaEvaluates(fuel, e.l, locals, s);
      FormulaEvaluates(fuel, e.r, locals, s);
      var op, left, right := Sym(OperatorOf(e)), Num(Meaning(e.l)), Num(Meaning(e.r));
      assert Eval(fuel, op, locals, s) == Outcome(Value(op), s);
      assert [] + [left] == [left] && [left] + [right] == [left, right];
      assert EvalArgs(fuel, List(Tree(e.r), Nil), locals, s, [left]) == All([left, right], s);
      assert EvalArgs(fuel, List(Tree(e.l), List(Tree(e.r), Nil)), locals, s, []) == All([left, right], s);
      AppliedTwice(e, s);
    }
  }

  lemma MeaningOf(e: Formula)
    requires e.Lit?
    ensures Meaning(e) == e.n
  {
  }

  lemma AppliedTwice(e: Formula, s: State)
    requires InRange(e) && !e.Lit?
    ensures Apply(Sym(OperatorOf(e)), [Num(Meaning(e.l)), Num(Meaning(e.r))], s)
         == Outcome(Value(Num(Meaning(e))), s)
  {
    assert Fits(Meaning(e.l));
    AccumulateTwo(if e.Add? then Plus else Times, if e.Add? then 0 else 1, Meaning(e.l), Meaning(e.r));
    AccumulateOne(Minus, Meaning(e.l), Meaning(e.r));
    assert [Num(Meaning(e.l)), Num(Meaning(e.r))][1..] == [Num(Meaning(e.r))];
  }

  lemma AccumulateOne(op: Operator, acc: int, b: int)
    ensures Accumulate(op, acc, [Num(b)]) == Number(Combine(op, acc, b))
  {
    assert [Num(b)][1..] == [];
  }

  lemma AccumulateTwo(op: Operator, acc: int, a: int, b: int)
    requires Fits(Combine(op, acc, a))
    ensures Accumulate(op, acc, [Num(a), Num(b)]) == Number(Combine(op, Combine(op, acc, a), b))
  {
    assert [Num(a), Num(b)][1..] == [Num(b)];
    AccumulateOne(op, Combine(op, acc, a), b);
  }

  // -- substitution

  predicate SelfEvaluating(t: Node) { t.Num? || t.Nil? }

  predicate SelfValued(env: Env) { forall x :: x in env ==> SelfEvaluating(env[x]) }

  /** A tree with the names of env replaced by their values, wherever evaluation looks a name up:
      definitions are left alone, of an assignment only the value changes. */
  function Subst(t: Node, env: Env): Node
    decreases t, 1
  {
    match t
    case Sym(name) => if name in env then env[name] else t
    case List(first, rest) =>
      if first == Sym("defun") then t
      else if first == Sym("setq") then
        if rest.List? && rest.rest.List? then
          List(first, List(rest.first, List(Subst(rest.rest.first, env), rest.rest.rest)))
        else t
      else List(Subst(first, env), SubstItems(rest, env))
    case _ => t
  }

  function SubstItems(t: Node, env: Env): Node
    decreases t, 0
  {
    if t.List? then List(Subst(t.first, env), SubstItems(t.rest, env)) else t
  }

  /** Evaluating in a local environment of self-evaluating values is evaluating, with no locals at all,
      the tree in which those values have been put. This holds for every tree, whether or not it
      defines functions or sets globals, and the state reached is the same. */
  lemma {:induction false} Substitution(fuel: nat, t: Node, env: Env, s: State)
    requires SelfValued(env)
    ensures Eval(fuel, t, env, s) == Eval(fuel, Subst(t, env), map[], s)
    decreases t, 1
  {
    match t
    case Sym(name) =>
    case List(first, rest) =>
      if first == Sym("defun") {
      } else if first == Sym("setq") {
        if rest.List? && rest.rest.List? {
          Substitution(fuel, rest.rest.first, env, s);
        }
      } else {
        Substitution(fuel, first, env, s);
        var f := Eval(fuel, first, env, s);
        ItemsSubstitution(fuel, rest, env, f.state, []);
      }
    case _ =>
  }

  lemma {:induction false} ItemsSubstitution(fuel: nat, items: Node, env: Env, s: State, done: seq<Node>)
    requires SelfValued(env)
    ensures EvalArgs(fuel, items, env, s, done) == EvalArgs(fuel, SubstItems(items, env), map[], s, done)
    decreases items, 0
  {
    if items.List? {
      Substitution(fuel, items.first, env, s);
      var v := Eval(fuel, items.first, env, s);
      if v.answer.Value? && |done| < MAX_ARGS {
        ItemsSubstitution(fuel, items.rest, env, v.state, done + [v.answer.node]);
      }
    }
  }

  function Numerals(ns: seq<int>): Node {
    if ns == [] then Nil else List(Num(ns[0]), Numerals(ns[1..]))
  }

  function Numbers(ns: seq<int>): (r: seq<Node>)
    ensures |r| == |ns| && forall i :: 0 <= i < |ns| ==> r[i] == Num(ns[i])
  {
    seq(|ns|, i requires 0 <= i < |ns| => Num(ns[i]))
  }

  lemma {:induction false} NumeralsEvaluate(fuel: nat, ns: seq<int>, locals: Env, s: State, done: seq<Node>)
    requires |done| + |ns| <= MAX_ARGS
    ensures EvalArgs(fuel, Numerals(ns), locals, s, done) == All(done + Numbers(ns), s)
    decreases |ns|
  {
    if ns == [] {
      assert done + Numbers(ns) == done;
    } else {
      NumeralsEvaluate(fuel, ns[1..], locals, s, done + [Num(ns[0])]);
      assert done + [Num(ns[0])] + Numbers(ns[1..]) == done + Numbers(ns);
    }
  }

  lemma {:induction false} BoundToNumbers(params: Node, args: seq<Node>)
    requires forall i :: 0 <= i < |args| ==> args[i].Num?
    ensures SelfValued(Bind(params, args))
    decreases |args|
  {
    if params.List? && args != [] {
      BoundToNumbers(params.rest, args[1..]);
    }
  }

  /** Calling a user function with numbers is evaluating its body, with the numbers in place of the
      parameters and no locals: nothing of the caller's environment is seen. */
  lemma CallSubstitutes(fuel: nat, name: string, ns: seq<int>, params: Node, body: Node, locals: Env, s: State)
    requires !Special(Sym(name)) && |ns| <= MAX_ARGS
    requires Lookup(name, locals, s.globals) == Func(params, body)
    ensures Eval(fuel + 1, List(Sym(name), Numerals(ns)), locals, s)
         == Eval(fuel, Subst(body, Bind(params, Numbers(ns))), map[], s)
  {
    hide Subst, Apply, Bind;
    NumeralsEvaluate(fuel + 1, ns, locals, s, []);
    assert [] + Numbers(ns) == Numbers(ns);
    BoundToNumbers(params, Numbers(ns));
    Substitution(fuel, body, Bind(params, Numbers(ns)), s);
  }

  // -- any number of arguments

  function Sum(ns: seq<int>): int { if ns == [] then 0 else ns[0] + Sum(ns[1..]) }

  function Product(ns: seq<int>): int { if ns == [] then 1 else ns[0] * Product(ns[1..]) }

  /** What is between the least and the greatest int. */
  predicate IsInt(n: int) { -0x8000_0000 <= n <= 0x7FFF_FFFF }

  /** What + - * make of an accumulator and the numbers after it. */
  function Combined(op: Operator, acc: int, ns: seq<int>): int {
    match op
    case Plus => acc + Sum(ns)
    case Minus => acc - Sum(ns)
    case Times => acc * Product(ns)
  }

  /** So do the first k of the numbers, for every k. */
  predicate Throughout(op: Operator, acc: int, ns: seq<int>) {
    forall k :: 0 <= k <= |ns| ==> IsInt(Combined(op, acc, ns[..k]))
  }

  lemma CombinedNext(op: Operator, acc: int, ns: seq<int>, k: nat)
    requires 0 < k <= |ns|
    ensures Combined(op, acc, ns[..k]) == Combined(op, Combine(op, acc, ns[0]), ns[1..][..k - 1])
  {
    assert ns[..k][0] == ns[0] && ns[..k][1..] == ns[1..][..k - 1];
    var x, y, z := acc, ns[0], Product(ns[1..][..k - 1]);
    assert x * (y * z) == x * y * z;
  }

  lemma {:induction false} ThroughoutNext(op: Operator, acc: int, ns: seq<int>)
    requires ns != []
    ensures Throughout(op, acc, ns) <==> IsInt(acc) && Throughout(op, Combine(op, acc, ns[0]), ns[1..])
  {
    hide Combine, Sum, Product;
    CombinedNone(op, acc, ns);
    forall k | 0 < k <= |ns|
      ensures Combined(op, acc, ns[..k]) == Combined(op, Combine(op, acc, ns[0]), ns[1..][..k - 1])
    {
      CombinedNext(op, acc, ns, k);
    }
    hide Combined;
    var acc' := Combine(op, acc, ns[0]);
    if Throughout(op, acc, ns) {
      forall k | 0 <= k <= |ns[1..]| ensures IsInt(Combined(op, acc', ns[1..][..k])) {
        assert IsInt(Combined(op, acc, ns[..k + 1]));
      }
    }
  }

  lemma CombinedNone(op: Operator, acc: int, ns: seq<int>)
    ensures Combined(op, acc, ns[..0]) == acc && ns[..|ns|] == ns
  {
  }

  /** Taking numbers into an accumulator gives sum, difference or product, unless on the way there is
      something that is no int. */
  lemma {:induction false} NumbersAccumulate(op: Operator, acc: int, ns: seq<int>)
    requires IsInt(acc)
    ensures Accumulate(op, acc, Numbers(ns)) == if Throughout(op, acc, ns) then Value(Num(Combined(op, acc, ns))) else Fault
    decreases |ns|
  {
    hide Throughout, Combined, Combine, Sum, Product;
    CombinedNone(op, acc, ns);
    if ns == [] {
      NoNumbers(op, acc);
    } else {
      ThroughoutNext(op, acc, ns);
      CombinedNext(op, acc, ns, |ns|);
      assert Numbers(ns)[1..] == Numbers(ns[1..]);
      assert ns[1..][..|ns| - 1] == ns[1..];
      var acc' := Combine(op, acc, ns[0]);
      if IsInt(acc') {
        NumbersAccumulate(op, acc', ns[1..]);
      } else {
        NotThroughout(op, acc', ns[1..]);
      }
    }
  }

  lemma NoNumbers(op: Operator, acc: int)
    ensures Throughout(op, acc, []) <==> IsInt(acc)
  {
    var none: seq<int> := [];
    assert none[..0] == [];
  }

  lemma NotThroughout(op: Operator, acc: int, ns: seq<int>)
    requires !IsInt(acc)
    ensures !Throughout(op, acc, ns)
  {
    CombinedNone(op, acc, ns);
    assert !IsInt(Combined(op, acc, ns[..0]));
  }

  /** (+ ...) over any numbers is their sum, unless the sum of the first few is no int. */
  lemma SumEvaluates(fuel: nat, ns: seq<int>, locals: Env, s: State)
    requires |ns| <= 16 && "+" !in locals && "+" !in s.globals
    ensures Eval(fuel, List(Sym("+"), Numerals(ns)), locals, s) ==
      Outcome(if forall k :: 0 <= k <= |ns| ==> IsInt(Sum(ns[..k])) then Value(Num(Sum(ns))) else Fault, s)
  {
    NumbersApplied(fuel, "+", ns, locals, s);
    NumbersAccumulate(Plus, 0, ns);
    assert forall k :: 0 <= k <= |ns| ==> Combined(Plus, 0, ns[..k]) == Sum(ns[..k]);
  }

  /** ( * ...) over any numbers is their product, unless the product of the first few is no int. */
  lemma ProductEvaluates(fuel: nat, ns: seq<int>, locals: Env, s: State)
    requires |ns| <= 16 && "*" !in locals && "*" !in s.globals
    ensures Eval(fuel, List(Sym("*"), Numerals(ns)), locals, s) ==
      Outcome(if forall k :: 0 <= k <= |ns| ==> IsInt(Product(ns[..k])) then Value(Num(Product(ns))) else Fault, s)
  {
    NumbersApplied(fuel, "*", ns, locals, s);
    NumbersAccumulate(Times, 1, ns);
    assert forall k :: 0 <= k <= |ns| ==> Combined(Times, 1, ns[..k]) == Product(ns[..k]);
  }

  /** (- n ...) is n less the sum of the others, unless on the way there is something that is no int; one
      number alone is negated, and without any there is no first to take. */
  lemma DifferenceEvaluates(fuel: nat, ns: seq<int>, locals: Env, s: State)
    requires |ns| <= 16 && "-" !in locals && "-" !in s.globals && forall i :: 0 <= i < |ns| ==> IsInt(ns[i])
    ensures Eval(fuel, List(Sym("-"), Numerals(ns)), locals, s) ==
      Outcome(if ns == [] then Fault
              else if |ns| == 1 then if ns[0] == -0x8000_0000 then Fault else Value(Num(-ns[0]))
              else if forall k :: 0 <= k < |ns| ==> IsInt(ns[0] - Sum(ns[1..][..k])) then Value(Num(ns[0] - Sum(ns[1..])))
              else Fault, s)
  {
    NumbersApplied(fuel, "-", ns, locals, s);
    if |ns| > 1 {
      NumbersAccumulate(Minus, ns[0], ns[1..]);
      assert Numbers(ns)[1..] == Numbers(ns[1..]);
      assert forall k :: 0 <= k < |ns| ==> Combined(Minus, ns[0], ns[1..][..k]) == ns[0] - Sum(ns[1..][..k]);
    }
  }

  /** (/ a b ...) is the quotient of the first two, cut off towards zero, whatever follows: the q whose
      product with b leaves a remainder smaller than b, with the sign of a. */
  lemma QuotientEvaluates(fuel: nat, ns: seq<int>, q: int, locals: Env, s: State)
    requires 2 <= |ns| <= 16 && "/" !in locals && "/" !in s.globals && ns[1] != 0
    requires var r := ns[0] - q * ns[1];
      (if ns[1] < 0 then ns[1] < r < -ns[1] else -ns[1] < r < ns[1]) && (ns[0] >= 0 ==> r >= 0) && (ns[0] <= 0 ==> r <= 0)
    ensures Eval(fuel, List(Sym("/"), Numerals(ns)), locals, s) == Outcome(if IsInt(q) then Value(Num(q)) else Fault, s)
  {
    hide TruncDiv;
    NumbersApplied(fuel, "/", ns, locals, s);
    TruncDivRemainder(ns[0], ns[1]);
    QuotientUnique(ns[1], q, TruncDiv(ns[0], ns[1]), ns[0]);
  }

  /** Two quotients whose remainders are that small and have one sign are one quotient. */
  lemma QuotientUnique(b: int, p: int, q: int, a: int)
    requires b != 0 && Abs(a - p * b) < Abs(b) && Abs(a - q * b) < Abs(b)
    requires a >= 0 ==> a - p * b >= 0 && a - q * b >= 0
    requires a <= 0 ==> a - p * b <= 0 && a - q * b <= 0
    ensures p == q
  {
    Distributes(p, q, b);
    SmallMultiple(p - q, b);
  }

  lemma Distributes(p: int, q: int, b: int)
    ensures p * b - q * b == (p - q) * b
  {
  }

  lemma SmallMultiple(d: int, b: int)
    requires d * b < Abs(b) && -(d * b) < Abs(b)
    ensures d == 0
  {
    if d >= 1 {
      Distributes(d, 1, b);
      Signs(d - 1, b);
    } else if d <= -1 {
      Distributes(d, -1, b);
      Signs(-1 - d, b);
      Distributes(0, d + 1, b);
    }
  }

  lemma Signs(d: nat, b: int)
    ensures if b >= 0 then d * b >= 0 else d * b <= 0
  {
  }

  lemma NumbersApplied(fuel: nat, name: string, ns: seq<int>, locals: Env, s: State)
    requires |ns| <= 16 && Arithmetic(name) && name !in locals && name !in s.globals
    ensures Eval(fuel, List(Sym(name), Numerals(ns)), locals, s) == Apply(Sym(name), Numbers(ns), s)
  {
    hide Apply;
    NumeralsEvaluate(fuel, ns, locals, s, []);
    assert [] + Numbers(ns) == Numbers(ns);
    NameIs(fuel, name, locals, s);
  }

  /** A seventeenth argument is one too many. */
  lemma {:induction false} TooManyArguments(fuel: nat, ns: seq<int>, locals: Env, s: State, done: seq<Node>)
    requires |done| <= 16 && |done| + |ns| > 16
    ensures EvalArgs(fuel, Numerals(ns), locals, s, done) == Cut(Outcome(Fault, s))
    decreases |ns|
  {
    if |done| < 16 {
      TooManyArguments(fuel, ns[1..], locals, s, done + [Num(ns[0])]);
    }
  }

  /** What a name means: a local value, failing that a global one, failing that itself if it names an
      operation; otherwise there is an error. */
  lemma NameEvaluates(fuel: nat, name: string, locals: Env, s: State)
    ensures name in locals ==> Eval(fuel, Sym(name), locals, s) == Outcome(Value(locals[name]), s)
    ensures name !in locals && name in s.globals ==>
      Eval(fuel, Sym(name), locals, s) == Outcome(Value(s.globals[name]), s)
    ensures name !in locals && name !in s.globals ==>
      Eval(fuel, Sym(name), locals, s) == Outcome(Value(
        if name in ["+", "-", "*", "/", "print"] then Sym(name) else Err("Variavel/Funcao nao definida")), s)
  {
  }

  /** A name is given a value unless it is new and there are 128 names already. */
  lemma GlobalSet(fuel: nat, name: string, t: Node, locals: Env, s: State)
    requires Eval(fuel, t, locals, s).answer.Value?
    ensures var v := Eval(fuel, t, locals, s);
      Eval(fuel, List(Sym("setq"), List(Sym(name), List(t, Nil))), locals, s) == Outcome(v.answer, State(
        if name !in v.state.globals && |v.state.globals| >= 128 then v.state.globals
        else v.state.globals[name := v.answer.node], v.state.out))
  {
    assert Setq(fuel, List(Sym(name), List(t, Nil)), locals, s)
      == var v := Eval(fuel, t, locals, s); Outcome(v.answer, State(Set(v.state.globals, name, v.answer.node), v.state.out));
  }

  /** The tree of a list of names. */
  function Names(xs: seq<string>): Node {
    if xs == [] then Nil else List(Sym(xs[0]), Names(xs[1..]))
  }

  /** A parameter is bound to the argument at its place; of two with one name the first is. */
  lemma {:induction false} BindMeans(xs: seq<string>, args: seq<Node>, i: nat)
    requires i < |xs| && i < |args| && forall k :: 0 <= k < i ==> xs[k] != xs[i]
    ensures xs[i] in Bind(Names(xs), args) && Bind(Names(xs), args)[xs[i]] == args[i]
    decreases i
  {
    if i > 0 {
      assert xs[0] != xs[i];
      BindMeans(xs[1..], args[1..], i - 1);
    }
  }

  /** Names beyond the arguments, and other names, are not bound. */
  lemma {:induction false} BindNoMore(xs: seq<string>, args: seq<Node>, x: string)
    requires forall k :: 0 <= k < |xs| && k < |args| ==> xs[k] != x
    ensures x !in Bind(Names(xs), args)
    decreases |args|
  {
    if xs != [] && args != [] {
      BindNoMore(xs[1..], args[1..], x);
    }
  }

  /** A function that has just been defined answers a call with its body, the numbers put in. Defining
      it prints nothing and leaves every other name alone. */
  lemma DefinedThenCalled(fuel: nat, name: string, xs: seq<string>, body: Node, ns: seq<int>, locals: Env, s: State)
    requires !Special(Sym(name)) && |ns| <= MAX_ARGS && name !in locals
    requires name in s.globals || |s.globals| < MAX_GLOBALS
    ensures var form := List(Sym("defun"), List(Sym(name), List(Names(xs), List(body, Nil))));
      var r := Eval(fuel, form, locals, s);
      && r.answer == Value(Sym("ok")) && r.state.out == s.out
      && (forall x :: x != name ==> Lookup(x, locals, r.state.globals) == Lookup(x, locals, s.globals))
      && Eval(fuel + 1, List(Sym(name), Numerals(ns)), locals, r.state)
        == Eval(fuel, Subst(body, Bind(Names(xs), Numbers(ns))), map[], r.state)
  {
    hide Subst, Bind, Numerals, Names;
    var s1 := State(s.globals[name := Func(Names(xs), body)], s.out);
    assert Eval(fuel, List(Sym("defun"), List(Sym(name), List(Names(xs), List(body, Nil)))), locals, s)
        == Outcome(Value(Sym("ok")), s1);
    hide Eval;
    CallSubstitutes(fuel, name, ns, Names(xs), body, locals, s1);
  }

  /** An assignment answers the value, which the name then has; every other name keeps its own. */
  lemma AssignedThenRead(fuel: nat, name: string, t: Node, locals: Env, s: State)
    requires Eval(fuel, t, locals, s).answer.Value? && name !in locals
    requires var g := Eval(fuel, t, locals, s).state.globals; name in g || |g| < MAX_GLOBALS
    ensures var v := Eval(fuel, t, locals, s);
      var r := Eval(fuel, List(Sym("setq"), List(Sym(name), List(t, Nil))), locals, s);
      && r.answer == v.answer && r.state.out == v.state.out
      && Eval(fuel, Sym(name), locals, r.state) == Outcome(v.answer, r.state)
      && forall x :: x != name ==> Lookup(x, locals, r.state.globals) == Lookup(x, locals, v.state.globals)
  {
    var form, v := List(Sym(name), List(t, Nil)), Eval(fuel, t, locals, s);
    assert Eval(fuel, List(Sym("setq"), form), locals, s) == Setq(fuel, form, locals, s)
        == Outcome(v.answer, State(v.state.globals[name := v.answer.node], v.state.out));
    NameIs(fuel, name, locals, State(v.state.globals[name := v.answer.node], v.state.out));
    hide Eval, Setq;
  }

  lemma NameIs(fuel: nat, name: string, locals: Env, s: State)
    ensures Eval(fuel, Sym(name), locals, s) == Outcome(Value(Lookup(name, locals, s.globals)), s)
  {
  }

  // -- errors among the arguments

  predicate Arithmetic(name: string) { name == "+" || name == "-" || name == "*" || name == "/" }

  /** The arguments with the number zero in the place of each error. */
  function Zeroed(args: seq<Node>): (r: seq<Node>)
    ensures |r| == |args|
    ensures forall i :: 0 <= i < |args| ==> r[i] == if args[i].Err? then Num(0) else args[i]
  {
    seq(|args|, i requires 0 <= i < |args| => if args[i].Err? then Num(0) else args[i])
  }

  lemma {:induction false} AccumulateZeroed(op: Operator, acc: int, args: seq<Node>)
    ensures Accumulate(op, acc, args) == Accumulate(op, acc, Zeroed(args))
    decreases |args|
  {
    if args != [] {
      assert Zeroed(args)[1..] == Zeroed(args[1..]);
      AccumulateZeroed(op, Combine(op, acc, NumOf(args[0])), args[1..]);
    }
  }

  /** An operation does with an error what it does with zero, wherever the error stands. */
  lemma ApplyZeroed(name: string, args: seq<Node>, s: State)
    requires Arithmetic(name)
    ensures Apply(Sym(name), args, s) == Apply(Sym(name), Zeroed(args), s)
  {
    AccumulateZeroed(if name == "*" then Times else Plus, if name == "*" then 1 else 0, args);
    if |args| > 1 {
      assert Zeroed(args)[1..] == Zeroed(args[1..]);
      AccumulateZeroed(Minus, NumOf(args[0]), args[1..]);
    }
  }

  /** A built-in that answers at all answers an error in one case only: a division by zero, or by
      nothing. An error among its arguments makes no other difference. */
  lemma BuiltinErrors(name: string, args: seq<Node>, s: State)
    requires Builtin(name) && Apply(Sym(name), args, s).answer.Value?
    ensures Apply(Sym(name), args, s).answer.node.Err? <==>
      name == "/" && (|args| < 2 || NumOf(args[1]) == 0)
  {
  }

  /** Errors in the arguments of + - * / are not passed on: whatever the arguments are and wherever the
      errors stand among them, the form evaluates as if each error were zero, and to an error itself
      only when it divides by zero or by nothing. */
  lemma ErrorsCountAsZero(fuel: nat, name: string, items: Node, locals: Env, s: State)
    requires Arithmetic(name) && name !in locals && name !in s.globals
    requires EvalArgs(fuel, items, locals, s, []).All?
    ensures var args := EvalArgs(fuel, items, locals, s, []);
      var r := Eval(fuel, List(Sym(name), items), locals, s);
      && r == Apply(Sym(name), Zeroed(args.values), args.state)
      && (r.answer.Value? ==>
            (r.answer.node.Err? <==> name == "/" && (|args.values| < 2 || NumOf(args.values[1]) == 0)))
  {
    hide Apply;
    var args := EvalArgs(fuel, items, locals, s, []);
    NameIs(fuel, name, locals, s);
    assert Eval(fuel, List(Sym(name), items), locals, s) == Apply(Sym(name), args.values, args.state);
    hide Eval, EvalArgs;
    ApplyZeroed(name, args.values, args.state);
    if Apply(Sym(name), args.values, args.state).answer.Value? {
      BuiltinErrors(name, args.values, args.state);
    }
  }

  /** (+ 1 x) where nobody has defined x: the answer is 1. */
  lemma OnePlusUndefined(fuel: nat, s: State)
    requires "+" !in s.globals && "x" !in s.globals
    ensures Lookup("x", map[], s.globals).Err?
    ensures Eval(fuel, List(Sym("+"), List(Num(1), List(Sym("x"), Nil))), map[], s) == Outcome(Value(Num(1)), s)
  {
    hide Lookup, Apply;
    var x, items := Lookup("x", map[], s.globals), List(Num(1), List(Sym("x"), Nil));
    NameIs(fuel, "+", map[], s);
    NameIs(fuel, "x", map[], s);
    PlusUndefined(s);
    ArgumentNext(fuel, items, map[], s, [], Num(1), s);
    ArgumentNext(fuel, items.rest, map[], s, [Num(1)], x, s);
    assert EvalArgs(fuel, items, map[], s, []) == All([Num(1), x], s);
  }

  lemma PlusUndefined(s: State)
    requires "+" !in s.globals && "x" !in s.globals
    ensures Lookup("+", map[], s.globals) == Sym("+") && Lookup("x", map[], s.globals).Err?
    ensures Apply(Sym("+"), [Num(1), Lookup("x", map[], s.globals)], s) == Outcome(Value(Num(1)), s)
  {
    AccumulateUndefined(Lookup("x", map[], s.globals));
  }

  lemma AccumulateUndefined(x: Node)
    requires x.Err?
    ensures Accumulate(Plus, 0, [Num(1), x]) == Value(Num(1))
  {
    assert [Num(1), x][1..] == [x] && [x][1..] == [];
    assert Accumulate(Plus, 1, [x]) == Accumulate(Plus, 1, []);
  }

  /** Arguments are evaluated from left to right, each in the state that the one before it has left. */
  lemma ArgumentNext(fuel: nat, items: Node, locals: Env, s: State, done: seq<Node>, v: Node, after: State)
    requires items.List? && Eval(fuel, items.first, locals, s) == Outcome(Value(v), after) && |done| < 16
    ensures EvalArgs(fuel, items, locals, s, done) == EvalArgs(fuel, items.rest, locals, after, done + [v])
  {
  }

  /** Printing leaves out what an error says and puts its blank only. */
  lemma {:induction false} ErrorsPrintNothing(args: seq<Node>, i: nat)
    requires i < |args| && args[i].Err?
    ensures ShownAll(args) == ShownAll(args[..i]) + " " + ShownAll(args[i + 1..])
    decreases i
  {
    if i > 0 {
      ErrorsPrintNothing(args[1..], i - 1);
      assert args[1..][..i - 1] == args[..i][1..] && args[1..][i..] == args[i + 1..];
      ShownJoined(Shown(args[0]), ShownAll(args[..i][1..]), ShownAll(args[i + 1..]));
    } else {
      assert args[..0] == [] && args[1..] == args[i + 1..];
    }
  }

  lemma ShownJoined(a: string, b: string, c: string)
    ensures a + (b + " " + c) == a + b + " " + c
  {
  }

  // -- purity

  /** No definition or assignment is ever evaluated in the tree, nor in the body of the function. */
  predicate Harmless(t: Node)
    decreases t, 1
  {
    match t
    case List(first, rest) => !Special(first) && Harmless(first) && HarmlessItems(rest)
    case Func(_, body) => Harmless(body)
    case _ => true
  }

  predicate HarmlessItems(t: Node)
    decreases t, 0
  {
    t.List? ==> Harmless(t.first) && HarmlessItems(t.rest)
  }

  predicate HarmlessEnv(env: Env) { forall x :: x in env ==> Harmless(env[x]) }

  predicate HarmlessAll(args: seq<Node>) { forall i :: 0 <= i < |args| ==> Harmless(args[i]) }

  /** The globals are untouched, and what was printed stays printed. */
  predicate Undisturbed(s: State, t: State) { t.globals == s.globals && s.out <= t.out }

  lemma {:induction false} BindHarmless(params: Node, args: seq<Node>)
    requires HarmlessAll(args)
    ensures HarmlessEnv(Bind(params, args))
    decreases |args|
  {
    if params.List? && args != [] {
      BindHarmless(params.rest, args[1..]);
    }
  }

  lemma ApplyKeepsGlobals(f: Node, args: seq<Node>, s: State)
    requires !f.Func?
    ensures Undisturbed(s, Apply(f, args, s).state)
    ensures Apply(f, args, s).answer.Value? ==> Harmless(Apply(f, args, s).answer.node)
  {
  }

  /** Where neither the tree nor any function it can reach defines or assigns, evaluation leaves the
      globals as they were, however it ends. */
  lemma {:induction false} EvalKeepsGlobals(fuel: nat, t: Node, locals: Env, s: State)
    requires Harmless(t) && HarmlessEnv(locals) && HarmlessEnv(s.globals)
    ensures Undisturbed(s, Eval(fuel, t, locals, s).state)
    ensures Eval(fuel, t, locals, s).answer.Value? ==> Harmless(Eval(fuel, t, locals, s).answer.node)
    decreases fuel, t, 1
  {
    hide Apply, Bind;
    if t.List? {
      EvalKeepsGlobals(fuel, t.first, locals, s);
      var f := Eval(fuel, t.first, locals, s);
      ArgsKeepGlobals(fuel, t.rest, locals, f.state, []);
      var args := EvalArgs(fuel, t.rest, locals, f.state, []);
      if f.answer.Value? && args.All? {
        if !f.answer.node.Func? {
          ApplyKeepsGlobals(f.answer.node, args.values, args.state);
        } else if fuel > 0 {
          BindHarmless(f.answer.node.params, args.values);
          EvalKeepsGlobals(fuel - 1, f.answer.node.body, Bind(f.answer.node.params, args.values), args.state);
        }
      }
    }
  }

  lemma {:induction false} ArgsKeepGlobals(fuel: nat, items: Node, locals: Env, s: State, done: seq<Node>)
    requires HarmlessItems(items) && HarmlessEnv(locals) && HarmlessEnv(s.globals) && HarmlessAll(done)
    ensures var r := EvalArgs(fuel, items, locals, s, done);
      if r.All? then Undisturbed(s, r.state) && HarmlessAll(r.values)
      else Undisturbed(s, r.outcome.state) && !r.outcome.answer.Value?
    decreases fuel, items, 0
  {
    if items.List? {
      EvalKeepsGlobals(fuel, items.first, locals, s);
      var v := Eval(fuel, items.first, locals, s);
      if v.answer.Value? && |done| < MAX_ARGS {
        ArgsKeepGlobals(fuel, items.rest, locals, v.state, done + [v.answer.node]);
      }
    }
  }

  /** The whole promise of a call with numbers, for code without definitions and assignments: the
      substituted body's outcome, whatever the caller's locals, and unchanged globals. */
  lemma PureCall(fuel: nat, name: string, ns: seq<int>, params: Node, body: Node, locals: Env, other: Env, s: State)
    requires !Special(Sym(name)) && |ns| <= MAX_ARGS
    requires name !in locals && name !in other && name in s.globals && s.globals[name] == Func(params, body)
    requires HarmlessEnv(s.globals)
    ensures var r := Eval(fuel + 1, List(Sym(name), Numerals(ns)), locals, s);
      && r == Eval(fuel + 1, List(Sym(name), Numerals(ns)), other, s)
      && r == Eval(fuel, Subst(body, Bind(params, Numbers(ns))), map[], s)
      && r.state.globals == s.globals
  {
    hide Eval, Subst;
    CallSubstitutes(fuel, name, ns, params, body, locals, s);
    CallSubstitutes(fuel, name, ns, params, body, other, s);
    Substitution(fuel, body, Bind(params, Numbers(ns)), s) by { BoundToNumbers(params, Numbers(ns)); }
    BindHarmless(params, Numbers(ns));
    EvalKeepsGlobals(fuel, body, Bind(params, Numbers(ns)), s);
  }

  // -- fuel

  /** Fuel that was enough stays enough: an evaluation that did not run out of it ends the same way
      with more. */
  lemma {:induction false} MoreFuel(fuel: nat, more: nat, t: Node, locals: Env, s: State)
    requires fuel <= more && !Eval(fuel, t, locals, s).answer.Spent?
    ensures Eval(more, t, locals, s) == Eval(fuel, t, locals, s)
    decreases fuel, t, 1
  {
    hide Apply, Bind, Defun, Lookup, Set;
    if t.List? && t.first != Sym("defun") {
      if t.first == Sym("setq") {
        if t.rest.List? && t.rest.rest.List? {
          MoreFuel(fuel, more, t.rest.rest.first, locals, s);
        }
      } else {
        MoreFuel(fuel, more, t.first, locals, s);
        var f := Eval(fuel, t.first, locals, s);
        if f.answer.Value? && !f.answer.node.Err? {
          MoreFuelArgs(fuel, more, t.rest, locals, f.state, []);
          var args := EvalArgs(fuel, t.rest, locals, f.state, []);
          if f.answer.node.Func? && args.All? && fuel > 0 {
            MoreFuel(fuel - 1, more - 1, f.answer.node.body, Bind(f.answer.node.params, args.values), args.state);
          }
        }
      }
    }
  }

  lemma {:induction false} MoreFuelArgs(fuel: nat, more: nat, items: Node, locals: Env, s: State, done: seq<Node>)
    requires fuel <= more
    requires var r := EvalArgs(fuel, items, locals, s, done); r.Cut? ==> !r.outcome.answer.Spent?
    ensures EvalArgs(more, items, locals, s, done) == EvalArgs(fuel, items, locals, s, done)
    decreases fuel, items, 0
  {
    if items.List? {
      MoreFuel(fuel, more, items.first, locals, s);
      var v := Eval(fuel, items.first, locals, s);
      if v.answer.Value? && |done| < MAX_ARGS {
        MoreFuelArgs(fuel, more, items.rest, locals, v.state, done + [v.answer.node]);
      }
    }
  }
}
