/** Short scripts, from their text to what the screen shows. */
module LispExample {
  import opened LispReader
  import opened LispEval
  import opened LispRun

  /** An operation on two numbers. */
  function Pair(op: string, a: int, b: int): Node { List(Sym(op), List(Num(a), List(Num(b), Nil))) }

  function PairText(op: string, a: int, b: int): string { "(" + op + " " + Decimal(a) + " " + Decimal(b) + ")" }

  lemma PairRead(op: string, a: int, b: int)
    requires op in ["+", "-", "*", "/"] && IsInt(a) && IsInt(b)
    ensures ReadExpr(PairText(op, a, b), 0) == (Read(Pair(op, a, b)), |PairText(op, a, b)|)
  {
    hide Decimal, ReadExpr;
    var text, t := PairText(op, a, b), Pair(op, a, b);
    PairShown(op, a, b);
    assert text[0..|text|] == text;
    ReadBack(text, 0, t);
  }

  lemma IntShort(n: int)
    requires IsInt(n)
    ensures |Decimal(n)| <= 31
  {
    hide Digits;
    assert Power10(10) == 10000000000;
    DigitsShort(if n < 0 then -n else n, 10);
  }

  lemma OperatorGood(op: string)
    requires op in ["+", "-", "*", "/"]
    ensures GoodAtom(Sym(op))
  {
    assert !Digit(op[0]);
  }

  lemma PairShown(op: string, a: int, b: int)
    requires op in ["+", "-", "*", "/"] && IsInt(a) && IsInt(b)
    ensures SExpr(Pair(op, a, b))
    ensures Show(Pair(op, a, b)) == PairText(op, a, b)
  {
    hide Decimal, Numeral;
    IntShort(a);
    IntShort(b);
    OperatorGood(op);
    var rest := List(Num(b), Nil);
    assert SExpr(rest) && ShowItems(rest) == Decimal(b);
    var more := List(Num(a), rest);
    assert SExpr(more) && ShowItems(more) == Decimal(a) + " " + Decimal(b);
    assert ShowItems(Pair(op, a, b)) == op + " " + ShowItems(more);
    assert op + " " + (Decimal(a) + " " + Decimal(b)) == op + " " + Decimal(a) + " " + Decimal(b);
  }

  /** A script of one form shows what the form evaluates to. */
  lemma OneForm(fuel: nat, text: string, t: Node, s: State, v: Node, out: State)
    requires ReadExpr(text, 0) == (Read(t), |text|) && !t.Err?
    requires Eval(fuel, t, map[], s) == Outcome(Value(v), out) && !v.Err? && Printable(v)
    ensures Script(fuel, text, 0, s, End) == Outcome(Value(Nil), Print(out, Result(Read(v))))
  {
    hide Eval, Result, Printable;
    NothingLeft(text);
  }

  /** What an operation on two ints makes, with division cut off towards zero: r is its result. */
  predicate Makes(op: string, a: int, b: int, r: int) {
    || (op == "+" && r == a + b)
    || (op == "-" && r == a - b)
    || (op == "*" && r == a * b)
    || (op == "/" && b != 0 && r == TruncDiv(a, b))
  }

  /** The text of an operation on two ints is read, evaluated, and its result shown in decimal. */
  lemma OperationShown(fuel: nat, op: string, a: int, b: int, r: int, s: State)
    requires Makes(op, a, b, r) && IsInt(a) && IsInt(b) && IsInt(r) && r != -0x8000_0000
    requires "+" !in s.globals && "-" !in s.globals && "*" !in s.globals && "/" !in s.globals
    ensures Script(fuel, "(" + op + " " + Decimal(a) + " " + Decimal(b) + ")", 0, s, End)
         == Outcome(Value(Nil), State(s.globals, s.out + ("Resultado: " + Decimal(r) + "\n")))
  {
    hide Decimal, Script, ReadExpr, Eval, TruncDiv;
    PairRead(op, a, b);
    PairEvaluates(fuel, op, a, b, r, s);
    OneForm(fuel, PairText(op, a, b), Pair(op, a, b), s, Num(r), s);
  }

  lemma PairEvaluates(fuel: nat, op: string, a: int, b: int, r: int, s: State)
    requires Makes(op, a, b, r) && IsInt(a) && IsInt(b) && IsInt(r)
    requires "+" !in s.globals && "-" !in s.globals && "*" !in s.globals && "/" !in s.globals
    ensures Eval(fuel, Pair(op, a, b), map[], s) == Outcome(Value(Num(r)), s)
  {
    hide Eval, TruncDiv;
    var e := if op == "+" then Add(Lit(a), Lit(b)) else if op == "-" then Sub(Lit(a), Lit(b))
      else if op == "*" then Mul(Lit(a), Lit(b)) else Div(Lit(a), Lit(b));
    assert Meaning(Lit(a)) == a && Meaning(Lit(b)) == b && InRange(Lit(a)) && InRange(Lit(b));
    assert Meaning(e) == r && InRange(e);
    FormulaEvaluates(fuel, e, map[], s);
  }

  /** (- 5 3) shows 2. */
  lemma MinusShown(fuel: nat)
    ensures Script(fuel, "(- 5 3)", 0, State(map[], ""), End) == Outcome(Value(Nil), State(map[], "Resultado: 2\n"))
  {
    hide Decimal, Script;
    OneDigit(5);
    OneDigit(3);
    OneDigit(2);
    OperationShown(fuel, "-", 5, 3, 2, State(map[], ""));
    MinusText();
  }

  lemma OneDigit(n: nat)
    requires n < 10
    ensures Decimal(n) == [('0' as int + n) as char]
  {
  }

  lemma MinusText()
    ensures "(" + "-" + " " + ['5'] + " " + ['3'] + ")" == "(- 5 3)"
    ensures "" + ("Resultado: " + ['2'] + "\n") == "Resultado: 2\n"
  {
  }

  // -- the messages

  /** A form that evaluates to an error ends the script with a message. */
  lemma ErrorForm(fuel: nat, text: string, t: Node, k: nat, s: State, msg: string)
    requires ReadExpr(text, 0) == (Read(t), k) && !t.Err? && Eval(fuel, t, map[], s) == Outcome(Value(Err(msg)), s)
    ensures Script(fuel, text, 0, s, End) == Outcome(Value(Nil), State(s.globals, s.out + ("LISP EVAL ERROR: " + msg + "\n")))
  {
    hide Eval, ReadExpr;
  }

  /** A name nobody has defined. */
  lemma UndefinedName(fuel: nat, name: string, s: State)
    requires name !in s.globals && name !in ["+", "-", "*", "/", "print"]
    requires 1 <= |name| <= 31 && forall k :: 0 <= k < |name| ==> 'a' <= name[k] <= 'z'
    ensures Script(fuel, name, 0, s, End)
      == Outcome(Value(Nil), State(s.globals, s.out + ("LISP EVAL ERROR: " + "Variavel/Funcao nao definida" + "\n")))
  {
    hide Script, ReadExpr;
    assert name[0..|name|] == name;
    AtomRead(name, 0, name);
    assert !('0' <= name[0] <= '9') && !(|name| > 1 && name[0] == '-');
    ErrorForm(fuel, name, Sym(name), |name|, s, "Variavel/Funcao nao definida");
  }

  /** A call of a number. */
  lemma NumberCalled(fuel: nat, a: int, locals: Env, s: State)
    ensures Eval(fuel, List(Num(a), Nil), locals, s) == Outcome(Value(Err("Nao e uma funcao valida")), s)
  {
  }

  /** A division by zero. */
  lemma ZeroDivision(fuel: nat, a: int, s: State)
    requires IsInt(a) && "/" !in s.globals
    ensures Script(fuel, "(" + "/" + " " + Decimal(a) + " " + Decimal(0) + ")", 0, s, End)
      == Outcome(Value(Nil), State(s.globals, s.out + ("LISP EVAL ERROR: " + "Divisao por zero" + "\n")))
  {
    hide Script, ReadExpr, Decimal, Eval;
    PairRead("/", a, 0);
    NumbersApplied(fuel, "/", [a, 0], map[], s);
    PairNumerals("/", a, 0);
    ErrorForm(fuel, PairText("/", a, 0), Pair("/", a, 0), |PairText("/", a, 0)|, s, "Divisao por zero");
  }

  lemma PairNumerals(op: string, a: int, b: int)
    ensures Pair(op, a, b) == List(Sym(op), Numerals([a, b]))
  {
    assert [a, b][1..] == [b] && [b][1..] == [];
    assert Numerals([b]) == List(Num(b), Nil);
  }

  /** What cannot be read. */
  lemma ReadingErrors(fuel: nat, s: State)
    ensures Script(fuel, ")", 0, s, End)
      == Outcome(Value(Nil), State(s.globals, s.out + ("LISP PARSE ERROR: " + "Unexpected ')'" + "\n")))
    ensures Script(fuel, "((", 0, s, End)
      == Outcome(Value(Nil), State(s.globals, s.out + ("LISP PARSE ERROR: " + "EOF" + "\n")))
  {
    TwoOpens();
    assert SkipBlanks(")", 0) == 0;
  }

  /** A name that has a value shows what the value looks like: a function has a form of its own. */
  lemma NameShown(fuel: nat, name: string, v: Node, s: State)
    requires name in s.globals && s.globals[name] == v && (v.Sym? || v.Nil? || v.Func?)
    requires 1 <= |name| <= 31 && forall k :: 0 <= k < |name| ==> 'a' <= name[k] <= 'z'
    ensures Script(fuel, name, 0, s, End) == Outcome(Value(Nil), State(s.globals, s.out + (
      "Resultado: " + (if v.Sym? then v.name else if v.Nil? then "nil" else "#<function>") + "\n")))
  {
    hide Script, ReadExpr;
    assert name[0..|name|] == name;
    AtomRead(name, 0, name);
    assert !('0' <= name[0] <= '9') && !(|name| > 1 && name[0] == '-');
    OneForm(fuel, name, Sym(name), s, v, s);
  }

  /** The empty list shows as nil; without a form there is no result. */
  lemma NothingShown(fuel: nat, s: State)
    ensures Script(fuel, "", 0, s, End) == Outcome(Value(Nil), s)
    ensures Script(fuel, "()", 0, s, End) == Outcome(Value(Nil), State(s.globals, s.out + ("Resultado: " + "nil" + "\n")))
  {
    EmptyScript(fuel, s);
    EmptyList();
    hide Script, ReadExpr;
    OneForm(fuel, "()", Nil, s, Nil, s);
  }

  lemma EmptyScript(fuel: nat, s: State)
    ensures Script(fuel, "", 0, s, End) == Outcome(Value(Nil), s)
  {
    NothingLeft("");
    assert s.out + "" == s.out;
  }

  lemma EmptyList()
    ensures ReadExpr("()", 0) == (Read(Nil), 2)
  {
    assert SkipBlanks("()", 0) == 0 && SkipBlanks("()", 1) == 1;
  }

  // -- printing

  /** Numbers in decimal, each with a blank after it. */
  function Row(ns: seq<int>): string { if ns == [] then "" else Decimal(ns[0]) + " " + Row(ns[1..]) }

  lemma {:induction false} RowShown(ns: seq<int>)
    ensures ShownAll(Numbers(ns)) == Row(ns)
    decreases |ns|
  {
    hide Decimal;
    if ns != [] {
      RowShown(ns[1..]);
      assert Numbers(ns)[1..] == Numbers(ns[1..]);
    }
  }

  /** (print ...) puts out its numbers in a row and ends the line. */
  lemma NumbersPrinted(fuel: nat, ns: seq<int>, locals: Env, s: State)
    requires |ns| <= 16 && "print" !in locals && "print" !in s.globals
    requires forall i :: 0 <= i < |ns| ==> -0x8000_0000 < ns[i] < 0x8000_0000
    ensures Eval(fuel, List(Sym("print"), Numerals(ns)), locals, s)
         == Outcome(Value(Nil), State(s.globals, s.out + Row(ns) + "\n"))
  {
    hide Decimal, ShownAll, Row;
    NumeralsEvaluate(fuel, ns, locals, s, []);
    assert [] + Numbers(ns) == Numbers(ns);
    NameIs(fuel, "print", locals, s);
    RowShown(ns);
  }

  /** A symbol is printed as its name. */
  lemma NamePrinted(name: string, s: State)
    ensures Apply(Sym("print"), [Sym(name)], s) == Outcome(Value(Nil), State(s.globals, s.out + (name + " ") + "\n"))
  {
    assert [Sym(name)][1..] == [];
    assert ShownAll([Sym(name)]) == name + " " + "";
  }

  // -- one form after the other

  /** A form that has a value is evaluated where it stands; the script goes on behind it, in the state it
      has left. */
  lemma FormThenRest(fuel: nat, text: string, i: nat, t: Node, k: nat, s: State, last: Reading, v: Node, after: State)
    requires i <= |text| && ReadExpr(text, i) == (Read(t), k) && !t.Err? && k <= |text|
    requires Eval(fuel, t, map[], s) == Outcome(Value(v), after) && !v.Err?
    ensures Script(fuel, text, i, s, last) == Script(fuel, text, k, after, Read(v))
  {
    hide Eval, ReadExpr;
  }

  /** What (setq x n) assigns, a later form of the script sees, and it is the last form's value that is
      shown. */
  lemma AssignmentSeen(fuel: nat, n: int)
    requires IsInt(n) && n != -0x8000_0000
    ensures Script(fuel, "(" + "setq" + " " + "x" + " " + Decimal(n) + ")" + "\nx", 0, State(map[], ""), End)
         == Outcome(Value(Nil), State(map["x" := Num(n)], "Resultado: " + Decimal(n) + "\n"))
  {
    hide Script, ReadExpr, Decimal, Eval, Result;
    var text, form := "(" + "setq" + " " + "x" + " " + Decimal(n) + ")" + "\nx", Assignment(n);
    var k := |text| - 2;
    var s, s1 := State(map[], ""), State(map["x" := Num(n)], "");
    AssignmentRead(n);
    AssignmentMade(fuel, n);
    FormThenRest(fuel, text, 0, form, k, s, End, Num(n), s1);
    AtomRead(text, k + 1, "x");
    SpaceSkipped(text, k);
    NameEvaluates(fuel, "x", map[], s1);
    FormThenRest(fuel, text, k, Sym("x"), |text|, s1, Read(Num(n)), Num(n), s1);
    LastShown(fuel, text, n, s1);
  }

  function Assignment(n: int): Node { List(Sym("setq"), List(Sym("x"), List(Num(n), Nil))) }

  lemma AssignmentRead(n: int)
    requires IsInt(n)
    ensures var text := "(" + "setq" + " " + "x" + " " + Decimal(n) + ")" + "\nx";
      ReadExpr(text, 0) == (Read(Assignment(n)), |text| - 2)
  {
    hide Decimal, ReadExpr;
    var text := "(" + "setq" + " " + "x" + " " + Decimal(n) + ")" + "\nx";
    AssignmentText(n);
    assert text[0..|text| - 2] == "(" + "setq" + " " + "x" + " " + Decimal(n) + ")";
    ReadBack(text, 0, Assignment(n));
  }

  lemma AssignmentText(n: int)
    requires IsInt(n)
    ensures SExpr(Assignment(n)) && Show(Assignment(n)) == "(" + "setq" + " " + "x" + " " + Decimal(n) + ")"
  {
    IntShort(n);
    assert !Digit("setq"[0]) && !Digit("x"[0]);
    SymbolShown("setq");
    SymbolShown("x");
    hide Decimal, Numeral, GoodAtom, Show, ShowItems;
    LastItem(n);
    ItemsShown(Sym("x"), List(Num(n), Nil));
    ItemsShown(Sym("setq"), List(Sym("x"), List(Num(n), Nil)));
    ThreeItems("setq", "x", Decimal(n));
  }

  lemma ThreeItems(a: string, b: string, c: string)
    ensures "(" + (a + " " + (b + " " + c)) + ")" == "(" + a + " " + b + " " + c + ")"
  {
  }

  lemma SymbolShown(name: string)
    requires GoodAtom(Sym(name))
    ensures SExpr(Sym(name)) && Show(Sym(name)) == name
  {
  }

  lemma LastItem(n: int)
    requires |Decimal(n)| <= 31
    ensures SExpr(List(Num(n), Nil)) && ShowItems(List(Num(n), Nil)) == Decimal(n)
  {
    hide Decimal;
  }

  lemma ItemsShown(first: Node, rest: Node)
    requires SExpr(first) && SExpr(rest) && rest.List?
    ensures SExpr(List(first, rest)) && ShowItems(List(first, rest)) == Show(first) + " " + ShowItems(rest)
    ensures Show(List(first, rest)) == "(" + (Show(first) + " " + ShowItems(rest)) + ")"
  {
    hide GoodAtom;
  }

  lemma AssignmentMade(fuel: nat, n: int)
    ensures Eval(fuel, Assignment(n), map[], State(map[], "")) == Outcome(Value(Num(n)), State(map["x" := Num(n)], ""))
  {
    assert Eval(fuel, Num(n), map[], State(map[], "")) == Outcome(Value(Num(n)), State(map[], ""));
    GlobalSet(fuel, "x", Num(n), map[], State(map[], ""));
    hide Eval;
  }

  lemma LastShown(fuel: nat, text: string, n: int, s: State)
    requires IsInt(n) && n != -0x8000_0000 && s.out == ""
    ensures Script(fuel, text, |text|, s, Read(Num(n))) == Outcome(Value(Nil), State(s.globals, "Resultado: " + Decimal(n) + "\n"))
  {
    hide Decimal, Eval, ReadExpr;
    NothingLeft(text);
    assert "" + ("Resultado: " + Decimal(n) + "\n") == "Resultado: " + Decimal(n) + "\n";
  }
}
