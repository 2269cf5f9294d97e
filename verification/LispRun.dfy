/** The running interpreter: the tables of names searched by loops, the recursive evaluator over them,
    and the main loop that reads and evaluates a script. */
module LispRun {
  import opened LispReader
  import opened LispEval

  /** One entry of an environment table. */
  datatype Binding = Binding(name: string, value: Node)

  /** What a table means: of two entries for one name the earlier counts. */
  function AsMap(table: seq<Binding>): Env {
    if table == [] then map[] else AsMap(table[1..])[table[0].name := table[0].value]
  }

  predicate Unique(table: seq<Binding>) {
    forall i, j :: 0 <= i < j < |table| ==> table[i].name != table[j].name
  }

  /** A name's meaning is that of the first entry that has it. */
  lemma {:induction false} FirstEntryCounts(table: seq<Binding>, i: nat)
    requires i < |table| && forall k :: 0 <= k < i ==> table[k].name != table[i].name
    ensures table[i].name in AsMap(table) && AsMap(table)[table[i].name] == table[i].value
  {
    if i > 0 {
      FirstEntryCounts(table[1..], i - 1);
    }
  }

  lemma {:induction false} NoEntry(table: seq<Binding>, name: string)
    requires forall k :: 0 <= k < |table| ==> table[k].name != name
    ensures name !in AsMap(table)
  {
    if table != [] {
      NoEntry(table[1..], name);
    }
  }

  /** Overwriting the first entry for a name is setting the name. */
  lemma {:induction false} EntryReplaced(table: seq<Binding>, i: nat, value: Node)
    requires i < |table| && forall k :: 0 <= k < i ==> table[k].name != table[i].name
    ensures AsMap(table[i := Binding(table[i].name, value)]) == AsMap(table)[table[i].name := value]
  {
    var after := table[i := Binding(table[i].name, value)];
    if i == 0 {
      assert after[1..] == table[1..];
    } else {
      EntryReplaced(table[1..], i - 1, value);
      assert after[1..] == table[1..][i - 1 := Binding(table[i].name, value)];
    }
  }

  /** Appending an entry for a new name is setting the name. */
  lemma {:induction false} EntryAdded(table: seq<Binding>, name: string, value: Node)
    requires name !in AsMap(table)
    ensures AsMap(table + [Binding(name, value)]) == AsMap(table)[name := value]
  {
    var after := table + [Binding(name, value)];
    if table == [] {
      assert after[1..] == [];
    } else {
      EntryAdded(table[1..], name, value);
      assert after[1..] == table[1..] + [Binding(name, value)];
    }
  }

  /** A table without repeated names is as long as its meaning is large. */
  lemma {:induction false} TableSize(table: seq<Binding>)
    requires Unique(table)
    ensures |AsMap(table)| == |table|
  {
    if table != [] {
      TableSize(table[1..]);
      NoEntry(table[1..], table[0].name);
    }
  }

  /** The table built by binding parameters in order. */
  function BoundTable(params: Node, args: seq<Node>): seq<Binding>
    decreases |args|
  {
    if params.List? && args != [] then
      [Binding(SymOf(params.first), args[0])] + BoundTable(params.rest, args[1..])
    else []
  }

  lemma {:induction false} BoundTableMeans(params: Node, args: seq<Node>)
    ensures AsMap(BoundTable(params, args)) == Bind(params, args)
    decreases |args|
  {
    if params.List? && args != [] {
      var table := BoundTable(params, args);
      assert table[1..] == BoundTable(params.rest, args[1..]);
      BoundTableMeans(params.rest, args[1..]);
    }
  }

  lemma ShownNext(args: seq<Node>, i: nat, before: string)
    requires i < |args|
    ensures before + ShownAll(args[i..]) == before + Shown(args[i]) + ShownAll(args[i + 1..])
  {
    hide Shown;
    assert args[i..][1..] == args[i + 1..];
    Associative(before, Shown(args[i]), ShownAll(args[i + 1..]));
  }

  lemma Associative(a: string, b: string, c: string)
    ensures a + (b + c) == a + b + c
  {
  }

  // -- the specification of a run

  function Result(last: Reading): string {
    if last.End? then ""
    else "Resultado: " + (match last.node
      case Num(n) => Decimal(n)
      case Sym(name) => name
      case Nil => "nil"
      case Func(_, _) => "#<function>"
      case _ => "") + "\n"
  }

  function Print(s: State, text: string): State { State(s.globals, s.out + text) }

  /** The rest of a script from position i: forms are read and evaluated in turn, the first error stops
      the run, and at the end the last value is shown. */
  function Script(fuel: nat, text: string, i: nat, s: State, last: Reading): Outcome
    requires i <= |text|
    decreases |text| - i
  {
    var (form, k) := ReadExpr(text, i);
    if form.End? then
      if last.Read? && !Printable(last.node) then Outcome(Fault, s)
      else Outcome(Value(Nil), Print(s, Result(last)))
    else if form.node.Err? then Outcome(Value(Nil), Print(s, "LISP PARSE ERROR: " + form.node.msg + "\n"))
    else
      var r := Eval(fuel, form.node, map[], s);
      if !r.answer.Value? then r
      else if r.answer.node.Err? then
        Outcome(Value(Nil), Print(r.state, "LISP EVAL ERROR: " + r.answer.node.msg + "\n"))
      else Script(fuel, text, k, r.state, Read(r.answer.node))
  }

  /** The interpreter's state: the table of globals, and the screen. */
  class Interpreter {
    var globals: seq<Binding>
    var out: string

    ghost predicate Valid()
      reads this
    {
      Unique(globals) && |globals| <= MAX_GLOBALS
    }

    ghost function S(): State
      reads this
    {
      State(AsMap(globals), out)
    }

    constructor ()
      ensures Valid() && S() == State(map[], "")
    {
      globals, out := [], "";
    }

    method EnvSet(name: string, value: Node)
      requires Valid()
      modifies this
      ensures Valid() && S() == State(Set(old(S()).globals, name, value), old(out))
    {
      TableSize(globals);
      for i := 0 to |globals|
        invariant globals == old(globals) && out == old(out)
        invariant forall k :: 0 <= k < i ==> globals[k].name != name
      {
        if globals[i].name == name {
          FirstEntryCounts(globals, i);
          EntryReplaced(globals, i, value);
          globals := globals[i := Binding(name, value)];
          return;
        }
      }
      NoEntry(globals, name);
      if |globals| < MAX_GLOBALS {
        EntryAdded(globals, name, value);
        globals := globals + [Binding(name, value)];
      }
    }

    method EnvGet(name: string, locals: seq<Binding>) returns (value: Node)
      ensures value == Lookup(name, AsMap(locals), AsMap(globals))
    {
      for i := 0 to |locals|
        invariant forall k :: 0 <= k < i ==> locals[k].name != name
      {
        if locals[i].name == name {
          FirstEntryCounts(locals, i);
          return locals[i].value;
        }
      }
      NoEntry(locals, name);
      for i := 0 to |globals|
        invariant forall k :: 0 <= k < i ==> globals[k].name != name
      {
        if globals[i].name == name {
          FirstEntryCounts(globals, i);
          return globals[i].value;
        }
      }
      NoEntry(globals, name);
      if Builtin(name) {
        return Sym(name);
      }
      value := Err("Variavel/Funcao nao definida");
    }

    /** Folds the arguments from the given one on into an int, stopping at an overflow. */
    method Fold(op: Operator, init: int, args: seq<Node>, start: nat) returns (r: Answer)
      requires start <= |args|
      ensures r == Accumulate(op, init, args[start..])
    {
      var res, i := init, start;
      while i < |args|
        invariant start <= i <= |args|
        invariant Accumulate(op, res, args[i..]) == Accumulate(op, init, args[start..])
      {
        assert args[i..][1..] == args[i + 1..];
        res := Combine(op, res, NumOf(args[i]));
        if !Fits(res) {
          return Fault;
        }
        i := i + 1;
      }
      r := Value(Num(res));
    }

    /** The line that printing the arguments shows, unless one of them has no decimal form. */
    method LineOf(args: seq<Node>) returns (ok: bool, line: string)
      ensures ok <==> forall i :: 0 <= i < |args| ==> Printable(args[i])
      ensures ok ==> line == ShownAll(args)
    {
      hide Decimal;
      line := "";
      for i := 0 to |args|
        invariant forall k :: 0 <= k < i ==> Printable(args[k])
        invariant line + ShownAll(args[i..]) == ShownAll(args)
      {
        if !Printable(args[i]) {
          return false, line;
        }
        var shown := "";
        if args[i].Num? {
          shown := PrintInt(args[i].n);
        } else if args[i].Sym? {
          shown := args[i].name;
        }
        ShownNext(args, i, line);
        line := line + (shown + " ");
      }
      ok := true;
    }

    method ApplyBuiltin(f: Node, args: seq<Node>) returns (r: Answer)
      requires Valid() && !f.Func?
      modifies this
      ensures Valid() && Outcome(r, S()) == Apply(f, args, old(S()))
    {
      if f == Sym("+") {
        r := Fold(Plus, 0, args, 0);
        assert args[0..] == args;
      } else if f == Sym("-") {
        if |args| == 0 {
          return Fault;
        }
        if |args| == 1 {
          return Number(-NumOf(args[0]));
        }
        r := Fold(Minus, NumOf(args[0]), args, 1);
      } else if f == Sym("*") {
        r := Fold(Times, 1, args, 0);
        assert args[0..] == args;
      } else if f == Sym("/") {
        if |args| > 1 && NumOf(args[1]) != 0 {
          return Number(TruncDiv(NumOf(args[0]), NumOf(args[1])));
        }
        return Value(Err("Divisao por zero"));
      } else if f == Sym("print") {
        var ok, line := LineOf(args);
        if !ok {
          return Fault;
        }
        assert out + line + "\n" == out + ShownAll(args) + "\n";
        out := out + line + "\n";
        r := Value(Nil);
      } else {
        r := Value(Err("Nao e uma funcao valida"));
      }
    }

    /** The local table of a call. */
    method BindArgs(params: Node, args: seq<Node>) returns (table: seq<Binding>)
      ensures table == BoundTable(params, args)
    {
      table := [];
      var p, i := params, 0;
      while p.List? && i < |args|
        invariant 0 <= i <= |args|
        invariant table + BoundTable(p, args[i..]) == BoundTable(params, args)
        decreases |args| - i
      {
        assert args[i..][1..] == args[i + 1..];
        var entry := Binding(SymOf(p.first), args[i]);
        assert table + ([entry] + BoundTable(p.rest, args[i + 1..])) == table + [entry] + BoundTable(p.rest, args[i + 1..]);
        table, p, i := table + [entry], p.rest, i + 1;
      }
      assert BoundTable(p, args[i..]) == [];
    }

    method Define(form: Node) returns (r: Answer)
      requires Valid()
      modifies this
      ensures Valid() && Outcome(r, S()) == Defun(form, old(S()))
    {
      if !(form.List? && form.rest.List?) {
        return Fault;
      }
      var body := if form.rest.rest.List? then form.rest.rest.first else Nil;
      EnvSet(SymOf(form.first), Func(form.rest.first, body));
      r := Value(Sym("ok"));
    }

    method Evaluate(fuel: nat, ast: Node, locals: seq<Binding>) returns (r: Answer)
      requires Valid()
      modifies this
      ensures Valid() && Outcome(r, S()) == Eval(fuel, ast, AsMap(locals), old(S()))
      decreases fuel, ast
    {
      hide Apply, Lookup, Set, Defun, AsMap, Bind;
      if ast.Num? || ast.Nil? {
        return Value(ast);
      }
      if ast.Sym? {
        var value := EnvGet(ast.name, locals);
        return Value(value);
      }
      if !ast.List? {
        return Value(Err("Erro de avaliacao"));
      }
      var first := ast.first;
      if first == Sym("defun") {
        r := Define(ast.rest);
        return;
      }
      if first == Sym("setq") {
        if !ast.rest.List? {
          return Fault;
        }
        r := Value(Nil);
        if ast.rest.rest.List? {
          r := Evaluate(fuel, ast.rest.rest.first, locals);
        }
        if r.Value? {
          EnvSet(SymOf(ast.rest.first), r.node);
        }
        return;
      }
      r := Evaluate(fuel, first, locals);
      if !r.Value? || r.node.Err? {
        return;
      }
      var f := r.node;
      ghost var called := S();
      var args: seq<Node>, curr := [], ast.rest;
      while curr.List?
        invariant Valid() && |args| <= MAX_ARGS
        invariant curr == ast.rest || curr < ast.rest
        invariant EvalArgs(fuel, curr, AsMap(locals), S(), args) == EvalArgs(fuel, ast.rest, AsMap(locals), called, [])
        decreases curr
      {
        r := Evaluate(fuel, curr.first, locals);
        if !r.Value? {
          return;
        }
        if |args| >= MAX_ARGS {
          return Fault;
        }
        args, curr := args + [r.node], curr.rest;
      }
      if !f.Func? {
        r := ApplyBuiltin(f, args);
      } else if fuel == 0 {
        r := Spent;
      } else {
        var table := BindArgs(f.params, args);
        BoundTableMeans(f.params, args);
        r := Evaluate(fuel - 1, f.body, table);
      }
    }

    method ShowResult(last: Reading) returns (r: Answer)
      modifies this`out
      ensures r == if last.Read? && !Printable(last.node) then Fault else Value(Nil)
      ensures out == old(out) + if r.Fault? then "" else Result(last)
    {
      if last.End? {
        return Value(Nil);
      }
      if !Printable(last.node) {
        return Fault;
      }
      var shown := "";
      match last.node {
        case Num(n) => shown := PrintInt(n);
        case Sym(name) => shown := name;
        case Nil => shown := "nil";
        case Func(_, _) => shown := "#<function>";
        case _ =>
      }
      out := out + ("Resultado: " + shown + "\n");
      r := Value(Nil);
    }

    /** The main loop over a script. */
    method Run(fuel: nat, text: string) returns (r: Answer)
      requires Valid()
      modifies this
      ensures Valid()
      ensures Outcome(r, S()) == Script(fuel, text, 0, Print(old(S()), "Executando Script LISP...\n"), End)
    {
      hide Eval, ReadExpr, Result;
      out := out + "Executando Script LISP...\n";
      var reader := new Reader(text);
      var last := End;
      ghost var whole := Script(fuel, text, 0, S(), End);
      while true
        invariant Valid() && reader.src == text && reader.pos <= |text| && fresh(reader)
        invariant Script(fuel, text, reader.pos, S(), last) == whole
        decreases |text| - reader.pos
      {
        var form := reader.Expr();
        if form.End? {
          break;
        }
        if form.node.Err? {
          out := out + ("LISP PARSE ERROR: " + form.node.msg + "\n");
          return Value(Nil);
        }
        r := Evaluate(fuel, form.node, []);
        if !r.Value? {
          return;
        }
        if r.node.Err? {
          out := out + ("LISP EVAL ERROR: " + r.node.msg + "\n");
          return Value(Nil);
        }
        last := Read(r.node);
      }
      r := ShowResult(last);
    }
  }

  // -- whole programs

  /** The text of a program: each form in canonical text on a line of its own. */
  function Listing(forms: seq<Node>): string
    requires forall i :: 0 <= i < |forms| ==> SExpr(forms[i])
  {
    if forms == [] then "" else Show(forms[0]) + "\n" + Listing(forms[1..])
  }

  /** Evaluating the forms of a program one after the other, without any text. */
  function Execute(fuel: nat, forms: seq<Node>, s: State, last: Reading): Outcome {
    if forms == [] then
      if last.Read? && !Printable(last.node) then Outcome(Fault, s)
      else Outcome(Value(Nil), Print(s, Result(last)))
    else
      var r := Eval(fuel, forms[0], map[], s);
      if !r.answer.Value? then r
      else if r.answer.node.Err? then
        Outcome(Value(Nil), Print(r.state, "LISP EVAL ERROR: " + r.answer.node.msg + "\n"))
      else Execute(fuel, forms[1..], r.state, Read(r.answer.node))
  }

  /** Running the text of a program executes its forms. */
  lemma {:induction false} ListingExecutes(fuel: nat, text: string, i: nat, forms: seq<Node>, s: State, last: Reading)
    requires forall k :: 0 <= k < |forms| ==> SExpr(forms[k])
    requires i <= |text| && text[i..] == Listing(forms)
    ensures Script(fuel, text, i, s, last) == Execute(fuel, forms, s, last)
    decreases |forms|
  {
    hide Eval, ReadExpr, Show, SExpr, Result;
    if forms == [] {
      NothingLeft(text);
    } else {
      var k := i + |Show(forms[0])|;
      assert Show(forms[0]) + "\n" + Listing(forms[1..]) == Show(forms[0]) + ("\n" + Listing(forms[1..]));
      FormRead(text, i, forms[0], Listing(forms[1..]));
      var r := Eval(fuel, forms[0], map[], s);
      if r.answer.Value? && !r.answer.node.Err? {
        ListingExecutes(fuel, text, k + 1, forms[1..], r.state, Read(r.answer.node));
        assert Script(fuel, text, k, r.state, Read(r.answer.node))
            == Script(fuel, text, k + 1, r.state, Read(r.answer.node));
      }
    }
  }

  /** A form on a line of its own is read, and the end of the line makes no difference afterwards. */
  lemma FormRead(text: string, i: nat, t: Node, rest: string)
    requires SExpr(t) && i <= |text| && text[i..] == Show(t) + ("\n" + rest)
    ensures var k := i + |Show(t)|;
      && k < |text| && ReadExpr(text, i) == (Read(t), k) && !t.Err?
      && ReadExpr(text, k) == ReadExpr(text, k + 1) && text[k + 1..] == rest
  {
    hide Show, ReadExpr;
    var s, k := Show(t), i + |Show(t)|;
    assert text[i..][..|s|] == s && text[i..][|s|] == '\n' && text[i..][|s| + 1..] == rest;
    assert text[i..k] == s && text[k] == '\n';
    ReadBack(text, i, t);
    LeadingBlank(text, k);
  }

  lemma NothingLeft(text: string)
    ensures ReadExpr(text, |text|) == (End, |text|)
  {
    assert SkipBlanks(text, |text|) == |text|;
  }
}
