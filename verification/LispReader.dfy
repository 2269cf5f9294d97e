/** The reader of the LISP interpreter: its syntax trees, the recursive-descent reader that moves one
    cursor over the script, and the printed form of a tree, which the reader takes back to that tree. */
module LispReader {

  datatype Node =
    | Err(msg: string)
    | Num(n: int)
    | Sym(name: string)
    | List(first: Node, rest: Node)
    | Nil
    | Func(params: Node, body: Node)

  /** What reading an expression gives: NULL when only blanks are left, or a node. */
  datatype Reading = End | Read(node: Node)

  const MAX_ATOM: nat := 31

  /** The character at a position; a script ends at its first NUL. */
  function At(text: string, i: nat): char { if i < |text| then text[i] else '\0' }

  predicate Blank(c: char) { c == ' ' || c == '\n' || c == '\t' || c == '\r' }

  /** The characters that end an atom. */
  predicate Stops(c: char) { c == '\0' || Blank(c) || c == '(' || c == ')' }

  predicate Digit(c: char) { '0' <= c <= '9' }

  // -- the specification of reading

  function SkipBlanks(text: string, i: nat): (j: nat)
    requires i <= |text|
    ensures i <= j <= |text| && !Blank(At(text, j))
    ensures forall k :: i <= k < j ==> Blank(text[k])
    decreases |text| - i
  {
    if Blank(At(text, i)) then SkipBlanks(text, i + 1) else i
  }

  function AtomEnd(text: string, i: nat): (j: nat)
    requires i <= |text|
    ensures i <= j <= |text| && Stops(At(text, j))
    ensures forall k :: i <= k < j ==> !Stops(text[k])
    decreases |text| - i
  {
    if Stops(At(text, i)) then i else AtomEnd(text, i + 1)
  }

  /** What the reader keeps of an atom: its first 31 characters. */
  function Kept(s: string): (k: string)
    ensures |k| <= MAX_ATOM && k <= s
  {
    if |s| <= MAX_ATOM then s else s[..MAX_ATOM]
  }

  /** Digits only, apart from a leading minus sign that is not the whole atom. */
  predicate Numeral(s: string) {
    forall j :: 0 <= j < |s| ==> Digit(s[j]) || (j == 0 && s[0] == '-' && |s| > 1)
  }

  function DigitsValue(s: string): int {
    if s == [] then 0 else 10 * DigitsValue(s[..|s| - 1]) + (s[|s| - 1] as int - '0' as int)
  }

  function NumeralValue(s: string): int {
    if s != [] && s[0] == '-' then -DigitsValue(s[1..]) else DigitsValue(s)
  }

  function Atom(s: string): Node {
    if Numeral(Kept(s)) then Num(NumeralValue(Kept(s))) else Sym(Kept(s))
  }

  /** An expression at position i: what is read, and where the cursor is left. */
  function ReadExpr(text: string, i: nat): (r: (Reading, nat))
    requires i <= |text|
    ensures i <= r.1 <= |text|
    ensures r.0.Read? && !r.0.node.Err? ==> i < r.1
    decreases |text| - i, 0
  {
    var j := SkipBlanks(text, i);
    var c := At(text, j);
    if c == '\0' then (End, j)
    else if c == '(' then
      var (node, k) := ReadList(text, j + 1);
      (Read(node), k)
    else if c == ')' then (Read(Err("Unexpected ')'")), j)
    else (Read(Atom(text[j..AtomEnd(text, j)])), AtomEnd(text, j))
  }

  /** The rest of a list whose opening parenthesis has been passed. A bad element is returned in the
      place of the list, but a bad rest becomes the tail of the list. */
  function ReadList(text: string, i: nat): (r: (Node, nat))
    requires i <= |text|
    ensures i <= r.1 <= |text|
    ensures !r.0.Err? ==> i < r.1
    decreases |text| - i, 1
  {
    var j := SkipBlanks(text, i);
    if At(text, j) == ')' then (Nil, j + 1)
    else
      var (first, k) := ReadExpr(text, j);
      if first.End? then (Err("EOF"), k)
      else if first.node.Err? then (first.node, k)
      else
        var (rest, m) := ReadList(text, k);
        (List(first.node, rest), m)
  }

  // -- the reader itself

  /** The scan that tells numbers from symbols. */
  method LooksNumeric(buf: string) returns (isNum: bool)
    ensures isNum == Numeral(buf)
  {
    isNum := true;
    for j := 0 to |buf|
      invariant isNum <==>
        forall k :: 0 <= k < j ==> Digit(buf[k]) || (k == 0 && buf[0] == '-' && |buf| > 1)
    {
      if !(j == 0 && buf[j] == '-' && |buf| > 1) && !Digit(buf[j]) {
        isNum := false;
      }
    }
  }

  /** The value of a number, accumulated from its first digit on. */
  method NumberOf(buf: string) returns (n: int)
    requires Numeral(buf) && |buf| > 0
    ensures n == NumeralValue(buf)
  {
    var sign, p := 1, 0;
    n := 0;
    if buf[0] == '-' {
      sign, p := -1, 1;
    }
    ghost var start := p;
    while p < |buf|
      invariant start <= p <= |buf|
      invariant n == DigitsValue(buf[start..p])
    {
      assert buf[start..p + 1][..p - start] == buf[start..p];
      n, p := 10 * n + (buf[p] as int - '0' as int), p + 1;
    }
    assert buf[start..p] == buf[start..] && buf[0..] == buf;
    n := n * sign;
  }

  class Reader {
    const src: string
    var pos: nat

    constructor (text: string)
      ensures src == text && pos == 0
    {
      src, pos := text, 0;
    }

    /** Moves over blanks and shows the next character. */
    method Peek() returns (c: char)
      requires pos <= |src|
      modifies this
      ensures pos == SkipBlanks(src, old(pos)) && c == At(src, pos)
    {
      while Blank(At(src, pos))
        invariant pos <= |src| && SkipBlanks(src, pos) == SkipBlanks(src, old(pos))
        decreases |src| - pos
      {
        pos := pos + 1;
      }
      c := At(src, pos);
    }

    /** Reads an atom up to the character that ends it, keeping at most 31 characters; NULL when there
        is none. */
    method ReadAtom() returns (r: Reading)
      requires pos <= |src|
      modifies this
      ensures pos == AtomEnd(src, old(pos))
      ensures r == if old(pos) == pos then End else Read(Atom(src[old(pos)..pos]))
    {
      var buf := [];
      while !Stops(At(src, pos))
        invariant old(pos) <= pos <= |src| && AtomEnd(src, pos) == AtomEnd(src, old(pos))
        invariant buf == Kept(src[old(pos)..pos])
        decreases |src| - pos
      {
        assert src[old(pos)..pos + 1] == src[old(pos)..pos] + [src[pos]];
        if |buf| < MAX_ATOM {
          buf := buf + [src[pos]];
        }
        pos := pos + 1;
      }
      if |buf| == 0 {
        return End;
      }
      var isNum := LooksNumeric(buf);
      if !isNum {
        return Read(Sym(buf));
      }
      var n := NumberOf(buf);
      r := Read(Num(n));
    }

    method Expr() returns (r: Reading)
      requires pos <= |src|
      modifies this
      ensures (r, pos) == ReadExpr(src, old(pos))
      decreases |src| - pos, 0
    {
      var c := Peek();
      if c == '\0' {
        return End;
      }
      if c == '(' {
        pos := pos + 1;
        var node := Items();
        return Read(node);
      }
      if c == ')' {
        return Read(Err("Unexpected ')'"));
      }
      r := ReadAtom();
    }

    method Items() returns (node: Node)
      requires pos <= |src|
      modifies this
      ensures (node, pos) == ReadList(src, old(pos))
      decreases |src| - pos, 1
    {
      var c := Peek();
      if c == ')' {
        pos := pos + 1;
        return Nil;
      }
      PeekTwice(src, old(pos));
      var first := Expr();
      if first.End? {
        return Err("EOF");
      }
      if first.node.Err? {
        return first.node;
      }
      var rest := Items();
      node := List(first.node, rest);
    }
  }

  /** Blanks are skipped once: the character found is not blank. */
  lemma PeekTwice(text: string, i: nat)
    requires i <= |text|
    ensures SkipBlanks(text, SkipBlanks(text, i)) == SkipBlanks(text, i)
  {
  }

  // -- the printed form

  /** The decimal digits of a natural number, most significant first. */
  function Digits(n: nat): (s: string)
    ensures |s| > 0 && forall k :: 0 <= k < |s| ==> Digit(s[k])
  {
    (if n < 10 then [] else Digits(n / 10)) + [('0' as int + n % 10) as char]
  }

  function Decimal(n: int): string { if n < 0 then "-" + Digits(-n) else Digits(n) }

  function Reversed(s: string): (r: string)
    ensures |r| == |s| && forall k :: 0 <= k < |s| ==> r[k] == s[|s| - 1 - k]
  {
    if s == [] then [] else Reversed(s[1..]) + [s[0]]
  }

  /** Printing an int: the digits are produced from the last to the first, then put out backwards. The
      least int, whose negation does not fit, is outside. */
  method PrintInt(n: int) returns (out: string)
    requires -0x8000_0000 < n < 0x8000_0000
    ensures out == Decimal(n)
  {
    hide Digits, Reversed;
    out := "";
    var m := n;
    if m < 0 {
      out, m := "-", -m;
    }
    if m == 0 {
      ZeroDigit();
      return out + "0";
    }
    ghost var whole, sign := m, out;
    var buf: string := [];
    while m > 0
      invariant m >= 0
      invariant Digits(whole) == Leading(m) + Reversed(buf)
    {
      PutDigit(m, buf);
      buf, m := buf + [('0' as int + m % 10) as char], m / 10;
    }
    var i := |buf|;
    while i > 0
      invariant 0 <= i <= |buf|
      invariant out == sign + Reversed(buf)[..|buf| - i]
    {
      i := i - 1;
      out := out + [buf[i]];
    }
  }

  /** The digits of n, none for zero. */
  function Leading(n: nat): string { if n == 0 then [] else Digits(n) }

  lemma ZeroDigit()
    ensures Digits(0) == "0"
  {
  }

  lemma {:induction false} PutDigit(m: nat, buf: string)
    requires m > 0
    ensures Leading(m) + Reversed(buf)
         == Leading(m / 10) + Reversed(buf + [('0' as int + m % 10) as char])
  {
    var d := [('0' as int + m % 10) as char];
    LastDigit(m);
    ReversedEnd(buf, d[0]);
    hide Leading, Reversed;
    assert (Leading(m / 10) + d) + Reversed(buf) == Leading(m / 10) + (d + Reversed(buf));
  }

  lemma {:induction false} LastDigit(m: nat)
    requires m > 0
    ensures Leading(m) == Leading(m / 10) + [('0' as int + m % 10) as char]
  {
  }

  lemma {:induction false} ReversedEnd(s: string, c: char)
    ensures Reversed(s + [c]) == [c] + Reversed(s)
  {
    var r := Reversed(s + [c]);
    assert forall k :: 0 <= k < |r| ==> r[k] == ([c] + Reversed(s))[k];
  }

  /** The digits of n read as n, and an int has at most ten of them. */
  lemma {:induction false} DigitsRead(n: nat)
    ensures DigitsValue(Digits(n)) == n
    decreases n
  {
    var s := Digits(n);
    if n >= 10 {
      DigitsRead(n / 10);
      assert s[..|s| - 1] == Digits(n / 10);
    } else {
      assert s[..|s| - 1] == [];
    }
  }

  lemma {:induction false} DigitsShort(n: nat, k: nat)
    requires n < Power10(k) && k > 0
    ensures |Digits(n)| <= k
    decreases k
  {
    if k > 1 && n >= 10 {
      DigitsShort(n / 10, k - 1);
    }
  }

  function Power10(k: nat): nat { if k == 0 then 1 else 10 * Power10(k - 1) }

  lemma DecimalValue(n: int)
    ensures Numeral(Decimal(n)) && NumeralValue(Decimal(n)) == n
    ensures |Decimal(n)| > 0 && forall k :: 0 <= k < |Decimal(n)| ==> !Stops(Decimal(n)[k])
  {
    hide DigitsValue, Digits;
    if n < 0 {
      DigitsRead(-n);
      assert Decimal(n)[1..] == Digits(-n);
    } else {
      DigitsRead(n);
    }
  }

  /** Every printed int is read back as itself. */
  lemma DecimalReadBack(n: int)
    requires -0x8000_0000 < n < 0x8000_0000
    ensures |Decimal(n)| <= 11
    ensures Atom(Decimal(n)) == Num(n)
  {
    hide DigitsValue, Digits, Numeral, NumeralValue;
    DecimalValue(n);
    assert Power10(10) == 10000000000;
    DigitsShort(if n < 0 then -n else n, 10);
  }

  lemma {:induction false} DigitsStart(n: nat)
    requires n > 0
    ensures '1' <= Digits(n)[0] <= '9'
    decreases n
  {
    if n >= 10 {
      DigitsStart(n / 10);
    }
  }

  /** The decimal form has a minus sign for negative numbers only, and no zero in front. */
  lemma DecimalStarts(n: int)
    ensures n == 0 ==> Decimal(n) == "0"
    ensures n > 0 ==> '1' <= Decimal(n)[0] <= '9'
    ensures n < 0 ==> |Decimal(n)| >= 2 && Decimal(n)[0] == '-' && '1' <= Decimal(n)[1] <= '9'
  {
    if n != 0 {
      DigitsStart(if n < 0 then -n else n);
    }
  }

  /** An atom that is read back: short enough, made of ordinary characters, and a symbol only when it
      does not look like a number. */
  predicate GoodAtom(t: Node) {
    match t
    case Num(n) => |Decimal(n)| <= MAX_ATOM
    case Sym(s) => (
      && 0 < |s| <= MAX_ATOM
      && !Numeral(s)
      && forall k :: 0 <= k < |s| ==> !Stops(s[k]))
    case _ => false
  }

  /** S-expressions: good atoms, the empty list, and lists that end in the empty list. */
  predicate SExpr(t: Node) {
    match t
    case List(first, rest) => SExpr(first) && (rest.List? || rest.Nil?) && SExpr(rest)
    case Nil => true
    case _ => GoodAtom(t)
  }

  /** The canonical text of an S-expression: one space between elements, none elsewhere. */
  function Show(t: Node): string
    requires SExpr(t)
    decreases t, 1
  {
    if t.Num? then Decimal(t.n)
    else if t.Sym? then t.name
    else "(" + ShowItems(t) + ")"
  }

  function ShowItems(t: Node): string
    requires SExpr(t) && (t.List? || t.Nil?)
    decreases t, 0
  {
    if t.Nil? then ""
    else if t.rest.Nil? then Show(t.first)
    else Show(t.first) + " " + ShowItems(t.rest)
  }

  /** s stands in text at position i. */
  predicate Stands(text: string, i: nat, s: string) {
    i + |s| <= |text| && text[i..i + |s|] == s
  }

  lemma StandsAt(text: string, i: nat, s: string, k: nat)
    requires Stands(text, i, s) && k < |s|
    ensures text[i + k] == s[k]
  {
    assert text[i..i + |s|][k] == s[k];
  }

  lemma StandsParts(text: string, i: nat, s: string, t: string)
    requires Stands(text, i, s + t)
    ensures Stands(text, i, s) && Stands(text, i + |s|, t)
  {
    var u := text[i..i + |s + t|];
    assert text[i..i + |s|] == u[..|s|] == s;
    assert text[i + |s|..i + |s| + |t|] == u[|s|..] == t;
  }

  /** Where a stretch of ordinary characters meets one that ends atoms, the atom is that stretch. */
  lemma AtomStands(text: string, i: nat, s: string)
    requires Stands(text, i, s) && Stops(At(text, i + |s|))
    requires forall k :: 0 <= k < |s| ==> !Stops(s[k])
    ensures AtomEnd(text, i) == i + |s| && text[i..AtomEnd(text, i)] == s
  {
    var j := AtomEnd(text, i);
    if j < i + |s| {
      StandsAt(text, i, s, j - i);
    }
  }

  lemma {:induction false} AtomReadBack(text: string, i: nat, t: Node)
    requires GoodAtom(t) && Stands(text, i, Show(t)) && Stops(At(text, i + |Show(t)|))
    ensures ReadExpr(text, i) == (Read(t), i + |Show(t)|)
  {
    hide Numeral, NumeralValue, Decimal;
    var s := Show(t);
    if t.Num? {
      DecimalValue(t.n);
    }
    AtomStands(text, i, s);
    StandsAt(text, i, s, 0);
    assert SkipBlanks(text, i) == i;
    assert Kept(s) == s;
  }

  /** Reading the canonical text of any S-expression gives back that S-expression, and the cursor stops
      right after the text. Only an atom needs to be followed by something that ends it. */
  lemma {:induction false} ReadBack(text: string, i: nat, t: Node)
    requires SExpr(t) && Stands(text, i, Show(t))
    requires GoodAtom(t) ==> Stops(At(text, i + |Show(t)|))
    ensures ReadExpr(text, i) == (Read(t), i + |Show(t)|)
    decreases t, 1
  {
    hide At, SkipBlanks, Stands, ReadExpr, ReadList, Decimal, Numeral, Stops;
    if GoodAtom(t) {
      AtomReadBack(text, i, t);
    } else {
      assert Show(t) == "(" + (ShowItems(t) + ")");
      StandsParts(text, i, "(", ShowItems(t) + ")");
      StandsFirst(text, i, "(");
      ItemsReadBack(text, i + 1, t);
      ListOpens(text, i);
    }
  }

  lemma {:induction false} ItemsReadBack(text: string, i: nat, t: Node)
    requires SExpr(t) && (t.List? || t.Nil?)
    requires Stands(text, i, ShowItems(t) + ")")
    ensures ReadList(text, i) == (t, i + |ShowItems(t)| + 1)
    decreases t, 0
  {
    hide At, SkipBlanks, Stands, ReadExpr, ReadList, Show, Decimal, Numeral, Stops, Blank;
    if t.Nil? {
      assert ShowItems(t) + ")" == ")";
      StandsFirst(text, i, ")");
      ListEnds(text, i);
    } else {
      var s := Show(t.first);
      var after := (if t.rest.Nil? then "" else " " + ShowItems(t.rest)) + ")";
      assert ShowItems(t) + ")" == s + after;
      StandsParts(text, i, s, after);
      var k := i + |s|;
      StandsFirst(text, k, after);
      Separators();
      ReadBack(text, i, t.first);
      FirstCharacter(text, i, t.first);
      if t.rest.Nil? {
        ListEnds(text, k);
      } else {
        assert after == " " + (ShowItems(t.rest) + ")");
        StandsParts(text, k, " ", ShowItems(t.rest) + ")");
        ItemsReadBack(text, k + 1, t.rest);
        LeadingBlank(text, k);
      }
      ListGoesOn(text, i, t.first, k, t.rest, i + |ShowItems(t)| + 1);
    }
  }

  lemma Separators()
    ensures Stops(' ') && Stops(')') && Blank(' ')
  {
  }

  lemma StandsFirst(text: string, i: nat, s: string)
    requires Stands(text, i, s) && s != []
    ensures i < |text| && At(text, i) == s[0]
  {
    StandsAt(text, i, s, 0);
  }

  lemma ListOpens(text: string, i: nat)
    requires i < |text| && At(text, i) == '('
    ensures ReadExpr(text, i) == (Read(ReadList(text, i + 1).0), ReadList(text, i + 1).1)
  {
    assert SkipBlanks(text, i) == i;
  }

  lemma ListEnds(text: string, i: nat)
    requires i < |text| && At(text, i) == ')'
    ensures ReadList(text, i) == (Nil, i + 1)
  {
    assert SkipBlanks(text, i) == i;
  }

  /** A list reads its first element where it starts, and the rest where that element ends. */
  lemma ListGoesOn(text: string, i: nat, first: Node, k: nat, rest: Node, m: nat)
    requires i < |text| && !Blank(At(text, i)) && At(text, i) != ')'
    requires ReadExpr(text, i) == (Read(first), k) && !first.Err?
    requires k <= |text| && ReadList(text, k) == (rest, m)
    ensures ReadList(text, i) == (List(first, rest), m)
  {
    assert SkipBlanks(text, i) == i;
  }

  /** The canonical text of an S-expression starts with neither a blank nor a closing parenthesis. */
  lemma FirstCharacter(text: string, i: nat, t: Node)
    requires SExpr(t) && Stands(text, i, Show(t))
    ensures i < |text| && !Blank(At(text, i)) && At(text, i) != ')'
  {
    assert |Show(t)| > 0;
    StandsAt(text, i, Show(t), 0);
  }

  /** A blank in front of a list's rest, or of an expression, makes no difference. */
  lemma LeadingBlank(text: string, i: nat)
    requires i < |text| && Blank(At(text, i))
    ensures SkipBlanks(text, i) == SkipBlanks(text, i + 1)
    ensures ReadList(text, i) == ReadList(text, i + 1)
    ensures ReadExpr(text, i) == ReadExpr(text, i + 1)
  {
  }

  // -- atoms character by character

  /** The number that digits mean, the first weighing most. */
  function Weighted(s: string): int {
    if s == "" then 0 else (s[0] as int - '0' as int) * Power10(|s| - 1) + Weighted(s[1..])
  }

  lemma {:induction false} DigitsWeighted(s: string)
    ensures DigitsValue(s) == Weighted(s)
    decreases |s|
  {
    if |s| == 1 {
      assert s[..0] == "" && s[1..] == "";
      assert Power10(0) == 1;
    } else if |s| > 1 {
      var m := s[1..|s| - 1];
      DigitsWeighted(s[..|s| - 1]);
      DigitsWeighted(s[1..]);
      DigitsWeighted(m);
      assert s[..|s| - 1][1..] == m && s[1..][..|s| - 2] == m;
      assert s[1..][|s| - 2] == s[|s| - 1];
      TimesTen(s[0] as int - '0' as int, |s| - 2);
    }
  }

  lemma TimesTen(d: int, k: nat)
    ensures d * Power10(k + 1) == 10 * (d * Power10(k))
  {
  }

  /** An atom of at most 31 characters, character by character; it ends at a blank, a tab, the end of a
      line or of the script, or a parenthesis. Apart from a minus sign in front of something, it is a
      number if it is made of digits, and otherwise the symbol of that name. */
  lemma AtomRead(text: string, i: nat, s: string)
    requires 1 <= |s| <= 31 && Stands(text, i, s)
    requires forall k :: 0 <= k < |s| ==> s[k] != '\0' && s[k] != ' ' && s[k] != '\t' && s[k] != '\n' && s[k] != '\r'
    requires forall k :: 0 <= k < |s| ==> s[k] != '(' && s[k] != ')'
    requires i + |s| < |text| ==> text[i + |s|] in ['\0', ' ', '\t', '\n', '\r', '(', ')']
    ensures var digits := if |s| > 1 && s[0] == '-' then s[1..] else s;
      ReadExpr(text, i) == (Read(
        if exists k :: 0 <= k < |digits| && !('0' <= digits[k] <= '9') then Sym(s)
        else Num(if digits == s then Weighted(s) else -Weighted(digits))), i + |s|)
  {
    hide Stops, Atom, Weighted;
    Delimited(text, i, s);
    AtomStands(text, i, s);
    StandsAt(text, i, s, 0);
    StopsFirst(s[0]);
    assert SkipBlanks(text, i) == i;
    assert Kept(s) == s;
    AtomNamed(s);
  }

  lemma Delimited(text: string, i: nat, s: string)
    requires i + |s| <= |text|
    requires forall k :: 0 <= k < |s| ==> s[k] != '\0' && s[k] != ' ' && s[k] != '\t' && s[k] != '\n' && s[k] != '\r'
    requires forall k :: 0 <= k < |s| ==> s[k] != '(' && s[k] != ')'
    requires i + |s| < |text| ==> text[i + |s|] in ['\0', ' ', '\t', '\n', '\r', '(', ')']
    ensures Stops(At(text, i + |s|)) && forall k :: 0 <= k < |s| ==> !Stops(s[k])
  {
  }

  lemma StopsFirst(c: char)
    requires !Stops(c)
    ensures !Blank(c) && c != '\0' && c != '(' && c != ')'
  {
  }

  lemma AtomNamed(s: string)
    requires 1 <= |s| <= 31
    ensures var digits := if |s| > 1 && s[0] == '-' then s[1..] else s;
      Atom(s) == if exists k :: 0 <= k < |digits| && !('0' <= digits[k] <= '9') then Sym(s)
                 else Num(if digits == s then Weighted(s) else -Weighted(digits))
  {
    hide DigitsValue, Weighted;
    var digits := if |s| > 1 && s[0] == '-' then s[1..] else s;
    DigitsWeighted(s);
    DigitsWeighted(s[1..]);
    if j :| 0 <= j < |s| && !(Digit(s[j]) || (j == 0 && s[0] == '-' && |s| > 1)) {
      var k := if digits == s then j else j - 1;
      assert digits[k] == s[j];
    } else {
      assert forall k :: 0 <= k < |digits| ==> digits[k] == s[if digits == s then k else k + 1];
    }
  }

  /** Of a longer atom the first 31 characters count. */
  lemma AtomCut(s: string)
    requires |s| > 31
    ensures Atom(s) == Atom(s[..31])
  {
    assert Kept(s[..31]) == s[..31] == Kept(s);
  }

  /** The names of the operations are symbols, the lone minus sign included. */
  lemma OperatorsRead()
    ensures ReadExpr("-", 0) == (Read(Sym("-")), 1) && ReadExpr("+", 0) == (Read(Sym("+")), 1)
    ensures ReadExpr("*", 0) == (Read(Sym("*")), 1) && ReadExpr("/", 0) == (Read(Sym("/")), 1)
  {
    hide ReadExpr;
    AtomRead("-", 0, "-");
    AtomRead("+", 0, "+");
    AtomRead("*", 0, "*");
    AtomRead("/", 0, "/");
  }

  /** A blank, a tab or an end of line in front of an expression is passed over. */
  lemma SpaceSkipped(text: string, i: nat)
    requires i < |text| && text[i] in [' ', '\t', '\n', '\r']
    ensures ReadExpr(text, i) == ReadExpr(text, i + 1) && ReadList(text, i) == ReadList(text, i + 1)
  {
    LeadingBlank(text, i);
  }

  /** A NUL ends the script. */
  lemma NulEnds(text: string, i: nat)
    requires i < |text| && text[i] == '\0'
    ensures ReadExpr(text, i) == (End, i) && ReadList(text, i) == (Err("EOF"), i)
  {
    assert SkipBlanks(text, i) == i;
  }

  // -- what the reader refuses

  /** From position i to the end of the script there are only blanks and opening parentheses. */
  predicate OnlyOpens(text: string, i: nat)
    requires i <= |text|
    decreases |text| - i
  {
    At(text, i) == '\0' || ((Blank(At(text, i)) || At(text, i) == '(') && OnlyOpens(text, i + 1))
  }

  lemma {:induction false} OpensAfterBlanks(text: string, i: nat)
    requires i <= |text|
    ensures OnlyOpens(text, i) <==> OnlyOpens(text, SkipBlanks(text, i))
    decreases |text| - i
  {
    if Blank(At(text, i)) {
      OpensAfterBlanks(text, i + 1);
    }
  }

  /** Which texts are refused as an expression: those whose first character is a closing parenthesis, and
      those that open a list and then do nothing but open lists until the script ends. Every other text,
      however many of its parentheses are never closed, is accepted. */
  lemma {:induction false} ExprRefused(text: string, i: nat)
    requires i <= |text|
    ensures var j := SkipBlanks(text, i);
      (ReadExpr(text, i).0.Read? && ReadExpr(text, i).0.node.Err?) <==>
        At(text, j) == ')' || (At(text, j) == '(' && OnlyOpens(text, j))
    ensures At(text, SkipBlanks(text, i)) == '(' && OnlyOpens(text, i) ==> ReadExpr(text, i).0 == Read(Err("EOF"))
    decreases |text| - i, 0
  {
    var j := SkipBlanks(text, i);
    OpensAfterBlanks(text, i);
    if At(text, j) == '(' {
      ListRefused(text, j + 1);
    }
  }

  /** The rest of a list is refused exactly when only blanks and opening parentheses are left. */
  lemma {:induction false} ListRefused(text: string, i: nat)
    requires i <= |text|
    ensures ReadList(text, i).0.Err? <==> OnlyOpens(text, i)
    ensures ReadList(text, i).0.Err? ==> ReadList(text, i).0 == Err("EOF")
    decreases |text| - i, 1
  {
    var j := SkipBlanks(text, i);
    OpensAfterBlanks(text, i);
    PeekTwice(text, i);
    if At(text, j) != ')' {
      ExprRefused(text, j);
    }
  }

  /** Two lists opened and none closed: refused, although the outer one has an element. */
  lemma TwoOpens()
    ensures ReadExpr("((", 0) == (Read(Err("EOF")), 2)
  {
    assert SkipBlanks("((", 0) == 0 && SkipBlanks("((", 1) == 1 && SkipBlanks("((", 2) == 2;
    assert ReadList("((", 2) == (Err("EOF"), 2);
    assert ReadExpr("((", 1) == (Read(Err("EOF")), 2);
  }

  // -- what the reader takes for a whole expression

  /** No error stands anywhere in the tree. */
  predicate Whole(t: Node) {
    match t
    case Err(_) => false
    case List(first, rest) => Whole(first) && Whole(rest)
    case _ => true
  }

  /** With `depth` lists open at position i, the script has a closing parenthesis for each of them, the
      lists opened on the way included. */
  predicate Closes(text: string, i: nat, depth: nat)
    requires i <= |text|
    decreases |text| - i
  {
    depth == 0 ||
    match At(text, i)
    case '\0' => false
    case '(' => Closes(text, i + 1, depth + 1)
    case ')' => Closes(text, i + 1, depth - 1)
    case _ => Closes(text, i + 1, depth)
  }

  lemma {:induction false} ClosesAfterBlanks(text: string, i: nat, depth: nat)
    requires i <= |text|
    ensures Closes(text, i, depth) <==> Closes(text, SkipBlanks(text, i), depth)
    decreases |text| - i
  {
    if Blank(At(text, i)) {
      ClosesAfterBlanks(text, i + 1, depth);
    }
  }

  lemma {:induction false} ClosesAfterAtom(text: string, i: nat, depth: nat)
    requires i <= |text|
    ensures Closes(text, i, depth) <==> Closes(text, AtomEnd(text, i), depth)
    decreases |text| - i
  {
    if !Stops(At(text, i)) {
      ClosesAfterAtom(text, i + 1, depth);
    }
  }

  /** The rest of a list is read without an error in it exactly when the script closes the list; what is
      open around it is then left to what follows. */
  lemma {:induction false} ListWhole(text: string, i: nat, depth: nat)
    requires i <= |text|
    ensures Closes(text, i, depth + 1) <==> Whole(ReadList(text, i).0) && Closes(text, ReadList(text, i).1, depth)
    decreases |text| - i, 1
  {
    var j := SkipBlanks(text, i);
    ClosesAfterBlanks(text, i, depth + 1);
    PeekTwice(text, i);
    if At(text, j) != ')' && At(text, j) != '\0' {
      var (first, k) := ReadExpr(text, j);
      ExprWhole(text, j, depth + 1);
      if !first.node.Err? {
        ListWhole(text, k, depth);
      }
    }
  }

  /** An expression is read without an error in it exactly when the script closes the lists it opens. */
  lemma {:induction false} ExprWhole(text: string, i: nat, depth: nat)
    requires i <= |text| && depth > 0
    requires At(text, SkipBlanks(text, i)) != '\0' && At(text, SkipBlanks(text, i)) != ')'
    ensures ReadExpr(text, i).0.Read?
    ensures var j := SkipBlanks(text, i);
      Whole(ReadExpr(text, i).0.node) <==> (At(text, j) == '(' ==> Closes(text, j + 1, 1))
    ensures Closes(text, i, depth) <==> Whole(ReadExpr(text, i).0.node) && Closes(text, ReadExpr(text, i).1, depth)
    decreases |text| - i, 0
  {
    var j := SkipBlanks(text, i);
    ClosesAfterBlanks(text, i, depth);
    if At(text, j) == '(' {
      ListWhole(text, j + 1, 0);
      ListWhole(text, j + 1, depth);
    } else {
      ClosesAfterAtom(text, j, depth);
    }
  }

  /** The list with an end-of-text error for its tail. */
  function Unended(t: Node): Node
  {
    if t.List? then List(t.first, Unended(t.rest)) else Err("EOF")
  }

  /** What a list of S-expressions is read as when only its own closing parenthesis is missing: its
      elements, with the error for a tail. */
  lemma UnclosedList(text: string, i: nat, t: Node)
    requires SExpr(t) && (t.List? || t.Nil?)
    requires Stands(text, i, "(" + ShowItems(t)) && i + 1 + |ShowItems(t)| == |text|
    ensures ReadExpr(text, i) == (Read(Unended(t)), |text|)
    ensures OnlyOpens(text, i) <==> t.Nil?
  {
    hide ReadExpr, ReadList, ShowItems, OnlyOpens;
    StandsParts(text, i, "(", ShowItems(t));
    StandsFirst(text, i, "(");
    ListOpens(text, i);
    UnclosedItems(text, i + 1, t);
    ExprRefused(text, i);
    hide SkipBlanks;
    FirstIs(text, i);
  }

  lemma FirstIs(text: string, i: nat)
    requires i < |text| && !Blank(At(text, i))
    ensures SkipBlanks(text, i) == i
  {
  }

  lemma {:induction false} UnclosedItems(text: string, i: nat, t: Node)
    requires SExpr(t) && (t.List? || t.Nil?)
    requires Stands(text, i, ShowItems(t)) && i + |ShowItems(t)| == |text|
    ensures ReadList(text, i) == (Unended(t), |text|)
    decreases t, 0
  {
    hide At, SkipBlanks, Stands, ReadExpr, ReadList, Show, Decimal, Numeral, Stops, Blank;
    if t.Nil? {
      ListStarves(text);
    } else {
      var s := Show(t.first);
      var after := if t.rest.Nil? then "" else " " + ShowItems(t.rest);
      assert ShowItems(t) == s + after;
      StandsParts(text, i, s, after);
      var k := i + |s|;
      Separators();
      if t.rest.Nil? {
        ListStarves(text);
        EndStops(text);
      } else {
        StandsFirst(text, k, after);
        StandsParts(text, k, " ", ShowItems(t.rest));
        UnclosedItems(text, k + 1, t.rest);
        LeadingBlank(text, k);
      }
      ReadBack(text, i, t.first);
      FirstCharacter(text, i, t.first);
      ListGoesOn(text, i, t.first, k, Unended(t.rest), |text|);
    }
  }

  lemma ListStarves(text: string)
    ensures ReadList(text, |text|) == (Err("EOF"), |text|)
  {
    assert SkipBlanks(text, |text|) == |text|;
  }

  lemma EndStops(text: string)
    ensures Stops(At(text, |text|))
  {
  }
}
