/** The text editor: a flat buffer with a cursor, changed in place by one key at a time, and the editor
    over a list of lines that it implements. */
module Editor {
  import opened Bytes

  const NEWLINE: Byte := 10
  const SLACK: nat := 8192

  // -- the editor over lines

  /** Lines without newlines, at least one, and a cursor on one of them. */
  datatype Doc = Doc(lines: seq<seq<Byte>>, row: nat, col: nat) {
    predicate Valid() { row < |lines| && col <= |lines[row]| }

    /** Characters in the text, the newlines between lines included. */
    function Size(): nat
      requires |lines| > 0
    {
      Total(lines) + |lines| - 1
    }

    function Left(): (d: Doc)
      requires Valid()
      ensures d.Valid()
    {
      if col > 0 then Doc(lines, row, col - 1)
      else if row > 0 then Doc(lines, row - 1, |lines[row - 1]|)
      else this
    }

    function Right(): (d: Doc)
      requires Valid()
      ensures d.Valid()
    {
      if col < |lines[row]| then Doc(lines, row, col + 1)
      else if row + 1 < |lines| then Doc(lines, row + 1, 0)
      else this
    }

    function Up(): (d: Doc)
      requires Valid()
      ensures d.Valid()
    {
      if row > 0 then Doc(lines, row - 1, Min(col, |lines[row - 1]|)) else this
    }

    function Down(): (d: Doc)
      requires Valid()
      ensures d.Valid()
    {
      if row + 1 < |lines| then Doc(lines, row + 1, Min(col, |lines[row + 1]|)) else this
    }

    /** A character typed at the cursor; a newline breaks the line there. */
    function Insert(c: Byte): (d: Doc)
      requires Valid()
      ensures d.Valid()
    {
      var before, after := lines[row][..col], lines[row][col..];
      if c == NEWLINE then Doc(lines[..row] + [before, after] + lines[row + 1..], row + 1, 0)
      else Doc(lines[row := before + [c] + after], row, col + 1)
    }

    /** The character before the cursor removed; at the start of a line, the line is joined to the one
        above. */
    function Backspace(): (d: Doc)
      requires Valid()
      ensures d.Valid()
    {
      if col > 0 then Doc(lines[row := lines[row][..col - 1] + lines[row][col..]], row, col - 1)
      else if row > 0 then
        Doc(lines[..row - 1] + [lines[row - 1] + lines[row]] + lines[row + 1..], row - 1, |lines[row - 1]|)
      else this
    }
  }

  function Min(a: nat, b: nat): nat { if a < b then a else b }

  function Total(lines: seq<seq<Byte>>): nat { if lines == [] then 0 else |lines[0]| + Total(lines[1..]) }

  // -- text and lines

  /** The lines of a text: it is cut at every newline. */
  function Split(text: seq<Byte>): (lines: seq<seq<Byte>>)
    ensures |lines| > 0
  {
    if text == [] then [[]]
    else
      var rest := Split(text[1..]);
      if text[0] == NEWLINE then [[]] + rest else [[text[0]] + rest[0]] + rest[1..]
  }

  function Last(lines: seq<seq<Byte>>): seq<Byte>
    requires |lines| > 0
  {
    lines[|lines| - 1]
  }

  /** What a flat text with a cursor shows. */
  function View(text: seq<Byte>, cur: nat): (d: Doc)
    requires cur <= |text|
    ensures d.Valid()
  {
    var before := Split(text[..cur]);
    SplitJoined(text[..cur], text[cur..]);
    assert text[..cur] + text[cur..] == text;
    Doc(Split(text), |before| - 1, |Last(before)|)
  }

  /** A line has no newline in it. */
  predicate OneLine(s: seq<Byte>) { NEWLINE !in s }

  predicate OneLines(lines: seq<seq<Byte>>) { forall i :: 0 <= i < |lines| ==> OneLine(lines[i]) }

  /** Two lists of lines put together: the last line of the one and the first of the other become one. */
  function Joined(l: seq<seq<Byte>>, r: seq<seq<Byte>>): seq<seq<Byte>>
    requires |l| > 0 && |r| > 0
  {
    l[..|l| - 1] + [Last(l) + r[0]] + r[1..]
  }

  lemma {:induction false} SplitJoined(a: seq<Byte>, b: seq<Byte>)
    ensures Split(a + b) == Joined(Split(a), Split(b))
  {
    var r := Split(b);
    if a == [] {
      assert a + b == b;
      assert [] + r[0] == r[0];
      assert Joined([[]], r) == r;
    } else {
      assert (a + b)[1..] == a[1..] + b;
      SplitJoined(a[1..], b);
      var t := Split(a[1..]);
      if a[0] == NEWLINE {
        JoinedAfter([[]], t, r);
      } else {
        JoinedGrown(a[0], t, r);
      }
    }
  }

  lemma JoinedAfter(head: seq<seq<Byte>>, t: seq<seq<Byte>>, r: seq<seq<Byte>>)
    requires |t| > 0 && |r| > 0
    ensures Joined(head + t, r) == head + Joined(t, r)
  {
    var l := head + t;
    assert l[..|l| - 1] == head + t[..|t| - 1];
  }

  lemma JoinedGrown(c: Byte, t: seq<seq<Byte>>, r: seq<seq<Byte>>)
    requires |t| > 0 && |r| > 0
    ensures var j := Joined(t, r);
      Joined([[c] + t[0]] + t[1..], r) == [[c] + j[0]] + j[1..]
  {
    var l := [[c] + t[0]] + t[1..];
    if |t| == 1 {
      assert [c] + t[0] + r[0] == [c] + (t[0] + r[0]);
      assert l[..|l| - 1] == [] && t[..|t| - 1] == [];
    } else {
      assert l[..|l| - 1] == [[c] + t[0]] + t[1..|t| - 1];
      assert Last(l) == Last(t);
      var j := Joined(t, r);
      assert j[1..] == t[1..|t| - 1] + [Last(t) + r[0]] + r[1..];
    }
  }

  /** The text of a list of lines. */
  function Join(lines: seq<seq<Byte>>): seq<Byte>
    requires |lines| > 0
  {
    if |lines| == 1 then lines[0] else lines[0] + [NEWLINE] + Join(lines[1..])
  }

  /** Cutting a text into lines loses nothing, and gives lines without newlines. */
  lemma {:induction false} SplitBack(text: seq<Byte>)
    ensures Join(Split(text)) == text
    ensures OneLines(Split(text))
    ensures |text| == Total(Split(text)) + |Split(text)| - 1
  {
    if text != [] {
      SplitBack(text[1..]);
      var rest, lines := Split(text[1..]), Split(text);
      if text[0] == NEWLINE {
        assert lines[1..] == rest;
        assert [] + [NEWLINE] + text[1..] == text;
      } else {
        assert lines[1..] == rest[1..];
        if |rest| > 1 {
          assert [text[0]] + rest[0] + [NEWLINE] + Join(rest[1..]) == [text[0]] + (rest[0] + [NEWLINE] + Join(rest[1..]));
        }
        assert [text[0]] + text[1..] == text;
      }
    }
  }

  lemma {:induction false} SplitOneLine(s: seq<Byte>)
    requires OneLine(s)
    ensures Split(s) == [s]
  {
    if s != [] {
      assert s[0] in s;
      SplitOneLine(s[1..]);
      assert [s[0]] + s[1..] == s;
    }
  }

  lemma SplitNewline()
    ensures Split([NEWLINE]) == [[], []]
  {
    assert [NEWLINE][1..] == [];
  }

  /** The view in terms of the text before and after the cursor. */
  function Around(before: seq<seq<Byte>>, after: seq<seq<Byte>>): Doc
    requires |before| > 0 && |after| > 0
  {
    Doc(Joined(before, after), |before| - 1, |Last(before)|)
  }

  lemma ViewAround(text: seq<Byte>, cur: nat)
    requires cur <= |text|
    ensures View(text, cur) == Around(Split(text[..cur]), Split(text[cur..]))
  {
    assert text[..cur] + text[cur..] == text;
    SplitJoined(text[..cur], text[cur..]);
  }

  /** A character after the text before the cursor, or in front of the text after it. */
  lemma SplitWithLast(a: seq<Byte>, c: Byte)
    ensures var l := Split(a);
      Split(a + [c]) == if c == NEWLINE then l + [[]] else l[..|l| - 1] + [Last(l) + [c]]
  {
    hide Split;
    SplitJoined(a, [c]);
    var l := Split(a);
    if c == NEWLINE {
      SplitNewline();
      JoinedEmpty(l);
    } else {
      SplitOneLine([c]);
    }
  }

  lemma JoinedEmpty(l: seq<seq<Byte>>)
    requires |l| > 0
    ensures Joined(l, [[], []]) == l + [[]]
  {
    assert Last(l) + [] == Last(l);
    assert l[..|l| - 1] + [Last(l)] == l;
  }

  lemma SplitWithFirst(c: Byte, b: seq<Byte>)
    ensures var r := Split(b);
      Split([c] + b) == if c == NEWLINE then [[]] + r else [[c] + r[0]] + r[1..]
  {
    assert ([c] + b)[1..] == b;
  }

  lemma Spliced(s: seq<Byte>, text: seq<Byte>, cur: nat, c: Byte)
    requires cur <= |text| && |s| == |text| + 1 && s[cur] == c
    requires forall k :: 0 <= k < cur ==> s[k] == text[k]
    requires forall k :: cur < k < |s| ==> s[k] == text[k - 1]
    ensures s == text[..cur] + [c] + text[cur..]
  {
  }

  lemma Closed(s: seq<Byte>, text: seq<Byte>, cur: nat)
    requires 0 < cur <= |text| && |s| == |text| - 1
    requires forall k :: 0 <= k < cur - 1 ==> s[k] == text[k]
    requires forall k :: cur - 1 <= k < |s| ==> s[k] == text[k + 1]
    ensures s == text[..cur - 1] + text[cur..]
  {
  }

  // -- what one change of the flat text does to the view

  /** Splicing a character in at the cursor is typing it. */
  lemma InsertMeans(text: seq<Byte>, cur: nat, c: Byte)
    requires cur <= |text|
    ensures View(text[..cur] + [c] + text[cur..], cur + 1) == View(text, cur).Insert(c)
  {
    var a, b, after := text[..cur], text[cur..], text[..cur] + [c] + text[cur..];
    ViewAround(text, cur);
    ViewAround(after, cur + 1);
    assert after[..cur + 1] == a + [c] && after[cur + 1..] == b;
    SplitWithLast(a, c);
    TypedAround(Split(a), Split(b), c);
  }

  lemma TypedAround(l: seq<seq<Byte>>, r: seq<seq<Byte>>, c: Byte)
    requires |l| > 0 && |r| > 0
    ensures Around(if c == NEWLINE then l + [[]] else l[..|l| - 1] + [Last(l) + [c]], r) == Around(l, r).Insert(c)
  {
    var d := Around(l, r);
    var before, after := d.lines[d.row][..d.col], d.lines[d.row][d.col..];
    assert before == Last(l) && after == r[0];
    assert d.lines[..d.row] == l[..|l| - 1] && d.lines[d.row + 1..] == r[1..];
    if c == NEWLINE {
      assert (l + [[]])[..|l|] == l == l[..|l| - 1] + [Last(l)];
      assert [] + r[0] == r[0];
    } else {
      var l' := l[..|l| - 1] + [Last(l) + [c]];
      assert l'[..|l'| - 1] == l[..|l| - 1];
    }
  }

  /** Typing a character and erasing it restores the document. */
  lemma InsertUndone(d: Doc, c: Byte)
    requires d.Valid()
    ensures d.Insert(c).Valid() && d.Insert(c).Backspace() == d
  {
    var line := d.lines[d.row];
    assert line[..d.col] + line[d.col..] == line;
    var e := d.Insert(c);
    if c == NEWLINE {
      assert e.lines[..d.row] == d.lines[..d.row];
      assert e.lines[d.row + 2..] == d.lines[d.row + 1..];
      assert d.lines[..d.row] + [line] + d.lines[d.row + 1..] == d.lines;
    } else {
      var typed := line[..d.col] + [c] + line[d.col..];
      assert typed[..d.col] == line[..d.col] && typed[d.col + 1..] == line[d.col..];
      assert e.lines[d.row := line] == d.lines;
    }
  }

  /** The character that Backspace takes away. */
  function Erased(d: Doc): Byte
    requires d.Valid() && (d.row > 0 || d.col > 0)
  {
    if d.col > 0 then d.lines[d.row][d.col - 1] else NEWLINE
  }

  /** Erasing a character and typing it again restores the document. */
  lemma BackspaceUndone(d: Doc)
    requires d.Valid() && (d.row > 0 || d.col > 0)
    requires d.col > 0 ==> Erased(d) != NEWLINE
    ensures d.Backspace().Insert(Erased(d)) == d
  {
    var e := d.Backspace();
    if d.col > 0 {
      var line, now := d.lines[d.row], e.lines[d.row];
      assert now[..d.col - 1] == line[..d.col - 1] && now[d.col - 1..] == line[d.col..];
      assert line[..d.col - 1] + [line[d.col - 1]] + line[d.col..] == line;
      assert e.lines[d.row := line] == d.lines;
    } else {
      var joined := d.lines[d.row - 1] + d.lines[d.row];
      assert joined[..e.col] == d.lines[d.row - 1] && joined[e.col..] == d.lines[d.row];
      assert e.lines[..e.row] == d.lines[..e.row] && e.lines[e.row + 1..] == d.lines[d.row + 1..];
      assert d.lines[..e.row] + [d.lines[e.row], d.lines[d.row]] + d.lines[d.row + 1..] == d.lines;
    }
  }

  /** Closing the gap over the character before the cursor is erasing it. */
  lemma BackspaceMeans(text: seq<Byte>, cur: nat)
    requires 0 < cur <= |text|
    ensures View(text[..cur - 1] + text[cur..], cur - 1) == View(text, cur).Backspace()
  {
    var after := text[..cur - 1] + text[cur..];
    InsertMeans(after, cur - 1, text[cur - 1]);
    ViewAround(after, cur - 1);
    assert after[..cur - 1] + [text[cur - 1]] + after[cur - 1..] == text;
    InsertUndone(View(after, cur - 1), text[cur - 1]);
  }

  /** Stepping back over a character, or stepping forward over it, moves the cursor in the lines. */
  lemma StepMeans(text: seq<Byte>, cur: nat)
    requires cur < |text|
    ensures View(text, cur).Right() == View(text, cur + 1)
    ensures View(text, cur + 1).Left() == View(text, cur)
  {
    ViewAround(text, cur);
    ViewAround(text, cur + 1);
    var a, b, c := text[..cur], text[cur + 1..], text[cur];
    assert text[..cur + 1] == a + [c] && text[cur..] == [c] + b;
    SplitWithLast(a, c);
    SplitWithFirst(c, b);
    hide View, Split;
    SteppedAround(Split(a), Split(b), c);
  }

  lemma SteppedAround(l: seq<seq<Byte>>, r: seq<seq<Byte>>, c: Byte)
    requires |l| > 0 && |r| > 0
    ensures
      var here := Around(l, if c == NEWLINE then [[]] + r else [[c] + r[0]] + r[1..]);
      var there := Around(if c == NEWLINE then l + [[]] else l[..|l| - 1] + [Last(l) + [c]], r);
      && here.Valid() && there.Valid() && here.Right() == there && there.Left() == here
  {
    if c == NEWLINE {
      assert Last(l) + [] == Last(l) && [] + r[0] == r[0];
      assert (l + [[]])[..|l|] == l == l[..|l| - 1] + [Last(l)];
      assert ([[]] + r)[1..] == r == [r[0]] + r[1..];
    } else {
      var l', r' := l[..|l| - 1] + [Last(l) + [c]], [[c] + r[0]] + r[1..];
      assert l'[..|l'| - 1] == l[..|l| - 1] && r'[1..] == r[1..];
      assert Last(l) + ([c] + r[0]) == Last(l) + [c] + r[0];
    }
  }

  /** The ends of the text are the ends of the document. */
  lemma EndsMean(text: seq<Byte>)
    ensures View(text, 0).row == 0 && View(text, 0).col == 0
    ensures View(text, |text|).row == |Split(text)| - 1
    ensures View(text, |text|).col == |Last(Split(text))|
  {
    assert text[..0] == [] && text[..|text|] == text;
  }

  /** A line starts at the beginning of the text and after each newline. */
  predicate LineStart(text: seq<Byte>, i: nat) {
    i <= |text| && (i > 0 ==> text[i - 1] == NEWLINE)
  }

  predicate LineEnd(text: seq<Byte>, i: nat) {
    i <= |text| && (i < |text| ==> text[i] == NEWLINE)
  }

  predicate Within(text: seq<Byte>, start: nat, k: nat) {
    start <= k <= |text| && forall i :: start <= i < k ==> text[i] != NEWLINE
  }

  /** From the start of a line up to the next newline, the column counts characters and the row stays.
      Only at the end of the line has the whole line been counted. */
  lemma ColumnCounts(text: seq<Byte>, start: nat, k: nat)
    requires LineStart(text, start) && Within(text, start, k)
    ensures View(text, k).row == View(text, start).row
    ensures View(text, k).col == k - start
    ensures LineEnd(text, k) ==> |View(text, k).lines[View(text, k).row]| == k - start
  {
    var a, s := text[..start], text[start..k];
    assert text[..k] == a + s;
    SplitOneLine(s);
    SplitJoined(a, s);
    if start == 0 {
      assert a == [];
    } else {
      assert a == text[..start - 1] + [NEWLINE];
      SplitWithLast(text[..start - 1], NEWLINE);
    }
    assert [] + s == s;
    ViewAround(text, k);
    if LineEnd(text, k) {
      var b := text[k..];
      if k < |text| {
        assert b == [NEWLINE] + text[k + 1..];
        SplitWithFirst(NEWLINE, text[k + 1..]);
      }
      assert Split(b)[0] == [];
      assert s + [] == s;
    }
  }

  lemma NextRow(text: seq<Byte>, q: nat)
    requires q < |text| && text[q] == NEWLINE
    ensures View(text, q + 1).row == View(text, q).row + 1 && View(text, q + 1).col == 0
  {
    assert text[..q + 1] == text[..q] + [NEWLINE];
    SplitWithLast(text[..q], NEWLINE);
  }

  /** The arrow keys' arithmetic. The cursor stands in the line after the newline at p, and the line
      before that newline starts at start. */
  lemma UpMeans(text: seq<Byte>, cur: nat, start: nat, p: nat, target: nat)
    requires p < cur <= |text| && text[p] == NEWLINE && Within(text, p + 1, cur)
    requires LineStart(text, start) && Within(text, start, p)
    requires target == start + Min(cur - 1 - p, p - start)
    ensures View(text, target) == View(text, cur).Up()
  {
    ColumnCounts(text, p + 1, cur);
    ColumnCounts(text, start, target);
    ColumnCounts(text, start, p);
    NextRow(text, p);
    hide View;
    SameLines(text, cur, target);
    SameLines(text, p, target);
  }

  lemma TopMeans(text: seq<Byte>, cur: nat)
    requires Within(text, 0, cur)
    ensures View(text, cur).Up() == View(text, cur)
  {
    ColumnCounts(text, 0, cur);
    EndsMean(text);
  }

  /** The cursor stands in a line that starts at start and ends just before next; the target is reached
      by going right from next, over as many characters as the column counts or as there are. */
  lemma DownMeans(text: seq<Byte>, start: nat, cur: nat, next: nat, target: nat)
    requires LineStart(text, start) && start <= cur < next <= |text| && LineStart(text, next)
    requires Within(text, start, next - 1) && Within(text, next, target)
    requires target - next <= cur - start && (target - next < cur - start ==> LineEnd(text, target))
    ensures View(text, target) == View(text, cur).Down()
  {
    ColumnCounts(text, start, cur);
    ColumnCounts(text, start, next - 1);
    ColumnCounts(text, next, target);
    NextRow(text, next - 1);
    hide View;
    SameLines(text, cur, target);
  }

  lemma BottomMeans(text: seq<Byte>, start: nat, cur: nat)
    requires LineStart(text, start) && start <= cur <= |text| && Within(text, start, |text|)
    ensures View(text, cur).Down() == View(text, cur)
  {
    ColumnCounts(text, start, cur);
    ColumnCounts(text, start, |text|);
    EndsMean(text);
    hide View;
    SameLines(text, cur, |text|);
  }

  /** Moving the cursor leaves the lines alone. */
  lemma SameLines(text: seq<Byte>, i: nat, j: nat)
    requires i <= |text| && j <= |text|
    ensures View(text, i).lines == View(text, j).lines == Split(text)
  {
  }

  // -- sessions

  /** What the user sees of the editor: the document, whether keys are inserted, and the last key
      typed in normal mode. */
  datatype Session = Session(doc: Doc, inserting: bool, lastKey: Byte)

  /** After a key the editor goes on, or leaves with the bytes to be saved, or leaves without saving. */
  datatype Event = GoOn | Save(text: seq<Byte>) | Quit

  const ESCAPE: Byte := 27
  const ERASE: Byte := 8
  const UP: Byte := 128
  const DOWN: Byte := 129
  const LEFT: Byte := 130
  const RIGHT: Byte := 131
  const KEY_I: Byte := 105
  const KEY_W: Byte := 119
  const KEY_Q: Byte := 113

  predicate Typed(c: Byte) { 32 <= c <= 126 || c == NEWLINE }

  function Moved(d: Doc, c: Byte): (e: Doc)
    requires d.Valid() && UP <= c <= RIGHT
    ensures e.Valid() && e.lines == d.lines
  {
    if c == UP then d.Up() else if c == DOWN then d.Down() else if c == LEFT then d.Left() else d.Right()
  }

  /** A key in insert mode; a full buffer takes no more characters. */
  function Edited(d: Doc, c: Byte, capacity: nat): (e: Doc)
    requires d.Valid()
    ensures e.Valid()
  {
    if c == ERASE then d.Backspace()
    else if d.Size() < capacity - 1 && Typed(c) then d.Insert(c)
    else d
  }

  function Press(s: Session, c: Byte, capacity: nat): (r: (Session, Event))
    requires s.doc.Valid()
    ensures r.0.doc.Valid()
  {
    if c == ESCAPE then (Session(s.doc, false, 0), GoOn)
    else if UP <= c <= RIGHT then (s.(doc := Moved(s.doc, c)), GoOn)
    else if s.inserting then (s.(doc := Edited(s.doc, c, capacity)), GoOn)
    else if c == KEY_I then (Session(s.doc, true, 0), GoOn)
    else (s.(lastKey := c), if c == KEY_W then Save(Join(s.doc.lines)) else if c == KEY_Q then Quit else GoOn)
  }

  /** The keys of a session in order, up to the one that leaves the editor. */
  function PressAll(s: Session, keys: seq<Byte>, capacity: nat): (Session, Event)
    requires s.doc.Valid()
    decreases |keys|
  {
    if keys == [] then (s, GoOn)
    else
      var (t, event) := Press(s, keys[0], capacity);
      if event != GoOn then (t, event) else PressAll(t, keys[1..], capacity)
  }

  /** A document that fits a buffer: its lines hold no newline, and there is room for one more byte. */
  predicate Fits(d: Doc, capacity: nat) {
    d.Valid() && OneLines(d.lines) && d.Size() < capacity
  }

  lemma {:induction false} TotalReplaced(lines: seq<seq<Byte>>, i: nat, line: seq<Byte>)
    requires i < |lines|
    ensures Total(lines[i := line]) == Total(lines) - |lines[i]| + |line|
  {
    if i == 0 {
      assert lines[i := line][1..] == lines[1..];
    } else {
      TotalReplaced(lines[1..], i - 1, line);
      assert lines[i := line][1..] == lines[1..][i - 1 := line];
    }
  }

  lemma {:induction false} TotalAppended(a: seq<seq<Byte>>, b: seq<seq<Byte>>)
    ensures Total(a + b) == Total(a) + Total(b)
  {
    if a == [] {
      assert a + b == b;
    } else {
      TotalAppended(a[1..], b);
      assert (a + b)[1..] == a[1..] + b;
    }
  }

  /** Typing makes a document one byte longer, and erasing one byte shorter unless the cursor is at the
      very beginning. */
  lemma InsertSize(d: Doc, c: Byte)
    requires d.Valid()
    ensures d.Insert(c).Size() == d.Size() + 1
  {
    var line := d.lines[d.row];
    if c == NEWLINE {
      var two := [line[..d.col], line[d.col..]];
      assert two[1..] == [line[d.col..]] && Total(two[1..]) == |line| - d.col;
      assert Total(two) == |line|;
      TotalAppended(d.lines[..d.row], two);
      TotalAppended(d.lines[..d.row] + two, d.lines[d.row + 1..]);
      TotalAppended(d.lines[..d.row], d.lines[d.row..]);
      assert d.lines[..d.row] + d.lines[d.row..] == d.lines;
      assert d.lines[d.row..][1..] == d.lines[d.row + 1..];
    } else {
      TotalReplaced(d.lines, d.row, line[..d.col] + [c] + line[d.col..]);
    }
  }

  lemma BackspaceSize(d: Doc)
    requires d.Valid() && OneLines(d.lines)
    ensures d.Backspace().Size() == if d.row == 0 && d.col == 0 then d.Size() else d.Size() - 1
  {
    if d.row > 0 || d.col > 0 {
      BackspaceUndone(d);
      InsertSize(d.Backspace(), Erased(d));
    }
  }

  lemma InsertLines(d: Doc, c: Byte)
    requires d.Valid() && OneLines(d.lines)
    ensures OneLines(d.Insert(c).lines)
  {
    var line := d.lines[d.row];
    assert OneLine(line[..d.col]) && OneLine(line[d.col..]);
  }

  lemma BackspaceLines(d: Doc)
    requires d.Valid() && OneLines(d.lines)
    ensures OneLines(d.Backspace().lines)
  {
    if d.col > 0 {
      assert OneLine(d.lines[d.row][..d.col - 1] + d.lines[d.row][d.col..]);
    } else if d.row > 0 {
      assert OneLine(d.lines[d.row - 1] + d.lines[d.row]);
    }
  }

  /** No key can break a document or overfill the buffer. */
  lemma PressKeeps(s: Session, c: Byte, capacity: nat)
    requires Fits(s.doc, capacity)
    ensures Fits(Press(s, c, capacity).0.doc, capacity)
  {
    hide Total, OneLine;
    if s.inserting && c != ESCAPE && !(UP <= c <= RIGHT) {
      if c == ERASE {
        BackspaceSize(s.doc);
        BackspaceLines(s.doc);
      } else {
        InsertSize(s.doc, c);
        InsertLines(s.doc, c);
      }
    }
  }

  // -- the keys by their codes

  /** Arrow up (128): one row up, in the same column or at the end of a shorter line; in the first row
      nothing changes. */
  lemma UpKey(s: Session, capacity: nat)
    requires s.doc.Valid()
    ensures var d := s.doc;
      Press(s, 128, capacity) == (s.(doc := if d.row == 0 then d else
        Doc(d.lines, d.row - 1, if d.col <= |d.lines[d.row - 1]| then d.col else |d.lines[d.row - 1]|)), GoOn)
  {
  }

  /** Arrow down (129): the same one row down, and in the last row nothing changes. */
  lemma DownKey(s: Session, capacity: nat)
    requires s.doc.Valid()
    ensures var d := s.doc;
      Press(s, 129, capacity) == (s.(doc := if d.row == |d.lines| - 1 then d else
        Doc(d.lines, d.row + 1, if d.col <= |d.lines[d.row + 1]| then d.col else |d.lines[d.row + 1]|)), GoOn)
  {
  }

  /** Arrows left (130) and right (131): one position back or on in the text, as far as it goes. */
  lemma SideKeys(text: seq<Byte>, cur: nat, inserting: bool, lastKey: Byte, capacity: nat)
    requires cur <= |text|
    ensures var s := Session(View(text, cur), inserting, lastKey);
      && Press(s, 130, capacity) == (s.(doc := View(text, if cur > 0 then cur - 1 else 0)), GoOn)
      && Press(s, 131, capacity) == (s.(doc := View(text, if cur < |text| then cur + 1 else cur)), GoOn)
  {
    hide View;
    EndsMean(text);
    if cur > 0 {
      StepMeans(text, cur - 1);
    }
    if cur < |text| {
      StepMeans(text, cur);
    } else {
      LastStep(text);
    }
  }

  /** In insert mode a printable character (32 to 126) or a newline (10) goes into the text at the cursor,
      as long as there is room for one more byte; erasing (8) takes away the one before the cursor; other
      keys but escape and the arrows do nothing. */
  lemma TypedKeys(text: seq<Byte>, cur: nat, lastKey: Byte, c: Byte, capacity: nat)
    requires cur <= |text| && c != 27 && !(128 <= c <= 131)
    ensures Press(Session(View(text, cur), true, lastKey), c, capacity) == (Session(
      if c == 8 then if cur == 0 then View(text, 0) else View(text[..cur - 1] + text[cur..], cur - 1)
      else if (32 <= c <= 126 || c == 10) && |text| + 1 < capacity then View(text[..cur] + [c] + text[cur..], cur + 1)
      else View(text, cur), true, lastKey), GoOn)
  {
    hide View;
    EndsMean(text);
    SizeSeen(text, cur);
    if c == 8 {
      if cur > 0 {
        BackspaceMeans(text, cur);
      }
    } else {
      InsertMeans(text, cur, c);
    }
  }

  /** Escape (27) ends insert mode, `i` (105) starts it, `w` (119) leaves with the text, `q` (113) leaves
      without, and the other keys of normal mode are only remembered. None of these changes the text. */
  lemma ModeKeys(text: seq<Byte>, cur: nat, inserting: bool, lastKey: Byte, c: Byte, capacity: nat)
    requires cur <= |text|
    ensures Press(Session(View(text, cur), inserting, lastKey), 27, capacity) == (Session(View(text, cur), false, 0), GoOn)
    ensures c != 27 && !(128 <= c <= 131) ==>
      Press(Session(View(text, cur), false, lastKey), c, capacity) == (
        if c == 105 then Session(View(text, cur), true, 0) else Session(View(text, cur), false, c),
        if c == 119 then Save(text) else if c == 113 then Quit else GoOn)
  {
    hide View;
    ViewExact(text, cur);
  }

  /** Lines are what lies between the bytes 10. */
  lemma LinesMean(text: seq<Byte>, line: seq<Byte>)
    ensures forall i :: 0 <= i < |Split(text)| ==> 10 !in Split(text)[i]
    ensures 10 !in line ==> Split(line + [10] + text) == [line] + Split(text)
    ensures 10 !in line ==> Split(line) == [line]
  {
    hide Split, Join, Total;
    SplitBack(text);
    if 10 !in line {
      SplitWithLast(line, 10);
      SplitOneLine(line);
      SplitJoined(line + [10], text);
      JoinedAtEnd(line, Split(text));
    }
  }

  lemma JoinedAtEnd(line: seq<Byte>, lines: seq<seq<Byte>>)
    requires |lines| > 0
    ensures Joined([line] + [[]], lines) == [line] + lines
  {
    assert [] + lines[0] == lines[0];
    assert [lines[0]] + lines[1..] == lines;
  }

  lemma {:induction false} PressAllKeeps(s: Session, keys: seq<Byte>, capacity: nat)
    requires Fits(s.doc, capacity)
    ensures Fits(PressAll(s, keys, capacity).0.doc, capacity)
    decreases |keys|
  {
    if keys != [] {
      PressKeeps(s, keys[0], capacity);
      PressAllKeeps(Press(s, keys[0], capacity).0, keys[1..], capacity);
    }
  }

  /** The editor's variables. The buffer has room for the file and 8 KB more. */
  class TextEditor {
    const buf: array<Byte>
    var len: nat
    var cur: nat
    var inserting: bool
    var lastKey: Byte

    ghost predicate Valid()
      reads this
    {
      cur <= len < buf.Length
    }

    ghost function Text(): seq<Byte>
      reads this, buf
      requires Valid()
    {
      buf[..len]
    }

    ghost function Shown(): Session
      reads this, buf
      requires Valid()
    {
      Session(View(Text(), cur), inserting, lastKey)
    }

    constructor (file: seq<Byte>)
      ensures Valid() && fresh(buf) && buf.Length == |file| + 8192
      ensures Text() == file && cur == 0 && !inserting && lastKey == 0
    {
      var a := new Byte[|file| + SLACK](i => 0);
      for i := 0 to |file|
        invariant a[..i] == file[..i]
      {
        a[i] := file[i];
      }
      buf, len, cur, inserting, lastKey := a, |file|, 0, false, 0;
      assert a[..|file|] == file;
    }

    /** How far the cursor is from the newline before it, and where that newline is, if there is one. */
    method Column() returns (col: nat, p: int)
      requires Valid()
      ensures -1 <= p < cur && col == cur - 1 - p
      ensures LineStart(Text(), p + 1) && Within(Text(), p + 1, cur)
    {
      col, p := 0, cur - 1;
      while p >= 0 && buf[p] != NEWLINE
        invariant -1 <= p < cur && col == cur - 1 - p
        invariant Within(Text(), p + 1, cur)
      {
        col, p := col + 1, p - 1;
      }
    }

    method CursorUp()
      requires Valid()
      modifies this`cur
      ensures Valid() && View(Text(), cur) == old(View(Text(), cur).Up())
    {
      hide View;
      var col, p := Column();
      ghost var text := Text();
      if p >= 0 {
        var prevStart := p - 1;
        while prevStart >= 0 && buf[prevStart] != NEWLINE
          invariant -1 <= prevStart < p && Within(text, prevStart + 1, p)
        {
          prevStart := prevStart - 1;
        }
        prevStart := prevStart + 1;
        var newPos := prevStart;
        var i := 0;
        while i < col && newPos != p
          invariant 0 <= i <= col && prevStart <= newPos <= p && newPos == prevStart + i
        {
          newPos, i := newPos + 1, i + 1;
        }
        UpMeans(text, cur, prevStart, p, newPos);
        cur := newPos;
      } else {
        TopMeans(text, cur);
      }
    }

    method CursorDown()
      requires Valid()
      modifies this`cur
      ensures Valid() && View(Text(), cur) == old(View(Text(), cur).Down())
    {
      hide View;
      var col, p := Column();
      ghost var text := Text();
      var nextStart := cur;
      while nextStart < len && buf[nextStart] != NEWLINE
        invariant cur <= nextStart <= len && Within(text, p + 1, nextStart)
      {
        nextStart := nextStart + 1;
      }
      if nextStart < len {
        nextStart := nextStart + 1;
        var newPos := nextStart;
        var i := 0;
        while i < col && !(newPos >= len || buf[newPos] == NEWLINE)
          invariant 0 <= i <= col && newPos == nextStart + i && Within(text, nextStart, newPos)
        {
          newPos, i := newPos + 1, i + 1;
        }
        DownMeans(text, p + 1, cur, nextStart, newPos);
        cur := newPos;
      } else {
        BottomMeans(text, p + 1, cur);
      }
    }

    /** Erases the character before the cursor by moving the rest one place to the left. */
    method EraseBefore()
      requires Valid()
      modifies this`cur, this`len, buf
      ensures Valid() && View(Text(), cur) == old(View(Text(), cur).Backspace())
    {
      hide View;
      ghost var text := Text();
      if cur > 0 {
        ShiftLeft();
        Closed(buf[..len - 1], text, cur);
        BackspaceMeans(text, cur);
        cur, len := cur - 1, len - 1;
      } else {
        EndsMean(text);
      }
    }

    method ShiftLeft()
      requires Valid() && cur > 0
      modifies buf
      ensures forall k :: 0 <= k < cur - 1 ==> buf[k] == old(buf[k])
      ensures forall k :: cur - 1 <= k < len - 1 ==> buf[k] == old(buf[k + 1])
    {
      for i := cur to len
        invariant forall k :: 0 <= k < cur - 1 ==> buf[k] == old(buf[k])
        invariant forall k :: cur - 1 <= k < i - 1 ==> buf[k] == old(buf[k + 1])
        invariant forall k :: i <= k < len ==> buf[k] == old(buf[k])
      {
        buf[i - 1] := buf[i];
      }
    }

    /** Inserts a character at the cursor by moving the rest one place to the right. */
    method Insert(c: Byte)
      requires Valid() && len < buf.Length - 1
      modifies this`cur, this`len, buf
      ensures Valid() && View(Text(), cur) == old(View(Text(), cur).Insert(c))
    {
      hide View;
      ghost var text := Text();
      ShiftRight();
      buf[cur] := c;
      Spliced(buf[..len + 1], text, cur, c);
      InsertMeans(text, cur, c);
      cur, len := cur + 1, len + 1;
    }

    method ShiftRight()
      requires Valid() && len < buf.Length - 1
      modifies buf
      ensures forall k :: 0 <= k < cur ==> buf[k] == old(buf[k])
      ensures forall k :: cur < k <= len ==> buf[k] == old(buf[k - 1])
    {
      for i := len downto cur
        invariant forall k :: 0 <= k <= i && k < len ==> buf[k] == old(buf[k])
        invariant forall k :: i < k <= len ==> buf[k] == old(buf[k - 1])
      {
        buf[i + 1] := buf[i];
      }
    }

    /** Handles one key. */
    method Key(c: Byte) returns (event: Event)
      requires Valid()
      modifies this, buf
      ensures Valid() && (Shown(), event) == Press(old(Shown()), c, buf.Length)
      ensures event.Save? ==> event.text == Text()
    {
      hide View;
      event := GoOn;
      if c == ESCAPE {
        inserting, lastKey := false, 0;
        return;
      }
      if UP <= c <= RIGHT {
        if c == LEFT {
          if cur > 0 {
            StepMeans(Text(), cur - 1);
            cur := cur - 1;
          } else {
            EndsMean(Text());
          }
        } else if c == RIGHT {
          if cur < len {
            StepMeans(Text(), cur);
            cur := cur + 1;
          } else {
            LastStep(Text());
          }
        } else if c == UP {
          CursorUp();
        } else {
          CursorDown();
        }
        return;
      }
      if inserting {
        SizeSeen(Text(), cur);
        if c == ERASE {
          EraseBefore();
        } else if len < buf.Length - 1 && Typed(c) {
          Insert(c);
        }
      } else {
        lastKey := c;
        if c == KEY_I {
          inserting, lastKey := true, 0;
        } else if c == KEY_W {
          ViewExact(Text(), cur);
          buf[len] := 0;
          event := Save(buf[..len]);
        } else if c == KEY_Q {
          event := Quit;
        }
      }
    }
  }

  /** A whole editing session on a file, from opening it to the key that leaves. */
  method Edit(file: seq<Byte>, keys: seq<Byte>) returns (editor: TextEditor, event: Event)
    ensures editor.Valid()
    ensures (editor.Shown(), event) == PressAll(Session(View(file, 0), false, 0), keys, |file| + 8192)
    ensures event.Save? ==> event.text == editor.Text()
  {
    hide View, Press;
    editor := new TextEditor(file);
    event := GoOn;
    ghost var start := editor.Shown();
    var i := 0;
    while i < |keys|
      invariant 0 <= i <= |keys| && editor.Valid() && editor.buf.Length == |file| + SLACK
      invariant fresh(editor) && fresh(editor.buf)
      invariant event == GoOn
      invariant PressAll(editor.Shown(), keys[i..], |file| + SLACK) == PressAll(start, keys, |file| + SLACK)
    {
      assert keys[i..][1..] == keys[i + 1..];
      event := editor.Key(keys[i]);
      i := i + 1;
      if event != GoOn {
        return;
      }
    }
  }

  lemma LastStep(text: seq<Byte>)
    ensures View(text, |text|).Right() == View(text, |text|)
  {
    EndsMean(text);
  }

  lemma SizeSeen(text: seq<Byte>, cur: nat)
    requires cur <= |text|
    ensures View(text, cur).Size() == |text|
  {
    SplitBack(text);
  }

  /** The view misses nothing: text and cursor can be told from the lines, the row and the column. */
  lemma ViewExact(text: seq<Byte>, cur: nat)
    requires cur <= |text|
    ensures var d := View(text, cur);
      Join(d.lines) == text && cur == Total(d.lines[..d.row]) + d.row + d.col
  {
    hide Split, Total, Join;
    SplitBack(text);
    SplitBack(text[..cur]);
    ViewAround(text, cur);
    hide View;
    TotalAround(Split(text[..cur]), Split(text[cur..]));
  }

  lemma TotalAround(before: seq<seq<Byte>>, after: seq<seq<Byte>>)
    requires |before| > 0 && |after| > 0
    ensures var d := Around(before, after);
      d.row < |d.lines| && Total(before) == Total(d.lines[..d.row]) + d.col
  {
    var start, last := before[..|before| - 1], [Last(before)];
    TotalAppended(start, last);
    assert before == start + last;
    assert Around(before, after).lines[..|before| - 1] == start;
    assert Total(last) == |Last(before)| by { assert last[1..] == []; }
  }
}
