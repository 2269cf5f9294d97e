/** Which tables let user mode through: along the path of a page, every table that is there was entered
    through an entry with the user bit. */
module UserPaths {
  import opened PageTables

  /** The entries above the leaf on the path of page v carry the user bit, as far as they are present. */
  ghost predicate UserPath(mem: Memory, f: nat, level: nat, v: nat)
    requires 1 <= level <= 4
    decreases level
  {
    f >= |mem| || level == 1 || !Present(Entry(mem[f], Idx(v, level))) ||
    (UserBit(Entry(mem[f], Idx(v, level))) && UserPath(mem, FrameOf(Entry(mem[f], Idx(v, level))), level - 1, v))
  }

  /** The same from an entry on. */
  ghost predicate UserEntry(mem: Memory, e: nat, level: nat, v: nat)
    requires level <= 3
  {
    level == 0 || !Present(e) || (UserBit(e) && UserPath(mem, FrameOf(e), level, v))
  }

  lemma UserUnfold(mem: Memory, f: nat, level: nat, v: nat)
    requires 1 <= level <= 4 && f < |mem|
    ensures UserPath(mem, f, level, v) <==> UserEntry(mem, Entry(mem[f], Idx(v, level)), level - 1, v)
  {
  }

  lemma {:induction false} UserFramed(mem: Memory, mem': Memory, f: nat, level: nat, n: nat, v: nat)
    requires 1 <= level <= 4 && f < |mem| == |mem'| && n <= 512 && Tree(mem, f, level, n) && mem'[f] == mem[f]
    requires forall x :: x in Below(mem, f, level, n) && x < |mem| ==> mem'[x] == mem[x]
    requires Idx(v, level) < n
    ensures UserPath(mem', f, level, v) <==> UserPath(mem, f, level, v)
    decreases level
  {
    var e := Entry(mem[f], Idx(v, level));
    if Present(e) && level > 1 {
      BelowEntry(mem, f, level, n, Idx(v, level));
      UserFramed(mem, mem', FrameOf(e), level - 1, 512, v);
    }
  }

  lemma UserEntryFramed(mem: Memory, mem': Memory, e: nat, level: nat, v: nat)
    requires |mem| == |mem'| && SubTree(mem, e, level) && level <= 3
    requires forall x :: x in Under(mem, e, level) && x < |mem| ==> mem'[x] == mem[x]
    ensures UserEntry(mem', e, level, v) <==> UserEntry(mem, e, level, v)
  {
    if Present(e) && level > 0 {
      UserFramed(mem, mem', FrameOf(e), level, 512, v);
    }
  }

  /** Writing an entry that lets user mode through, or a leaf, closes no path. */
  lemma {:induction false} ChangedUser(mem: Memory, mem': Memory, f: nat, level: nat, n: nat, v: nat, lo: nat, e: nat, w: nat)
    requires EntryChanged(mem, mem', f, level, n, v, lo, e) && Idx(w, level) < n
    requires UserPath(mem, f, level, w) && UserEntry(mem, e, lo - 1, w)
    ensures UserPath(mem', f, level, w)
    decreases level
  {
    hide Under, SubTree, Tree, Below, Entry, WithEntry, Idx, TableAt, SameUnder, UserPath, UserEntry;
    var i, j := Idx(v, level), Idx(w, level);
    UserUnfold(mem, f, level, w);
    UserUnfold(mem', f, level, w);
    BelowEntry(mem, f, level, n, j);
    if lo == level {
      TableTop(mem, f, level, v);
      EntryStored(mem[f], i, e, j);
      BelowSelf(mem, f, level, n);
      UserEntryFramed(mem, mem', if j == i then e else Entry(mem[f], j), level - 1, w);
    } else {
      ChangedDown(mem, mem', f, level, n, v, lo, e);
      if j == i {
        UserDown(mem, mem', Entry(mem[f], i), level - 1, w);
        if UserPath(mem, FrameOf(Entry(mem[f], i)), level - 1, w) {
          ChangedUser(mem, mem', FrameOf(Entry(mem[f], i)), level - 1, 512, v, lo, e, w);
        }
      } else {
        ChangedAside(mem, mem', f, level, n, v, lo, e, j);
        UserEntryFramed(mem, mem', Entry(mem[f], j), level - 1, w);
      }
    }
  }

  lemma UserDown(mem: Memory, mem': Memory, e: nat, level: nat, w: nat)
    requires 1 <= level <= 3 && Present(e) && UserEntry(mem, e, level, w)
    ensures UserPath(mem, FrameOf(e), level, w)
    ensures UserPath(mem', FrameOf(e), level, w) ==> UserEntry(mem', e, level, w)
  {
  }

  lemma ZeroUser(mem: Memory, t: nat, level: nat, w: nat)
    requires 1 <= level <= 3 && t < |mem| && mem[t] == ZeroPage()
    ensures UserEntry(mem, TableEntry(t), level, w)
  {
    EntryZero(Idx(w, level));
  }

  /** Writing to a mapped page closes and opens nothing. */
  lemma {:induction false} PageWrittenUser(mem: Memory, f: nat, level: nat, n: nat, v: nat, page: Page, w: nat)
    requires 1 <= level <= 4 && f < |mem| && n <= 512 && Tree(mem, f, level, n) && Idx(v, level) < n && Idx(w, level) < n
    requires Walk(mem, f, level, v).Some? && FrameOf(Walk(mem, f, level, v).value) < |mem|
    ensures var mem' := mem[FrameOf(Walk(mem, f, level, v).value) := page];
      UserPath(mem', f, level, w) <==> UserPath(mem, f, level, w)
    decreases level
  {
    hide Tree, Below, Entry, WithEntry, Idx, TableAt, SubTree, Under, UserPath;
    var p := FrameOf(Walk(mem, f, level, v).value);
    var mem', i, j := mem[p := page], Idx(v, level), Idx(w, level);
    PageWritten(mem, f, level, n, v, page);
    UserUnfold(mem, f, level, w);
    UserUnfold(mem', f, level, w);
    LeafUnder(mem, f, level, n, v);
    BelowEntry(mem, f, level, n, i);
    BelowEntry(mem, f, level, n, j);
    if j != i {
      BelowApart(mem, f, level, n, i, j);
      UserEntryFramed(mem, mem', Entry(mem[f], j), level - 1, w);
    } else if level > 1 {
      UnderTable(mem, Entry(mem[f], i), level - 1);
      PageWrittenUser(mem, FrameOf(Entry(mem[f], i)), level - 1, 512, v, page, w);
    }
  }
}
