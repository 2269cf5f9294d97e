/** Four-level page tables in physical memory: the frames a table tree is made of, the translation it
    defines, and what one entry write does to both. A table at level 1 holds leaf entries; the root
    is at level 4, and only the lower 256 of its entries belong to user space. */
module PageTables {
  import opened Bytes

  type Page = s: seq<Byte> | |s| == 4096 witness seq(4096, _ => 0)
  type Memory = seq<Page>

  datatype Option<T> = None | Some(value: T)

  function ZeroPage(): Page { seq(4096, _ => 0) }

  function Entry(p: Page, i: nat): (e: nat)
    requires i < 512
    ensures e < 0x1_0000_0000_0000_0000
  {
    Le64(p, 8 * i)
  }

  function WithEntry(p: Page, i: nat, e: nat): (q: Page)
    requires i < 512 && e < 0x1_0000_0000_0000_0000
  {
    Put64(p, 8 * i, e)
  }

  lemma EntryStored(p: Page, i: nat, e: nat, j: nat)
    requires i < 512 && j < 512 && e < 0x1_0000_0000_0000_0000
    ensures Entry(WithEntry(p, i, e), j) == if i == j then e else Entry(p, j)
  {
    hide Put64;
  }

  lemma EntryZero(i: nat)
    requires i < 512
    ensures Entry(ZeroPage(), i) == 0
  {
  }

  predicate Present(e: nat) { e % 2 == 1 }

  predicate Writable(e: nat) { e / 2 % 2 == 1 }

  predicate UserBit(e: nat) { e / 4 % 2 == 1 }

  /** The frame number in an entry: its address with the low twelve bits masked off. */
  function FrameOf(e: nat): nat { e / 4096 }

  /** The table index of page number v at a level, the nine bits the walk uses there. */
  function Idx(v: nat, level: nat): (i: nat)
    requires 1 <= level <= 4
    ensures i < 512
  {
    if level == 1 then v % 512 else if level == 2 then v / 512 % 512
    else if level == 3 then v / 0x4_0000 % 512 else v / 0x800_0000 % 512
  }

  /** The indices of a page number determine it. */
  lemma IdxDetermine(v: nat, w: nat)
    requires v < 0x10_0000_0000 && w < 0x10_0000_0000
    requires forall level :: 1 <= level <= 4 ==> Idx(v, level) == Idx(w, level)
    ensures v == w
  {
    assert Idx(v, 1) == Idx(w, 1) && Idx(v, 2) == Idx(w, 2) && Idx(v, 3) == Idx(w, 3) && Idx(v, 4) == Idx(w, 4);
    IdxDigits(v);
    IdxDigits(w);
  }

  lemma IdxDigits(v: nat)
    requires v < 0x10_0000_0000
    ensures v == Idx(v, 1) + 512 * Idx(v, 2) + 0x4_0000 * Idx(v, 3) + 0x800_0000 * Idx(v, 4)
  {
    var a := v / 512;
    var b := a / 512;
    var c := b / 512;
    assert v / 0x4_0000 == b && v / 0x800_0000 == c && c < 512;
    assert v == 512 * a + v % 512 && a == 512 * b + a % 512 && b == 512 * c + b % 512;
  }

  /** Pages v and w take the same path from level `hi` down to an entry at level `lo`. */
  predicate SamePath(v: nat, w: nat, lo: nat, hi: nat)
    requires 1 <= lo && hi <= 4
  {
    forall level :: lo <= level <= hi ==> Idx(v, level) == Idx(w, level)
  }

  // ----- the tree of frames below a table

  /** The frames that the first n entries of table f (at `level`) lead to. */
  ghost function Below(mem: Memory, f: nat, level: nat, n: nat): set<nat>
    requires 1 <= level && f < |mem| && n <= 512
    decreases level, n
  {
    if n == 0 then {} else Below(mem, f, level, n - 1) + Under(mem, Entry(mem[f], n - 1), level - 1)
  }

  /** The frames that one entry leads to: what it points at, a table of the given level or (level 0)
      a mapped page, and everything below. */
  ghost function Under(mem: Memory, e: nat, level: nat): set<nat>
    decreases level, 513
  {
    if !Present(e) then {}
    else if level == 0 || FrameOf(e) >= |mem| then {FrameOf(e)}
    else {FrameOf(e)} + Below(mem, FrameOf(e), level, 512)
  }

  /** The first n entries of f lead to separate trees of existing frames, none of which contains f. */
  ghost predicate Tree(mem: Memory, f: nat, level: nat, n: nat)
    requires 1 <= level && f < |mem| && n <= 512
    decreases level, n
  {
    n > 0 ==>
      var e := Entry(mem[f], n - 1);
      Tree(mem, f, level, n - 1) && SubTree(mem, e, level - 1)
      && f !in Under(mem, e, level - 1) && Below(mem, f, level, n - 1) !! Under(mem, e, level - 1)
  }

  ghost predicate SubTree(mem: Memory, e: nat, level: nat)
    decreases level, 513
  {
    Present(e) ==> FrameOf(e) < |mem| && (level > 0 ==> Tree(mem, FrameOf(e), level, 512))
  }

  lemma {:induction false} BelowEntry(mem: Memory, f: nat, level: nat, n: nat, i: nat)
    requires 1 <= level && f < |mem| && n <= 512 && i < n && Tree(mem, f, level, n)
    ensures Under(mem, Entry(mem[f], i), level - 1) <= Below(mem, f, level, n)
    ensures f !in Under(mem, Entry(mem[f], i), level - 1) && SubTree(mem, Entry(mem[f], i), level - 1)
    decreases n
  {
    if i < n - 1 {
      BelowEntry(mem, f, level, n - 1, i);
    }
  }

  lemma {:induction false} BelowApart(mem: Memory, f: nat, level: nat, n: nat, i: nat, j: nat)
    requires 1 <= level && f < |mem| && n <= 512 && i < n && j < n && i != j && Tree(mem, f, level, n)
    ensures Under(mem, Entry(mem[f], i), level - 1) !! Under(mem, Entry(mem[f], j), level - 1)
    decreases n
  {
    if i == n - 1 {
      BelowEntry(mem, f, level, n - 1, j);
    } else if j == n - 1 {
      BelowEntry(mem, f, level, n - 1, i);
    } else {
      BelowApart(mem, f, level, n - 1, i, j);
    }
  }

  lemma {:induction false} BelowSelf(mem: Memory, f: nat, level: nat, n: nat)
    requires 1 <= level && f < |mem| && n <= 512 && Tree(mem, f, level, n)
    ensures f !in Below(mem, f, level, n) && forall x :: x in Below(mem, f, level, n) ==> x < |mem|
    decreases level, n
  {
    if n > 0 {
      BelowSelf(mem, f, level, n - 1);
      var e := Entry(mem[f], n - 1);
      if Present(e) && level > 1 {
        BelowSelf(mem, FrameOf(e), level - 1, 512);
      }
    }
  }

  // ----- translation

  /** The leaf entry that the walk from table f finds for page v. */
  function Walk(mem: Memory, f: nat, level: nat, v: nat): Option<nat>
    requires 1 <= level <= 4
    decreases level
  {
    if f >= |mem| || !Present(Entry(mem[f], Idx(v, level))) then None
    else if level == 1 then Some(Entry(mem[f], Idx(v, level)))
    else Walk(mem, FrameOf(Entry(mem[f], Idx(v, level))), level - 1, v)
  }

  /** The table at level `lo` on the path of page v. */
  ghost function TableAt(mem: Memory, f: nat, level: nat, v: nat, lo: nat): Option<nat>
    requires 1 <= lo <= level <= 4
    decreases level
  {
    if f >= |mem| then None
    else if level == lo then Some(f)
    else if !Present(Entry(mem[f], Idx(v, level))) then None
    else TableAt(mem, FrameOf(Entry(mem[f], Idx(v, level))), level - 1, v, lo)
  }

  /** How many tables the walk of page v lacks. */
  function Missing(mem: Memory, f: nat, level: nat, v: nat): (m: nat)
    requires 1 <= level <= 4
    ensures m < level
    decreases level
  {
    if level == 1 || f >= |mem| then 0
    else if !Present(Entry(mem[f], Idx(v, level))) then level - 1
    else Missing(mem, FrameOf(Entry(mem[f], Idx(v, level))), level - 1, v)
  }

  /** Every table on a path, and the page at its end, is a frame of the tree. */
  lemma {:induction false} TableInTree(mem: Memory, f: nat, level: nat, n: nat, v: nat, lo: nat)
    requires 1 <= lo <= level <= 4 && f < |mem| && n <= 512 && Tree(mem, f, level, n) && Idx(v, level) < n
    ensures var g := TableAt(mem, f, level, v, lo); g.Some? ==>
              g.value < |mem| && g.value in {f} + Below(mem, f, level, n)
    decreases level
  {
    var e := Entry(mem[f], Idx(v, level));
    if lo < level && Present(e) {
      BelowEntry(mem, f, level, n, Idx(v, level));
      TableInTree(mem, FrameOf(e), level - 1, 512, v, lo);
    }
  }

  lemma {:induction false} LeafInTree(mem: Memory, f: nat, level: nat, n: nat, v: nat)
    requires 1 <= level <= 4 && f < |mem| && n <= 512 && Tree(mem, f, level, n) && Idx(v, level) < n
    ensures var e := Walk(mem, f, level, v); e.Some? ==>
              FrameOf(e.value) < |mem| && FrameOf(e.value) in Below(mem, f, level, n)
    decreases level
  {
    var e := Entry(mem[f], Idx(v, level));
    if Present(e) {
      BelowEntry(mem, f, level, n, Idx(v, level));
      if level > 1 {
        LeafInTree(mem, FrameOf(e), level - 1, 512, v);
      }
    }
  }

  /** Distinct pages are mapped to distinct frames. */
  lemma {:induction false} LeavesApart(mem: Memory, f: nat, level: nat, n: nat, v: nat, w: nat)
    requires 1 <= level <= 4 && f < |mem| && n <= 512 && Tree(mem, f, level, n)
    requires Idx(v, level) < n && Idx(w, level) < n && !SamePath(v, w, 1, level)
    requires Walk(mem, f, level, v).Some? && Walk(mem, f, level, w).Some?
    ensures FrameOf(Walk(mem, f, level, v).value) != FrameOf(Walk(mem, f, level, w).value)
    decreases level
  {
    var i, j := Idx(v, level), Idx(w, level);
    LeafUnder(mem, f, level, n, v);
    LeafUnder(mem, f, level, n, w);
    if i != j {
      BelowApart(mem, f, level, n, i, j);
    } else {
      BelowEntry(mem, f, level, n, i);
      LeavesApart(mem, FrameOf(Entry(mem[f], i)), level - 1, 512, v, w);
    }
  }

  lemma LeafUnder(mem: Memory, f: nat, level: nat, n: nat, v: nat)
    requires 1 <= level <= 4 && f < |mem| && n <= 512 && Tree(mem, f, level, n)
    requires Idx(v, level) < n && Walk(mem, f, level, v).Some?
    ensures FrameOf(Walk(mem, f, level, v).value) in Under(mem, Entry(mem[f], Idx(v, level)), level - 1)
  {
    BelowEntry(mem, f, level, n, Idx(v, level));
    if level > 1 {
      LeafInTree(mem, FrameOf(Entry(mem[f], Idx(v, level))), level - 1, 512, v);
    }
  }

  /** A mapped page is never a table. */
  lemma {:induction false} LeafNotTable(mem: Memory, f: nat, level: nat, n: nat, v: nat, w: nat, lo: nat)
    requires 1 <= lo <= level <= 4 && f < |mem| && n <= 512 && Tree(mem, f, level, n)
    requires Idx(v, level) < n && Idx(w, level) < n
    requires Walk(mem, f, level, w).Some? && TableAt(mem, f, level, v, lo).Some?
    ensures FrameOf(Walk(mem, f, level, w).value) != TableAt(mem, f, level, v, lo).value
    decreases level
  {
    var i, j := Idx(v, level), Idx(w, level);
    LeafUnder(mem, f, level, n, w);
    BelowEntry(mem, f, level, n, j);
    if lo < level {
      BelowEntry(mem, f, level, n, i);
      TableInTree(mem, FrameOf(Entry(mem[f], i)), level - 1, 512, v, lo);
      if i != j {
        BelowApart(mem, f, level, n, i, j);
      } else {
        LeafNotTable(mem, FrameOf(Entry(mem[f], i)), level - 1, 512, v, w, lo);
      }
    }
  }

  // ----- writes that miss a tree

  /** Memory outside a tree does not matter to it. */
  lemma {:induction false} UnderFramed(mem: Memory, mem': Memory, e: nat, level: nat)
    requires |mem| == |mem'| && SubTree(mem, e, level) && level <= 4
    requires forall x :: x in Under(mem, e, level) && x < |mem| ==> mem'[x] == mem[x]
    ensures Under(mem', e, level) == Under(mem, e, level) && SubTree(mem', e, level)
    ensures Present(e) && level >= 1 ==> forall v :: Walk(mem', FrameOf(e), level, v) == Walk(mem, FrameOf(e), level, v)
    decreases level, 513
  {
    if Present(e) && level > 0 {
      BelowFramed(mem, mem', FrameOf(e), level, 512);
      forall v ensures Walk(mem', FrameOf(e), level, v) == Walk(mem, FrameOf(e), level, v) {
        WalkFramed(mem, mem', FrameOf(e), level, 512, v);
      }
    }
  }

  lemma {:induction false} BelowFramed(mem: Memory, mem': Memory, f: nat, level: nat, n: nat)
    requires 1 <= level <= 4 && f < |mem| == |mem'| && n <= 512 && Tree(mem, f, level, n) && mem'[f] == mem[f]
    requires forall x :: x in Below(mem, f, level, n) && x < |mem| ==> mem'[x] == mem[x]
    ensures Below(mem', f, level, n) == Below(mem, f, level, n) && Tree(mem', f, level, n)
    decreases level, n
  {
    hide Entry, Under, SubTree, Tree, Below;
    if n == 0 {
      EmptyBelow(mem, f, level);
      EmptyBelow(mem', f, level);
    } else {
      BelowUnfold(mem, f, level, n);
      BelowUnfold(mem', f, level, n);
      BelowFramed(mem, mem', f, level, n - 1);
      UnderFramed(mem, mem', Entry(mem[f], n - 1), level - 1);
    }
  }

  lemma {:induction false} WalkFramed(mem: Memory, mem': Memory, f: nat, level: nat, n: nat, v: nat)
    requires 1 <= level <= 4 && f < |mem| == |mem'| && n <= 512 && Tree(mem, f, level, n) && mem'[f] == mem[f]
    requires forall x :: x in Below(mem, f, level, n) && x < |mem| ==> mem'[x] == mem[x]
    requires Idx(v, level) < n
    ensures Walk(mem', f, level, v) == Walk(mem, f, level, v)
    decreases level, 0
  {
    var e := Entry(mem[f], Idx(v, level));
    if Present(e) && level > 1 {
      BelowEntry(mem, f, level, n, Idx(v, level));
      WalkFramed(mem, mem', FrameOf(e), level - 1, 512, v);
    }
  }

  // ----- writes inside a tree

  /** Entry j of f leads to the same frames as before. */
  ghost predicate SameUnder(mem: Memory, mem': Memory, f: nat, level: nat, j: nat)
    requires 1 <= level <= 4 && f < |mem| == |mem'| && j < 512
  {
    && Entry(mem'[f], j) == Entry(mem[f], j)
    && Under(mem', Entry(mem'[f], j), level - 1) == Under(mem, Entry(mem[f], j), level - 1)
    && SubTree(mem', Entry(mem'[f], j), level - 1)
  }

  /** Entry i of f now leads to `came` in place of the frames `went`; the other entries are as before. */
  ghost predicate Regrown(mem: Memory, mem': Memory, f: nat, level: nat, n: nat, i: nat, went: set<nat>, came: set<nat>)
    requires 1 <= level <= 4 && n <= 512
  {
    && f < |mem| == |mem'| && i < n
    && (forall j :: 0 <= j < n && j != i ==> SameUnder(mem, mem', f, level, j))
    && Under(mem', Entry(mem'[f], i), level - 1) == Under(mem, Entry(mem[f], i), level - 1) - went + came
    && SubTree(mem', Entry(mem'[f], i), level - 1)
    && went <= Under(mem, Entry(mem[f], i), level - 1)
  }

  lemma SwapInside(b: set<nat>, u: set<nat>, went: set<nat>, came: set<nat>)
    requires b !! u && went <= u && came !! b + u
    ensures b + (u - went + came) == b + u - went + came && b !! u - went + came
  {
  }

  lemma SwapBeside(b: set<nat>, u: set<nat>, went: set<nat>, came: set<nat>)
    requires b !! u && went !! u && came !! b + u
    ensures (b - went + came) + u == b + u - went + came && b - went + came !! u
  {
  }

  lemma BelowUnfold(mem: Memory, f: nat, level: nat, m: nat)
    requires 1 <= level <= 4 && f < |mem| && 0 < m <= 512
    ensures var u := Under(mem, Entry(mem[f], m - 1), level - 1);
            && Below(mem, f, level, m) == Below(mem, f, level, m - 1) + u
            && (Tree(mem, f, level, m) <==>
                 (Tree(mem, f, level, m - 1) && SubTree(mem, Entry(mem[f], m - 1), level - 1)
                   && f !in u && Below(mem, f, level, m - 1) !! u))
  {
  }

  lemma {:induction false} RegrownBelow(mem: Memory, mem': Memory, f: nat, level: nat, n: nat, i: nat,
                                       went: set<nat>, came: set<nat>, m: nat)
    requires 1 <= level <= 4 && m <= n <= 512 && Regrown(mem, mem', f, level, n, i, went, came)
    requires Tree(mem, f, level, n) && Tree(mem, f, level, m)
    requires came !! {f} + Below(mem, f, level, n)
    ensures Below(mem, f, level, m) <= Below(mem, f, level, n)
    ensures Tree(mem', f, level, m)
    ensures Below(mem', f, level, m) == if m <= i then Below(mem, f, level, m) else Below(mem, f, level, m) - went + came
    decreases m
  {
    hide Under, SubTree, Entry, Below, Tree;
    if m == 0 {
      EmptyBelow(mem, f, level);
      EmptyBelow(mem', f, level);
    } else {
      BelowUnfold(mem, f, level, m);
      BelowUnfold(mem', f, level, m);
      RegrownBelow(mem, mem', f, level, n, i, went, came, m - 1);
      BelowEntry(mem, f, level, n, m - 1);
      var b, u := Below(mem, f, level, m - 1), Under(mem, Entry(mem[f], m - 1), level - 1);
      if m - 1 == i {
        SwapInside(b, u, went, came);
      } else {
        assert SameUnder(mem, mem', f, level, m - 1);
        BelowApart(mem, f, level, n, i, m - 1);
        SwapBeside(b, u, went, came);
      }
    }
  }

  lemma EmptyBelow(mem: Memory, f: nat, level: nat)
    requires 1 <= level && f < |mem|
    ensures Tree(mem, f, level, 0) && Below(mem, f, level, 0) == {}
  {
  }

  /** What the walk of page w finds from an entry on. */
  ghost function WalkEntry(mem: Memory, e: nat, level: nat, w: nat): Option<nat>
    requires level <= 3
  {
    if !Present(e) then None else if level == 0 then Some(e) else Walk(mem, FrameOf(e), level, w)
  }

  lemma WalkEntryFramed(mem: Memory, mem': Memory, e: nat, level: nat, w: nat)
    requires |mem| == |mem'| && SubTree(mem, e, level) && level <= 3
    requires forall x :: x in Under(mem, e, level) && x < |mem| ==> mem'[x] == mem[x]
    ensures WalkEntry(mem', e, level, w) == WalkEntry(mem, e, level, w)
  {
    if Present(e) && level > 0 {
      WalkFramed(mem, mem', FrameOf(e), level, 512, w);
    }
  }

  /** mem' is mem with the entry of page v at level `lo` replaced by e, whose tree is new to f's. */
  ghost predicate EntryChanged(mem: Memory, mem': Memory, f: nat, level: nat, n: nat, v: nat, lo: nat, e: nat) {
    && 1 <= lo <= level <= 4 && f < |mem| && n <= 512 && Tree(mem, f, level, n) && Idx(v, level) < n
    && e < 0x1_0000_0000_0000_0000 && TableAt(mem, f, level, v, lo).Some?
    && TableAt(mem, f, level, v, lo).value < |mem|
    && mem' == mem[TableAt(mem, f, level, v, lo).value :=
                   WithEntry(mem[TableAt(mem, f, level, v, lo).value], Idx(v, lo), e)]
    && SubTree(mem, e, lo - 1) && Under(mem, e, lo - 1) !! {f} + Below(mem, f, level, n)
  }

  /** The frames the replaced entry led to. */
  ghost function Went(mem: Memory, f: nat, level: nat, v: nat, lo: nat): set<nat>
    requires 1 <= lo <= level <= 4 && TableAt(mem, f, level, v, lo).Some?
  {
    var g := TableAt(mem, f, level, v, lo).value;
    if g < |mem| then Under(mem, Entry(mem[g], Idx(v, lo)), lo - 1) else {}
  }

  lemma ChangedBase(mem: Memory, mem': Memory, f: nat, level: nat, n: nat, v: nat, e: nat)
    requires EntryChanged(mem, mem', f, level, n, v, level, e)
    ensures Regrown(mem, mem', f, level, n, Idx(v, level), Went(mem, f, level, v, level), Under(mem, e, level - 1))
  {
    var i := Idx(v, level);
    EntryStored(mem[f], i, e, i);
    UnderFramed(mem, mem', e, level - 1);
    forall j | 0 <= j < n && j != i ensures SameUnder(mem, mem', f, level, j) {
      EntryStored(mem[f], i, e, j);
      BelowEntry(mem, f, level, n, j);
      UnderFramed(mem, mem', Entry(mem[f], j), level - 1);
    }
  }

  lemma UnderTable(mem: Memory, e: nat, level: nat)
    requires 1 <= level && Present(e) && SubTree(mem, e, level)
    ensures FrameOf(e) < |mem| && Tree(mem, FrameOf(e), level, 512)
    ensures Under(mem, e, level) == {FrameOf(e)} + Below(mem, FrameOf(e), level, 512)
  {
  }

  lemma TableDown(mem: Memory, f: nat, level: nat, v: nat, lo: nat)
    requires 1 <= lo < level <= 4 && f < |mem| && TableAt(mem, f, level, v, lo).Some?
    ensures Present(Entry(mem[f], Idx(v, level)))
    ensures TableAt(mem, f, level, v, lo) == TableAt(mem, FrameOf(Entry(mem[f], Idx(v, level))), level - 1, v, lo)
  {
  }

  /** Away from the path of v nothing changes, and the table itself is not the one written. */
  lemma ChangedAside(mem: Memory, mem': Memory, f: nat, level: nat, n: nat, v: nat, lo: nat, e: nat, j: nat)
    requires EntryChanged(mem, mem', f, level, n, v, lo, e) && lo < level && j < n && j != Idx(v, level)
    ensures mem'[f] == mem[f] && SameUnder(mem, mem', f, level, j)
    ensures forall x :: x in Under(mem, Entry(mem[f], j), level - 1) && x < |mem| ==> mem'[x] == mem[x]
  {
    hide Under, SubTree, Tree, Below, Entry, WithEntry, Idx, TableAt;
    var i, g := Idx(v, level), TableAt(mem, f, level, v, lo).value;
    BelowEntry(mem, f, level, n, i);
    BelowEntry(mem, f, level, n, j);
    BelowApart(mem, f, level, n, i, j);
    TableDown(mem, f, level, v, lo);
    UnderTable(mem, Entry(mem[f], i), level - 1);
    TableInTree(mem, FrameOf(Entry(mem[f], i)), level - 1, 512, v, lo);
    UnderFramed(mem, mem', Entry(mem[f], j), level - 1);
  }

  /** The change as the next table down the path sees it. */
  lemma ChangedDown(mem: Memory, mem': Memory, f: nat, level: nat, n: nat, v: nat, lo: nat, e: nat)
    requires EntryChanged(mem, mem', f, level, n, v, lo, e) && lo < level
    ensures mem'[f] == mem[f] && Present(Entry(mem[f], Idx(v, level)))
    ensures EntryChanged(mem, mem', FrameOf(Entry(mem[f], Idx(v, level))), level - 1, 512, v, lo, e)
    ensures Went(mem, f, level, v, lo) == Went(mem, FrameOf(Entry(mem[f], Idx(v, level))), level - 1, v, lo)
  {
    var i := Idx(v, level);
    BelowEntry(mem, f, level, n, i);
    TableInTree(mem, FrameOf(Entry(mem[f], i)), level - 1, 512, v, lo);
  }

  /** The tree after one entry write: the frames below the old entry go, those below the new come. */
  lemma {:induction false} ChangedTree(mem: Memory, mem': Memory, f: nat, level: nat, n: nat, v: nat, lo: nat, e: nat)
    requires EntryChanged(mem, mem', f, level, n, v, lo, e)
    ensures Tree(mem', f, level, n)
    ensures Below(mem', f, level, n) == Below(mem, f, level, n) - Went(mem, f, level, v, lo) + Under(mem, e, lo - 1)
    ensures Went(mem, f, level, v, lo) <= Below(mem, f, level, n)
    ensures TableAt(mem', f, level, v, lo) == TableAt(mem, f, level, v, lo)
    decreases level
  {
    hide Under, SubTree, Tree, Below, Entry, WithEntry, Idx, TableAt, Went, SameUnder;
    var i, went, came := Idx(v, level), Went(mem, f, level, v, lo), Under(mem, e, lo - 1);
    BelowEntry(mem, f, level, n, i);
    if lo == level {
      ChangedBase(mem, mem', f, level, n, v, e);
      TableHere(mem, mem', f, level, v);
    } else {
      TableDown(mem, f, level, v, lo);
      UnderTable(mem, Entry(mem[f], i), level - 1);
      ChangedDown(mem, mem', f, level, n, v, lo, e);
      var c := FrameOf(Entry(mem[f], i));
      ChangedTree(mem, mem', c, level - 1, 512, v, lo, e);
      BelowSelf(mem, c, level - 1, 512);
      forall j | 0 <= j < n && j != i ensures SameUnder(mem, mem', f, level, j) {
        ChangedAside(mem, mem', f, level, n, v, lo, e, j);
      }
      ChangedUnder(mem, mem', f, level, i, went, came);
      TableSame(mem, mem', f, level, v, lo);
    }
    RegrownBelow(mem, mem', f, level, n, i, went, came, n);
  }

  lemma TableHere(mem: Memory, mem': Memory, f: nat, level: nat, v: nat)
    requires 1 <= level <= 4 && f < |mem| == |mem'|
    ensures TableAt(mem', f, level, v, level) == TableAt(mem, f, level, v, level)
  {
  }

  lemma TableSame(mem: Memory, mem': Memory, f: nat, level: nat, v: nat, lo: nat)
    requires 1 <= lo < level <= 4 && f < |mem| == |mem'| && mem'[f] == mem[f]
    requires var c := FrameOf(Entry(mem[f], Idx(v, level)));
      TableAt(mem', c, level - 1, v, lo) == TableAt(mem, c, level - 1, v, lo)
    ensures TableAt(mem', f, level, v, lo) == TableAt(mem, f, level, v, lo)
  {
  }

  lemma ChangedUnder(mem: Memory, mem': Memory, f: nat, level: nat, i: nat, went: set<nat>, came: set<nat>)
    requires 2 <= level <= 4 && f < |mem| == |mem'| && i < 512 && mem'[f] == mem[f]
    requires var c := FrameOf(Entry(mem[f], i));
      && Present(Entry(mem[f], i)) && c < |mem| && Tree(mem', c, level - 1, 512) && c !in Below(mem, c, level - 1, 512)
      && Below(mem', c, level - 1, 512) == Below(mem, c, level - 1, 512) - went + came
      && went <= Below(mem, c, level - 1, 512)
    ensures Under(mem', Entry(mem'[f], i), level - 1) == Under(mem, Entry(mem[f], i), level - 1) - went + came
    ensures SubTree(mem', Entry(mem'[f], i), level - 1) && went <= Under(mem, Entry(mem[f], i), level - 1)
  {
  }

  /** The translation after one entry write: pages on its path go through the new entry, every other
      page as before. */
  lemma {:induction false} ChangedWalk(mem: Memory, mem': Memory, f: nat, level: nat, n: nat, v: nat, lo: nat, e: nat, w: nat)
    requires EntryChanged(mem, mem', f, level, n, v, lo, e) && Idx(w, level) < n
    ensures Walk(mem', f, level, w) == if SamePath(v, w, lo, level) then WalkEntry(mem, e, lo - 1, w) else Walk(mem, f, level, w)
    decreases level
  {
    hide Under, SubTree, Tree, Below, Entry, WithEntry, Idx, TableAt, SameUnder;
    var i, j := Idx(v, level), Idx(w, level);
    WalkUnfold(mem, f, level, w);
    WalkUnfold(mem', f, level, w);
    PathUnfold(v, w, lo, level);
    if lo == level {
      TableHere(mem, mem, f, level, v);
      assert TableAt(mem, f, level, v, level) == Some(f) by { TableTop(mem, f, level, v); }
      EntryStored(mem[f], i, e, j);
      BelowEntry(mem, f, level, n, j);
      BelowSelf(mem, f, level, n);
      if j == i {
        WalkEntryFramed(mem, mem', e, level - 1, w);
      } else {
        WalkEntryFramed(mem, mem', Entry(mem[f], j), level - 1, w);
      }
    } else {
      ChangedDown(mem, mem', f, level, n, v, lo, e);
      if j == i {
        ChangedWalk(mem, mem', FrameOf(Entry(mem[f], i)), level - 1, 512, v, lo, e, w);
      } else {
        ChangedAside(mem, mem', f, level, n, v, lo, e, j);
        BelowEntry(mem, f, level, n, j);
        WalkEntryFramed(mem, mem', Entry(mem[f], j), level - 1, w);
      }
    }
  }

  lemma TableTop(mem: Memory, f: nat, level: nat, v: nat)
    requires 1 <= level <= 4 && f < |mem|
    ensures TableAt(mem, f, level, v, level) == Some(f)
  {
  }

  lemma WalkUnfold(mem: Memory, f: nat, level: nat, w: nat)
    requires 1 <= level <= 4 && f < |mem|
    ensures Walk(mem, f, level, w) == WalkEntry(mem, Entry(mem[f], Idx(w, level)), level - 1, w)
  {
  }

  lemma PathUnfold(v: nat, w: nat, lo: nat, hi: nat)
    requires 1 <= lo <= hi <= 4
    ensures SamePath(v, w, lo, hi) <==> Idx(v, hi) == Idx(w, hi) && (lo < hi ==> SamePath(v, w, lo, hi - 1))
  {
  }

  // ----- a new, zeroed table

  lemma {:induction false} ZeroBelow(mem: Memory, t: nat, level: nat, n: nat)
    requires 1 <= level <= 4 && t < |mem| && mem[t] == ZeroPage() && n <= 512
    ensures Below(mem, t, level, n) == {} && Tree(mem, t, level, n)
    decreases n
  {
    if n > 0 {
      ZeroBelow(mem, t, level, n - 1);
      EntryZero(n - 1);
    }
  }

  lemma ZeroWalk(mem: Memory, t: nat, level: nat, w: nat)
    requires 1 <= level <= 4 && t < |mem| && mem[t] == ZeroPage()
    ensures Walk(mem, t, level, w) == None && Missing(mem, t, level, w) == level - 1
  {
    EntryZero(Idx(w, level));
  }

  /** The entry vmm_map_page writes for a new table in frame t: present, writable, user. */
  function TableEntry(t: nat): (e: nat)
    ensures Present(e) && Writable(e) && UserBit(e) && FrameOf(e) == t
  {
    4096 * t + 7
  }

  lemma ZeroTable(mem: Memory, t: nat, level: nat)
    requires 1 <= level <= 4 && t < |mem| && mem[t] == ZeroPage()
    ensures Under(mem, TableEntry(t), level) == {t} && SubTree(mem, TableEntry(t), level)
  {
    ZeroBelow(mem, t, level, 512);
  }

  /** Where the walk of v stops for want of a table, all pages on the same path are unmapped. */
  lemma {:induction false} StoppedWalk(mem: Memory, f: nat, level: nat, v: nat, lo: nat, w: nat)
    requires 1 <= lo <= level <= 4 && TableAt(mem, f, level, v, lo).Some? && SamePath(v, w, lo, level)
    requires var g := TableAt(mem, f, level, v, lo).value; g < |mem| && !Present(Entry(mem[g], Idx(v, lo)))
    ensures Walk(mem, f, level, w) == None
    decreases level
  {
    PathUnfold(v, w, lo, level);
    if lo < level {
      StoppedWalk(mem, FrameOf(Entry(mem[f], Idx(v, level))), level - 1, v, lo, w);
    }
  }

  /** How many tables are missing, seen from the table the walk has got to. */
  lemma {:induction false} MissingFrom(mem: Memory, f: nat, level: nat, v: nat, lo: nat)
    requires 1 <= lo <= level <= 4 && TableAt(mem, f, level, v, lo).Some?
    ensures Missing(mem, f, level, v) == Missing(mem, TableAt(mem, f, level, v, lo).value, lo, v)
    ensures lo > 1 && TableAt(mem, f, level, v, lo).value < |mem| ==>
      var e := Entry(mem[TableAt(mem, f, level, v, lo).value], Idx(v, lo));
      if Present(e) && FrameOf(e) < |mem| then TableAt(mem, f, level, v, lo - 1) == Some(FrameOf(e))
      else TableAt(mem, f, level, v, lo - 1) == None
    decreases level
  {
    if lo < level {
      MissingFrom(mem, FrameOf(Entry(mem[f], Idx(v, level))), level - 1, v, lo);
    }
  }

  /** mem' is mem with the zeroed frame t entered as the table that page v lacks at level lo - 1. */
  ghost predicate TableAdded(mem: Memory, mem': Memory, f: nat, n: nat, v: nat, lo: nat, t: nat) {
    && 2 <= lo <= 4 && t < |mem| && mem[t] == ZeroPage() && TableEntry(t) < 0x1_0000_0000_0000_0000
    && EntryChanged(mem, mem', f, 4, n, v, lo, TableEntry(t))
    && !Present(Entry(mem[TableAt(mem, f, 4, v, lo).value], Idx(v, lo)))
  }

  /** A new table is one more frame and no more mappings. */
  lemma TableAddedEffect(mem: Memory, mem': Memory, f: nat, n: nat, v: nat, lo: nat, t: nat)
    requires TableAdded(mem, mem', f, n, v, lo, t)
    ensures Tree(mem', f, 4, n) && Below(mem', f, 4, n) == Below(mem, f, 4, n) + {t}
    ensures forall w :: Idx(w, 4) < n ==> Walk(mem', f, 4, w) == Walk(mem, f, 4, w)
    ensures TableAt(mem', f, 4, v, lo - 1) == Some(t) && Missing(mem', f, 4, v) + 1 == Missing(mem, f, 4, v)
  {
    hide Tree, Below, Entry, WithEntry, Idx, Walk, TableAt, SamePath, Missing;
    var e, g := TableEntry(t), TableAt(mem, f, 4, v, lo).value;
    ZeroTable(mem, t, lo - 1);
    ChangedTree(mem, mem', f, 4, n, v, lo, e);
    forall w | Idx(w, 4) < n ensures Walk(mem', f, 4, w) == Walk(mem, f, 4, w) {
      ChangedWalk(mem, mem', f, 4, n, v, lo, e, w);
      if SamePath(v, w, lo, 4) {
        StoppedWalk(mem, f, 4, v, lo, w);
        ZeroWalk(mem, t, lo - 1, w);
      }
    }
    EntryStored(mem[g], Idx(v, lo), e, Idx(v, lo));
    MissingFrom(mem, f, 4, v, lo);
    MissingFrom(mem', f, 4, v, lo);
    assert Under(mem, e, lo - 1) == {t};
    TableInTree(mem, f, 4, n, v, lo);
    assert g != t && mem'[t] == mem[t];
    MissingStep(mem, g, lo, v);
    MissingStep(mem', g, lo, v);
    ZeroWalk(mem', t, lo - 1, v);
  }

  lemma MissingStep(mem: Memory, g: nat, lo: nat, v: nat)
    requires 2 <= lo <= 4 && g < |mem|
    ensures Missing(mem, g, lo, v) ==
      if Present(Entry(mem[g], Idx(v, lo))) then Missing(mem, FrameOf(Entry(mem[g], Idx(v, lo))), lo - 1, v) else lo - 1
  {
  }

  // ----- a leaf

  lemma Halve(q: nat, r: nat)
    ensures (2 * q + r) % 2 == r % 2 && (2 * q + r) / 2 == q + r / 2
  {
  }

  lemma LowBits(p: nat, flags: nat)
    requires flags < 4096
    ensures (4096 * p + flags) / 4096 == p
    ensures Present(4096 * p + flags) == Present(flags)
    ensures Writable(4096 * p + flags) == Writable(flags) && UserBit(4096 * p + flags) == UserBit(flags)
  {
    Halve(2048 * p, flags);
    Halve(1024 * p, flags / 2);
    Halve(512 * p, flags / 2 / 2);
    assert (4096 * p + flags) / 4 == (4096 * p + flags) / 2 / 2 && flags / 4 == flags / 2 / 2;
  }

  /** The leaf entry vmm_map_page writes for frame p: flags | PRESENT in the low bits. */
  function LeafEntry(p: nat, flags: nat): (e: nat)
    requires flags < 4096
    ensures Present(e) && FrameOf(e) == p
    ensures Writable(e) == Writable(flags) && UserBit(e) == UserBit(flags)
  {
    var low := if flags % 2 == 0 then flags + 1 else flags;
    Halve(flags / 2, 1);
    LowBits(p, low);
    4096 * p + low
  }

  /** mem' is mem with the leaf entry of page v replaced by e, for a frame new to the tree. */
  ghost predicate LeafSet(mem: Memory, mem': Memory, f: nat, n: nat, v: nat, e: nat) {
    Present(e) && EntryChanged(mem, mem', f, 4, n, v, 1, e)
  }

  /** Mapping is a pointwise update of the translation; the frame mapped before, if any, leaves the tree. */
  lemma LeafSetEffect(mem: Memory, mem': Memory, f: nat, n: nat, v: nat, e: nat)
    requires LeafSet(mem, mem', f, n, v, e) && v < 0x10_0000_0000
    ensures Tree(mem', f, 4, n)
    ensures Below(mem', f, 4, n) == Below(mem, f, 4, n)
      - (if Walk(mem, f, 4, v).Some? then {FrameOf(Walk(mem, f, 4, v).value)} else {}) + {FrameOf(e)}
    ensures forall w :: w < 0x10_0000_0000 && Idx(w, 4) < n ==>
      Walk(mem', f, 4, w) == if w == v then Some(e) else Walk(mem, f, 4, w)
  {
    hide Tree, Below, Entry, WithEntry, Idx, Walk, TableAt, SamePath;
    ChangedTree(mem, mem', f, 4, n, v, 1, e);
    WentLeaf(mem, f, 4, v);
    forall w: nat | w < 0x10_0000_0000 && Idx(w, 4) < n
      ensures Walk(mem', f, 4, w) == if w == v then Some(e) else Walk(mem, f, 4, w)
    {
      ChangedWalk(mem, mem', f, 4, n, v, 1, e, w);
      PathWhole(v, w);
    }
  }

  lemma PathWhole(v: nat, w: nat)
    requires v < 0x10_0000_0000 && w < 0x10_0000_0000
    ensures SamePath(v, w, 1, 4) <==> v == w
  {
    if SamePath(v, w, 1, 4) {
      IdxDetermine(v, w);
    }
  }

  lemma {:induction false} WentLeaf(mem: Memory, f: nat, level: nat, v: nat)
    requires 1 <= level <= 4 && TableAt(mem, f, level, v, 1).Some?
    ensures Went(mem, f, level, v, 1) ==
      if Walk(mem, f, level, v).Some? then {FrameOf(Walk(mem, f, level, v).value)} else {}
    decreases level
  {
    if level > 1 {
      WentLeaf(mem, FrameOf(Entry(mem[f], Idx(v, level))), level - 1, v);
    }
  }

  // ----- the bytes of a mapped page

  /** Writing to a mapped page changes neither the tree nor the translation. */
  lemma {:induction false} PageWritten(mem: Memory, f: nat, level: nat, n: nat, v: nat, page: Page)
    requires 1 <= level <= 4 && f < |mem| && n <= 512 && Tree(mem, f, level, n) && Idx(v, level) < n
    requires Walk(mem, f, level, v).Some? && FrameOf(Walk(mem, f, level, v).value) < |mem|
    ensures var mem' := mem[FrameOf(Walk(mem, f, level, v).value) := page];
      && FrameOf(Walk(mem, f, level, v).value) != f
      && Tree(mem', f, level, n) && Below(mem', f, level, n) == Below(mem, f, level, n)
      && forall w :: Idx(w, level) < n ==> Walk(mem', f, level, w) == Walk(mem, f, level, w)
    decreases level
  {
    hide Tree, Below, Entry, WithEntry, Idx, TableAt, SubTree, Under;
    var p := FrameOf(Walk(mem, f, level, v).value);
    var mem', i := mem[p := page], Idx(v, level);
    LeafUnder(mem, f, level, n, v);
    BelowEntry(mem, f, level, n, i);
    if level > 1 {
      PageWritten(mem, FrameOf(Entry(mem[f], i)), level - 1, 512, v, page);
      UnderTable(mem, Entry(mem[f], i), level - 1);
    }
    PageWrittenUnder(mem, mem', f, level, i, p);
    forall j | 0 <= j < n && j != i ensures SameUnder(mem, mem', f, level, j) {
      BelowEntry(mem, f, level, n, j);
      BelowApart(mem, f, level, n, i, j);
      UnderFramed(mem, mem', Entry(mem[f], j), level - 1);
    }
    RegrownBelow(mem, mem', f, level, n, i, {}, {}, n);
    forall w | Idx(w, level) < n ensures Walk(mem', f, level, w) == Walk(mem, f, level, w) {
      var j := Idx(w, level);
      WalkUnfold(mem, f, level, w);
      WalkUnfold(mem', f, level, w);
      if j != i {
        BelowEntry(mem, f, level, n, j);
        BelowApart(mem, f, level, n, i, j);
        WalkEntryFramed(mem, mem', Entry(mem[f], j), level - 1, w);
      }
    }
  }

  lemma PageWrittenUnder(mem: Memory, mem': Memory, f: nat, level: nat, i: nat, p: nat)
    requires 1 <= level <= 4 && f < |mem| == |mem'| && mem'[f] == mem[f] && i < 512 && SubTree(mem, Entry(mem[f], i), level - 1)
    requires level > 1 && Present(Entry(mem[f], i)) ==>
      && Tree(mem', FrameOf(Entry(mem[f], i)), level - 1, 512)
      && Below(mem', FrameOf(Entry(mem[f], i)), level - 1, 512) == Below(mem, FrameOf(Entry(mem[f], i)), level - 1, 512)
    ensures Under(mem', Entry(mem'[f], i), level - 1) == Under(mem, Entry(mem[f], i), level - 1)
    ensures SubTree(mem', Entry(mem'[f], i), level - 1)
  {
  }
}
