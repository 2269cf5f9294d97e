/** How many frames a list of mappings takes: which tables the walk of a page still lacks once other
    pages are mapped, and how that changes with one entry write. */
module TableNeeds {
  import opened PageTables

  function Least(a: nat, b: nat): nat { if a < b then a else b }

  /** How many tables the walk of page w can lack at most, once page v is mapped: none below a common
      page table, one below a common directory, two below a common pointer table. */
  function Shared(v: nat, w: nat): nat {
    if v / 512 == w / 512 then 0 else if v / 0x4_0000 == w / 0x4_0000 then 1
    else if v / 0x800_0000 == w / 0x800_0000 then 2 else 3
  }

  /** How many tables page w lacks after the pages of vs have been mapped in an empty space. */
  function Lacking(vs: seq<nat>, w: nat): (l: nat)
    ensures l <= 3
  {
    if vs == [] then 3 else Least(Lacking(vs[..|vs| - 1], w), Shared(vs[|vs| - 1], w))
  }

  /** How many frames the pages of vs take, mapped in order: one each, and the tables each still lacks. */
  function Need(vs: seq<nat>): nat {
    if vs == [] then 0
    else Need(vs[..|vs| - 1]) + 1 + Lacking(vs[..|vs| - 1], vs[|vs| - 1])
  }

  lemma NeedNext(vs: seq<nat>, v: nat)
    ensures Need(vs + [v]) == Need(vs) + 1 + Lacking(vs, v)
    ensures forall w :: Lacking(vs + [v], w) == Least(Lacking(vs, w), Shared(v, w))
  {
    assert (vs + [v])[..|vs|] == vs;
  }

  /** Longer lists take more. */
  lemma {:induction false} NeedGrows(vs: seq<nat>, j: nat)
    requires j <= |vs|
    ensures Need(vs[..j]) + |vs| - j <= Need(vs)
    decreases |vs|
  {
    if j == |vs| {
      assert vs[..j] == vs;
    } else {
      NeedGrows(vs[..|vs| - 1], j);
      assert vs[..|vs| - 1][..j] == vs[..j];
    }
  }

  // ----- the same, counted

  /** The regions of k pages that the pages of vs lie in. */
  ghost function Regions(vs: seq<nat>, k: nat): set<nat>
    requires k > 0
  {
    set i | 0 <= i < |vs| :: vs[i] / k
  }

  lemma RegionsNext(vs: seq<nat>, v: nat, k: nat)
    requires k > 0
    ensures Regions(vs + [v], k) == Regions(vs, k) + {v / k}
  {
    var us := vs + [v];
    forall r | r in Regions(vs, k) + {v / k} ensures r in Regions(us, k) {
      if r == v / k {
        assert us[|vs|] / k == r;
      } else {
        var i :| 0 <= i < |vs| && vs[i] / k == r;
        assert us[i] / k == r;
      }
    }
  }

  /** What a page lacks is decided by the regions of the pages mapped before it. */
  lemma {:induction false} LackingRegions(vs: seq<nat>, w: nat)
    ensures Lacking(vs, w) ==
      if w / 512 in Regions(vs, 512) then 0
      else if w / 0x4_0000 in Regions(vs, 0x4_0000) then 1
      else if w / 0x800_0000 in Regions(vs, 0x800_0000) then 2 else 3
    decreases |vs|
  {
    if vs != [] {
      var us, v := vs[..|vs| - 1], vs[|vs| - 1];
      LackingRegions(us, w);
      assert vs == us + [v];
      RegionsNext(us, v, 512);
      RegionsNext(us, v, 0x4_0000);
      RegionsNext(us, v, 0x800_0000);
    }
  }

  /** A list of mappings takes a frame for each mapping, and a frame for each page table, directory and
      pointer table that its pages lie under, whatever their order. */
  lemma {:induction false} NeedCounts(vs: seq<nat>)
    ensures Need(vs) == |vs| + |Regions(vs, 512)| + |Regions(vs, 0x4_0000)| + |Regions(vs, 0x800_0000)|
    decreases |vs|
  {
    if vs != [] {
      var us, v := vs[..|vs| - 1], vs[|vs| - 1];
      NeedCounts(us);
      assert vs == us + [v];
      RegionsNext(us, v, 512);
      RegionsNext(us, v, 0x4_0000);
      RegionsNext(us, v, 0x800_0000);
      LackingRegions(us, v);
      RegionsNested(us, v);
    }
  }

  /** A page under a known page table is under a known directory, and so on upwards. */
  lemma RegionsNested(vs: seq<nat>, w: nat)
    ensures w / 512 in Regions(vs, 512) ==> w / 0x4_0000 in Regions(vs, 0x4_0000)
    ensures w / 0x4_0000 in Regions(vs, 0x4_0000) ==> w / 0x800_0000 in Regions(vs, 0x800_0000)
  {
    if w / 512 in Regions(vs, 512) {
      var i :| 0 <= i < |vs| && vs[i] / 512 == w / 512;
      assert vs[i] / 0x4_0000 == vs[i] / 512 / 512 == w / 512 / 512 == w / 0x4_0000;
    }
    if w / 0x4_0000 in Regions(vs, 0x4_0000) {
      var i :| 0 <= i < |vs| && vs[i] / 0x4_0000 == w / 0x4_0000;
      assert vs[i] / 0x800_0000 == vs[i] / 0x4_0000 / 512 == w / 0x4_0000 / 512 == w / 0x800_0000;
    }
  }

  // ----- missing tables in memory

  /** Common paths are common regions. */
  lemma SharedPath(v: nat, w: nat)
    requires v < 0x10_0000_0000 && w < 0x10_0000_0000
    ensures SamePath(v, w, 2, 4) <==> v / 512 == w / 512
    ensures SamePath(v, w, 3, 4) <==> v / 0x4_0000 == w / 0x4_0000
    ensures SamePath(v, w, 4, 4) <==> v / 0x800_0000 == w / 0x800_0000
  {
    hide Idx;
    TopIdx(v);
    TopIdx(w);
    PathUnfold(v, w, 2, 4);
    PathUnfold(v, w, 2, 3);
    PathUnfold(v, w, 2, 2);
    PathUnfold(v, w, 3, 4);
    PathUnfold(v, w, 3, 3);
    PathUnfold(v, w, 4, 4);
  }

  lemma TopIdx(v: nat)
    requires v < 0x10_0000_0000
    ensures v / 0x800_0000 == Idx(v, 4)
    ensures v / 0x4_0000 == 512 * (v / 0x800_0000) + Idx(v, 3)
    ensures v / 512 == 512 * (v / 0x4_0000) + Idx(v, 2)
  {
    assert v / 0x4_0000 / 512 == v / 0x800_0000;
    assert v / 512 / 512 == v / 0x4_0000;
  }

  /** How many tables the walk of page w lacks from an entry on. */
  ghost function MissingEntry(mem: Memory, e: nat, level: nat, w: nat): nat
    requires level <= 3
  {
    if level == 0 then 0 else if !Present(e) then level else Missing(mem, FrameOf(e), level, w)
  }

  lemma MissingUnfold(mem: Memory, f: nat, level: nat, w: nat)
    requires 1 <= level <= 4 && f < |mem|
    ensures Missing(mem, f, level, w) == MissingEntry(mem, Entry(mem[f], Idx(w, level)), level - 1, w)
  {
  }

  lemma {:induction false} MissingFramed(mem: Memory, mem': Memory, f: nat, level: nat, n: nat, v: nat)
    requires 1 <= level <= 4 && f < |mem| == |mem'| && n <= 512 && Tree(mem, f, level, n) && mem'[f] == mem[f]
    requires forall x :: x in Below(mem, f, level, n) && x < |mem| ==> mem'[x] == mem[x]
    requires Idx(v, level) < n
    ensures Missing(mem', f, level, v) == Missing(mem, f, level, v)
    decreases level
  {
    var e := Entry(mem[f], Idx(v, level));
    if Present(e) && level > 1 {
      BelowEntry(mem, f, level, n, Idx(v, level));
      MissingFramed(mem, mem', FrameOf(e), level - 1, 512, v);
    }
  }

  lemma MissingEntryFramed(mem: Memory, mem': Memory, e: nat, level: nat, v: nat)
    requires |mem| == |mem'| && SubTree(mem, e, level) && level <= 3
    requires forall x :: x in Under(mem, e, level) && x < |mem| ==> mem'[x] == mem[x]
    ensures MissingEntry(mem', e, level, v) == MissingEntry(mem, e, level, v)
  {
    if Present(e) && level > 0 {
      MissingFramed(mem, mem', FrameOf(e), level, 512, v);
    }
  }

  /** What every page lacks after one entry write. */
  lemma {:induction false} MissingChanged(mem: Memory, mem': Memory, f: nat, level: nat, n: nat, v: nat, lo: nat, e: nat, w: nat)
    requires EntryChanged(mem, mem', f, level, n, v, lo, e) && Idx(w, level) < n
    ensures Missing(mem', f, level, w) ==
      if SamePath(v, w, lo, level) then MissingEntry(mem, e, lo - 1, w) else Missing(mem, f, level, w)
    decreases level
  {
    hide Under, SubTree, Tree, Below, Entry, WithEntry, Idx, TableAt, SameUnder, Missing, MissingEntry;
    var i, j := Idx(v, level), Idx(w, level);
    MissingUnfold(mem, f, level, w);
    MissingUnfold(mem', f, level, w);
    PathUnfold(v, w, lo, level);
    BelowEntry(mem, f, level, n, j);
    if lo == level {
      TableTop(mem, f, level, v);
      EntryStored(mem[f], i, e, j);
      BelowSelf(mem, f, level, n);
      MissingEntryFramed(mem, mem', if j == i then e else Entry(mem[f], j), level - 1, w);
    } else {
      ChangedDown(mem, mem', f, level, n, v, lo, e);
      if j == i {
        MissingChanged(mem, mem', FrameOf(Entry(mem[f], i)), level - 1, 512, v, lo, e, w);
        MissingPresent(mem, Entry(mem[f], i), level - 1, w);
        MissingPresent(mem', Entry(mem[f], i), level - 1, w);
      } else {
        ChangedAside(mem, mem', f, level, n, v, lo, e, j);
        MissingEntryFramed(mem, mem', Entry(mem[f], j), level - 1, w);
      }
    }
  }

  lemma MissingPresent(mem: Memory, e: nat, level: nat, w: nat)
    requires 1 <= level <= 3 && Present(e)
    ensures MissingEntry(mem, e, level, w) == Missing(mem, FrameOf(e), level, w)
  {
  }

  /** Pages that share the path down to a table lack no more than what is below it. */
  lemma {:induction false} MissingReached(mem: Memory, f: nat, level: nat, v: nat, lo: nat, w: nat)
    requires 1 <= lo < level <= 4 && TableAt(mem, f, level, v, lo).Some? && SamePath(v, w, lo + 1, level)
    ensures Missing(mem, f, level, w) < lo
    decreases level
  {
    PathUnfold(v, w, lo + 1, level);
    if lo + 1 < level {
      MissingReached(mem, FrameOf(Entry(mem[f], Idx(v, level))), level - 1, v, lo, w);
    }
  }

  /** Pages that share the path down to an empty entry lack everything from there on. */
  lemma {:induction false} MissingStopped(mem: Memory, f: nat, level: nat, v: nat, lo: nat, w: nat)
    requires 2 <= lo <= level <= 4 && TableAt(mem, f, level, v, lo).Some? && SamePath(v, w, lo, level)
    requires var g := TableAt(mem, f, level, v, lo).value; g < |mem| && !Present(Entry(mem[g], Idx(v, lo)))
    ensures Missing(mem, f, level, w) == lo - 1
    decreases level
  {
    PathUnfold(v, w, lo, level);
    if lo < level {
      MissingStopped(mem, FrameOf(Entry(mem[f], Idx(v, level))), level - 1, v, lo, w);
    }
  }

  /** Writing to a mapped page supplies and removes no table. */
  lemma {:induction false} PageWrittenMissing(mem: Memory, f: nat, level: nat, n: nat, v: nat, page: Page, w: nat)
    requires 1 <= level <= 4 && f < |mem| && n <= 512 && Tree(mem, f, level, n) && Idx(v, level) < n && Idx(w, level) < n
    requires Walk(mem, f, level, v).Some? && FrameOf(Walk(mem, f, level, v).value) < |mem|
    ensures var mem' := mem[FrameOf(Walk(mem, f, level, v).value) := page];
      Missing(mem', f, level, w) == Missing(mem, f, level, w)
    decreases level
  {
    hide Tree, Below, Entry, WithEntry, Idx, TableAt, SubTree, Under, Missing;
    var p := FrameOf(Walk(mem, f, level, v).value);
    var mem', i, j := mem[p := page], Idx(v, level), Idx(w, level);
    PageWritten(mem, f, level, n, v, page);
    MissingUnfold(mem, f, level, w);
    MissingUnfold(mem', f, level, w);
    LeafUnder(mem, f, level, n, v);
    BelowEntry(mem, f, level, n, i);
    BelowEntry(mem, f, level, n, j);
    if j != i {
      BelowApart(mem, f, level, n, i, j);
      MissingEntryFramed(mem, mem', Entry(mem[f], j), level - 1, w);
    } else if level > 1 {
      UnderTable(mem, Entry(mem[f], i), level - 1);
      PageWrittenMissing(mem, FrameOf(Entry(mem[f], i)), level - 1, 512, v, page, w);
    }
  }
}
